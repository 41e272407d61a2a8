/** The `studies_to_retrieve.txt` artifact: one original study identifier per
    line, written by the review stage and read back by later stages. */
module StudyList {
  import opened Text

  /** The writer: each identifier followed by "\n". The file ends with a line
      ending unless it is empty, and identifiers without line breaks are its
      lines. */
  function Serialise(uids: seq<string>): (text: string)
    ensures |uids| == 0 <==> text == ""
    ensures |uids| > 0 ==> text[|text| - 1] == '\n'
    ensures (forall k :: 0 <= k < |uids| ==> HasNoBreak(uids[k])) ==> SplitLines(text) == uids
  {
    WrittenShape(uids);
    UnLines(uids)
  }

  lemma {:induction false} WrittenShape(uids: seq<string>)
    ensures |uids| == 0 <==> UnLines(uids) == ""
    ensures |uids| > 0 ==> UnLines(uids)[|UnLines(uids)| - 1] == '\n'
    ensures (forall k :: 0 <= k < |uids| ==> HasNoBreak(uids[k])) ==> SplitLines(UnLines(uids)) == uids
  {
    if |uids| > 0 {
      WrittenShape(uids[1..]);
    }
    if forall k :: 0 <= k < |uids| ==> HasNoBreak(uids[k]) {
      SplitLinesUnLines(uids);
    }
  }

  /** `get_study_list`: the file's `splitlines()`, each line `strip()`ped. */
  function Parse(text: string): (uids: seq<string>)
    ensures |uids| == |SplitLines(text)|
    ensures forall k :: 0 <= k < |uids| ==> uids[k] == Strip(SplitLines(text)[k])
    ensures forall k :: 0 <= k < |uids| ==> IsStripped(uids[k]) && HasNoBreak(uids[k])
  {
    var lines := SplitLines(text);
    seq(|lines|, k requires 0 <= k < |lines| => Strip(lines[k]))
  }

  /** Identifiers without line breaks or surrounding whitespace survive being
      written and read back, in order and with repetitions. */
  lemma RoundTrip(uids: seq<string>)
    requires forall k :: 0 <= k < |uids| ==> HasNoBreak(uids[k]) && IsStripped(uids[k])
    ensures Parse(Serialise(uids)) == uids
  {
    SplitLinesUnLines(uids);
  }

  /** A file the writer produced is read back as one entry per identifier
      written, each stripped of surrounding whitespace. */
  lemma ParseSerialised(uids: seq<string>)
    requires forall k :: 0 <= k < |uids| ==> HasNoBreak(uids[k])
    ensures |Parse(Serialise(uids))| == |uids|
    ensures forall k :: 0 <= k < |uids| ==> Parse(Serialise(uids))[k] == Strip(uids[k])
  {
    SplitLinesUnLines(uids);
  }
}
