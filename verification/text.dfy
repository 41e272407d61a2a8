/** The string operations the pipeline applies to identifiers and option values,
    with Python 2 byte-string semantics: `strip()`, `lower()`, `split(',')`,
    `splitlines()`, and the newline-terminated writing of one item per line. */
module Text {

  /** The characters Python 2's `str.strip()` removes when given no argument:
      space, tab, line feed, carriage return, vertical tab and form feed. */
  predicate IsSpace(c: char) {
    c == ' ' || c == '\t' || c == '\n' || c == '\r' || c == '\U{B}' || c == '\U{C}'
  }

  predicate AllSpace(s: string) {
    forall i :: 0 <= i < |s| ==> IsSpace(s[i])
  }

  /** A string with no whitespace at either end. */
  predicate IsStripped(s: string) {
    |s| == 0 || (!IsSpace(s[0]) && !IsSpace(s[|s| - 1]))
  }

  /** Drops leading whitespace: the longest suffix that does not start with a space. */
  function TrimStart(s: string): (r: string)
    ensures |r| <= |s| && r == s[|s| - |r|..]
    ensures AllSpace(s[..|s| - |r|])
    ensures |r| == 0 || !IsSpace(r[0])
  {
    if |s| > 0 && IsSpace(s[0]) then
      var r := TrimStart(s[1..]);
      assert s[..|s| - |r|] == [s[0]] + s[1..][..|s| - 1 - |r|];
      r
    else
      s
  }

  /** Drops trailing whitespace: the longest prefix that does not end with a space. */
  function TrimEnd(s: string): (r: string)
    ensures |r| <= |s| && r == s[..|r|]
    ensures AllSpace(s[|r|..])
    ensures |r| == 0 || !IsSpace(r[|r| - 1])
  {
    if |s| > 0 && IsSpace(s[|s| - 1]) then
      var r := TrimEnd(s[..|s| - 1]);
      assert s[|r|..] == s[..|s| - 1][|r|..] + [s[|s| - 1]];
      r
    else
      s
  }

  /** `r` is `s` with some whitespace removed from each end, and nothing else. */
  predicate StripsTo(s: string, r: string) {
    exists i :: 0 <= i <= |s| - |r| && r == s[i..i + |r|] && AllSpace(s[..i]) && AllSpace(s[i + |r|..])
  }

  /** Python's `s.strip()`: the part of `s` between its leading and its
      trailing whitespace. */
  function Strip(s: string): (r: string)
    ensures IsStripped(r)
    ensures StripsTo(s, r)
    ensures IsStripped(s) ==> r == s
    ensures forall k :: 0 <= k < |r| ==> r[k] in s
  {
    StripFacts(s);
    TrimEnd(TrimStart(s))
  }

  lemma StripFacts(s: string)
    ensures var r := TrimEnd(TrimStart(s));
      && IsStripped(r)
      && StripsTo(s, r)
      && (IsStripped(s) ==> r == s)
      && (forall k :: 0 <= k < |r| ==> r[k] in s)
  {
    var t := TrimStart(s);
    var r := TrimEnd(t);
    var i := |s| - |t|;
    assert t == s[i..];
    assert r == s[i..i + |r|];
    assert s[i + |r|..] == t[|r|..];
    assert AllSpace(s[..i]) && AllSpace(s[i + |r|..]);
    assert StripsTo(s, r);
    forall k | 0 <= k < |r|
      ensures r[k] in s
    {
      assert r[k] == s[i + k];
    }
  }

  /** Stripping twice is stripping once. */
  lemma StripIdempotent(s: string)
    ensures Strip(Strip(s)) == Strip(s)
  {
  }

  predicate IsUpper(c: char) {
    'A' <= c <= 'Z'
  }

  function LowerChar(c: char): char {
    if IsUpper(c) then (c as int + 32) as char else c
  }

  /** Python 2's `str.lower()`: ASCII capitals become small letters, every
      other character is kept. */
  function Lower(s: string): (r: string)
    ensures |r| == |s|
    ensures forall i :: 0 <= i < |s| ==> !IsUpper(r[i])
    ensures forall i :: 0 <= i < |s| ==> r[i] == s[i] || (IsUpper(s[i]) && r[i] as int == s[i] as int + 32)
    ensures (forall i :: 0 <= i < |s| ==> !IsUpper(s[i])) ==> r == s
  {
    seq(|s|, i requires 0 <= i < |s| => LowerChar(s[i]))
  }

  /** Lower-casing keeps a character that is no letter, and makes no new one. */
  lemma LowerCharKeeps(c: char, d: char)
    requires !IsUpper(d) && !('a' <= d <= 'z')
    ensures LowerChar(c) == d <==> c == d
  {
  }

  /** Lower-casing neither adds nor removes whitespace at either end. */
  lemma StripLower(s: string)
    ensures Strip(Lower(s)) == Lower(Strip(s))
  {
    TrimStartLower(s);
    TrimEndLower(TrimStart(s));
  }

  lemma {:induction false} TrimStartLower(s: string)
    ensures TrimStart(Lower(s)) == Lower(TrimStart(s))
    decreases |s|
  {
    if |s| > 0 {
      var t := Lower(s);
      LowerFirst(s);
      if IsSpace(s[0]) {
        TrimStartLower(s[1..]);
      } else {
        assert !IsSpace(t[0]);
      }
    }
  }

  lemma {:induction false} TrimEndLower(s: string)
    ensures TrimEnd(Lower(s)) == Lower(TrimEnd(s))
    decreases |s|
  {
    if |s| > 0 {
      var t := Lower(s);
      LowerLast(s);
      if IsSpace(s[|s| - 1]) {
        TrimEndLower(s[..|s| - 1]);
      } else {
        assert !IsSpace(t[|t| - 1]);
      }
    }
  }

  /** The first character of the lower-cased string, and the rest. */
  lemma LowerFirst(s: string)
    requires |s| > 0
    ensures |Lower(s)| == |s|
    ensures Lower(s)[0] == LowerChar(s[0]) && (IsSpace(Lower(s)[0]) <==> IsSpace(s[0]))
    ensures Lower(s)[1..] == Lower(s[1..])
  {
  }

  /** The last character of the lower-cased string, and the rest. */
  lemma LowerLast(s: string)
    requires |s| > 0
    ensures |Lower(s)| == |s|
    ensures Lower(s)[|s| - 1] == LowerChar(s[|s| - 1]) && (IsSpace(Lower(s)[|s| - 1]) <==> IsSpace(s[|s| - 1]))
    ensures Lower(s)[..|s| - 1] == Lower(s[..|s| - 1])
  {
  }

  /** The first position of `c` in `s`. */
  function IndexOf(s: string, c: char): (i: nat)
    requires c in s
    ensures i < |s| && s[i] == c && c !in s[..i]
  {
    if s[0] == c then 0 else 1 + IndexOf(s[1..], c)
  }

  /** `sep.join(parts)` for a one-character separator. */
  function Join(parts: seq<string>, sep: char): string {
    if |parts| == 0 then ""
    else if |parts| == 1 then parts[0]
    else parts[0] + [sep] + Join(parts[1..], sep)
  }

  /** Python's `s.split(sep)` for a one-character separator: the pieces between
      separators, including empty ones; never an empty list. */
  function Split(s: string, sep: char): (parts: seq<string>)
    ensures |parts| >= 1
    ensures forall k :: 0 <= k < |parts| ==> sep !in parts[k]
    ensures Join(parts, sep) == s
    ensures forall k, i :: 0 <= k < |parts| && 0 <= i < |parts[k]| ==> parts[k][i] in s
    decreases |s|
  {
    if sep !in s then [s]
    else
      var i := IndexOf(s, sep);
      var rest := Split(s[i + 1..], sep);
      assert s == s[..i] + [sep] + s[i + 1..];
      [s[..i]] + rest
  }

  /** A separator-free piece followed by the separator is the first piece `split` reports. */
  lemma SplitCons(piece: string, sep: char, rest: string)
    requires sep !in piece
    ensures Split(piece + [sep] + rest, sep) == [piece] + Split(rest, sep)
  {
    var s := piece + [sep] + rest;
    assert s[|piece|] == sep;
    var i := IndexOf(s, sep);
    assert i == |piece|;
    assert s[..i] == piece;
    assert s[i + 1..] == rest;
  }

  /** Splitting the lower-cased string at a separator that is no letter gives
      the lower-cased parts. */
  lemma {:induction false} LowerSplit(s: string, sep: char)
    requires !IsUpper(sep) && !('a' <= sep <= 'z')
    ensures |Split(Lower(s), sep)| == |Split(s, sep)|
    ensures forall k :: 0 <= k < |Split(s, sep)| ==> Split(Lower(s), sep)[k] == Lower(Split(s, sep)[k])
    decreases |s|
  {
    if sep in s {
      var i := IndexOf(s, sep);
      var head, tail := s[..i], s[i + 1..];
      LowerAround(s, i);
      LowerKeepsOut(head, sep);
      SplitCons(Lower(head), sep, Lower(tail));
      LowerSplit(tail, sep);
      var lowered, parts := Split(Lower(s), sep), Split(s, sep);
      assert lowered == [Lower(head)] + Split(Lower(tail), sep);
      assert parts == [head] + Split(tail, sep);
      forall k | 0 <= k < |parts|
        ensures lowered[k] == Lower(parts[k])
      {
        if k > 0 {
          assert lowered[k] == Split(Lower(tail), sep)[k - 1];
        }
      }
    } else {
      LowerKeepsOut(s, sep);
    }
  }

  /** The lower-cased string around position `i`. */
  lemma LowerAround(s: string, i: nat)
    requires i < |s|
    ensures Lower(s) == Lower(s[..i]) + [LowerChar(s[i])] + Lower(s[i + 1..])
  {
    var t := Lower(s[..i]) + [LowerChar(s[i])] + Lower(s[i + 1..]);
    assert |t| == |s|;
    forall j | 0 <= j < |s|
      ensures t[j] == Lower(s)[j]
    {
      if j > i {
        assert t[j] == Lower(s[i + 1..])[j - i - 1];
      }
    }
  }

  /** A separator that is no letter does not appear in the lower-cased string
      when it does not appear in the string. */
  lemma LowerKeepsOut(s: string, sep: char)
    requires !IsUpper(sep) && !('a' <= sep <= 'z') && sep !in s
    ensures sep !in Lower(s)
  {
    forall j | 0 <= j < |s|
      ensures Lower(s)[j] != sep
    {
      LowerCharKeeps(s[j], sep);
    }
  }

  /** Splitting a joined list of separator-free pieces gives the pieces back. */
  lemma {:induction false} SplitJoin(parts: seq<string>, sep: char)
    requires |parts| >= 1
    requires forall k :: 0 <= k < |parts| ==> sep !in parts[k]
    ensures Split(Join(parts, sep), sep) == parts
  {
    if |parts| > 1 {
      SplitCons(parts[0], sep, Join(parts[1..], sep));
      SplitJoin(parts[1..], sep);
    }
  }

  predicate IsLineBreak(c: char) {
    c == '\n' || c == '\r'
  }

  predicate HasNoBreak(s: string) {
    forall i :: 0 <= i < |s| ==> !IsLineBreak(s[i])
  }

  /** The position of the first line break in `s`, or `|s|` when there is none. */
  function BreakIndex(s: string): (i: nat)
    ensures i <= |s| && HasNoBreak(s[..i])
    ensures i < |s| ==> IsLineBreak(s[i])
  {
    if |s| == 0 || IsLineBreak(s[0]) then 0
    else
      var j := BreakIndex(s[1..]);
      assert s[..1 + j] == [s[0]] + s[1..][..j];
      1 + j
  }

  /** A break-free stretch followed by a break is found by `BreakIndex`. */
  lemma BreakIndexAt(s: string, i: nat)
    requires i < |s| && HasNoBreak(s[..i]) && IsLineBreak(s[i])
    ensures BreakIndex(s) == i
  {
  }

  /** The characters of `s` that are not line breaks, in order. */
  function RemoveBreaks(s: string): string {
    if |s| == 0 then ""
    else (if IsLineBreak(s[0]) then "" else [s[0]]) + RemoveBreaks(s[1..])
  }

  /** The lines, concatenated with nothing between them. */
  function Concat(lines: seq<string>): string {
    if |lines| == 0 then "" else lines[0] + Concat(lines[1..])
  }

  lemma {:induction false} RemoveBreaksAppend(a: string, b: string)
    ensures RemoveBreaks(a + b) == RemoveBreaks(a) + RemoveBreaks(b)
  {
    if |a| > 0 {
      assert (a + b)[1..] == a[1..] + b;
      RemoveBreaksAppend(a[1..], b);
    } else {
      assert a + b == b;
    }
  }

  lemma {:induction false} RemoveBreaksKeeps(s: string)
    requires HasNoBreak(s)
    ensures RemoveBreaks(s) == s
  {
    if |s| > 0 {
      RemoveBreaksKeeps(s[1..]);
    }
  }

  /** A line ending, one or two break characters long, leaves nothing behind. */
  lemma RemoveBreaksEnding(ending: string)
    requires 1 <= |ending| <= 2 && IsLineBreak(ending[0]) && IsLineBreak(ending[|ending| - 1])
    ensures RemoveBreaks(ending) == ""
  {
    assert RemoveBreaks(ending[|ending| - 1..]) == "";
  }

  /** Python 2's `str.splitlines()`: the lines of `s` without their endings,
      where a line ends at "\n", "\r" or "\r\n"; a final line ending adds no
      empty line, and the empty string has no lines. */
  function SplitLines(s: string): (lines: seq<string>)
    ensures forall k :: 0 <= k < |lines| ==> HasNoBreak(lines[k])
    ensures |s| > 0 ==> |lines| > 0
    decreases |s|
  {
    if |s| == 0 then []
    else
      var i := BreakIndex(s);
      if i == |s| then assert s[..i] == s; [s]
      else
        var next := if s[i] == '\r' && i + 1 < |s| && s[i + 1] == '\n' then i + 2 else i + 1;
        [s[..i]] + SplitLines(s[next..])
  }

  /** The lines hold every character of `s` that is not a line break, in
      order, and nothing else. */
  lemma {:induction false} SplitLinesKeepsText(s: string)
    ensures Concat(SplitLines(s)) == RemoveBreaks(s)
    decreases |s|
  {
    if |s| > 0 {
      var i := BreakIndex(s);
      if i == |s| {
        assert s[..i] == s;
        RemoveBreaksKeeps(s);
      } else {
        var next := if s[i] == '\r' && i + 1 < |s| && s[i + 1] == '\n' then i + 2 else i + 1;
        var rest := SplitLines(s[next..]);
        SplitLinesKeepsText(s[next..]);
        SplitLinesPieces(s, i, next);
        assert ([s[..i]] + rest)[1..] == rest;
      }
    }
  }

  /** Cutting `s` at a line ending between `i` and `next` keeps its other characters. */
  lemma {:induction false} SplitLinesPieces(s: string, i: nat, next: nat)
    requires i < next <= i + 2 && next <= |s| && HasNoBreak(s[..i])
    requires IsLineBreak(s[i]) && IsLineBreak(s[next - 1])
    ensures RemoveBreaks(s) == s[..i] + RemoveBreaks(s[next..])
  {
    var head, ending, tail := s[..i], s[i..next], s[next..];
    assert s[i..] == ending + tail;
    assert s == head + s[i..];
    RemoveBreaksAppend(head, ending + tail);
    RemoveBreaksAppend(ending, tail);
    RemoveBreaksKeeps(head);
    RemoveBreaksEnding(ending);
  }

  /** Every line followed by "\n", concatenated: how the pipeline writes its
      newline-delimited artifacts. */
  function UnLines(lines: seq<string>): (s: string)
    ensures |s| >= |lines|
  {
    if |lines| == 0 then "" else lines[0] + "\n" + UnLines(lines[1..])
  }

  /** A break-free line followed by "\n" is the first line `splitlines()` reports. */
  lemma SplitLinesCons(line: string, rest: string)
    requires HasNoBreak(line)
    ensures SplitLines(line + "\n" + rest) == [line] + SplitLines(rest)
  {
    var s := line + "\n" + rest;
    assert s[..|line|] == line;
    BreakIndexAt(s, |line|);
    assert s[|line| + 1..] == rest;
  }

  /** "\r\n" ends a line once: no empty line appears between its two characters. */
  lemma SplitLinesCrLf(line: string, rest: string)
    requires HasNoBreak(line)
    ensures SplitLines(line + "\r\n" + rest) == [line] + SplitLines(rest)
  {
    var s := line + "\r\n" + rest;
    assert s[..|line|] == line;
    BreakIndexAt(s, |line|);
    assert s[|line| + 2..] == rest;
  }

  /** A lone "\r" ends a line too. */
  lemma SplitLinesCr(line: string, rest: string)
    requires HasNoBreak(line)
    requires |rest| == 0 || rest[0] != '\n'
    ensures SplitLines(line + "\r" + rest) == [line] + SplitLines(rest)
  {
    var s := line + "\r" + rest;
    assert s[..|line|] == line;
    BreakIndexAt(s, |line|);
    assert s[|line| + 1..] == rest;
  }

  /** A last line without a line ending is kept. */
  lemma SplitLinesLast(line: string)
    requires |line| > 0 && HasNoBreak(line)
    ensures SplitLines(line) == [line]
  {
    var i := BreakIndex(line);
    assert i == |line|;
    assert line[..i] == line;
  }

  /** Lines written one per line and read back with `splitlines()` come back
      unchanged, provided none of them holds a line break. */
  lemma {:induction false} SplitLinesUnLines(lines: seq<string>)
    requires forall k :: 0 <= k < |lines| ==> HasNoBreak(lines[k])
    ensures SplitLines(UnLines(lines)) == lines
  {
    if |lines| > 0 {
      SplitLinesCons(lines[0], UnLines(lines[1..]));
      SplitLinesUnLines(lines[1..]);
    }
  }

  /** The text `UnLines` produces: only "\n" line endings, and a final one. */
  predicate IsNewlineTerminated(s: string) {
    && (forall i :: 0 <= i < |s| ==> s[i] != '\r')
    && (|s| == 0 || s[|s| - 1] == '\n')
  }

  /** The other direction: newline-terminated text is rebuilt exactly from its lines. */
  lemma {:induction false} UnLinesSplitLines(s: string)
    requires IsNewlineTerminated(s)
    ensures UnLines(SplitLines(s)) == s
    decreases |s|
  {
    if |s| > 0 {
      var i := BreakIndex(s);
      var line, rest := s[..i], s[i + 1..];
      assert s == line + "\n" + rest;
      SplitLinesCons(line, rest);
      UnLinesSplitLines(rest);
      assert ([line] + SplitLines(rest))[1..] == SplitLines(rest);
    }
  }
}
