/** Choosing the run directory: a fresh `data/run_at_<now>`, or with `--runlast`
    the earlier run directory with the largest number. */
module RunSelection {
  import opened Wrappers
  import opened Numerals

  const RunPrefix: string := "run_at_"

  /** One name from `os.listdir("data")`, with whether `os.path.isdir` holds of it. */
  datatype Listing = Listing(name: string, isDir: bool)

  /** `run_re.match(name)` and then `int(match.group(1))`. The pattern
      `run_at_(\d+)` is anchored at the start only: whatever follows the
      digits is ignored. */
  function RunNumber(name: string): (r: Option<nat>)
    ensures r.Some? <==> |name| > |RunPrefix| && name[..|RunPrefix|] == RunPrefix && IsDigit(name[|RunPrefix|])
    ensures r.Some? ==> var d := LeadingDigits(name[|RunPrefix|..]);
      && |d| > 0
      && name == RunPrefix + d + name[|RunPrefix| + |d|..]
      && r.value == DigitsValue(d)
  {
    if |name| > |RunPrefix| && name[..|RunPrefix|] == RunPrefix && IsDigit(name[|RunPrefix|])
    then Some(DigitsValue(LeadingDigits(name[|RunPrefix|..])))
    else None
  }

  /** `"run_at_%d" % n` */
  function RunDirName(n: nat): string {
    RunPrefix + Decimal(n)
  }

  /** `os.path.sep.join(["data", name])` with the POSIX separator. */
  function DataPath(name: string): string {
    "data/" + name
  }

  /** A run directory's name carries its number back, whatever text follows
      it that does not start with a digit: `run_at_5_old` counts as run 5. */
  lemma RunNumberOfRunDirName(n: nat, suffix: string)
    requires suffix == "" || !IsDigit(suffix[0])
    ensures RunNumber(RunDirName(n) + suffix) == Some(n)
  {
    var name := RunDirName(n) + suffix;
    var d := Decimal(n);
    assert name[..|RunPrefix|] == RunPrefix;
    assert name[|RunPrefix|..] == d + suffix;
    LeadingDigitsOf(d, suffix);
    DecimalRoundTrip(n);
  }

  /** The greedy digit match stops exactly where the digits stop. */
  lemma {:induction false} LeadingDigitsOf(d: string, suffix: string)
    requires AllDigits(d)
    requires suffix == "" || !IsDigit(suffix[0])
    ensures LeadingDigits(d + suffix) == d
  {
    if |d| > 0 {
      assert (d + suffix)[1..] == d[1..] + suffix;
      LeadingDigitsOf(d[1..], suffix);
      assert d == [d[0]] + d[1..];
    } else {
      assert d + suffix == suffix;
    }
  }

  /** Leading zeros are read through and a suffix is ignored, so the
      directory chosen from such a name is named after the number alone. */
  lemma RunNumberExamples()
    ensures RunNumber("run_at_007") == Some(7)
    ensures RunNumber("run_at_5_old") == Some(5)
    ensures RunNumber("run_at_") == None && RunNumber("run_at_x1") == None
    ensures RunDirName(7) == "run_at_7"
  {
    assert "run_at_007"[|RunPrefix|..] == "007";
    assert LeadingDigits("7") == "7";
    assert LeadingDigits("07") == "07";
    assert LeadingDigits("007") == "007";
    assert DigitsValue("007") == 7 by {
      assert "007"[..2] == "00" && "00"[..1] == "0";
    }
    assert "run_at_5_old"[|RunPrefix|..] == "5_old";
    assert LeadingDigits("5_old") == "5";
  }

  /** An entry the scan takes as an earlier run: a directory whose name matches. */
  predicate IsRun(l: Listing) {
    l.isDir && RunNumber(l.name).Some?
  }

  function RunOf(l: Listing): nat
    requires IsRun(l)
  {
    RunNumber(l.name).value
  }

  /** The loop of `--runlast`: the largest run number among the directories,
      or 0 when there is none. */
  method LastRun(listing: seq<Listing>) returns (last: nat)
    ensures forall i :: 0 <= i < |listing| && IsRun(listing[i]) ==> RunOf(listing[i]) <= last
    ensures last == 0 || exists i :: 0 <= i < |listing| && IsRun(listing[i]) && RunOf(listing[i]) == last
  {
    last := 0;
    for k := 0 to |listing|
      invariant forall i :: 0 <= i < k && IsRun(listing[i]) ==> RunOf(listing[i]) <= last
      invariant last == 0 || exists i :: 0 <= i < k && IsRun(listing[i]) && RunOf(listing[i]) == last
    {
      if listing[k].isDir {
        var m := RunNumber(listing[k].name);
        if m.Some? {
          if last < m.value {
            last := m.value;
          }
        }
      }
    }
  }

  /** Some directory names a run with a positive number. */
  predicate HasEarlierRun(listing: seq<Listing>) {
    exists i :: 0 <= i < |listing| && IsRun(listing[i]) && RunOf(listing[i]) > 0
  }

  /** The run directory. Without `--runlast`, or without a `data` directory
      (`data` is `None`), it is the fresh one named after `now`. With both, it
      is the directory named after the largest run number found, if that
      number is positive, and the fresh one otherwise. */
  method SelectRunDir(runLast: bool, data: Option<seq<Listing>>, now: nat) returns (runDir: string)
    ensures !runLast || data.None? ==> runDir == DataPath(RunDirName(now))
    ensures runLast && data.Some? && !HasEarlierRun(data.value) ==> runDir == DataPath(RunDirName(now))
    ensures runLast && data.Some? && HasEarlierRun(data.value) ==>
      exists i :: 0 <= i < |data.value| && IsRun(data.value[i])
        && runDir == DataPath(RunDirName(RunOf(data.value[i])))
        && forall j :: 0 <= j < |data.value| && IsRun(data.value[j]) ==> RunOf(data.value[j]) <= RunOf(data.value[i])
  {
    runDir := DataPath(RunDirName(now));
    if runLast && data.Some? {
      var last := LastRun(data.value);
      if last != 0 {
        runDir := DataPath(RunDirName(last));
      }
    }
  }
}
