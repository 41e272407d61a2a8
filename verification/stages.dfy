/** The pipeline's stages and their order, the target `main` asks for, and the
    small decisions the anonymize and post-anonymization stages take. */
module Stages {
  import opened Wrappers
  import opened Text
  import Loader

  /** The stages, each following the one before it. */
  datatype Stage =
    | SetupDataDir
    | GetReviewedStudies
    | StartDicomServer
    | RequestDicomFiles
    | StopDicomServer
    | Anonymize
    | CheckPatientProtocol
    | PostAnon
    | PushToProduction
    | SetAsPushed

  /** The stage a stage `@follows`; the first follows none. */
  function Predecessor(s: Stage): Option<Stage> {
    match s
    case SetupDataDir => None
    case GetReviewedStudies => Some(SetupDataDir)
    case StartDicomServer => Some(GetReviewedStudies)
    case RequestDicomFiles => Some(StartDicomServer)
    case StopDicomServer => Some(RequestDicomFiles)
    case Anonymize => Some(StopDicomServer)
    case CheckPatientProtocol => Some(Anonymize)
    case PostAnon => Some(CheckPatientProtocol)
    case PushToProduction => Some(PostAnon)
    case SetAsPushed => Some(PushToProduction)
  }

  /** How many stages precede a stage. */
  function Rank(s: Stage): nat {
    match s
    case SetupDataDir => 0
    case GetReviewedStudies => 1
    case StartDicomServer => 2
    case RequestDicomFiles => 3
    case StopDicomServer => 4
    case Anonymize => 5
    case CheckPatientProtocol => 6
    case PostAnon => 7
    case PushToProduction => 8
    case SetAsPushed => 9
  }

  /** The stages run to reach `target`: it and, transitively, what it follows,
      first stage first. */
  function Ancestry(target: Stage): (run: seq<Stage>)
    ensures |run| == Rank(target) + 1
    ensures run[|run| - 1] == target
    ensures forall i :: 0 <= i < |run| ==> Rank(run[i]) == i
    decreases Rank(target)
  {
    PredecessorRank(target);
    match Predecessor(target)
    case None => [target]
    case Some(p) => Ancestry(p) + [target]
  }

  /** A stage's predecessor is the stage ranked just before it. */
  lemma PredecessorRank(s: Stage)
    ensures Predecessor(s).None? <==> Rank(s) == 0
    ensures Predecessor(s).Some? ==> Rank(Predecessor(s).value) + 1 == Rank(s)
  {
  }

  /** A stage runs exactly when it is not later than the target. */
  lemma InAncestry(target: Stage, s: Stage)
    ensures s in Ancestry(target) <==> Rank(s) <= Rank(target)
  {
    var run := Ancestry(target);
    if Rank(s) <= Rank(target) {
      RankInjective(s);
      assert run[Rank(s)] == s;
    }
  }

  /** Different stages have different ranks. */
  lemma RankInjective(s: Stage)
    ensures forall t :: Rank(t) == Rank(s) ==> t == s
  {
  }

  /** `main`: with `--no_push` or `--practice` the pipeline runs up to the
      post-anonymization stage, otherwise up to the last stage. */
  function Target(noPush: bool, practice: bool): (t: Stage)
    ensures t == SetAsPushed || t == PostAnon
  {
    if noPush || practice then PostAnon else SetAsPushed
  }

  /** Nothing is pushed, and nothing is marked as pushed, in a practice run or
      with `--no_push`; otherwise both happen. The stages up to the
      post-anonymization stage always run. */
  lemma PushOnlyForReal(noPush: bool, practice: bool)
    ensures PushToProduction in Ancestry(Target(noPush, practice)) <==> !noPush && !practice
    ensures SetAsPushed in Ancestry(Target(noPush, practice)) <==> !noPush && !practice
    ensures forall s :: Rank(s) <= Rank(PostAnon) ==> s in Ancestry(Target(noPush, practice))
  {
    var t := Target(noPush, practice);
    InAncestry(t, PushToProduction);
    InAncestry(t, SetAsPushed);
    forall s | Rank(s) <= Rank(PostAnon)
      ensures s in Ancestry(t)
    {
      InAncestry(t, s);
    }
  }

  /** The files of the run directory: name to content. */
  type Files = map<string, string>

  const InProgressLog: string := "anonymize_in_progress.txt"
  const AnonymizeOutput: string := "anonymize_output.txt"

  /** How the anonymize stage ends: with its log promoted, halted after the
      engine reported failure, or crashed because the log to move is missing. */
  datatype AnonymizeOutcome = Promoted(files: Files) | Halted(files: Files) | MoveFailed

  /** The end of `anonymize`: on success the in-progress log is renamed to the
      stage's output, which is how a rerun knows the stage is done; on failure
      the pipeline halts and the in-progress log is left for inspection. */
  function FinishAnonymize(files: Files, engineSucceeded: bool): (r: AnonymizeOutcome)
    ensures !engineSucceeded ==> r == Halted(files)
    ensures engineSucceeded && InProgressLog !in files ==> r == MoveFailed
    ensures engineSucceeded && InProgressLog in files ==>
      && r.Promoted?
      && InProgressLog !in r.files
      && AnonymizeOutput in r.files && r.files[AnonymizeOutput] == files[InProgressLog]
      && (forall n :: n in files && n != InProgressLog && n != AnonymizeOutput ==> n in r.files && r.files[n] == files[n])
      && (forall n :: n in r.files ==> n in files || n == AnonymizeOutput)
  {
    if !engineSucceeded then Halted(files)
    else if InProgressLog !in files then MoveFailed
    else Promoted(files[AnonymizeOutput := files[InProgressLog]] - {InProgressLog})
  }

  /** Moving the log over an output left by an earlier attempt replaces it. */
  lemma FinishAnonymizeReplaces(files: Files, earlier: string, log: string)
    requires AnonymizeOutput in files && files[AnonymizeOutput] == earlier
    ensures FinishAnonymize(files[InProgressLog := log], true) ==
      Promoted((files - {InProgressLog})[AnonymizeOutput := log])
  {
    var f := files[InProgressLog := log];
    assert f[AnonymizeOutput := log] - {InProgressLog} == (files - {InProgressLog})[AnonymizeOutput := log];
  }

  const PracticeOutput: string := "post_anon_output_practice.txt"
  const ProductionOutput: string := "post_anon_output.txt"

  /** Calling what `registry.get` returned when that is `None`. */
  datatype HookError = NoHook

  /** `post_anon`: the hook the registry gives for `hookName` is called with
      the practice flag; its result and a newline go to a practice or a
      production artifact. `hook` stands for calling the hook object. */
  function PostAnonArtifact(reg: Loader.Registry, hookName: string, practice: bool, hook: (Loader.Obj, bool) -> string)
    : (r: Result<(string, string), HookError>)
    ensures r.Failure? <==> Loader.Get(reg, hookName).None?
    ensures r.Success? ==>
      && (r.value.0 == ProductionOutput <==> !practice)
      && (r.value.0 == PracticeOutput <==> practice)
      && r.value.1 == hook(Loader.Get(reg, hookName).value, practice) + "\n"
  {
    match Loader.Get(reg, hookName)
    case None => Failure(NoHook)
    case Some(obj) =>
      var name := if practice then PracticeOutput else ProductionOutput;
      Success((name, hook(obj, practice) + "\n"))
  }

  /** Once a default hook is registered, a hook name nobody registered still
      runs: the stage calls the default and writes its result. */
  lemma PostAnonFallsBackToDefault(reg: Loader.Registry, first: Loader.Obj, hookName: string, practice: bool, hook: (Loader.Obj, bool) -> string)
    requires reg.default.None? && first.FlaggedDefault()
    requires Loader.NameFor(first, None) !in reg.entries && hookName !in reg.entries
    ensures Loader.Register(reg, first, None).Success?
    ensures PostAnonArtifact(Loader.Register(reg, first, None).value, hookName, practice, hook)
      == Success((if practice then PracticeOutput else ProductionOutput, hook(Loader.Stored(reg.registerInstance, first), practice) + "\n"))
  {
    var after := Loader.Register(reg, first, None).value;
    assert hookName !in after.entries;
    assert after.default == Some(Loader.Stored(reg.registerInstance, first));
  }

  /** No upper-case ASCII letter in `s`. */
  predicate NoUpper(s: string) {
    forall i :: 0 <= i < |s| ==> !IsUpper(s[i])
  }

  /** `--allowed_modalities`, lower-cased, split at commas, each part stripped:
      one entry per comma-separated part of the option as given, that part
      stripped and lower-cased, so none holds a comma, surrounding whitespace
      or an upper-case letter. */
  function Modalities(option: string): (r: seq<string>)
    ensures |r| >= 1
    ensures r == NormaliseEach(Split(option, ','))
    ensures forall k :: 0 <= k < |r| ==> ',' !in r[k] && IsStripped(r[k]) && NoUpper(r[k])
  {
    ModalityPartsMatch(option);
    ModalityPartsClean(option);
    StripEach(Split(Lower(option), ','))
  }

  /** Each part stripped and then lower-cased, one entry per part. */
  function NormaliseEach(parts: seq<string>): seq<string> {
    seq(|parts|, k requires 0 <= k < |parts| => Lower(Strip(parts[k])))
  }

  /** Every part stripped. */
  function StripEach(parts: seq<string>): (r: seq<string>)
    ensures |r| == |parts|
    ensures forall k :: 0 <= k < |r| ==> r[k] == Strip(parts[k])
  {
    seq(|parts|, k requires 0 <= k < |parts| => Strip(parts[k]))
  }

  /** The parts of the lower-cased option, stripped, are the option's own parts
      stripped and lower-cased. */
  lemma ModalityPartsMatch(option: string)
    ensures StripEach(Split(Lower(option), ',')) == NormaliseEach(Split(option, ','))
  {
    var lowered, parts := Split(Lower(option), ','), Split(option, ',');
    var r, n := StripEach(lowered), NormaliseEach(parts);
    LowerSplit(option, ',');
    forall k | 0 <= k < |r|
      ensures r[k] == n[k]
    {
      var part := parts[k];
      assert lowered[k] == Lower(part);
      StripLower(part);
    }
  }

  /** No part of the lower-cased option, stripped, holds a comma or an upper-case letter. */
  lemma ModalityPartsClean(option: string)
    ensures forall k :: 0 <= k < |StripEach(Split(Lower(option), ','))| ==>
      ',' !in StripEach(Split(Lower(option), ','))[k] && NoUpper(StripEach(Split(Lower(option), ','))[k])
  {
    var lowered := Split(Lower(option), ',');
    var r := StripEach(lowered);
    PartsHaveNoUpper(Lower(option));
    forall k | 0 <= k < |r|
      ensures ',' !in r[k] && NoUpper(r[k])
    {
      StripKeepsOut(lowered[k]);
    }
  }

  /** Stripping a part without commas or upper-case letters leaves none. */
  lemma StripKeepsOut(part: string)
    requires ',' !in part && NoUpper(part)
    ensures ',' !in Strip(part) && NoUpper(Strip(part))
  {
  }

  /** The parts of a string without upper-case letters have none. */
  lemma PartsHaveNoUpper(s: string)
    requires NoUpper(s)
    ensures forall k :: 0 <= k < |Split(s, ',')| ==> NoUpper(Split(s, ',')[k])
  {
  }

  /** Lower-case modality codes joined by commas are read back as written. */
  lemma ModalitiesRoundTrip(codes: seq<string>)
    requires |codes| >= 1
    requires forall k :: 0 <= k < |codes| ==> ',' !in codes[k] && IsStripped(codes[k]) && NoUpper(codes[k])
    ensures Modalities(Join(codes, ',')) == codes
  {
    var joined := Join(codes, ',');
    JoinHasNoUpper(codes);
    assert Lower(joined) == joined;
    SplitJoin(codes, ',');
  }

  /** Joining parts without upper-case letters gives none. */
  lemma {:induction false} JoinHasNoUpper(parts: seq<string>)
    requires forall k :: 0 <= k < |parts| ==> NoUpper(parts[k])
    ensures NoUpper(Join(parts, ','))
  {
    if |parts| > 1 {
      JoinHasNoUpper(parts[1..]);
    }
  }
}
