/** The last stage (`set_as_pushed`): reconciling what was pushed to production
    with the studies the run requested, marking the pushed records as published
    and the requested-but-not-pushed ones as failed. */
module Reconcile {
  import opened Wrappers
  import opened Text
  import StudyList

  /** What reading a produced file gives: an `IOError`, or a dataset with its
      Study Instance UID (0020,000D), which may be absent. */
  datatype Content = Unreadable | Dataset(studyUid: Option<string>)

  /** A file under the production directory: its base name and its content. */
  datatype ProducedFile = ProducedFile(name: string, content: Content)

  /** The fields of a study record the stage reads and writes. `studyUid` is
      the anonymized identifier (`None` before anonymization). */
  datatype StudyRecord = StudyRecord(
    studyUid: Option<string>,
    imagePublished: bool,
    processingError: bool,
    processingErrorDate: Option<nat>,
    processingErrorMsg: string)

  /** The study records, keyed by their original study identifier. */
  type Store = map<string, StudyRecord>

  /** The audit database's `studyinstanceuid` table: the original identifier
      recorded for each anonymized one; `None` is a NULL `original`. */
  type Audit = map<string, Option<string>>

  const FailureMessage: string := "Error during anonymization. Most likely this study was never found in the source PACS"

  /** The exceptions nothing in the stage catches: a produced dataset without a
      study identifier (`KeyError`), and a pushed study whose record cannot be
      fetched by its anonymized identifier (none, or more than one). */
  datatype Crash = MissingStudyUidTag | RecordLookupFailed

  /** A dot file, skipped by the walk. */
  predicate IsHidden(name: string) {
    |name| > 0 && name[0] == '.'
  }

  /** A produced file that stops the walk. */
  predicate Breaks(f: ProducedFile) {
    !IsHidden(f.name) && f.content.Dataset? && f.content.studyUid.None?
  }

  /** The produced file carries the study `uid` (its identifier stripped). */
  predicate Carries(f: ProducedFile, uid: string) {
    !IsHidden(f.name) && f.content.Dataset? && f.content.studyUid.Some? && Strip(f.content.studyUid.value) == uid
  }

  /** The walk over the production directory: the anonymized studies pushed. */
  function FoundStudies(files: seq<ProducedFile>): (r: Result<set<string>, Crash>)
    ensures r.Failure? <==> exists i :: 0 <= i < |files| && Breaks(files[i])
    ensures r.Success? ==> forall u :: u in r.value <==> exists i :: 0 <= i < |files| && Carries(files[i], u)
  {
    if |files| == 0 then Success({})
    else
      var rest :- FoundStudies(files[1..]);
      assert forall i :: 1 <= i < |files| ==> files[i] == files[1..][i - 1];
      var f := files[0];
      if IsHidden(f.name) || f.content.Unreadable? then Success(rest)
      else if f.content.studyUid.None? then Failure(MissingStudyUidTag)
      else Success(rest + {Strip(f.content.studyUid.value)})
  }

  /** A found study whose audit row gives an original identifier. */
  predicate Reconciled(audit: Audit, anon: string) {
    anon in audit && audit[anon].Some?
  }

  /** The original identifiers of the found studies, stripped. */
  function Pushed(found: set<string>, audit: Audit): (pushed: set<string>)
    ensures forall o :: o in pushed <==> exists a :: a in found && Reconciled(audit, a) && Strip(audit[a].value) == o
  {
    set a | a in found && Reconciled(audit, a) :: Strip(audit[a].value)
  }

  /** The records whose anonymized identifier is `anon`. */
  function RecordsFor(store: Store, anon: string): set<string> {
    set k | k in store && store[k].studyUid == Some(anon)
  }

  /** `RadiologyStudy.objects.get(study_uid=anon)` finds exactly one record. */
  predicate UniqueRecord(store: Store, anon: string) {
    |RecordsFor(store, anon)| == 1
  }

  /** The published flag of a record after marking the studies `anons`. */
  predicate PublishedAfter(r: StudyRecord, anons: set<string>) {
    r.imagePublished || (r.studyUid.Some? && r.studyUid.value in anons)
  }

  /** Marking every study of `anons` as published at once: it fails exactly
      when one of them has no unique record; otherwise the records of the
      marked studies are published, and nothing else changes. */
  function MarkPublished(store: Store, anons: set<string>): (r: Result<Store, Crash>)
    ensures r.Failure? <==> exists a :: a in anons && !UniqueRecord(store, a)
    ensures r.Failure? ==> r.error == RecordLookupFailed
    ensures r.Success? ==>
      && r.value.Keys == store.Keys
      && forall k :: k in store ==>
           r.value[k] == store[k].(imagePublished := PublishedAfter(store[k], anons))
  {
    if exists a :: a in anons && !UniqueRecord(store, a) then Failure(RecordLookupFailed)
    else
      Success(map k | k in store :: store[k].(imagePublished := PublishedAfter(store[k], anons)))
  }

  /** One iteration of the loop: fetch the one record of `anon` and publish it. */
  function MarkOne(store: Store, anon: string): (r: Result<Store, Crash>)
    ensures r.Failure? <==> !UniqueRecord(store, anon)
  {
    if !UniqueRecord(store, anon) then Failure(RecordLookupFailed)
    else Success(map k | k in store :: if store[k].studyUid == Some(anon) then store[k].(imagePublished := true) else store[k])
  }

  /** The loop over the reconciled studies in whatever order the set is
      iterated: it comes to the same as marking them all at once, so the order
      does not matter. */
  method MarkPublishedInOrder(store: Store, order: seq<string>) returns (r: Result<Store, Crash>)
    ensures r == MarkPublished(store, set a | a in order)
  {
    var current := store;
    for i := 0 to |order|
      invariant current.Keys == store.Keys
      invariant forall a :: a in order[..i] ==> UniqueRecord(store, a)
      invariant forall k :: k in store ==>
        current[k] == store[k].(imagePublished := PublishedAfter(store[k], set a | a in order[..i]))
    {
      var anon := order[i];
      assert order[..i + 1] == order[..i] + [anon];
      if !UniqueRecord(current, anon) {
        assert RecordsFor(current, anon) == RecordsFor(store, anon);
        ghost var all := set a | a in order;
        assert anon in all && !UniqueRecord(store, anon);
        assert MarkPublished(store, all).Failure?;
        return Failure(RecordLookupFailed);
      }
      assert RecordsFor(current, anon) == RecordsFor(store, anon);
      current := MarkOne(current, anon).value;
    }
    assert order[..|order|] == order;
    ghost var all := set a | a in order;
    assert MarkPublished(store, all).Success?;
    assert current == MarkPublished(store, all).value;
    r := Success(current);
  }

  /** The error fields of a record after the failed studies are marked: a
      failed study's record that is neither published nor already in error
      gets the error, the date and the generic message. */
  predicate NewlyFailed(store: Store, failed: set<string>, k: string)
    requires k in store
  {
    k in failed && !store[k].processingError && !store[k].imagePublished
  }

  /** Marking the failed studies. A failed study without a record is skipped;
      a published record is left alone, and so is one already in error, whose
      more specific message is kept. */
  function MarkFailed(store: Store, failed: set<string>, now: nat): (r: Store)
    ensures r.Keys == store.Keys
    ensures forall k :: k in store ==>
      && r[k].studyUid == store[k].studyUid
      && r[k].imagePublished == store[k].imagePublished
      && (r[k].processingError <==> store[k].processingError || NewlyFailed(store, failed, k))
      && (NewlyFailed(store, failed, k) ==> r[k].processingErrorMsg == FailureMessage && r[k].processingErrorDate == Some(now))
      && (!NewlyFailed(store, failed, k) ==> r[k] == store[k])
  {
    map k | k in store ::
      if NewlyFailed(store, failed, k)
      then store[k].(processingError := true, processingErrorDate := Some(now), processingErrorMsg := FailureMessage)
      else store[k]
  }

  /** Marking twice changes nothing the first marking did not. */
  lemma MarkFailedIdempotent(store: Store, failed: set<string>, now: nat, later: nat)
    ensures MarkFailed(MarkFailed(store, failed, now), failed, later) == MarkFailed(store, failed, now)
  {
    var once := MarkFailed(store, failed, now);
    forall k | k in once
      ensures !NewlyFailed(once, failed, k)
    {
    }
  }

  /** What the stage reports besides the updated records. */
  datatype Reconciliation = Reconciliation(
    store: Store,
    found: set<string>,
    unreconciled: set<string>,
    pushed: set<string>,
    failed: set<string>)

  /** `set_as_pushed`: `files` is the production directory, `audit` the audit
      table, `studyList` the text of the study list, `now` the clock. */
  function SetAsPushed(files: seq<ProducedFile>, audit: Audit, store: Store, studyList: string, now: nat): (r: Result<Reconciliation, Crash>)
    ensures r.Failure? <==>
      || (exists i :: 0 <= i < |files| && Breaks(files[i]))
      || (exists a :: a in FoundStudies(files).value && Reconciled(audit, a) && !UniqueRecord(store, a))
    ensures r.Success? ==>
      && r.value.store.Keys == store.Keys
      && (forall u :: u in r.value.found <==> exists i :: 0 <= i < |files| && Carries(files[i], u))
      && (forall u :: u in r.value.unreconciled <==> u in r.value.found && !Reconciled(audit, u))
      && r.value.pushed == Pushed(r.value.found, audit)
      && (forall o :: o in r.value.failed <==> o in StudyList.Parse(studyList) && o !in r.value.pushed)
  {
    var found :- FoundStudies(files);
    var reconciled := set a | a in found && Reconciled(audit, a);
    var published :- MarkPublished(store, reconciled);
    var pushed := Pushed(found, audit);
    var failed := (set o | o in StudyList.Parse(studyList)) - pushed;
    Success(Reconciliation(MarkFailed(published, failed, now), found, found - reconciled, pushed, failed))
  }

  /** After the stage, every record is published exactly when it was already,
      or its study was pushed and reconciled; a record is newly in error exactly
      when its study was requested, not pushed, not published and not already
      in error. Records of pushed studies never get the error. */
  lemma SetAsPushedRecords(files: seq<ProducedFile>, audit: Audit, store: Store, studyList: string, now: nat, k: string)
    requires SetAsPushed(files, audit, store, studyList, now).Success?
    requires k in store
    ensures var r := SetAsPushed(files, audit, store, studyList, now).value;
      && (r.store[k].imagePublished <==>
            store[k].imagePublished || (store[k].studyUid.Some? && store[k].studyUid.value in r.found && Reconciled(audit, store[k].studyUid.value)))
      && (r.store[k].processingError <==>
            store[k].processingError || (k in r.failed && !r.store[k].imagePublished))
      && (k in r.pushed ==> r.store[k].processingError == store[k].processingError)
      && (store[k].processingError ==> r.store[k].processingErrorMsg == store[k].processingErrorMsg)
  {
  }

  /** Running the stage again on the records it produced, with the same
      directory, audit table and study list, changes no record. */
  lemma SetAsPushedIdempotent(files: seq<ProducedFile>, audit: Audit, store: Store, studyList: string, now: nat, later: nat)
    requires SetAsPushed(files, audit, store, studyList, now).Success?
    ensures var once := SetAsPushed(files, audit, store, studyList, now).value;
      && SetAsPushed(files, audit, once.store, studyList, later).Success?
      && SetAsPushed(files, audit, once.store, studyList, later).value.store == once.store
  {
    var found := FoundStudies(files).value;
    var reconciled := set a | a in found && Reconciled(audit, a);
    var failed := (set o | o in StudyList.Parse(studyList)) - Pushed(found, audit);
    MarkingStable(store, reconciled, failed, now, later);
  }

  /** Publishing and then failing the same studies a second time finds the
      same records and changes none of them. */
  lemma MarkingStable(store: Store, anons: set<string>, failed: set<string>, now: nat, later: nat)
    requires MarkPublished(store, anons).Success?
    ensures var once := MarkFailed(MarkPublished(store, anons).value, failed, now);
      && MarkPublished(once, anons).Success?
      && MarkFailed(MarkPublished(once, anons).value, failed, later) == once
  {
    var published := MarkPublished(store, anons).value;
    var once := MarkFailed(published, failed, now);
    forall a | a in anons
      ensures UniqueRecord(once, a)
    {
      assert RecordsFor(once, a) == RecordsFor(store, a);
    }
    var again := MarkPublished(once, anons).value;
    assert again == once;
    MarkFailedIdempotent(published, failed, now, later);
  }
}
