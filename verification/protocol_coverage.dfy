/** The protocol check (`check_patient_protocol`): the studies whose reviews
    mark a patient-protocol series, compared with the studies for which the
    anonymizer actually quarantined such a series. */
module ProtocolCoverage {
  import opened Wrappers
  import opened Text
  import StudyList

  /** A file under the quarantine directory, as far as the check reads it:
      unreadable (an `IOError`, skipped), or a dataset with its Series
      Description (0008,103E) and Study Instance UID (0020,000D), each of
      which may be absent. */
  datatype QuarantinedFile =
    | Unreadable
    | Dataset(seriesDescription: Option<string>, studyUid: Option<string>)

  /** Looking up an absent tag raises `KeyError`, which nothing catches. */
  datatype ScanError = MissingSeriesDescription | MissingStudyUid

  const ProtocolDescription: string := "patient protocol"

  /** `series_desc.strip().lower() == "patient protocol"` */
  predicate IsPatientProtocol(description: string) {
    Lower(Strip(description)) == ProtocolDescription
  }

  /** A file that stops the scan: it has no series description, or it is a
      protocol series without a study identifier. */
  predicate Breaks(f: QuarantinedFile) {
    && f.Dataset?
    && (|| f.seriesDescription.None?
        || (IsPatientProtocol(f.seriesDescription.value) && f.studyUid.None?))
  }

  /** The file is a protocol series of the study `uid` (its identifier stripped). */
  predicate Contributes(f: QuarantinedFile, uid: string) {
    && f.Dataset?
    && f.seriesDescription.Some? && IsPatientProtocol(f.seriesDescription.value)
    && f.studyUid.Some? && Strip(f.studyUid.value) == uid
  }

  /** Among the first `n` files, one is a protocol series of `uid`. */
  predicate FoundAmong(files: seq<QuarantinedFile>, n: nat, uid: string)
    requires n <= |files|
  {
    exists j :: 0 <= j < n && Contributes(files[j], uid)
  }

  /** Among the first `n` files, one stops the scan. */
  predicate BrokenAmong(files: seq<QuarantinedFile>, n: nat)
    requires n <= |files|
  {
    exists j :: 0 <= j < n && Breaks(files[j])
  }

  /** What one file adds to the found studies, or the error it raises. */
  function Contribution(f: QuarantinedFile): (r: Result<set<string>, ScanError>)
    ensures r.Failure? <==> Breaks(f)
    ensures r.Success? ==> forall u :: u in r.value <==> Contributes(f, u)
  {
    match f
    case Unreadable => Success({})
    case Dataset(description, studyUid) =>
      if description.None? then Failure(MissingSeriesDescription)
      else if !IsPatientProtocol(description.value) then Success({})
      else if studyUid.None? then Failure(MissingStudyUid)
      else Success({Strip(studyUid.value)})
  }

  /** The walk over the quarantine: unreadable files are skipped; a missing
      tag stops the check; otherwise the result holds exactly the studies
      some file is a protocol series of. */
  method FoundProtocolStudies(files: seq<QuarantinedFile>) returns (r: Result<set<string>, ScanError>)
    ensures r.Failure? <==> BrokenAmong(files, |files|)
    ensures r.Success? ==> forall u :: u in r.value <==> FoundAmong(files, |files|, u)
  {
    var found: set<string> := {};
    for i := 0 to |files|
      invariant !BrokenAmong(files, i)
      invariant forall u :: u in found <==> FoundAmong(files, i, u)
    {
      var step := Contribution(files[i]);
      if step.Failure? {
        BrokenStep(files, i);
        return Failure(step.error);
      }
      ScanStep(files, i, found);
      found := found + step.value;
    }
    r := Success(found);
  }

  /** A file that breaks stops the whole scan. */
  lemma BrokenStep(files: seq<QuarantinedFile>, i: nat)
    requires i < |files| && Breaks(files[i])
    ensures BrokenAmong(files, |files|)
  {
  }

  /** One more file that does not break extends the found studies by its
      contribution. */
  lemma ScanStep(files: seq<QuarantinedFile>, i: nat, found: set<string>)
    requires i < |files| && !BrokenAmong(files, i)
    requires forall u :: u in found <==> FoundAmong(files, i, u)
    requires Contribution(files[i]).Success?
    ensures !BrokenAmong(files, i + 1)
    ensures forall u :: u in found + Contribution(files[i]).value <==> FoundAmong(files, i + 1, u)
  {
    var added := Contribution(files[i]).value;
    forall j | 0 <= j < i + 1
      ensures !Breaks(files[j])
    {
      if j < i {
        assert !Breaks(files[j]);
      }
    }
    forall u
      ensures u in found + added <==> FoundAmong(files, i + 1, u)
    {
      if u in added {
        assert Contributes(files[i], u);
      } else if u in found {
        var j :| 0 <= j < i && Contributes(files[j], u);
        assert 0 <= j < i + 1 && Contributes(files[j], u);
      }
      if FoundAmong(files, i + 1, u) {
        var j :| 0 <= j < i + 1 && Contributes(files[j], u);
        if j < i {
          assert FoundAmong(files, i, u);
        } else {
          assert u in added;
        }
      }
    }
  }

  /** The three sets the check reports, each written to its own artifact. */
  datatype Coverage = Coverage(reviewed: set<string>, found: set<string>, missing: set<string>)

  /** The studies marked as having a protocol series, restricted to those the
      study list requested (`original_study_uid__in`). */
  function Reviewed(studyList: string, marked: set<string>): (reviewed: set<string>)
    ensures forall u :: u in reviewed <==> u in marked && u in StudyList.Parse(studyList)
  {
    set u | u in marked && u in StudyList.Parse(studyList)
  }

  /** `check_patient_protocol`. `marked` stands for the original identifiers
      of the records whose reviews mark a protocol series (the rest of the
      query's conditions); `studyList` is the text of the study list. */
  method CheckPatientProtocol(studyList: string, marked: set<string>, files: seq<QuarantinedFile>)
    returns (r: Result<Coverage, ScanError>)
    ensures r.Failure? <==> BrokenAmong(files, |files|)
    ensures r.Success? ==>
      && r.value.reviewed == Reviewed(studyList, marked)
      && (forall u :: u in r.value.found <==> FoundAmong(files, |files|, u))
      && r.value.missing <= r.value.reviewed
      && r.value.missing !! r.value.found
      && r.value.reviewed <= r.value.missing + r.value.found
  {
    var found :- FoundProtocolStudies(files);
    var reviewed := Reviewed(studyList, marked);
    r := Success(Coverage(reviewed, found, reviewed - found));
  }
}
