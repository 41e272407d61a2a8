/** The review stage (`get_reviewed_studies`) after the selection query: the
    scan for conflicting reviews, the comments artifact, the study list
    artifact, and the halt that follows when a conflict was seen. */
module ReviewScan {
  import opened Wrappers
  import opened Text
  import StudyList

  /** A boolean column that may hold NULL (`None`). */
  type Flag = Option<bool>

  /** The fields of one review record the stage reads. */
  datatype Review = Review(hasPhi: Flag, exclude: Flag, relevant: Flag, hasReconstruction: Flag, comment: string)

  /** A selected study: its original identifier and all of its reviews. */
  datatype Study = Study(originalUid: string, reviews: seq<Review>)

  /** A review that contradicts the study having been selected as clean.
      `has_phi` is tested for truth and the other three are compared with
      `True` or `False`, so a NULL flag never makes a conflict: `None == False`
      is false in Python. */
  predicate Conflicting(r: Review) {
    r.hasPhi == Some(true) || r.exclude == Some(true) || r.relevant == Some(false) || r.hasReconstruction == Some(true)
  }

  /** A review conflicts exactly when one of its flags is set the wrong way; a
      review whose flags are all NULL, or whose only unexpected value is a
      NULL `relevant`, does not. */
  lemma NullFlagsNeverConflict(phi: Flag, exclude: Flag, reconstruction: Flag, comment: string)
    requires phi != Some(true) && exclude != Some(true) && reconstruction != Some(true)
    ensures !Conflicting(Review(phi, exclude, None, reconstruction, comment))
    ensures Conflicting(Review(phi, exclude, Some(false), reconstruction, comment))
  {
  }

  predicate HasConflict(s: Study) {
    exists b :: 0 <= b < |s.reviews| && Conflicting(s.reviews[b])
  }

  /** The number of conflicting reviews in `rs`. */
  function CountConflicts(rs: seq<Review>): nat {
    if |rs| == 0 then 0
    else CountConflicts(rs[..|rs| - 1]) + (if Conflicting(rs[|rs| - 1]) then 1 else 0)
  }

  /** The number of conflicting reviews over all of `studies`. */
  function TotalConflicts(studies: seq<Study>): nat {
    if |studies| == 0 then 0
    else TotalConflicts(studies[..|studies| - 1]) + CountConflicts(studies[|studies| - 1].reviews)
  }

  /** Among the first `n` studies, one with a conflict is identified by `uid`. */
  predicate ConflictNamed(studies: seq<Study>, n: nat, uid: string)
    requires n <= |studies|
  {
    exists x :: 0 <= x < n && studies[x].originalUid == uid && HasConflict(studies[x])
  }

  /** Some selected study has a conflict. */
  predicate AnyConflict(studies: seq<Study>) {
    exists a :: 0 <= a < |studies| && HasConflict(studies[a])
  }

  /** The notices one study gives rise to: its identifier once per
      conflicting review. */
  function StudyNotices(study: Study): seq<string> {
    seq(CountConflicts(study.reviews), _ => study.originalUid)
  }

  /** The notices for `studies`, study by study in selection order. */
  function Notices(studies: seq<Study>): seq<string> {
    if |studies| == 0 then []
    else Notices(studies[..|studies| - 1]) + StudyNotices(studies[|studies| - 1])
  }

  /** The inner loop of the scan over one study's reviews: one notice naming
      the study per conflicting review. */
  method ScanReviews(study: Study) returns (found: bool, notices: seq<string>)
    ensures found <==> HasConflict(study)
    ensures |notices| == CountConflicts(study.reviews)
    ensures forall m :: 0 <= m < |notices| ==> notices[m] == study.originalUid
    ensures found <==> |notices| > 0
    ensures notices == StudyNotices(study)
  {
    found := false;
    notices := [];
    for b := 0 to |study.reviews|
      invariant found <==> exists y :: 0 <= y < b && Conflicting(study.reviews[y])
      invariant |notices| == CountConflicts(study.reviews[..b])
      invariant forall m :: 0 <= m < |notices| ==> notices[m] == study.originalUid
      invariant found <==> |notices| > 0
    {
      assert study.reviews[..b + 1][..b] == study.reviews[..b];
      if Conflicting(study.reviews[b]) {
        found := true;
        notices := notices + [study.originalUid];
      }
    }
    assert study.reviews[..|study.reviews|] == study.reviews;
  }

  /** The nested scan: every review of every study is looked at, with no early
      exit. The notices are those `Notices` describes, and the stop flag is
      raised exactly when some study has a conflict. */
  method ScanConflicts(studies: seq<Study>) returns (stop: bool, notices: seq<string>)
    ensures stop <==> AnyConflict(studies)
    ensures notices == Notices(studies)
  {
    stop := false;
    notices := [];
    for a := 0 to |studies|
      invariant stop <==> exists x :: 0 <= x < a && HasConflict(studies[x])
      invariant notices == Notices(studies[..a])
    {
      var found, more := ScanReviews(studies[a]);
      stop := stop || found;
      notices := notices + more;
      assert studies[..a + 1][..a] == studies[..a];
    }
    assert studies[..|studies|] == studies;
  }

  /** There is one notice per conflicting review. */
  lemma {:induction false} NoticesCount(studies: seq<Study>)
    ensures |Notices(studies)| == TotalConflicts(studies)
  {
    if |studies| > 0 {
      NoticesCount(studies[..|studies| - 1]);
    }
  }

  /** Every notice names a study that has a conflict. */
  lemma {:induction false} NoticesNameConflicts(studies: seq<Study>)
    ensures forall m :: 0 <= m < |Notices(studies)| ==> ConflictNamed(studies, |studies|, Notices(studies)[m])
  {
    if |studies| > 0 {
      var n := |studies| - 1;
      var init, last := studies[..n], studies[n];
      NoticesNameConflicts(init);
      var notices := Notices(studies);
      forall m | 0 <= m < |notices|
        ensures ConflictNamed(studies, |studies|, notices[m])
      {
        if m < |Notices(init)| {
          assert notices[m] == Notices(init)[m];
          var x :| 0 <= x < n && init[x].originalUid == notices[m] && HasConflict(init[x]);
          assert studies[x] == init[x];
        } else {
          assert notices[m] == StudyNotices(last)[m - |Notices(init)|];
          CountedConflict(last.reviews);
        }
      }
    }
  }

  /** Every study with a conflict is named by some notice. */
  lemma {:induction false} ConflictsNoticed(studies: seq<Study>)
    ensures forall a :: 0 <= a < |studies| && HasConflict(studies[a]) ==> studies[a].originalUid in Notices(studies)
  {
    if |studies| > 0 {
      var n := |studies| - 1;
      var init, last := studies[..n], studies[n];
      ConflictsNoticed(init);
      var notices := Notices(studies);
      forall a | 0 <= a < |studies| && HasConflict(studies[a])
        ensures studies[a].originalUid in notices
      {
        if a < n {
          assert studies[a] == init[a];
          var m :| 0 <= m < |Notices(init)| && Notices(init)[m] == init[a].originalUid;
          assert notices[m] == Notices(init)[m];
        } else {
          ConflictCounted(last.reviews);
          assert notices[|Notices(init)|] == StudyNotices(last)[0];
        }
      }
    }
  }

  /** A positive count means some review conflicts. */
  lemma {:induction false} CountedConflict(rs: seq<Review>)
    requires CountConflicts(rs) > 0
    ensures exists b :: 0 <= b < |rs| && Conflicting(rs[b])
  {
    var n := |rs| - 1;
    if !Conflicting(rs[n]) {
      CountedConflict(rs[..n]);
      var b :| 0 <= b < n && Conflicting(rs[..n][b]);
      assert rs[b] == rs[..n][b];
    }
  }

  /** A conflicting review is counted. */
  lemma {:induction false} ConflictCounted(rs: seq<Review>)
    requires exists b :: 0 <= b < |rs| && Conflicting(rs[b])
    ensures CountConflicts(rs) > 0
  {
    var n := |rs| - 1;
    if !Conflicting(rs[n]) {
      var b :| 0 <= b < |rs| && Conflicting(rs[b]);
      assert rs[..n][b] == rs[b];
      ConflictCounted(rs[..n]);
    }
  }

  /** Notices are issued exactly when some study has a conflict. */
  lemma NoticesIffConflict(studies: seq<Study>)
    ensures |Notices(studies)| > 0 <==> AnyConflict(studies)
  {
    NoticesNameConflicts(studies);
    ConflictsNoticed(studies);
    if |Notices(studies)| > 0 {
      assert ConflictNamed(studies, |studies|, Notices(studies)[0]);
    }
  }

  /** The lines of the comments artifact: per study a header `uid:`, then one
      tab-indented line per review holding its comment. */
  function CommentLines(studies: seq<Study>): seq<string> {
    if |studies| == 0 then [] else Block(studies[0]) + CommentLines(studies[1..])
  }

  /** One study's lines in the comments artifact. */
  function Block(study: Study): seq<string> {
    [HeaderLine(study)] + seq(|study.reviews|, b requires 0 <= b < |study.reviews| => ReviewLine(study.reviews[b]))
  }

  /** A study's header line: its original identifier and a colon. */
  function HeaderLine(study: Study): string {
    study.originalUid + ":"
  }

  /** A review's line: a tab and its comment. */
  function ReviewLine(r: Review): string {
    "\t" + r.comment
  }

  /** The text of `comments.txt`. */
  function CommentsText(studies: seq<Study>): string {
    UnLines(CommentLines(studies))
  }

  /** The number of reviews over all of `studies`. */
  function TotalReviews(studies: seq<Study>): nat {
    if |studies| == 0 then 0 else |studies[0].reviews| + TotalReviews(studies[1..])
  }

  /** Where study `a`'s header line sits among the comment lines: after the
      header and review lines of every earlier study. */
  function HeaderIndex(studies: seq<Study>, a: nat): nat
    requires a <= |studies|
  {
    a + TotalReviews(studies[..a])
  }

  lemma {:induction false} CommentLinesLength(studies: seq<Study>)
    ensures |CommentLines(studies)| == |studies| + TotalReviews(studies)
  {
    if |studies| > 0 {
      CommentLinesLength(studies[1..]);
    }
  }

  lemma {:induction false} CommentLinesAppend(xs: seq<Study>, ys: seq<Study>)
    ensures CommentLines(xs + ys) == CommentLines(xs) + CommentLines(ys)
  {
    if |xs| > 0 {
      assert (xs + ys)[1..] == xs[1..] + ys;
      CommentLinesAppend(xs[1..], ys);
    } else {
      assert xs + ys == ys;
    }
  }

  /** The comments artifact has one line per study and per review; study
      `a`'s block (its header line, then one tab-indented line per review, in
      order) starts at its header index, after the lines of every earlier
      study. */
  lemma {:induction false} CommentsLayout(studies: seq<Study>, a: nat)
    requires a < |studies|
    ensures |CommentLines(studies)| == |studies| + TotalReviews(studies)
    ensures HeaderIndex(studies, a) + 1 + |studies[a].reviews| <= |CommentLines(studies)|
    ensures CommentLines(studies)[HeaderIndex(studies, a)..HeaderIndex(studies, a) + 1 + |studies[a].reviews|]
      == Block(studies[a])
  {
    CommentLinesLength(studies);
    CommentLinesLength(studies[..a]);
    var p, block := CommentLines(studies[..a]), Block(studies[a]);
    CommentLinesSplit(studies, a);
    BlockInMiddle(CommentLines(studies), p, block, CommentLines(studies[a + 1..]));
    assert HeaderIndex(studies, a) + 1 + |studies[a].reviews| == |p| + |block|;
  }

  /** A block placed after `p` is found at offset `|p|`. */
  lemma BlockInMiddle(lines: seq<string>, p: seq<string>, block: seq<string>, q: seq<string>)
    requires lines == p + (block + q)
    ensures |p| + |block| <= |lines| && lines[|p|..|p| + |block|] == block
  {
    assert lines[|p|..|p| + |block|] == block;
  }

  /** The comment lines of `studies` are those of the studies before `a`,
      then study `a`'s block, then those of the studies after it. */
  lemma {:induction false} CommentLinesSplit(studies: seq<Study>, a: nat)
    requires a < |studies|
    ensures CommentLines(studies) == CommentLines(studies[..a]) + (Block(studies[a]) + CommentLines(studies[a + 1..]))
  {
    assert studies == studies[..a] + ([studies[a]] + studies[a + 1..]);
    CommentLinesAppend(studies[..a], [studies[a]] + studies[a + 1..]);
    CommentLinesAppend([studies[a]], studies[a + 1..]);
    assert CommentLines([studies[a]]) == Block(studies[a]) by {
      assert [studies[a]][1..] == [];
    }
  }

  /** Identifiers and comments free of line breaks make every comment line
      one line of the file: reading it back line by line gives the lines. */
  lemma {:induction false} CommentsReadBack(studies: seq<Study>)
    requires forall a :: 0 <= a < |studies| ==> HasNoBreak(studies[a].originalUid)
    requires forall a, b :: 0 <= a < |studies| && 0 <= b < |studies[a].reviews| ==> HasNoBreak(studies[a].reviews[b].comment)
    ensures SplitLines(CommentsText(studies)) == CommentLines(studies)
  {
    CommentLinesHaveNoBreak(studies);
    SplitLinesUnLines(CommentLines(studies));
  }

  lemma {:induction false} CommentLinesHaveNoBreak(studies: seq<Study>)
    requires forall a :: 0 <= a < |studies| ==> HasNoBreak(studies[a].originalUid)
    requires forall a, b :: 0 <= a < |studies| && 0 <= b < |studies[a].reviews| ==> HasNoBreak(studies[a].reviews[b].comment)
    ensures forall k :: 0 <= k < |CommentLines(studies)| ==> HasNoBreak(CommentLines(studies)[k])
  {
    if |studies| > 0 {
      CommentLinesHaveNoBreak(studies[1..]);
      var head := Block(studies[0]);
      forall k | 0 <= k < |head|
        ensures HasNoBreak(head[k])
      {
        if k > 0 {
          assert head[k] == ReviewLine(studies[0].reviews[k - 1]);
        }
      }
    }
  }

  /** The original identifiers of the selected studies, in selection order. */
  function Uids(studies: seq<Study>): (uids: seq<string>)
    ensures |uids| == |studies|
    ensures forall a :: 0 <= a < |studies| ==> uids[a] == studies[a].originalUid
  {
    seq(|studies|, a requires 0 <= a < |studies| => studies[a].originalUid)
  }

  /** What the stage does, in order. */
  datatype Effect =
    | ConflictNotice(uid: string)
    | WriteComments(text: string)
    | WriteStudyList(text: string)
    | LogSelected(count: nat)
    | Halt
    | FormatCrash

  /** The comments artifact, the study list artifact and the count of
      selected studies, in the order the stage produces them. */
  function Artifacts(studies: seq<Study>): seq<Effect> {
    [WriteComments(CommentsText(studies)), WriteStudyList(StudyList.Serialise(Uids(studies))), LogSelected(|studies|)]
  }

  /** One conflict notice per identifier. */
  function NoticeEffects(uids: seq<string>): (effects: seq<Effect>)
    ensures |effects| == |uids|
    ensures forall m :: 0 <= m < |uids| ==> effects[m] == ConflictNotice(uids[m])
  {
    seq(|uids|, m requires 0 <= m < |uids| => ConflictNotice(uids[m]))
  }

  /** The stage body after the query: the conflict notices, then the comments
      artifact, the study list and the count of selected studies, and only
      then, when a conflict was seen, the halt; the artifacts are written
      whether or not it halts. */
  method GetReviewedStudies(studies: seq<Study>) returns (effects: seq<Effect>)
    ensures effects == NoticeEffects(Notices(studies)) + Artifacts(studies) + (if AnyConflict(studies) then [Halt] else [])
  {
    var stop, notices := ScanConflicts(studies);
    effects := NoticeEffects(notices) + Artifacts(studies);
    if stop {
      effects := effects + [Halt];
    }
  }

  /** The stage as written: the notice formats the study's identifier with
      `%d`, and an identifier is a string (it is concatenated with "\n" when
      the study list is written), so the first conflicting review raises
      `TypeError` before anything is logged or written. */
  function GetReviewedStudiesAsWritten(studies: seq<Study>): (effects: seq<Effect>)
    ensures AnyConflict(studies) ==> effects == [FormatCrash]
    ensures !AnyConflict(studies) ==> effects == Artifacts(studies)
    ensures Halt !in effects
  {
    if AnyConflict(studies) then [FormatCrash] else Artifacts(studies)
  }

  /** Without a conflict the stage as written does what the corrected one
      does: no notice, the three artifacts, no halt. With one, it writes
      neither the comments nor the study list the operator is meant to
      triage, and does not halt cleanly. */
  lemma AsWrittenLosesArtifacts(studies: seq<Study>)
    ensures AnyConflict(studies) ==>
      forall e :: e in GetReviewedStudiesAsWritten(studies) ==> !e.WriteComments? && !e.WriteStudyList? && !e.Halt?
    ensures !AnyConflict(studies) ==>
      GetReviewedStudiesAsWritten(studies) == NoticeEffects(Notices(studies)) + Artifacts(studies)
  {
    if !AnyConflict(studies) {
      NoticesIffConflict(studies);
      assert NoticeEffects(Notices(studies)) == [];
    }
  }

  /** One study with one review flagged as holding PHI: the stage as written
      crashes where the corrected one issues one notice, writes both
      artifacts and halts. */
  lemma PhiReviewCrashes()
    ensures var studies := [Study("1.2.840.1", [Review(Some(true), Some(false), Some(true), Some(false), "burned-in name")])];
      && GetReviewedStudiesAsWritten(studies) == [FormatCrash]
      && Notices(studies) == ["1.2.840.1"]
  {
    var studies := [Study("1.2.840.1", [Review(Some(true), Some(false), Some(true), Some(false), "burned-in name")])];
    assert Conflicting(studies[0].reviews[0]);
    assert HasConflict(studies[0]);
    assert studies[..0] == [];
    assert studies[0].reviews[..0] == [];
  }
}
