/** The older comparison CompareStudyPlanWithHistory (functions/compare.go):
    every plan subject is "Seen" when the history holds its code, or the
    target of one of its equivalences, or the source of an equivalence that
    targets it; otherwise it is "Pending". No credits are summed. */
module Comparison {
  import opened Models

  const SeenStatus := "Seen"
  const PendingStatus := "Pending"

  /** A plan subject as reported back by this variant (no category field). */
  datatype SubjectResult = SubjectResult(
    code: string,
    name: string,
    credits: int,
    status: string,
    equivalence: Option<EquivalenceResult>)

  /** Forward: the plan subject is the source and the history holds the
      target. Reverse: the plan subject is the target and the history holds
      the source. */
  datatype Direction = Forward | Reverse

  /** Every code present in the history, whatever the entry's status. */
  function HistoryCodes(history: seq<HistoryEntry>): set<string>
  {
    set h | h in history :: h.code
  }

  /** The map of history entries by code (compare.go:21-24); only its keys are read. */
  method BuildHistoryIndex(history: seq<HistoryEntry>) returns (codes: set<string>)
    ensures codes == HistoryCodes(history)
  {
    codes := {};
    for i := 0 to |history|
      invariant codes == HistoryCodes(history[..i])
    {
      assert history[..i + 1] == history[..i] + [history[i]];
      codes := codes + {history[i].code};
    }
    assert history[..|history|] == history;
  }

  predicate Qualifies(e: Equivalence, d: Direction, code: string, seen: set<string>)
  {
    match d
    case Forward => e.source == code && e.target in seen
    case Reverse => e.target == code && e.source in seen
  }

  /** The first record, in record order, that satisfies `code` in direction `d`. */
  function FirstQualifying(eqs: seq<Equivalence>, d: Direction, code: string, seen: set<string>): (r: Option<Equivalence>)
    ensures r.Some? ==> exists j :: 0 <= j < |eqs| && eqs[j] == r.value && Qualifies(r.value, d, code, seen)
                                  && forall i :: 0 <= i < j ==> !Qualifies(eqs[i], d, code, seen)
    ensures r.None? ==> forall i :: 0 <= i < |eqs| ==> !Qualifies(eqs[i], d, code, seen)
  {
    if eqs == [] then None
    else if Qualifies(eqs[0], d, code, seen) then Some(eqs[0])
    else
      var r := FirstQualifying(eqs[1..], d, code, seen);
      assert r.Some? ==> exists j :: 0 < j < |eqs| && eqs[j] == r.value && Qualifies(r.value, d, code, seen)
                                  && forall i :: 0 <= i < j ==> !Qualifies(eqs[i], d, code, seen)
      by {
        if r.Some? {
          var j :| 0 <= j < |eqs[1..]| && eqs[1..][j] == r.value && Qualifies(r.value, d, code, seen)
                  && forall i :: 0 <= i < j ==> !Qualifies(eqs[1..][i], d, code, seen);
          assert eqs[j + 1] == r.value;
          assert forall i :: 0 <= i < j + 1 ==> !Qualifies(eqs[i], d, code, seen) by {
            forall i | 0 < i < j + 1 ensures !Qualifies(eqs[i], d, code, seen) {
              assert eqs[i] == eqs[1..][i - 1];
            }
          }
        }
      }
      r
  }

  /** The search loops with `break` (compare.go:36-45 and 57-66): the first
      qualifying record in direction `d`. */
  method FindQualifying(eqs: seq<Equivalence>, d: Direction, code: string, seen: set<string>)
    returns (hit: Option<Equivalence>)
    ensures hit == FirstQualifying(eqs, d, code, seen)
  {
    hit := None;
    var i := 0;
    while i < |eqs|
      invariant 0 <= i <= |eqs|
      invariant FirstQualifying(eqs[i..], d, code, seen) == FirstQualifying(eqs, d, code, seen)
    {
      var equivalence := eqs[i];
      if Qualifies(equivalence, d, code, seen) {
        hit := Some(equivalence);
        break;
      }
      assert eqs[i..][1..] == eqs[i + 1..];
      i := i + 1;
    }
  }

  /** The record that satisfies a subject not matched directly: a forward one
      if any, otherwise a reverse one. */
  function Witness(s: Subject, eqs: seq<Equivalence>, seen: set<string>): Option<Equivalence>
  {
    match FirstQualifying(eqs, Forward, s.code, seen)
    case Some(e) => Some(e)
    case None => FirstQualifying(eqs, Reverse, s.code, seen)
  }

  predicate Found(s: Subject, eqs: seq<Equivalence>, seen: set<string>)
  {
    s.code in seen || Witness(s, eqs, seen).Some?
  }

  function Outcome(s: Subject, eqs: seq<Equivalence>, seen: set<string>): SubjectResult
  {
    var info :=
      if s.code in seen then None
      else match Witness(s, eqs, seen)
        case None => None
        case Some(e) => Some(EquivalenceResult(e.kind, e.notes));
    SubjectResult(s.code, s.name, s.credits, if Found(s, eqs, seen) then SeenStatus else PendingStatus, info)
  }

  /** End to end: a plan subject is seen exactly when some history entry, of
      any status, carries its code or a code joined to it by an equivalence
      record in either direction. */
  lemma FoundIffInHistory(s: Subject, eqs: seq<Equivalence>, history: seq<HistoryEntry>)
    ensures Found(s, eqs, HistoryCodes(history))
        <==> exists h :: h in history && (h.code == s.code || exists e :: e in eqs && Links(e, s.code, h.code))
  {
    var seen := HistoryCodes(history);
    if Found(s, eqs, seen) {
      if s.code !in seen {
        var e := Witness(s, eqs, seen).value;
        var f := FirstQualifying(eqs, Forward, s.code, seen);
        if f.Some? {
          var j :| 0 <= j < |eqs| && eqs[j] == f.value && Qualifies(f.value, Forward, s.code, seen);
          var h :| h in history && h.code == e.target;
          assert Links(eqs[j], s.code, h.code);
        } else {
          var g := FirstQualifying(eqs, Reverse, s.code, seen);
          var j :| 0 <= j < |eqs| && eqs[j] == g.value && Qualifies(g.value, Reverse, s.code, seen);
          var h :| h in history && h.code == e.source;
          assert Links(eqs[j], s.code, h.code);
        }
      }
    } else {
      forall h, e | h in history && e in eqs
        ensures h.code != s.code && !Links(e, s.code, h.code)
      {
        assert h.code in seen;
        var j :| 0 <= j < |eqs| && eqs[j] == e;
        assert !Qualifies(eqs[j], Forward, s.code, seen);
        assert !Qualifies(eqs[j], Reverse, s.code, seen);
      }
    }
  }

  /** The status of a history entry plays no part: replacing every status
      leaves each subject's result unchanged. */
  lemma StatusIsIgnored(s: Subject, eqs: seq<Equivalence>, history: seq<HistoryEntry>, other: seq<HistoryEntry>)
    requires |other| == |history|
    requires forall i :: 0 <= i < |history| ==> other[i].code == history[i].code
    ensures Outcome(s, eqs, HistoryCodes(other)) == Outcome(s, eqs, HistoryCodes(history))
  {
    forall c
      ensures c in HistoryCodes(other) <==> c in HistoryCodes(history)
    {
      if c in HistoryCodes(other) {
        var h :| h in other && h.code == c;
        var i :| 0 <= i < |other| && other[i] == h;
        assert history[i] in history;
      }
      if c in HistoryCodes(history) {
        var h :| h in history && h.code == c;
        var i :| 0 <= i < |history| && history[i] == h;
        assert other[i] in other;
      }
    }
    assert HistoryCodes(other) == HistoryCodes(history);
  }

  /** A direct match marks the subject seen and leaves the annotation empty. */
  lemma DirectMatchPrecedence(s: Subject, eqs: seq<Equivalence>, seen: set<string>)
    requires s.code in seen
    ensures Outcome(s, eqs, seen).status == SeenStatus && Outcome(s, eqs, seen).equivalence.None?
  {
  }

  /** Without a direct match, the first forward record whose target is in the
      history decides the annotation, whatever reverse records exist. */
  lemma ForwardPrecedence(s: Subject, eqs: seq<Equivalence>, seen: set<string>, j: nat)
    requires s.code !in seen
    requires j < |eqs| && Qualifies(eqs[j], Forward, s.code, seen)
    requires forall i :: 0 <= i < j ==> !Qualifies(eqs[i], Forward, s.code, seen)
    ensures Outcome(s, eqs, seen).status == SeenStatus
    ensures Outcome(s, eqs, seen).equivalence == Some(EquivalenceResult(eqs[j].kind, eqs[j].notes))
  {
    var f := FirstQualifying(eqs, Forward, s.code, seen);
    assert f.Some?;
    var k :| 0 <= k < |eqs| && eqs[k] == f.value && Qualifies(f.value, Forward, s.code, seen)
             && forall i :: 0 <= i < k ==> !Qualifies(eqs[i], Forward, s.code, seen);
    assert k == j;
  }

  /** Reverse records are consulted only when no forward record qualifies;
      then the first reverse record whose source is in the history decides. */
  lemma ReverseFallback(s: Subject, eqs: seq<Equivalence>, seen: set<string>, j: nat)
    requires s.code !in seen
    requires forall i :: 0 <= i < |eqs| ==> !Qualifies(eqs[i], Forward, s.code, seen)
    requires j < |eqs| && Qualifies(eqs[j], Reverse, s.code, seen)
    requires forall i :: 0 <= i < j ==> !Qualifies(eqs[i], Reverse, s.code, seen)
    ensures Outcome(s, eqs, seen).status == SeenStatus
    ensures Outcome(s, eqs, seen).equivalence == Some(EquivalenceResult(eqs[j].kind, eqs[j].notes))
  {
    assert FirstQualifying(eqs, Forward, s.code, seen).None?;
    var g := FirstQualifying(eqs, Reverse, s.code, seen);
    assert g.Some?;
    var k :| 0 <= k < |eqs| && eqs[k] == g.value && Qualifies(g.value, Reverse, s.code, seen)
             && forall i :: 0 <= i < k ==> !Qualifies(eqs[i], Reverse, s.code, seen);
    assert k == j;
  }

  /** Every subject's result, in plan order; each copies its subject's code,
      name and credits unchanged. */
  function Outcomes(subjects: seq<Subject>, eqs: seq<Equivalence>, seen: set<string>): (r: seq<SubjectResult>)
    ensures |r| == |subjects|
    ensures forall i :: 0 <= i < |subjects| ==>
              r[i].code == subjects[i].code && r[i].name == subjects[i].name && r[i].credits == subjects[i].credits
  {
    if subjects == [] then []
    else Outcomes(subjects[..|subjects| - 1], eqs, seen) + [Outcome(subjects[|subjects| - 1], eqs, seen)]
  }

  function SeenResults(subjects: seq<Subject>, eqs: seq<Equivalence>, seen: set<string>): seq<SubjectResult>
  {
    if subjects == [] then []
    else
      var last := subjects[|subjects| - 1];
      SeenResults(subjects[..|subjects| - 1], eqs, seen) + (if Found(last, eqs, seen) then [Outcome(last, eqs, seen)] else [])
  }

  function PendingResults(subjects: seq<Subject>, eqs: seq<Equivalence>, seen: set<string>): seq<SubjectResult>
  {
    if subjects == [] then []
    else
      var last := subjects[|subjects| - 1];
      PendingResults(subjects[..|subjects| - 1], eqs, seen) + (if Found(last, eqs, seen) then [] else [Outcome(last, eqs, seen)])
  }

  /** The results of a given status, in their original order. This is the
      filter Reconciliation.WithStatus applies, over this variant's own result
      record, which has no category field. */
  function WithStatus(results: seq<SubjectResult>, status: string): seq<SubjectResult>
  {
    if results == [] then []
    else WithStatus(results[..|results| - 1], status)
         + (if results[|results| - 1].status == status then [results[|results| - 1]] else [])
  }

  /** The two lists keep plan order: they are the plan-ordered results
      filtered by status "Seen" and "Pending". */
  lemma {:induction false} ResultsFollowPlanOrder(subjects: seq<Subject>, eqs: seq<Equivalence>, seen: set<string>)
    ensures SeenResults(subjects, eqs, seen) == WithStatus(Outcomes(subjects, eqs, seen), SeenStatus)
    ensures PendingResults(subjects, eqs, seen) == WithStatus(Outcomes(subjects, eqs, seen), PendingStatus)
  {
    if subjects != [] {
      var init := subjects[..|subjects| - 1];
      ResultsFollowPlanOrder(init, eqs, seen);
      var outs := Outcomes(subjects, eqs, seen);
      assert outs[..|outs| - 1] == Outcomes(init, eqs, seen);
    }
  }

  /** Every plan subject lands in exactly one of the two lists: together they
      hold each subject's result once, the first only with status "Seen" and
      the second only with status "Pending". */
  lemma {:induction false} ResultsPartitionPlan(subjects: seq<Subject>, eqs: seq<Equivalence>, seen: set<string>)
    ensures |SeenResults(subjects, eqs, seen)| + |PendingResults(subjects, eqs, seen)| == |subjects|
    ensures multiset(SeenResults(subjects, eqs, seen)) + multiset(PendingResults(subjects, eqs, seen))
         == multiset(Outcomes(subjects, eqs, seen))
    ensures forall r :: r in SeenResults(subjects, eqs, seen) ==> r.status == SeenStatus
    ensures forall r :: r in PendingResults(subjects, eqs, seen) ==> r.status == PendingStatus
  {
    if subjects != [] {
      ResultsPartitionPlan(subjects[..|subjects| - 1], eqs, seen);
    }
  }

  /** CompareStudyPlanWithHistory (compare.go:10-88), with the plan's subjects,
      the equivalence records and the history given as values. */
  method CompareStudyPlanWithHistory(subjects: seq<Subject>, equivalences: seq<Equivalence>, history: seq<HistoryEntry>)
    returns (seenSubjects: seq<SubjectResult>, pendingSubjects: seq<SubjectResult>)
    ensures seenSubjects == SeenResults(subjects, equivalences, HistoryCodes(history))
    ensures pendingSubjects == PendingResults(subjects, equivalences, HistoryCodes(history))
  {
    seenSubjects := [];
    pendingSubjects := [];
    var historySubjects := BuildHistoryIndex(history);

    for k := 0 to |subjects|
      invariant seenSubjects == SeenResults(subjects[..k], equivalences, historySubjects)
      invariant pendingSubjects == PendingResults(subjects[..k], equivalences, historySubjects)
    {
      var studyPlanSubject := subjects[k];
      var found := false;
      var equivalenceInfo: Option<EquivalenceResult> := None;

      if studyPlanSubject.code in historySubjects {
        found := true;
      } else {
        var forward := FindQualifying(equivalences, Forward, studyPlanSubject.code, historySubjects);
        if forward.Some? {
          found := true;
          equivalenceInfo := Some(EquivalenceResult(forward.value.kind, forward.value.notes));
        }
        if !found {
          var reverse := FindQualifying(equivalences, Reverse, studyPlanSubject.code, historySubjects);
          if reverse.Some? {
            found := true;
            equivalenceInfo := Some(EquivalenceResult(reverse.value.kind, reverse.value.notes));
          }
        }
      }

      var subjectResult := SubjectResult(studyPlanSubject.code, studyPlanSubject.name, studyPlanSubject.credits,
                                         "", equivalenceInfo);
      assert subjectResult.(status := if found then SeenStatus else PendingStatus)
          == Outcome(studyPlanSubject, equivalences, historySubjects);
      assert subjects[..k + 1][..k] == subjects[..k];
      if found {
        subjectResult := subjectResult.(status := SeenStatus);
        seenSubjects := seenSubjects + [subjectResult];
      } else {
        subjectResult := subjectResult.(status := PendingStatus);
        pendingSubjects := pendingSubjects + [subjectResult];
      }
    }
    assert subjects[..|subjects|] == subjects;
  }
}
