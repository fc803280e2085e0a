/** The comparison of an academic history with a study plan performed by
    CompareAcademicHistoryWithStudyPlan (functions/functions.go): a two-way
    equivalence index keyed by plan codes, the set of approved codes, the
    classification of every plan subject as approved (directly or through an
    equivalence) or pending, and the credit summary per category.

    The method follows the source's loops; each step is proved against a
    specification function, and the lemmas below state what the result means. */
module Reconciliation {
  import opened Models

  const Approved := "APROBADA"
  const Pending := "PENDIENTE"
  const EquivalenceKind := "total"
  const EquivalenceNotePrefix := "Aprobada por equivalencia con "

  const FundObligatoria := "fund.obligatoria"
  const FundOptativa := "fund.optativa"
  const DisObligatoria := "dis.obligatoria"
  const DisOptativa := "dis.optativa"
  const Libre := "libre"
  const KnownCategories: set<string> := {FundObligatoria, FundOptativa, DisObligatoria, DisOptativa, Libre}

  /** A plan subject as reported back: copied fields, status and annotation. */
  datatype SubjectResult = SubjectResult(
    code: string,
    name: string,
    credits: int,
    category: string,
    status: string,
    equivalence: Option<EquivalenceResult>)

  datatype CreditTypeInfo = CreditTypeInfo(required: int, completed: int, missing: int)

  datatype CreditsSummary = CreditsSummary(
    fundObligatoria: CreditTypeInfo,
    fundOptativa: CreditTypeInfo,
    disObligatoria: CreditTypeInfo,
    disOptativa: CreditTypeInfo,
    libre: CreditTypeInfo,
    total: CreditTypeInfo)

  datatype ComparisonResult = ComparisonResult(
    equivalentSubjects: seq<SubjectResult>,
    missingSubjects: seq<SubjectResult>,
    creditsSummary: CreditsSummary)

  /** What the classification of a subject depends on: the codes of the plan,
      the equivalence records in record order, and the approved codes. */
  datatype Evidence = Evidence(planCodes: set<string>, equivalences: seq<Equivalence>, approved: set<string>)

  // ----- The equivalence index -----

  /** The codes one equivalence record appends to the index entry of `code`:
      its target when `code` is its source, then its source when `code` is
      its target, and only when `code` is a plan code. */
  function Contribution(e: Equivalence, planCodes: set<string>, code: string): seq<string>
  {
    (if e.source == code && code in planCodes then [e.target] else [])
    + (if e.target == code && code in planCodes then [e.source] else [])
  }

  /** The index entry of `code` after all records of `eqs` were processed in order. */
  function IndexEntry(eqs: seq<Equivalence>, planCodes: set<string>, code: string): seq<string>
  {
    if eqs == [] then []
    else IndexEntry(eqs[..|eqs| - 1], planCodes, code) + Contribution(eqs[|eqs| - 1], planCodes, code)
  }

  lemma IndexEntryAppend(eqs: seq<Equivalence>, e: Equivalence, planCodes: set<string>, code: string)
    ensures IndexEntry(eqs + [e], planCodes, code) == IndexEntry(eqs, planCodes, code) + Contribution(e, planCodes, code)
  {
    assert (eqs + [e])[..|eqs|] == eqs;
  }

  /** A code belongs to the index entry of `code` exactly when `code` is a
      plan code and some record joins the two, in either direction. */
  lemma {:induction false} IndexEntryMembers(eqs: seq<Equivalence>, planCodes: set<string>, code: string, other: string)
    ensures other in IndexEntry(eqs, planCodes, code)
        <==> code in planCodes && exists e :: e in eqs && Links(e, code, other)
  {
    if eqs != [] {
      var init, last := eqs[..|eqs| - 1], eqs[|eqs| - 1];
      assert eqs == init + [last];
      IndexEntryMembers(init, planCodes, code, other);
      assert other in Contribution(last, planCodes, code) <==> code in planCodes && Links(last, code, other);
      if code in planCodes && exists e :: e in eqs && Links(e, code, other) {
        var e :| e in eqs && Links(e, code, other);
        assert e in init || e == last;
      }
    }
  }

  /** Only plan codes have a non-empty index entry. */
  lemma IndexKeyedByPlan(eqs: seq<Equivalence>, planCodes: set<string>, code: string)
    requires IndexEntry(eqs, planCodes, code) != []
    ensures code in planCodes
  {
    IndexEntryMembers(eqs, planCodes, code, IndexEntry(eqs, planCodes, code)[0]);
  }

  /** The index is two-way: when `a` is a code of one plan and `b` a code of
      another (or the same) plan, `b` is accepted for `a` exactly when `a` is
      accepted for `b`. */
  lemma EquivalenceSymmetric(eqs: seq<Equivalence>, plan1: set<string>, plan2: set<string>, a: string, b: string)
    requires a in plan1 && b in plan2
    ensures b in IndexEntry(eqs, plan1, a) <==> a in IndexEntry(eqs, plan2, b)
  {
    IndexEntryMembers(eqs, plan1, a, b);
    IndexEntryMembers(eqs, plan2, b, a);
    assert forall e :: Links(e, a, b) <==> Links(e, b, a);
  }

  /** The records the source loads: those with an endpoint in the plan. */
  function Relevant(eqs: seq<Equivalence>, planCodes: set<string>): (r: seq<Equivalence>)
    ensures forall e :: e in r <==> e in eqs && (e.source in planCodes || e.target in planCodes)
  {
    if eqs == [] then []
    else
      var last := eqs[|eqs| - 1];
      assert eqs == eqs[..|eqs| - 1] + [last];
      Relevant(eqs[..|eqs| - 1], planCodes)
      + (if last.source in planCodes || last.target in planCodes then [last] else [])
  }

  /** Loading only the records that touch the plan yields the same index as
      processing all of them. */
  lemma {:induction false} IndexIgnoresIrrelevant(eqs: seq<Equivalence>, planCodes: set<string>, code: string)
    ensures IndexEntry(Relevant(eqs, planCodes), planCodes, code) == IndexEntry(eqs, planCodes, code)
  {
    if eqs != [] {
      var init, last := eqs[..|eqs| - 1], eqs[|eqs| - 1];
      IndexIgnoresIrrelevant(init, planCodes, code);
      assert IndexEntry(eqs, planCodes, code) == IndexEntry(init, planCodes, code) + Contribution(last, planCodes, code);
      if last.source in planCodes || last.target in planCodes {
        assert Relevant(eqs, planCodes) == Relevant(init, planCodes) + [last];
        IndexEntryAppend(Relevant(init, planCodes), last, planCodes, code);
      } else {
        assert Relevant(eqs, planCodes) == Relevant(init, planCodes);
        assert Contribution(last, planCodes, code) == [];
      }
    }
  }

  function Lookup(index: map<string, seq<string>>, code: string): seq<string>
  {
    if code in index then index[code] else []
  }

  /** One record's appends (functions.go:39-45) extend every entry by that
      record's contribution. */
  lemma AppendStep(before: map<string, seq<string>>, mid: map<string, seq<string>>, after: map<string, seq<string>>,
                   e: Equivalence, planCodes: set<string>, code: string)
    requires mid == if e.source in planCodes then before[e.source := Lookup(before, e.source) + [e.target]] else before
    requires after == if e.target in planCodes then mid[e.target := Lookup(mid, e.target) + [e.source]] else mid
    ensures Lookup(after, code) == Lookup(before, code) + Contribution(e, planCodes, code)
    ensures code in after <==> code in before || Contribution(e, planCodes, code) != []
  {
  }

  /** The map from plan codes to their index entries (functions.go:35-46). */
  method BuildEquivalenceIndex(eqs: seq<Equivalence>, planCodes: set<string>) returns (index: map<string, seq<string>>)
    ensures forall code :: code in index <==> IndexEntry(eqs, planCodes, code) != []
    ensures forall code :: code in index ==> index[code] == IndexEntry(eqs, planCodes, code)
    ensures index.Keys <= planCodes
  {
    index := map[];
    for i := 0 to |eqs|
      invariant forall code :: Lookup(index, code) == IndexEntry(eqs[..i], planCodes, code)
      invariant forall code :: code in index ==> index[code] != []
    {
      var equiv := eqs[i];
      ghost var before := index;
      if equiv.source in planCodes {
        index := index[equiv.source := Lookup(index, equiv.source) + [equiv.target]];
      }
      ghost var mid := index;
      if equiv.target in planCodes {
        index := index[equiv.target := Lookup(index, equiv.target) + [equiv.source]];
      }
      forall code
        ensures Lookup(index, code) == IndexEntry(eqs[..i + 1], planCodes, code)
        ensures code in index ==> index[code] != []
      {
        assert eqs[..i + 1] == eqs[..i] + [equiv];
        IndexEntryAppend(eqs[..i], equiv, planCodes, code);
        AppendStep(before, mid, index, equiv, planCodes, code);
      }
    }
    assert eqs[..|eqs|] == eqs;
    forall code | code in index
      ensures code in planCodes
    {
      IndexKeyedByPlan(eqs, planCodes, code);
    }
  }

  /** The set of plan codes (functions.go:30-33; only membership is used). */
  method BuildPlanCodes(subjects: seq<Subject>) returns (codes: set<string>)
    ensures codes == PlanCodes(subjects)
  {
    codes := {};
    for i := 0 to |subjects|
      invariant codes == PlanCodes(subjects[..i])
    {
      assert subjects[..i + 1] == subjects[..i] + [subjects[i]];
      codes := codes + {subjects[i].code};
    }
    assert subjects[..|subjects|] == subjects;
  }

  // ----- The approved codes -----

  /** The codes of the history entries whose status is exactly "APROBADA". */
  function ApprovedCodes(history: seq<HistoryEntry>): set<string>
  {
    set h | h in history && h.status == Approved :: h.code
  }

  method BuildApprovedSet(history: seq<HistoryEntry>) returns (approved: set<string>)
    ensures approved == ApprovedCodes(history)
  {
    approved := {};
    for i := 0 to |history|
      invariant approved == ApprovedCodes(history[..i])
    {
      assert history[..i + 1] == history[..i] + [history[i]];
      if history[i].status == Approved {
        approved := approved + {history[i].code};
      }
    }
    assert history[..|history|] == history;
  }

  // ----- Classification of one subject -----

  /** The first code of `codes` that is approved, if any. */
  function FirstApproved(codes: seq<string>, approved: set<string>): (r: Option<string>)
    ensures r.Some? ==> exists j :: 0 <= j < |codes| && codes[j] == r.value && r.value in approved
                                  && forall i :: 0 <= i < j ==> codes[i] !in approved
    ensures r.None? ==> forall i :: 0 <= i < |codes| ==> codes[i] !in approved
  {
    if codes == [] then None
    else if codes[0] in approved then Some(codes[0])
    else
      var r := FirstApproved(codes[1..], approved);
      assert r.Some? ==> exists j :: 0 < j < |codes| && codes[j] == r.value && r.value in approved
                                  && forall i :: 0 <= i < j ==> codes[i] !in approved
      by {
        if r.Some? {
          var j :| 0 <= j < |codes[1..]| && codes[1..][j] == r.value && r.value in approved
                  && forall i :: 0 <= i < j ==> codes[1..][i] !in approved;
          assert codes[j + 1] == r.value;
          assert forall i :: 0 <= i < j + 1 ==> codes[i] !in approved by {
            forall i | 0 < i < j + 1 ensures codes[i] !in approved {
              assert codes[i] == codes[1..][i - 1];
            }
          }
        }
      }
      r
  }

  /** The search for an approved equivalent code, stopping at the first one
      (functions.go:78-87). */
  method FindApprovedEquivalent(codes: seq<string>, approved: set<string>) returns (hit: Option<string>)
    ensures hit == FirstApproved(codes, approved)
  {
    hit := None;
    var i := 0;
    while i < |codes|
      invariant 0 <= i <= |codes|
      invariant FirstApproved(codes[i..], approved) == FirstApproved(codes, approved)
    {
      if codes[i] in approved {
        hit := Some(codes[i]);
        break;
      }
      assert codes[i..][1..] == codes[i + 1..];
      i := i + 1;
    }
  }

  /** The codes accepted in place of the subject's own code. */
  function Equivalents(s: Subject, ev: Evidence): seq<string>
  {
    IndexEntry(ev.equivalences, ev.planCodes, s.code)
  }

  predicate Satisfied(s: Subject, ev: Evidence)
  {
    s.code in ev.approved || FirstApproved(Equivalents(s, ev), ev.approved).Some?
  }

  function Annotation(s: Subject, ev: Evidence): Option<EquivalenceResult>
  {
    if s.code in ev.approved then None
    else match FirstApproved(Equivalents(s, ev), ev.approved)
      case None => None
      case Some(c) => Some(EquivalenceResult(EquivalenceKind, EquivalenceNotePrefix + c))
  }

  function Outcome(s: Subject, ev: Evidence): SubjectResult
  {
    SubjectResult(s.code, s.name, s.credits, s.category,
                  if Satisfied(s, ev) then Approved else Pending,
                  Annotation(s, ev))
  }

  /** A subject is approved with no annotation exactly when its own code was
      approved: the direct match comes first. */
  lemma DirectMatchPrecedence(s: Subject, ev: Evidence)
    ensures (Outcome(s, ev).status == Approved && Outcome(s, ev).equivalence.None?) <==> s.code in ev.approved
  {
  }

  /** Without a direct match, the first approved code of the index entry
      approves the subject, and the annotation names that code. */
  lemma EquivalenceAnnotation(s: Subject, ev: Evidence, j: nat)
    requires s.code !in ev.approved
    requires j < |Equivalents(s, ev)| && Equivalents(s, ev)[j] in ev.approved
    requires forall i :: 0 <= i < j ==> Equivalents(s, ev)[i] !in ev.approved
    ensures Outcome(s, ev).status == Approved
    ensures Outcome(s, ev).equivalence == Some(EquivalenceResult(EquivalenceKind, EquivalenceNotePrefix + Equivalents(s, ev)[j]))
  {
    var codes := Equivalents(s, ev);
    var r := FirstApproved(codes, ev.approved);
    assert r.Some?;
    var k :| 0 <= k < |codes| && codes[k] == r.value && r.value in ev.approved
             && forall i :: 0 <= i < k ==> codes[i] !in ev.approved;
    assert k == j;
  }

  /** End to end: a plan subject is approved exactly when the history holds an
      entry with status "APROBADA" whose code is the subject's own code or is
      joined to it by some equivalence record. Entries with any other status
      never approve anything. */
  lemma SatisfiedIffApprovedInHistory(plan: StudyPlan, eqs: seq<Equivalence>, history: seq<HistoryEntry>, s: Subject)
    requires s in plan.subjects
    ensures Satisfied(s, Evidence(PlanCodes(plan.subjects), eqs, ApprovedCodes(history)))
        <==> exists h :: h in history && h.status == Approved
                      && (h.code == s.code || exists e :: e in eqs && Links(e, s.code, h.code))
  {
    var ev := Evidence(PlanCodes(plan.subjects), eqs, ApprovedCodes(history));
    var codes := Equivalents(s, ev);
    assert s.code in ev.planCodes;
    if Satisfied(s, ev) {
      if s.code !in ev.approved {
        var r := FirstApproved(codes, ev.approved);
        var j :| 0 <= j < |codes| && codes[j] == r.value && r.value in ev.approved;
        var h :| h in history && h.status == Approved && h.code == r.value;
        IndexEntryMembers(eqs, ev.planCodes, s.code, h.code);
      }
    } else {
      forall h | h in history && h.status == Approved
        ensures h.code != s.code && !exists e :: e in eqs && Links(e, s.code, h.code)
      {
        assert h.code in ev.approved;
        IndexEntryMembers(eqs, ev.planCodes, s.code, h.code);
        assert h.code !in codes;
      }
    }
  }

  // ----- The two lists -----

  /** Every subject's result, in plan order. */
  function Outcomes(subjects: seq<Subject>, ev: Evidence): (r: seq<SubjectResult>)
    ensures |r| == |subjects|
  {
    if subjects == [] then []
    else Outcomes(subjects[..|subjects| - 1], ev) + [Outcome(subjects[|subjects| - 1], ev)]
  }

  /** The results of `results` with the given status, in their order. */
  function WithStatus(results: seq<SubjectResult>, status: string): seq<SubjectResult>
  {
    if results == [] then []
    else WithStatus(results[..|results| - 1], status)
         + (if results[|results| - 1].status == status then [results[|results| - 1]] else [])
  }

  /** The approved subjects' results as the loop appends them. */
  function EquivalentResults(subjects: seq<Subject>, ev: Evidence): seq<SubjectResult>
  {
    if subjects == [] then []
    else
      var last := subjects[|subjects| - 1];
      EquivalentResults(subjects[..|subjects| - 1], ev) + (if Satisfied(last, ev) then [Outcome(last, ev)] else [])
  }

  /** The pending subjects' results as the loop appends them. */
  function MissingResults(subjects: seq<Subject>, ev: Evidence): seq<SubjectResult>
  {
    if subjects == [] then []
    else
      var last := subjects[|subjects| - 1];
      MissingResults(subjects[..|subjects| - 1], ev) + (if Satisfied(last, ev) then [] else [Outcome(last, ev)])
  }

  /** Both lists keep plan order: each is the plan-ordered list of results
      restricted to one status. */
  lemma {:induction false} ResultsFollowPlanOrder(subjects: seq<Subject>, ev: Evidence)
    ensures EquivalentResults(subjects, ev) == WithStatus(Outcomes(subjects, ev), Approved)
    ensures MissingResults(subjects, ev) == WithStatus(Outcomes(subjects, ev), Pending)
  {
    if subjects != [] {
      var init := subjects[..|subjects| - 1];
      ResultsFollowPlanOrder(init, ev);
      var outs := Outcomes(subjects, ev);
      assert outs[..|outs| - 1] == Outcomes(init, ev);
    }
  }

  /** Every subject lands in exactly one list: together the two lists hold
      each subject's result once, the first only approved ones and the second
      only pending ones. */
  lemma {:induction false} ResultsPartitionPlan(subjects: seq<Subject>, ev: Evidence)
    ensures |EquivalentResults(subjects, ev)| + |MissingResults(subjects, ev)| == |subjects|
    ensures multiset(EquivalentResults(subjects, ev)) + multiset(MissingResults(subjects, ev))
         == multiset(Outcomes(subjects, ev))
    ensures forall r :: r in EquivalentResults(subjects, ev) ==> r.status == Approved
    ensures forall r :: r in MissingResults(subjects, ev) ==> r.status == Pending
  {
    if subjects != [] {
      var init := subjects[..|subjects| - 1];
      ResultsPartitionPlan(init, ev);
    }
  }

  // ----- Credits -----

  /** Credits of the approved subjects of `category`, as `creditsByType` tallies them. */
  function SatisfiedCredits(subjects: seq<Subject>, ev: Evidence, category: string): int
  {
    if subjects == [] then 0
    else
      var last := subjects[|subjects| - 1];
      SatisfiedCredits(subjects[..|subjects| - 1], ev, category)
      + (if Satisfied(last, ev) && last.category == category then last.credits else 0)
  }

  /** Credits of all plan subjects of `category`, approved or not. */
  function PlanCredits(subjects: seq<Subject>, category: string): int
  {
    if subjects == [] then 0
    else
      var last := subjects[|subjects| - 1];
      PlanCredits(subjects[..|subjects| - 1], category) + (if last.category == category then last.credits else 0)
  }

  /** Credits of the approved subjects whose category is one of the five known ones. */
  function KnownSatisfiedCredits(subjects: seq<Subject>, ev: Evidence): int
  {
    if subjects == [] then 0
    else
      var last := subjects[|subjects| - 1];
      KnownSatisfiedCredits(subjects[..|subjects| - 1], ev)
      + (if Satisfied(last, ev) && last.category in KnownCategories then last.credits else 0)
  }

  /** With non-negative credits, the completed credits of a category lie
      between zero and the credits the plan offers in that category. */
  lemma {:induction false} CompletedWithinPlan(subjects: seq<Subject>, ev: Evidence, category: string)
    requires forall s :: s in subjects ==> s.credits >= 0
    ensures 0 <= SatisfiedCredits(subjects, ev, category) <= PlanCredits(subjects, category)
  {
    if subjects != [] {
      CompletedWithinPlan(subjects[..|subjects| - 1], ev, category);
    }
  }

  /** A category that no plan subject carries completes no credits, whatever
      the history and the equivalences. */
  lemma {:induction false} AbsentCategoryCompletesNothing(subjects: seq<Subject>, ev: Evidence, category: string)
    requires forall s :: s in subjects ==> s.category != category
    ensures SatisfiedCredits(subjects, ev, category) == 0
  {
    if subjects != [] {
      var init := subjects[..|subjects| - 1];
      assert forall s :: s in init ==> s in subjects;
      AbsentCategoryCompletesNothing(init, ev, category);
      assert subjects[|subjects| - 1] in subjects;
    }
  }

  /** The five category tallies together are the approved credits of known
      categories; a subject with any other category adds to no bucket and not
      to the total. */
  lemma {:induction false} BucketsCoverKnownCategories(subjects: seq<Subject>, ev: Evidence)
    ensures SatisfiedCredits(subjects, ev, FundObligatoria) + SatisfiedCredits(subjects, ev, FundOptativa)
          + SatisfiedCredits(subjects, ev, DisObligatoria) + SatisfiedCredits(subjects, ev, DisOptativa)
          + SatisfiedCredits(subjects, ev, Libre)
         == KnownSatisfiedCredits(subjects, ev)
  {
    if subjects != [] {
      BucketsCoverKnownCategories(subjects[..|subjects| - 1], ev);
    }
  }

  /** One row of the summary: `missing` is `required - completed` floored at zero. */
  function Row(required: int, completed: int): (r: CreditTypeInfo)
    ensures r.required == required && r.completed == completed
    ensures r.missing >= 0 && r.missing >= required - completed
    ensures r.missing == 0 || r.missing == required - completed
  {
    CreditTypeInfo(required, completed, if required - completed < 0 then 0 else required - completed)
  }

  /** The six rows for the given per-category completed credits; the total
      row completes their sum. */
  function SummaryOf(plan: StudyPlan, fo: int, fp: int, dobl: int, dopt: int, li: int): CreditsSummary
  {
    CreditsSummary(
      Row(plan.fundObligatoriaCredits, fo),
      Row(plan.fundOptativaCredits, fp),
      Row(plan.disObligatoriaCredits, dobl),
      Row(plan.disOptativaCredits, dopt),
      Row(plan.libreCredits, li),
      Row(plan.totalCredits, fo + fp + dobl + dopt + li))
  }

  function Summary(plan: StudyPlan, ev: Evidence): CreditsSummary
  {
    SummaryOf(plan,
              SatisfiedCredits(plan.subjects, ev, FundObligatoria),
              SatisfiedCredits(plan.subjects, ev, FundOptativa),
              SatisfiedCredits(plan.subjects, ev, DisObligatoria),
              SatisfiedCredits(plan.subjects, ev, DisOptativa),
              SatisfiedCredits(plan.subjects, ev, Libre))
  }

  /** The whole comparison as a function of its inputs. */
  function Reconcile(plan: StudyPlan, eqs: seq<Equivalence>, history: seq<HistoryEntry>): ComparisonResult
  {
    var ev := Evidence(PlanCodes(plan.subjects), eqs, ApprovedCodes(history));
    ComparisonResult(EquivalentResults(plan.subjects, ev), MissingResults(plan.subjects, ev), Summary(plan, ev))
  }

  /** The total row completes the known categories' approved credits against
      the plan's total, and no row has a negative `missing`. */
  lemma SummaryTotals(plan: StudyPlan, eqs: seq<Equivalence>, history: seq<HistoryEntry>)
    ensures var ev := Evidence(PlanCodes(plan.subjects), eqs, ApprovedCodes(history));
            var cs := Reconcile(plan, eqs, history).creditsSummary;
            && cs.total.required == plan.totalCredits
            && cs.total.completed == KnownSatisfiedCredits(plan.subjects, ev)
            && cs.fundObligatoria.missing >= 0 && cs.fundOptativa.missing >= 0
            && cs.disObligatoria.missing >= 0 && cs.disOptativa.missing >= 0
            && cs.libre.missing >= 0 && cs.total.missing >= 0
  {
    BucketsCoverKnownCategories(plan.subjects, Evidence(PlanCodes(plan.subjects), eqs, ApprovedCodes(history)));
  }

  function Bucket(creditsByType: map<string, int>, category: string): int
  {
    if category in creditsByType then creditsByType[category] else 0
  }

  /** The decision for one plan subject (functions.go:69-89): a direct match
      first, otherwise the first approved code of its index entry. */
  method ClassifySubject(planSubject: Subject, index: map<string, seq<string>>, approved: set<string>, ghost ev: Evidence)
    returns (isApproved: bool, equivalenceInfo: Option<EquivalenceResult>)
    requires approved == ev.approved
    requires Lookup(index, planSubject.code) == Equivalents(planSubject, ev)
    ensures isApproved == Satisfied(planSubject, ev)
    ensures equivalenceInfo == Annotation(planSubject, ev)
  {
    isApproved := false;
    equivalenceInfo := None;
    if planSubject.code in approved {
      isApproved := true;
    } else if planSubject.code in index {
      var hit := FindApprovedEquivalent(index[planSubject.code], approved);
      if hit.Some? {
        isApproved := true;
        equivalenceInfo := Some(EquivalenceResult(EquivalenceKind, EquivalenceNotePrefix + hit.value));
      }
    }
  }

  /** The credit summary (functions.go:109-166): each row's missing credits
      are computed and then floored at zero in place. */
  method SummarizeCredits(plan: StudyPlan, creditsByType: map<string, int>) returns (summary: CreditsSummary)
    requires KnownCategories <= creditsByType.Keys
    ensures summary == SummaryOf(plan, creditsByType[FundObligatoria], creditsByType[FundOptativa],
                                 creditsByType[DisObligatoria], creditsByType[DisOptativa], creditsByType[Libre])
  {
    var zero := CreditTypeInfo(0, 0, 0);
    summary := CreditsSummary(
      CreditTypeInfo(plan.fundObligatoriaCredits, creditsByType[FundObligatoria],
                     plan.fundObligatoriaCredits - creditsByType[FundObligatoria]),
      CreditTypeInfo(plan.fundOptativaCredits, creditsByType[FundOptativa],
                     plan.fundOptativaCredits - creditsByType[FundOptativa]),
      CreditTypeInfo(plan.disObligatoriaCredits, creditsByType[DisObligatoria],
                     plan.disObligatoriaCredits - creditsByType[DisObligatoria]),
      CreditTypeInfo(plan.disOptativaCredits, creditsByType[DisOptativa],
                     plan.disOptativaCredits - creditsByType[DisOptativa]),
      CreditTypeInfo(plan.libreCredits, creditsByType[Libre], plan.libreCredits - creditsByType[Libre]),
      zero);

    var totalCompleted := creditsByType[FundObligatoria] + creditsByType[FundOptativa]
                        + creditsByType[DisObligatoria] + creditsByType[DisOptativa] + creditsByType[Libre];
    summary := summary.(total := CreditTypeInfo(plan.totalCredits, totalCompleted, plan.totalCredits - totalCompleted));

    if summary.fundObligatoria.missing < 0 {
      summary := summary.(fundObligatoria := summary.fundObligatoria.(missing := 0));
    }
    if summary.fundOptativa.missing < 0 {
      summary := summary.(fundOptativa := summary.fundOptativa.(missing := 0));
    }
    if summary.disObligatoria.missing < 0 {
      summary := summary.(disObligatoria := summary.disObligatoria.(missing := 0));
    }
    if summary.disOptativa.missing < 0 {
      summary := summary.(disOptativa := summary.disOptativa.(missing := 0));
    }
    if summary.libre.missing < 0 {
      summary := summary.(libre := summary.libre.(missing := 0));
    }
    if summary.total.missing < 0 {
      summary := summary.(total := summary.total.(missing := 0));
    }
  }

  /** CompareAcademicHistoryWithStudyPlan (functions.go:10-173), with the plan,
      its equivalence records and the history given as values. */
  method CompareAcademicHistoryWithStudyPlan(history: seq<HistoryEntry>, plan: StudyPlan, equivalences: seq<Equivalence>)
    returns (result: ComparisonResult)
    ensures result == Reconcile(plan, equivalences, history)
  {
    var planCodes := BuildPlanCodes(plan.subjects);
    var index := BuildEquivalenceIndex(equivalences, planCodes);
    var approved := BuildApprovedSet(history);
    ghost var ev := Evidence(planCodes, equivalences, approved);

    var equivalentSubjects: seq<SubjectResult> := [];
    var missingSubjects: seq<SubjectResult> := [];
    var creditsByType := map[FundObligatoria := 0, FundOptativa := 0, DisObligatoria := 0, DisOptativa := 0, Libre := 0];

    var subjects := plan.subjects;
    for i := 0 to |subjects|
      invariant equivalentSubjects == EquivalentResults(subjects[..i], ev)
      invariant missingSubjects == MissingResults(subjects[..i], ev)
      invariant KnownCategories <= creditsByType.Keys
      invariant forall c :: Bucket(creditsByType, c) == SatisfiedCredits(subjects[..i], ev, c)
    {
      var planSubject := subjects[i];
      var isApproved, equivalenceInfo := ClassifySubject(planSubject, index, approved, ev);

      var subjectResult := SubjectResult(planSubject.code, planSubject.name, planSubject.credits,
                                         planSubject.category, "", equivalenceInfo);
      assert subjects[..i + 1][..i] == subjects[..i];
      if isApproved {
        subjectResult := subjectResult.(status := Approved);
        equivalentSubjects := equivalentSubjects + [subjectResult];
        creditsByType := creditsByType[planSubject.category := Bucket(creditsByType, planSubject.category) + planSubject.credits];
      } else {
        subjectResult := subjectResult.(status := Pending);
        missingSubjects := missingSubjects + [subjectResult];
      }
    }
    assert subjects[..|subjects|] == subjects;

    var summary := SummarizeCredits(plan, creditsByType);
    result := ComparisonResult(equivalentSubjects, missingSubjects, summary);
  }
}
