/** Worked examples on a subject and an equivalence of the seeded Ingeniería de
    Sistemas plan: "Estadística I" (3010651) can be approved through the old
    code 3006914. The seeding script builds the subject's type as the label
    "FUND. OBLIGATORIA"; the first examples give it instead the category key
    "fund.obligatoria" that the credit summary reads, and the last ones show
    what the summary does with the label where a store accepts it. (A
    database migrated from models/models.go would reject it at line 46, but
    there the script already exits at its plan insert.) */
module Scenarios {
  import opened Models
  import R = Reconciliation
  import C = Comparison
  import Seed

  /** The subject with the category key the summary reads, in place of its seeded label. */
  const Estadistica := Subject("3010651", "Estadística I", 3, R.FundObligatoria)
  const Plan := StudyPlan([Estadistica], 3, 0, 0, 0, 0, 3)
  const OldToNew := Equivalence("3006914", "3010651", "TOTAL", "Equivalencia automática: 3006914 → 3010651")

  /** Approved through the reverse direction of the stored record: the
      annotation names the old code and the category is complete. */
  lemma ApprovedThroughEquivalence()
    ensures var r := R.Reconcile(Plan, [OldToNew], [HistoryEntry("3006914", R.Approved)]);
            && r.equivalentSubjects == [R.SubjectResult("3010651", "Estadística I", 3, R.FundObligatoria, R.Approved,
                                         Some(EquivalenceResult("total", "Aprobada por equivalencia con 3006914")))]
            && r.missingSubjects == []
            && r.creditsSummary.fundObligatoria == R.CreditTypeInfo(3, 3, 0)
            && r.creditsSummary.total == R.CreditTypeInfo(3, 3, 0)
  {
    var ev := R.Evidence(PlanCodes(Plan.subjects), [OldToNew], R.ApprovedCodes([HistoryEntry("3006914", R.Approved)]));
    assert "3006914" in ev.approved;
    assert "3010651" in ev.planCodes;
    assert "3010651" !in ev.approved;
    assert [OldToNew][..0] == [];
    assert R.Contribution(OldToNew, ev.planCodes, "3010651") == ["3006914"];
    assert R.IndexEntry([OldToNew], ev.planCodes, "3010651") == ["3006914"];
    assert R.Equivalents(Estadistica, ev) == ["3006914"];
    assert R.FirstApproved(["3006914"], ev.approved) == Some("3006914");
    assert R.EquivalenceNotePrefix + "3006914" == "Aprobada por equivalencia con 3006914";
    assert R.Satisfied(Estadistica, ev);
    assert Plan.subjects[..0] == [];
    assert R.EquivalentResults(Plan.subjects, ev) == [R.Outcome(Estadistica, ev)];
    assert R.MissingResults(Plan.subjects, ev) == [];
    assert R.SatisfiedCredits(Plan.subjects, ev, R.FundObligatoria) == 3;
    assert R.SatisfiedCredits(Plan.subjects, ev, R.FundOptativa) == 0;
    assert R.SatisfiedCredits(Plan.subjects, ev, R.DisObligatoria) == 0;
    assert R.SatisfiedCredits(Plan.subjects, ev, R.DisOptativa) == 0;
    assert R.SatisfiedCredits(Plan.subjects, ev, R.Libre) == 0;
  }

  /** A failed attempt counts for nothing: the subject stays pending with all
      its credits missing. */
  lemma FailedAttemptStaysPending()
    ensures var r := R.Reconcile(Plan, [OldToNew], [HistoryEntry("3010651", "REPROBADA")]);
            && r.equivalentSubjects == []
            && |r.missingSubjects| == 1 && r.missingSubjects[0].status == R.Pending
            && r.creditsSummary.fundObligatoria == R.CreditTypeInfo(3, 0, 3)
  {
    var ev := R.Evidence(PlanCodes(Plan.subjects), [OldToNew], R.ApprovedCodes([HistoryEntry("3010651", "REPROBADA")]));
    assert ev.approved == {};
    assert R.FirstApproved(R.Equivalents(Estadistica, ev), ev.approved).None?;
    assert !R.Satisfied(Estadistica, ev);
    assert Plan.subjects[..0] == [];
    assert R.EquivalentResults(Plan.subjects, ev) == [];
    assert R.MissingResults(Plan.subjects, ev) == [R.Outcome(Estadistica, ev)];
    assert R.SatisfiedCredits(Plan.subjects, ev, R.FundObligatoria) == 0;
  }

  /** The older variant accepts the failed attempt, and through the same
      reverse record it copies the stored type and notes. */
  lemma OlderVariantIgnoresStatus()
    ensures C.Outcome(Estadistica, [OldToNew], C.HistoryCodes([HistoryEntry("3006914", "REPROBADA")]))
         == C.SubjectResult("3010651", "Estadística I", 3, C.SeenStatus,
                            Some(EquivalenceResult("TOTAL", "Equivalencia automática: 3006914 → 3010651")))
  {
    var seen := C.HistoryCodes([HistoryEntry("3006914", "REPROBADA")]);
    assert "3006914" in seen;
    assert "3010651" !in seen;
    C.ReverseFallback(Estadistica, [OldToNew], seen, 0);
  }

  /** The category the seeding script stores for a "B - Fundamentación Obligatoria" row. */
  const SeededCategory := Seed.MapTipologia("B - Fundamentación Obligatoria").Label()
  /** The subject exactly as the seeding script stores it. */
  const SeededEstadistica := Subject("3010651", "Estadística I", 3, SeededCategory)
  const SeededPlan := StudyPlan([SeededEstadistica], 3, 0, 0, 0, 0, 3)

  /** None of the labels the seeding script stores is a category key of the
      credit summary. */
  lemma SeedLabelsAreNotSummaryKeys(t: Seed.Tipologia)
    ensures t.Label() !in R.KnownCategories
  {
  }

  /** For a plan whose subjects carry the seeding script's labels, the summary
      completes no credits in any row, whatever the history: every row's
      missing value is its requirement floored at zero. */
  lemma SeededPlanCompletesNothing(plan: StudyPlan, eqs: seq<Equivalence>, history: seq<HistoryEntry>)
    requires forall s :: s in plan.subjects ==> exists t: Seed.Tipologia :: s.category == t.Label()
    ensures var cs := R.Reconcile(plan, eqs, history).creditsSummary;
            && cs.fundObligatoria == R.Row(plan.fundObligatoriaCredits, 0)
            && cs.fundOptativa == R.Row(plan.fundOptativaCredits, 0)
            && cs.disObligatoria == R.Row(plan.disObligatoriaCredits, 0)
            && cs.disOptativa == R.Row(plan.disOptativaCredits, 0)
            && cs.libre == R.Row(plan.libreCredits, 0)
            && cs.total == R.Row(plan.totalCredits, 0)
  {
    var ev := R.Evidence(PlanCodes(plan.subjects), eqs, R.ApprovedCodes(history));
    forall c, s | c in R.KnownCategories && s in plan.subjects
      ensures s.category != c
    {
      var t: Seed.Tipologia :| s.category == t.Label();
      SeedLabelsAreNotSummaryKeys(t);
    }
    R.AbsentCategoryCompletesNothing(plan.subjects, ev, R.FundObligatoria);
    R.AbsentCategoryCompletesNothing(plan.subjects, ev, R.FundOptativa);
    R.AbsentCategoryCompletesNothing(plan.subjects, ev, R.DisObligatoria);
    R.AbsentCategoryCompletesNothing(plan.subjects, ev, R.DisOptativa);
    R.AbsentCategoryCompletesNothing(plan.subjects, ev, R.Libre);
  }

  /** As seeded, the subject is still approved through the old code, but its
      credits are tallied under the label "FUND. OBLIGATORIA", which no row
      reads: the category row and the total stay entirely missing. */
  lemma SeededLabelGoesUncounted()
    ensures var r := R.Reconcile(SeededPlan, [OldToNew], [HistoryEntry("3006914", R.Approved)]);
            && r.equivalentSubjects == [R.SubjectResult("3010651", "Estadística I", 3, "FUND. OBLIGATORIA", R.Approved,
                                         Some(EquivalenceResult("total", "Aprobada por equivalencia con 3006914")))]
            && r.missingSubjects == []
            && r.creditsSummary.fundObligatoria == R.CreditTypeInfo(3, 0, 3)
            && r.creditsSummary.total == R.CreditTypeInfo(3, 0, 3)
  {
    assert SeededCategory == Seed.Tipologia.FundamentalObligatoria.Label() == "FUND. OBLIGATORIA";
    var ev := R.Evidence(PlanCodes(SeededPlan.subjects), [OldToNew], R.ApprovedCodes([HistoryEntry("3006914", R.Approved)]));
    assert "3006914" in ev.approved;
    assert "3010651" in ev.planCodes;
    assert "3010651" !in ev.approved;
    assert [OldToNew][..0] == [];
    assert R.Contribution(OldToNew, ev.planCodes, "3010651") == ["3006914"];
    assert R.IndexEntry([OldToNew], ev.planCodes, "3010651") == ["3006914"];
    assert R.Equivalents(SeededEstadistica, ev) == ["3006914"];
    assert R.FirstApproved(["3006914"], ev.approved) == Some("3006914");
    assert R.EquivalenceNotePrefix + "3006914" == "Aprobada por equivalencia con 3006914";
    assert R.Satisfied(SeededEstadistica, ev);
    assert SeededPlan.subjects[..0] == [];
    assert R.EquivalentResults(SeededPlan.subjects, ev) == [R.Outcome(SeededEstadistica, ev)];
    assert R.MissingResults(SeededPlan.subjects, ev) == [];
    assert forall s :: s in SeededPlan.subjects ==> s.category == Seed.Tipologia.FundamentalObligatoria.Label();
    SeededPlanCompletesNothing(SeededPlan, [OldToNew], [HistoryEntry("3006914", R.Approved)]);
  }
}
