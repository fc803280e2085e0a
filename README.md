# Transcript-versus-study-plan reconciliation, modelled in Dafny

This project models the decision logic of a small Go backend that compares a
student's academic history with a degree's study plan. For every plan subject
it decides whether the history shows it approved, either directly or through
a recorded course equivalence, and it sums the approved credits per category
against the plan's requirements. The source holds two divergent versions of
this comparison and a seeding script that tallies a plan's credits. Each is
modelled separately, as written:

- `models.dfy` (module `Models`): the records the comparison uses, from
  `models/models.go`. These are subjects, equivalence records, history
  entries, the equivalence annotation and the study plan with its required
  credits. `Option` stands for Go's nil pointer.
- `reconciliation.dfy` (module `Reconciliation`): `CompareAcademicHistoryWithStudyPlan`
  from `functions/functions.go`. It builds the two-way equivalence index keyed
  by plan codes and the set of codes whose status is exactly `"APROBADA"`. It
  then classifies each plan subject, a direct match first and otherwise the
  first approved code of its index entry. Approved subjects' credits go into
  `creditsByType`, and the summary's `missing` values are floored at zero in
  place. Each loop is a method proved against a specification function, and
  the whole method is proved equal to the function `Reconcile`.
- `comparison.dfy` (module `Comparison`): the older `CompareStudyPlanWithHistory`
  from `functions/compare.go`. A history entry of any status counts. Forward
  equivalences (the plan subject is the source) are searched before reverse
  ones (it is the target). The first hit's type and notes are copied into
  the annotation. No credits are summed.
- `seed.dfy` (module `Seed`): `mapTipologia` and the credit tally of
  `scripts/seed_ing_sistemas.go`. This covers the per-tipología accumulators,
  the total, and the in-place assignment of the study plan's statistics
  fields, which is modelled as a class.
- `scenarios.dfy` (module `Scenarios`): worked examples built from one
  subject and one equivalence of the seeded plan. The first examples give the
  subject the category key `"fund.obligatoria"` that the credit summary reads,
  in place of the label the seeding script builds; the last ones keep that
  label and show that its credits would go uncounted.

Subjects are identified by their code, which the schema declares unique, and
not by their database id. The plan's subjects and the equivalence records are
sequences taken in the order the database returns them.

Points where the code behaves differently from what one might expect:
- `functions.go` does not annotate an equivalence match with the matched
  record's kind and notes. It always writes type `"total"` and the note
  `"Aprobada por equivalencia con "` followed by the matched code
  (functions.go:81-84).
- The code computes no completion percentage.
- A subject whose category is none of the five known ones is not rejected. Its
  credits go to a map key that no summary row reads (functions.go:102,
  139-140).
- The seeding script and `functions.go` use different category strings. The
  script gives a subject's type a label such as `"FUND. OBLIGATORIA"`
  (seed_ing_sistemas.go:18-23, 182-183, 254), while `functions.go` tallies and
  reads only the keys `"fund.obligatoria"`, `"fund.optativa"`,
  `"dis.obligatoria"`, `"dis.optativa"` and `"libre"` (functions.go:60-66,
  113-146). On a database migrated from models/models.go the label would
  break the CHECK of models/models.go:46 (only those five keys, at most 20
  characters), but the script stops before reaching its subjects there: its
  plan insert (seed_ing_sistemas.go:240) names three columns
  (seed_ing_sistemas.go:35-37) that `models.StudyPlan` lacks, so line 241
  exits. Where a store accepts the label, the subject is listed as approved
  but its credits count in no row and not in the total.
- `functions.go` writes `SubjectResult.Type` and `ComparisonResult.CreditsSummary`
  (functions.go:95, 171), but neither field exists in models/models.go:88-102.
  The model gives `Reconciliation.SubjectResult` a `category` field and
  `Reconciliation.ComparisonResult` a `creditsSummary` field, as the function
  uses them.
  `Comparison.SubjectResult` has no category field, as compare.go:71-76 sets none.

## Model

| member | source | states |
|---|---|---|
| `Reconciliation.IndexEntryMembers` | functions/functions.go:36-46 | a code is in the index entry of `code` exactly when `code` is a plan code and some equivalence record joins the two in either direction |
| `Reconciliation.IndexKeyedByPlan` | functions/functions.go:38-45 | only plan codes get a non-empty index entry; non-plan endpoints are only ever values |
| `Reconciliation.EquivalenceSymmetric` | functions/functions.go:37-46 | the index is two-way: for plan codes `a` and `b` (of the same or of different plans), `b` is accepted for `a` exactly when `a` is accepted for `b` |
| `Reconciliation.Relevant` | functions/functions.go:23-27 | the records the query loads are exactly those with a source or a target among the plan's codes |
| `Reconciliation.IndexIgnoresIrrelevant` | functions/functions.go:23-46 | building the index from only the loaded records gives the same entries as building it from all records |
| `Reconciliation.AppendStep` | functions/functions.go:38-45 | one record's two conditional appends extend each entry by the record's target (when the key is its source) and then its source (when the key is its target) |
| `Reconciliation.BuildEquivalenceIndex` | functions/functions.go:35-46 | the map built by the loop has a key exactly for the codes with a non-empty index entry, holds that entry in record order, and has only plan codes as keys |
| `Reconciliation.BuildPlanCodes` | functions/functions.go:29-33 | the lookup built from the plan's subjects holds exactly the plan's codes |
| `Reconciliation.BuildApprovedSet` | functions/functions.go:48-54 | the approved set holds exactly the codes of history entries whose status is exactly `"APROBADA"` |
| `Reconciliation.FirstApproved` | functions/functions.go:77-87 | the search yields a code of the list that is approved and preceded by no approved code, or nothing when no code of the list is approved |
| `Reconciliation.FindApprovedEquivalent` | functions/functions.go:78-87 | the loop with `break` returns that first approved code |
| `Reconciliation.ClassifySubject` | functions/functions.go:68-89 | a subject is approved when its own code is approved or its index entry holds an approved code; the annotation is empty for a direct match and names the first approved equivalent otherwise |
| `Reconciliation.DirectMatchPrecedence` | functions/functions.go:72-75 | a result is approved with no annotation exactly when the subject's own code is approved |
| `Reconciliation.EquivalenceAnnotation` | functions/functions.go:76-89 | without a direct match, the first approved code of the index entry approves the subject, with type `"total"` and note `"Aprobada por equivalencia con "` plus that code |
| `Reconciliation.SatisfiedIffApprovedInHistory` | functions/functions.go:49-89 | a plan subject is approved exactly when some history entry with status `"APROBADA"` has its code or a code joined to it by an equivalence record; entries of any other status never approve anything |
| `Reconciliation.ResultsFollowPlanOrder` | functions/functions.go:91-106 | the approved list and the pending list are the plan-ordered results filtered by status `"APROBADA"` and `"PENDIENTE"` |
| `Reconciliation.ResultsPartitionPlan` | functions/functions.go:68-107 | each subject's result lands in exactly one list: the two lists' lengths add up to the plan's and together they hold each result once, status `"APROBADA"` in one and `"PENDIENTE"` in the other |
| `Reconciliation.CompletedWithinPlan` | functions/functions.go:99-103 | with non-negative credits, a category's completed credits lie between zero and the credits of all plan subjects of that category |
| `Reconciliation.AbsentCategoryCompletesNothing` | functions/functions.go:99-103 | a category that no plan subject carries completes no credits, whatever the history and the equivalences |
| `Reconciliation.BucketsCoverKnownCategories` | functions/functions.go:139-140 | the five buckets together are the approved credits of subjects of the five known categories; credits under any other category key are not counted |
| `Reconciliation.Row` | functions/functions.go:110-166 | a row keeps required and completed and its missing value is `required - completed` floored at zero, never negative |
| `Reconciliation.SummaryTotals` | functions/functions.go:138-166 | the total row's required value is the plan's `TotalCredits`, its completed value the approved credits of known categories, and no row's missing value is negative |
| `Reconciliation.SummarizeCredits` | functions/functions.go:109-166 | building the six rows and then clamping each negative missing value to zero in place gives the floored rows |
| `Reconciliation.CompareAcademicHistoryWithStudyPlan` | functions/functions.go:10-173 | the whole routine returns the lists and the summary that `Reconcile` specifies, so all of the lemmas above hold of its result |
| `Comparison.BuildHistoryIndex` | functions/compare.go:20-24 | the history lookup holds the code of every history entry, whatever its status |
| `Comparison.FirstQualifying` | functions/compare.go:36-45 | the search yields the first record (in record order) satisfying the subject in the given direction, or nothing when none does |
| `Comparison.FindQualifying` | functions/compare.go:36-66 | each of the two loops with `break`, forward and reverse, returns that first qualifying record |
| `Comparison.FoundIffInHistory` | functions/compare.go:27-68 | a subject is seen exactly when some history entry of any status has its code or a code joined to it by a record in either direction |
| `Comparison.StatusIsIgnored` | functions/compare.go:21-24 | changing the statuses of history entries leaves every result unchanged |
| `Comparison.DirectMatchPrecedence` | functions/compare.go:31-34 | a direct match makes the subject seen with no annotation |
| `Comparison.ForwardPrecedence` | functions/compare.go:35-48 | without a direct match, the first record whose source is the subject and whose target is in the history decides the annotation (its type and notes), whatever reverse records exist |
| `Comparison.ReverseFallback` | functions/compare.go:47-67 | when no forward record qualifies, the first record that targets the subject and whose source is in the history decides it |
| `Comparison.Outcomes` | functions/compare.go:70-76 | every result copies its subject's code, name and credits unchanged, one result per subject in plan order |
| `Comparison.ResultsFollowPlanOrder` | functions/compare.go:27-85 | the seen list and the pending list are the plan-ordered results filtered by status `"Seen"` and `"Pending"` |
| `Comparison.ResultsPartitionPlan` | functions/compare.go:78-84 | each subject's result lands in exactly one of the seen list (status `"Seen"`) and the pending list (status `"Pending"`) |
| `Comparison.CompareStudyPlanWithHistory` | functions/compare.go:10-88 | the routine returns the seen and pending lists in plan order, as specified by `SeenResults` and `PendingResults` |
| `Seed.MapTipologia` | scripts/seed_ing_sistemas.go:180-193 | each of the four prototype labels maps to its tipología, every other string to libre elección, and trabajo de grado is never produced |
| `Seed.TallySubjects` | scripts/seed_ing_sistemas.go:246-285 | the loop builds one subject per row; the total is the sum of all credits and each of the four accumulators the sum of the credits of that tipología |
| `Seed.TotalSplitsByTipologia` | scripts/seed_ing_sistemas.go:272-284 | the total splits exactly into the credits of the six tipologías, so libre elección and trabajo de grado are what the four buckets leave out |
| `Seed.BucketsWithinTotal` | scripts/seed_ing_sistemas.go:272-284 | with non-negative credits the four accumulators together never exceed the total |
| `Seed.PrototypeHasNoTrabajoGrado` | scripts/seed_ing_sistemas.go:249-256 | subjects built from prototype rows carry no trabajo-de-grado credits |
| `Seed.StudyPlanRecord.constructor` | scripts/seed_ing_sistemas.go:225-238 | the plan is created active, with version and career set and every credit figure zero |
| `Seed.StudyPlanRecord.UpdateStatistics` | scripts/seed_ing_sistemas.go:294-301 | the four category fields take the accumulators; foundational is the sum of the two fundamentación accumulators and disciplinary the sum of the two disciplinar ones; libre credits and the elective percentage are untouched |
| `Seed.SeedStudyPlan` | scripts/seed_ing_sistemas.go:224-301 | after creation, tally and assignment the plan's statistics are the sums over the processed subjects and `LibreCredits` is still 0 |
| `Scenarios.ApprovedThroughEquivalence` | functions/functions.go:68-146 | a plan subject given the summary's key `"fund.obligatoria"`, whose old code is approved, is approved through the stored record, with the note naming the old code, and its category and the total are complete |
| `Scenarios.FailedAttemptStaysPending` | functions/functions.go:49-54 | a history entry whose status is not `"APROBADA"` leaves the subject pending with all its credits missing |
| `Scenarios.OlderVariantIgnoresStatus` | functions/compare.go:47-66 | the older variant accepts a failed entry of the old code through the reverse record and copies that record's type and notes |
| `Scenarios.SeedLabelsAreNotSummaryKeys` | scripts/seed_ing_sistemas.go:18-23 | none of the six labels the seeding script stores is one of the five category keys the credit summary reads |
| `Scenarios.SeededPlanCompletesNothing` | functions/functions.go:99-146 | for a plan whose subjects carry the seeding script's labels, every summary row completes zero credits and its missing value is the requirement floored at zero, whatever the history |
| `Scenarios.SeededLabelGoesUncounted` | scripts/seed_ing_sistemas.go:182-183 | "Estadística I" as seeded, with label `"FUND. OBLIGATORIA"`, is approved through the old code, yet its category row and the total stay `(3, 0, 3)` |

## Left out

- Database access: the loads of the plan, its subjects and the equivalence
  records and the reverse-equivalence query become plain input sequences.
  This covers functions.go:12-27 and compare.go:15-18 and 49-55. The error
  returns of those loads are therefore not modelled: "plan de estudio no
  encontrado" (functions.go:13-15) and the `err` returns of compare.go:16-18
  and 53-55.
- `GetStudyPlanByCareerCode` and `CompareAcademicHistoryByCareerCode`
  (functions.go:176-200): a database query and a thin wrapper around the
  modelled routine.
- Go's `int` is 64 bits wide on the usual platforms (at least 32); the
  model uses unbounded integers, so a credit sum that would overflow is not modelled.
- Database identifiers: subjects are matched by code. The reverse query by
  `target_subject_id` becomes a match on the target code. The order in which
  the database returns the plan's subjects (the `Preload("Subjects")` of
  functions.go:13 and compare.go:15) and the equivalence records is taken to
  be the order of the input sequences; both output lists follow the subjects'
  order.
- Seeding script: the database create, lookup, association and save calls of
  lines 203-366 are left out. So are the "skip the subject on a create error"
  branch (lines 261-264), the exit on a failed plan insert (lines 240-241),
  which is where a database migrated from models/models.go stops the script
  (its plan has columns that `models.StudyPlan` lacks), the replacement of a subject by its existing
  database copy (line 267), the creation of source subjects and equivalences
  (lines 307-366) and all printing. Every row is processed as built from the
  prototype. The hard-coded plan and equivalence tables are data; one subject
  and one equivalence appear in `scenarios.dfy`.
- HTTP routing and the response structs of main.go. Their float fields
  (`PAPA`, `Promedio`, `PorcentajeAvance`) are never computed. The
  mismatch between main.go:109, which expects two return values, and
  compare.go:10, which returns three, is part of that transport layer.
- The free-text transcript parser and the completion percentage: the
  repository contains no free-text transcript parser and computes no
  completion percentage.
- Fields the routines never read: history entries keep only code and status
  (`Grade`, `Semester`, `Credits` and `Type` of models/models.go:75-84 are
  not read).
- The connection setup, migrations, subprocess runner and career-creation
  script (config/database.go, database/migrations.go, scripts/run_seed.go,
  scripts/create_career.go): plumbing without decision logic.
