/** The credit bookkeeping of the seeding script (scripts/seed_ing_sistemas.go):
    the prototype's category labels are mapped to the model's tipologías, the
    credits of the processed subjects are summed in total and per category,
    and the study plan's statistics fields are assigned from those sums. */
module Seed {

  /** The allowed subject types (seed_ing_sistemas.go:14-24). */
  datatype Tipologia =
    | DisciplinarOptativa
    | FundamentalObligatoria
    | FundamentalOptativa
    | DisciplinarObligatoria
    | LibreEleccion
    | TrabajoGrado
  {
    /** The string value the type is stored as. */
    function Label(): string
    {
      match this
      case DisciplinarOptativa => "DISCIPLINAR OPTATIVA"
      case FundamentalObligatoria => "FUND. OBLIGATORIA"
      case FundamentalOptativa => "FUND. OPTATIVA"
      case DisciplinarObligatoria => "DISCIPLINAR OBLIGATORIA"
      case LibreEleccion => "LIBRE ELECCIÓN"
      case TrabajoGrado => "TRABAJO DE GRADO"
    }
  }

  /** mapTipologia (seed_ing_sistemas.go:180-193): the four prototype labels
      map to their tipologías and every other string to libre elección;
      trabajo de grado is never produced. */
  function MapTipologia(tipologia: string): (t: Tipologia)
    ensures t == FundamentalObligatoria <==> tipologia == "B - Fundamentación Obligatoria"
    ensures t == FundamentalOptativa <==> tipologia == "O - Fundamentación Optativa"
    ensures t == DisciplinarObligatoria <==> tipologia == "C - Disciplinar Obligatoria"
    ensures t == DisciplinarOptativa <==> tipologia == "T - Disciplinar Optativa"
    ensures t != TrabajoGrado
  {
    if tipologia == "B - Fundamentación Obligatoria" then FundamentalObligatoria
    else if tipologia == "O - Fundamentación Optativa" then FundamentalOptativa
    else if tipologia == "C - Disciplinar Obligatoria" then DisciplinarObligatoria
    else if tipologia == "T - Disciplinar Optativa" then DisciplinarOptativa
    else LibreEleccion
  }

  /** One row of the prototype plan: codigo, nombre, creditos, tipologia. */
  datatype PlanRow = PlanRow(codigo: string, nombre: string, creditos: int, tipologia: string)

  datatype Subject = Subject(code: string, name: string, credits: int, tipo: Tipologia)

  /** The subject built from a prototype row (seed_ing_sistemas.go:250-256). */
  function ToSubject(row: PlanRow): Subject
  {
    Subject(row.codigo, row.nombre, row.creditos, MapTipologia(row.tipologia))
  }

  /** The sum of the credits of all subjects. */
  function TotalOf(subjects: seq<Subject>): int
  {
    if subjects == [] then 0
    else TotalOf(subjects[..|subjects| - 1]) + subjects[|subjects| - 1].credits
  }

  /** The sum of the credits of the subjects of tipología `t`. */
  function CreditsOf(subjects: seq<Subject>, t: Tipologia): int
  {
    if subjects == [] then 0
    else
      var last := subjects[|subjects| - 1];
      CreditsOf(subjects[..|subjects| - 1], t) + (if last.tipo == t then last.credits else 0)
  }

  /** The accumulators of the subject loop. */
  datatype Tally = Tally(
    total: int,
    fundObligatoria: int,
    fundOptativa: int,
    disObligatoria: int,
    disOptativa: int)

  /** The subject loop (seed_ing_sistemas.go:246-285): builds the subjects and
      adds each one's credits to the total and to its category's accumulator;
      libre elección and trabajo de grado feed no category accumulator. */
  method TallySubjects(rows: seq<PlanRow>) returns (subjects: seq<Subject>, tally: Tally)
    ensures |subjects| == |rows|
    ensures forall i :: 0 <= i < |rows| ==> subjects[i] == ToSubject(rows[i])
    ensures tally.total == TotalOf(subjects)
    ensures tally.fundObligatoria == CreditsOf(subjects, FundamentalObligatoria)
    ensures tally.fundOptativa == CreditsOf(subjects, FundamentalOptativa)
    ensures tally.disObligatoria == CreditsOf(subjects, DisciplinarObligatoria)
    ensures tally.disOptativa == CreditsOf(subjects, DisciplinarOptativa)
  {
    subjects := [];
    var totalCredits, fundObligatoriaCredits, fundOptativaCredits, disObligatoriaCredits, disOptativaCredits := 0, 0, 0, 0, 0;
    for k := 0 to |rows|
      invariant |subjects| == k
      invariant forall i :: 0 <= i < k ==> subjects[i] == ToSubject(rows[i])
      invariant totalCredits == TotalOf(subjects)
      invariant fundObligatoriaCredits == CreditsOf(subjects, FundamentalObligatoria)
      invariant fundOptativaCredits == CreditsOf(subjects, FundamentalOptativa)
      invariant disObligatoriaCredits == CreditsOf(subjects, DisciplinarObligatoria)
      invariant disOptativaCredits == CreditsOf(subjects, DisciplinarOptativa)
    {
      var materia := rows[k];
      var subject := Subject(materia.codigo, materia.nombre, materia.creditos, MapTipologia(materia.tipologia));
      subjects := subjects + [subject];
      assert subjects[..|subjects| - 1] == subjects[..k];
      totalCredits := totalCredits + subject.credits;
      match subject.tipo {
        case FundamentalObligatoria => fundObligatoriaCredits := fundObligatoriaCredits + subject.credits;
        case FundamentalOptativa => fundOptativaCredits := fundOptativaCredits + subject.credits;
        case DisciplinarObligatoria => disObligatoriaCredits := disObligatoriaCredits + subject.credits;
        case DisciplinarOptativa => disOptativaCredits := disOptativaCredits + subject.credits;
        case _ =>
      }
    }
    tally := Tally(totalCredits, fundObligatoriaCredits, fundOptativaCredits, disObligatoriaCredits, disOptativaCredits);
  }

  /** The total splits exactly into the six tipologías' credits. */
  lemma {:induction false} TotalSplitsByTipologia(subjects: seq<Subject>)
    ensures TotalOf(subjects)
         == CreditsOf(subjects, FundamentalObligatoria) + CreditsOf(subjects, FundamentalOptativa)
          + CreditsOf(subjects, DisciplinarObligatoria) + CreditsOf(subjects, DisciplinarOptativa)
          + CreditsOf(subjects, LibreEleccion) + CreditsOf(subjects, TrabajoGrado)
  {
    if subjects != [] {
      TotalSplitsByTipologia(subjects[..|subjects| - 1]);
    }
  }

  /** The credits of a tipología are never negative when no subject's are. */
  lemma {:induction false} CreditsOfNonNegative(subjects: seq<Subject>, t: Tipologia)
    requires forall s :: s in subjects ==> s.credits >= 0
    ensures CreditsOf(subjects, t) >= 0
  {
    if subjects != [] {
      CreditsOfNonNegative(subjects[..|subjects| - 1], t);
    }
  }

  /** With non-negative credits, the four category accumulators together never
      exceed the total. */
  lemma BucketsWithinTotal(subjects: seq<Subject>)
    requires forall s :: s in subjects ==> s.credits >= 0
    ensures CreditsOf(subjects, FundamentalObligatoria) + CreditsOf(subjects, FundamentalOptativa)
          + CreditsOf(subjects, DisciplinarObligatoria) + CreditsOf(subjects, DisciplinarOptativa)
         <= TotalOf(subjects)
  {
    TotalSplitsByTipologia(subjects);
    CreditsOfNonNegative(subjects, LibreEleccion);
    CreditsOfNonNegative(subjects, TrabajoGrado);
  }

  /** Subjects built from prototype rows never have tipología trabajo de
      grado, so the credits outside the four accumulators are exactly the
      libre-elección credits. */
  lemma {:induction false} PrototypeHasNoTrabajoGrado(rows: seq<PlanRow>, subjects: seq<Subject>)
    requires |subjects| == |rows|
    requires forall i :: 0 <= i < |rows| ==> subjects[i] == ToSubject(rows[i])
    ensures CreditsOf(subjects, TrabajoGrado) == 0
  {
    if subjects != [] {
      PrototypeHasNoTrabajoGrado(rows[..|rows| - 1], subjects[..|subjects| - 1]);
    }
  }

  /** The study plan record whose statistics the script assigns in place. */
  class StudyPlanRecord {
    var careerId: nat
    var version: string
    var isActive: bool
    var totalCredits: int
    var foundationalCredits: int
    var disciplinaryCredits: int
    var electiveCreditsPercentage: int
    var fundObligatoriaCredits: int
    var fundOptativaCredits: int
    var disObligatoriaCredits: int
    var disOptativaCredits: int
    var libreCredits: int

    /** The plan as first created (seed_ing_sistemas.go:225-238): every credit figure zero. */
    constructor (careerId: nat, version: string)
      ensures this.careerId == careerId && this.version == version && isActive
      ensures totalCredits == 0 && foundationalCredits == 0 && disciplinaryCredits == 0
      ensures electiveCreditsPercentage == 0
      ensures fundObligatoriaCredits == 0 && fundOptativaCredits == 0
      ensures disObligatoriaCredits == 0 && disOptativaCredits == 0 && libreCredits == 0
    {
      this.careerId := careerId;
      this.version := version;
      isActive := true;
      totalCredits, foundationalCredits, disciplinaryCredits, electiveCreditsPercentage := 0, 0, 0, 0;
      fundObligatoriaCredits, fundOptativaCredits, disObligatoriaCredits, disOptativaCredits := 0, 0, 0, 0;
      libreCredits := 0;
    }

    /** The statistics update (seed_ing_sistemas.go:295-301). `libreCredits`
        and the elective percentage are not assigned and keep their values. */
    method UpdateStatistics(tally: Tally)
      modifies this
      ensures totalCredits == tally.total
      ensures foundationalCredits == tally.fundObligatoria + tally.fundOptativa
      ensures disciplinaryCredits == tally.disObligatoria + tally.disOptativa
      ensures fundObligatoriaCredits == tally.fundObligatoria && fundOptativaCredits == tally.fundOptativa
      ensures disObligatoriaCredits == tally.disObligatoria && disOptativaCredits == tally.disOptativa
      ensures libreCredits == old(libreCredits) && electiveCreditsPercentage == old(electiveCreditsPercentage)
      ensures careerId == old(careerId) && version == old(version) && isActive == old(isActive)
    {
      totalCredits := tally.total;
      foundationalCredits := tally.fundObligatoria + tally.fundOptativa;
      disciplinaryCredits := tally.disObligatoria + tally.disOptativa;
      fundObligatoriaCredits := tally.fundObligatoria;
      fundOptativaCredits := tally.fundOptativa;
      disObligatoriaCredits := tally.disObligatoria;
      disOptativaCredits := tally.disOptativa;
    }
  }

  /** Steps 1, 2 and 4 of the script's main (seed_ing_sistemas.go:224-301)
      without the database: create the plan, tally the prototype rows and
      assign the plan's statistics. */
  method SeedStudyPlan(careerId: nat, rows: seq<PlanRow>) returns (plan: StudyPlanRecord, subjects: seq<Subject>)
    ensures fresh(plan)
    ensures |subjects| == |rows| && forall i :: 0 <= i < |rows| ==> subjects[i] == ToSubject(rows[i])
    ensures plan.careerId == careerId && plan.version == "2023-1" && plan.isActive
    ensures plan.totalCredits == TotalOf(subjects)
    ensures plan.fundObligatoriaCredits == CreditsOf(subjects, FundamentalObligatoria)
    ensures plan.fundOptativaCredits == CreditsOf(subjects, FundamentalOptativa)
    ensures plan.disObligatoriaCredits == CreditsOf(subjects, DisciplinarObligatoria)
    ensures plan.disOptativaCredits == CreditsOf(subjects, DisciplinarOptativa)
    ensures plan.foundationalCredits == plan.fundObligatoriaCredits + plan.fundOptativaCredits
    ensures plan.disciplinaryCredits == plan.disObligatoriaCredits + plan.disOptativaCredits
    ensures plan.libreCredits == 0 && plan.electiveCreditsPercentage == 0
  {
    plan := new StudyPlanRecord(careerId, "2023-1");
    var tally;
    subjects, tally := TallySubjects(rows);
    plan.UpdateStatistics(tally);
  }
}
