/** The records the reconciliation reads and writes (models/models.go), restricted
    to the fields the comparison routines actually use. Database identifiers are
    replaced by subject codes, which the schema declares unique. */
module Models {

  datatype Option<+T> = None | Some(value: T)

  /** A subject of a study plan: code, name, credits and its type (the credit
      category it counts towards, such as "fund.obligatoria"). */
  datatype Subject = Subject(code: string, name: string, credits: int, category: string)

  /** A stored, directed equivalence: passing `source` may stand for `target`.
      `kind` is the equivalence type ("total", "parcial", ...). */
  datatype Equivalence = Equivalence(source: string, target: string, kind: string, notes: string)

  /** One row of a student's academic history; only the code and the status
      are read by the comparison routines. */
  datatype HistoryEntry = HistoryEntry(code: string, status: string)

  /** The equivalence annotation attached to a subject result. */
  datatype EquivalenceResult = EquivalenceResult(kind: string, notes: string)

  /** A study plan: its subjects in plan order and the required credits per
      category and in total. */
  datatype StudyPlan = StudyPlan(
    subjects: seq<Subject>,
    fundObligatoriaCredits: int,
    fundOptativaCredits: int,
    disObligatoriaCredits: int,
    disOptativaCredits: int,
    libreCredits: int,
    totalCredits: int)

  /** The codes of the subjects of a plan. */
  function PlanCodes(subjects: seq<Subject>): set<string>
  {
    set s | s in subjects :: s.code
  }

  /** The equivalence `e` joins `a` and `b`, in either direction. */
  predicate Links(e: Equivalence, a: string, b: string)
  {
    (e.source == a && e.target == b) || (e.target == a && e.source == b)
  }
}
