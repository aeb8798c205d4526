/** Question records and the correctness check that App.js and
    CategoryChart.js each spell out on their own. */
module Quiz {
  import opened Wrappers

  /** The half of the exam day a question belongs to: 午前 (morning) or 午後 (afternoon). */
  datatype Part = Morning | Afternoon

  /** The `partOrder` table used by the ordering: 午前 is 0, 午後 is 1. */
  function PartOrder(p: Part): nat {
    match p
    case Morning => 0
    case Afternoon => 1
  }

  /** A question's `answer` field: one acceptable string, or an array of them. */
  datatype Expected = Single(value: string) | AnyOf(values: seq<string>)

  /** One record of a yearly question bank; `category` is None when the field is absent. */
  datatype Question = Question(
    year: string,
    part: Part,
    index: int,
    category: Option<string>,
    text: string,
    options: seq<string>,
    answer: Expected)

  /** The strings a given answer may equal to be counted correct. */
  function Accepted(expected: Expected): set<string> {
    match expected
    case Single(s) => {s}
    case AnyOf(xs) => set x | x in xs
  }

  /** The correctness check: a missing answer is never correct; a given one
      must equal the single expected string or be a member of the array. */
  function IsCorrect(expected: Expected, given: Option<string>): (r: bool)
    ensures given.None? ==> !r
    ensures r <==> given.Some? && given.value in Accepted(expected)
  {
    match given
    case None => false
    case Some(a) =>
      match expected
      case Single(s) => a == s
      case AnyOf(xs) => a in xs
  }

  /** An array holding one string accepts exactly what that string alone accepts. */
  lemma SingletonArrayIsSingle(s: string, given: Option<string>)
    ensures IsCorrect(AnyOf([s]), given) == IsCorrect(Single(s), given)
  {
  }
}
