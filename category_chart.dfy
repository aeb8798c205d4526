/** The per-category statistics of CategoryChart.js: a count of questions and
    of correct answers for each category, and the bars drawn from them. */
module CategoryChart {
  import opened JsStrings
  import opened Quiz
  import opened Session

  /** One `categoryStats` value. */
  datatype Stats = Stats(correct: nat, total: nat)

  /** One element of `chartData` (the percentage is not modelled). */
  datatype ChartEntry = ChartEntry(category: string, correct: nat, total: nat, barLabel: string)

  /** The question has a category that is neither missing nor empty. */
  predicate Charted(q: Question) {
    q.category.Some? && q.category.value != ""
  }

  predicate InCategory(q: Question, c: string) {
    Charted(q) && q.category.value == c
  }

  /** The categories of the quiz, each once, in order of first appearance
      (the key order of `categoryStats`). */
  function Categories(quiz: seq<Question>): seq<string> {
    if quiz == [] then []
    else
      var n := |quiz| - 1;
      var before := Categories(quiz[..n]);
      if Charted(quiz[n]) && quiz[n].category.value !in before then before + [quiz[n].category.value]
      else before
  }

  /** The chart categories are distinct and are exactly the categories that
      occur in the quiz. */
  lemma {:induction false} CategoriesDistinctMembers(quiz: seq<Question>)
    ensures forall j, k :: 0 <= j < k < |Categories(quiz)| ==> Categories(quiz)[j] != Categories(quiz)[k]
    ensures forall c :: c in Categories(quiz) <==> exists i :: 0 <= i < |quiz| && InCategory(quiz[i], c)
  {
    if quiz != [] {
      var n := |quiz| - 1;
      var prefix := quiz[..n];
      CategoriesDistinctMembers(prefix);
      assert forall i :: 0 <= i < n ==> prefix[i] == quiz[i];
    }
  }

  /** The categories come in order of first appearance: wherever a later one
      occurs, an earlier one has already occurred before that position. */
  lemma {:induction false} CategoriesInFirstAppearanceOrder(quiz: seq<Question>, j: nat, k: nat, i: nat)
    requires j < k < |Categories(quiz)|
    requires i < |quiz| && InCategory(quiz[i], Categories(quiz)[k])
    ensures exists e :: 0 <= e < i && InCategory(quiz[e], Categories(quiz)[j])
  {
    var n := |quiz| - 1;
    var prefix := quiz[..n];
    var before := Categories(prefix);
    var r := Categories(quiz);
    CategoriesDistinctMembers(prefix);
    CategoriesDistinctMembers(quiz);
    assert forall t :: 0 <= t < n ==> prefix[t] == quiz[t];
    assert r[j] == before[j];
    assert r[j] in before;
    if k < |before| {
      assert r[k] == before[k];
      if i < n {
        assert InCategory(prefix[i], before[k]);
        CategoriesInFirstAppearanceOrder(prefix, j, k, i);
      } else {
        assert before[k] in before;
        var i0 :| 0 <= i0 < n && InCategory(prefix[i0], before[k]);
        CategoriesInFirstAppearanceOrder(prefix, j, k, i0);
      }
    } else {
      assert r[k] !in before;
      assert i == n;
      var e :| 0 <= e < n && InCategory(prefix[e], before[j]);
      assert InCategory(quiz[e], r[j]);
    }
  }

  /** The number of questions of category `c`. */
  function TotalIn(quiz: seq<Question>, c: string): nat {
    if quiz == [] then 0
    else
      var n := |quiz| - 1;
      TotalIn(quiz[..n], c) + (if InCategory(quiz[n], c) then 1 else 0)
  }

  /** The number of positions of category `c` whose answer passes the check. */
  function CorrectIn(quiz: seq<Question>, answers: map<nat, string>, c: string): nat {
    if quiz == [] then 0
    else
      var n := |quiz| - 1;
      CorrectIn(quiz[..n], answers, c) + (if InCategory(quiz[n], c) && CorrectAt(quiz, answers, n) then 1 else 0)
  }

  /** The number of answered positions of category `c`. */
  function AnsweredIn(quiz: seq<Question>, answers: map<nat, string>, c: string): nat {
    if quiz == [] then 0
    else
      var n := |quiz| - 1;
      AnsweredIn(quiz[..n], answers, c) + (if InCategory(quiz[n], c) && n in answers then 1 else 0)
  }

  /** The number of questions that have a category. */
  function ChartedCount(quiz: seq<Question>): nat {
    if quiz == [] then 0
    else
      var n := |quiz| - 1;
      ChartedCount(quiz[..n]) + (if Charted(quiz[n]) then 1 else 0)
  }

  /** `order` and `stats` hold the categories of `quiz` in first-appearance
      order and, for each of them, its correct count and its total. */
  ghost predicate Tallied(quiz: seq<Question>, answers: map<nat, string>, order: seq<string>, stats: map<string, Stats>) {
    && order == Categories(quiz)
    && (forall c :: c in stats <==> c in order)
    && (forall c :: c in stats ==> stats[c] == Stats(CorrectIn(quiz, answers, c), TotalIn(quiz, c)))
  }

  /** The `forEach` loop: creates a zero entry the first time a category is
      met and increments its `total`, and its `correct` when the answer passes. */
  method CategoryStats(quiz: seq<Question>, answers: map<nat, string>) returns (order: seq<string>, stats: map<string, Stats>)
    ensures order == Categories(quiz)
    ensures forall c :: c in stats <==> c in order
    ensures forall c :: c in stats ==> stats[c] == Stats(CorrectIn(quiz, answers, c), TotalIn(quiz, c))
  {
    order, stats := [], map[];
    for i := 0 to |quiz|
      invariant Tallied(quiz[..i], answers, order, stats)
    {
      var q := quiz[i];
      if !Charted(q) {
        TallySkip(quiz, answers, i, order, stats);
        continue;
      }
      TallyCount(quiz, answers, i, order, stats);
      ghost var before := stats;
      var c := q.category.value;
      var isCorrect := IsCorrect(q.answer, Lookup(answers, i));
      if c !in stats {
        stats := stats[c := Stats(0, 0)];
        order := order + [c];
      }
      stats := stats[c := stats[c].(total := stats[c].total + 1)];
      if isCorrect {
        stats := stats[c := stats[c].(correct := stats[c].correct + 1)];
      }
      ghost var s := if c in before then before[c] else Stats(0, 0);
      assert stats == before[c := Stats(if isCorrect then s.correct + 1 else s.correct, s.total + 1)];
    }
    assert quiz[..|quiz|] == quiz;
  }

  /** A question without a category leaves `Tallied` as it is. */
  lemma TallySkip(quiz: seq<Question>, answers: map<nat, string>, i: nat, order: seq<string>, stats: map<string, Stats>)
    requires i < |quiz| && !Charted(quiz[i]) && Tallied(quiz[..i], answers, order, stats)
    ensures Tallied(quiz[..i + 1], answers, order, stats)
  {
    PrefixCategories(quiz, i);
    forall d | d in stats
      ensures stats[d] == Stats(CorrectIn(quiz[..i + 1], answers, d), TotalIn(quiz[..i + 1], d))
    {
      PrefixStep(quiz, answers, i, d);
    }
  }

  /** A question of category `c` adds `c` to the order when it is new, starting
      from zero counts, and then counts itself in `c`'s total, and in its
      correct count when the answer passes. */
  lemma TallyCount(quiz: seq<Question>, answers: map<nat, string>, i: nat, order: seq<string>, stats: map<string, Stats>)
    requires i < |quiz| && Charted(quiz[i]) && Tallied(quiz[..i], answers, order, stats)
    ensures
      var c := quiz[i].category.value;
      var s := if c in stats then stats[c] else Stats(0, 0);
      var ok := IsCorrect(quiz[i].answer, Lookup(answers, i));
      Tallied(quiz[..i + 1], answers, if c in stats then order else order + [c],
        stats[c := Stats(if ok then s.correct + 1 else s.correct, s.total + 1)])
  {
    var prefix, next := quiz[..i], quiz[..i + 1];
    var c := quiz[i].category.value;
    var s := if c in stats then stats[c] else Stats(0, 0);
    var ok := IsCorrect(quiz[i].answer, Lookup(answers, i));
    var order' := if c in stats then order else order + [c];
    var stats' := stats[c := Stats(if ok then s.correct + 1 else s.correct, s.total + 1)];
    PrefixCategories(quiz, i);
    if c !in stats {
      AbsentHasNoTotal(prefix, c);
      CorrectAtMostTotal(prefix, answers, c);
    }
    PrefixStep(quiz, answers, i, c);
    forall d | d in stats'
      ensures stats'[d] == Stats(CorrectIn(next, answers, d), TotalIn(next, d))
    {
      PrefixStep(quiz, answers, i, d);
    }
  }

  /** How the category list of a prefix grows by one question. */
  lemma PrefixCategories(quiz: seq<Question>, i: nat)
    requires i < |quiz|
    ensures Categories(quiz[..i + 1]) ==
      if Charted(quiz[i]) && quiz[i].category.value !in Categories(quiz[..i])
      then Categories(quiz[..i]) + [quiz[i].category.value] else Categories(quiz[..i])
  {
    assert quiz[..i + 1][..i] == quiz[..i];
  }

  /** How the counts of category `c` grow by one question: its total by one
      when the question is of `c`, its correct count by one when the answer
      also passes the check. */
  lemma PrefixStep(quiz: seq<Question>, answers: map<nat, string>, i: nat, c: string)
    requires i < |quiz|
    ensures TotalIn(quiz[..i + 1], c) == TotalIn(quiz[..i], c) + if InCategory(quiz[i], c) then 1 else 0
    ensures CorrectIn(quiz[..i + 1], answers, c) == CorrectIn(quiz[..i], answers, c) +
      if InCategory(quiz[i], c) && IsCorrect(quiz[i].answer, Lookup(answers, i)) then 1 else 0
  {
    assert quiz[..i + 1][..i] == quiz[..i];
  }

  /** A category that does not occur has no questions. */
  lemma {:induction false} AbsentHasNoTotal(quiz: seq<Question>, c: string)
    requires c !in Categories(quiz)
    ensures TotalIn(quiz, c) == 0
  {
    if quiz != [] {
      var n := |quiz| - 1;
      assert forall i :: 0 <= i < n ==> quiz[..n][i] == quiz[i];
      AbsentHasNoTotal(quiz[..n], c);
    }
  }

  /** An answered position counts towards `correct` only when the answer passes,
      so a category never has more correct answers than answered positions,
      nor more answered positions than questions. */
  lemma {:induction false} CorrectAtMostTotal(quiz: seq<Question>, answers: map<nat, string>, c: string)
    ensures CorrectIn(quiz, answers, c) <= AnsweredIn(quiz, answers, c) <= TotalIn(quiz, c)
  {
    if quiz != [] {
      CorrectAtMostTotal(quiz[..|quiz| - 1], answers, c);
    }
  }

  /** Every category that gets an entry has at least one question. */
  lemma {:induction false} PresentHasTotal(quiz: seq<Question>, c: string)
    requires c in Categories(quiz)
    ensures TotalIn(quiz, c) >= 1
  {
    var n := |quiz| - 1;
    if InCategory(quiz[n], c) {
    } else {
      assert c in Categories(quiz[..n]);
      PresentHasTotal(quiz[..n], c);
    }
  }

  /** The sum of the totals of `cats`. */
  function SumTotals(quiz: seq<Question>, cats: seq<string>): nat {
    if cats == [] then 0 else TotalIn(quiz, cats[0]) + SumTotals(quiz, cats[1..])
  }

  lemma {:induction false} SumTotalsAppend(quiz: seq<Question>, a: seq<string>, b: seq<string>)
    ensures SumTotals(quiz, a + b) == SumTotals(quiz, a) + SumTotals(quiz, b)
  {
    if a == [] {
      assert a + b == b;
    } else {
      assert (a + b)[1..] == a[1..] + b;
      SumTotalsAppend(quiz, a[1..], b);
    }
  }

  /** Adding one question to the quiz adds one to the sum over distinct
      categories when its category is among them, and nothing otherwise. */
  lemma {:induction false} SumTotalsStep(quiz: seq<Question>, cats: seq<string>)
    requires quiz != []
    requires forall j, k :: 0 <= j < k < |cats| ==> cats[j] != cats[k]
    ensures var n := |quiz| - 1;
      SumTotals(quiz, cats) ==
      SumTotals(quiz[..n], cats) + (if Charted(quiz[n]) && quiz[n].category.value in cats then 1 else 0)
  {
    if cats != [] {
      var n := |quiz| - 1;
      assert forall j, k :: 0 <= j < k < |cats[1..]| ==> cats[1..][j] != cats[1..][k];
      SumTotalsStep(quiz, cats[1..]);
      assert cats == [cats[0]] + cats[1..];
      if Charted(quiz[n]) && quiz[n].category.value == cats[0] {
        assert cats[0] !in cats[1..];
      }
    }
  }

  /** The category totals add up to the number of questions with a category. */
  lemma {:induction false} TotalsSumToCharted(quiz: seq<Question>)
    ensures SumTotals(quiz, Categories(quiz)) == ChartedCount(quiz)
  {
    if quiz != [] {
      var n := |quiz| - 1;
      var before := Categories(quiz[..n]);
      TotalsSumToCharted(quiz[..n]);
      CategoriesDistinctMembers(quiz[..n]);
      SumTotalsStep(quiz, before);
      if Charted(quiz[n]) && quiz[n].category.value !in before {
        var c := quiz[n].category.value;
        SumTotalsAppend(quiz, before, [c]);
        AbsentHasNoTotal(quiz[..n], c);
        assert SumTotals(quiz, [c]) == TotalIn(quiz, c);
      }
    }
  }

  /** The bar label `"<correct>/<total>"`. */
  function Label(correct: nat, total: nat): string {
    NatToString(correct) + "/" + NatToString(total)
  }

  /** A label reads back as the two counts it was made from, split at its only '/'. */
  lemma LabelReadsBack(correct: nat, total: nat)
    ensures var l, k := Label(correct, total), |NatToString(correct)|;
      k < |l| && l[k] == '/' &&
      AllDigits(l[..k]) && DigitsValue(l[..k]) == correct &&
      AllDigits(l[k + 1..]) && DigitsValue(l[k + 1..]) == total &&
      forall i :: 0 <= i < |l| && i != k ==> l[i] != '/'
  {
    var l, k := Label(correct, total), |NatToString(correct)|;
    assert l[..k] == NatToString(correct);
    assert l[k + 1..] == NatToString(total);
    DigitsOfNatToString(correct);
    DigitsOfNatToString(total);
  }

  /** `chartData`: one entry per category, in key order. */
  function ChartData(order: seq<string>, stats: map<string, Stats>): (r: seq<ChartEntry>)
    requires forall c :: c in order ==> c in stats
    ensures |r| == |order|
    ensures forall k :: 0 <= k < |r| ==>
      r[k].category == order[k] && r[k].correct == stats[order[k]].correct &&
      r[k].total == stats[order[k]].total && r[k].barLabel == Label(r[k].correct, r[k].total)
  {
    seq(|order|, k requires 0 <= k < |order| =>
      var s := stats[order[k]];
      ChartEntry(order[k], s.correct, s.total, Label(s.correct, s.total)))
  }

  /** The whole component: one bar per distinct category in order of first
      appearance, each with its question count, its correct count and label. */
  method Chart(quiz: seq<Question>, answers: map<nat, string>) returns (data: seq<ChartEntry>)
    ensures |data| == |Categories(quiz)|
    ensures forall k :: 0 <= k < |data| ==>
      var c := Categories(quiz)[k];
      data[k] == ChartEntry(c, CorrectIn(quiz, answers, c), TotalIn(quiz, c),
                            Label(CorrectIn(quiz, answers, c), TotalIn(quiz, c)))
    ensures forall k :: 0 <= k < |data| ==> 1 <= data[k].total && data[k].correct <= data[k].total
  {
    var order, stats := CategoryStats(quiz, answers);
    data := ChartData(order, stats);
    forall k | 0 <= k < |data|
      ensures 1 <= data[k].total && data[k].correct <= data[k].total
    {
      PresentHasTotal(quiz, order[k]);
      CorrectAtMostTotal(quiz, answers, order[k]);
    }
  }
}
