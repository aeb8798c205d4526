/** Deriving the quiz from the loaded questions and the session parameters
    (the year-list loop and the quiz-derivation effect of App.js). */
module Derivation {
  import opened Wrappers
  import opened JsStrings
  import opened Quiz

  /** The category value that stands for "every category". */
  const AllCategories: string := "すべて"

  /** The parameters the configuration screen edits. */
  datatype Params = Params(
    startYear: string,
    endYear: string,
    category: string,
    numQuestions: int,
    shuffle: bool,
    searchTerm: string)

  /** The year strings to load: `Number(startYear)` up to `Number(endYear)`,
      each written with `toString`. A year that is NaN gives no years. */
  method YearList(startYear: string, endYear: string) returns (years: seq<string>)
    ensures JsNumber(startYear).None? || JsNumber(endYear).None? ==> years == []
    ensures JsNumber(startYear).Some? && JsNumber(endYear).Some? ==>
      var start, end := JsNumber(startYear).value, JsNumber(endYear).value;
      |years| == (if start <= end then end - start + 1 else 0) &&
      forall i :: 0 <= i < |years| ==> years[i] == IntToString(start + i) && JsNumber(years[i]) == Some(start + i)
  {
    years := [];
    if JsNumber(startYear).None? || JsNumber(endYear).None? {
      return;
    }
    var start, end := JsNumber(startYear).value, JsNumber(endYear).value;
    var y := start;
    while y <= end
      invariant y == start + |years|
      invariant start <= end ==> y <= end + 1
      invariant start > end ==> years == []
      invariant forall i :: 0 <= i < |years| ==> years[i] == IntToString(start + i)
      decreases end - y
    {
      years := years + [IntToString(y)];
      y := y + 1;
    }
    forall i | 0 <= i < |years|
      ensures JsNumber(years[i]) == Some(start + i)
    {
      NumberOfIntToString(start + i);
    }
  }

  /** `xs.filter(keep)`: keeps the elements `keep` accepts and nothing else
      (every copy: `FilterKeepsEveryCopy`; order: `FilterAppend`). */
  function Filter<T(!new)>(xs: seq<T>, keep: T -> bool): (r: seq<T>)
    ensures |r| <= |xs|
    ensures forall x :: x in r <==> x in xs && keep(x)
    ensures multiset(r) <= multiset(xs)
  {
    if xs == [] then []
    else
      assert xs == [xs[0]] + xs[1..];
      (if keep(xs[0]) then [xs[0]] else []) + Filter(xs[1..], keep)
  }

  /** Each accepted element occurs in the result as often as in the input,
      and a rejected one not at all. */
  lemma {:induction false} FilterKeepsEveryCopy<T(!new)>(xs: seq<T>, keep: T -> bool, x: T)
    ensures multiset(Filter(xs, keep))[x] == if keep(x) then multiset(xs)[x] else 0
  {
    if xs != [] {
      FilterKeepsEveryCopy(xs[1..], keep, x);
      assert xs == [xs[0]] + xs[1..];
    }
  }

  lemma FilterCons<T(!new)>(x: T, xs: seq<T>, keep: T -> bool)
    ensures Filter([x] + xs, keep) == (if keep(x) then [x] else []) + Filter(xs, keep)
  {
    assert ([x] + xs)[1..] == xs;
  }

  /** Filtering a concatenation filters each part and keeps them in order;
      with the one-element case this fixes the relative order of the result. */
  lemma {:induction false} FilterAppend<T(!new)>(xs: seq<T>, ys: seq<T>, keep: T -> bool)
    ensures Filter(xs + ys, keep) == Filter(xs, keep) + Filter(ys, keep)
  {
    if xs == [] {
      assert xs + ys == ys;
    } else {
      var x, tail := xs[0], xs[1..];
      var head := if keep(x) then [x] else [];
      assert xs == [x] + tail;
      assert xs + ys == [x] + (tail + ys);
      calc {
        Filter(xs + ys, keep);
        { FilterCons(x, tail + ys, keep); }
        head + Filter(tail + ys, keep);
        { FilterAppend(tail, ys, keep); }
        head + (Filter(tail, keep) + Filter(ys, keep));
        (head + Filter(tail, keep)) + Filter(ys, keep);
        { FilterCons(x, tail, keep); }
        Filter(xs, keep) + Filter(ys, keep);
      }
    }
  }

  /** `Number(startYear) <= Number(q.year) <= Number(endYear)`; false when any of them is NaN. */
  predicate InYearRange(q: Question, startYear: string, endYear: string) {
    match (JsNumber(q.year), JsNumber(startYear), JsNumber(endYear))
    case (Some(y), Some(s), Some(e)) => s <= y && y <= e
    case _ => false
  }

  /** The question text or one of its options, lower-cased, contains `keyword`. */
  predicate MatchesKeyword(q: Question, keyword: string) {
    Includes(Lower(q.text), keyword) || exists o :: o in q.options && Includes(Lower(o), keyword)
  }

  /** A search term that is not blank after trimming replaces the category filter. */
  predicate HasKeyword(searchTerm: string) {
    Trim(searchTerm) != []
  }

  function ByYear(qs: seq<Question>, startYear: string, endYear: string): seq<Question> {
    Filter(qs, (q: Question) => InYearRange(q, startYear, endYear))
  }

  /** The keyword filter (on the untrimmed, lower-cased term) or else the
      category filter; what it keeps is stated by `ByTopicKeeps`. */
  function ByTopic(qs: seq<Question>, searchTerm: string, category: string): (r: seq<Question>)
    ensures |r| <= |qs| && multiset(r) <= multiset(qs)
  {
    if HasKeyword(searchTerm) then Filter(qs, (q: Question) => MatchesKeyword(q, Lower(searchTerm)))
    else if category != AllCategories then Filter(qs, (q: Question) => q.category == Some(category))
    else qs
  }

  /** The questions that pass the year step and then the topic step. */
  function Matching(questions: seq<Question>, p: Params): seq<Question> {
    ByTopic(ByYear(questions, p.startYear, p.endYear), p.searchTerm, p.category)
  }

  /** The comparator of the fixed order, read as "`a` may come before `b`":
      by year, then 午前 before 午後, then by index. */
  predicate SortsBefore(a: Question, b: Question) {
    if a.year != b.year then StrLess(a.year, b.year)
    else if a.part != b.part then PartOrder(a.part) < PartOrder(b.part)
    else a.index <= b.index
  }

  lemma SortsBeforeTotal(a: Question, b: Question)
    ensures SortsBefore(a, b) || SortsBefore(b, a)
  {
    if a.year != b.year {
      StrLessTotal(a.year, b.year);
    }
  }

  lemma SortsBeforeTransitive(a: Question, b: Question, c: Question)
    requires SortsBefore(a, b) && SortsBefore(b, c)
    ensures SortsBefore(a, c)
  {
    if a.year != b.year && b.year != c.year {
      StrLessTransitive(a.year, b.year, c.year);
      if a.year == c.year {
        StrLessIrreflexive(a.year);
      }
    } else if a.year != b.year || b.year != c.year {
      if a.year == c.year {
        StrLessTotal(a.year, b.year);
        if StrLess(a.year, b.year) && StrLess(b.year, a.year) {
          StrLessTransitive(a.year, b.year, a.year);
          StrLessIrreflexive(a.year);
        }
      }
    }
  }

  predicate Sorted(s: seq<Question>) {
    forall i, j :: 0 <= i < j < |s| ==> SortsBefore(s[i], s[j])
  }

  /** A question that may precede the head of a sorted list may lead it. */
  lemma SortedCons(x: Question, s: seq<Question>)
    requires Sorted(s)
    requires forall y :: y in s ==> SortsBefore(x, y)
    ensures Sorted([x] + s)
  {
    var r := [x] + s;
    assert forall j :: 0 < j < |r| ==> r[j] == s[j - 1] && r[j] in s;
  }

  /** Inserts `x` before the first element it may precede. */
  function Insert(x: Question, s: seq<Question>): (r: seq<Question>)
    requires Sorted(s)
    ensures Sorted(r)
    ensures multiset(r) == multiset(s) + multiset{x}
  {
    if s == [] then [x]
    else if SortsBefore(x, s[0]) then
      assert forall y :: y in s ==> SortsBefore(x, y) by {
        forall y | y in s ensures SortsBefore(x, y) {
          if y != s[0] { SortsBeforeTransitive(x, s[0], y); }
        }
      }
      SortedCons(x, s);
      [x] + s
    else
      var rest := Insert(x, s[1..]);
      assert s == [s[0]] + s[1..];
      assert forall y :: y in rest ==> SortsBefore(s[0], y) by {
        forall y | y in rest ensures SortsBefore(s[0], y) {
          assert y in multiset(rest);
          if y == x {
            SortsBeforeTotal(x, s[0]);
          } else {
            assert y in multiset(s[1..]);
          }
        }
      }
      SortedCons(s[0], rest);
      [s[0]] + rest
  }

  /** The sort with the fixed comparator (an insertion sort). */
  function Sort(s: seq<Question>): (r: seq<Question>)
    ensures Sorted(r)
    ensures multiset(r) == multiset(s)
  {
    if s == [] then []
    else
      assert s == [s[0]] + s[1..];
      Insert(s[0], Sort(s[1..]))
  }

  /** Both questions have the same (year, part, index) sort key. */
  predicate SameKey(a: Question, b: Question) {
    a.year == b.year && a.part == b.part && a.index == b.index
  }

  /** The questions of `s` whose sort key is that of `k`, in order. */
  function WithKeyOf(s: seq<Question>, k: Question): seq<Question> {
    if s == [] then []
    else (if SameKey(s[0], k) then [s[0]] else []) + WithKeyOf(s[1..], k)
  }

  lemma {:induction false} InsertStable(x: Question, t: seq<Question>, k: Question)
    requires Sorted(t)
    ensures WithKeyOf(Insert(x, t), k) == (if SameKey(x, k) then [x] else []) + WithKeyOf(t, k)
  {
    if t == [] {
      assert Insert(x, t) == [x];
    } else if SortsBefore(x, t[0]) {
      assert Insert(x, t) == [x] + t;
      assert ([x] + t)[1..] == t;
    } else {
      var rest := Insert(x, t[1..]);
      assert Insert(x, t) == [t[0]] + rest;
      assert ([t[0]] + rest)[1..] == rest;
      InsertStable(x, t[1..], k);
      assert !(SameKey(x, k) && SameKey(t[0], k));
    }
  }

  /** The sort is stable: questions with equal keys keep their relative order. */
  lemma {:induction false} SortStable(s: seq<Question>, k: Question)
    ensures WithKeyOf(Sort(s), k) == WithKeyOf(s, k)
  {
    if s != [] {
      SortStable(s[1..], k);
      InsertStable(s[0], Sort(s[1..]), k);
    }
  }

  /** A shuffle driven by `picks`: step k moves the element at `picks[k]`
      (modulo what is left) to the front. */
  function Shuffle<T>(s: seq<T>, picks: seq<nat>): (r: seq<T>)
    ensures multiset(r) == multiset(s)
    decreases |s|
  {
    if s == [] then []
    else
      var i := if picks == [] then 0 else picks[0] % |s|;
      var rest := s[..i] + s[i + 1..];
      assert s == s[..i] + [s[i]] + s[i + 1..];
      assert multiset(s) == multiset{s[i]} + multiset(rest);
      [s[i]] + Shuffle(rest, if picks == [] then [] else picks[1..])
  }

  /** The matching questions in the order they are asked. */
  function Ordered(questions: seq<Question>, p: Params, picks: seq<nat>): seq<Question> {
    var filtered := Matching(questions, p);
    if p.shuffle then Shuffle(filtered, picks) else Sort(filtered)
  }

  /** `s.slice(0, n)` is a prefix of `s`, of at most `n` elements when `n >= 0`. */
  lemma SliceIsPrefix(s: seq<Question>, n: int)
    ensures var r := JsSlice(s, 0, n);
      |r| <= |s| && r == s[..|r|] && multiset(r) <= multiset(s) && (n >= 0 ==> |r| <= n)
  {
    var r := JsSlice(s, 0, n);
    assert r == s[..|r|];
    assert s == r + s[|r|..];
  }

  /** The effect body: with questions loaded, the quiz becomes the ordered
      matches sliced to `numQuestions`; with none loaded, `current` stays. */
  function Derive(questions: seq<Question>, p: Params, picks: seq<nat>, current: seq<Question>): (quiz: seq<Question>)
    ensures |questions| > 0 ==> multiset(quiz) <= multiset(Matching(questions, p))
    ensures |questions| > 0 && p.numQuestions >= 0 ==> |quiz| <= p.numQuestions
  {
    if |questions| == 0 then current
    else
      OrderedIsPermutation(questions, p, picks);
      SliceIsPrefix(Ordered(questions, p, picks), p.numQuestions);
      JsSlice(Ordered(questions, p, picks), 0, p.numQuestions)
  }

  /** What survives the topic step: the keyword matches when a keyword is
      present, else the questions of the chosen category, else everything. */
  lemma ByTopicKeeps(qs: seq<Question>, searchTerm: string, category: string, q: Question)
    ensures q in ByTopic(qs, searchTerm, category) <==>
      q in qs &&
      (if HasKeyword(searchTerm) then MatchesKeyword(q, Lower(searchTerm))
       else category == AllCategories || q.category == Some(category))
  {
  }

  /** The keyword match ignores ASCII case in the search term. */
  lemma KeywordIgnoresCase(q: Question, term: string, term': string)
    requires StringsSameUpToCase(term, term')
    ensures MatchesKeyword(q, Lower(term)) == MatchesKeyword(q, Lower(term'))
  {
    LowerIgnoresCase(term, term');
  }

  /** The keyword match ignores ASCII case in the question text and options. */
  lemma {:induction false} MatchIgnoresTextCase(q: Question, q': Question, keyword: string)
    requires StringsSameUpToCase(q.text, q'.text)
    requires |q.options| == |q'.options|
    requires forall i :: 0 <= i < |q.options| ==> StringsSameUpToCase(q.options[i], q'.options[i])
    ensures MatchesKeyword(q, keyword) == MatchesKeyword(q', keyword)
  {
    LowerIgnoresCase(q.text, q'.text);
    forall i | 0 <= i < |q.options|
      ensures Lower(q.options[i]) == Lower(q'.options[i])
    {
      LowerIgnoresCase(q.options[i], q'.options[i]);
    }
    if exists o :: o in q.options && Includes(Lower(o), keyword) {
      var o :| o in q.options && Includes(Lower(o), keyword);
      var i :| 0 <= i < |q.options| && q.options[i] == o;
      assert q'.options[i] in q'.options;
    }
    if exists o :: o in q'.options && Includes(Lower(o), keyword) {
      var o :| o in q'.options && Includes(Lower(o), keyword);
      var i :| 0 <= i < |q'.options| && q'.options[i] == o;
      assert q.options[i] in q.options;
    }
  }

  /** The "すべて" category with no keyword removes nothing. */
  lemma WildcardKeepsAll(qs: seq<Question>, searchTerm: string)
    requires !HasKeyword(searchTerm)
    ensures ByTopic(qs, searchTerm, AllCategories) == qs
  {
  }

  /** Every question asked comes from the loaded ones, in the year range, and
      passes the topic step. */
  lemma {:induction false} OrderedMembers(questions: seq<Question>, p: Params, picks: seq<nat>, q: Question)
    requires q in Ordered(questions, p, picks)
    ensures q in questions && InYearRange(q, p.startYear, p.endYear)
    ensures HasKeyword(p.searchTerm) ==> MatchesKeyword(q, Lower(p.searchTerm))
    ensures !HasKeyword(p.searchTerm) && p.category != AllCategories ==> q.category == Some(p.category)
  {
    var byYear := ByYear(questions, p.startYear, p.endYear);
    var filtered := Matching(questions, p);
    assert multiset(Ordered(questions, p, picks)) == multiset(filtered);
    assert q in multiset(Ordered(questions, p, picks));
    assert q in filtered;
    ByTopicKeeps(byYear, p.searchTerm, p.category, q);
  }

  /** In the fixed order the asked questions are exactly the matching ones,
      sorted by (year, part, index); shuffled they are still exactly them. */
  lemma OrderedIsPermutation(questions: seq<Question>, p: Params, picks: seq<nat>)
    ensures multiset(Ordered(questions, p, picks)) == multiset(Matching(questions, p))
    ensures !p.shuffle ==> Sorted(Ordered(questions, p, picks))
  {
  }

  /** The slice of the ordered matches: its prefix of length
      min(numQuestions, matches) for a non-negative count. */
  lemma DeriveTruncates(questions: seq<Question>, p: Params, picks: seq<nat>, current: seq<Question>)
    requires |questions| > 0 && p.numQuestions >= 0
    ensures var o := Ordered(questions, p, picks);
      var n := if p.numQuestions <= |o| then p.numQuestions else |o|;
      Derive(questions, p, picks, current) == o[..n]
    ensures |Derive(questions, p, picks, current)| ==
      if p.numQuestions <= |Matching(questions, p)| then p.numQuestions else |Matching(questions, p)|
  {
    var o := Ordered(questions, p, picks);
    assert |o| == |multiset(o)| == |Matching(questions, p)|;
  }

  /** With no questions loaded the quiz is left as it was. */
  lemma DeriveWithoutQuestions(p: Params, picks: seq<nat>, current: seq<Question>)
    ensures Derive([], p, picks, current) == current
  {
  }

  /** Every question of a derived quiz lies in the year range and passes the
      keyword or category filter. */
  lemma DerivedQuestions(questions: seq<Question>, p: Params, picks: seq<nat>, current: seq<Question>)
    requires |questions| > 0
    ensures forall q :: q in Derive(questions, p, picks, current) ==>
      q in questions && InYearRange(q, p.startYear, p.endYear) &&
      (HasKeyword(p.searchTerm) ==> MatchesKeyword(q, Lower(p.searchTerm))) &&
      (!HasKeyword(p.searchTerm) && p.category != AllCategories ==> q.category == Some(p.category))
  {
    forall q | q in Derive(questions, p, picks, current)
      ensures q in questions && InYearRange(q, p.startYear, p.endYear)
      ensures HasKeyword(p.searchTerm) ==> MatchesKeyword(q, Lower(p.searchTerm))
      ensures !HasKeyword(p.searchTerm) && p.category != AllCategories ==> q.category == Some(p.category)
    {
      OrderedMembers(questions, p, picks, q);
    }
  }

  /** With a keyword present the selected category makes no difference. */
  lemma KeywordOverridesCategory(questions: seq<Question>, p: Params, picks: seq<nat>, current: seq<Question>, category: string)
    requires HasKeyword(p.searchTerm)
    ensures Derive(questions, p, picks, current) == Derive(questions, p.(category := category), picks, current)
  {
  }
}
