/** The keyword classifier `ClassificationAnnotation.classify`: per category,
    count the keywords that occur in the lower-cased text, then normalise the
    counts by their total, or answer {"unknown": 1.0} when nothing occurs. */
module Classification {
  import opened Chars

  /** The three categories and their keywords. */
  const Categories: map<string, seq<string>> := map[
    "technology" := ["computer", "software", "hardware", "internet", "programming"],
    "sports" := ["football", "basketball", "tennis", "soccer", "athlete"],
    "politics" := ["government", "election", "politician", "democracy", "policy"]]

  /** The order in which the categories are declared and visited. */
  const CategoryOrder: seq<string> := ["technology", "sports", "politics"]

  const Unknown: string := "unknown"

  /** `kw` occurs in `t` at offset `i`. */
  predicate OccursAt(t: string, kw: string, i: nat) {
    i + |kw| <= |t| && t[i..i + |kw|] == kw
  }

  /** `keyword in text`: `kw` occurs in `t` as a contiguous substring. */
  predicate Contains(t: string, kw: string) {
    exists i: nat | i <= |t| :: OccursAt(t, kw, i)
  }

  /** How many of the keywords occur in `t`. */
  function Count(keywords: seq<string>, t: string): (n: nat)
    ensures n <= |keywords|
  {
    if keywords == [] then 0
    else Count(keywords[..|keywords| - 1], t) + (if Contains(t, keywords[|keywords| - 1]) then 1 else 0)
  }

  /** The counts of the named categories, summed. */
  function SumCounts(names: seq<string>, t: string): nat
    requires forall k :: 0 <= k < |names| ==> names[k] in Categories
  {
    if names == [] then 0
    else SumCounts(names[..|names| - 1], t) + Count(Categories[names[|names| - 1]], t)
  }

  /** `sum(scores.values())`. */
  function Total(t: string): nat {
    SumCounts(CategoryOrder, t)
  }

  /** The count of every category in `t`. */
  function Tallied(t: string): map<string, nat> {
    map name | name in Categories :: Count(Categories[name], t)
  }

  /** The final step of `classify`: {"unknown": 1.0} for a zero total,
      otherwise every count over the total. */
  function Normalise(counts: map<string, nat>, total: nat): map<string, real> {
    if total == 0 then map[Unknown := 1.0]
    else map name | name in counts :: counts[name] as real / total as real
  }

  /** The scores `classify` promises for `text`. */
  function Classification(text: string): map<string, real> {
    var t := Lower(text);
    Normalise(Tallied(t), Total(t))
  }

  /** The scores of the named categories, summed. */
  function SumScores(names: seq<string>, scores: map<string, real>): real
    requires forall k :: 0 <= k < |names| ==> names[k] in scores
  {
    if names == [] then 0.0
    else SumScores(names[..|names| - 1], scores) + scores[names[|names| - 1]]
  }

  /** The counting phase of `classify`: a nested loop that bumps a category's
      count for each of its keywords occurring in `t`. */
  method Tally(t: string) returns (counts: map<string, nat>)
    ensures counts == Tallied(t)
  {
    counts := map name | name in Categories :: 0;
    var i := 0;
    while i < |CategoryOrder|
      invariant i <= |CategoryOrder|
      invariant counts.Keys == Categories.Keys
      invariant forall k :: 0 <= k < i ==> counts[CategoryOrder[k]] == Count(Categories[CategoryOrder[k]], t)
      invariant forall k :: i <= k < |CategoryOrder| ==> counts[CategoryOrder[k]] == 0
    {
      var name := CategoryOrder[i];
      var keywords := Categories[name];
      ghost var before := counts;
      var j := 0;
      while j < |keywords|
        invariant j <= |keywords|
        invariant counts.Keys == Categories.Keys
        invariant counts[name] == Count(keywords[..j], t)
        invariant counts == before[name := counts[name]]
      {
        assert keywords[..j + 1][..j] == keywords[..j];
        if Contains(t, keywords[j]) {
          counts := counts[name := counts[name] + 1];
        }
        j := j + 1;
      }
      assert keywords[..j] == keywords;
      i := i + 1;
    }
    TallyComplete(counts, t);
  }

  /** Counts that agree with every category visited in `CategoryOrder` are the tally. */
  lemma TallyComplete(counts: map<string, nat>, t: string)
    requires counts.Keys == Categories.Keys
    requires forall k :: 0 <= k < |CategoryOrder| ==> counts[CategoryOrder[k]] == Count(Categories[CategoryOrder[k]], t)
    ensures counts == Tallied(t)
  {
    CategoryOrderCovers();
  }

  /** `sum(...)` of the tallied counts of the named categories. */
  function SumOf(names: seq<string>, counts: map<string, nat>): nat
    requires forall k :: 0 <= k < |names| ==> names[k] in counts
  {
    if names == [] then 0
    else SumOf(names[..|names| - 1], counts) + counts[names[|names| - 1]]
  }

  /** `classify`: tally, sum the tally, then normalise it. */
  method Classify(text: string) returns (scores: map<string, real>)
    ensures scores == Classification(text)
  {
    var t := Lower(text);
    var counts := Tally(t);
    CategoryOrderCovers();
    var total := SumOf(CategoryOrder, counts);
    SumOfTally(CategoryOrder, t, counts);
    scores := Normalise(counts, total);
  }

  /** Summing a tally gives the summed counts. */
  lemma {:induction false} SumOfTally(names: seq<string>, t: string, counts: map<string, nat>)
    requires forall k :: 0 <= k < |names| ==> names[k] in Categories && names[k] in counts
    requires forall name :: name in counts ==> name in Categories && counts[name] == Count(Categories[name], t)
    ensures SumOf(names, counts) == SumCounts(names, t)
  {
    if names != [] {
      SumOfTally(names[..|names| - 1], t, counts);
    }
  }

  /** Visiting `CategoryOrder` visits every category. */
  lemma CategoryOrderCovers()
    ensures forall name :: name in Categories ==> exists k :: 0 <= k < |CategoryOrder| && CategoryOrder[k] == name
    ensures forall k :: 0 <= k < |CategoryOrder| ==> CategoryOrder[k] in Categories
  {
    assert Categories.Keys == {CategoryOrder[0], CategoryOrder[1], CategoryOrder[2]};
  }

  /** A count depends only on which keywords occur, not on how often or where. */
  lemma {:induction false} CountPresenceOnly(keywords: seq<string>, t1: string, t2: string)
    requires forall k :: 0 <= k < |keywords| ==> (Contains(t1, keywords[k]) <==> Contains(t2, keywords[k]))
    ensures Count(keywords, t1) == Count(keywords, t2)
  {
    if keywords != [] {
      CountPresenceOnly(keywords[..|keywords| - 1], t1, t2);
    }
  }

  /** Every keyword occurring makes the count the number of keywords; none
      occurring makes it 0. */
  lemma {:induction false} CountExtremes(keywords: seq<string>, t: string)
    ensures (forall k :: 0 <= k < |keywords| ==> Contains(t, keywords[k])) ==> Count(keywords, t) == |keywords|
    ensures (forall k :: 0 <= k < |keywords| ==> !Contains(t, keywords[k])) ==> Count(keywords, t) == 0
  {
    if keywords != [] {
      CountExtremes(keywords[..|keywords| - 1], t);
    }
  }

  /** Each listed category's count is at most the sum over the list. */
  lemma {:induction false} CountAtMostSum(names: seq<string>, t: string, k: nat)
    requires forall j :: 0 <= j < |names| ==> names[j] in Categories
    requires k < |names|
    ensures Count(Categories[names[k]], t) <= SumCounts(names, t)
  {
    if k < |names| - 1 {
      CountAtMostSum(names[..|names| - 1], t, k);
    }
  }

  /** The answer is {"unknown": 1.0} exactly when no keyword occurs in the
      lower-cased text. */
  lemma ClassifyUnknown(text: string)
    ensures Classification(text) == map[Unknown := 1.0] <==> Total(Lower(text)) == 0
  {
    if Total(Lower(text)) != 0 {
      assert Unknown !in Classification(text);
    }
  }

  /** When some keyword occurs, the answer has exactly the three category
      keys, zero counts included, and every score lies in [0, 1]. */
  lemma ScoresInUnitInterval(text: string)
    requires Total(Lower(text)) > 0
    ensures Classification(text).Keys == Categories.Keys
    ensures forall name :: name in Classification(text) ==> 0.0 <= Classification(text)[name] <= 1.0
  {
    var t := Lower(text);
    var counts := Tallied(t);
    CategoryOrderCovers();
    forall name | name in counts
      ensures counts[name] <= Total(t)
    {
      var k :| 0 <= k < |CategoryOrder| && CategoryOrder[k] == name;
      CountAtMostSum(CategoryOrder, t, k);
    }
    NormaliseInUnitInterval(counts, Total(t));
  }

  /** Counts none of which exceeds a positive total normalise into [0, 1],
      keeping their keys. */
  lemma NormaliseInUnitInterval(counts: map<string, nat>, total: nat)
    requires total > 0
    requires forall name :: name in counts ==> counts[name] <= total
    ensures Normalise(counts, total).Keys == counts.Keys
    ensures forall name :: name in counts ==> 0.0 <= Normalise(counts, total)[name] <= 1.0
  {
    forall name | name in counts
      ensures 0.0 <= counts[name] as real / total as real <= 1.0
    {
      FractionInUnit(counts[name] as real, total as real);
    }
  }

  /** 0 <= a/d <= 1 when 0 <= a <= d and d is positive. */
  lemma FractionInUnit(a: real, d: real)
    requires 0.0 <= a <= d && d > 0.0
    ensures 0.0 <= a / d <= 1.0
  {
  }

  /** Scores that are counts over `total` sum to the summed counts over `total`. */
  lemma {:induction false} SumScoresScaled(names: seq<string>, t: string, scores: map<string, real>, total: nat)
    requires total > 0
    requires forall k :: 0 <= k < |names| ==> names[k] in Categories && names[k] in scores
    requires forall name :: name in scores && name in Categories ==> scores[name] == Count(Categories[name], t) as real / total as real
    ensures SumScores(names, scores) == SumCounts(names, t) as real / total as real
  {
    if names != [] {
      var init := names[..|names| - 1];
      var last := names[|names| - 1];
      SumScoresScaled(init, t, scores, total);
      AddFractions(SumCounts(init, t) as real, Count(Categories[last], t) as real, total as real);
    }
  }

  /** a/d + b/d == (a + b)/d. */
  lemma AddFractions(a: real, b: real, d: real)
    requires d > 0.0
    ensures a / d + b / d == (a + b) / d
  {
  }

  /** When some keyword occurs, the scores sum to 1. */
  lemma ScoresSumToOne(text: string)
    requires Total(Lower(text)) > 0
    ensures forall k :: 0 <= k < |CategoryOrder| ==> CategoryOrder[k] in Classification(text)
    ensures SumScores(CategoryOrder, Classification(text)) == 1.0
  {
    CategoryOrderCovers();
    var t := Lower(text);
    var scores := Classification(text);
    assert forall name :: name in scores && name in Categories ==>
      scores[name] == Count(Categories[name], t) as real / Total(t) as real;
    SumScoresScaled(CategoryOrder, t, scores, Total(t));
    DivideBySelf(Total(t) as real);
  }

  /** d/d == 1 for positive d. */
  lemma DivideBySelf(d: real)
    requires d > 0.0
    ensures d / d == 1.0
  {
  }
}
