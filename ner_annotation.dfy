/** The entity matcher, `NERAnnotation.annotate`: every entity string is
    searched for as an escaped literal, case-insensitively, in non-overlapping
    left-to-right matches, and each match becomes a span unless a span with the
    same (entity, start, end) key was already produced. */
module NerAnnotation {
  import opened Wrappers
  import opened Chars

  /** One caller-supplied definition (`EntitySchema`). `entityLabel == None` means the
      field was omitted, in which case the schema default "UNKNOWN" applies. */
  datatype EntityDef = EntityDef(
    entity: string,
    entityLabel: Option<string>,
    color: string,
    bColor: Option<string>,
    textColor: string)

  /** One entity span as stored in a NER record. `entityLabel` and `bColor` are
      `None` only in a document that lacks those keys; the matcher always
      writes both. */
  datatype Span = Span(
    entity: string,
    entityLabel: Option<string>,
    startPos: nat,
    endPos: nat,
    color: string,
    bColor: Option<string>,
    textColor: string)

  /** The de-duplication key `(entity, start_pos, end_pos)`. */
  type Key = (string, nat, nat)

  const DefaultLabel: string := "UNKNOWN"
  const DefaultBColor: string := "#ffffff"

  function KeyOf(s: Span): Key {
    (s.entity, s.startPos, s.endPos)
  }

  function Keys(c: seq<Span>): set<Key> {
    set s | s in c :: KeyOf(s)
  }

  /** The set of entity strings of some definitions. */
  function Entities(defs: seq<EntityDef>): set<string> {
    set d | d in defs :: d.entity
  }

  /** The label a definition carries once the schema default is applied. */
  function LabelOf(d: EntityDef): string {
    d.entityLabel.GetOr(DefaultLabel)
  }

  /** `bColor if bColor else "#ffffff"`: absent and empty both fall back. */
  function BColorOf(d: EntityDef): (b: string)
    ensures d.bColor.None? ==> b == DefaultBColor
    ensures d.bColor.Some? && d.bColor.value == "" ==> b == DefaultBColor
    ensures d.bColor.Some? && d.bColor.value != "" ==> b == d.bColor.value
  {
    if d.bColor.Some? && d.bColor.value != "" then d.bColor.value else DefaultBColor
  }

  // ---------------------------------------------------------------------------
  // re.finditer(re.escape(p), text, re.IGNORECASE)
  // ---------------------------------------------------------------------------

  /** The escaped literal `p` matches `text` at offset `i`, ignoring case. */
  predicate MatchAt(text: string, p: string, i: nat) {
    i + |p| <= |text| && Lower(text[i..i + |p|]) == Lower(p)
  }

  /** The scan resumes at the end of a match, or one past an empty match. */
  function Advance(p: string): (n: nat)
    ensures n >= 1 && n >= |p|
  {
    if |p| == 0 then 1 else |p|
  }

  /** The start offsets `finditer` reports when it begins scanning at `i`. */
  function MatchesFrom(text: string, p: string, i: nat): seq<nat>
    requires i <= |text| + 1
    decreases |text| + 1 - i
  {
    if i > |text| then []
    else if MatchAt(text, p, i) then [i] + MatchesFrom(text, p, i + Advance(p))
    else MatchesFrom(text, p, i + 1)
  }

  /** The start offsets of all matches of `p` in `text`, left to right. */
  function Matches(text: string, p: string): seq<nat> {
    MatchesFrom(text, p, 0)
  }

  /** The span a definition yields for a match starting at `m`. */
  function SpanAt(d: EntityDef, m: nat): Span {
    Span(d.entity, Some(LabelOf(d)), m, m + |d.entity|, d.color, Some(BColorOf(d)), d.textColor)
  }

  /** All spans one definition yields, in match order. */
  function DefSpans(text: string, d: EntityDef): (c: seq<Span>)
    ensures |c| == |Matches(text, d.entity)|
    ensures forall k :: 0 <= k < |c| ==> c[k] == SpanAt(d, Matches(text, d.entity)[k])
  {
    var ms := Matches(text, d.entity);
    seq(|ms|, k requires 0 <= k < |ms| => SpanAt(d, ms[k]))
  }

  /** The spans of all definitions, definitions outer, matches inner. */
  function Candidates(text: string, defs: seq<EntityDef>): seq<Span> {
    if defs == [] then []
    else Candidates(text, defs[..|defs| - 1]) + DefSpans(text, defs[|defs| - 1])
  }

  /** Keeps each span exactly when its key does not occur earlier in `c`. */
  function Dedup(c: seq<Span>): seq<Span> {
    if c == [] then []
    else
      var init := c[..|c| - 1];
      if KeyOf(c[|c| - 1]) in Keys(init) then Dedup(init) else Dedup(init) + [c[|c| - 1]]
  }

  /** No two spans of `c` share a key. */
  predicate KeysDistinct(c: seq<Span>) {
    forall k1, k2 :: 0 <= k1 < k2 < |c| ==> KeyOf(c[k1]) != KeyOf(c[k2])
  }

  /** The definitions whose entity string does not occur in an earlier definition. */
  function FirstDefinitions(defs: seq<EntityDef>): seq<EntityDef> {
    if defs == [] then []
    else
      var init := defs[..|defs| - 1];
      var d := defs[|defs| - 1];
      if d.entity in Entities(init) then FirstDefinitions(init) else FirstDefinitions(init) + [d]
  }

  /** The result `NERAnnotation.annotate` promises. */
  function Annotation(text: string, defs: seq<EntityDef>): seq<Span> {
    Dedup(Candidates(text, defs))
  }

  /** `NERAnnotation.annotate`. */
  method Annotate(text: string, defs: seq<EntityDef>) returns (spans: seq<Span>)
    ensures spans == Annotation(text, defs)
  {
    spans := [];
    var seen: set<Key> := {};
    var i := 0;
    while i < |defs|
      invariant 0 <= i <= |defs|
      invariant spans == Dedup(Candidates(text, defs[..i]))
      invariant seen == Keys(spans)
    {
      var entity := defs[i].entity;
      var entityType := LabelOf(defs[i]);
      var color := defs[i].color;
      var bColor := BColorOf(defs[i]);
      var textColor := defs[i].textColor;
      var ms := Matches(text, entity);
      ghost var before := Candidates(text, defs[..i]);
      ghost var mine := DefSpans(text, defs[i]);
      ghost var c := before;
      var j := 0;
      while j < |ms|
        invariant 0 <= j <= |ms|
        invariant c == before + mine[..j]
        invariant spans == Dedup(c)
        invariant seen == Keys(spans)
      {
        var startPos := ms[j];
        var endPos := ms[j] + |entity|;
        var key := (entity, startPos, endPos);
        var span := Span(entity, Some(entityType), startPos, endPos, color, Some(bColor), textColor);
        assert span == mine[j] && key == KeyOf(span);
        DedupStepKeys(c, span, spans, seen);
        if key !in seen {
          spans := spans + [span];
          seen := seen + {key};
        }
        PrefixSnoc(before, mine, j);
        c := c + [span];
        j := j + 1;
      }
      assert mine[..|ms|] == mine;
      CandidatesStep(text, defs, i);
      i := i + 1;
    }
    assert defs[..|defs|] == defs;
  }

  // ---------------------------------------------------------------------------
  // Lemmas about the scan
  // ---------------------------------------------------------------------------

  /** Every reported offset is at or after the scan start and is a real match. */
  lemma {:induction false} MatchesFromSound(text: string, p: string, i: nat)
    requires i <= |text| + 1
    ensures forall m :: m in MatchesFrom(text, p, i) ==> i <= m && MatchAt(text, p, m)
    decreases |text| + 1 - i
  {
    if i <= |text| {
      if MatchAt(text, p, i) {
        MatchesFromSound(text, p, i + Advance(p));
      } else {
        MatchesFromSound(text, p, i + 1);
      }
    }
  }

  /** Offsets increase, and each match of length `len` ends before the next starts. */
  predicate Ordered(ms: seq<nat>, len: nat) {
    forall k1, k2 :: 0 <= k1 < k2 < |ms| ==> ms[k1] < ms[k2] && ms[k1] + len <= ms[k2]
  }

  /** Reported offsets increase, and each match ends before the next starts. */
  lemma {:induction false} MatchesFromOrdered(text: string, p: string, i: nat)
    requires i <= |text| + 1
    ensures Ordered(MatchesFrom(text, p, i), |p|)
    decreases |text| + 1 - i
  {
    if i <= |text| {
      if MatchAt(text, p, i) {
        var rest := MatchesFrom(text, p, i + Advance(p));
        MatchesFromOrdered(text, p, i + Advance(p));
        MatchesFromSound(text, p, i + Advance(p));
        var ms := [i] + rest;
        forall k1, k2 | 0 <= k1 < k2 < |ms|
          ensures ms[k1] < ms[k2] && ms[k1] + |p| <= ms[k2]
        {
          assert ms[k2] == rest[k2 - 1];
          if k1 > 0 {
            assert ms[k1] == rest[k1 - 1];
            assert rest[k1 - 1] < rest[k2 - 1] && rest[k1 - 1] + |p| <= rest[k2 - 1];
          } else {
            assert rest[k2 - 1] in rest;
            assert i + Advance(p) <= rest[k2 - 1];
            assert ms[0] == i;
          }
        }
        assert MatchesFrom(text, p, i) == ms;
      } else {
        MatchesFromOrdered(text, p, i + 1);
        assert MatchesFrom(text, p, i) == MatchesFrom(text, p, i + 1);
      }
    }
  }

  /** A pattern that matches nowhere yields no offsets. */
  lemma {:induction false} NoOccurrenceNoMatches(text: string, p: string, i: nat)
    requires i <= |text| + 1
    requires forall j: nat :: !MatchAt(text, p, j)
    ensures MatchesFrom(text, p, i) == []
    decreases |text| + 1 - i
  {
    if i <= |text| {
      NoOccurrenceNoMatches(text, p, i + 1);
    }
  }

  /** Leftmost scanning: a match the scan does not report overlaps a reported one. */
  lemma {:induction false} MatchesFromLeftmost(text: string, p: string, i: nat, j: nat)
    requires i <= j && MatchAt(text, p, j)
    ensures var ms := MatchesFrom(text, p, i);
      j in ms || exists k :: 0 <= k < |ms| && ms[k] < j < ms[k] + |p|
    decreases |text| + 1 - i
  {
    if MatchAt(text, p, i) {
      var rest := MatchesFrom(text, p, i + Advance(p));
      var ms := [i] + rest;
      if j == i {
        assert ms[0] == j;
      } else if j < i + Advance(p) {
        assert ms[0] == i;
      } else {
        MatchesFromLeftmost(text, p, i + Advance(p), j);
        if j !in rest {
          var k :| 0 <= k < |rest| && rest[k] < j < rest[k] + |p|;
          assert ms[k + 1] == rest[k];
        }
      }
    } else {
      MatchesFromLeftmost(text, p, i + 1, j);
    }
  }

  // ---------------------------------------------------------------------------
  // Lemmas about Dedup
  // ---------------------------------------------------------------------------

  /** De-duplication drops no key: the seen-set equals the result's keys. */
  lemma {:induction false} DedupKeys(c: seq<Span>)
    ensures Keys(Dedup(c)) == Keys(c)
  {
    if c != [] {
      var init := c[..|c| - 1];
      DedupKeys(init);
      assert c == init + [c[|c| - 1]];
      assert Keys(c) == Keys(init) + {KeyOf(c[|c| - 1])};
    }
  }

  /** Appending one candidate keeps it exactly when its key is new. */
  lemma DedupStep(c: seq<Span>, x: Span)
    ensures Dedup(c + [x]) == if KeyOf(x) in Keys(Dedup(c)) then Dedup(c) else Dedup(c) + [x]
  {
    assert (c + [x])[..|c|] == c;
    DedupKeys(c);
  }

  /** The loop step of `annotate`: a key in the seen-set is skipped, a new
      key appends its span and joins the seen-set. */
  lemma DedupStepKeys(c: seq<Span>, x: Span, spans: seq<Span>, seen: set<Key>)
    requires spans == Dedup(c) && seen == Keys(spans)
    ensures KeyOf(x) in seen ==> Dedup(c + [x]) == spans
    ensures KeyOf(x) !in seen ==> Dedup(c + [x]) == spans + [x] && Keys(spans + [x]) == seen + {KeyOf(x)}
  {
    DedupStep(c, x);
    assert Keys(spans + [x]) == Keys(spans) + {KeyOf(x)};
  }

  /** Extending a processed prefix by one element. */
  lemma PrefixSnoc<T>(before: seq<T>, s: seq<T>, j: nat)
    requires j < |s|
    ensures (before + s[..j]) + [s[j]] == before + s[..j + 1]
  {
    assert s[..j + 1] == s[..j] + [s[j]];
  }

  /** Candidates of one more definition. */
  lemma CandidatesStep(text: string, defs: seq<EntityDef>, i: nat)
    requires i < |defs|
    ensures Candidates(text, defs[..i + 1]) == Candidates(text, defs[..i]) + DefSpans(text, defs[i])
  {
    assert defs[..i + 1][..i] == defs[..i];
  }

  /** The result of de-duplication never repeats a key. */
  lemma {:induction false} DedupKeysDistinct(c: seq<Span>)
    ensures KeysDistinct(Dedup(c))
  {
    if c != [] {
      var init := c[..|c| - 1];
      DedupKeysDistinct(init);
      DedupKeys(init);
      var r := Dedup(init);
      var r' := r + [c[|c| - 1]];
      if KeyOf(c[|c| - 1]) !in Keys(init) {
        forall k1, k2 | 0 <= k1 < k2 < |r'|
          ensures KeyOf(r'[k1]) != KeyOf(r'[k2])
        {
          if k2 == |r| { assert r'[k1] == r[k1] && r[k1] in r; }
        }
      }
    }
  }

  /** The keys of a concatenation. */
  lemma KeysAppend(a: seq<Span>, b: seq<Span>)
    ensures Keys(a + b) == Keys(a) + Keys(b)
  {
    assert forall s :: s in a + b <==> s in a || s in b;
  }

  /** Splitting off the last span of a list with distinct keys. */
  lemma KeysDistinctSnoc(e: seq<Span>)
    requires e != [] && KeysDistinct(e)
    ensures KeysDistinct(e[..|e| - 1]) && KeyOf(e[|e| - 1]) !in Keys(e[..|e| - 1])
  {
  }

  /** Appending spans whose keys are new and pairwise distinct keeps them all. */
  lemma {:induction false} DedupAppendFresh(c: seq<Span>, e: seq<Span>)
    requires KeysDistinct(e) && Keys(e) !! Keys(c)
    ensures Dedup(c + e) == Dedup(c) + e
    decreases |e|
  {
    if e == [] {
      assert c + e == c;
    } else {
      var init := e[..|e| - 1];
      var x := e[|e| - 1];
      assert e == init + [x];
      assert KeyOf(x) !in Keys(c) + Keys(init) && KeysDistinct(init) && Keys(init) !! Keys(c) by {
        KeysAppend(init, [x]);
        KeysDistinctSnoc(e);
      }
      assert Dedup(c + init) == Dedup(c) + init by {
        DedupAppendFresh(c, init);
      }
      assert Dedup(c + e) == Dedup(c + init) + [x] by {
        assert c + e == (c + init) + [x];
        DedupStep(c + init, x);
        DedupKeys(c + init);
        KeysAppend(c, init);
      }
      assert (Dedup(c) + init) + [x] == Dedup(c) + e;
    }
  }

  /** Appending spans whose keys all occurred already adds nothing. */
  lemma {:induction false} DedupAppendCovered(c: seq<Span>, e: seq<Span>)
    requires Keys(e) <= Keys(c)
    ensures Dedup(c + e) == Dedup(c)
    decreases |e|
  {
    if e == [] {
      assert c + e == c;
    } else {
      var init := e[..|e| - 1];
      var x := e[|e| - 1];
      assert e == init + [x];
      KeysAppend(init, [x]);
      DedupAppendCovered(c, init);
      assert c + e == (c + init) + [x];
      DedupStep(c + init, x);
      DedupKeys(c + init);
      KeysAppend(c, init);
    }
  }

  // ---------------------------------------------------------------------------
  // Lemmas about the spans of one definition and of a definition list
  // ---------------------------------------------------------------------------

  /** Every span of a definition carries the definition's entity string. */
  lemma DefSpansEntity(text: string, d: EntityDef)
    ensures forall key :: key in Keys(DefSpans(text, d)) ==> key.0 == d.entity
  {
  }

  /** Each match of a definition yields a span with that match's key. */
  lemma DefSpansHasMatch(text: string, d: EntityDef, m: nat)
    requires m in Matches(text, d.entity)
    ensures (d.entity, m, m + |d.entity|) in Keys(DefSpans(text, d))
  {
    var ms := Matches(text, d.entity);
    var k :| 0 <= k < |ms| && ms[k] == m;
    assert DefSpans(text, d)[k] in DefSpans(text, d);
  }

  /** The keys of a definition's spans depend on its entity string only. */
  lemma DefSpansKeysSameEntity(text: string, d: EntityDef, d': EntityDef)
    requires d.entity == d'.entity
    ensures Keys(DefSpans(text, d)) == Keys(DefSpans(text, d'))
  {
    var c, c' := DefSpans(text, d), DefSpans(text, d');
    assert forall k :: 0 <= k < |c| ==> KeyOf(c[k]) == KeyOf(c'[k]);
    forall key | key in Keys(c) ensures key in Keys(c') {
      var k :| 0 <= k < |c| && KeyOf(c[k]) == key;
      assert c'[k] in c';
    }
    forall key | key in Keys(c') ensures key in Keys(c) {
      var k :| 0 <= k < |c'| && KeyOf(c'[k]) == key;
      assert c[k] in c;
    }
  }

  /** One definition never yields the same key twice. */
  lemma DefSpansKeysDistinct(text: string, d: EntityDef)
    ensures KeysDistinct(DefSpans(text, d))
  {
    MatchesFromOrdered(text, d.entity, 0);
  }

  /** Candidate keys carry the entity string of some definition. */
  lemma {:induction false} CandidatesEntities(text: string, defs: seq<EntityDef>)
    ensures forall key :: key in Keys(Candidates(text, defs)) ==> key.0 in Entities(defs)
  {
    if defs != [] {
      var init := defs[..|defs| - 1];
      var d := defs[|defs| - 1];
      CandidatesEntities(text, init);
      DefSpansEntity(text, d);
      assert defs == init + [d];
      KeysAppend(Candidates(text, init), DefSpans(text, d));
    }
  }

  /** Every definition's spans are among the candidates of the list. */
  lemma {:induction false} CandidatesCover(text: string, defs: seq<EntityDef>, i: nat)
    requires i < |defs|
    ensures Keys(DefSpans(text, defs[i])) <= Keys(Candidates(text, defs))
  {
    var init := defs[..|defs| - 1];
    var d := defs[|defs| - 1];
    KeysAppend(Candidates(text, init), DefSpans(text, d));
    if i < |defs| - 1 {
      CandidatesCover(text, init, i);
    }
  }

  /** One more definition: a repeated entity string adds nothing, a new one
      adds all of its spans, in match order, after the earlier ones. */
  lemma AnnotationAppend(text: string, defs: seq<EntityDef>, d: EntityDef)
    ensures Annotation(text, defs + [d]) ==
      if d.entity in Entities(defs) then Annotation(text, defs)
      else Annotation(text, defs) + DefSpans(text, d)
  {
    assert (defs + [d])[..|defs|] == defs;
    var c := Candidates(text, defs);
    var e := DefSpans(text, d);
    assert Candidates(text, defs + [d]) == c + e;
    if d.entity in Entities(defs) {
      var i :| 0 <= i < |defs| && defs[i].entity == d.entity;
      CandidatesCover(text, defs, i);
      DefSpansKeysSameEntity(text, d, defs[i]);
      DedupAppendCovered(c, e);
    } else {
      CandidatesEntities(text, defs);
      DefSpansEntity(text, d);
      DefSpansKeysDistinct(text, d);
      DedupAppendFresh(c, e);
    }
  }

  /** The matcher's result is the concatenation, in definition order, of the
      spans of each definition whose entity string appears there first. */
  lemma {:induction false} AnnotationOfFirstDefinitions(text: string, defs: seq<EntityDef>)
    ensures Annotation(text, defs) == Candidates(text, FirstDefinitions(defs))
  {
    if defs != [] {
      var init := defs[..|defs| - 1];
      var d := defs[|defs| - 1];
      assert defs == init + [d];
      AnnotationOfFirstDefinitions(text, init);
      AnnotationAppend(text, init, d);
      var fd := FirstDefinitions(init);
      assert (fd + [d])[..|fd|] == fd;
    }
  }

  /** Soundness: each span comes from the first definition of its entity
      string and from a real match of that string. */
  lemma {:induction false} AnnotationSound(text: string, defs: seq<EntityDef>, s: Span)
    requires s in Annotation(text, defs)
    ensures exists i :: (0 <= i < |defs| && defs[i].entity == s.entity
      && s.entity !in Entities(defs[..i])
      && s.startPos in Matches(text, s.entity)
      && s == SpanAt(defs[i], s.startPos))
  {
    var init := defs[..|defs| - 1];
    var d := defs[|defs| - 1];
    assert defs == init + [d];
    AnnotationAppend(text, init, d);
    if s in Annotation(text, init) {
      AnnotationSound(text, init, s);
      var i :| 0 <= i < |init| && init[i].entity == s.entity
        && s.entity !in Entities(init[..i])
        && s.startPos in Matches(text, s.entity)
        && s == SpanAt(init[i], s.startPos);
      assert defs[i] == init[i] && defs[..i] == init[..i];
    } else {
      var e := DefSpans(text, d);
      var k :| 0 <= k < |e| && e[k] == s;
      assert Matches(text, d.entity)[k] in Matches(text, d.entity);
      assert defs[..|defs| - 1] == init;
    }
  }

  /** Every span lies inside the text and covers the entity string up to case. */
  lemma AnnotationInText(text: string, defs: seq<EntityDef>, s: Span)
    requires s in Annotation(text, defs)
    ensures s.startPos <= s.endPos <= |text|
    ensures Lower(text[s.startPos..s.endPos]) == Lower(s.entity)
  {
    AnnotationSound(text, defs, s);
    MatchesFromSound(text, s.entity, 0);
  }

  /** Completeness: every match of every definition is represented by a span
      with its key, including matches of different strings at the same offsets. */
  lemma AnnotationComplete(text: string, defs: seq<EntityDef>, i: nat, m: nat)
    requires i < |defs| && m in Matches(text, defs[i].entity)
    ensures (defs[i].entity, m, m + |defs[i].entity|) in Keys(Annotation(text, defs))
  {
    DefSpansHasMatch(text, defs[i], m);
    CandidatesCover(text, defs, i);
    DedupKeys(Candidates(text, defs));
  }

  /** No two spans share an `(entity, start_pos, end_pos)` key. */
  lemma AnnotationKeysDistinct(text: string, defs: seq<EntityDef>)
    ensures KeysDistinct(Annotation(text, defs))
  {
    DedupKeysDistinct(Candidates(text, defs));
  }

  /** Spans of one entity string appear left to right and do not overlap. */
  lemma {:induction false} AnnotationSameEntityOrdered(text: string, defs: seq<EntityDef>, k1: nat, k2: nat)
    requires var r := Annotation(text, defs);
      k1 < k2 < |r| && r[k1].entity == r[k2].entity
    ensures var r := Annotation(text, defs);
      r[k1].startPos < r[k2].startPos && r[k1].endPos <= r[k2].startPos
  {
    var init := defs[..|defs| - 1];
    var d := defs[|defs| - 1];
    assert defs == init + [d];
    AnnotationAppend(text, init, d);
    var r0 := Annotation(text, init);
    var r := Annotation(text, defs);
    if k2 < |r0| {
      assert r[k1] == r0[k1] && r[k2] == r0[k2];
      AnnotationSameEntityOrdered(text, init, k1, k2);
    } else if k1 < |r0| {
      assert r[k1] == r0[k1] && r0[k1] in r0;
      AnnotationSound(text, init, r0[k1]);
      assert false;
    } else {
      var e := DefSpans(text, d);
      var ms := Matches(text, d.entity);
      assert r[k1] == e[k1 - |r0|] && r[k2] == e[k2 - |r0|];
      MatchesFromOrdered(text, d.entity, 0);
      assert Ordered(ms, |d.entity|);
    }
  }

  /** An entity string that never occurs in the text contributes no spans. */
  lemma AnnotationNeverOccurring(text: string, defs: seq<EntityDef>, d: EntityDef)
    requires forall j: nat :: !MatchAt(text, d.entity, j)
    ensures Annotation(text, defs + [d]) == Annotation(text, defs)
  {
    NoOccurrenceNoMatches(text, d.entity, 0);
    AnnotationAppend(text, defs, d);
    assert Annotation(text, defs) + [] == Annotation(text, defs);
  }

  /** An empty entity string matches, with zero width, at every offset
      `0..|text|`, as `re.finditer` does for an empty pattern. */
  lemma {:induction false} EmptyEntityMatchesEverywhere(text: string, i: nat)
    requires i <= |text| + 1
    ensures MatchesFrom(text, "", i) == seq(|text| + 1 - i, k => i + k)
    decreases |text| + 1 - i
  {
    if i <= |text| {
      assert MatchAt(text, "", i);
      EmptyEntityMatchesEverywhere(text, i + 1);
    }
  }
}
