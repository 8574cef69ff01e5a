/** The base annotator: `preprocess` (Python's `str.strip()`) and an
    `annotate` that subclasses must override. */
module BaseAnnotation {
  import opened Chars
  import opened Wrappers
  import opened Errors

  /** Number of whitespace characters at the start of `s`. */
  function LeadingSpace(s: string): (n: nat)
    ensures n <= |s| && forall k :: 0 <= k < n ==> IsSpace(s[k])
    ensures AllSpace(s[..n])
    ensures n < |s| ==> !IsSpace(s[n])
  {
    if s == [] || !IsSpace(s[0]) then 0
    else 1 + LeadingSpace(s[1..])
  }

  /** Number of whitespace characters at the end of `s`. */
  function TrailingSpace(s: string): (n: nat)
    ensures n <= |s| && forall k :: |s| - n <= k < |s| ==> IsSpace(s[k])
    ensures AllSpace(s[|s| - n..])
    ensures n < |s| ==> !IsSpace(s[|s| - n - 1])
  {
    if s == [] || !IsSpace(s[|s| - 1]) then 0
    else 1 + TrailingSpace(s[..|s| - 1])
  }

  /** Cutting `s` at `i` and `j` leaves whitespace only outside `s[i..j]`, and
      the kept part neither starts nor ends with whitespace. */
  ghost predicate StripCut(s: string, i: nat, j: nat) {
    i <= j <= |s| && AllSpace(s[..i]) && AllSpace(s[j..])
    && (i < j ==> !IsSpace(s[i]) && !IsSpace(s[j - 1]))
  }

  /** `r` is `s` with a whitespace-only prefix and suffix removed, and `r`
      neither starts nor ends with whitespace. */
  ghost predicate IsStripOf(s: string, r: string) {
    exists i: nat, j: nat :: StripCut(s, i, j) && r == s[i..j]
  }

  /** `BaseAnnotation.preprocess`: `text.strip()`. */
  function Preprocess(text: string): (r: string)
    ensures IsStripOf(text, r)
  {
    var lead := LeadingSpace(text);
    var trail := TrailingSpace(text[lead..]);
    var j := |text| - trail;
    assert forall k :: j <= k < |text| ==> IsSpace(text[k]) by {
      forall k | j <= k < |text| ensures IsSpace(text[k]) {
        assert text[lead..][k - lead] == text[k];
      }
    }
    assert AllSpace(text[j..]) by {
      forall k | 0 <= k < |text[j..]| ensures IsSpace(text[j..][k]) {
        assert text[j..][k] == text[j + k];
      }
    }
    assert StripCut(text, lead, j);
    text[lead..j]
  }

  /** `BaseAnnotation.annotate`: always raises NotImplementedError. */
  function Annotate(text: string): (r: Result<(), Error>)
    ensures r.Failure? && r.error == NotImplemented
  {
    Failure(NotImplemented)
  }

  /** A non-space character bounds every whitespace-only prefix. */
  lemma SpacePrefixBefore(s: string, k: nat, i: nat)
    requires k <= |s| && i < |s| && AllSpace(s[..k]) && !IsSpace(s[i])
    ensures k <= i
  {
    assert forall m :: 0 <= m < k ==> s[..k][m] == s[m];
  }

  /** A non-space character bounds every whitespace-only suffix. */
  lemma SpaceSuffixAfter(s: string, k: nat, i: nat)
    requires k <= |s| && i < |s| && AllSpace(s[k..]) && !IsSpace(s[i])
    ensures i < k
  {
    assert forall m :: k <= m < |s| ==> s[k..][m - k] == s[m];
  }

  /** The characterisation of `strip` determines its result. */
  lemma StripUnique(s: string, r1: string, r2: string)
    requires IsStripOf(s, r1) && IsStripOf(s, r2)
    ensures r1 == r2
  {
    var i1: nat, j1: nat :| StripCut(s, i1, j1) && r1 == s[i1..j1];
    var i2: nat, j2: nat :| StripCut(s, i2, j2) && r2 == s[i2..j2];
    if i1 < j1 {
      SpacePrefixBefore(s, i2, i1);
      SpaceSuffixAfter(s, j2, j1 - 1);
    }
    if i2 < j2 {
      SpacePrefixBefore(s, i1, i2);
      SpaceSuffixAfter(s, j1, j2 - 1);
    }
    assert (i1 == i2 && j1 == j2) || (i1 == j1 && i2 == j2);
  }

  /** Whitespace before and after a cut point covers the whole string. */
  lemma AllSpaceAround(s: string, i: nat, k: nat)
    requires i <= |s| && k < |s|
    requires AllSpace(s[..i]) && AllSpace(s[i..])
    ensures IsSpace(s[k])
  {
    if k < i { assert s[..i][k] == s[k]; } else { assert s[i..][k - i] == s[k]; }
  }

  /** Stripping twice is stripping once. */
  lemma PreprocessIdempotent(s: string)
    ensures Preprocess(Preprocess(s)) == Preprocess(s)
  {
    var r := Preprocess(s);
    assert StripCut(r, 0, |r|) && r[0..|r|] == r;
    StripUnique(r, r, Preprocess(r));
  }

  /** Text that neither starts nor ends with whitespace is returned unchanged. */
  lemma PreprocessTrimmedUnchanged(s: string)
    requires s == [] || (!IsSpace(s[0]) && !IsSpace(s[|s| - 1]))
    ensures Preprocess(s) == s
  {
    assert StripCut(s, 0, |s|) && s[0..|s|] == s;
    StripUnique(s, s, Preprocess(s));
  }

  /** All-whitespace text becomes the empty string. */
  lemma PreprocessAllSpace(s: string)
    requires AllSpace(s)
    ensures Preprocess(s) == []
  {
    assert StripCut(s, |s|, |s|) && s[|s|..|s|] == [];
    StripUnique(s, [], Preprocess(s));
  }

  /** Whitespace inside the kept part survives: the result is a contiguous slice of the input. */
  lemma PreprocessIsSlice(s: string)
    ensures exists i, j :: 0 <= i <= j <= |s| && Preprocess(s) == s[i..j]
  {
    assert IsStripOf(s, Preprocess(s));
  }
}
