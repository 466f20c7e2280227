/**
 * The two string operations the search relies on: lower-casing
 * (`String.prototype.toLowerCase`) and substring containment
 * (`String.prototype.includes`). Letter case is modelled for ASCII letters
 * and the basic Greek alphabet; every other character is left as it is.
 * `FoldStr` is the context-free case fold the search uses; `JsLowerStr` is
 * `toLowerCase` itself on the same letters, with its final-sigma rule.
 */
module CaseText {

  /** GREEK CAPITAL LETTER SIGMA, small sigma and small final sigma. */
  const CAPITAL_SIGMA: char := '\U{03A3}'
  const SIGMA: char := '\U{03C3}'
  const FINAL_SIGMA: char := '\U{03C2}'

  /** An ASCII capital or a basic Greek capital (U+0391..U+03A9; U+03A2 is unassigned). */
  predicate IsUpper(c: char) {
    'A' <= c <= 'Z' || ('\U{0391}' <= c <= '\U{03A9}' && c != '\U{03A2}')
  }

  /** A letter that has case: an ASCII letter or a basic Greek letter. */
  predicate IsCased(c: char) {
    IsUpper(c) || 'a' <= c <= 'z' || '\U{03B1}' <= c <= '\U{03C9}'
  }

  /**
   * Case-folds one character: a capital becomes its small letter (both
   * alphabets place it 32 code points higher) and a final sigma becomes the
   * ordinary small sigma.
   */
  function FoldChar(c: char): (d: char)
    ensures !IsUpper(d) && d != FINAL_SIGMA
    ensures IsUpper(c) ==> d as int - c as int == 32
    ensures c == FINAL_SIGMA ==> d == SIGMA
    ensures !IsUpper(c) && c != FINAL_SIGMA ==> d == c
  {
    if IsUpper(c) then (c as int + 32) as char
    else if c == FINAL_SIGMA then SIGMA
    else c
  }

  /** Case-folds a string character by character, independently of context. */
  function FoldStr(s: string): (r: string)
    ensures |r| == |s|
    ensures forall i :: 0 <= i < |s| ==> r[i] == FoldChar(s[i])
  {
    if s == [] then [] else [FoldChar(s[0])] + FoldStr(s[1..])
  }

  /**
   * `toLowerCase` at position `i`: a capital sigma that follows a cased
   * letter and is not followed by one becomes a final sigma; other capitals
   * become small letters; everything else, the final sigma included, stays.
   */
  function JsLowerAt(s: string, i: nat): char
    requires i < |s|
  {
    if s[i] == CAPITAL_SIGMA && i > 0 && IsCased(s[i - 1]) && !(i + 1 < |s| && IsCased(s[i + 1]))
    then FINAL_SIGMA
    else if IsUpper(s[i]) then (s[i] as int + 32) as char
    else s[i]
  }

  /** `toLowerCase`: it agrees with the case fold except at sigmas. */
  function JsLowerStr(s: string): (r: string)
    ensures |r| == |s|
    ensures forall i :: 0 <= i < |s| && s[i] != CAPITAL_SIGMA && s[i] != FINAL_SIGMA ==> r[i] == FoldChar(s[i])
    ensures forall i :: 0 <= i < |s| ==> !IsUpper(r[i])
    ensures forall i :: 0 <= i < |s| && s[i] == CAPITAL_SIGMA ==> r[i] == SIGMA || r[i] == FINAL_SIGMA
  {
    seq(|s|, i requires 0 <= i < |s| => JsLowerAt(s, i))
  }

  /** The string holds neither a capital sigma nor a final sigma. */
  predicate NoSigma(s: string) {
    forall i :: 0 <= i < |s| ==> s[i] != CAPITAL_SIGMA && s[i] != FINAL_SIGMA
  }

  predicate IsAsciiLetter(c: char) {
    'A' <= c <= 'Z' || 'a' <= c <= 'z'
  }

  /** Two strings that differ at most in the case of ASCII letters. */
  predicate SameUpToAsciiCase(s: string, t: string) {
    |s| == |t| &&
    forall i :: 0 <= i < |s| ==>
      s[i] == t[i] || (IsAsciiLetter(s[i]) && IsAsciiLetter(t[i]) && FoldChar(s[i]) == FoldChar(t[i]))
  }

  /** Two strings that differ at most in letter case. */
  predicate SameUpToCase(s: string, t: string) {
    |s| == |t| && forall i :: 0 <= i < |s| ==> FoldChar(s[i]) == FoldChar(t[i])
  }

  /** Without sigmas, `toLowerCase` is the case fold. */
  lemma JsLowerWithoutSigma(s: string)
    requires NoSigma(s)
    ensures JsLowerStr(s) == FoldStr(s)
  {
  }

  /** Case-folding after `toLowerCase` is case-folding: the two differ only between σ and ς. */
  lemma FoldJsLower(s: string)
    ensures FoldStr(JsLowerStr(s)) == FoldStr(s)
  {
  }

  /** Changing the case of ASCII letters does not change `toLowerCase`. */
  lemma JsLowerAsciiCase(s: string, t: string)
    requires SameUpToAsciiCase(s, t)
    ensures JsLowerStr(s) == JsLowerStr(t)
  {
  }

  /** `needle` occurs in `hay` starting at position `i`. */
  predicate OccursAt(hay: string, needle: string, i: int) {
    0 <= i && i + |needle| <= |hay| && hay[i..i + |needle|] == needle
  }

  /** Substring containment, as `hay.includes(needle)`: true for the empty needle. */
  predicate Includes(hay: string, needle: string) {
    needle <= hay || (hay != [] && Includes(hay[1..], needle))
  }

  /** An occurrence at any position makes `Includes` hold. */
  lemma {:induction false} OccursIncludes(hay: string, needle: string, i: int)
    requires OccursAt(hay, needle, i)
    ensures Includes(hay, needle)
  {
    if i == 0 {
      assert hay[..|needle|] == needle;
    } else {
      assert hay[1..][i - 1..i - 1 + |needle|] == hay[i..i + |needle|];
      OccursIncludes(hay[1..], needle, i - 1);
    }
  }

  /** Where `Includes` holds, the needle occurs at some position. */
  lemma {:induction false} IncludesWitness(hay: string, needle: string) returns (i: int)
    requires Includes(hay, needle)
    ensures OccursAt(hay, needle, i)
  {
    if needle <= hay {
      assert hay[0..|needle|] == needle;
      i := 0;
    } else {
      var j := IncludesWitness(hay[1..], needle);
      assert hay[1..][j..j + |needle|] == hay[j + 1..j + 1 + |needle|];
      i := j + 1;
    }
  }

  /** `Includes` holds exactly when the needle occurs at some position. */
  lemma IncludesIffOccurs(hay: string, needle: string)
    ensures Includes(hay, needle) <==> exists i :: OccursAt(hay, needle, i)
  {
    if Includes(hay, needle) {
      var i := IncludesWitness(hay, needle);
    }
    if exists i :: OccursAt(hay, needle, i) {
      var i :| OccursAt(hay, needle, i);
      OccursIncludes(hay, needle, i);
    }
  }

  /** The empty string is contained in every string. */
  lemma IncludesEmpty(hay: string)
    ensures Includes(hay, [])
  {
  }

  /** Case folding commutes with taking a slice. */
  lemma FoldStrSlice(s: string, i: int, j: int)
    requires 0 <= i <= j <= |s|
    ensures FoldStr(s[i..j]) == FoldStr(s)[i..j]
  {
  }

  /** Strings equal up to case have the same folded form, and conversely. */
  lemma {:induction false} SameUpToCaseIff(s: string, t: string)
    ensures SameUpToCase(s, t) <==> FoldStr(s) == FoldStr(t)
  {
    if FoldStr(s) == FoldStr(t) {
      assert |s| == |FoldStr(s)| == |t|;
      forall i | 0 <= i < |s| ensures FoldChar(s[i]) == FoldChar(t[i]) {
        assert FoldStr(s)[i] == FoldStr(t)[i];
      }
    }
  }

  /** A substring survives case folding of both strings. */
  lemma {:induction false} IncludesFold(hay: string, needle: string)
    requires Includes(hay, needle)
    ensures Includes(FoldStr(hay), FoldStr(needle))
  {
    IncludesIffOccurs(hay, needle);
    var i :| OccursAt(hay, needle, i);
    FoldStrSlice(hay, i, i + |needle|);
    assert OccursAt(FoldStr(hay), FoldStr(needle), i);
    IncludesIffOccurs(FoldStr(hay), FoldStr(needle));
  }

  /** A substring still matches after `toLowerCase`, both strings folded. */
  lemma IncludesJsLower(hay: string, needle: string)
    requires Includes(JsLowerStr(hay), JsLowerStr(needle))
    ensures Includes(FoldStr(hay), FoldStr(needle))
  {
    IncludesFold(JsLowerStr(hay), JsLowerStr(needle));
    FoldJsLower(hay);
    FoldJsLower(needle);
  }

  /**
   * An occurrence of a needle without sigmas, in any letter case, survives
   * `toLowerCase` of the haystack: there it reads as the folded needle.
   */
  lemma {:induction false} IncludesJsLowerNoSigma(hay: string, needle: string)
    requires Includes(hay, needle) && NoSigma(needle)
    ensures Includes(JsLowerStr(hay), FoldStr(needle))
  {
    var i := IncludesWitness(hay, needle);
    var low := JsLowerStr(hay);
    forall p | 0 <= p < |needle| ensures low[i..i + |needle|][p] == FoldStr(needle)[p] {
      assert hay[i + p] == needle[p];
    }
    assert OccursAt(low, FoldStr(needle), i);
    OccursIncludes(low, FoldStr(needle), i);
  }
}
