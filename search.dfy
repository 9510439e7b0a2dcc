/** The search button's check of the location field: the text is trimmed
    with ECMAScript's String.prototype.trim, and a search starts only when
    something is left; otherwise the user is alerted. */
module Search {
  import opened Wrappers

  /** The code points String.prototype.trim removes: WhiteSpace and
      LineTerminator of ECMA-262 (sections 12.2 and 12.3), the Unicode
      space separators included. */
  const WhiteSpaceCodes: set<int> :=
    {0x09, 0x0A, 0x0B, 0x0C, 0x0D, 0x20, 0xA0, 0x1680, 0x2028, 0x2029, 0x202F, 0x205F, 0x3000, 0xFEFF}
    + (set n | 0x2000 <= n <= 0x200A)

  predicate IsWhiteSpace(c: char) {
    c as int in WhiteSpaceCodes
  }

  /** s[lo..hi] is all white space. */
  predicate WhiteSpaceBetween(s: string, lo: int, hi: int) {
    forall i :: lo <= i < hi && 0 <= i < |s| ==> IsWhiteSpace(s[i])
  }

  predicate AllWhiteSpace(s: string) {
    WhiteSpaceBetween(s, 0, |s|)
  }

  /** The index of the first character at or after i that is not white
      space (|s| if there is none). */
  function SkipStart(s: string, i: nat): (k: nat)
    requires i <= |s|
    ensures i <= k <= |s| && WhiteSpaceBetween(s, i, k)
    ensures k < |s| ==> !IsWhiteSpace(s[k])
    decreases |s| - i
  {
    if i < |s| && IsWhiteSpace(s[i]) then SkipStart(s, i + 1) else i
  }

  /** The end of s[lo..j] once trailing white space is dropped: the index
      just after its last character that is not white space (lo if none). */
  function SkipEnd(s: string, lo: nat, j: nat): (k: nat)
    requires lo <= j <= |s|
    ensures lo <= k <= j && WhiteSpaceBetween(s, k, j)
    ensures k > lo ==> !IsWhiteSpace(s[k - 1])
    decreases j - lo
  {
    if j > lo && IsWhiteSpace(s[j - 1]) then SkipEnd(s, lo, j - 1) else j
  }

  /** r is the infix of s at offset a, with only white space around it. */
  predicate TrimmedInfix(s: string, r: string, a: int) {
    && 0 <= a <= |s| - |r|
    && r == s[a..a + |r|]
    && WhiteSpaceBetween(s, 0, a)
    && WhiteSpaceBetween(s, a + |r|, |s|)
  }

  /** String.prototype.trim: the infix of `s` left after dropping white space
      at both ends. */
  function Trim(s: string): (r: string)
    ensures exists a :: TrimmedInfix(s, r, a)
    ensures r != [] ==> !IsWhiteSpace(r[0]) && !IsWhiteSpace(r[|r| - 1])
  {
    var lo := SkipStart(s, 0);
    var hi := SkipEnd(s, lo, |s|);
    assert TrimmedInfix(s, s[lo..hi], lo);
    s[lo..hi]
  }

  /** The search button's handler: `Some(city)` starts a search for the
      trimmed text, `None` raises the "Please enter a city name." alert. */
  function CityQuery(input: string): (r: Option<string>)
    ensures r.None? <==> AllWhiteSpace(input)
    ensures r.Some? ==> r.value == Trim(input)
  {
    var city := Trim(input);
    TrimEmptyIffBlank(input);
    if city != [] then Some(city) else None
  }

  /** Trimming leaves nothing exactly when the text is all white space. */
  lemma TrimEmptyIffBlank(input: string)
    ensures Trim(input) == [] <==> AllWhiteSpace(input)
  {
    var lo := SkipStart(input, 0);
    var hi := SkipEnd(input, lo, |input|);
    assert Trim(input) == input[lo..hi];
  }

  /** Trimming twice is trimming once, so the searched city is already
      trimmed. */
  lemma TrimIdempotent(s: string)
    ensures Trim(Trim(s)) == Trim(s)
  {
    var r := Trim(s);
    if r != [] {
      assert SkipStart(r, 0) == 0;
      assert SkipEnd(r, 0, |r|) == |r|;
      assert r[0..|r|] == r;
    }
  }
}
