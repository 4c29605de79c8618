/** Python's `str.strip()` with no argument: removes leading and trailing
    characters for which `str.isspace()` holds. */
module PyText {

  /** The characters CPython treats as whitespace (`Py_UNICODE_ISSPACE`). */
  predicate IsSpace(c: char) {
    var k := c as int;
    (0x09 <= k <= 0x0D) || (0x1C <= k <= 0x20) || k == 0x85 || k == 0xA0 ||
    k == 0x1680 || (0x2000 <= k <= 0x200A) || k == 0x2028 || k == 0x2029 ||
    k == 0x202F || k == 0x205F || k == 0x3000
  }

  predicate AllSpace(s: string) {
    forall i :: 0 <= i < |s| ==> IsSpace(s[i])
  }

  /** Number of whitespace characters at the start of s. */
  function LeadingSpaces(s: string): (n: nat)
    ensures n <= |s|
    ensures forall i :: 0 <= i < n ==> IsSpace(s[i])
    ensures n < |s| ==> !IsSpace(s[n])
  {
    if s == [] || !IsSpace(s[0]) then 0 else 1 + LeadingSpaces(s[1..])
  }

  /** Number of whitespace characters at the end of s. */
  function TrailingSpaces(s: string): (n: nat)
    ensures n <= |s|
    ensures forall i :: |s| - n <= i < |s| ==> IsSpace(s[i])
    ensures n < |s| ==> !IsSpace(s[|s| - 1 - n])
  {
    if s == [] || !IsSpace(s[|s| - 1]) then 0 else 1 + TrailingSpaces(s[..|s| - 1])
  }

  /** A way to cut s into whitespace, a kept middle s[lo..hi] that neither
      starts nor ends with whitespace, and whitespace. */
  predicate IsStripCut(s: string, lo: nat, hi: nat) {
    lo <= hi <= |s| &&
    (forall i :: 0 <= i < lo ==> IsSpace(s[i])) &&
    (forall i :: hi <= i < |s| ==> IsSpace(s[i])) &&
    (lo < hi ==> !IsSpace(s[lo]) && !IsSpace(s[hi - 1]))
  }

  /** `s.strip()` */
  function Strip(s: string): (r: string)
    ensures exists lo: nat, hi: nat :: IsStripCut(s, lo, hi) && r == s[lo..hi]
    ensures r == [] <==> AllSpace(s)
  {
    var lo := LeadingSpaces(s);
    if lo == |s| then
      assert IsStripCut(s, |s|, |s|);
      []
    else
      var hi := |s| - TrailingSpaces(s);
      assert IsStripCut(s, lo, hi);
      s[lo..hi]
  }

  /** There is only one strip cut up to its kept part, so the contract of
      Strip determines its result. */
  lemma {:induction false} StripCutUnique(s: string, lo: nat, hi: nat)
    requires IsStripCut(s, lo, hi)
    ensures Strip(s) == s[lo..hi]
  {
    var lo': nat, hi': nat :| IsStripCut(s, lo', hi') && Strip(s) == s[lo'..hi'];
    SameCut(s, lo, hi, lo', hi');
  }

  lemma SameCut(s: string, lo: nat, hi: nat, lo': nat, hi': nat)
    requires IsStripCut(s, lo, hi) && IsStripCut(s, lo', hi')
    ensures s[lo..hi] == s[lo'..hi']
  {
    if lo < hi {
      assert !IsSpace(s[lo]) && !IsSpace(s[hi - 1]);
      assert lo' < hi';
      assert !IsSpace(s[lo']) && !IsSpace(s[hi' - 1]);
      assert lo == lo' && hi == hi';
    } else {
      assert AllSpace(s);
      assert lo' == hi';
    }
  }

  /** Stripping twice is stripping once. */
  lemma {:induction false} StripIdempotent(s: string)
    ensures Strip(Strip(s)) == Strip(s)
  {
    var r := Strip(s);
    StripCutUnique(r, 0, |r|);
  }

  /** A stripped string neither starts nor ends with whitespace. */
  lemma {:induction false} StripTrimmed(s: string)
    ensures var r := Strip(s); r != [] ==> !IsSpace(r[0]) && !IsSpace(r[|r| - 1])
  {
  }
}
