/** The read-only string scanners of kernel/lib/lib.c: strlen, strcmp,
    strncmp, k_strstr and atoi, together with the digit rendering that itoa
    writes (the writers themselves are in LibBuffers).

    A `char *` is modelled by the bytes of memory from the pointer onwards
    (`seq<Byte>`); a C string is such a sequence holding a NUL, and a pointer
    that may be NULL is an `Option`. The scanners only compare bytes for
    equality or against ASCII ranges, where signed and unsigned `char` agree;
    strncmp compares as `unsigned char`, which is what `Byte` holds. */
module Lib {
  import opened Common

  type Byte = b: int | 0 <= b < 256

  const NUL: Byte := 0
  const SPACE: Byte := 32
  const MINUS: Byte := 45
  const ZERO: Byte := 48
  const NINE: Byte := 57
  const LOWER_A: Byte := 97
  const EQUALS: Byte := 61

  /** Memory from a pointer onwards holds a terminated string. */
  predicate Terminated(s: seq<Byte>) { NUL in s }

  /** `strlen`: the number of bytes before the first NUL. */
  function Strlen(s: seq<Byte>): (n: nat)
    requires Terminated(s)
    ensures n < |s| && s[n] == NUL
    ensures forall i | 0 <= i < n :: s[i] != NUL
  {
    if s[0] == NUL then 0 else 1 + Strlen(s[1..])
  }

  /** Strlen is the position of the first NUL. */
  lemma StrlenIs(s: seq<Byte>, n: nat)
    requires n < |s| && s[n] == NUL && forall i | 0 <= i < n :: s[i] != NUL
    ensures Terminated(s) && Strlen(s) == n
  {
  }

  /** The characters of a C string, without its terminator. */
  function Str(s: seq<Byte>): (r: seq<Byte>)
    requires Terminated(s)
    ensures |r| < |s| && NUL !in r && s[..|r|] == r && s[|r|] == NUL
  {
    s[..Strlen(s)]
  }

  /** Bytes i..n-1 of two strings compared one by one, as strcmp's loop does. */
  function CompareFrom(a: seq<Byte>, b: seq<Byte>, i: nat, n: nat): (r: int)
    requires i <= n <= |a| && n <= |b|
    ensures r == 0 || r == -1
    ensures r == 0 <==> a[i..n] == b[i..n]
    decreases n - i
  {
    if i == n then 0
    else if a[i] != b[i] then -1
    else
      var rest := CompareFrom(a, b, i + 1, n);
      assert a[i..n] == [a[i]] + a[i + 1..n] && b[i..n] == [b[i]] + b[i + 1..n];
      rest
  }

  /** `strcmp`: 0 for equal strings and -1 otherwise, never a positive value;
      a difference in length is decided before any byte is compared. */
  function Strcmp(a: seq<Byte>, b: seq<Byte>): (r: int)
    requires Terminated(a) && Terminated(b)
    ensures r == 0 || r == -1
    ensures r == 0 <==> Str(a) == Str(b)
  {
    if Strlen(a) != Strlen(b) then -1 else CompareFrom(a, b, 0, Strlen(a))
  }

  /** The order of two unsigned bytes as strncmp reports it: -1, 0 or 1. */
  function Order(c1: Byte, c2: Byte): (r: int)
    ensures r == -1 <==> c1 < c2
    ensures r == 1 <==> c1 > c2
    ensures r == 0 <==> c1 == c2
  {
    if c1 < c2 then -1 else if c1 > c2 then 1 else 0
  }

  /** The length of the longest common prefix of two strings that holds no
      NUL: at that position the strings differ, or both end. */
  function CommonPrefix(s1: seq<Byte>, s2: seq<Byte>): (k: nat)
    requires Terminated(s1) && Terminated(s2)
    ensures k < |s1| && k < |s2| && s1[..k] == s2[..k]
    ensures forall i | 0 <= i < k :: s1[i] != NUL
    ensures s1[k] != s2[k] || s1[k] == NUL
    decreases |s1|
  {
    if s1[0] != s2[0] || s1[0] == NUL then 0
    else
      var k := 1 + CommonPrefix(s1[1..], s2[1..]);
      assert s1[..k] == [s1[0]] + s1[1..][..k - 1];
      assert s2[..k] == [s2[0]] + s2[1..][..k - 1];
      k
  }

  /** The loop of `strncmp`, entered with `n != 0`: the post-decrement test
      `n-- > 0`, the byte comparison, and the early return at the last byte or
      at a NUL. */
  function StrncmpLoop(s1: seq<Byte>, s2: seq<Byte>, n: int): (r: int)
    requires Terminated(s1) && Terminated(s2)
    ensures r == 0 || r == -1 || r == 1
    decreases |s1|
  {
    if n > 0 && s1[0] == s2[0] then
      if n - 1 == 0 || s1[0] == NUL then 0 else StrncmpLoop(s1[1..], s2[1..], n - 1)
    else Order(s1[0], s2[0])
  }

  /** `strncmp`. In this kernel `size_t` is a signed `int`, so a negative n
      skips the loop and compares the first bytes. */
  function Strncmp(s1: seq<Byte>, s2: seq<Byte>, n: int): (r: int)
    requires Terminated(s1) && Terminated(s2)
    ensures r == 0 || r == -1 || r == 1
  {
    if n == 0 then 0 else StrncmpLoop(s1, s2, n)
  }

  /** strncmp decides on the first n bytes: equal when the strings agree up to
      their common length n or up to a shared terminator, otherwise ordered by
      the first differing unsigned byte. */
  lemma {:induction false} StrncmpSpec(s1: seq<Byte>, s2: seq<Byte>, n: int)
    requires Terminated(s1) && Terminated(s2) && n > 0
    ensures var k := CommonPrefix(s1, s2);
      Strncmp(s1, s2, n) == if k >= n then 0 else Order(s1[k], s2[k])
    decreases |s1|
  {
    if s1[0] == s2[0] && n - 1 != 0 && s1[0] != NUL {
      StrncmpSpec(s1[1..], s2[1..], n - 1);
    }
  }

  /** A negative count compares the first bytes only. */
  lemma StrncmpNegative(s1: seq<Byte>, s2: seq<Byte>, n: int)
    requires Terminated(s1) && Terminated(s2) && n < 0
    ensures Strncmp(s1, s2, n) == Order(s1[0], s2[0])
  {
  }

  /** The strings agree at the end of their common prefix exactly when they
      are equal, both ending there. */
  lemma CommonPrefixEqual(a: seq<Byte>, b: seq<Byte>)
    requires Terminated(a) && Terminated(b)
    ensures var k := CommonPrefix(a, b); a[k] == b[k] <==> Str(a) == Str(b)
  {
    var k := CommonPrefix(a, b);
    if a[k] == b[k] {
      assert Strlen(a) == k;
      assert Strlen(b) == k;
    }
    if Str(a) == Str(b) {
      var n := Strlen(a);
      assert a[..n + 1] == b[..n + 1] by {
        assert a[..n + 1] == Str(a) + [NUL] && b[..n + 1] == Str(b) + [NUL];
      }
      assert k <= n;
      assert a[k] == a[..n + 1][k];
    }
  }

  /** strcmp and strncmp agree on equality when strncmp is allowed to look at
      the whole first string and its terminator. */
  lemma StrcmpIsStrncmp(a: seq<Byte>, b: seq<Byte>)
    requires Terminated(a) && Terminated(b)
    ensures Strcmp(a, b) == 0 <==> Strncmp(a, b, Strlen(a) + 1) == 0
  {
    CommonPrefixEqual(a, b);
    StrncmpSpec(a, b, Strlen(a) + 1);
  }

  /** Needle string `nd` occurs in haystack string `h` at position p. */
  predicate Occurs(h: seq<Byte>, nd: seq<Byte>, p: nat)
    requires Terminated(h) && Terminated(nd)
  {
    p + Strlen(nd) <= Strlen(h) && h[p..p + Strlen(nd)] == Str(nd)
  }

  /** An occurrence matches the haystack at every position of the needle. */
  lemma OccursMatches(h: seq<Byte>, nd: seq<Byte>, p: nat, j: nat)
    requires Terminated(h) && Terminated(nd) && j < Strlen(nd)
    ensures Occurs(h, nd, p) ==> h[p + j] == nd[j]
  {
    if Occurs(h, nd, p) {
      assert h[p..p + Strlen(nd)][j] == nd[j];
    }
  }

  /** k_strstr's inner loop: advance through the needle while its bytes match
      the haystack from p; true when the needle's terminator is reached. */
  function MatchFrom(h: seq<Byte>, nd: seq<Byte>, p: nat, j: nat): (m: bool)
    requires Terminated(h) && Terminated(nd)
    requires j <= Strlen(nd) && p + j <= Strlen(h)
    requires h[p..p + j] == nd[..j]
    ensures m <==> Occurs(h, nd, p)
    decreases Strlen(nd) - j
  {
    if nd[j] == NUL then true
    else if nd[j] != h[p + j] then
      OccursMatches(h, nd, p, j);
      false
    else
      assert p + j < Strlen(h);
      assert h[p..p + j + 1] == h[p..p + j] + [h[p + j]];
      assert nd[..j + 1] == nd[..j] + [nd[j]];
      MatchFrom(h, nd, p, j + 1)
  }

  /** k_strstr's outer loop from position p of the haystack. */
  function SearchFrom(h: seq<Byte>, nd: seq<Byte>, p: nat): (r: Option<nat>)
    requires Terminated(h) && Terminated(nd) && p <= Strlen(h)
    ensures r.Some? ==> p <= r.value < Strlen(h) && Occurs(h, nd, r.value)
    ensures forall q | p <= q < (if r.Some? then r.value else Strlen(h)) :: !Occurs(h, nd, q)
    decreases Strlen(h) - p
  {
    if h[p] == NUL then None
    else if MatchFrom(h, nd, p, 0) then Some(p)
    else SearchFrom(h, nd, p + 1)
  }

  /** `k_strstr`: the offset into the haystack of the result, None for NULL. */
  function KStrstr(haystack: Option<seq<Byte>>, needle: Option<seq<Byte>>): (r: Option<nat>)
    requires haystack.Some? ==> Terminated(haystack.value)
    requires needle.Some? ==> Terminated(needle.value)
  {
    if needle.None? then (if haystack.None? then None else Some(0))
    else if haystack.None? then None
    else SearchFrom(haystack.value, needle.value, 0)
  }

  /** With both strings present, k_strstr finds the first occurrence that
      starts before the haystack's terminator, and NULL when there is none;
      in particular an empty haystack always gives NULL, even for an empty
      needle. A NULL needle gives back the haystack, a NULL haystack NULL. */
  lemma StrstrSpec(haystack: Option<seq<Byte>>, needle: Option<seq<Byte>>)
    requires haystack.Some? ==> Terminated(haystack.value)
    requires needle.Some? ==> Terminated(needle.value)
    ensures needle.None? ==> KStrstr(haystack, needle) == (if haystack.None? then None else Some(0))
    ensures needle.Some? && haystack.None? ==> KStrstr(haystack, needle) == None
    ensures needle.Some? && haystack.Some? ==>
      var h, nd, r := haystack.value, needle.value, KStrstr(haystack, needle);
      (r.Some? <==> exists q | 0 <= q < Strlen(h) :: Occurs(h, nd, q)) &&
      (r.Some? ==> r.value < Strlen(h) && Occurs(h, nd, r.value) &&
                   forall q | 0 <= q < r.value :: !Occurs(h, nd, q))
    ensures needle.Some? && haystack.Some? && Strlen(haystack.value) == 0 ==> KStrstr(haystack, needle) == None
  {
  }

  predicate IsDigit(c: Byte) { ZERO <= c <= NINE }

  /** The index of the first byte at or after i that is not a space. */
  function SkipSpaces(s: seq<Byte>, i: nat): (j: nat)
    requires Terminated(s) && i <= Strlen(s)
    ensures i <= j <= Strlen(s) && s[j] != SPACE
    ensures forall k | i <= k < j :: s[k] == SPACE
    decreases Strlen(s) - i
  {
    if s[i] == SPACE then SkipSpaces(s, i + 1) else i
  }

  /** atoi's digit loop: `result = result * 10 + digit` on a signed `int`,
      whose overflow C leaves undefined. */
  function Accumulate(s: seq<Byte>, i: nat, acc: int): (r: Outcome<int>)
    requires Terminated(s) && i <= Strlen(s)
    decreases Strlen(s) - i
  {
    if IsDigit(s[i]) then
      var next := acc * 10 + (s[i] - ZERO);
      if !IsInt32(next) then Undefined("signed overflow in atoi") else Accumulate(s, i + 1, next)
    else Returns(acc)
  }

  /** `atoi`: 0 for NULL; otherwise leading spaces are skipped and decimal
      digits accumulated. A sign is not a digit, so "-5" and "+5" give 0. */
  function Atoi(nptr: Option<seq<Byte>>): (r: Outcome<int>)
    requires nptr.Some? ==> Terminated(nptr.value)
  {
    if nptr.None? then Returns(0) else Accumulate(nptr.value, SkipSpaces(nptr.value, 0), 0)
  }

  /** The character itoa writes for a digit value below 16. */
  function DigitChar(v: nat): (c: Byte)
    requires v < 16
    ensures v < 10 ==> IsDigit(c) && c - ZERO == v
  {
    if v < 10 then ZERO + v else LOWER_A + v - 10
  }

  /** The digits of `ud` in radix `div`, most significant first. */
  function Digits(ud: nat, div: nat): (r: seq<Byte>)
    requires 2 <= div <= 16
    ensures |r| >= 1
    decreases ud
  {
    if ud < div then [DigitChar(ud)] else Digits(ud / div, div) + [DigitChar(ud % div)]
  }

  /** The value of a sequence of decimal digits, most significant first. */
  function DecimalValue(ds: seq<Byte>): (v: nat)
    requires forall i | 0 <= i < |ds| :: IsDigit(ds[i])
  {
    if ds == [] then 0
    else
      var last := ds[|ds| - 1];
      assert IsDigit(last);
      DecimalValue(ds[..|ds| - 1]) * 10 + (last - ZERO)
  }

  /** The text `itoa(buf, base, d)` leaves in buf, without its terminator:
      under 'd' a negative number gets '-' and its magnitude; under 'x' the
      32-bit unsigned value in lowercase hex; under any other base the 32-bit
      unsigned value in decimal. Under 'd' the most negative `int` has no
      representable magnitude (`-d` overflows), which C leaves undefined. */
  function ItoaText(base: int, d: int): (r: Outcome<seq<Byte>>)
    requires IsInt32(d)
  {
    if base == 'd' as int && d < 0 then
      if d == -0x8000_0000 then Undefined("signed overflow in -d")
      else Returns([MINUS] + Digits(-d, 10))
    else Returns(Digits(U32(d), if base == 'x' as int then 16 else 10))
  }

  /** Decimal digits read back as the number they were rendered from. */
  lemma {:induction false} DecimalDigitsValue(n: nat)
    ensures forall i | 0 <= i < |Digits(n, 10)| :: IsDigit(Digits(n, 10)[i])
    ensures DecimalValue(Digits(n, 10)) == n
    decreases n
  {
    if n >= 10 {
      DecimalDigitsValue(n / 10);
      var ds := Digits(n, 10);
      assert ds[..|ds| - 1] == Digits(n / 10, 10);
    }
  }

  /** The value of a prefix of a digit string never exceeds the value of the
      whole. */
  lemma {:induction false} PrefixValueBound(ds: seq<Byte>, j: nat)
    requires forall i | 0 <= i < |ds| :: IsDigit(ds[i])
    requires j <= |ds|
    ensures DecimalValue(ds[..j]) <= DecimalValue(ds)
    decreases |ds|
  {
    if j < |ds| {
      var init := ds[..|ds| - 1];
      assert ds[..j] == init[..j];
      PrefixValueBound(init, j);
    } else {
      assert ds[..j] == ds;
    }
  }

  /** atoi's loop over a run of digits that ends at a non-digit returns their
      value, as long as that value is an `int`. */
  lemma {:induction false} AccumulateDigits(s: seq<Byte>, i: nat, ds: seq<Byte>, j: nat)
    requires Terminated(s) && i + |ds| <= Strlen(s) && !IsDigit(s[i + |ds|])
    requires s[i..i + |ds|] == ds
    requires forall k | 0 <= k < |ds| :: IsDigit(ds[k])
    requires j <= |ds| && DecimalValue(ds) < 0x8000_0000
    ensures Accumulate(s, i + j, DecimalValue(ds[..j])) == Returns(DecimalValue(ds))
    decreases |ds| - j
  {
    if j == |ds| {
      assert ds[..j] == ds;
    } else {
      assert s[i + j] == ds[j];
      assert ds[..j + 1][..j] == ds[..j];
      PrefixValueBound(ds, j + 1);
      AccumulateDigits(s, i, ds, j + 1);
    }
  }

  /** Round trip: atoi reads back what itoa writes for every non-negative
      `int`, under 'd' or any decimal base. */
  lemma AtoiReadsItoa(base: int, n: int)
    requires 0 <= n < 0x8000_0000 && base != 'x' as int
    ensures ItoaText(base, n).Returns?
    ensures Atoi(Some(ItoaText(base, n).value + [NUL])) == Returns(n)
  {
    var ds := Digits(n, 10);
    assert ItoaText(base, n) == Returns(ds);
    DecimalDigitsValue(n);
    var s := ds + [NUL];
    assert Str(s) == ds by {
      assert s[|ds|] == NUL;
      StrlenOfDigits(s, ds);
    }
    assert SkipSpaces(s, 0) == 0 by {
      assert IsDigit(s[0]);
    }
    assert s[0..|ds|] == ds;
    assert ds[..0] == [];
    AccumulateDigits(s, 0, ds, 0);
  }

  lemma StrlenOfDigits(s: seq<Byte>, ds: seq<Byte>)
    requires s == ds + [NUL]
    requires forall i | 0 <= i < |ds| :: IsDigit(ds[i])
    ensures Terminated(s) && Strlen(s) == |ds|
  {
    assert s[|ds|] == NUL;
    assert forall i | 0 <= i < |ds| :: s[i] != NUL;
  }

  /** A sign in front of the digits stops atoi at once. */
  lemma AtoiIgnoresSign(n: int)
    requires -0x8000_0000 < n < 0
    ensures Atoi(Some(ItoaText('d' as int, n).value + [NUL])) == Returns(0)
  {
    var s := ItoaText('d' as int, n).value + [NUL];
    assert s[0] == MINUS;
  }
}
