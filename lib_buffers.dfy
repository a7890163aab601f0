/** The writers of kernel/lib/lib.c: memcpy, memset, k_strncpy, strcpy_s,
    itoa and k_getArg, each filling a destination buffer in a loop. The
    destination is an array of bytes; source strings are read-only memory
    (`seq<Byte>` as in Lib). */
module LibBuffers {
  import opened Common
  import opened Lib

  /** `memcpy`: the first `count` bytes of dest become those of src. */
  method Memcpy(dest: array<Byte>, src: seq<Byte>, count: int)
    requires 0 <= count <= dest.Length && count <= |src|
    modifies dest
    ensures dest[..count] == src[..count] && dest[count..] == old(dest[count..])
  {
    var c, i := count, 0;
    while c != 0
      invariant 0 <= i <= count && c == count - i
      invariant dest[..i] == src[..i] && dest[count..] == old(dest[count..])
    {
      dest[i] := src[i];
      i, c := i + 1, c - 1;
    }
  }

  /** `memset`: the first `count` bytes of dest become `val`. */
  method Memset(dest: array<Byte>, val: Byte, count: int)
    requires 0 <= count <= dest.Length
    modifies dest
    ensures forall i | 0 <= i < count :: dest[i] == val
    ensures dest[count..] == old(dest[count..])
  {
    var c, i := count, 0;
    while c != 0
      invariant 0 <= i <= count && c == count - i
      invariant forall k | 0 <= k < i :: dest[k] == val
      invariant dest[count..] == old(dest[count..])
    {
      dest[i] := val;
      i, c := i + 1, c - 1;
    }
  }

  function Min(a: int, b: int): int { if a < b then a else b }

  /** The n bytes k_strncpy leaves in dest: the string's characters, cut at n,
      then NUL bytes up to n. */
  function StrncpyImage(src: seq<Byte>, n: nat): (r: seq<Byte>)
    requires Terminated(src)
    ensures |r| == n
  {
    var m := Min(Strlen(src), n);
    src[..m] + seq(n - m, _ => NUL)
  }

  /** A string of n characters or more fills all n bytes and leaves them
      unterminated; a shorter one is copied whole and terminated. */
  lemma StrncpyTermination(src: seq<Byte>, n: nat)
    requires Terminated(src)
    ensures Strlen(src) >= n ==> NUL !in StrncpyImage(src, n)
    ensures Strlen(src) < n ==> Terminated(StrncpyImage(src, n)) && Str(StrncpyImage(src, n)) == Str(src)
  {
    var r := StrncpyImage(src, n);
    if Strlen(src) < n {
      var m := Strlen(src);
      assert r[m] == NUL;
      assert forall i | 0 <= i < m :: r[i] == src[i];
      assert Strlen(r) == m;
    } else {
      assert r == src[..n];
      assert forall i | 0 <= i < n :: r[i] == src[i];
    }
  }

  /** `k_strncpy` */
  method KStrncpy(dest: array<Byte>, src: seq<Byte>, n: int)
    requires Terminated(src) && 0 <= n <= dest.Length
    modifies dest
    ensures dest[..n] == StrncpyImage(src, n) && dest[n..] == old(dest[n..])
  {
    var i, left := 0, n;
    while src[i] != NUL && left != 0
      invariant 0 <= i <= n && left == n - i && i <= Strlen(src)
      invariant dest[..i] == src[..i] && dest[n..] == old(dest[n..])
      decreases left
    {
      dest[i] := src[i];
      i, left := i + 1, left - 1;
    }
    assert i == Min(Strlen(src), n);
    ghost var m := i;
    while left != 0
      invariant m <= i <= n && left == n - i
      invariant dest[..m] == src[..m] && dest[n..] == old(dest[n..])
      invariant forall k | m <= k < i :: dest[k] == NUL
      decreases left
    {
      dest[i] := NUL;
      i, left := i + 1, left - 1;
    }
    assert dest[..n] == dest[..m] + dest[m..n];
  }

  /** The number of characters strcpy_s copies: the pre-decrement `--destlen`
      stops it after destlen-1 characters; a destlen of 0 or less never
      reaches 0, so the whole string is copied. */
  function StrcpySCount(src: seq<Byte>, destlen: int): (c: nat)
    requires Terminated(src)
    ensures c <= Strlen(src)
    ensures destlen >= 1 ==> c == Min(Strlen(src), destlen - 1)
  {
    if destlen >= 1 then Min(Strlen(src), destlen - 1) else Strlen(src)
  }

  /** `strcpy_s`: copy, then always terminate. */
  method StrcpyS(dest: array<Byte>, destlen: int, src: seq<Byte>)
    requires Terminated(src) && StrcpySCount(src, destlen) < dest.Length
    modifies dest
    ensures var c := StrcpySCount(src, destlen);
      dest[..c] == src[..c] && dest[c] == NUL && dest[c + 1..] == old(dest[c + 1..])
  {
    var i, left := 0, destlen;
    ghost var c := StrcpySCount(src, destlen);
    while true
      invariant 0 <= i <= c && left == destlen - i
      invariant destlen >= 1 ==> left >= 1
      invariant dest[..i] == src[..i] && dest[c + 1..] == old(dest[c + 1..])
      decreases Strlen(src) - i
    {
      if src[i] == NUL {
        break;
      }
      left := left - 1;
      if left == 0 {
        break;
      }
      dest[i] := src[i];
      i := i + 1;
    }
    dest[i] := NUL;
  }

  /** For a destination of destlen >= 1 bytes, strcpy_s leaves a terminated
      prefix of the source of at most destlen-1 characters. */
  lemma StrcpySFits(src: seq<Byte>, destlen: int)
    requires Terminated(src) && destlen >= 1
    ensures StrcpySCount(src, destlen) + 1 <= destlen
    ensures StrcpySCount(src, destlen) == Strlen(src) || StrcpySCount(src, destlen) == destlen - 1
  {
  }

  /** A sequence in reverse order. */
  function Rev(s: seq<Byte>): (r: seq<Byte>)
    ensures |r| == |s|
  {
    if s == [] then [] else Rev(s[1..]) + [s[0]]
  }

  lemma {:induction false} RevAt(s: seq<Byte>, k: nat)
    requires k < |s|
    ensures Rev(s)[k] == s[|s| - 1 - k]
  {
    if k < |s| - 1 {
      RevAt(s[1..], k);
    }
  }

  /** A sequence that holds w's elements back to front is Rev(w). */
  lemma RevPointwise(a: seq<Byte>, w: seq<Byte>)
    requires |a| == |w| && forall i | 0 <= i < |a| :: a[i] == w[|w| - 1 - i]
    ensures a == Rev(w)
  {
    forall k | 0 <= k < |a|
      ensures a[k] == Rev(w)[k]
    {
      RevAt(w, k);
    }
  }

  lemma RevSnoc(s: seq<Byte>, c: Byte)
    ensures Rev(s + [c]) == [c] + Rev(s)
  {
    forall k | 0 <= k < |s| + 1
      ensures Rev(s + [c])[k] == ([c] + Rev(s))[k]
    {
      RevAt(s + [c], k);
      if k > 0 {
        RevAt(s, k - 1);
      }
    }
  }

  /** The digits of ud in radix div, or nothing for 0: what is still to be
      emitted when itoa's loop has divided ud down to this value. */
  function Pending(ud: nat, div: nat): seq<Byte>
    requires 2 <= div <= 16
  {
    if ud == 0 then [] else Digits(ud, div)
  }

  lemma {:induction false} DigitStep(ud: nat, div: nat)
    requires 2 <= div <= 16
    ensures Digits(ud, div) == Pending(ud / div, div) + [DigitChar(ud % div)]
  {
    SmallQuotient(ud, div);
    if ud >= div {
      assert Pending(ud / div, div) == Digits(ud / div, div);
    }
  }

  lemma SmallQuotient(ud: nat, div: nat)
    requires 2 <= div
    ensures ud < div ==> ud / div == 0 && ud % div == ud
    ensures ud >= div ==> ud / div >= 1
  {
    var q, m := ud / div, ud % div;
    assert ud == q * div + m && 0 <= m < div;
    if q >= 1 {
      assert q * div >= div;
    }
  }

  lemma DivShrinks(ud: nat, div: nat)
    requires 2 <= div && ud > 0
    ensures ud / div < ud
  {
    var q := ud / div;
    assert q * div <= ud;
    assert q * div == q * 2 + q * (div - 2);
  }

  /** The state of itoa's reversal loop over b[lo..hi], which held w: the
      ends outside p1..p2 are swapped, the middle is untouched, and nothing
      outside lo..hi has changed since orig. */
  ghost predicate HalfReversed(b: seq<Byte>, orig: seq<Byte>, w: seq<Byte>, lo: int, hi: int, p1: int, p2: int)
  {
    0 <= lo <= hi <= |b| == |orig| && |w| == hi - lo &&
    lo <= p1 <= hi && lo - 1 <= p2 < hi && p1 + p2 == lo + hi - 1 &&
    b[..lo] == orig[..lo] && b[hi..] == orig[hi..] &&
    forall i | lo <= i < hi :: b[i] == if p1 <= i <= p2 then w[i - lo] else w[hi - 1 - i]
  }

  lemma SwapStep(b: seq<Byte>, orig: seq<Byte>, w: seq<Byte>, lo: int, hi: int, p1: int, p2: int)
    requires HalfReversed(b, orig, w, lo, hi, p1, p2) && p1 < p2
    ensures HalfReversed(b[p1 := b[p2]][p2 := b[p1]], orig, w, lo, hi, p1 + 1, p2 - 1)
  {
    var c := b[p1 := b[p2]][p2 := b[p1]];
    assert c[..lo] == b[..lo];
    assert c[hi..] == b[hi..];
  }

  lemma SwapDone(b: seq<Byte>, orig: seq<Byte>, w: seq<Byte>, lo: int, hi: int, p1: int, p2: int)
    requires HalfReversed(b, orig, w, lo, hi, p1, p2) && p1 >= p2
    ensures b[lo..hi] == Rev(w)
  {
    RevPointwise(b[lo..hi], w);
  }

  /** The in-place reversal at the end of itoa: p1 and p2 walk towards each
      other, swapping. */
  method ReverseRange(buf: array<Byte>, lo: int, hi: int)
    requires 0 <= lo <= hi <= buf.Length
    modifies buf
    ensures buf[lo..hi] == Rev(old(buf[lo..hi]))
    ensures buf[..lo] == old(buf[..lo]) && buf[hi..] == old(buf[hi..])
  {
    ghost var w, orig := buf[lo..hi], buf[..];
    var p1, p2 := lo, hi - 1;
    while p1 < p2
      invariant HalfReversed(buf[..], orig, w, lo, hi, p1, p2)
      decreases p2 - p1
    {
      ghost var b := buf[..];
      SwapStep(b, orig, w, lo, hi, p1, p2);
      var tmp := buf[p1];
      buf[p1] := buf[p2];
      buf[p2] := tmp;
      assert buf[..] == b[p1 := b[p2]][p2 := b[p1]];
      p1, p2 := p1 + 1, p2 - 1;
    }
    SwapDone(buf[..], orig, w, lo, hi, p1, p2);
    assert buf[lo..hi] == buf[..][lo..hi];
  }

  /** itoa's do-while loop: the digits of ud, least significant first, from
      buf[start] on; it returns the position after the last one. */
  method EmitDigits(buf: array<Byte>, start: nat, ud0: nat, divisor: nat) returns (p: nat)
    requires 2 <= divisor <= 16 && start + |Digits(ud0, divisor)| <= buf.Length
    modifies buf
    ensures p == start + |Digits(ud0, divisor)|
    ensures Rev(buf[start..p]) == Digits(ud0, divisor)
    ensures buf[..start] == old(buf[..start]) && buf[p..] == old(buf[p..])
  {
    ghost var digits := Digits(ud0, divisor);
    var ud: nat := ud0;
    p := start;
    // the body runs once before the test, as in a do-while
    EmitStep(digits, ud, divisor, buf[start..p]);
    buf[p] := DigitChar(ud % divisor);
    p, ud := p + 1, ud / divisor;
    while ud != 0
      invariant start < p <= start + |digits|
      invariant digits == Pending(ud, divisor) + Rev(buf[start..p])
      invariant buf[..start] == old(buf[..start]) && buf[start + |digits|..] == old(buf[start + |digits|..])
      decreases ud
    {
      assert Pending(ud, divisor) == Digits(ud, divisor);
      EmitStep(digits, ud, divisor, buf[start..p]);
      var c := DigitChar(ud % divisor);
      buf[p] := c;
      assert buf[start..p + 1] == buf[start..p] + [c];
      p, ud := p + 1, ud / divisor;
    }
  }

  /** One pass of itoa's do-while loop: the digit for ud % div joins the
      emitted ones and ud / div is what remains. */
  lemma {:induction false} EmitStep(digits: seq<Byte>, ud: nat, div: nat, done: seq<Byte>)
    requires 2 <= div <= 16 && digits == Digits(ud, div) + Rev(done)
    ensures ud != 0 ==> ud / div < ud
    ensures |done| < |digits|
    ensures digits == Pending(ud / div, div) + Rev(done + [DigitChar(ud % div)])
  {
    DigitStep(ud, div);
    if ud != 0 {
      DivShrinks(ud, div);
    }
    RevSnoc(done, DigitChar(ud % div));
  }

  /** A buffer holding pre, then dig, then a NUL starts with their
      concatenation. */
  lemma Assemble(a: seq<Byte>, start: nat, p: nat, pre: seq<Byte>, dig: seq<Byte>)
    requires start <= p < |a| && a[..start] == pre && a[start..p] == dig && a[p] == NUL
    ensures a[..p + 1] == pre + dig + [NUL]
  {
    assert a[..p + 1] == a[..start] + a[start..p] + [a[p]];
  }

  /** `itoa(buf, base, d)`: buf receives ItoaText(base, d) and a NUL. */
  method Itoa(buf: array<Byte>, base: int, d: int) returns (r: Outcome<()>)
    requires IsInt32(d)
    requires ItoaText(base, d).Returns? ==> |ItoaText(base, d).value| < buf.Length
    modifies buf
    ensures r.Undefined? <==> ItoaText(base, d).Undefined?
    ensures r.Undefined? ==> buf[..] == old(buf[..])
    ensures r.Returns? ==> var t := ItoaText(base, d).value;
      buf[..|t| + 1] == t + [NUL] && buf[|t| + 1..] == old(buf[|t| + 1..])
  {
    var start := 0;
    var ud: nat, divisor := 0, 10;
    if base == 'd' as int && d < 0 {
      if d == -0x8000_0000 {
        return Undefined("signed overflow in -d");
      }
      buf[0] := MINUS;
      start := 1;
      ud := -d;
    } else {
      ud := U32(d);
      if base == 'x' as int {
        divisor := 16;
      }
    }
    ghost var t, pre, tail := ItoaText(base, d).value, buf[..start], old(buf[..]);
    assert t == pre + Digits(ud, divisor);
    var p := EmitDigits(buf, start, ud, divisor);
    ghost var emitted := buf[start..p];
    assert buf[p + 1..] == tail[p + 1..];
    buf[p] := NUL;
    assert buf[start..p] == emitted && buf[..start] == pre && buf[p + 1..] == tail[p + 1..];
    ReverseRange(buf, start, p);
    Assemble(buf[..], start, p, pre, Digits(ud, divisor));
    r := Returns(());
  }

  /** "arg=" starts at position p of the command line. */
  predicate KeyAt(cmdline: seq<Byte>, arg: seq<Byte>, p: nat)
    requires Terminated(cmdline) && Terminated(arg)
  {
    p + Strlen(arg) < Strlen(cmdline) && cmdline[p..p + Strlen(arg)] == Str(arg) &&
    cmdline[p + Strlen(arg)] == EQUALS
  }

  /** The first position at or after p, before the terminator, where "arg="
      starts; a match may begin in the middle of a word. */
  function FirstKey(cmdline: seq<Byte>, arg: seq<Byte>, p: nat): (r: Option<nat>)
    requires Terminated(cmdline) && Terminated(arg) && p <= Strlen(cmdline)
    ensures r.Some? ==> p <= r.value < Strlen(cmdline) && KeyAt(cmdline, arg, r.value)
    ensures forall q | p <= q < (if r.Some? then r.value else Strlen(cmdline)) :: !KeyAt(cmdline, arg, q)
    decreases Strlen(cmdline) - p
  {
    if p == Strlen(cmdline) then None
    else if KeyAt(cmdline, arg, p) then Some(p)
    else FirstKey(cmdline, arg, p + 1)
  }

  /** The length of the value that starts at v: up to the next space or the
      end of the command line. */
  function ValueLen(cmdline: seq<Byte>, v: nat): (n: nat)
    requires Terminated(cmdline) && v <= Strlen(cmdline)
    ensures v + n <= Strlen(cmdline)
    ensures forall i | v <= i < v + n :: cmdline[i] != SPACE && cmdline[i] != NUL
    ensures v + n == Strlen(cmdline) || cmdline[v + n] == SPACE
    decreases Strlen(cmdline) - v
  {
    if cmdline[v] == NUL || cmdline[v] == SPACE then 0 else 1 + ValueLen(cmdline, v + 1)
  }

  /** The string k_getArg leaves in dest, or None when it returns NULL: the
      value after the first "arg=", cut to destlen-1 characters. */
  function GetArgValue(cmdline: Option<seq<Byte>>, destlen: int, arg: Option<seq<Byte>>): (r: Option<seq<Byte>>)
    requires cmdline.Some? ==> Terminated(cmdline.value)
    requires arg.Some? ==> Terminated(arg.value)
  {
    if cmdline.None? || arg.None? || Strlen(arg.value) == 0 then None
    else
      var key := FirstKey(cmdline.value, arg.value, 0);
      if key.None? then None
      else Some(ValueAt(cmdline.value, destlen, key.value + Strlen(arg.value) + 1))
  }

  /** The value starting at v, cut to destlen-1 characters. */
  function ValueAt(cmdline: seq<Byte>, destlen: int, v: nat): (r: seq<Byte>)
    requires Terminated(cmdline) && v <= Strlen(cmdline)
    ensures |r| == Min(ValueLen(cmdline, v), if destlen > 1 then destlen - 1 else 0)
    ensures v + |r| <= |cmdline| && r == cmdline[v..v + |r|]
  {
    cmdline[v..v + Min(ValueLen(cmdline, v), if destlen > 1 then destlen - 1 else 0)]
  }

  /** The value k_getArg returns is what follows the first "arg=", holds no
      space and no NUL, and fits a buffer of destlen bytes with its
      terminator. */
  lemma {:induction false} GetArgValueSpec(cmdline: seq<Byte>, destlen: int, arg: seq<Byte>)
    requires Terminated(cmdline) && Terminated(arg) && Strlen(arg) > 0
    ensures var r := GetArgValue(Some(cmdline), destlen, Some(arg));
      r.Some? <==> exists p | 0 <= p < Strlen(cmdline) :: KeyAt(cmdline, arg, p)
    ensures var r := GetArgValue(Some(cmdline), destlen, Some(arg));
      r.Some? ==> SPACE !in r.value && NUL !in r.value
    ensures var r := GetArgValue(Some(cmdline), destlen, Some(arg));
      r.Some? ==> |r.value| <= (if destlen > 1 then destlen - 1 else 0)
  {
    var key := FirstKey(cmdline, arg, 0);
    if key.None? {
      assert forall q | 0 <= q < Strlen(cmdline) :: !KeyAt(cmdline, arg, q);
    } else {
      GetArgAt(Some(cmdline), destlen, Some(arg), key.value);
      var v := key.value + Strlen(arg) + 1;
      var r := ValueAt(cmdline, destlen, v);
      assert forall i | 0 <= i < |r| :: r[i] == cmdline[v + i];
    }
  }

  /** A key is found inside a word: "xdebug=1" answers "debug" with "1". */
  lemma GetArgInsideWord()
    ensures GetArgValue(Some([120, 100, 101, 98, 117, 103, 61, 49, 0]), 8, Some([100, 101, 98, 117, 103, 0]))
      == Some([49])
  {
    var cmd: seq<Byte> := [120, 100, 101, 98, 117, 103, 61, 49, 0];
    var arg: seq<Byte> := [100, 101, 98, 117, 103, 0];
    StrlenIs(arg, 5);
    StrlenIs(cmd, 8);
    assert Str(arg) == arg[..5];
    assert !KeyAt(cmd, arg, 0) by {
      assert cmd[0..5][0] != Str(arg)[0];
    }
    assert cmd[1..6] == arg[..5];
    assert FirstKey(cmd, arg, 0) == Some(1);
    GetArgAt(Some(cmd), 8, Some(arg), 1);
    assert ValueLen(cmd, 8) == 0;
    assert ValueLen(cmd, 7) == 1;
    assert ValueAt(cmd, 8, 7) == [49];
  }

  /** strncmp over n bytes of a string of at least n characters is 0 exactly
      when the first string starts with those n characters. */
  lemma StrncmpPrefix(s1: seq<Byte>, s2: seq<Byte>, n: nat)
    requires Terminated(s1) && Terminated(s2) && 0 < n <= Strlen(s2)
    ensures Strncmp(s1, s2, n) == 0 <==> n <= |s1| && s1[..n] == s2[..n]
    ensures Strncmp(s1, s2, n) == 0 ==> n <= Strlen(s1)
  {
    StrncmpSpec(s1, s2, n);
    var k := CommonPrefix(s1, s2);
    if k < n {
      assert s2[k] != NUL && s2[..n][k] == s2[k];
      assert n <= |s1| ==> s1[..n][k] == s1[k];
    } else {
      assert s1[..n] == s1[..k][..n];
    }
  }

  /** The copy loop of k_getArg: value bytes from v while neither a NUL nor a
      space is reached and more than one byte of dest is left, then the
      terminator. */
  method CopyValue(dest: array<Byte>, cmd: seq<Byte>, v: nat, destlen: int) returns (n: nat)
    requires Terminated(cmd) && v <= Strlen(cmd) && 1 <= dest.Length && destlen <= dest.Length
    modifies dest
    ensures n == Min(ValueLen(cmd, v), if destlen > 1 then destlen - 1 else 0)
    ensures dest[..n] == cmd[v..v + n] && dest[n] == NUL && dest[n + 1..] == old(dest[n + 1..])
  {
    ghost var m := Min(ValueLen(cmd, v), if destlen > 1 then destlen - 1 else 0);
    var ptr, j, left := v, 0, destlen;
    while cmd[ptr] != NUL && cmd[ptr] != SPACE && left > 1
      invariant 0 <= j <= m && ptr == v + j && left == destlen - j
      invariant dest[..j] == cmd[v..v + j] && dest[m + 1..] == old(dest[m + 1..])
      decreases m - j
    {
      dest[j] := cmd[ptr];
      j, ptr, left := j + 1, ptr + 1, left - 1;
    }
    dest[j] := NUL;
    n := j;
  }

  /** The search loop of k_getArg at one position: strncmp over the key's
      length and the '=' after it decide KeyAt. */
  lemma KeyTest(cmd: seq<Byte>, a: seq<Byte>, ptr: nat)
    requires Terminated(cmd) && Terminated(a) && ptr < Strlen(cmd) && Strlen(a) > 0
    ensures var len := Strlen(a);
      Strncmp(cmd[ptr..], a, len) == 0 ==> ptr + len <= Strlen(cmd)
    ensures var len := Strlen(a);
      (Strncmp(cmd[ptr..], a, len) == 0 && cmd[ptr + len] == EQUALS) <==> KeyAt(cmd, a, ptr)
  {
    var len := Strlen(a);
    SuffixStrlen(cmd, ptr);
    StrncmpPrefix(cmd[ptr..], a, len);
    if Strncmp(cmd[ptr..], a, len) == 0 {
      KeyMatched(cmd, a, ptr);
    }
    if KeyAt(cmd, a, ptr) {
      KeyMatches(cmd, a, ptr);
    }
  }

  /** A strncmp match at ptr lies within the string and is the key. */
  lemma KeyMatched(cmd: seq<Byte>, a: seq<Byte>, ptr: nat)
    requires Terminated(cmd) && Terminated(a) && ptr < Strlen(cmd) && Strlen(a) > 0
    requires Terminated(cmd[ptr..]) && Strlen(cmd[ptr..]) == Strlen(cmd) - ptr
    requires Strlen(a) <= Strlen(cmd[ptr..]) && cmd[ptr..][..Strlen(a)] == a[..Strlen(a)]
    ensures ptr + Strlen(a) <= Strlen(cmd) && cmd[ptr..ptr + Strlen(a)] == Str(a)
  {
    var len := Strlen(a);
    assert ptr + len <= Strlen(cmd);
    assert cmd[ptr..][..len] == cmd[ptr..ptr + len];
    assert Str(a) == a[..len];
  }

  /** The key at ptr is a strncmp match there. */
  lemma KeyMatches(cmd: seq<Byte>, a: seq<Byte>, ptr: nat)
    requires Terminated(cmd) && Terminated(a) && ptr < Strlen(cmd) && Strlen(a) > 0
    requires KeyAt(cmd, a, ptr)
    ensures Strlen(a) <= |cmd[ptr..]| && cmd[ptr..][..Strlen(a)] == a[..Strlen(a)]
  {
    assert cmd[ptr..][..Strlen(a)] == cmd[ptr..ptr + Strlen(a)];
  }

  /** The string starting inside another one ends where it does. */
  lemma SuffixStrlen(cmd: seq<Byte>, ptr: nat)
    requires Terminated(cmd) && ptr <= Strlen(cmd)
    ensures Terminated(cmd[ptr..]) && Strlen(cmd[ptr..]) == Strlen(cmd) - ptr
  {
    StrlenIs(cmd[ptr..], Strlen(cmd) - ptr);
  }

  /** GetArgValue once the first key has been found at p. */
  lemma {:induction false} GetArgAt(cmdline: Option<seq<Byte>>, destlen: int, arg: Option<seq<Byte>>, p: nat)
    requires cmdline.Some? && arg.Some? && Terminated(cmdline.value) && Terminated(arg.value)
    requires Strlen(arg.value) > 0 && FirstKey(cmdline.value, arg.value, 0) == Some(p)
    ensures p + Strlen(arg.value) + 1 <= Strlen(cmdline.value)
    ensures GetArgValue(cmdline, destlen, arg) == Some(ValueAt(cmdline.value, destlen, p + Strlen(arg.value) + 1))
  {
  }

  /** The search loop of `k_getArg`: the first position where the key
      followed by '=' starts. */
  method FindKey(cmd: seq<Byte>, a: seq<Byte>) returns (p: Option<nat>)
    requires Terminated(cmd) && Terminated(a) && Strlen(a) > 0
    ensures p == FirstKey(cmd, a, 0)
    ensures p.Some? ==> KeyAt(cmd, a, p.value)
  {
    var len := Strlen(a);
    var ptr := 0;
    while cmd[ptr] != NUL
      invariant 0 <= ptr <= Strlen(cmd)
      invariant FirstKey(cmd, a, 0) == FirstKey(cmd, a, ptr)
      decreases Strlen(cmd) - ptr
    {
      KeyTest(cmd, a, ptr);
      if Strncmp(cmd[ptr..], a, len) == 0 && cmd[ptr + len] == EQUALS {
        return Some(ptr);
      }
      ptr := ptr + 1;
    }
    return None;
  }

  /** `k_getArg`. It returns `dest` (true) or NULL (false). */
  method KGetArg(cmdline: Option<seq<Byte>>, dest: array?<Byte>, destlen: int, arg: Option<seq<Byte>>)
    returns (found: bool)
    requires cmdline.Some? ==> Terminated(cmdline.value)
    requires arg.Some? ==> Terminated(arg.value)
    requires dest != null ==> 1 <= dest.Length && destlen <= dest.Length
    modifies dest
    ensures found <==> dest != null && GetArgValue(cmdline, destlen, arg).Some?
    ensures !found ==> dest == null || dest[..] == old(dest[..])
    ensures found ==> var v := GetArgValue(cmdline, destlen, arg).value;
      dest[..|v|] == v && dest[|v|] == NUL && dest[|v| + 1..] == old(dest[|v| + 1..])
  {
    var len := if arg.Some? then Strlen(arg.value) else 0;
    if cmdline.None? || dest == null || arg.None? || len == 0 {
      return false;
    }
    var cmd, a := cmdline.value, arg.value;
    var p := FindKey(cmd, a);
    if p.None? {
      return false;
    }
    var v := p.value + len + 1;
    GetArgAt(cmdline, destlen, arg, p.value);
    ghost var val := ValueAt(cmd, destlen, v);
    var m := CopyValue(dest, cmd, v, destlen);
    assert dest[..|val|] == val;
    return true;
  }
}
