/** The formatter of kernel/lib/printf.c: `do_printf` scans a format string
    with a five-state machine (awaiting '%', flags, width, modifiers,
    conversion) and hands every output character to a callback that either
    stores it into a buffer and reports 1 (`vsnprintf`) or writes it to the
    console and reports 0 (`vprintf`).  `count` sums the callback's reports
    and every emission is guarded by `count < maxlen - 1`.

    The variable arguments are modelled as the i386 stack slots they occupy:
    each `va_arg` reads the next 4-byte slot, and the narrower `short` and
    `unsigned char` reads take its low bytes.  A slot that holds a string
    pointer also carries the bytes it points to. */
module Printf {
  import opened Common
  import opened Lib

  const PERCENT: Byte := 37
  const UPPER_A: Byte := 65

  /** PR_BUFLEN: the conversion buffer of do_printf. */
  const PR_BUFLEN: nat := 16

  const INT_MAX: int := 0x7fff_ffff

  const PAST_FORMAT: string := "reads past the end of the format string"
  const NOT_A_STRING: string := "%s argument does not point to a string"
  const PAST_ARGS: string := "va_arg reads past the last argument"
  const NEGATE_OVERFLOW: string := "signed overflow in -num"
  const PAST_BUFFER: string := "writes past the end of the buffer"

  /** The byte of an ASCII character literal. */
  function Ch(c: char): Byte
    requires c as int < 256
  {
    c as int
  }

  /** Where the callback sends a character: `vsprintf_help` stores it and
      returns 1, `vprintf_help` prints it and returns 0. */
  datatype Sink = Buffer | Console

  function Unit(sink: Sink): nat
  {
    if sink == Buffer then 1 else 0
  }

  /** One argument slot: a 32-bit word, or a word that points to a string. */
  datatype Arg = Word(w: int) | Text(w: int, s: seq<Byte>)

  predicate ValidArgs(args: seq<Arg>)
  {
    forall i | 0 <= i < |args| :: 0 <= args[i].w < TWO32 && (args[i].Text? ==> NUL !in args[i].s)
  }

  /** The PR_* flag bits, one field each. */
  datatype Flags = Flags(lj: bool, ca: bool, sg: bool, l32: bool, h16: bool, ws: bool, lz: bool, fp: bool)

  const NoFlags := Flags(false, false, false, false, false, false, false, false)

  /** do_printf's locals: `state`, `flags`, `given_wd`, `count`, the
      characters handed to the callback so far, and the next argument. */
  datatype Machine = Machine(state: nat, flags: Flags, givenWd: int, count: int, out: seq<Byte>, next: nat)

  const Start := Machine(0, NoFlags, 0, 0, [], 0)

  /** `state = flags = given_wd = 0`. */
  function Reset(m: Machine): Machine
  {
    m.(state := 0, flags := NoFlags, givenWd := 0)
  }

  /** `maxlen` after `if (maxlen < 0) maxlen = 0x7fffffff; --maxlen;`. */
  function Limit(maxlen: int): int
  {
    (if maxlen < 0 then INT_MAX else maxlen) - 1
  }

  /** What do_printf keeps true: count never passes the limit (and stays 0
      when the limit is negative), the buffer callback's count is the number
      of characters emitted, the console callback's count stays 0. */
  predicate Inv(m: Machine, limit: int, sink: Sink)
  {
    0 <= m.givenWd < TWO32 && 0 <= m.count && (m.count <= limit || m.count == 0) &&
    (sink == Buffer ==> |m.out| == m.count) &&
    (sink == Console ==> m.count == 0)
  }

  /** `if (count < maxlen) count += fn(c, &ptr);` */
  function Emit(m: Machine, c: Byte, limit: int, sink: Sink): (r: Machine)
    requires Inv(m, limit, sink)
    ensures Inv(r, limit, sink)
  {
    if m.count < limit then m.(count := m.count + Unit(sink), out := m.out + [c]) else m
  }

  /** Emitting the characters of s one after the other, each guarded. */
  function EmitAll(m: Machine, s: seq<Byte>, limit: int, sink: Sink): (r: Machine)
    requires Inv(m, limit, sink)
    ensures Inv(r, limit, sink) && r.state == m.state
    decreases |s|
  {
    if s == [] then m else EmitAll(Emit(m, s[0], limit, sink), s[1..], limit, sink)
  }

  function Min(a: int, b: int): int { if a < b then a else b }

  /** How many of n characters fit from `count` on. */
  function Fits(count: int, n: nat, limit: int, sink: Sink): nat
  {
    if count >= limit then 0 else if sink == Console then n else Min(n, limit - count)
  }

  /** Guarded emission stores the longest prefix that fits, and counts it
      when the callback is the buffer one. */
  lemma {:induction false} EmitAllIs(m: Machine, s: seq<Byte>, limit: int, sink: Sink)
    requires Inv(m, limit, sink)
    ensures var k := Fits(m.count, |s|, limit, sink);
      k <= |s| && EmitAll(m, s, limit, sink) == m.(count := m.count + Unit(sink) * k, out := m.out + s[..k])
    decreases |s|
  {
    if s != [] && m.count < limit {
      var m1 := Emit(m, s[0], limit, sink);
      EmitAllIs(m1, s[1..], limit, sink);
      var k := Fits(m.count, |s|, limit, sink);
      assert k == 1 + Fits(m1.count, |s| - 1, limit, sink);
      assert m.out + s[..k] == m.out + [s[0]] + s[1..][..k - 1];
    } else if s != [] {
      EmitAllStuck(m, s, limit, sink);
    }
  }

  /** Emitting a concatenation is emitting its parts in turn. */
  lemma {:induction false} EmitAllAppend(m: Machine, a: seq<Byte>, b: seq<Byte>, limit: int, sink: Sink)
    requires Inv(m, limit, sink)
    ensures EmitAll(m, a + b, limit, sink) == EmitAll(EmitAll(m, a, limit, sink), b, limit, sink)
    decreases |a|
  {
    if a != [] {
      assert (a + b)[1..] == a[1..] + b;
      EmitAllAppend(Emit(m, a[0], limit, sink), a[1..], b, limit, sink);
    } else {
      assert a + b == b;
    }
  }

  /** Once count has reached the limit nothing more is emitted. */
  lemma {:induction false} EmitAllStuck(m: Machine, s: seq<Byte>, limit: int, sink: Sink)
    requires Inv(m, limit, sink) && m.count >= limit
    ensures EmitAll(m, s, limit, sink) == m
    decreases |s|
  {
    if s != [] {
      EmitAllStuck(m, s[1..], limit, sink);
    }
  }

  /** n copies of c. */
  function Repeat(c: Byte, n: nat): (r: seq<Byte>)
    ensures |r| == n && forall i | 0 <= i < n :: r[i] == c
  {
    if n == 0 then [] else [c] + Repeat(c, n - 1)
  }

  /** `given_wd - actual_wd` when positive, else 0. */
  function Sub(g: int, a: int): nat
  {
    if g > a then g - a else 0
  }

  function SignIf(b: bool): seq<Byte>
  {
    if b then [MINUS] else []
  }

  /** The field the EMIT part writes for `text` of width `actual`: the sign
      first under '0', left padding with '0' or ' ' unless '-', the sign
      after space padding, the text, and right padding with spaces under '-'. */
  function FieldText(text: seq<Byte>, actual: nat, f: Flags, g: nat): seq<Byte>
  {
    SignIf(f.ws && f.lz) +
    (if f.lj then [] else Repeat(if f.lz then ZERO else SPACE, Sub(g, actual))) +
    SignIf(f.ws && !f.lz) + text +
    (if f.lj then Repeat(SPACE, Sub(g, actual)) else [])
  }

  /** A field is as wide as the given width, or as its text with the sign
      when that is wider, whichever way it is justified. */
  lemma FieldWidth(text: seq<Byte>, f: Flags, g: nat)
    ensures var actual := |text| + (if f.ws then 1 else 0);
      |FieldText(text, actual, f, g)| == if g > actual then g else actual
  {
  }

  /** Where the sign of a negative number goes: before zero padding, after
      space padding, and first of all when the field is left-justified. */
  lemma SignPlacement(text: seq<Byte>, f: Flags, g: nat)
    requires f.ws
    ensures var actual := |text| + 1;
      var field := FieldText(text, actual, f, g);
      (!f.lj && f.lz ==> field == [MINUS] + Repeat(ZERO, Sub(g, actual)) + text) &&
      (!f.lj && !f.lz ==> field == Repeat(SPACE, Sub(g, actual)) + [MINUS] + text) &&
      (f.lj ==> field == [MINUS] + text + Repeat(SPACE, Sub(g, actual)))
  {
  }

  /** The digit character for a value below 16, in the requested case. */
  function DigitOf(v: nat, upper: bool): (c: Byte)
    requires v < 16
    ensures c != NUL
  {
    if v < 10 then ZERO + v else if upper then UPPER_A + v - 10 else LOWER_A + v - 10
  }

  /** The value of a digit character. */
  function ValueOfDigit(c: Byte): nat
  {
    if ZERO <= c <= NINE then c - ZERO
    else if UPPER_A <= c < UPPER_A + 6 then c - UPPER_A + 10
    else if LOWER_A <= c < LOWER_A + 6 then c - LOWER_A + 10
    else 0
  }

  /** The digits of n in the radix, most significant first. */
  function Numeral(n: nat, radix: nat, upper: bool): (r: seq<Byte>)
    requires 2 <= radix <= 16
    ensures 1 <= |r| && NUL !in r
    decreases n
  {
    if n < radix then [DigitOf(n, upper)]
    else Numeral(n / radix, radix, upper) + [DigitOf(n % radix, upper)]
  }

  /** A digit string read back most significant first. */
  function ValueOf(ds: seq<Byte>, radix: nat): nat
  {
    if ds == [] then 0 else ValueOf(ds[..|ds| - 1], radix) * radix + ValueOfDigit(ds[|ds| - 1])
  }

  /** Numerals read back as the number they were rendered from, and have no
      leading zero. */
  lemma {:induction false} NumeralValue(n: nat, radix: nat, upper: bool)
    requires 2 <= radix <= 16
    ensures ValueOf(Numeral(n, radix, upper), radix) == n
    ensures n > 0 ==> Numeral(n, radix, upper)[0] != ZERO
    decreases n
  {
    var ds := Numeral(n, radix, upper);
    if n < radix {
      DigitRoundTrip(n, upper);
      assert ds[..0] == [];
    } else {
      var q, d := n / radix, n % radix;
      DivMod(n, radix);
      NumeralValue(q, radix, upper);
      DigitRoundTrip(d, upper);
      assert ds[..|ds| - 1] == Numeral(q, radix, upper);
      assert ds[|ds| - 1] == DigitOf(d, upper);
    }
  }

  /** A digit character reads back as its value. */
  lemma DigitRoundTrip(v: nat, upper: bool)
    requires v < 16
    ensures ValueOfDigit(DigitOf(v, upper)) == v
  {
  }

  lemma DivMod(n: nat, radix: nat)
    requires radix > 1
    ensures n == (n / radix) * radix + n % radix && n % radix < radix
    ensures n >= radix ==> 0 < n / radix < n
    ensures n < radix ==> n / radix == 0 && n % radix == n
  {
    var q := n / radix;
    assert n == q * radix + n % radix;
    if n >= radix && q >= n {
      MulMonotone(n, 2, q, radix);
    }
  }

  /** Lowercase numerals are the digits itoa renders. */
  lemma {:induction false} NumeralIsItoaDigits(n: nat, radix: nat)
    requires 2 <= radix <= 16
    ensures Numeral(n, radix, false) == Lib.Digits(n, radix)
    decreases n
  {
    if n >= radix {
      NumeralIsItoaDigits(n / radix, radix);
    }
  }

  /** q * r <= n < r * p bounds q below p. */
  lemma QuotientBound(q: nat, r: nat, n: nat, p: nat)
    requires r > 0 && q * r <= n < r * p
    ensures q < p
  {
    if q >= p {
      MulMonotone(p, r, q, r);
    }
  }

  function Pow(b: nat, k: nat): nat
  {
    if k == 0 then 1 else b * Pow(b, k - 1)
  }

  /** A number below radix^k has at most k digits. */
  lemma {:induction false} NumeralLength(n: nat, radix: nat, upper: bool, k: nat)
    requires 2 <= radix <= 16 && n < Pow(radix, k) && k >= 1
    ensures |Numeral(n, radix, upper)| <= k
    decreases k
  {
    if n >= radix {
      assert k >= 2;
      var q := n / radix;
      DivMod(n, radix);
      QuotientBound(q, radix, n, Pow(radix, k - 1));
      NumeralLength(q, radix, upper, k - 1);
    }
  }

  /** A 32-bit number in radix 8 or more fits in the conversion buffer: at
      most 11 digits and the NUL. */
  lemma NumeralFits(n: nat, radix: nat, upper: bool)
    requires 8 <= radix <= 16 && n < TWO32
    ensures |Numeral(n, radix, upper)| <= 11
  {
    PowMonotone(8, radix, 11);
    NumeralLength(n, radix, upper, 11);
  }

  lemma {:induction false} PowMonotone(a: nat, b: nat, k: nat)
    requires a <= b
    ensures Pow(a, k) <= Pow(b, k)
  {
    if k > 0 {
      PowMonotone(a, b, k - 1);
      MulMonotone(a, Pow(a, k - 1), b, Pow(b, k - 1));
    }
  }

  lemma MulMonotone(a: nat, x: nat, b: nat, y: nat)
    requires a <= b && x <= y
    ensures a * x <= b * y
  {
  }

  /** The low 16 bits of a slot read as a `short`. */
  function S16(x: int): int
  {
    if x >= 0x8000 then x - 0x1_0000 else x
  }

  /** `num`, a 32-bit `long`, as the DO_NUM branch loads it. */
  function Load(f: Flags, w: int): (num: int)
    requires 0 <= w < TWO32
    ensures IsInt32(num)
  {
    if f.l32 then S32(w)
    else if f.h16 then (if f.sg then S16(w % 0x1_0000) else w % 0x1_0000)
    else S32(w)
  }

  /** DO_NUM: load the argument and emit it. */
  function Number(m: Machine, radix: nat, args: seq<Arg>, limit: int, sink: Sink): (r: Outcome<Machine>)
    requires radix == 8 || radix == 10 || radix == 16
    requires Inv(m, limit, sink) && ValidArgs(args)
    ensures !r.Panics? && (r.Returns? ==> Inv(r.value, limit, sink))
  {
    if m.next >= |args| then Undefined(PAST_ARGS)
    else NumberOf(m, radix, Load(m.flags, args[m.next].w), limit, sink)
  }

  /** DO_NUM and EMIT for the loaded `num`: take the sign off a negative
      signed number (negating the most negative `long` overflows, which C
      leaves undefined), render the digits and emit the field. */
  function NumberOf(m: Machine, radix: nat, num: int, limit: int, sink: Sink): (r: Outcome<Machine>)
    requires radix == 8 || radix == 10 || radix == 16
    requires Inv(m, limit, sink) && IsInt32(num)
    ensures !r.Panics? && (r.Returns? ==> Inv(r.value, limit, sink))
  {
    if m.flags.sg && num == -0x8000_0000 then Undefined(NEGATE_OVERFLOW)
    else
      var f := SignFlags(m.flags, num);
      var digits := Numeral(Magnitude(m.flags, num), radix, m.flags.ca);
      Returns(Field(m, f, digits, |digits| + (if f.ws then 1 else 0), limit, sink))
  }

  /** What DO_NUM renders of `num`: its negation when it is a negative
      signed number, else `num` read as an `unsigned long`. */
  function Magnitude(f: Flags, num: int): (u: nat)
    requires IsInt32(num) && !(f.sg && num == -0x8000_0000)
    ensures u < TWO32 && (f.sg && num < 0 ==> u == -num) && (num >= 0 ==> u == num)
  {
    if f.sg && num < 0 then -num else U32(num)
  }

  /** The flags DO_NUM emits `num` under: PR_WS is added for a negative
      signed number. */
  function SignFlags(f: Flags, num: int): Flags
  {
    if f.sg && num < 0 then f.(ws := true) else f
  }

  /** EMIT for the argument at `next` under flags f, stage by stage: the
      sign when padding with '0', the left padding with '0' or ' ' unless
      '-', the sign after space padding, the text, and the right padding
      with spaces under '-'. The argument is consumed. */
  function Field(m: Machine, f: Flags, text: seq<Byte>, actual: nat, limit: int, sink: Sink): (r: Machine)
    requires Inv(m, limit, sink)
    ensures Inv(r, limit, sink)
  {
    var g := m.givenWd;
    var m0 := m.(next := m.next + 1, flags := f);
    var m1 := EmitAll(m0, SignIf(f.ws && f.lz), limit, sink);
    var m2 := if f.lj then m1 else EmitAll(m1, Repeat(if f.lz then ZERO else SPACE, Sub(g, actual)), limit, sink);
    var m3 := EmitAll(m2, SignIf(f.ws && !f.lz), limit, sink);
    var m4 := EmitAll(m3, text, limit, sink);
    if f.lj then EmitAll(m4, Repeat(SPACE, Sub(g, actual)), limit, sink) else m4
  }

  /** Emitting the stages one after the other is emitting the whole field. */
  lemma FieldIsFieldText(m: Machine, f: Flags, text: seq<Byte>, actual: nat, limit: int, sink: Sink)
    requires Inv(m, limit, sink)
    ensures Field(m, f, text, actual, limit, sink) ==
      EmitAll(m.(next := m.next + 1, flags := f), FieldText(text, actual, f, m.givenWd), limit, sink)
  {
    var g := m.givenWd;
    var m0 := m.(next := m.next + 1, flags := f);
    FieldParts(m0, SignIf(f.ws && f.lz), if f.lj then [] else Repeat(if f.lz then ZERO else SPACE, Sub(g, actual)),
      SignIf(f.ws && !f.lz), text, if f.lj then Repeat(SPACE, Sub(g, actual)) else [], limit, sink);
  }


  /** The numeric conversions: the machine DO_NUM starts from (`X` sets
      the capitals flag, `p` a width of 8 with zero padding, `d` and `i` the
      signed flag) and the radix, or None for any other character. */
  function Numeric(m: Machine, c: Byte): (r: Option<(Machine, nat)>)
    ensures r.Some? <==> c in [Ch('X'), Ch('x'), Ch('n'), Ch('p'), Ch('d'), Ch('i'), Ch('u'), Ch('o')]
    ensures r.Some? ==> (r.value.1 in {8, 10, 16} && r.value.0.next == m.next &&
      r.value.0.count == m.count && r.value.0.out == m.out && r.value.0.state == m.state &&
      (0 <= m.givenWd < TWO32 ==> 0 <= r.value.0.givenWd < TWO32))
  {
    if c == Ch('X') then Some((m.(flags := m.flags.(ca := true)), 16))
    else if c == Ch('x') || c == Ch('n') then Some((m, 16))
    else if c == Ch('p') then Some((m.(givenWd := 8, flags := m.flags.(lz := true)), 16))
    else if c == Ch('d') || c == Ch('i') then Some((m.(flags := m.flags.(sg := true)), 10))
    else if c == Ch('u') then Some((m, 10))
    else if c == Ch('o') then Some((m, 8))
    else None
  }

  /** STATE 4: the conversion character c. `%c` emits the low byte of its
      argument (nothing for a NUL, but the width still counts it) and `%s`
      its string; both drop zero padding. Any other character emits
      nothing. */
  function Convert(m: Machine, c: Byte, args: seq<Arg>, limit: int, sink: Sink): (r: Outcome<Machine>)
    requires Inv(m, limit, sink) && ValidArgs(args)
    ensures !r.Panics? && (r.Returns? ==> Inv(r.value, limit, sink))
  {
    var n := Numeric(m, c);
    if n.Some? then
      Number(n.value.0, n.value.1, args, limit, sink)
    else if c != Ch('c') && c != Ch('s') then Returns(m)
    else if m.next >= |args| then Undefined(PAST_ARGS)
    else if c == Ch('s') && args[m.next].Word? then Undefined(NOT_A_STRING)
    else
      var text := if c == Ch('s') then args[m.next].s else CharText(args[m.next].w);
      Returns(Field(m, m.flags.(lz := false), text, if c == Ch('s') then |text| else 1, limit, sink))
  }

  /** What `%c` hands to EMIT: the low byte of the argument, or the empty
      string when that byte is NUL. */
  function CharText(w: int): (r: seq<Byte>)
    ensures |r| <= 1 && NUL !in r && (w % 256 != NUL ==> r == [w % 256])
  {
    var ch := w % 256;
    if ch == NUL then [] else [ch]
  }

  /** Where the states 0-3 leave the scan: the index of the last character
      they looked at, the machine, and whether that character is a
      conversion character to hand to state 4. */
  datatype Parsed = Parsed(j: nat, m: Machine, convert: bool)

  function Advance(fmt: seq<Byte>, i: nat, m: Machine, limit: int, sink: Sink): (r: Option<Parsed>)
    requires Inv(m, limit, sink) && m.state <= 3
    ensures r.Some? ==> (i <= r.value.j < |fmt| && Inv(r.value.m, limit, sink) &&
      if r.value.convert then r.value.m.state == 4 else r.value.m.state <= 3)
    decreases 4 - m.state
  {
    if i >= |fmt| then None
    else
      var c := fmt[i];
      if m.state == 0 then
        if c != PERCENT then Some(Parsed(i, Emit(m, c, limit, sink), false))
        else Advance(fmt, i + 1, m.(state := 1), limit, sink)
      else if m.state == 1 then
        if c == PERCENT then Some(Parsed(i, Reset(Emit(m, c, limit, sink)), false))
        else if c == MINUS then Some(Parsed(i, if m.flags.lj then Reset(m) else m.(flags := m.flags.(lj := true)), false))
        else if c == ZERO then Advance(fmt, i + 1, m.(state := 2, flags := m.flags.(lz := true)), limit, sink)
        else Advance(fmt, i, m.(state := 2), limit, sink)
      else if m.state == 2 then
        if ZERO <= c <= NINE then Some(Parsed(i, m.(givenWd := U32(10 * m.givenWd + (c - ZERO))), false))
        else Advance(fmt, i, m.(state := 3), limit, sink)
      else
        if c == Ch('F') then Some(Parsed(i, m.(flags := m.flags.(fp := true)), false))
        else if c == Ch('N') then Some(Parsed(i, m, false))
        else if c == Ch('l') then Some(Parsed(i, m.(flags := m.flags.(l32 := true)), false))
        else if c == Ch('h') then Some(Parsed(i, m.(flags := m.flags.(h16 := true)), false))
        else Some(Parsed(i, m.(state := 4), true))
  }

  /** The `for` loop from fmt[i] on: it stops at the format's NUL or once
      count reaches the limit. */
  function Scan(fmt: seq<Byte>, i: nat, m: Machine, args: seq<Arg>, limit: int, sink: Sink): (r: Outcome<Machine>)
    requires Inv(m, limit, sink) && m.state <= 3 && ValidArgs(args)
    ensures !r.Panics? && (r.Returns? ==> Inv(r.value, limit, sink))
    decreases |fmt| - i, 1
  {
    if i >= |fmt| then Undefined(PAST_FORMAT)
    else if fmt[i] == NUL || m.count >= limit then Returns(m)
    else
      var p := Advance(fmt, i, m, limit, sink);
      if p.None? then Undefined(PAST_FORMAT)
      else if p.value.convert then ConvertAt(fmt, p.value.j, p.value.m, args, limit, sink)
      else Scan(fmt, p.value.j + 1, p.value.m, args, limit, sink)
  }

  /** One pass of the loop body, when the loop goes on. */
  lemma ScanOn(fmt: seq<Byte>, i: nat, m: Machine, args: seq<Arg>, limit: int, sink: Sink)
    requires Inv(m, limit, sink) && m.state <= 3 && ValidArgs(args)
    requires i < |fmt| && fmt[i] != NUL && m.count < limit && Advance(fmt, i, m, limit, sink).Some?
    ensures var p := Advance(fmt, i, m, limit, sink).value;
      Scan(fmt, i, m, args, limit, sink) ==
        if p.convert then ConvertAt(fmt, p.j, p.m, args, limit, sink) else Scan(fmt, p.j + 1, p.m, args, limit, sink)
  {
  }

  /** STATE 4 on fmt[j], then the reset of the outer `default` case every
      conversion, known or not, falls into, and the rest of the loop. */
  function ConvertAt(fmt: seq<Byte>, j: nat, m: Machine, args: seq<Arg>, limit: int, sink: Sink): (r: Outcome<Machine>)
    requires j < |fmt| && Inv(m, limit, sink) && ValidArgs(args)
    ensures !r.Panics? && (r.Returns? ==> Inv(r.value, limit, sink))
    decreases |fmt| - j, 0
  {
    var c := Convert(m, fmt[j], args, limit, sink);
    if c.Returns? then Scan(fmt, j + 1, Reset(c.value), args, limit, sink) else Undefined(c.reason)
  }


  /** What do_printf returns and the characters it handed to the callback. */
  datatype Printed = Printed(count: int, out: seq<Byte>)

  /** `do_printf(fmt, maxlen, args, fn, ptr)`. */
  function Format(fmt: seq<Byte>, maxlen: int, args: seq<Arg>, sink: Sink): (r: Outcome<Printed>)
    requires ValidArgs(args)
    ensures !r.Panics?
    ensures r.Returns? ==> 0 <= r.value.count && (r.value.count <= Limit(maxlen) || r.value.count == 0)
    ensures r.Returns? && sink == Buffer ==> |r.value.out| == r.value.count
    ensures r.Returns? && sink == Console ==> r.value.count == 0
  {
    var s := Scan(fmt, 0, Start, args, Limit(maxlen), sink);
    if s.Returns? then Returns(Printed(s.value.count, s.value.out)) else Undefined(s.reason)
  }

  /** The last digit of a numeral, and what comes before it. */
  lemma NumeralStep(num: nat, radix: nat, upper: bool)
    requires 2 <= radix <= 16
    ensures num / radix <= num && (num > 0 ==> num / radix < num)
    ensures Numeral(num, radix, upper) ==
      (if num / radix == 0 then [] else Numeral(num / radix, radix, upper)) + [DigitOf(num % radix, upper)]
  {
    DivMod(num, radix);
    if num >= radix {
      assert Numeral(num, radix, upper) == Numeral(num / radix, radix, upper) + [DigitOf(num % radix, upper)];
    }
  }

  /** Writing the last pending digit, `temp`, in front of those already
      written leaves the digits of the quotient `q` pending. */
  lemma DigitWritten(num: nat, q: nat, temp: nat, radix: nat, upper: bool, written: seq<Byte>)
    requires 2 <= radix <= 16 && q == num / radix && temp == num % radix
    ensures q <= num && (num > 0 ==> q < num) && temp < 16
    ensures q == 0 ==> Numeral(num, radix, upper) + written == [DigitOf(temp, upper)] + written
    ensures q != 0 ==>
      Numeral(num, radix, upper) + written == Numeral(q, radix, upper) + ([DigitOf(temp, upper)] + written) &&
      |Numeral(q, radix, upper)| + 1 == |Numeral(num, radix, upper)|
  {
    NumeralStep(num, radix, upper);
  }

  /** The do-while of DO_NUM: write digits backwards into `buf` from its
      end, in front of the NUL at buf[PR_BUFLEN - 1]. */
  method ToDigits(n: nat, radix: nat, upper: bool) returns (text: seq<Byte>)
    requires (radix == 8 || radix == 10 || radix == 16) && n < TWO32
    ensures text == Numeral(n, radix, upper)
  {
    NumeralFits(n, radix, upper);
    var buf := new Byte[PR_BUFLEN];
    var where := PR_BUFLEN - 1;
    buf[where] := NUL;
    var num: nat := n;
    ghost var written: seq<Byte> := [];
    while true
      invariant 0 <= where <= PR_BUFLEN - 1 && num <= n
      invariant buf[where..PR_BUFLEN - 1] == written
      invariant Numeral(n, radix, upper) == Numeral(num, radix, upper) + written
      invariant |Numeral(num, radix, upper)| + |written| <= 11
      decreases num
    {
      var temp, q := num % radix, num / radix;
      DigitWritten(num, q, temp, radix, upper, written);
      where := where - 1;
      buf[where] := DigitOf(temp, upper);
      written := [buf[where]] + written;
      assert buf[where..PR_BUFLEN - 1] == written;
      num := q;
      if num == 0 {
        break;
      }
    }
    text := buf[where..PR_BUFLEN - 1];
  }

  /** Emitting a character in front of the rest. */
  lemma EmitCons(m: Machine, c: Byte, rest: seq<Byte>, limit: int, sink: Sink)
    requires Inv(m, limit, sink)
    ensures EmitAll(m, [c] + rest, limit, sink) == EmitAll(Emit(m, c, limit, sink), rest, limit, sink)
  {
    assert ([c] + rest)[1..] == rest;
  }

  /** Emitting the sign when there is one. */
  lemma EmitSign(m: Machine, b: bool, limit: int, sink: Sink)
    requires Inv(m, limit, sink)
    ensures EmitAll(m, SignIf(b), limit, sink) == if b then Emit(m, MINUS, limit, sink) else m
  {
  }

  /** The field is emitted part by part. */
  lemma FieldParts(m: Machine, a: seq<Byte>, b: seq<Byte>, c: seq<Byte>, t: seq<Byte>, d: seq<Byte>, limit: int, sink: Sink)
    requires Inv(m, limit, sink)
    ensures EmitAll(m, a + b + c + t + d, limit, sink) ==
      EmitAll(EmitAll(EmitAll(EmitAll(EmitAll(m, a, limit, sink), b, limit, sink), c, limit, sink), t, limit, sink), d, limit, sink)
  {
    EmitAllAppend(m, a + b + c + t, d, limit, sink);
    EmitAllAppend(m, a + b + c, t, limit, sink);
    EmitAllAppend(m, a + b, c, limit, sink);
    EmitAllAppend(m, a, b, limit, sink);
  }

  /** `while (given_wd > actual_wd)`: pad on the left, every character
      guarded, until the width is used up. */
  method PadLeft(m0: Machine, pad: Byte, g0: nat, actual: nat, limit: int, sink: Sink) returns (m: Machine, g: nat)
    requires Inv(m0, limit, sink)
    ensures m == EmitAll(m0, Repeat(pad, Sub(g0, actual)), limit, sink)
    ensures g == if g0 > actual then actual else g0
  {
    m, g := m0, g0;
    while g > actual
      invariant Inv(m, limit, sink)
      invariant EmitAll(m0, Repeat(pad, Sub(g0, actual)), limit, sink) == EmitAll(m, Repeat(pad, Sub(g, actual)), limit, sink)
      invariant g <= g0 && (g0 > actual ==> g >= actual)
      invariant g0 <= actual ==> g == g0
    {
      assert Repeat(pad, Sub(g, actual)) == [pad] + Repeat(pad, Sub(g - 1, actual));
      EmitCons(m, pad, Repeat(pad, Sub(g - 1, actual)), limit, sink);
      m := Emit(m, pad, limit, sink);
      g := g - 1;
    }
  }

  /** `while ((*where != '\0') && (count < maxlen))`: the text itself. */
  method EmitText(m0: Machine, text: seq<Byte>, limit: int, sink: Sink) returns (m: Machine)
    requires Inv(m0, limit, sink) && NUL !in text
    ensures m == EmitAll(m0, text, limit, sink)
  {
    m := m0;
    var k := 0;
    while k < |text| && m.count < limit
      invariant 0 <= k <= |text| && Inv(m, limit, sink)
      invariant EmitAll(m0, text, limit, sink) == EmitAll(m, text[k..], limit, sink)
    {
      assert text[k..] == [text[k]] + text[k + 1..];
      EmitCons(m, text[k], text[k + 1..], limit, sink);
      m := Emit(m, text[k], limit, sink);
      k := k + 1;
    }
    if k < |text| {
      EmitAllStuck(m, text[k..], limit, sink);
    }
  }

  /** `for(; given_wd && (count < maxlen); given_wd--)`: pad on the right. */
  method PadRight(m0: Machine, g0: nat, limit: int, sink: Sink) returns (m: Machine)
    requires Inv(m0, limit, sink)
    ensures m == EmitAll(m0, Repeat(SPACE, g0), limit, sink)
  {
    m := m0;
    var g := g0;
    while g > 0 && m.count < limit
      invariant Inv(m, limit, sink)
      invariant EmitAll(m0, Repeat(SPACE, g0), limit, sink) == EmitAll(m, Repeat(SPACE, g), limit, sink)
    {
      EmitCons(m, SPACE, Repeat(SPACE, g - 1), limit, sink);
      m := Emit(m, SPACE, limit, sink);
      g := g - 1;
    }
    if g > 0 {
      EmitAllStuck(m, Repeat(SPACE, g), limit, sink);
    }
  }

  /** EMIT and EMIT2: the sign under '0', left padding unless '-', the sign
      under space padding, the text up to its NUL, then right padding. */
  method EmitField(m1: Machine, f: Flags, text: seq<Byte>, actual: nat, limit: int, sink: Sink) returns (m: Machine)
    requires Inv(m1, limit, sink) && NUL !in text
    ensures m == Field(m1, f, text, actual, limit, sink)
  {
    var g: nat := m1.givenWd;
    m := m1.(next := m1.next + 1, flags := f);
    EmitSign(m, f.ws && f.lz, limit, sink);
    if f.ws && f.lz {
      m := Emit(m, MINUS, limit, sink);
    }
    if !f.lj {
      m, g := PadLeft(m, if f.lz then ZERO else SPACE, g, actual, limit, sink);
    }
    EmitSign(m, f.ws && !f.lz, limit, sink);
    if f.ws && !f.lz {
      m := Emit(m, MINUS, limit, sink);
    }
    m := EmitText(m, text, limit, sink);
    g := if g < actual then 0 else g - actual;
    m := PadRight(m, g, limit, sink);
  }


  /** DO_NUM as statements. */
  method DoNumber(m: Machine, radix: nat, args: seq<Arg>, limit: int, sink: Sink) returns (r: Outcome<Machine>)
    requires radix == 8 || radix == 10 || radix == 16
    requires Inv(m, limit, sink) && ValidArgs(args)
    ensures r == Number(m, radix, args, limit, sink)
  {
    if m.next >= |args| {
      return Undefined(PAST_ARGS);
    }
    var num := Load(m.flags, args[m.next].w);
    r := EmitNumber(m, radix, num, limit, sink);
  }

  /** The sign, the digits and EMIT for the loaded `num`. */
  method EmitNumber(m: Machine, radix: nat, num: int, limit: int, sink: Sink) returns (r: Outcome<Machine>)
    requires radix == 8 || radix == 10 || radix == 16
    requires Inv(m, limit, sink) && IsInt32(num)
    ensures r == NumberOf(m, radix, num, limit, sink)
  {
    if m.flags.sg && num == -0x8000_0000 {
      return Undefined(NEGATE_OVERFLOW);
    }
    var f := SignFlags(m.flags, num);
    var m2 := EmitDigits(m, f, Magnitude(m.flags, num), radix, limit, sink);
    return Returns(m2);
  }

  /** The digits of u, and EMIT of them under flags f. */
  method EmitDigits(m: Machine, f: Flags, u: nat, radix: nat, limit: int, sink: Sink) returns (m2: Machine)
    requires radix == 8 || radix == 10 || radix == 16
    requires Inv(m, limit, sink) && u < TWO32
    ensures var digits := Numeral(u, radix, m.flags.ca);
      m2 == Field(m, f, digits, |digits| + (if f.ws then 1 else 0), limit, sink)
  {
    var digits := ToDigits(u, radix, m.flags.ca);
    m2 := EmitField(m, f, digits, |digits| + (if f.ws then 1 else 0), limit, sink);
  }

  /** STATE 4 as statements: pick the radix and flags, or emit a character
      or a string; an unknown conversion emits nothing. */
  method DoConversion(m: Machine, c: Byte, args: seq<Arg>, limit: int, sink: Sink) returns (r: Outcome<Machine>)
    requires Inv(m, limit, sink) && ValidArgs(args)
    ensures r == Convert(m, c, args, limit, sink)
  {
    var n := Numeric(m, c);
    if n.Some? {
      r := DoNumber(n.value.0, n.value.1, args, limit, sink);
      return;
    }
    if c != Ch('c') && c != Ch('s') {
      return Returns(m);
    }
    if m.next >= |args| {
      return Undefined(PAST_ARGS);
    }
    var text: seq<Byte>;
    var actual: nat;
    if c == Ch('s') {
      if args[m.next].Word? {
        return Undefined(NOT_A_STRING);
      }
      text := args[m.next].s;
      actual := |text|;
    } else {
      text := CharText(args[m.next].w);
      actual := 1;
    }
    var m2 := EmitField(m, m.flags.(lz := false), text, actual, limit, sink);
    return Returns(m2);
  }

  /** `do_printf(fmt, maxlen, args, fn, ptr)`: the `for` loop over the
      format, stopping at its NUL or when count reaches `maxlen - 1`. */
  method DoPrintf(fmt: seq<Byte>, maxlen: int, args: seq<Arg>, sink: Sink) returns (r: Outcome<Printed>)
    requires IsInt32(maxlen) && ValidArgs(args)
    ensures r == Format(fmt, maxlen, args, sink)
  {
    var limit := maxlen;
    if limit < 0 {
      limit := INT_MAX;
    }
    limit := limit - 1;
    assert limit == Limit(maxlen);
    var s := Loop(fmt, args, limit, sink);
    r := if s.Returns? then Returns(Printed(s.value.count, s.value.out)) else Undefined(s.reason);
  }

  /** The `for` loop of do_printf, once `maxlen` is adjusted. */
  method Loop(fmt: seq<Byte>, args: seq<Arg>, limit: int, sink: Sink) returns (r: Outcome<Machine>)
    requires ValidArgs(args)
    ensures r == Scan(fmt, 0, Start, args, limit, sink)
  {
    var m := Start;
    var i := 0;
    ghost var goal := Scan(fmt, 0, Start, args, limit, sink);
    while true
      invariant i <= |fmt| && Inv(m, limit, sink) && m.state <= 3
      invariant Scan(fmt, i, m, args, limit, sink) == goal
      decreases |fmt| - i
    {
      if i == |fmt| {
        return Undefined(PAST_FORMAT);
      }
      if fmt[i] == NUL || m.count >= limit {
        return Returns(m);
      }
      var step := Iterate(fmt, i, m, args, limit, sink);
      if !step.Returns? {
        return Undefined(step.reason);
      }
      i, m := step.value.0, step.value.1;
    }
  }

  /** One pass of the `for` body, from fmt[i] to the index the next pass
      starts at. */
  method Iterate(fmt: seq<Byte>, i: nat, m: Machine, args: seq<Arg>, limit: int, sink: Sink) returns (r: Outcome<(nat, Machine)>)
    requires Inv(m, limit, sink) && m.state <= 3 && ValidArgs(args)
    requires i < |fmt| && fmt[i] != NUL && m.count < limit
    ensures r.Returns? ==> (i < r.value.0 <= |fmt| && Inv(r.value.1, limit, sink) && r.value.1.state <= 3 &&
      Scan(fmt, i, m, args, limit, sink) == Scan(fmt, r.value.0, r.value.1, args, limit, sink))
    ensures !r.Returns? ==> (r.Undefined? && Scan(fmt, i, m, args, limit, sink) == Undefined(r.reason))
  {
    var p := Advance(fmt, i, m, limit, sink);
    if p.None? {
      return Undefined(PAST_FORMAT);
    }
    ScanOn(fmt, i, m, args, limit, sink);
    if p.value.convert {
      var c := ConvertStep(fmt, p.value.j, p.value.m, args, limit, sink);
      if !c.Returns? {
        return Undefined(c.reason);
      }
      return Returns((p.value.j + 1, c.value));
    }
    return Returns((p.value.j + 1, p.value.m));
  }


  /** STATE 4 and the reset after it, as statements. */
  method ConvertStep(fmt: seq<Byte>, j: nat, m: Machine, args: seq<Arg>, limit: int, sink: Sink) returns (r: Outcome<Machine>)
    requires j < |fmt| && Inv(m, limit, sink) && ValidArgs(args)
    ensures !r.Panics?
    ensures r.Returns? ==> (Inv(r.value, limit, sink) && r.value.state == 0 &&
      ConvertAt(fmt, j, m, args, limit, sink) == Scan(fmt, j + 1, r.value, args, limit, sink))
    ensures r.Undefined? ==> ConvertAt(fmt, j, m, args, limit, sink) == r
  {
    var c := DoConversion(m, fmt[j], args, limit, sink);
    if !c.Returns? {
      return Undefined(c.reason);
    }
    return Returns(Reset(c.value));
  }


  /** What `vsnprintf` returns for a buffer of `size` bytes: the count of
      do_printf, provided the buffer has room for the NUL stored after it. */
  function Vsn(fmt: seq<Byte>, maxlen: int, args: seq<Arg>, size: nat): (r: Outcome<int>)
    requires ValidArgs(args)
    ensures r.Returns? <==> Format(fmt, maxlen, args, Buffer).Returns? && Format(fmt, maxlen, args, Buffer).value.count < size
    ensures r.Returns? ==> 0 <= r.value < size && r.value == |Format(fmt, maxlen, args, Buffer).value.out|
    ensures maxlen >= 1 && size >= maxlen ==> (r.Returns? <==> Format(fmt, maxlen, args, Buffer).Returns?)
  {
    var p := Format(fmt, maxlen, args, Buffer);
    if !p.Returns? then Undefined(p.reason)
    else if p.value.count >= size then Undefined(PAST_BUFFER)
    else Returns(p.value.count)
  }

  /** `vsnprintf`: do_printf with the callback that stores each character
      at the next byte of the buffer, then the NUL at index `count`. */
  method Vsnprintf(buffer: array<Byte>, maxlen: int, fmt: seq<Byte>, args: seq<Arg>) returns (r: Outcome<int>)
    requires IsInt32(maxlen) && ValidArgs(args)
    modifies buffer
    ensures r == Vsn(fmt, maxlen, args, buffer.Length)
    ensures r.Returns? ==>
      buffer[..] == Format(fmt, maxlen, args, Buffer).value.out + [NUL] + old(buffer[r.value + 1..])
    ensures !r.Returns? ==> unchanged(buffer)
  {
    var p := DoPrintf(fmt, maxlen, args, Buffer);
    if !p.Returns? {
      return Undefined(p.reason);
    }
    var count := p.value.count;
    if count >= buffer.Length {
      return Undefined(PAST_BUFFER);
    }
    Store(buffer, p.value.out);
    r := Returns(count);
  }

  /** The characters `vsprintf_help` stores one after the other from the
      start of the buffer, and the NUL `vsnprintf` stores after them. */
  method Store(buffer: array<Byte>, out: seq<Byte>)
    requires |out| < buffer.Length
    modifies buffer
    ensures buffer[..] == out + [NUL] + old(buffer[|out| + 1..])
  {
    var k := 0;
    while k < |out|
      invariant 0 <= k <= |out|
      invariant buffer[..k] == out[..k]
      invariant buffer[k..] == old(buffer[k..])
    {
      buffer[k] := out[k];
      k := k + 1;
    }
    buffer[k] := NUL;
    assert buffer[..] == buffer[..k] + [NUL] + buffer[k + 1..];
  }

  /** `snprintf`: vsnprintf on the arguments that follow the format. */
  method Snprintf(buffer: array<Byte>, maxlen: int, fmt: seq<Byte>, args: seq<Arg>) returns (r: Outcome<int>)
    requires IsInt32(maxlen) && ValidArgs(args)
    modifies buffer
    ensures r == Vsn(fmt, maxlen, args, buffer.Length)
    ensures r.Returns? ==>
      buffer[..] == Format(fmt, maxlen, args, Buffer).value.out + [NUL] + old(buffer[r.value + 1..])
    ensures !r.Returns? ==> unchanged(buffer)
  {
    r := Vsnprintf(buffer, maxlen, fmt, args);
  }

  /** `vprintf`: do_printf with no limit (`maxlen` -1) and the callback
      that writes to the console and counts nothing, so it returns 0; the
      characters written to the console are returned beside it. */
  method Vprintf(fmt: seq<Byte>, args: seq<Arg>) returns (r: Outcome<int>, console: seq<Byte>)
    requires ValidArgs(args)
    ensures var p := Format(fmt, -1, args, Console);
      (r.Returns? <==> p.Returns?) && (r.Returns? ==> r.value == 0 && console == p.value.out)
  {
    var p := DoPrintf(fmt, -1, args, Console);
    if !p.Returns? {
      return Undefined(p.reason), [];
    }
    return Returns(p.value.count), p.value.out;
  }

  /** `printf`: vprintf on the arguments that follow the format. */
  method Printf(fmt: seq<Byte>, args: seq<Arg>) returns (r: Outcome<int>, console: seq<Byte>)
    requires ValidArgs(args)
    ensures var p := Format(fmt, -1, args, Console);
      (r.Returns? <==> p.Returns?) && (r.Returns? ==> r.value == 0 && console == p.value.out)
  {
    r, console := Vprintf(fmt, args);
  }
}
