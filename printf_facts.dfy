/** What do_printf of kernel/lib/printf.c prints for the kinds of format
    its callers write: plain text is echoed and cut at `maxlen - 1`
    characters, `%%` prints one '%', an unknown conversion prints nothing,
    and each conversion prints its argument as EMIT lays it out. */
module PrintfFacts {
  import opened Common
  import opened Lib
  import opened Printf

  /** Characters without '%' or NUL are echoed one by one; once count has
      reached the limit the loop stops, and emitting does nothing more. */
  lemma {:induction false} EchoPlain(fmt: seq<Byte>, plain: nat, i: nat, m: Machine, args: seq<Arg>, limit: int, sink: Sink)
    requires i <= plain < |fmt| && PERCENT !in fmt[i..plain] && NUL !in fmt[i..plain]
    requires Inv(m, limit, sink) && m.state == 0 && ValidArgs(args)
    ensures Scan(fmt, i, m, args, limit, sink) ==
      Scan(fmt, plain, EmitAll(m, fmt[i..plain], limit, sink), args, limit, sink)
    decreases plain - i
  {
    if i < plain {
      if m.count >= limit {
        EmitAllStuck(m, fmt[i..plain], limit, sink);
      } else {
        var c := fmt[i];
        assert c == fmt[i..plain][0];
        var m1 := Emit(m, c, limit, sink);
        assert Advance(fmt, i, m, limit, sink) == Some(Parsed(i, m1, false));
        assert fmt[i..plain][1..] == fmt[i + 1..plain];
        EchoPlain(fmt, plain, i + 1, m1, args, limit, sink);
      }
    }
  }

  /** A format without directives prints its text, cut to the first
      `maxlen - 1` characters when the callback counts them. */
  lemma PlainFormat(text: seq<Byte>, maxlen: int, args: seq<Arg>, sink: Sink)
    requires PERCENT !in text && NUL !in text && ValidArgs(args)
    ensures var k := Fits(0, |text|, Limit(maxlen), sink);
      Format(text + [NUL], maxlen, args, sink) == Returns(Printed(Unit(sink) * k, text[..k]))
  {
    var fmt := text + [NUL];
    assert fmt[0..|text|] == text;
    var limit := Limit(maxlen);
    EchoPlain(fmt, |text|, 0, Start, args, limit, sink);
    EmitAllIs(Start, text, limit, sink);
    var k := Fits(0, |text|, limit, sink);
    var m := EmitAll(Start, text, limit, sink);
    assert m.count == Unit(sink) * k && m.out == text[..k];
    assert Scan(fmt, |text|, m, args, limit, sink) == Returns(m);
  }

  /** `%%` prints one '%' and starts afresh. */
  lemma PercentPercent(fmt: seq<Byte>, i: nat, m: Machine, args: seq<Arg>, limit: int, sink: Sink)
    requires i + 1 < |fmt| && fmt[i] == PERCENT && fmt[i + 1] == PERCENT
    requires Inv(m, limit, sink) && m.state == 0 && m.count < limit && ValidArgs(args)
    ensures Scan(fmt, i, m, args, limit, sink) ==
      Scan(fmt, i + 2, Reset(Emit(m, PERCENT, limit, sink)), args, limit, sink)
  {
    assert Advance(fmt, i, m, limit, sink) == Some(Parsed(i + 1, Reset(Emit(m.(state := 1), PERCENT, limit, sink)), false));
  }

  /** A character that is neither '%', a flag, a width digit nor a
      modifier goes straight to state 4. */
  predicate EndsDirective(c: Byte)
  {
    c != PERCENT && c != MINUS && !(ZERO <= c <= NINE) && c != Ch('F') && c != Ch('N') && c != Ch('l') && c != Ch('h')
  }

  /** `%` followed by such a character is handed to the conversion switch
      with the flags and width the directive started with. */
  lemma Directive(fmt: seq<Byte>, i: nat, m: Machine, args: seq<Arg>, limit: int, sink: Sink)
    requires i + 1 < |fmt| && fmt[i] == PERCENT && EndsDirective(fmt[i + 1])
    requires Inv(m, limit, sink) && m.state == 0 && m.count < limit && ValidArgs(args)
    ensures Scan(fmt, i, m, args, limit, sink) == ConvertAt(fmt, i + 1, m.(state := 4), args, limit, sink)
  {
    var m3 := m.(state := 3);
    assert Advance(fmt, i + 1, m3, limit, sink) == Some(Parsed(i + 1, m.(state := 4), true));
    assert Advance(fmt, i + 1, m.(state := 2), limit, sink) == Advance(fmt, i + 1, m3, limit, sink);
    assert Advance(fmt, i, m, limit, sink) == Some(Parsed(i + 1, m.(state := 4), true));
  }

  /** The conversion characters the switch of state 4 knows. */
  const CONVERSIONS: seq<Byte> := [Ch('X'), Ch('x'), Ch('n'), Ch('p'), Ch('d'), Ch('i'), Ch('u'), Ch('o'), Ch('c'), Ch('s')]

  /** Any other character ends the directive, prints nothing and consumes
      no argument; a NUL right after '%' is stepped over too. */
  lemma UnknownConversion(fmt: seq<Byte>, i: nat, m: Machine, args: seq<Arg>, limit: int, sink: Sink)
    requires i + 1 < |fmt| && fmt[i] == PERCENT && EndsDirective(fmt[i + 1]) && fmt[i + 1] !in CONVERSIONS
    requires Inv(m, limit, sink) && m.state == 0 && m.count < limit && ValidArgs(args)
    ensures Scan(fmt, i, m, args, limit, sink) == Scan(fmt, i + 2, Reset(m), args, limit, sink)
  {
    Directive(fmt, i, m, args, limit, sink);
    assert Convert(m.(state := 4), fmt[i + 1], args, limit, sink) == Returns(m.(state := 4));
  }

  /** A format ending in a lone '%' makes the loop step over the NUL and
      read past the end of the string, whenever the '%' is reached. */
  lemma TrailingPercent(text: seq<Byte>, maxlen: int, args: seq<Arg>, sink: Sink)
    requires PERCENT !in text && NUL !in text && ValidArgs(args)
    requires Unit(sink) * |text| < Limit(maxlen)
    ensures Format(text + [PERCENT, NUL], maxlen, args, sink) == Undefined(PAST_FORMAT)
  {
    var fmt := text + [PERCENT, NUL];
    var limit := Limit(maxlen);
    assert fmt[0..|text|] == text;
    EchoPlain(fmt, |text|, 0, Start, args, limit, sink);
    EmitAllIs(Start, text, limit, sink);
    var m := EmitAll(Start, text, limit, sink);
    UnknownConversion(fmt, |text|, m, args, limit, sink);
  }

  /** Reset forgets the directive's state, flags and width, so emitting
      after it or before it is the same. */
  lemma ResetEmitAll(m: Machine, s: seq<Byte>, limit: int, sink: Sink)
    requires Inv(m, limit, sink)
    ensures Reset(EmitAll(m, s, limit, sink)) == EmitAll(Reset(m), s, limit, sink)
  {
    EmitAllIs(m, s, limit, sink);
    EmitAllIs(Reset(m), s, limit, sink);
  }

  /** With no width and no '-' or '0' flag EMIT prints the sign, when there
      is one, and the text, and nothing else. */
  lemma BareField(m: Machine, f: Flags, text: seq<Byte>, actual: nat, limit: int, sink: Sink)
    requires Inv(m, limit, sink) && m.givenWd == 0 && !f.lj && !f.lz
    ensures Reset(Field(m, f, text, actual, limit, sink)) ==
      EmitAll(Reset(m).(next := m.next + 1), SignIf(f.ws) + text, limit, sink)
  {
    FieldIsFieldText(m, f, text, actual, limit, sink);
    assert FieldText(text, actual, f, 0) == SignIf(f.ws) + text;
    ResetEmitAll(m.(next := m.next + 1, flags := f), SignIf(f.ws) + text, limit, sink);
    assert Reset(m.(next := m.next + 1, flags := f)) == Reset(m).(next := m.next + 1);
  }

  /** The machine state 4 starts a conversion from when the directive had
      no flags and no width. */
  predicate Fresh(m: Machine)
  {
    m.state == 4 && m.flags == NoFlags && m.givenWd == 0
  }

  /** `%u`, `%o`, `%x`, `%X` and `%n` print the argument's 32 bits as an
      unsigned number in radix 10, 8 or 16, with capitals for `%X`. */
  lemma UnsignedConversion(m: Machine, c: Byte, args: seq<Arg>, limit: int, sink: Sink)
    requires c in [Ch('u'), Ch('o'), Ch('x'), Ch('X'), Ch('n')]
    requires Inv(m, limit, sink) && Fresh(m) && ValidArgs(args)
    ensures var r := Convert(m, c, args, limit, sink);
      var radix := if c == Ch('u') then 10 else if c == Ch('o') then 8 else 16;
      (m.next >= |args| ==> r == Undefined(PAST_ARGS)) &&
      (m.next < |args| ==> (r.Returns? &&
        Reset(r.value) == EmitAll(Reset(m).(next := m.next + 1), Numeral(args[m.next].w, radix, c == Ch('X')), limit, sink)))
  {
    var radix := if c == Ch('u') then 10 else if c == Ch('o') then 8 else 16;
    var m1 := if c == Ch('X') then m.(flags := m.flags.(ca := true)) else m;
    assert Numeric(m, c) == Some((m1, radix));
    assert Convert(m, c, args, limit, sink) == Number(m1, radix, args, limit, sink);
    if m.next < |args| {
      var w := args[m.next].w;
      assert Load(m1.flags, w) == S32(w);
      assert Number(m1, radix, args, limit, sink) == NumberOf(m1, radix, S32(w), limit, sink);
      UnsignedNumber(m1, radix, w, limit, sink);
      assert Reset(m1).(next := m1.next + 1) == Reset(m).(next := m.next + 1);
      assert m1.flags.ca == (c == Ch('X'));
    }
  }

  /** DO_NUM and EMIT for an unsigned slot w with no width and no flag but
      perhaps the capitals one. */
  lemma UnsignedNumber(m: Machine, radix: nat, w: int, limit: int, sink: Sink)
    requires radix == 8 || radix == 10 || radix == 16
    requires Inv(m, limit, sink) && m.flags == NoFlags.(ca := m.flags.ca) && m.givenWd == 0 && 0 <= w < TWO32
    ensures var r := NumberOf(m, radix, S32(w), limit, sink);
      r.Returns? && Reset(r.value) == EmitAll(Reset(m).(next := m.next + 1), Numeral(w, radix, m.flags.ca), limit, sink)
  {
    assert Magnitude(m.flags, S32(w)) == w;
    var digits := Numeral(w, radix, m.flags.ca);
    BareField(m, m.flags, digits, |digits|, limit, sink);
    assert SignIf(false) + digits == digits;
  }

  /** `%d` and `%i` print the argument as a signed 32-bit number: a '-'
      and the digits of its magnitude when negative.  The most negative
      value cannot be negated and is undefined. */
  lemma SignedConversion(m: Machine, c: Byte, args: seq<Arg>, limit: int, sink: Sink)
    requires c == Ch('d') || c == Ch('i')
    requires Inv(m, limit, sink) && Fresh(m) && ValidArgs(args)
    ensures var r := Convert(m, c, args, limit, sink);
      (m.next >= |args| ==> r == Undefined(PAST_ARGS)) &&
      (m.next < |args| ==>
        var num := S32(args[m.next].w);
        (num == -0x8000_0000 ==> r == Undefined(NEGATE_OVERFLOW)) &&
        (num != -0x8000_0000 ==> (r.Returns? &&
          Reset(r.value) == EmitAll(Reset(m).(next := m.next + 1),
            SignIf(num < 0) + Numeral(if num < 0 then -num else num, 10, false), limit, sink))))
  {
    var m1 := m.(flags := m.flags.(sg := true));
    assert Numeric(m, c) == Some((m1, 10));
    assert Convert(m, c, args, limit, sink) == Number(m1, 10, args, limit, sink);
    if m.next < |args| {
      var num := S32(args[m.next].w);
      assert Number(m1, 10, args, limit, sink) == NumberOf(m1, 10, num, limit, sink);
      SignedNumber(m1, num, limit, sink);
      assert Reset(m1).(next := m1.next + 1) == Reset(m).(next := m.next + 1);
    }
  }

  /** DO_NUM and EMIT for a signed `num` with no width and no flag but the
      signed one. */
  lemma SignedNumber(m: Machine, num: int, limit: int, sink: Sink)
    requires Inv(m, limit, sink) && m.flags == NoFlags.(sg := true) && m.givenWd == 0 && IsInt32(num)
    ensures var r := NumberOf(m, 10, num, limit, sink);
      (num == -0x8000_0000 ==> r == Undefined(NEGATE_OVERFLOW)) &&
      (num != -0x8000_0000 ==> (r.Returns? &&
        Reset(r.value) == EmitAll(Reset(m).(next := m.next + 1),
          SignIf(num < 0) + Numeral(if num < 0 then -num else num, 10, false), limit, sink)))
  {
    if num != -0x8000_0000 {
      var f := SignFlags(m.flags, num);
      var digits := Numeral(Magnitude(m.flags, num), 10, false);
      BareField(m, f, digits, |digits| + (if f.ws then 1 else 0), limit, sink);
    }
  }

  /** `%c` prints the low byte of its argument (nothing for a NUL). */
  lemma CharConversion(m: Machine, args: seq<Arg>, limit: int, sink: Sink)
    requires Inv(m, limit, sink) && Fresh(m) && ValidArgs(args)
    ensures var r := Convert(m, Ch('c'), args, limit, sink);
      (m.next >= |args| ==> r == Undefined(PAST_ARGS)) &&
      (m.next < |args| ==> (r.Returns? &&
        Reset(r.value) == EmitAll(Reset(m).(next := m.next + 1), CharText(args[m.next].w), limit, sink)))
  {
    if m.next < |args| {
      var text := CharText(args[m.next].w);
      BareField(m, m.flags, text, 1, limit, sink);
    }
  }

  /** `%s` prints the string its argument points to. */
  lemma StringConversion(m: Machine, args: seq<Arg>, limit: int, sink: Sink)
    requires Inv(m, limit, sink) && Fresh(m) && ValidArgs(args)
    ensures var r := Convert(m, Ch('s'), args, limit, sink);
      (m.next >= |args| ==> r == Undefined(PAST_ARGS)) &&
      (m.next < |args| && args[m.next].Word? ==> r == Undefined(NOT_A_STRING)) &&
      (m.next < |args| && args[m.next].Text? ==> (r.Returns? &&
        Reset(r.value) == EmitAll(Reset(m).(next := m.next + 1), args[m.next].s, limit, sink)))
  {
    if m.next < |args| && args[m.next].Text? {
      var text := args[m.next].s;
      assert Convert(m, Ch('s'), args, limit, sink) == Returns(Field(m, m.flags, text, |text|, limit, sink));
      BareField(m, m.flags, text, |text|, limit, sink);
      assert SignIf(false) + text == text;
    }
  }

  /** The digits of a pointer: its 32 bits in lowercase hexadecimal,
      padded on the left with '0' to eight characters. */
  function Hex8(w: int): (r: seq<Byte>)
    requires 0 <= w < TWO32
  {
    var digits := Numeral(w, 16, false);
    Repeat(ZERO, Sub(8, |digits|)) + digits
  }

  /** Exactly eight hexadecimal digits that read back as the pointer. */
  lemma Hex8Digits(w: int)
    requires 0 <= w < TWO32
    ensures |Hex8(w)| == 8 && ValueOf(Hex8(w), 16) == w
  {
    var digits := Numeral(w, 16, false);
    assert Pow(16, 8) == TWO32 by {
      assert Pow(16, 2) == 256;
      assert Pow(16, 4) == 65536;
      assert Pow(16, 6) == 0x100_0000;
    }
    NumeralLength(w, 16, false, 8);
    NumeralValue(w, 16, false);
    ValueAfterZeros(Sub(8, |digits|), digits, 16);
  }

  /** Leading '0' digits do not change the value of a digit string. */
  lemma {:induction false} ValueAfterZeros(k: nat, ds: seq<Byte>, radix: nat)
    ensures ValueOf(Repeat(ZERO, k) + ds, radix) == ValueOf(ds, radix)
    decreases |ds|
  {
    if ds == [] {
      ZerosValue(k, radix);
      assert Repeat(ZERO, k) + ds == Repeat(ZERO, k);
    } else {
      var z := Repeat(ZERO, k) + ds;
      assert z[..|z| - 1] == Repeat(ZERO, k) + ds[..|ds| - 1];
      ValueAfterZeros(k, ds[..|ds| - 1], radix);
    }
  }

  lemma {:induction false} ZerosValue(k: nat, radix: nat)
    ensures ValueOf(Repeat(ZERO, k), radix) == 0
    decreases k
  {
    if k > 0 {
      var z := Repeat(ZERO, k);
      assert z[..k - 1] == Repeat(ZERO, k - 1);
      ZerosValue(k - 1, radix);
    }
  }

  /** `%p` prints its argument as eight hexadecimal digits. */
  lemma PointerConversion(m: Machine, args: seq<Arg>, limit: int, sink: Sink)
    requires Inv(m, limit, sink) && Fresh(m) && ValidArgs(args)
    ensures var r := Convert(m, Ch('p'), args, limit, sink);
      (m.next >= |args| ==> r == Undefined(PAST_ARGS)) &&
      (m.next < |args| ==> (r.Returns? &&
        Reset(r.value) == EmitAll(Reset(m).(next := m.next + 1), Hex8(args[m.next].w), limit, sink)))
  {
    var m1 := m.(givenWd := 8, flags := m.flags.(lz := true));
    assert Numeric(m, Ch('p')) == Some((m1, 16));
    assert Convert(m, Ch('p'), args, limit, sink) == Number(m1, 16, args, limit, sink);
    if m.next < |args| {
      var w := args[m.next].w;
      assert Load(m1.flags, w) == S32(w);
      assert Number(m1, 16, args, limit, sink) == NumberOf(m1, 16, S32(w), limit, sink);
      PointerNumber(m1, w, limit, sink);
      assert Reset(m1).(next := m1.next + 1) == Reset(m).(next := m.next + 1);
    }
  }

  /** DO_NUM and EMIT for `%p`: width 8, zero padding. */
  lemma PointerNumber(m: Machine, w: int, limit: int, sink: Sink)
    requires Inv(m, limit, sink) && m.flags == NoFlags.(lz := true) && m.givenWd == 8 && 0 <= w < TWO32
    ensures var r := NumberOf(m, 16, S32(w), limit, sink);
      r.Returns? && Reset(r.value) == EmitAll(Reset(m).(next := m.next + 1), Hex8(w), limit, sink)
  {
    assert Magnitude(m.flags, S32(w)) == w;
    var digits := Numeral(w, 16, false);
    FieldIsFieldText(m, m.flags, digits, |digits|, limit, sink);
    assert FieldText(digits, |digits|, m.flags, 8) == Hex8(w);
    ResetEmitAll(m.(next := m.next + 1), Hex8(w), limit, sink);
  }

  /** With `maxlen` 0 nothing is formatted and the count is 0, so
      vsnprintf still stores the NUL at buffer[0]. */
  lemma ZeroMaxlen(fmt: seq<Byte>, args: seq<Arg>)
    requires |fmt| > 0 && ValidArgs(args)
    ensures Format(fmt, 0, args, Buffer) == Returns(Printed(0, []))
    ensures Vsn(fmt, 0, args, 0) == Undefined(PAST_BUFFER)
  {
  }

  /** The decimal digits of 99999999. */
  lemma Nines()
    ensures Numeral(99999999, 10, false) == [NINE, NINE, NINE, NINE, NINE, NINE, NINE, NINE]
  {
    assert Numeral(9, 10, false) == [NINE];
    assert Numeral(99, 10, false) == [NINE, NINE];
    assert Numeral(999, 10, false) == [NINE, NINE, NINE];
    assert Numeral(9999, 10, false) == [NINE, NINE, NINE, NINE];
    assert Numeral(99999, 10, false) == [NINE, NINE, NINE, NINE, NINE];
    assert Numeral(999999, 10, false) == [NINE, NINE, NINE, NINE, NINE, NINE];
    assert Numeral(9999999, 10, false) == [NINE, NINE, NINE, NINE, NINE, NINE, NINE];
  }

  /** The call kernel/test/t-printf.c makes: `%d` of 99999999 with
      `maxlen` 5 prints the first four digits and counts four. */
  lemma SnprintfExample()
    ensures Format([PERCENT, Ch('d'), NUL], 5, [Word(99999999)], Buffer) == Returns(Printed(4, [NINE, NINE, NINE, NINE]))
  {
    var fmt := [PERCENT, Ch('d'), NUL];
    var args := [Word(99999999)];
    var m4 := Start.(state := 4);
    var e := Start.(next := 1, count := 4, out := [NINE, NINE, NINE, NINE]);
    Directive(fmt, 0, Start, args, 4, Buffer);
    SignedConversion(m4, Ch('d'), args, 4, Buffer);
    assert S32(99999999) == 99999999;
    assert Reset(m4).(next := 1) == Start.(next := 1);
    ExampleDigits();
    assert ConvertAt(fmt, 1, m4, args, 4, Buffer) == Scan(fmt, 2, e, args, 4, Buffer);
    assert Scan(fmt, 2, e, args, 4, Buffer) == Returns(e);
  }

  /** Emitting the digits of 99999999 with the limit 4: four nines. */
  lemma ExampleDigits()
    ensures EmitAll(Start.(next := 1), SignIf(false) + Numeral(99999999, 10, false), 4, Buffer) ==
      Start.(next := 1, count := 4, out := [NINE, NINE, NINE, NINE])
  {
    var digits := Numeral(99999999, 10, false);
    assert SignIf(false) + digits == digits;
    Nines();
    EmitAllIs(Start.(next := 1), digits, 4, Buffer);
    assert digits[..4] == [NINE, NINE, NINE, NINE];
  }

}
