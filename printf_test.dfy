/** kernel/test/t-printf.c: `test_snprintf_1` formats 99999999 with
    `snprintf(initial, 5, "%d", ...)` over a 17-byte buffer and compares
    the count with 4 and the buffer with a control string. */
module PrintfTest {
  import opened Common
  import opened Lib
  import opened Printf
  import opened PrintfFacts

  /** A C string literal in a `char[17]`: its bytes, the NUL, then zeros. */
  function CharArray17(s: seq<Byte>): (r: seq<Byte>)
    requires |s| < 17
    ensures |r| == 17 && r[..|s|] == s && forall k | |s| <= k < 17 :: r[k] == NUL
  {
    s + seq(17 - |s|, _ => NUL)
  }

  /** "0123456789abcdef" */
  const INITIAL: seq<Byte> := [48, 49, 50, 51, 52, 53, 54, 55, 56, 57, 97, 98, 99, 100, 101, 102]

  /** "9999\056789abcdef" as C reads it: `\056` is the octal escape of
      '.', so the literal has fourteen characters. */
  const CONTROL_AS_WRITTEN: seq<Byte> := [57, 57, 57, 57, 46, 55, 56, 57, 97, 98, 99, 100, 101, 102]

  /** What snprintf leaves in the buffer: "9999", the NUL, and the rest of
      the initial bytes. */
  const CONTROL_INTENDED: seq<Byte> := [57, 57, 57, 57, 0, 53, 54, 55, 56, 57, 97, 98, 99, 100, 101, 102]

  /** `test_snprintf_1` with a given control string: the count check holds
      and the memory check holds exactly when the control string is the
      buffer snprintf leaves; a failed check PANICs. */
  method TestSnprintf1With(control: seq<Byte>) returns (countOk: bool, memOk: bool, r: Outcome<()>)
    requires |control| < 17
    ensures countOk
    ensures memOk <==> CharArray17(control) == CharArray17(CONTROL_INTENDED)
    ensures r == if memOk then Returns(()) else Panics("FAILED")
  {
    var initial := new Byte[17](k => if k < 16 then INITIAL[k] else NUL);
    assert initial[..] == CharArray17(INITIAL);
    var fmt := [PERCENT, Ch('d'), NUL];
    SnprintfExample();
    var ret := Snprintf(initial, 5, fmt, [Word(99999999)]);
    var count := ret.value;
    countOk := count == 4;
    assert initial[..] == [NINE, NINE, NINE, NINE] + [NUL] + CharArray17(INITIAL)[5..];
    assert initial[..] == CharArray17(CONTROL_INTENDED);
    memOk := initial[..] == CharArray17(control);
    r := if !countOk || !memOk then Panics("FAILED") else Returns(());
  }

  /** The test as written: the count is 4 but the control string has '.'
      where snprintf leaves its NUL, so the test PANICs. */
  method TestSnprintf1() returns (countOk: bool, memOk: bool, r: Outcome<()>)
    ensures countOk && !memOk && r == Panics("FAILED")
  {
    countOk, memOk, r := TestSnprintf1With(CONTROL_AS_WRITTEN);
    assert CharArray17(CONTROL_AS_WRITTEN)[4] != CharArray17(CONTROL_INTENDED)[4];
  }

  /** The test with the control string its author evidently meant,
      "9999\0" followed by "56789abcdef": it passes. */
  method TestSnprintf1Intended() returns (countOk: bool, memOk: bool, r: Outcome<()>)
    ensures countOk && memOk && r == Returns(())
  {
    countOk, memOk, r := TestSnprintf1With(CONTROL_INTENDED);
  }
}
