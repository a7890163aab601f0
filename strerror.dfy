/** The error-name table of kernel/lib/strerror.c: `strerror` maps an error
    number, negated or not, to the name of its errno constant. */
module StrError {
  import opened Common
  import Errno

  /** ARRAY_MAX: the number of entries of the name table. */
  const ARRAY_MAX: nat := 39

  /** `_strerr[i]`: entry i names error number i; numbers without a constant
      carry their own decimal digits. */
  function Names(i: nat): (r: string)
    requires i < ARRAY_MAX
    ensures |r| > 0
  {
    match i
    case 0 => "ESUCCESS"
    case 1 => "EPERM"
    case 2 => "ENOENT"
    case 3 => "3"
    case 4 => "4"
    case 5 => "EIO"
    case 6 => "6"
    case 7 => "7"
    case 8 => "8"
    case 9 => "9"
    case 10 => "10"
    case 11 => "11"
    case 12 => "ENOMEM"
    case 13 => "EACCESS"
    case 14 => "EFAULT"
    case 15 => "15"
    case 16 => "EBUSY"
    case 17 => "EEXIST"
    case 18 => "18"
    case 19 => "ENODEV"
    case 20 => "ENOTDIR"
    case 21 => "EISDIR"
    case 22 => "EINVAL"
    case 23 => "ENFILE"
    case 24 => "EMFILE"
    case 25 => "25"
    case 26 => "26"
    case 27 => "27"
    case 28 => "ENOSPC"
    case 29 => "ESPIPE"
    case 30 => "EROFS"
    case 31 => "31"
    case 32 => "EPIPE"
    case 33 => "33"
    case 34 => "34"
    case 35 => "35"
    case 36 => "36"
    case 37 => "37"
    case _ => "ENOSYS"
  }

  const MIN_INT: int := -0x8000_0000

  /** `strerror(error)` for a 32-bit `int`. A negative number is negated first;
      negating the most negative `int` overflows, which C leaves undefined. */
  function StrError(error: int): (r: Outcome<string>)
    requires IsInt32(error)
    ensures r.Undefined? <==> error == MIN_INT
  {
    if error == MIN_INT then Undefined("signed overflow in -error")
    else
      var e := if error < 0 then -error else error;
      if 0 <= e < ARRAY_MAX then Returns(Names(e))
      else if e == Errno.EWAIT_ABANDONED then Returns("EWAIT_ABANDONED")
      else Returns("??")
  }

  /** The magnitude of an error number. */
  function Magnitude(e: int): nat { if e < 0 then -e else e }

  /** Every number in the table, with either sign, yields its table entry. */
  lemma TableLookup(e: int)
    requires IsInt32(e) && e != MIN_INT && Magnitude(e) < ARRAY_MAX
    ensures StrError(e) == Returns(Names(Magnitude(e)))
  {
  }

  /** EWAIT_ABANDONED, with either sign, yields its name. */
  lemma AbandonedLookup(e: int)
    requires Magnitude(e) == Errno.EWAIT_ABANDONED
    ensures StrError(e) == Returns("EWAIT_ABANDONED")
  {
  }

  /** Every other number yields "??". */
  lemma UnknownLookup(e: int)
    requires IsInt32(e) && e != MIN_INT
    requires Magnitude(e) >= ARRAY_MAX && Magnitude(e) != Errno.EWAIT_ABANDONED
    ensures StrError(e) == Returns("??")
  {
  }

  /** The sign of the argument does not matter, except for the most negative
      `int`, whose negation is not representable. */
  lemma SignIgnored(e: int)
    requires IsInt32(e) && e != MIN_INT
    ensures StrError(-e) == StrError(e)
  {
  }

  /** The kernel returns errors negated; each negated errno constant yields the
      constant's own name. */
  lemma ErrnoNames()
    ensures StrError(-Errno.EPERM) == Returns("EPERM")
    ensures StrError(-Errno.ENOENT) == Returns("ENOENT")
    ensures StrError(-Errno.EIO) == Returns("EIO")
    ensures StrError(-Errno.ENOMEM) == Returns("ENOMEM")
    ensures StrError(-Errno.EACCESS) == Returns("EACCESS")
    ensures StrError(-Errno.EFAULT) == Returns("EFAULT")
    ensures StrError(-Errno.EBUSY) == Returns("EBUSY")
    ensures StrError(-Errno.EEXIST) == Returns("EEXIST")
    ensures StrError(-Errno.ENODEV) == Returns("ENODEV")
    ensures StrError(-Errno.ENOTDIR) == Returns("ENOTDIR")
    ensures StrError(-Errno.EISDIR) == Returns("EISDIR")
    ensures StrError(-Errno.EINVAL) == Returns("EINVAL")
    ensures StrError(-Errno.ENFILE) == Returns("ENFILE")
    ensures StrError(-Errno.EMFILE) == Returns("EMFILE")
    ensures StrError(-Errno.ENOSPC) == Returns("ENOSPC")
    ensures StrError(-Errno.ESPIPE) == Returns("ESPIPE")
    ensures StrError(-Errno.EROFS) == Returns("EROFS")
    ensures StrError(-Errno.EPIPE) == Returns("EPIPE")
    ensures StrError(-Errno.ENOSYS) == Returns("ENOSYS")
    ensures StrError(-Errno.EWAIT_ABANDONED) == Returns("EWAIT_ABANDONED")
  {
    TableLookup(-Errno.EPERM);
    TableLookup(-Errno.ENOENT);
    TableLookup(-Errno.EIO);
    TableLookup(-Errno.ENOMEM);
    TableLookup(-Errno.EACCESS);
    TableLookup(-Errno.EFAULT);
    TableLookup(-Errno.EBUSY);
    TableLookup(-Errno.EEXIST);
    TableLookup(-Errno.ENODEV);
    TableLookup(-Errno.ENOTDIR);
    TableLookup(-Errno.EISDIR);
    TableLookup(-Errno.EINVAL);
    TableLookup(-Errno.ENFILE);
    TableLookup(-Errno.EMFILE);
    TableLookup(-Errno.ENOSPC);
    TableLookup(-Errno.ESPIPE);
    TableLookup(-Errno.EROFS);
    TableLookup(-Errno.EPIPE);
    TableLookup(-Errno.ENOSYS);
    AbandonedLookup(-Errno.EWAIT_ABANDONED);
  }
}
