/** The scancode ring buffer of kernel/drivers/keyboard.c: the interrupt
    handler inserts raw scancodes at `buf_head`, `keyboard_next_code` removes
    them at `buf_tail`, and a scancode that finds the buffer full is dropped. */
module Keyboard {

  /** KBD_BUFFER_SIZE (kernel/kernel/config.h). */
  const N: nat := 128

  /** `uint8`. */
  type Byte = b: int | 0 <= b < 256

  /** The value keyboard_next_code returns when the buffer is empty. */
  const NO_CODE: Byte := 0xff

  /** The queue as a sequence, oldest scancode first: what arriving scancode
      `code` leaves behind. The ring holds at most N-1 codes, so one arriving
      when N-1 are queued is lost. */
  function Arrive(q: seq<Byte>, code: Byte): (r: seq<Byte>)
    requires |q| < N
    ensures |q| == N - 1 ==> r == q
    ensures |q| < N - 1 ==> |r| == |q| + 1 && r[..|q|] == q && r[|q|] == code
  {
    if |q| == N - 1 then q else q + [code]
  }

  /** What keyboard_next_code returns from queue `q`, and the queue after it. */
  function Next(q: seq<Byte>): (r: (Byte, seq<Byte>))
    ensures q == [] ==> r == (NO_CODE, q)
    ensures q != [] ==> [r.0] + r.1 == q
  {
    if q == [] then (NO_CODE, q) else (q[0], q[1..])
  }

  /** The queue left after codes `codes` arrive in order, each one dropped
      if it finds the buffer full. */
  function Fill(q: seq<Byte>, codes: seq<Byte>): (r: seq<Byte>)
    requires |q| < N
    ensures |r| < N
    decreases |codes|
  {
    if codes == [] then q else Fill(Arrive(q, codes[0]), codes[1..])
  }

  /** Below capacity nothing is dropped. */
  lemma {:induction false} FillBelowCapacity(q: seq<Byte>, codes: seq<Byte>)
    requires |q| + |codes| < N
    ensures Fill(q, codes) == q + codes
    decreases |codes|
  {
    if codes != [] {
      FillBelowCapacity(q + [codes[0]], codes[1..]);
      assert (q + [codes[0]]) + codes[1..] == q + codes;
    }
  }

  /** The ring keeps arrival order: after up to N-1 codes arrive, reading
      returns the queued codes and then the new ones, in arrival order. */
  lemma FifoOrder(q: seq<Byte>, codes: seq<Byte>)
    requires |q| + |codes| < N
    ensures Drain(Fill(q, codes), |q| + |codes|) == q + codes
  {
    FillBelowCapacity(q, codes);
    DrainAll(q + codes);
  }

  /** The first `k` codes keyboard_next_code returns, starting from queue `q`. */
  function Drain(q: seq<Byte>, k: nat): (r: seq<Byte>)
    ensures |r| == k
    decreases k
  {
    if k == 0 then [] else var (c, rest) := Next(q); [c] + Drain(rest, k - 1)
  }

  lemma {:induction false} DrainAll(q: seq<Byte>)
    ensures Drain(q, |q|) == q
    decreases |q|
  {
    if q != [] {
      DrainAll(q[1..]);
    }
  }

  /** Once the buffer is full, further scancodes are lost until one is read. */
  lemma FullDrops(q: seq<Byte>, code: Byte)
    requires |q| == N - 1
    ensures Arrive(q, code) == q
  {
  }

  /** The empty-buffer result cannot be told apart from a queued scancode 0xff. */
  lemma EmptyIndistinguishable()
    ensures Next([]).0 == Next([0xff]).0
  {
  }

  /** The ring buffer state: `kbd_buffer`, `buf_head`, `buf_tail`. */
  class KeyboardBuffer {
    const buffer: array<Byte>
    var head: int
    var tail: int

    ghost predicate Valid()
      reads this
    {
      buffer.Length == N && 0 <= head < N && 0 <= tail < N
    }

    /** The queued scancodes, oldest first: from `buf_tail` up to `buf_head`,
        wrapping at the end of the array. */
    ghost function Contents(): (r: seq<Byte>)
      reads this, buffer
      requires Valid()
      ensures |r| < N
      ensures |r| == (head - tail) % N
    {
      if tail <= head then buffer[tail..head] else buffer[tail..] + buffer[..head]
    }

    /** The statics as the kernel image starts with them: both indices 0. */
    constructor ()
      ensures Valid() && fresh(buffer)
      ensures Contents() == []
    {
      buffer := new Byte[N](_ => 0);
      head := 0;
      tail := 0;
    }

    /** The buffer part of `keyboard_handler`: store `scancode` at the head
        unless the head would run into the tail. */
    method Handle(scancode: Byte)
      requires Valid()
      modifies this`head, buffer
      ensures Valid()
      ensures old((head + 1) % N == tail) <==> old(|Contents()|) == N - 1
      ensures Contents() == Arrive(old(Contents()), scancode)
    {
      ghost var q := Contents();
      if (head + 1) % N == tail {
        // the scancode is dropped (and reported on the console)
      } else {
        buffer[head] := scancode;
        if tail <= head && head + 1 < N {
          assert buffer[tail..head + 1] == q + [scancode];
          head := head + 1;
        } else if tail <= head {
          assert buffer[tail..] + buffer[..0] == q + [scancode];
          head := 0;
        } else {
          assert buffer[tail..] + buffer[..head + 1] == q + [scancode];
          head := head + 1;
        }
      }
    }

    /** `keyboard_next_code`: the oldest scancode, or 0xff when none is queued. */
    method NextCode() returns (ret: Byte)
      requires Valid()
      modifies this`tail
      ensures Valid()
      ensures (ret, Contents()) == Next(old(Contents()))
    {
      ret := NO_CODE;
      ghost var q := Contents();
      if head != tail {
        ret := buffer[tail];
        if tail < head {
          assert buffer[tail + 1..head] == q[1..];
        } else if tail + 1 < N {
          assert buffer[tail + 1..] + buffer[..head] == q[1..];
        } else {
          assert buffer[..head] == q[1..];
        }
        tail := (tail + 1) % N;
      }
    }
  }
}
