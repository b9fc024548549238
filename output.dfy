/** The output side of the display: the commands the renderer queues on its
    sink, and the sink itself, modelled as a command log whose operations may
    fail according to an oracle. */
module Output {

  /** A byte (`u8`): the character of a cell is written as one raw byte. */
  type byte = x: int | 0 <= x < 0x100

  /** A terminal coordinate or dimension (`u16`). */
  type u16 = x: int | 0 <= x < 0x1_0000

  /** Terminal colours. Only equality matters to the renderer; how a colour is
      encoded as an escape sequence is not modelled. */
  datatype Color = Black | White | Rgb(r: byte, g: byte, b: byte) | OtherColor(index: nat)

  /** Text attributes (bold, italics, ...), compared for equality only. */
  datatype Attribute = Reset | Bold | OtherAttribute(index: nat)

  /** The commands a display sends to its sink. */
  datatype Command =
    | MoveTo(x: u16, y: u16)
    | SetAttribute(attr: Attribute)
    | SetForeground(fg: Color)
    | SetBackground(bg: Color)
    | WriteByte(ch: byte)
    | ClearAll
    | Flush

  /** How many leading commands of `cmds` a sink accepts when its operation
      number `i` fails exactly when `fails(i)`, and `start` operations were
      attempted before: the position of the first failing command, or `|cmds|`. */
  function Accepted(fails: nat -> bool, start: nat, cmds: seq<Command>): (n: nat)
    ensures n <= |cmds|
    ensures forall j :: start <= j < start + n ==> !fails(j)
    ensures n < |cmds| ==> fails(start + n)
    decreases |cmds|
  {
    if cmds == [] || fails(start) then 0 else 1 + Accepted(fails, start + 1, cmds[1..])
  }

  /** The state of a sink after a sequence of operations: what it holds, how
      many operations were attempted, and whether all of them succeeded. */
  datatype Effect = Effect(out: seq<Command>, count: nat, ok: bool)

  /** The effect of issuing `cmds` one by one on a sink holding `out0` after
      `count0` attempts, stopping at the first failure as Rust's `?` does: the
      failing operation is counted but appends nothing. */
  function Perform(fails: nat -> bool, out0: seq<Command>, count0: nat, cmds: seq<Command>): Effect
    decreases |cmds|
  {
    if cmds == [] then Effect(out0, count0, true)
    else if fails(count0) then Effect(out0, count0 + 1, false)
    else Perform(fails, out0 + [cmds[0]], count0 + 1, cmds[1..])
  }

  /** Issuing `cmds` fails exactly at the first failing operation: the sink
      then holds the commands before it, and counts one more attempt. */
  lemma {:induction false} PerformStopsAtFirstFailure(fails: nat -> bool, out0: seq<Command>, count0: nat, cmds: seq<Command>)
    ensures var n, e := Accepted(fails, count0, cmds), Perform(fails, out0, count0, cmds);
            && (e.ok <==> n == |cmds|)
            && e.out == out0 + cmds[..n]
            && e.count == count0 + (if e.ok then n else n + 1)
    decreases |cmds|
  {
    if cmds != [] && !fails(count0) {
      PerformStopsAtFirstFailure(fails, out0 + [cmds[0]], count0 + 1, cmds[1..]);
      var n := Accepted(fails, count0 + 1, cmds[1..]);
      assert [cmds[0]] + cmds[1..][..n] == cmds[..n + 1];
    }
  }

  /** Sequencing law of `Perform`: performing `a + b` is performing `a`, then,
      if that succeeded, `b` from the state it left; otherwise `b` is skipped. */
  lemma {:induction false} PerformAppend(fails: nat -> bool, out0: seq<Command>, count0: nat, a: seq<Command>, b: seq<Command>)
    ensures Perform(fails, out0, count0, a + b) ==
            var e := Perform(fails, out0, count0, a);
            if e.ok then Perform(fails, e.out, e.count, b) else e
    decreases |a|
  {
    if a == [] {
      assert a + b == b;
    } else if !fails(count0) {
      assert (a + b)[0] == a[0] && (a + b)[1..] == a[1..] + b;
      PerformAppend(fails, out0 + [a[0]], count0 + 1, a[1..], b);
    }
  }

  /** A failure while issuing a prefix of `all` is the failure of `all`: the
      rest of `all` is never issued. */
  lemma {:induction false} PerformFailsEarly(fails: nat -> bool, out0: seq<Command>, count0: nat, a: seq<Command>, all: seq<Command>)
    requires |a| <= |all| && all[..|a|] == a
    requires !Perform(fails, out0, count0, a).ok
    ensures Perform(fails, out0, count0, all) == Perform(fails, out0, count0, a)
  {
    assert all == a + all[|a|..];
    PerformAppend(fails, out0, count0, a, all[|a|..]);
  }

  /** An output sink such as stdout. Every operation is numbered; the oracle
      `fails` decides which operations fail (an I/O error). */
  class Sink {
    /** Whether the operation with this sequence number fails. */
    const fails: nat -> bool
    /** The commands accepted so far, in order. */
    var out: seq<Command>
    /** The number of operations attempted so far, failed ones included. */
    var count: nat

    constructor (fails: nat -> bool)
      ensures this.fails == fails && out == [] && count == 0
    {
      this.fails := fails;
      out := [];
      count := 0;
    }

    /** The sink's current state seen as an `Effect` with outcome `ok`. */
    function State(ok: bool): Effect
      reads this
    {
      Effect(out, count, ok)
    }

    /** Queues one command (or writes one byte, or flushes). */
    method Emit(c: Command) returns (ok: bool)
      modifies this
      ensures State(ok) == Perform(fails, old(out), old(count), [c])
    {
      ok := !fails(count);
      if ok {
        out := out + [c];
      }
      count := count + 1;
    }
  }
}
