/*
  The SPI command queue of the AVR hardware layer.

  Callers enqueue byte-exchange commands into a circular buffer of 2^bits
  slots indexed by `start` (the command being exchanged) and `end` (the next
  free slot). Every transfer-complete interrupt hands the received byte to
  the current command, which either names the next byte to send or finishes;
  a finished command is dropped from the front of the queue and the next one
  starts by sending its first byte.

  The caller's memory that commands read from and write into is one byte
  array, `ram`; the source's pointers are addresses into it. The SPI data
  register is replaced by the received byte passed into `Step` and the byte
  that `Step`, or an enqueue onto an idle queue, returns for sending.
*/
module AvrSpi {
  import opened Wrappers

  type byte = x: int | 0 <= x < 0x100

  function Pow2(n: nat): (r: nat)
    ensures r >= 1
  {
    if n == 0 then 1 else 2 * Pow2(n - 1)
  }

  // ---------------------------------------------------------------------------
  // Modulo arithmetic on queue indices
  // ---------------------------------------------------------------------------

  /** Reduction of a sum of two indices below `n`, written without `%`. */
  function Wrap(x: nat, n: nat): (r: nat)
    requires x < 2 * n
    ensures r < n
  {
    if x < n then x else x - n
  }

  /** BoundedModuloInc: the successor of an index modulo `n`. */
  function ModInc(x: nat, n: nat): (r: nat)
    requires x < n
    ensures r == (x + 1) % n
  {
    Wrap(x + 1, n)
  }

  /** BoundedModuloSubtract: the distance from `b` forward to `a` modulo `n`. */
  function ModSub(a: nat, b: nat, n: nat): (r: nat)
    requires a < n && b < n
    ensures r < n && (r == 0 <==> a == b)
    ensures r == (a - b) % n
  {
    if a >= b then a - b
    else
      NegativeMod(a - b, n);
      a + n - b
  }

  /** Dafny's `%` is Euclidean: a value just below zero reduces to itself plus `n`. */
  lemma NegativeMod(x: int, n: nat)
    requires 0 < -x <= n
    ensures x % n == x + n
  {
  }

  // ---------------------------------------------------------------------------
  // Commands and one exchange step
  // ---------------------------------------------------------------------------

  /**
    A queued command. `sendByte` is the byte sent at the start of the command
    and, for the reading commands, before every further received byte.
    Addresses are positions in `ram`.
  */
  datatype Command =
    | ReadBuffer(sendByte: byte, cur: nat, end: nat)
    | ReadUntilDifferent(sendByte: byte, data: nat, targetByte: byte, remain: byte)
    | WriteBuffer(sendByte: byte, cur: nat, end: nat)
    | WriteByte(sendByte: byte, count: nat)

  /** The addresses a command still uses lie inside memory of `len` bytes. */
  predicate CommandOk(c: Command, len: nat)
  {
    match c
    case ReadBuffer(_, cur, end) => cur < end <= len
    case ReadUntilDifferent(_, data, _, _) => data < len
    case WriteBuffer(_, cur, end) => cur <= end <= len
    case WriteByte(_, _) => true
  }

  /**
    The outcome of one exchange: the command's new state, the memory after the
    received byte was stored, and the next byte to send, or None when the
    command has finished (its state is then left as it was).
  */
  datatype Exchange = Exchange(cmd: Command, mem: seq<byte>, next: Option<byte>)

  /** What the current command does with the byte `rx` just received. */
  function CommandStep(c: Command, mem: seq<byte>, rx: byte): (e: Exchange)
    requires CommandOk(c, |mem|)
    ensures |e.mem| == |mem|
    ensures e.next.Some? ==> CommandOk(e.cmd, |mem|)
    ensures e.next.None? ==> e.cmd == c
  {
    match c
    case ReadBuffer(b, cur, end) =>
      if cur + 1 != end then Exchange(ReadBuffer(b, cur + 1, end), mem[cur := rx], Some(b))
      else Exchange(c, mem[cur := rx], None)
    case ReadUntilDifferent(b, data, target, remain) =>
      if rx == target && remain != 0 then
        Exchange(ReadUntilDifferent(b, data, target, remain - 1), mem[data := rx], Some(b))
      else Exchange(c, mem[data := rx], None)
    case WriteBuffer(b, cur, end) =>
      if cur != end then Exchange(WriteBuffer(b, cur + 1, end), mem, Some(mem[cur]))
      else Exchange(c, mem, None)
    case WriteByte(b, count) =>
      if count != 0 then Exchange(WriteByte(b, count - 1), mem, Some(b))
      else Exchange(c, mem, None)
  }

  /**
    The result of feeding received bytes to one command after its first byte
    went out: the memory, the bytes sent after the first one, how many
    received bytes were consumed, and whether the command finished.
  */
  datatype RunResult = RunResult(mem: seq<byte>, sent: seq<byte>, used: nat, done: bool)

  function Run(c: Command, mem: seq<byte>, rxs: seq<byte>): (r: RunResult)
    requires CommandOk(c, |mem|)
    ensures |r.mem| == |mem| && r.used <= |rxs|
    decreases |rxs|
  {
    if rxs == [] then RunResult(mem, [], 0, false)
    else
      var e := CommandStep(c, mem, rxs[0]);
      if e.next.None? then RunResult(e.mem, [], 1, true)
      else
        var r := Run(e.cmd, e.mem, rxs[1..]);
        RunResult(r.mem, [e.next.value] + r.sent, r.used + 1, r.done)
  }

  function Repeat(b: byte, n: nat): (s: seq<byte>)
    ensures |s| == n
  {
    if n == 0 then [] else [b] + Repeat(b, n - 1)
  }

  // ---------------------------------------------------------------------------
  // What each kind of command exchanges
  // ---------------------------------------------------------------------------

  /** A write-byte command with count `count` sends `b` `count` more times and then finishes. */
  lemma {:induction false} WriteByteRun(b: byte, count: nat, mem: seq<byte>, rxs: seq<byte>)
    requires |rxs| > count
    ensures Run(WriteByte(b, count), mem, rxs) == RunResult(mem, Repeat(b, count), count + 1, true)
    decreases count
  {
    if count > 0 {
      WriteByteRun(b, count - 1, mem, rxs[1..]);
    }
  }

  /** cmdWriteByte sends its byte exactly `extraCount + 1` times, on as many exchanges. */
  lemma CmdWriteByteSends(b: byte, extraCount: nat, mem: seq<byte>, rxs: seq<byte>)
    requires |rxs| > extraCount
    ensures var r := Run(WriteByte(b, extraCount), mem, rxs);
      r.done && r.used == extraCount + 1 && r.mem == mem &&
      [b] + r.sent == Repeat(b, extraCount + 1)
  {
    WriteByteRun(b, extraCount, mem, rxs);
  }

  /** A write-buffer command sends the bytes from `cur` up to `end` and then finishes. */
  lemma {:induction false} WriteBufferRun(b: byte, cur: nat, end: nat, mem: seq<byte>, rxs: seq<byte>)
    requires cur <= end <= |mem|
    requires |rxs| > end - cur
    ensures Run(WriteBuffer(b, cur, end), mem, rxs) == RunResult(mem, mem[cur..end], end - cur + 1, true)
    decreases end - cur
  {
    if cur < end {
      WriteBufferRun(b, cur + 1, end, mem, rxs[1..]);
      assert mem[cur..end] == [mem[cur]] + mem[cur + 1..end];
    }
  }

  /**
    cmdWriteBuffer sends `data[0]` first and then the rest of the buffer, so
    exactly the `length` bytes of the buffer in order, on `length` exchanges.
  */
  lemma {:induction false} CmdWriteBufferSends(data: nat, length: nat, mem: seq<byte>, rxs: seq<byte>)
    requires length > 0 && data + length <= |mem|
    requires |rxs| >= length
    ensures var r := Run(WriteBuffer(mem[data], data + 1, data + length), mem, rxs);
      r.done && r.used == length && r.mem == mem &&
      [mem[data]] + r.sent == mem[data..data + length]
  {
    var sent := mem[data + 1..data + length];
    WriteBufferRun(mem[data], data + 1, data + length, mem, rxs);
    assert Run(WriteBuffer(mem[data], data + 1, data + length), mem, rxs).sent == sent;
    assert mem[data..data + length] == [mem[data]] + sent;
  }

  /**
    A read-buffer command stores the next `end - cur` received bytes at
    `cur` .. `end` in order, sends `b` before each but the first, and leaves
    the rest of memory alone.
  */
  lemma {:induction false} ReadBufferRun(b: byte, cur: nat, end: nat, mem: seq<byte>, rxs: seq<byte>)
    requires cur < end <= |mem|
    requires |rxs| >= end - cur
    ensures var r := Run(ReadBuffer(b, cur, end), mem, rxs);
      r.done && r.used == end - cur && r.sent == Repeat(b, end - cur - 1) &&
      forall i :: 0 <= i < |mem| ==> r.mem[i] == if cur <= i < end then rxs[i - cur] else mem[i]
    decreases end - cur
  {
    if cur + 1 < end {
      ReadBufferRun(b, cur + 1, end, mem[cur := rxs[0]], rxs[1..]);
    }
  }

  /**
    cmdReadBuffer stores exactly `length` received bytes into
    `data[0..length)` in order, sending `sendByte` before each of them.
  */
  lemma CmdReadBufferStores(data: nat, length: nat, sendByte: byte, mem: seq<byte>, rxs: seq<byte>)
    requires length > 0 && data + length <= |mem|
    requires |rxs| >= length
    ensures var r := Run(ReadBuffer(sendByte, data, data + length), mem, rxs);
      r.done && r.used == length &&
      [sendByte] + r.sent == Repeat(sendByte, length) &&
      r.mem[..data] == mem[..data] &&
      r.mem[data..data + length] == rxs[..length] &&
      r.mem[data + length..] == mem[data + length..]
  {
    ReadBufferRun(sendByte, data, data + length, mem, rxs);
  }

  /**
    A read-until-different command exchanges at most `remain + 1` bytes: it
    goes on while it receives `target` and `remain` has not run out, and
    `data` holds the last byte received.
  */
  lemma {:induction false} ReadUntilDifferentRun(b: byte, data: nat, target: byte, remain: byte,
                                                 mem: seq<byte>, rxs: seq<byte>)
    requires data < |mem|
    requires |rxs| > remain as nat
    ensures var r := Run(ReadUntilDifferent(b, data, target, remain), mem, rxs);
      r.done && 1 <= r.used <= remain as nat + 1 &&
      (forall i :: 0 <= i < r.used - 1 ==> rxs[i] == target) &&
      (rxs[r.used - 1] != target || r.used == remain as nat + 1) &&
      r.mem == mem[data := rxs[r.used - 1]] &&
      r.sent == Repeat(b, r.used - 1)
    decreases remain
  {
    if rxs[0] == target && remain != 0 {
      var tail := rxs[1..];
      ReadUntilDifferentRun(b, data, target, remain - 1, mem[data := rxs[0]], tail);
      var r := Run(ReadUntilDifferent(b, data, target, remain - 1), mem[data := rxs[0]], tail);
      assert forall i :: 1 <= i < r.used + 1 ==> rxs[i] == tail[i - 1];
    }
  }

  // ---------------------------------------------------------------------------
  // The pending commands of a circular buffer
  // ---------------------------------------------------------------------------

  /** The `count` slots from `from` onwards, wrapping around the end of `slots`. */
  function Window(slots: seq<Command>, from: nat, count: nat): (w: seq<Command>)
    requires from < |slots| && count <= |slots|
    ensures |w| == count
    ensures count > 0 ==> w[0] == slots[from]
  {
    var w := seq(count, k requires 0 <= k < count => slots[Wrap(from + k, |slots|)]);
    assert count > 0 ==> w[0] == slots[Wrap(from + 0, |slots|)];
    w
  }

  /** One more slot extends the window by the slot just past its end. */
  lemma WindowSnoc(slots: seq<Command>, from: nat, count: nat)
    requires from < |slots| && count < |slots|
    ensures Window(slots, from, count + 1) == Window(slots, from, count) + [slots[Wrap(from + count, |slots|)]]
  {
    var longer, w := Window(slots, from, count + 1), Window(slots, from, count);
    assert forall k :: 0 <= k < count ==> longer[k] == w[k];
  }

  /** Writing the slot just past the window leaves the window's contents alone. */
  lemma WindowUpdateOutside(slots: seq<Command>, from: nat, count: nat, c: Command)
    requires from < |slots| && count < |slots|
    ensures Window(slots[Wrap(from + count, |slots|) := c], from, count) == Window(slots, from, count)
  {
    var n := |slots|;
    var updated, w := Window(slots[Wrap(from + count, n) := c], from, count), Window(slots, from, count);
    forall k | 0 <= k < count
      ensures updated[k] == w[k]
    {
      assert Wrap(from + k, n) != Wrap(from + count, n);
    }
  }

  /** Moving the start forward by one drops the window's first command. */
  lemma WindowTail(slots: seq<Command>, from: nat, count: nat)
    requires from < |slots| && 0 < count <= |slots|
    ensures Window(slots, Wrap(from + 1, |slots|), count - 1) == Window(slots, from, count)[1..]
  {
    var n := |slots|;
    var moved, w := Window(slots, Wrap(from + 1, n), count - 1), Window(slots, from, count);
    forall k | 0 <= k < count - 1
      ensures moved[k] == w[k + 1]
    {
      assert Wrap(Wrap(from + 1, n) + k, n) == Wrap(from + (k + 1), n);
    }
  }

  /** Writing the first slot of the window replaces exactly its first command. */
  lemma WindowUpdateHead(slots: seq<Command>, from: nat, count: nat, c: Command)
    requires from < |slots| && 0 < count <= |slots|
    ensures Window(slots[from := c], from, count) == [c] + Window(slots, from, count)[1..]
  {
    var n := |slots|;
    var updated, w := Window(slots[from := c], from, count), Window(slots, from, count);
    assert Wrap(from + 0, n) == from;
    assert updated[0] == c;
    forall k | 1 <= k < count
      ensures updated[k] == w[k]
    {
      assert Wrap(from + k, n) != from;
    }
  }

  // ---------------------------------------------------------------------------
  // The queue
  // ---------------------------------------------------------------------------

  class Spi {
    /** CommandBufferBits; the buffer has 2^bits slots. */
    const bits: nat
    const size: nat
    const buffer: array<Command>
    /** The caller's memory that commands read from and write into. */
    const ram: array<byte>
    var start: nat
    var end: nat
    /** The slot of the command being exchanged, meaningful while the queue is not empty. */
    var current: nat

    ghost predicate Valid()
      reads this, buffer
    {
      size == Pow2(bits) && buffer.Length == size &&
      start < size && end < size &&
      (start != end ==> current == start) &&
      forall k :: 0 <= k < |Pending()| ==> CommandOk(Pending()[k], ram.Length)
    }

    /** The commands not yet finished, the current one first. */
    ghost function Pending(): (p: seq<Command>)
      reads this, buffer
      requires size == buffer.Length && start < size && end < size
      ensures |p| == ModSub(end, start, size) < size
      ensures start != end ==> p[0] == buffer[start]
    {
      Window(buffer[..], start, ModSub(end, start, size))
    }

    constructor (bits: nat, ram: array<byte>)
      ensures Valid()
      ensures this.bits == bits && size == Pow2(bits) && this.ram == ram
      ensures start == 0 && end == 0 && Pending() == []
      ensures fresh(buffer)
    {
      this.bits := bits;
      size := Pow2(bits);
      buffer := new Command[Pow2(bits)](_ => WriteByte(0, 0));
      this.ram := ram;
      start, end, current := 0, 0, 0;
    }

    /** is_full: one slot always stays free, so at most 2^bits - 1 commands are pending. */
    function IsFull(): (r: bool)
      reads this, buffer
      requires Valid()
      ensures r <==> |Pending()| == size - 1
      ensures r <==> ModSub(end, start, size) == Pow2(bits) - 1
    {
      ModSub(end, start, size) == size - 1
    }

    /** endReached: every queued command has finished. */
    function EndReached(): (r: bool)
      reads this, buffer
      requires Valid()
      ensures r <==> Pending() == []
    {
      start == end
    }

    /** getEndIndex: the slot the next enqueued command goes to. */
    function GetEndIndex(): (r: nat)
      reads this, buffer
      requires Valid()
      ensures r < size
      ensures IndexReached(r) <==> EndReached()
    {
      end
    }

    /**
      indexReached: `index` is not one of the slots just past a pending
      command, that is, the command enqueued just before `getEndIndex`
      returned `index` has finished.
    */
    function IndexReached(index: nat): (r: bool)
      reads this, buffer
      requires Valid() && index < size
      ensures r <==> !(0 < ModSub(index, start, size) <= |Pending()|)
    {
      ModSub(end, start, size) <= ModSub(end, index, size)
    }

    /**
      write_command: the command already in slot `end` becomes pending. On an
      idle queue it becomes current and its first byte is returned for sending.
    */
    method WriteCommand() returns (tx: Option<byte>)
      requires Valid() && !IsFull()
      requires CommandOk(buffer[end], ram.Length)
      modifies this
      ensures Valid()
      ensures start == old(start) && end == ModInc(old(end), size)
      ensures Pending() == old(Pending()) + [buffer[old(end)]]
      ensures tx == if old(start) == old(end) then Some(buffer[start].sendByte) else None
    {
      ghost var count := ModSub(end, start, size);
      WindowSnoc(buffer[..], start, count);
      assert Wrap(start + count, size) == end;
      var wasIdle := start == end;
      end := ModInc(end, size);
      assert ModSub(end, start, size) == count + 1;
      tx := None;
      if wasIdle {
        current := start;
        tx := Some(buffer[current].sendByte);
      }
    }

    /** Fills slot `end` with `cmd` and makes it pending. */
    method Enqueue(cmd: Command) returns (tx: Option<byte>)
      requires Valid() && !IsFull()
      requires CommandOk(cmd, ram.Length)
      modifies this, buffer
      ensures Valid()
      ensures start == old(start) && end == ModInc(old(end), size)
      ensures buffer[..] == old(buffer[..])[old(end) := cmd]
      ensures Pending() == old(Pending()) + [cmd]
      ensures tx == if old(start) == old(end) then Some(cmd.sendByte) else None
    {
      ghost var count := ModSub(end, start, size);
      assert Wrap(start + count, size) == end;
      WindowUpdateOutside(buffer[..], start, count, cmd);
      buffer[end] := cmd;
      tx := WriteCommand();
    }

    /** cmdReadBuffer: receive `length` bytes into `data`, sending `sendByte` for each. */
    method CmdReadBuffer(data: nat, length: nat, sendByte: byte) returns (tx: Option<byte>)
      requires Valid() && !IsFull()
      requires length > 0 && data + length <= ram.Length
      modifies this, buffer
      ensures Valid()
      ensures start == old(start) && end == ModInc(old(end), size)
      ensures buffer[..] == old(buffer[..])[old(end) := ReadBuffer(sendByte, data, data + length)]
      ensures Pending() == old(Pending()) + [ReadBuffer(sendByte, data, data + length)]
      ensures tx == if old(start) == old(end) then Some(sendByte) else None
    {
      tx := Enqueue(ReadBuffer(sendByte, data, data + length));
    }

    /**
      cmdReadUntilDifferent: receive into `data`, sending `sendByte`, for as
      long as `targetByte` comes back, at most `maxExtraLength` more times.
    */
    method CmdReadUntilDifferent(targetByte: byte, maxExtraLength: byte, sendByte: byte, data: nat)
      returns (tx: Option<byte>)
      requires Valid() && !IsFull()
      requires data < ram.Length
      modifies this, buffer
      ensures Valid()
      ensures start == old(start) && end == ModInc(old(end), size)
      ensures buffer[..] == old(buffer[..])[old(end) := ReadUntilDifferent(sendByte, data, targetByte, maxExtraLength)]
      ensures Pending() == old(Pending()) + [ReadUntilDifferent(sendByte, data, targetByte, maxExtraLength)]
      ensures tx == if old(start) == old(end) then Some(sendByte) else None
    {
      tx := Enqueue(ReadUntilDifferent(sendByte, data, targetByte, maxExtraLength));
    }

    /** cmdWriteBuffer: send the `length` bytes at `data`; the first one starts the command. */
    method CmdWriteBuffer(data: nat, length: nat) returns (tx: Option<byte>)
      requires Valid() && !IsFull()
      requires length > 0 && data + length <= ram.Length
      modifies this, buffer
      ensures Valid()
      ensures start == old(start) && end == ModInc(old(end), size)
      ensures buffer[..] == old(buffer[..])[old(end) := WriteBuffer(ram[data], data + 1, data + length)]
      ensures Pending() == old(Pending()) + [WriteBuffer(ram[data], data + 1, data + length)]
      ensures tx == if old(start) == old(end) then Some(ram[data]) else None
    {
      tx := Enqueue(WriteBuffer(ram[data], data + 1, data + length));
    }

    /** cmdWriteByte: send `b` once and then `extraCount` more times. */
    method CmdWriteByte(b: byte, extraCount: nat) returns (tx: Option<byte>)
      requires Valid() && !IsFull()
      modifies this, buffer
      ensures Valid()
      ensures start == old(start) && end == ModInc(old(end), size)
      ensures buffer[..] == old(buffer[..])[old(end) := WriteByte(b, extraCount)]
      ensures Pending() == old(Pending()) + [WriteByte(b, extraCount)]
      ensures tx == if old(start) == old(end) then Some(b) else None
    {
      tx := Enqueue(WriteByte(b, extraCount));
    }

    /**
      The switch of spi_stc_isr: the current command takes the received byte
      `rx`, stores it where it reads to, and names its next byte to send, or
      None when it has finished.
    */
    method ExchangeCurrent(rx: byte) returns (next: Option<byte>)
      requires Valid() && start != end
      modifies buffer, ram
      ensures Valid()
      ensures var e := CommandStep(old(Pending())[0], old(ram[..]), rx);
        ram[..] == e.mem && next == e.next &&
        buffer[..] == old(buffer[..])[start := e.cmd] &&
        Pending() == [e.cmd] + old(Pending())[1..]
    {
      ghost var count := ModSub(end, start, size);
      var cmd := buffer[current];
      assert CommandOk(Pending()[0], ram.Length);
      match cmd {
      case ReadBuffer(b, cur, last) =>
        ram[cur] := rx;
        next := None;
        if cur + 1 != last {
          buffer[current] := ReadBuffer(b, cur + 1, last);
          next := Some(b);
        }
      case ReadUntilDifferent(b, data, target, remain) =>
        ram[data] := rx;
        next := None;
        if rx == target && remain != 0 {
          buffer[current] := ReadUntilDifferent(b, data, target, remain - 1);
          next := Some(b);
        }
      case WriteBuffer(b, cur, last) =>
        next := None;
        if cur != last {
          var out := ram[cur];
          buffer[current] := WriteBuffer(b, cur + 1, last);
          next := Some(out);
        }
      case WriteByte(b, n) =>
        next := None;
        if n != 0 {
          buffer[current] := WriteByte(b, n - 1);
          next := Some(b);
        }
      }
      WindowUpdateHead(old(buffer[..]), start, count, buffer[start]);
    }

    /**
      The end of spi_stc_isr once the current command has finished: `start`
      moves on by one and the next pending command, if any, becomes current
      and its first byte is returned for sending.
    */
    method Advance() returns (tx: Option<byte>)
      requires Valid() && start != end
      modifies this
      ensures Valid()
      ensures start == ModInc(old(start), size) && end == old(end)
      ensures Pending() == old(Pending())[1..]
      ensures tx == if Pending() == [] then None else Some(Pending()[0].sendByte)
    {
      ghost var count := ModSub(end, start, size);
      ghost var pending := Pending();
      WindowTail(buffer[..], start, count);
      start := ModInc(start, size);
      assert ModSub(end, start, size) == count - 1;
      assert Pending() == pending[1..];
      assert forall k :: 0 <= k < |Pending()| ==> Pending()[k] == pending[k + 1];
      tx := None;
      if start != end {
        current := start;
        tx := Some(buffer[current].sendByte);
      }
    }

    /**
      spi_stc_isr: the current command takes the received byte `rx`. Either
      it goes on and `tx` is its next byte, or it finishes, `start` moves on
      by one, and `tx` is the first byte of the next pending command, if any.
    */
    method Step(rx: byte) returns (tx: Option<byte>, finished: bool)
      requires Valid() && start != end
      modifies this, buffer, ram
      ensures Valid()
      ensures var e := CommandStep(old(Pending())[0], old(ram[..]), rx);
        ram[..] == e.mem && end == old(end) && finished == e.next.None? &&
        (e.next.Some? ==>
          start == old(start) && tx == e.next &&
          buffer[..] == old(buffer[..])[old(start) := e.cmd] &&
          Pending() == [e.cmd] + old(Pending())[1..]) &&
        (e.next.None? ==>
          start == ModInc(old(start), size) &&
          buffer[..] == old(buffer[..]) &&
          Pending() == old(Pending())[1..] &&
          tx == if Pending() == [] then None else Some(Pending()[0].sendByte))
    {
      var next := ExchangeCurrent(rx);
      if next.Some? {
        return next, false;
      }
      tx := Advance();
      finished := true;
    }
  }
}
