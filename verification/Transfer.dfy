/**
 Copying the memory of another process to a user buffer, a page at a time:
 `mem_read` for /proc/PID/mem and `environ_read` for /proc/PID/environ.
 */
module Transfer {
  import opened Common

  type byte = bv8

  const PAGE_SIZE: nat := 4096
  const INT_MAX: nat := 0x7fff_ffff
  const EIO: int := -5
  const ENOMEM: int := -12
  const EFAULT: int := -14
  const ESRCH: int := -3

  /** User addresses end here; nothing beyond can be accessed. */
  const TASK_SIZE: nat := 0x7fff_ffff_f000

  /** The memory of the target process; addresses beyond the sequence hold zeros. */
  type Memory = seq<byte>

  function ByteAt(mem: Memory, address: nat): byte {
    if address < |mem| then mem[address] else 0
  }

  /** The n bytes from an address on. */
  function Bytes(mem: Memory, start: nat, n: nat): (bytes: seq<byte>)
    ensures |bytes| == n
  {
    if n == 0 then [] else Bytes(mem, start, n - 1) + [ByteAt(mem, start + n - 1)]
  }

  /** What one turn of a loop meets: how much of the page is accessible, whether access
      to the process is still permitted, and whether the user buffer can be written. */
  datatype Turn = Turn(accessible: nat, permitted: bool, copied: bool)

  /** The answers that a call meets turn by turn; when they run out, nothing more can be read. */
  function TurnAt(turns: seq<Turn>, i: nat): Turn {
    if i < |turns| then turns[i] else Turn(0, true, true)
  }

  /** How much user memory there is from an address on. */
  function Room(at: nat): nat {
    if at < TASK_SIZE then TASK_SIZE - at else 0
  }

  /** What one turn transfers of `len` bytes at an address: `access_process_vm` reads from
      none to all of them. */
  function Accessed(t: Turn, at: nat, len: nat): nat {
    Min(Min(t.accessible, len), Room(at))
  }

  /** What a call meets before its loop. */
  datatype Entry = Entry(alive: bool, permitted: bool, page: bool, mm: bool, sameExec: bool)

  /** The user's side of a call, and what the kernel holds for it. */
  class Session {
    var buffer: seq<byte>
    var tasks: nat
    var pages: nat
    var mms: nat

    ghost predicate Holds(t: int, p: int, m: int)
      reads this
    {
      tasks == t && pages == p && mms == m
    }
  }

  lemma {:induction false} BytesAre(mem: Memory, start: nat, n: nat)
    ensures forall i :: 0 <= i < n ==> Bytes(mem, start, n)[i] == ByteAt(mem, start + i)
    decreases n
  {
    if n > 0 {
      BytesAre(mem, start, n - 1);
    }
  }

  /** The bytes up to an address within the memory are a part of it. */
  lemma BytesAreSlice(mem: Memory, start: nat, n: nat)
    requires start + n <= |mem|
    ensures Bytes(mem, start, n) == mem[start..start + n]
  {
    BytesAre(mem, start, n);
  }

  lemma SpanIsSlice(mem: Memory, from: nat, to: nat)
    ensures from <= to <= |mem| ==> Span(mem, from, to) == mem[from..to]
  {
    if from <= to <= |mem| {
      BytesAreSlice(mem, from, to - from);
    }
  }

  lemma {:induction false} BytesJoin(mem: Memory, start: nat, n: nat, k: nat)
    ensures Bytes(mem, start, n) + Bytes(mem, start + n, k) == Bytes(mem, start, n + k)
    decreases k
  {
    if k > 0 {
      BytesJoin(mem, start, n, k - 1);
      var last := [ByteAt(mem, start + n + k - 1)];
      assert Bytes(mem, start, n) + (Bytes(mem, start + n, k - 1) + last) == (Bytes(mem, start, n) + Bytes(mem, start + n, k - 1)) + last;
    }
  }

  /** The bytes from one address up to another. */
  function Span(mem: Memory, from: nat, to: nat): seq<byte> {
    Bytes(mem, from, if from < to then to - from else 0)
  }

  /** A buffer that ends with the bytes from a to b, and the bytes from b to c behind it. */
  lemma BufferGrows(base: seq<byte>, mem: Memory, a: nat, b: nat, c: nat)
    requires a <= b <= c
    ensures (base + Span(mem, a, b)) + Span(mem, b, c) == base + Span(mem, a, c)
  {
    BytesJoin(mem, a, b - a, c - b);
    var x, y := Span(mem, a, b), Span(mem, b, c);
    assert x + y == Span(mem, a, c);
    assert (base + x) + y == base + (x + y);
  }

  // ------------------------------------------------------- copying turn by turn

  /** What a turn of a loop comes to: nothing more is wanted, nothing could be read, the
      user buffer could not be written, or n bytes were delivered. */
  datatype Progress = AtEnd | Nothing | Fault | Delivered(n: nat) {
    function Bytes(): nat {
      if Delivered? then n else 0
    }
  }

  /** How a loop ends: what its last turn comes to, the place it has reached, and that turn. */
  datatype Outcome = Outcome(stop: Progress, src: nat, turn: nat)

  /** A turn that is to copy `want` bytes from an address on, a page at most. `checked` is
      whether access to the process is checked again. */
  function CopyTurn(t: Turn, at: nat, want: nat, checked: bool): (p: Progress)
    ensures p.Delivered? ==> 0 < p.n <= want
  {
    var got := Accessed(t, at, Min(want, PAGE_SIZE));
    if want == 0 then AtEnd
    else if got == 0 || (checked && !t.permitted) then Nothing
    else if !t.copied then Fault
    else Delivered(got)
  }

  /** A loop of such turns. */
  function Copying(turns: seq<Turn>, turn: nat, at: nat, want: nat, checked: bool): Outcome
    decreases want
  {
    var p := CopyTurn(TurnAt(turns, turn), at, want, checked);
    if p.Delivered? then Copying(turns, turn + 1, at + p.n, want - p.n, checked) else Outcome(p, at, turn)
  }

  lemma CopyStep(turns: seq<Turn>, turn: nat, at: nat, want: nat, checked: bool, p: Progress)
    requires p == CopyTurn(TurnAt(turns, turn), at, want, checked)
    ensures Copying(turns, turn, at, want, checked)
      == if p.Delivered? then Copying(turns, turn + 1, at + p.n, want - p.n, checked) else Outcome(p, at, turn)
  {
  }

  /** The turn reads something. */
  predicate Reads(t: Turn, checked: bool) {
    t.accessible > 0 && (checked ==> t.permitted)
  }

  /** Each of n turns reads something and can deliver it. */
  ghost predicate AllGood(turns: seq<Turn>, from: nat, n: nat, checked: bool) {
    forall i: nat :: from <= i < from + n ==> Reads(TurnAt(turns, i), checked) && TurnAt(turns, i).copied
  }

  /** What n turns can read in all, a page each at most. */
  function Supply(turns: seq<Turn>, from: nat, n: nat): nat
    decreases n
  {
    if n == 0 then 0 else Min(TurnAt(turns, from).accessible, PAGE_SIZE) + Supply(turns, from + 1, n - 1)
  }

  /** Good turns in a row supply that many bytes. */
  ghost predicate Enough(turns: seq<Turn>, from: nat, want: nat, checked: bool) {
    exists n: nat :: AllGood(turns, from, n, checked) && Supply(turns, from, n) >= want
  }

  /** Good turns in a row supply less, and the next one reads what cannot be delivered. */
  ghost predicate Faults(turns: seq<Turn>, from: nat, want: nat, checked: bool) {
    exists n: nat :: AllGood(turns, from, n, checked) && Supply(turns, from, n) < want
      && Reads(TurnAt(turns, from + n), checked) && !TurnAt(turns, from + n).copied
  }

  lemma EnoughNone(turns: seq<Turn>, from: nat, checked: bool)
    ensures Enough(turns, from, 0, checked) && !Faults(turns, from, 0, checked)
  {
    assert AllGood(turns, from, 0, checked) && Supply(turns, from, 0) == 0;
  }

  lemma EnoughLess(turns: seq<Turn>, from: nat, want: nat, less: nat, checked: bool)
    requires Enough(turns, from, want, checked) && less <= want
    ensures Enough(turns, from, less, checked)
  {
    var n: nat :| AllGood(turns, from, n, checked) && Supply(turns, from, n) >= want;
  }

  /** What the first turn leaves of the bytes wanted. */
  function WantAfter(t: Turn, want: nat): nat {
    want - Min(Min(t.accessible, PAGE_SIZE), want)
  }

  lemma AllGoodStep(turns: seq<Turn>, from: nat, n: nat, checked: bool)
    ensures var t := TurnAt(turns, from);
      AllGood(turns, from, n + 1, checked) <==> Reads(t, checked) && t.copied && AllGood(turns, from + 1, n, checked)
  {
  }

  lemma EnoughStep(turns: seq<Turn>, from: nat, want: nat, checked: bool)
    requires want > 0
    ensures var t := TurnAt(turns, from);
      Enough(turns, from, want, checked) <==>
        Reads(t, checked) && t.copied && Enough(turns, from + 1, WantAfter(t, want), checked)
  {
    var t := TurnAt(turns, from);
    if Enough(turns, from, want, checked) {
      var n: nat :| AllGood(turns, from, n, checked) && Supply(turns, from, n) >= want;
      AllGoodStep(turns, from, n - 1, checked);
      assert Supply(turns, from + 1, n - 1) >= WantAfter(t, want);
    }
    if Reads(t, checked) && t.copied && Enough(turns, from + 1, WantAfter(t, want), checked) {
      var n: nat :| AllGood(turns, from + 1, n, checked) && Supply(turns, from + 1, n) >= WantAfter(t, want);
      AllGoodStep(turns, from, n, checked);
      assert Supply(turns, from, n + 1) >= want;
    }
  }

  lemma FaultsStep(turns: seq<Turn>, from: nat, want: nat, checked: bool)
    requires want > 0
    ensures var t := TurnAt(turns, from);
      Faults(turns, from, want, checked) <==>
        Reads(t, checked) && (!t.copied || Faults(turns, from + 1, WantAfter(t, want), checked))
  {
    var t := TurnAt(turns, from);
    if Faults(turns, from, want, checked) {
      var n: nat :| AllGood(turns, from, n, checked) && Supply(turns, from, n) < want
        && Reads(TurnAt(turns, from + n), checked) && !TurnAt(turns, from + n).copied;
      if n > 0 {
        AllGoodStep(turns, from, n - 1, checked);
        assert Supply(turns, from + 1, n - 1) < WantAfter(t, want) && from + n == from + 1 + (n - 1);
      }
    }
    if Reads(t, checked) && !t.copied {
      assert AllGood(turns, from, 0, checked) && Supply(turns, from, 0) == 0;
    } else if Reads(t, checked) && Faults(turns, from + 1, WantAfter(t, want), checked) {
      var n: nat :| AllGood(turns, from + 1, n, checked) && Supply(turns, from + 1, n) < WantAfter(t, want)
        && Reads(TurnAt(turns, from + 1 + n), checked) && !TurnAt(turns, from + 1 + n).copied;
      AllGoodStep(turns, from, n, checked);
      assert Supply(turns, from, n + 1) < want && from + 1 + n == from + (n + 1);
    }
  }

  /** The loop ends at a turn that delivers nothing, within what is wanted and can be. */
  lemma {:induction false} CopyStops(turns: seq<Turn>, turn: nat, at: nat, want: nat, checked: bool)
    ensures var o := Copying(turns, turn, at, want, checked);
      && at <= o.src <= at + Min(want, Room(at)) && !o.stop.Delivered?
      && (o.stop.AtEnd? <==> o.src == at + want)
    decreases want
  {
    var p := CopyTurn(TurnAt(turns, turn), at, want, checked);
    if p.Delivered? {
      CopyStops(turns, turn + 1, at + p.n, want - p.n, checked);
    }
  }

  /** Exactly when the loop delivers all it can. */
  lemma {:induction false} CopyAllIff(turns: seq<Turn>, turn: nat, at: nat, want: nat, checked: bool)
    ensures var n := Min(want, Room(at));
      Copying(turns, turn, at, want, checked).src == at + n <==> Enough(turns, turn, n, checked)
    decreases want
  {
    var n, t := Min(want, Room(at)), TurnAt(turns, turn);
    CopyStops(turns, turn, at, want, checked);
    if n == 0 {
      EnoughNone(turns, turn, checked);
    } else {
      EnoughStep(turns, turn, n, checked);
      var p := CopyTurn(t, at, want, checked);
      if p.Delivered? {
        assert n - p.n == WantAfter(t, n) == Min(want - p.n, Room(at + p.n));
        CopyAllIff(turns, turn + 1, at + p.n, want - p.n, checked);
      }
    }
  }

  /** Exactly when the loop ends with a fault. */
  lemma {:induction false} CopyFaultsIff(turns: seq<Turn>, turn: nat, at: nat, want: nat, checked: bool)
    ensures Copying(turns, turn, at, want, checked).stop.Fault? <==> Faults(turns, turn, Min(want, Room(at)), checked)
    decreases want
  {
    var n, t := Min(want, Room(at)), TurnAt(turns, turn);
    if n == 0 {
      EnoughNone(turns, turn, checked);
    } else {
      FaultsStep(turns, turn, n, checked);
      var p := CopyTurn(t, at, want, checked);
      if p.Delivered? {
        assert n - p.n == WantAfter(t, n) == Min(want - p.n, Room(at + p.n));
        CopyFaultsIff(turns, turn + 1, at + p.n, want - p.n, checked);
      }
    }
  }

  /** Exactly when the first turn already reads nothing. */
  lemma FirstTurn(turns: seq<Turn>, at: nat, want: nat, checked: bool)
    ensures var o := Copying(turns, 0, at, want, checked);
      o.stop.Nothing? && o.src == at <==> want > 0 && (Room(at) == 0 || !Reads(TurnAt(turns, 0), checked))
  {
    var p := CopyTurn(TurnAt(turns, 0), at, want, checked);
    if p.Delivered? {
      CopyStops(turns, 1, at + p.n, want - p.n, checked);
    }
  }

  /** `copy_to_user` of the bytes from `from` up to `to`, behind those from `first` on. */
  method CopyToUser(s: Session, mem: Memory, ghost base: seq<byte>, ghost first: nat, from: nat, to: nat)
    requires first <= from <= to && s.buffer == base + Span(mem, first, from)
    modifies s`buffer
    ensures s.buffer == base + Span(mem, first, to)
  {
    BufferGrows(base, mem, first, from, to);
    s.buffer := s.buffer + Span(mem, from, to);
  }

  // ----------------------------------------------------------------------- mem

  /** The part of `mem_read` before its loop; each failure has its own result. */
  function MemRefusal(e: Entry): Option<int> {
    if !e.alive then Some(ESRCH)
    else if !e.permitted then Some(ESRCH)
    else if !e.page then Some(ENOMEM)
    else if !e.mm then Some(0)
    else if !e.sameExec then Some(EIO)
    else None
  }

  /** The result of `mem_read`: a turn that reads nothing is an error only if nothing was
      delivered before. */
  function MemResult(o: Outcome, pos: nat): int {
    match o.stop
    case Nothing => if o.src == pos then EIO else o.src - pos
    case Fault => EFAULT
    case _ => o.src - pos
  }

  /** What the loop guarantees: how much it delivers, and which of three results it has. */
  lemma MemFacts(turns: seq<Turn>, count: nat, pos: nat)
    ensures var o, all := Copying(turns, 0, pos, count, true), Min(count, Room(pos));
      && pos <= o.src <= pos + all
      && (o.src == pos + all <==> Enough(turns, 0, all, true))
      && (var ret := MemResult(o, pos);
          && (ret == EFAULT <==> Faults(turns, 0, all, true))
          && (ret == EIO <==> count > 0 && (Room(pos) == 0 || !Reads(TurnAt(turns, 0), true)))
          && (ret != EFAULT && ret != EIO ==> ret == o.src - pos))
  {
    CopyStops(turns, 0, pos, count, true);
    CopyAllIff(turns, 0, pos, count, true);
    CopyFaultsIff(turns, 0, pos, count, true);
    FirstTurn(turns, pos, count, true);
  }

  /** One turn of the loop, for a buffer that ends with the bytes from `first` on. */
  method MemReadTurn(s: Session, mem: Memory, t: Turn, src: nat, count: nat, ghost base: seq<byte>, ghost first: nat) returns (p: Progress)
    requires count > 0 && first <= src && s.buffer == base + Span(mem, first, src)
    modifies s`buffer
    ensures p == CopyTurn(t, src, count, true)
    ensures s.buffer == base + Span(mem, first, src + p.Bytes())
  {
    var thisLen := if count > PAGE_SIZE then PAGE_SIZE else count;
    var retval := Accessed(t, src, thisLen);
    if retval == 0 || !t.permitted {
      return Nothing;
    }
    if !t.copied {
      return Fault;
    }
    CopyToUser(s, mem, base, first, src, src + retval);
    return Delivered(retval);
  }

  /** The loop of `mem_read`, and the offset it stores. */
  method MemLoop(s: Session, mem: Memory, turns: seq<Turn>, count0: nat, ppos: nat) returns (ret: int, src: nat)
    requires count0 <= INT_MAX
    modifies s`buffer
    ensures var o := Copying(turns, 0, ppos, count0, true); ret == MemResult(o, ppos) && src == o.src
    ensures src >= ppos && s.buffer == old(s.buffer) + Span(mem, ppos, src)
  {
    ret, src := 0, ppos;
    var count: nat, turn: nat := count0, 0;
    ghost var base, goal := s.buffer, Copying(turns, turn, src, count, true);
    while count > 0
      invariant ppos <= src && ret == src - ppos
      invariant Copying(turns, turn, src, count, true) == goal
      invariant s.buffer == base + Span(mem, ppos, src)
    {
      var p := MemReadTurn(s, mem, TurnAt(turns, turn), src, count, base, ppos);
      CopyStep(turns, turn, src, count, true, p);
      if !p.Delivered? {
        ret := if p.Fault? then EFAULT else if ret == 0 then EIO else ret;
        assert ret == MemResult(Outcome(p, src, turn), ppos);
        break;
      }
      ret := ret + p.n;
      src := src + p.n;
      count := count - p.n;
      turn := turn + 1;
    }
  }

  /** `mem_read`. The offset moves by exactly the bytes delivered, on every path, and the
      bytes are those of the target at the old offset. All that can be is delivered
      exactly if the turns supply enough. The result is the number of bytes, or -EIO
      exactly if the first turn reads nothing, or -EFAULT exactly if a turn faults. */
  method MemRead(s: Session, mem: Memory, e: Entry, turns: seq<Turn>, count0: nat, ppos: nat) returns (ret: int, ppos': nat)
    requires count0 <= INT_MAX
    modifies s
    ensures s.Holds(old(s.tasks), old(s.pages), old(s.mms))
    ensures ppos <= ppos' <= ppos + Min(count0, Room(ppos)) && s.buffer == old(s.buffer) + Span(mem, ppos, ppos')
    ensures ppos' <= |mem| ==> s.buffer == old(s.buffer) + mem[ppos..ppos']
    ensures ret >= 0 ==> ret == ppos' - ppos
    ensures MemRefusal(e).None? <==> e.alive && e.permitted && e.page && e.mm && e.sameExec
    ensures MemRefusal(e).Some? ==> ret == MemRefusal(e).value && ppos' == ppos
    ensures !e.alive || !e.permitted ==> ret == -3
    ensures e.alive && e.permitted && !e.page ==> ret == -12
    ensures e.alive && e.permitted && e.page && !e.mm ==> ret == 0
    ensures e.alive && e.permitted && e.page && e.mm && !e.sameExec ==> ret == -5
    ensures MemRefusal(e).None? ==>
      var o, all := Copying(turns, 0, ppos, count0, true), Min(count0, Room(ppos));
      && ret == MemResult(o, ppos) && ppos' == o.src
      && (ppos' == ppos + all <==> Enough(turns, 0, all, true))
      && (ppos + count0 <= 0x7fff_ffff_f000 ==> (ppos' == ppos + count0 <==> Enough(turns, 0, count0, true)))
      && (ret == -14 <==> Faults(turns, 0, all, true))
      && (ret == -5 <==> count0 > 0 && (Room(ppos) == 0 || !Reads(TurnAt(turns, 0), true)))
      && (ret < 0 ==> ret == -14 || ret == -5)
  {
    ret, ppos' := ESRCH, ppos;
    if !e.alive {
      return;
    }
    s.tasks := s.tasks + 1;
    if e.permitted {
      ret := ENOMEM;
      if e.page {
        s.pages := s.pages + 1;
        ret := 0;
        if e.mm {
          s.mms := s.mms + 1;
          ret := EIO;
          if e.sameExec {
            ret, ppos' := MemLoop(s, mem, turns, count0, ppos);
            MemFacts(turns, count0, ppos);
          }
          s.mms := s.mms - 1;
        }
        s.pages := s.pages - 1;
      }
    }
    s.tasks := s.tasks - 1;
    SpanIsSlice(mem, ppos, ppos');
  }

  // ------------------------------------------------------------------- environ

  /** `(int) x` for a value of 64 bits: the value modulo 2^32 that fits into an int. */
  function ToInt(x: int): (i: int)
    ensures -0x8000_0000 <= i <= INT_MAX
    decreases if x < 0 then -2 * x else 2 * x + 1
  {
    if x > INT_MAX then ToInt(x - 0x1_0000_0000)
    else if x < -0x8000_0000 then ToInt(x + 0x1_0000_0000)
    else x
  }

  lemma {:induction false} ToIntIsModulo(x: int) returns (k: int)
    ensures ToInt(x) == x + k * 0x1_0000_0000
    decreases if x < 0 then -2 * x else 2 * x + 1
  {
    k := 0;
    if x > INT_MAX {
      k := ToIntIsModulo(x - 0x1_0000_0000);
      k := k - 1;
    } else if x < -0x8000_0000 {
      k := ToIntIsModulo(x + 0x1_0000_0000);
      k := k + 1;
    }
  }

  lemma {:induction false} ToIntAtMost(x: int)
    requires x > 0
    ensures ToInt(x) <= x && (ToInt(x) == x <==> x <= INT_MAX)
    decreases x
  {
    if x > 0x1_0000_0000 {
      ToIntAtMost(x - 0x1_0000_0000);
    }
  }

  lemma ToIntRepeats(x: int)
    ensures ToInt(x) == ToInt(x - 0x1_0000_0000)
  {
  }

  /** As long as the value is positive it counts down like the exact one. */
  lemma {:induction false} ToIntCountsDown(x: int, n: nat)
    requires n <= ToInt(x)
    ensures ToInt(x - n) == ToInt(x) - n
    decreases if x < 0 then -2 * x else 2 * x + 1
  {
    if x > INT_MAX {
      ToIntCountsDown(x - 0x1_0000_0000, n);
      ToIntRepeats(x - n);
    } else if x < -0x8000_0000 {
      ToIntCountsDown(x + 0x1_0000_0000, n);
    }
  }

  /** Where the environment of the target lies. */
  datatype Environ = Environ(start: nat, end: nat)

  /** What is left of the environment at an offset. */
  function Left(env: Environ, pos: nat): nat {
    if env.start + pos < env.end then env.end - (env.start + pos) else 0
  }

  /** What the code takes to be left. */
  function Seen(env: Environ, pos: nat): nat {
    var len := ToInt(env.end - (env.start + pos));
    if len > 0 then len else 0
  }

  /** What can be read from an offset on. */
  function Reach(env: Environ, pos: nat): nat {
    Min(Seen(env, pos), Room(env.start + pos))
  }

  /** The offset is not below the end, but so far beyond it that the length comes out
      positive. */
  predicate Wraps(env: Environ, pos: nat) {
    env.end <= env.start + pos < TASK_SIZE && ToInt(env.end - (env.start + pos)) > 0
  }

  /** The length computed at the offset is what is left. */
  predicate Accurate(env: Environ, pos: nat) {
    env.end <= TASK_SIZE && Left(env, pos) <= INT_MAX && !Wraps(env, pos)
  }

  lemma ReachIsLeft(env: Environ, pos: nat)
    ensures Reach(env, pos) <= Left(env, pos) <==> !Wraps(env, pos)
    ensures env.end <= TASK_SIZE ==> (Reach(env, pos) == Left(env, pos) <==> Accurate(env, pos))
    ensures Accurate(env, pos) ==> Seen(env, pos) <= Room(env.start + pos) || Room(env.start + pos) == 0
  {
    var x := env.end - (env.start + pos);
    if x > 0 {
      ToIntAtMost(x);
    }
  }

  lemma ReachCountsDown(env: Environ, pos: nat, n: nat)
    requires n <= Seen(env, pos)
    ensures Seen(env, pos + n) == Seen(env, pos) - n
    ensures n <= Reach(env, pos) ==> Reach(env, pos + n) == Reach(env, pos) - n
  {
    if Seen(env, pos) > 0 {
      ToIntCountsDown(env.end - (env.start + pos), n);
      assert env.end - (env.start + (pos + n)) == env.end - (env.start + pos) - n;
    }
  }

  function EnvRefusal(e: Entry): Option<int> {
    if !e.alive || !e.permitted then Some(ESRCH)
    else if !e.page then Some(ENOMEM)
    else if !e.mm then Some(0)
    else None
  }

  /** A turn of `environ_read`, when `count` bytes are still wanted. */
  function EnvTurn(env: Environ, t: Turn, src: nat, count: nat): (p: Progress)
    ensures p.Delivered? ==> 0 < p.n <= count
  {
    var len := ToInt(env.end - (env.start + src));
    if len <= 0 || count == 0 then AtEnd
    else
      var got := Accessed(t, env.start + src, Min(len, Min(count, PAGE_SIZE)));
      if got == 0 then Nothing
      else if !t.copied then Fault
      else Delivered(got)
  }

  /** The loop of `environ_read` from a turn on. */
  function EnvFrom(env: Environ, turns: seq<Turn>, turn: nat, src: nat, count: nat): Outcome
    decreases count
  {
    var p := EnvTurn(env, TurnAt(turns, turn), src, count);
    if p.Delivered? then EnvFrom(env, turns, turn + 1, src + p.n, count - p.n) else Outcome(p, src, turn)
  }

  /** The result of `environ_read`: a turn that reads nothing makes it 0, whatever was
      delivered before. */
  function EnvResult(o: Outcome, pos: nat): int {
    match o.stop
    case Nothing => 0
    case Fault => EFAULT
    case _ => o.src - pos
  }

  lemma EnvTurnIsCopyTurn(env: Environ, t: Turn, src: nat, count: nat)
    ensures EnvTurn(env, t, src, count) == CopyTurn(t, env.start + src, Min(count, Seen(env, src)), false)
  {
  }

  lemma WantCountsDown(env: Environ, src: nat, count: nat, n: nat)
    requires n <= Min(count, Seen(env, src))
    ensures Min(count - n, Seen(env, src + n)) == Min(count, Seen(env, src)) - n
  {
    ReachCountsDown(env, src, n);
  }

  /** Although the length is computed anew in each turn, the loop copies as if it had
      wanted a fixed number of bytes from the beginning. */
  lemma {:induction false} EnvIsCopying(env: Environ, turns: seq<Turn>, turn: nat, src: nat, count: nat, want: nat)
    requires want == Min(count, Seen(env, src))
    ensures var o, c := EnvFrom(env, turns, turn, src, count), Copying(turns, turn, env.start + src, want, false);
      o.stop == c.stop && env.start + o.src == c.src && o.turn == c.turn
    decreases count
  {
    var p := EnvTurn(env, TurnAt(turns, turn), src, count);
    EnvTurnIsCopyTurn(env, TurnAt(turns, turn), src, count);
    if p.Delivered? {
      WantCountsDown(env, src, count, p.n);
      EnvIsCopying(env, turns, turn + 1, src + p.n, count - p.n, want - p.n);
    }
  }

  /** The result tells how many bytes were delivered: nothing can be read to begin with, or
      the turns supply all that the code takes to be left, up to the count. */
  ghost predicate CountKept(env: Environ, turns: seq<Turn>, count: nat, pos: nat) {
    var want, room := Min(count, Seen(env, pos)), Room(env.start + pos);
    TurnAt(turns, 0).accessible == 0 || room == 0 || (want <= room && Enough(turns, 0, want, false))
  }

  /** The same for any copying: it stops where it began, or where it wanted to get to. */
  lemma CopyKeepsCountIff(turns: seq<Turn>, at: nat, want: nat)
    ensures var o := Copying(turns, 0, at, want, false);
      o.stop.AtEnd? || (o.stop.Nothing? && o.src == at) <==>
        TurnAt(turns, 0).accessible == 0 || Room(at) == 0 || (want <= Room(at) && Enough(turns, 0, want, false))
  {
    CopyStops(turns, 0, at, want, false);
    CopyAllIff(turns, 0, at, want, false);
    FirstTurn(turns, at, want, false);
  }

  /** What the loop guarantees: how much it delivers, and which of three results it has. */
  lemma EnvFacts(env: Environ, turns: seq<Turn>, count: nat, pos: nat)
    ensures var o, all := EnvFrom(env, turns, 0, pos, count), Min(count, Reach(env, pos));
      && pos <= o.src <= pos + all
      && (o.src == pos + all <==> Enough(turns, 0, all, false))
      && (var ret := EnvResult(o, pos);
          && (ret == o.src - pos <==> CountKept(env, turns, count, pos))
          && (ret == EFAULT <==> Faults(turns, 0, all, false))
          && (ret == o.src - pos || ret == EFAULT || ret == 0))
  {
    var at, want := env.start + pos, Min(count, Seen(env, pos));
    EnvIsCopying(env, turns, 0, pos, count, want);
    assert Min(want, Room(at)) == Min(count, Reach(env, pos));
    CopyStops(turns, 0, at, want, false);
    CopyAllIff(turns, 0, at, want, false);
    CopyFaultsIff(turns, 0, at, want, false);
    CopyKeepsCountIff(turns, at, want);
  }

  /** One turn of the loop, for a buffer that ends with the bytes from `first` on. */
  method EnvironReadTurn(s: Session, mem: Memory, env: Environ, turns: seq<Turn>, turn: nat, src: nat, count: nat,
                         ghost base: seq<byte>, ghost first: nat)
    returns (p: Progress)
    requires count > 0 && first <= env.start + src && s.buffer == base + Span(mem, first, env.start + src)
    modifies s`buffer
    ensures p.Delivered? ==> 0 < p.n <= count
    ensures EnvFrom(env, turns, turn, src, count)
      == if p.Delivered? then EnvFrom(env, turns, turn + 1, src + p.n, count - p.n) else Outcome(p, src, turn)
    ensures s.buffer == base + Span(mem, first, env.start + src + p.Bytes())
  {
    var t := TurnAt(turns, turn);
    var thisLen := ToInt(env.end - (env.start + src));
    if thisLen <= 0 {
      return AtEnd;
    }
    var maxLen := if count > PAGE_SIZE then PAGE_SIZE else count;
    thisLen := if thisLen > maxLen then maxLen else thisLen;
    var retval := Accessed(t, env.start + src, thisLen);
    if retval <= 0 {
      return Nothing;
    }
    if !t.copied {
      return Fault;
    }
    CopyToUser(s, mem, base, first, env.start + src, env.start + src + retval);
    return Delivered(retval);
  }

  /** The loop of `environ_read`, and the offset it stores. */
  method EnvironLoop(s: Session, mem: Memory, env: Environ, turns: seq<Turn>, count0: nat, ppos: nat) returns (ret: int, src: nat)
    requires count0 <= INT_MAX
    modifies s`buffer
    ensures var o := EnvFrom(env, turns, 0, ppos, count0); ret == EnvResult(o, ppos) && src == o.src
    ensures src >= ppos && s.buffer == old(s.buffer) + Span(mem, env.start + ppos, env.start + src)
  {
    ret, src := 0, ppos;
    var count: nat, turn: nat := count0, 0;
    ghost var base, first, goal := s.buffer, env.start + ppos, EnvFrom(env, turns, turn, src, count);
    while count > 0
      invariant ppos <= src && ret == src - ppos
      invariant EnvFrom(env, turns, turn, src, count) == goal
      invariant s.buffer == base + Span(mem, first, env.start + src)
    {
      var p := EnvironReadTurn(s, mem, env, turns, turn, src, count, base, first);
      if !p.Delivered? {
        ret := if p.Nothing? then 0 else if p.Fault? then EFAULT else ret;
        break;
      }
      ret := ret + p.n;
      src := src + p.n;
      count := count - p.n;
      turn := turn + 1;
    }
  }

  /** `environ_read`. The offset moves by exactly the bytes delivered, which are those of
      the target behind the old offset, and at most what can be read from there; they lie
      within the environment unless the length wraps. All that can be is delivered
      exactly if the turns supply enough. The result is the number of bytes exactly if
      that is kept; otherwise it is -EFAULT, exactly if a turn faults, or 0. */
  method EnvironRead(s: Session, mem: Memory, e: Entry, env: Environ, turns: seq<Turn>, count0: nat, ppos: nat) returns (ret: int, ppos': nat)
    requires count0 <= INT_MAX
    modifies s
    ensures s.Holds(old(s.tasks), old(s.pages), old(s.mms))
    ensures ppos <= ppos' <= ppos + Min(count0, Reach(env, ppos))
    ensures s.buffer == old(s.buffer) + Span(mem, env.start + ppos, env.start + ppos')
    ensures env.start + ppos' <= |mem| ==> s.buffer == old(s.buffer) + mem[env.start + ppos..env.start + ppos']
    ensures !Wraps(env, ppos) ==> ppos' - ppos <= Left(env, ppos)
    ensures ret > 0 ==> ret == ppos' - ppos
    ensures EnvRefusal(e).None? <==> e.alive && e.permitted && e.page && e.mm
    ensures EnvRefusal(e).Some? ==> ret == EnvRefusal(e).value && ppos' == ppos
    ensures !e.alive || !e.permitted ==> ret == -3
    ensures e.alive && e.permitted && !e.page ==> ret == -12
    ensures e.alive && e.permitted && e.page && !e.mm ==> ret == 0
    ensures EnvRefusal(e).None? ==>
      var o, all := EnvFrom(env, turns, 0, ppos, count0), Min(count0, Reach(env, ppos));
      && ret == EnvResult(o, ppos) && ppos' == o.src
      && (ppos' == ppos + all <==> Enough(turns, 0, all, false))
      && (ret == ppos' - ppos <==> CountKept(env, turns, count0, ppos))
      && (ret == -14 <==> Faults(turns, 0, all, false))
      && (ret == ppos' - ppos || ret == -14 || ret == 0)
  {
    ReachIsLeft(env, ppos);
    ret, ppos' := ESRCH, ppos;
    if !e.alive {
      return;
    }
    s.tasks := s.tasks + 1;
    if e.permitted {
      ret := ENOMEM;
      if e.page {
        s.pages := s.pages + 1;
        ret := 0;
        if e.mm {
          s.mms := s.mms + 1;
          ret, ppos' := EnvironLoop(s, mem, env, turns, count0, ppos);
          EnvFacts(env, turns, count0, ppos);
          s.mms := s.mms - 1;
        }
        s.pages := s.pages - 1;
      }
    }
    s.tasks := s.tasks - 1;
    SpanIsSlice(mem, env.start + ppos, env.start + ppos');
  }

  // ------------------------------------------- exactly what a reader can rely on

  /** A turn and a read of one byte that meet no obstacle. */
  const ONE_TURN: seq<Turn> := [Turn(1, true, true)]

  lemma OneByte(env: Environ, pos: nat)
    ensures var o := EnvFrom(env, ONE_TURN, 0, pos, 1);
      o.src == pos + Min(1, Reach(env, pos)) && (Reach(env, pos) == 0 ==> EnvResult(o, pos) == 0)
  {
  }

  /** Exactly when nothing beyond the environment can be read: at offsets where the length
      does not wrap. */
  lemma WithinIff(env: Environ, pos: nat)
    ensures (forall turns, count: nat :: EnvFrom(env, turns, 0, pos, count).src - pos <= Left(env, pos)) <==> !Wraps(env, pos)
  {
    ReachIsLeft(env, pos);
    if !Wraps(env, pos) {
      forall turns, count: nat
        ensures EnvFrom(env, turns, 0, pos, count).src - pos <= Left(env, pos)
      {
        EnvFacts(env, turns, count, pos);
      }
    } else {
      OneByte(env, pos);
      assert EnvFrom(env, ONE_TURN, 0, pos, 1).src - pos > Left(env, pos);
    }
  }

  const FULL_TURN: seq<Turn> := [Turn(PAGE_SIZE, true, true)]

  /** At 4 GiB behind its start, a whole page is read from outside an environment of one
      page. */
  lemma ReadOutside()
    ensures var env := Environ(0x7ffc_0000_0000, 0x7ffc_0000_1000);
      && Left(env, 0x1_0000_0000) == 0
      && EnvFrom(env, FULL_TURN, 0, 0x1_0000_0000, PAGE_SIZE) == Outcome(AtEnd, 0x1_0000_1000, 1)
  {
  }

  /** A page is delivered, the next one cannot be read, and the result is 0. */
  lemma CountLost()
    ensures var env := Environ(0x1000, 0x3000);
      var o := EnvFrom(env, FULL_TURN, 0, 0, 2 * PAGE_SIZE);
      o.src == PAGE_SIZE && EnvResult(o, 0) == 0
  {
  }

  /** One read of a reader: what it meets before and in the loop, and its size. */
  datatype ReadCall = ReadCall(entry: Entry, turns: seq<Turn>, count: nat)

  function ReadPos(env: Environ, call: ReadCall, pos: nat): nat {
    if EnvRefusal(call.entry).Some? then pos else EnvFrom(env, call.turns, 0, pos, call.count).src
  }

  function ReadRet(env: Environ, call: ReadCall, pos: nat): int {
    if EnvRefusal(call.entry).Some? then EnvRefusal(call.entry).value
    else EnvResult(EnvFrom(env, call.turns, 0, pos, call.count), pos)
  }

  /** The offset after several reads. */
  function PosAfter(env: Environ, calls: seq<ReadCall>, pos: nat): nat
    decreases |calls|
  {
    if calls == [] then pos else PosAfter(env, calls[1..], ReadPos(env, calls[0], pos))
  }

  /** The reads end: one of positive size, which is not refused and whose turns supply its
      size, returns 0. */
  ghost predicate Ends(env: Environ, last: ReadCall, pos: nat) {
    && last.count > 0 && EnvRefusal(last.entry).None? && Enough(last.turns, 0, last.count, false)
    && ReadRet(env, last, pos) == 0
  }

  lemma ReadMoves(env: Environ, call: ReadCall, pos: nat)
    requires Accurate(env, pos)
    ensures var pos' := ReadPos(env, call, pos);
      pos <= pos' <= pos + Left(env, pos) && Accurate(env, pos') && Left(env, pos') == Left(env, pos) - (pos' - pos)
  {
    ReachIsLeft(env, pos);
    if EnvRefusal(call.entry).None? {
      EnvFacts(env, call.turns, call.count, pos);
    }
  }

  lemma {:induction false} ReadsMove(env: Environ, calls: seq<ReadCall>, pos: nat)
    requires Accurate(env, pos)
    ensures var pos' := PosAfter(env, calls, pos);
      pos <= pos' <= pos + Left(env, pos) && Accurate(env, pos') && Left(env, pos') == Left(env, pos) - (pos' - pos)
    decreases |calls|
  {
    if calls != [] {
      ReadMoves(env, calls[0], pos);
      ReadsMove(env, calls[1..], ReadPos(env, calls[0], pos));
    }
  }

  /** Where the length is accurate, reads that end have come to the end. */
  lemma EndsAtEnd(env: Environ, last: ReadCall, pos: nat)
    requires Accurate(env, pos) && Ends(env, last, pos)
    ensures Left(env, pos) == 0 && ReadPos(env, last, pos) == pos
  {
    ReachIsLeft(env, pos);
    EnvFacts(env, last.turns, last.count, pos);
    EnoughLess(last.turns, 0, last.count, Min(last.count, Seen(env, pos)), false);
    EnoughLess(last.turns, 0, last.count, Min(last.count, Reach(env, pos)), false);
  }

  const ONE_READ: ReadCall := ReadCall(Entry(true, true, true, true, true), ONE_TURN, 1)

  /** Reads of one byte each get everything that can be read. */
  lemma {:induction false} DrainedByOnes(env: Environ, pos: nat) returns (calls: seq<ReadCall>)
    ensures PosAfter(env, calls, pos) == pos + Reach(env, pos)
    decreases Reach(env, pos)
  {
    calls := [];
    if Reach(env, pos) > 0 {
      OneByte(env, pos);
      ReachCountsDown(env, pos, 1);
      var rest := DrainedByOnes(env, pos + 1);
      calls := [ONE_READ] + rest;
      assert calls[1..] == rest;
    }
  }

  /** Exactly when a reader gets the rest of an environment in user memory, whatever its
      reads meet until they end: if not more than INT_MAX bytes are left and the length
      does not wrap. */
  lemma ReassemblesIff(env: Environ, pos: nat)
    requires env.end <= TASK_SIZE
    ensures (forall calls, last :: Ends(env, last, PosAfter(env, calls, pos)) ==>
               ReadPos(env, last, PosAfter(env, calls, pos)) == pos + Left(env, pos))
      <==> Left(env, pos) <= INT_MAX && !Wraps(env, pos)
  {
    ReachIsLeft(env, pos);
    if Accurate(env, pos) {
      forall calls, last | Ends(env, last, PosAfter(env, calls, pos))
        ensures ReadPos(env, last, PosAfter(env, calls, pos)) == pos + Left(env, pos)
      {
        ReadsMove(env, calls, pos);
        EndsAtEnd(env, last, PosAfter(env, calls, pos));
      }
    } else {
      var calls := DrainedByOnes(env, pos);
      var end := pos + Reach(env, pos);
      ReachCountsDown(env, pos, Reach(env, pos));
      OneByte(env, end);
      assert AllGood(ONE_TURN, 0, 1, false) && Supply(ONE_TURN, 0, 1) == 1;
      assert Ends(env, ONE_READ, PosAfter(env, calls, pos)) && ReadPos(env, ONE_READ, end) == end;
    }
  }

  /** One more read of a reader that has received everything from `first` to `pos`. */
  method ReadMore(s: Session, mem: Memory, env: Environ, call: ReadCall, ghost base: seq<byte>, ghost first: nat, pos: nat)
    returns (ret: int, pos': nat)
    requires first <= pos && call.count <= INT_MAX
    requires s.buffer == base + Span(mem, env.start + first, env.start + pos)
    modifies s
    ensures ret == ReadRet(env, call, pos) && pos' == ReadPos(env, call, pos) && pos' >= pos
    ensures s.buffer == base + Span(mem, env.start + first, env.start + pos')
  {
    ret, pos' := EnvironRead(s, mem, call.entry, env, call.turns, call.count, pos);
    BufferGrows(base, mem, env.start + first, env.start + pos, env.start + pos');
  }

  /** A reader that makes any reads and then a last one. It receives what lies between the
      offsets; and if the length is accurate where it starts and the reads have ended,
      this is the environment from there to its end. */
  method ReadsReassembleEnviron(s: Session, mem: Memory, env: Environ, calls: seq<ReadCall>, last: ReadCall, ppos: nat)
    returns (ret: int, pos: nat)
    requires forall i :: 0 <= i < |calls| ==> calls[i].count <= INT_MAX
    requires last.count <= INT_MAX
    modifies s
    ensures var p := PosAfter(env, calls, ppos); ret == ReadRet(env, last, p) && pos == ReadPos(env, last, p)
    ensures pos >= ppos && s.buffer == old(s.buffer) + Span(mem, env.start + ppos, env.start + pos)
    ensures env.start + pos <= |mem| ==> s.buffer == old(s.buffer) + mem[env.start + ppos..env.start + pos]
    ensures Accurate(env, ppos) && Ends(env, last, PosAfter(env, calls, ppos)) ==>
      && s.buffer == old(s.buffer) + Span(mem, env.start + ppos, env.end)
      && (env.start + ppos <= env.end <= |mem| ==> s.buffer == old(s.buffer) + mem[env.start + ppos..env.end])
  {
    pos := ppos;
    var i := 0;
    while i < |calls|
      invariant i <= |calls| && ppos <= pos && PosAfter(env, calls[i..], pos) == PosAfter(env, calls, ppos)
      invariant s.buffer == old(s.buffer) + Span(mem, env.start + ppos, env.start + pos)
    {
      ret, pos := ReadMore(s, mem, env, calls[i], old(s.buffer), ppos, pos);
      assert calls[i..][1..] == calls[i + 1..];
      i := i + 1;
    }
    ghost var p := pos;
    ret, pos := ReadMore(s, mem, env, last, old(s.buffer), ppos, pos);
    if Accurate(env, ppos) && Ends(env, last, p) {
      ReadsMove(env, calls, ppos);
      EndsAtEnd(env, last, p);
    }
    SpanIsSlice(mem, env.start + ppos, env.start + pos);
    SpanIsSlice(mem, env.start + ppos, env.end);
  }
}
