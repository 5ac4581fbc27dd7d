/**
 The I/O counters of a process: `do_io_accounting`, which adds up the counters of a
 thread group by walking its ring from whichever thread it is asked about.
 */
module IoAccounting {
  const SPAN: nat := 0x1_0000_0000_0000_0000

  /** `unsigned long long` */
  type u64 = x: int | 0 <= x < SPAN

  /** Its addition, which wraps. */
  function Plus(a: u64, b: u64): u64 {
    if a + b < SPAN then a + b else a + b - SPAN
  }

  /** `struct task_io_accounting` */
  datatype Counters = Counters(rchar: u64, wchar: u64, syscr: u64, syscw: u64, readBytes: u64, writeBytes: u64, cancelledWriteBytes: u64)

  const ZERO := Counters(0, 0, 0, 0, 0, 0, 0)

  /** `task_io_accounting_add` */
  function Add(a: Counters, b: Counters): Counters {
    Counters(Plus(a.rchar, b.rchar), Plus(a.wchar, b.wchar), Plus(a.syscr, b.syscr), Plus(a.syscw, b.syscw),
             Plus(a.readBytes, b.readBytes), Plus(a.writeBytes, b.writeBytes),
             Plus(a.cancelledWriteBytes, b.cancelledWriteBytes))
  }

  lemma AddLaws(a: Counters, b: Counters, c: Counters)
    ensures Add(Add(a, b), c) == Add(a, Add(b, c))
    ensures Add(a, b) == Add(b, a)
    ensures Add(a, ZERO) == a
  {
  }

  /** The sum over some threads, each counted once. */
  function Total(threads: seq<Counters>): Counters {
    if threads == [] then ZERO else Add(threads[0], Total(threads[1..]))
  }

  lemma {:induction false} TotalConcat(a: seq<Counters>, b: seq<Counters>)
    ensures Total(a + b) == Add(Total(a), Total(b))
    decreases |a|
  {
    if a == [] {
      assert a + b == b;
      AddLaws(Total(b), ZERO, ZERO);
    } else {
      assert (a + b)[1..] == a[1..] + b;
      TotalConcat(a[1..], b);
      AddLaws(a[0], Total(a[1..]), Total(b));
    }
  }

  lemma TotalAppend(a: seq<Counters>, x: Counters)
    ensures Total(a + [x]) == Add(Total(a), x)
  {
    TotalConcat(a, [x]);
    assert Total([x]) == Add(x, Total([])) by {
      assert [x][1..] == [];
    }
    AddLaws(x, ZERO, ZERO);
  }

  lemma TotalCommutes(a: seq<Counters>, b: seq<Counters>)
    ensures Total(a + b) == Total(b + a)
  {
    TotalConcat(a, b);
    TotalConcat(b, a);
    AddLaws(Total(a), Total(b), ZERO);
  }

  /** The ring read from thread `from` on, all the way round. */
  function RingFrom(ring: seq<Counters>, from: nat): seq<Counters>
    requires from <= |ring|
  {
    ring[from..] + ring[..from]
  }

  /** From whichever thread the ring is read, the sum is the same. */
  lemma TotalOfRotation(ring: seq<Counters>, from: nat)
    requires from <= |ring|
    ensures Total(RingFrom(ring, from)) == Total(ring)
  {
    TotalCommutes(ring[from..], ring[..from]);
    assert ring[..from] + ring[from..] == ring;
  }

  /** One of the seven counters. */
  function Counter(c: Counters, i: nat): nat {
    match i
    case 0 => c.rchar
    case 1 => c.wchar
    case 2 => c.syscr
    case 3 => c.syscw
    case 4 => c.readBytes
    case 5 => c.writeBytes
    case _ => c.cancelledWriteBytes
  }

  /** The exact sum of one counter over some threads. */
  function ExactSum(threads: seq<Counters>, i: nat): nat {
    if threads == [] then 0 else Counter(threads[0], i) + ExactSum(threads[1..], i)
  }

  /** A total is the exact sum modulo 2^64, counter by counter. */
  lemma {:induction false} TotalIsSum(threads: seq<Counters>, i: nat)
    ensures Counter(Total(threads), i) == ExactSum(threads, i) % 0x1_0000_0000_0000_0000
    decreases |threads|
  {
    if threads != [] {
      TotalIsSum(threads[1..], i);
      AddIsSum(threads[0], Total(threads[1..]), i);
      ModuloInside(Counter(threads[0], i), ExactSum(threads[1..], i));
    }
  }

  lemma AddIsSum(a: Counters, b: Counters, i: nat)
    ensures Counter(Add(a, b), i) == (Counter(a, i) + Counter(b, i)) % 0x1_0000_0000_0000_0000
  {
  }

  lemma ModuloInside(a: nat, b: nat)
    ensures (a + b % 0x1_0000_0000_0000_0000) % 0x1_0000_0000_0000_0000 == (a + b) % 0x1_0000_0000_0000_0000
  {
  }

  lemma WholeIsSum(signal: Counters, ring: seq<Counters>)
    ensures forall i :: 0 <= i < 7 ==>
      Counter(Add(signal, Total(ring)), i) == (Counter(signal, i) + ExactSum(ring, i)) % 0x1_0000_0000_0000_0000
  {
    forall i | 0 <= i < 7
      ensures Counter(Add(signal, Total(ring)), i) == (Counter(signal, i) + ExactSum(ring, i)) % 0x1_0000_0000_0000_0000
    {
      TotalIsSum(ring, i);
      AddIsSum(signal, Total(ring), i);
      ModuloInside(Counter(signal, i), ExactSum(ring, i));
    }
  }

  /** `do_io_accounting`: the counters it prints for the thread at index `task` of its
      group's ring. `locked` is the answer of `lock_task_sighand`; `signal` are the
      counters of the threads that have exited. */
  method DoIoAccounting(ring: seq<Counters>, task: nat, signal: Counters, whole: bool, locked: bool) returns (acct: Counters)
    requires task < |ring|
    ensures whole && locked ==> acct == Add(signal, Total(ring))
    ensures whole && locked ==> forall i :: 0 <= i < 7 ==>
      Counter(acct, i) == (Counter(signal, i) + ExactSum(ring, i)) % 0x1_0000_0000_0000_0000
    ensures !(whole && locked) ==> acct == ring[task]
  {
    acct := ring[task];
    if whole && locked {
      acct := Add(acct, signal);
      var t := if task + 1 == |ring| then 0 else task + 1;
      ghost var rot := RingFrom(ring, task);
      ghost var n := 1;
      assert Total(rot[..1]) == ring[task] by {
        TotalAppend([], ring[task]);
        AddLaws(ring[task], ZERO, ZERO);
        assert rot[..1] == [] + [ring[task]];
      }
      while t != task
        invariant t < |ring| && 1 <= n <= |ring|
        invariant t == if task + n < |ring| then task + n else task + n - |ring|
        invariant acct == Add(Total(rot[..n]), signal)
        decreases |ring| - n
      {
        assert rot[n] == ring[t] && rot[..n + 1] == rot[..n] + [rot[n]];
        TotalAppend(rot[..n], rot[n]);
        SwapLast(Total(rot[..n]), signal, ring[t]);
        acct := Add(acct, ring[t]);
        t := if t + 1 == |ring| then 0 else t + 1;
        n := n + 1;
      }
      assert rot[..n] == rot;
      TotalOfRotation(ring, task);
      AddLaws(Total(ring), signal, ZERO);
      WholeIsSum(signal, ring);
    }
  }

  lemma SwapLast(a: Counters, b: Counters, c: Counters)
    ensures Add(Add(a, b), c) == Add(Add(a, c), b)
  {
  }
}
