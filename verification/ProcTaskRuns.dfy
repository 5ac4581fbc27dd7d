/**
 What a reader of /proc/TGID/task may rely on over a whole run of calls, while
 threads exit and join, also between two steps of one call.
 */
module ProcTaskRuns {
  import opened Common
  import opened Names
  import opened Listing
  import opened ProcTask

  // ------------------------------------------------------- how a group evolves

  /** The thread at ordinal i joined before the one at j, and has another tid. */
  predicate InOrder(g: Group, i: nat, j: nat)
    requires i < j < |g.ring|
  {
    g.ring[i].stamp < g.ring[j].stamp && g.ring[i].tid != g.ring[j].tid
  }

  ghost predicate WellFormed(g: Group) {
    && (forall i: nat, j: nat :: i < j < |g.ring| ==> InOrder(g, i, j))
    && (forall i :: 0 <= i < |g.ring| ==> g.ring[i].stamp < g.born && 0 < g.ring[i].tid < 0x8000_0000)
  }

  /** The leader stays; a thread is either still there or joined with a new stamp. */
  ghost predicate Later(g: Group, g': Group) {
    && g.born <= g'.born && g.ring[0] == g'.ring[0]
    && forall x :: x in g'.ring && x.stamp < g.born ==> x in g.ring
  }

  ghost predicate LawfulAt(h: History, t: nat) {
    WellFormed(h.At(t)) && Later(h.At(t), h.At(t + 1))
  }

  ghost predicate Lawful(h: History) {
    forall t: nat :: LawfulAt(h, t)
  }

  lemma {:induction false} LawfulLater(h: History, a: nat, b: nat)
    requires Lawful(h) && a <= b
    ensures WellFormed(h.At(a)) && WellFormed(h.At(b)) && Later(h.At(a), h.At(b))
    decreases b - a
  {
    assert LawfulAt(h, a) && LawfulAt(h, b);
    if a < b {
      LawfulLater(h, a + 1, b);
    }
  }

  /** A thread is found at its own ordinal, by identity as by tid. */
  lemma FoundAtOrdinal(g: Group, i: nat)
    requires WellFormed(g) && i < |g.ring|
    ensures IndexOf(g.ring, g.ring[i], 0) == i == IndexOfTid(g.ring, g.ring[i].tid, 0)
  {
    IndexOfFinds(g.ring, g.ring[i], 0, i);
    IndexOfTidFinds(g.ring, g.ring[i].tid, 0, i);
    var j, k := IndexOf(g.ring, g.ring[i], 0), IndexOfTid(g.ring, g.ring[i].tid, 0);
    assert j < i ==> InOrder(g, j, i);
    assert k < i ==> InOrder(g, k, i);
  }

  /** The thread behind one of the ring is the next in it; behind the last, and behind one
      that is gone, there is nobody. */
  lemma ThreadAfterExactly(g: Group, x: Thread)
    requires WellFormed(g)
    ensures forall i :: 0 <= i < |g.ring| && g.ring[i] == x ==>
      ThreadAfter(g, x) == if i + 1 < |g.ring| then Some(g.ring[i + 1]) else None
    ensures x !in g.ring ==> ThreadAfter(g, x).None?
  {
    forall i | 0 <= i < |g.ring| && g.ring[i] == x
      ensures ThreadAfter(g, x) == if i + 1 < |g.ring| then Some(g.ring[i + 1]) else None
    {
      FoundAtOrdinal(g, i);
    }
  }

  /** A call starts with the thread that carries the remembered tid, wherever it stands, as
      long as it is not the first call; and with the thread at the ordinal if nothing is
      remembered, or nobody carries the tid. */
  lemma StartThreadExactly(g: Group, tid: nat, nr: nat)
    requires WellFormed(g)
    ensures forall i :: 0 <= i < |g.ring| && g.ring[i].tid == tid && nr > 0 ==> StartThread(g, tid, nr) == Some(g.ring[i])
    ensures nr == 0 || (forall i :: 0 <= i < |g.ring| ==> g.ring[i].tid != tid) ==>
      StartThread(g, tid, nr) == if nr < |g.ring| then Some(g.ring[nr]) else None
  {
    forall i | 0 <= i < |g.ring| && g.ring[i].tid == tid && nr > 0
      ensures StartThread(g, tid, nr) == Some(g.ring[i])
    {
      FoundAtOrdinal(g, i);
    }
  }

  lemma InRing(g: Group, x: Thread) returns (i: nat)
    requires WellFormed(g) && x in g.ring
    ensures i < |g.ring| && g.ring[i] == x && IndexOf(g.ring, x, 0) == i == IndexOfTid(g.ring, x.tid, 0)
  {
    i :| 0 <= i < |g.ring| && g.ring[i] == x;
    FoundAtOrdinal(g, i);
  }

  /** A thread that joined before another one stands before it. */
  lemma EarlierIsBefore(g: Group, i: nat, j: nat)
    requires WellFormed(g) && i < |g.ring| && j < |g.ring|
    ensures g.ring[i].stamp < g.ring[j].stamp <==> i < j
  {
    assert i < j ==> InOrder(g, i, j);
    assert j < i ==> InOrder(g, j, i);
  }

  /** A thread that survives never moves to a higher ordinal. */
  lemma {:induction false} OrdinalFalls(g: Group, g': Group, i: nat) returns (j: nat)
    requires WellFormed(g) && WellFormed(g') && Later(g, g')
    requires i < |g'.ring| && g'.ring[i].stamp < g.born
    ensures i <= j < |g.ring| && g.ring[j] == g'.ring[i]
    decreases i
  {
    assert g'.ring[i] in g.ring;
    j := InRing(g, g'.ring[i]);
    if i > 0 {
      EarlierIsBefore(g', i - 1, i);
      var j' := OrdinalFalls(g, g', i - 1);
      EarlierIsBefore(g, j', j);
    }
  }

  /** From ordinal n on, all stamps are at least s. */
  predicate Beyond(g: Group, n: nat, s: nat) {
    n < |g.ring| ==> g.ring[n].stamp >= s
  }

  lemma BeyondFrom(g: Group, i: nat, n: nat)
    requires WellFormed(g) && i < |g.ring|
    ensures Beyond(g, n, g.ring[i].stamp) <==> i <= n
  {
    if n < |g.ring| && n != i {
      EarlierIsBefore(g, i, n);
      EarlierIsBefore(g, n, i);
    }
  }

  lemma BeyondLater(g: Group, g': Group, n: nat, s: nat)
    requires WellFormed(g) && WellFormed(g') && Later(g, g')
    requires s <= g.born && Beyond(g, n, s)
    ensures Beyond(g', n, s)
  {
    if n < |g'.ring| && g'.ring[n].stamp < s {
      var j := OrdinalFalls(g, g', n);
      if n < j {
        EarlierIsBefore(g, n, j);
      }
    }
  }

  // --------------------------------------------------------- nothing twice

  /** Entries at consecutive offsets from pos on: the dots, then threads in the
      order of their stamps. */
  ghost predicate Rising(out: seq<Entry>, pos: nat, lo: nat, hi: nat) {
    && lo <= hi
    && (forall i :: 0 <= i < |out| ==> RightAt(out[i], pos + i, lo, hi))
    && (forall i, j :: 0 <= i < j < |out| && pos + i >= 2 ==> out[i].what.task < out[j].what.task)
  }

  ghost predicate RightAt(e: Entry, pos: nat, lo: nat, hi: nat) {
    && e.pos == pos
    && if pos == 0 then e.what.Dot? else if pos == 1 then e.what.DotDot? else e.what.TaskDir? && lo <= e.what.task < hi
  }

  lemma RisingConcat(a: seq<Entry>, b: seq<Entry>, pos: nat, lo: nat, mid: nat, hi: nat)
    requires Rising(a, pos, lo, mid) && Rising(b, pos + |a|, mid, hi)
    ensures Rising(a + b, pos, lo, hi)
  {
  }

  /** A thread that may be offered next at ordinal n when all below lo is done. */
  ghost predicate Offerable(g: Group, n: nat, lo: nat, x: Thread) {
    x in g.ring && x.stamp >= lo && Beyond(g, n, x.stamp)
  }

  /** The state between two calls: nothing below lo will be listed any more. */
  ghost predicate Between(g: Group, pos: nat, version: nat, lo: nat) {
    if pos < 2 then version == 0 && lo == 0
    else
      && lo <= g.born && Beyond(g, pos - 2, lo)
      && (pos > 2 && version != 0 ==> forall x :: x in g.ring && x.tid == version ==> Offerable(g, pos - 2, lo, x))
  }

  /** What a call can check when it resumes: whoever carries the remembered tid now is
      not beyond the ordinal of the cursor. */
  predicate InPlace(g: Group, pos: nat, version: nat) {
    var i := IndexOfTid(g.ring, version, 0);
    pos > 2 && version != 0 && i < |g.ring| ==> i <= pos - 2
  }

  /** The instant of the latest look, when the next one is at `now`. */
  function Latest(now: nat): nat {
    if now > 0 then now - 1 else 0
  }

  /** The state between two calls outlasts what happens to the group meanwhile, also if
      the remembered tid has a new holder, as long as that one is in place. */
  lemma BetweenLater(g: Group, g': Group, pos: nat, version: nat, lo: nat)
    requires WellFormed(g) && WellFormed(g') && Later(g, g')
    requires Between(g, pos, version, lo) && InPlace(g', pos, version)
    ensures Between(g', pos, version, lo)
  {
    if pos >= 2 {
      BeyondLater(g, g', pos - 2, lo);
      forall x | pos > 2 && version != 0 && x in g'.ring && x.tid == version
        ensures Offerable(g', pos - 2, lo, x)
      {
        var i := InRing(g', x);
        assert x.stamp >= g.born || x in g.ring;
        BeyondFrom(g', i, pos - 2);
      }
    }
  }

  /** In the state between two calls the remembered thread is in place. */
  lemma BetweenInPlace(g: Group, pos: nat, version: nat, lo: nat)
    requires WellFormed(g) && Between(g, pos, version, lo)
    ensures InPlace(g, pos, version)
  {
    var i := IndexOfTid(g.ring, version, 0);
    if pos > 2 && version != 0 && i < |g.ring| {
      assert Offerable(g, pos - 2, lo, g.ring[i]);
      BeyondFrom(g, i, pos - 2);
    }
  }

  /** Stamps rise by at least one from an ordinal to the next. */
  lemma BeyondNext(g: Group, n: nat, s: nat)
    requires WellFormed(g) && Beyond(g, n, s)
    ensures Beyond(g, n + 1, s + 1)
  {
    if n + 1 < |g.ring| {
      EarlierIsBefore(g, n, n + 1);
    }
  }

  lemma SuccessorOfferable(g: Group, n: nat, x: Thread)
    requires WellFormed(g) && Beyond(g, n, x.stamp)
    ensures var y := ThreadAfter(g, x);
      y.Some? ==> Offerable(g, n + 1, x.stamp + 1, y.value)
  {
    var i := IndexOf(g.ring, x, 0);
    if i + 1 < |g.ring| {
      BeyondFrom(g, i, n);
      EarlierIsBefore(g, i, i + 1);
      BeyondFrom(g, i + 1, n + 1);
    }
  }

  /** After x has been delivered, the thread behind it may be offered at the next ordinal. */
  lemma AfterDelivery(h: History, now: nat, pos: nat, lo: nat, x: Thread)
    requires Lawful(h) && now > 0 && pos >= 2 && Offerable(h.At(now - 1), pos - 2, lo, x)
    ensures Between(h.At(now), pos + 1, 0, x.stamp + 1)
    ensures var y := ThreadAfter(h.At(now), x);
      y.Some? ==> Offerable(h.At(now), pos - 1, x.stamp + 1, y.value)
  {
    LawfulLater(h, now - 1, now);
    BeyondLater(h.At(now - 1), h.At(now), pos - 2, x.stamp);
    BeyondNext(h.At(now), pos - 2, x.stamp);
    SuccessorOfferable(h.At(now), pos - 2, x);
  }

  /** A refusal parks the cursor on x. */
  lemma AfterRefusal(h: History, now: nat, pos: nat, lo: nat, x: Thread)
    requires Lawful(h) && pos >= 2 && Between(h.At(now), pos, 0, lo) && Offerable(h.At(now), pos - 2, lo, x)
    ensures Between(h.At(now), pos, x.tid, lo)
  {
    LawfulLater(h, now, now);
    forall y | y in h.At(now).ring && y.tid == x.tid
      ensures y == x
    {
      var i := InRing(h.At(now), x);
      var j := InRing(h.At(now), y);
    }
  }

  /** A scan delivers threads in the order of their stamps and leaves the state right. */
  lemma {:induction false} ScanOrder(h: History, now: nat, cur: Option<Thread>, pos: nat, room: nat, lo: nat) returns (hi: nat)
    requires Lawful(h) && now > 0 && pos >= 2
    requires Between(h.At(now - 1), pos, 0, lo)
    requires cur.Some? ==> Offerable(h.At(now - 1), pos - 2, lo, cur.value)
    ensures var r := Scan(h, now, cur, pos, room);
      && r.now >= now && r.pos == pos + |r.out|
      && Rising(r.out, pos, lo, hi) && Between(h.At(r.now - 1), r.pos, r.version, hi)
    decreases room
  {
    hi := lo;
    if cur.None? {
    } else if room == 0 {
      AfterRefusal(h, now - 1, pos, lo, cur.value);
    } else {
      var x, y := cur.value, ThreadAfter(h.At(now), cur.value);
      AfterDelivery(h, now, pos, lo, x);
      hi := ScanOrder(h, now + 1, y, pos + 1, room - 1, x.stamp + 1);
      RisingConcat([ThreadEntry(x, pos)], Scan(h, now + 1, y, pos + 1, room - 1).out, pos, lo, x.stamp + 1, hi);
      ScanTaken(h, now, x, pos, room);
    }
  }

  /** The thread a call starts with. */
  lemma StartOfferable(g: Group, pos: nat, version: nat, lo: nat)
    requires pos >= 2 && Between(g, pos, version, lo)
    ensures var x := StartThread(g, version, pos - 2);
      x.Some? ==> Offerable(g, pos - 2, lo, x.value)
  {
  }

  lemma DotsRise(pos: nat, n: nat, lo: nat)
    requires n <= |Dots(pos)|
    ensures Rising(Dots(pos)[..n], pos, lo, lo)
    ensures PastDots(pos) == pos + |Dots(pos)|
  {
  }

  lemma RisingPastDots(pos: nat, out: seq<Entry>, lo: nat, hi: nat)
    requires Rising(out, PastDots(pos), lo, hi)
    ensures Rising(Dots(pos) + out, pos, lo, hi) && PastDots(pos) + |out| == pos + |Dots(pos) + out|
  {
  }

  /** What a call leaves: entries in order, and the state between two calls. */
  ghost predicate Continues(h: History, pos: nat, lo: nat, r: Call, hi: nat) {
    Rising(r.out, pos, lo, hi) && r.pos == pos + |r.out| && Between(h.At(Latest(r.now)), r.pos, r.version, hi)
  }

  lemma ContinuesPastDots(h: History, pos: nat, lo: nat, r: Call, hi: nat)
    requires Continues(h, PastDots(pos), lo, r, hi)
    ensures Continues(h, pos, lo, r.After(Dots(pos)), hi)
  {
    RisingPastDots(pos, r.out, lo, hi);
  }

  lemma CallOrderAtDots(h: History, now: nat, pos: nat, version: nat, room: nat, lo: nat)
    requires Between(h.At(now), pos, version, lo) && room < |Dots(pos)|
    ensures Continues(h, pos, lo, RefusedAtDots(now, pos, version, room), lo)
  {
    DotsRise(pos, room, lo);
  }

  lemma ScanContinues(h: History, now: nat, pos: nat, version: nat, room: nat, lo: nat) returns (hi: nat)
    requires Lawful(h) && pos >= 2 && Between(h.At(now), pos, version, lo)
    ensures Continues(h, pos, lo, Scan(h, now + 1, StartThread(h.At(now), version, pos - 2), pos, room), hi)
  {
    StartOfferable(h.At(now), pos, version, lo);
    hi := ScanOrder(h, now + 1, StartThread(h.At(now), version, pos - 2), pos, room, lo);
  }

  lemma CallOrderPastDots(h: History, now: nat, pos: nat, version: nat, room: nat, lo: nat) returns (hi: nat)
    requires Lawful(h) && Between(h.At(now), pos, version, lo) && |Dots(pos)| <= room
    ensures Continues(h, pos, lo, TaskCall(h, now, pos, version, room), hi)
  {
    var start, left := PastDots(pos), room - |Dots(pos)|;
    hi := ScanContinues(h, now, start, version, left, lo);
    ContinuesPastDots(h, pos, lo, Scan(h, now + 1, StartThread(h.At(now), version, start - 2), start, left), hi);
    CallIsScan(h, now, pos, version, room);
  }

  lemma CallOrder(h: History, now: nat, pos: nat, version: nat, room: nat, lo: nat) returns (hi: nat)
    requires Lawful(h) && Between(h.At(now), pos, version, lo)
    ensures Continues(h, pos, lo, TaskCall(h, now, pos, version, room), hi)
  {
    if room < |Dots(pos)| {
      hi := lo;
      CallOrderAtDots(h, now, pos, version, room, lo);
    } else {
      hi := CallOrderPastDots(h, now, pos, version, room, lo);
    }
  }

  /** Successive calls on one open file; the first one looks at instant `now`. */
  function Run(h: History, now: nat, pos: nat, version: nat, rooms: seq<nat>): Call
    decreases |rooms|
  {
    if rooms == [] then Call(now, pos, version, [], None)
    else
      var r := TaskCall(h, now, pos, version, rooms[0]);
      Run(h, r.now, r.pos, r.version, rooms[1..]).After(r.out)
  }

  lemma RunOne(h: History, now: nat, pos: nat, version: nat, room: nat, rooms: seq<nat>)
    ensures var r := TaskCall(h, now, pos, version, room);
      Run(h, now, pos, version, [room] + rooms) == Run(h, r.now, r.pos, r.version, rooms).After(r.out)
  {
  }

  /** Whenever a call resumes, the holder of the remembered tid is in place. */
  ghost predicate ResumesInPlace(h: History, now: nat, pos: nat, version: nat, rooms: seq<nat>)
    decreases |rooms|
  {
    rooms != [] ==>
      && InPlace(h.At(now), pos, version)
      && var r := TaskCall(h, now, pos, version, rooms[0]);
         ResumesInPlace(h, r.now, r.pos, r.version, rooms[1..])
  }

  lemma {:induction false} RunOrder(h: History, now: nat, pos: nat, version: nat, rooms: seq<nat>, lo: nat) returns (hi: nat)
    requires Lawful(h) && Between(h.At(Latest(now)), pos, version, lo)
    requires ResumesInPlace(h, now, pos, version, rooms)
    ensures Rising(Run(h, now, pos, version, rooms).out, pos, lo, hi)
    decreases |rooms|
  {
    hi := lo;
    if rooms != [] {
      var r := TaskCall(h, now, pos, version, rooms[0]);
      LawfulLater(h, Latest(now), now);
      BetweenLater(h.At(Latest(now)), h.At(now), pos, version, lo);
      var mid := CallOrder(h, now, pos, version, rooms[0], lo);
      hi := RunOrder(h, r.now, r.pos, r.version, rooms[1..], mid);
      RisingConcat(r.out, Run(h, r.now, r.pos, r.version, rooms[1..]).out, pos, lo, mid, hi);
    }
  }

  ghost predicate NothingTwice(out: seq<Entry>) {
    forall i, j :: 0 <= i < j < |out| ==> out[i].what != out[j].what
  }

  lemma RisingNothingTwice(out: seq<Entry>, pos: nat, lo: nat, hi: nat)
    requires Rising(out, pos, lo, hi)
    ensures NothingTwice(out)
  {
    forall i, j | 0 <= i < j < |out|
      ensures out[i].what != out[j].what
    {
      assert RightAt(out[i], pos + i, lo, hi) && RightAt(out[j], pos + j, lo, hi);
    }
  }

  /** Listing the directory from the start, no entry appears twice and the offsets
      are 0, 1, 2 and so on, whatever the buffers refuse, whichever threads exit
      (even the one the cursor is parked on) and whoever joins, as long as at every
      resumption a new holder of the remembered tid, if any, is in place. */
  lemma RunListsNothingTwice(h: History, rooms: seq<nat>)
    requires Lawful(h) && ResumesInPlace(h, 0, 0, 0, rooms)
    ensures var out := Run(h, 0, 0, 0, rooms).out;
      NothingTwice(out) && forall i :: 0 <= i < |out| ==> out[i].pos == i
  {
    var hi := RunOrder(h, 0, 0, 0, rooms, 0);
    var out := Run(h, 0, 0, 0, rooms).out;
    RisingNothingTwice(out, 0, 0, hi);
    forall i | 0 <= i < |out|
      ensures out[i].pos == i
    {
      assert RightAt(out[i], i, 0, hi);
    }
  }

  // ---------------------------------------- exactly when nothing is listed twice

  /** While the group does not change, the holder of the remembered tid stays in place. */
  lemma {:induction false} RestStaysInPlace(g: Group, now: nat, pos: nat, version: nat, rooms: seq<nat>, lo: nat)
    requires Lawful(Timeline([], g)) && Between(g, pos, version, lo)
    ensures ResumesInPlace(Timeline([], g), now, pos, version, rooms)
    decreases |rooms|
  {
    if rooms != [] {
      var h := Timeline([], g);
      LawfulLater(h, 0, 0);
      BetweenInPlace(g, pos, version, lo);
      var r := TaskCall(h, now, pos, version, rooms[0]);
      var hi := CallOrder(h, now, pos, version, rooms[0], lo);
      RestStaysInPlace(g, r.now, r.pos, r.version, rooms[1..], hi);
    }
  }

  lemma NextInOrder(g: Group, n: nat)
    requires Lawful(Timeline([], g)) && n < |g.ring|
    ensures ThreadAfter(g, g.ring[n]) == AtOrdinal(g, n + 1)
  {
    LawfulLater(Timeline([], g), 0, 0);
    FoundAtOrdinal(g, n);
  }

  lemma ScanTakenAtRest(g: Group, now: nat, n: nat, pos: nat, room: nat)
    requires Lawful(Timeline([], g)) && n < |g.ring| && room > 0
    ensures Scan(Timeline([], g), now, AtOrdinal(g, n), pos, room)
      == Scan(Timeline([], g), now + 1, AtOrdinal(g, n + 1), pos + 1, room - 1).After([ThreadEntry(g.ring[n], pos)])
  {
    NextInOrder(g, n);
    ScanTaken(Timeline([], g), now, g.ring[n], pos, room);
  }

  /** A scan of a group at rest that starts at ordinal k and has enough room delivers
      all threads from there on, whatever offset it starts at. */
  lemma {:induction false} FullScan(g: Group, now: nat, k: nat, pos: nat, room: nat)
    requires Lawful(Timeline([], g)) && k < |g.ring| <= k + room
    ensures var r := Scan(Timeline([], g), now, Some(g.ring[k]), pos, room);
      && r.pos == pos + |g.ring| - k && r.version == 0
      && |r.out| == |g.ring| - k && r.out[|r.out| - 1].what == TaskDir(g.ring[|g.ring| - 1].stamp)
    decreases room
  {
    var h := Timeline([], g);
    ScanTaken(h, now, g.ring[k], pos, room);
    NextInOrder(g, k);
    if k + 1 < |g.ring| {
      FullScan(g, now + 1, k + 1, pos + 1, room - 1);
    }
  }

  /** The call that makes that scan ends with the last thread of the ring. */
  ghost predicate RunsToTheEnd(g: Group, k: nat, pos: nat, r: Call) {
    && k < |g.ring| && r.pos == pos + |g.ring| - k && r.version == 0
    && |r.out| == |g.ring| - k && r.out[|r.out| - 1].what == TaskDir(g.ring[|g.ring| - 1].stamp)
  }

  lemma FullCall(g: Group, now: nat, k: nat, pos: nat, version: nat)
    requires Lawful(Timeline([], g)) && pos >= 2 && k < |g.ring|
    requires StartThread(g, version, pos - 2) == Some(g.ring[k])
    ensures RunsToTheEnd(g, k, pos, TaskCall(Timeline([], g), now, pos, version, |g.ring|))
  {
    CallIsScan(Timeline([], g), now, pos, version, |g.ring|);
    FullScan(g, now + 1, k, pos, |g.ring|);
  }

  lemma LastTwice(a: seq<Entry>, b: seq<Entry>)
    requires a != [] && b != [] && a[|a| - 1].what == b[|b| - 1].what
    ensures !NothingTwice(a + (b + []))
  {
    var out := a + (b + []);
    assert out[|a| - 1].what == out[|a| + |b| - 1].what;
  }

  /** With the holder of the remembered tid out of place, two calls deliver the last
      thread twice: the first jumps ahead, the second goes by the ordinal. */
  lemma OutOfPlaceListsTwice(g: Group, pos: nat, version: nat)
    requires Lawful(Timeline([], g)) && !InPlace(g, pos, version)
    ensures !NothingTwice(Run(Timeline([], g), 0, pos, version, [|g.ring|, |g.ring|]).out)
  {
    var h, n := Timeline([], g), |g.ring|;
    var r := TaskCall(h, 0, pos, version, n);
    FullCall(g, 0, IndexOfTid(g.ring, version, 0), pos, version);
    var s := TaskCall(h, r.now, r.pos, r.version, n);
    FullCall(g, r.now, r.pos - 2, r.pos, r.version);
    LastTwice(r.out, s.out);
    RunOne(h, r.now, r.pos, r.version, n, []);
    RunOne(h, 0, pos, version, n, [n]);
    assert [n] + [n] == [n, n] && [n] + [] == [n];
  }

  /** Exactly when a resumed listing lists nothing twice: in the group as the next call
      finds it, a holder of the remembered tid is not beyond the ordinal of the cursor.
      If it is beyond, there are buffers that make a thread appear twice. */
  lemma NothingTwiceIff(g0: Group, g: Group, pos: nat, version: nat, lo: nat)
    requires WellFormed(g0) && Later(g0, g) && Lawful(Timeline([], g))
    requires Between(g0, pos, version, lo)
    ensures (forall rooms :: NothingTwice(Run(Timeline([], g), 0, pos, version, rooms).out)) <==> InPlace(g, pos, version)
  {
    var h := Timeline([], g);
    LawfulLater(h, 0, 0);
    if InPlace(g, pos, version) {
      BetweenLater(g0, g, pos, version, lo);
      forall rooms
        ensures NothingTwice(Run(h, 0, pos, version, rooms).out)
      {
        RestStaysInPlace(g, 0, pos, version, rooms, lo);
        var hi := RunOrder(h, 0, pos, version, rooms, lo);
        RisingNothingTwice(Run(h, 0, pos, version, rooms).out, pos, lo, hi);
      }
    } else {
      OutOfPlaceListsTwice(g, pos, version);
    }
  }

  const THREAD_A := Thread(0, 11)
  const THREAD_B := Thread(1, 12)
  const THREAD_C := Thread(2, 13)
  const NEWCOMER := Thread(3, 12)
  const GROUP_BEFORE: Group := Snapshot([THREAD_A, THREAD_B, THREAD_C], 3, {})
  const GROUP_AFTER: Group := Snapshot([THREAD_A, THREAD_C, NEWCOMER], 4, {})
  const REUSE_HISTORY: History := Timeline([GROUP_BEFORE, GROUP_BEFORE], GROUP_AFTER)

  lemma ReuseFirstCall()
    ensures TaskCall(REUSE_HISTORY, 0, 0, 0, 3)
      == Call(2, 3, 12, Dots(0) + [ThreadEntry(THREAD_A, 2)], Some(ThreadEntry(THREAD_B, 3)))
  {
  }

  lemma ReuseLaterCalls()
    ensures TaskCall(REUSE_HISTORY, 2, 3, 12, 9) == Call(4, 4, 0, [ThreadEntry(NEWCOMER, 3)], None)
    ensures TaskCall(REUSE_HISTORY, 4, 4, 0, 9) == Call(6, 5, 0, [ThreadEntry(NEWCOMER, 4)], None)
  {
    var h, ring := REUSE_HISTORY, GROUP_AFTER.ring;
    assert IndexOfTid(ring, 12, 1) == 2 && IndexOf(ring, NEWCOMER, 1) == 2;
    assert StartThread(GROUP_AFTER, 12, 1) == Some(NEWCOMER) && ThreadAfter(GROUP_AFTER, NEWCOMER) == None;
    assert Scan(h, 3, Some(NEWCOMER), 3, 9) == Call(4, 4, 0, [ThreadEntry(NEWCOMER, 3)], None);
    assert StartThread(GROUP_AFTER, 0, 2) == Some(NEWCOMER);
    assert Scan(h, 5, Some(NEWCOMER), 4, 9) == Call(6, 5, 0, [ThreadEntry(NEWCOMER, 4)], None);
  }

  lemma ReuseIsLawful()
    ensures Lawful(REUSE_HISTORY)
  {
    assert WellFormed(GROUP_BEFORE) && WellFormed(GROUP_AFTER);
    forall t: nat
      ensures LawfulAt(REUSE_HISTORY, t)
    {
      assert REUSE_HISTORY.At(t) == if t < 2 then GROUP_BEFORE else GROUP_AFTER;
      assert REUSE_HISTORY.At(t + 1) == if t < 1 then GROUP_BEFORE else GROUP_AFTER;
    }
  }

  /** The condition can fail. The cursor is parked on the thread with tid 12,
      which exits while a newcomer receives 12: the next call jumps to the newcomer, and
      the one after it, going by ordinal, lists the newcomer a second time. */
  lemma ReusedTidIsListedTwice()
    ensures Lawful(REUSE_HISTORY)
    ensures var out := Run(REUSE_HISTORY, 0, 0, 0, [3, 9, 9]).out;
      |out| == 5 && out[3].what == out[4].what == TaskDir(NEWCOMER.stamp)
  {
    var h := REUSE_HISTORY;
    ReuseIsLawful();
    ReuseFirstCall();
    ReuseLaterCalls();
    RunOne(h, 4, 4, 0, 9, []);
    RunOne(h, 2, 3, 12, 9, [9]);
    RunOne(h, 0, 0, 0, 3, [9, 9]);
  }

  // ------------------------------------------------------------ nobody missed

  ghost predicate Steady(h: History, from: nat, to: nat, x: Thread) {
    forall t: nat :: from <= t < to ==> x in h.At(t).ring
  }

  ghost predicate Listed(x: Thread, out: seq<Entry>) {
    exists i :: 0 <= i < |out| && out[i] == ThreadEntry(x, out[i].pos)
  }

  lemma ListedIn(x: Thread, a: seq<Entry>, b: seq<Entry>)
    requires Listed(x, a) || Listed(x, b)
    ensures Listed(x, a + b)
  {
    if Listed(x, a) {
      var i :| 0 <= i < |a| && a[i] == ThreadEntry(x, a[i].pos);
      assert (a + b)[i] == a[i];
    } else {
      var i :| 0 <= i < |b| && b[i] == ThreadEntry(x, b[i].pos);
      assert (a + b)[|a| + i] == b[i];
    }
  }

  /** The thread just delivered is still there when the code looks for its successor. */
  ghost predicate CursorKept(h: History, now: nat, cur: Option<Thread>, room: nat)
    decreases room
  {
    cur.Some? && room > 0 ==>
      && cur.value in h.At(now).ring
      && CursorKept(h, now + 1, ThreadAfter(h.At(now), cur.value), room - 1)
  }

  /** The thread parked on is still there when the next call starts. */
  ghost predicate ParkedAlive(g: Group, g': Group, tid: nat) {
    tid != 0 ==> forall y :: y in g.ring && y.tid == tid ==> y in g'.ring
  }

  /** Throughout a run, the cursor never stands on a thread that has exited. */
  ghost predicate Kept(h: History, now: nat, pos: nat, version: nat, rooms: seq<nat>)
    decreases |rooms|
  {
    rooms != [] ==>
      && ParkedAlive(h.At(Latest(now)), h.At(now), version)
      && (|Dots(pos)| <= rooms[0] ==>
           CursorKept(h, now + 1, StartThread(h.At(now), version, PastDots(pos) - 2), rooms[0] - |Dots(pos)|))
      && var r := TaskCall(h, now, pos, version, rooms[0]);
         Kept(h, r.now, r.pos, r.version, rooms[1..])
  }

  /** x is still to come: the cursor is parked on it, or on a thread before it. */
  ghost predicate Pending(g: Group, version: nat, x: Thread) {
    version != 0 && exists y :: y in g.ring && y.tid == version && y.stamp <= x.stamp
  }

  /** The successor of a thread is not beyond any later thread of the ring. */
  lemma SuccessorIsNext(g: Group, c: Thread, x: Thread)
    requires WellFormed(g) && c in g.ring && x in g.ring && c.stamp <= x.stamp
    ensures c != x ==> ThreadAfter(g, c).Some?
    ensures c != x ==> ThreadAfter(g, c).value in g.ring && ThreadAfter(g, c).value.stamp <= x.stamp
  {
    var i := InRing(g, c);
    var j := InRing(g, x);
    EarlierIsBefore(g, j, i);
    if i + 1 < j {
      EarlierIsBefore(g, i + 1, j);
    }
  }

  lemma ParksBefore(h: History, now: nat, c: Thread, x: Thread)
    requires Lawful(h) && c in h.At(now).ring && c.stamp <= x.stamp
    ensures Pending(h.At(now), c.tid, x)
  {
    LawfulLater(h, now, now);
    var i := InRing(h.At(now), c);
  }

  lemma {:induction false} ScanCovers(h: History, now: nat, c: Thread, pos: nat, room: nat, x: Thread)
    requires Lawful(h) && now > 0 && CursorKept(h, now, Some(c), room)
    requires c in h.At(now - 1).ring && c.stamp <= x.stamp
    requires Steady(h, now - 1, Scan(h, now, Some(c), pos, room).now, x)
    ensures var r := Scan(h, now, Some(c), pos, room);
      r.now >= now && (Listed(x, r.out) || Pending(h.At(r.now - 1), r.version, x))
    decreases room
  {
    if room == 0 {
      ParksBefore(h, now - 1, c, x);
    } else {
      var e, y := ThreadEntry(c, pos), ThreadAfter(h.At(now), c);
      var rest := Scan(h, now + 1, y, pos + 1, room - 1);
      ScanTaken(h, now, c, pos, room);
      ScanAdvances(h, now + 1, y, pos + 1, room - 1);
      if c == x {
        assert [e][0] == ThreadEntry(x, pos);
        ListedIn(x, [e], rest.out);
      } else {
        assert x in h.At(now).ring;
        LawfulLater(h, now, now);
        SuccessorIsNext(h.At(now), c, x);
        ScanCovers(h, now + 1, y.value, pos + 1, room - 1, x);
        if Listed(x, rest.out) {
          ListedIn(x, [e], rest.out);
        }
      }
    }
  }

  lemma {:induction false} ScanAdvances(h: History, now: nat, cur: Option<Thread>, pos: nat, room: nat)
    ensures var r := Scan(h, now, cur, pos, room); r.now >= now && r.pos >= pos
    decreases room
  {
    if cur.Some? && room > 0 {
      ScanAdvances(h, now + 1, ThreadAfter(h.At(now), cur.value), pos + 1, room - 1);
    }
  }

  /** A call starts at or before every thread that is still to come. */
  lemma StartsBefore(h: History, now: nat, nr: nat, version: nat, x: Thread)
    requires Lawful(h) && ParkedAlive(h.At(Latest(now)), h.At(now), version) && x in h.At(now).ring
    requires nr > 0 ==> Pending(h.At(Latest(now)), version, x)
    ensures var c := StartThread(h.At(now), version, nr);
      c.Some? && c.value in h.At(now).ring && c.value.stamp <= x.stamp
  {
    var g, g' := h.At(Latest(now)), h.At(now);
    LawfulLater(h, Latest(now), now);
    if nr > 0 {
      var y :| y in g.ring && y.tid == version && y.stamp <= x.stamp;
      var j := InRing(g', y);
    } else {
      var j := InRing(g', x);
      EarlierIsBefore(g', j, 0);
    }
  }

  lemma {:induction false} RunCovers(h: History, now: nat, pos: nat, version: nat, rooms: seq<nat>, x: Thread)
    requires Lawful(h) && Kept(h, now, pos, version, rooms)
    requires if pos < 2 then version == 0 else Pending(h.At(Latest(now)), version, x)
    requires Steady(h, Latest(now), Run(h, now, pos, version, rooms).now, x)
    ensures var r := Run(h, now, pos, version, rooms);
      && r.now >= now
      && (Listed(x, r.out) || if r.pos < 2 then r.version == 0 else Pending(h.At(Latest(r.now)), r.version, x))
    decreases |rooms|
  {
    RunAdvances(h, now, pos, version, rooms);
    if rooms != [] {
      var r := TaskCall(h, now, pos, version, rooms[0]);
      var rest := Run(h, r.now, r.pos, r.version, rooms[1..]);
      CallAdvances(h, now, pos, version, rooms[0]);
      RunAdvances(h, r.now, r.pos, r.version, rooms[1..]);
      assert Listed(x, r.out) || if r.pos < 2 then r.version == 0 else Pending(h.At(Latest(r.now)), r.version, x) by {
        CallCovers(h, now, pos, version, rooms[0], x);
      }
      if Listed(x, r.out) {
        ListedIn(x, r.out, rest.out);
      } else {
        RunCovers(h, r.now, r.pos, r.version, rooms[1..], x);
        if Listed(x, rest.out) {
          ListedIn(x, r.out, rest.out);
        }
      }
    }
  }

  lemma CallAdvances(h: History, now: nat, pos: nat, version: nat, room: nat)
    ensures var r := TaskCall(h, now, pos, version, room); r.now >= now && r.pos >= pos
  {
    if |Dots(pos)| <= room {
      ScanAdvances(h, now + 1, StartThread(h.At(now), version, PastDots(pos) - 2), PastDots(pos), room - |Dots(pos)|);
    }
  }

  lemma {:induction false} RunAdvances(h: History, now: nat, pos: nat, version: nat, rooms: seq<nat>)
    ensures var r := Run(h, now, pos, version, rooms); r.now >= now && r.pos >= pos
    decreases |rooms|
  {
    if rooms != [] {
      var r := TaskCall(h, now, pos, version, rooms[0]);
      CallAdvances(h, now, pos, version, rooms[0]);
      RunAdvances(h, r.now, r.pos, r.version, rooms[1..]);
    }
  }

  lemma CallCovers(h: History, now: nat, pos: nat, version: nat, room: nat, x: Thread)
    requires Lawful(h) && ParkedAlive(h.At(Latest(now)), h.At(now), version)
    requires |Dots(pos)| <= room ==> CursorKept(h, now + 1, StartThread(h.At(now), version, PastDots(pos) - 2), room - |Dots(pos)|)
    requires if pos < 2 then version == 0 else Pending(h.At(Latest(now)), version, x)
    requires Steady(h, Latest(now), TaskCall(h, now, pos, version, room).now, x)
    ensures var r := TaskCall(h, now, pos, version, room);
      Listed(x, r.out) || if r.pos < 2 then r.version == 0 else Pending(h.At(Latest(r.now)), r.version, x)
  {
    if |Dots(pos)| <= room {
      var start := PastDots(pos);
      var c := StartThread(h.At(now), version, start - 2);
      var r := Scan(h, now + 1, c, start, room - |Dots(pos)|);
      ScanAdvances(h, now + 1, c, start, room - |Dots(pos)|);
      assert x in h.At(now).ring;
      StartsBefore(h, now, start - 2, version, x);
      ScanCovers(h, now + 1, c.value, start, room - |Dots(pos)|, x);
      CallIsScan(h, now, pos, version, room);
      if Listed(x, r.out) {
        ListedIn(x, Dots(pos), r.out);
      }
    }
  }

  /** A tid remembered at the end of a scan belongs to a thread of the group. */
  ghost predicate Holder(g: Group, version: nat) {
    version != 0 ==> exists y :: y in g.ring && y.tid == version
  }

  lemma {:induction false} ScanParks(h: History, now: nat, cur: Option<Thread>, pos: nat, room: nat)
    requires now > 0 && (cur.Some? ==> cur.value in h.At(now - 1).ring)
    ensures var r := Scan(h, now, cur, pos, room);
      r.now >= now && Holder(h.At(r.now - 1), r.version)
    decreases room
  {
    if cur.Some? && room > 0 {
      ScanParks(h, now + 1, ThreadAfter(h.At(now), cur.value), pos + 1, room - 1);
    }
  }

  lemma KeptInPlace(g: Group, g': Group, pos: nat, version: nat, lo: nat)
    requires WellFormed(g) && WellFormed(g') && Later(g, g') && Between(g, pos, version, lo)
    requires Holder(g, version) && ParkedAlive(g, g', version)
    ensures InPlace(g', pos, version)
  {
    if pos > 2 && version != 0 {
      var y :| y in g.ring && y.tid == version;
      assert Offerable(g, pos - 2, lo, y);
      BeyondLater(g, g', pos - 2, y.stamp);
      var j := InRing(g', y);
      BeyondFrom(g', j, pos - 2);
    }
  }

  lemma CallParks(h: History, now: nat, pos: nat, version: nat, room: nat)
    requires pos < 2 ==> version == 0
    ensures var r := TaskCall(h, now, pos, version, room);
      Holder(h.At(Latest(r.now)), r.version) && (r.pos < 2 ==> r.version == 0)
  {
    if |Dots(pos)| <= room {
      var start, left := PastDots(pos), room - |Dots(pos)|;
      var c := StartThread(h.At(now), version, start - 2);
      ScanParks(h, now + 1, c, start, left);
      ScanAdvances(h, now + 1, c, start, left);
    }
  }

  /** If the cursor never stands on an exited thread, every call resumes in place. */
  lemma {:induction false} KeptResumesInPlace(h: History, now: nat, pos: nat, version: nat, rooms: seq<nat>, lo: nat)
    requires Lawful(h) && Kept(h, now, pos, version, rooms)
    requires Between(h.At(Latest(now)), pos, version, lo) && Holder(h.At(Latest(now)), version)
    ensures ResumesInPlace(h, now, pos, version, rooms)
    decreases |rooms|
  {
    if rooms != [] {
      var r := TaskCall(h, now, pos, version, rooms[0]);
      LawfulLater(h, Latest(now), now);
      KeptInPlace(h.At(Latest(now)), h.At(now), pos, version, lo);
      BetweenLater(h.At(Latest(now)), h.At(now), pos, version, lo);
      var hi := CallOrder(h, now, pos, version, rooms[0], lo);
      CallParks(h, now, pos, version, rooms[0]);
      KeptResumesInPlace(h, r.now, r.pos, r.version, rooms[1..], hi);
    }
  }

  /** If the cursor never stands on an exited thread, then a run that has finished has
      listed every thread that was there all the time, exactly once, although in
      the meantime f_pos no longer equals its ordinal. */
  lemma RunExactlyOnce(h: History, rooms: seq<nat>, x: Thread)
    requires Lawful(h) && Kept(h, 0, 0, 0, rooms)
    requires Run(h, 0, 0, 0, rooms).pos >= 2 && Run(h, 0, 0, 0, rooms).version == 0
    requires Steady(h, 0, Run(h, 0, 0, 0, rooms).now, x)
    ensures var out := Run(h, 0, 0, 0, rooms).out;
      exists i :: 0 <= i < |out| && out[i] == Entry(Numeral(x.tid), i, TaskDir(x.stamp))
        && forall j :: 0 <= j < |out| && out[j].what == TaskDir(x.stamp) ==> j == i
  {
    var out := Run(h, 0, 0, 0, rooms).out;
    KeptResumesInPlace(h, 0, 0, 0, rooms, 0);
    RunListsNothingTwice(h, rooms);
    RunCovers(h, 0, 0, 0, rooms, x);
    var i :| 0 <= i < |out| && out[i] == ThreadEntry(x, out[i].pos);
    assert out[i].pos == i;
    forall j | 0 <= j < |out| && out[j].what == TaskDir(x.stamp)
      ensures j == i
    {
      assert out[i].what == out[j].what;
    }
  }

  // ------------------------------------------- exactly when nobody is missed

  /** What a call can check when it resumes, all below lo having been listed: it starts
      with, or in front of, every other thread of the group. */
  ghost predicate StartsInFront(g: Group, pos: nat, version: nat, lo: nat)
    requires pos >= 2
  {
    var c := StartThread(g, version, pos - 2);
    forall x :: x in g.ring && x.stamp >= lo ==> c.Some? && c.value.stamp <= x.stamp
  }

  /** While the group does not change, whatever run of calls ends with nothing remembered
      has listed all threads from stamp lo on. */
  ghost predicate ListsTheRest(g: Group, pos: nat, version: nat, lo: nat) {
    forall rooms, x :: rooms != [] && x in g.ring && x.stamp >= lo ==>
      var r := Run(Timeline([], g), 0, pos, version, rooms);
      r.version == 0 ==> Listed(x, r.out)
  }

  lemma {:induction false} CursorKeptAtRest(g: Group, now: nat, cur: Option<Thread>, room: nat)
    requires cur.Some? ==> cur.value in g.ring
    ensures CursorKept(Timeline([], g), now, cur, room)
    decreases room
  {
    if cur.Some? && room > 0 {
      CursorKeptAtRest(g, now + 1, ThreadAfter(g, cur.value), room - 1);
    }
  }

  lemma {:induction false} KeptAtRest(g: Group, now: nat, pos: nat, version: nat, rooms: seq<nat>)
    ensures Kept(Timeline([], g), now, pos, version, rooms)
    decreases |rooms|
  {
    if rooms != [] {
      if |Dots(pos)| <= rooms[0] {
        CursorKeptAtRest(g, now + 1, StartThread(g, version, PastDots(pos) - 2), rooms[0] - |Dots(pos)|);
      }
      var r := TaskCall(Timeline([], g), now, pos, version, rooms[0]);
      KeptAtRest(g, r.now, r.pos, r.version, rooms[1..]);
    }
  }

  /** A call that starts in front of x lists it or parks in front of it. */
  lemma FrontCallCovers(g: Group, pos: nat, version: nat, room: nat, c: Thread, x: Thread)
    requires Lawful(Timeline([], g)) && pos >= 2 && x in g.ring
    requires StartThread(g, version, pos - 2) == Some(c) && c.stamp <= x.stamp
    ensures var r := TaskCall(Timeline([], g), 0, pos, version, room);
      r.pos >= 2 && (Listed(x, r.out) || Pending(g, r.version, x))
  {
    var h := Timeline([], g);
    CallIsScan(h, 0, pos, version, room);
    CursorKeptAtRest(g, 1, Some(c), room);
    ScanAdvances(h, 1, Some(c), pos, room);
    ScanCovers(h, 1, c, pos, room, x);
    var r := Scan(h, 1, Some(c), pos, room);
    if Listed(x, r.out) {
      ListedIn(x, [], r.out);
    }
  }

  lemma FrontRunCovers(g: Group, pos: nat, version: nat, rooms: seq<nat>, c: Thread, x: Thread)
    requires Lawful(Timeline([], g)) && pos >= 2 && x in g.ring && rooms != []
    requires StartThread(g, version, pos - 2) == Some(c) && c.stamp <= x.stamp
    ensures var r := Run(Timeline([], g), 0, pos, version, rooms);
      r.version == 0 ==> Listed(x, r.out)
  {
    var h := Timeline([], g);
    var r := TaskCall(h, 0, pos, version, rooms[0]);
    var rest := Run(h, r.now, r.pos, r.version, rooms[1..]);
    FrontCallCovers(g, pos, version, rooms[0], c, x);
    assert Run(h, 0, pos, version, rooms).out == r.out + rest.out;
    if Listed(x, r.out) {
      ListedIn(x, r.out, rest.out);
    } else {
      RunAdvances(h, r.now, r.pos, r.version, rooms[1..]);
      KeptAtRest(g, r.now, r.pos, r.version, rooms[1..]);
      RunCovers(h, r.now, r.pos, r.version, rooms[1..], x);
      if Listed(x, rest.out) {
        ListedIn(x, r.out, rest.out);
      }
    }
  }

  ghost predicate StampsFrom(out: seq<Entry>, s: nat) {
    forall i :: 0 <= i < |out| ==> out[i].what.TaskDir? && out[i].what.task >= s
  }

  lemma StampsFromCons(e: Entry, rest: Call, s: nat)
    requires e.what.TaskDir? && e.what.task >= s && StampsFrom(rest.out, s)
    ensures StampsFrom(rest.After([e]).out, s)
  {
  }

  /** A scan of a group at rest lists no thread in front of where it starts. */
  lemma {:induction false} ScanListsFrom(g: Group, now: nat, k: nat, pos: nat, room: nat, s: nat)
    requires Lawful(Timeline([], g)) && Beyond(g, k, s)
    ensures StampsFrom(Scan(Timeline([], g), now, AtOrdinal(g, k), pos, room).out, s)
    decreases room
  {
    if k < |g.ring| && room > 0 {
      var rest := Scan(Timeline([], g), now + 1, AtOrdinal(g, k + 1), pos + 1, room - 1);
      LawfulLater(Timeline([], g), 0, 0);
      BeyondNext(g, k, s);
      ScanListsFrom(g, now + 1, k + 1, pos + 1, room - 1, s);
      ScanTakenAtRest(g, now, k, pos, room);
      StampsFromCons(ThreadEntry(g.ring[k], pos), rest, s);
    }
  }

  /** A call that starts behind x, or nowhere, and has room for all threads does not list x
      and remembers nothing. */
  lemma BehindCallMisses(g: Group, pos: nat, version: nat, x: Thread)
    requires Lawful(Timeline([], g)) && pos >= 2
    requires var c := StartThread(g, version, pos - 2); c.None? || c.value.stamp > x.stamp
    ensures var r := TaskCall(Timeline([], g), 0, pos, version, |g.ring|);
      r.version == 0 && !Listed(x, r.out)
  {
    var h, c := Timeline([], g), StartThread(g, version, pos - 2);
    CallIsScan(h, 0, pos, version, |g.ring|);
    if c.Some? {
      var i := IndexOfTid(g.ring, version, 0);
      var k := if c == AtOrdinal(g, pos - 2) then pos - 2 else i;
      FullScan(g, 1, k, pos, |g.ring|);
      ScanListsFrom(g, 1, k, pos, |g.ring|, c.value.stamp);
    }
  }

  /** Exactly when a resumed listing misses nobody: in the group as the next call finds it,
      the thread it starts with is not behind any that is still to be listed. Otherwise
      one call with room for all threads leaves one out, and remembers nothing. */
  lemma NobodyMissedIff(g: Group, pos: nat, version: nat, lo: nat)
    requires Lawful(Timeline([], g)) && pos >= 2
    ensures ListsTheRest(g, pos, version, lo) <==> StartsInFront(g, pos, version, lo)
  {
    var h, c := Timeline([], g), StartThread(g, version, pos - 2);
    if StartsInFront(g, pos, version, lo) {
      forall rooms, x | rooms != [] && x in g.ring && x.stamp >= lo
        ensures var r := Run(h, 0, pos, version, rooms); r.version == 0 ==> Listed(x, r.out)
      {
        FrontRunCovers(g, pos, version, rooms, c.value, x);
      }
    } else {
      var x :| x in g.ring && x.stamp >= lo && !(c.Some? && c.value.stamp <= x.stamp);
      BehindCallMisses(g, pos, version, x);
      var r := TaskCall(h, 0, pos, version, |g.ring|);
      RunOne(h, 0, pos, version, |g.ring|, []);
      assert [|g.ring|] + [] == [|g.ring|];
      assert Run(h, 0, pos, version, [|g.ring|]).out == r.out;
    }
  }

  const THREAD_D := Thread(3, 14)
  const GROUP_OF_FOUR: Group := Snapshot([THREAD_A, THREAD_B, THREAD_C, THREAD_D], 4, {})
  const GROUP_OF_TWO: Group := Snapshot([THREAD_A, THREAD_D], 4, {})
  const EXIT_HISTORY: History := Timeline([GROUP_OF_FOUR, GROUP_OF_FOUR, GROUP_OF_FOUR], GROUP_OF_TWO)

  lemma ExitIsLawful()
    ensures Lawful(EXIT_HISTORY)
  {
    assert WellFormed(GROUP_OF_FOUR) && WellFormed(GROUP_OF_TWO);
    forall t: nat
      ensures LawfulAt(EXIT_HISTORY, t)
    {
      assert EXIT_HISTORY.At(t) == if t < 3 then GROUP_OF_FOUR else GROUP_OF_TWO;
      assert EXIT_HISTORY.At(t + 1) == if t < 2 then GROUP_OF_FOUR else GROUP_OF_TWO;
    }
  }

  lemma ExitCalls()
    ensures TaskCall(EXIT_HISTORY, 0, 0, 0, 4)
      == Call(3, 4, 13, Dots(0) + [ThreadEntry(THREAD_A, 2), ThreadEntry(THREAD_B, 3)], Some(ThreadEntry(THREAD_C, 4)))
    ensures TaskCall(EXIT_HISTORY, 3, 4, 13, 9) == Call(4, 4, 0, [], None)
  {
    var h := EXIT_HISTORY;
    assert IndexOf(GROUP_OF_FOUR.ring, THREAD_B, 1) == 1;
    assert ThreadAfter(GROUP_OF_FOUR, THREAD_A) == Some(THREAD_B);
    assert ThreadAfter(GROUP_OF_FOUR, THREAD_B) == Some(THREAD_C);
    assert Scan(h, 3, Some(THREAD_C), 4, 0) == Call(3, 4, 13, [], Some(ThreadEntry(THREAD_C, 4)));
    ScanTaken(h, 2, THREAD_B, 3, 1);
    ScanTaken(h, 1, THREAD_A, 2, 2);
    CallIsScan(h, 0, 0, 0, 4);
    assert StartThread(GROUP_OF_TWO, 13, 2) == None;
  }

  /** The condition can fail. The cursor is parked on the third of four threads when the
      second and the third exit: the next call finds nobody at its ordinal and ends the
      listing, and the fourth, which was there all the time, is never listed. */
  lemma SteadyThreadIsMissed()
    ensures Lawful(EXIT_HISTORY) && forall t: nat :: THREAD_D in EXIT_HISTORY.At(t).ring
    ensures var r := Run(EXIT_HISTORY, 0, 0, 0, [4, 9]);
      r.pos == 4 && r.version == 0 && !Listed(THREAD_D, r.out)
  {
    var h := EXIT_HISTORY;
    ExitIsLawful();
    ExitCalls();
    RunOne(h, 3, 4, 13, 9, []);
    RunOne(h, 0, 0, 0, 4, [9]);
  }

  // ------------------------------------------ the directory while nothing changes

  /** The remembered thread is the one the ordinal walk would find; and the walk finds
      nobody exactly if the ordinal is at least the length of the ring. */
  lemma CachedTidAgreesWithWalk(g: Group, nr: nat)
    requires WellFormed(g)
    ensures nr < |g.ring| ==> StartThread(g, g.ring[nr].tid, nr) == AtOrdinal(g, nr)
    ensures StartThread(g, 0, nr) == AtOrdinal(g, nr)
    ensures AtOrdinal(g, nr).None? <==> nr >= |g.ring|
  {
    if nr < |g.ring| {
      FoundAtOrdinal(g, nr);
    }
  }

  lemma StartsAtOrdinal(g: Group, pos: nat, version: nat)
    requires Lawful(Timeline([], g)) && Coherent(g, pos, version)
    ensures StartThread(g, version, PastDots(pos) - 2) == AtOrdinal(g, PastDots(pos) - 2)
  {
    LawfulLater(Timeline([], g), 0, 0);
    CachedTidAgreesWithWalk(g, PastDots(pos) - 2);
  }

  function ThreadsFrom(g: Group, n: nat): seq<Entry>
    decreases |g.ring| - n
  {
    if n >= |g.ring| then [] else [ThreadEntry(g.ring[n], n + 2)] + ThreadsFrom(g, n + 1)
  }

  /** What a cursor has still to deliver. */
  function Remaining(g: Group, pos: nat): seq<Entry> {
    Dots(pos) + ThreadsFrom(g, PastDots(pos) - 2)
  }

  /** The remembered tid, if any, is that of the thread at the cursor. */
  predicate Coherent(g: Group, pos: nat, version: nat) {
    version != 0 ==> 2 <= pos < |g.ring| + 2 && g.ring[pos - 2].tid == version
  }

  lemma RemainingThreads(g: Group, pos: nat)
    requires pos >= 2
    ensures Remaining(g, pos) == ThreadsFrom(g, pos - 2)
  {
  }

  lemma {:induction false} ScanDelivers(g: Group, now: nat, pos: nat, room: nat)
    requires Lawful(Timeline([], g)) && pos >= 2
    ensures var r := Scan(Timeline([], g), now, AtOrdinal(g, pos - 2), pos, room);
      Coherent(g, r.pos, r.version) && Delivers(ThreadsFrom(g, pos - 2), room, r.out, r.refused, Remaining(g, r.pos))
    decreases room
  {
    var h, n := Timeline([], g), pos - 2;
    if n < |g.ring| && room > 0 {
      var r := Scan(h, now + 1, AtOrdinal(g, n + 1), pos + 1, room - 1);
      ScanTakenAtRest(g, now, n, pos, room);
      ScanDelivers(g, now + 1, pos + 1, room - 1);
      DeliversPrepend(ThreadEntry(g.ring[n], pos), ThreadsFrom(g, n + 1), room, r.out, r.refused, Remaining(g, r.pos));
    } else {
      RemainingThreads(g, pos);
    }
  }

  /** The scan of a call, put behind the entries d in front of it. */
  lemma ScanDeliversBehind(g: Group, now: nat, d: seq<Entry>, pos: nat, room: nat)
    requires Lawful(Timeline([], g)) && pos >= 2 && |d| <= room
    ensures var r := Scan(Timeline([], g), now, AtOrdinal(g, pos - 2), pos, room - |d|).After(d);
      Coherent(g, r.pos, r.version) && Delivers(d + ThreadsFrom(g, pos - 2), room, r.out, r.refused, Remaining(g, r.pos))
  {
    var r := Scan(Timeline([], g), now, AtOrdinal(g, pos - 2), pos, room - |d|);
    ScanDelivers(g, now, pos, room - |d|);
    DeliversBehind(d, ThreadsFrom(g, pos - 2), room, r, Remaining(g, r.pos));
  }

  lemma CallDeliversPastDots(g: Group, now: nat, pos: nat, version: nat, room: nat)
    requires Lawful(Timeline([], g)) && Coherent(g, pos, version) && |Dots(pos)| <= room
    ensures var r := TaskCall(Timeline([], g), now, pos, version, room);
      Coherent(g, r.pos, r.version) && Delivers(Remaining(g, pos), room, r.out, r.refused, Remaining(g, r.pos))
  {
    StartsAtOrdinal(g, pos, version);
    CallIsScan(Timeline([], g), now, pos, version, room);
    ScanDeliversBehind(g, now + 1, Dots(pos), PastDots(pos), room);
  }

  lemma CallDeliversDots(g: Group, now: nat, pos: nat, version: nat, room: nat)
    requires Coherent(g, pos, version) && room < |Dots(pos)|
    ensures var r := TaskCall(Timeline([], g), now, pos, version, room);
      Coherent(g, r.pos, r.version) && Delivers(Remaining(g, pos), room, r.out, r.refused, Remaining(g, r.pos))
  {
    DeliversDots(now, pos, version, room, ThreadsFrom(g, 0));
  }

  /** While the group does not change, a call is a call of the abstract resumable listing. */
  lemma CallDelivers(g: Group, now: nat, pos: nat, version: nat, room: nat)
    requires Lawful(Timeline([], g)) && Coherent(g, pos, version)
    ensures var r := TaskCall(Timeline([], g), now, pos, version, room);
      Coherent(g, r.pos, r.version) && Delivers(Remaining(g, pos), room, r.out, r.refused, Remaining(g, r.pos))
  {
    if room < |Dots(pos)| {
      CallDeliversDots(g, now, pos, version, room);
    } else {
      CallDeliversPastDots(g, now, pos, version, room);
    }
  }

  /** Where the buffers cut the calls does not matter: only their total room does. */
  lemma {:induction false} RunDelivers(g: Group, now: nat, pos: nat, version: nat, rooms: seq<nat>)
    requires Lawful(Timeline([], g)) && Coherent(g, pos, version)
    ensures var r := Run(Timeline([], g), now, pos, version, rooms);
      Splits(Remaining(g, pos), Sum(rooms), r.out, Remaining(g, r.pos))
    decreases |rooms|
  {
    if rooms != [] {
      var r := TaskCall(Timeline([], g), now, pos, version, rooms[0]);
      CallDelivers(g, now, pos, version, rooms[0]);
      var rest := Run(Timeline([], g), r.now, r.pos, r.version, rooms[1..]);
      RunDelivers(g, r.now, r.pos, r.version, rooms[1..]);
      SplitsJoin(Remaining(g, pos), rooms[0], r, Remaining(g, r.pos), Sum(rooms[1..]), rest, Remaining(g, rest.pos));
    }
  }
}
