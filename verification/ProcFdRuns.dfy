/**
 What a reader of a descriptor directory may rely on over a whole run of calls.
 */
module ProcFdRuns {
  import opened Common
  import opened Names
  import opened Listing
  import opened ProcFd

  ghost predicate Steady(h: History, from: nat, to: nat, fd: nat) {
    fd < FD_LIMIT && forall t: nat :: from <= t < to ==> fd in h.At(t).open && fd < h.At(t).size
  }

  /** The descriptor was open at some instant of the interval. */
  ghost predicate WasOpen(h: History, from: nat, to: nat, fd: nat) {
    exists t: nat :: from <= t < to && fd in h.At(t).open && fd < h.At(t).size
  }

  /** An entry at its own offset: a dot, or a descriptor that was open. */
  ghost predicate Genuine(h: History, from: nat, to: nat, e: Entry) {
    if e.pos == 0 then e == Dots(0)[0]
    else if e.pos == 1 then e == Dots(0)[1]
    else e == FdEntry(e.pos - 2) && WasOpen(h, from, to, e.pos - 2)
  }

  /** Entries strictly ordered between the two cursors, all genuine, nothing missed. */
  ghost predicate Covers(h: History, from: nat, pos: nat, r: Call) {
    && from <= r.now && pos <= r.pos
    && Ordered(r.out, pos, r.pos)
    && (forall i :: 0 <= i < |r.out| ==> Genuine(h, from, r.now, r.out[i]))
    && (forall fd: nat :: pos <= fd + 2 < r.pos && Steady(h, from, r.now, fd) ==> FdEntry(fd) in r.out)
  }

  lemma CoversJoin(h: History, from: nat, pos: nat, a: Call, b: Call)
    requires Covers(h, from, pos, a) && Covers(h, a.now, a.pos, b)
    ensures Covers(h, from, pos, b.After(a.out))
  {
  }

  /** A scan ends at a refusal with a full buffer, or at the end of the table. */
  lemma {:induction false} ScanEnds(h: History, now: nat, fd: nat, room: nat)
    ensures var r := Scan(h, now, fd, room);
      && now < r.now && fd + 2 <= r.pos
      && (r.refused.Some? ==> |r.out| == room)
      && (r.refused.None? ==> !HasSlot(h.At(r.now - 1), r.pos - 2))
    decreases FD_LIMIT - fd
  {
    if HasSlot(h.At(now), fd) {
      if !IsOpen(h.At(now), fd) {
        ScanEnds(h, now + 1, fd + 1, room);
      } else if room > 0 {
        ScanEnds(h, now + 1, fd + 1, room - 1);
      }
    }
  }

  lemma TakenThenCovers(h: History, now: nat, fd: nat, rest: Call)
    requires IsOpen(h.At(now), fd) && Covers(h, now + 1, fd + 3, rest)
    ensures Covers(h, now, fd + 2, rest.After([FdEntry(fd)]))
  {
  }

  lemma SkippedThenCovers(h: History, now: nat, fd: nat, rest: Call)
    requires !IsOpen(h.At(now), fd) && Covers(h, now + 1, fd + 3, rest)
    ensures Covers(h, now, fd + 2, rest)
  {
  }

  lemma {:induction false} ScanCovers(h: History, now: nat, fd: nat, room: nat)
    ensures Covers(h, now, fd + 2, Scan(h, now, fd, room))
    decreases FD_LIMIT - fd
  {
    if HasSlot(h.At(now), fd) {
      if !IsOpen(h.At(now), fd) {
        ScanCovers(h, now + 1, fd + 1, room);
        SkippedThenCovers(h, now, fd, Scan(h, now + 1, fd + 1, room));
      } else if room > 0 {
        ScanCovers(h, now + 1, fd + 1, room - 1);
        TakenThenCovers(h, now, fd, Scan(h, now + 1, fd + 1, room - 1));
      }
    }
  }

  /** Whatever was open throughout a scan that reached the end of the table lies
      below the cursor it leaves. */
  lemma SteadyBelowEnd(h: History, now: nat, fd: nat, room: nat, k: nat)
    requires var r := Scan(h, now, fd, room); r.refused.None? && Steady(h, now, r.now, k)
    ensures k + 2 < Scan(h, now, fd, room).pos
  {
    var r := Scan(h, now, fd, room);
    ScanEnds(h, now, fd, room);
    assert IsOpen(h.At(r.now - 1), k);
  }

  lemma DotsCover(h: History, now: nat, pos: nat, n: nat, refused: Option<Entry>)
    requires n <= |Dots(pos)|
    ensures Covers(h, now, pos, Call(now, pos + n, 0, Dots(pos)[..n], refused))
    ensures PastDots(pos) == pos + |Dots(pos)|
  {
  }

  lemma PastDotsCovers(h: History, now: nat, pos: nat, room: nat)
    requires |Dots(pos)| <= room
    ensures Covers(h, now, pos, FdCall(h, now, pos, room))
  {
    var d, start := Dots(pos), PastDots(pos);
    DotsCover(h, now, pos, |d|, None);
    assert d[..|d|] == d;
    ScanCovers(h, now, start - 2, room - |d|);
    CoversJoin(h, now, pos, Call(now, start, 0, d, None), Scan(h, now, start - 2, room - |d|));
    CallIsScan(h, now, pos, room);
  }

  lemma PastDotsEnds(h: History, now: nat, pos: nat, room: nat)
    requires |Dots(pos)| <= room
    ensures var r := FdCall(h, now, pos, room);
      && (r.refused.Some? ==> |r.out| == room)
      && (r.refused.None? ==> forall k: nat :: Steady(h, now, r.now, k) ==> k + 2 < r.pos)
  {
    var start, left := PastDots(pos), room - |Dots(pos)|;
    var r := Scan(h, now, start - 2, left);
    ScanEnds(h, now, start - 2, left);
    CallIsScan(h, now, pos, room);
    forall k: nat | r.refused.None? && Steady(h, now, r.now, k)
      ensures k + 2 < r.pos
    {
      SteadyBelowEnd(h, now, start - 2, left, k);
    }
  }

  /** One call: it covers what lies between its cursors; refused, it has filled the
      buffer; otherwise it has passed everything that was open throughout. */
  lemma CallCovers(h: History, now: nat, pos: nat, room: nat)
    ensures var r := FdCall(h, now, pos, room);
      && Covers(h, now, pos, r)
      && (r.refused.Some? ==> |r.out| == room)
      && (r.refused.None? ==> forall k: nat :: Steady(h, now, r.now, k) ==> k + 2 < r.pos)
  {
    if room < |Dots(pos)| {
      DotsCover(h, now, pos, room, Some(Dots(pos)[room]));
    } else {
      PastDotsCovers(h, now, pos, room);
      PastDotsEnds(h, now, pos, room);
    }
  }

  /** Successive calls on one open file. */
  function Run(h: History, now: nat, pos: nat, rooms: seq<nat>): Call
    decreases |rooms|
  {
    if rooms == [] then Call(now, pos, 0, [], None)
    else
      var r := FdCall(h, now, pos, rooms[0]);
      Run(h, r.now, r.pos, rooms[1..]).After(r.out)
  }

  lemma {:induction false} RunCovers(h: History, now: nat, pos: nat, rooms: seq<nat>)
    ensures Covers(h, now, pos, Run(h, now, pos, rooms))
    decreases |rooms|
  {
    if rooms != [] {
      var r := FdCall(h, now, pos, rooms[0]);
      CallCovers(h, now, pos, rooms[0]);
      RunCovers(h, r.now, r.pos, rooms[1..]);
      CoversJoin(h, now, pos, r, Run(h, r.now, r.pos, rooms[1..]));
    }
  }

  lemma GenuineName(h: History, to: nat, e: Entry, fd: nat)
    requires Genuine(h, 0, to, e) && Text(e.name) == Decimal(fd)
    ensures e.pos == fd + 2
  {
    DecimalIsCanonical(fd);
    assert !AllDigits(".") && !AllDigits("..") by {
      assert !IsDigit("."[0]) && !IsDigit(".."[0]);
    }
    if e.pos >= 2 {
      DecimalInjective(e.pos - 2, fd);
    }
  }

  lemma CoversExactlyOnce(h: History, r: Call, fd: nat)
    requires Covers(h, 0, 0, r) && Steady(h, 0, r.now, fd) && fd + 2 < r.pos
    ensures var out := r.out;
      exists i :: 0 <= i < |out| && out[i] == Entry(Numeral(fd), fd + 2, OpenFd(fd))
        && forall j :: 0 <= j < |out| && Text(out[j].name) == Decimal(fd) ==> j == i
  {
    var i :| 0 <= i < |r.out| && r.out[i] == FdEntry(fd);
    forall j | 0 <= j < |r.out| && Text(r.out[j].name) == Decimal(fd)
      ensures j == i
    {
      GenuineName(h, r.now, r.out[j], fd);
    }
  }

  /** Listing the directory from the start until a call is not refused: every
      descriptor that was open throughout is listed exactly once, at offset fd + 2,
      and every listed descriptor was open at some instant. */
  lemma RunExactlyOnce(h: History, rooms: seq<nat>, last: nat, fd: nat)
    requires var a := Run(h, 0, 0, rooms);
      var z := FdCall(h, a.now, a.pos, last);
      z.refused.None? && Steady(h, 0, z.now, fd)
    ensures var a := Run(h, 0, 0, rooms);
      var z := FdCall(h, a.now, a.pos, last);
      var out := a.out + z.out;
      && Ordered(out, 0, z.pos)
      && (forall i :: 0 <= i < |out| ==> Genuine(h, 0, z.now, out[i]))
      && exists i :: 0 <= i < |out| && out[i] == Entry(Numeral(fd), fd + 2, OpenFd(fd))
           && forall j :: 0 <= j < |out| && Text(out[j].name) == Decimal(fd) ==> j == i
  {
    var a := Run(h, 0, 0, rooms);
    var z := FdCall(h, a.now, a.pos, last);
    RunCovers(h, 0, 0, rooms);
    CallCovers(h, a.now, a.pos, last);
    CoversJoin(h, 0, 0, a, z);
    assert Steady(h, a.now, z.now, fd);
    CoversExactlyOnce(h, z.After(a.out), fd);
  }

  // ------------------------------------------ the directory while nothing changes

  function OpenFrom(t: FdTable, fd: nat): seq<Entry>
    decreases FD_LIMIT - fd
  {
    if !HasSlot(t, fd) then []
    else if IsOpen(t, fd) then [FdEntry(fd)] + OpenFrom(t, fd + 1)
    else OpenFrom(t, fd + 1)
  }

  /** What a cursor has still to deliver. */
  function Remaining(t: FdTable, pos: nat): seq<Entry> {
    Dots(pos) + OpenFrom(t, PastDots(pos) - 2)
  }

  lemma RemainingFds(t: FdTable, pos: nat)
    requires pos >= 2
    ensures Remaining(t, pos) == OpenFrom(t, pos - 2)
  {
  }

  /** The cursor keeps pace with the descriptor number across free slots. */
  lemma {:induction false} ScanDelivers(t: FdTable, now: nat, fd: nat, room: nat)
    ensures var r := Scan(Timeline([], t), now, fd, room);
      Delivers(OpenFrom(t, fd), room, r.out, r.refused, Remaining(t, r.pos))
    decreases FD_LIMIT - fd
  {
    if HasSlot(t, fd) && !IsOpen(t, fd) {
      ScanDelivers(t, now + 1, fd + 1, room);
    } else if HasSlot(t, fd) && room > 0 {
      var r := Scan(Timeline([], t), now + 1, fd + 1, room - 1);
      ScanDelivers(t, now + 1, fd + 1, room - 1);
      DeliversPrepend(FdEntry(fd), OpenFrom(t, fd + 1), room, r.out, r.refused, Remaining(t, r.pos));
    } else {
      RemainingFds(t, fd + 2);
    }
  }

  /** The scan of a call, put behind the entries d in front of it. */
  lemma ScanDeliversBehind(t: FdTable, now: nat, d: seq<Entry>, fd: nat, room: nat)
    requires |d| <= room
    ensures var r := Scan(Timeline([], t), now, fd, room - |d|).After(d);
      Delivers(d + OpenFrom(t, fd), room, r.out, r.refused, Remaining(t, r.pos))
  {
    var r := Scan(Timeline([], t), now, fd, room - |d|);
    ScanDelivers(t, now, fd, room - |d|);
    DeliversBehind(d, OpenFrom(t, fd), room, r, Remaining(t, r.pos));
  }

  /** While the table does not change, a call is a call of the abstract resumable listing. */
  lemma CallDelivers(t: FdTable, now: nat, pos: nat, room: nat)
    ensures var r := FdCall(Timeline([], t), now, pos, room);
      Delivers(Remaining(t, pos), room, r.out, r.refused, Remaining(t, r.pos))
  {
    if room < |Dots(pos)| {
      DeliversDots(now, pos, 0, room, OpenFrom(t, 0));
    } else {
      CallIsScan(Timeline([], t), now, pos, room);
      ScanDeliversBehind(t, now, Dots(pos), PastDots(pos) - 2, room);
    }
  }

  /** Where the buffers cut the calls does not matter: only their total room does. */
  lemma {:induction false} RunDelivers(t: FdTable, now: nat, pos: nat, rooms: seq<nat>)
    ensures var r := Run(Timeline([], t), now, pos, rooms);
      Splits(Remaining(t, pos), Sum(rooms), r.out, Remaining(t, r.pos))
    decreases |rooms|
  {
    if rooms != [] {
      var r := FdCall(Timeline([], t), now, pos, rooms[0]);
      CallDelivers(t, now, pos, rooms[0]);
      var rest := Run(Timeline([], t), r.now, r.pos, rooms[1..]);
      RunDelivers(t, r.now, r.pos, rooms[1..]);
      SplitsJoin(Remaining(t, pos), rooms[0], r, Remaining(t, r.pos), Sum(rooms[1..]), rest, Remaining(t, rest.pos));
    }
  }
}
