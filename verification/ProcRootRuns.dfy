/**
 What a reader of /proc may rely on: properties of `next_tgid`, of one call of
 `proc_pid_readdir`, and of whole runs of calls, while processes come and go.
 */
module ProcRootRuns {
  import opened Common
  import opened Names
  import opened Listing
  import opened ProcRoot

  /** In table t, the number g is the pid of the group leader `task`. */
  predicate Leads(t: PidTable, g: nat, task: nat) {
    g in t && t[g] == Attached(task, true)
  }

  /** The number g is that of a group leader at every instant from `from` up to, not
      including, `to`. The task behind it may change: a thread that calls exec takes
      over its leader's number. */
  ghost predicate Steady(h: History, from: nat, to: nat, g: nat) {
    forall t: nat :: from <= t < to ==> g in h.At(t) && exists k :: h.At(t)[g] == Attached(k, true)
  }

  /** The search finds a process that leads at the moment it is found, and passes
      over no number that a leader has during the whole search. */
  lemma {:induction false} NextLeaderContract(h: History, now: nat, nr: nat)
    ensures var s := NextLeader(h, now, nr);
      && now < s.now
      && (s.iter.task.Some? ==> nr <= s.iter.tgid && Leads(h.At(s.now - 1), s.iter.tgid, s.iter.task.value))
      && forall g: nat :: nr <= g < PID_MAX_LIMIT && Steady(h, now, s.now, g)
           ==> s.iter.task.Some? && s.iter.tgid <= g
    decreases PID_MAX_LIMIT - nr
  {
    var s := NextLeader(h, now, nr);
    var p := FindGePid(h.At(now), nr);
    if p.Some? && !IsLeader(h.At(now), p.value) {
      NextLeaderContract(h, now + 1, p.value + 1);
    }
    forall g: nat | nr <= g < PID_MAX_LIMIT && Steady(h, now, s.now, g)
      ensures s.iter.task.Some? && s.iter.tgid <= g
    {
      assert g in h.At(now) && h.At(now)[g].leaderPid;
      FindGePidLeast(h.At(now), nr, g);
      if !IsLeader(h.At(now), p.value) {
        assert Steady(h, now + 1, s.now, g);
      }
    }
  }

  /** On a table that does not change: the least leader at or above nr, and somebody
      whenever there is one. */
  lemma NextLeaderFrozen(t: PidTable, now: nat, nr: nat)
    ensures var i := NextLeader(Timeline([], t), now, nr).iter;
      && (i.task.Some? ==> nr <= i.tgid < PID_MAX_LIMIT && i.tgid in t && t[i.tgid] == Attached(i.task.value, true))
      && (forall g: nat, k :: nr <= g < PID_MAX_LIMIT && g in t && t[g] == Attached(k, true) ==> i.task.Some? && i.tgid <= g)
  {
    var h := Timeline([], t);
    NextLeaderContract(h, now, nr);
    var s := NextLeader(h, now, nr);
    forall g: nat, k | nr <= g < PID_MAX_LIMIT && g in t && t[g] == Attached(k, true)
      ensures s.iter.task.Some? && s.iter.tgid <= g
    {
      assert Steady(h, now, s.now, g);
    }
  }

  /** The entry of a process that led under its number at some instant of the interval. */
  ghost predicate OfLeader(h: History, from: nat, to: nat, e: Entry) {
    exists t: nat, g: nat, k :: from <= t < to && Leads(h.At(t), g, k) && e == Entry(Numeral(g), g + TGID_OFFSET, TaskDir(k))
  }

  ghost predicate Genuine(h: History, from: nat, to: nat, e: Entry) {
    e == SelfEntry() || OfLeader(h, from, to, e)
  }

  /** An entry for the number g, whichever task it was instantiated from. */
  predicate IsEntryOf(e: Entry, g: nat) {
    e.what.TaskDir? && e.name == Numeral(g) && e.pos == g + TGID_OFFSET
  }

  ghost predicate Lists(out: seq<Entry>, g: nat) {
    exists i :: 0 <= i < |out| && IsEntryOf(out[i], g)
  }

  lemma ListsIn(a: seq<Entry>, b: seq<Entry>, g: nat)
    requires Lists(a, g) || Lists(b, g)
    ensures Lists(a + b, g)
  {
    if Lists(a, g) {
      var i :| 0 <= i < |a| && IsEntryOf(a[i], g);
      assert (a + b)[i] == a[i];
    } else {
      var i :| 0 <= i < |b| && IsEntryOf(b[i], g);
      assert (a + b)[|a| + i] == b[i];
    }
  }

  /** What one call, or several in a row, guarantee: entries in strictly increasing
      order between the two cursors, all of them genuine, and nobody missed. */
  ghost predicate Covers(h: History, from: nat, pos: nat, r: Call) {
    && from <= r.now && pos <= r.pos <= END_POS
    && Ordered(r.out, pos, r.pos)
    && (forall i :: 0 <= i < |r.out| ==> Genuine(h, from, r.now, r.out[i]))
    && (pos == FIRST_PROCESS_ENTRY < r.pos ==> SelfEntry() in r.out)
    && (forall g: nat :: pos <= g + TGID_OFFSET < r.pos && Steady(h, from, r.now, g) ==> Lists(r.out, g))
  }

  lemma CoversJoin(h: History, from: nat, pos: nat, a: Call, b: Call)
    requires Covers(h, from, pos, a) && Covers(h, a.now, a.pos, b)
    ensures Covers(h, from, pos, b.After(a.out))
  {
    forall g: nat | pos <= g + TGID_OFFSET < b.pos && Steady(h, from, b.now, g)
      ensures Lists(a.out + b.out, g)
    {
      assert Steady(h, from, a.now, g) && Steady(h, a.now, b.now, g);
      ListsIn(a.out, b.out, g);
    }
  }

  /** A search with its offer, as a call that delivers at most one entry. */
  lemma SearchCovers(h: History, now: nat, tgid: nat)
    requires tgid <= PID_MAX_LIMIT
    ensures var s := NextLeader(h, now, tgid);
      && (s.iter.task.None? ==> Covers(h, now, tgid + TGID_OFFSET, Call(s.now, END_POS, 0, [], None)))
      && (s.iter.task.Some? ==>
           var e := ProcessEntry(s.iter.tgid, s.iter.task.value);
           && Covers(h, now, tgid + TGID_OFFSET, Call(s.now, e.pos, 0, [], Some(e)))
           && Covers(h, now, tgid + TGID_OFFSET, Call(s.now, e.pos + 1, 0, [e], None)))
  {
    NextLeaderContract(h, now, tgid);
    var s := NextLeader(h, now, tgid);
    if s.iter.task.Some? {
      var g, k := s.iter.tgid, s.iter.task.value;
      assert Leads(h.At(s.now - 1), g, k);
      assert Genuine(h, now, s.now, ProcessEntry(g, k));
      assert IsEntryOf([ProcessEntry(g, k)][0], g);
    }
  }

  /** A search whose entry is taken, followed by a call that goes on above it. */
  lemma TakenThenCovers(h: History, now: nat, tgid: nat, rest: Call)
    requires tgid <= PID_MAX_LIMIT
    requires var s := NextLeader(h, now, tgid);
      s.iter.task.Some? && Covers(h, s.now, s.iter.tgid + 1 + TGID_OFFSET, rest)
    ensures var i := NextLeader(h, now, tgid).iter;
      Covers(h, now, tgid + TGID_OFFSET, rest.After([ProcessEntry(i.tgid, i.task.value)]))
  {
    var s := NextLeader(h, now, tgid);
    var e := ProcessEntry(s.iter.tgid, s.iter.task.value);
    SearchCovers(h, now, tgid);
    CoversJoin(h, now, tgid + TGID_OFFSET, Call(s.now, e.pos + 1, 0, [e], None), rest);
  }

  lemma {:induction false} ScanCovers(h: History, now: nat, tgid: nat, room: nat)
    requires tgid <= PID_MAX_LIMIT
    ensures var r := ScanTgids(h, now, tgid, room);
      Covers(h, now, tgid + TGID_OFFSET, r) && (r.refused.None? <==> r.pos == END_POS)
    ensures var r := ScanTgids(h, now, tgid, room);
      r.refused.Some? ==> |r.out| == room
    decreases room
  {
    var s := NextLeader(h, now, tgid);
    if s.iter.task.None? || room == 0 {
      SearchCovers(h, now, tgid);
    } else {
      ScanCovers(h, s.now, s.iter.tgid + 1, room - 1);
      TakenThenCovers(h, now, tgid, ScanTgids(h, s.now, s.iter.tgid + 1, room - 1));
    }
  }

  /** One call of the readdir routine: it ends by filling the buffer or by finishing. */
  lemma CallCovers(h: History, now: nat, pos: nat, room: nat)
    requires InRange(pos)
    ensures var r := RootCall(h, now, pos, room);
      && Covers(h, now, pos, r) && InRange(r.pos)
      && (r.refused.None? <==> r.pos == END_POS) && (r.refused.Some? ==> |r.out| == room)
  {
    if pos > FIRST_PROCESS_ENTRY {
      ScanCovers(h, now, pos - TGID_OFFSET, room);
    } else if room > 0 {
      ScanCovers(h, now, 0, room - 1);
      CoversJoin(h, now, pos, Call(now, TGID_OFFSET, 0, [SelfEntry()], None), ScanTgids(h, now, 0, room - 1));
    }
  }

  /** Successive calls on one open file. */
  function Run(h: History, now: nat, pos: nat, rooms: seq<nat>): Call
    requires InRange(pos)
    ensures InRange(Run(h, now, pos, rooms).pos)
    decreases |rooms|
  {
    if rooms == [] then Call(now, pos, 0, [], None)
    else
      CallCovers(h, now, pos, rooms[0]);
      var r := RootCall(h, now, pos, rooms[0]);
      Run(h, r.now, r.pos, rooms[1..]).After(r.out)
  }

  lemma {:induction false} RunCovers(h: History, now: nat, pos: nat, rooms: seq<nat>)
    requires InRange(pos)
    ensures Covers(h, now, pos, Run(h, now, pos, rooms))
    decreases |rooms|
  {
    if rooms != [] {
      var r := RootCall(h, now, pos, rooms[0]);
      CallCovers(h, now, pos, rooms[0]);
      RunCovers(h, r.now, r.pos, rooms[1..]);
      CoversJoin(h, now, pos, r, Run(h, r.now, r.pos, rooms[1..]));
    }
  }

  /** Listing /proc from the start, whatever the buffers refuse and whatever happens
      to processes meanwhile: "self" first and once, then numbers in strictly
      increasing order, each the number of a process that led at some instant. */
  lemma RunOrder(h: History, rooms: seq<nat>)
    ensures var out := Run(h, 0, FIRST_PROCESS_ENTRY, rooms).out;
      && (out != [] ==> out[0] == Entry(Word("self"), FIRST_PROCESS_ENTRY, TableEntry(0)))
      && (forall i :: 1 <= i < |out| ==> OfLeader(h, 0, Run(h, 0, FIRST_PROCESS_ENTRY, rooms).now, out[i]))
      && (forall i, j :: 1 <= i < j < |out| ==> out[i].name.number < out[j].name.number)
  {
    var r := Run(h, 0, FIRST_PROCESS_ENTRY, rooms);
    RunCovers(h, 0, FIRST_PROCESS_ENTRY, rooms);
    forall i | 1 <= i < |r.out|
      ensures OfLeader(h, 0, r.now, r.out[i])
    {
      assert Genuine(h, 0, r.now, r.out[i]);
      assert r.out[0].pos < r.out[i].pos;
    }
  }

  /** A genuine entry with the name of a number is the entry of that number. */
  lemma GenuineName(h: History, from: nat, to: nat, e: Entry, g: nat)
    requires Genuine(h, from, to, e) && Text(e.name) == Decimal(g)
    ensures e.pos == g + TGID_OFFSET
  {
    DecimalIsCanonical(g);
    assert !AllDigits("self") by {
      assert !IsDigit("self"[0]);
    }
    if e != SelfEntry() {
      assert OfLeader(h, from, to, e);
      var t: nat, g': nat, k :| from <= t < to && Leads(h.At(t), g', k) && e == Entry(Numeral(g'), g' + TGID_OFFSET, TaskDir(k));
      DecimalInjective(g, g');
    }
  }

  /** Once the cursor has reached its end, every number that a group leader had
      throughout has been listed exactly once, for a task that led under it; also if
      exec handed the number from one task to another meanwhile. */
  lemma RunExactlyOnce(h: History, rooms: seq<nat>, g: nat)
    requires Run(h, 0, FIRST_PROCESS_ENTRY, rooms).pos == END_POS
    requires g < PID_MAX_LIMIT && Steady(h, 0, Run(h, 0, FIRST_PROCESS_ENTRY, rooms).now, g)
    ensures var r := Run(h, 0, FIRST_PROCESS_ENTRY, rooms);
      exists i :: 0 <= i < |r.out| && IsEntryOf(r.out[i], g) && OfLeader(h, 0, r.now, r.out[i])
        && forall j :: 0 <= j < |r.out| && Text(r.out[j].name) == Decimal(g) ==> j == i
  {
    var r := Run(h, 0, FIRST_PROCESS_ENTRY, rooms);
    RunCovers(h, 0, FIRST_PROCESS_ENTRY, rooms);
    assert Lists(r.out, g);
    var i :| 0 <= i < |r.out| && IsEntryOf(r.out[i], g);
    assert Genuine(h, 0, r.now, r.out[i]);
    forall j | 0 <= j < |r.out| && Text(r.out[j].name) == Decimal(g)
      ensures j == i
    {
      GenuineName(h, 0, r.now, r.out[j], g);
    }
  }

  lemma {:induction false} OrderedFits(out: seq<Entry>, lo: nat, hi: nat)
    requires lo <= hi && Ordered(out, lo, hi)
    ensures |out| <= hi - lo
    decreases |out|
  {
    if out != [] {
      OrderedFits(out[..|out| - 1], lo, out[|out| - 1].pos);
    }
  }

  /** A call moves the cursor by at least its room, or to the end. */
  lemma CallProgress(h: History, now: nat, pos: nat, room: nat)
    requires InRange(pos)
    ensures var r := RootCall(h, now, pos, room);
      InRange(r.pos) && (r.pos == END_POS || r.pos - pos >= room)
  {
    var r := RootCall(h, now, pos, room);
    CallCovers(h, now, pos, room);
    OrderedFits(r.out, pos, r.pos);
  }

  lemma {:induction false} RunProgress(h: History, now: nat, pos: nat, rooms: seq<nat>)
    requires InRange(pos)
    ensures var r := Run(h, now, pos, rooms); r.pos == END_POS || r.pos - pos >= Sum(rooms)
    decreases |rooms|
  {
    if rooms != [] {
      var r := RootCall(h, now, pos, rooms[0]);
      CallProgress(h, now, pos, rooms[0]);
      RunProgress(h, r.now, r.pos, rooms[1..]);
      RunCovers(h, r.now, r.pos, rooms[1..]);
    }
  }

  /** Every listing comes to its end, whatever happens to processes meanwhile: once the
      buffers have had more room than there are positions. */
  lemma RunFinishes(h: History, rooms: seq<nat>)
    requires Sum(rooms) > END_POS - FIRST_PROCESS_ENTRY
    ensures Run(h, 0, FIRST_PROCESS_ENTRY, rooms).pos == END_POS
  {
    RunProgress(h, 0, FIRST_PROCESS_ENTRY, rooms);
  }

  // ------------------------------------------ the directory while nothing changes

  /** The leaders numbered nr and above, in order. */
  function LeadersFrom(t: PidTable, nr: nat): seq<Entry>
    decreases PID_MAX_LIMIT - nr
  {
    if nr >= PID_MAX_LIMIT then []
    else if IsLeader(t, nr) then [ProcessEntry(nr, t[nr].task)] + LeadersFrom(t, nr + 1)
    else LeadersFrom(t, nr + 1)
  }

  /** What a cursor has still to deliver. */
  function Remaining(t: PidTable, pos: nat): seq<Entry>
    requires InRange(pos)
  {
    if pos > FIRST_PROCESS_ENTRY then LeadersFrom(t, pos - TGID_OFFSET)
    else [SelfEntry()] + LeadersFrom(t, 0)
  }

  lemma {:induction false} NoLeadersBetween(t: PidTable, nr: nat, g: nat)
    requires nr <= g <= PID_MAX_LIMIT && forall q: nat :: nr <= q < g ==> !IsLeader(t, q)
    ensures LeadersFrom(t, nr) == LeadersFrom(t, g)
    decreases g - nr
  {
    if nr < g {
      NoLeadersBetween(t, nr + 1, g);
    }
  }

  lemma {:induction false} ScanDelivers(t: PidTable, now: nat, nr: nat, room: nat)
    requires nr <= PID_MAX_LIMIT
    ensures var r := ScanTgids(Timeline([], t), now, nr, room);
      && TGID_OFFSET <= r.pos <= END_POS
      && Delivers(LeadersFrom(t, nr), room, r.out, r.refused, LeadersFrom(t, r.pos - TGID_OFFSET))
    decreases room
  {
    var h := Timeline([], t);
    var s := NextLeader(h, now, nr);
    NextLeaderFrozen(t, now, nr);
    NoLeadersBetween(t, nr, if s.iter.task.Some? then s.iter.tgid else PID_MAX_LIMIT);
    if s.iter.task.Some? && room > 0 {
      var r := ScanTgids(h, s.now, s.iter.tgid + 1, room - 1);
      ScanDelivers(t, s.now, s.iter.tgid + 1, room - 1);
      DeliversPrepend(ProcessEntry(s.iter.tgid, s.iter.task.value), LeadersFrom(t, s.iter.tgid + 1), room,
                      r.out, r.refused, LeadersFrom(t, r.pos - TGID_OFFSET));
    }
  }

  /** A call that delivers "self", then goes on as the given scan. */
  lemma PastSelfDelivers(t: PidTable, now: nat, room: nat)
    requires room > 0
    ensures var r := ScanTgids(Timeline([], t), now, 0, room - 1).After([SelfEntry()]);
      TGID_OFFSET <= r.pos <= END_POS
      && Delivers([SelfEntry()] + LeadersFrom(t, 0), room, r.out, r.refused, LeadersFrom(t, r.pos - TGID_OFFSET))
  {
    var r := ScanTgids(Timeline([], t), now, 0, room - 1);
    ScanDelivers(t, now, 0, room - 1);
    DeliversPrepend(SelfEntry(), LeadersFrom(t, 0), room, r.out, r.refused, LeadersFrom(t, r.pos - TGID_OFFSET));
  }

  /** While the table does not change, a call is a call of the abstract resumable listing. */
  lemma CallDelivers(t: PidTable, now: nat, pos: nat, room: nat)
    requires InRange(pos)
    ensures var r := RootCall(Timeline([], t), now, pos, room);
      InRange(r.pos) && Delivers(Remaining(t, pos), room, r.out, r.refused, Remaining(t, r.pos))
  {
    if pos > FIRST_PROCESS_ENTRY {
      ScanDelivers(t, now, pos - TGID_OFFSET, room);
    } else if room > 0 {
      PastSelfDelivers(t, now, room);
    }
  }

  /** Where the buffers cut the calls does not matter: only their total room does. */
  lemma {:induction false} RunDelivers(t: PidTable, now: nat, pos: nat, rooms: seq<nat>)
    requires InRange(pos)
    ensures var r := Run(Timeline([], t), now, pos, rooms);
      Splits(Remaining(t, pos), Sum(rooms), r.out, Remaining(t, r.pos))
    decreases |rooms|
  {
    if rooms != [] {
      var r := RootCall(Timeline([], t), now, pos, rooms[0]);
      CallDelivers(t, now, pos, rooms[0]);
      var rest := Run(Timeline([], t), r.now, r.pos, rooms[1..]);
      RunDelivers(t, r.now, r.pos, rooms[1..]);
      SplitsJoin(Remaining(t, pos), rooms[0], r, Remaining(t, r.pos), Sum(rooms[1..]), rest, Remaining(t, rest.pos));
    }
  }
}
