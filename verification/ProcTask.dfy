/**
 The directories /proc/TGID/task: `first_tid`, `next_tid` and `proc_task_readdir`.

 A thread group is a ring that starts at its leader and that new threads join at
 the tail. The ring is read at successive instants of a timeline, one for each
 region the code protects, and may change in between.
 */
module ProcTask {
  import opened Common
  import opened Names
  import opened Listing

  /** A thread: when it joined, which identifies it for good, and its tid, which
      may be used again after it is gone. */
  datatype Thread = Thread(stamp: nat, tid: nat)

  /** One instant: the ring from the leader on, a stamp nobody has received yet,
      and the tids of all tasks of other groups. */
  datatype Snapshot = Snapshot(ring: seq<Thread>, born: nat, others: set<nat>)

  type Group = g: Snapshot | g.ring != [] witness Snapshot([Thread(0, 1)], 1, {})
  type History = Timeline<Group>

  /** `find_task_by_pid_ns`, with the answer to "is it in our group?" */
  datatype Found = Nobody | Stranger | Member(index: nat)

  /** The first index from k on at which the tid is found, or the length of the ring. */
  function IndexOfTid(ring: seq<Thread>, tid: nat, k: nat): (i: nat)
    requires k <= |ring|
    ensures k <= i <= |ring| && (i < |ring| ==> ring[i].tid == tid)
    decreases |ring| - k
  {
    if k == |ring| || ring[k].tid == tid then k else IndexOfTid(ring, tid, k + 1)
  }

  lemma {:induction false} IndexOfTidFinds(ring: seq<Thread>, tid: nat, k: nat, j: nat)
    requires k <= j < |ring| && ring[j].tid == tid
    ensures IndexOfTid(ring, tid, k) <= j
    decreases j - k
  {
    if ring[k].tid != tid {
      IndexOfTidFinds(ring, tid, k + 1, j);
    }
  }

  /** The same for a thread. */
  function IndexOf(ring: seq<Thread>, x: Thread, k: nat): (i: nat)
    requires k <= |ring|
    ensures k <= i <= |ring| && (i < |ring| ==> ring[i] == x)
    decreases |ring| - k
  {
    if k == |ring| || ring[k] == x then k else IndexOf(ring, x, k + 1)
  }

  lemma {:induction false} IndexOfFinds(ring: seq<Thread>, x: Thread, k: nat, j: nat)
    requires k <= j < |ring| && ring[j] == x
    ensures IndexOf(ring, x, k) <= j
    decreases j - k
  {
    if ring[k] != x {
      IndexOfFinds(ring, x, k + 1, j);
    }
  }

  function FindTask(g: Group, tid: nat): Found {
    var i := IndexOfTid(g.ring, tid, 0);
    if i < |g.ring| then Member(i) else if tid in g.others then Stranger else Nobody
  }

  function ThreadEntry(x: Thread, pos: nat): Entry {
    Entry(Numeral(x.tid), pos, TaskDir(x.stamp))
  }

  /** Where a call starts: at the remembered thread if it is still in the group,
      otherwise at ordinal nr, if there are that many threads. */
  function StartThread(g: Group, tid: nat, nr: nat): Option<Thread> {
    var i := IndexOfTid(g.ring, tid, 0);
    if tid != 0 && nr > 0 && i < |g.ring| then Some(g.ring[i]) else AtOrdinal(g, nr)
  }

  function AtOrdinal(g: Group, nr: nat): Option<Thread> {
    if nr < |g.ring| then Some(g.ring[nr]) else None
  }

  /** The thread behind x, unless x was the last or is gone. */
  function ThreadAfter(g: Group, x: Thread): Option<Thread> {
    var i := IndexOf(g.ring, x, 0);
    if i + 1 < |g.ring| then Some(g.ring[i + 1]) else None
  }

  function Scan(h: History, now: nat, cur: Option<Thread>, pos: nat, room: nat): Call
    decreases room
  {
    if cur.None? then Call(now, pos, 0, [], None)
    else if room == 0 then Call(now, pos, cur.value.tid, [], Some(ThreadEntry(cur.value, pos)))
    else Scan(h, now + 1, ThreadAfter(h.At(now), cur.value), pos + 1, room - 1).After([ThreadEntry(cur.value, pos)])
  }

  /** Having delivered the thread at the cursor, a scan goes on with the thread behind it. */
  lemma ScanTaken(h: History, now: nat, x: Thread, pos: nat, room: nat)
    requires room > 0
    ensures var rest := Scan(h, now + 1, ThreadAfter(h.At(now), x), pos + 1, room - 1);
      Scan(h, now, Some(x), pos, room) == rest.After([ThreadEntry(x, pos)])
  {
  }

  /** One call on the directory of a living task. */
  function TaskCall(h: History, now: nat, pos: nat, version: nat, room: nat): Call {
    if room < |Dots(pos)| then RefusedAtDots(now, pos, version, room)
    else
      var start := PastDots(pos);
      Scan(h, now + 1, StartThread(h.At(now), version, start - 2), start, room - |Dots(pos)|).After(Dots(pos))
  }

  lemma CallIsScan(h: History, now: nat, pos: nat, version: nat, room: nat)
    requires |Dots(pos)| <= room
    ensures var start := PastDots(pos);
      TaskCall(h, now, pos, version, room)
        == Scan(h, now + 1, StartThread(h.At(now), version, start - 2), start, room - |Dots(pos)|).After(Dots(pos))
  {
  }

  // ---------------------------------------------------------------- the code

  /** The thread group as the code sees it, with the instant of its next look. */
  class ThreadSpace {
    const history: History
    var now: nat

    constructor (history: History)
      ensures this.history == history && now == 0
    {
      this.history := history;
      now := 0;
    }

    method Look() returns (g: Group)
      modifies this
      ensures g == history.At(old(now)) && now == old(now) + 1
    {
      g := history.At(now);
      now := now + 1;
    }
  }

  function Ref(x: Option<Thread>): Option<nat> {
    if x.None? then None else Some(x.value.stamp)
  }

  /** The walk of `first_tid`: nr threads onwards from the leader, and nothing if
      that leads back to the leader. */
  method WalkFromLeader(g: Group, nr: nat) returns (pos: Option<Thread>)
    ensures pos == AtOrdinal(g, nr)
    ensures pos == if nr < |g.ring| then Some(g.ring[nr]) else None
  {
    var i, left := 0, nr;
    while left > 0
      invariant i + left == nr && i < |g.ring| && left >= 0
    {
      i := if i + 1 == |g.ring| then 0 else i + 1;
      if i == 0 {
        return None;
      }
      left := left - 1;
    }
    return Some(g.ring[i]);
  }

  method FirstTid(ts: ThreadSpace, refs: TaskRefs, tid: nat, nr: nat) returns (pos: Option<Thread>)
    modifies ts, refs
    ensures pos == StartThread(ts.history.At(old(ts.now)), tid, nr) && ts.now == old(ts.now) + 1
    ensures forall t :: refs.Count(t) == old(refs.Count(t)) + One(t, Ref(pos))
  {
    var g := ts.Look();
    if tid != 0 && nr > 0 {
      var found := FindTask(g, tid);
      if found.Member? {
        pos := Some(g.ring[found.index]);
        refs.Get(pos.value.stamp);
        return;
      }
    }
    pos := None;
    if nr != 0 && nr >= |g.ring| {
      return;
    }
    pos := WalkFromLeader(g, nr);
    refs.Get(pos.value.stamp);
  }

  /** Gives back the reference on `start` and takes one on the thread it returns. */
  method NextTid(ts: ThreadSpace, refs: TaskRefs, start: Thread) returns (pos: Option<Thread>)
    requires refs.Count(start.stamp) > 0
    modifies ts, refs
    ensures pos == ThreadAfter(ts.history.At(old(ts.now)), start) && ts.now == old(ts.now) + 1
    ensures forall t :: refs.Count(t) == old(refs.Count(t)) - One(t, Some(start.stamp)) + One(t, Ref(pos))
  {
    pos := None;
    var g := ts.Look();
    var i := IndexOf(g.ring, start, 0);
    if i < |g.ring| {
      var next := if i + 1 == |g.ring| then 0 else i + 1;
      if next != 0 {
        pos := Some(g.ring[next]);
        refs.Get(pos.value.stamp);
      }
    }
    refs.Put(start.stamp);
  }

  /** The open directory and the buffer as a call leaves them. */
  ghost predicate Shows(f: OpenDir, buf: DirBuffer, before: seq<Entry>, r: Call)
    reads f, buf
  {
    buf.entries == before + r.out && buf.refused == r.refused && f.fPos == r.pos && f.fVersion == r.version
  }

  lemma ShowsPastDots(f: OpenDir, buf: DirBuffer, before: seq<Entry>, dots: seq<Entry>, r: Call)
    requires Shows(f, buf, before + dots, r)
    ensures Shows(f, buf, before, r.After(dots))
  {
  }

  /** The thread loop of `proc_task_readdir`. At each loop head exactly the thread at
      the cursor carries a reference more than on entry. */
  method FillThreads(f: OpenDir, buf: DirBuffer, refs: TaskRefs, ts: ThreadSpace)
    requires f.fPos >= 2 && buf.refused.None?
    modifies f, buf, refs, ts
    ensures forall t :: refs.Count(t) == old(refs.Count(t))
    ensures var h := ts.history;
      var r := Scan(h, old(ts.now) + 1, StartThread(h.At(old(ts.now)), old(f.fVersion), old(f.fPos) - 2), old(f.fPos), old(buf.room));
      Shows(f, buf, old(buf.entries), r) && ts.now == r.now
  {
    var tid := f.fVersion;
    f.fVersion := 0;
    var task := FirstTid(ts, refs, tid, f.fPos - 2);
    ghost var goal := Scan(ts.history, ts.now, task, f.fPos, buf.room).After(buf.entries);
    while task.Some?
      invariant buf.refused.None? && f.fVersion == 0
      invariant forall t :: refs.Count(t) == old(refs.Count(t)) + One(t, Ref(task))
      invariant goal == Scan(ts.history, ts.now, task, f.fPos, buf.room).After(buf.entries)
      decreases task.Some?, buf.room
    {
      ghost var x, pos, room, given := task.value, f.fPos, buf.room, buf.entries;
      tid := task.value.tid;
      var error := buf.Filldir(Numeral(tid), f.fPos, TaskDir(task.value.stamp));
      if error < 0 {
        f.fVersion := tid;
        refs.Put(task.value.stamp);
        break;
      }
      ScanTaken(ts.history, ts.now, x, pos, room);
      task := NextTid(ts, refs, task.value);
      f.fPos := f.fPos + 1;
      AfterAfter(Scan(ts.history, ts.now, task, f.fPos, buf.room), given, [ThreadEntry(x, pos)]);
    }
  }

  /** `proc_task_readdir` from its `switch` on, with the leader held by the caller. */
  method FillDirectory(f: OpenDir, buf: DirBuffer, refs: TaskRefs, ts: ThreadSpace)
    requires buf.refused.None?
    modifies f, buf, refs, ts
    ensures forall t :: refs.Count(t) == old(refs.Count(t))
    ensures var r := TaskCall(ts.history, old(ts.now), old(f.fPos), old(f.fVersion), old(buf.room));
      Shows(f, buf, old(buf.entries), r) && ts.now == r.now
  {
    var full := FillDots(f, buf);
    if !full {
      ghost var h, pos, room, now := ts.history, old(f.fPos), old(buf.room), old(ts.now);
      CallIsScan(h, now, pos, old(f.fVersion), room);
      FillThreads(f, buf, refs, ts);
      ShowsPastDots(f, buf, old(buf.entries), Dots(pos),
        Scan(h, now + 1, StartThread(h.At(now), old(f.fVersion), PastDots(pos) - 2), PastDots(pos), room - |Dots(pos)|));
    }
  }

  /** `proc_task_readdir`. The directory belongs to `task`, if that still exists; the
      listing needs it alive, to find the leader. Every exit gives all references back. */
  method ProcTaskReaddir(f: OpenDir, buf: DirBuffer, refs: TaskRefs, ts: ThreadSpace, task: Option<nat>, alive: bool) returns (retval: int)
    requires buf.refused.None?
    modifies f, buf, refs, ts
    ensures forall t :: refs.Count(t) == old(refs.Count(t))
    ensures task.None? || !alive ==>
      && retval == -2 && f.fPos == old(f.fPos) && f.fVersion == old(f.fVersion)
      && buf.entries == old(buf.entries) && buf.refused.None? && ts.now == old(ts.now)
    ensures task.Some? && alive ==>
      var r := TaskCall(ts.history, old(ts.now), old(f.fPos), old(f.fVersion), old(buf.room));
      retval == 0 && Shows(f, buf, old(buf.entries), r) && ts.now == r.now
  {
    retval := -2;
    if task.None? {
      return;
    }
    refs.Get(task.value);
    var leader: Option<nat> := None;
    if alive {
      leader := Some(ts.history.At(ts.now).ring[0].stamp);
      refs.Get(leader.value);
    }
    refs.Put(task.value);
    if leader.None? {
      return;
    }
    retval := 0;
    FillDirectory(f, buf, refs, ts);
    refs.Put(leader.value);
  }
}
