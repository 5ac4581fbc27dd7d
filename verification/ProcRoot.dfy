/**
 The root directory of /proc: `next_tgid` and `proc_pid_readdir`.

 Processes come and go while the directory is read. The pid table is therefore
 a timeline, an arbitrary sequence of tables, and the code looks at it at
 successive instants: whatever happens between two looks is part of the timeline.
 */
module ProcRoot {
  import opened Common
  import opened Names
  import opened Listing

  const FIRST_PROCESS_ENTRY: nat := 256
  const BASE_STUFF: seq<string> := ["self"]
  const TGID_OFFSET: nat := FIRST_PROCESS_ENTRY + |BASE_STUFF|
  const PID_MAX_LIMIT: nat := 0x40_0000
  const END_POS: nat := PID_MAX_LIMIT + TGID_OFFSET

  /** A pid number in use: nobody attached, or a task, with the answer of
      `has_group_leader_pid` for that task. */
  datatype Slot = Detached | Attached(task: nat, leaderPid: bool)

  /** Pid numbers lie below PID_MAX_LIMIT; a larger key means nothing. */
  type PidTable = map<nat, Slot>
  type History = Timeline<PidTable>

  /** `has_group_leader_pid` for the task that the number is attached to, if any. */
  predicate IsLeader(t: PidTable, g: nat) {
    g in t && t[g].Attached? && t[g].leaderPid
  }

  /** `find_ge_pid`: the least number in use at or above nr. */
  function FindGePid(t: PidTable, nr: nat): (p: Option<nat>)
    ensures p.Some? ==> nr <= p.value < PID_MAX_LIMIT && p.value in t
    decreases PID_MAX_LIMIT - nr
  {
    if nr >= PID_MAX_LIMIT then None
    else if nr in t then Some(nr)
    else FindGePid(t, nr + 1)
  }

  lemma {:induction false} FindGePidLeast(t: PidTable, nr: nat, q: nat)
    requires nr <= q < PID_MAX_LIMIT && q in t
    ensures FindGePid(t, nr).Some? && FindGePid(t, nr).value <= q
    decreases q - nr
  {
    if nr !in t {
      FindGePidLeast(t, nr + 1, q);
    }
  }

  /** `struct tgid_iter` */
  datatype TgidIter = TgidIter(tgid: nat, task: Option<nat>)

  /** Result of a search for the next process: when the next look happens, and the iterator. */
  datatype Search = Search(now: nat, iter: TgidIter)

  /** What `next_tgid` finds from nr on, when its first look happens at `now`. */
  function NextLeader(h: History, now: nat, nr: nat): (s: Search)
    ensures s.iter.task.Some? ==> nr <= s.iter.tgid < PID_MAX_LIMIT
    decreases PID_MAX_LIMIT - nr
  {
    match FindGePid(h.At(now), nr)
    case None => Search(now + 1, TgidIter(nr, None))
    case Some(p) =>
      if IsLeader(h.At(now), p) then Search(now + 1, TgidIter(p, Some(h.At(now)[p].task)))
      else NextLeader(h, now + 1, p + 1)
  }

  function SelfEntry(): Entry {
    Entry(Word("self"), FIRST_PROCESS_ENTRY, TableEntry(0))
  }

  function ProcessEntry(g: nat, task: nat): Entry {
    Entry(Numeral(g), g + TGID_OFFSET, TaskDir(task))
  }

  /** The process part of a call: search, offer, and go on one above. */
  function ScanTgids(h: History, now: nat, tgid: nat, room: nat): Call
    decreases room, 1
  {
    OfferFound(h, NextLeader(h, now, tgid), room)
  }

  /** The rest of a scan whose search has found a process (or nobody). */
  function OfferFound(h: History, s: Search, room: nat): Call
    decreases room, 0
  {
    if s.iter.task.None? then Call(s.now, END_POS, 0, [], None)
    else
      var e := ProcessEntry(s.iter.tgid, s.iter.task.value);
      if room == 0 then Call(s.now, e.pos, 0, [], Some(e))
      else ScanTgids(h, s.now, s.iter.tgid + 1, room - 1).After([e])
  }

  /** Having delivered the found entry, a scan goes on with the next search. */
  lemma OfferStep(h: History, s: Search, room: nat, done: seq<Entry>, s': Search, done': seq<Entry>)
    requires s.iter.task.Some? && s' == NextLeader(h, s.now, s.iter.tgid + 1)
    requires done' == done + [ProcessEntry(s.iter.tgid, s.iter.task.value)]
    ensures OfferFound(h, s, room + 1).After(done) == OfferFound(h, s', room).After(done')
  {
  }

  predicate InRange(pos: nat) {
    FIRST_PROCESS_ENTRY <= pos <= END_POS
  }

  function RootCall(h: History, now: nat, pos: nat, room: nat): Call
    requires InRange(pos)
  {
    if pos > FIRST_PROCESS_ENTRY then ScanTgids(h, now, pos - TGID_OFFSET, room)
    else if room == 0 then Call(now, pos, 0, [], Some(SelfEntry()))
    else ScanTgids(h, now, 0, room - 1).After([SelfEntry()])
  }

  // ---------------------------------------------------------------- the code

  /** The pid namespace as the code sees it, with the instant of its next look. */
  class PidSpace {
    const history: History
    var now: nat

    constructor (history: History)
      ensures this.history == history && now == 0
    {
      this.history := history;
      now := 0;
    }

    /** One locked look at the table: the least pid number from nr on, and its slot. */
    method Look(nr: nat) returns (pid: Option<(nat, Slot)>)
      modifies this
      ensures now == old(now) + 1
      ensures var p := FindGePid(history.At(old(now)), nr);
        pid == if p.None? then None else Some((p.value, history.At(old(now))[p.value]))
    {
      var t := history.At(now);
      var p := FindGePid(t, nr);
      pid := if p.None? then None else Some((p.value, t[p.value]));
      now := now + 1;
    }
  }

  /** `next_tgid`: drops the reference of the iterator it is given and takes one
      on what it returns. The loop is the `retry` label; its measure shows
      that it ends although the table changes. */
  method NextTgid(ps: PidSpace, refs: TaskRefs, start: TgidIter) returns (iter: TgidIter)
    requires start.task.Some? ==> refs.Count(start.task.value) > 0
    modifies ps, refs
    ensures Search(ps.now, iter) == NextLeader(ps.history, old(ps.now), start.tgid)
    ensures forall t :: refs.Count(t) == old(refs.Count(t)) - One(t, start.task) + One(t, iter.task)
  {
    iter := start;
    if iter.task.Some? {
      refs.Put(iter.task.value);
    }
    iter := iter.(task := None);
    while true
      invariant iter.task.None? && forall t :: refs.Count(t) == old(refs.Count(t)) - One(t, start.task)
      invariant NextLeader(ps.history, ps.now, iter.tgid) == NextLeader(ps.history, old(ps.now), start.tgid)
      decreases PID_MAX_LIMIT - iter.tgid
    {
      var pid := ps.Look(iter.tgid);
      if pid.None? {
        return;
      }
      var (number, slot) := pid.value;
      iter := TgidIter(number, None);
      if !(slot.Attached? && slot.leaderPid) {
        iter := iter.(tgid := number + 1);
      } else {
        iter := iter.(task := Some(slot.task));
        refs.Get(slot.task);
        return;
      }
    }
  }

  /** `proc_pid_fill_cache` */
  method ProcPidFillCache(f: OpenDir, buf: DirBuffer, iter: TgidIter) returns (error: int)
    requires iter.task.Some? && f.fPos == iter.tgid + TGID_OFFSET && buf.refused.None?
    modifies buf
    ensures var e := ProcessEntry(iter.tgid, iter.task.value);
      if old(buf.room) > 0
        then error == 0 && buf.refused.None? && buf.room == old(buf.room) - 1 && buf.entries == old(buf.entries) + [e]
        else error < 0 && buf.refused == Some(e) && buf.room == 0 && buf.entries == old(buf.entries)
  {
    error := buf.Filldir(Numeral(iter.tgid), f.fPos, TaskDir(iter.task.value));
  }

  /** The process loop of `proc_pid_readdir`. At each loop head exactly the iterator's
      task carries a reference more than on entry; every exit has given it back. */
  method FillProcesses(f: OpenDir, buf: DirBuffer, refs: TaskRefs, ps: PidSpace)
    requires TGID_OFFSET <= f.fPos <= END_POS && buf.refused.None?
    modifies f`fPos, buf, refs, ps
    ensures forall t :: refs.Count(t) == old(refs.Count(t))
    ensures var r := ScanTgids(ps.history, old(ps.now), old(f.fPos) - TGID_OFFSET, old(buf.room));
      && buf.entries == old(buf.entries) + r.out && buf.refused == r.refused
      && f.fPos == r.pos && ps.now == r.now
  {
    ghost var goal := ScanTgids(ps.history, ps.now, f.fPos - TGID_OFFSET, buf.room).After(buf.entries);
    var iter := TgidIter(ToUnsigned(f.fPos - TGID_OFFSET), None);
    iter := NextTgid(ps, refs, iter);
    while iter.task.Some?
      invariant buf.refused.None?
      invariant forall t :: refs.Count(t) == old(refs.Count(t)) + One(t, iter.task)
      invariant iter.task.Some? ==> iter.tgid < PID_MAX_LIMIT
      invariant goal == OfferFound(ps.history, Search(ps.now, iter), buf.room).After(buf.entries)
      decreases iter.task.Some?, PID_MAX_LIMIT - iter.tgid
    {
      ghost var found, given := Search(ps.now, iter), buf.entries;
      f.fPos := iter.tgid + TGID_OFFSET;
      var error := ProcPidFillCache(f, buf, iter);
      if error < 0 {
        refs.Put(iter.task.value);
        return;
      }
      iter := NextTgid(ps, refs, iter.(tgid := ToUnsigned(iter.tgid + 1)));
      OfferStep(ps.history, found, buf.room, given, Search(ps.now, iter), buf.entries);
    }
    f.fPos := END_POS;
  }

  /** `proc_pid_readdir`. The directory's own task is held throughout; every exit
      gives all references back. */
  method ProcPidReaddir(f: OpenDir, buf: DirBuffer, refs: TaskRefs, ps: PidSpace, reaper: Option<nat>) returns (ret: int)
    requires InRange(f.fPos) && buf.refused.None?
    modifies f`fPos, buf, refs, ps
    ensures ret == 0 && forall t :: refs.Count(t) == old(refs.Count(t))
    ensures reaper.None? ==> f.fPos == old(f.fPos) && buf.entries == old(buf.entries) && buf.refused.None? && ps.now == old(ps.now)
    ensures reaper.Some? ==>
      var r := RootCall(ps.history, old(ps.now), old(f.fPos), old(buf.room));
      && buf.entries == old(buf.entries) + r.out && buf.refused == r.refused
      && f.fPos == r.pos && ps.now == r.now
  {
    var nr := ToUnsigned(f.fPos - FIRST_PROCESS_ENTRY);
    ret := 0;
    if reaper.None? {
      return;
    }
    refs.Get(reaper.value);
    while nr < |BASE_STUFF|
      invariant nr == f.fPos - FIRST_PROCESS_ENTRY
      invariant buf.refused.None? && ps.now == old(ps.now)
      invariant forall t :: refs.Count(t) == old(refs.Count(t)) + One(t, reaper)
      invariant f.fPos == old(f.fPos) ==> buf.entries == old(buf.entries) && buf.room == old(buf.room)
      invariant f.fPos != old(f.fPos) ==>
        && old(f.fPos) == FIRST_PROCESS_ENTRY && f.fPos == TGID_OFFSET
        && buf.entries == old(buf.entries) + [SelfEntry()] && buf.room == old(buf.room) - 1
    {
      var error := buf.Filldir(Word(BASE_STUFF[nr]), f.fPos, TableEntry(nr));
      if error < 0 {
        refs.Put(reaper.value);
        return;
      }
      f.fPos := f.fPos + 1;
      nr := nr + 1;
    }
    FillProcesses(f, buf, refs, ps);
    refs.Put(reaper.value);
  }
}
