/**
 The directories /proc/PID/fd and /proc/PID/fdinfo: `proc_readfd_common`, with
 descriptors being opened and closed while the directory is read.
 */
module ProcFd {
  import opened Common
  import opened Names
  import opened Listing

  /** No descriptor table is larger than this. */
  const FD_LIMIT: nat := 0x7fff_ffff

  /** One instant of the descriptor table: its size and the descriptors in use. */
  datatype FdTable = FdTable(size: nat, open: set<nat>)

  type History = Timeline<FdTable>

  predicate HasSlot(t: FdTable, fd: nat) {
    fd < t.size && fd < FD_LIMIT
  }

  predicate IsOpen(t: FdTable, fd: nat) {
    HasSlot(t, fd) && fd in t.open
  }

  function FdEntry(fd: nat): Entry {
    Entry(Numeral(fd), fd + 2, OpenFd(fd))
  }

  /** The descriptors from fd on: each step looks once, for one number. */
  function Scan(h: History, now: nat, fd: nat, room: nat): Call
    decreases FD_LIMIT - fd
  {
    if !HasSlot(h.At(now), fd) then Call(now + 1, fd + 2, 0, [], None)
    else if !IsOpen(h.At(now), fd) then Scan(h, now + 1, fd + 1, room)
    else if room == 0 then Call(now + 1, fd + 2, 0, [], Some(FdEntry(fd)))
    else Scan(h, now + 1, fd + 1, room - 1).After([FdEntry(fd)])
  }

  function FdCall(h: History, now: nat, pos: nat, room: nat): Call {
    if room < |Dots(pos)| then RefusedAtDots(now, pos, 0, room)
    else Scan(h, now, PastDots(pos) - 2, room - |Dots(pos)|).After(Dots(pos))
  }

  lemma CallIsScan(h: History, now: nat, pos: nat, room: nat)
    requires |Dots(pos)| <= room
    ensures FdCall(h, now, pos, room) == Scan(h, now, PastDots(pos) - 2, room - |Dots(pos)|).After(Dots(pos))
  {
  }

  // ---------------------------------------------------------------- the code

  class FdSpace {
    const history: History
    var now: nat

    constructor (history: History)
      ensures this.history == history && now == 0
    {
      this.history := history;
      now := 0;
    }

    method Look() returns (t: FdTable)
      modifies this
      ensures t == history.At(old(now)) && now == old(now) + 1
    {
      t := history.At(now);
      now := now + 1;
    }
  }

  /** Offering the descriptor at the cursor, or skipping a free one, a scan goes on one above. */
  lemma ScanStep(h: History, now: nat, fd: nat, room: nat, given: seq<Entry>)
    requires HasSlot(h.At(now), fd)
    ensures !IsOpen(h.At(now), fd) ==> Scan(h, now, fd, room) == Scan(h, now + 1, fd + 1, room)
    ensures IsOpen(h.At(now), fd) && room > 0 ==>
      Scan(h, now, fd, room).After(given) == Scan(h, now + 1, fd + 1, room - 1).After(given + [FdEntry(fd)])
  {
  }

  /** The descriptor loop of `proc_readfd_common`. */
  method FillFds(f: OpenDir, buf: DirBuffer, fs: FdSpace)
    requires f.fPos >= 2 && buf.refused.None?
    modifies f`fPos, buf, fs
    ensures var r := Scan(fs.history, old(fs.now), old(f.fPos) - 2, old(buf.room));
      && buf.entries == old(buf.entries) + r.out && buf.refused == r.refused
      && f.fPos == r.pos && fs.now == r.now
  {
    var fd := f.fPos - 2;
    ghost var goal := Scan(fs.history, fs.now, fd, buf.room).After(buf.entries);
    var table := fs.Look();
    while HasSlot(table, fd)
      invariant f.fPos == fd + 2 && fd >= 0 && buf.refused.None?
      invariant fs.now > 0 && table == fs.history.At(fs.now - 1)
      invariant goal == Scan(fs.history, fs.now - 1, fd, buf.room).After(buf.entries)
      decreases FD_LIMIT - fd
    {
      ScanStep(fs.history, fs.now - 1, fd, buf.room, buf.entries);
      if IsOpen(table, fd) {
        var error := buf.Filldir(Numeral(fd), f.fPos, OpenFd(fd));
        if error < 0 {
          break;
        }
      }
      fd := fd + 1;
      f.fPos := f.fPos + 1;
      table := fs.Look();
    }
  }

  /** `proc_readfd_common`. The process may be gone, or may have no descriptors left. */
  method ProcReadfdCommon(f: OpenDir, buf: DirBuffer, refs: TaskRefs, fs: FdSpace, task: Option<nat>, hasFiles: bool) returns (retval: int)
    requires buf.refused.None?
    modifies f`fPos, buf, refs, fs
    ensures forall t :: refs.Count(t) == old(refs.Count(t))
    ensures task.None? ==>
      && retval == -2 && f.fPos == old(f.fPos) && buf.entries == old(buf.entries)
      && buf.refused.None? && fs.now == old(fs.now)
    ensures task.Some? ==> retval == 0
    ensures task.Some? && hasFiles ==>
      var r := FdCall(fs.history, old(fs.now), old(f.fPos), old(buf.room));
      && buf.entries == old(buf.entries) + r.out && buf.refused == r.refused
      && f.fPos == r.pos && fs.now == r.now
    ensures task.Some? && !hasFiles ==>
      var d, room := Dots(old(f.fPos)), old(buf.room);
      && buf.entries == old(buf.entries) + Take(d, room) && f.fPos == old(f.fPos) + Min(room, |d|)
      && buf.refused == (if room < |d| then Some(d[room]) else None) && fs.now == old(fs.now)
  {
    if task.None? {
      return -2;
    }
    refs.Get(task.value);
    retval := 0;
    var full := FillDots(f, buf);
    if !full && hasFiles {
      ghost var pos, room, before, now := old(f.fPos), old(buf.room), old(buf.entries), old(fs.now);
      CallIsScan(fs.history, now, pos, room);
      FillFds(f, buf, fs);
      AfterAfter(Scan(fs.history, now, PastDots(pos) - 2, room - |Dots(pos)|), before, Dots(pos));
    }
    refs.Put(task.value);
  }
}
