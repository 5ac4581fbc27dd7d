/**
 The directories whose entries come from a fixed table, such as /proc/PID and
 /proc/PID/attr: `proc_pident_readdir` and `proc_pident_lookup`.
 */
module ProcPident {
  import opened Common
  import opened Names
  import opened Listing

  /** The table of /proc/PID/attr. */
  const ATTR_DIR_STUFF: seq<string> := ["current", "prev", "exec", "fscreate", "keycreate", "sockcreate"]

  function TableFrom(ents: seq<string>, i: nat): seq<Entry>
    decreases |ents| - i
  {
    if i >= |ents| then []
    else [Entry(Word(ents[i]), i + 2, TableEntry(i))] + TableFrom(ents, i + 1)
  }

  /** What a cursor has still to deliver. */
  function Remaining(ents: seq<string>, pos: nat): seq<Entry> {
    Dots(pos) + TableFrom(ents, PastDots(pos) - 2)
  }

  /** A call of the abstract resumable listing on what is left at the cursor. */
  function PidentCall(ents: seq<string>, pos: nat, room: nat): Call {
    var rest := Remaining(ents, pos);
    Call(0, pos + Min(room, |rest|), 0, Take(rest, room), if room < |rest| then Some(rest[room]) else None)
  }

  lemma DropBehind(e: Entry, rest: seq<Entry>, k: nat)
    requires 0 < k <= |rest| + 1
    ensures ([e] + rest)[k..] == rest[k - 1..]
  {
  }

  lemma {:induction false} TableAt(ents: seq<string>, i: nat, k: nat)
    requires i + k <= |ents|
    ensures |TableFrom(ents, i)| == |ents| - i && TableFrom(ents, i)[k..] == TableFrom(ents, i + k)
    decreases |ents| - i
  {
    if i < |ents| && k > 0 {
      TableAt(ents, i + 1, k - 1);
      DropBehind(TableFrom(ents, i)[0], TableFrom(ents, i + 1), k);
    } else if i < |ents| {
      TableAt(ents, i + 1, 0);
    }
  }

  /** The table loop of `proc_pident_readdir`, from entry i on. */
  method FillTable(f: OpenDir, buf: DirBuffer, ents: seq<string>, i: nat) returns (full: bool)
    requires buf.refused.None? && f.fPos == i + 2 && i < |ents|
    modifies f`fPos, buf
    ensures var rest := TableFrom(ents, i);
      && buf.entries == old(buf.entries) + Take(rest, old(buf.room))
      && f.fPos == i + 2 + Min(old(buf.room), |rest|)
      && buf.refused == (if old(buf.room) < |rest| then Some(rest[old(buf.room)]) else None)
      && full == buf.refused.Some?
  {
    ghost var rest := TableFrom(ents, i);
    TableAt(ents, i, 0);
    var p, last := i, |ents| - 1;
    while p <= last
      invariant i <= p <= last + 1 && f.fPos == p + 2 && buf.refused.None?
      invariant buf.room == old(buf.room) - (p - i)
      invariant buf.entries == old(buf.entries) + rest[..p - i]
    {
      TableAt(ents, i, p - i);
      assert rest[p - i] == rest[p - i..][0] == Entry(Word(ents[p]), p + 2, TableEntry(p));
      var error := buf.Filldir(Word(ents[p]), f.fPos, TableEntry(p));
      if error < 0 {
        return true;
      }
      f.fPos := f.fPos + 1;
      p := p + 1;
    }
    return false;
  }

  /** `proc_pident_readdir`. It returns 1 exactly if nothing was refused. */
  method ProcPidentReaddir(f: OpenDir, buf: DirBuffer, refs: TaskRefs, ents: seq<string>, task: Option<nat>) returns (ret: int)
    requires buf.refused.None?
    modifies f`fPos, buf, refs
    ensures forall t :: refs.Count(t) == old(refs.Count(t))
    ensures task.None? ==>
      ret == -2 && f.fPos == old(f.fPos) && buf.entries == old(buf.entries) && buf.refused.None?
    ensures task.Some? ==>
      var r := PidentCall(ents, old(f.fPos), old(buf.room));
      && buf.entries == old(buf.entries) + r.out && buf.refused == r.refused && f.fPos == r.pos
      && ret == (if r.refused.Some? then 0 else 1)
  {
    if task.None? {
      return -2;
    }
    refs.Get(task.value);
    ret := 0;
    ghost var pos, room := f.fPos, buf.room;
    var full := FillDots(f, buf);
    if !full {
      SplitAtDots(pos, TableFrom(ents, PastDots(pos) - 2), room);
      var i := f.fPos - 2;
      if i < |ents| {
        full := FillTable(f, buf, ents, i);
      }
      ret := if full then 0 else 1;
    }
    refs.Put(task.value);
  }

  lemma SplitAtDots(pos: nat, rest: seq<Entry>, room: nat)
    requires |Dots(pos)| <= room
    ensures var d := Dots(pos);
      && Take(d + rest, room) == d + Take(rest, room - |d|)
      && (room - |d| < |rest| ==> (d + rest)[room] == rest[room - |d|])
      && pos + |d| == PastDots(pos)
  {
  }

  /** The table part of a call. */
  function TableCall(ents: seq<string>, i: nat, room: nat): Call {
    var rest := TableFrom(ents, i);
    Call(0, i + 2 + Min(room, |rest|), 0, Take(rest, room), if room < |rest| then Some(rest[room]) else None)
  }

  lemma RemainingTable(ents: seq<string>, pos: nat)
    requires pos >= 2
    ensures Remaining(ents, pos) == TableFrom(ents, pos - 2)
  {
  }

  lemma CutDelivers(rest: seq<Entry>, room: nat, rest': seq<Entry>)
    requires rest' == rest[Min(room, |rest|)..]
    ensures Delivers(rest, room, Take(rest, room), if room < |rest| then Some(rest[room]) else None, rest')
  {
  }

  lemma TableLeaves(ents: seq<string>, i: nat, room: nat)
    ensures var n := Min(room, |TableFrom(ents, i)|);
      TableFrom(ents, i)[n..] == Remaining(ents, i + 2 + n)
  {
    if i <= |ents| {
      TableAt(ents, i, 0);
      TableAt(ents, i, Min(room, |ents| - i));
    }
    RemainingTable(ents, i + 2 + Min(room, |TableFrom(ents, i)|));
  }

  lemma TableDelivers(ents: seq<string>, i: nat, room: nat)
    ensures var r := TableCall(ents, i, room);
      Delivers(TableFrom(ents, i), room, r.out, r.refused, Remaining(ents, r.pos))
  {
    TableLeaves(ents, i, room);
    CutDelivers(TableFrom(ents, i), room, Remaining(ents, TableCall(ents, i, room).pos));
  }

  lemma CallIsTable(ents: seq<string>, pos: nat, room: nat)
    requires |Dots(pos)| <= room
    ensures PidentCall(ents, pos, room) == TableCall(ents, PastDots(pos) - 2, room - |Dots(pos)|).After(Dots(pos))
  {
  }

  lemma CallDeliversDots(ents: seq<string>, pos: nat, room: nat)
    requires room < |Dots(pos)|
    ensures var r := PidentCall(ents, pos, room);
      Delivers(Remaining(ents, pos), room, r.out, r.refused, Remaining(ents, r.pos))
  {
    DeliversDots(0, pos, 0, room, TableFrom(ents, 0));
  }

  lemma CallDeliversPastDots(ents: seq<string>, pos: nat, room: nat)
    requires |Dots(pos)| <= room
    ensures var r := PidentCall(ents, pos, room);
      Delivers(Remaining(ents, pos), room, r.out, r.refused, Remaining(ents, r.pos))
  {
    var d, i := Dots(pos), PastDots(pos) - 2;
    var r := TableCall(ents, i, room - |d|);
    CallIsTable(ents, pos, room);
    TableDelivers(ents, i, room - |d|);
    DeliversBehind(d, TableFrom(ents, i), room, r, Remaining(ents, r.pos));
  }

  /** What the cursor has left after a call is what the call did not deliver. */
  lemma CallDelivers(ents: seq<string>, pos: nat, room: nat)
    ensures var r := PidentCall(ents, pos, room);
      Delivers(Remaining(ents, pos), room, r.out, r.refused, Remaining(ents, r.pos))
  {
    if room < |Dots(pos)| {
      CallDeliversDots(ents, pos, room);
    } else {
      CallDeliversPastDots(ents, pos, room);
    }
  }

  /** Successive calls on one open file. */
  function Run(ents: seq<string>, pos: nat, rooms: seq<nat>): Call
    decreases |rooms|
  {
    if rooms == [] then Call(0, pos, 0, [], None)
    else
      var r := PidentCall(ents, pos, rooms[0]);
      Run(ents, r.pos, rooms[1..]).After(r.out)
  }

  /** Where the buffers cut the calls does not matter: only their total room does. */
  lemma {:induction false} RunDelivers(ents: seq<string>, pos: nat, rooms: seq<nat>)
    ensures var r := Run(ents, pos, rooms);
      Splits(Remaining(ents, pos), Sum(rooms), r.out, Remaining(ents, r.pos))
    decreases |rooms|
  {
    if rooms != [] {
      var r := PidentCall(ents, pos, rooms[0]);
      CallDelivers(ents, pos, rooms[0]);
      var rest := Run(ents, r.pos, rooms[1..]);
      RunDelivers(ents, r.pos, rooms[1..]);
      SplitsJoin(Remaining(ents, pos), rooms[0], r, Remaining(ents, r.pos), Sum(rooms[1..]), rest, Remaining(ents, rest.pos));
    }
  }

  /** `proc_pident_lookup`: the first entry with that name. */
  method ProcPidentLookup(refs: TaskRefs, ents: seq<string>, task: Option<nat>, name: string) returns (found: Option<Object>)
    modifies refs
    ensures forall t :: refs.Count(t) == old(refs.Count(t))
    ensures found.Some? <==> task.Some? && name in ents
    ensures found.Some? ==> exists i :: 0 <= i < |ents| && ents[i] == name && name !in ents[..i] && found == Some(TableEntry(i))
  {
    if task.None? {
      return None;
    }
    refs.Get(task.value);
    found := None;
    var p := 0;
    while p < |ents|
      invariant p <= |ents| && name !in ents[..p]
      invariant forall t :: refs.Count(t) == old(refs.Count(t)) + One(t, task)
    {
      if |ents[p]| == |name| && ents[p] == name {
        break;
      }
      p := p + 1;
    }
    if p < |ents| {
      found := Some(TableEntry(p));
    }
    refs.Put(task.value);
  }
}
