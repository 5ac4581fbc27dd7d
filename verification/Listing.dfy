/**
 What the four readdir routines share: the open directory, the user's buffer
 behind `filldir`, task references, and the abstract resumable listing that
 each routine refines while its directory does not change.
 */
module Listing {
  import opened Common
  import opened Names

  /** What an entry stands for: the thing `proc_fill_cache` instantiates it from. */
  datatype Object =
    | Dot
    | DotDot
    | TableEntry(index: nat)
    | TaskDir(task: nat)
    | OpenFd(fd: nat)

  /** One `filldir` offer: the name, the directory offset and the object behind it. */
  datatype Entry = Entry(name: FileName, pos: nat, what: Object)

  /** The part of `struct file` that survives between two calls. */
  class OpenDir {
    var fPos: nat
    var fVersion: nat
  }

  /**
   The user's buffer during one call. `room` is chosen by the adversary; since a
   call ends at its first refusal, every behaviour of a refusing buffer is the
   behaviour of some `room`.
   */
  class DirBuffer {
    var entries: seq<Entry>
    var room: nat
    var refused: Option<Entry>

    /** Takes the entry, or refuses it. Nothing may be offered after a refusal. */
    method Filldir(name: FileName, pos: nat, what: Object) returns (error: int)
      requires refused.None?
      modifies this
      ensures old(room) > 0 ==>
        && error == 0 && refused.None? && room == old(room) - 1
        && entries == old(entries) + [Entry(name, pos, what)]
      ensures old(room) == 0 ==>
        && error < 0 && refused == Some(Entry(name, pos, what)) && room == 0
        && entries == old(entries)
    {
      if room == 0 {
        refused := Some(Entry(name, pos, what));
        error := -22;
      } else {
        room := room - 1;
        entries := entries + [Entry(name, pos, what)];
        error := 0;
      }
    }
  }

  /** Reference counts of tasks. */
  class TaskRefs {
    var counts: map<nat, nat>

    function Count(task: nat): nat
      reads this
    {
      if task in counts then counts[task] else 0
    }

    method Get(task: nat)
      modifies this
      ensures forall t :: Count(t) == old(Count(t)) + One(t, Some(task))
    {
      counts := counts[task := Count(task) + 1];
    }

    /** Only a reference that is held can be given back. */
    method Put(task: nat)
      requires Count(task) > 0
      modifies this
      ensures forall t :: Count(t) == old(Count(t)) - One(t, Some(task))
    {
      counts := counts[task := Count(task) - 1];
    }
  }

  /** One reference, if there is a task to hold it on. */
  function One(t: nat, task: Option<nat>): nat {
    if task == Some(t) then 1 else 0
  }

  /** Outcome of one call: the instant at which the next one looks at the system, the
      cursor it leaves, what it delivered and what was refused. */
  datatype Call = Call(now: nat, pos: nat, version: nat, out: seq<Entry>, refused: Option<Entry>)
  {
    function After(earlier: seq<Entry>): Call {
      this.(out := earlier + out)
    }
  }

  lemma AfterAfter(c: Call, a: seq<Entry>, b: seq<Entry>)
    ensures c.After(b).After(a) == c.After(a + b)
    ensures c.After([]) == c
  {
  }

  // "." and "..", as far as they lie at or after the cursor

  function Dots(pos: nat): seq<Entry> {
    if pos == 0 then [Entry(Word("."), 0, Dot), Entry(Word(".."), 1, DotDot)]
    else if pos == 1 then [Entry(Word(".."), 1, DotDot)]
    else []
  }

  function PastDots(pos: nat): nat {
    if pos < 2 then 2 else pos
  }

  /** One entry for each offset from the cursor up to 1: "." at 0 and ".." at 1. */
  lemma DotsExactly(pos: nat)
    ensures |Dots(pos)| == PastDots(pos) - pos && PastDots(pos) >= 2
    ensures forall i :: 0 <= i < |Dots(pos)| ==>
      Dots(pos)[i] == if pos + i == 0 then Entry(Word("."), 0, Dot) else Entry(Word(".."), 1, DotDot)
  {
  }

  /** The call of a directory that starts with dots, when the buffer refuses one of them. */
  function RefusedAtDots(now: nat, pos: nat, version: nat, room: nat): Call
    requires room < |Dots(pos)|
  {
    Call(now, pos + room, version, Dots(pos)[..room], Some(Dots(pos)[room]))
  }

  /** The `switch` on f_pos with which the directories below /proc/PID begin: offer
      "." and "..", as far as the cursor has not passed them. */
  method FillDots(f: OpenDir, buf: DirBuffer) returns (full: bool)
    requires buf.refused.None?
    modifies f`fPos, buf
    ensures full <==> old(buf.room) < |Dots(old(f.fPos))|
    ensures full ==>
      var r := RefusedAtDots(0, old(f.fPos), 0, old(buf.room));
      f.fPos == r.pos && buf.entries == old(buf.entries) + r.out && buf.refused == r.refused
    ensures !full ==>
      && f.fPos == PastDots(old(f.fPos)) && buf.entries == old(buf.entries) + Dots(old(f.fPos))
      && buf.refused.None? && buf.room == old(buf.room) - |Dots(old(f.fPos))|
  {
    if f.fPos == 0 {
      var error := buf.Filldir(Word("."), 0, Dot);
      if error < 0 {
        return true;
      }
      f.fPos := f.fPos + 1;
    }
    if f.fPos == 1 {
      var error := buf.Filldir(Word(".."), 1, DotDot);
      if error < 0 {
        return true;
      }
      f.fPos := f.fPos + 1;
    }
    return false;
  }

  // The abstract resumable listing. Its whole state is the sequence of entries
  // that are still to be delivered.

  function Take(rest: seq<Entry>, room: nat): seq<Entry> {
    rest[..Min(room, |rest|)]
  }

  /** `out` is as much of `rest` as fits into `room`, and rest' is what remains. */
  ghost predicate Splits(rest: seq<Entry>, room: nat, out: seq<Entry>, rest': seq<Entry>) {
    rest == out + rest' && |out| == Min(room, |rest|)
  }

  /** One call with `room` places turns `rest` into rest': it delivers what fits, and
      what it refuses is the first thing left for the next call. */
  ghost predicate Delivers(rest: seq<Entry>, room: nat, out: seq<Entry>, refused: Option<Entry>, rest': seq<Entry>) {
    Splits(rest, room, out, rest') && refused == (if rest' == [] then None else Some(rest'[0]))
  }

  function Sum(rooms: seq<nat>): nat {
    if rooms == [] then 0 else rooms[0] + Sum(rooms[1..])
  }

  /** A call and the calls after it deliver what one call with all their room would. */
  lemma SplitsJoin(rest: seq<Entry>, a: nat, r: Call, mid: seq<Entry>, b: nat, later: Call, rest': seq<Entry>)
    requires Delivers(rest, a, r.out, r.refused, mid) && Splits(mid, b, later.out, rest')
    ensures Splits(rest, a + b, later.After(r.out).out, rest')
  {
  }

  /** A call that delivers d, then goes on as the given one. */
  lemma DeliversBehind(d: seq<Entry>, rest: seq<Entry>, room: nat, r: Call, rest': seq<Entry>)
    requires |d| <= room && Delivers(rest, room - |d|, r.out, r.refused, rest')
    ensures Delivers(d + rest, room, r.After(d).out, r.After(d).refused, rest')
  {
  }

  /** A call whose buffer refuses a dot. */
  lemma DeliversDots(now: nat, pos: nat, version: nat, room: nat, rest: seq<Entry>)
    requires room < |Dots(pos)|
    ensures var r := RefusedAtDots(now, pos, version, room);
      r.pos < 2 && Delivers(Dots(pos) + rest, room, r.out, r.refused, Dots(r.pos) + rest)
  {
  }

  lemma DeliversPrepend(e: Entry, rest: seq<Entry>, room: nat, out: seq<Entry>, refused: Option<Entry>, rest': seq<Entry>)
    requires room > 0
    requires Delivers(rest, room - 1, out, refused, rest')
    ensures Delivers([e] + rest, room, [e] + out, refused, rest')
  {
  }

  // Entries in the order of their offsets

  ghost predicate Ordered(out: seq<Entry>, lo: nat, hi: nat) {
    && (forall i :: 0 <= i < |out| ==> lo <= out[i].pos < hi)
    && (forall i, j :: 0 <= i < j < |out| ==> out[i].pos < out[j].pos)
  }
}
