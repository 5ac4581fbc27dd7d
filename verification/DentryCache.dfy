/**
 `proc_fill_cache`: every readdir entry goes through the dentry cache of its
 directory, so that the inode number and type it reports are those that stat reports.
 */
module DentryCache {
  import opened Common

  /** Inode number and mode; a number in use is never zero. */
  datatype Inode = Inode(ino: nat, mode: nat)

  datatype Dentry = Dentry(name: string, inode: Option<Inode>, refs: nat, hashed: bool)

  /** The dentries of one directory in memory, and the hash table that finds them. */
  datatype Cache = Cache(dentries: map<nat, Dentry>, hash: map<string, nat>, next: nat)

  ghost predicate Valid(c: Cache) {
    && (forall n :: n in c.hash ==> c.hash[n] in c.dentries && c.dentries[c.hash[n]].name == n && c.dentries[c.hash[n]].hashed)
    && (forall d :: d in c.dentries && c.dentries[d].hashed ==> c.dentries[d].name in c.hash && c.hash[c.dentries[d].name] == d)
    && (forall d :: d in c.dentries ==> d < c.next && (c.dentries[d].inode.Some? ==> c.dentries[d].inode.value.ino > 0))
  }

  /** How the instantiation of a missing entry can go: no dentry, no inode, the owner
      found dead after the entry was added, or success (after which the owner may
      still die before the dentry is let go). */
  datatype Outcome = NoMemory | NoInode | DiedMeanwhile(inode: Inode) | Created(inode: Inode, diesLater: bool)

  predicate RealInode(o: Outcome) {
    (o.DiedMeanwhile? || o.Created?) ==> o.inode.ino > 0
  }

  // -------------------------------------------------- operations on the cache

  function Unhash(c: Cache, d: nat): Cache
    requires d in c.dentries
  {
    var e := c.dentries[d];
    if e.hashed then c.(dentries := c.dentries[d := e.(hashed := false)], hash := map n | n in c.hash && n != e.name :: c.hash[n]) else c
  }

  /** `dput`: at the last reference an unhashed dentry is freed, and so is one whose
      `d_delete` says that its task is dead. */
  function Put(c: Cache, d: nat, dead: bool): Cache
    requires d in c.dentries && c.dentries[d].refs > 0
  {
    var e := c.dentries[d];
    if e.refs > 1 then c.(dentries := c.dentries[d := e.(refs := e.refs - 1)])
    else
      var c' := if dead then Unhash(c, d) else c;
      if c'.dentries[d].hashed then c'.(dentries := c'.dentries[d := e.(refs := 0)])
      else c'.(dentries := map k | k in c'.dentries && k != d :: c'.dentries[k])
  }

  /** `d_lookup`, for a name that is hashed: one more reference. */
  function Hold(c: Cache, name: string): Cache
    requires name in c.hash && c.hash[name] in c.dentries
  {
    var d := c.hash[name];
    c.(dentries := c.dentries[d := c.dentries[d].(refs := c.dentries[d].refs + 1)])
  }

  // ------------------------------------------------------------ the specification

  datatype Report = Report(ino: nat, dtype: nat)

  function ReportOf(i: Inode): Report {
    Report(i.ino, i.mode / 4096)
  }

  predicate IsCached(c: Cache, name: string) {
    name in c.hash && c.hash[name] in c.dentries
  }

  /** A name that is hashed without an inode. */
  predicate IsNegative(c: Cache, name: string) {
    IsCached(c, name) && c.dentries[c.hash[name]].inode.None?
  }

  function Reported(c: Cache, name: string, o: Outcome): Report {
    if IsCached(c, name) then
      if IsNegative(c, name) then Report(1, 0) else ReportOf(c.dentries[c.hash[name]].inode.value)
    else if o.Created? then ReportOf(o.inode)
    else Report(1, 0)
  }

  /** The cache without the entry of that name. */
  function Removed(c: Cache, name: string): Cache
    requires name in c.hash
  {
    c.(dentries := map k | k in c.dentries && k != c.hash[name] :: c.dentries[k],
       hash := map n | n in c.hash && n != name :: c.hash[n])
  }

  /** The cache after a call: an unused entry of a dead task goes, a created entry
      comes, and otherwise nothing changes. */
  function Filled(c: Cache, name: string, dead: set<nat>, o: Outcome): Cache {
    if IsCached(c, name) then
      var d := c.hash[name];
      if IsNegative(c, name) then Hold(c, name)
      else if d in dead && c.dentries[d].refs == 0 then Removed(c, name)
      else c
    else if o.NoMemory? then c
    else if o.Created? && !o.diesLater then
      Cache(c.dentries[c.next := Dentry(name, Some(o.inode), 0, true)], c.hash[name := c.next], c.next + 1)
    else c.(next := c.next + 1)
  }

  /** The cache after the middle part: a created entry carries the caller's reference. */
  function Made(c: Cache, name: string, o: Outcome): Cache {
    if o.NoMemory? then c
    else if o.Created? then Cache(c.dentries[c.next := Dentry(name, Some(o.inode), 1, true)], c.hash[name := c.next], c.next + 1)
    else c.(next := c.next + 1)
  }

  lemma MadeValid(c: Cache, name: string, o: Outcome)
    requires Valid(c) && name !in c.hash && RealInode(o)
    ensures Valid(Made(c, name, o))
  {
  }

  lemma HoldValid(c: Cache, name: string)
    requires Valid(c) && name in c.hash
    ensures Valid(Hold(c, name))
  {
  }

  lemma PutHeld(c: Cache, name: string, dies: bool)
    requires Valid(c) && name in c.hash
    ensures var d := c.hash[name];
      Put(Hold(c, name), d, dies) == if dies && c.dentries[d].refs == 0 then Removed(c, name) else c
  {
  }

  lemma PutMade(c: Cache, name: string, o: Outcome)
    requires Valid(c) && name !in c.hash && o.Created?
    ensures Put(Made(c, name, o), c.next, o.diesLater) ==
      if o.diesLater then c.(next := c.next + 1)
      else Cache(c.dentries[c.next := Dentry(name, Some(o.inode), 0, true)], c.hash[name := c.next], c.next + 1)
  {
    var m := Made(c, name, o);
    if o.diesLater {
      assert Unhash(m, c.next).hash == c.hash;
      assert Put(m, c.next, true).dentries == c.dentries;
    }
  }

  /** Letting the entry go again, whether it was found or made. */
  lemma PutBack(c: Cache, name: string, o: Outcome, dies: bool)
    requires Valid(c) && RealInode(o)
    ensures name in c.hash && !IsNegative(c, name) ==>
      forall dead: set<nat> :: dies == (c.hash[name] in dead) ==>
        Put(Hold(c, name), c.hash[name], dies) == Filled(c, name, dead, o)
    ensures name !in c.hash && o.Created? && o.diesLater == dies ==>
      forall dead: set<nat> :: Put(Made(c, name, o), c.next, dies) == Filled(c, name, dead, o)
  {
    if name in c.hash && !IsNegative(c, name) {
      PutHeld(c, name, dies);
    }
    if name !in c.hash && o.Created? && o.diesLater == dies {
      PutMade(c, name, o);
    }
  }

  // ------------------------------------------------------------------- the code

  class Directory {
    var dentries: map<nat, Dentry>
    var hash: map<string, nat>
    var next: nat

    ghost function State(): Cache
      reads this
    {
      Cache(dentries, hash, next)
    }

    method DLookup(name: string) returns (child: Option<nat>)
      requires Valid(State())
      modifies this`dentries
      ensures child == if name in hash then Some(hash[name]) else None
      ensures State() == if name in hash then Hold(old(State()), name) else old(State())
    {
      child := None;
      if name in hash {
        var d := hash[name];
        dentries := dentries[d := dentries[d].(refs := dentries[d].refs + 1)];
        child := Some(d);
      }
    }

    method DAlloc(name: string) returns (new_: nat)
      modifies this`dentries, this`next
      ensures new_ == old(next) && next == old(next) + 1
      ensures dentries == old(dentries)[new_ := Dentry(name, None, 1, false)]
    {
      new_ := next;
      dentries := dentries[new_ := Dentry(name, None, 1, false)];
      next := next + 1;
    }

    method DAdd(d: nat, inode: Inode)
      requires d in dentries
      modifies this`dentries, this`hash
      ensures dentries == old(dentries)[d := old(dentries)[d].(inode := Some(inode), hashed := true)]
      ensures hash == old(hash)[old(dentries)[d].name := d]
    {
      dentries := dentries[d := dentries[d].(inode := Some(inode), hashed := true)];
      hash := hash[dentries[d].name := d];
    }

    method DDrop(d: nat)
      requires d in dentries
      modifies this`dentries, this`hash
      ensures State() == Unhash(old(State()), d)
    {
      var e := dentries[d];
      if e.hashed {
        dentries := dentries[d := e.(hashed := false)];
        hash := map n | n in hash && n != e.name :: hash[n];
      }
    }

    method Dput(d: nat, dead: bool)
      requires d in dentries && dentries[d].refs > 0
      modifies this`dentries, this`hash
      ensures State() == Put(old(State()), d, dead)
    {
      var e := dentries[d];
      if e.refs > 1 {
        dentries := dentries[d := e.(refs := e.refs - 1)];
      } else {
        if dead {
          DDrop(d);
        }
        if dentries[d].hashed {
          dentries := dentries[d := e.(refs := 0)];
        } else {
          dentries := map k | k in dentries && k != d :: dentries[k];
        }
      }
    }

    /** What the instantiate routines do with a fresh dentry; an error leaves it unhashed. */
    method Instantiate(new_: nat, o: Outcome) returns (error: bool)
      requires new_ in dentries && dentries[new_] == Dentry(dentries[new_].name, None, 1, false)
      requires dentries[new_].name !in hash
      modifies this`dentries, this`hash
      ensures error <==> !o.Created?
      ensures o.NoMemory? || o.NoInode? ==> State() == old(State())
      ensures o.DiedMeanwhile? ==>
        && hash == old(hash)
        && dentries == old(dentries)[new_ := old(dentries)[new_].(inode := Some(o.inode))]
      ensures o.Created? ==>
        && hash == old(hash)[old(dentries)[new_].name := new_]
        && dentries == old(dentries)[new_ := old(dentries)[new_].(inode := Some(o.inode), hashed := true)]
    {
      error := true;
      if o.DiedMeanwhile? || o.Created? {
        DAdd(new_, o.inode);
        if o.DiedMeanwhile? {
          DDrop(new_);
        } else {
          error := false;
        }
      }
    }

    /** `find_inode_number`: 0 if the name is not cached with an inode. */
    method FindInodeNumber(name: string) returns (ino: nat)
      requires Valid(State())
      requires name in hash ==> dentries[hash[name]].refs > 0
      modifies this`dentries, this`hash
      ensures State() == old(State())
      ensures ino == if name in hash && dentries[hash[name]].inode.Some? then dentries[hash[name]].inode.value.ino else 0
    {
      ino := 0;
      var child := DLookup(name);
      if child.Some? {
        if dentries[child.value].inode.Some? {
          ino := dentries[child.value].inode.value.ino;
        }
        Dput(child.value, false);
      }
    }

    /** The middle of `proc_fill_cache`: make the missing entry. */
    method MakeChild(name: string, o: Outcome) returns (child: Option<nat>)
      requires Valid(State()) && name !in hash
      modifies this
      ensures child == if o.Created? then Some(old(next)) else None
      ensures State() == Made(old(State()), name, o)
    {
      child := None;
      if !o.NoMemory? {
        ghost var c := State();
        var new_ := DAlloc(name);
        var error := Instantiate(new_, o);
        if error {
          Dput(new_, false);
          assert dentries == c.dentries;
        } else {
          child := Some(new_);
        }
      }
    }

    /** `proc_fill_cache`, up to its final call of `filldir`: the number and the type it
        reports. `dead` are the dentries whose task is gone. */
    method ProcFillCache(name: string, dead: set<nat>, o: Outcome) returns (ino: nat, dtype: nat)
      requires Valid(State()) && RealInode(o)
      modifies this
      ensures State() == Filled(old(State()), name, dead, o)
      ensures Report(ino, dtype) == Reported(old(State()), name, o)
      ensures name in old(hash) && old(dentries[hash[name]]).inode.Some? ==>
        var i := old(dentries[hash[name]]).inode.value;
        ino == i.ino && 4096 * dtype <= i.mode < 4096 * (dtype + 1)
      ensures name !in old(hash) && o.Created? ==>
        ino == o.inode.ino && 4096 * dtype <= o.inode.mode < 4096 * (dtype + 1)
      ensures name !in old(hash) && !o.Created? ==> ino == 1 && dtype == 0 && hash == old(hash) && dentries == old(dentries)
    {
      ghost var c := State();
      ino, dtype := 0, 0;
      var dies := false;
      var child := DLookup(name);
      if child.None? {
        child := MakeChild(name, o);
        dies := o.Created? && o.diesLater;
        MadeValid(c, name, o);
      } else {
        dies := child.value in dead;
        HoldValid(c, name);
      }
      if child.Some? && dentries[child.value].inode.Some? {
        ino, dtype := dentries[child.value].inode.value.ino, dentries[child.value].inode.value.mode / 4096;
        PutBack(c, name, o, dies);
        Dput(child.value, dies);
      }
      if ino == 0 {
        ino := FindInodeNumber(name);
      }
      if ino == 0 {
        ino := 1;
      }
    }
  }

  // --------------------------------------------------------------- its properties

  lemma FilledValid(c: Cache, name: string, dead: set<nat>, o: Outcome)
    requires Valid(c) && RealInode(o)
    ensures Valid(Filled(c, name, dead, o))
  {
  }

  /** Nobody gained or lost a reference: a dentry that stays has as many as before, one
      that went or came has none. */
  ghost predicate Balanced(c: Cache, c': Cache) {
    && (forall d :: d in c.dentries ==> if d in c'.dentries then c'.dentries[d].refs == c.dentries[d].refs else c.dentries[d].refs == 0)
    && (forall d :: d in c'.dentries && d !in c.dentries ==> c'.dentries[d].refs == 0)
  }

  /** On the hit, the create, the failure and the out-of-memory path the references
      balance; the one exception is a hit on a dentry without an inode, which is leaked. */
  lemma FillBalancesIff(c: Cache, name: string, dead: set<nat>, o: Outcome)
    requires Valid(c) && RealInode(o)
    ensures Balanced(c, Filled(c, name, dead, o)) <==> !IsNegative(c, name)
  {
  }

  /** What a later stat of the name sees. */
  ghost predicate CachedAs(c: Cache, name: string, i: Inode) {
    IsCached(c, name) && c.dentries[c.hash[name]].inode == Some(i)
  }

  /** A call that creates the entry reports it and leaves it in the cache, unless the
      owner died in the end; and if the name is cached afterwards, it is as reported. */
  lemma ReportedIsCached(c: Cache, name: string, dead: set<nat>, o: Outcome, i: Inode)
    requires Valid(c) && RealInode(o) && !IsNegative(c, name)
    ensures CachedAs(Filled(c, name, dead, o), name, i) ==> Reported(c, name, o) == ReportOf(i)
    ensures !IsCached(c, name) && o == Created(i, false) ==> CachedAs(Filled(c, name, dead, o), name, i)
  {
  }

  /** Of a name that is cached with an inode, or cannot be but is created with one, the inode
      number is reported and the mode without its lowest twelve bits; otherwise 1 and 0. */
  lemma ReportExactly(c: Cache, name: string, o: Outcome)
    requires Valid(c)
    ensures forall i :: CachedAs(c, name, i) || (name !in c.hash && o.Created? && o.inode == i) ==>
      var r := Reported(c, name, o);
      r.ino == i.ino && 4096 * r.dtype <= i.mode < 4096 * (r.dtype + 1)
    ensures (name in c.hash && c.dentries[c.hash[name]].inode.None?) || (name !in c.hash && !o.Created?) ==>
      Reported(c, name, o) == Report(1, 0)
  {
  }

  /** What a call does to the cache, name by name: the entry of another name stays as it is;
      an entry found with an inode stays unless its task is dead and nobody else holds it;
      and a missing one is there afterwards exactly if it was created for good. */
  lemma FilledExactly(c: Cache, name: string, dead: set<nat>, o: Outcome)
    requires Valid(c) && RealInode(o)
    ensures var c' := Filled(c, name, dead, o);
      && (forall n :: n != name ==> (n in c'.hash <==> n in c.hash))
      && (forall n :: n != name && n in c.hash ==> c'.hash[n] == c.hash[n] && c'.dentries[c.hash[n]] == c.dentries[c.hash[n]])
      && (forall i :: CachedAs(c, name, i) ==>
           (CachedAs(c', name, i) <==> !(c.hash[name] in dead && c.dentries[c.hash[name]].refs == 0)))
      && (name !in c.hash ==> (name in c'.hash <==> o.Created? && !o.diesLater))
      && (name !in c.hash && o.Created? && !o.diesLater ==> CachedAs(c', name, o.inode))
  {
    FilledValid(c, name, dead, o);
  }

  /** What can happen in the directory: listings of entries, references taken by others
      and given back, and entries dropped when revalidation fails. */
  datatype Event =
    | Fill(name: string, dead: set<nat>, outcome: Outcome)
    | Find(name: string)
    | LetGo(d: nat, isDead: bool)
    | DropEntry(name: string)

  predicate Allowed(c: Cache, e: Event) {
    match e
    case Fill(_, _, o) => RealInode(o)
    case Find(_) => true
    case LetGo(d, _) => d in c.dentries && c.dentries[d].refs > 0
    case DropEntry(_) => true
  }

  function Step(c: Cache, e: Event): Cache {
    match e
    case Fill(name, dead, o) => Filled(c, name, dead, o)
    case Find(name) => if IsCached(c, name) then Hold(c, name) else c
    case LetGo(d, isDead) => if d in c.dentries && c.dentries[d].refs > 0 then Put(c, d, isDead) else c
    case DropEntry(name) => if IsCached(c, name) then Unhash(c, c.hash[name]) else c
  }

  function Run(c: Cache, events: seq<Event>): Cache
    decreases |events|
  {
    if events == [] then c else Run(Step(c, events[0]), events[1..])
  }

  ghost predicate AllowedRun(c: Cache, events: seq<Event>)
    decreases |events|
  {
    events != [] ==> Allowed(c, events[0]) && AllowedRun(Step(c, events[0]), events[1..])
  }

  /** The event drops the entry of that name: explicitly, or because it gives back the
      last reference on it when its task is dead. */
  predicate Drops(c: Cache, e: Event, name: string) {
    match e
    case Fill(n, dead, _) => n == name && IsCached(c, name) && c.hash[name] in dead && c.dentries[c.hash[name]].refs == 0
    case Find(_) => false
    case LetGo(d, isDead) => IsCached(c, name) && d == c.hash[name] && isDead && c.dentries[d].refs == 1
    case DropEntry(n) => n == name
  }

  lemma StepValid(c: Cache, e: Event)
    requires Valid(c) && Allowed(c, e)
    ensures Valid(Step(c, e))
  {
    match e
    case Fill(name, dead, o) => FilledValid(c, name, dead, o);
    case Find(name) =>
      if IsCached(c, name) {
        HoldValid(c, name);
      }
    case LetGo(d, isDead) =>
      if isDead && c.dentries[d].refs == 1 {
        UnhashValid(c, d);
      }
    case DropEntry(name) =>
      if IsCached(c, name) {
        UnhashValid(c, c.hash[name]);
      }
  }

  lemma UnhashValid(c: Cache, d: nat)
    requires Valid(c) && d in c.dentries
    ensures Valid(Unhash(c, d)) && d in Unhash(c, d).dentries && !Unhash(c, d).dentries[d].hashed
  {
  }

  lemma StepKeeps(c: Cache, e: Event, name: string, i: Inode)
    requires Valid(c) && Allowed(c, e) && CachedAs(c, name, i)
    ensures CachedAs(Step(c, e), name, i) <==> !Drops(c, e, name)
  {
  }

  ghost predicate RunWithoutDrop(c: Cache, events: seq<Event>, name: string)
    decreases |events|
  {
    events != [] ==>
      Allowed(c, events[0]) && !Drops(c, events[0], name) && RunWithoutDrop(Step(c, events[0]), events[1..], name)
  }

  /** From the moment an entry is cached, every listing reports the same inode number
      and type for it, whatever happens, until the entry itself is dropped. */
  lemma {:induction false} SameReportUntilDropped(c: Cache, events: seq<Event>, name: string, i: Inode, o: Outcome)
    requires Valid(c) && CachedAs(c, name, i) && RunWithoutDrop(c, events, name)
    ensures CachedAs(Run(c, events), name, i) && Reported(Run(c, events), name, o) == ReportOf(i)
    decreases |events|
  {
    if events != [] {
      StepValid(c, events[0]);
      StepKeeps(c, events[0], name, i);
      SameReportUntilDropped(Step(c, events[0]), events[1..], name, i, o);
    }
  }

  /** What one listing reports and leaves in the cache is what every later one reports,
      until the entry is dropped. */
  lemma LaterReportsAgree(c: Cache, first: Event, events: seq<Event>, o: Outcome)
    requires Valid(c) && first.Fill? && RealInode(first.outcome) && !IsNegative(c, first.name)
    requires IsCached(Step(c, first), first.name) && RunWithoutDrop(Step(c, first), events, first.name)
    ensures Reported(Run(Step(c, first), events), first.name, o) == Reported(c, first.name, first.outcome)
  {
    var c' := Step(c, first);
    var inode := c'.dentries[c'.hash[first.name]].inode;
    StepValid(c, first);
    assert inode.Some?;
    ReportedIsCached(c, first.name, first.dead, first.outcome, inode.value);
    SameReportUntilDropped(c', events, first.name, inode.value, o);
  }

  // -------------------------------------------- references over a run of events

  function HeldOn(held: map<nat, nat>, d: nat): nat {
    if d in held then held[d] else 0
  }

  /** The references that users of the directory hold, after an event: one more on what
      they found, one less on what they let go; a listing keeps none. */
  function HeldAfter(c: Cache, held: map<nat, nat>, e: Event): map<nat, nat> {
    match e
    case Find(name) => if IsCached(c, name) then held[c.hash[name] := HeldOn(held, c.hash[name]) + 1] else held
    case LetGo(d, _) => if HeldOn(held, d) > 0 then held[d := held[d] - 1] else held
    case _ => held
  }

  function HeldAfterRun(c: Cache, held: map<nat, nat>, events: seq<Event>): map<nat, nat>
    decreases |events|
  {
    if events == [] then held else HeldAfterRun(Step(c, events[0]), HeldAfter(c, held, events[0]), events[1..])
  }

  /** Every reference is one that a user holds, and none is held on a freed dentry. */
  ghost predicate Accounted(c: Cache, held: map<nat, nat>) {
    && (forall d :: d in c.dentries ==> c.dentries[d].refs == HeldOn(held, d))
    && (forall d: nat :: d !in c.dentries ==> HeldOn(held, d) == 0)
  }

  ghost predicate NoNegative(c: Cache) {
    forall name :: !IsNegative(c, name)
  }

  /** No event hashes a dentry without an inode. */
  lemma StepNoNegative(c: Cache, e: Event)
    requires Valid(c) && Allowed(c, e) && NoNegative(c)
    ensures NoNegative(Step(c, e))
  {
    forall name
      ensures !IsNegative(Step(c, e), name)
    {
      assert !IsNegative(c, name);
    }
  }

  lemma StepAccounted(c: Cache, held: map<nat, nat>, e: Event)
    requires Valid(c) && Allowed(c, e) && NoNegative(c) && Accounted(c, held)
    ensures Accounted(Step(c, e), HeldAfter(c, held, e))
  {
    if e.Fill? {
      assert !IsNegative(c, e.name);
      FillBalancesIff(c, e.name, e.dead, e.outcome);
    }
  }

  lemma {:induction false} RunAccounted(c: Cache, held: map<nat, nat>, events: seq<Event>)
    requires Valid(c) && NoNegative(c) && Accounted(c, held) && AllowedRun(c, events)
    ensures Accounted(Run(c, events), HeldAfterRun(c, held, events))
    decreases |events|
  {
    if events != [] {
      StepValid(c, events[0]);
      StepNoNegative(c, events[0]);
      StepAccounted(c, held, events[0]);
      RunAccounted(Step(c, events[0]), HeldAfter(c, held, events[0]), events[1..]);
    }
  }

  /** References are accounted for over every run exactly if, to begin with, no dentry
      is hashed without an inode; the events themselves never hash one. */
  lemma RunsAccountedIff(c: Cache, held: map<nat, nat>)
    requires Valid(c) && Accounted(c, held)
    ensures (forall events :: AllowedRun(c, events) ==> Accounted(Run(c, events), HeldAfterRun(c, held, events)))
      <==> NoNegative(c)
  {
    if NoNegative(c) {
      forall events | AllowedRun(c, events)
        ensures Accounted(Run(c, events), HeldAfterRun(c, held, events))
      {
        RunAccounted(c, held, events);
      }
    } else {
      var name :| IsNegative(c, name);
      var e := Fill(name, {}, NoMemory);
      assert AllowedRun(c, [e]);
      assert Run(c, [e]) == Hold(c, name) && HeldAfterRun(c, held, [e]) == held;
      assert Hold(c, name).dentries[c.hash[name]].refs == HeldOn(held, c.hash[name]) + 1;
      assert !Accounted(Run(c, [e]), HeldAfterRun(c, held, [e]));
    }
  }
}
