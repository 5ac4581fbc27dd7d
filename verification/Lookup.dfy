/**
 Lookups by name, and their agreement with the listings while nothing changes
 and allocations succeed.
 */
module Lookup {
  import opened Common
  import opened Names
  import opened Listing
  import ProcRoot
  import ProcRootRuns
  import ProcTask
  import ProcTaskRuns
  import ProcFd
  import ProcFdRuns
  import ProcPident

  // ------------------------------------------------------------ /proc itself

  /** What a name of /proc leads to: "self" first, then any attached pid number. */
  function RootFinds(t: ProcRoot.PidTable, name: string): Option<Object> {
    var n := NameNumber(name);
    if name == "self" then Some(TableEntry(0))
    else if n in t && n < ProcRoot.PID_MAX_LIMIT && t[n].Attached? then Some(TaskDir(t[n].task))
    else None
  }

  lemma SelfIsNoNumber()
    ensures NameNumber("self") == NO_NUMBER
    ensures forall g: nat :: Decimal(g) != "self"
  {
    assert !AllDigits("self") by {
      assert !IsDigit("self"[0]);
    }
    forall g: nat
      ensures Decimal(g) != "self"
    {
      DecimalIsCanonical(g);
    }
  }

  /** `proc_pid_lookup`, with the table search of `proc_base_lookup`, which needs the
      directory's own task. */
  method ProcPidLookup(t: ProcRoot.PidTable, refs: TaskRefs, reaper: Option<nat>, name: string) returns (found: Option<Object>)
    requires name != ""
    modifies refs
    ensures forall x :: refs.Count(x) == old(refs.Count(x))
    ensures found == if reaper.None? && name == "self" then None else RootFinds(t, name)
  {
    SelfIsNoNumber();
    found := ProcPident.ProcPidentLookup(refs, ProcRoot.BASE_STUFF, reaper, name);
    if found.Some? {
      return;
    }
    var tgid := NameToInt(name);
    if tgid == NO_NUMBER {
      return;
    }
    if tgid in t && tgid < ProcRoot.PID_MAX_LIMIT && t[tgid].Attached? {
      refs.Get(t[tgid].task);
      found := Some(TaskDir(t[tgid].task));
      refs.Put(t[tgid].task);
    }
  }

  /** The entry of the leader that the number g is attached to. */
  ghost predicate LeaderEntry(t: ProcRoot.PidTable, g: nat, e: Entry) {
    && g in t && exists k :: t[g] == ProcRoot.Attached(k, true) && e == Entry(Numeral(g), g + ProcRoot.TGID_OFFSET, TaskDir(k))
  }

  lemma {:induction false} LeaderEntries(t: ProcRoot.PidTable, nr: nat, e: Entry)
    ensures e in ProcRootRuns.LeadersFrom(t, nr) <==>
      exists g: nat :: nr <= g < ProcRoot.PID_MAX_LIMIT && LeaderEntry(t, g, e)
    decreases ProcRoot.PID_MAX_LIMIT - nr
  {
    if nr < ProcRoot.PID_MAX_LIMIT {
      LeaderEntries(t, nr + 1, e);
      if LeaderEntry(t, nr, e) {
        assert e == ProcRoot.ProcessEntry(nr, t[nr].task);
      }
      if ProcRoot.IsLeader(t, nr) {
        assert LeaderEntry(t, nr, ProcRoot.ProcessEntry(nr, t[nr].task)) by {
          assert t[nr] == ProcRoot.Attached(t[nr].task, true);
        }
      }
    }
  }

  /** Everything listed in /proc is found under its name, as the same object. */
  lemma RootListedIsFound(t: ProcRoot.PidTable, e: Entry)
    requires e in ProcRootRuns.Remaining(t, ProcRoot.FIRST_PROCESS_ENTRY)
    ensures RootFinds(t, Text(e.name)) == Some(e.what)
  {
    SelfIsNoNumber();
    LeaderEntries(t, 0, e);
    if e != ProcRoot.SelfEntry() {
      var g: nat :| g < ProcRoot.PID_MAX_LIMIT && LeaderEntry(t, g, e);
      NameNumberExact(Decimal(g), g);
    }
  }

  /** /proc accepts "self" and the numbers of all attached tasks, each for that task. */
  lemma RootFindsExactly(t: ProcRoot.PidTable, name: string, what: Object)
    ensures RootFinds(t, name) == Some(what) <==>
      || (name == "self" && what == TableEntry(0))
      || exists g: nat :: g < ProcRoot.PID_MAX_LIMIT && g in t && t[g].Attached? && name == Decimal(g) && what == TaskDir(t[g].task)
  {
    SelfIsNoNumber();
    var n := NameNumber(name);
    if n != NO_NUMBER {
      NameNumberExact(name, n);
    }
    forall g: nat | g < ProcRoot.PID_MAX_LIMIT && g in t && t[g].Attached? && name == Decimal(g)
      ensures n == g
    {
      NameNumberExact(name, g);
    }
  }

  /** Of the names it accepts, it lists "self" and the group leaders: a lookup also
      accepts the other threads. */
  lemma RootFoundIsListed(t: ProcRoot.PidTable, name: string)
    ensures (exists e :: e in ProcRootRuns.Remaining(t, ProcRoot.FIRST_PROCESS_ENTRY) && Text(e.name) == name) <==>
      name == "self" || exists g: nat, k :: g < ProcRoot.PID_MAX_LIMIT && g in t && t[g] == ProcRoot.Attached(k, true) && name == Decimal(g)
  {
    var all := ProcRootRuns.Remaining(t, ProcRoot.FIRST_PROCESS_ENTRY);
    if name == "self" {
      assert ProcRoot.SelfEntry() in all && Text(ProcRoot.SelfEntry().name) == name;
    }
    forall g: nat, k | g < ProcRoot.PID_MAX_LIMIT && g in t && t[g] == ProcRoot.Attached(k, true) && name == Decimal(g)
      ensures exists e :: e in all && Text(e.name) == name
    {
      var e := ProcRoot.ProcessEntry(g, k);
      assert LeaderEntry(t, g, e);
      LeaderEntries(t, 0, e);
      assert e in all && Text(e.name) == name;
    }
    forall e | e in all && Text(e.name) == name && name != "self"
      ensures exists g: nat, k :: g < ProcRoot.PID_MAX_LIMIT && g in t && t[g] == ProcRoot.Attached(k, true) && name == Decimal(g)
    {
      LeaderEntries(t, 0, e);
      var g: nat :| g < ProcRoot.PID_MAX_LIMIT && LeaderEntry(t, g, e);
    }
  }

  // -------------------------------------------------------- /proc/TGID/task

  /** What a name leads to: the thread of this group with that tid. */
  function TaskFinds(g: ProcTask.Group, name: string): Option<Object> {
    var n := NameNumber(name);
    if n == NO_NUMBER then None
    else match ProcTask.FindTask(g, n)
      case Member(i) => Some(TaskDir(g.ring[i].stamp))
      case _ => None
  }

  /** `proc_task_lookup`. A stranger's reference is taken and dropped as well. */
  method ProcTaskLookup(g: ProcTask.Group, refs: TaskRefs, leader: Option<nat>, stranger: nat, name: string) returns (found: Option<Object>)
    requires name != ""
    modifies refs
    ensures forall x :: refs.Count(x) == old(refs.Count(x))
    ensures found == if leader.Some? then TaskFinds(g, name) else None
  {
    found := None;
    if leader.None? {
      return;
    }
    refs.Get(leader.value);
    var tid := NameToInt(name);
    if tid != NO_NUMBER {
      var f := ProcTask.FindTask(g, tid);
      if f.Member? {
        refs.Get(g.ring[f.index].stamp);
        found := Some(TaskDir(g.ring[f.index].stamp));
        refs.Put(g.ring[f.index].stamp);
      } else if f.Stranger? {
        refs.Get(stranger);
        refs.Put(stranger);
      }
    }
    refs.Put(leader.value);
  }

  lemma {:induction false} ThreadEntries(g: ProcTask.Group, n: nat, e: Entry)
    ensures e in ProcTaskRuns.ThreadsFrom(g, n) <==>
      exists i: nat :: n <= i < |g.ring| && e == Entry(Numeral(g.ring[i].tid), i + 2, TaskDir(g.ring[i].stamp))
    decreases |g.ring| - n
  {
    if n < |g.ring| {
      var head := ProcTask.ThreadEntry(g.ring[n], n + 2);
      ThreadEntries(g, n + 1, e);
      assert e in ProcTaskRuns.ThreadsFrom(g, n) <==> e == head || e in ProcTaskRuns.ThreadsFrom(g, n + 1);
    }
  }

  lemma TaskFindsMember(g: ProcTask.Group, i: nat)
    requires ProcTaskRuns.WellFormed(g) && i < |g.ring|
    ensures TaskFinds(g, Decimal(g.ring[i].tid)) == Some(TaskDir(g.ring[i].stamp))
  {
    NameNumberExact(Decimal(g.ring[i].tid), g.ring[i].tid);
    ProcTaskRuns.FoundAtOrdinal(g, i);
  }

  /** task/ accepts the numeral of each thread's tid, for that thread, and no other name. */
  lemma TaskFindsExactly(g: ProcTask.Group, name: string, what: Object)
    requires ProcTaskRuns.WellFormed(g)
    ensures TaskFinds(g, name) == Some(what) <==>
      exists i :: 0 <= i < |g.ring| && name == Decimal(g.ring[i].tid) && what == TaskDir(g.ring[i].stamp)
  {
    var n := NameNumber(name);
    if n != NO_NUMBER {
      NameNumberExact(name, n);
    }
    forall i | 0 <= i < |g.ring| && name == Decimal(g.ring[i].tid)
      ensures TaskFinds(g, name) == Some(TaskDir(g.ring[i].stamp))
    {
      TaskFindsMember(g, i);
    }
  }

  /** task/ accepts exactly the listed names, and each leads to the listed thread. */
  lemma TaskListedIffFound(g: ProcTask.Group, name: string, what: Object)
    requires ProcTaskRuns.WellFormed(g)
    ensures TaskFinds(g, name) == Some(what) <==>
      exists e :: e in ProcTaskRuns.Remaining(g, 2) && Text(e.name) == name && e.what == what
  {
    var n, all := NameNumber(name), ProcTaskRuns.Remaining(g, 2);
    if TaskFinds(g, name) == Some(what) {
      NameNumberExact(name, n);
      var i := ProcTask.IndexOfTid(g.ring, n, 0);
      var e := ProcTask.ThreadEntry(g.ring[i], i + 2);
      ThreadEntries(g, 0, e);
      assert e in all && Text(e.name) == name && e.what == what;
    }
    forall e | e in all && Text(e.name) == name && e.what == what
      ensures TaskFinds(g, name) == Some(what)
    {
      ThreadEntries(g, 0, e);
      var i: nat :| i < |g.ring| && e == Entry(Numeral(g.ring[i].tid), i + 2, TaskDir(g.ring[i].stamp));
      TaskFindsMember(g, i);
    }
  }

  // ------------------------------------------------------------ /proc/PID/fd

  function FdFinds(t: ProcFd.FdTable, name: string): Option<Object> {
    var n := NameNumber(name);
    if n != NO_NUMBER && n in t.open && n < t.size && n < ProcFd.FD_LIMIT then Some(OpenFd(n)) else None
  }

  /** `proc_lookupfd_common` with an instantiation that refuses a descriptor not in use. */
  method ProcLookupfdCommon(t: ProcFd.FdTable, refs: TaskRefs, task: Option<nat>, name: string) returns (found: Option<Object>)
    requires name != ""
    modifies refs
    ensures forall x :: refs.Count(x) == old(refs.Count(x))
    ensures found == if task.Some? then FdFinds(t, name) else None
  {
    found := None;
    var fd := NameToInt(name);
    if task.None? {
      return;
    }
    refs.Get(task.value);
    if fd != NO_NUMBER && ProcFd.IsOpen(t, fd) {
      found := Some(OpenFd(fd));
    }
    refs.Put(task.value);
  }

  lemma {:induction false} FdEntries(t: ProcFd.FdTable, fd: nat, e: Entry)
    ensures e in ProcFdRuns.OpenFrom(t, fd) <==>
      exists k: nat :: fd <= k && k in t.open && k < t.size && k < ProcFd.FD_LIMIT && e == Entry(Numeral(k), k + 2, OpenFd(k))
    decreases ProcFd.FD_LIMIT - fd
  {
    if ProcFd.HasSlot(t, fd) {
      FdEntries(t, fd + 1, e);
    }
  }

  /** The directory lists exactly the descriptors in use. */
  lemma ListsExactlyOpen(t: ProcFd.FdTable, fd: nat)
    ensures Entry(Numeral(fd), fd + 2, OpenFd(fd)) in ProcFdRuns.Remaining(t, 2) <==> fd in t.open && fd < t.size && fd < ProcFd.FD_LIMIT
  {
    ProcFdRuns.RemainingFds(t, 2);
    FdEntries(t, 0, Entry(Numeral(fd), fd + 2, OpenFd(fd)));
  }

  /** fd/ accepts the numeral of each descriptor in use, for that descriptor, and no other name. */
  lemma FdFindsExactly(t: ProcFd.FdTable, name: string, what: Object)
    ensures FdFinds(t, name) == Some(what) <==>
      exists fd: nat :: fd in t.open && fd < t.size && fd < ProcFd.FD_LIMIT && name == Decimal(fd) && what == OpenFd(fd)
  {
    var n := NameNumber(name);
    if n != NO_NUMBER {
      NameNumberExact(name, n);
    }
    forall fd: nat | fd < ProcFd.FD_LIMIT && name == Decimal(fd)
      ensures n == fd
    {
      NameNumberExact(name, fd);
    }
  }

  /** fd/ accepts exactly the listed names, and each leads to the listed descriptor. */
  lemma FdListedIffFound(t: ProcFd.FdTable, name: string, what: Object)
    ensures FdFinds(t, name) == Some(what) <==>
      exists e :: e in ProcFdRuns.Remaining(t, 2) && Text(e.name) == name && e.what == what
  {
    var n, all := NameNumber(name), ProcFdRuns.Remaining(t, 2);
    if FdFinds(t, name) == Some(what) {
      NameNumberExact(name, n);
      FdEntries(t, 0, ProcFd.FdEntry(n));
      assert ProcFd.FdEntry(n) in all && Text(ProcFd.FdEntry(n).name) == name;
    }
    forall e | e in all && Text(e.name) == name && e.what == what
      ensures FdFinds(t, name) == Some(what)
    {
      FdEntries(t, 0, e);
      var k: nat :| k in t.open && k < t.size && k < ProcFd.FD_LIMIT && e == Entry(Numeral(k), k + 2, OpenFd(k));
      NameNumberExact(name, k);
    }
  }

  // ------------------------------------------------------ table directories

  function EntryAt(ents: seq<string>, k: nat): Entry
    requires k < |ents|
  {
    Entry(Word(ents[k]), k + 2, TableEntry(k))
  }

  lemma InCons(e: Entry, head: Entry, rest: seq<Entry>)
    ensures e in [head] + rest <==> e == head || e in rest
  {
  }

  lemma {:induction false} TableListsEntry(ents: seq<string>, i: nat, k: nat)
    requires i <= k < |ents|
    ensures EntryAt(ents, k) in ProcPident.TableFrom(ents, i)
    decreases k - i
  {
    InCons(EntryAt(ents, k), EntryAt(ents, i), ProcPident.TableFrom(ents, i + 1));
    if i < k {
      TableListsEntry(ents, i + 1, k);
    }
  }

  lemma {:induction false} ListedIsEntry(ents: seq<string>, i: nat, e: Entry) returns (k: nat)
    requires e in ProcPident.TableFrom(ents, i)
    ensures i <= k < |ents| && e == EntryAt(ents, k)
    decreases |ents| - i
  {
    InCons(e, EntryAt(ents, i), ProcPident.TableFrom(ents, i + 1));
    if e == EntryAt(ents, i) {
      k := i;
    } else {
      k := ListedIsEntry(ents, i + 1, e);
    }
  }

  ghost predicate FirstNamed(ents: seq<string>, name: string, what: Object) {
    exists i :: 0 <= i < |ents| && ents[i] == name && name !in ents[..i] && what == TableEntry(i)
  }

  /** The first entry with a name is what `proc_pident_lookup` returns; it is the listed
      one for every listed name exactly if no name occurs twice in the table. */
  lemma TableListedIsFound(ents: seq<string>)
    ensures (forall e :: e in ProcPident.Remaining(ents, 2) ==> FirstNamed(ents, Text(e.name), e.what))
      <==> forall i, j :: 0 <= i < j < |ents| ==> ents[i] != ents[j]
  {
    var all := ProcPident.Remaining(ents, 2);
    if forall i, j :: 0 <= i < j < |ents| ==> ents[i] != ents[j] {
      forall e | e in all
        ensures FirstNamed(ents, Text(e.name), e.what)
      {
        var k := ListedIsEntry(ents, 0, e);
      }
    }
    if forall e :: e in all ==> FirstNamed(ents, Text(e.name), e.what) {
      forall i, j | 0 <= i < j < |ents|
        ensures ents[i] != ents[j]
      {
        var e := EntryAt(ents, j);
        TableListsEntry(ents, 0, j);
        assert e in all && FirstNamed(ents, Text(e.name), e.what);
        assert ents[i] in ents[..j];
      }
    }
  }

  lemma AttrNamesDistinct()
    ensures forall i, j :: 0 <= i < j < |ProcPident.ATTR_DIR_STUFF| ==> ProcPident.ATTR_DIR_STUFF[i] != ProcPident.ATTR_DIR_STUFF[j]
  {
  }

  /** No name occurs twice in the table of /proc/PID/attr, so everything listed there is
      found as its own entry. */
  lemma AttrListedIsFound()
    ensures var ents := ProcPident.ATTR_DIR_STUFF;
      forall e :: e in ProcPident.Remaining(ents, 2) ==> FirstNamed(ents, Text(e.name), e.what)
  {
    AttrNamesDistinct();
    TableListedIsFound(ProcPident.ATTR_DIR_STUFF);
  }
}
