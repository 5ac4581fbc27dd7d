/**
 The files /proc/PID/mounts and its relatives: what an open file holds, what it
 gives back, and when polling it reports a change.
 */
module Mounts {
  import opened Common

  const EINVAL: int := -22
  const ENOMEM: int := -12

  // POLLIN | POLLRDNORM, and POLLERR | POLLPRI
  const READABLE: nat := 0x41
  const CHANGED: nat := 0x0a

  /** `struct proc_mounts` */
  datatype ProcMounts = ProcMounts(ns: nat, root: nat, event: nat)

  /** Reference counts of namespaces and paths, blocks of memory in use, the change
      counter of each namespace, and the open files. */
  datatype World = World(nsRefs: map<nat, nat>, pathRefs: map<nat, nat>, blocks: nat, events: map<nat, nat>, files: map<nat, ProcMounts>)

  /** What an open meets: the process may be gone, without namespaces or without a root;
      memory may be short; and `seq_open` may fail. */
  datatype Scene = Scene(alive: bool, nsproxy: bool, ns: Option<nat>, root: Option<nat>, memory: bool, seqRet: int)

  predicate HasNs(s: Scene) {
    s.alive && s.nsproxy && s.ns.Some?
  }

  predicate Succeeds(s: Scene) {
    HasNs(s) && s.root.Some? && s.memory && s.seqRet == 0
  }

  /** A task's namespace and root exist: somebody holds them. */
  predicate Present(w: World, s: Scene) {
    && (s.ns.Some? ==> s.ns.value in w.nsRefs && s.ns.value in w.events)
    && (s.root.Some? ==> s.root.value in w.pathRefs)
    && s.seqRet <= 0
  }

  function Inc(m: map<nat, nat>, k: nat): map<nat, nat>
    requires k in m
  {
    m[k := m[k] + 1]
  }

  /** Giving back what nobody holds changes nothing, and does not happen below. */
  function Dec(m: map<nat, nat>, k: nat): map<nat, nat> {
    if k in m && m[k] > 0 then m[k := m[k] - 1] else m
  }

  // ------------------------------------------------------------ the specification

  /** The error of an open, by the first thing that fails. */
  function OpenResult(s: Scene): int {
    if !HasNs(s) || s.root.None? then EINVAL else if !s.memory then ENOMEM else s.seqRet
  }

  function Opened(w: World, file: nat, s: Scene): World
    requires Present(w, s) && Succeeds(s)
  {
    var (ns, root) := (s.ns.value, s.root.value);
    World(Inc(w.nsRefs, ns), Inc(w.pathRefs, root), w.blocks + 1, w.events, w.files[file := ProcMounts(ns, root, w.events[ns])])
  }

  function Released(w: World, file: nat): World
    requires file in w.files && w.blocks > 0
  {
    var p := w.files[file];
    World(Dec(w.nsRefs, p.ns), Dec(w.pathRefs, p.root), w.blocks - 1, w.events, map f | f in w.files && f != file :: w.files[f])
  }

  // ------------------------------------------------------------- conservation

  function OpenOn(files: map<nat, ProcMounts>, ns: nat): set<nat> {
    set f | f in files && files[f].ns == ns
  }

  function OpenUnder(files: map<nat, ProcMounts>, root: nat): set<nat> {
    set f | f in files && files[f].root == root
  }

  /** What is held for other reasons than open files. */
  datatype Others = Others(ns: map<nat, nat>, paths: map<nat, nat>, blocks: nat)

  ghost predicate NsAccount(w: World, others: Others, n: nat) {
    n in w.nsRefs ==> n in others.ns && w.nsRefs[n] == others.ns[n] + |OpenOn(w.files, n)|
  }

  ghost predicate PathAccount(w: World, others: Others, p: nat) {
    p in w.pathRefs ==> p in others.paths && w.pathRefs[p] == others.paths[p] + |OpenUnder(w.files, p)|
  }

  /** The account: beside the others, every open file holds one reference on its
      namespace, one on its root path, and one block; and nothing else is held. */
  ghost predicate Account(w: World, others: Others) {
    && (forall f :: f in w.files ==> w.files[f].ns in w.nsRefs && w.files[f].root in w.pathRefs && w.files[f].ns in w.events)
    && (forall n :: NsAccount(w, others, n))
    && (forall p :: PathAccount(w, others, p))
    && w.blocks == others.blocks + |w.files.Keys|
  }

  lemma OpenIsCounted(w: World, others: Others, file: nat)
    requires Account(w, others) && file in w.files
    ensures w.files[file].ns in w.nsRefs && w.nsRefs[w.files[file].ns] > 0
    ensures w.files[file].root in w.pathRefs && w.pathRefs[w.files[file].root] > 0
    ensures w.blocks > 0
  {
    assert NsAccount(w, others, w.files[file].ns) && PathAccount(w, others, w.files[file].root);
    assert file in OpenOn(w.files, w.files[file].ns);
    assert file in OpenUnder(w.files, w.files[file].root);
    assert file in w.files.Keys;
  }

  datatype Op =
    | Open(file: nat, scene: Scene)
    | Release(file: nat)
    | Poll(file: nat)
    | Touch(ns: nat, event: nat)

  /** A closed file is opened, an open one is released or polled; a namespace may
      change at any time. */
  ghost predicate Allowed(w: World, op: Op) {
    match op
    case Open(file, s) => file !in w.files && Present(w, s)
    case Release(file) => file in w.files
    case Poll(file) => file in w.files
    case Touch(ns, _) => ns in w.events
  }

  function Step(w: World, op: Op): World {
    match op
    case Open(file, s) => if Present(w, s) && Succeeds(s) then Opened(w, file, s) else w
    case Release(file) => if file in w.files && w.blocks > 0 then Released(w, file) else w
    case Poll(file) =>
      if file in w.files && w.files[file].ns in w.events then
        w.(files := w.files[file := w.files[file].(event := w.events[w.files[file].ns])])
      else w
    case Touch(ns, event) => w.(events := w.events[ns := event])
  }

  // ------------------------------------------------------------------ the code

  class Kernel {
    var nsRefs: map<nat, nat>
    var pathRefs: map<nat, nat>
    var blocks: nat
    var events: map<nat, nat>
    var files: map<nat, ProcMounts>
    var taskRefs: nat

    ghost function State(): World
      reads this
    {
      World(nsRefs, pathRefs, blocks, events, files)
    }

    /** `mounts_open_common`: everything is held on success, nothing on failure. */
    method MountsOpenCommon(file: nat, s: Scene) returns (ret: int)
      requires Present(State(), s) && file !in files
      modifies this`nsRefs, this`pathRefs, this`blocks, this`files, this`taskRefs
      ensures taskRefs == old(taskRefs)
      ensures ret == OpenResult(s)
      ensures ret == 0 <==> s.alive && s.nsproxy && s.ns.Some? && s.root.Some? && s.memory && s.seqRet == 0
      ensures !(s.alive && s.nsproxy && s.ns.Some? && s.root.Some?) ==> ret == -22
      ensures s.alive && s.nsproxy && s.ns.Some? && s.root.Some? ==> ret == if s.memory then s.seqRet else -12
      ensures State() == if ret == 0 then Opened(old(State()), file, s) else old(State())
      ensures ret == 0 ==>
        var ns, root := s.ns.value, s.root.value;
        && nsRefs == old(nsRefs)[ns := old(nsRefs)[ns] + 1] && pathRefs == old(pathRefs)[root := old(pathRefs)[root] + 1]
        && blocks == old(blocks) + 1 && files == old(files)[file := ProcMounts(ns, root, old(events)[ns])]
    {
      var ns: Option<nat> := None;
      ghost var w := State();
      ret := EINVAL;
      if s.alive {
        taskRefs := taskRefs + 1;
        if s.nsproxy {
          ns := s.ns;
          if ns.Some? {
            nsRefs := Inc(nsRefs, ns.value);
          }
        }
        if ns.Some? && s.root.Some? {
          pathRefs := Inc(pathRefs, s.root.value);
          ret := 0;
        }
        taskRefs := taskRefs - 1;
      }
      if ns.None? {
        return;
      }
      if ret == 0 {
        ret := ENOMEM;
        if s.memory {
          blocks := blocks + 1;
          ret := s.seqRet;
          if ret == 0 {
            files := files[file := ProcMounts(ns.value, s.root.value, events[ns.value])];
            return;
          }
          blocks := blocks - 1;
        }
        pathRefs := Dec(pathRefs, s.root.value);
        assert pathRefs == w.pathRefs;
      }
      nsRefs := Dec(nsRefs, ns.value);
      assert nsRefs == w.nsRefs;
    }

    /** `mounts_release`, with the block freed by `seq_release`. */
    method MountsRelease(file: nat, ghost others: Others)
      requires Account(State(), others) && file in files
      modifies this`nsRefs, this`pathRefs, this`blocks, this`files
      ensures State() == Released(old(State()), file)
      ensures var p := old(files)[file];
        && nsRefs.Keys == old(nsRefs).Keys && pathRefs.Keys == old(pathRefs).Keys
        && (forall n :: n in nsRefs ==> old(nsRefs)[n] == nsRefs[n] + if n == p.ns then 1 else 0)
        && (forall r :: r in pathRefs ==> old(pathRefs)[r] == pathRefs[r] + if r == p.root then 1 else 0)
        && blocks == old(blocks) - 1 && files == old(files) - {file}
    {
      var p := files[file];
      OpenIsCounted(State(), others, file);
      pathRefs := Dec(pathRefs, p.root);
      nsRefs := Dec(nsRefs, p.ns);
      blocks := blocks - 1;
      files := map f | f in files && f != file :: files[f];
    }

    /** `mounts_poll` */
    method MountsPoll(file: nat) returns (res: nat)
      requires file in files && files[file].ns in events
      modifies this`files
      ensures State() == Step(old(State()), Poll(file))
      ensures res == if old(events[files[file].ns]) != old(files[file].event) then 0x4b else 0x41
      ensures files == old(files)[file := old(files)[file].(event := old(events[files[file].ns]))]
    {
      var p := files[file];
      res := READABLE;
      if p.event != events[p.ns] {
        files := files[file := p.(event := events[p.ns])];
        res := res + CHANGED;
      } else {
        assert files == files[file := p.(event := events[p.ns])];
      }
    }
  }

  // -------------------------------------------------------- what every run keeps

  lemma OpenOnAdd(files: map<nat, ProcMounts>, file: nat, p: ProcMounts, n: nat)
    requires file !in files
    ensures |OpenOn(files[file := p], n)| == |OpenOn(files, n)| + (if p.ns == n then 1 else 0)
  {
    assert OpenOn(files[file := p], n) == OpenOn(files, n) + if p.ns == n then {file} else {};
  }

  lemma OpenUnderAdd(files: map<nat, ProcMounts>, file: nat, p: ProcMounts, r: nat)
    requires file !in files
    ensures |OpenUnder(files[file := p], r)| == |OpenUnder(files, r)| + (if p.root == r then 1 else 0)
  {
    assert OpenUnder(files[file := p], r) == OpenUnder(files, r) + if p.root == r then {file} else {};
  }

  lemma OpenConserves(w: World, others: Others, file: nat, s: Scene)
    requires Account(w, others) && file !in w.files && Present(w, s) && Succeeds(s)
    ensures Account(Opened(w, file, s), others)
  {
    var w' := Opened(w, file, s);
    var p := w'.files[file];
    forall n
      ensures NsAccount(w', others, n)
    {
      assert NsAccount(w, others, n);
      OpenOnAdd(w.files, file, p, n);
    }
    forall r
      ensures PathAccount(w', others, r)
    {
      assert PathAccount(w, others, r);
      OpenUnderAdd(w.files, file, p, r);
    }
    assert w'.files.Keys == w.files.Keys + {file};
  }

  lemma ReleaseConserves(w: World, others: Others, file: nat)
    requires Account(w, others) && file in w.files
    ensures w.blocks > 0 && Account(Released(w, file), others)
  {
    OpenIsCounted(w, others, file);
    var w', p := Released(w, file), w.files[file];
    assert w'.files[file := p] == w.files;
    forall n
      ensures NsAccount(w', others, n)
    {
      assert NsAccount(w, others, n);
      OpenOnAdd(w'.files, file, p, n);
    }
    forall r
      ensures PathAccount(w', others, r)
    {
      assert PathAccount(w, others, r);
      OpenUnderAdd(w'.files, file, p, r);
    }
    assert w.files.Keys == w'.files.Keys + {file};
  }

  lemma PollConserves(w: World, others: Others, file: nat)
    requires Account(w, others) && file in w.files
    ensures Account(Step(w, Poll(file)), others)
  {
    var w' := Step(w, Poll(file));
    forall n
      ensures NsAccount(w', others, n)
    {
      assert NsAccount(w, others, n);
      assert OpenOn(w'.files, n) == OpenOn(w.files, n);
    }
    forall r
      ensures PathAccount(w', others, r)
    {
      assert PathAccount(w, others, r);
      assert OpenUnder(w'.files, r) == OpenUnder(w.files, r);
    }
    assert w'.files.Keys == w.files.Keys;
  }

  /** Each operation keeps the account with the same others: an open file accounts for
      exactly one reference of each kind and one block, a failed open for nothing. */
  lemma StepConserves(w: World, others: Others, op: Op)
    requires Account(w, others) && Allowed(w, op)
    ensures Account(Step(w, op), others)
  {
    match op
    case Open(file, s) =>
      if Succeeds(s) {
        OpenConserves(w, others, file, s);
      }
    case Release(file) =>
      ReleaseConserves(w, others, file);
    case Poll(file) =>
      PollConserves(w, others, file);
    case Touch(ns, event) =>
      TouchConserves(w, others, ns, event);
  }

  lemma TouchConserves(w: World, others: Others, ns: nat, event: nat)
    requires Account(w, others)
    ensures Account(Step(w, Touch(ns, event)), others)
  {
    var w' := Step(w, Touch(ns, event));
    assert forall n :: NsAccount(w, others, n) ==> NsAccount(w', others, n);
    assert forall r :: PathAccount(w, others, r) ==> PathAccount(w', others, r);
  }

  function Run(w: World, ops: seq<Op>): World
    decreases |ops|
  {
    if ops == [] then w else Run(Step(w, ops[0]), ops[1..])
  }

  ghost predicate AllowedRun(w: World, ops: seq<Op>)
    decreases |ops|
  {
    ops != [] ==> Allowed(w, ops[0]) && AllowedRun(Step(w, ops[0]), ops[1..])
  }

  lemma StepKeepsObjects(w: World, op: Op)
    requires Allowed(w, op)
    ensures Step(w, op).nsRefs.Keys == w.nsRefs.Keys && Step(w, op).pathRefs.Keys == w.pathRefs.Keys
  {
  }

  /** Over any run of opens (failing or not), releases and polls, what others hold is
      conserved. */
  lemma {:induction false} RunConserves(w: World, others: Others, ops: seq<Op>)
    requires Account(w, others) && AllowedRun(w, ops)
    ensures Account(Run(w, ops), others)
    ensures Run(w, ops).nsRefs.Keys == w.nsRefs.Keys && Run(w, ops).pathRefs.Keys == w.pathRefs.Keys
    decreases |ops|
  {
    if ops != [] {
      StepKeepsObjects(w, ops[0]);
      StepConserves(w, others, ops[0]);
      RunConserves(Step(w, ops[0]), others, ops[1..]);
    }
  }

  /** When all files are closed again, exactly the others' references and blocks are left. */
  lemma AllReleased(w: World, others: Others, ops: seq<Op>)
    requires Account(w, others) && AllowedRun(w, ops) && Run(w, ops).files == map[]
    ensures var w' := Run(w, ops);
      && w'.blocks == others.blocks
      && w'.nsRefs.Keys == w.nsRefs.Keys && w'.pathRefs.Keys == w.pathRefs.Keys
      && (forall n :: n in w'.nsRefs ==> n in others.ns && w'.nsRefs[n] == others.ns[n])
      && (forall p :: p in w'.pathRefs ==> p in others.paths && w'.pathRefs[p] == others.paths[p])
  {
    RunConserves(w, others, ops);
    var w' := Run(w, ops);
    forall n | n in w'.nsRefs
      ensures n in others.ns && w'.nsRefs[n] == others.ns[n]
    {
      assert NsAccount(w', others, n);
      assert OpenOn(w'.files, n) == {};
    }
    forall p | p in w'.pathRefs
      ensures p in others.paths && w'.pathRefs[p] == others.paths[p]
    {
      assert PathAccount(w', others, p);
      assert OpenUnder(w'.files, p) == {};
    }
  }

  // ------------------------------------------------------------------- polling

  /** What the file has seen of its namespace's counter after an operation. */
  function Sees(w: World, op: Op, file: nat, seen: nat): nat {
    match op
    case Open(f, s) => if f == file && Present(w, s) && Succeeds(s) then w.events[s.ns.value] else seen
    case Poll(f) => if f == file && f in w.files && w.files[f].ns in w.events then w.events[w.files[f].ns] else seen
    case _ => seen
  }

  /** The counter that the file saw when it was opened or last polled; `seen` is what it
      saw before the run. */
  function LastSeen(w: World, ops: seq<Op>, file: nat, seen: nat): nat
    decreases |ops|
  {
    if ops == [] then seen else LastSeen(Step(w, ops[0]), ops[1..], file, Sees(w, ops[0], file, seen))
  }

  /** The counter kept in an open file is the one it saw last, so a poll flags a change
      exactly if the namespace has changed since the open or the last poll. */
  lemma {:induction false} EventIsLastSeen(w: World, ops: seq<Op>, file: nat, seen: nat)
    requires AllowedRun(w, ops)
    requires file in w.files ==> w.files[file].event == seen
    ensures file in Run(w, ops).files ==> Run(w, ops).files[file].event == LastSeen(w, ops, file, seen)
    decreases |ops|
  {
    if ops != [] {
      SeesInStep(w, ops[0], file, seen);
      EventIsLastSeen(Step(w, ops[0]), ops[1..], file, Sees(w, ops[0], file, seen));
    }
  }

  lemma SeesInStep(w: World, op: Op, file: nat, seen: nat)
    requires Allowed(w, op) && (file in w.files ==> w.files[file].event == seen)
    ensures file in Step(w, op).files ==> Step(w, op).files[file].event == Sees(w, op, file, seen)
  {
  }
}
