/**
 The reference that a memory map holds on its executable file: the operations on
 `mm->exe_file`, and the conservation of file reference counts over any run of them.
 */
module ExeFile {
  import opened Common

  const ULONG_SPAN: nat := 0x1_0000_0000_0000_0000

  /** `exe_file` and `num_exe_file_vmas` of a memory map. */
  datatype Mm = Mm(exe: Option<nat>, vmas: nat)

  /**
   The reference counts of the open files, and the memory maps. `base` and `got`
   are for the account: references held for other reasons, and references handed
   out by `get_mm_exe_file` and not yet returned. A file whose count falls to zero
   is freed and leaves `counts`.
   */
  datatype World = World(counts: map<nat, nat>, mms: map<nat, Mm>, base: map<nat, nat>, got: map<nat, nat>)

  function Times(m: map<nat, nat>, file: nat): nat {
    if file in m then m[file] else 0
  }

  /** The memory maps that point to the file. */
  function Pointing(mms: map<nat, Mm>, file: nat): set<nat> {
    set m | m in mms && mms[m].exe == Some(file)
  }

  /** The account: every reference on the file has exactly one reason. */
  ghost predicate Balanced(w: World, file: nat) {
    Times(w.counts, file) == Times(w.base, file) + |Pointing(w.mms, file)| + Times(w.got, file)
  }

  /** No count is zero, and the account is right for every file. */
  ghost predicate Sound(w: World) {
    (forall file :: file in w.counts ==> w.counts[file] > 0) && (forall file :: Balanced(w, file))
  }

  // ------------------------------------------------------------ the specification

  function Dropped(counts: map<nat, nat>, file: nat): map<nat, nat>
    requires file in counts && counts[file] > 0
  {
    if counts[file] == 1 then map f | f in counts && f != file :: counts[f]
    else counts[file := counts[file] - 1]
  }

  /** The operations of the code, and what happens around them: files are opened, others
      take and drop references on them, and maps come and, once empty, go. */
  datatype Op =
    | AddVma(mm: nat)
    | RemoveVma(mm: nat)
    | Set(mm: nat, newExe: Option<nat>)
    | Get(mm: nat)
    | Dup(oldmm: nat, newmm: nat)
    | GiveBack(file: nat)
    | OpenNew(file: nat)
    | BaseGet(file: nat)
    | BasePut(file: nat)
    | NewMm(mm: nat)
    | FreeMm(mm: nat)

  /** What the caller of an operation must see to; in particular, a map is duplicated
      only into one that holds no reference. */
  ghost predicate Allowed(w: World, op: Op) {
    match op
    case AddVma(mm) => mm in w.mms
    case RemoveVma(mm) => mm in w.mms
    case Set(mm, newExe) => mm in w.mms && (newExe.Some? ==> newExe.value in w.counts)
    case Get(mm) => mm in w.mms
    case Dup(oldmm, newmm) => oldmm in w.mms && newmm in w.mms && w.mms[newmm].exe.None?
    case GiveBack(file) => Times(w.got, file) > 0
    case OpenNew(file) => file !in w.counts
    case BaseGet(file) => file in w.counts
    case BasePut(file) => Times(w.base, file) > 0
    case NewMm(mm) => mm !in w.mms
    case FreeMm(mm) => mm in w.mms && w.mms[mm].exe.None?
  }

  function Take(counts: map<nat, nat>, file: Option<nat>): map<nat, nat> {
    if file.None? then counts else counts[file.value := Times(counts, file.value) + 1]
  }

  function Drop(counts: map<nat, nat>, file: Option<nat>): map<nat, nat> {
    if file.Some? && file.value in counts && counts[file.value] > 0 then Dropped(counts, file.value) else counts
  }

  function Step(w: World, op: Op): World {
    match op
    case AddVma(mm) =>
      if mm in w.mms then w.(mms := w.mms[mm := w.mms[mm].(vmas := (w.mms[mm].vmas + 1) % ULONG_SPAN)]) else w
    case RemoveVma(mm) =>
      if mm !in w.mms then w
      else
        var vmas := (w.mms[mm].vmas + ULONG_SPAN - 1) % ULONG_SPAN;
        if vmas == 0 then w.(counts := Drop(w.counts, w.mms[mm].exe), mms := w.mms[mm := Mm(None, 0)])
        else w.(mms := w.mms[mm := w.mms[mm].(vmas := vmas)])
    case Set(mm, newExe) =>
      if mm in w.mms then w.(counts := Drop(Take(w.counts, newExe), w.mms[mm].exe), mms := w.mms[mm := Mm(newExe, 0)]) else w
    case Get(mm) =>
      if mm in w.mms then w.(counts := Take(w.counts, w.mms[mm].exe), got := Take(w.got, w.mms[mm].exe)) else w
    case Dup(oldmm, newmm) =>
      if oldmm in w.mms && newmm in w.mms then
        var exe := w.mms[oldmm].exe;
        w.(counts := Take(w.counts, exe), mms := w.mms[newmm := w.mms[newmm].(exe := exe)],
           got := if exe.None? then w.got else w.got[exe.value := Times(w.got, exe.value)])
      else w
    case GiveBack(file) =>
      if Times(w.got, file) > 0 then w.(counts := Drop(w.counts, Some(file)), got := w.got[file := w.got[file] - 1]) else w
    case OpenNew(file) => if file in w.counts then w else w.(counts := w.counts[file := 1], base := Take(w.base, Some(file)))
    case BaseGet(file) =>
      if file in w.counts then w.(counts := Take(w.counts, Some(file)), base := Take(w.base, Some(file))) else w
    case BasePut(file) =>
      if Times(w.base, file) > 0 then w.(counts := Drop(w.counts, Some(file)), base := w.base[file := w.base[file] - 1]) else w
    case NewMm(mm) => if mm in w.mms then w else w.(mms := w.mms[mm := Mm(None, 0)])
    case FreeMm(mm) => w.(mms := map m | m in w.mms && m != mm :: w.mms[m])
  }

  /** A file that some map points to has not been freed. */
  lemma PointedIsCounted(w: World, mm: nat)
    requires Sound(w) && mm in w.mms && w.mms[mm].exe.Some?
    ensures w.mms[mm].exe.value in w.counts && w.counts[w.mms[mm].exe.value] > 0
  {
    var file := w.mms[mm].exe.value;
    assert Balanced(w, file);
    assert mm in Pointing(w.mms, file);
    assert |Pointing(w.mms, file)| > 0;
  }

  lemma DropCounts(counts: map<nat, nat>, file: nat, other: nat)
    requires file in counts && counts[file] > 0
    ensures Times(Dropped(counts, file), other) == Times(counts, other) - (if other == file then 1 else 0)
  {
  }

  /** One reference on the file, if there is any. */
  function One(exe: Option<nat>, file: nat): nat {
    if exe == Some(file) then 1 else 0
  }

  /** Setting a file: the map points to it, with no areas counted; the file has one
      reference more and the old one has one less; nothing else changes. */
  lemma SetExactly(w: World, mm: nat, newExe: Option<nat>)
    requires Sound(w) && Allowed(w, Set(mm, newExe))
    ensures var w' := Step(w, Set(mm, newExe));
      && w'.mms == w.mms[mm := Mm(newExe, 0)] && w'.base == w.base && w'.got == w.got
      && forall f: nat :: Times(w'.counts, f) == Times(w.counts, f) + One(newExe, f) - One(w.mms[mm].exe, f)
  {
    if w.mms[mm].exe.Some? {
      PointedIsCounted(w, mm);
      forall f: nat
        ensures Times(Drop(Take(w.counts, newExe), w.mms[mm].exe), f)
          == Times(w.counts, f) + One(newExe, f) - One(w.mms[mm].exe, f)
      {
        DropCounts(Take(w.counts, newExe), w.mms[mm].exe.value, f);
      }
    }
  }

  /** Duplicating: the new map points to the old one's file, which has one reference more. */
  lemma DupExactly(w: World, oldmm: nat, newmm: nat)
    requires oldmm in w.mms && newmm in w.mms
    ensures var w' := Step(w, Dup(oldmm, newmm));
      && w'.mms == w.mms[newmm := Mm(w.mms[oldmm].exe, w.mms[newmm].vmas)] && w'.base == w.base
      && (forall f: nat :: Times(w'.got, f) == Times(w.got, f))
      && (forall f: nat :: Times(w'.counts, f) == Times(w.counts, f) + One(w.mms[oldmm].exe, f))
  {
  }

  /** Handing out the file: it has one reference more, which is to be given back. */
  lemma GetExactly(w: World, mm: nat)
    requires mm in w.mms
    ensures var w', exe := Step(w, Get(mm)), w.mms[mm].exe;
      && w'.mms == w.mms && w'.base == w.base
      && forall f: nat :: Times(w'.counts, f) - Times(w.counts, f) == Times(w'.got, f) - Times(w.got, f) == One(exe, f)
  {
  }

  /** Giving one back: the file has one reference less. */
  lemma GiveBackExactly(w: World, file: nat)
    requires Sound(w) && Times(w.got, file) > 0
    ensures var w' := Step(w, GiveBack(file));
      && w'.mms == w.mms && w'.base == w.base
      && forall f: nat :: Times(w.counts, f) - Times(w'.counts, f) == Times(w.got, f) - Times(w'.got, f) == One(Some(file), f)
  {
    assert Balanced(w, file);
    forall f: nat
      ensures Times(Dropped(w.counts, file), f) == Times(w.counts, f) - One(Some(file), f)
    {
      DropCounts(w.counts, file, f);
    }
  }

  /** One area more or less, modulo 2^64; the map loses its file, and the file the
      reference, exactly if none is left. */
  lemma VmasExactly(w: World, mm: nat)
    requires Sound(w) && mm in w.mms && w.mms[mm].vmas < 0x1_0000_0000_0000_0000
    ensures var m := w.mms[mm];
      && Step(w, AddVma(mm)) == w.(mms := w.mms[mm := Mm(m.exe, if m.vmas == 0xffff_ffff_ffff_ffff then 0 else m.vmas + 1)])
      && (m.vmas != 1 ==> Step(w, RemoveVma(mm)) == w.(mms := w.mms[mm := Mm(m.exe, if m.vmas == 0 then 0xffff_ffff_ffff_ffff else m.vmas - 1)]))
      && (m.vmas == 1 ==> var w' := Step(w, RemoveVma(mm));
          && w'.mms == w.mms[mm := Mm(None, 0)] && w'.base == w.base && w'.got == w.got
          && forall f: nat :: Times(w'.counts, f) == Times(w.counts, f) - One(m.exe, f))
  {
    var m := w.mms[mm];
    if m.vmas == 1 && m.exe.Some? {
      PointedIsCounted(w, mm);
      forall f: nat
        ensures Times(Dropped(w.counts, m.exe.value), f) == Times(w.counts, f) - One(m.exe, f)
      {
        DropCounts(w.counts, m.exe.value, f);
      }
    }
  }

  // ------------------------------------------------------- the code

  class Kernel {
    var counts: map<nat, nat>
    var mms: map<nat, Mm>
    ghost var base: map<nat, nat>
    ghost var got: map<nat, nat>

    ghost function State(): World
      reads this
    {
      World(counts, mms, base, got)
    }

    /** A reference can only be taken on a file that exists. */
    method GetFile(file: nat)
      requires file in counts
      modifies this`counts
      ensures counts == old(counts)[file := old(counts)[file] + 1]
    {
      counts := counts[file := counts[file] + 1];
    }

    /** Dropping the last reference frees the file. */
    method Fput(file: nat)
      requires file in counts && counts[file] > 0
      modifies this`counts
      ensures counts == Dropped(old(counts), file)
    {
      if counts[file] == 1 {
        counts := map f | f in counts && f != file :: counts[f];
      } else {
        counts := counts[file := counts[file] - 1];
      }
    }

    method AddedExeFileVma(mm: nat)
      requires mm in mms
      modifies this`mms
      ensures State() == Step(old(State()), AddVma(mm))
    {
      mms := mms[mm := mms[mm].(vmas := (mms[mm].vmas + 1) % ULONG_SPAN)];
    }

    method RemovedExeFileVma(mm: nat)
      requires mm in mms && Sound(State())
      modifies this`counts, this`mms
      ensures State() == Step(old(State()), RemoveVma(mm))
    {
      mms := mms[mm := mms[mm].(vmas := (mms[mm].vmas + ULONG_SPAN - 1) % ULONG_SPAN)];
      if mms[mm].vmas == 0 && mms[mm].exe.Some? {
        PointedIsCounted(old(State()), mm);
        Fput(mms[mm].exe.value);
        mms := mms[mm := mms[mm].(exe := None)];
      }
    }

    /** The new file is taken before the old one is dropped, which matters when they
        are the same and this is its last reference. */
    method SetMmExeFile(mm: nat, newExe: Option<nat>)
      requires mm in mms && Sound(State())
      requires newExe.Some? ==> newExe.value in counts
      modifies this`counts, this`mms
      ensures State() == Step(old(State()), Set(mm, newExe))
      ensures mms == old(mms)[mm := Mm(newExe, 0)]
      ensures forall f: nat :: Times(counts, f) == old(Times(counts, f)) + One(newExe, f) - One(old(mms[mm]).exe, f)
    {
      SetExactly(State(), mm, newExe);
      if newExe.Some? {
        GetFile(newExe.value);
      }
      if mms[mm].exe.Some? {
        PointedIsCounted(old(State()), mm);
        Fput(mms[mm].exe.value);
      }
      mms := mms[mm := Mm(newExe, 0)];
    }

    method GetMmExeFile(mm: nat) returns (exe: Option<nat>)
      requires mm in mms && Sound(State())
      modifies this`counts, this`got
      ensures exe == old(mms[mm].exe) && State() == Step(old(State()), Get(mm))
      ensures forall f: nat :: Times(counts, f) == old(Times(counts, f)) + One(exe, f)
    {
      exe := mms[mm].exe;
      if exe.Some? {
        PointedIsCounted(State(), mm);
        GetFile(exe.value);
        got := got[exe.value := Times(got, exe.value) + 1];
      }
    }

    method DupMmExeFile(oldmm: nat, newmm: nat)
      requires oldmm in mms && newmm in mms && Sound(State())
      modifies this`counts, this`mms, this`got
      ensures State() == Step(old(State()), Dup(oldmm, newmm))
      ensures mms == old(mms)[newmm := Mm(old(mms[oldmm]).exe, old(mms[newmm]).vmas)]
      ensures forall f: nat :: Times(counts, f) == old(Times(counts, f)) + One(old(mms[oldmm]).exe, f)
    {
      var exe := GetMmExeFile(oldmm);
      mms := mms[newmm := mms[newmm].(exe := exe)];
      if exe.Some? {
        got := got[exe.value := Times(got, exe.value) - 1];
      }
    }

    /** Giving back a reference obtained from `get_mm_exe_file`. */
    method Return(file: nat)
      requires Times(got, file) > 0 && Sound(State())
      modifies this`counts, this`got
      ensures State() == Step(old(State()), GiveBack(file))
    {
      assert Balanced(State(), file);
      Fput(file);
      got := got[file := got[file] - 1];
    }
  }

  // ------------------------------------------------------------- conservation

  /** How many maps point to a file after one map has been changed. */
  lemma PointingAfter(mms: map<nat, Mm>, mm: nat, m: Mm, file: nat)
    requires mm in mms
    ensures |Pointing(mms[mm := m], file)|
      == |Pointing(mms, file)| - (if mms[mm].exe == Some(file) then 1 else 0) + (if m.exe == Some(file) then 1 else 0)
  {
    var before, after := Pointing(mms, file), Pointing(mms[mm := m], file);
    var others := before - {mm};
    assert before == if mms[mm].exe == Some(file) then others + {mm} else others;
    assert after == if m.exe == Some(file) then others + {mm} else others;
  }

  /** Every operation keeps the account. */
  lemma StepSound(w: World, op: Op)
    requires Sound(w) && Allowed(w, op)
    ensures Sound(Step(w, op))
  {
    var w' := Step(w, op);
    forall file
      ensures Balanced(w', file)
    {
      assert Balanced(w, file);
      StepBalanced(w, op, file);
    }
  }

  lemma RemoveBalanced(w: World, mm: nat, file: nat)
    requires Sound(w) && mm in w.mms
    ensures Balanced(Step(w, RemoveVma(mm)), file)
  {
    assert Balanced(w, file);
    PointingAfter(w.mms, mm, Step(w, RemoveVma(mm)).mms[mm], file);
    if w.mms[mm].exe.Some? {
      PointedIsCounted(w, mm);
      DropCounts(w.counts, w.mms[mm].exe.value, file);
    }
  }

  lemma SetBalanced(w: World, mm: nat, newExe: Option<nat>, file: nat)
    requires Sound(w) && Allowed(w, Set(mm, newExe))
    ensures Balanced(Step(w, Set(mm, newExe)), file)
  {
    assert Balanced(w, file);
    PointingAfter(w.mms, mm, Mm(newExe, 0), file);
    if w.mms[mm].exe.Some? {
      PointedIsCounted(w, mm);
      DropCounts(Take(w.counts, newExe), w.mms[mm].exe.value, file);
    }
  }

  /** What happens around the operations of the code. */
  lemma AroundBalanced(w: World, op: Op, file: nat)
    requires Sound(w) && Allowed(w, op)
    requires op.OpenNew? || op.BaseGet? || op.BasePut? || op.NewMm? || op.FreeMm?
    ensures Balanced(Step(w, op), file)
  {
    assert Balanced(w, file);
    if op.BasePut? {
      assert Balanced(w, op.file);
      DropCounts(w.counts, op.file, file);
    } else if op.NewMm? || op.FreeMm? {
      assert Pointing(Step(w, op).mms, file) == Pointing(w.mms, file);
    }
  }

  lemma StepBalanced(w: World, op: Op, file: nat)
    requires Sound(w) && Allowed(w, op)
    ensures Balanced(Step(w, op), file)
  {
    assert Balanced(w, file);
    match op
    case AddVma(mm) =>
      PointingAfter(w.mms, mm, Step(w, op).mms[mm], file);
    case RemoveVma(mm) =>
      RemoveBalanced(w, mm, file);
    case Set(mm, newExe) =>
      SetBalanced(w, mm, newExe, file);
    case Get(mm) =>
    case Dup(oldmm, newmm) =>
      PointingAfter(w.mms, newmm, Step(w, op).mms[newmm], file);
    case GiveBack(f) =>
      assert Balanced(w, f);
      DropCounts(w.counts, f, file);
    case _ =>
      AroundBalanced(w, op, file);
  }

  function Run(w: World, ops: seq<Op>): World
    decreases |ops|
  {
    if ops == [] then w else Run(Step(w, ops[0]), ops[1..])
  }

  ghost predicate AllowedRun(w: World, ops: seq<Op>)
    decreases |ops|
  {
    ops != [] ==> Allowed(w, ops[0]) && AllowedRun(Step(w, ops[0]), ops[1..])
  }

  /** After any run of operations each file's count is its base references, plus the
      maps that point to it, plus the references handed out and not returned; and no
      map points to a freed file. */
  lemma {:induction false} RunConserves(w: World, ops: seq<Op>)
    requires Sound(w) && AllowedRun(w, ops)
    ensures Sound(Run(w, ops))
    ensures forall mm :: mm in Run(w, ops).mms && Run(w, ops).mms[mm].exe.Some? ==> Run(w, ops).mms[mm].exe.value in Run(w, ops).counts
    decreases |ops|
  {
    if ops == [] {
      forall mm | mm in w.mms && w.mms[mm].exe.Some?
        ensures w.mms[mm].exe.value in w.counts
      {
        PointedIsCounted(w, mm);
      }
    } else {
      StepSound(w, ops[0]);
      RunConserves(Step(w, ops[0]), ops[1..]);
    }
  }

  /** Duplicating conserves the account exactly if the new map holds no reference:
      otherwise the reference it held is lost. */
  lemma DupConservesIff(w: World, oldmm: nat, newmm: nat)
    requires Sound(w) && oldmm in w.mms && newmm in w.mms
    ensures Sound(Step(w, Dup(oldmm, newmm))) <==> w.mms[newmm].exe.None?
  {
    if w.mms[newmm].exe.None? {
      StepSound(w, Dup(oldmm, newmm));
    } else {
      var file, w' := w.mms[newmm].exe.value, Step(w, Dup(oldmm, newmm));
      assert Balanced(w, file);
      PointedIsCounted(w, newmm);
      PointingAfter(w.mms, newmm, w'.mms[newmm], file);
      assert !Balanced(w', file);
    }
  }

  function Removals(w: World, mm: nat, n: nat): World
    decreases n
  {
    if n == 0 then w else Removals(Step(w, RemoveVma(mm)), mm, n - 1)
  }

  /** Removing the counted areas of a map one by one drops its reference exactly once,
      with the last of them, and changes nothing else. */
  lemma {:induction false} LastRemovalDropsOnce(w: World, mm: nat, n: nat)
    requires Sound(w) && mm in w.mms && 0 < n <= w.mms[mm].vmas < ULONG_SPAN
    ensures Removals(w, mm, n) ==
      if n < w.mms[mm].vmas then w.(mms := w.mms[mm := w.mms[mm].(vmas := w.mms[mm].vmas - n)])
      else w.(counts := Drop(w.counts, w.mms[mm].exe), mms := w.mms[mm := Mm(None, 0)])
    decreases n
  {
    var w' := Step(w, RemoveVma(mm));
    assert (w.mms[mm].vmas + ULONG_SPAN - 1) % ULONG_SPAN == w.mms[mm].vmas - 1;
    if n > 1 {
      StepSound(w, RemoveVma(mm));
      LastRemovalDropsOnce(w', mm, n - 1);
      assert w'.mms[mm := Mm(None, 0)] == w.mms[mm := Mm(None, 0)];
    }
  }

  /** Setting the file that is already set changes no count, even if this is the only
      reference. */
  lemma ResettingSameFile(w: World, mm: nat)
    requires Sound(w) && mm in w.mms && w.mms[mm].exe.Some?
    ensures Step(w, Set(mm, w.mms[mm].exe)) == w.(mms := w.mms[mm := Mm(w.mms[mm].exe, 0)])
  {
  }

  /** `proc_exe_link` takes the file and gives it back: no count changes, no map changes. */
  lemma ExeLinkBalances(w: World, mm: nat)
    requires Sound(w) && mm in w.mms && w.mms[mm].exe.Some?
    ensures var w' := Step(Step(w, Get(mm)), GiveBack(w.mms[mm].exe.value));
      w'.counts == w.counts && w'.mms == w.mms && forall file :: Times(w'.got, file) == Times(w.got, file)
  {
  }
}
