/**
 The modules that put themselves in front of kernel entry points: home_hack and
 syscall, which replace system calls, and proc_hack, which replaces the hook that
 the /proc listing calls.

 Each saves what it finds in a slot, installs its wrapper there, and on removal
 puts the saved entry back if the slot still holds its wrapper.
 */
module Hooks {
  import opened Common

  /** The slots that can be hooked: system calls by name, and the readdir hook. */
  datatype Slot = SysOpen | SysChdir | SysStat | SysStat64 | SysLstat64 | SysUnlink | SysIoctl | OtherCall(nr: nat) | InProcPidReaddir

  /** The three modules of the repository, and any others that follow the same protocol. */
  datatype Owner = HomeHack | SyscallDemo | ProcHack | OtherModule(nr: nat)

  /** An entry of a slot: the kernel's own, or the wrapper of a module. */
  datatype Fn = Pristine(slot: Slot) | Wrapper(owner: Owner, slot: Slot)

  type Slots = map<Slot, Fn>

  const HOME_SLOTS: set<Slot> := {SysOpen, SysChdir, SysStat, SysStat64, SysLstat64, SysUnlink, SysIoctl}

  /** Which slots each module hooks. */
  type Hooks = map<Owner, set<Slot>>

  const REPOSITORY_HOOKS: Hooks := map[HomeHack := HOME_SLOTS, SyscallDemo := {SysOpen}, ProcHack := {InProcPidReaddir}]

  function Hooked(hooks: Hooks, m: Owner): set<Slot> {
    if m in hooks then hooks[m] else {}
  }

  /** What each module hooks, the slots, and what each loaded module has saved. */
  datatype Kernel = Kernel(hooks: Hooks, slots: Slots, saved: map<Owner, Slots>)

  /** All slots that are ever hooked exist. */
  predicate Complete(k: Kernel) {
    forall m :: m in k.hooks ==> k.hooks[m] <= k.slots.Keys
  }

  /** The wrapper of the module in each of these slots. */
  function Installed(slots: Slots, m: Owner, which: set<Slot>): Slots {
    map s | s in slots :: if s in which then Wrapper(m, s) else slots[s]
  }

  function Saved(slots: Slots, which: set<Slot>): Slots {
    map s | s in slots && s in which :: slots[s]
  }

  /** Removal: each of these slots that still holds the module's wrapper gets back what
      was saved. */
  function Removed(slots: Slots, m: Owner, saved: Slots, which: set<Slot>): Slots {
    map s | s in slots :: if s in which && s in saved && slots[s] == Wrapper(m, s) then saved[s] else slots[s]
  }

  // ---------------------------------------------------------------- the code

  /** `sys_call_table` and `honeypot_hooks`. */
  class Tables {
    var slots: Slots
  }

  class HomeHackModule {
    var original: Slots

    /** One expansion of MAKE_REPLACE_SYSCALL and ADD_HOOK_SYS. */
    method AddHook(t: Tables, call: Slot) returns (ret: int)
      requires call in t.slots
      modifies this, t
      ensures ret == 0
      ensures original == old(original)[call := old(t.slots)[call]]
      ensures t.slots == old(t.slots)[call := Wrapper(HomeHack, call)]
    {
      original := original[call := t.slots[call]];
      t.slots := t.slots[call := Wrapper(HomeHack, call)];
      if t.slots[call] != Wrapper(HomeHack, call) {
        ret := -1;
      } else {
        ret := 0;
      }
    }

    /** `init_module`; refused arguments leave everything as it was. */
    method InitModule(t: Tables, argsOk: bool) returns (ret: int)
      requires HOME_SLOTS <= t.slots.Keys && original == map[]
      modifies this, t
      ensures !argsOk ==> ret == -1 && t.slots == old(t.slots) && original == map[]
      ensures argsOk ==> ret == 0
      ensures argsOk ==> t.slots == Installed(old(t.slots), HomeHack, HOME_SLOTS) && original == Saved(old(t.slots), HOME_SLOTS)
      ensures argsOk ==> t.slots.Keys == old(t.slots).Keys && forall s :: s in t.slots ==>
        if s in {SysOpen, SysChdir, SysStat, SysStat64, SysLstat64, SysUnlink, SysIoctl}
          then t.slots[s] == Wrapper(HomeHack, s) && s in original && original[s] == old(t.slots)[s]
          else t.slots[s] == old(t.slots)[s]
    {
      if !argsOk {
        return -1;
      }
      ret := AddHook(t, SysOpen);
      ret := AddHook(t, SysChdir);
      ret := AddHook(t, SysStat);
      ret := AddHook(t, SysStat64);
      ret := AddHook(t, SysLstat64);
      ret := AddHook(t, SysUnlink);
      ret := AddHook(t, SysIoctl);
      SevenInstalled(old(t.slots));
    }

    /** One expansion of CLEANUP_SYSCALL. */
    method CleanupCall(t: Tables, call: Slot)
      requires call in t.slots && call in original
      modifies t
      ensures t.slots == Restored(old(t.slots), call, original)
    {
      if t.slots[call] == Wrapper(HomeHack, call) {
        t.slots := t.slots[call := original[call]];
      }
    }

    /** `cleanup_module` */
    method CleanupModule(t: Tables)
      requires HOME_SLOTS <= t.slots.Keys && original.Keys == HOME_SLOTS
      modifies t
      ensures t.slots == Removed(old(t.slots), HomeHack, original, HOME_SLOTS)
      ensures t.slots.Keys == old(t.slots).Keys && forall s :: s in t.slots ==>
        t.slots[s] == if s in original && old(t.slots)[s] == Wrapper(HomeHack, s) then original[s] else old(t.slots)[s]
    {
      CleanupCall(t, SysOpen);
      CleanupCall(t, SysChdir);
      CleanupCall(t, SysStat);
      CleanupCall(t, SysStat64);
      CleanupCall(t, SysLstat64);
      CleanupCall(t, SysUnlink);
      CleanupCall(t, SysIoctl);
      SevenRestored(old(t.slots), original);
    }
  }

  function Restored(slots: Slots, call: Slot, saved: Slots): Slots {
    if call in slots && call in saved && slots[call] == Wrapper(HomeHack, call) then slots[call := saved[call]] else slots
  }

  /** The seven system calls are distinct slots, so each is saved before it is hooked. */
  lemma SevenInstalled(b: Slots)
    requires HOME_SLOTS <= b.Keys
    ensures b[SysOpen := Wrapper(HomeHack, SysOpen)][SysChdir := Wrapper(HomeHack, SysChdir)][SysStat := Wrapper(HomeHack, SysStat)]
             [SysStat64 := Wrapper(HomeHack, SysStat64)][SysLstat64 := Wrapper(HomeHack, SysLstat64)]
             [SysUnlink := Wrapper(HomeHack, SysUnlink)][SysIoctl := Wrapper(HomeHack, SysIoctl)]
      == Installed(b, HomeHack, HOME_SLOTS)
    ensures map[][SysOpen := b[SysOpen]][SysChdir := b[SysChdir]][SysStat := b[SysStat]][SysStat64 := b[SysStat64]]
             [SysLstat64 := b[SysLstat64]][SysUnlink := b[SysUnlink]][SysIoctl := b[SysIoctl]]
      == Saved(b, HOME_SLOTS)
  {
  }

  lemma RestoredStep(b: Slots, saved: Slots, which: set<Slot>, call: Slot)
    requires call in b && call !in which
    ensures Restored(Removed(b, HomeHack, saved, which), call, saved) == Removed(b, HomeHack, saved, which + {call})
  {
  }

  lemma SevenRestored(b: Slots, saved: Slots)
    requires HOME_SLOTS <= b.Keys && saved.Keys == HOME_SLOTS
    ensures Restored(Restored(Restored(Restored(Restored(Restored(Restored(b, SysOpen, saved), SysChdir, saved), SysStat, saved),
              SysStat64, saved), SysLstat64, saved), SysUnlink, saved), SysIoctl, saved)
      == Removed(b, HomeHack, saved, HOME_SLOTS)
  {
    var s4 := {SysOpen, SysChdir, SysStat, SysStat64};
    var r4 := Restored(Restored(Restored(Restored(b, SysOpen, saved), SysChdir, saved), SysStat, saved), SysStat64, saved);
    FourRestored(b, saved);
    assert r4 == Removed(b, HomeHack, saved, s4);
    RestoredStep(b, saved, s4, SysLstat64);
    RestoredStep(b, saved, s4 + {SysLstat64}, SysUnlink);
    RestoredStep(b, saved, s4 + {SysLstat64} + {SysUnlink}, SysIoctl);
    assert s4 + {SysLstat64} + {SysUnlink} + {SysIoctl} == HOME_SLOTS;
  }

  lemma FourRestored(b: Slots, saved: Slots)
    requires HOME_SLOTS <= b.Keys && saved.Keys == HOME_SLOTS
    ensures Restored(Restored(Restored(Restored(b, SysOpen, saved), SysChdir, saved), SysStat, saved), SysStat64, saved)
      == Removed(b, HomeHack, saved, {SysOpen, SysChdir, SysStat, SysStat64})
  {
  }

  /** The modules with one slot: syscall (`open`) and proc_hack (the readdir hook). */
  class OneSlotModule {
    const owner: Owner
    const slot: Slot
    var original: Option<Fn>

    constructor Syscall()
      ensures Hooked(REPOSITORY_HOOKS, owner) == {slot} && owner == SyscallDemo && slot == SysOpen && original.None?
    {
      owner, slot, original := SyscallDemo, SysOpen, None;
    }

    constructor ProcHook()
      ensures Hooked(REPOSITORY_HOOKS, owner) == {slot} && owner == ProcHack && slot == InProcPidReaddir && original.None?
    {
      owner, slot, original := ProcHack, InProcPidReaddir, None;
    }

    method InitModule(t: Tables)
      requires slot in t.slots
      modifies this`original, t
      ensures t.slots == Installed(old(t.slots), owner, {slot}) && original == Some(old(t.slots)[slot])
      ensures t.slots == old(t.slots)[slot := Wrapper(owner, slot)]
    {
      original := Some(t.slots[slot]);
      t.slots := t.slots[slot := Wrapper(owner, slot)];
    }

    method CleanupModule(t: Tables)
      requires slot in t.slots && original.Some?
      modifies t
      ensures t.slots == Removed(old(t.slots), owner, map[slot := original.value], {slot})
      ensures t.slots == if old(t.slots)[slot] == Wrapper(owner, slot) then old(t.slots)[slot := original.value] else old(t.slots)
    {
      if t.slots[slot] == Wrapper(owner, slot) {
        t.slots := t.slots[slot := original.value];
      }
    }
  }

  // ------------------------------------------------------------- chains of wrappers

  function Load(k: Kernel, m: Owner): Kernel {
    k.(slots := Installed(k.slots, m, Hooked(k.hooks, m)), saved := k.saved[m := Saved(k.slots, Hooked(k.hooks, m))])
  }

  function Unload(k: Kernel, m: Owner): Kernel
    requires m in k.saved
  {
    k.(slots := Removed(k.slots, m, k.saved[m], Hooked(k.hooks, m)), saved := k.saved - {m})
  }

  function Last(loaded: seq<Owner>): Owner
    requires loaded != []
  {
    loaded[|loaded| - 1]
  }

  function ButLast(loaded: seq<Owner>): seq<Owner>
    requires loaded != []
  {
    loaded[..|loaded| - 1]
  }

  /** The wrappers in a slot when the modules have been loaded in this order, the latest
      last: latest first, and the kernel's own entry in the end. */
  function Chain(hooks: Hooks, loaded: seq<Owner>, s: Slot): (c: seq<Fn>)
    ensures c != []
    decreases |loaded|
  {
    if loaded == [] then [Pristine(s)]
    else if s in Hooked(hooks, Last(loaded)) then [Wrapper(Last(loaded), s)] + Chain(hooks, ButLast(loaded), s)
    else Chain(hooks, ButLast(loaded), s)
  }

  /** Calling an entry runs through these: from a wrapper to what its module saved. */
  function Follow(k: Kernel, f: Fn, steps: nat): seq<Fn>
    decreases steps
  {
    if steps == 0 then []
    else if f.Wrapper? && f.owner in k.saved && f.slot in k.saved[f.owner] then
      [f] + Follow(k, k.saved[f.owner][f.slot], steps - 1)
    else [f]
  }

  /** The state that loading the modules in this order leads to: each slot starts with
      the first of its chain, and each module has saved what those before it had left. */
  ghost predicate Represents(k: Kernel, loaded: seq<Owner>) {
    && Complete(k)
    && (forall m :: m in loaded <==> m in k.saved)
    && (forall s :: s in k.slots ==> k.slots[s] == Chain(k.hooks, loaded, s)[0])
    && SavedRight(k, loaded)
  }

  ghost predicate SavedRight(k: Kernel, loaded: seq<Owner>)
    decreases |loaded|
  {
    loaded != [] ==>
      && Last(loaded) in k.saved && Last(loaded) !in ButLast(loaded)
      && (forall s :: s in Hooked(k.hooks, Last(loaded)) ==> s in k.saved[Last(loaded)] && k.saved[Last(loaded)][s] == Chain(k.hooks, ButLast(loaded), s)[0])
      && SavedRight(k, ButLast(loaded))
  }

  /** What is saved by other modules does not matter for the given ones. */
  lemma {:induction false} SavedRightFrame(k: Kernel, k': Kernel, loaded: seq<Owner>)
    requires SavedRight(k, loaded) && k'.hooks == k.hooks
    requires forall m :: m in loaded ==> m in k.saved && m in k'.saved && k'.saved[m] == k.saved[m]
    ensures SavedRight(k', loaded)
    decreases |loaded|
  {
    if loaded != [] {
      SavedRightFrame(k, k', ButLast(loaded));
    }
  }

  lemma LoadRepresents(k: Kernel, loaded: seq<Owner>, m: Owner)
    requires Represents(k, loaded) && m !in loaded
    ensures Represents(Load(k, m), loaded + [m])
  {
    var k', all := Load(k, m), loaded + [m];
    assert ButLast(all) == loaded && Last(all) == m;
    SavedRightFrame(k, k', loaded);
    assert forall s :: s in Hooked(k.hooks, m) ==> s in k.slots;
  }

  /** The loaded modules without one of them. */
  function Without(loaded: seq<Owner>, m: Owner): seq<Owner>
    decreases |loaded|
  {
    if loaded == [] then []
    else if Last(loaded) == m then ButLast(loaded)
    else Without(ButLast(loaded), m) + [Last(loaded)]
  }

  /** The module's wrapper is the current entry of every slot it hooks: the test that
      its removal makes. */
  predicate OnTop(k: Kernel, m: Owner) {
    forall s :: s in Hooked(k.hooks, m) ==> s in k.slots && k.slots[s] == Wrapper(m, s)
  }

  /** The same for one slot. */
  ghost predicate SavedAt(k: Kernel, loaded: seq<Owner>, s: Slot)
    decreases |loaded|
  {
    loaded != [] ==>
      && (s in Hooked(k.hooks, Last(loaded)) ==>
           && Last(loaded) in k.saved && s in k.saved[Last(loaded)]
           && k.saved[Last(loaded)][s] == Chain(k.hooks, ButLast(loaded), s)[0])
      && SavedAt(k, ButLast(loaded), s)
  }

  lemma {:induction false} SavedAtSlot(k: Kernel, loaded: seq<Owner>, s: Slot)
    requires SavedRight(k, loaded)
    ensures SavedAt(k, loaded, s)
    decreases |loaded|
  {
    if loaded != [] {
      SavedAtSlot(k, ButLast(loaded), s);
    }
  }

  /** Following the newest wrapper of a slot, given what following the others gives. */
  lemma FollowNewest(k: Kernel, m: Owner, s: Slot, rest: seq<Fn>, steps: nat)
    requires steps > 0 && m in k.saved && s in k.saved[m] && rest != []
    requires k.saved[m][s] == rest[0] && Follow(k, rest[0], steps - 1) == rest
    ensures var c := [Wrapper(m, s)] + rest; Follow(k, c[0], steps) == c
  {
  }

  /** Calling a slot visits the wrappers of the loaded modules that hook it, in reverse
      load order, and ends at the kernel's own entry. */
  lemma {:induction false} FollowVisitsChain(k: Kernel, loaded: seq<Owner>, s: Slot, steps: nat)
    requires SavedAt(k, loaded, s) && |loaded| < steps
    ensures var c := Chain(k.hooks, loaded, s); Follow(k, c[0], steps) == c
    decreases |loaded|
  {
    if loaded != [] {
      var last, rest := Last(loaded), ButLast(loaded);
      if s in Hooked(k.hooks, last) {
        FollowVisitsChain(k, rest, s, steps - 1);
        FollowNewest(k, last, s, Chain(k.hooks, rest, s), steps);
      } else {
        FollowVisitsChain(k, rest, s, steps);
      }
    }
  }

  // ------------------------------------------------------------------ removal

  lemma {:induction false} ChainWithout(hooks: Hooks, loaded: seq<Owner>, m: Owner, s: Slot)
    requires s !in Hooked(hooks, m)
    ensures Chain(hooks, Without(loaded, m), s) == Chain(hooks, loaded, s)
    decreases |loaded|
  {
    if loaded != [] && Last(loaded) != m {
      ChainWithout(hooks, ButLast(loaded), m, s);
      assert ButLast(Without(loaded, m)) == Without(ButLast(loaded), m);
    }
  }

  lemma {:induction false} WithoutContains(loaded: seq<Owner>, m: Owner, n: Owner)
    requires forall i, j :: 0 <= i < j < |loaded| ==> loaded[i] != loaded[j]
    ensures n in Without(loaded, m) <==> n in loaded && n != m
    decreases |loaded|
  {
    if loaded != [] {
      assert loaded == ButLast(loaded) + [Last(loaded)];
      if Last(loaded) != m {
        WithoutContains(ButLast(loaded), m, n);
      }
    }
  }

  /** Modules that are saved right in an order are all different. */
  lemma {:induction false} AllDiffer(k: Kernel, loaded: seq<Owner>)
    requires SavedRight(k, loaded)
    ensures forall i, j :: 0 <= i < j < |loaded| ==> loaded[i] != loaded[j]
    decreases |loaded|
  {
    if loaded != [] {
      AllDiffer(k, ButLast(loaded));
      forall i, j | 0 <= i < j < |loaded|
        ensures loaded[i] != loaded[j]
      {
        if j == |loaded| - 1 {
          assert ButLast(loaded)[i] == loaded[i];
        } else {
          assert ButLast(loaded)[i] == loaded[i] && ButLast(loaded)[j] == loaded[j];
        }
      }
    }
  }

  /** If the module's wrapper is the current entry of the slot, the module has saved what
      the slot would hold without it. */
  lemma {:induction false} SavedOfTop(k: Kernel, loaded: seq<Owner>, m: Owner, s: Slot)
    requires SavedRight(k, loaded) && m in loaded && s in Hooked(k.hooks, m) && Chain(k.hooks, loaded, s)[0] == Wrapper(m, s)
    ensures m in k.saved && s in k.saved[m] && k.saved[m][s] == Chain(k.hooks, Without(loaded, m), s)[0]
    decreases |loaded|
  {
    if Last(loaded) != m {
      assert loaded == ButLast(loaded) + [Last(loaded)];
      SavedOfTop(k, ButLast(loaded), m, s);
      assert ButLast(Without(loaded, m)) == Without(ButLast(loaded), m);
    }
  }

  /** In every slot it hooks, the module's wrapper comes first. */
  ghost predicate Leads(hooks: Hooks, loaded: seq<Owner>, m: Owner) {
    forall s :: s in Hooked(hooks, m) ==> Chain(hooks, loaded, s)[0] == Wrapper(m, s)
  }

  lemma LeadsRest(hooks: Hooks, loaded: seq<Owner>, m: Owner)
    requires loaded != [] && Leads(hooks, loaded, m) && Last(loaded) != m
    ensures Leads(hooks, ButLast(loaded), m) && Hooked(hooks, m) !! Hooked(hooks, Last(loaded))
  {
  }

  lemma SavedRightLast(k: Kernel, k': Kernel, loaded: seq<Owner>, m: Owner)
    requires SavedRight(k, loaded) && loaded != [] && Last(loaded) != m && Hooked(k.hooks, m) !! Hooked(k.hooks, Last(loaded))
    requires Last(loaded) in k'.saved && k'.saved[Last(loaded)] == k.saved[Last(loaded)]
    ensures forall s :: s in Hooked(k.hooks, Last(loaded)) ==>
      s in k'.saved[Last(loaded)] && k'.saved[Last(loaded)][s] == Chain(k.hooks, Without(ButLast(loaded), m), s)[0]
  {
    forall s | s in Hooked(k.hooks, Last(loaded))
      ensures s in k'.saved[Last(loaded)] && k'.saved[Last(loaded)][s] == Chain(k.hooks, Without(ButLast(loaded), m), s)[0]
    {
      ChainWithout(k.hooks, ButLast(loaded), m, s);
    }
  }

  /** A module that is on top of its slots is not in what the others have saved. */
  lemma {:induction false} SavedRightWithout(k: Kernel, k': Kernel, loaded: seq<Owner>, m: Owner)
    requires SavedRight(k, loaded) && m in loaded && Leads(k.hooks, loaded, m)
    requires k'.hooks == k.hooks
    requires forall n :: n in loaded && n != m ==> n in k.saved && n in k'.saved && k'.saved[n] == k.saved[n]
    ensures SavedRight(k', Without(loaded, m))
    decreases |loaded|
  {
    var last, rest := Last(loaded), ButLast(loaded);
    assert loaded == rest + [last];
    if last == m {
      SavedRightFrame(k, k', rest);
    } else {
      LeadsRest(k.hooks, loaded, m);
      SavedRightWithout(k, k', rest, m);
      SavedRightLast(k, k', loaded, m);
      AllDiffer(k, rest);
      WithoutContains(rest, m, last);
      assert ButLast(Without(loaded, m)) == Without(rest, m) && Last(Without(loaded, m)) == last;
    }
  }

  lemma SavedAfterUnload(k: Kernel, loaded: seq<Owner>, m: Owner)
    requires Represents(k, loaded) && m in loaded && OnTop(k, m)
    ensures SavedRight(Unload(k, m), Without(loaded, m))
  {
    forall s | s in Hooked(k.hooks, m)
      ensures Chain(k.hooks, loaded, s)[0] == Wrapper(m, s)
    {
      assert s in k.slots;
    }
    SavedRightWithout(k, Unload(k, m), loaded, m);
  }

  lemma LoadedAfterUnload(k: Kernel, loaded: seq<Owner>, m: Owner)
    requires Represents(k, loaded) && m in loaded
    ensures forall n :: n in Without(loaded, m) <==> n in Unload(k, m).saved
  {
    AllDiffer(k, loaded);
    forall n
      ensures n in Without(loaded, m) <==> n in Unload(k, m).saved
    {
      WithoutContains(loaded, m, n);
    }
  }

  lemma SlotAfterUnload(k: Kernel, loaded: seq<Owner>, m: Owner, s: Slot)
    requires Represents(k, loaded) && m in loaded && OnTop(k, m) && s in k.slots
    ensures Unload(k, m).slots[s] == Chain(k.hooks, Without(loaded, m), s)[0]
  {
    if s in Hooked(k.hooks, m) {
      SavedOfTop(k, loaded, m, s);
    } else {
      ChainWithout(k.hooks, loaded, m, s);
    }
  }

  /** Removing a module that is on top of all its slots leads to the state of the others. */
  lemma UnloadRepresents(k: Kernel, loaded: seq<Owner>, m: Owner)
    requires Represents(k, loaded) && m in loaded && OnTop(k, m)
    ensures Represents(Unload(k, m), Without(loaded, m))
  {
    SavedAfterUnload(k, loaded, m);
    LoadedAfterUnload(k, loaded, m);
    forall s | s in k.slots
      ensures Unload(k, m).slots[s] == Chain(k.hooks, Without(loaded, m), s)[0]
    {
      SlotAfterUnload(k, loaded, m, s);
    }
  }

  lemma {:induction false} ChainAvoids(hooks: Hooks, loaded: seq<Owner>, m: Owner, s: Slot)
    requires m !in loaded
    ensures Chain(hooks, loaded, s)[0] != Wrapper(m, s)
    decreases |loaded|
  {
    if loaded != [] {
      ChainAvoids(hooks, ButLast(loaded), m, s);
    }
  }

  /** If another module came on top in one of the slots, what it saved is the wrapper
      of the removed module, and the chain stays broken. */
  lemma {:induction false} CoveredBreaksChain(k: Kernel, k': Kernel, loaded: seq<Owner>, m: Owner, s: Slot)
    requires SavedRight(k, loaded) && m in loaded && s in Hooked(k.hooks, m) && Chain(k.hooks, loaded, s)[0] != Wrapper(m, s)
    requires k'.hooks == k.hooks
    requires forall n :: n in loaded && n != m ==> n in k.saved && n in k'.saved && k'.saved[n] == k.saved[n]
    ensures !SavedRight(k', Without(loaded, m))
    decreases |loaded|
  {
    var last, rest := Last(loaded), ButLast(loaded);
    assert loaded == rest + [last];
    assert ButLast(Without(loaded, m)) == Without(rest, m) && Last(Without(loaded, m)) == last;
    if s in Hooked(k.hooks, last) && Chain(k.hooks, rest, s)[0] == Wrapper(m, s) {
      AllDiffer(k, rest);
      WithoutContains(rest, m, m);
      ChainAvoids(k.hooks, Without(rest, m), m, s);
    } else {
      if s !in Hooked(k.hooks, last) {
        assert Chain(k.hooks, loaded, s) == Chain(k.hooks, rest, s);
      }
      CoveredBreaksChain(k, k', rest, m, s);
    }
  }

  /** Removal undoes loading exactly if the module is on top of all its slots, which is
      what its cleanup tests slot by slot; in any order of removal. */
  lemma UnloadRepresentsIff(k: Kernel, loaded: seq<Owner>, m: Owner)
    requires Represents(k, loaded) && m in loaded
    ensures Represents(Unload(k, m), Without(loaded, m)) <==> OnTop(k, m)
  {
    if OnTop(k, m) {
      UnloadRepresents(k, loaded, m);
    } else {
      var s :| s in Hooked(k.hooks, m) && !(s in k.slots && k.slots[s] == Wrapper(m, s));
      CoveredBreaksChain(k, Unload(k, m), loaded, m, s);
    }
  }

  lemma InRest(loaded: seq<Owner>, m: Owner)
    requires m in loaded && Last(loaded) != m
    ensures m in ButLast(loaded)
  {
    assert loaded == ButLast(loaded) + [Last(loaded)];
  }

  /** The wrappers of a slot down to that of m: those loaded after m, then m's. */
  function ChainDownTo(hooks: Hooks, loaded: seq<Owner>, m: Owner, s: Slot): seq<Fn>
    decreases |loaded|
  {
    if loaded == [] || Last(loaded) == m then [Wrapper(m, s)]
    else if s in Hooked(hooks, Last(loaded)) then [Wrapper(Last(loaded), s)] + ChainDownTo(hooks, ButLast(loaded), m, s)
    else ChainDownTo(hooks, ButLast(loaded), m, s)
  }

  lemma {:induction false} DownToIsPrefix(hooks: Hooks, loaded: seq<Owner>, m: Owner, s: Slot)
    requires m in loaded && s in Hooked(hooks, m)
    ensures var c := ChainDownTo(hooks, loaded, m, s);
      c != [] && c <= Chain(hooks, loaded, s) && c[|c| - 1] == Wrapper(m, s)
    decreases |loaded|
  {
    if Last(loaded) != m {
      InRest(loaded, m);
      DownToIsPrefix(hooks, ButLast(loaded), m, s);
    }
  }

  lemma {:induction false} FollowStopsAtRemoved(k: Kernel, k': Kernel, loaded: seq<Owner>, m: Owner, s: Slot, steps: nat)
    requires SavedRight(k, loaded) && m in loaded && s in Hooked(k.hooks, m) && |loaded| <= steps
    requires m !in k'.saved
    requires forall n :: n in loaded && n != m ==> n in k.saved && n in k'.saved && k'.saved[n] == k.saved[n]
    ensures var c := ChainDownTo(k.hooks, loaded, m, s);
      c != [] && c[0] == Chain(k.hooks, loaded, s)[0] && Follow(k', c[0], steps) == c
    decreases |loaded|
  {
    var last, rest := Last(loaded), ButLast(loaded);
    if last != m {
      InRest(loaded, m);
    }
    if last != m && s in Hooked(k.hooks, last) {
      FollowStopsAtRemoved(k, k', rest, m, s, steps - 1);
      FollowNewest(k', last, s, ChainDownTo(k.hooks, rest, m, s), steps);
    } else if last != m {
      FollowStopsAtRemoved(k, k', rest, m, s, steps);
    }
  }

  /** After a module has been removed that is covered in a slot, a call of that slot still
      visits the wrappers loaded after it, and then the removed module's own; it never
      gets to those loaded before it, nor to the kernel's entry. */
  lemma CoveredStaysInChain(k: Kernel, loaded: seq<Owner>, m: Owner, s: Slot)
    requires Represents(k, loaded) && m in loaded && s in Hooked(k.hooks, m) && s in k.slots && k.slots[s] != Wrapper(m, s)
    ensures var k', c := Unload(k, m), ChainDownTo(k.hooks, loaded, m, s);
      && c <= Chain(k.hooks, loaded, s) && c != [] && c[|c| - 1] == Wrapper(m, s)
      && s in k'.slots && Follow(k', k'.slots[s], |loaded|) == c
  {
    DownToIsPrefix(k.hooks, loaded, m, s);
    FollowStopsAtRemoved(k, Unload(k, m), loaded, m, s, |loaded|);
  }

  /** The module loaded last is on top. */
  lemma LastIsOnTop(k: Kernel, loaded: seq<Owner>)
    requires Represents(k, loaded) && loaded != []
    ensures OnTop(k, Last(loaded)) && Without(loaded, Last(loaded)) == ButLast(loaded)
  {
  }

  // ---------------------------------------------------------------------- runs

  datatype Event = LoadModule(m: Owner) | UnloadModule(m: Owner)

  /** A module is loaded when it is not loaded, and removed only from the top of its
      slots; removal in reverse order of loading is a special case. */
  ghost predicate Allowed(k: Kernel, e: Event) {
    match e
    case LoadModule(m) => m !in k.saved
    case UnloadModule(m) => m in k.saved && OnTop(k, m)
  }

  function Step(k: Kernel, e: Event): Kernel {
    match e
    case LoadModule(m) => Load(k, m)
    case UnloadModule(m) => if m in k.saved then Unload(k, m) else k
  }

  function Run(k: Kernel, events: seq<Event>): Kernel
    decreases |events|
  {
    if events == [] then k else Run(Step(k, events[0]), events[1..])
  }

  ghost predicate AllowedRun(k: Kernel, events: seq<Event>)
    decreases |events|
  {
    events != [] ==> Allowed(k, events[0]) && AllowedRun(Step(k, events[0]), events[1..])
  }

  /** The modules loaded after the events, in the order of loading. */
  function LoadedAfter(loaded: seq<Owner>, events: seq<Event>): seq<Owner>
    decreases |events|
  {
    if events == [] then loaded
    else match events[0]
      case LoadModule(m) => LoadedAfter(loaded + [m], events[1..])
      case UnloadModule(m) => LoadedAfter(Without(loaded, m), events[1..])
  }

  lemma {:induction false} RunRepresents(k: Kernel, loaded: seq<Owner>, events: seq<Event>)
    requires Represents(k, loaded) && AllowedRun(k, events)
    ensures Represents(Run(k, events), LoadedAfter(loaded, events))
    ensures Run(k, events).slots.Keys == k.slots.Keys && Run(k, events).hooks == k.hooks
    decreases |events|
  {
    if events != [] {
      match events[0]
      case LoadModule(m) =>
        LoadRepresents(k, loaded, m);
        RunRepresents(Load(k, m), loaded + [m], events[1..]);
      case UnloadModule(m) =>
        UnloadRepresents(k, loaded, m);
        RunRepresents(Unload(k, m), Without(loaded, m), events[1..]);
    }
  }

  /** The kernel before any module. */
  predicate Untouched(k: Kernel) {
    Complete(k) && k.saved == map[] && forall s :: s in k.slots ==> k.slots[s] == Pristine(s)
  }

  /** At every moment, calling a slot visits the wrappers of the loaded modules that hook
      it, latest first, and ends at the kernel's own entry. */
  lemma CallVisitsLoadedModules(k: Kernel, events: seq<Event>, s: Slot)
    requires Untouched(k) && AllowedRun(k, events) && s in k.slots
    ensures var k', loaded := Run(k, events), LoadedAfter([], events);
      s in k'.slots && Follow(k', k'.slots[s], |loaded| + 1) == Chain(k.hooks, loaded, s)
  {
    var k', loaded := Run(k, events), LoadedAfter([], events);
    RunRepresents(k, [], events);
    SavedAtSlot(k', loaded, s);
    FollowVisitsChain(k', loaded, s, |loaded| + 1);
    assert k'.slots[s] == Chain(k.hooks, loaded, s)[0];
  }

  /** Slots that no module hooks never change. */
  lemma UnhookedSlotsUnchanged(k: Kernel, events: seq<Event>, s: Slot)
    requires Untouched(k) && AllowedRun(k, events) && s in k.slots
    requires forall m :: s !in Hooked(k.hooks, m)
    ensures s in Run(k, events).slots && Run(k, events).slots[s] == k.slots[s]
  {
    RunRepresents(k, [], events);
    UnhookedChain(k.hooks, LoadedAfter([], events), s);
  }

  lemma {:induction false} UnhookedChain(hooks: Hooks, loaded: seq<Owner>, s: Slot)
    requires forall m :: s !in Hooked(hooks, m)
    ensures Chain(hooks, loaded, s) == [Pristine(s)]
    decreases |loaded|
  {
    if loaded != [] {
      UnhookedChain(hooks, ButLast(loaded), s);
    }
  }

  /** When all modules are gone again, every slot is as it was. */
  lemma AllUnloadedRestores(k: Kernel, events: seq<Event>)
    requires Untouched(k) && AllowedRun(k, events) && LoadedAfter([], events) == []
    ensures Run(k, events).slots == k.slots
  {
    RunRepresents(k, [], events);
  }
}
