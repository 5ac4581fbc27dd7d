/**
 The command line of a process: `proc_pid_cmdline`, which reads the arguments
 and, when their final NUL has been overwritten, treats arguments and environment
 as one string.
 */
module Cmdline {
  import opened Common
  import opened Transfer

  /** Where the strings of the target lie. */
  datatype Layout = Layout(argStart: nat, argEnd: nat, envStart: nat, envEnd: nat)

  /** `(unsigned int)(end - start)` in 64-bit arithmetic. */
  function Length32(end: nat, start: nat): nat {
    (end - start) % 0x1_0000_0000
  }

  /** How many bytes at the front are not NUL. */
  function NulFree(b: seq<byte>): (n: nat)
    ensures n <= |b| && (forall i :: 0 <= i < n ==> b[i] != 0) && (n < |b| ==> b[n] == 0)
  {
    if b == [] || b[0] == 0 then 0 else 1 + NulFree(b[1..])
  }

  lemma NulFreeUnique(b: seq<byte>, n: nat)
    requires n <= |b| && (forall i :: 0 <= i < n ==> b[i] != 0) && (n < |b| ==> b[n] == 0)
    ensures NulFree(b) == n
  {
  }

  /** `strnlen(buffer, max)` */
  method Strnlen(buffer: array<byte>, max: nat) returns (n: nat)
    requires max <= buffer.Length
    ensures n == NulFree(buffer[..max])
  {
    n := 0;
    while n < max && buffer[n] != 0
      invariant n <= max && forall i :: 0 <= i < n ==> buffer[i] != 0
    {
      n := n + 1;
    }
    NulFreeUnique(buffer[..max], n);
  }

  /** `access_process_vm` into the page: `k` of the wanted bytes, or fewer. */
  method Access(buffer: array<byte>, at: nat, mem: Memory, address: nat, len: nat, k: nat) returns (n: nat)
    requires at + len <= buffer.Length
    modifies buffer
    ensures n == Min(k, len)
    ensures buffer[..at] == old(buffer[..at]) && buffer[at..at + n] == Bytes(mem, address, n)
  {
    n := Min(k, len);
    var i := 0;
    while i < n
      invariant i <= n
      invariant buffer[..at] == old(buffer[..at])
      invariant forall j :: at <= j < at + i ==> buffer[j] == ByteAt(mem, address + (j - at))
    {
      buffer[at + i] := ByteAt(mem, address + i);
      i := i + 1;
    }
    BytesAre(mem, address, n);
  }

  /** Reading the environment behind the arguments. */
  method AppendEnviron(mem: Memory, m: Layout, buffer: array<byte>, res0: nat, k2: nat) returns (res: nat)
    requires buffer.Length == PAGE_SIZE && res0 <= PAGE_SIZE
    modifies buffer
    ensures res <= PAGE_SIZE && buffer[..res] == old(buffer[..res0]) + Env(mem, m, res0, k2)
  {
    var len := Length32(m.envEnd, m.envStart);
    if len > PAGE_SIZE - res0 {
      len := PAGE_SIZE - res0;
    }
    var n := Access(buffer, res0, mem, m.envStart, len, k2);
    res := res0 + n;
    assert buffer[..res] == buffer[..res0] + buffer[res0..res];
  }

  /** A NUL among the arguments ends the string before the environment. */
  lemma NulBefore(args: seq<byte>, env: seq<byte>)
    ensures NulFree(args) < |args| ==>
      NulFree(args + env) == NulFree(args) && (args + env)[..NulFree(args)] == args[..NulFree(args)]
  {
    var n := NulFree(args);
    if n < |args| {
      NulFreeUnique(args + env, n);
    }
  }

  /** The branch for an overwritten NUL: what of the page is shown. `args` are the
      argument bytes already in it. */
  method ShowOverwritten(mem: Memory, m: Layout, buffer: array<byte>, res0: nat, k2: nat) returns (res: nat)
    requires buffer.Length == PAGE_SIZE && res0 <= PAGE_SIZE
    modifies buffer
    ensures res <= PAGE_SIZE
    ensures var all := old(buffer[..res0]) + Env(mem, m, res0, k2);
      res == NulFree(all) && buffer[..res] == all[..res]
  {
    ghost var args, env := buffer[..res0], Env(mem, m, res0, k2);
    var len := Strnlen(buffer, res0);
    if len < res0 {
      NulBefore(args, env);
      res := len;
    } else {
      res := AppendEnviron(mem, m, buffer, res0, k2);
      ghost var all := args + env;
      res := Strnlen(buffer, res);
      assert buffer[..res] == all[..res];
    }
  }

  /** The argument bytes that are read, when k of them are accessible. */
  function Args(mem: Memory, m: Layout, k: nat): seq<byte> {
    Bytes(mem, m.argStart, Min(k, Min(Length32(m.argEnd, m.argStart), PAGE_SIZE)))
  }

  /** The environment bytes that are read behind `used` bytes of arguments. */
  function Env(mem: Memory, m: Layout, used: nat, k: nat): seq<byte>
    requires used <= PAGE_SIZE
  {
    Bytes(mem, m.envStart, Min(k, Min(Length32(m.envEnd, m.envStart), PAGE_SIZE - used)))
  }

  /** The process has overwritten the NUL behind its arguments. */
  predicate Overwritten(mem: Memory, m: Layout, k: nat) {
    var args := Args(mem, m, k);
    args != [] && args[|args| - 1] != 0 && Length32(m.argEnd, m.argStart) < PAGE_SIZE
  }

  /** The one thing the nested branches compute: the argument bytes as they are, or, when
      the final NUL is overwritten, arguments and environment together up to the first NUL. */
  function Shown(mem: Memory, m: Layout, k1: nat, k2: nat): seq<byte> {
    var args := Args(mem, m, k1);
    if !Overwritten(mem, m, k1) then args
    else
      var all := args + Env(mem, m, |args|, k2);
      all[..NulFree(all)]
  }

  /** What is shown after an overwrite is the longest NUL-free prefix of the bytes read:
      it has no NUL, and either everything is shown or a NUL follows. */
  lemma ShownIsLongestPrefix(mem: Memory, m: Layout, k1: nat, k2: nat)
    requires Overwritten(mem, m, k1)
    ensures var args := Args(mem, m, k1);
      var all := args + Env(mem, m, |args|, k2);
      var shown := Shown(mem, m, k1, k2);
      && shown <= all && 0 !in shown && |shown| <= PAGE_SIZE
      && (|shown| < |all| ==> all[|shown|] == 0)
  {
  }

  /** The text for the arguments as far as they are read: if their last byte is not NUL and
      there are no more of them, what comes before the first NUL in arguments and
      environment; otherwise the arguments. */
  ghost predicate IsText(args: seq<byte>, env: seq<byte>, all: bool, text: seq<byte>) {
    if args != [] && args[|args| - 1] != 0 && all then
      text <= args + env && 0 !in text && (|text| < |args + env| ==> (args + env)[|text|] == 0)
    else text == args
  }

  /** The text for a process, said of its memory, where the two reads lie within it. */
  ghost predicate IsCommandLine(mem: Memory, m: Layout, k1: nat, k2: nat, text: seq<byte>) {
    m.argStart + 4096 <= |mem| && m.envStart + 4096 <= |mem| ==>
      var length := (m.argEnd - m.argStart) % 0x1_0000_0000;
      var n := Min(k1, Min(length, 4096));
      var k := Min(k2, Min((m.envEnd - m.envStart) % 0x1_0000_0000, 4096 - n));
      IsText(mem[m.argStart..m.argStart + n], mem[m.envStart..m.envStart + k], length < 4096, text)
  }

  lemma ShownIsText(mem: Memory, m: Layout, k1: nat, k2: nat)
    ensures var args := Args(mem, m, k1);
      IsText(args, Env(mem, m, |args|, k2), Length32(m.argEnd, m.argStart) < PAGE_SIZE, Shown(mem, m, k1, k2))
  {
    if Overwritten(mem, m, k1) {
      ShownIsLongestPrefix(mem, m, k1, k2);
    }
  }

  lemma ArgsAreSlice(mem: Memory, m: Layout, k: nat)
    requires m.argStart + 4096 <= |mem|
    ensures var n := Min(k, Min((m.argEnd - m.argStart) % 0x1_0000_0000, 4096));
      |Args(mem, m, k)| == n && Args(mem, m, k) == mem[m.argStart..m.argStart + n]
  {
    BytesAreSlice(mem, m.argStart, |Args(mem, m, k)|);
  }

  lemma EnvIsSlice(mem: Memory, m: Layout, used: nat, k: nat)
    requires m.envStart + 4096 <= |mem| && used <= PAGE_SIZE
    ensures Env(mem, m, used, k)
      == mem[m.envStart..m.envStart + Min(k, Min((m.envEnd - m.envStart) % 0x1_0000_0000, 4096 - used))]
  {
    BytesAreSlice(mem, m.envStart, |Env(mem, m, used, k)|);
  }

  lemma ShownIsCommandLine(mem: Memory, m: Layout, k1: nat, k2: nat)
    ensures IsCommandLine(mem, m, k1, k2, Shown(mem, m, k1, k2))
  {
    if m.argStart + 4096 <= |mem| && m.envStart + 4096 <= |mem| {
      ArgsAreSlice(mem, m, k1);
      EnvIsSlice(mem, m, |Args(mem, m, k1)|, k2);
      ShownIsText(mem, m, k1, k2);
    }
  }

  /** `proc_pid_cmdline` into a page. k1 and k2 say how much the two reads can access. */
  method ProcPidCmdline(mem: Memory, mm: Option<Layout>, buffer: array<byte>, k1: nat, k2: nat) returns (res: nat)
    requires buffer.Length == PAGE_SIZE
    modifies buffer
    ensures res <= PAGE_SIZE
    ensures mm.None? || mm.value.argEnd == 0 ==> res == 0 && buffer[..] == old(buffer[..])
    ensures mm.Some? && mm.value.argEnd != 0 ==>
      buffer[..res] == Shown(mem, mm.value, k1, k2) && IsCommandLine(mem, mm.value, k1, k2, buffer[..res])
  {
    res := 0;
    if mm.None? {
      return;
    }
    var m := mm.value;
    if m.argEnd == 0 {
      return;
    }
    var len := Length32(m.argEnd, m.argStart);
    if len > PAGE_SIZE {
      len := PAGE_SIZE;
    }
    res := Access(buffer, 0, mem, m.argStart, len, k1);
    ghost var args := Args(mem, m, k1);
    assert buffer[..res] == buffer[0..0 + res] == args;
    if res > 0 && buffer[res - 1] != 0 && len < PAGE_SIZE {
      res := ShowOverwritten(mem, m, buffer, res, k2);
    }
    ShownIsCommandLine(mem, m, k1, k2);
  }
}
