/**
 The path rewriting of home_hack: a path below /home/ is moved below a directory
 of the caller's node by overwriting the eight bytes in front of it, which are
 saved and put back after the system call.
 */
module PathRewrite {
  import opened Common
  import opened Names

  const HOMEDIR_PREFIX: string := "/home/"
  const BACKUP_LEN: nat := 8

  function Zeros(n: nat): string {
    if n == 0 then "" else "0" + Zeros(n - 1)
  }

  /** Padding with zeros on the left. */
  function Pad(s: string, width: nat): string {
    if |s| >= width then s else Zeros(width - |s|) + s
  }

  /** What "%05ld" prints. */
  function Format05(node: int): string {
    if node < 0 then "-" + Pad(Decimal(-node), 4) else Pad(Decimal(node), 5)
  }

  lemma {:induction false} ZerosAre(n: nat)
    ensures |Zeros(n)| == n && forall i :: 0 <= i < n ==> Zeros(n)[i] == '0'
    decreases n
  {
    if n > 0 {
      ZerosAre(n - 1);
    }
  }

  lemma FormatIsLong(node: int)
    ensures |"/j/" + Format05(node)| >= BACKUP_LEN
  {
    if node < 0 {
      ZerosAre(4 - Min(4, |Decimal(-node)|));
    } else {
      ZerosAre(5 - Min(5, |Decimal(node)|));
    }
  }

  /** The eight characters written in front of the path: snprintf leaves at least eight
      in its buffer, and no more are copied. */
  function NodePrefix(node: int): (p: string)
    ensures |p| == BACKUP_LEN && p[..3] == "/j/"
  {
    FormatIsLong(node);
    ("/j/" + Format05(node))[..BACKUP_LEN]
  }

  /** What the running task keeps for the rewriting. */
  class Task {
    const hpBuf: array<char>
    const hpNode: int

    constructor (node: int)
      ensures hpNode == node && hpBuf.Length == BACKUP_LEN && fresh(hpBuf)
    {
      hpNode := node;
      hpBuf := new char[BACKUP_LEN];
    }
  }

  /** The memory with eight characters in front of `at` replaced. */
  function WithPrefix(mem: seq<char>, at: nat, chars: string): seq<char>
    requires BACKUP_LEN <= at <= |mem| && |chars| == BACKUP_LEN
  {
    mem[..at - BACKUP_LEN] + chars + mem[at..]
  }

  /** `replace_path_if_necessary`. The touched memory is mapped. */
  method ReplacePathIfNecessary(mem: array<char>, filename: nat, current: Task) returns (path: Option<nat>)
    requires BACKUP_LEN <= filename && filename + 12 <= mem.Length
    requires current.hpBuf.Length == BACKUP_LEN && current.hpBuf != mem
    modifies mem, current.hpBuf
    ensures old(mem[filename..filename + 6]) != "/home/" ==>
      path.None? && mem[..] == old(mem[..]) && current.hpBuf[..] == old(current.hpBuf[..])
    ensures old(mem[filename..filename + 6]) == "/home/" ==>
      && path == Some(filename - BACKUP_LEN)
      && mem[..] == WithPrefix(old(mem[..]), filename, NodePrefix(current.hpNode))
      && mem[..] == old(mem[..filename - 8]) + NodePrefix(current.hpNode) + old(mem[filename..])
      && current.hpBuf[..] == old(mem[filename - 8..filename])
  {
    var filenamePrefix := new char[12];
    var i := 0;
    while i < 12
      invariant i <= 12 && filenamePrefix[..i] == mem[filename..filename + i]
      invariant mem[..] == old(mem[..]) && current.hpBuf[..] == old(current.hpBuf[..])
    {
      filenamePrefix[i] := mem[filename + i];
      i := i + 1;
    }
    assert filenamePrefix[..6] == filenamePrefix[..12][..6] == mem[filename..filename + 6];
    if filenamePrefix[..|HOMEDIR_PREFIX|] != HOMEDIR_PREFIX {
      return None;
    }
    var start := filename - BACKUP_LEN;
    i := 0;
    while i < BACKUP_LEN
      invariant i <= BACKUP_LEN && mem[..] == old(mem[..])
      invariant current.hpBuf[..i] == mem[start..start + i]
    {
      current.hpBuf[i] := mem[start + i];
      i := i + 1;
    }
    var tmpBuf := NodePrefix(current.hpNode);
    CopyFront(mem, start, tmpBuf);
    assert current.hpBuf[..] == current.hpBuf[..BACKUP_LEN];
    return Some(start);
  }

  /** The loops that write eight characters. */
  method CopyFront(mem: array<char>, start: nat, chars: string)
    requires |chars| == BACKUP_LEN && start + BACKUP_LEN <= mem.Length
    modifies mem
    ensures mem[..] == WithPrefix(old(mem[..]), start + BACKUP_LEN, chars)
  {
    var i := 0;
    while i < BACKUP_LEN
      invariant i <= BACKUP_LEN
      invariant mem[..] == old(mem[..start]) + chars[..i] + old(mem[start + i..])
    {
      mem[start + i] := chars[i];
      i := i + 1;
    }
  }

  /** `restore_path` */
  method RestorePath(mem: array<char>, filename: nat, current: Task)
    requires BACKUP_LEN <= filename <= mem.Length
    requires current.hpBuf.Length == BACKUP_LEN && current.hpBuf != mem
    modifies mem
    ensures mem[..] == WithPrefix(old(mem[..]), filename, current.hpBuf[..])
    ensures mem[..] == old(mem[..filename - 8]) + current.hpBuf[..] + old(mem[filename..])
    ensures current.hpBuf[..] == old(current.hpBuf[..])
  {
    CopyFront(mem, filename - BACKUP_LEN, current.hpBuf[..]);
  }

  // ---------------------------------------------------------------- properties

  /** Restoring undoes the replacement, for every node, and even if the system call has
      changed the memory from the path on: every byte in front of the path comes back. */
  lemma RestoreUndoes(mem: seq<char>, tail: seq<char>, at: nat, node: int)
    requires BACKUP_LEN <= at <= |mem|
    ensures var replaced := WithPrefix(mem, at, NodePrefix(node));
      var after := replaced[..at] + tail;
      WithPrefix(after, at, mem[at - BACKUP_LEN..at]) == mem[..at] + tail
  {
  }

  /** The string that starts at an address: up to the first NUL. */
  function CString(mem: seq<char>, at: nat): string
    requires at <= |mem|
    decreases |mem| - at
  {
    if at == |mem| || mem[at] == '\0' then "" else [mem[at]] + CString(mem, at + 1)
  }

  lemma {:induction false} CStringOfTail(mem: seq<char>, mem': seq<char>, at: nat)
    requires at <= |mem| == |mem'| && mem[at..] == mem'[at..]
    ensures CString(mem, at) == CString(mem', at)
    decreases |mem| - at
  {
    if at < |mem| {
      assert mem[at] == mem[at..][0] == mem'[at..][0] == mem'[at];
      assert mem[at + 1..] == mem[at..][1..] && mem'[at + 1..] == mem'[at..][1..];
      CStringOfTail(mem, mem', at + 1);
    }
  }

  lemma {:induction false} CStringAfter(mem: seq<char>, at: nat, n: nat)
    requires at + n <= |mem| && '\0' !in mem[at..at + n]
    ensures CString(mem, at) == mem[at..at + n] + CString(mem, at + n)
    decreases n
  {
    if n > 0 {
      assert mem[at] in mem[at..at + n];
      assert mem[at + 1..at + n] == mem[at..at + n][1..];
      CStringAfter(mem, at + 1, n - 1);
      assert mem[at..at + n] == [mem[at]] + mem[at + 1..at + n];
    }
  }

  lemma PaddedHasNoNul(v: nat, width: nat)
    ensures '\0' !in Pad(Decimal(v), width)
  {
    DecimalIsCanonical(v);
    var d := Decimal(v);
    assert '\0' !in d by {
      assert !IsDigit('\0');
    }
    if |d| < width {
      ZerosAre(width - |d|);
    }
  }

  lemma NoNul(node: int)
    ensures '\0' !in NodePrefix(node)
  {
    if node < 0 {
      PaddedHasNoNul(-node, 4);
    } else {
      PaddedHasNoNul(node, 5);
    }
    assert '\0' !in "/j/" + Format05(node);
  }

  lemma PrefixInFront(mem: seq<char>, at: nat, chars: string)
    requires BACKUP_LEN <= at <= |mem| && |chars| == BACKUP_LEN
    ensures var m := WithPrefix(mem, at, chars);
      |m| == |mem| && m[at - BACKUP_LEN..at - BACKUP_LEN + BACKUP_LEN] == chars && m[at..] == mem[at..]
  {
  }

  lemma PathBehind(mem: seq<char>, at: nat, chars: string)
    requires BACKUP_LEN <= at <= |mem| && |chars| == BACKUP_LEN && '\0' !in chars
    ensures CString(WithPrefix(mem, at, chars), at - BACKUP_LEN) == chars + CString(mem, at)
  {
    var m := WithPrefix(mem, at, chars);
    PrefixInFront(mem, at, chars);
    CStringAfter(m, at - BACKUP_LEN, BACKUP_LEN);
    CStringOfTail(m, mem, at);
  }

  /** The path that the system call sees: the node's directory, then the whole original path. */
  lemma RewrittenPath(mem: seq<char>, at: nat, node: int)
    requires BACKUP_LEN <= at <= |mem|
    ensures CString(WithPrefix(mem, at, NodePrefix(node)), at - BACKUP_LEN) == NodePrefix(node) + CString(mem, at)
  {
    NoNul(node);
    PathBehind(mem, at, NodePrefix(node));
  }

  // ------------------------------------------------------- which nodes are named

  lemma {:induction false} ValueOfZeros(n: nat, s: string)
    requires AllDigits(s)
    ensures AllDigits(Zeros(n) + s) && Value(Zeros(n) + s) == Value(s)
    decreases n, |s|
  {
    ZerosAre(n);
    var z := Zeros(n) + s;
    if s != "" {
      var t := s[..|s| - 1];
      ValueOfZeros(n, t);
      assert z[..|z| - 1] == Zeros(n) + t;
    } else if n > 0 {
      ValueOfZeros(n - 1, "");
      ZerosAre(n - 1);
      assert z[..|z| - 1] == Zeros(n - 1) + "";
    } else {
      assert z == s;
    }
  }

  lemma {:induction false} DecimalLength(v: nat)
    ensures v < 100000 <==> |Decimal(v)| <= 5
    ensures v < 10000 <==> |Decimal(v)| <= 4
    ensures v < 1000 <==> |Decimal(v)| <= 3
    ensures v < 100 <==> |Decimal(v)| <= 2
    ensures v < 10 <==> |Decimal(v)| <= 1
    decreases v
  {
    if v >= 10 {
      DecimalLength(v / 10);
    }
  }

  function NodeDigits(node: int): string {
    NodePrefix(node)[3..]
  }

  lemma PaddedNumeral(v: nat, width: nat)
    requires |Decimal(v)| <= width
    ensures var p := Pad(Decimal(v), width); |p| == width && AllDigits(p) && Value(p) == v
  {
    var d := Decimal(v);
    DecimalIsCanonical(v);
    if |d| < width {
      ZerosAre(width - |d|);
      ValueOfZeros(width - |d|, d);
    }
  }

  lemma DigitsOfSmallNode(node: nat)
    requires node <= 99999
    ensures AllDigits(NodeDigits(node)) && Value(NodeDigits(node)) == node
  {
    DecimalLength(node);
    PaddedNumeral(node, 5);
    assert NodeDigits(node) == Pad(Decimal(node), 5);
  }

  lemma DigitsOfLargeNode(node: nat)
    requires node > 99999
    ensures AllDigits(NodeDigits(node)) && Value(NodeDigits(node)) < node
  {
    var d := Decimal(node);
    DecimalIsCanonical(node);
    DecimalLength(node);
    assert NodeDigits(node) == d[..5];
    ValueOfPrefix(d, 5);
  }

  lemma DigitsOfNegativeNode(node: int)
    requires node < 0
    ensures !AllDigits(NodeDigits(node))
  {
    var all := "/j/" + Format05(node);
    assert all[3] == '-';
    assert NodeDigits(node)[0] == '-' && !IsDigit('-');
  }

  lemma PrefixOfLarge(node: nat)
    requires node > 99999
    ensures |Decimal(node)| >= 5 && NodePrefix(node) == "/j/" + Decimal(node)[..5]
  {
    DecimalLength(node);
    assert "/j/" + Format05(node) == "/j/" + Decimal(node);
  }

  lemma PrefixOfLongNegative(node: int)
    requires node < -9999
    ensures |Decimal(-node)| >= 4 && NodePrefix(node) == "/j/-" + Decimal(-node)[..4]
  {
    DecimalLength(-node);
    var d := Decimal(-node);
    assert "/j/" + Format05(node) == "/j/-" + d;
  }

  lemma PrefixOfFive(node: int, f: string)
    requires Format05(node) == f && |f| == 5
    ensures NodePrefix(node) == "/j/" + f
  {
  }

  lemma SignInFront(p: string)
    requires |p| == 4
    ensures ("/j/" + ("-" + p))[..4] == "/j/-" && ("/j/" + ("-" + p))[4..] == p
  {
  }

  lemma PrefixOfShortNegative(node: int)
    requires -9999 <= node < 0
    ensures NodePrefix(node)[..4] == "/j/-" && AllDigits(NodePrefix(node)[4..]) && Value(NodePrefix(node)[4..]) == -node
  {
    DecimalLength(-node);
    PaddedNumeral(-node, 4);
    var p := Pad(Decimal(-node), 4);
    PrefixOfFive(node, "-" + p);
    SignInFront(p);
  }

  /** The five characters behind "/j/" are the digits of the node exactly for nodes from
      0 to 99999: longer numbers lose their last digits, and a sign is no digit. */
  lemma DirectoryNamesNodeIff(node: int)
    ensures (AllDigits(NodeDigits(node)) && Value(NodeDigits(node)) == node) <==> 0 <= node <= 99999
  {
    if node < 0 {
      DigitsOfNegativeNode(node);
    } else if node <= 99999 {
      DigitsOfSmallNode(node);
    } else {
      DigitsOfLargeNode(node);
    }
  }
}
