/** Device paths and load options (sections 10.3 and 3.1.3 of the UEFI Specification 2.8): the bytes the
    installer writes, and how the chain-loader walks them. */
module LoadOption {
  import opened Common
  import opened Bytes

  type Unit = u: nat | u < 0x1_0000

  // ------------------------------------------------------------- device paths

  datatype Node = Node(kind: Byte, sub: Byte, data: seq<Byte>)

  const END: seq<Byte> := [0x7f, 0xff, 4, 0]

  predicate IsEnd(kind: Byte, sub: Byte) {
    kind == 0x7f && sub == 0xff
  }

  predicate IsFile(kind: Byte, sub: Byte) {
    kind == 4 && sub == 4
  }

  ghost predicate WellFormed(n: Node) {
    4 + |n.data| < 0x1_0000 && !IsEnd(n.kind, n.sub)
  }

  ghost predicate AllWellFormed(ns: seq<Node>) {
    forall i :: 0 <= i < |ns| ==> WellFormed(ns[i])
  }

  function NodeBytes(n: Node): seq<Byte> {
    [n.kind, n.sub] + LE(4 + |n.data|, 2) + n.data
  }

  function PathBytes(ns: seq<Node>): seq<Byte> {
    if ns == [] then [] else NodeBytes(ns[0]) + PathBytes(ns[1..])
  }

  function U16At(bs: seq<Byte>, o: nat): nat
    requires o + 2 <= |bs|
  {
    (bs[o] as nat) + 256 * (bs[o + 1] as nat)
  }

  /** Two bytes a character, least significant first. */
  function Utf16(us: seq<Unit>): (s: seq<Byte>)
    ensures |s| == 2 * |us|
  {
    if us == [] then [] else LE(us[0], 2) + Utf16(us[1..])
  }

  function FileNode(path: seq<Unit>): Node {
    Node(4, 4, Utf16(path + [0]))
  }

  /** The prefix of the device, a file node and the end node. */
  function FullPath(prefix: seq<Node>, path: seq<Unit>): seq<Byte> {
    PathBytes(prefix) + NodeBytes(FileNode(path)) + END
  }

  lemma NodeHeader(n: Node, rest: seq<Byte>)
    requires WellFormed(n)
    ensures var bs := NodeBytes(n) + rest;
            && |NodeBytes(n)| == 4 + |n.data| && bs[0] == n.kind && bs[1] == n.sub
            && U16At(bs, 2) == 4 + |n.data| && bs[4..4 + |n.data|] == n.data && bs[4 + |n.data|..] == rest
  {
    LEOfTwo(4 + |n.data|);
  }

  lemma LEOfTwo(v: nat)
    requires v < 0x1_0000
    ensures LE(v, 2) == [v % 256, v / 256] && v % 256 + 256 * (v / 256) == v
  {
    assert LE(v, 2) == [v % 256] + LE(v / 256, 1);
    assert LE(v / 256, 1) == [v / 256 % 256] + LE(v / 256 / 256, 0);
  }

  /** The length walk over a terminated device path. */
  method DpTotalLen(bs: seq<Byte>, ghost nodes: seq<Node>) returns (total: nat)
    requires AllWellFormed(nodes) && bs == PathBytes(nodes) + END
    ensures total == |PathBytes(nodes)| + 4
  {
    hide NodeBytes, WellFormed, LE;
    total := 0;
    ghost var k := 0;
    assert bs[0..] == bs && nodes[0..] == nodes;
    while true
      invariant total <= |bs| && k <= |nodes| && bs[total..] == PathBytes(nodes[k..]) + END
      decreases |nodes| - k
    {
      ghost var rest := bs[total..];
      if k < |nodes| {
        NodeHeader(nodes[k], PathBytes(nodes[k + 1..]) + END);
        PathStep(nodes, k);
        assert !IsEnd(nodes[k].kind, nodes[k].sub) by { NotEnd(nodes[k]); }
      } else {
        assert rest == END;
      }
      assert bs[total] == rest[0] && bs[total + 1] == rest[1] && bs[total + 2] == rest[2] && bs[total + 3] == rest[3];
      var nodeLen := U16At(bs, total + 2);
      if bs[total] == 0x7f && bs[total + 1] == 0xff {
        total := total + nodeLen;
        return;
      }
      assert bs[total + nodeLen..] == rest[nodeLen..];
      total := total + nodeLen;
      k := k + 1;
    }
  }

  lemma NotEnd(n: Node)
    requires WellFormed(n)
    ensures !IsEnd(n.kind, n.sub)
  {
  }

  lemma PathStep(nodes: seq<Node>, k: nat)
    requires k < |nodes|
    ensures PathBytes(nodes[k..]) + END == NodeBytes(nodes[k]) + (PathBytes(nodes[k + 1..]) + END)
  {
    assert nodes[k..][1..] == nodes[k + 1..];
  }

  method CopyBytes(buf: array<Byte>, off: nat, src: seq<Byte>)
    requires off + |src| <= buf.Length
    modifies buf
    ensures buf[..off + |src|] == old(buf[..off]) + src
  {
    for i := 0 to |src|
      invariant buf[..off + i] == old(buf[..off]) + src[..i]
    {
      buf[off + i] := src[i];
      assert buf[..off + i + 1] == buf[..off + i] + [src[i]];
    }
    assert src[..|src|] == src;
  }

  lemma UnitsFrom(us: seq<Unit>, i: nat)
    requires i <= |us|
    ensures i == 0 ==> us[i..] == us
    ensures if i == |us| then Utf16(us[i..]) == []
            else LE(us[i], 2) == [us[i] % 256, us[i] / 256] && Utf16(us[i..]) == LE(us[i], 2) + Utf16(us[i + 1..])
  {
    if i < |us| {
      LEOfTwo(us[i]);
      assert us[i..][0] == us[i] && us[i..][1..] == us[i + 1..];
    }
  }

  /** The string copy, its NUL included. */
  method CopyUnits(buf: array<Byte>, off: nat, us: seq<Unit>)
    requires off + 2 * |us| <= buf.Length
    modifies buf
    ensures buf[..off + 2 * |us|] == old(buf[..off]) + Utf16(us)
  {
    hide LE, Utf16;
    UnitsFrom(us, 0);
    for i := 0 to |us|
      invariant buf[..off + 2 * i] + Utf16(us[i..]) == old(buf[..off]) + Utf16(us)
    {
      ghost var before := buf[..off + 2 * i];
      buf[off + 2 * i] := us[i] % 256;
      buf[off + 2 * i + 1] := us[i] / 256;
      assert buf[..off + 2 * (i + 1)] == before + [us[i] % 256, us[i] / 256];
      UnitsFrom(us, i);
      Assoc(before, LE(us[i], 2), Utf16(us[i + 1..]));
    }
    UnitsFrom(us, |us|);
    assert buf[..off + 2 * |us|] + [] == buf[..off + 2 * |us|];
  }

  lemma NodeParts(n: Node)
    requires 4 + |n.data| < 0x1_0000
    ensures NodeBytes(n) == [n.kind, n.sub, (4 + |n.data|) % 256, (4 + |n.data|) / 256] + n.data
  {
    hide LE;
    LEOfTwo(4 + |n.data|);
  }

  /** The file node and the end node. */
  method WriteFileNode(buf: array<Byte>, off: nat, path: seq<Unit>)
    requires 4 + 2 * (|path| + 1) < 0x1_0000 && off + 4 + 2 * (|path| + 1) + 4 == buf.Length
    modifies buf
    ensures buf[..] == old(buf[..off]) + (NodeBytes(FileNode(path)) + END)
  {
    hide LE, Utf16, NodeBytes;
    ghost var before := buf[..off];
    var n := 4 + 2 * (|path| + 1);
    ghost var head, text := [4, 4, n % 256, n / 256], Utf16(path + [0]);
    CopyBytes(buf, off, [4, 4, n % 256, n / 256]);
    CopyUnits(buf, off + 4, path + [0]);
    Assoc(before, head, text);
    NodeParts(FileNode(path));
    assert buf[..off + n] == before + NodeBytes(FileNode(path));
    CopyBytes(buf, off + n, END);
    Assoc(before, NodeBytes(FileNode(path)), END);
    assert buf[..] == buf[..off + n + 4];
  }

  /** The device's path without its end node (nothing when it has none), the file node, the end node. */
  method BuildFullPath(hw: Option<seq<Byte>>, ghost nodes: seq<Node>, path: seq<Unit>) returns (dp: seq<Byte>)
    requires AllWellFormed(nodes) && 4 + 2 * (|path| + 1) < 0x1_0000
    requires if hw.Some? then hw.value == PathBytes(nodes) + END else nodes == []
    ensures dp == FullPath(nodes, path) && |dp| == |PathBytes(nodes)| + 4 + 2 * (|path| + 1) + 4
  {
    hide PathBytes, NodeBytes, FileNode, AllWellFormed;
    var prefixLen := 0;
    if hw.Some? {
      var total := DpTotalLen(hw.value, nodes);
      prefixLen := total - 4;
      assert hw.value[..prefixLen] == PathBytes(nodes);
    } else {
      NoNodes();
    }
    var buf := new Byte[prefixLen + 4 + 2 * (|path| + 1) + 4];
    if prefixLen > 0 {
      CopyBytes(buf, 0, hw.value[..prefixLen]);
    }
    assert buf[..prefixLen] == PathBytes(nodes);
    WriteFileNode(buf, prefixLen, path);
    dp := buf[..];
    Assoc(PathBytes(nodes), NodeBytes(FileNode(path)), END);
  }

  lemma NoNodes()
    ensures PathBytes([]) == []
  {
  }

  // -------------------------------------------------------------- load options

  const OPTION_MAX: nat := 4096

  /** Attributes, path length, description with its NUL, path. */
  function OptionBytes(desc: seq<Unit>, dp: seq<Byte>): seq<Byte> {
    LE(1, 4) + LE(|dp|, 2) + Utf16(desc + [0]) + dp
  }

  /** Fails when the option does not fit its 4096-byte buffer. */
  method BuildOption(desc: seq<Unit>, dp: seq<Byte>) returns (opt: Option<seq<Byte>>)
    ensures opt == if 6 + 2 * (|desc| + 1) + |dp| <= OPTION_MAX then Some(OptionBytes(desc, dp)) else None
  {
    hide LE, Utf16;
    var total := 4 + 2 + 2 * (|desc| + 1) + |dp|;
    if total > OPTION_MAX {
      return None;
    }
    var buf := new Byte[OPTION_MAX](_ => 0);
    CopyBytes(buf, 0, LE(1, 4));
    CopyBytes(buf, 4, LE(|dp|, 2));
    CopyUnits(buf, 6, desc + [0]);
    CopyBytes(buf, 6 + 2 * (|desc| + 1), dp);
    opt := Some(buf[..total]);
    assert buf[..0] + LE(1, 4) == LE(1, 4);
  }

  // --------------------------------------------------------------- the walker

  /** Units before the NUL that ends the description, or before the end of the variable. */
  function DescLen(opt: seq<Byte>, di: nat): (n: nat)
    requires 6 + 2 * di < |opt|
    ensures 6 + 2 * n < |opt|
    decreases |opt| - 2 * di
  {
    if 6 + 2 * (di + 1) < |opt| && U16At(opt, 6 + 2 * di) != 0 then DescLen(opt, di + 1) else di
  }

  function Units(opt: seq<Byte>, o: nat, n: nat): (us: seq<Unit>)
    requires o + 2 * n <= |opt|
    ensures |us| == n && forall i :: 0 <= i < n ==> us[i] == UnitAt(opt, o + 2 * i)
  {
    seq(n, i requires 0 <= i < n => UnitAt(opt, o + 2 * i))
  }

  function UnitAt(opt: seq<Byte>, o: nat): Unit
    requires o + 2 <= |opt|
  {
    U16At(opt, o)
  }

  /** Characters of a file node up to its NUL, its end or the end of the variable. */
  function NodeText(opt: seq<Byte>, o: nat, chars: nat): seq<Unit>
    decreases chars
  {
    if chars == 0 || o + 2 > |opt| || UnitAt(opt, o) == 0 then []
    else [UnitAt(opt, o)] + NodeText(opt, o + 2, chars - 1)
  }

  /** The text of all file nodes from `p` on; a node shorter than its header or the end node stops the walk. */
  function FileText(opt: seq<Byte>, p: nat, end: nat): seq<Unit>
    decreases end - p
  {
    if p >= end || p + 4 > |opt| || U16At(opt, p + 2) < 4 || IsEnd(opt[p], opt[p + 1]) then []
    else
      var n := U16At(opt, p + 2);
      (if IsFile(opt[p], opt[p + 1]) then NodeText(opt, p + 4, (n - 4) / 2) else []) + FileText(opt, p + n, end)
  }

  /** The description walk. */
  method FindDescEnd(opt: seq<Byte>) returns (di: nat)
    requires |opt| >= 8
    ensures di == DescLen(opt, 0)
  {
    di := 0;
    while 6 + 2 * (di + 1) < |opt| && U16At(opt, 6 + 2 * di) != 0
      invariant 6 + 2 * di < |opt| && DescLen(opt, di) == DescLen(opt, 0)
    {
      di := di + 1;
    }
  }

  const FP_MAX: nat := 255

  lemma FileTextStep(opt: seq<Byte>, p: nat, end: nat)
    ensures FileText(opt, p, end)
         == if p >= end || p + 4 > |opt| || U16At(opt, p + 2) < 4 || IsEnd(opt[p], opt[p + 1]) then []
            else
              var n := U16At(opt, p + 2);
              (if IsFile(opt[p], opt[p + 1]) then NodeText(opt, p + 4, (n - 4) / 2) else [])
                + FileText(opt, p + n, end)
  {
    hide NodeText;
  }

  /** One file node's characters, as many as the 256-unit buffer has room for before its NUL. */
  method CopyNodeText(fp: array<Unit>, pos: nat, opt: seq<Byte>, o: nat, chars: nat) returns (q: nat)
    requires fp.Length == FP_MAX + 1 && pos <= FP_MAX
    modifies fp
    ensures q <= FP_MAX && fp[..q] == Take(old(fp[..pos]) + NodeText(opt, o, chars), FP_MAX)
  {
    ghost var before := fp[..pos];
    var k := 0;
    q := pos;
    while k < chars && o + 2 * k + 2 <= |opt| && UnitAt(opt, o + 2 * k) != 0 && q < FP_MAX
      invariant k <= chars && q <= FP_MAX
      invariant fp[..q] + NodeText(opt, o + 2 * k, chars - k) == before + NodeText(opt, o, chars)
    {
      ghost var now := fp[..q];
      fp[q] := UnitAt(opt, o + 2 * k);
      assert fp[..q + 1] == now + [UnitAt(opt, o + 2 * k)];
      assert (now + [UnitAt(opt, o + 2 * k)]) + NodeText(opt, o + 2 * (k + 1), chars - k - 1)
          == now + NodeText(opt, o + 2 * k, chars - k);
      k, q := k + 1, q + 1;
    }
  }

  /** The file path walk. */
  method ReadFilePath(opt: seq<Byte>, dp: nat, end: nat) returns (file: seq<Unit>)
    ensures file == Take(FileText(opt, dp, end), FP_MAX)
  {
    hide Take, NodeText, FileText;
    var fp := new Unit[FP_MAX + 1];
    var pos: nat, p: nat := 0, dp;
    ghost var all := FileText(opt, dp, end);
    NothingTaken(fp[..0], all);
    while p < end && p + 4 <= |opt|
      invariant fp.Length == FP_MAX + 1 && pos <= FP_MAX
      invariant Take(fp[..pos] + FileText(opt, p, end), FP_MAX) == Take(all, FP_MAX)
      decreases end - p
    {
      var n := U16At(opt, p + 2);
      FileTextStep(opt, p, end);
      if n < 4 || IsEnd(opt[p], opt[p + 1]) {
        break;
      }
      ghost var before, rest := fp[..pos], FileText(opt, p + n, end);
      if IsFile(opt[p], opt[p + 1]) {
        pos := CopyNodeText(fp, pos, opt, p + 4, (n - 4) / 2);
        TakeMore(before, NodeText(opt, p + 4, (n - 4) / 2), rest, FP_MAX);
      } else {
        NothingTaken([], rest);
      }
      p := p + n;
    }
    FileTextStep(opt, p, end);
    TakeRest(fp[..pos], FileText(opt, p, end), FP_MAX);
    file := fp[..pos];
  }

  ghost predicate Contains(hay: seq<Unit>, needle: seq<Unit>) {
    exists i :: 0 <= i < |hay| && needle <= hay[i..]
  }

  function Ascii(s: string): (us: seq<Unit>)
    requires forall i :: 0 <= i < |s| ==> s[i] < 128 as char
    ensures |us| == |s| && forall i :: 0 <= i < |s| ==> us[i] == s[i] as nat
  {
    seq(|s|, i requires 0 <= i < |s| => s[i] as nat)
  }

  datatype Verdict = Malformed | SkipUsb | SkipSelf | NoFile | Load(file: seq<Unit>)

  /** What the chain-loader makes of an option: skipped by its description, or the file to look for. */
  ghost function Judge(opt: seq<Byte>): Verdict {
    if |opt| < 8 then Malformed
    else
      var di := DescLen(opt, 0);
      var dp := 6 + 2 * (di + 1);
      if dp + U16At(opt, 4) > |opt| then Malformed
      else
        var desc := Units(opt, 6, di);
        if Contains(desc, Ascii("USB")) then SkipUsb
        else if Contains(desc, Ascii("BRR")) || Contains(desc, Ascii("mask")) then SkipSelf
        else
          var file := Take(FileText(opt, dp, dp + U16At(opt, 4)), FP_MAX);
          if file == [] then NoFile else Load(file)
  }

  /** The substring search. */
  method U16Contains(hay: seq<Unit>, needle: seq<Unit>) returns (found: bool)
    ensures found <==> Contains(hay, needle)
  {
    for i := 0 to |hay|
      invariant forall k :: 0 <= k < i ==> !(needle <= hay[k..])
    {
      var j := 0;
      while i + j < |hay| && j < |needle| && hay[i + j] == needle[j]
        invariant i + j <= |hay| && j <= |needle| && needle[..j] <= hay[i..]
      {
        assert hay[i..][j] == needle[j];
        j := j + 1;
      }
      if j == |needle| {
        assert needle[..j] == needle;
        return true;
      }
      assert i + j == |hay| || needle[j] != hay[i..][j];
    }
    return false;
  }

  method JudgeOption(opt: seq<Byte>) returns (v: Verdict)
    ensures v == Judge(opt)
  {
    hide DescLen, FileText, Contains, Take;
    if |opt| < 8 {
      return Malformed;
    }
    var di := FindDescEnd(opt);
    var dp := 6 + 2 * (di + 1);
    if dp + U16At(opt, 4) > |opt| {
      return Malformed;
    }
    var desc := Units(opt, 6, di);
    var usb := U16Contains(desc, Ascii("USB"));
    if usb {
      return SkipUsb;
    }
    var brr := U16Contains(desc, Ascii("BRR"));
    var mask := U16Contains(desc, Ascii("mask"));
    if brr || mask {
      return SkipSelf;
    }
    var file := ReadFilePath(opt, dp, dp + U16At(opt, 4));
    v := if file == [] then NoFile else Load(file);
  }

  // --------------------------------------------------------------- round trip

  ghost predicate NulFree(us: seq<Unit>) {
    forall i :: 0 <= i < |us| ==> us[i] != 0
  }

  /** The characters of a node's data up to its NUL. */
  function StringOf(data: seq<Byte>): seq<Unit> {
    if |data| < 2 || UnitAt(data, 0) == 0 then [] else [UnitAt(data, 0)] + StringOf(data[2..])
  }

  /** The text of the file nodes of a path. */
  function PrefixText(ns: seq<Node>): seq<Unit> {
    if ns == [] then []
    else (if IsFile(ns[0].kind, ns[0].sub) then StringOf(ns[0].data) else []) + PrefixText(ns[1..])
  }

  lemma {:induction false} StringOfUtf16(us: seq<Unit>)
    requires NulFree(us)
    ensures StringOf(Utf16(us + [0])) == us
  {
    hide LE;
    LEOfTwo((us + [0])[0]);
    if us != [] {
      assert (us + [0])[1..] == us[1..] + [0];
      assert Utf16(us + [0]) == LE(us[0], 2) + Utf16(us[1..] + [0]);
      assert Utf16(us + [0])[2..] == Utf16(us[1..] + [0]);
      StringOfUtf16(us[1..]);
      assert us == [us[0]] + us[1..];
    }
  }

  lemma {:induction false} NodeTextIsString(opt: seq<Byte>, o: nat, data: seq<Byte>)
    requires o + |data| <= |opt| && opt[o..o + |data|] == data
    ensures NodeText(opt, o, |data| / 2) == StringOf(data)
    decreases |data|
  {
    if |data| >= 2 {
      assert opt[o] == data[0] && opt[o + 1] == data[1];
      assert opt[o + 2..o + 2 + |data[2..]|] == data[2..];
      NodeTextIsString(opt, o + 2, data[2..]);
    }
  }

  lemma NodeAt(opt: seq<Byte>, p: nat, n: Node, tail: seq<Byte>)
    requires WellFormed(n) && p <= |opt| && opt[p..] == NodeBytes(n) + tail
    ensures var len := 4 + |n.data|;
            && p + len <= |opt| && opt[p] == n.kind && opt[p + 1] == n.sub && U16At(opt, p + 2) == len
            && opt[p + 4..p + len] == n.data && opt[p + len..] == tail
  {
    hide NodeBytes;
    var rest, len := opt[p..], 4 + |n.data|;
    NodeHeader(n, tail);
    assert opt[p] == rest[0] && opt[p + 1] == rest[1] && opt[p + 2] == rest[2] && opt[p + 3] == rest[3];
    assert opt[p + 4..p + len] == rest[4..len];
    assert opt[p + len..] == rest[len..];
  }

  /** One node of the walk: its text, if it is a file node, and then the nodes behind it. */
  lemma FileTextNode(opt: seq<Byte>, p: nat, n: Node, tail: seq<Byte>)
    requires WellFormed(n) && p <= |opt| && opt[p..] == NodeBytes(n) + tail
    ensures var q := p + 4 + |n.data|;
            && q <= |opt| && opt[q..] == tail
            && FileText(opt, p, |opt|)
               == (if IsFile(n.kind, n.sub) then StringOf(n.data) else []) + FileText(opt, q, |opt|)
  {
    hide NodeBytes, NodeText, StringOf, FileText;
    NodeAt(opt, p, n, tail);
    NodeTextIsString(opt, p + 4, n.data);
    FileTextStep(opt, p, |opt|);
    NotEnd(n);
  }

  lemma FileTextEnd(opt: seq<Byte>, p: nat)
    requires p <= |opt| && opt[p..] == END
    ensures FileText(opt, p, |opt|) == []
  {
    hide FileText, NodeText;
    FileTextStep(opt, p, |opt|);
    assert opt[p] == opt[p..][0] && opt[p + 1] == opt[p..][1];
  }

  lemma PathParts(ns: seq<Node>)
    requires AllWellFormed(ns) && ns != []
    ensures PathBytes(ns) + END == NodeBytes(ns[0]) + (PathBytes(ns[1..]) + END)
    ensures WellFormed(ns[0]) && AllWellFormed(ns[1..])
    ensures PrefixText(ns) == (if IsFile(ns[0].kind, ns[0].sub) then StringOf(ns[0].data) else []) + PrefixText(ns[1..])
  {
    hide NodeBytes, StringOf;
    Assoc(NodeBytes(ns[0]), PathBytes(ns[1..]), END);
  }

  lemma {:induction false} FileTextOfPath(opt: seq<Byte>, p: nat, ns: seq<Node>)
    requires AllWellFormed(ns) && p <= |opt| && opt[p..] == PathBytes(ns) + END
    ensures FileText(opt, p, |opt|) == PrefixText(ns)
    decreases |ns|
  {
    hide NodeBytes, StringOf, FileText, AllWellFormed, WellFormed;
    if ns == [] {
      assert opt[p..] == END;
      FileTextEnd(opt, p);
    } else {
      PathParts(ns);
      FileTextNode(opt, p, ns[0], PathBytes(ns[1..]) + END);
      FileTextOfPath(opt, p + 4 + |ns[0].data|, ns[1..]);
    }
  }

  lemma {:induction false} PathAppend(ns: seq<Node>, n: Node)
    ensures PathBytes(ns + [n]) == PathBytes(ns) + NodeBytes(n)
  {
    hide NodeBytes;
    if ns == [] {
      assert ns + [n] == [n];
      assert PathBytes([n]) == NodeBytes(n) + [];
    } else {
      assert (ns + [n])[1..] == ns[1..] + [n] && (ns + [n])[0] == ns[0];
      PathAppend(ns[1..], n);
      Assoc(NodeBytes(ns[0]), PathBytes(ns[1..]), NodeBytes(n));
    }
  }

  lemma {:induction false} TextAppend(ns: seq<Node>, n: Node)
    ensures PrefixText(ns + [n]) == PrefixText(ns) + PrefixText([n])
  {
    hide StringOf;
    if ns == [] {
      assert ns + [n] == [n];
    } else {
      assert (ns + [n])[1..] == ns[1..] + [n] && (ns + [n])[0] == ns[0];
      TextAppend(ns[1..], n);
      Assoc(if IsFile(ns[0].kind, ns[0].sub) then StringOf(ns[0].data) else [], PrefixText(ns[1..]), PrefixText([n]));
    }
  }

  /** A built path is itself a terminated path, so the length walk over it gives exactly what was allocated. */
  lemma BuiltPathTerminated(prefix: seq<Node>, path: seq<Unit>)
    requires AllWellFormed(prefix) && |FullPath(prefix, path)| < 0x1_0000
    ensures var nodes := prefix + [FileNode(path)];
            && AllWellFormed(nodes) && FullPath(prefix, path) == PathBytes(nodes) + END
            && |FullPath(prefix, path)| == |PathBytes(nodes)| + 4
  {
    hide PathBytes, NodeBytes, Utf16;
    PathAppend(prefix, FileNode(path));
    FileNodeSize(prefix, path);
  }

  /** The walk over a built path reads the prefix's file text, then the file's path. */
  lemma PathWalkedBack(opt: seq<Byte>, p: nat, prefix: seq<Node>, path: seq<Unit>)
    requires AllWellFormed(prefix) && NulFree(path) && |FullPath(prefix, path)| < 0x1_0000
    requires p <= |opt| && opt[p..] == FullPath(prefix, path)
    ensures FileText(opt, p, |opt|) == PrefixText(prefix) + path
  {
    hide PathBytes, NodeBytes, LE, Utf16, StringOf;
    var n := FileNode(path);
    PathAppend(prefix, n);
    TextAppend(prefix, n);
    StringOfUtf16(path);
    FileNodeSize(prefix, path);
    FileTextOfPath(opt, p, prefix + [n]);
    assert PrefixText([n]) == path + PrefixText([]);
  }

  lemma FileNodeSize(prefix: seq<Node>, path: seq<Unit>)
    ensures |FullPath(prefix, path)| == |PathBytes(prefix)| + 4 + 2 * (|path| + 1) + 4
  {
  }

  lemma {:induction false} Utf16At(us: seq<Unit>, post: seq<Byte>, i: nat)
    requires i < |us|
    ensures UnitAt(Utf16(us) + post, 2 * i) == us[i]
  {
    hide LE;
    LEOfTwo(us[0]);
    if i > 0 {
      Utf16At(us[1..], post, i - 1);
      assert Utf16(us) + post == LE(us[0], 2) + (Utf16(us[1..]) + post);
      var s := Utf16(us[1..]) + post;
      assert (LE(us[0], 2) + s)[2 * i] == s[2 * (i - 1)] && (LE(us[0], 2) + s)[2 * i + 1] == s[2 * (i - 1) + 1];
    }
  }

  lemma OptionUnit(desc: seq<Unit>, dp: seq<Byte>, i: nat)
    requires i <= |desc| && |dp| < 0x1_0000
    ensures var opt := OptionBytes(desc, dp);
            && |opt| == 6 + 2 * (|desc| + 1) + |dp| && UnitAt(opt, 6 + 2 * i) == (desc + [0])[i]
            && U16At(opt, 4) == |dp| && opt[6 + 2 * (|desc| + 1)..] == dp
  {
    hide LE, Utf16;
    LEOfTwo(|dp|);
    var opt := OptionBytes(desc, dp);
    var head, s := LE(1, 4) + LE(|dp|, 2), Utf16(desc + [0]) + dp;
    assert opt == head + s;
    Utf16At(desc + [0], dp, i);
    assert opt[6 + 2 * i] == s[2 * i] && opt[6 + 2 * i + 1] == s[2 * i + 1];
  }

  lemma {:induction false} DescLenIs(desc: seq<Unit>, dp: seq<Byte>, i: nat)
    requires i <= |desc| && 0 < |dp| < 0x1_0000 && NulFree(desc)
    requires 6 + 2 * i < |OptionBytes(desc, dp)|
    ensures DescLen(OptionBytes(desc, dp), i) == |desc|
    decreases |desc| - i
  {
    hide OptionBytes;
    OptionUnit(desc, dp, i);
    if i < |desc| {
      DescLenIs(desc, dp, i + 1);
    }
  }

  /** What the builder writes, the walker reads: the same description, the prefix's file text followed by the
      path, and a path length field that ends exactly at the end of the variable. */
  lemma OptionRoundTrip(desc: seq<Unit>, prefix: seq<Node>, path: seq<Unit>)
    requires AllWellFormed(prefix) && NulFree(desc) && NulFree(path) && |FullPath(prefix, path)| < 0x1_0000
    ensures var opt := OptionBytes(desc, FullPath(prefix, path));
            && |opt| >= 8 && DescLen(opt, 0) == |desc| && Units(opt, 6, |desc|) == desc
            && 6 + 2 * (|desc| + 1) + U16At(opt, 4) == |opt|
            && FileText(opt, 6 + 2 * (|desc| + 1), |opt|) == PrefixText(prefix) + path
  {
    hide OptionBytes, FullPath, FileText, PrefixText, DescLen;
    var dp := FullPath(prefix, path);
    var opt := OptionBytes(desc, dp);
    FileNodeSize(prefix, path);
    OptionUnit(desc, dp, 0);
    forall i | 0 <= i < |desc| ensures Units(opt, 6, |desc|)[i] == desc[i] {
      OptionUnit(desc, dp, i);
    }
    DescLenIs(desc, dp, 0);
    assert Units(opt, 6, |desc|) == desc;
    PathWalkedBack(opt, 6 + 2 * (|desc| + 1), prefix, path);
  }

  /** So an option is judged by its own description and path, whatever the device in front of it. */
  lemma BuiltOptionJudged(desc: seq<Unit>, prefix: seq<Node>, path: seq<Unit>)
    requires AllWellFormed(prefix) && NulFree(desc) && NulFree(path) && |FullPath(prefix, path)| < 0x1_0000
    requires PrefixText(prefix) + path != []
    ensures Judge(OptionBytes(desc, FullPath(prefix, path)))
         == if Contains(desc, Ascii("USB")) then SkipUsb
            else if Contains(desc, Ascii("BRR")) || Contains(desc, Ascii("mask")) then SkipSelf
            else Load(Take(PrefixText(prefix) + path, FP_MAX))
  {
    hide OptionBytes, FullPath, FileText, PrefixText, DescLen, Contains;
    OptionRoundTrip(desc, prefix, path);
  }

  // ------------------------------------------------------ the installer's option

  function OurDescription(): (us: seq<Unit>)
    ensures NulFree(us) && |us| == 29 && us[25..] == Ascii("mask")
    ensures forall i :: 0 <= i < |us| ==> us[i] != 'U' as nat
  {
    Ascii("BizarreRamRepair bad-RAM mask")
  }

  function ShimPath(): (us: seq<Unit>)
    ensures NulFree(us) && |us| == 22
  {
    Ascii("\\EFI\\BRR\\mask-shim.efi")
  }

  lemma NotContained(hay: seq<Unit>, needle: seq<Unit>)
    requires needle != [] && forall i :: 0 <= i < |hay| ==> hay[i] != needle[0]
    ensures !Contains(hay, needle)
  {
    forall i | 0 <= i < |hay| ensures !(needle <= hay[i..]) {
      assert hay[i..][0] == hay[i];
    }
  }

  /** The option the installer writes is one the chain-loader never follows: it is skipped as its own. */
  lemma OwnOptionSkipped(prefix: seq<Node>)
    requires AllWellFormed(prefix) && |FullPath(prefix, ShimPath())| < 0x1_0000
    ensures Judge(OptionBytes(OurDescription(), FullPath(prefix, ShimPath()))) == SkipSelf
  {
    hide OptionBytes, FullPath, PrefixText, Judge, OurDescription, ShimPath;
    var desc := OurDescription();
    NotContained(desc, Ascii("USB"));
    assert Ascii("mask") <= desc[25..];
    BuiltOptionJudged(desc, prefix, ShimPath());
  }
}
