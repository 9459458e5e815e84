/** Little-endian numbers in byte buffers. */
module Bytes {

  type Byte = b: nat | b < 256

  function Pow256(n: nat): nat {
    if n == 0 then 1 else 256 * Pow256(n - 1)
  }

  /** The `n` low bytes of `v`, least significant first. */
  function LE(v: nat, n: nat): (s: seq<Byte>)
    ensures |s| == n
  {
    if n == 0 then [] else [v % 256] + LE(v / 256, n - 1)
  }

  function FromLE(s: seq<Byte>): nat {
    if s == [] then 0 else s[0] + 256 * FromLE(s[1..])
  }

  lemma {:induction false} LERoundTrip(v: nat, n: nat)
    requires v < Pow256(n)
    ensures FromLE(LE(v, n)) == v
  {
    if n > 0 {
      LERoundTrip(v / 256, n - 1);
      assert LE(v, n)[1..] == LE(v / 256, n - 1);
    }
  }

  lemma WordSizes()
    ensures Pow256(2) == 0x1_0000 && Pow256(4) == 0x1_0000_0000 && Pow256(8) == 0x1_0000_0000_0000_0000
  {
    assert Pow256(1) == 256 * Pow256(0);
    assert Pow256(2) == 256 * Pow256(1);
    assert Pow256(3) == 256 * Pow256(2);
    assert Pow256(4) == 256 * Pow256(3);
    assert Pow256(5) == 256 * Pow256(4);
    assert Pow256(6) == 256 * Pow256(5);
    assert Pow256(7) == 256 * Pow256(6);
    assert Pow256(8) == 256 * Pow256(7);
  }

  /** A little-endian store of an `n`-byte word. */
  method Store(buf: array<Byte>, off: nat, v: nat, n: nat)
    requires off + n <= buf.Length
    modifies buf
    ensures buf[off..off + n] == LE(v, n)
    ensures buf[..off] == old(buf[..off]) && buf[off + n..] == old(buf[off + n..])
  {
    var i, w := 0, v;
    ghost var lo, hi := buf[..off], buf[off + n..];
    while i < n
      invariant i <= n && buf[..off] == lo && buf[off + n..] == hi
      invariant buf[off..off + i] + LE(w, n - i) == LE(v, n)
    {
      ghost var before := buf[off..off + i];
      buf[off + i] := w % 256;
      assert buf[off..off + i + 1] == before + [w % 256];
      assert LE(w, n - i) == [w % 256] + LE(w / 256, n - i - 1);
      assert (before + [w % 256]) + LE(w / 256, n - i - 1) == before + ([w % 256] + LE(w / 256, n - i - 1));
      i, w := i + 1, w / 256;
    }
    assert buf[off..off + n] + [] == buf[off..off + n];
  }
}
