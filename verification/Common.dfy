/** Small vocabulary shared by every module: options, page arithmetic and sequence prefixes. */
module Common {

  datatype Option<+T> = None | Some(value: T)

  const PAGE: nat := 4096
  const MIB: nat := 0x10_0000
  const TWO64: nat := 0x1_0000_0000_0000_0000

  function Min(a: nat, b: nat): nat {
    if a <= b then a else b
  }

  function AlignDown(x: nat): nat {
    x - x % PAGE
  }

  function AlignUp(x: nat): nat {
    AlignDown(x + PAGE - 1)
  }

  /** The first `n` elements, or all of them when there are fewer. */
  function Take<T>(s: seq<T>, n: nat): seq<T> {
    if |s| <= n then s else s[..n]
  }

  ghost predicate Distinct<T>(s: seq<T>) {
    forall i, j :: 0 <= i < j < |s| ==> s[i] != s[j]
  }

  lemma Parts3<T>(a: seq<T>, b: seq<T>, c: seq<T>)
    ensures var s := a + b + c;
            s[0..|a|] == a && s[|a|..|a| + |b|] == b && s[|a| + |b|..] == c
  {
    var s := a + b + c;
    assert s[0..|a|] == a;
    assert s[|a|..|a| + |b|] == b;
    assert s[|a| + |b|..] == c;
  }

  lemma SliceOf<T>(s: seq<T>, o: nat, t: seq<T>, i: nat, j: nat)
    requires o <= |s| && s[o..] == t && i <= j <= |t|
    ensures s[o + i..o + j] == t[i..j]
  {
    assert s[o..][i..j] == s[o + i..o + j];
  }

  lemma SubSlice<T>(s: seq<T>, o: nat, e: nat, i: nat, j: nat)
    requires o <= e <= |s| && i <= j <= e - o
    ensures s[o..e][i..j] == s[o + i..o + j]
  {
    var a, b := s[o..e][i..j], s[o + i..o + j];
    assert |a| == |b| && forall k :: 0 <= k < |a| ==> a[k] == b[k];
  }

  lemma TakeTwice<T>(a: seq<T>, b: seq<T>, n: nat)
    ensures Take(Take(a, n) + b, n) == Take(a + b, n)
  {
  }

  lemma NothingTaken<T>(a: seq<T>, b: seq<T>)
    requires a == []
    ensures a + b == b
  {
  }

  lemma TakeRest<T>(a: seq<T>, b: seq<T>, n: nat)
    requires |a| <= n && b == []
    ensures Take(a + b, n) == a
  {
    assert a + b == a;
  }

  lemma TakeMore<T>(a: seq<T>, b: seq<T>, c: seq<T>, n: nat)
    ensures Take(Take(a + b, n) + c, n) == Take(a + (b + c), n)
  {
    assert (a + b) + c == a + (b + c);
  }

  lemma Assoc<T>(a: seq<T>, b: seq<T>, c: seq<T>)
    ensures (a + b) + c == a + (b + c)
  {
  }
}
