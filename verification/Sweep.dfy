/** The uninstaller's last step: enumerate every variable, delete those of the BRR namespace, and start over after
    each deletion because the enumeration position is then undefined. */
module Sweep {
  import opened Common
  import opened Bytes
  import opened Nvram

  predicate Fits(k: Key) {
    |k.name| <= NAME_MAX
  }

  /** How many names the enumeration yields before one that does not fit the name buffer. */
  function Reach(order: seq<Key>): (r: nat)
    ensures r <= |order| && (r < |order| ==> !Fits(order[r]))
    ensures forall i :: 0 <= i < r ==> Fits(order[i])
  {
    if order == [] || !Fits(order[0]) then 0
    else
      assert order == [order[0]] + order[1..];
      1 + Reach(order[1..])
  }

  function Others(order: seq<Key>): seq<Key> {
    if order == [] then []
    else (if order[0].guid == Brr then [] else [order[0]]) + Others(order[1..])
  }

  ghost function Ours(order: seq<Key>): set<Key> {
    set k | k in order && k.guid == Brr
  }

  /** What the sweep leaves: the BRR variables up to the first overlong name are gone, everything else stays. */
  ghost function Swept(s: Store): Store {
    var r := Reach(s.order);
    Store(s.vars - Ours(s.order[..r]), Others(s.order[..r]) + s.order[r..])
  }

  lemma {:induction false} OthersConcat(a: seq<Key>, b: seq<Key>)
    ensures Others(a + b) == Others(a) + Others(b)
  {
    if a == [] {
      assert a + b == b;
    } else {
      assert (a + b)[1..] == a[1..] + b;
      OthersConcat(a[1..], b);
    }
  }

  lemma {:induction false} OthersOnly(order: seq<Key>)
    requires forall i :: 0 <= i < |order| ==> order[i].guid != Brr
    ensures Others(order) == order && Ours(order) == {}
  {
    if order != [] {
      OthersOnly(order[1..]);
      assert order == [order[0]] + order[1..];
    }
  }

  lemma {:induction false} OthersMembers(order: seq<Key>)
    ensures forall k :: k in Others(order) <==> k in order && k.guid != Brr
  {
    if order != [] {
      OthersMembers(order[1..]);
      assert order == [order[0]] + order[1..];
      assert forall k :: k in order <==> k == order[0] || k in order[1..];
    }
  }

  lemma Parts(order: seq<Key>, i: nat)
    requires i < |order| && Distinct(order)
    ensures order == order[..i] + ([order[i]] + order[i + 1..])
    ensures order[i] !in order[..i] && order[i] !in order[i + 1..]
  {
  }

  lemma WithoutAbsent(order: seq<Key>, k: Key)
    requires k !in order
    ensures Without(order, k) == order && Without([k] + order, k) == order
  {
    WithoutMembers(order, k);
    assert ([k] + order)[1..] == order;
    assert Without([k] + order, k) == [] + order;
  }

  lemma SplitAt(order: seq<Key>, i: nat)
    requires i < |order| && Distinct(order)
    ensures Without(order, order[i]) == order[..i] + order[i + 1..]
    ensures order == order[..i] + ([order[i]] + order[i + 1..])
  {
    hide Without, Distinct;
    var a, k, b := order[..i], order[i], order[i + 1..];
    Parts(order, i);
    WithoutConcat(a, [k] + b, k);
    WithoutAbsent(a, k);
    WithoutAbsent(b, k);
  }

  lemma ReachIs(order: seq<Key>, r: nat)
    requires r <= |order| && (r < |order| ==> !Fits(order[r])) && forall i :: 0 <= i < r ==> Fits(order[i])
    ensures Reach(order) == r
  {
    hide Reach, Fits;
  }

  lemma ReachWithout(order: seq<Key>, i: nat)
    requires Distinct(order) && i < Reach(order)
    ensures Reach(Without(order, order[i])) == Reach(order) - 1
  {
    hide Without, Reach, Fits;
    var fewer, r := Without(order, order[i]), Reach(order);
    SplitAt(order, i);
    forall j | 0 <= j < r - 1 ensures Fits(fewer[j]) {
      assert fewer[j] == if j < i then order[j] else order[j + 1];
    }
    if r < |order| {
      assert fewer[r - 1] == order[r];
    }
    ReachIs(fewer, r - 1);
  }

  /** One deletion does not change what the whole sweep will leave. */
  lemma SweepStep(s: Store, i: nat)
    requires Sound(s) && i < Reach(s.order) && s.order[i].guid == Brr
    ensures Swept(Del(s, s.order[i])) == Swept(s)
  {
    hide Without, Others, Reach, Sound, Distinct, Ours;
    var order, k, r := s.order, s.order[i], Reach(s.order);
    assert Distinct(order) by { SoundOrder(s); }
    var a, mid, tail := order[..i], order[i + 1..r], order[r..];
    ReachWithout(order, i);
    SplitAt(order, i);
    var fewer := Without(order, k);
    Slices(order, i, r);
    OthersOfMid(a, k, mid);
    assert s.vars - {k} - Ours(a + mid) == s.vars - (Ours(a + mid) + {k});
  }

  lemma Slices<T>(order: seq<T>, i: nat, r: nat)
    requires i < r <= |order|
    ensures var a, mid, fewer := order[..i], order[i + 1..r], order[..i] + order[i + 1..];
            order[..r] == a + ([order[i]] + mid) && fewer[..r - 1] == a + mid && fewer[r - 1..] == order[r..]
  {
  }

  lemma SoundOrder(s: Store)
    requires Sound(s)
    ensures Distinct(s.order)
  {
  }

  lemma OthersOfMid(a: seq<Key>, k: Key, mid: seq<Key>)
    requires k.guid == Brr
    ensures Others(a + ([k] + mid)) == Others(a + mid)
    ensures Ours(a + ([k] + mid)) == Ours(a + mid) + {k}
  {
    hide Others;
    OthersConcat(a, [k] + mid);
    OthersConcat([k], mid);
    OthersConcat(a, mid);
    OneOfOurs(k);
  }

  lemma OneOfOurs(k: Key)
    requires k.guid == Brr
    ensures Others([k]) == []
  {
  }

  /** Positioned behind a name, the enumeration goes on with the one after it. */
  lemma NextIs(s: Store, cur: Option<Key>, pos: nat)
    requires Sound(s) && pos <= |s.order|
    requires if cur.None? then pos == 0 else pos > 0 && s.order[pos - 1] == cur.value
    ensures NextName(s, cur) == NextAt(s.order, pos)
  {
    assert cur.Some? ==> IndexOf(s.order, cur.value) == pos - 1;
  }

  method SweepAll(nv: Nvram)
    requires nv.Valid()
    modifies nv
    ensures nv.Valid() && nv.State() == Swept(old(nv.State()))
  {
    hide Without, Others, Swept;
    var cur: Option<Key> := None;
    ghost var pos: nat := 0;
    while true
      invariant nv.Valid() && Swept(nv.State()) == Swept(old(nv.State()))
      invariant pos <= |nv.order| && (if cur.None? then pos == 0 else pos > 0 && nv.order[pos - 1] == cur.value)
      invariant forall i :: 0 <= i < pos ==> nv.order[i].guid != Brr && Fits(nv.order[i])
      decreases |nv.order|, |nv.order| - pos
    {
      var next := nv.GetNextVariableName(cur);
      NextIs(nv.State(), cur, pos);
      if !next.Name? {
        NothingToSweep(nv.State(), pos);
        return;
      }
      var k := next.key;
      if k.guid == Brr {
        assert pos < Reach(nv.order);
        SweepStep(nv.State(), pos);
        WithoutMembers(nv.order, k);
        var _ := nv.SetVariable(k, [], true);
        cur, pos := None, 0;
      } else {
        cur, pos := Some(k), pos + 1;
      }
    }
  }

  lemma NothingToSweep(s: Store, pos: nat)
    requires pos <= |s.order| && (pos < |s.order| ==> !Fits(s.order[pos]))
    requires forall i :: 0 <= i < pos ==> s.order[i].guid != Brr && Fits(s.order[i])
    ensures Swept(s) == s
  {
    assert Reach(s.order) == pos;
    OthersOnly(s.order[..pos]);
    assert s.order[..pos] + s.order[pos..] == s.order;
  }

  lemma Halves(s: Store, r: nat)
    requires Sound(s) && r <= |s.order|
    ensures forall k :: k in s.vars <==> k in s.order[..r] || k in s.order[r..]
    ensures forall k :: k in s.order[..r] ==> k !in s.order[r..]
    ensures Distinct(s.order[..r]) && Distinct(s.order[r..])
  {
    assert s.order == s.order[..r] + s.order[r..];
    assert forall k :: k in s.order <==> k in s.order[..r] || k in s.order[r..];
  }

  lemma DistinctConcat(a: seq<Key>, b: seq<Key>)
    requires Distinct(a) && Distinct(b) && forall k :: k in a ==> k !in b
    ensures Distinct(a + b) && forall k :: k in a + b <==> k in a || k in b
  {
    forall i, j | 0 <= i < j < |a + b| ensures (a + b)[i] != (a + b)[j] {
      if i < |a| <= j {
        assert (a + b)[i] in a && (a + b)[j] in b;
      }
    }
  }

  /** The sweep touches nothing outside the BRR namespace, and of that namespace it deletes exactly the variables
      enumerated before the first overlong name. */
  lemma SweepExact(s: Store)
    requires Sound(s)
    ensures Sound(Swept(s))
    ensures forall k :: k in Swept(s).vars ==> Swept(s).vars[k] == s.vars[k]
    ensures forall k :: k in Swept(s).vars <==> k in s.vars && (k.guid == Brr ==> k in s.order[Reach(s.order)..])
  {
    hide Others, Reach, Distinct;
    var r := Reach(s.order);
    var head, tail := s.order[..r], s.order[r..];
    Halves(s, r);
    OthersMembers(head);
    OthersDistinct(head);
    DistinctConcat(Others(head), tail);
  }

  lemma {:induction false} OthersDistinct(order: seq<Key>)
    requires Distinct(order)
    ensures Distinct(Others(order))
  {
    if order != [] {
      OthersDistinct(order[1..]);
      OthersMembers(order[1..]);
      assert order[0] !in order[1..];
    }
  }

  /** No variable of the namespace survives exactly when none is enumerated at or after an overlong name. */
  lemma SweepCompleteIff(s: Store)
    requires Sound(s)
    ensures (forall k :: k in Swept(s).vars ==> k.guid != Brr)
       <==> (forall i :: Reach(s.order) <= i < |s.order| ==> s.order[i].guid != Brr)
  {
    hide Others, Swept, Reach;
    SweepExact(s);
    var tail := s.order[Reach(s.order)..];
    forall i | Reach(s.order) <= i < |s.order| ensures s.order[i] in tail && s.order[i] in s.vars {
      assert tail[i - Reach(s.order)] == s.order[i];
    }
  }

  /** A second sweep finds nothing. */
  lemma SweepTwice(s: Store)
    requires Sound(s)
    ensures Swept(Swept(s)) == Swept(s)
  {
    hide Reach, Others;
    var r := Reach(s.order);
    var head, tail := Others(s.order[..r]), s.order[r..];
    OthersMembers(s.order[..r]);
    var t := Swept(s);
    forall i | 0 <= i < |head| ensures t.order[i].guid != Brr && Fits(t.order[i]) {
      assert t.order[i] == head[i];
      assert head[i] in s.order[..r];
    }
    if r < |s.order| {
      assert t.order[|head|] == tail[0];
    }
    NothingToSweep(t, |head|);
  }
}
