/** The firmware's variable services (section 8.2 of the UEFI Specification 2.8): variables by vendor GUID and
    name, an empty write deletes, a read reports a buffer that is too small, and names are enumerated one after
    another into a 256-unit buffer. */
module Nvram {
  import opened Common
  import opened Bytes

  datatype Guid = Global | Brr | Vendor(id: nat)

  datatype Key = Key(guid: Guid, name: string)

  /** Values by key, and the order the firmware enumerates the names in. */
  datatype Store = Store(vars: map<Key, seq<Byte>>, order: seq<Key>)

  ghost predicate Sound(s: Store) {
    && Distinct(s.order)
    && (forall k :: k in s.order <==> k in s.vars)
    && (forall k :: k in s.vars ==> s.vars[k] != [])
  }

  function Without(order: seq<Key>, k: Key): seq<Key> {
    if order == [] then []
    else (if order[0] == k then [] else [order[0]]) + Without(order[1..], k)
  }

  function Del(s: Store, k: Key): Store {
    Store(s.vars - {k}, Without(s.order, k))
  }

  /** A write; an empty one deletes. */
  function Put(s: Store, k: Key, data: seq<Byte>): Store {
    if data == [] then Del(s, k)
    else Store(s.vars[k := data], if k in s.vars then s.order else s.order + [k])
  }

  datatype Read = Found(data: seq<Byte>) | TooSmall | NotFound

  function Fetch(s: Store, k: Key, cap: nat): Read {
    if k !in s.vars then NotFound
    else if |s.vars[k]| > cap then TooSmall
    else Found(s.vars[k])
  }

  const NAME_MAX: nat := 255

  datatype Next = Name(key: Key) | Overlong | Done | Unknown

  function IndexOf(order: seq<Key>, k: Key): (i: nat)
    ensures i <= |order| && (i < |order| ==> order[i] == k)
    ensures forall j :: 0 <= j < i ==> order[j] != k
  {
    if order == [] || order[0] == k then 0
    else
      assert order == [order[0]] + order[1..];
      1 + IndexOf(order[1..], k)
  }

  function NextAt(order: seq<Key>, i: nat): Next {
    if i >= |order| then Done
    else if |order[i].name| > NAME_MAX then Overlong
    else Name(order[i])
  }

  /** The name after `cur`, or the first name; a name that is not there has no successor. */
  function NextName(s: Store, cur: Option<Key>): Next {
    match cur
    case None => NextAt(s.order, 0)
    case Some(k) =>
      var i := IndexOf(s.order, k);
      if i == |s.order| then Unknown else NextAt(s.order, i + 1)
  }

  lemma {:induction false} WithoutMembers(order: seq<Key>, k: Key)
    ensures forall x :: x in Without(order, k) <==> x in order && x != k
    ensures |Without(order, k)| <= |order| && (k in order ==> |Without(order, k)| < |order|)
    ensures k !in order ==> Without(order, k) == order
  {
    if order != [] {
      WithoutMembers(order[1..], k);
      assert order == [order[0]] + order[1..];
      assert forall x :: x in order <==> x == order[0] || x in order[1..];
    }
  }

  lemma {:induction false} WithoutDistinct(order: seq<Key>, k: Key)
    requires Distinct(order)
    ensures Distinct(Without(order, k))
  {
    if order != [] {
      WithoutDistinct(order[1..], k);
      WithoutMembers(order[1..], k);
      assert order[0] !in order[1..];
    }
  }

  lemma {:induction false} WithoutConcat(a: seq<Key>, b: seq<Key>, k: Key)
    ensures Without(a + b, k) == Without(a, k) + Without(b, k)
  {
    if a == [] {
      assert a + b == b;
    } else {
      assert (a + b)[1..] == a[1..] + b;
      WithoutConcat(a[1..], b, k);
    }
  }

  lemma DelSound(s: Store, k: Key)
    requires Sound(s)
    ensures Sound(Del(s, k))
  {
    WithoutMembers(s.order, k);
    WithoutDistinct(s.order, k);
  }

  /** Writes and deletes keep the enumeration in step with the variables. */
  lemma PutSound(s: Store, k: Key, data: seq<Byte>)
    requires Sound(s)
    ensures Sound(Put(s, k, data))
  {
    if data == [] {
      DelSound(s, k);
    }
  }

  class Nvram {
    var vars: map<Key, seq<Byte>>
    var order: seq<Key>

    function State(): Store
      reads this
    {
      Store(vars, order)
    }

    ghost predicate Valid()
      reads this
    {
      Sound(State())
    }

    constructor (s: Store)
      requires Sound(s)
      ensures Valid() && State() == s
    {
      vars, order := s.vars, s.order;
    }

    /** `ok` is whether the firmware accepts the write. */
    method SetVariable(k: Key, data: seq<Byte>, ok: bool) returns (done: bool)
      requires Valid()
      modifies this
      ensures Valid() && State() == if ok then Put(old(State()), k, data) else old(State())
      ensures done == (ok && (data != [] || k in old(vars)))
    {
      PutSound(State(), k, data);
      done := ok;
      if !ok {
        return;
      }
      if data == [] {
        done := k in vars;
        vars := vars - {k};
        order := Without(order, k);
      } else {
        if k !in vars {
          order := order + [k];
        }
        vars := vars[k := data];
      }
    }

    method GetVariable(k: Key, cap: nat) returns (r: Read)
      ensures r == Fetch(State(), k, cap)
    {
      if k !in vars {
        return NotFound;
      }
      if |vars[k]| > cap {
        return TooSmall;
      }
      return Found(vars[k]);
    }

    method GetNextVariableName(cur: Option<Key>) returns (r: Next)
      ensures r == NextName(State(), cur)
    {
      var i := 0;
      if cur.Some? {
        while i < |order| && order[i] != cur.value
          invariant i <= |order| && cur.value !in order[..i]
        {
          i := i + 1;
        }
        assert IndexOf(order, cur.value) == i by {
          assert forall j :: 0 <= j < i ==> order[..i][j] == order[j];
        }
        if i == |order| {
          return Unknown;
        }
        i := i + 1;
      }
      if i >= |order| {
        return Done;
      }
      if |order[i].name| > NAME_MAX {
        return Overlong;
      }
      return Name(order[i]);
    }
  }
}
