/** The list of existing boot entries install keeps for reference: their four digits, comma-separated, in the
    order the firmware enumerates them, as far as a 512-byte buffer goes. */
module BootList {
  import opened Common
  import opened Bytes
  import opened Nvram
  import opened Sweep
  import opened AddressLines

  const CSV_SIZE: nat := 512
  const CSV_ENTRIES: nat := 102

  /** "Boot" and exactly four hexadecimal digits, in the global namespace. */
  predicate IsBootName(k: Key) {
    && k.guid == Global && |k.name| == 8 && k.name[..4] == "Boot"
    && forall i :: 4 <= i < 8 ==> IsHex(k.name[i])
  }

  function UpperByte(c: char): Byte
    requires IsHex(c)
  {
    if c >= 'a' then c as nat - 32 else c as nat
  }

  function Digits4(k: Key): (d: seq<Byte>)
    requires IsBootName(k)
    ensures |d| == 4
  {
    [UpperByte(k.name[4]), UpperByte(k.name[5]), UpperByte(k.name[6]), UpperByte(k.name[7])]
  }

  /** The boot entries among the first `i` names. */
  function Entries(order: seq<Key>, i: nat): (ks: seq<Key>)
    requires i <= |order|
    ensures forall k :: k in ks <==> k in order[..i] && IsBootName(k)
  {
    if i == 0 then []
    else
      assert order[..i] == order[..i - 1] + [order[i - 1]];
      Entries(order, i - 1) + if IsBootName(order[i - 1]) then [order[i - 1]] else []
  }

  /** One entry appended, when the buffer has room for it. */
  function AppendEntry(csv: seq<Byte>, k: Key): seq<Byte>
    requires IsBootName(k)
  {
    if |csv| + 6 >= CSV_SIZE then csv
    else csv + (if csv == [] then [] else [',' as nat]) + Digits4(k)
  }

  function Csv(ks: seq<Key>): seq<Byte>
    requires forall k :: k in ks ==> IsBootName(k)
  {
    if ks == [] then [] else AppendEntry(Csv(ks[..|ks| - 1]), ks[|ks| - 1])
  }

  /** The whole list: of the names enumerated before the first overlong one. */
  function SavedList(order: seq<Key>): seq<Byte> {
    Csv(Entries(order, Reach(order)))
  }

  method AppendTo(csv: array<Byte>, len: nat, k: Key) returns (n: nat)
    requires csv.Length == CSV_SIZE && len < CSV_SIZE && IsBootName(k)
    modifies csv
    ensures n < CSV_SIZE && csv[..n] == AppendEntry(old(csv[..len]), k)
  {
    n := len;
    if len + 6 >= CSV_SIZE {
      return;
    }
    ghost var before := csv[..len];
    if len > 0 {
      csv[n] := ',' as nat;
      n := n + 1;
    }
    ghost var comma := csv[..n];
    assert comma == before + if before == [] then [] else [',' as nat];
    for i := 0 to 4
      invariant n == |comma| + i && csv[..n] == comma + Digits4(k)[..i]
    {
      csv[n] := UpperByte(k.name[4 + i]);
      assert csv[..n + 1] == csv[..n] + [Digits4(k)[i]];
      n := n + 1;
    }
  }

  /** The enumeration loop. */
  method ListBootEntries(nv: Nvram) returns (list: seq<Byte>)
    requires nv.Valid()
    ensures list == SavedList(nv.order)
  {
    hide Reach, AppendEntry, IsBootName, Csv, Entries, Sound, NextName;
    NoEntries(nv.order);
    var csv := new Byte[CSV_SIZE](_ => 0);
    var len: nat := 0;
    var cur: Option<Key> := None;
    ghost var pos: nat := 0;
    ghost var order := nv.order;
    while true
      invariant nv.order == order && pos <= |order| && len < CSV_SIZE
      invariant if cur.None? then pos == 0 else pos > 0 && order[pos - 1] == cur.value
      invariant forall i :: 0 <= i < pos ==> Fits(order[i])
      invariant csv[..len] == Csv(Entries(order, pos))
      decreases |order| - pos
    {
      var next := nv.GetNextVariableName(cur);
      NextIs(nv.State(), cur, pos);
      if !next.Name? {
        ReachIs(order, pos);
        return csv[..len];
      }
      var k := next.key;
      EntriesStep(order, pos);
      if IsBootName(k) {
        len := AppendTo(csv, len, k);
      }
      cur, pos := Some(k), pos + 1;
    }
  }

  lemma NoEntries(order: seq<Key>)
    ensures Csv(Entries(order, 0)) == []
  {
  }

  lemma EntriesStep(order: seq<Key>, i: nat)
    requires i < |order|
    ensures var k, ks := order[i], Entries(order, i);
            && Entries(order, i + 1) == ks + (if IsBootName(k) then [k] else [])
            && (IsBootName(k) ==> Csv(Entries(order, i + 1)) == AppendEntry(Csv(ks), k))
            && (!IsBootName(k) ==> Csv(Entries(order, i + 1)) == Csv(ks))
  {
    hide IsBootName, AppendEntry;
    var k, ks := order[i], Entries(order, i);
    if IsBootName(k) {
      assert (ks + [k])[..|ks|] == ks;
    } else {
      assert ks + [] == ks;
    }
  }

  /** The list holds exactly the first 102 entries, in order: five bytes apart, four digits each. */
  lemma {:induction false} ListsFirst(ks: seq<Key>)
    requires forall k :: k in ks ==> IsBootName(k)
    ensures var n := Min(|ks|, CSV_ENTRIES);
            && |Csv(ks)| == (if n == 0 then 0 else 5 * n - 1)
            && (forall i :: 0 <= i < n ==> Csv(ks)[5 * i..5 * i + 4] == Digits4(ks[i]))
            && (forall i :: 0 < i < n ==> Csv(ks)[5 * i - 1] == ',' as nat)
  {
    hide IsBootName, Digits4, AppendEntry;
    if ks != [] {
      var front, k := ks[..|ks| - 1], ks[|ks| - 1];
      ListsFirst(front);
      var before, after := Csv(front), Csv(ks);
      assert |front| >= CSV_ENTRIES ==> AppendEntry(before, k) == before by { FullList(before, k); }
      if |front| < CSV_ENTRIES {
        EntryPlaced(before, k);
        forall i | 0 <= i < |front| ensures after[5 * i..5 * i + 4] == Digits4(ks[i]) {
          assert after[5 * i..5 * i + 4] == before[5 * i..5 * i + 4];
        }
      }
    }
  }

  lemma FullList(csv: seq<Byte>, k: Key)
    requires IsBootName(k)
    ensures |csv| + 6 >= CSV_SIZE ==> AppendEntry(csv, k) == csv
  {
  }

  lemma EntryPlaced(csv: seq<Byte>, k: Key)
    requires IsBootName(k) && |csv| + 6 < CSV_SIZE
    ensures var after, p := AppendEntry(csv, k), if csv == [] then 0 else |csv| + 1;
            && |after| == p + 4 && after[p..p + 4] == Digits4(k) && csv <= after
            && (p > 0 ==> after[p - 1] == ',' as nat)
  {
    hide IsBootName, Digits4;
  }
}
