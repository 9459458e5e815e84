/** The on-screen dump of the page log, and its round trip through the line parser. */
module AddressDump {
  import opened Common
  import opened AddressLines
  import opened LineInput

  const LINE_MAX: nat := 60

  function HexDigit(n: nat): (c: char)
    requires n < 16
    ensures IsHex(c) && HexValue(c) == n
  {
    if n < 10 then '0' + n as char else 'a' + (n - 10) as char
  }

  /** Lower-case digits without leading zeros. */
  function Digits(v: nat): (s: string)
    ensures s != [] && forall i :: 0 <= i < |s| ==> IsHex(s[i])
  {
    if v < 16 then [HexDigit(v)] else Digits(v / 16) + [HexDigit(v % 16)]
  }

  function HexText(v: nat): string {
    "0x" + Digits(v)
  }

  function Pow16(n: nat): (r: nat)
    ensures r > 0
  {
    if n == 0 then 1 else 16 * Pow16(n - 1)
  }

  lemma {:induction false} DigitsLength(v: nat, n: nat)
    requires v < Pow16(n) && n > 0
    ensures |Digits(v)| <= n
  {
    if v >= 16 {
      assert n > 1 by { assert Pow16(1) == 16 * Pow16(0); }
      DigitsLength(v / 16, n - 1);
    }
  }

  lemma SixteenDigits()
    ensures Pow16(16) == TWO64
  {
    assert Pow16(4) == 0x1_0000 by { assert Pow16(2) == 256; }
    assert Pow16(8) == 0x1_0000_0000 by { assert Pow16(6) == 0x100_0000; }
    assert Pow16(12) == 0x1_0000_0000_0000 by { assert Pow16(10) == 0x100_0000_0000; }
    assert Pow16(14) == 0x100_0000_0000_0000;
  }

  /** The digits of a 64-bit number have its value. */
  lemma {:induction false} DigitsValueIs(v: nat)
    requires v < TWO64
    ensures DigitsValue(Digits(v)) == v
  {
    if v < 16 {
      assert [HexDigit(v)][..0] == [];
    } else {
      DigitsValueIs(v / 16);
      assert Digits(v)[..|Digits(v)| - 1] == Digits(v / 16);
    }
  }

  /** `v` shifted right by `k` hex digits. */
  function Shr(v: nat, k: nat): nat {
    if k == 0 then v else Shr(v, k - 1) / 16
  }

  lemma {:induction false} ShrBound(v: nat, k: nat, n: nat)
    requires v < Pow16(n) && k <= n
    ensures Shr(v, k) < Pow16(n - k)
  {
    if k > 0 {
      ShrBound(v, k - 1, n);
    }
  }

  /** The nibble loop: most significant first, leading zeros skipped. */
  lemma ShrStep(v: nat, k: nat)
    requires k > 0
    ensures Shr(v, k - 1) == 16 * Shr(v, k) + Shr(v, k - 1) % 16
    ensures Shr(v, 0) == v && Pow16(0) == 1
  {
  }

  /** One more digit. */
  lemma HexStep(w: nat, nib: nat)
    requires nib < 16
    ensures HexText(16 * w + nib) == (if w == 0 then "0x" else HexText(w)) + [HexDigit(nib)]
  {
    hide HexDigit;
    if w > 0 {
      assert (16 * w + nib) / 16 == w && (16 * w + nib) % 16 == nib;
      assert "0x" + (Digits(w) + [HexDigit(nib)]) == ("0x" + Digits(w)) + [HexDigit(nib)];
    }
  }

  method FormatAddress(v: nat) returns (s: string)
    requires v < TWO64
    ensures s == HexText(v)
  {
    hide Shr, HexText, HexDigit, Pow16;
    s := "0x";
    var k: nat, started := 16, false;
    SixteenDigits();
    ShrBound(v, 16, 16);
    ShrStep(v, 16);
    while k > 0
      invariant k <= 16 && (k > 0 ==> started == (Shr(v, k) != 0))
      invariant k == 0 ==> s == HexText(v)
      invariant k > 0 ==> s == if started then HexText(Shr(v, k)) else "0x"
    {
      var nib := Shr(v, k - 1) % 16;
      ShrStep(v, k);
      HexStep(Shr(v, k), nib);
      k := k - 1;
      if !started && nib == 0 && k > 0 {
        continue;
      }
      started := true;
      s := s + [HexDigit(nib)];
    }
  }

  // ------------------------------------------------------------ wrapped lines

  function Item(ps: seq<nat>, i: nat): string
    requires i < |ps|
  {
    HexText(ps[i]) + if i + 1 < |ps| then ", " else ""
  }

  datatype Screen = Screen(rows: seq<string>, line: string)

  /** Rows shown and line being built after the first `i` addresses. */
  function Wrapped(ps: seq<nat>, i: nat): Screen
    requires i <= |ps|
  {
    if i == 0 then Screen([], "")
    else
      var w, item := Wrapped(ps, i - 1), Item(ps, i - 1);
      if |w.line| + |item| > LINE_MAX then Screen(w.rows + [w.line], item) else Screen(w.rows, w.line + item)
  }

  function DumpRows(ps: seq<nat>): seq<string> {
    var w := Wrapped(ps, |ps|);
    w.rows + if w.line != "" then [w.line] else []
  }

  ghost predicate Words(ps: seq<nat>) {
    forall i :: 0 <= i < |ps| ==> ps[i] < TWO64
  }

  lemma ItemLength(ps: seq<nat>, i: nat)
    requires Words(ps) && i < |ps|
    ensures 0 < |Item(ps, i)| <= 20
  {
    SixteenDigits();
    DigitsLength(ps[i], 16);
  }

  /** Appends a string to the line buffer. */
  method AppendText(line: array<char>, len: nat, s: string) returns (n: nat)
    requires len + |s| <= line.Length
    modifies line
    ensures n == len + |s| && line[..n] == old(line[..len]) + s
  {
    n := len;
    for k := 0 to |s|
      invariant n == len + k && line[..n] == old(line[..len]) + s[..k]
    {
      line[n] := s[k];
      n := n + 1;
    }
    assert s[..|s|] == s;
  }

  /** One turn of the dump loop: flush a full line first, then add the address and its comma. */
  method PutAddress(ps: seq<nat>, i: nat, line: array<char>, start: nat) returns (flushed: seq<string>, len: nat)
    requires Words(ps) && i < |ps| && line.Length == 128 && start <= LINE_MAX
    modifies line
    ensures len <= LINE_MAX
    ensures if start + |Item(ps, i)| > LINE_MAX then flushed == [old(line[..start])] && line[..len] == Item(ps, i)
            else flushed == [] && line[..len] == old(line[..start]) + Item(ps, i)
  {
    var text := FormatAddress(ps[i]);
    var comma := if i + 1 < |ps| then ", " else "";
    ItemLength(ps, i);
    flushed, len := [], start;
    if len + |text| + |comma| > LINE_MAX {
      flushed, len := [line[..len]], 0;
    }
    ghost var before := line[..len];
    len := AppendText(line, len, text);
    len := AppendText(line, len, comma);
    assert (before + text) + comma == before + Item(ps, i);
  }

  /** The dump loop over a 128-character line buffer, of which at most 60 are ever used. */
  method Dump(ps: seq<nat>) returns (rows: seq<string>)
    requires Words(ps)
    ensures rows == DumpRows(ps)
    ensures forall r :: r in rows ==> |r| <= LINE_MAX
  {
    hide Item;
    rows := [];
    var line := new char[128](_ => ' ');
    var len: nat := 0;
    for i := 0 to |ps|
      invariant len <= LINE_MAX && Wrapped(ps, i) == Screen(rows, line[..len])
      invariant forall r :: r in rows ==> |r| <= LINE_MAX
    {
      var flushed: seq<string>;
      flushed, len := PutAddress(ps, i, line, len);
      rows := rows + flushed;
    }
    if len > 0 {
      rows := rows + [line[..len]];
    }
  }

  // -------------------------------------------------------------- round trip

  /** What is typed when the rows are copied one after the other, each behind the same blanks. */
  function Typed(rows: seq<string>, indent: string): string {
    if rows == [] then "" else Typed(rows[..|rows| - 1], indent) + indent + rows[|rows| - 1]
  }

  ghost predicate Separators(s: string) {
    forall i :: 0 <= i < |s| ==> IsSep(s[i])
  }

  datatype Token = Token(before: string, value: nat)

  function Render(ts: seq<Token>): string {
    if ts == [] then "" else Render(ts[..|ts| - 1]) + ts[|ts| - 1].before + HexText(ts[|ts| - 1].value)
  }

  /** The first `i` addresses with the separators in front of each; a wrap adds the next row's indent. */
  function Tokens(ps: seq<nat>, i: nat, indent: string): (ts: seq<Token>)
    requires i <= |ps|
    ensures |ts| == i && forall k :: 0 <= k < i ==> ts[k].value == ps[k]
  {
    if i == 0 then []
    else
      Tokens(ps, i - 1, indent) +
      [Token(if i == 1 then indent else ", " + if Wraps(ps, i - 1) then indent else "", ps[i - 1])]
  }

  /** The text on screen after `i` addresses. */
  function Shown(w: Screen, indent: string): string {
    Typed(w.rows, indent) + indent + w.line
  }

  predicate Wraps(ps: seq<nat>, i: nat)
    requires i < |ps|
  {
    |Wrapped(ps, i).line| + |Item(ps, i)| > LINE_MAX
  }

  lemma ShownStep(ps: seq<nat>, i: nat, indent: string)
    requires i < |ps|
    ensures Shown(Wrapped(ps, i + 1), indent) ==
            Shown(Wrapped(ps, i), indent) + (if Wraps(ps, i) then indent else "") + Item(ps, i)
  {
    var w := Wrapped(ps, i);
    assert (w.rows + [w.line])[..|w.rows|] == w.rows;
  }

  lemma RenderStep(ps: seq<nat>, i: nat, indent: string)
    requires i < |ps|
    ensures Render(Tokens(ps, i + 1, indent)) ==
            Render(Tokens(ps, i, indent)) + Tokens(ps, i + 1, indent)[i].before + HexText(ps[i])
  {
    assert Tokens(ps, i + 1, indent)[..i] == Tokens(ps, i, indent);
  }

  lemma Regrouped(soFar: string, sep: string, ind: string, text: string, comma: string)
    ensures (soFar + sep) + ind + (text + comma) == (soFar + (sep + ind) + text) + comma
  {
  }

  /** Wrapping changes where the rows break, not the text. */
  lemma {:induction false} TypedIsRendered(ps: seq<nat>, i: nat, indent: string)
    requires Words(ps) && i < |ps|
    ensures Shown(Wrapped(ps, i + 1), indent) ==
            Render(Tokens(ps, i + 1, indent)) + if i + 1 < |ps| then ", " else ""
  {
    if i > 0 {
      TypedIsRendered(ps, i - 1, indent);
    }
    TypedStep(ps, i, indent);
  }

  lemma TypedStep(ps: seq<nat>, i: nat, indent: string)
    requires Words(ps) && i < |ps|
    requires i > 0 ==> Shown(Wrapped(ps, i), indent) == Render(Tokens(ps, i, indent)) + ", "
    ensures Shown(Wrapped(ps, i + 1), indent) ==
            Render(Tokens(ps, i + 1, indent)) + if i + 1 < |ps| then ", " else ""
  {
    var text, comma := HexText(ps[i]), if i + 1 < |ps| then ", " else "";
    var ind := if Wraps(ps, i) then indent else "";
    var soFar, t := Render(Tokens(ps, i, indent)), Tokens(ps, i + 1, indent)[i];
    ShownStep(ps, i, indent);
    RenderStep(ps, i, indent);
    assert Item(ps, i) == text + comma;
    if i == 0 {
      FirstShown(ps, indent);
      Regrouped("", indent, "", text, comma);
      assert "" + indent == indent && indent + "" == indent && t.before == indent && ind == "";
    } else {
      Regrouped(soFar, ", ", ind, text, comma);
      assert t.before == ", " + ind;
    }
  }

  lemma FirstShown(ps: seq<nat>, indent: string)
    requires ps != []
    ensures Shown(Wrapped(ps, 0), indent) == indent && Render(Tokens(ps, 0, indent)) == ""
    ensures Words(ps) ==> !Wraps(ps, 0)
  {
    if Words(ps) {
      ItemLength(ps, 0);
    }
  }

  /** The text from token `k` on. */
  function RenderFrom(ts: seq<Token>, k: nat): string
    requires k <= |ts|
    decreases |ts| - k
  {
    if k == |ts| then "" else ts[k].before + HexText(ts[k].value) + RenderFrom(ts, k + 1)
  }

  lemma {:induction false} RenderSplit(ts: seq<Token>, k: nat)
    requires k <= |ts|
    ensures Render(ts) == Render(ts[..k]) + RenderFrom(ts, k)
    decreases |ts| - k
  {
    if k == |ts| {
      assert ts[..k] == ts;
    } else {
      RenderSplit(ts, k + 1);
      assert ts[..k + 1][..k] == ts[..k];
      Chain(Render(ts[..k]), ts[k].before, HexText(ts[k].value), RenderFrom(ts, k + 1));
    }
  }

  lemma Chain(a: string, b: string, c: string, d: string)
    ensures (a + b + c) + d == a + (b + c + d)
  {
  }

  /** Separators in front, and at least one between two tokens. */
  ghost predicate WellSeparated(ts: seq<Token>) {
    forall k :: 0 <= k < |ts| ==> Separators(ts[k].before) && (k > 0 ==> ts[k].before != "") && ts[k].value < TWO64
  }

  lemma {:induction false} SepEndIs(line: string, p: nat, q: nat)
    requires p <= q <= |line| && (forall i :: p <= i < q ==> IsSep(line[i])) && (q < |line| ==> !IsSep(line[q]))
    ensures SepEnd(line, p) == q
    decreases q - p
  {
    if p < q {
      SepEndIs(line, p + 1, q);
    }
  }

  lemma {:induction false} HexEndIs(line: string, p: nat, q: nat)
    requires p <= q <= |line| && (forall i :: p <= i < q ==> IsHex(line[i])) && (q < |line| ==> !IsHex(line[q]))
    ensures HexEnd(line, p) == q
    decreases q - p
  {
    if p < q {
      HexEndIs(line, p + 1, q);
    }
  }

  lemma TokenShape(line: string, p: nat, before: string, ds: string, rest: string)
    requires p <= |line| && line[p..] == before + ("0x" + ds) + rest
    ensures var q := p + |before|;
            var r := q + 2 + |ds|;
            && r <= |line| && line[r..] == rest && line[q + 2..r] == ds
            && line[q] == '0' && line[q + 1] == 'x'
            && (forall i :: p <= i < q ==> line[i] == before[i - p])
            && (forall i :: q + 2 <= i < r ==> line[i] == ds[i - q - 2])
  {
    var s, q := line[p..], p + |before|;
    assert forall i :: p <= i < |line| ==> line[i] == s[i - p];
  }

  /** Separators from `p` to `q`, then 0x and digits up to `r`. */
  ghost predicate TokenAt(line: string, p: nat, q: nat, r: nat) {
    && p <= q && q + 2 < r <= |line| && line[q] == '0' && line[q + 1] == 'x'
    && (forall i :: p <= i < q ==> IsSep(line[i]))
    && (forall i :: q + 2 <= i < r ==> IsHex(line[i])) && (r < |line| ==> !IsHex(line[r]))
  }

  lemma TextHasToken(line: string, p: nat, before: string, ds: string, rest: string)
    requires p <= |line| && line[p..] == before + ("0x" + ds) + rest
    requires Separators(before) && ds != "" && (forall i :: 0 <= i < |ds| ==> IsHex(ds[i]))
    requires rest == "" || IsSep(rest[0])
    ensures var q := p + |before|; TokenAt(line, p, q, q + 2 + |ds|)
  {
    TokenShape(line, p, before, ds, rest);
    var r := p + |before| + 2 + |ds|;
    assert r < |line| ==> line[r] == line[r..][0] == rest[0];
  }

  lemma TokenValues(line: string, p: nat, q: nat, r: nat, v: nat)
    requires TokenAt(line, p, q, r) && DigitsValue(line[q + 2..r]) == v
    ensures Values(line, p) == Keep(v) + Values(line, r)
  {
    SepEndIs(line, p, q);
    HexEndIs(line, q + 2, r);
  }

  lemma TokenFound(line: string, p: nat, t: Token, rest: string, r: nat)
    requires p <= |line| && line[p..] == t.before + HexText(t.value) + rest
    requires Separators(t.before) && t.value < TWO64 && (rest == "" || IsSep(rest[0]))
    requires r == p + |t.before| + |HexText(t.value)|
    ensures var q := p + |t.before|;
            TokenAt(line, p, q, r) && DigitsValue(line[q + 2..r]) == t.value && line[r..] == rest
  {
    DigitsValueIs(t.value);
    TokenShape(line, p, t.before, Digits(t.value), rest);
    TextHasToken(line, p, t.before, Digits(t.value), rest);
  }

  /** One token of the text is read as its address. */
  lemma ParseToken(line: string, p: nat, t: Token, rest: string, r: nat)
    requires p <= |line| && line[p..] == t.before + HexText(t.value) + rest
    requires Separators(t.before) && t.value < TWO64 && (rest == "" || IsSep(rest[0]))
    requires r == p + |t.before| + |HexText(t.value)|
    ensures r <= |line| && line[r..] == rest && Values(line, p) == Keep(t.value) + Values(line, r)
  {
    TokenFound(line, p, t, rest, r);
    TokenValues(line, p, p + |t.before|, r, t.value);
  }

  /** The addresses the parser keeps, from `k` on. */
  function KeptFrom(ps: seq<nat>, k: nat): seq<nat>
    requires k <= |ps|
    decreases |ps| - k
  {
    if k == |ps| then [] else Keep(ps[k]) + KeptFrom(ps, k + 1)
  }

  lemma NothingLeft(line: string)
    ensures Values(line, |line|) == []
  {
  }

  lemma {:induction false} ParseRendered(line: string, p: nat, ts: seq<Token>, ps: seq<nat>, k: nat)
    requires WellSeparated(ts) && k <= |ts| == |ps| && (forall i :: 0 <= i < |ts| ==> ts[i].value == ps[i])
    requires p <= |line| && line[p..] == RenderFrom(ts, k)
    ensures Values(line, p) == KeptFrom(ps, k)
    decreases |ts| - k
  {
    hide HexText, Values, WellSeparated, Keep;
    if k == |ts| {
      NothingLeft(line);
    } else {
      WholeToken(line, p, ts, k);
      ParseRendered(line, p + |ts[k].before| + |HexText(ts[k].value)|, ts, ps, k + 1);
    }
  }

  lemma GoodAppend(line: string, before: string, v: nat)
    requires GoodLine(line) && Separators(before) && (line == "" || before != "")
    ensures GoodLine(line + before + HexText(v))
  {
    var t, q := line + before + HexText(v), |line| + |before|;
    forall i | 0 <= i < |t| ensures GoodChar(t, i) {
      if i < |line| {
        assert GoodChar(line, i);
      } else if i < q {
        assert t[i] == before[i - |line|];
      } else if i >= q + 2 {
        assert t[i] == Digits(v)[i - q - 2];
      } else if i == q + 1 && q > 0 {
        assert t[q - 1] == before[|before| - 1];
      }
    }
  }

  lemma {:induction false} RenderedIsGood(ts: seq<Token>)
    requires WellSeparated(ts)
    ensures GoodLine(Render(ts)) && (ts != [] ==> Render(ts) != "")
  {
    if ts != [] {
      var front, t := ts[..|ts| - 1], ts[|ts| - 1];
      RenderedIsGood(front);
      GoodAppend(Render(front), t.before, t.value);
    }
  }

  lemma {:induction false} TokensSeparated(ps: seq<nat>, i: nat, indent: string)
    requires Words(ps) && i <= |ps| && Separators(indent)
    ensures WellSeparated(Tokens(ps, i, indent))
  {
    if i > 0 {
      TokensSeparated(ps, i - 1, indent);
    }
  }

  /** Typing the dumped rows one after the other, with any blanks in front of each, gives a line on which the
      parser terminates and reads back exactly the non-zero page addresses, in order. */
  lemma DumpThenParse(ps: seq<nat>, indent: string)
    requires Words(ps) && Separators(indent)
    ensures var text := Typed(DumpRows(ps), indent); GoodLine(text) && Values(text, 0) == KeptFrom(ps, 0)
  {
    if ps != [] {
      var n, w, ts := |ps|, Wrapped(ps, |ps|), Tokens(ps, |ps|, indent);
      TypedIsRendered(ps, n - 1, indent);
      TokensSeparated(ps, n, indent);
      RenderedIsGood(ts);
      ItemLength(ps, n - 1);
      assert w.line != "";
      assert DumpRows(ps)[..|w.rows|] == w.rows;
      var text := Typed(DumpRows(ps), indent);
      assert text == Shown(w, indent) == Render(ts);
      RenderSplit(ts, 0);
      assert text[0..] == RenderFrom(ts, 0);
      ParseRendered(text, 0, ts, ps, 0);
    }
  }

  lemma {:induction false} KeptCount(ps: seq<nat>, k: nat)
    requires k <= |ps| && forall i :: 0 <= i < |ps| ==> ps[i] % PAGE == 0
    ensures |KeptFrom(ps, k)| <= |ps| - k
    ensures KeptFrom(ps, k) == ps[k..] <==> forall i :: k <= i < |ps| ==> ps[i] != 0
    decreases |ps| - k
  {
    if k < |ps| {
      KeptCount(ps, k + 1);
      assert ps[k..] == [ps[k]] + ps[k + 1..];
      if ps[k] == 0 {
        assert |KeptFrom(ps, k)| < |ps[k..]|;
      } else {
        assert KeptFrom(ps, k) == [ps[k]] + KeptFrom(ps, k + 1);
        assert KeptFrom(ps, k)[1..] == KeptFrom(ps, k + 1) && ps[k..][1..] == ps[k + 1..];
      }
    }
  }

  /** Dump and parse give back the list exactly when it fits the parser's table and holds no page zero. */
  lemma RoundTripIff(ps: seq<nat>, indent: string, cap: nat)
    requires Words(ps) && Separators(indent) && forall i :: 0 <= i < |ps| ==> ps[i] % PAGE == 0
    ensures Take(Values(Typed(DumpRows(ps), indent), 0), cap) == ps <==> |ps| <= cap && 0 !in ps
  {
    DumpThenParse(ps, indent);
    KeptCount(ps, 0);
    assert ps[0..] == ps;
  }

  // ------------------------------------------------- a line that is cut short

  /** Leading digits of a number are worth at most a sixteenth of it. */
  lemma {:induction false} LeadingDigits(v: nat, j: nat)
    requires v < TWO64 && j < |Digits(v)|
    ensures DigitsValue(Digits(v)[..j]) <= v / 16
  {
    if v < 16 {
      assert Digits(v)[..0] == "";
    } else if j == |Digits(v)| - 1 {
      DigitsValueIs(v / 16);
      assert Digits(v)[..j] == Digits(v / 16);
    } else {
      LeadingDigits(v / 16, j);
      assert Digits(v)[..j] == Digits(v / 16)[..j];
    }
  }

  /** A line that ends inside a token yields nothing from there on, or one smaller address. */
  lemma CutToken(line: string, p: nat, before: string, v: nat)
    requires p <= |line| && line[p..] < before + HexText(v) && Separators(before) && 0 < v < TWO64
    ensures var vs := Values(line, p); |vs| <= 1 && (|vs| == 1 ==> vs[0] < v)
  {
    hide Digits, DigitsValue;
    var s, q := line[p..], p + |before|;
    assert forall i :: p <= i < |line| ==> line[i] == s[i - p];
    if |line| <= q {
      SepEndIs(line, p, |line|);
    } else {
      assert line[q] == '0';
      SepEndIs(line, p, q);
      if |line| == q + 1 {
        CutZero(line, q);
      } else {
        CutDigits(line, q, v);
      }
    }
  }

  lemma CutZero(line: string, q: nat)
    requires |line| == q + 1 && line[q] == '0'
    ensures TokenStop(line, q) == |line| && TokenValue(line, q) == 0
  {
    HexEndIs(line, q, |line|);
    assert line[q..|line|] == "0";
    assert DigitsValue("0"[..0]) == 0;
  }

  lemma CutDigits(line: string, q: nat, v: nat)
    requires q + 2 <= |line| && line[q..] < HexText(v) && v < TWO64
    ensures TokenStop(line, q) == |line| && TokenValue(line, q) <= v / 16
  {
    hide Digits, DigitsValue;
    var t, ds := line[q..], Digits(v);
    assert line[q] == t[0] == '0' && line[q + 1] == t[1] == 'x';
    assert forall i :: q + 2 <= i < |line| ==> line[i] == t[i - q] == ds[i - q - 2];
    HexEndIs(line, q + 2, |line|);
    assert line[q + 2..|line|] == ds[..|line| - q - 2];
    LeadingDigits(v, |line| - q - 2);
  }

  lemma PastPrefix(s: string, tok: string, rest: string)
    requires s <= tok + rest && |s| >= |tok|
    ensures s == tok + s[|tok|..] && s[|tok|..] <= rest
    ensures s < tok + rest ==> s[|tok|..] < rest
    ensures s == tok + rest ==> s[|tok|..] == rest
  {
    assert s == (tok + rest)[..|s|];
    assert s[|tok|..] == rest[..|s| - |tok|];
  }

  /** A line that breaks off behind a whole token goes on with a separator, if at all. */
  lemma WholeToken(line: string, p: nat, ts: seq<Token>, k: nat)
    requires WellSeparated(ts) && k < |ts| && p <= |line| && line[p..] <= RenderFrom(ts, k)
    requires |line| - p >= |ts[k].before| + |HexText(ts[k].value)|
    ensures var r := p + |ts[k].before| + |HexText(ts[k].value)|;
            && line[r..] <= RenderFrom(ts, k + 1)
            && (line[p..] < RenderFrom(ts, k) ==> line[r..] < RenderFrom(ts, k + 1))
            && (line[p..] == RenderFrom(ts, k) ==> line[r..] == RenderFrom(ts, k + 1))
            && Values(line, p) == Keep(ts[k].value) + Values(line, r)
  {
    hide HexText, Values, Keep, RenderFrom, WellSeparated;
    var tok, rest := ts[k].before + HexText(ts[k].value), RenderFrom(ts, k + 1);
    var r := p + |tok|;
    TokenInFront(ts, k);
    PastPrefix(line[p..], tok, rest);
    assert line[r..] == line[p..][|tok|..];
    ParseToken(line, p, ts[k], line[r..], r);
  }

  /** The text from a token on is the token, and then nothing or a separator. */
  lemma TokenInFront(ts: seq<Token>, k: nat)
    requires WellSeparated(ts) && k < |ts|
    ensures Separators(ts[k].before) && ts[k].value < TWO64
    ensures var rest := RenderFrom(ts, k + 1);
            RenderFrom(ts, k) == ts[k].before + HexText(ts[k].value) + rest && (rest == "" || IsSep(rest[0]))
  {
    hide HexText;
    if k + 1 < |ts| {
      assert RenderFrom(ts, k + 1)[0] == ts[k + 1].before[0];
    }
  }

  ghost predicate PagesOf(ts: seq<Token>, ps: seq<nat>) {
    |ts| == |ps| && forall i :: 0 <= i < |ts| ==> ts[i].value == ps[i] && ps[i] % PAGE == 0
  }

  /** A line of non-zero pages that is cut short does not parse to those pages. */
  lemma {:induction false} CutParsesDifferently(line: string, p: nat, ts: seq<Token>, ps: seq<nat>, k: nat)
    requires WellSeparated(ts) && PagesOf(ts, ps) && 0 !in ps && k <= |ts|
    requires p <= |line| && line[p..] < RenderFrom(ts, k)
    ensures Values(line, p) != ps[k..]
    decreases |ts| - k
  {
    hide Values, HexText, RenderFrom;
    NothingToCut(ts, k, line[p..]);
    var t := ts[k];
    assert ps[k..] == [ps[k]] + ps[k + 1..] && ps[k] in ps;
    if |line| - p >= |t.before| + |HexText(t.value)| {
      var r := p + |t.before| + |HexText(t.value)|;
      WholeToken(line, p, ts, k);
      CutParsesDifferently(line, r, ts, ps, k + 1);
      assert ([ps[k]] + Values(line, r))[1..] == Values(line, r) && ps[k..][1..] == ps[k + 1..];
    } else {
      TokenCut(line, p, ts, k);
      CutToken(line, p, t.before, t.value);
    }
  }

  lemma NothingToCut(ts: seq<Token>, k: nat, s: string)
    requires k <= |ts| && s < RenderFrom(ts, k)
    ensures k < |ts|
  {
  }

  lemma TokenCut(line: string, p: nat, ts: seq<Token>, k: nat)
    requires k < |ts| && p <= |line| && line[p..] < RenderFrom(ts, k)
    requires |line| - p < |ts[k].before| + |HexText(ts[k].value)|
    ensures line[p..] < ts[k].before + HexText(ts[k].value)
  {
    hide HexText;
  }

  /** Every non-zero page whose text the line holds whole is among the parsed ones. */
  lemma {:induction false} WholeIsParsed(line: string, p: nat, ts: seq<Token>, ps: seq<nat>, k: nat, i: nat)
    requires WellSeparated(ts) && PagesOf(ts, ps) && k <= i < |ts| && ps[i] != 0
    requires p <= |line| && line[p..] <= RenderFrom(ts, k)
    requires |line| - p >= |RenderFrom(ts, k)| - |RenderFrom(ts, i + 1)|
    ensures ps[i] in Values(line, p)
    decreases i - k
  {
    hide Values, HexText;
    var t := ts[k];
    RestShrinks(ts, k + 1, i + 1);
    WholeToken(line, p, ts, k);
    if k < i {
      WholeIsParsed(line, p + |t.before| + |HexText(t.value)|, ts, ps, k + 1, i);
    }
  }

  lemma {:induction false} RestShrinks(ts: seq<Token>, k: nat, i: nat)
    requires k <= i <= |ts|
    ensures |RenderFrom(ts, i)| <= |RenderFrom(ts, k)|
    decreases i - k
  {
    if k < i {
      RestShrinks(ts, k + 1, i);
    }
  }

  lemma {:induction false} ParsedNonZero(line: string, p: nat)
    requires p <= |line|
    ensures 0 !in Values(line, p)
    decreases |line| - p
  {
    hide TokenValue;
    var q := SepEnd(line, p);
    if q < |line| && TokenStop(line, q) != q {
      ParsedNonZero(line, TokenStop(line, q));
    }
  }

  /** The text on screen is the rendering of its tokens. */
  lemma TypedTokens(ps: seq<nat>, indent: string)
    requires Words(ps) && Separators(indent) && ps != []
    ensures var ts := Tokens(ps, |ps|, indent);
            WellSeparated(ts) && Typed(DumpRows(ps), indent) == Render(ts) == RenderFrom(ts, 0)
  {
    var n, w, ts := |ps|, Wrapped(ps, |ps|), Tokens(ps, |ps|, indent);
    TypedIsRendered(ps, n - 1, indent);
    TokensSeparated(ps, n, indent);
    ItemLength(ps, n - 1);
    assert w.line != "";
    assert DumpRows(ps)[..|w.rows|] == w.rows;
    RenderSplit(ts, 0);
    assert Render(ts[..0]) == "";
  }

  /** Blanks that can be typed into the line editor: it takes no tabs. */
  ghost predicate Blanks(s: string) {
    forall i :: 0 <= i < |s| ==> s[i] == ' ' || s[i] == ','
  }

  lemma {:induction false} RenderedPrintable(ts: seq<Token>)
    requires forall k :: 0 <= k < |ts| ==> Blanks(ts[k].before)
    ensures Printable(Render(ts))
  {
    if ts != [] {
      var front, t := ts[..|ts| - 1], ts[|ts| - 1];
      RenderedPrintable(front);
      assert Printable(Digits(t.value));
      assert Blanks(t.before);
    }
  }

  lemma {:induction false} TokensBlank(ps: seq<nat>, i: nat, indent: string)
    requires i <= |ps| && Blanks(indent)
    ensures forall k :: 0 <= k < i ==> Blanks(Tokens(ps, i, indent)[k].before)
  {
    if i > 0 {
      TokensBlank(ps, i - 1, indent);
    }
  }

  /** Every character of the dump can be typed. */
  lemma DumpPrintable(ps: seq<nat>, indent: string)
    requires Words(ps) && Blanks(indent)
    ensures Printable(Typed(DumpRows(ps), indent)) && Separators(indent)
  {
    if ps == [] {
      NothingDumped(indent);
    } else {
      TypedTokens(ps, indent);
      TokensBlank(ps, |ps|, indent);
      RenderedPrintable(Tokens(ps, |ps|, indent));
    }
  }

  /** Where the text of the address at `i` ends. */
  function TextEnd(ps: seq<nat>, i: nat, indent: string): nat
    requires i < |ps|
  {
    |Render(Tokens(ps, i + 1, indent))|
  }

  /** Read through a buffer of `limit` characters, the typed dump parses back to the list exactly when the buffer
      holds all of it and no page is zero: a cut always takes a digit off the last address it leaves. */
  lemma CutRoundTripIff(ps: seq<nat>, indent: string, limit: nat, cap: nat)
    requires Words(ps) && Separators(indent) && forall i :: 0 <= i < |ps| ==> ps[i] % PAGE == 0
    requires limit < 4 * cap
    ensures var text := Typed(DumpRows(ps), indent);
            Take(Values(Take(text, limit), 0), cap) == ps <==> 0 !in ps && |text| <= limit
  {
    hide Values, Typed, DumpRows, Words;
    var text := Typed(DumpRows(ps), indent);
    var line := Take(text, limit);
    ValuesCost(line, 0);
    ParsedNonZero(line, 0);
    assert Take(Values(line, 0), cap) == Values(line, 0);
    if |text| <= limit {
      DumpThenParse(ps, indent);
      KeptCount(ps, 0);
      assert ps[0..] == ps;
    } else if 0 !in ps {
      NothingDumped(indent);
      TypedTokens(ps, indent);
      var ts := Tokens(ps, |ps|, indent);
      assert line[0..] < RenderFrom(ts, 0);
      CutParsesDifferently(line, 0, ts, ps, 0);
      assert ps[0..] == ps;
    }
  }

  lemma NothingDumped(indent: string)
    ensures Typed(DumpRows([]), indent) == ""
  {
  }

  /** And whatever the length of the dump, each non-zero page whose text ends inside the buffer is parsed. */
  lemma CutKeepsWhole(ps: seq<nat>, indent: string, limit: nat, cap: nat, i: nat)
    requires Words(ps) && Separators(indent) && forall i :: 0 <= i < |ps| ==> ps[i] % PAGE == 0
    requires limit < 4 * cap && i < |ps| && ps[i] != 0 && TextEnd(ps, i, indent) <= limit
    ensures ps[i] in Take(Values(Take(Typed(DumpRows(ps), indent), limit), 0), cap)
  {
    hide Values, Typed, DumpRows, Words, Tokens, Render, RenderFrom, HexText, WellSeparated, Separators;
    var text := Typed(DumpRows(ps), indent);
    var line, ts := Take(text, limit), Tokens(ps, |ps|, indent);
    ValuesCost(line, 0);
    TakeRest(Values(line, 0), [], cap);
    assert Values(line, 0) + [] == Values(line, 0);
    TypedTokens(ps, indent);
    FirstTokens(ps, i + 1, |ps|, indent);
    RenderSplit(ts, i + 1);
    assert line[0..] == line <= text;
    WholeIsParsed(line, 0, ts, ps, 0, i);
  }

  lemma {:induction false} FirstTokens(ps: seq<nat>, i: nat, n: nat, indent: string)
    requires i <= n <= |ps|
    ensures Tokens(ps, n, indent)[..i] == Tokens(ps, i, indent)
  {
    hide Wraps;
    if i < n {
      FirstTokens(ps, i, n - 1, indent);
    }
  }
}
