/** The line parser that reads bad addresses from the keyboard, and when its loop terminates. */
module AddressLines {
  import opened Common

  predicate IsSep(c: char) {
    c == ' ' || c == '\t' || c == ','
  }

  predicate IsHex(c: char) {
    '0' <= c <= '9' || 'a' <= c <= 'f' || 'A' <= c <= 'F'
  }

  function HexValue(c: char): (v: nat)
    ensures v < 16
  {
    if '0' <= c <= '9' then (c - '0') as nat
    else if 'a' <= c <= 'f' then (c - 'a') as nat + 10
    else if 'A' <= c <= 'F' then (c - 'A') as nat + 10
    else 0
  }

  /** Value of a run of digits in 64-bit arithmetic. */
  function DigitsValue(s: string): (v: nat)
    ensures v < TWO64
  {
    if s == [] then 0 else AddDigit(DigitsValue(s[..|s| - 1]), s[|s| - 1])
  }

  /** The first position from `p` on that holds no separator. */
  function SepEnd(line: string, p: nat): (q: nat)
    requires p <= |line|
    ensures p <= q <= |line| && (q < |line| ==> !IsSep(line[q]))
    ensures forall i :: p <= i < q ==> IsSep(line[i])
    decreases |line| - p
  {
    if p < |line| && IsSep(line[p]) then SepEnd(line, p + 1) else p
  }

  /** The first position from `p` on that holds no hex digit. */
  function HexEnd(line: string, p: nat): (q: nat)
    requires p <= |line|
    ensures p <= q <= |line| && (q < |line| ==> !IsHex(line[q]))
    ensures forall i :: p <= i < q ==> IsHex(line[i])
    decreases |line| - p
  {
    if p < |line| && IsHex(line[p]) then HexEnd(line, p + 1) else p
  }

  predicate IsX(c: char) {
    c == 'x' || c == 'X'
  }

  /** Where the digits of the token at `q` start: behind a 0x, if there is one. */
  function DigitsStart(line: string, q: nat): (d: nat)
    requires q < |line|
    ensures d <= |line|
  {
    if q + 1 < |line| && line[q] == '0' && IsX(line[q + 1]) then q + 2 else q
  }

  function TokenStop(line: string, q: nat): nat
    requires q < |line|
  {
    HexEnd(line, DigitsStart(line, q))
  }

  function TokenValue(line: string, q: nat): nat
    requires q < |line|
  {
    DigitsValue(line[DigitsStart(line, q)..TokenStop(line, q)])
  }

  /** A page address is kept unless it is zero. */
  function Keep(v: nat): seq<nat> {
    if AlignDown(v) != 0 then [AlignDown(v)] else []
  }

  /** The page addresses from `p` on, up to the first place where the parser stops making progress. */
  function Values(line: string, p: nat): seq<nat>
    requires p <= |line|
    decreases |line| - p
  {
    var q := SepEnd(line, p);
    if q == |line| || TokenStop(line, q) == q then []
    else Keep(TokenValue(line, q)) + Values(line, TokenStop(line, q))
  }

  /** The x of a 0x that starts a token. */
  predicate PrefixX(line: string, i: nat)
    requires i < |line|
  {
    IsX(line[i]) && i >= 1 && line[i - 1] == '0' && (i == 1 || IsSep(line[i - 2]))
  }

  /** A character the parser can get past. */
  predicate GoodChar(line: string, i: nat)
    requires i < |line|
  {
    IsSep(line[i]) || IsHex(line[i]) || PrefixX(line, i)
  }

  predicate GoodLine(line: string) {
    forall i :: 0 <= i < |line| ==> GoodChar(line, i)
  }

  /** Where a turn of the parse loop can start: not inside a token. */
  predicate Boundary(line: string, pos: nat) {
    pos <= |line| && (pos == 0 || pos == |line| || (!IsHex(line[pos]) && !PrefixX(line, pos)))
  }

  // ----------------------------------------------------------------- methods

  /** The whitespace loop in front of a number. */
  method SkipBlanks(line: string, start: nat) returns (pos: nat)
    requires start <= |line|
    ensures start <= pos <= |line| && (pos < |line| ==> line[pos] != ' ' && line[pos] != '\t')
    ensures start < |line| && !IsSep(line[start]) ==> pos == start
  {
    pos := start;
    while pos < |line| && (line[pos] == ' ' || line[pos] == '\t')
      invariant start <= pos <= |line|
      invariant start < |line| && !IsSep(line[start]) ==> pos == start
    {
      pos := pos + 1;
    }
  }

  function AddDigit(v: nat, c: char): (r: nat)
    ensures r < TWO64
  {
    (v * 16 + HexValue(c)) % TWO64
  }

  lemma DigitsStep(line: string, p: nat, pos: nat)
    requires p <= pos < |line|
    ensures DigitsValue(line[p..pos + 1]) == AddDigit(DigitsValue(line[p..pos]), line[pos])
  {
    assert line[p..pos + 1][..pos - p] == line[p..pos];
  }

  /** The digit loop. */
  method ParseDigits(line: string, start: nat) returns (v: nat, pos: nat)
    requires start <= |line|
    ensures pos == HexEnd(line, start) && v == DigitsValue(line[start..pos])
  {
    v, pos := 0, start;
    while pos < |line| && IsHex(line[pos])
      invariant start <= pos <= |line| && HexEnd(line, pos) == HexEnd(line, start)
      invariant v == DigitsValue(line[start..pos])
    {
      DigitsStep(line, start, pos);
      v := AddDigit(v, line[pos]);
      pos := pos + 1;
    }
  }

  method ParseHex(line: string, start: nat) returns (v: nat, pos: nat)
    requires start < |line| && !IsSep(line[start])
    ensures pos == TokenStop(line, start) && v == TokenValue(line, start)
  {
    var p := SkipBlanks(line, start);
    if p + 1 < |line| && line[p] == '0' && (line[p + 1] == 'x' || line[p + 1] == 'X') {
      p := p + 2;
    }
    v, pos := ParseDigits(line, p);
  }

  method Append(out: array<nat>, n: nat, v: nat) returns (m: nat)
    requires n < out.Length
    modifies out
    ensures m <= out.Length && out[..m] == old(out[..n]) + Keep(v)
  {
    m := n;
    var page := AlignDown(v);
    if page != 0 {
      out[n] := page;
      m := n + 1;
    }
  }

  /** The separator loop in front of an address. */
  method SkipSeparators(line: string, start: nat) returns (pos: nat)
    requires start <= |line|
    ensures pos == SepEnd(line, start)
  {
    pos := start;
    while pos < |line| && (line[pos] == ' ' || line[pos] == '\t' || line[pos] == ',')
      invariant start <= pos <= |line| && SepEnd(line, pos) == SepEnd(line, start)
    {
      pos := pos + 1;
    }
  }

  /** One turn of the loop: separators, a number, and the address if it is not zero. */
  method ParseOne(line: string, p: nat, out: array<nat>, n: nat) returns (r: nat, m: nat)
    requires GoodLine(line) && p < |line| && Boundary(line, p) && n < out.Length
    modifies out
    ensures p < r <= |line| && Boundary(line, r) && m <= out.Length
    ensures Turn(line, Cursor(p, n)) == Cursor(r, m)
    ensures out[..m] + Values(line, r) == old(out[..n]) + Values(line, p)
  {
    var q := SkipSeparators(line, p);
    if q == |line| {
      return q, n;
    }
    GoodStart(line, p, q);
    TurnEnds(line, q);
    var v;
    v, r := ParseHex(line, q);
    Assoc(out[..n], Keep(v), Values(line, r));
    m := Append(out, n, v);
  }

  /** On a line of good characters every turn of the loop moves on, so the loop ends with the first values
      that fit. Its turns are those of `After` below. */
  method ParseAddresses(line: string, out: array<nat>) returns (n: nat)
    requires GoodLine(line)
    modifies out
    ensures n <= out.Length && out[..n] == Take(Values(line, 0), out.Length)
  {
    n := 0;
    var p := 0;
    ghost var turns := 0;
    while p < |line| && n < out.Length
      invariant p <= |line| && n <= out.Length && Boundary(line, p)
      invariant After(line, turns) == Cursor(p, n)
      invariant out[..n] + Values(line, p) == Values(line, 0)
      decreases |line| - p
    {
      p, n := ParseOne(line, p, out, n);
      turns := turns + 1;
    }
    assert p == |line| ==> out[..n] + Values(line, p) == out[..n];
  }

  /** At a boundary of a good line, what follows the separators is a hex digit. */
  lemma GoodStart(line: string, p: nat, q: nat)
    requires GoodLine(line) && Boundary(line, p) && p <= q < |line| && !IsSep(line[q])
    requires forall i :: p <= i < q ==> IsSep(line[i])
    ensures IsHex(line[q])
  {
    assert GoodChar(line, q);
  }

  /** A token that starts with a digit moves on and ends at a boundary. */
  lemma TurnEnds(line: string, q: nat)
    requires q < |line| && IsHex(line[q])
    ensures q < TokenStop(line, q) && Boundary(line, TokenStop(line, q))
  {
  }

  // ------------------------------------------------- when the loop terminates

  datatype Cursor = Cursor(pos: nat, found: nat)

  /** One turn of the parse loop, on any line at all. */
  function Turn(line: string, c: Cursor): (r: Cursor)
    requires c.pos <= |line|
    ensures c.pos <= r.pos <= |line|
  {
    var q := SepEnd(line, c.pos);
    if q == |line| then Cursor(q, c.found)
    else Cursor(TokenStop(line, q), c.found + |Keep(TokenValue(line, q))|)
  }

  function After(line: string, turns: nat): (c: Cursor)
    ensures c.pos <= |line|
  {
    if turns == 0 then Cursor(0, 0) else Turn(line, After(line, turns - 1))
  }

  /** The loop test fails after some number of turns. */
  ghost predicate Stops(line: string, cap: nat) {
    exists k :: After(line, k).pos == |line| || After(line, k).found >= cap
  }

  /** A token that yields an address is at least four characters long. */
  lemma AddressCost(line: string, q: nat)
    requires q < |line|
    ensures q <= TokenStop(line, q) <= |line|
    ensures 4 * |Keep(TokenValue(line, q))| <= TokenStop(line, q) - q
  {
    var d, e := DigitsStart(line, q), TokenStop(line, q);
    if e < d + 4 {
      FewDigits(line[d..e]);
    }
  }

  lemma FewDigits(s: string)
    requires |s| < 4
    ensures DigitsValue(s) < PAGE
  {
    hide DigitsValue;
    if s == "" {
      NoDigits();
    } else {
      var t := s[..|s| - 1];
      if t == "" {
        NoDigits();
      } else {
        var u := t[..|t| - 1];
        if u == "" {
          NoDigits();
        } else {
          NoDigits();
          OneMoreDigit(u, 1);
        }
        OneMoreDigit(t, 16);
      }
      OneMoreDigit(s, 256);
    }
  }

  lemma NoDigits()
    ensures DigitsValue("") == 0
  {
  }

  lemma OneMoreDigit(s: string, bound: nat)
    requires s != "" && DigitsValue(s[..|s| - 1]) < bound
    ensures DigitsValue(s) < 16 * bound
  {
    hide DigitsValue;
    LastDigit(s);
    AddDigitBound(DigitsValue(s[..|s| - 1]), s[|s| - 1]);
  }

  lemma LastDigit(s: string)
    requires s != ""
    ensures DigitsValue(s) == AddDigit(DigitsValue(s[..|s| - 1]), s[|s| - 1])
  {
  }

  lemma AddDigitBound(v: nat, c: char)
    ensures AddDigit(v, c) <= 16 * v + 15
  {
  }

  /** No line yields more addresses than a quarter of its characters. */
  lemma {:induction false} ValuesCost(line: string, p: nat)
    requires p <= |line|
    ensures 4 * |Values(line, p)| <= |line| - p
    decreases |line| - p
  {
    hide TokenStop, TokenValue, Keep, DigitsStart;
    var q := SepEnd(line, p);
    if q < |line| {
      AddressCost(line, q);
      if TokenStop(line, q) != q {
        ValuesCost(line, TokenStop(line, q));
      }
    }
  }

  /** A turn from a boundary ends at a boundary, and an address costs at least four characters. */
  lemma TurnKeepsBoundary(line: string, c: Cursor)
    requires c.pos <= |line| && Boundary(line, c.pos) && 4 * c.found <= c.pos
    ensures var r := Turn(line, c); Boundary(line, r.pos) && 4 * r.found <= r.pos
  {
    hide TokenValue, Keep;
    var q := SepEnd(line, c.pos);
    if q < |line| {
      AddressCost(line, q);
      if IsHex(line[q]) {
        TurnEnds(line, q);
      } else {
        assert TokenStop(line, q) == q;
        assert q > c.pos ==> IsSep(line[q - 1]);
      }
    }
  }

  /** No turn gets past a bad character. */
  lemma BadCharBlocks(line: string, c: Cursor, i: nat)
    requires c.pos <= i < |line| && Boundary(line, c.pos) && !GoodChar(line, i)
    ensures Turn(line, c).pos <= i
  {
    var q := SepEnd(line, c.pos);
    assert q <= i;
    if DigitsStart(line, q) == q + 2 {
      assert q > 0 ==> IsSep(line[q - 1]);
      assert PrefixX(line, q + 1) && IsHex(line[q]);
    }
  }

  lemma {:induction false} AllTurnsBlocked(line: string, i: nat, k: nat)
    requires i < |line| && !GoodChar(line, i)
    ensures var c := After(line, k); c.pos <= i && Boundary(line, c.pos) && 4 * c.found <= c.pos
  {
    hide Turn, GoodChar, Boundary;
    if k == 0 {
      LineStart(line);
    } else {
      AllTurnsBlocked(line, i, k - 1);
      TurnKeepsBoundary(line, After(line, k - 1));
      BadCharBlocks(line, After(line, k - 1), i);
    }
  }

  lemma {:induction false} GoodTurnsProgress(line: string, k: nat)
    requires GoodLine(line) && k <= |line|
    ensures var c := After(line, k); c.pos >= k && Boundary(line, c.pos) && 4 * c.found <= c.pos
  {
    hide Turn, GoodLine, Boundary;
    if k == 0 {
      assert Boundary(line, 0) by { LineStart(line); }
    } else {
      GoodTurnsProgress(line, k - 1);
      TurnKeepsBoundary(line, After(line, k - 1));
      GoodTurnMoves(line, After(line, k - 1));
    }
  }

  lemma LineStart(line: string)
    ensures Boundary(line, 0)
  {
  }

  lemma GoodTurnMoves(line: string, c: Cursor)
    requires GoodLine(line) && c.pos <= |line| && Boundary(line, c.pos)
    ensures Turn(line, c).pos == |line| || Turn(line, c).pos > c.pos
  {
    var q := SepEnd(line, c.pos);
    if q < |line| {
      GoodStart(line, c.pos, q);
      TurnEnds(line, q);
    }
  }

  lemma GoodStops(line: string, cap: nat)
    requires GoodLine(line)
    ensures Stops(line, cap)
  {
    GoodTurnsProgress(line, |line|);
    assert After(line, |line|).pos == |line|;
  }

  /** For a table that no line of this length can fill, the parse loop terminates exactly on the lines made of good
      characters; on any other line it never gets past the first bad one. The original's table of 256 is such a table
      for its line of at most 511 characters. */
  lemma StopsIff(line: string, cap: nat)
    requires |line| < 4 * cap
    ensures Stops(line, cap) <==> GoodLine(line)
  {
    hide GoodChar;
    if GoodLine(line) {
      GoodStops(line, cap);
    } else {
      var i :| 0 <= i < |line| && !GoodChar(line, i);
      forall k ensures After(line, k).pos < |line| && After(line, k).found < cap {
        AllTurnsBlocked(line, i, k);
      }
    }
  }

  /** So only on those lines does it terminate whatever the table. */
  lemma StopsForEveryTableIff(line: string)
    ensures (forall cap: nat :: Stops(line, cap)) <==> GoodLine(line)
  {
    if GoodLine(line) {
      forall cap: nat ensures Stops(line, cap) {
        GoodStops(line, cap);
      }
    } else {
      StopsIff(line, |line| + 1);
    }
  }
}
