/** The badmem.txt scanner, against a specification that parses one line at a time. */
module BadmemParse {
  import opened Common
  import opened MaskPages

  const DESIG_MAX: nat := 16

  // --------------------------------------------------------- character runs

  datatype Class = Blank | Decimal | Hex | Name

  predicate In(c: char, k: Class) {
    match k
    case Blank => c == ' ' || c == '\t'
    case Decimal => '0' <= c <= '9'
    case Hex => '0' <= c <= '9' || 'a' <= c <= 'f' || 'A' <= c <= 'F'
    case Name => 'A' <= c <= 'Z' || 'a' <= c <= 'z' || '0' <= c <= '9' || c == '_' || c == '-'
  }

  /** The end of the run of characters of a class that starts at `p`. */
  function RunEnd(s: string, p: nat, k: Class): (q: nat)
    requires p <= |s|
    ensures p <= q <= |s|
    decreases |s| - p
  {
    if p < |s| && In(s[p], k) then RunEnd(s, p + 1, k) else p
  }

  /** The position of the next newline, or the end. */
  function LineEnd(s: string, p: nat): (e: nat)
    requires p <= |s|
    ensures p <= e <= |s| && (e < |s| ==> s[e] == '\n')
    decreases |s| - p
  {
    if p < |s| && s[p] != '\n' then LineEnd(s, p + 1) else p
  }

  function DigitValue(c: char): nat {
    if '0' <= c <= '9' then (c - '0') as nat
    else if 'a' <= c <= 'f' then (c - 'a') as nat + 10
    else if 'A' <= c <= 'F' then (c - 'A') as nat + 10
    else 0
  }

  /** Value of a run of digits in 64-bit arithmetic. */
  function Value(s: string, k: Class): nat {
    if s == "" then 0 else AddDigit(Value(s[..|s| - 1], k), k, s[|s| - 1])
  }

  function AddDigit(v: nat, k: Class, c: char): nat {
    ((if k.Hex? then v * 16 else v * 10) + DigitValue(c)) % TWO64
  }

  // --------------------------------------------------------------- one line

  datatype Number = NoNumber | Number(value: nat, end: nat)

  function NumberAt(s: string, p: nat): (n: Number)
    requires p <= |s|
    ensures n.Number? ==> p < n.end <= |s|
  {
    if p + 1 < |s| && s[p] == '0' && (s[p + 1] == 'x' || s[p + 1] == 'X') then
      var e := RunEnd(s, p + 2, Hex);
      if e == p + 2 then NoNumber else Number(Value(s[p + 2..e], Hex), e)
    else
      var e := RunEnd(s, p, Decimal);
      if e == p then NoNumber else Number(Value(s[p..e], Decimal), e)
  }

  /** Start rounded down, length rounded up to whole pages, in 64-bit arithmetic. */
  function Aligned(addr: nat, len: nat): MemRange {
    var start := AlignDown(addr);
    var n := AlignDown((len + (addr - start) + PAGE - 1) % TWO64);
    MemRange(start, if n == 0 then PAGE else n)
  }

  function Lower(c: char): char {
    if 'A' <= c <= 'Z' then c + ('a' - 'A') else c
  }

  predicate KeywordAt(s: string, p: nat) {
    p + 5 <= |s| && Lower(s[p]) == 'c' && Lower(s[p + 1]) == 'h' && Lower(s[p + 2]) == 'i'
    && Lower(s[p + 3]) == 'p' && s[p + 4] == ':'
  }

  datatype LineResult = Nothing | RangeLine(range: MemRange) | ChipLine(designator: string)

  /** A chip directive behind its '#'; any other comment says nothing. */
  function CommentAt(s: string, p: nat): (r: LineResult)
    requires p <= |s|
    ensures !r.RangeLine?
  {
    var k := RunEnd(s, p, Blank);
    if !KeywordAt(s, k) then Nothing
    else
      var d := RunEnd(s, k + 5, Blank);
      var e := RunEnd(s, d, Name);
      if d < e < d + DESIG_MAX then ChipLine(s[d..e]) else Nothing
  }

  /** The length and the end of the line, behind the comma. */
  function LengthAt(s: string, p: nat, addr: nat): (r: LineResult)
    requires p <= |s|
    ensures !r.ChipLine?
  {
    match NumberAt(s, p)
    case NoNumber => Nothing
    case Number(len, b) =>
      var e := RunEnd(s, b, Blank);
      if e < |s| && s[e] != '\r' && s[e] != '\n' && s[e] != '#' then Nothing
      else RangeLine(Aligned(addr, len))
  }

  function RangeAt(s: string, p: nat): (r: LineResult)
    requires p <= |s|
    ensures !r.ChipLine?
  {
    match NumberAt(s, p)
    case NoNumber => Nothing
    case Number(addr, a) =>
      var c := RunEnd(s, a, Blank);
      if c >= |s| || s[c] != ',' then Nothing else LengthAt(s, RunEnd(s, c + 1, Blank), addr)
  }

  /** What the line that starts at `p` says. */
  function LineAt(s: string, p: nat): LineResult
    requires p <= |s|
  {
    var q := RunEnd(s, p, Blank);
    if q == |s| || s[q] == '\r' || s[q] == '\n' then Nothing
    else if s[q] == '#' then CommentAt(s, q + 1)
    else RangeAt(s, q)
  }

  /** The results of all lines from `p` on, read in place. */
  function Scan(s: string, p: nat): seq<LineResult>
    requires p <= |s|
    decreases |s| - p
  {
    if p == |s| then []
    else
      var e := LineEnd(s, p);
      [LineAt(s, p)] + if e < |s| then Scan(s, e + 1) else []
  }

  function RangeOf(r: LineResult): seq<MemRange> {
    if r.RangeLine? then [r.range] else []
  }

  function ChipOf(r: LineResult): seq<string> {
    if r.ChipLine? then [r.designator] else []
  }

  function RangesOf(rs: seq<LineResult>): seq<MemRange> {
    if rs == [] then [] else RangeOf(rs[0]) + RangesOf(rs[1..])
  }

  function ChipsOf(rs: seq<LineResult>): seq<string> {
    if rs == [] then [] else ChipOf(rs[0]) + ChipsOf(rs[1..])
  }

  // ----------------------------------------------------------------- methods

  /** The position behind the newline that ends the line at `p`. */
  function NextLine(s: string, p: nat): (q: nat)
    requires p <= |s|
    ensures p <= q <= |s| && (p < |s| ==> p < q)
  {
    var e := LineEnd(s, p);
    if e < |s| then e + 1 else e
  }

  /** Still on the line that starts at `start`. */
  predicate SameLine(s: string, start: nat, p: nat) {
    start <= p <= |s| && LineEnd(s, p) == LineEnd(s, start)
  }

  method SkipRun(s: string, start: nat, k: Class) returns (p: nat)
    requires start <= |s|
    ensures p == RunEnd(s, start, k) && SameLine(s, start, p)
  {
    p := start;
    while p < |s| && In(s[p], k)
      invariant SameLine(s, start, p) && RunEnd(s, p, k) == RunEnd(s, start, k)
    {
      p := p + 1;
    }
  }

  method SkipLine(s: string, start: nat) returns (p: nat)
    requires start <= |s|
    ensures p == NextLine(s, start)
  {
    p := start;
    while p < |s| && s[p] != '\n'
      invariant SameLine(s, start, p)
    {
      p := p + 1;
    }
    if p < |s| {
      p := p + 1;
    }
  }

  method ParseDigits(s: string, start: nat, k: Class) returns (v: nat, p: nat)
    requires start <= |s|
    ensures p == RunEnd(s, start, k) && v == Value(s[start..p], k) && SameLine(s, start, p)
  {
    hide AddDigit, Value;
    NoDigits(s, start, k);
    v, p := 0, start;
    while p < |s| && In(s[p], k)
      invariant SameLine(s, start, p) && RunEnd(s, p, k) == RunEnd(s, start, k)
      invariant v == Value(s[start..p], k)
    {
      ValueStep(s, start, p, k);
      v := AddDigit(v, k, s[p]);
      p := p + 1;
    }
  }

  lemma NoDigits(s: string, start: nat, k: Class)
    requires start <= |s|
    ensures Value(s[start..start], k) == 0
  {
  }

  lemma ValueStep(s: string, start: nat, p: nat, k: Class)
    requires start <= p < |s|
    ensures Value(s[start..p + 1], k) == AddDigit(Value(s[start..p], k), k, s[p])
  {
    assert s[start..p + 1][..p - start] == s[start..p];
  }

  /** Reads a number and moves behind it, or stays when there is none. */
  method ParseU64(s: string, start: nat) returns (n: Number, p: nat)
    requires start <= |s|
    ensures n == NumberAt(s, start) && SameLine(s, start, p) && (n.Number? ==> p == n.end)
  {
    var v, q;
    if start + 1 < |s| && s[start] == '0' && (s[start + 1] == 'x' || s[start + 1] == 'X') {
      v, q := ParseDigits(s, start + 2, Hex);
      if q == start + 2 {
        return NoNumber, start;
      }
      return Number(v, q), q;
    }
    v, q := ParseDigits(s, start, Decimal);
    if q == start {
      return NoNumber, start;
    }
    return Number(v, q), q;
  }

  /** Reads a name; fails, without moving, when it is empty or does not fit its field. */
  method ParseDesignator(s: string, start: nat) returns (d: Option<string>, p: nat)
    requires start <= |s|
    ensures SameLine(s, start, p)
    ensures var e := RunEnd(s, start, Name);
            d == if start < e < start + DESIG_MAX then Some(s[start..e]) else None
  {
    p := start;
    while p < |s| && In(s[p], Name)
      invariant SameLine(s, start, p) && p - start < DESIG_MAX && RunEnd(s, p, Name) == RunEnd(s, start, Name)
    {
      if p - start + 1 >= DESIG_MAX {
        return None, start;
      }
      p := p + 1;
    }
    d := if p == start then None else Some(s[start..p]);
  }

  lemma KeywordSameLine(s: string, p: nat)
    requires KeywordAt(s, p)
    ensures LineEnd(s, p + 5) == LineEnd(s, p)
  {
    assert LineEnd(s, p) == LineEnd(s, p + 1);
    assert LineEnd(s, p + 2) == LineEnd(s, p + 3);
    assert LineEnd(s, p + 4) == LineEnd(s, p + 5);
  }

  /** The '#' branch, behind the '#'; a full chip table leaves the directive unread. */
  method ParseComment(s: string, start: nat, room: bool) returns (r: LineResult, p: nat)
    requires start <= |s|
    ensures r == (if room then CommentAt(s, start) else Nothing) && SameLine(s, start, p)
  {
    hide RunEnd, LineEnd;
    r := Nothing;
    p := SkipRun(s, start, Blank);
    if KeywordAt(s, p) && room {
      KeywordSameLine(s, p);
      p := SkipRun(s, p + 5, Blank);
      var d;
      d, p := ParseDesignator(s, p);
      if d.Some? {
        r := ChipLine(d.value);
      }
    }
  }

  method ParseLength(s: string, start: nat, addr: nat) returns (r: LineResult, p: nat)
    requires start <= |s|
    ensures r == LengthAt(s, start, addr) && SameLine(s, start, p)
  {
    var len;
    len, p := ParseU64(s, start);
    if len.NoNumber? {
      return Nothing, p;
    }
    p := SkipRun(s, p, Blank);
    if p < |s| && s[p] != '\r' && s[p] != '\n' && s[p] != '#' {
      return Nothing, p;
    }
    return RangeLine(Aligned(addr, len.value)), p;
  }

  /** The address,length branch. */
  method ParseRange(s: string, start: nat) returns (r: LineResult, p: nat)
    requires start <= |s|
    ensures r == RangeAt(s, start) && SameLine(s, start, p)
  {
    hide RunEnd, NumberAt;
    var addr;
    addr, p := ParseU64(s, start);
    if addr.NoNumber? {
      return Nothing, p;
    }
    p := SkipRun(s, p, Blank);
    if p >= |s| || s[p] != ',' {
      return Nothing, p;
    }
    p := SkipRun(s, p + 1, Blank);
    r, p := ParseLength(s, p, addr.value);
  }

  /** What is kept of a line when one kind of table is full. */
  function Gate(r: LineResult, roomForRange: bool, roomForChip: bool): LineResult {
    if (r.RangeLine? && !roomForRange) || (r.ChipLine? && !roomForChip) then Nothing else r
  }

  /** One line, read as far as its kind has room for it. */
  method ParseLine(s: string, start: nat, roomForRange: bool, roomForChip: bool) returns (r: LineResult, p: nat)
    requires start <= |s|
    ensures r == Gate(LineAt(s, start), roomForRange, roomForChip) && SameLine(s, start, p)
  {
    hide RunEnd, CommentAt, RangeAt;
    p := SkipRun(s, start, Blank);
    if p == |s| || s[p] == '\r' || s[p] == '\n' {
      return Nothing, p;
    }
    if s[p] == '#' {
      r, p := ParseComment(s, p + 1, roomForChip);
      return;
    }
    if !roomForRange {
      return Nothing, p;
    }
    r, p := ParseRange(s, p);
  }

  lemma ScanStep(s: string, p: nat)
    requires p < |s|
    ensures RangesOf(Scan(s, p)) == RangeOf(LineAt(s, p)) + RangesOf(Scan(s, NextLine(s, p)))
    ensures ChipsOf(Scan(s, p)) == ChipOf(LineAt(s, p)) + ChipsOf(Scan(s, NextLine(s, p)))
  {
    assert Scan(s, p)[1..] == Scan(s, NextLine(s, p));
  }

  method PutRange(r: LineResult, ranges: array<MemRange>, n: nat) returns (m: nat)
    requires n <= ranges.Length && (r.RangeLine? ==> n < ranges.Length)
    modifies ranges
    ensures m <= ranges.Length && ranges[..m] == old(ranges[..n]) + RangeOf(r)
  {
    m := n;
    if r.RangeLine? {
      ranges[n] := r.range;
      m := n + 1;
    }
  }

  method PutChip(r: LineResult, chips: array<string>, n: nat) returns (m: nat)
    requires n <= chips.Length && (r.ChipLine? ==> n < chips.Length)
    modifies chips
    ensures m <= chips.Length && chips[..m] == old(chips[..n]) + ChipOf(r)
  {
    m := n;
    if r.ChipLine? {
      chips[n] := r.designator;
      m := n + 1;
    }
  }

  /** One turn of the scan loop. */
  method TakeLine(s: string, start: nat, ranges: array<MemRange>, nRanges: nat, chips: array<string>, nChips: nat)
    returns (r: nat, c: nat, p: nat)
    requires start < |s| && nRanges <= ranges.Length && nChips <= chips.Length
    modifies ranges, chips
    ensures r <= ranges.Length && c <= chips.Length && p == NextLine(s, start)
    ensures ranges[..r] == Take(old(ranges[..nRanges]) + RangeOf(LineAt(s, start)), ranges.Length)
    ensures chips[..c] == Take(old(chips[..nChips]) + ChipOf(LineAt(s, start)), chips.Length)
  {
    var line, q := ParseLine(s, start, nRanges < ranges.Length, nChips < chips.Length);
    r := PutRange(line, ranges, nRanges);
    c := PutChip(line, chips, nChips);
    p := SkipLine(s, q);
  }

  /** The scan loop: the tables end up with the first ranges and the first designators that fit. */
  method ParseFull(s: string, ranges: array<MemRange>, chips: array<string>) returns (nRanges: nat, nChips: nat)
    modifies ranges, chips
    ensures nRanges <= ranges.Length && ranges[..nRanges] == Take(RangesOf(Scan(s, 0)), ranges.Length)
    ensures nChips <= chips.Length && chips[..nChips] == Take(ChipsOf(Scan(s, 0)), chips.Length)
  {
    hide Scan, LineAt, RangeOf, ChipOf, RangesOf, ChipsOf, NextLine, Take;
    nRanges, nChips := 0, 0;
    var p := 0;
    NothingTaken(ranges[..0], RangesOf(Scan(s, 0)));
    NothingTaken(chips[..0], ChipsOf(Scan(s, 0)));
    while p < |s|
      invariant p <= |s| && nRanges <= ranges.Length && nChips <= chips.Length
      invariant Take(ranges[..nRanges] + RangesOf(Scan(s, p)), ranges.Length)
             == Take(RangesOf(Scan(s, 0)), ranges.Length)
      invariant Take(chips[..nChips] + ChipsOf(Scan(s, p)), chips.Length) == Take(ChipsOf(Scan(s, 0)), chips.Length)
      decreases |s| - p
    {
      ScanStep(s, p);
      ghost var next := NextLine(s, p);
      TakeMore(ranges[..nRanges], RangeOf(LineAt(s, p)), RangesOf(Scan(s, next)), ranges.Length);
      TakeMore(chips[..nChips], ChipOf(LineAt(s, p)), ChipsOf(Scan(s, next)), chips.Length);
      nRanges, nChips, p := TakeLine(s, p, ranges, nRanges, chips, nChips);
    }
    ScanDone(s, p);
    TakeRest(ranges[..nRanges], RangesOf(Scan(s, p)), ranges.Length);
    TakeRest(chips[..nChips], ChipsOf(Scan(s, p)), chips.Length);
  }

  lemma ScanDone(s: string, p: nat)
    requires p == |s|
    ensures RangesOf(Scan(s, p)) == [] && ChipsOf(Scan(s, p)) == []
  {
  }

  // ---------------------------------------------------- one line at a time

  function Lines(s: string): seq<string> {
    if s == "" then []
    else
      var e := LineEnd(s, 0);
      [s[..e]] + if e < |s| then Lines(s[e + 1..]) else []
  }

  /** A single line on its own. */
  function ParseSingle(line: string): LineResult {
    LineAt(line, 0)
  }

  function ParseEach(lines: seq<string>): seq<LineResult> {
    if lines == [] then [] else [ParseSingle(lines[0])] + ParseEach(lines[1..])
  }

  /** `line` is the text of `s` from `b` up to a newline or the end. */
  ghost predicate LineIn(line: string, s: string, b: nat) {
    && b + |line| <= |s| && (b + |line| < |s| ==> s[b + |line|] == '\n')
    && forall i :: 0 <= i < |line| ==> line[i] == s[b + i] && line[i] != '\n'
  }

  lemma {:induction false} RunLocal(line: string, s: string, b: nat, i: nat, k: Class)
    requires LineIn(line, s, b) && i <= |line|
    ensures RunEnd(s, b + i, k) == b + RunEnd(line, i, k)
    decreases |line| - i
  {
    if i < |line| && In(line[i], k) {
      RunLocal(line, s, b, i + 1, k);
    }
  }

  lemma SliceLocal(line: string, s: string, b: nat, i: nat, j: nat)
    requires LineIn(line, s, b) && i <= j <= |line|
    ensures s[b + i..b + j] == line[i..j]
  {
  }

  function Shift(n: Number, b: nat): Number {
    if n.NoNumber? then n else Number(n.value, b + n.end)
  }

  predicate HexPrefix(s: string, p: nat) {
    p + 1 < |s| && s[p] == '0' && (s[p + 1] == 'x' || s[p + 1] == 'X')
  }

  lemma NumberLocal(line: string, s: string, b: nat, i: nat)
    requires LineIn(line, s, b) && i <= |line|
    ensures NumberAt(s, b + i) == Shift(NumberAt(line, i), b)
  {
    hide RunEnd, Value;
    assert HexPrefix(s, b + i) == HexPrefix(line, i);
    if HexPrefix(line, i) {
      RunLocal(line, s, b, i + 2, Hex);
      SliceLocal(line, s, b, i + 2, RunEnd(line, i + 2, Hex));
    } else {
      RunLocal(line, s, b, i, Decimal);
      SliceLocal(line, s, b, i, RunEnd(line, i, Decimal));
    }
  }

  lemma KeywordLocal(line: string, s: string, b: nat, i: nat)
    requires LineIn(line, s, b) && i <= |line|
    ensures KeywordAt(s, b + i) == KeywordAt(line, i)
  {
    var e := b + |line|;
    if i + 5 > |line| && b + i + 5 <= |s| {
      assert s[e] == '\n' && b + i <= e < b + i + 5;
      assert e == b + i || e == b + i + 1 || e == b + i + 2 || e == b + i + 3 || e == b + i + 4;
    } else if i + 5 <= |line| {
      assert line[i] == s[b + i] && line[i + 1] == s[b + (i + 1)] && line[i + 2] == s[b + (i + 2)];
      assert line[i + 3] == s[b + (i + 3)] && line[i + 4] == s[b + (i + 4)];
    }
  }

  lemma CommentLocal(line: string, s: string, b: nat, i: nat)
    requires LineIn(line, s, b) && i <= |line|
    ensures CommentAt(s, b + i) == CommentAt(line, i)
  {
    hide RunEnd, In, Lower;
    RunLocal(line, s, b, i, Blank);
    var k := RunEnd(line, i, Blank);
    KeywordLocal(line, s, b, k);
    if KeywordAt(line, k) {
      RunLocal(line, s, b, k + 5, Blank);
      var d := RunEnd(line, k + 5, Blank);
      RunLocal(line, s, b, d, Name);
      SliceLocal(line, s, b, d, RunEnd(line, d, Name));
    }
  }

  lemma LengthLocal(line: string, s: string, b: nat, i: nat, addr: nat)
    requires LineIn(line, s, b) && i <= |line|
    ensures LengthAt(s, b + i, addr) == LengthAt(line, i, addr)
  {
    hide NumberAt, RunEnd, Aligned;
    NumberLocal(line, s, b, i);
    var n := NumberAt(line, i);
    if n.Number? {
      RunLocal(line, s, b, n.end, Blank);
    }
  }

  lemma RangeLocal(line: string, s: string, b: nat, i: nat)
    requires LineIn(line, s, b) && i <= |line|
    ensures RangeAt(s, b + i) == RangeAt(line, i)
  {
    hide RunEnd, NumberAt, LengthAt;
    NumberLocal(line, s, b, i);
    var n := NumberAt(line, i);
    if n.Number? {
      RunLocal(line, s, b, n.end, Blank);
      var c := RunEnd(line, n.end, Blank);
      if c < |line| && line[c] == ',' {
        RunLocal(line, s, b, c + 1, Blank);
        LengthLocal(line, s, b, RunEnd(line, c + 1, Blank), n.value);
      }
    }
  }

  /** Reading a line in place never looks past its end. */
  lemma LineLocal(line: string, s: string, b: nat)
    requires LineIn(line, s, b)
    ensures LineAt(s, b) == ParseSingle(line)
  {
    hide RunEnd, CommentAt, RangeAt;
    RunLocal(line, s, b, 0, Blank);
    var q := RunEnd(line, 0, Blank);
    if q < |line| {
      if line[q] == '#' {
        CommentLocal(line, s, b, q + 1);
      } else {
        RangeLocal(line, s, b, q);
      }
    }
  }

  lemma {:induction false} LineEndLocal(s: string, t: string, b: nat, i: nat)
    requires b + |t| == |s| && i <= |t| && forall j :: 0 <= j < |t| ==> t[j] == s[b + j]
    ensures LineEnd(s, b + i) == b + LineEnd(t, i)
    ensures forall j :: i <= j < LineEnd(t, i) ==> t[j] != '\n'
    decreases |t| - i
  {
    if i < |t| && t[i] != '\n' {
      LineEndLocal(s, t, b, i + 1);
    }
  }

  lemma ScanUnfolds(s: string, p: nat)
    requires p <= |s|
    ensures Scan(s, p) == if p == |s| then []
                          else [LineAt(s, p)] + if LineEnd(s, p) < |s| then Scan(s, LineEnd(s, p) + 1) else []
  {
  }

  /** The first line of the text from `p` on, and the text behind it. */
  lemma FirstLine(s: string, p: nat, t: string)
    requires p < |s| && t == s[p..]
    ensures var e := LineEnd(t, 0);
            && LineEnd(s, p) == p + e && LineIn(t[..e], s, p)
            && (e < |t| ==> t[e + 1..] == s[p + e + 1..])
  {
    LineEndLocal(s, t, p, 0);
  }

  /** The scanner's result is the concatenation of the single-line parses. */
  lemma {:induction false} ScanIsPerLine(s: string, p: nat, t: string)
    requires p <= |s| && t == s[p..]
    ensures Scan(s, p) == ParseEach(Lines(t))
    decreases |s| - p
  {
    hide *;
    ScanUnfolds(s, p);
    if p == |s| {
      NoLines();
    } else {
      var e := LineEnd(t, 0);
      FirstLine(s, p, t);
      LineLocal(t[..e], s, p);
      ParseEachStep(t);
      if e < |t| {
        ScanIsPerLine(s, p + e + 1, t[e + 1..]);
      }
    }
  }

  lemma NoLines()
    ensures ParseEach(Lines("")) == []
  {
  }

  lemma ParseEachStep(t: string)
    requires t != ""
    ensures var e := LineEnd(t, 0);
            ParseEach(Lines(t)) == [ParseSingle(t[..e])] + if e < |t| then ParseEach(Lines(t[e + 1..])) else []
  {
    hide ParseSingle, LineEnd;
    var e := LineEnd(t, 0);
    var rest := if e < |t| then Lines(t[e + 1..]) else [];
    assert Lines(t) == [t[..e]] + rest;
    assert Lines(t)[1..] == rest;
  }

  // ---------------------------------------------------------- ranges read

  /** Every range is page-aligned and non-empty, and it covers the whole of [addr, addr + len) exactly when
      rounding the length up does not wrap around 64 bits. */
  lemma AlignedCoversIff(addr: nat, len: nat)
    requires addr < TWO64 && len < TWO64
    ensures var r := Aligned(addr, len);
            && r.start % PAGE == 0 && r.len % PAGE == 0 && r.len > 0 && r.start <= addr
            && (addr + len <= r.End() <==> len + addr % PAGE + PAGE - 1 < TWO64)
  {
  }

  lemma AlignedIsAligned(addr: nat, len: nat)
    ensures var r := Aligned(addr, len); r.start % PAGE == 0 && r.len % PAGE == 0 && r.len > 0
  {
  }

  lemma LineRangeAligned(s: string, p: nat)
    requires p <= |s|
    ensures forall r :: r in RangeOf(LineAt(s, p)) ==> r.start % PAGE == 0 && r.len % PAGE == 0 && r.len > 0
  {
    hide RunEnd, NumberAt, CommentAt, AlignDown;
    var q := RunEnd(s, p, Blank);
    if LineAt(s, p).RangeLine? {
      var n := NumberAt(s, q);
      var m := NumberAt(s, RunEnd(s, RunEnd(s, n.end, Blank) + 1, Blank));
      assert LineAt(s, p).range == Aligned(n.value, m.value);
      AlignedIsAligned(n.value, m.value);
    }
  }

  /** So is every range that a scan of any text yields. */
  lemma {:induction false} ScannedRangesAligned(s: string, p: nat)
    requires p <= |s|
    ensures forall r :: r in RangesOf(Scan(s, p)) ==> r.start % PAGE == 0 && r.len % PAGE == 0 && r.len > 0
    decreases |s| - p
  {
    if p < |s| {
      ScanStep(s, p);
      LineRangeAligned(s, p);
      ScannedRangesAligned(s, NextLine(s, p));
    }
  }
}
