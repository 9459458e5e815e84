/** The line editor the addresses are typed into: a fixed buffer that drops what it has no room for. */
module LineInput {
  import opened Common

  const LINE_BUFFER: nat := 512

  datatype Stroke = Escape | Key(c: char)

  /** What a sequence of keys ends in. */
  datatype Input = Waiting | Cancelled | Submitted(text: string)

  predicate IsEnter(c: char) {
    c == '\r' || c == '\n'
  }

  predicate IsErase(c: char) {
    c as nat == 8 || c as nat == 0x7F
  }

  predicate IsPrintable(c: char) {
    ' ' <= c && (c as nat) < 0x7F
  }

  predicate Printable(s: string) {
    forall i :: 0 <= i < |s| ==> IsPrintable(s[i])
  }

  /** The text after one more character; the last place of the buffer is kept for the NUL. */
  function Edit(text: string, c: char, cap: nat): string {
    if IsErase(c) then if text == "" then "" else text[..|text| - 1]
    else if IsPrintable(c) && |text| + 1 < cap then text + [c]
    else text
  }

  function Line(keys: seq<Stroke>, text: string, cap: nat): Input {
    if keys == [] then Waiting
    else if keys[0].Escape? then Cancelled
    else if IsEnter(keys[0].c) then Submitted(text)
    else Line(keys[1..], Edit(text, keys[0].c, cap), cap)
  }

  lemma LineStep(keys: seq<Stroke>, i: nat, text: string, cap: nat)
    requires i <= |keys|
    ensures Line(keys[i..], text, cap)
         == if i == |keys| then Waiting
            else if keys[i].Escape? then Cancelled
            else if IsEnter(keys[i].c) then Submitted(text)
            else Line(keys[i + 1..], Edit(text, keys[i].c, cap), cap)
  {
    hide Edit, IsEnter;
    if i < |keys| {
      assert keys[i..][0] == keys[i] && keys[i..][1..] == keys[i + 1..];
    }
  }

  lemma EditIs(text: string, c: char, cap: nat)
    ensures Edit(text, c, cap) == if IsErase(c) then if text == "" then "" else text[..|text| - 1]
                                  else if IsPrintable(c) && |text| + 1 < cap then text + [c]
                                  else text
  {
  }

  /** The editor loop. An escape leaves an empty line, like an empty submission. */
  method ReadLine(keys: seq<Stroke>, buf: array<char>) returns (n: nat, done: bool)
    requires buf.Length > 0
    modifies buf
    ensures n < buf.Length
    ensures done == !Line(keys, "", buf.Length).Waiting?
    ensures match Line(keys, "", buf.Length)
            case Submitted(text) => buf[..n] == text
            case _ => n == 0
  {
    hide Line, Edit, IsEnter, IsErase, IsPrintable;
    n := 0;
    ghost var text := "";
    assert keys[0..] == keys;
    for i := 0 to |keys|
      invariant n < buf.Length && buf[..n] == text
      invariant Line(keys[i..], text, buf.Length) == Line(keys, "", buf.Length)
    {
      LineStep(keys, i, text, buf.Length);
      if keys[i].Escape? {
        return 0, true;
      }
      var c := keys[i].c;
      if IsEnter(c) {
        buf[n] := '\0';
        return n, true;
      }
      EditIs(text, c, buf.Length);
      text := Edit(text, c, buf.Length);
      if IsErase(c) {
        if n > 0 {
          n := n - 1;
        }
      } else if IsPrintable(c) && n + 1 < buf.Length {
        buf[n] := c;
        n := n + 1;
      }
    }
    LineStep(keys, |keys|, text, buf.Length);
    return 0, false;
  }

  function Keys(s: string): seq<Stroke> {
    if s == "" then [] else [Key(s[0])] + Keys(s[1..])
  }

  /** Typing printable text and submitting it leaves its first 511 characters. */
  lemma {:induction false} TypedLine(s: string, text: string, cap: nat)
    requires Printable(s) && |text| < cap
    ensures Line(Keys(s) + [Key('\r')], text, cap) == Submitted(Take(text + s, cap - 1))
  {
    hide Take, IsPrintable;
    var keys := Keys(s) + [Key('\r')];
    if s == "" {
      assert keys == [Key('\r')];
      TakeRest(text, s, cap - 1);
    } else {
      assert keys[0] == Key(s[0]) && keys[1..] == Keys(s[1..]) + [Key('\r')];
      var now := Edit(text, s[0], cap);
      NotControl(s[0]);
      assert now == if |text| + 1 < cap then text + [s[0]] else text;
      TypedLine(s[1..], now, cap);
      OneTyped(text, s, cap);
    }
  }

  lemma NotControl(c: char)
    ensures IsPrintable(c) ==> !IsEnter(c) && !IsErase(c)
  {
  }

  lemma OneTyped(text: string, s: string, cap: nat)
    requires s != "" && |text| < cap
    ensures Take((if |text| + 1 < cap then text + [s[0]] else text) + s[1..], cap - 1) == Take(text + s, cap - 1)
  {
    assert text + s == text + [s[0]] + s[1..];
  }
}
