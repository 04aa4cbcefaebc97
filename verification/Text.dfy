/** The byte-string operations of Go's strings, strconv and fmt packages that the framed pipe relies on. */
module Text {
  import opened Prelude

  const LF: byte := 10
  const CR: byte := 13
  const SPACE: byte := 32
  const MINUS: byte := 45
  const PLUS: byte := 43

  /** Bounds of Go's int on a 64-bit platform. */
  const MAX_INT: int := 0x7FFF_FFFF_FFFF_FFFF
  const MIN_INT: int := -0x8000_0000_0000_0000

  predicate IsEol(b: byte) {
    b == CR || b == LF
  }

  predicate IsSpace(b: byte) {
    b == SPACE || 9 <= b <= 13
  }

  predicate IsDigit(b: byte) {
    48 <= b <= 57
  }

  ghost predicate AllDigits(s: seq<byte>) {
    forall i :: 0 <= i < |s| ==> IsDigit(s[i])
  }

  /** strings.TrimRight(s, "\r\n"): the contract fixes the result completely. */
  function TrimEol(s: seq<byte>): (r: seq<byte>)
    ensures r <= s
    ensures r != [] ==> !IsEol(r[|r| - 1])
    ensures forall i :: |r| <= i < |s| ==> IsEol(s[i])
  {
    if s != [] && IsEol(s[|s| - 1]) then TrimEol(s[..|s| - 1]) else s
  }

  function TrimSpaceLeft(s: seq<byte>): seq<byte> {
    if s != [] && IsSpace(s[0]) then TrimSpaceLeft(s[1..]) else s
  }

  function TrimSpaceRight(s: seq<byte>): seq<byte> {
    if s != [] && IsSpace(s[|s| - 1]) then TrimSpaceRight(s[..|s| - 1]) else s
  }

  /** strings.TrimSpace, on ASCII white space. */
  function TrimSpace(s: seq<byte>): seq<byte> {
    TrimSpaceRight(TrimSpaceLeft(s))
  }

  /** fmt's %d for a non-negative integer: decimal digits, without leading zeros. */
  function Print(n: nat): (s: seq<byte>)
    ensures s != [] && AllDigits(s)
    ensures |s| > 1 ==> s[0] != 48
    ensures n > 0 ==> s[0] != 48
  {
    if n < 10 then [48 + n] else Print(n / 10) + [48 + n % 10]
  }

  /** The number a non-empty run of decimal digits stands for, or None when some byte is not a digit. */
  function Digits(s: seq<byte>): Option<nat> {
    if s == [] then Some(0)
    else if !IsDigit(s[|s| - 1]) then None
    else match Digits(s[..|s| - 1])
      case None => None
      case Some(high) => Some(10 * high + (s[|s| - 1] - 48))
  }

  /** strconv.Atoi: an optional sign, at least one digit, nothing else, and a value that fits an int. */
  function Atoi(s: seq<byte>): Option<int> {
    var signed := s != [] && (s[0] == MINUS || s[0] == PLUS);
    var digits := if signed then s[1..] else s;
    if digits == [] then None
    else match Digits(digits)
      case None => None
      case Some(magnitude) =>
        var v := if signed && s[0] == MINUS then 0 - magnitude as int else magnitude as int;
        if MIN_INT <= v <= MAX_INT then Some(v) else None
  }

  lemma {:induction false} DigitsOfPrint(n: nat)
    ensures Digits(Print(n)) == Some(n)
  {
    if n < 10 {
      assert Digits([48 + n][..0]) == Some(0);
    } else {
      DigitsOfPrint(n / 10);
      assert Print(n)[..|Print(n)| - 1] == Print(n / 10);
    }
  }

  lemma AtoiOfUnsigned(d: seq<byte>, n: nat)
    requires d != [] && IsDigit(d[0]) && Digits(d) == Some(n)
    ensures Atoi(d) == if n <= MAX_INT then Some(n) else None
  {
    hide Digits;
  }

  lemma AtoiOfSigned(sign: byte, d: seq<byte>, n: nat)
    requires (sign == PLUS || sign == MINUS) && d != [] && Digits(d) == Some(n)
    ensures Atoi([sign] + d) ==
            if sign == PLUS then if n <= MAX_INT then Some(n) else None
            else if 0 - n as int >= MIN_INT then Some(0 - n as int) else None
  {
    hide Digits;
    assert ([sign] + d)[1..] == d;
  }

  /** Decimal text survives printing and parsing, with either sign, exactly if the number fits a 64-bit int. */
  lemma AtoiOfPrint(n: nat)
    ensures Atoi(Print(n)) == if n <= 0x7FFF_FFFF_FFFF_FFFF then Some(n) else None
    ensures Atoi([PLUS] + Print(n)) == Atoi(Print(n))
    ensures Atoi([MINUS] + Print(n)) == if n <= 0x8000_0000_0000_0000 then Some(0 - n as int) else None
  {
    hide Print, Atoi;
    DigitsOfPrint(n);
    AtoiOfUnsigned(Print(n), n);
    AtoiOfSigned(PLUS, Print(n), n);
    AtoiOfSigned(MINUS, Print(n), n);
  }

  lemma TrimSpaceOfPrint(n: nat)
    ensures TrimSpace([SPACE] + Print(n)) == Print(n)
  {
    var d := Print(n);
    assert IsDigit(d[0]) && IsDigit(d[|d| - 1]);
    assert ([SPACE] + d)[1..] == d;
    assert TrimSpaceLeft(d) == d && TrimSpaceRight(d) == d;
  }

  // ----- white space -----

  ghost predicate Blank(s: seq<byte>) {
    forall i :: 0 <= i < |s| ==> s[i] in {9, 10, 11, 12, 13, 32}
  }

  lemma {:induction false} TrimSpaceLeftOf(pad: seq<byte>, t: seq<byte>)
    requires Blank(pad) && t != [] && t[0] !in {9, 10, 11, 12, 13, 32}
    ensures TrimSpaceLeft(pad + t) == t
  {
    if pad == [] {
      assert pad + t == t;
    } else {
      assert (pad + t)[1..] == pad[1..] + t;
      TrimSpaceLeftOf(pad[1..], t);
    }
  }

  lemma {:induction false} TrimSpaceRightOf(t: seq<byte>, pad: seq<byte>)
    requires Blank(pad) && t != [] && t[|t| - 1] !in {9, 10, 11, 12, 13, 32}
    ensures TrimSpaceRight(t + pad) == t
  {
    if pad == [] {
      assert t + pad == t;
    } else {
      var last := |pad| - 1;
      assert (t + pad)[..|t + pad| - 1] == t + pad[..last] && (t + pad)[|t + pad| - 1] == pad[last];
      TrimSpaceRightOf(t, pad[..last]);
    }
  }

  /** Blanks, tabs and line breaks around a text are trimmed, and nothing else. */
  lemma TrimSpaceOf(before: seq<byte>, t: seq<byte>, after: seq<byte>)
    requires Blank(before) && Blank(after) && t != []
    requires t[0] !in {9, 10, 11, 12, 13, 32} && t[|t| - 1] !in {9, 10, 11, 12, 13, 32}
    ensures TrimSpace(before + t + after) == t
  {
    assert before + t + after == before + (t + after);
    TrimSpaceLeftOf(before, t + after);
    TrimSpaceRightOf(t, after);
  }

  // ----- what does not parse -----

  lemma {:induction false} DigitsNeedDigits(s: seq<byte>, i: nat)
    requires i < |s| && !IsDigit(s[i])
    ensures Digits(s) == None
  {
    if i < |s| - 1 {
      DigitsNeedDigits(s[..|s| - 1], i);
    }
  }

  /** A byte that is neither a digit nor a sign makes the text no number. */
  lemma AtoiRejects(s: seq<byte>, b: byte)
    requires b in s && !IsDigit(b) && b != MINUS && b != PLUS
    ensures Atoi(s) == None
  {
    var i :| 0 <= i < |s| && s[i] == b;
    if s[0] == MINUS || s[0] == PLUS {
      DigitsNeedDigits(s[1..], i - 1);
    } else {
      DigitsNeedDigits(s, i);
    }
  }

  lemma {:induction false} TrimSpaceLeftKeeps(s: seq<byte>, b: byte)
    requires b in s && !IsSpace(b)
    ensures b in TrimSpaceLeft(s)
  {
    if IsSpace(s[0]) {
      TrimSpaceLeftKeeps(s[1..], b);
    }
  }

  lemma {:induction false} TrimSpaceRightKeeps(s: seq<byte>, b: byte)
    requires b in s && !IsSpace(b)
    ensures b in TrimSpaceRight(s)
  {
    if IsSpace(s[|s| - 1]) {
      assert s == s[..|s| - 1] + [s[|s| - 1]];
      TrimSpaceRightKeeps(s[..|s| - 1], b);
    }
  }

  lemma TrimSpaceKeeps(s: seq<byte>, b: byte)
    requires b in s && !IsSpace(b)
    ensures b in TrimSpace(s)
  {
    TrimSpaceLeftKeeps(s, b);
    TrimSpaceRightKeeps(TrimSpaceLeft(s), b);
  }
}
