/**
 How printf reads the options of a conversion, and what that means for the width of a field.
 A format is the string behind the percent sign; behind its end one reads the terminator.
 */
module Conversions {
  import opened Stdio
  import opened Numerals

  /** The size of the argument. */
  datatype Type = CHAR | SHORT | INT | INTMAX | LONG | LONGLONG | PTRDIFFT | SIZET

  const STAR: Byte := 42
  const DOT: Byte := 46

  function At(f: seq<Byte>, i: nat): Byte { if i < |f| then f[i] else 0 }

  predicate IsFlag(ch: Byte) { ch == 45 || ch == 43 || ch == 32 || ch == 35 || ch == 48 || ch == 39 }

  predicate IsDigit(ch: Byte) { 48 <= ch <= 57 }

  function DigitOf(ch: Byte): nat
    requires IsDigit(ch)
  {
    ch - 48
  }

  /** The characters from i up to j are flags, and no more than these. */
  predicate FlagsUpTo(f: seq<Byte>, i: nat, j: nat) {
    i <= j <= |f| && (forall k | i <= k < j :: IsFlag(f[k])) && !IsFlag(At(f, j))
  }

  predicate DigitsUpTo(f: seq<Byte>, i: nat, j: nat) {
    i <= j <= |f| && (forall k | i <= k < j :: IsDigit(f[k])) && !IsDigit(At(f, j))
  }

  /** The decimal number that the characters from i up to j write. */
  function Number(f: seq<Byte>, i: nat, j: nat): nat
    requires i <= j <= |f| && forall k | i <= k < j :: IsDigit(f[k])
    decreases j
  {
    if i == j then 0 else 10 * Number(f, i, j - 1) + DigitOf(f[j - 1])
  }

  // A number at place i, or a star for the next int argument: what it is and where it ends.
  ghost predicate Reads(f: seq<Byte>, args: seq<int>, i: nat, n: int, j: nat, rest: seq<int>) {
    if At(f, i) == STAR then j == i + 1 && args != [] && n == args[0] && rest == args[1..]
    else DigitsUpTo(f, i, j) && n == Number(f, i, j) && rest == args
  }

  // A precision at place i, negative if there is none.
  ghost predicate ReadsPrecision(f: seq<Byte>, args: seq<int>, i: nat, n: int, j: nat, rest: seq<int>) {
    if At(f, i) == DOT then Reads(f, args, i + 1, n, j, rest) else n == -1 && j == i && rest == args
  }

  /** The conversion that flags, width and precision make up. */
  function Settled(flags: seq<Byte>, width: int, precision: int): Conversion {
    Conversion(
      45 in flags || width < 0, 43 in flags, 32 in flags && 43 !in flags, 35 in flags,
      48 in flags && 45 !in flags && precision < 0, 39 in flags,
      if width < 0 then -width else width, if precision < 0 then -1 else precision)
  }

  /** The type letters at place i. */
  function TypeAt(f: seq<Byte>, i: nat): (Type, nat) {
    var ch, next := At(f, i), At(f, i + 1);
    if ch == 104 then (if next == 104 then (CHAR, i + 2) else (SHORT, i + 1))
    else if ch == 106 then (INTMAX, i + 1)
    else if ch == 108 then (if next == 108 then (LONGLONG, i + 2) else (LONG, i + 1))
    else if ch == 116 then (PTRDIFFT, i + 1)
    else if ch == 122 then (SIZET, i + 1)
    else (INT, i)
  }

  /** What a format says: flags up to a, width w up to b, precision p up to e, then the type. */
  ghost predicate Says(f: seq<Byte>, args: seq<int>, a: nat, w: int, b: nat, p: int, e: nat) {
    FlagsUpTo(f, 0, a) && exists rest, rest' :: Reads(f, args, a, w, b, rest) && ReadsPrecision(f, rest, b, p, e, rest')
  }

  /** There is an int argument for every star. */
  ghost predicate Supplied(f: seq<Byte>, args: seq<int>) {
    forall a: nat | FlagsUpTo(f, 0, a) ::
      && (At(f, a) == STAR ==> args != [])
      && forall w, b: nat, rest | Reads(f, args, a, w, b, rest) && At(f, b) == DOT && At(f, b + 1) == STAR :: rest != []
  }

  // The digits at place i.
  method ReadDigits(f: seq<Byte>, i: nat) returns (n: nat, j: nat)
    requires i <= |f|
    ensures DigitsUpTo(f, i, j) && n == Number(f, i, j)
  {
    n, j := 0, i;
    while IsDigit(At(f, j))
      invariant i <= j <= |f| && (forall k | i <= k < j :: IsDigit(f[k])) && n == Number(f, i, j)
      decreases |f| - j
    {
      n := n * 10 + DigitOf(f[j]);
      j := j + 1;
    }
  }

  // A star or digits.
  method ReadNumber(f: seq<Byte>, args: seq<int>, i: nat) returns (n: int, j: nat, rest: seq<int>)
    requires i <= |f| && (At(f, i) == STAR ==> args != [])
    ensures Reads(f, args, i, n, j, rest) && j <= |f|
  {
    if At(f, i) == STAR {
      return args[0], i + 1, args[1..];
    }
    n, j := ReadDigits(f, i);
    rest := args;
  }

  // The loop over the flags.
  method ReadFlags(f: seq<Byte>) returns (c: Conversion, a: nat)
    ensures FlagsUpTo(f, 0, a)
    ensures c == Conversion(45 in f[..a], 43 in f[..a], 32 in f[..a], 35 in f[..a], 48 in f[..a], 39 in f[..a], 0, -1)
  {
    c, a := Conversion(false, false, false, false, false, false, 0, -1), 0;
    while true
      invariant a <= |f| && forall k | 0 <= k < a :: IsFlag(f[k])
      invariant c == Conversion(45 in f[..a], 43 in f[..a], 32 in f[..a], 35 in f[..a], 48 in f[..a], 39 in f[..a], 0, -1)
      decreases |f| - a
    {
      var ch := At(f, a);
      if ch == 45 { c := c.(minus := true); }
      else if ch == 43 { c := c.(plus := true); }
      else if ch == 32 { c := c.(space := true); }
      else if ch == 35 { c := c.(pound := true); }
      else if ch == 48 { c := c.(zero := true); }
      else if ch == 39 { c := c.(group := true); }
      else { return; }
      assert f[..a + 1] == f[..a] + [ch];
      a := a + 1;
    }
  }

  // What a parsed format gives.
  ghost predicate Gives(f: seq<Byte>, args: seq<int>, c: Conversion, e: nat) {
    exists a: nat, w, b: nat, p :: Says(f, args, a, w, b, p, e) && c == Settled(f[..a], w, p)
  }

  // Flags, width and precision.
  method ReadOptions(f: seq<Byte>, args: seq<int>) returns (c: Conversion, e: nat)
    requires Supplied(f, args)
    ensures Gives(f, args, c, e)
  {
    hide FlagsUpTo, Reads, Supplied, Says, Gives, ReadsPrecision, At;
    var a;
    c, a := ReadFlags(f);
    FirstStar(f, args, a);
    if c.minus {
      c := c.(zero := false);
    }
    if c.plus {
      c := c.(space := false);
    }
    var width, b, rest := ReadNumber(f, args, a);
    ghost var w := width;
    if width < 0 {
      width := -width;
      c := c.(minus := true);
    }
    c := c.(width := width);
    var precision, rest' := -1, rest;
    e := b;
    SecondStar(f, args, a, w, b, rest);
    if At(f, b) == DOT {
      precision, e, rest' := ReadNumber(f, rest, b + 1);
    }
    ghost var p := precision;
    if precision < 0 {
      precision := -1;
    }
    c := c.(precision := precision);
    if c.precision >= 0 {
      c := c.(zero := false);
    }
    assert c == Settled(f[..a], w, p);
    AllRead(f, args, a, w, b, rest, p, e, rest');
  }

  lemma FirstStar(f: seq<Byte>, args: seq<int>, a: nat)
    requires FlagsUpTo(f, 0, a) && Supplied(f, args)
    ensures a <= |f| && (At(f, a) == STAR ==> args != [])
  {
    hide Reads;
  }

  lemma SecondStar(f: seq<Byte>, args: seq<int>, a: nat, w: int, b: nat, rest: seq<int>)
    requires FlagsUpTo(f, 0, a) && Supplied(f, args) && Reads(f, args, a, w, b, rest)
    ensures At(f, b) == DOT ==> b + 1 <= |f| && (At(f, b + 1) == STAR ==> rest != [])
  {
    hide Reads, FlagsUpTo;
  }

  lemma AllRead(f: seq<Byte>, args: seq<int>, a: nat, w: int, b: nat, rest: seq<int>, p: int, e: nat, rest': seq<int>)
    requires FlagsUpTo(f, 0, a) && Reads(f, args, a, w, b, rest)
    requires if At(f, b) == DOT then Reads(f, rest, b + 1, p, e, rest') else p == -1 && e == b && rest' == rest
    ensures a <= |f| && Gives(f, args, Settled(f[..a], w, p), e)
  {
    hide Reads;
    assert ReadsPrecision(f, rest, b, p, e, rest');
    assert Says(f, args, a, w, b, p, e);
  }

  /** parse_conversion: the options, the type, and where the conversion character is. */
  method ParseConversion(f: seq<Byte>, args: seq<int>) returns (c: Conversion, t: Type, i: nat)
    requires Supplied(f, args)
    ensures exists e: nat :: Gives(f, args, c, e) && (t, i) == TypeAt(f, e)
  {
    hide Gives, Supplied;
    var e;
    c, e := ReadOptions(f, args);
    var ch := At(f, e);
    i := e + 1;
    if ch == 104 {
      if At(f, i) == 104 {
        t, i := CHAR, i + 1;
      } else {
        t := SHORT;
      }
    } else if ch == 106 {
      t := INTMAX;
    } else if ch == 108 {
      if At(f, i) == 108 {
        t, i := LONGLONG, i + 1;
      } else {
        t := LONG;
      }
    } else if ch == 116 {
      t := PTRDIFFT;
    } else if ch == 122 {
      t := SIZET;
    } else {
      t, i := INT, e;
    }
    assert (t, i) == TypeAt(f, e);
  }

  /** A format says one thing only. */
  lemma SaysOnce(f: seq<Byte>, args: seq<int>, a: nat, w: int, b: nat, p: int, e: nat, a': nat, w': int, b': nat, p': int, e': nat)
    requires Says(f, args, a, w, b, p, e) && Says(f, args, a', w', b', p', e')
    ensures a == a' && w == w' && b == b' && p == p' && e == e'
  {
    hide Number;
    assert a < a' ==> IsFlag(At(f, a));
    assert a' < a ==> IsFlag(At(f, a'));
    var r, s :| Reads(f, args, a, w, b, r) && ReadsPrecision(f, r, b, p, e, s);
    var r', s' :| Reads(f, args, a', w', b', r') && ReadsPrecision(f, r', b', p', e', s');
    ReadOnce(f, args, a, w, b, r, w', b', r');
    if At(f, b) == DOT {
      ReadOnce(f, r, b + 1, p, e, s, p', e', s');
    }
  }

  lemma ReadOnce(f: seq<Byte>, args: seq<int>, i: nat, n: int, j: nat, rest: seq<int>, n': int, j': nat, rest': seq<int>)
    requires Reads(f, args, i, n, j, rest) && Reads(f, args, i, n', j', rest')
    ensures n == n' && j == j' && rest == rest'
  {
    hide Number;
    if At(f, i) != STAR {
      assert j < j' ==> IsDigit(At(f, j));
      assert j' < j ==> IsDigit(At(f, j'));
    }
  }

  /**
   A field of a conversion that was read from a format is as wide as the format asks for, or as its text, unless the
   format has the flag 0 but not -, no precision, and a star whose argument is negative and asks for more than the text.
   */
  lemma AsWideAsAsked(value: nat, isSigned: bool, negative: bool, base: Base, f: seq<Byte>, args: seq<int>, a: nat, w: int, b: nat, p: int, e: nat)
    requires GoodBase(base) && Says(f, args, a, w, b, p, e)
    ensures var c := Settled(f[..a], w, p);
      var t := TextWidth(value, isSigned, negative, base, c);
      var asked := if w < 0 then -w else w;
      (|Formatted(value, isSigned, negative, base, c)| == if t >= asked then t else asked) <==>
        !(48 in f[..a] && 45 !in f[..a] && p < 0 && w < 0 && -w > t)
  {
    hide Formatted, TextWidth;
    FieldWidth(value, isSigned, negative, base, Settled(f[..a], w, p));
  }

  /** Only a star gives a negative width. */
  lemma NegativeIsStar(f: seq<Byte>, args: seq<int>, a: nat, w: int, b: nat, p: int, e: nat)
    requires Says(f, args, a, w, b, p, e) && w < 0
    ensures At(f, a) == STAR && args != [] && w == args[0]
  {
    hide Number;
  }

  /** The format 0*o with width -5: the number 7 comes out as 00007 and four blanks, nine characters instead of five. */
  lemma PaddedTwice(args: seq<int>)
    requires args != [] && args[0] == -5
    ensures var f := [48, STAR, 111];
      && Says(f, args, 1, -5, 2, -1, 2)
      && Formatted(7, false, false, Octal(), Settled(f[..1], -5, -1)) == [48, 48, 48, 48, 55, 32, 32, 32, 32]
  {
    var f: seq<Byte> := [48, STAR, 111];
    assert Reads(f, args, 1, -5, 2, args[1..]) && ReadsPrecision(f, args[1..], 2, -1, 2, args[1..]);
    var c := Settled(f[..1], -5, -1);
    assert f[..1] == [48];
    assert c.zero && c.minus && c.width == 5;
    assert Reversed(7, Octal(), false, 0) == [55];
    assert Core(7, Octal(), c) == [55];
    Singleton(55);
  }
}
