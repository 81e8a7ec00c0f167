/**
 Integer conversions of the kernel's printf: format_integer, and snprintf's bounded copy.
 Characters are bytes.
 */
module Stdio {
  type Byte = b: int | 0 <= b < 256

  /** A base: the characters of the digits, the character after the 0 of a prefix (0: none), the size of a group. */
  datatype Base = Base(base: nat, digits: seq<Byte>, x: Byte, group: nat)

  /** Flags, width and precision (negative: none) of a conversion. */
  datatype Conversion = Conversion(minus: bool, plus: bool, space: bool, pound: bool, zero: bool, group: bool, width: nat, precision: int)

  predicate GoodBase(b: Base) {
    8 <= b.base == |b.digits| && b.group >= 3
  }

  function Octal(): Base { Base(8, [48, 49, 50, 51, 52, 53, 54, 55], 0, 3) }

  // The lowest digit of value, and what is left without it.
  function Digit(value: nat, b: Base): Byte
    requires GoodBase(b)
  {
    b.digits[value % b.base]
  }

  function Rest(value: nat, b: Base): (rest: nat)
    requires GoodBase(b)
    ensures value > 0 ==> rest < value
  {
    assert value / b.base * b.base <= value;
    Smaller(value / b.base, b.base, value);
    value / b.base
  }

  lemma Smaller(q: nat, base: nat, value: nat)
    requires base >= 8 && q * base <= value
    ensures value > 0 ==> q < value
  {
    Scale(8, base, q);
  }

  // The digits of value, lowest first, from digit number cnt on.
  function Reversed(value: nat, b: Base, group: bool, cnt: nat): seq<Byte>
    requires GoodBase(b)
    decreases value
  {
    if value == 0 then []
    else (if group && cnt > 0 && cnt % b.group == 0 then [44] else []) + [Digit(value, b)] + Reversed(Rest(value, b), b, group, cnt + 1)
  }

  function Power8(n: nat): (p: nat)
    ensures p > 0
  {
    if n == 0 then 1 else 8 * Power8(n - 1)
  }

  lemma Power8Of22()
    ensures Power8(22) == 0x4_0000_0000_0000_0000
  {
    assert Power8(11) == 0x2_0000_0000;
    assert Power8(22) == 8 * 8 * 8 * 8 * 8 * 8 * 8 * 8 * 8 * 8 * 8 * Power8(11);
  }

  lemma Shrinks(value: nat, base: nat, p: nat)
    requires base >= 8
    ensures value / base * (8 * p) <= value * p
  {
    assert value / base * 8 <= value;
    Scale(value / base * 8, value, p);
  }

  lemma Scale(a: nat, b: nat, p: nat)
    requires a <= b
    ensures a * p <= b * p
  {
  }

  function Repeat(c: Byte, n: int): (s: seq<Byte>)
    ensures |s| == if n < 0 then 0 else n
  {
    seq(if n < 0 then 0 else n, i => c)
  }

  function Mirror(s: seq<Byte>): (r: seq<Byte>)
    ensures |r| == |s|
  {
    if s == [] then [] else Mirror(s[1..]) + [s[0]]
  }

  /** The sign character, if any. */
  function Sign(isSigned: bool, negative: bool, c: Conversion): seq<Byte> {
    if !isSigned then []
    else if c.plus then [if negative then 45 else 43]
    else if c.space then [if negative then 45 else 32]
    else if negative then [45] else []
  }

  // Digits with the zeros that precision and # ask for.
  function Core(value: nat, b: Base, c: Conversion): seq<Byte>
    requires GoodBase(b)
  {
    var digits := Reversed(value, b, c.group, 0);
    var precision := if c.precision < 0 then 1 else c.precision;
    var wanted := if precision < 63 then precision else 63;
    var padded := digits + Repeat(48, wanted - |digits|);
    if c.pound && b.base == 8 && (padded == [] || padded[|padded| - 1] != 48) then padded + [48] else padded
  }

  /** The field: blanks, sign, prefix, zeros, digits, blanks. */
  function Formatted(value: nat, isSigned: bool, negative: bool, b: Base, c: Conversion): seq<Byte>
    requires GoodBase(b)
  {
    var sign := Sign(isSigned, negative, c);
    var x := if c.pound && value != 0 && b.x != 0 then [48, b.x] else [];
    var core := Core(value, b, c);
    var pad := c.width - |core| - |x| - |sign|;
    Padding(!c.minus && !c.zero, 32, pad) + sign + x + Padding(c.zero, 48, pad) + Mirror(core) + Padding(c.minus, 32, pad)
  }

  function Padding(needed: bool, ch: Byte, n: int): seq<Byte> {
    if needed then Repeat(ch, n) else []
  }

  lemma ReversedStep(value: nat, b: Base, group: bool, cnt: nat)
    requires GoodBase(b) && value > 0
    ensures Reversed(value, b, group, cnt)
      == (if group && cnt > 0 && cnt % b.group == 0 then [44] else []) + [Digit(value, b)] + Reversed(Rest(value, b), b, group, cnt + 1)
  {
    hide Digit;
  }

  lemma OneDigit(done: seq<Byte>, value: nat, b: Base, group: bool, cnt: nat)
    requires GoodBase(b) && value > 0
    ensures done + Reversed(value, b, group, cnt)
      == ((done + (if group && cnt > 0 && cnt % b.group == 0 then [44] else [])) + [Digit(value, b)]) + Reversed(Rest(value, b), b, group, cnt + 1)
  {
    ReversedStep(value, b, group, cnt);
    hide Reversed;
    var comma: seq<Byte> := if group && cnt > 0 && cnt % b.group == 0 then [44] else [];
    Assoc(done + comma, [Digit(value, b)], Reversed(Rest(value, b), b, group, cnt + 1));
    Assoc(done, comma, [Digit(value, b)] + Reversed(Rest(value, b), b, group, cnt + 1));
    Assoc(comma, [Digit(value, b)], Reversed(Rest(value, b), b, group, cnt + 1));
  }

  // cnt digits have been taken off value0, and value is left.
  ghost predicate Left(value0: nat, value: nat, cnt: nat) {
    value * Power8(cnt) <= value0
  }

  lemma AllLeft(value: nat)
    ensures Left(value, value, 0)
  {
    assert Power8(0) == 1;
  }

  // A 64-bit value has at most 22 digits.
  lemma FewDigits(value0: nat, value: nat, cnt: nat)
    requires value0 < 0x1_0000_0000_0000_0000 && value > 0 && Left(value0, value, cnt) && cnt <= 22
    ensures cnt < 22
  {
    hide Power8;
    Power8Of22();
    Scale(1, value, Power8(cnt));
  }

  lemma NextDigit(value0: nat, value: nat, b: Base, cnt: nat)
    requires GoodBase(b) && Left(value0, value, cnt)
    ensures Left(value0, Rest(value, b), cnt + 1)
  {
    Shrinks(value, b.base, Power8(cnt));
  }

  method Append(buf: array<Byte>, cp: nat, ch: Byte)
    requires cp < buf.Length
    modifies buf
    ensures buf[..cp + 1] == old(buf[..cp]) + [ch]
  {
    buf[cp] := ch;
  }

  lemma NoDigits(b: Base, group: bool, cnt: nat)
    requires GoodBase(b)
    ensures Reversed(0, b, group, cnt) == []
  {
  }

  method PutDigit(value: nat, b: Base, group: bool, buf: array<Byte>, cp0: nat, digitCnt: nat) returns (cp: nat)
    requires GoodBase(b) && cp0 + 2 <= buf.Length
    modifies buf
    ensures cp <= cp0 + 2
    ensures buf[..cp] == (old(buf[..cp0]) + (if group && digitCnt > 0 && digitCnt % b.group == 0 then [44] else [])) + [Digit(value, b)]
  {
    cp := cp0;
    if group && digitCnt > 0 && digitCnt % b.group == 0 {
      Append(buf, cp, 44);
      cp := cp + 1;
    } else {
      assert buf[..cp] + [] == buf[..cp];
    }
    Append(buf, cp, Digit(value, b));
    cp := cp + 1;
  }

  // At most two characters for each digit, and 22 digits: the buffer is large enough.
  method Accumulate(value0: nat, b: Base, group: bool, buf: array<Byte>) returns (cp: nat)
    requires GoodBase(b) && value0 < 0x1_0000_0000_0000_0000 && buf.Length == 64
    modifies buf
    ensures cp <= 44 && buf[..cp] == Reversed(value0, b, group, 0)
  {
    hide Left, Reversed, Rest, Digit;
    cp := 0;
    var value: nat, digitCnt: nat := value0, 0;
    AllLeft(value0);
    assert buf[..0] + Reversed(value0, b, group, 0) == Reversed(value0, b, group, 0);
    while value > 0
      invariant cp <= 2 * digitCnt <= 44
      invariant Left(value0, value, digitCnt)
      invariant buf[..cp] + Reversed(value, b, group, digitCnt) == Reversed(value0, b, group, 0)
    {
      FewDigits(value0, value, digitCnt);
      NextDigit(value0, value, b, digitCnt);
      OneDigit(buf[..cp], value, b, group, digitCnt);
      cp := PutDigit(value, b, group, buf, cp, digitCnt);
      value := Rest(value, b);
      digitCnt := digitCnt + 1;
    }
    NoDigits(b, group, digitCnt);
    assert buf[..cp] + [] == buf[..cp];
  }

  lemma Zeros(n: nat)
    ensures Repeat(48, 0) == [] && Repeat(48, n) + [48] == Repeat(48, n + 1)
  {
  }

  lemma Assoc<T>(a: seq<T>, b: seq<T>, c: seq<T>)
    ensures (a + b) + c == a + (b + c)
  {
  }

  lemma SameZeros(n: int, m: nat)
    requires (if n < 0 then 0 else n) == m
    ensures Repeat(48, n) == Repeat(48, m)
  {
  }

  // Appends zeros up to the precision, then the zero # asks for.
  method AppendZeros(value: nat, b: Base, c: Conversion, buf: array<Byte>, cp0: nat) returns (cp: nat)
    requires GoodBase(b) && buf.Length == 64 && cp0 <= 44 && buf[..cp0] == Reversed(value, b, c.group, 0)
    modifies buf
    ensures cp <= 64 && buf[..cp] == Core(value, b, c)
  {
    hide Reversed, Repeat;
    ghost var digits := buf[..cp0];
    var precision := if c.precision < 0 then 1 else c.precision;
    ghost var wanted := if precision < 63 then precision else 63;
    cp := cp0;
    Zeros(0);
    assert digits + [] == digits;
    while cp < precision && cp < 63
      invariant cp0 <= cp <= 63 && (cp > cp0 ==> cp <= wanted)
      invariant buf[..cp] == digits + Repeat(48, cp - cp0)
    {
      Zeros(cp - cp0);
      Assoc(digits, Repeat(48, cp - cp0), [48]);
      Append(buf, cp, 48);
      cp := cp + 1;
    }
    SameZeros(wanted - cp0, cp - cp0);
    ghost var padded := buf[..cp];
    assert cp > 0 ==> padded[cp - 1] == buf[cp - 1];
    if c.pound && b.base == 8 && (cp == 0 || buf[cp - 1] != 48) {
      Append(buf, cp, 48);
      cp := cp + 1;
    }
  }

  /** format_integer. */
  method FormatInteger(value: nat, isSigned: bool, negative: bool, b: Base, c: Conversion) returns (out: seq<Byte>)
    requires GoodBase(b) && value < 0x1_0000_0000_0000_0000
    ensures out == Formatted(value, isSigned, negative, b, c)
  {
    hide Reversed, Sign, Mirror, Repeat, Core, Padding;
    var sign := Sign(isSigned, negative, c);
    var x := c.pound && value != 0 && b.x != 0;
    var buf := new Byte[64];
    var cp := Accumulate(value, b, c.group, buf);
    cp := AppendZeros(value, b, c, buf, cp);
    var core := buf[..cp];
    var pad := c.width - cp - (if x then 2 else 0) - |sign|;
    out := Padding(!c.minus && !c.zero, 32, pad);
    out := out + sign;
    out := out + if x then [48, b.x] else [];
    out := out + Padding(c.zero, 48, pad);
    var tail := Backwards(core);
    out := out + tail;
    out := out + Padding(c.minus, 32, pad);
  }

  // The loop that outputs the buffer from its end.
  method Backwards(buf: seq<Byte>) returns (out: seq<Byte>)
    ensures out == Mirror(buf)
  {
    out := [];
    var cp := |buf|;
    while cp > 0
      invariant 0 <= cp <= |buf| && out == Mirror(buf[cp..])
    {
      cp := cp - 1;
      assert buf[cp..][1..] == buf[cp + 1..];
      out := out + [buf[cp]];
    }
    assert buf[0..] == buf;
  }

  /* ----- octal fields ----- */

  /** The number an octal field stands for. */
  function OctalValue(s: seq<Byte>): int {
    if s == [] then 0 else 8 * OctalValue(s[..|s| - 1]) + s[|s| - 1] - 48
  }

  predicate OctalDigits(s: seq<Byte>) { forall i | 0 <= i < |s| :: 48 <= s[i] <= 55 }

  lemma {:induction false} MirrorSnoc(s: seq<Byte>, x: Byte)
    ensures Mirror([x] + s) == Mirror(s) + [x]
  {
    assert ([x] + s)[1..] == s;
  }

  lemma OctalDigit(value: nat)
    ensures Digit(value, Octal()) == 48 + value % 8 && Rest(value, Octal()) == value / 8
  {
  }

  lemma OctalStep(value: nat, cnt: nat)
    requires value > 0
    ensures Reversed(value, Octal(), false, cnt) == [48 + value % 8] + Reversed(value / 8, Octal(), false, cnt + 1)
  {
    OctalDigit(value);
    hide Digit, Rest;
  }

  // The digits in their order.
  lemma {:induction false} DigitsOfOctal(value: nat, cnt: nat)
    ensures var s := Mirror(Reversed(value, Octal(), false, cnt)); OctalDigits(s) && OctalValue(s) == value
    decreases value
  {
    hide Mirror, OctalDigits, OctalValue, Reversed;
    if value > 0 {
      var r := Reversed(value / 8, Octal(), false, cnt + 1);
      var d: Byte := 48 + value % 8;
      DigitsOfOctal(value / 8, cnt + 1);
      OctalStep(value, cnt);
      MirrorSnoc(r, d);
      OctalSnoc(Mirror(r), d);
    } else {
      NoOctalDigits(cnt);
    }
  }

  lemma NoOctalDigits(cnt: nat)
    ensures var s := Mirror(Reversed(0, Octal(), false, cnt)); OctalDigits(s) && OctalValue(s) == 0
  {
  }

  lemma OctalSnoc(s: seq<Byte>, d: Byte)
    ensures OctalValue(s + [d]) == 8 * OctalValue(s) + d - 48
    ensures OctalDigits(s) && 48 <= d <= 55 ==> OctalDigits(s + [d])
  {
    assert (s + [d])[..|s|] == s;
  }

  lemma {:induction false} DigitCount(value: nat, cnt: nat, n: nat)
    requires value < Power8(n)
    ensures |Reversed(value, Octal(), false, cnt)| <= n
    decreases value
  {
    if value > 0 {
      DigitCount(value / 8, cnt + 1, n - 1);
    }
  }

  lemma {:induction false} LeadingZeros(n: nat, s: seq<Byte>)
    ensures OctalValue(Repeat(48, n) + s) == OctalValue(s)
    decreases |s|, n
  {
    var t := Repeat(48, n) + s;
    if s != [] {
      LeadingZeros(n, s[..|s| - 1]);
      assert t[..|t| - 1] == Repeat(48, n) + s[..|s| - 1];
    } else if n > 0 {
      LeadingZeros(n - 1, s);
      assert t[..n - 1] == Repeat(48, n - 1) + s;
    }
  }

  /** The conversion %0<width>o. */
  function ZeroPadded(width: nat): Conversion { Conversion(false, false, false, false, true, false, width, -1) }

  lemma PlainField(value: nat, width: nat)
    ensures Formatted(value, false, false, Octal(), ZeroPadded(width))
      == Repeat(48, width - |Core(value, Octal(), ZeroPadded(width))|) + Mirror(Core(value, Octal(), ZeroPadded(width)))
    ensures Core(value, Octal(), ZeroPadded(width)) == if value == 0 then [48] else Reversed(value, Octal(), false, 0)
  {
    hide Mirror;
    var r := Reversed(value, Octal(), false, 0);
    if value == 0 {
      assert r == [] && Repeat(48, 1) == [48];
    } else {
      assert |r| >= 1 && Repeat(48, 1 - |r|) == [];
      assert r + [] == r;
    }
  }

  /** %0<width>o prints exactly `width` octal digits, with the right value, when that many are enough. */
  lemma OctalField(value: nat, width: nat)
    requires width > 0 && value < Power8(width)
    ensures var s := Formatted(value, false, false, Octal(), ZeroPadded(width));
      |s| == width && OctalDigits(s) && OctalValue(s) == value
  {
    hide Formatted, Core, Reversed, Mirror, Power8, Repeat, OctalDigits, OctalValue;
    var r := Reversed(value, Octal(), false, 0);
    PlainField(value, width);
    DigitsOfOctal(value, 0);
    DigitCount(value, 0, width);
    if value == 0 {
      OneZero();
      ZeroFilled(width - 1, [48]);
    } else {
      ZeroFilled(width - |r|, Mirror(r));
    }
  }

  lemma OneZero()
    ensures Mirror([48]) == [48] && OctalDigits([48]) && OctalValue([48]) == 0
  {
    assert [48][..0] == [];
  }

  lemma ZeroFilled(n: nat, s: seq<Byte>)
    requires OctalDigits(s)
    ensures OctalDigits(Repeat(48, n) + s) && OctalValue(Repeat(48, n) + s) == OctalValue(s)
  {
    LeadingZeros(n, s);
  }

  /** snprintf into a buffer: as much of the text as fits, and a null terminator; nothing when there is no room at all. */
  function Printed(size: nat, text: seq<Byte>): (s: seq<Byte>)
    ensures |s| <= size
  {
    if size == 0 then [] else (if |text| < size then text else text[..size - 1]) + [0]
  }

  /** What is printed ends with a null byte, and the text before it is cut only when the buffer is full. */
  lemma PrintedMeaning(size: nat, text: seq<Byte>)
    requires size > 0
    ensures var s := Printed(size, text);
      && s != [] && s[|s| - 1] == 0 && s[..|s| - 1] <= text
      && (s[..|s| - 1] == text || |s| == size) && (|s| < size ==> s == text + [0])
  {
    var s := Printed(size, text);
    assert s[..|s| - 1] == if |text| < size then text else text[..size - 1];
  }

  /** A buffer with some bytes put over it. */
  function Put(m: seq<Byte>, at: nat, bytes: seq<Byte>): (r: seq<Byte>)
    requires at + |bytes| <= |m|
    ensures |r| == |m|
  {
    m[..at] + bytes + m[at + |bytes|..]
  }

  // The buffer after k characters of the text were stored.
  function Stored(before: seq<Byte>, at: nat, text: seq<Byte>, k: nat): (s: seq<Byte>)
    requires k <= |text| && at + k <= |before|
    ensures |s| == |before|
  {
    before[..at] + text[..k] + before[at + k..]
  }

  lemma NothingStored(before: seq<Byte>, at: nat, text: seq<Byte>)
    requires at <= |before|
    ensures Stored(before, at, text, 0) == before
  {
  }

  lemma StoreNext(before: seq<Byte>, at: nat, text: seq<Byte>, k: nat)
    requires k < |text| && at + k < |before|
    ensures Stored(before, at, text, k)[at + k := text[k]] == Stored(before, at, text, k + 1)
  {
  }

  lemma StoreEnd(before: seq<Byte>, at: nat, size: nat, text: seq<Byte>, k: nat)
    requires size > 0 && at + size <= |before| && k == if |text| < size then |text| else size - 1
    ensures Stored(before, at, text, k)[at + k := 0] == Put(before, at, Printed(size, text))
  {
    assert Printed(size, text) == text[..k] + [0];
  }

  lemma NothingPut(before: seq<Byte>, at: nat, text: seq<Byte>)
    requires at <= |before|
    ensures Put(before, at, Printed(0, text)) == before
  {
  }

  /** vsnprintf_helper, for every character, and the terminator. */
  method Snprintf(buffer: array<Byte>, at: nat, size: nat, text: seq<Byte>) returns (length: nat)
    requires at + size <= buffer.Length
    modifies buffer
    ensures length == |text|
    ensures buffer[..] == Put(old(buffer[..]), at, Printed(size, text))
  {
    hide Stored, Printed, Put;
    ghost var before := buffer[..];
    var p := at;
    length := 0;
    var maxLength := if size > 0 then size - 1 else 0;
    NothingStored(before, at, text);
    for i := 0 to |text|
      invariant length == i && p == at + if i < maxLength then i else maxLength
      invariant buffer[..] == Stored(before, at, text, p - at)
    {
      if length < maxLength {
        StoreNext(before, at, text, p - at);
        buffer[p] := text[i];
        p := p + 1;
      }
      length := length + 1;
    }
    if size > 0 {
      StoreEnd(before, at, size, text, p - at);
      buffer[p] := 0;
    } else {
      NothingPut(before, at, text);
    }
  }
}
