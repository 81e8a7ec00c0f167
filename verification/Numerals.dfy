/**
 What the fields that format_integer prints say: a numeral has the value of the number, in
 every base and with every combination of flags, and how wide the field is.
 */
module Numerals {
  import opened Stdio

  /** The value of a numeral in a base, highest digit first. */
  function Value(ds: seq<nat>, base: nat): nat {
    if ds == [] then 0 else Value(ds[..|ds| - 1], base) * base + ds[|ds| - 1]
  }

  /** A numeral of a base, without leading zeros. */
  predicate Numeral(ds: seq<nat>, base: nat) {
    (forall i | 0 <= i < |ds| :: ds[i] < base) && (ds != [] ==> ds[0] != 0)
  }

  function Characters(ds: seq<nat>, b: Base): (s: seq<Byte>)
    requires GoodBase(b) && forall i | 0 <= i < |ds| :: ds[i] < b.base
    ensures |s| == |ds| && forall i | 0 <= i < |s| :: s[i] == b.digits[ds[i]]
  {
    if ds == [] then [] else Characters(ds[..|ds| - 1], b) + [b.digits[ds[|ds| - 1]]]
  }

  /** A numeral with a comma before every `b.group` digits from the right, if asked for. */
  function Grouped(ds: seq<nat>, b: Base, group: bool): (s: seq<Byte>)
    requires GoodBase(b) && forall i | 0 <= i < |ds| :: ds[i] < b.base
    ensures |s| >= |ds|
    decreases |ds|
  {
    if !group || |ds| <= b.group then Characters(ds, b)
    else Grouped(ds[..|ds| - b.group], b, group) + [44] + Characters(ds[|ds| - b.group..], b)
  }

  function Low(value: nat, b: Base): (d: nat)
    requires GoodBase(b)
    ensures d < b.base
  {
    value % b.base
  }

  // The numeral that the digit loop takes apart.
  function Digits(value: nat, b: Base): (ds: seq<nat>)
    requires GoodBase(b)
    ensures forall i | 0 <= i < |ds| :: ds[i] < b.base
    ensures ds == [] <==> value == 0
    ensures value > 0 ==> ds[..|ds| - 1] == Digits(Rest(value, b), b) && ds[|ds| - 1] == Low(value, b)
    decreases value
  {
    if value == 0 then [] else Digits(Rest(value, b), b) + [Low(value, b)]
  }

  lemma {:induction false} DigitsAreNumeral(value: nat, b: Base)
    requires GoodBase(b)
    ensures Numeral(Digits(value, b), b.base) && Value(Digits(value, b), b.base) == value
    decreases value
  {
    hide Numeral, Value, Rest;
    if value > 0 {
      DigitsAreNumeral(Rest(value, b), b);
      RestBack(value, b);
      MoreDigits(Digits(Rest(value, b), b), value % b.base, b.base);
    } else {
      NoValue(b.base);
    }
  }

  lemma RestBack(value: nat, b: Base)
    requires GoodBase(b)
    ensures value == Rest(value, b) * b.base + value % b.base
    ensures value > 0 && Rest(value, b) == 0 ==> value % b.base != 0
  {
    assert value == value / b.base * b.base + value % b.base;
  }

  lemma MoreDigits(ds: seq<nat>, d: nat, base: nat)
    requires Numeral(ds, base) && d < base && (ds == [] ==> d != 0)
    ensures Numeral(ds + [d], base) && Value(ds + [d], base) == Value(ds, base) * base + d
  {
    assert (ds + [d])[..|ds|] == ds;
  }

  lemma NoValue(base: nat)
    ensures Numeral([], base) && Value([], base) == 0
  {
  }

  lemma {:induction false} MirrorConcat(s: seq<Byte>, t: seq<Byte>)
    ensures Mirror(s + t) == Mirror(t) + Mirror(s)
  {
    if s == [] {
      assert s + t == t && Mirror(t) + [] == Mirror(t);
    } else {
      assert (s + t)[0] == s[0] && (s + t)[1..] == s[1..] + t;
      MirrorConcat(s[1..], t);
    }
  }

  lemma {:induction false} MirrorRepeat(ch: Byte, n: nat)
    ensures Mirror(Repeat(ch, n)) == Repeat(ch, n)
  {
    if n > 0 {
      MirrorRepeat(ch, n - 1);
      assert Repeat(ch, n)[1..] == Repeat(ch, n - 1);
      assert Repeat(ch, n - 1) + [ch] == Repeat(ch, n);
    }
  }

  // Where the digits from number cnt on stand within their group.
  predicate Within(cnt: nat, r: nat, b: Base)
    requires GoodBase(b)
  {
    r < b.group && cnt % b.group == r
  }

  lemma NextWithin(cnt: nat, r: nat, b: Base)
    requires GoodBase(b) && Within(cnt, r, b)
    ensures Within(cnt + 1, if r + 1 == b.group then 0 else r + 1, b)
  {
    var q := cnt / b.group;
    assert cnt == q * b.group + r;
    if r + 1 == b.group {
      assert cnt + 1 == (q + 1) * b.group;
      Remainder(q + 1, b.group, 0);
    } else {
      Remainder(q, b.group, r + 1);
    }
  }

  lemma Remainder(q: nat, g: nat, r: nat)
    requires r < g
    ensures (q * g + r) % g == r
  {
    var n := q * g + r;
    var k := n / g;
    assert n == k * g + n % g;
    var d: nat := if q < k then k - q else q - k;
    Distribute(q, k, g);
    Distribute(k, q, g);
    NoMultiple(d, g);
  }

  lemma Distribute(a: int, b: int, g: int)
    ensures (a - b) * g == a * g - b * g
  {
  }

  lemma NoMultiple(d: nat, g: nat)
    requires d * g < g
    ensures d == 0
  {
    if d > 0 {
      Scale(1, d, g);
    }
  }

  // What the loop has still to put down when the digits before it end r digits into a group.
  function Ahead(ds: seq<nat>, b: Base, group: bool, r: nat): seq<Byte>
    requires GoodBase(b) && r < b.group && forall i | 0 <= i < |ds| :: ds[i] < b.base
  {
    var k := b.group - r;
    if !group || |ds| <= k then Characters(ds, b)
    else Grouped(ds[..|ds| - k], b, group) + [44] + Characters(ds[|ds| - k..], b)
  }

  lemma LastCharacter(ds: seq<nat>, b: Base)
    requires GoodBase(b) && (forall i | 0 <= i < |ds| :: ds[i] < b.base) && ds != []
    ensures Characters(ds, b) == Characters(ds[..|ds| - 1], b) + [b.digits[ds[|ds| - 1]]]
  {
  }

  lemma AheadStep(ds: seq<nat>, b: Base, group: bool, r: nat)
    requires GoodBase(b) && r < b.group && (forall i | 0 <= i < |ds| :: ds[i] < b.base) && ds != []
    ensures var init := ds[..|ds| - 1];
      Ahead(ds, b, group, r) == Before(init, b, group, r) + [b.digits[ds[|ds| - 1]]]
  {
    hide Ahead, Before, Grouped, Characters;
    var k := b.group - r;
    if group && |ds| > k {
      if k == 1 {
        FullGroup(ds, b, r);
      } else {
        OpenGroup(ds, b, r);
      }
    } else {
      NoComma(ds, b, group, r);
    }
  }

  lemma FullGroup(ds: seq<nat>, b: Base, r: nat)
    requires GoodBase(b) && r + 1 == b.group && (forall i | 0 <= i < |ds| :: ds[i] < b.base) && |ds| > 1
    ensures Ahead(ds, b, true, r) == Before(ds[..|ds| - 1], b, true, r) + [b.digits[ds[|ds| - 1]]]
  {
    hide Grouped, Characters;
    GroupBehind(ds, b, 1);
    GroupedAhead(ds[..|ds| - 1], b, true);
  }

  lemma OpenGroup(ds: seq<nat>, b: Base, r: nat)
    requires GoodBase(b) && r + 1 < b.group && (forall i | 0 <= i < |ds| :: ds[i] < b.base) && |ds| > b.group - r
    ensures Ahead(ds, b, true, r) == Before(ds[..|ds| - 1], b, true, r) + [b.digits[ds[|ds| - 1]]]
  {
    hide Grouped, Characters;
    GroupBehind(ds, b, b.group - r);
  }

  lemma NoComma(ds: seq<nat>, b: Base, group: bool, r: nat)
    requires GoodBase(b) && r < b.group && (forall i | 0 <= i < |ds| :: ds[i] < b.base) && ds != [] && !(group && |ds| > b.group - r)
    ensures Ahead(ds, b, group, r) == Before(ds[..|ds| - 1], b, group, r) + [b.digits[ds[|ds| - 1]]]
  {
    hide Grouped, Characters;
    LastCharacter(ds, b);
    assert Characters(ds[..|ds| - 1], b) + [] == Characters(ds[..|ds| - 1], b);
  }

  // The group of the last k digits behind a comma.
  lemma GroupBehind(ds: seq<nat>, b: Base, k: nat)
    requires GoodBase(b) && (forall i | 0 <= i < |ds| :: ds[i] < b.base) && 0 < k < |ds|
    ensures var init, d := ds[..|ds| - 1], [b.digits[ds[|ds| - 1]]];
      var cs := Grouped(ds[..|ds| - k], b, true) + [44];
      && init[..|init| - (k - 1)] == ds[..|ds| - k]
      && cs + Characters(ds[|ds| - k..], b) == (cs + Characters(init[|init| - (k - 1)..], b)) + d
      && (k == 1 ==> cs + Characters(ds[|ds| - k..], b) == cs + d)
  {
    hide Grouped, Characters;
    var tail := ds[|ds| - k..];
    var init, d := ds[..|ds| - 1], [b.digits[ds[|ds| - 1]]];
    assert tail[k - 1] == ds[|ds| - 1];
    assert init[..|init| - (k - 1)] == ds[..|ds| - k] && init[|init| - (k - 1)..] == tail[..k - 1];
    LastCharacter(tail, b);
    Assoc(Grouped(ds[..|ds| - k], b, true) + [44], Characters(tail[..k - 1], b), d);
    if k == 1 {
      NoCharacters(b);
      assert tail[..0] == [] && [] + d == d;
    }
  }

  lemma NoCharacters(b: Base)
    requires GoodBase(b)
    ensures Characters([], b) == []
  {
  }

  // The digits before the last one, and the comma after them if they end a group.
  function Before(init: seq<nat>, b: Base, group: bool, r: nat): seq<Byte>
    requires GoodBase(b) && r < b.group && forall i | 0 <= i < |init| :: init[i] < b.base
  {
    if r + 1 < b.group then Ahead(init, b, group, r + 1)
    else Ahead(init, b, group, 0) + if group && init != [] then [44] else []
  }

  // The loop's output from digit cnt on, read backwards; a comma goes in front of a full group when digits follow.
  lemma {:induction false} ReversedIsGrouped(value: nat, b: Base, group: bool, cnt: nat, r: nat)
    requires GoodBase(b) && Within(cnt, r, b)
    ensures Mirror(Reversed(value, b, group, cnt))
      == Ahead(Digits(value, b), b, group, r) + if group && cnt > 0 && r == 0 && value > 0 then [44] else []
    decreases value
  {
    hide Digit, Rest, Ahead, Within, Reversed, Mirror, Digits;
    if value > 0 {
      var ds := Digits(value, b);
      var rest := Rest(value, b);
      var next := if r + 1 == b.group then 0 else r + 1;
      NextWithin(cnt, r, b);
      ReversedIsGrouped(rest, b, group, cnt + 1, next);
      AheadStep(ds, b, group, r);
      ReversedMirror(value, b, group, cnt, r);
      var init := Digits(rest, b);
      assert ds[..|ds| - 1] == init && (init == [] <==> rest == 0);
      CommaAfter(init, b, group, cnt, r, rest);
    } else {
      WithinGroup(cnt, r, b);
      NothingAhead(b, group, r);
    }
  }

  lemma WithinGroup(cnt: nat, r: nat, b: Base)
    requires GoodBase(b) && Within(cnt, r, b)
    ensures r < b.group
  {
  }

  lemma CommaAfter(init: seq<nat>, b: Base, group: bool, cnt: nat, r: nat, rest: nat)
    requires GoodBase(b) && r < b.group && (forall i | 0 <= i < |init| :: init[i] < b.base) && (init == [] <==> rest == 0)
    ensures var next := if r + 1 == b.group then 0 else r + 1;
      Ahead(init, b, group, next) + (if group && cnt + 1 > 0 && next == 0 && rest > 0 then [44] else []) == Before(init, b, group, r)
  {
    hide Ahead;
    assert forall s: seq<Byte> :: s + [] == s;
  }

  lemma NothingAhead(b: Base, group: bool, r: nat)
    requires GoodBase(b) && r < b.group
    ensures Digits(0, b) == [] && Ahead([], b, group, r) == []
    ensures forall cnt :: Mirror(Reversed(0, b, group, cnt)) == []
  {
  }

  lemma ReversedMirror(value: nat, b: Base, group: bool, cnt: nat, r: nat)
    requires GoodBase(b) && Within(cnt, r, b) && value > 0
    ensures Mirror(Reversed(value, b, group, cnt))
      == (Mirror(Reversed(Rest(value, b), b, group, cnt + 1)) + [b.digits[value % b.base]]) + if group && cnt > 0 && r == 0 then [44] else []
  {
    hide Rest;
    ReversedStep(value, b, group, cnt);
    var comma: seq<Byte> := if group && cnt > 0 && r == 0 then [44] else [];
    var d := [Digit(value, b)];
    var tail := Reversed(Rest(value, b), b, group, cnt + 1);
    assert comma + d + tail == comma + (d + tail);
    MirrorConcat(comma, d + tail);
    MirrorConcat(d, tail);
    Singleton(Digit(value, b));
    assert Mirror(comma) == comma;
  }

  lemma Singleton(x: Byte)
    ensures Mirror([x]) == [x]
  {
    assert [x][1..] == [];
  }

  /** How many zeros stand before the numeral: up to the precision, and the one # asks for in base 8. */
  function LeadingZeros(numeral: seq<Byte>, b: Base, c: Conversion): (n: nat) {
    var wanted := if c.precision < 0 then 1 else if c.precision < 63 then c.precision else 63;
    if wanted > |numeral| then wanted - |numeral|
    else if c.pound && b.base == 8 && (numeral == [] || numeral[0] != 48) then 1 else 0
  }

  /** The digits before padding. */
  lemma CoreMeaning(value: nat, b: Base, c: Conversion)
    requires GoodBase(b)
    ensures var g := Grouped(Digits(value, b), b, c.group);
      Mirror(Core(value, b, c)) == Repeat(48, LeadingZeros(g, b, c)) + g && |Core(value, b, c)| == LeadingZeros(g, b, c) + |g|
  {
    hide Core, Digits, Mirror, Reversed, Grouped, Repeat;
    var text := Reversed(value, b, c.group, 0);
    LastDigitFirst(value, b, c.group);
    MirrorEnds(text);
    CoreIs(value, b, c);
    var zeros := LeadingZeros(Mirror(text), b, c);
    MirrorConcat(text, Repeat(48, zeros));
    MirrorRepeat(48, zeros);
    RepeatIs(zeros, zeros);
    MirrorEnds(Core(value, b, c));
  }

  lemma MirrorEnds(s: seq<Byte>)
    ensures |Mirror(s)| == |s| && (s != [] ==> Mirror(s)[0] == s[|s| - 1])
  {
    if |s| > 1 {
      MirrorEnds(s[1..]);
    }
  }

  lemma CoreIs(value: nat, b: Base, c: Conversion)
    requires GoodBase(b)
    ensures Core(value, b, c) == Reversed(value, b, c.group, 0) + Repeat(48, LeadingZeros(Mirror(Reversed(value, b, c.group, 0)), b, c))
  {
    hide Reversed, Repeat, Mirror;
    var text := Reversed(value, b, c.group, 0);
    MirrorEnds(text);
    var precision := if c.precision < 0 then 1 else c.precision;
    var wanted := if precision < 63 then precision else 63;
    var zeros := if wanted < |text| then 0 else wanted - |text|;
    RepeatIs(wanted - |text|, zeros);
    var padded := text + Repeat(48, zeros);
    LastZero(zeros);
    Zeros(zeros);
    assert zeros == 0 ==> padded == text;
    Assoc(text, Repeat(48, zeros), [48]);
  }

  lemma LastZero(n: nat)
    ensures |Repeat(48, n)| == n && (n > 0 ==> Repeat(48, n)[n - 1] == 48)
  {
  }

  lemma LastDigitFirst(value: nat, b: Base, group: bool)
    requires GoodBase(b)
    ensures Mirror(Reversed(value, b, group, 0)) == Grouped(Digits(value, b), b, group)
  {
    hide Mirror, Reversed, Digits, Grouped, Ahead;
    ReversedIsGrouped(value, b, group, 0, 0);
    GroupedAhead(Digits(value, b), b, group);
    assert Ahead(Digits(value, b), b, group, 0) + [] == Ahead(Digits(value, b), b, group, 0);
  }

  lemma RepeatIs(n: int, m: nat)
    requires m == if n < 0 then 0 else n
    ensures Repeat(48, n) == Repeat(48, m) && |Repeat(48, m)| == m
  {
  }

  lemma GroupedAhead(ds: seq<nat>, b: Base, group: bool)
    requires GoodBase(b) && forall i | 0 <= i < |ds| :: ds[i] < b.base
    ensures Ahead(ds, b, group, 0) == Grouped(ds, b, group)
  {
  }

  /** The prefix of a hexadecimal number. */
  function Prefix(value: nat, b: Base, c: Conversion): seq<Byte> {
    if c.pound && value != 0 && b.x != 0 then [48, b.x] else []
  }

  /** The sign: a minus for negative numbers, for others a plus or a blank if a flag asks for it; none for unsigned conversions. */
  lemma SignMeaning(negative: bool, c: Conversion)
    ensures Sign(true, negative, c) == if negative then ['-' as int] else if c.plus then ['+' as int] else if c.space then [' ' as int] else []
    ensures Sign(false, negative, c) == []
  {
  }

  /** The room that sign, prefix and digits take, and what the width leaves beside them. */
  function TextWidth(value: nat, isSigned: bool, negative: bool, b: Base, c: Conversion): nat
    requires GoodBase(b)
  {
    |Sign(isSigned, negative, c)| + |Prefix(value, b, c)| + |Core(value, b, c)|
  }

  function Room(value: nat, isSigned: bool, negative: bool, b: Base, c: Conversion): nat
    requires GoodBase(b)
  {
    var t := TextWidth(value, isSigned, negative, b, c);
    if c.width > t then c.width - t else 0
  }

  /**
   Every field: blanks, sign, prefix, zeros, the numeral of the value with its commas, blanks. The room that the
   width leaves is filled with blanks before, zeros, or blanks behind; with both flags, with zeros and blanks behind.
   */
  lemma FieldMeaning(value: nat, isSigned: bool, negative: bool, b: Base, c: Conversion)
    returns (ds: seq<nat>, left: nat, zeros: nat, right: nat)
    requires GoodBase(b)
    ensures Numeral(ds, b.base) && Value(ds, b.base) == value
    ensures Formatted(value, isSigned, negative, b, c) == Repeat(32, left) + Sign(isSigned, negative, c) + Prefix(value, b, c)
      + Repeat(48, zeros) + Grouped(ds, b, c.group) + Repeat(32, right)
    ensures var room := Room(value, isSigned, negative, b, c);
      && left == (if c.minus || c.zero then 0 else room) && right == (if c.minus then room else 0)
      && zeros == LeadingZeros(Grouped(ds, b, c.group), b, c) + if c.zero then room else 0
    ensures |Core(value, b, c)| == LeadingZeros(Grouped(ds, b, c.group), b, c) + |Grouped(ds, b, c.group)|
  {
    hide Formatted, Digits, Core, Grouped, Sign, Prefix, Mirror, Numeral, Value, Repeat, Padding, LeadingZeros, Room, TextWidth;
    DigitsAreNumeral(value, b);
    ds := Digits(value, b);
    CoreMeaning(value, b, c);
    var z := LeadingZeros(Grouped(ds, b, c.group), b, c);
    var room := Room(value, isSigned, negative, b, c);
    left := if c.minus || c.zero then 0 else room;
    right := if c.minus then room else 0;
    var filled := if c.zero then room else 0;
    zeros := filled + z;
    Parts(value, isSigned, negative, b, c);
    ZerosJoin(filled, z);
    Regroup(Formatted(value, isSigned, negative, b, c), Repeat(32, left), Sign(isSigned, negative, c), Prefix(value, b, c), Repeat(48, filled),
            Mirror(Core(value, b, c)), Repeat(48, z), Grouped(ds, b, c.group), Repeat(32, right), Repeat(48, zeros));
  }

  // Where the room goes.
  lemma Parts(value: nat, isSigned: bool, negative: bool, b: Base, c: Conversion)
    requires GoodBase(b)
    ensures var room := Room(value, isSigned, negative, b, c);
      Formatted(value, isSigned, negative, b, c) ==
        Repeat(32, if c.minus || c.zero then 0 else room) + Sign(isSigned, negative, c) + Prefix(value, b, c)
        + Repeat(48, if c.zero then room else 0) + Mirror(Core(value, b, c)) + Repeat(32, if c.minus then room else 0)
  {
    hide Formatted, Core, Sign, Prefix, Mirror, Repeat, Padding;
    var pad := c.width - |Core(value, b, c)| - |Prefix(value, b, c)| - |Sign(isSigned, negative, c)|;
    var room := Room(value, isSigned, negative, b, c);
    Layout(value, isSigned, negative, b, c, pad);
    PaddingIs(!c.minus && !c.zero, 32, pad, if c.minus || c.zero then 0 else room);
    PaddingIs(c.minus, 32, pad, if c.minus then room else 0);
    PaddingIs(c.zero, 48, pad, if c.zero then room else 0);
  }

  /**
   How wide a field is: as wide as its width asks for, or as its text, exactly when it does not have both flags or
   the text fills the width. With both flags the room left is filled twice.
   */
  lemma FieldWidth(value: nat, isSigned: bool, negative: bool, b: Base, c: Conversion)
    requires GoodBase(b)
    ensures var t := TextWidth(value, isSigned, negative, b, c);
      var n := |Formatted(value, isSigned, negative, b, c)|;
      && (n == (if t >= c.width then t else c.width) <==> !(c.minus && c.zero) || c.width <= t)
      && (c.minus && c.zero && c.width > t ==> n == 2 * c.width - t)
  {
    hide Formatted, Core, Sign, Prefix, Mirror, Repeat, Padding;
    var pad := c.width - |Core(value, b, c)| - |Prefix(value, b, c)| - |Sign(isSigned, negative, c)|;
    var room := Room(value, isSigned, negative, b, c);
    Layout(value, isSigned, negative, b, c, pad);
    PaddingWidth(!c.minus && !c.zero, 32, pad);
    PaddingWidth(c.minus, 32, pad);
    PaddingWidth(c.zero, 48, pad);
    MirrorEnds(Core(value, b, c));
  }

  lemma PaddingWidth(needed: bool, ch: Byte, n: int)
    ensures |Padding(needed, ch, n)| == if needed && n > 0 then n else 0
  {
  }

  lemma Layout(value: nat, isSigned: bool, negative: bool, b: Base, c: Conversion, pad: int)
    requires GoodBase(b) && pad == c.width - |Core(value, b, c)| - |Prefix(value, b, c)| - |Sign(isSigned, negative, c)|
    ensures Formatted(value, isSigned, negative, b, c)
      == Padding(!c.minus && !c.zero, 32, pad) + Sign(isSigned, negative, c) + Prefix(value, b, c)
         + Padding(c.zero, 48, pad) + Mirror(Core(value, b, c)) + Padding(c.minus, 32, pad)
  {
    hide Core, Mirror, Sign, Padding;
  }

  lemma PaddingIs(needed: bool, ch: Byte, n: int, m: nat)
    requires m == if needed && n > 0 then n else 0
    ensures Padding(needed, ch, n) == Repeat(ch, m)
  {
  }

  lemma ZerosJoin(m: nat, n: nat)
    ensures Repeat(48, m) + Repeat(48, n) == Repeat(48, m + n)
  {
  }

  lemma Regroup(field: seq<Byte>, l: seq<Byte>, sign: seq<Byte>, x: seq<Byte>, f: seq<Byte>, core: seq<Byte>, z: seq<Byte>, g: seq<Byte>,
                r: seq<Byte>, zeros: seq<Byte>)
    requires field == l + sign + x + f + core + r && core == z + g && f + z == zeros
    ensures field == l + sign + x + zeros + g + r
  {
    var head := l + sign + x;
    assert (head + f) + (z + g) == (head + (f + z)) + g;
  }
}
