/**
 What the bytes of an archive header are, field by field, and which headers and fields are
 read, in the terms of the format.
 */
module UstarFields {
  import opened Stdio
  import opened Ustar

  /* ----- octal fields ----- */

  /** Octal digits of one length are told apart by their value. */
  lemma {:induction false} OctalUnique(s: seq<Byte>, t: seq<Byte>)
    requires |s| == |t| && OctalDigits(s) && OctalDigits(t) && OctalValue(s) == OctalValue(t)
    ensures s == t
  {
    if s != [] {
      var n := |s| - 1;
      assert 8 * OctalValue(s[..n]) + (s[n] - 48) as int == 8 * OctalValue(t[..n]) + (t[n] - 48) as int;
      OctalUnique(s[..n], t[..n]);
      assert s == s[..n] + [s[n]] && t == t[..n] + [t[n]];
    }
  }

  // The text of a field whose digits are known.
  lemma TextIs(value: nat, width: nat, digits: seq<Byte>)
    requires width > 0 && |digits| == width && OctalDigits(digits) && OctalValue(digits) == value && value < Power8(width)
    ensures OctalText(value, width) == digits && Printed(width + 1, OctalText(value, width)) == digits + [0]
  {
    hide Formatted, OctalDigits, OctalValue, Power8;
    OctalField(value, width);
    OctalUnique(OctalText(value, width), digits);
  }

  /** Octal digits for a number behind a terminator. */
  predicate Octals(field: seq<Byte>, value: nat) {
    field != [] && field[|field| - 1] == 0 && OctalDigits(field[..|field| - 1]) && OctalValue(field[..|field| - 1]) == value
  }

  lemma PrintedOctals(value: nat, width: nat)
    requires width > 0 && value < Power8(width)
    ensures |Printed(width + 1, OctalText(value, width))| == width + 1 && Octals(Printed(width + 1, OctalText(value, width)), value)
  {
    hide Formatted, OctalDigits, OctalValue, Power8;
    OctalField(value, width);
    assert (OctalText(value, width) + [0])[..width] == OctalText(value, width);
  }

  lemma Step(d: seq<Byte>)
    requires d != []
    ensures OctalValue(d) == 8 * OctalValue(d[..|d| - 1]) + d[|d| - 1] - 48
  {
  }

  // The value of digits grows from the left.
  lemma ModeDigits()
    ensures OctalValue([48, 48, 48, 48, 54, 52, 52]) == 420 && OctalValue([48, 48, 48, 48, 55, 53, 53]) == 493
  {
    Grow([48, 48, 48, 48, 54, 52, 52], 7);
    Grow([48, 48, 48, 48, 55, 53, 53], 7);
  }

  lemma TimeDigits()
    ensures OctalValue([49, 48, 51, 53, 53, 55, 48, 54, 48, 48, 48]) == 1136102400
  {
    Grow([49, 48, 51, 53, 53, 55, 48, 54, 48, 48, 48], 11);
  }

  function From(d: seq<Byte>, k: nat, v: int): int
    requires k <= |d|
    decreases |d| - k
  {
    if k == |d| then v else From(d, k + 1, 8 * v + d[k] - 48)
  }

  lemma {:induction false} FromIs(d: seq<Byte>, k: nat)
    requires k <= |d|
    ensures From(d, k, OctalValue(d[..k])) == OctalValue(d)
    decreases |d| - k
  {
    if k == |d| {
      assert d[..k] == d;
    } else {
      Step(d[..k + 1]);
      assert d[..k + 1][..k] == d[..k];
      FromIs(d, k + 1);
    }
  }

  lemma Grow(d: seq<Byte>, n: nat)
    requires n == |d|
    ensures OctalValue(d) == From(d, 0, 0)
  {
    FromIs(d, 0);
    assert d[..0] == [];
  }

  /* ----- the fields of a header ----- */

  // The bytes that store k leaves in the header.
  lemma FieldIs(name: seq<Byte>, regular: bool, size: nat, k: nat, at: nat, bytes: seq<Byte>)
    requires k < 11 && Stores(name, regular, size)[k] == Store(at, bytes)
    ensures at + |bytes| <= 512 && Header(name, regular, size)[at..at + |bytes|] == bytes
  {
    hide Header, Stores;
    HeaderField(name, regular, size, k);
  }

  /** The mode: 0644 for a file, 0755 for a directory. */
  lemma ModeField(name: seq<Byte>, regular: bool, size: nat)
    ensures Header(name, regular, size)[100..108] == if regular then [48, 48, 48, 48, 54, 52, 52, 0] else [48, 48, 48, 48, 55, 53, 53, 0]
  {
    hide Header, Stores, OctalText, Printed, OctalValue;
    ModeDigits();
    SevenDigits();
    TextIs(if regular then 420 else 493, 7, if regular then [48, 48, 48, 48, 54, 52, 52] else [48, 48, 48, 48, 55, 53, 53]);
    StoreList(name, regular, size);
    FieldIs(name, regular, size, 1, 100, Printed(8, OctalText(if regular then 420 else 493, 7)));
  }

  lemma SevenDigits()
    ensures Power8(7) == 2097152
  {
  }

  lemma FixedTexts()
    ensures Printed(8, NO_ID) == [48, 48, 48, 48, 48, 48, 48, 0] && Printed(32, ROOT) == [114, 111, 111, 116, 0]
    ensures Printed(6, MAGIC) == [117, 115, 116, 97, 114, 0]
  {
  }

  /** Owner and group are 0, and root by name. */
  lemma OwnerFields(name: seq<Byte>, regular: bool, size: nat)
    ensures var h := Header(name, regular, size);
      && h[108..116] == h[116..124] == [48, 48, 48, 48, 48, 48, 48, 0]
      && h[265..270] == h[297..302] == [114, 111, 111, 116, 0]
  {
    hide Header, Stores, Printed;
    FixedTexts();
    StoreList(name, regular, size);
    FieldIs(name, regular, size, 2, 108, [48, 48, 48, 48, 48, 48, 48, 0]);
    FieldIs(name, regular, size, 3, 116, [48, 48, 48, 48, 48, 48, 48, 0]);
    FieldIs(name, regular, size, 9, 297, [114, 111, 111, 116, 0]);
    FieldIs(name, regular, size, 10, 265, [114, 111, 111, 116, 0]);
  }

  /** The time is 10355706000 in octal; the size is that of the file. */
  lemma NumberFields(name: seq<Byte>, regular: bool, size: nat)
    requires size < 0x1_0000_0000
    ensures var h := Header(name, regular, size);
      && h[136..148] == [49, 48, 51, 53, 53, 55, 48, 54, 48, 48, 48, 0]
      && Octals(h[124..136], size)
  {
    hide Header, Stores, OctalText, Printed, OctalValue, Octals;
    TimeDigits();
    Power8Of11();
    TextIs(1136102400, 11, [49, 48, 51, 53, 53, 55, 48, 54, 48, 48, 48]);
    PrintedOctals(size, 11);
    StoreList(name, regular, size);
    FieldIs(name, regular, size, 5, 136, Printed(12, OctalText(1136102400, 11)));
    FieldIs(name, regular, size, 4, 124, Printed(12, OctalText(size, 11)));
  }

  /** The type, '0' or '5', and the mark of the format: "ustar", a null byte, "00". */
  lemma MarkFields(name: seq<Byte>, regular: bool, size: nat)
    ensures var h := Header(name, regular, size);
      h[156] == (if regular then 48 else 53) && h[257..263] == [117, 115, 116, 97, 114, 0] && h[263..265] == [48, 48]
  {
    hide Header, Stores, Printed;
    FixedTexts();
    StoreList(name, regular, size);
    TypeField(name, regular, size);
    FieldIs(name, regular, size, 7, 257, Printed(6, MAGIC));
    FieldIs(name, regular, size, 8, 263, [48, 48]);
  }

  lemma OneByteAt(h: seq<Byte>, at: nat, b: Byte)
    requires at < |h| && h[at..at + 1] == [b]
    ensures h[at] == b
  {
    assert h[at..at + 1][0] == h[at];
  }

  lemma TypeField(name: seq<Byte>, regular: bool, size: nat)
    ensures Header(name, regular, size)[156] == if regular then 48 else 53
  {
    hide Header, Stores, Printed, OctalText;
    StoreList(name, regular, size);
    FieldIs(name, regular, size, 6, 156, [if regular then 48 else 53]);
    OneByteAt(Header(name, regular, size), 156, if regular then 48 else 53);
  }

  /** The name comes first, and the checksum at 148 is that of the header. */
  lemma NameAndSum(name: seq<Byte>, regular: bool, size: nat)
    requires |name| <= 99
    ensures var h := Header(name, regular, size);
      h[..|name|] == name && h[|name|] == 0 && Octals(h[148..156], Checksum(h, 512))
  {
    hide Stores, OctalText, Unsummed, Octals, Checksum;
    StoreList(name, regular, size);
    FieldIs(name, regular, size, 0, 0, name + [0]);
    var h := Header(name, regular, size);
    assert h[..|name|] == h[0..|name| + 1][..|name|] && h[|name|] == h[0..|name| + 1][|name|];
    var u := Unsummed(name, regular, size);
    var sum := Checksum(u, 512);
    SevenDigits();
    PrintedOctals(sum, 7);
    ChecksumIgnoresField(u, Printed(8, OctalText(sum, 7)), 512);
    PutThere(u, Store(148, Printed(8, OctalText(sum, 7))));
  }

  /** All else is zero. */
  lemma ZeroBytes(name: seq<Byte>, regular: bool, size: nat, o: nat)
    requires |name| <= 99 && size < 0x1_0000_0000
    requires |name| < o < 100 || 157 <= o < 257 || 270 <= o < 297 || 302 <= o < 512
    ensures Header(name, regular, size)[o] == 0
  {
    hide Header;
    StoresBeside(name, regular, size, o);
    HeaderZero(name, regular, size, o);
  }

  lemma StoresBeside(name: seq<Byte>, regular: bool, size: nat, o: nat)
    requires |name| <= 99 && (|name| < o < 100 || 157 <= o < 257 || 270 <= o < 297 || 302 <= o < 512)
    ensures forall x | x in Stores(name, regular, size) :: Apart(x, o, 1)
  {
    hide OctalText;
  }

  /* ----- the checksum ----- */

  /** The checksum of an empty header is that of eight blanks; a byte outside the checksum field counts with its value. */
  lemma ChecksumIsSum(h: seq<Byte>, o: nat, x: Byte)
    requires |h| == 512 && o < 512 && !(148 <= o < 156)
    ensures Checksum(Zeros512(), 512) == 256
    ensures Checksum(h[o := x], 512) == Checksum(h, 512) - h[o] as int + x as int
  {
    OneByte(h, o, x, 512);
    Blanks(512);
  }

  lemma {:induction false} OneByte(h: seq<Byte>, o: nat, x: Byte, n: nat)
    requires |h| == 512 && o < 512 && !(148 <= o < 156) && n <= 512
    ensures Checksum(h[o := x], n) == Checksum(h, n) + if o < n then x as int - h[o] as int else 0
  {
    if n > 0 {
      OneByte(h, o, x, n - 1);
    }
  }

  lemma {:induction false} Blanks(n: nat)
    requires n <= 512
    ensures Checksum(Zeros512(), n) == if n <= 148 then 0 else if n <= 156 then 32 * (n - 148) else 256
  {
    if n > 0 {
      Blanks(n - 1);
    }
  }

  /* ----- reading ----- */

  /** n octal digits, then a blank or a null byte, for a value that fits in 32 bits. */
  predicate OctalUpTo(s: seq<Byte>, n: nat, value: nat) {
    0 < n < |s| && OctalDigits(s[..n]) && s[n] in [0, 32] && OctalValue(s[..n]) == value && value < 0x1_0000_0000
  }

  /** Exactly such fields are read. */
  lemma FieldMeaning(s: seq<Byte>, value: nat)
    ensures ParseFrom(s, 0, 0) == Some(value) <==> exists n: nat :: OctalUpTo(s, n, value)
  {
    hide OctalDigits, OctalValue;
    EmptyValue();
    assert s[..0] == [];
    assert OctalDigits(s[..0]) by { NoDigit(s); }
    ParseIs(s, 0, value);
    if ParseFrom(s, 0, 0) == Some(value) {
      var n: nat :| OctalUpTo(s, n, value);
    }
  }

  lemma NoDigit(s: seq<Byte>)
    ensures OctalDigits(s[..0])
  {
  }

  lemma {:induction false} ParseIs(s: seq<Byte>, k: nat, value: nat)
    requires k <= |s| && OctalDigits(s[..k]) && 0 <= OctalValue(s[..k]) < 0x1_0000_0000
    ensures ParseFrom(s, k, OctalValue(s[..k])) == Some(value) <==> exists n: nat :: n >= k && OctalUpTo(s, n, value)
    decreases |s| - k
  {
    hide OctalValue;
    if k == |s| {
    } else if 48 <= s[k] <= 55 {
      Step(s[..k + 1]);
      assert s[..k + 1][..k] == s[..k];
      assert OctalDigits(s[..k + 1]);
      if OctalValue(s[..k]) > 0xFFFF_FFFF / 8 {
        forall n: nat | n >= k && OctalUpTo(s, n, value)
          ensures false
        {
          TooLarge(s, k, n);
        }
      } else {
        ParseIs(s, k + 1, value);
        assert !OctalUpTo(s, k, value);
      }
    } else {
      forall n: nat | n > k
        ensures !OctalUpTo(s, n, value)
      {
        NotPast(s, k, n, value);
      }
      assert OctalUpTo(s, k, value) <==> k > 0 && s[k] in [0, 32] && OctalValue(s[..k]) == value;
    }
  }

  lemma NotPast(s: seq<Byte>, k: nat, n: nat, value: nat)
    requires k < |s| && !(48 <= s[k] <= 55) && n > k
    ensures !OctalUpTo(s, n, value)
  {
    if n < |s| {
      assert s[..n][k] == s[k];
    }
  }

  // More digits do not make the value smaller.
  lemma TooLarge(s: seq<Byte>, k: nat, n: nat)
    requires k < |s| && 48 <= s[k] <= 55 && k <= n < |s| && s[n] in [0, 32] && OctalDigits(s[..n]) && OctalValue(s[..k]) > 0xFFFF_FFFF / 8
    ensures OctalValue(s[..n]) >= 0x1_0000_0000
  {
    hide OctalValue, OctalDigits;
    PrefixValue(s[..n], k);
    assert s[..n][..k] == s[..k];
  }

  /** Exactly which headers are read as an entry. */
  lemma AcceptedExactly(h: seq<Byte>)
    requires |h| == 512
    ensures Parsed(h).Entry? <==>
      && h[257..265] == [117, 115, 116, 97, 114, 0, 48, 48] && ParseFrom(h[148..156], 0, 0) == Some(Checksum(h, 512))
      && h[99] == 0 && h[345] == 0
      && (h[156] == 53 || (h[156] == 48 && exists n: nat | n < 0x8000_0000 :: ParseFrom(h[124..136], 0, 0) == Some(n)))
    ensures Parsed(h) == Eof <==> forall i | 0 <= i < 512 :: h[i] == 0
  {
    hide ParseFrom, Checksum, Stripped, CString;
    assert h[257..265][..6] == h[257..263] && h[257..265][6] == h[263] && h[257..265][7] == h[264];
    assert h[257..265] == h[257..263] + [h[263], h[264]];
    if h[257..263] == MAGIC + [0] {
      assert h[257] == h[257..263][0];
    }
  }

  /* ----- names ----- */

  /** The name starts with a slash, or a directory that is the same or the one above. */
  predicate StartsBadly(s: seq<Byte>) {
    [47] <= s || [46, 47] <= s || [46, 46, 47] <= s
  }

  /**
   Stripping drops whole directories from the front, as long as what is left starts badly, and no more; only of an
   empty rest or ".." it makes ".".
   */
  lemma StrippedIsLongest(s: seq<Byte>) returns (k: nat)
    ensures k <= |s| && !StartsBadly(s[k..]) && (k > 0 ==> s[k - 1] == 47)
    ensures forall i | 0 <= i < k && (i == 0 || s[i - 1] == 47) :: StartsBadly(s[i..])
    ensures Stripped(s) == if s[k..] == [] || s[k..] == [46, 46] then [46] else s[k..]
  {
    k := DroppedIsLongest(s);
  }

  lemma BadIs(s: seq<Byte>)
    ensures StartsBadly(s) <==> Antisocial(s)
  {
  }

  lemma NoSlashBefore(s: seq<Byte>, d: nat)
    requires d <= |s| && 47 !in s[..d]
    ensures forall i | 0 <= i < d :: s[i] != 47
  {
    forall i | 0 <= i < d
      ensures s[i] != 47
    {
      assert s[..d][i] == s[i];
    }
  }

  lemma {:induction false} DroppedIsLongest(s: seq<Byte>) returns (k: nat)
    ensures k <= |s| && !StartsBadly(s[k..]) && (k > 0 ==> s[k - 1] == 47) && Dropped(s) == s[k..]
    ensures forall i | 0 <= i < k && (i == 0 || s[i - 1] == 47) :: StartsBadly(s[i..])
    decreases |s|
  {
    BadIs(s);
    if Antisocial(s) {
      var d := Slash(s) + 1;
      var t := s[d..];
      var m := DroppedIsLongest(t);
      k := d + m;
      assert t[m..] == s[k..];
      NoSlashBefore(s, d - 1);
      forall i | 0 <= i < k && (i == 0 || s[i - 1] == 47)
        ensures StartsBadly(s[i..])
      {
        if i == 0 {
          assert s[0..] == s;
        } else {
          assert i >= d;
          assert s[i..] == t[i - d..];
          assert i > d ==> t[i - d - 1] == s[i - 1];
        }
      }
    } else {
      k := 0;
      assert s[0..] == s;
    }
  }
}
