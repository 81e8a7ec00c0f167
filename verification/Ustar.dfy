/**
 Archive headers in the ustar format (IEEE Std 1003.1, pax utility, section "ustar
 Interchange Format"): composing one for a file and reading it back. Names are C strings,
 without their null terminator.
 */
module Ustar {
  import opened Stdio

  predicate NoNul(s: seq<Byte>) { forall i | 0 <= i < |s| :: s[i] != 0 }

  /* ----- names ----- */

  // The name starts with "/", "./" or "../".
  predicate Antisocial(s: seq<Byte>) {
    || (|s| >= 1 && s[0] == 47)
    || (|s| >= 2 && s[0] == 46 && s[1] == 47)
    || (|s| >= 3 && s[0] == 46 && s[1] == 46 && s[2] == 47)
  }

  // strchr for a slash.
  function Slash(s: seq<Byte>): (i: nat)
    requires 47 in s
    ensures i < |s| && s[i] == 47 && 47 !in s[..i]
  {
    if s[0] == 47 then 0 else 1 + Slash(s[1..])
  }

  function AfterSlash(s: seq<Byte>): (r: seq<Byte>)
    requires Antisocial(s)
    ensures |r| < |s|
  {
    s[Slash(s) + 1..]
  }

  function Dropped(s: seq<Byte>): seq<Byte>
    decreases |s|
  {
    if Antisocial(s) then Dropped(AfterSlash(s)) else s
  }

  lemma {:induction false} DroppedIsEnd(s: seq<Byte>)
    ensures |Dropped(s)| <= |s| && Dropped(s) == s[|s| - |Dropped(s)|..]
    decreases |s|
  {
    if Antisocial(s) {
      var t := AfterSlash(s);
      DroppedIsEnd(t);
      assert t == s[|s| - |t|..];
      EndOfEnd(s, |t|, |Dropped(t)|);
    }
  }

  lemma EndOfEnd(s: seq<Byte>, n: nat, m: nat)
    requires m <= n <= |s|
    ensures s[|s| - n..][n - m..] == s[|s| - m..]
  {
  }

  /** The name an archive may have for a file name. */
  function Stripped(s: seq<Byte>): seq<Byte> {
    var r := Dropped(s);
    if r == [] || r == [46, 46] then [46] else r
  }

  /** strip_antisocial_prefixes. */
  method Strip(fileName: seq<Byte>) returns (r: seq<Byte>)
    ensures r == Stripped(fileName)
  {
    r := fileName;
    while Antisocial(r)
      invariant Dropped(r) == Dropped(fileName)
      decreases |r|
    {
      r := AfterSlash(r);
    }
    if r == [] || r == [46, 46] {
      r := [46];
    }
  }

  lemma {:induction false} DroppedIsClean(s: seq<Byte>)
    ensures !Antisocial(Dropped(s))
    decreases |s|
  {
    if Antisocial(s) {
      DroppedIsClean(AfterSlash(s));
    }
  }

  /** A stripped name has no such prefix, is neither empty nor "..", and is the end of the file name unless it is "."; stripping again changes nothing. */
  lemma StrippedIsClean(s: seq<Byte>)
    ensures var r := Stripped(s);
      && !Antisocial(r) && r != [] && r != [46, 46] && Stripped(r) == r
      && (r == [46] || (|r| <= |s| && r == s[|s| - |r|..]))
      && (NoNul(s) ==> NoNul(r))
  {
    DroppedIsClean(s);
    DroppedIsEnd(s);
  }

  /* ----- the layout of a header ----- */

  /** Bytes stored at a place of the header. */
  datatype Store = Store(at: nat, bytes: seq<Byte>)

  predicate Fits(s: Store) { s.at + |s.bytes| <= 512 }

  predicate Apart(s: Store, o: nat, n: nat) { s.at + |s.bytes| <= o || o + n <= s.at }

  function Apply(m: seq<Byte>, stores: seq<Store>): (r: seq<Byte>)
    requires |m| == 512 && forall s | s in stores :: Fits(s)
    ensures |r| == 512
  {
    if stores == [] then m
    else
      var last := stores[|stores| - 1];
      assert last in stores && Fits(last);
      Put(Apply(m, stores[..|stores| - 1]), last.at, last.bytes)
  }

  lemma PutApart(m: seq<Byte>, s: Store, o: nat, n: nat)
    requires |m| == 512 && Fits(s) && Apart(s, o, n) && o + n <= 512
    ensures Put(m, s.at, s.bytes)[o..o + n] == m[o..o + n]
  {
  }

  lemma PutThere(m: seq<Byte>, s: Store)
    requires |m| == 512 && Fits(s)
    ensures Put(m, s.at, s.bytes)[s.at..s.at + |s.bytes|] == s.bytes
  {
  }

  /** What no store touches stays. */
  lemma {:induction false} Untouched(m: seq<Byte>, stores: seq<Store>, o: nat, n: nat)
    requires |m| == 512 && o + n <= 512 && forall s | s in stores :: Fits(s) && Apart(s, o, n)
    ensures Apply(m, stores)[o..o + n] == m[o..o + n]
  {
    if stores != [] {
      var last := |stores| - 1;
      Untouched(m, stores[..last], o, n);
      assert stores[last] in stores;
      PutApart(Apply(m, stores[..last]), stores[last], o, n);
    }
  }

  /** A store that no later one touches stays. */
  lemma {:induction false} StoreKept(m: seq<Byte>, stores: seq<Store>, k: nat)
    requires |m| == 512 && k < |stores| && forall s | s in stores :: Fits(s)
    requires forall i | k < i < |stores| :: Apart(stores[i], stores[k].at, |stores[k].bytes|)
    ensures Fits(stores[k])
    ensures Apply(m, stores)[stores[k].at..stores[k].at + |stores[k].bytes|] == stores[k].bytes
  {
    var last := |stores| - 1;
    assert stores[k] in stores;
    if k == last {
      PutThere(Apply(m, stores[..last]), stores[last]);
    } else {
      StoreKept(m, stores[..last], k);
      assert stores[last] in stores;
      PutApart(Apply(m, stores[..last]), stores[last], stores[k].at, |stores[k].bytes|);
    }
  }

  function Zeros512(): (z: seq<Byte>)
    ensures |z| == 512
  {
    seq(512, i => 0)
  }

  /** The text of %0<width>o. */
  function OctalText(value: nat, width: nat): seq<Byte> {
    Formatted(value, false, false, Octal(), ZeroPadded(width))
  }

  function Unsigned(size: int): nat
    requires -0x8000_0000 <= size < 0x8000_0000
  {
    if size < 0 then size + 0x1_0000_0000 else size
  }

  // "0000000", "ustar" and "root".
  const NO_ID: seq<Byte> := [48, 48, 48, 48, 48, 48, 48]
  const MAGIC: seq<Byte> := [117, 115, 116, 97, 114]
  const ROOT: seq<Byte> := [114, 111, 111, 116]

  function NameStore(name: seq<Byte>): Store { Store(0, Printed(100, name)) }
  function ModeStore(regular: bool): Store { Store(100, Printed(8, OctalText(if regular then 420 else 493, 7))) }
  function SizeStore(size: nat): Store { Store(124, Printed(12, OctalText(size, 11))) }
  function TimeStore(): Store { Store(136, Printed(12, OctalText(1136102400, 11))) }
  function TypeStore(regular: bool): Store { Store(156, [if regular then 48 else 53]) }

  /** Everything but the checksum, in the order it is filled in. */
  function Stores(name: seq<Byte>, regular: bool, size: nat): (s: seq<Store>)
    ensures |s| == 11
  {
    [NameStore(name), ModeStore(regular), Store(108, Printed(8, NO_ID)), Store(116, Printed(8, NO_ID)), SizeStore(size), TimeStore(),
     TypeStore(regular), Store(257, Printed(6, MAGIC)), Store(263, [48, 48]), Store(297, Printed(32, ROOT)), Store(265, Printed(32, ROOT))]
  }

  /* ----- the checksum ----- */

  /** The sum of the first n bytes, the checksum field counted as blanks. */
  function Checksum(h: seq<Byte>, n: nat): (sum: nat)
    requires n <= |h|
    ensures sum <= 255 * n
  {
    if n == 0 then 0 else Checksum(h, n - 1) + if 148 <= n - 1 < 156 then 32 else h[n - 1]
  }

  /** calculate_chksum. */
  method CalculateChksum(h: array<Byte>) returns (chksum: nat)
    requires h.Length == 512
    ensures chksum == Checksum(h[..], 512)
  {
    chksum := 0;
    for i := 0 to 512
      invariant chksum == Checksum(h[..], i)
    {
      var inChksumField := 148 <= i && i < 156;
      chksum := chksum + if inChksumField then 32 else h[i];
    }
  }

  /** The checksum does not depend on its own field. */
  lemma {:induction false} ChecksumIgnoresField(h: seq<Byte>, b: seq<Byte>, n: nat)
    requires |h| == 512 && |b| == 8 && n <= 512
    ensures Checksum(Put(h, 148, b), n) == Checksum(h, n)
  {
    if n > 0 {
      ChecksumIgnoresField(h, b, n - 1);
    }
  }

  /* ----- composing ----- */

  /** The header without its checksum, and with it. */
  function Unsummed(name: seq<Byte>, regular: bool, size: nat): (h: seq<Byte>)
    ensures |h| == 512
  {
    StoresFit(name, regular, size);
    Apply(Zeros512(), Stores(name, regular, size))
  }

  lemma StoresFit(name: seq<Byte>, regular: bool, size: nat)
    ensures forall x | x in Stores(name, regular, size) :: Fits(x)
  {
    hide OctalText, Printed;
  }

  function Header(name: seq<Byte>, regular: bool, size: nat): (h: seq<Byte>)
    ensures |h| == 512
  {
    var h := Unsummed(name, regular, size);
    Put(h, 148, Printed(8, OctalText(Checksum(h, 512), 7)))
  }

  lemma ApplyMore(m: seq<Byte>, stores: seq<Store>, k: nat)
    requires |m| == 512 && k < |stores| && forall s | s in stores :: Fits(s)
    ensures Fits(stores[k]) && Apply(m, stores[..k + 1]) == Put(Apply(m, stores[..k]), stores[k].at, stores[k].bytes)
  {
    assert stores[k] in stores;
    assert stores[..k + 1][..k] == stores[..k];
  }

  // The header after the first k stores.
  ghost predicate Filled(h: seq<Byte>, stores: seq<Store>, k: nat) {
    |h| == 512 && k <= |stores| && (forall s | s in stores :: Fits(s)) && h == Apply(Zeros512(), stores[..k])
  }

  lemma FilledFirst(stores: seq<Store>)
    requires forall s | s in stores :: Fits(s)
    ensures Filled(Zeros512(), stores, 0)
  {
    assert stores[..0] == [];
  }

  lemma FilledLast(h: seq<Byte>, stores: seq<Store>)
    requires Filled(h, stores, |stores|)
    ensures (forall s | s in stores :: Fits(s)) && h == Apply(Zeros512(), stores)
  {
    assert stores[..|stores|] == stores;
  }

  lemma FilledMore(h: seq<Byte>, stores: seq<Store>, k: nat)
    requires Filled(h, stores, k) && k < |stores|
    ensures Fits(stores[k]) && Filled(Put(h, stores[k].at, stores[k].bytes), stores, k + 1)
  {
    ApplyMore(Zeros512(), stores, k);
  }

  // strlcpy into the header.
  method Strlcpy(h: array<Byte>, at: nat, src: seq<Byte>, size: nat, ghost stores: seq<Store>, ghost k: nat)
    requires size > 0 && at + size <= h.Length
    requires k < |stores| && stores[k] == Store(at, Printed(size, src)) && Filled(h[..], stores, k)
    modifies h
    ensures Filled(h[..], stores, k + 1)
  {
    FilledMore(h[..], stores, k);
    var length := Snprintf(h, at, size, src);
  }

  // snprintf of %0<width>o into the header.
  method PrintOctal(h: array<Byte>, at: nat, size: nat, value: nat, width: nat)
    requires size > 0 && at + size <= h.Length && value < 0x1_0000_0000
    modifies h
    ensures h[..] == Put(old(h[..]), at, Printed(size, OctalText(value, width)))
  {
    var text := FormatInteger(value, false, false, Octal(), ZeroPadded(width));
    var length := Snprintf(h, at, size, text);
  }

  method PutOctal(h: array<Byte>, at: nat, size: nat, value: nat, width: nat, ghost stores: seq<Store>, ghost k: nat)
    requires size > 0 && at + size <= h.Length && value < 0x1_0000_0000
    requires k < |stores| && stores[k] == Store(at, Printed(size, OctalText(value, width))) && Filled(h[..], stores, k)
    modifies h
    ensures Filled(h[..], stores, k + 1)
  {
    FilledMore(h[..], stores, k);
    PrintOctal(h, at, size, value, width);
  }

  method Memset(h: array<Byte>)
    requires h.Length == 512
    modifies h
    ensures h[..] == Zeros512()
  {
    for i := 0 to 512
      invariant forall j | 0 <= j < i :: h[j] == 0
    {
      h[i] := 0;
    }
  }

  // A store of one or two bytes.
  method Poke(h: array<Byte>, at: nat, b: seq<Byte>, ghost stores: seq<Store>, ghost k: nat)
    requires at + |b| <= h.Length && 1 <= |b| <= 2
    requires k < |stores| && stores[k] == Store(at, b) && Filled(h[..], stores, k)
    modifies h
    ensures Filled(h[..], stores, k + 1)
  {
    FilledMore(h[..], stores, k);
    ghost var before := h[..];
    h[at] := b[0];
    if |b| > 1 {
      h[at + 1] := b[1];
    }
    assert h[..] == Put(before, at, b);
  }

  lemma StoreList(name: seq<Byte>, regular: bool, size: nat)
    ensures var s := Stores(name, regular, size);
      && s[0] == NameStore(name) && s[1] == ModeStore(regular) && s[2] == Store(108, Printed(8, NO_ID)) && s[3] == Store(116, Printed(8, NO_ID))
      && s[4] == SizeStore(size) && s[5] == TimeStore() && s[6] == TypeStore(regular) && s[7] == Store(257, Printed(6, MAGIC))
      && s[8] == Store(263, [48, 48]) && s[9] == Store(297, Printed(32, ROOT)) && s[10] == Store(265, Printed(32, ROOT))
  {
    hide Printed, OctalText;
  }

  // All fields but the checksum.
  method Fill(h: array<Byte>, name: seq<Byte>, regular: bool, size: nat)
    requires h.Length == 512 && size < 0x1_0000_0000
    modifies h
    ensures h[..] == Unsummed(name, regular, size)
  {
    hide Filled, Printed, OctalText, Apply, Stores, Fits;
    ghost var s := Stores(name, regular, size);
    StoreList(name, regular, size);
    StoresFit(name, regular, size);
    Memset(h);
    FilledFirst(s);
    Strlcpy(h, 0, name, 100, s, 0);
    PutOctal(h, 100, 8, if regular then 420 else 493, 7, s, 1);
    Strlcpy(h, 108, NO_ID, 8, s, 2);
    Strlcpy(h, 116, NO_ID, 8, s, 3);
    PutOctal(h, 124, 12, size, 11, s, 4);
    PutOctal(h, 136, 12, 1136102400, 11, s, 5);
    Poke(h, 156, [if regular then 48 else 53], s, 6);
    Strlcpy(h, 257, MAGIC, 6, s, 7);
    Poke(h, 263, [48, 48], s, 8);
    Strlcpy(h, 297, ROOT, 32, s, 9);
    Strlcpy(h, 265, ROOT, 32, s, 10);
    assert s[..11] == s;
    FilledLast(h[..], s);
  }

  /** ustar_make_header: fails for names of more than 99 characters, stripped. */
  method MakeHeader(fileName: seq<Byte>, regular: bool, size: int, h: array<Byte>) returns (ok: bool)
    requires h.Length == 512 && -0x8000_0000 <= size < 0x8000_0000
    modifies h
    ensures ok <==> |Stripped(fileName)| <= 99
    ensures !ok ==> h[..] == old(h[..])
    ensures ok ==> h[..] == Header(Stripped(fileName), regular, Unsigned(size))
  {
    hide Unsummed, Put, Printed, OctalText, Stripped, Checksum;
    var name := Strip(fileName);
    if |name| > 99 {
      return false;
    }
    Fill(h, name, regular, Unsigned(size));
    var chksum := CalculateChksum(h);
    PrintOctal(h, 148, 8, chksum, 7);
    return true;
  }

  /* ----- parsing ----- */

  datatype Option<T> = None | Some(value: T)

  // parse_octal_field from offset ofs on. A long has 32 bits.
  function ParseFrom(s: seq<Byte>, ofs: nat, value: nat): Option<nat>
    decreases |s| - ofs
  {
    if ofs >= |s| then None
    else if 48 <= s[ofs] <= 55 then
      if value > 0xFFFF_FFFF / 8 then None else ParseFrom(s, ofs + 1, s[ofs] - 48 + value * 8)
    else if s[ofs] == 32 || s[ofs] == 0 then if ofs > 0 then Some(value) else None
    else None
  }

  /** parse_octal_field. */
  method ParseOctalField(s: seq<Byte>) returns (r: Option<nat>)
    ensures r == ParseFrom(s, 0, 0)
  {
    var value: nat := 0;
    for ofs := 0 to |s|
      invariant ParseFrom(s, ofs, value) == ParseFrom(s, 0, 0)
    {
      var c := s[ofs];
      if c >= 48 && c <= 55 {
        if value > 0xFFFF_FFFF / 8 {
          return None;
        }
        value := c - 48 + value * 8;
      } else if c == 32 || c == 0 {
        return if ofs > 0 then Some(value) else None;
      } else {
        return None;
      }
    }
    return None;
  }

  lemma {:induction false} PrefixValue(d: seq<Byte>, k: nat)
    requires OctalDigits(d) && k < |d|
    ensures 0 <= 8 * OctalValue(d[..k]) <= OctalValue(d)
    decreases |d|
  {
    ValuePositive(d[..k]);
    ValuePositive(d[..|d| - 1]);
    if k < |d| - 1 {
      PrefixValue(d[..|d| - 1], k);
      assert d[..|d| - 1][..k] == d[..k];
    }
  }

  lemma {:induction false} ValuePositive(d: seq<Byte>)
    requires OctalDigits(d)
    ensures OctalValue(d) >= 0
  {
    if d != [] {
      ValuePositive(d[..|d| - 1]);
    }
  }

  lemma EmptyValue()
    ensures OctalValue([]) == 0
  {
  }

  // After k digits the value so far is that of these digits.
  lemma {:induction false} ParseRest(d: seq<Byte>, s: seq<Byte>, k: nat)
    requires OctalDigits(d) && |d| > 0 && OctalValue(d) < 0x1_0000_0000 && k <= |d| < |s| && s[..|d|] == d && s[|d|] == 0
    ensures OctalValue(d[..k]) >= 0 && ParseFrom(s, k, OctalValue(d[..k])) == Some(OctalValue(d))
    decreases |d| - k
  {
    ValuePositive(d[..k]);
    if k < |d| {
      ParseRest(d, s, k + 1);
      PrefixValue(d, k);
      assert d[..k + 1][..k] == d[..k] && s[k] == d[k];
    } else {
      assert d[..k] == d;
    }
  }

  /** An octal field that was printed is read back. */
  lemma FieldRoundTrip(value: nat, width: nat)
    requires width > 0 && value < Power8(width) && value < 0x1_0000_0000
    ensures var field := Printed(width + 1, OctalText(value, width)); |field| == width + 1 && ParseFrom(field, 0, 0) == Some(value)
  {
    hide Formatted, OctalDigits, ParseFrom, OctalValue;
    OctalField(value, width);
    var d := OctalText(value, width);
    ParseRest(d, d + [0], 0);
    assert d[..0] == [];
    EmptyValue();
  }

  /** A C string at the start of a buffer. */
  function CString(s: seq<Byte>): seq<Byte> {
    if s == [] || s[0] == 0 then [] else [s[0]] + CString(s[1..])
  }

  lemma {:induction false} CStringOf(name: seq<Byte>, s: seq<Byte>)
    requires NoNul(name) && |name| < |s| && s[..|name|] == name && s[|name|] == 0
    ensures CString(s) == name
  {
    if name != [] {
      assert s[0] == name[0];
      assert s[1..][..|name| - 1] == name[1..];
      CStringOf(name[1..], s[1..]);
    }
  }

  datatype Problem = NotUstar | BadVersion | CorruptChksum | ChksumMismatch | NameTooLong | BadType | CorruptSize | FileTooLarge

  datatype Result = Eof | Entry(name: seq<Byte>, regular: bool, size: nat) | Bad(problem: Problem)

  /** What a header says. */
  function Parsed(h: seq<Byte>): Result
    requires |h| == 512
  {
    if forall i | 0 <= i < 512 :: h[i] == 0 then Eof
    else if h[257..263] != MAGIC + [0] then Bad(NotUstar)
    else if h[263] != 48 || h[264] != 48 then Bad(BadVersion)
    else
      var chksum := ParseFrom(h[148..156], 0, 0);
      if chksum.None? then Bad(CorruptChksum)
      else if chksum.value != Checksum(h, 512) then Bad(ChksumMismatch)
      else if h[99] != 0 || h[345] != 0 then Bad(NameTooLong)
      else if h[156] != 48 && h[156] != 53 then Bad(BadType)
      else if h[156] == 53 then Entry(Stripped(CString(h[..100])), false, 0)
      else
        var size := ParseFrom(h[124..136], 0, 0);
        if size.None? then Bad(CorruptSize)
        else if size.value > 0x7FFF_FFFF then Bad(FileTooLarge)
        else Entry(Stripped(CString(h[..100])), true, size.value)
  }

  // The loop of is_all_zeros.
  method IsAllZeros(h: array<Byte>) returns (all: bool)
    ensures all <==> forall i | 0 <= i < h.Length :: h[i] == 0
  {
    for i := 0 to h.Length
      invariant forall j | 0 <= j < i :: h[j] == 0
    {
      if h[i] != 0 {
        return false;
      }
    }
    return true;
  }

  /** ustar_parse_header. */
  method ParseHeader(h: array<Byte>) returns (r: Result)
    requires h.Length == 512
    ensures r == Parsed(h[..])
  {
    hide ParseFrom, Checksum, Stripped, CString;
    var zeros := IsAllZeros(h);
    if zeros {
      return Eof;
    }
    if h[257..263] != MAGIC + [0] {
      return Bad(NotUstar);
    } else if h[263] != 48 || h[264] != 48 {
      return Bad(BadVersion);
    }
    assert h[..][148..156] == h[148..156] && h[..][124..136] == h[124..136] && h[..][257..263] == h[257..263] && h[..][..100] == h[..100];
    var chksum := ParseOctalField(h[148..156]);
    if chksum.None? {
      return Bad(CorruptChksum);
    }
    var computed := CalculateChksum(h);
    if chksum.value != computed {
      return Bad(ChksumMismatch);
    } else if h[99] != 0 || h[345] != 0 {
      return Bad(NameTooLong);
    } else if h[156] != 48 && h[156] != 53 {
      return Bad(BadType);
    }
    var size := Some(0);
    if h[156] == 48 {
      size := ParseOctalField(h[124..136]);
      if size.None? {
        return Bad(CorruptSize);
      } else if size.value > 0x7FFF_FFFF {
        return Bad(FileTooLarge);
      }
    }
    var name := Strip(CString(h[..100]));
    return Entry(name, h[156] == 48, size.value);
  }

  /* ----- reading back what was composed ----- */

  // A field of a composed header: store k, which the later stores and the checksum leave alone.
  lemma HeaderField(name: seq<Byte>, regular: bool, size: nat, k: nat)
    requires k < 11
    ensures var s, h := Stores(name, regular, size), Header(name, regular, size);
      Fits(s[k]) && h[s[k].at..s[k].at + |s[k].bytes|] == s[k].bytes
  {
    hide Stores, Printed, OctalText, Apply, Put, Fits, Checksum, Apart;
    var s := Stores(name, regular, size);
    StoresFit(name, regular, size);
    StoresApart(name, regular, size, k);
    StoreKept(Zeros512(), s, k);
    assert s[k] in s;
    SumApart(name, regular, size, s[k]);
  }

  // A store outside the checksum field stays when the checksum is filled in.
  lemma SumApart(name: seq<Byte>, regular: bool, size: nat, s: Store)
    requires Fits(s) && (s.at + |s.bytes| <= 148 || 156 <= s.at)
    ensures Header(name, regular, size)[s.at..s.at + |s.bytes|] == Unsummed(name, regular, size)[s.at..s.at + |s.bytes|]
  {
    hide Unsummed, OctalText, Checksum, Put;
    var u := Unsummed(name, regular, size);
    PutApart(u, Store(148, Printed(8, OctalText(Checksum(u, 512), 7))), s.at, |s.bytes|);
  }

  lemma StoresApart(name: seq<Byte>, regular: bool, size: nat, k: nat)
    requires k < 11
    ensures var s := Stores(name, regular, size);
      && (forall i | k < i < 11 :: Apart(s[i], s[k].at, |s[k].bytes|))
      && (s[k].at + |s[k].bytes| <= 148 || 156 <= s[k].at)
  {
    hide OctalText, Printed;
  }

  // The checksum store is apart from everything outside its field.
  lemma OutsideChecksum(name: seq<Byte>, regular: bool, size: nat, o: nat)
    requires o < 148 || 156 <= o < 512
    ensures Header(name, regular, size)[o] == Unsummed(name, regular, size)[o]
  {
    hide Unsummed, OctalText, Checksum;
  }

  // A byte no store touches is zero.
  lemma HeaderZero(name: seq<Byte>, regular: bool, size: nat, o: nat)
    requires (o < 148 || 156 <= o < 512) && forall x | x in Stores(name, regular, size) :: Apart(x, o, 1)
    ensures Header(name, regular, size)[o] == 0
  {
    hide Header, Stores, Apart, Fits;
    var u := Unsummed(name, regular, size);
    StoresFit(name, regular, size);
    Untouched(Zeros512(), Stores(name, regular, size), o, 1);
    assert u[o..o + 1] == Zeros512()[o..o + 1] && u[o] == u[o..o + 1][0];
    OutsideChecksum(name, regular, size, o);
  }

  // The last byte of the name field and the first byte of the prefix field are zero.
  lemma HeaderZeros(name: seq<Byte>, regular: bool, size: nat)
    requires |name| <= 99
    ensures Header(name, regular, size)[99] == 0 && Header(name, regular, size)[345] == 0
  {
    hide Header, Stores, Apart, Fits;
    PrefixUntouched(name, regular, size);
    HeaderZero(name, regular, size, 345);
    if |name| == 99 {
      var h := Header(name, regular, size);
      HeaderField(name, regular, size, 0);
      StoreList(name, regular, size);
      assert h[0..100] == name + [0] && h[99] == h[0..100][99];
    } else {
      NameUntouched(name, regular, size);
      HeaderZero(name, regular, size, 99);
    }
  }

  lemma PrefixUntouched(name: seq<Byte>, regular: bool, size: nat)
    ensures forall x | x in Stores(name, regular, size) :: Apart(x, 345, 1)
  {
    hide OctalText, Printed;
  }

  lemma NameUntouched(name: seq<Byte>, regular: bool, size: nat)
    requires |name| < 99
    ensures forall x | x in Stores(name, regular, size) :: Apart(x, 99, 1)
  {
    hide OctalText;
  }

  // The checksum in the header is the checksum of the header.
  lemma HeaderChecksum(name: seq<Byte>, regular: bool, size: nat)
    ensures var h := Header(name, regular, size); ParseFrom(h[148..156], 0, 0) == Some(Checksum(h, 512))
  {
    hide Unsummed, ParseFrom;
    var u := Unsummed(name, regular, size);
    var sum := Checksum(u, 512);
    assert Power8(7) == 2097152;
    FieldRoundTrip(sum, 7);
    var b := Printed(8, OctalText(sum, 7));
    ChecksumIgnoresField(u, b, 512);
    PutThere(u, Store(148, b));
  }

  /**
   Reading a composed header gives the name, the type and the size, 0 for directories;
   only negative sizes of regular files are refused, as too large.
   */
  lemma RoundTrip(name: seq<Byte>, regular: bool, size: int)
    requires NoNul(name) && |name| <= 99 && Stripped(name) == name && -0x8000_0000 <= size < 0x8000_0000
    ensures Parsed(Header(name, regular, Unsigned(size))) ==
      if regular && size < 0 then Bad(FileTooLarge) else Entry(name, regular, if regular then size else 0)
  {
    hide Header, ParseFrom, Checksum, Stripped, CString, OctalText, Stores;
    var n := Unsigned(size);
    var h := Header(name, regular, n);
    StoreList(name, regular, n);
    HeaderField(name, regular, n, 0);
    HeaderField(name, regular, n, 4);
    HeaderField(name, regular, n, 6);
    HeaderField(name, regular, n, 7);
    HeaderField(name, regular, n, 8);
    HeaderZeros(name, regular, n);
    HeaderChecksum(name, regular, n);
    assert h[156..157] == [if regular then 48 else 53] && h[156] == h[156..157][0];
    assert h[257..263] == MAGIC + [0] && h[257] == h[257..263][0];
    assert h[263..265] == [48, 48] && h[263] == h[263..265][0] && h[264] == h[263..265][1];
    assert h[124..136] == Printed(12, OctalText(n, 11)) by { SizeLength(n); }
    assert Power8(11) == 0x2_0000_0000 by { Power8Of11(); }
    FieldRoundTrip(n, 11);
    NameBack(name, h);
  }

  lemma Power8Of11()
    ensures Power8(11) == 0x2_0000_0000
  {
  }

  lemma SizeLength(n: nat)
    requires n < 0x1_0000_0000
    ensures |Printed(12, OctalText(n, 11))| == 12
  {
    Power8Of11();
    hide OctalText, ParseFrom;
    FieldRoundTrip(n, 11);
  }

  lemma NameBack(name: seq<Byte>, h: seq<Byte>)
    requires NoNul(name) && |name| <= 99 && |h| == 512 && h[0..0 + |Printed(100, name)|] == Printed(100, name)
    ensures CString(h[..100]) == name
  {
    var f := h[..100];
    assert h[0..|name| + 1] == name + [0];
    assert f[..|name|] == h[0..|name| + 1][..|name|] == name && f[|name|] == h[0..|name| + 1][|name|];
    CStringOf(name, f);
  }

  /** A header made for a file name reads back as the stripped name. */
  lemma FileRoundTrip(fileName: seq<Byte>, regular: bool, size: int)
    requires NoNul(fileName) && |Stripped(fileName)| <= 99 && 0 <= size < 0x8000_0000
    ensures Parsed(Header(Stripped(fileName), regular, Unsigned(size))) == Entry(Stripped(fileName), regular, if regular then size else 0)
  {
    StrippedIsClean(fileName);
    hide Stripped, Header, Parsed;
    RoundTrip(Stripped(fileName), regular, size);
  }
}
