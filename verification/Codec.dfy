/**
 Length-delimited files: each buffer is preceded by its length, eight bytes in the order
 of the machine, lowest first.
 */
module Codec {
  type Byte = b: int | 0 <= b < 256

  datatype Option<T> = None | Some(value: T)

  /** The k lowest bytes of n, lowest first. */
  function Le(n: nat, k: nat): (s: seq<Byte>)
    ensures |s| == k
  {
    if k == 0 then [] else [n % 256] + Le(n / 256, k - 1)
  }

  function UnLe(s: seq<Byte>): nat {
    if s == [] then 0 else s[0] + 256 * UnLe(s[1..])
  }

  function Power256(k: nat): (p: nat)
    ensures p > 0
  {
    if k == 0 then 1 else 256 * Power256(k - 1)
  }

  /** The number written is the number read, when it fits. */
  lemma {:induction false} LeRoundTrip(n: nat, k: nat)
    requires n < Power256(k)
    ensures UnLe(Le(n, k)) == n
  {
    if k > 0 {
      LeRoundTrip(n / 256, k - 1);
      assert Le(n, k)[1..] == Le(n / 256, k - 1);
    }
  }

  /** Byte i counts for 256 to the power of i. */
  lemma {:induction false} LeByte(n: nat, k: nat, i: nat)
    requires i < k
    ensures Le(n, k)[i] == n / Power256(i) % 256
  {
    if i > 0 {
      LeByte(n / 256, k - 1, i - 1);
      DivTwice(n, Power256(i - 1));
    }
  }

  lemma DivTwice(n: nat, p: nat)
    requires p > 0
    ensures n / 256 / p == n / (256 * p)
  {
    var q := n / 256;
    var m := q / p;
    var r, r' := n % 256, q % p;
    assert n == 256 * (p * m + r') + r;
    assert 256 * (p * m + r') == (256 * p) * m + 256 * r';
    Quotient(n, 256 * p, m, 256 * r' + r);
  }

  lemma Quotient(n: nat, d: nat, m: nat, r: nat)
    requires d > 0 && n == d * m + r && r < d
    ensures n / d == m
  {
    var q := n / d;
    if q < m {
      Larger(d, q, m);
    } else if m < q {
      Larger(d, m, q);
    }
  }

  lemma Larger(d: nat, a: nat, b: nat)
    requires a < b
    ensures d * b >= d * a + d
  {
    var e: nat := b - a;
    Distributes(d, a, e);
    AtLeastOnce(d, e);
  }

  lemma Distributes(d: nat, a: nat, e: nat)
    ensures d * (a + e) == d * a + d * e
  {
  }

  lemma AtLeastOnce(d: nat, e: nat)
    requires e > 0
    ensures d * e >= d
  {
  }

  /** Lengths are signed 64-bit numbers. */
  predicate FitsLength(n: nat) { n < 0x8000_0000_0000_0000 }

  lemma LengthRoundTrip(n: nat)
    requires FitsLength(n)
    ensures UnLe(Le(n, 8)) == n
  {
    assert Power256(4) == 0x1_0000_0000;
    assert Power256(8) == 256 * 256 * 256 * 256 * Power256(4);
    LeRoundTrip(n, 8);
  }

  /** What ldw_write adds to a file. */
  function Written(buf: seq<Byte>): seq<Byte> {
    Le(|buf|, 8) + buf
  }

  function AllWritten(bufs: seq<seq<Byte>>): seq<Byte> {
    if bufs == [] then [] else Written(bufs[0]) + AllWritten(bufs[1..])
  }

  /** The buffer at the start of a file, when it is there in full. */
  function First(file: seq<Byte>): (r: Option<seq<Byte>>)
    ensures r.Some? ==> 8 + |r.value| <= |file|
  {
    if |file| < 8 then None
    else
      var n := UnLe(file[..8]);
      if 8 + n <= |file| then Some(file[8..8 + n]) else None
  }

  /** All buffers in a file, up to the first that is not there in full. */
  function Buffers(file: seq<Byte>): seq<seq<Byte>>
    decreases |file|
  {
    match First(file)
    case None => []
    case Some(b) => [b] + Buffers(file[8 + |b|..])
  }

  /** Reading gives back what was written. */
  lemma {:induction false} ReadBack(bufs: seq<seq<Byte>>)
    requires forall b | b in bufs :: FitsLength(|b|)
    ensures Buffers(AllWritten(bufs)) == bufs
  {
    if bufs != [] {
      var b, rest := bufs[0], AllWritten(bufs[1..]);
      var file := Written(b) + rest;
      LengthRoundTrip(|b|);
      assert file[..8] == Le(|b|, 8);
      assert file[8..8 + |b|] == b;
      assert file[8 + |b|..] == rest;
      ReadBack(bufs[1..]);
    }
  }

  lemma {:induction false} AllWrittenConcat(a: seq<seq<Byte>>, b: seq<seq<Byte>>)
    ensures AllWritten(a + b) == AllWritten(a) + AllWritten(b)
  {
    if a == [] {
      assert a + b == b;
    } else {
      AllWrittenConcat(a[1..], b);
      assert (a + b)[0] == a[0] && (a + b)[1..] == a[1..] + b;
      Assoc(Written(a[0]), AllWritten(a[1..]), AllWritten(b));
    }
  }

  lemma Assoc<T>(a: seq<T>, b: seq<T>, c: seq<T>)
    ensures a + (b + c) == (a + b) + c
  {
  }

  class Writer {
    var file: seq<Byte>

    constructor ()
      ensures file == []
    {
      file := [];
    }

    /** ldw_write. */
    method Write(buf: seq<Byte>)
      modifies this
      ensures file == old(file) + Written(buf)
    {
      file := file + Le(|buf|, 8);
      file := file + buf;
      assert file == old(file) + Written(buf);
    }
  }

  /** A file being read; `Left` is the part behind the position. */
  class Reader {
    const file: seq<Byte>
    var pos: nat

    ghost predicate Valid()
      reads this
    {
      pos <= |file|
    }

    ghost function Left(): seq<Byte>
      reads this
      requires Valid()
    {
      file[pos..]
    }

    constructor (file: seq<Byte>)
      ensures Valid() && this.file == file && pos == 0
    {
      this.file, pos := file, 0;
    }

    // fread: as many of n bytes as there are.
    method Take(n: nat) returns (s: seq<Byte>)
      requires Valid()
      modifies this
      ensures Valid() && |s| <= n && |s| <= |old(Left())| && Left() == old(Left())[|s|..] && s == old(Left())[..|s|]
      ensures |s| < n ==> Left() == [] && |s| == |old(Left())|
    {
      var end := if pos + n <= |file| then pos + n else |file|;
      s := file[pos..end];
      pos := end;
    }

    /** ldr_next: None stands for the length -1. Without memory for a buffer only its length is read. */
    method Next(memory: bool) returns (buf: Option<seq<Byte>>)
      requires Valid()
      modifies this
      ensures Valid()
      ensures memory ==> buf == First(old(Left()))
      ensures !memory ==> buf == if First(old(Left())) == Some([]) then Some([]) else None
      ensures buf.Some? ==> Left() == old(Left())[8 + |buf.value|..]
      ensures buf.None? ==> Left() == if memory || |old(Left())| < 8 then [] else old(Left())[8..]
    {
      ghost var left := Left();
      var header := Take(8);
      if |header| != 8 {
        return None;
      }
      var length := UnLe(header);
      if length == 0 {
        assert left[8..8] == [];
        return Some([]);
      }
      if !memory {
        return None;
      }
      var bytes := Take(length);
      assert |bytes| == length ==> left[8..][..length] == left[8..8 + length] && left[8..][length..] == left[8 + length..];
      if |bytes| != length {
        return None;
      }
      return Some(bytes);
    }

    /** ldr_count. */
    method Count() returns (count: nat)
      requires Valid()
      modifies this
      ensures Valid() && count == |Buffers(old(Left()))|
    {
      ghost var left := Left();
      var next := Next(true);
      count := 0;
      while next.Some?
        invariant Valid() && next == First(left)
        invariant next.Some? ==> Left() == left[8 + |next.value|..]
        invariant count + |Buffers(left)| == |Buffers(old(Left()))|
        decreases |left|
      {
        left := Left();
        next := Next(true);
        count := count + 1;
      }
    }

    /** ldr_rewind. */
    method Rewind()
      modifies this
      ensures Valid() && Left() == file
    {
      pos := 0;
    }
  }
}
