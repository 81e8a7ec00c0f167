/**
 Bitmaps, as the page allocator and the file system's free map use them. One array
 element stands for one bit; the packing of bits into words is left out.
 */
module Bitmap {

  datatype Option<T> = None | Some(value: T)

  /** The bits start..start+cnt all have the given value. */
  predicate AllAre(bits: seq<bool>, start: nat, cnt: nat, value: bool) {
    start + cnt <= |bits| && forall i | start <= i < start + cnt :: bits[i] == value
  }

  /** `bits` with the bits start..start+cnt set to `value`. */
  function Filled(bits: seq<bool>, start: nat, cnt: nat, value: bool): (r: seq<bool>)
    requires start + cnt <= |bits|
    ensures |r| == |bits|
    ensures forall i | 0 <= i < |bits| :: r[i] == if start <= i < start + cnt then value else bits[i]
  {
    seq(|bits|, i requires 0 <= i < |bits| => if start <= i < start + cnt then value else bits[i])
  }

  /** What a scan finds: the first group of `cnt` bits with the given value, at or after `start`. */
  ghost predicate FirstGroup(bits: seq<bool>, start: nat, cnt: nat, value: bool, found: Option<nat>) {
    match found
    case Some(i) => start <= i && AllAre(bits, i, cnt, value) && forall j | start <= j < i :: !AllAre(bits, j, cnt, value)
    case None => forall j: nat | start <= j :: !AllAre(bits, j, cnt, value)
  }

  class Map {
    const bits: array<bool>

    /** bitmap_create: all bits clear. */
    constructor (n: nat)
      ensures fresh(bits) && bits.Length == n && forall i | 0 <= i < n :: !bits[i]
    {
      bits := new bool[n](_ => false);
    }

    /** bitmap_contains. */
    method Contains(start: nat, cnt: nat, value: bool) returns (found: bool)
      requires start + cnt <= bits.Length
      ensures found <==> exists i | start <= i < start + cnt :: bits[i] == value
    {
      for i := 0 to cnt
        invariant forall j | start <= j < start + i :: bits[j] != value
      {
        if bits[start + i] == value {
          return true;
        }
      }
      return false;
    }

    /** bitmap_scan. */
    method Scan(start: nat, cnt: nat, value: bool) returns (found: Option<nat>)
      requires start <= bits.Length
      ensures FirstGroup(bits[..], start, cnt, value, found)
    {
      if cnt <= bits.Length {
        var last := bits.Length - cnt;
        var i := start;
        while i <= last
          invariant start <= i
          invariant forall j | start <= j < i :: !AllAre(bits[..], j, cnt, value)
        {
          var other := Contains(i, cnt, !value);
          if !other {
            assert forall j | i <= j < i + cnt :: bits[..][j] == bits[j];
            return Some(i);
          }
          i := i + 1;
        }
      }
      return None;
    }

    /** bitmap_set_multiple. */
    method SetMultiple(start: nat, cnt: nat, value: bool)
      requires start + cnt <= bits.Length
      modifies bits
      ensures bits[..] == Filled(old(bits[..]), start, cnt, value)
    {
      for i := 0 to cnt
        invariant forall j | 0 <= j < bits.Length :: bits[j] == if start <= j < start + i then value else old(bits[j])
      {
        bits[start + i] := value;
      }
    }

    /** bitmap_scan_and_flip, looking for clear bits from the start. */
    method ScanAndFlip(cnt: nat) returns (found: Option<nat>)
      modifies bits
      ensures FirstGroup(old(bits[..]), 0, cnt, false, found)
      ensures bits[..] == if found.Some? then Filled(old(bits[..]), found.value, cnt, true) else old(bits[..])
    {
      found := Scan(0, cnt, false);
      if found.Some? {
        SetMultiple(found.value, cnt, true);
      }
    }
  }
}
