/**
 The MapReduce worker: a map task spreads the pairs of one input file over one file for
 each reduce task, by a hash of the key; a reduce task reads its file from every map task,
 sorts the pairs by key and reduces each group of equal keys.
 */
module Worker {
  import opened Codec
  import opened WordCount

  /* ----- keys ----- */

  /** strncmp, with the characters after the first of the two buffers left out. */
  function Strncmp(a: seq<Byte>, b: seq<Byte>, n: nat): int
    requires n <= |a| && n <= |b|
    decreases n
  {
    if n == 0 then 0
    else if a[0] != b[0] then a[0] - b[0]
    else if a[0] == 0 then 0
    else Strncmp(a[1..], b[1..], n - 1)
  }

  /** by_key, on the keys; a difference of lengths is returned as an int. */
  function ByKey(a: seq<Byte>, b: seq<Byte>): int {
    var r := Strncmp(a, b, if |a| < |b| then |a| else |b|);
    if r == 0 then Wrap32(|a| - |b|) else r
  }

  /** Keys whose lengths differ by an int. */
  predicate Short(a: seq<Byte>) { FitsIndex(|a|) }

  predicate NoNul(a: seq<Byte>) { forall i | 0 <= i < |a| :: a[i] != 0 }

  /** The part of a key that by_key looks at. */
  function UpToNul(a: seq<Byte>): seq<Byte> {
    if a == [] || a[0] == 0 then [] else [a[0]] + UpToNul(a[1..])
  }

  lemma {:induction false} StrncmpZero(a: seq<Byte>, b: seq<Byte>)
    requires |a| == |b|
    ensures Strncmp(a, b, |a|) == 0 <==> UpToNul(a) == UpToNul(b)
  {
    if a != [] && a[0] == b[0] && a[0] != 0 {
      StrncmpZero(a[1..], b[1..]);
      assert UpToNul(a)[1..] == UpToNul(a[1..]) && UpToNul(b)[1..] == UpToNul(b[1..]);
    }
  }

  lemma {:induction false} UpToNulAll(a: seq<Byte>)
    requires NoNul(a)
    ensures UpToNul(a) == a
  {
    if a != [] {
      UpToNulAll(a[1..]);
    }
  }

  lemma {:induction false} StrncmpSwap(a: seq<Byte>, b: seq<Byte>, n: nat)
    requires n <= |a| && n <= |b|
    ensures Strncmp(a, b, n) == -Strncmp(b, a, n)
  {
    if n > 0 {
      StrncmpSwap(a[1..], b[1..], n - 1);
    }
  }

  lemma ByKeySwap(a: seq<Byte>, b: seq<Byte>)
    requires Short(a) && Short(b)
    ensures ByKey(a, b) == -ByKey(b, a)
  {
    StrncmpSwap(a, b, if |a| < |b| then |a| else |b|);
  }

  /** by_key takes two short keys for equal exactly when they have the same length and agree up to a NUL. */
  lemma ByKeyZero(a: seq<Byte>, b: seq<Byte>)
    requires Short(a) && Short(b)
    ensures ByKey(a, b) == 0 <==> |a| == |b| && UpToNul(a) == UpToNul(b)
    ensures NoNul(a) && NoNul(b) ==> (ByKey(a, b) == 0 <==> a == b)
  {
    if |a| == |b| {
      StrncmpZero(a, b);
      if NoNul(a) && NoNul(b) {
        UpToNulAll(a);
        UpToNulAll(b);
      }
    }
  }

  /** A key and the same key with 4 GB of bytes behind it are equal to by_key. */
  lemma LengthsWrap(a: seq<Byte>, b: seq<Byte>)
    requires NoNul(a)
    ensures ByKey(a, a + b) == 0 <==> |b| % 0x1_0000_0000 == 0
  {
    SameStart(a, b);
  }

  lemma {:induction false} SameStart(a: seq<Byte>, b: seq<Byte>)
    ensures Strncmp(a, a + b, |a|) == 0
  {
    if a != [] {
      SameStart(a[1..], b);
      assert (a + b)[0] == a[0] && (a + b)[1..] == a[1..] + b;
    }
  }

  /** The order of words in a dictionary. */
  predicate Before(a: seq<Byte>, b: seq<Byte>) {
    a == [] || (b != [] && (a[0] < b[0] || (a[0] == b[0] && Before(a[1..], b[1..]))))
  }

  /** by_key orders keys without NUL as a dictionary does, so qsort has an order to go by. */
  lemma {:induction false} ByKeyIsDictionary(a: seq<Byte>, b: seq<Byte>)
    requires NoNul(a) && NoNul(b) && Short(a) && Short(b)
    ensures ByKey(a, b) <= 0 <==> Before(a, b)
    decreases |a|
  {
    if a != [] && b != [] && a[0] == b[0] {
      ByKeyIsDictionary(a[1..], b[1..]);
    }
  }

  lemma {:induction false} BeforeTransitive(a: seq<Byte>, b: seq<Byte>, c: seq<Byte>)
    requires Before(a, b) && Before(b, c)
    ensures Before(a, c)
  {
    if a != [] && a[0] == b[0] && b[0] == c[0] {
      BeforeTransitive(a[1..], b[1..], c[1..]);
    }
  }

  /** Two keys with a NUL that by_key cannot tell apart. */
  lemma NulHidesTheRest()
    ensures ByKey([0, 1], [0, 2]) == 0 && [0, 1] != [0, 2]
  {
    ByKeyZero([0, 1], [0, 2]);
  }

  /** ihash: characters are signed. */
  method Ihash(key: seq<Byte>) returns (h: nat)
    ensures h == Hash(key)
  {
    hide Mixed;
    var hash: bv32 := 0;
    for i := 0 to |key|
      invariant hash == HashBits(key[..i])
    {
      assert key[..i + 1][..i] == key[..i];
      hash := Mixed(hash, key[i]);
    }
    assert key[..|key|] == key;
    h := (hash & 0x7fff_ffff) as nat;
  }

  function Signed(b: Byte): bv32 { if b < 128 then b as bv32 else 0xffff_ff00 | b as bv32 }

  // One round of the hash.
  function Mixed(hash: bv32, b: Byte): bv32 { (hash * 0x811C_9DC5) ^ Signed(b) }

  function HashBits(key: seq<Byte>): bv32 {
    if key == [] then 0 else Mixed(HashBits(key[..|key| - 1]), key[|key| - 1])
  }

  function Hash(key: seq<Byte>): nat { (HashBits(key) & 0x7fff_ffff) as nat }

  /** The hash starts from 0, takes a character above 127 for a negative one, and drops the sign bit. */
  lemma HashExamples()
    ensures Hash([]) == 0 && Hash([97]) == 97 && Hash([200]) == 0x7fff_ffc8
  {
    assert HashBits([]) == 0;
    assert [97][..0] == [] && [200][..0] == [];
    assert HashBits([97]) == Mixed(0, 97);
    assert HashBits([200]) == Mixed(0, 200);
    assert (0 as bv32) * 0x811C_9DC5 == 0;
  }

  /** The reduce task a key belongs to. */
  function Task(key: seq<Byte>, nReduce: nat): (r: nat)
    requires nReduce > 0
    ensures r < nReduce
  {
    Hash(key) % nReduce
  }

  /* ----- map output ----- */

  /** The pairs of one reduce task, in their order. */
  function Bucket(kvs: seq<Kv>, nReduce: nat, r: nat): seq<Kv>
    requires nReduce > 0
  {
    if kvs == [] then []
    else Bucket(kvs[..|kvs| - 1], nReduce, r) + (if Task(kvs[|kvs| - 1].key, nReduce) == r then [kvs[|kvs| - 1]] else [])
  }

  /** Keys and values in turn. */
  function Flat(kvs: seq<Kv>): seq<seq<Byte>> {
    if kvs == [] then [] else [kvs[0].key, kvs[0].value] + Flat(kvs[1..])
  }

  lemma {:induction false} FlatConcat(a: seq<Kv>, b: seq<Kv>)
    ensures Flat(a + b) == Flat(a) + Flat(b)
  {
    if a == [] {
      assert a + b == b;
    } else {
      FlatConcat(a[1..], b);
      assert (a + b)[0] == a[0] && (a + b)[1..] == a[1..] + b;
      Assoc([a[0].key, a[0].value], Flat(a[1..]), Flat(b));
    }
  }

  // What two more writes add.
  lemma FlatOne(kvs: seq<Kv>, kv: Kv)
    ensures AllWritten(Flat(kvs + [kv])) == (AllWritten(Flat(kvs)) + Written(kv.key)) + Written(kv.value)
  {
    FlatConcat(kvs, [kv]);
    assert Flat([kv]) == [kv.key, kv.value];
    AllWrittenConcat(Flat(kvs), [kv.key, kv.value]);
    var two, one := [kv.key, kv.value], [kv.value];
    assert two[1..] == one;
    assert AllWritten(one) == Written(kv.value);
    assert AllWritten(two) == Written(kv.key) + AllWritten(one);
    Assoc(AllWritten(Flat(kvs)), Written(kv.key), Written(kv.value));
  }

  lemma NothingWritten()
    ensures AllWritten(Flat([])) == []
  {
  }

  lemma TaskIs(key: seq<Byte>, nReduce: nat)
    requires nReduce > 0
    ensures Task(key, nReduce) == Hash(key) % nReduce
  {
    hide Hash;
  }

  /** write_map_kvs: the file of each reduce task has the pairs of its bucket. */
  method WriteMapKvs(writers: seq<Writer>, kva: seq<Kv>)
    requires |writers| > 0 && (forall i, j | 0 <= i < j < |writers| :: writers[i] != writers[j])
    requires forall r | 0 <= r < |writers| :: writers[r].file == []
    modifies writers
    ensures forall r | 0 <= r < |writers| :: writers[r].file == AllWritten(Flat(Bucket(kva, |writers|, r)))
  {
    hide AllWritten, Flat, Task, Written;
    var nReduce := |writers|;
    NothingWritten();
    for i := 0 to |kva|
      invariant forall r | 0 <= r < nReduce :: writers[r].file == AllWritten(Flat(Bucket(kva[..i], nReduce, r)))
    {
      var kv := kva[i];
      assert kva[..i + 1][..i] == kva[..i];
      var h := Ihash(kv.key);
      var reduceTask := h % nReduce;
      TaskIs(kv.key, nReduce);
      FlatOne(Bucket(kva[..i], nReduce, reduceTask), kv);
      writers[reduceTask].Write(kv.key);
      writers[reduceTask].Write(kv.value);
      forall r | 0 <= r < nReduce
        ensures writers[r].file == AllWritten(Flat(Bucket(kva[..i + 1], nReduce, r)))
      {
        assert Bucket(kva[..i + 1], nReduce, r) == Bucket(kva[..i], nReduce, r) + (if reduceTask == r then [kv] else []);
        assert r != reduceTask ==> writers[r] != writers[reduceTask] && Bucket(kva[..i], nReduce, r) + [] == Bucket(kva[..i], nReduce, r);
      }
    }
    assert kva[..|kva|] == kva;
  }

  /* ----- reduce input ----- */

  /** Buffers taken two by two. */
  function PairsOf(bufs: seq<seq<Byte>>): seq<Kv> {
    if |bufs| < 2 then [] else [Kv(bufs[0], bufs[1])] + PairsOf(bufs[2..])
  }

  /** The pairs of several files, one file after the other. */
  function FromFiles(files: seq<seq<Byte>>): seq<Kv> {
    if files == [] then [] else FromFiles(files[..|files| - 1]) + PairsOf(Buffers(files[|files| - 1]))
  }

  function Entries(files: seq<seq<Byte>>): nat {
    if files == [] then 0 else Entries(files[..|files| - 1]) + |Buffers(files[|files| - 1])|
  }

  lemma {:induction false} PairsOfFlat(kvs: seq<Kv>)
    ensures PairsOf(Flat(kvs)) == kvs && |Flat(kvs)| == 2 * |kvs|
  {
    if kvs != [] {
      PairsOfFlat(kvs[1..]);
      assert Flat(kvs)[2..] == Flat(kvs[1..]);
    }
  }

  method NextPair(reader: Reader) returns (key: Option<seq<Byte>>, value: Option<seq<Byte>>)
    requires reader.Valid()
    modifies reader
    ensures reader.Valid()
    ensures var rest := Buffers(old(reader.Left()));
      && (key.Some? && value.Some? <==> |rest| >= 2)
      && (key.Some? && value.Some? ==> key.value == rest[0] && value.value == rest[1] && Buffers(reader.Left()) == rest[2..])
  {
    key := reader.Next(true);
    value := reader.Next(true);
  }

  // Readers at the start of the given files.
  ghost predicate AtStart(readers: seq<Reader>, files: seq<seq<Byte>>)
    reads readers
  {
    && |files| == |readers| && (forall i, j | 0 <= i < j < |readers| :: readers[i] != readers[j])
    && forall i | 0 <= i < |readers| :: readers[i].file == files[i] && readers[i].pos == 0
  }

  /** open_reduce_readers: counts the entries of all files and goes back to their starts. */
  method CountEntries(readers: seq<Reader>, ghost files: seq<seq<Byte>>) returns (entries: nat)
    requires AtStart(readers, files)
    modifies readers
    ensures AtStart(readers, files) && entries == Entries(files)
  {
    hide Buffers;
    entries := 0;
    for i := 0 to |readers|
      invariant forall j | 0 <= j < |readers| :: readers[j].pos == 0
      invariant entries == Entries(files[..i])
    {
      assert files[..i + 1][..i] == files[..i];
      assert files[i][0..] == files[i];
      var count := readers[i].Count();
      entries := entries + count;
      readers[i].Rewind();
      assert forall j | 0 <= j < |readers| && j != i :: readers[j] != readers[i];
    }
    assert files[..|files|] == files;
  }

  // The loop over one file, with room for `room` pairs.
  method ReadFile(reader: Reader, room: nat) returns (kvs: seq<Kv>)
    requires reader.Valid() && reader.Left() == reader.file
    modifies reader
    ensures reader.Valid()
    ensures kvs == Prefix(PairsOf(Buffers(reader.file)), room)
  {
    hide Buffers;
    ghost var rest := Buffers(reader.Left());
    ghost var all := PairsOf(rest);
    kvs := [];
    var key, value := NextPair(reader);
    while |kvs| < room && key.Some? && value.Some?
      invariant reader.Valid() && |kvs| <= room
      invariant kvs + PairsOf(rest) == all
      invariant key.Some? && value.Some? <==> |rest| >= 2
      invariant key.Some? && value.Some? ==> key.value == rest[0] && value.value == rest[1] && Buffers(reader.Left()) == rest[2..]
      decreases |rest|
    {
      Assoc(kvs, [Kv(rest[0], rest[1])], PairsOf(rest[2..]));
      kvs := kvs + [Kv(key.value, value.value)];
      rest := rest[2..];
      key, value := NextPair(reader);
    }
    assert kvs <= all;
  }

  function Prefix(kvs: seq<Kv>, n: nat): seq<Kv> { kvs[..if n < |kvs| then n else |kvs|] }

  lemma PrefixOfNothing(n: nat)
    ensures Prefix([], n) == []
  {
  }

  lemma PrefixMore(a: seq<Kv>, b: seq<Kv>, n: nat)
    ensures |Prefix(a, n)| <= n && Prefix(a, n) + Prefix(b, n - |Prefix(a, n)|) == Prefix(a + b, n)
  {
  }

  /** read_map_kvs: the pairs of all files, as far as there is room. */
  method ReadMapKvs(readers: seq<Reader>, length: nat, ghost files: seq<seq<Byte>>) returns (kvs: seq<Kv>)
    requires AtStart(readers, files)
    modifies readers
    ensures kvs == Prefix(FromFiles(files), length)
  {
    hide Buffers, PairsOf, Prefix;
    kvs := [];
    PrefixOfNothing(length);
    for i := 0 to |readers|
      invariant forall j | i <= j < |readers| :: readers[j].pos == 0
      invariant kvs == Prefix(FromFiles(files[..i]), length)
    {
      assert files[..i + 1][..i] == files[..i];
      assert files[i][0..] == files[i];
      ghost var before, more := FromFiles(files[..i]), PairsOf(Buffers(files[i]));
      PrefixMore(before, more, length);
      var next := ReadFile(readers[i], length - |kvs|);
      assert FromFiles(files[..i + 1]) == before + more;
      kvs := kvs + next;
      assert forall j | 0 <= j < |readers| && j != i :: readers[j] != readers[i];
    }
    assert files[..|files|] == files;
  }

  /* ----- reduce ----- */

  /** In the order of their keys. */
  ghost predicate SortedByKey(s: seq<Kv>) {
    forall i, j | 0 <= i < j < |s| :: ByKey(s[i].key, s[j].key) <= 0
  }

  /** The pairs at the start with the same key as the first. */
  function Group(s: seq<Kv>): (n: nat)
    requires s != []
    ensures 1 <= n <= |s|
  {
    GroupFrom(s, 1)
  }

  function GroupFrom(s: seq<Kv>, n: nat): (m: nat)
    requires 1 <= n <= |s|
    ensures n <= m <= |s| && (forall i | n <= i < m :: ByKey(s[0].key, s[i].key) == 0) && (m < |s| ==> ByKey(s[0].key, s[m].key) != 0)
    decreases |s| - n
  {
    if n < |s| && ByKey(s[0].key, s[n].key) == 0 then GroupFrom(s, n + 1) else n
  }

  type ReduceFn = (seq<Byte>, seq<Kv>) -> Kv

  /** One result for each group of pairs with the same key. */
  function Reduced(s: seq<Kv>, reduce: ReduceFn): seq<Kv> {
    if s == [] then [] else [reduce(s[0].key, s[..Group(s)])] + Reduced(s[Group(s)..], reduce)
  }

  lemma GroupAt(s: seq<Kv>, p1: nat, p2: nat, reduce: ReduceFn)
    requires p1 < p2 <= |s| && (forall i | p1 < i < p2 :: ByKey(s[p1].key, s[i].key) == 0)
    requires p2 < |s| ==> ByKey(s[p1].key, s[p2].key) != 0
    ensures Reduced(s[p1..], reduce) == [reduce(s[p1].key, s[p1..p2])] + Reduced(s[p2..], reduce)
  {
    var t, n := s[p1..], p2 - p1;
    var m := Group(t);
    assert forall i | 0 <= i < |t| :: t[i] == s[p1 + i];
    assert m == n;
    assert t[..n] == s[p1..p2] && t[n..] == s[p2..];
  }

  lemma NothingReduced(reduce: ReduceFn)
    ensures Reduced([], reduce) == []
  {
  }

  method WritePair(writer: Writer, kv: Kv, ghost done: seq<Kv>)
    requires writer.file == AllWritten(Flat(done))
    modifies writer
    ensures writer.file == AllWritten(Flat(done + [kv]))
  {
    hide AllWritten, Flat, Written;
    FlatOne(done, kv);
    writer.Write(kv.key);
    writer.Write(kv.value);
  }

  /** The two-pointer loop of reduce_kvs, on the sorted pairs. */
  method ReduceKvs(writer: Writer, kvs: seq<Kv>, reduce: ReduceFn)
    requires writer.file == []
    modifies writer
    ensures writer.file == AllWritten(Flat(Reduced(kvs, reduce)))
  {
    hide AllWritten, Flat, Reduced, ByKey, Written;
    var p1, p2 := 0, 1;
    ghost var done: seq<Kv> := [];
    NothingWritten();
    assert kvs[0..] == kvs && done + Reduced(kvs, reduce) == Reduced(kvs, reduce);
    while p1 < |kvs|
      invariant p1 < p2 && p1 <= |kvs| && (p1 < |kvs| ==> p2 <= |kvs|)
      invariant forall i | p1 < i < p2 && i < |kvs| :: ByKey(kvs[p1].key, kvs[i].key) == 0
      invariant writer.file == AllWritten(Flat(done)) && done + Reduced(kvs[p1..], reduce) == Reduced(kvs, reduce)
      decreases |kvs| - p1, |kvs| - p2
    {
      if p2 >= |kvs| || ByKey(kvs[p1].key, kvs[p2].key) != 0 {
        if p2 > p1 {
          var kv := reduce(kvs[p1].key, kvs[p1..p2]);
          GroupAt(kvs, p1, p2, reduce);
          Assoc(done, [kv], Reduced(kvs[p2..], reduce));
          WritePair(writer, kv, done);
          done := done + [kv];
        }
        p1 := p2;
      }
      p2 := p2 + 1;
    }
    NothingReduced(reduce);
    assert kvs[p1..] == [] && done + [] == done;
  }
}
