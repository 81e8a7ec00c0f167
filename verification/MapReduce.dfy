/**
 A whole word count job: map every input file, spread the pairs over the reduce tasks,
 write and read the intermediate files, sort, group and reduce. For any inputs and any
 way qsort may order equal keys, the result is the direct count of words.
 */
module MapReduce {
  import opened Codec
  import opened WordCount
  import opened Worker

  /** wc_reduce as a function. */
  function Count(key: seq<Byte>, group: seq<Kv>): Kv { Kv(key, IntBytes(Sum(group))) }

  /** All words of all inputs. */
  function AllWords(inputs: seq<seq<Byte>>): seq<seq<Byte>> {
    if inputs == [] then [] else AllWords(inputs[..|inputs| - 1]) + Words(inputs[|inputs| - 1])
  }

  /** The intermediate file from a map task to reduce task r. */
  function Intermediate(input: seq<Byte>, n: nat, r: nat): seq<Byte>
    requires n > 0
  {
    AllWritten(Flat(Bucket(Pairs(Words(input)), n, r)))
  }

  function Intermediates(inputs: seq<seq<Byte>>, n: nat, r: nat): (files: seq<seq<Byte>>)
    requires n > 0
    ensures |files| == |inputs|
  {
    seq(|inputs|, m requires 0 <= m < |inputs| => Intermediate(inputs[m], n, r))
  }

  /** The pairs of reduce task r, as they were mapped. */
  function Mapped(inputs: seq<seq<Byte>>, n: nat, r: nat): seq<Kv>
    requires n > 0
  {
    if inputs == [] then [] else Mapped(inputs[..|inputs| - 1], n, r) + Bucket(Pairs(Words(inputs[|inputs| - 1])), n, r)
  }

  /** The length of every file is an int. */
  predicate FilesFit(inputs: seq<seq<Byte>>) { forall m | 0 <= m < |inputs| :: FitsIndex(|inputs[m]|) }

  /* ----- the intermediate files lose nothing ----- */

  lemma {:induction false} BucketFrom(words: seq<seq<Byte>>, n: nat, r: nat)
    requires n > 0
    ensures forall kv | kv in Bucket(Pairs(words), n, r) :: kv.value == IntBytes(1) && kv.key in words && Task(kv.key, n) == r
  {
    hide Task, IntBytes;
    if words != [] {
      var last := |words| - 1;
      BucketFrom(words[..last], n, r);
      assert Pairs(words)[..last] == Pairs(words[..last]);
    }
  }

  lemma {:induction false} FlatMembers(kvs: seq<Kv>)
    ensures forall b | b in Flat(kvs) :: exists kv :: kv in kvs && (b == kv.key || b == kv.value)
  {
    if kvs != [] {
      FlatMembers(kvs[1..]);
      forall b | b in Flat(kvs)
        ensures exists kv :: kv in kvs && (b == kv.key || b == kv.value)
      {
        if b in Flat(kvs[1..]) {
          var kv :| kv in kvs[1..] && (b == kv.key || b == kv.value);
          assert kv in kvs;
        } else {
          assert kvs[0] in kvs;
        }
      }
    }
  }

  lemma OneFileBack(input: seq<Byte>, n: nat, r: nat)
    requires n > 0 && FitsIndex(|input|)
    ensures var kvs := Bucket(Pairs(Words(input)), n, r);
      PairsOf(Buffers(Intermediate(input, n, r))) == kvs && |Buffers(Intermediate(input, n, r))| == 2 * |kvs|
  {
    hide Words, Bucket, Buffers, AllWritten, Flat, PairsOf, IntBytes;
    var kvs := Bucket(Pairs(Words(input)), n, r);
    BucketFrom(Words(input), n, r);
    WordsAreLower(input);
    FlatMembers(kvs);
    ReadBack(Flat(kvs));
    PairsOfFlat(kvs);
  }

  /** What a reduce task reads is what the map tasks emitted for it: an even number of entries, none missing. */
  lemma {:induction false} NothingLost(inputs: seq<seq<Byte>>, n: nat, r: nat)
    requires n > 0 && FilesFit(inputs)
    ensures FromFiles(Intermediates(inputs, n, r)) == Mapped(inputs, n, r)
    ensures Entries(Intermediates(inputs, n, r)) == 2 * |Mapped(inputs, n, r)|
    ensures Prefix(FromFiles(Intermediates(inputs, n, r)), Entries(Intermediates(inputs, n, r)) / 2) == Mapped(inputs, n, r)
  {
    hide Intermediate, PairsOf, Buffers, Bucket, Words, Pairs;
    if inputs != [] {
      var last := |inputs| - 1;
      NothingLost(inputs[..last], n, r);
      assert Intermediates(inputs, n, r)[..last] == Intermediates(inputs[..last], n, r);
      OneFileBack(inputs[last], n, r);
    }
  }

  /* ----- how often a pair occurs ----- */

  lemma {:induction false} BucketBag(words: seq<seq<Byte>>, n: nat, r: nat, k: seq<Byte>)
    requires n > 0
    ensures multiset(Bucket(Pairs(words), n, r))[Kv(k, IntBytes(1))] == if Task(k, n) == r then multiset(words)[k] else 0
  {
    hide Task, IntBytes;
    if words != [] {
      var last := |words| - 1;
      BucketBag(words[..last], n, r, k);
      assert Pairs(words)[..last] == Pairs(words[..last]);
      assert words == words[..last] + [words[last]];
    }
  }

  /** A pair is mapped to a reduce task as often as its key is a word, if the key belongs there. */
  lemma {:induction false} MappedBag(inputs: seq<seq<Byte>>, n: nat, r: nat, k: seq<Byte>)
    requires n > 0
    ensures multiset(Mapped(inputs, n, r))[Kv(k, IntBytes(1))] == if Task(k, n) == r then multiset(AllWords(inputs))[k] else 0
  {
    hide Task, IntBytes, Bucket, Words, Pairs;
    if inputs != [] {
      MappedBag(inputs[..|inputs| - 1], n, r, k);
      BucketBag(Words(inputs[|inputs| - 1]), n, r, k);
    }
  }

  // Every mapped pair has the value 1 and a short key without NUL.
  lemma {:induction false} MappedPairs(inputs: seq<seq<Byte>>, n: nat, r: nat)
    requires n > 0 && FilesFit(inputs)
    ensures Ones(Mapped(inputs, n, r))
  {
    hide Task, IntBytes, Bucket, Words, Pairs;
    if inputs != [] {
      var last := inputs[|inputs| - 1];
      MappedPairs(inputs[..|inputs| - 1], n, r);
      BucketFrom(Words(last), n, r);
      WordsAreLower(last);
    }
  }

  /* ----- grouping counts ----- */

  // Pairs with keys that by_key tells apart, and with the value 1.
  ghost predicate Ones(s: seq<Kv>) {
    forall kv | kv in s :: kv.value == IntBytes(1) && NoNul(kv.key) && Short(kv.key)
  }

  lemma {:induction false} SumOfOnes(s: seq<Kv>)
    requires Ones(s)
    ensures Sum(s) == |s|
  {
    if s != [] {
      SumOfOnes(s[..|s| - 1]);
      IntRoundTrip(1);
      assert s[|s| - 1] in s;
    }
  }

  // The first group of a sorted list holds all pairs with its key.
  lemma FirstGroup(s: seq<Kv>)
    requires s != [] && SortedByKey(s) && Ones(s)
    ensures forall i | 0 <= i < Group(s) :: s[i] == s[0]
    ensures forall i | Group(s) <= i < |s| :: s[i].key != s[0].key
  {
    var n := Group(s);
    assert s[0] in s;
    forall i | 0 <= i < n
      ensures s[i] == s[0]
    {
      assert s[i] in s;
      ByKeyZero(s[0].key, s[i].key);
    }
    forall i | n <= i < |s|
      ensures s[i].key != s[0].key
    {
      assert s[n] in s && s[i] in s;
      assert ByKey(s[0].key, s[n].key) <= 0 && (n < i ==> ByKey(s[n].key, s[i].key) <= 0);
      ByKeySwap(s[0].key, s[n].key);
      ByKeyZero(s[0].key, s[i].key);
      ByKeySwap(s[n].key, s[i].key);
    }
  }

  lemma {:induction false} Repeated(s: seq<Kv>, x: Kv)
    requires forall i | 0 <= i < |s| :: s[i] == x
    ensures multiset(s)[x] == |s| && forall y | y != x :: multiset(s)[y] == 0
  {
    if s != [] {
      Repeated(s[1..], x);
      assert s == [s[0]] + s[1..];
    }
  }

  /** `out` has each key of s once, with the number of its pairs. */
  ghost predicate Counted(s: seq<Kv>, out: seq<Kv>) {
    && (forall i | 0 <= i < |out| :: out[i].value == IntBytes(multiset(s)[Kv(out[i].key, IntBytes(1))]) && Kv(out[i].key, IntBytes(1)) in s)
    && (forall i, j | 0 <= i < j < |out| :: out[i].key != out[j].key)
    && (forall k | Kv(k, IntBytes(1)) in s :: exists i :: 0 <= i < |out| && out[i].key == k)
  }

  /** Each key comes out once, with the number of its pairs. */
  lemma {:induction false} ReducedCounts(s: seq<Kv>)
    requires SortedByKey(s) && Ones(s)
    ensures Counted(s, Reduced(s, Count))
    decreases |s|
  {
    hide Counted, SortedByKey, ByKey, Group, IntBytes, Sum, Ones;
    if s == [] {
      NothingCounted();
    } else {
      var n := Group(s);
      var a, b := s[..n], s[n..];
      FirstGroup(s);
      SuffixFit(s, n);
      ReducedCounts(b);
      SumOfOnes(a);
      Repeated(a, s[0]);
      assert s == a + b;
      OneMore(s, a, b, Reduced(b, Count), Reduced(s, Count));
    }
  }

  lemma NothingCounted()
    ensures Counted([], Reduced([], Count))
  {
  }

  lemma SuffixFit(s: seq<Kv>, n: nat)
    requires n <= |s| && SortedByKey(s) && Ones(s)
    ensures SortedByKey(s[n..]) && Ones(s[..n]) && Ones(s[n..]) && (s != [] ==> s[0].value == IntBytes(1))
  {
    hide ByKey, IntBytes;
  }

  // The first group in front of the others.
  lemma OneMore(s: seq<Kv>, a: seq<Kv>, b: seq<Kv>, rest: seq<Kv>, out: seq<Kv>)
    requires s == a + b && a != [] && s[0].value == IntBytes(1)
    requires (forall i | 0 <= i < |a| :: a[i] == s[0]) && (forall i | 0 <= i < |b| :: b[i].key != s[0].key)
    requires multiset(a)[s[0]] == |a| && forall y | y != s[0] :: multiset(a)[y] == 0
    requires out == [Kv(s[0].key, IntBytes(|a|))] + rest
    requires Counted(b, rest)
    ensures Counted(s, out)
  {
    hide IntBytes;
    var one := IntBytes(1);
    assert multiset(b)[s[0]] == 0 by {
      assert s[0] !in b;
    }
    forall i | 0 <= i < |rest|
      ensures rest[i].key != s[0].key
    {
      assert Kv(rest[i].key, one) in b;
    }
    forall k | Kv(k, one) in s
      ensures exists i :: 0 <= i < |out| && out[i].key == k
    {
      if k == s[0].key {
        assert out[0].key == k;
      } else {
        assert Kv(k, one) in b;
        var i :| 0 <= i < |rest| && rest[i].key == k;
        assert out[i + 1].key == k;
      }
    }
  }

  /* ----- the result ----- */

  /** `sorted` is what qsort may make of the pairs of reduce task r. */
  ghost predicate SortedInput(inputs: seq<seq<Byte>>, n: nat, r: nat, sorted: seq<Kv>)
    requires n > 0
  {
    SortedByKey(sorted) && multiset(sorted) == multiset(Mapped(inputs, n, r))
  }

  /** The pairs a reduce task must put out: its words, each of them once, with their counts. */
  ghost predicate TaskOutput(inputs: seq<seq<Byte>>, n: nat, r: nat, out: seq<Kv>)
    requires n > 0
  {
    && (forall i | 0 <= i < |out| :: out[i].value == IntBytes(multiset(AllWords(inputs))[out[i].key]))
    && (forall i, j | 0 <= i < j < |out| :: out[i].key != out[j].key)
    && (forall k :: (exists i :: 0 <= i < |out| && out[i].key == k) <==> k in AllWords(inputs) && Task(k, n) == r)
  }

  /** Reduce task r counts exactly the words that belong to it, each of them once. */
  lemma TaskCountsWords(inputs: seq<seq<Byte>>, n: nat, r: nat, sorted: seq<Kv>)
    requires n > 0 && r < n && FilesFit(inputs) && SortedInput(inputs, n, r, sorted)
    ensures TaskOutput(inputs, n, r, Reduced(sorted, Count))
  {
    hide Reduced, Mapped, AllWords, SortedByKey, Task, IntBytes, Sum, FilesFit;
    var kvs, one := Mapped(inputs, n, r), IntBytes(1);
    SortedOnes(inputs, n, r, sorted);
    ReducedCounts(sorted);
    hide Ones;
    forall k
      ensures multiset(sorted)[Kv(k, one)] == if Task(k, n) == r then multiset(AllWords(inputs))[k] else 0
      ensures Kv(k, one) in sorted <==> k in AllWords(inputs) && Task(k, n) == r
    {
      MappedBag(inputs, n, r, k);
      assert Kv(k, one) in sorted <==> Kv(k, one) in multiset(sorted);
      assert k in AllWords(inputs) <==> k in multiset(AllWords(inputs));
    }
  }

  lemma SortedOnes(inputs: seq<seq<Byte>>, n: nat, r: nat, sorted: seq<Kv>)
    requires n > 0 && r < n && FilesFit(inputs) && SortedInput(inputs, n, r, sorted)
    ensures Ones(sorted)
  {
    hide Mapped, SortedByKey, FilesFit, IntBytes;
    var kvs := Mapped(inputs, n, r);
    MappedPairs(inputs, n, r);
    forall kv | kv in sorted
      ensures kv in kvs
    {
      assert kv in multiset(sorted);
      assert kv in multiset(kvs);
    }
  }

  /** The pairs in an output file. */
  function Output(file: seq<Byte>): seq<Kv> { PairsOf(Buffers(file)) }

  /** The output files of a whole job: one for each reduce task, with what that task must put out. */
  ghost predicate JobOutput(inputs: seq<seq<Byte>>, n: nat, outputs: seq<seq<Byte>>)
    requires n > 0
  {
    |outputs| == n && forall r | 0 <= r < n :: TaskOutput(inputs, n, r, Output(outputs[r]))
  }

  /** Over all output files every word is there exactly once, with its number of occurrences; nothing else is. */
  lemma JobCountsWords(inputs: seq<seq<Byte>>, n: nat, outputs: seq<seq<Byte>>, k: seq<Byte>)
    requires n > 0 && JobOutput(inputs, n, outputs)
    ensures k in AllWords(inputs) ==>
      exists i :: 0 <= i < |Output(outputs[Task(k, n)])| && Output(outputs[Task(k, n)])[i] == Kv(k, IntBytes(multiset(AllWords(inputs))[k]))
    ensures forall r, i | 0 <= r < n && 0 <= i < |Output(outputs[r])| && Output(outputs[r])[i].key == k ::
      k in AllWords(inputs) && r == Task(k, n)
    ensures forall r, i, j | 0 <= r < n && 0 <= i < j < |Output(outputs[r])| :: Output(outputs[r])[i].key != Output(outputs[r])[j].key
  {
    hide AllWords, Task, IntBytes, Output;
    if k in AllWords(inputs) {
      var out := Output(outputs[Task(k, n)]);
      assert TaskOutput(inputs, n, Task(k, n), out);
      var i :| 0 <= i < |out| && out[i].key == k;
      assert out[i] == Kv(k, IntBytes(multiset(AllWords(inputs))[k]));
    }
  }

  /** The value in the output is the count itself as long as a 32-bit integer can hold it. */
  lemma CountFits(inputs: seq<seq<Byte>>, k: seq<Byte>)
    ensures IntOf(IntBytes(multiset(AllWords(inputs))[k])) == multiset(AllWords(inputs))[k] <==> multiset(AllWords(inputs))[k] < 0x8000_0000
  {
    IntRoundTrip(multiset(AllWords(inputs))[k]);
  }

  /** handle_map_task: one file for each reduce task. */
  method HandleMapTask(contents: seq<Byte>, nReduce: nat) returns (writers: seq<Writer>)
    requires nReduce > 0 && FitsIndex(|contents|)
    ensures fresh(writers) && |writers| == nReduce && forall r | 0 <= r < nReduce :: writers[r].file == Intermediate(contents, nReduce, r)
  {
    hide Words, Pairs, Bucket, Flat, AllWritten;
    writers := [];
    for r := 0 to nReduce
      invariant |writers| == r && fresh(writers)
      invariant (forall i, j | 0 <= i < j < r :: writers[i] != writers[j]) && forall i | 0 <= i < r :: writers[i].file == []
    {
      var w := new Writer();
      writers := writers + [w];
    }
    var kva := Map(contents);
    WriteMapKvs(writers, kva);
  }

  /** handle_reduce_task, given the order qsort chose; false for a malformed number of entries. */
  method HandleReduceTask(readers: seq<Reader>, ghost files: seq<seq<Byte>>, sort: seq<Kv> -> seq<Kv>) returns (ok: bool, writer: Writer)
    requires AtStart(readers, files)
    modifies readers
    ensures fresh(writer) && (ok <==> Entries(files) % 2 == 0)
    ensures ok && Entries(files) > 1 ==> writer.file == AllWritten(Flat(Reduced(sort(Prefix(FromFiles(files), Entries(files) / 2)), Count)))
    ensures ok && Entries(files) == 0 ==> writer.file == []
  {
    hide AllWritten, Flat, Reduced, Entries, FromFiles;
    writer := new Writer();
    var entries := CountEntries(readers, files);
    if entries % 2 == 1 {
      return false, writer;
    }
    ok := true;
    if entries / 2 > 0 {
      var kvs := ReadMapKvs(readers, entries / 2, files);
      ReduceKvs(writer, sort(kvs), Count);
    }
  }

  /** What qsort does with keys that by_key orders: some arrangement of the pairs in that order. */
  ghost predicate Sorts(sort: seq<Kv> -> seq<Kv>) {
    forall s | Ones(s) :: SortedByKey(sort(s)) && multiset(sort(s)) == multiset(s)
  }

  // What a reduce task writes reads back as what it must put out.
  lemma OutputBack(inputs: seq<seq<Byte>>, n: nat, r: nat, sort: seq<Kv> -> seq<Kv>)
    requires n > 0 && r < n && FilesFit(inputs) && Sorts(sort)
    ensures var out := Reduced(sort(Mapped(inputs, n, r)), Count);
      TaskOutput(inputs, n, r, out) && PairsOf(Buffers(AllWritten(Flat(out)))) == out
  {
    hide AllWords, TaskOutput, Reduced, Mapped, Buffers, PairsOf, AllWritten, Flat, SortedByKey, Ones, FilesFit;
    var kvs := Mapped(inputs, n, r);
    MappedPairs(inputs, n, r);
    var out := Reduced(sort(kvs), Count);
    TaskCountsWords(inputs, n, r, sort(kvs));
    SortedOnes(inputs, n, r, sort(kvs));
    ReducedCounts(sort(kvs));
    ShortOutput(sort(kvs), out);
    FlatMembers(out);
    ReadBack(Flat(out));
    PairsOfFlat(out);
  }

  lemma ShortOutput(s: seq<Kv>, out: seq<Kv>)
    requires Ones(s) && Counted(s, out)
    ensures forall kv | kv in out :: FitsLength(|kv.key|) && FitsLength(|kv.value|)
  {
    hide IntBytes;
    forall kv | kv in out
      ensures FitsLength(|kv.key|) && FitsLength(|kv.value|)
    {
      var i :| 0 <= i < |out| && out[i] == kv;
      assert Kv(out[i].key, IntBytes(1)) in s;
    }
  }

  // The files that all map tasks wrote for reduce task r.
  function Column(files: seq<seq<seq<Byte>>>, r: nat): (c: seq<seq<Byte>>)
    requires forall m | 0 <= m < |files| :: r < |files[m]|
    ensures |c| == |files|
  {
    seq(|files|, m requires 0 <= m < |files| => files[m][r])
  }

  // handle_map_task for every input file.
  method MapAll(inputs: seq<seq<Byte>>, nReduce: nat) returns (files: seq<seq<seq<Byte>>>)
    requires nReduce > 0 && FilesFit(inputs)
    ensures |files| == |inputs| && forall m | 0 <= m < |files| :: |files[m]| == nReduce
    ensures forall r | 0 <= r < nReduce :: Column(files, r) == Intermediates(inputs, nReduce, r)
  {
    hide Intermediate;
    files := [];
    for m := 0 to |inputs|
      invariant |files| == m && forall i | 0 <= i < m :: |files[i]| == nReduce
      invariant forall i, r | 0 <= i < m && 0 <= r < nReduce :: files[i][r] == Intermediate(inputs[i], nReduce, r)
    {
      var writers := HandleMapTask(inputs[m], nReduce);
      files := files + [seq(nReduce, r requires 0 <= r < |writers| reads writers => writers[r].file)];
    }
  }

  method OpenReaders(files: seq<seq<Byte>>) returns (readers: seq<Reader>)
    ensures fresh(readers) && AtStart(readers, files)
  {
    readers := [];
    for m := 0 to |files|
      invariant |readers| == m && fresh(readers) && AtStart(readers, files[..m])
    {
      var reader := new Reader(files[m]);
      readers := readers + [reader];
    }
    assert files[..|files|] == files;
  }

  /** A whole job, from the input files to the output files, for any way qsort may order equal keys. */
  method RunJob(inputs: seq<seq<Byte>>, nReduce: nat, sort: seq<Kv> -> seq<Kv>) returns (outputs: seq<seq<Byte>>)
    requires nReduce > 0 && FilesFit(inputs) && Sorts(sort)
    ensures JobOutput(inputs, nReduce, outputs)
  {
    hide TaskOutput, Sorts, FilesFit, Intermediate, Mapped, Output, AllWritten, Flat, Reduced;
    var files := MapAll(inputs, nReduce);
    outputs := [];
    for r := 0 to nReduce
      invariant |outputs| == r && forall i | 0 <= i < r :: TaskOutput(inputs, nReduce, i, Output(outputs[i]))
    {
      var output := RunReduce(inputs, nReduce, r, Column(files, r), sort);
      outputs := outputs + [output];
    }
  }

  // handle_reduce_task on the intermediate files.
  method RunReduce(ghost inputs: seq<seq<Byte>>, ghost n: nat, ghost r: nat, files: seq<seq<Byte>>, sort: seq<Kv> -> seq<Kv>) returns (output: seq<Byte>)
    requires n > 0 && r < n && FilesFit(inputs) && Sorts(sort) && files == Intermediates(inputs, n, r)
    ensures TaskOutput(inputs, n, r, Output(output))
  {
    hide TaskOutput, FilesFit, Intermediates, Mapped, Buffers, PairsOf, AllWritten, Flat, Reduced, Entries, FromFiles, AtStart, SortedByKey, Ones;
    NothingLost(inputs, n, r);
    OutputBack(inputs, n, r, sort);
    MappedPairs(inputs, n, r);
    var readers := OpenReaders(files);
    var ok, writer := HandleReduceTask(readers, files, sort);
    assert ok;
    assert multiset(sort(Mapped(inputs, n, r))) == multiset(Mapped(inputs, n, r));
    NoPairs(sort(Mapped(inputs, n, r)));
    output := writer.file;
  }

  lemma NoPairs(s: seq<Kv>)
    ensures multiset(s) == multiset{} ==> AllWritten(Flat(Reduced(s, Count))) == []
  {
    if s != [] {
      assert s[0] in multiset(s);
    }
  }
}
