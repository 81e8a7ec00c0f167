/**
 The word count application: its map emits one pair for each word of two or more letters,
 in lower case; its reduce adds up the values of one key. Values are 32-bit integers,
 lowest byte first.
 */
module WordCount {
  import opened Codec

  datatype Kv = Kv(key: seq<Byte>, value: seq<Byte>)

  predicate IsAlpha(b: Byte) { 65 <= b <= 90 || 97 <= b <= 122 }

  function ToLower(b: Byte): Byte { if 65 <= b <= 90 then b + 32 else b }

  function Lower(s: seq<Byte>): (r: seq<Byte>)
    ensures |r| == |s|
  {
    seq(|s|, i requires 0 <= i < |s| => ToLower(s[i]))
  }

  /* ----- words ----- */

  /** The number of letters the text starts with. */
  function Letters(s: seq<Byte>): (n: nat)
    ensures n <= |s| && (forall i | 0 <= i < n :: IsAlpha(s[i])) && (n < |s| ==> !IsAlpha(s[n]))
  {
    if s == [] || !IsAlpha(s[0]) then 0 else 1 + Letters(s[1..])
  }

  /** The words of a text: its longest stretches of letters, those of one letter left out. */
  function Words(s: seq<Byte>): seq<seq<Byte>>
    decreases |s|
  {
    if s == [] then []
    else if Letters(s) == 0 then Words(s[1..])
    else (if Letters(s) >= 2 then [Lower(s[..Letters(s)])] else []) + Words(s[Letters(s)..])
  }

  lemma {:induction false} LettersOf(s: seq<Byte>, n: nat)
    requires n <= |s| && (forall i | 0 <= i < n :: IsAlpha(s[i])) && (n < |s| ==> !IsAlpha(s[n]))
    ensures Letters(s) == n
  {
    if n > 0 {
      assert forall i | 0 <= i < n - 1 :: s[1..][i] == s[i + 1];
      LettersOf(s[1..], n - 1);
    }
  }

  // A stretch of n letters up to the end or a character that is none.
  lemma WordsStep(s: seq<Byte>, n: nat)
    requires n <= |s| && (forall i | 0 <= i < n :: IsAlpha(s[i])) && (n < |s| ==> !IsAlpha(s[n]))
    ensures Words(s) == (if n >= 2 then [Lower(s[..n])] else []) + (if n < |s| then Words(s[n + 1..]) else [])
  {
    LettersOf(s, n);
    if n == |s| {
      assert s[n..] == [];
    } else if n > 0 {
      LettersOf(s[n..], 0);
      assert s[n..][1..] == s[n + 1..];
    }
  }

  /** Words are made of lower-case letters, and have two at least. */
  lemma {:induction false} WordsAreLower(s: seq<Byte>)
    ensures forall w | w in Words(s) :: |w| >= 2 && |w| <= |s| && forall i | 0 <= i < |w| :: 97 <= w[i] <= 122
    decreases |s|
  {
    if s != [] {
      WordsAreLower(if Letters(s) == 0 then s[1..] else s[Letters(s)..]);
    }
  }

  /** A capital or small letter of ASCII. */
  predicate Letter(b: Byte) { 'A' as int <= b <= 'Z' as int || 'a' as int <= b <= 'z' as int }

  /** The letters from i up to j, two at least, are all there are. */
  ghost predicate Stretch(s: seq<Byte>, i: nat, j: nat) {
    && i + 2 <= j <= |s| && (forall x | i <= x < j :: Letter(s[x]))
    && (i > 0 ==> !Letter(s[i - 1])) && (j < |s| ==> !Letter(s[j]))
  }

  /** A key is the stretch with small letters as they are and capital letters moved up by 32. */
  ghost predicate KeyOf(key: seq<Byte>, t: seq<Byte>) {
    && |key| == |t|
    && forall x | 0 <= x < |t| :: ('a' as int <= t[x] <= 'z' as int ==> key[x] == t[x]) && ('A' as int <= t[x] <= 'Z' as int ==> key[x] as int - t[x] as int == 32)
  }

  /** A stretch with its key. */
  ghost predicate PlaceOf(s: seq<Byte>, key: seq<Byte>, i: nat, j: nat) {
    Stretch(s, i, j) && KeyOf(key, s[i..j])
  }

  ghost predicate Listed(from: seq<nat>, to: seq<nat>, i: nat, j: nat) {
    exists n: nat :: n < |from| && n < |to| && from[n] == i && to[n] == j
  }

  /** Where the words are: all stretches that start at p or later, from left to right, each with its key. */
  ghost predicate Placed(s: seq<Byte>, p: nat, words: seq<seq<Byte>>, from: seq<nat>, to: seq<nat>) {
    && |from| == |to| == |words|
    && (forall n | 0 <= n < |words| :: PlaceOf(s, words[n], from[n], to[n]) && from[n] >= p)
    && (forall m, n | 0 <= m < n < |words| :: to[m] < from[n])
    && (forall i: nat, j: nat | Stretch(s, i, j) && i >= p :: Listed(from, to, i, j))
  }

  lemma LowerIsKey(t: seq<Byte>)
    requires forall x | 0 <= x < |t| :: IsAlpha(t[x])
    ensures KeyOf(Lower(t), t)
  {
  }

  /** Two stretches have the same key exactly when they agree letter by letter up to case. */
  lemma SameKey(t: seq<Byte>, u: seq<Byte>, key: seq<Byte>, key': seq<Byte>)
    requires (forall x | 0 <= x < |t| :: Letter(t[x])) && (forall x | 0 <= x < |u| :: Letter(u[x])) && KeyOf(key, t) && KeyOf(key', u)
    ensures key == key' <==> |t| == |u| && forall x | 0 <= x < |t| :: (t[x] as int - u[x] as int) in {-32, 0, 32}
  {
    if |t| == |u| && forall x | 0 <= x < |t| :: (t[x] as int - u[x] as int) in {-32, 0, 32} {
      forall x | 0 <= x < |t|
        ensures key[x] == key'[x]
      {
        assert Letter(t[x]) && Letter(u[x]);
      }
    }
    if key == key' {
      forall x | 0 <= x < |t|
        ensures (t[x] as int - u[x] as int) in {-32, 0, 32}
      {
        assert Letter(t[x]) && Letter(u[x]) && key[x] == key'[x];
      }
    }
  }

  // The words from position p on.
  function WordsFrom(s: seq<Byte>, p: nat): seq<seq<Byte>> {
    if p < |s| then Words(s[p..]) else []
  }

  // The letters from p1 to p2 are all there are.
  lemma WordAt(s: seq<Byte>, p1: nat, p2: nat)
    requires p1 < |s| && p1 <= p2 <= |s| && (forall j | p1 <= j < p2 :: IsAlpha(s[j])) && (p2 < |s| ==> !IsAlpha(s[p2]))
    ensures WordsFrom(s, p1) == (if p2 > p1 + 1 then [Lower(s[p1..p2])] else []) + WordsFrom(s, p2 + 1)
  {
    var rest, n := s[p1..], p2 - p1;
    WordsStep(rest, n);
    assert rest[..n] == s[p1..p2];
    if p2 < |s| {
      assert rest[n + 1..] == s[p2 + 1..];
      if p2 + 1 == |s| {
        assert s[p2 + 1..] == [];
      }
    }
  }

  // The stretch that starts at p1, if there is one.
  lemma StretchAt(s: seq<Byte>, p1: nat, p2: nat)
    requires p1 < |s| && p1 <= p2 <= |s| && (forall j | p1 <= j < p2 :: IsAlpha(s[j])) && (p2 < |s| ==> !IsAlpha(s[p2]))
    requires p1 > 0 ==> !IsAlpha(s[p1 - 1])
    ensures p2 > p1 + 1 ==> PlaceOf(s, Lower(s[p1..p2]), p1, p2)
  {
    LowerIsKey(s[p1..p2]);
  }

  // Any other stretch behind p1 starts behind p2.
  lemma OtherStretch(s: seq<Byte>, p1: nat, p2: nat, i: nat, j: nat)
    requires p1 < |s| && p1 <= p2 <= |s| && (forall j | p1 <= j < p2 :: IsAlpha(s[j])) && (p2 < |s| ==> !IsAlpha(s[p2]))
    requires Stretch(s, i, j) && p1 <= i
    ensures i > p2 || (i == p1 && j == p2 && p2 > p1 + 1)
  {
    assert LetterAt(s, i - 1) <==> 0 < i && Letter(s[i - 1]);
    assert LetterAt(s, j) <==> j < |s| && Letter(s[j]);
    assert LetterAt(s, p2) <==> p2 < |s| && Letter(s[p2]);
  }

  predicate LetterAt(s: seq<Byte>, x: int) { 0 <= x < |s| && Letter(s[x]) }

  /** The words of a text are its stretches of letters, in lower case. */
  lemma {:induction false} WordsAreStretches(s: seq<Byte>, p: nat) returns (from: seq<nat>, to: seq<nat>)
    requires 0 < p <= |s| ==> !IsAlpha(s[p - 1])
    ensures Placed(s, p, WordsFrom(s, p), from, to)
    ensures p == 0 ==> Placed(s, 0, Words(s), from, to)
    decreases |s| + 1 - p
  {
    hide Words, Lower, KeyOf, Letters, IsAlpha, Stretch, WordsFrom;
    from, to := [], [];
    if p < |s| {
      var p2 := p + Letters(s[p..]);
      LettersFrom(s, p);
      WordAt(s, p, p2);
      StretchAt(s, p, p2);
      from, to := WordsAreStretches(s, p2 + 1);
      OtherStretches(s, p, p2);
      if p2 > p + 1 {
        JoinPlaces(s, p, p2, Lower(s[p..p2]), WordsFrom(s, p2 + 1), from, to);
        from, to := [p] + from, [p2] + to;
      } else {
        SamePlaces(s, p, p2, WordsFrom(s, p2 + 1), from, to);
        assert [] + WordsFrom(s, p2 + 1) == WordsFrom(s, p2 + 1);
      }
    } else {
      NoWords(s, p);
      Inside(s);
    }
    AllWords(s);
  }

  lemma OtherStretches(s: seq<Byte>, p1: nat, p2: nat)
    requires p1 < |s| && p1 <= p2 <= |s| && (forall j | p1 <= j < p2 :: IsAlpha(s[j])) && (p2 < |s| ==> !IsAlpha(s[p2]))
    ensures forall i: nat, j: nat | Stretch(s, i, j) && i >= p1 :: i > p2 || (i == p1 && j == p2 && p2 > p1 + 1)
  {
    hide Stretch, IsAlpha;
    forall i: nat, j: nat | Stretch(s, i, j) && i >= p1
      ensures i > p2 || (i == p1 && j == p2 && p2 > p1 + 1)
    {
      OtherStretch(s, p1, p2, i, j);
    }
  }

  // The first place before the others.
  lemma JoinPlaces(s: seq<Byte>, p: nat, p2: nat, key: seq<Byte>, later: seq<seq<Byte>>, from: seq<nat>, to: seq<nat>)
    requires p <= p2 && Placed(s, p2 + 1, later, from, to) && PlaceOf(s, key, p, p2)
    requires forall i: nat, j: nat | Stretch(s, i, j) && i >= p :: i > p2 || (i == p && j == p2 && p2 > p + 1)
    ensures Placed(s, p, [key] + later, [p] + from, [p2] + to)
  {
    hide PlaceOf, Stretch, Listed;
    forall i: nat, j: nat | Stretch(s, i, j) && i >= p
      ensures Listed([p] + from, [p2] + to, i, j)
    {
      ListedMore(p, p2, from, to, i, j);
    }
  }

  lemma ListedMore(p: nat, p2: nat, from: seq<nat>, to: seq<nat>, i: nat, j: nat)
    requires |from| == |to|
    ensures (i == p && j == p2) || Listed(from, to, i, j) ==> Listed([p] + from, [p2] + to, i, j)
  {
    if n: nat :| n < |from| && from[n] == i && to[n] == j {
      assert ([p] + from)[n + 1] == i && ([p2] + to)[n + 1] == j;
    }
    assert ([p] + from)[0] == p && ([p2] + to)[0] == p2;
  }

  lemma SamePlaces(s: seq<Byte>, p: nat, p2: nat, later: seq<seq<Byte>>, from: seq<nat>, to: seq<nat>)
    requires p <= p2 <= p + 1 && Placed(s, p2 + 1, later, from, to)
    requires forall i: nat, j: nat | Stretch(s, i, j) && i >= p :: i > p2 || (i == p && j == p2 && p2 > p + 1)
    ensures Placed(s, p, later, from, to)
  {
    hide PlaceOf, Stretch, Listed;
  }

  lemma Inside(s: seq<Byte>)
    ensures forall i: nat, j: nat | Stretch(s, i, j) :: i < |s|
  {
  }

  lemma LettersFrom(s: seq<Byte>, p: nat)
    requires p < |s|
    ensures var p2 := p + Letters(s[p..]);
      p2 <= |s| && (forall j | p <= j < p2 :: IsAlpha(s[j])) && (p2 < |s| ==> !IsAlpha(s[p2]))
  {
    var rest := s[p..];
    assert forall j | p <= j < |s| :: s[j] == rest[j - p];
  }

  /** Files whose length an int can hold, as the index of num_words does. */
  predicate FitsIndex(n: nat) { n < 0x8000_0000 }

  /** num_words. */
  method NumWords(s: seq<Byte>) returns (n: nat)
    requires FitsIndex(|s|)
    ensures n == |Words(s)| && FitsIndex(n)
  {
    hide Words, Lower, IsAlpha, Letters;
    n := 0;
    var counter := 0;
    AllWords(s);
    for i := 0 to |s|
      invariant n + counter <= i && FitsIndex(i)
      invariant 0 <= counter <= i && forall j | i - counter <= j < i :: IsAlpha(s[j])
      invariant n + |WordsFrom(s, i - counter)| == |Words(s)|
    {
      if IsAlpha(s[i]) {
        counter := counter + 1;
      } else {
        WordAt(s, i - counter, i);
        if counter > 1 {
          n := n + 1;
        }
        counter := 0;
      }
    }
    if counter > 0 {
      WordAt(s, |s| - counter, |s|);
    }
    if counter > 1 {
      n := n + 1;
    }
  }

  lemma AllWords(s: seq<Byte>)
    ensures WordsFrom(s, 0) == Words(s)
  {
    assert s[0..] == s;
  }

  /* ----- values ----- */

  /** What a 32-bit signed integer holds after n was added up in it. */
  function Wrap32(n: int): int {
    (n + 0x8000_0000) % 0x1_0000_0000 - 0x8000_0000
  }

  function IntBytes(n: int): (s: seq<Byte>)
    ensures |s| == 4
  {
    Le(n % 0x1_0000_0000, 4)
  }

  function IntOf(s: seq<Byte>): int {
    var n := UnLe(s) % 0x1_0000_0000;
    if n >= 0x8000_0000 then n - 0x1_0000_0000 else n
  }

  lemma IntRoundTrip(n: int)
    ensures IntOf(IntBytes(n)) == Wrap32(n)
    ensures -0x8000_0000 <= n < 0x8000_0000 ==> Wrap32(n) == n
  {
    assert Power256(4) == 0x1_0000_0000;
    LeRoundTrip(n % 0x1_0000_0000, 4);
  }

  /** The value 1 that a word is stored with. */
  lemma OneBytes()
    ensures IntBytes(1) == [1, 0, 0, 0]
  {
  }

  /* ----- map and reduce ----- */

  function Pairs(words: seq<seq<Byte>>): (kvs: seq<Kv>)
    ensures |kvs| == |words|
  {
    seq(|words|, i requires 0 <= i < |words| => Kv(words[i], IntBytes(1)))
  }

  lemma PairsStep(done: seq<Kv>, w: seq<Byte>, words: seq<seq<Byte>>)
    ensures (done + [Kv(w, IntBytes(1))]) + Pairs(words) == done + Pairs([w] + words)
  {
    hide IntBytes;
    assert Pairs([w] + words) == [Kv(w, IntBytes(1))] + Pairs(words);
  }

  // The loop that copies one word.
  method CopyWord(s: seq<Byte>, p1: nat, p2: nat) returns (word: seq<Byte>)
    requires p1 <= p2 <= |s|
    ensures word == Lower(s[p1..p2])
  {
    word := [];
    for p := p1 to p2
      invariant word == Lower(s[p1..p])
    {
      word := word + [ToLower(s[p])];
    }
  }

  lemma NoWords(s: seq<Byte>, p: nat)
    requires p >= |s|
    ensures WordsFrom(s, p) == [] && Pairs([]) == []
  {
  }

  // Stores the pair for the word between p1 and p2.
  method StoreWord(kvs: array<Kv>, counter: nat, s: seq<Byte>, p1: nat, p2: nat, ghost all: seq<Kv>)
    requires p1 + 1 < p2 <= |s| && WordsFrom(s, p1) == [Lower(s[p1..p2])] + WordsFrom(s, p2 + 1)
    requires counter <= kvs.Length == |all| && kvs[..counter] + Pairs(WordsFrom(s, p1)) == all
    modifies kvs
    ensures counter < kvs.Length && kvs[..counter + 1] + Pairs(WordsFrom(s, p2 + 1)) == all
  {
    hide WordsFrom, Pairs, Lower, IntBytes;
    ghost var done := kvs[..counter];
    var word := CopyWord(s, p1, p2);
    PairsStep(done, word, WordsFrom(s, p2 + 1));
    assert counter < |all|;
    kvs[counter] := Kv(word, IntBytes(1));
    assert kvs[..counter + 1] == done + [Kv(word, IntBytes(1))];
  }

  function Keys(kvs: seq<Kv>): (keys: seq<seq<Byte>>)
    ensures |keys| == |kvs| && forall i | 0 <= i < |kvs| :: keys[i] == kvs[i].key
  {
    seq(|kvs|, i requires 0 <= i < |kvs| => kvs[i].key)
  }

  lemma PairsAre(words: seq<seq<Byte>>)
    ensures Keys(Pairs(words)) == words && forall i | 0 <= i < |words| :: Pairs(words)[i].value == [1, 0, 0, 0]
  {
    OneBytes();
    hide IntBytes;
    assert forall i | 0 <= i < |words| :: Pairs(words)[i] == Kv(words[i], IntBytes(1));
  }

  /**
   wc_map: a pair with the value 1 for every stretch of letters. The array has room for exactly the pairs
   that are stored.
   */
  method Map(contents: seq<Byte>) returns (kva: seq<Kv>)
    requires FitsIndex(|contents|)
    ensures kva == Pairs(Words(contents))
    ensures exists from, to :: Placed(contents, 0, Keys(kva), from, to)
    ensures forall i | 0 <= i < |kva| :: kva[i].value == [1, 0, 0, 0]
  {
    hide Words, WordsFrom, Pairs, Lower, IntBytes, IsAlpha, Letters, Placed;
    PairsAre(Words(contents));
    ghost var from, to := WordsAreStretches(contents, 0);
    var n := NumWords(contents);
    var kvs := new Kv[n](_ => Kv([], []));
    var p1, p2, counter := 0, 0, 0;
    AllWords(contents);
    ghost var all := Pairs(Words(contents));
    assert kvs[..0] + all == all;
    while p1 < |contents|
      invariant 0 <= p1 <= p2 && (p1 < |contents| ==> p2 <= |contents|)
      invariant forall j | p1 <= j < p2 && j < |contents| :: IsAlpha(contents[j])
      invariant counter <= n == kvs.Length
      invariant kvs[..counter] + Pairs(WordsFrom(contents, p1)) == all
      decreases |contents| - p1, |contents| - p2
    {
      if p2 >= |contents| || !IsAlpha(contents[p2]) {
        WordAt(contents, p1, p2);
        if p2 > p1 + 1 {
          StoreWord(kvs, counter, contents, p1, p2, all);
          counter := counter + 1;
        } else {
          assert [] + WordsFrom(contents, p2 + 1) == WordsFrom(contents, p2 + 1);
        }
        p1 := p2 + 1;
      }
      p2 := p2 + 1;
    }
    NoWords(contents, p1);
    assert |kvs[..counter]| == n;
    kva := kvs[..];
  }

  function Sum(values: seq<Kv>): int {
    if values == [] then 0 else Sum(values[..|values| - 1]) + IntOf(values[|values| - 1].value)
  }

  /** wc_reduce: the sum of the values, in a 32-bit integer. */
  method Reduce(key: seq<Byte>, input: seq<Kv>) returns (r: Kv)
    ensures r == Kv(key, IntBytes(Sum(input)))
  {
    var count := 0;
    for i := 0 to |input|
      invariant count == Wrap32(Sum(input[..i]))
    {
      assert input[..i + 1][..i] == input[..i];
      WrapAdd(Sum(input[..i]), IntOf(input[i].value));
      count := Wrap32(count + IntOf(input[i].value));
    }
    assert input[..|input|] == input;
    WrapAdd(Sum(input), 0);
    r := Kv(key, IntBytes(count));
  }

  lemma WrapAdd(a: int, b: int)
    ensures Wrap32(Wrap32(a) + b) == Wrap32(a + b)
    ensures IntBytes(Wrap32(a)) == IntBytes(a)
  {
    WrapIs(a);
    var m := (a + 0x8000_0000) / 0x1_0000_0000;
    WrapSame(a + b, m);
    ModSame(a, m);
  }

  lemma WrapIs(a: int)
    ensures Wrap32(a) == a - 0x1_0000_0000 * ((a + 0x8000_0000) / 0x1_0000_0000)
  {
  }

  lemma WrapSame(a: int, m: int)
    ensures Wrap32(a - 0x1_0000_0000 * m) == Wrap32(a)
  {
    ModSame(a + 0x8000_0000, m);
  }

  lemma ModSame(a: int, m: int)
    ensures (a - 0x1_0000_0000 * m) % 0x1_0000_0000 == a % 0x1_0000_0000
  {
  }
}
