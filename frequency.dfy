/**
  Pair-frequency analysis (the dictionary `pairs` that each pass of
  `compress_binary` builds) and the selection of the most frequent pair
  (`__max_pair`).
*/
module Frequency {
  import opened Octets
  import opened Dict

  /** The overlapping adjacent pairs of buf, in position order. */
  function Adjacent(buf: seq<byte>): (ps: seq<Pair>)
    ensures |ps| == if |buf| < 2 then 0 else |buf| - 1
    ensures forall i :: 0 <= i < |ps| ==> ps[i] == Pair(buf[i], buf[i + 1])
  {
    if |buf| < 2 then []
    else seq(|buf| - 1, i requires 0 <= i < |buf| - 1 => Pair(buf[i], buf[i + 1]))
  }

  /** How often x occurs in xs. */
  function Count(xs: seq<Pair>, x: Pair): nat
    decreases |xs|
  {
    if xs == [] then 0
    else Count(xs[..|xs| - 1], x) + (if xs[|xs| - 1] == x then 1 else 0)
  }

  /** How often the pair p occurs in buf, overlapping occurrences included. */
  function Occurrences(buf: seq<byte>, p: Pair): nat {
    Count(Adjacent(buf), p)
  }

  /** Count is the number of positions holding x. */
  lemma {:induction false} CountIsPositions(xs: seq<Pair>, x: Pair)
    ensures Count(xs, x) == |set i | 0 <= i < |xs| && xs[i] == x|
    decreases |xs|
  {
    if xs != [] {
      var init := xs[..|xs| - 1];
      CountIsPositions(init, x);
      var before := set i | 0 <= i < |init| && init[i] == x;
      assert before == set i | 0 <= i < |xs| - 1 && xs[i] == x;
      if xs[|xs| - 1] == x {
        assert (set i | 0 <= i < |xs| && xs[i] == x) == before + {|xs| - 1};
      } else {
        assert (set i | 0 <= i < |xs| && xs[i] == x) == before;
      }
    }
  }

  /** x occurs a positive number of times exactly when it occurs. */
  lemma {:induction false} CountPositive(xs: seq<Pair>, x: Pair)
    ensures Count(xs, x) > 0 <==> x in xs
    decreases |xs|
  {
    if xs != [] {
      var init := xs[..|xs| - 1];
      CountPositive(init, x);
      assert xs == init + [xs[|xs| - 1]];
    }
  }

  /** Appending one pair adds one to its own count only. */
  lemma CountSnoc(xs: seq<Pair>, y: Pair, x: Pair)
    ensures Count(xs + [y], x) == Count(xs, x) + (if y == x then 1 else 0)
  {
    assert (xs + [y])[..|xs + [y]| - 1] == xs;
  }

  /** The pair p sits at position i of buf. */
  predicate PairAt(buf: seq<byte>, i: int, p: Pair) {
    0 <= i < |buf| - 1 && buf[i] == p.fst && buf[i + 1] == p.snd
  }

  /**
    The number of occurrences of p is the number of positions i < |buf| - 1
    with buf[i] == p.fst and buf[i + 1] == p.snd.
  */
  lemma OccurrencesArePositions(buf: seq<byte>, p: Pair)
    ensures Occurrences(buf, p) == |set i | 0 <= i < |buf| && PairAt(buf, i, p)|
  {
    var ps := Adjacent(buf);
    CountIsPositions(ps, p);
    assert (set i | 0 <= i < |ps| && ps[i] == p) == set i | 0 <= i < |buf| && PairAt(buf, i, p);
  }

  /** Index of the first occurrence of x in xs. */
  function FirstIndex(xs: seq<Pair>, x: Pair): (i: nat)
    requires x in xs
    ensures i < |xs| && xs[i] == x
  {
    if xs[0] == x then 0 else 1 + FirstIndex(xs[1..], x)
  }

  /** No occurrence of x comes before its first index. */
  lemma {:induction false} FirstIndexIsFirst(xs: seq<Pair>, x: Pair, j: nat)
    requires x in xs && j < |xs| && xs[j] == x
    ensures FirstIndex(xs, x) <= j
    decreases j
  {
    if xs[0] != x {
      assert xs[1..][j - 1] == x;
      FirstIndexIsFirst(xs[1..], x, j - 1);
    }
  }

  /** Where the pair p first occurs in buf. */
  function FirstPosition(buf: seq<byte>, p: Pair): nat
    requires Occurrences(buf, p) > 0
  {
    CountPositive(Adjacent(buf), p);
    FirstIndex(Adjacent(buf), p)
  }

  /** A pair occurs no more often than there are adjacent positions. */
  lemma {:induction false} CountAtMost(xs: seq<Pair>, x: Pair)
    ensures Count(xs, x) <= |xs|
    decreases |xs|
  {
    if xs != [] {
      CountAtMost(xs[..|xs| - 1], x);
    }
  }

  /** An occurring pair sits at its first position. */
  lemma FirstPositionIsPairAt(buf: seq<byte>, p: Pair)
    requires Occurrences(buf, p) > 0
    ensures PairAt(buf, FirstPosition(buf, p), p)
  {
  }

  /** A pair that never sits at any position does not occur. */
  lemma AbsentPair(buf: seq<byte>, p: Pair)
    requires forall i :: !PairAt(buf, i, p)
    ensures Occurrences(buf, p) == 0
  {
    OccurrencesArePositions(buf, p);
    assert (set i | 0 <= i < |buf| && PairAt(buf, i, p)) == {};
  }

  /** The distinct elements of xs in the order of their first occurrence. */
  function Dedup(xs: seq<Pair>): seq<Pair>
    decreases |xs|
  {
    if xs == [] then []
    else
      var d := Dedup(xs[..|xs| - 1]);
      var x := xs[|xs| - 1];
      if x in d then d else d + [x]
  }

  /** Dedup keeps every element once, in order of first occurrence. */
  lemma DedupProperties(xs: seq<Pair>)
    ensures forall x :: x in Dedup(xs) <==> x in xs
    ensures forall i, j :: 0 <= i < j < |Dedup(xs)| ==> Dedup(xs)[i] != Dedup(xs)[j]
    ensures forall i, j :: 0 <= i < j < |Dedup(xs)| ==>
      FirstIndex(xs, Dedup(xs)[i]) < FirstIndex(xs, Dedup(xs)[j])
  {
    DedupMembers(xs);
    DedupDistinct(xs);
    DedupOrder(xs);
  }

  lemma {:induction false} DedupMembers(xs: seq<Pair>)
    ensures forall x :: x in Dedup(xs) <==> x in xs
    decreases |xs|
  {
    if xs != [] {
      var init := xs[..|xs| - 1];
      assert xs == init + [xs[|xs| - 1]];
      DedupMembers(init);
    }
  }

  lemma {:induction false} DedupDistinct(xs: seq<Pair>)
    ensures forall i, j :: 0 <= i < j < |Dedup(xs)| ==> Dedup(xs)[i] != Dedup(xs)[j]
    decreases |xs|
  {
    if xs != [] {
      DedupDistinct(xs[..|xs| - 1]);
    }
  }

  /** Appending leaves the first occurrence of an earlier element alone. */
  lemma FirstIndexSnoc(init: seq<Pair>, x: Pair, y: Pair)
    requires y in init
    ensures FirstIndex(init + [x], y) == FirstIndex(init, y)
  {
    var k := FirstIndex(init, y);
    var m := FirstIndex(init + [x], y);
    assert (init + [x])[k] == y;
    FirstIndexIsFirst(init + [x], y, k);
    if m < k {
      assert init[m] == y;
      FirstIndexIsFirst(init, y, m);
    }
  }

  /** Appending x keeps a before b if it was, and puts a new x after a. */
  lemma FirstIndexOrder(init: seq<Pair>, x: Pair, a: Pair, b: Pair)
    requires a in init && (b in init || (b == x && x !in init))
    requires b in init ==> FirstIndex(init, a) < FirstIndex(init, b)
    ensures FirstIndex(init + [x], a) < FirstIndex(init + [x], b)
  {
    FirstIndexSnoc(init, x, a);
    if b in init {
      FirstIndexSnoc(init, x, b);
    } else {
      assert (init + [x])[|init|] == x;
    }
  }

  lemma {:induction false} DedupOrder(xs: seq<Pair>)
    ensures forall x :: x in Dedup(xs) ==> x in xs
    ensures forall i, j :: 0 <= i < j < |Dedup(xs)| ==>
      FirstIndex(xs, Dedup(xs)[i]) < FirstIndex(xs, Dedup(xs)[j])
    decreases |xs|
  {
    DedupMembers(xs);
    if xs != [] {
      var init := xs[..|xs| - 1];
      var x := xs[|xs| - 1];
      assert xs == init + [x];
      var d := Dedup(init);
      var e := Dedup(xs);
      DedupOrder(init);
      DedupMembers(init);
      assert e == if x in d then d else d + [x];
      forall i, j | 0 <= i < j < |e| ensures FirstIndex(xs, e[i]) < FirstIndex(xs, e[j]) {
        assert e[i] == d[i] && d[i] in init;
        if j < |d| {
          assert e[j] == d[j] && d[j] in init;
          FirstIndexOrder(init, x, d[i], d[j]);
        } else {
          assert e[j] == x && x !in init;
          FirstIndexOrder(init, x, d[i], x);
        }
      }
    }
  }

  /**
    The pair-frequency dictionary of a sequence of pairs: each distinct pair,
    in order of first occurrence, with its number of occurrences.
  */
  function FreqOf(xs: seq<Pair>): Dict<Pair, nat> {
    var ks := Dedup(xs);
    seq(|ks|, i requires 0 <= i < |ks| => (ks[i], Count(xs, ks[i])))
  }

  /** The dictionary `pairs` built from buf in one pass of `compress_binary`. */
  function Frequencies(buf: seq<byte>): Dict<Pair, nat> {
    FreqOf(Adjacent(buf))
  }

  /** `pairs[pair] += 1` if the pair is present, else `pairs[pair] = 1`. */
  function Bump(d: Dict<Pair, nat>, p: Pair): Dict<Pair, nat> {
    Put(d, p, if HasKey(d, p) then Get(d, p) + 1 else 1)
  }

  /** Counting one more pair bumps its entry. */
  lemma FreqOfSnoc(xs: seq<Pair>, x: Pair)
    ensures FreqOf(xs + [x]) == Bump(FreqOf(xs), x)
  {
    var xs' := xs + [x];
    assert xs'[..|xs'| - 1] == xs;
    var F := FreqOf(xs);
    var ks := Dedup(xs);
    DedupProperties(xs);
    forall y ensures Count(xs', y) == Count(xs, y) + (if y == x then 1 else 0) {
      CountSnoc(xs, x, y);
    }
    if HasKey(F, x) {
      var k := Find(F, x);
      assert ks[k] == x;
      assert Dedup(xs') == ks;
      assert FreqOf(xs') == F[k := (x, Get(F, x) + 1)];
    } else {
      NotKey(F, x);
      assert forall i :: 0 <= i < |ks| ==> F[i].0 == ks[i];
      assert x !in ks;
      assert x !in xs;
      CountPositive(xs, x);
      assert Dedup(xs') == ks + [x];
      assert FreqOf(xs') == F + [(x, 1)];
    }
  }

  /**
    The pair-frequency dictionary: its keys are exactly the pairs that occur
    in buf, each once, in the order of their first occurrence, and each maps
    to its number of (overlapping) occurrences.
  */
  lemma FrequenciesMeaning(buf: seq<byte>)
    ensures UniqueKeys(Frequencies(buf))
    ensures forall p :: HasKey(Frequencies(buf), p) <==> Occurrences(buf, p) > 0
    ensures forall i :: 0 <= i < |Frequencies(buf)| ==>
      Frequencies(buf)[i].1 == Occurrences(buf, Frequencies(buf)[i].0) > 0
    ensures forall i, j :: 0 <= i < j < |Frequencies(buf)| ==>
      FirstPosition(buf, Frequencies(buf)[i].0) < FirstPosition(buf, Frequencies(buf)[j].0)
    ensures |buf| >= 2 ==> |Frequencies(buf)| > 0
  {
    var xs := Adjacent(buf);
    DedupProperties(xs);
    FrequenciesKeys(buf);
    FrequenciesCounts(buf);
    if |buf| >= 2 {
      assert xs[0] in Dedup(xs);
    }
  }

  lemma FrequenciesKeys(buf: seq<byte>)
    ensures forall p :: HasKey(Frequencies(buf), p) <==> Occurrences(buf, p) > 0
  {
    var xs := Adjacent(buf);
    var F := Frequencies(buf);
    DedupProperties(xs);
    forall p ensures HasKey(F, p) <==> Occurrences(buf, p) > 0 {
      CountPositive(xs, p);
      if p in xs {
        var k :| 0 <= k < |Dedup(xs)| && Dedup(xs)[k] == p;
        HasKeyAt(F, k);
      }
    }
  }

  lemma FrequenciesCounts(buf: seq<byte>)
    ensures forall i :: 0 <= i < |Frequencies(buf)| ==>
      Frequencies(buf)[i].1 == Occurrences(buf, Frequencies(buf)[i].0) > 0
  {
    var xs := Adjacent(buf);
    var F := Frequencies(buf);
    DedupProperties(xs);
    forall i | 0 <= i < |F| ensures Occurrences(buf, F[i].0) > 0 {
      CountPositive(xs, F[i].0);
    }
  }

  /** k is the last index whose count is the largest. */
  predicate IsLastMax(d: Dict<Pair, nat>, k: nat) {
    k < |d| &&
    (forall j :: 0 <= j < |d| ==> d[j].1 <= d[k].1) &&
    (forall j :: k < j < |d| ==> d[j].1 < d[k].1)
  }

  /** The index `__max_pair` settles on: the last entry of largest count. */
  function LastMax(d: Dict<Pair, nat>): (k: nat)
    requires |d| > 0
    ensures IsLastMax(d, k)
    decreases |d|
  {
    if |d| == 1 then 0
    else
      var k := LastMax(d[..|d| - 1]);
      if d[|d| - 1].1 >= d[k].1 then |d| - 1 else k
  }

  /** At most one index is the last of largest count. */
  lemma LastMaxUnique(d: Dict<Pair, nat>, k1: nat, k2: nat)
    requires IsLastMax(d, k1) && IsLastMax(d, k2)
    ensures k1 == k2
  {
    assert d[k2].1 <= d[k1].1 && d[k1].1 <= d[k2].1;
  }

  /**
    `__max_pair`: one scan keeping the entry whose count is at least the
    largest seen so far, so the last entry of largest count wins.
  */
  method MaxPair(data: Dict<Pair, nat>) returns (maxPair: Pair, maxFreq: nat)
    requires |data| > 0
    ensures (maxPair, maxFreq) == data[LastMax(data)]
    ensures forall j :: 0 <= j < |data| ==> data[j].1 <= maxFreq
  {
    maxFreq := 0;
    maxPair := data[0].0; // overwritten by the first iteration, whose count is >= 0
    ghost var k: nat := 0;
    var i := 0;
    while i < |data|
      invariant 0 <= i <= |data|
      invariant i == 0 ==> maxFreq == 0
      invariant i > 0 ==> IsLastMax(data[..i], k) && data[k] == (maxPair, maxFreq)
    {
      var (key, freq) := data[i];
      if freq >= maxFreq {
        maxFreq := freq;
        maxPair := key;
        k := i;
      }
      i := i + 1;
    }
    assert data[..i] == data;
    LastMaxUnique(data, k, LastMax(data));
  }

  lemma AdjacentPrefix(buf: seq<byte>, i: nat)
    requires i < |buf| - 1
    ensures Adjacent(buf)[..i + 1] == Adjacent(buf)[..i] + [Pair(buf[i], buf[i + 1])]
  {
  }

  /** One step of the counting loop, on the dictionary of a prefix. */
  lemma CountStep(buf: seq<byte>, i: nat, pairs: Dict<Pair, nat>, count: nat)
    requires i < |buf| - 1 && pairs == FreqOf(Adjacent(buf)[..i])
    requires count == if HasKey(pairs, Pair(buf[i], buf[i + 1])) then Get(pairs, Pair(buf[i], buf[i + 1])) + 1 else 1
    ensures Put(pairs, Pair(buf[i], buf[i + 1]), count) == FreqOf(Adjacent(buf)[..i + 1])
  {
    AdjacentPrefix(buf, i);
    FreqOfSnoc(Adjacent(buf)[..i], Pair(buf[i], buf[i + 1]));
  }

  /**
    The loop of `compress_binary` that fills `pairs`: for every position
    i < |buf| - 1, bump the count of (buf[i], buf[i + 1]).
  */
  method CountPairs(buf: seq<byte>) returns (pairs: Dict<Pair, nat>)
    ensures pairs == Frequencies(buf)
  {
    pairs := [];
    var dataLen := |buf|;
    var i := 0;
    while i < dataLen - 1
      invariant 0 <= i && (i == 0 || i <= dataLen - 1)
      invariant pairs == FreqOf(Adjacent(buf)[..i])
    {
      var pair := Pair(buf[i], buf[i + 1]);
      // `pairs[pair] += 1` when present, else `pairs[pair] = 1`
      var count := if HasKey(pairs, pair) then Get(pairs, pair) + 1 else 1;
      CountStep(buf, i, pairs, count);
      pairs := Put(pairs, pair, count);
      i := i + 1;
    }
    CountedAll(buf, i);
  }

  /** Where the counting loop stops, every adjacent pair has been counted. */
  lemma CountedAll(buf: seq<byte>, i: nat)
    requires i == if |buf| < 2 then 0 else |buf| - 1
    ensures FreqOf(Adjacent(buf)[..i]) == Frequencies(buf)
  {
    assert Adjacent(buf)[..i] == Adjacent(buf);
  }

  /**
    What a pass selects: the pair `__max_pair` returns from the frequency
    dictionary of buf occurs, occurs at least as often as any other pair,
    and among the pairs that occur equally often it is the one whose first
    occurrence comes last.
  */
  lemma MostFrequentPair(buf: seq<byte>)
    requires |buf| >= 2
    ensures |Frequencies(buf)| > 0
    ensures var e := Frequencies(buf)[LastMax(Frequencies(buf))];
      e.1 == Occurrences(buf, e.0) && e.1 >= 1
    ensures var e := Frequencies(buf)[LastMax(Frequencies(buf))];
      forall q :: Occurrences(buf, q) <= e.1
    ensures var e := Frequencies(buf)[LastMax(Frequencies(buf))];
      forall q :: q != e.0 && Occurrences(buf, q) == e.1 ==>
        FirstPosition(buf, q) < FirstPosition(buf, e.0)
  {
    var F := Frequencies(buf);
    FrequenciesMeaning(buf);
    var k := LastMax(F);
    var e := F[k];
    forall q ensures Occurrences(buf, q) <= e.1 {
      if Occurrences(buf, q) > 0 {
        var j := EntryOf(buf, q);
      }
    }
    forall q | q != e.0 && Occurrences(buf, q) == e.1
      ensures FirstPosition(buf, q) < FirstPosition(buf, e.0)
    {
      var j := EntryOf(buf, q);
      assert j != k;
      assert !(k < j);
    }
  }

  /** The entry of an occurring pair in the frequency dictionary. */
  lemma EntryOf(buf: seq<byte>, q: Pair) returns (j: nat)
    requires Occurrences(buf, q) > 0
    ensures j < |Frequencies(buf)| && Frequencies(buf)[j] == (q, Occurrences(buf, q))
  {
    FrequenciesMeaning(buf);
    j := Find(Frequencies(buf), q);
  }
}
