/**
  The encoder (`compress_binary`): repeated passes that each count the
  adjacent pairs of the working buffer, allocate a fresh code, record
  `code -> most frequent pair` in the table and substitute the code for the
  pair, followed by the serialisation of the artifact.
*/
module Encoder {
  import opened Octets
  import opened Dict
  import opened CodeTable
  import opened Frequency
  import opened Allocator
  import opened Decoder

  // ---------------------------------------------------------------------
  // Substitution
  // ---------------------------------------------------------------------

  /**
    `bytes.replace(pair, code)`: scanning left to right, every occurrence of
    the pair that does not overlap an occurrence already replaced becomes
    the single octet c.
  */
  function Replace(s: seq<byte>, p: Pair, c: byte): seq<byte>
    decreases |s|
  {
    if |s| < 2 then s
    else if s[0] == p.fst && s[1] == p.snd then [c] + Replace(s[2..], p, c)
    else [s[0]] + Replace(s[1..], p, c)
  }

  /**
    Lengths: replacing never lengthens the buffer, removes at most every
    other octet, and its first octet is the code or the first octet of s.
  */
  lemma {:induction false} ReplaceLength(s: seq<byte>, p: Pair, c: byte)
    ensures |Replace(s, p, c)| <= |s| <= 2 * |Replace(s, p, c)|
    ensures |s| > 0 ==> Replace(s, p, c)[0] == (if |s| >= 2 && s[0] == p.fst && s[1] == p.snd then c else s[0])
    decreases |s|
  {
    if |s| >= 2 {
      if s[0] == p.fst && s[1] == p.snd {
        ReplaceLength(s[2..], p, c);
      } else {
        ReplaceLength(s[1..], p, c);
      }
    }
  }

  /** An occurrence of the pair makes the buffer strictly shorter. */
  lemma {:induction false} ReplaceShrinks(s: seq<byte>, p: Pair, c: byte, i: int)
    requires PairAt(s, i, p)
    ensures |Replace(s, p, c)| < |s|
    decreases |s|
  {
    if s[0] == p.fst && s[1] == p.snd {
      ReplaceLength(s[2..], p, c);
    } else {
      assert PairAt(s[1..], i - 1, p);
      ReplaceShrinks(s[1..], p, c, i - 1);
    }
  }

  /** Every octet of the result is an octet of s or the code. */
  lemma {:induction false} ReplaceOctets(s: seq<byte>, p: Pair, c: byte)
    ensures forall x :: x in Replace(s, p, c) ==> x in s || x == c
    decreases |s|
  {
    if |s| >= 2 {
      if s[0] == p.fst && s[1] == p.snd {
        ReplaceOctets(s[2..], p, c);
      } else {
        ReplaceOctets(s[1..], p, c);
      }
    }
  }

  /**
    When the code is neither octet of the pair, no occurrence of the pair
    is left after the substitution.
  */
  lemma {:induction false} ReplaceRemovesPair(s: seq<byte>, p: Pair, c: byte)
    requires c != p.fst && c != p.snd
    ensures forall i :: !PairAt(Replace(s, p, c), i, p)
    decreases |s|
  {
    var r := Replace(s, p, c);
    if |s| >= 2 {
      var k := if s[0] == p.fst && s[1] == p.snd then 2 else 1;
      var rest := s[k..];
      ReplaceRemovesPair(rest, p, c);
      ReplaceLength(rest, p, c);
      forall i ensures !PairAt(r, i, p) {
        if i > 0 {
          assert PairAt(r, i, p) == PairAt(Replace(rest, p, c), i - 1, p);
        }
      }
    }
  }

  /**
    Substitution keeps the expansion: if the code c expands to the
    expansion of the pair's first octet followed by that of its second,
    the buffer with the pair replaced by c expands like the buffer itself.
  */
  lemma {:induction false} ReplaceExpands(t: Table, s: seq<byte>, p: Pair, c: byte)
    requires GetOriginal(t, c) == Join(GetOriginal(t, p.fst), GetOriginal(t, p.snd))
    ensures ExpandAll(t, Replace(s, p, c)) == ExpandAll(t, s)
    decreases |s|
  {
    if |s| >= 2 {
      if s[0] == p.fst && s[1] == p.snd {
        var rest := s[2..];
        ReplaceExpands(t, rest, p, c);
        assert s == [s[0]] + [s[1]] + rest;
        ExpandAllAppend(t, [c], Replace(rest, p, c));
        ExpandAllAppend(t, [s[0]] + [s[1]], rest);
        ExpandAllAppend(t, [s[0]], [s[1]]);
        ExpandAllSingle(t, c);
        ExpandAllSingle(t, s[0]);
        ExpandAllSingle(t, s[1]);
      } else {
        var rest := s[1..];
        ReplaceExpands(t, rest, p, c);
        assert s == [s[0]] + rest;
        ExpandAllAppend(t, [s[0]], Replace(rest, p, c));
        ExpandAllAppend(t, [s[0]], rest);
      }
    }
  }

  // ---------------------------------------------------------------------
  // One pass of the compression loop
  // ---------------------------------------------------------------------

  /**
    The variables of the loop of `compress_binary`: the working buffer
    `compressed_data`, the code table, and `last_pair_frequency`.
  */
  datatype State = State(buf: seq<byte>, table: Table, last: nat)

  /** b is an octet of the original input or a code of the table. */
  predicate Known(t: Table, raw: seq<byte>, b: byte) {
    b in raw || HasKey(t, b)
  }

  /**
    What holds before and after every pass: codes are fresh (Admissible) and
    refer only to earlier codes (Ordered), every octet of the buffer and of
    every table entry is a literal or a code, and the buffer expands through
    the table to the original input.
  */
  predicate Inv(raw: seq<byte>, s: State) {
    Admissible(s.table, raw) && Ordered(s.table) &&
    (forall i :: 0 <= i < |s.buf| ==> Known(s.table, raw, s.buf[i])) &&
    (forall i :: 0 <= i < |s.table| ==>
      Known(s.table, raw, s.table[i].1.fst) && Known(s.table, raw, s.table[i].1.snd)) &&
    ExpandAll(s.table, s.buf) == Some(raw)
  }

  /** The entry `__max_pair` returns for the pair counts of buf. */
  function Selected(buf: seq<byte>): (e: (Pair, nat))
    requires |buf| >= 2
    ensures e.1 == Occurrences(buf, e.0) >= 1
    ensures forall q :: Occurrences(buf, q) <= e.1
  {
    MostFrequentPair(buf);
    Frequencies(buf)[LastMax(Frequencies(buf))]
  }

  /**
    One pass: allocate a code (none when the codes are exhausted, which
    ends the loop), record it for the most frequent pair and substitute it
    for the pair. Each pass appends exactly one entry to the table, keeps
    the codes fresh, and shortens the buffer, which is why the loop ends;
    a pass whose pair occurred at least twice leaves at least two octets.
  */
  function Pass(raw: seq<byte>, s: State): (r: Option<State>)
    requires Admissible(s.table, raw) && |s.buf| >= 2
    ensures r.None? <==> |s.table| == 256 - |Values(raw)|
    ensures r.Some? ==> |r.value.table| == |s.table| + 1 && r.value.table[..|s.table|] == s.table
    ensures r.Some? ==> Admissible(r.value.table, raw)
    ensures r.Some? ==> |r.value.buf| < |s.buf|
    ensures r.Some? && r.value.last != 1 ==> |r.value.buf| >= 2
  {
    match Allocate(s.table, raw)
    case None => None
    case Some(c) =>
      var (p, f) := Selected(s.buf);
      PassShape(raw, s, c, p, f);
      Some(State(Replace(s.buf, p, c), Put(s.table, c, p), f))
  }

  lemma PassShape(raw: seq<byte>, s: State, c: byte, p: Pair, f: nat)
    requires Admissible(s.table, raw) && |s.buf| >= 2
    requires Allocate(s.table, raw) == Some(c) && f == Occurrences(s.buf, p) >= 1
    ensures Put(s.table, c, p) == s.table + [(c, p)]
    ensures Admissible(Put(s.table, c, p), raw)
    ensures |Replace(s.buf, p, c)| < |s.buf|
    ensures f != 1 ==> |Replace(s.buf, p, c)| >= 2
  {
    AddCode(s.table, raw, c, p);
    FirstPositionIsPairAt(s.buf, p);
    ReplaceShrinks(s.buf, p, c, FirstPosition(s.buf, p));
    ReplaceLength(s.buf, p, c);
    CountAtMost(Adjacent(s.buf), p);
  }

  /** A literal or code stays one when a fresh code is added. */
  lemma KnownAfterAdd(t: Table, raw: seq<byte>, c: byte, p: Pair)
    requires !HasKey(t, c)
    ensures forall x :: Known(t, raw, x) ==> Known(t + [(c, p)], raw, x)
    ensures Known(t + [(c, p)], raw, c)
  {
    FindAppend(t, (c, p));
  }

  /**
    Appending the entry of a fresh code whose pair consists of literals and
    codes keeps the table Ordered: the new entry refers only to earlier
    codes, and no earlier entry refers to the new code.
  */
  lemma OrderedAfterAdd(t: Table, raw: seq<byte>, c: byte, p: Pair)
    requires Ordered(t) && !HasKey(t, c) && c !in raw
    requires forall i :: 0 <= i < |t| ==> Known(t, raw, t[i].1.fst) && Known(t, raw, t[i].1.snd)
    requires Known(t, raw, p.fst) && Known(t, raw, p.snd)
    ensures Ordered(t + [(c, p)])
  {
    var t' := t + [(c, p)];
    FindAppend(t, (c, p));
    forall i | 0 <= i < |t'|
      ensures Earlier(t', t'[i].1.fst, i) && Earlier(t', t'[i].1.snd, i)
    {
      if i < |t| {
        assert t'[i] == t[i];
        assert Earlier(t, t[i].1.fst, i) && Earlier(t, t[i].1.snd, i);
      }
    }
  }

  /**
    Adding a fresh code leaves the expansion of every literal and every
    older code unchanged.
  */
  lemma GetOriginalAfterAdd(t: Table, raw: seq<byte>, c: byte, p: Pair, b: byte)
    requires Ordered(t) && !HasKey(t, c) && c !in raw
    requires forall i :: 0 <= i < |t| ==> Known(t, raw, t[i].1.fst) && Known(t, raw, t[i].1.snd)
    requires Known(t, raw, b)
    ensures GetOriginal(Put(t, c, p), b) == GetOriginal(t, b)
  {
    forall i | 0 <= i < |t| ensures t[i].1.fst != c && t[i].1.snd != c {
      assert Known(t, raw, t[i].1.fst) && Known(t, raw, t[i].1.snd);
    }
    assert Unreferenced(t, c);
    assert Put(t, c, p) == t + [(c, p)];
    assert Rank(t, b) <= |t|;
    ExpandFresh(t, c, p, |t| + 1);
    ExpandFuelIrrelevant(t, b, |t| + 1, |t|);
  }

  /** The new buffer still expands to the input through the grown table. */
  lemma ExpandAfterPass(t: Table, raw: seq<byte>, buf: seq<byte>, c: byte, p: Pair)
    requires Ordered(t) && !HasKey(t, c) && c !in raw
    requires forall i :: 0 <= i < |t| ==> Known(t, raw, t[i].1.fst) && Known(t, raw, t[i].1.snd)
    requires forall i :: 0 <= i < |buf| ==> Known(t, raw, buf[i])
    requires Known(t, raw, p.fst) && Known(t, raw, p.snd)
    requires Ordered(Put(t, c, p)) && Get(Put(t, c, p), c) == p
    ensures ExpandAll(Put(t, c, p), Replace(buf, p, c)) == ExpandAll(t, buf)
  {
    var t' := Put(t, c, p);
    forall i | 0 <= i < |buf| ensures GetOriginal(t', buf[i]) == GetOriginal(t, buf[i]) {
      GetOriginalAfterAdd(t, raw, c, p, buf[i]);
    }
    ExpandAllCongruent(t', t, buf);
    GetOriginalAfterAdd(t, raw, c, p, p.fst);
    GetOriginalAfterAdd(t, raw, c, p, p.snd);
    GetOriginalUnfolds(t', c);
    ReplaceExpands(t', buf, p, c);
  }

  /** The octets of the new buffer are literals or codes of the grown table. */
  lemma KnownBufferAfterPass(t: Table, raw: seq<byte>, buf: seq<byte>, c: byte, p: Pair)
    requires !HasKey(t, c)
    requires forall i :: 0 <= i < |buf| ==> Known(t, raw, buf[i])
    ensures forall i :: 0 <= i < |Replace(buf, p, c)| ==> Known(t + [(c, p)], raw, Replace(buf, p, c)[i])
  {
    var r := Replace(buf, p, c);
    KnownAfterAdd(t, raw, c, p);
    ReplaceOctets(buf, p, c);
    forall i | 0 <= i < |r| ensures Known(t + [(c, p)], raw, r[i]) {
      assert r[i] in r;
    }
  }

  /** The entries of the grown table consist of literals and codes. */
  lemma KnownEntriesAfterAdd(t: Table, raw: seq<byte>, c: byte, p: Pair)
    requires !HasKey(t, c)
    requires forall i :: 0 <= i < |t| ==> Known(t, raw, t[i].1.fst) && Known(t, raw, t[i].1.snd)
    requires Known(t, raw, p.fst) && Known(t, raw, p.snd)
    ensures var t' := t + [(c, p)];
      forall i :: 0 <= i < |t'| ==> Known(t', raw, t'[i].1.fst) && Known(t', raw, t'[i].1.snd)
  {
    var t' := t + [(c, p)];
    KnownAfterAdd(t, raw, c, p);
    forall i | 0 <= i < |t'| ensures Known(t', raw, t'[i].1.fst) && Known(t', raw, t'[i].1.snd) {
      if i < |t| {
        assert t'[i] == t[i];
      }
    }
  }

  /** Every pass keeps Inv: in particular the buffer still expands to the input. */
  lemma PassKeepsInv(raw: seq<byte>, s: State)
    requires Inv(raw, s) && |s.buf| >= 2 && Pass(raw, s).Some?
    ensures Inv(raw, Pass(raw, s).value)
  {
    var t := s.table;
    var c := Allocate(t, raw).value;
    var (p, f) := Selected(s.buf);
    AddCode(t, raw, c, p);
    FirstPositionIsPairAt(s.buf, p);
    var i := FirstPosition(s.buf, p);
    assert Known(t, raw, s.buf[i]) && Known(t, raw, s.buf[i + 1]);
    OrderedAfterAdd(t, raw, c, p);
    ExpandAfterPass(t, raw, s.buf, c, p);
    KnownBufferAfterPass(t, raw, s.buf, c, p);
    KnownEntriesAfterAdd(t, raw, c, p);
  }

  /**
    What a pass records: the new entry maps a fresh code to a pair that
    occurs in the buffer as often as any pair (`last_pair_frequency` times),
    and once the code is substituted that pair no longer occurs.
  */
  lemma PassMeaning(raw: seq<byte>, s: State)
    requires Inv(raw, s) && |s.buf| >= 2 && Pass(raw, s).Some?
    ensures var n := Pass(raw, s).value; var e := n.table[|s.table|];
      !HasKey(s.table, e.0) && e.0 !in raw &&
      n.last == Occurrences(s.buf, e.1) >= 1 &&
      (forall q :: Occurrences(s.buf, q) <= n.last) &&
      Occurrences(n.buf, e.1) == 0
  {
    var t := s.table;
    var c := Allocate(t, raw).value;
    var (p, f) := Selected(s.buf);
    AddCode(t, raw, c, p);
    FirstPositionIsPairAt(s.buf, p);
    var i := FirstPosition(s.buf, p);
    assert Known(t, raw, s.buf[i]) && Known(t, raw, s.buf[i + 1]);
    ReplaceRemovesPair(s.buf, p, c);
    AbsentPair(Replace(s.buf, p, c), p);
  }

  // ---------------------------------------------------------------------
  // The compression loop and the artifact
  // ---------------------------------------------------------------------

  /**
    The loop `while last_pair_frequency != 1` from state s: it stops after
    a pass whose pair occurred once, or when no code is left to allocate
    (the `break` on the allocation failure). Codes are only ever appended.
  */
  function Encode(raw: seq<byte>, s: State): (r: State)
    requires Admissible(s.table, raw) && (s.last != 1 ==> |s.buf| >= 2)
    ensures Admissible(r.table, raw)
    ensures |s.table| <= |r.table| && r.table[..|s.table|] == s.table
    ensures r.last == 1 || |r.table| == 256 - |Values(raw)|
    decreases |s.buf|
  {
    if s.last == 1 then s
    else
      match Pass(raw, s)
      case None => s
      case Some(n) => Encode(raw, n)
  }

  /** The loop keeps Inv, so its final buffer expands to the input. */
  lemma {:induction false} EncodeKeepsInv(raw: seq<byte>, s: State)
    requires Inv(raw, s) && (s.last != 1 ==> |s.buf| >= 2)
    ensures Inv(raw, Encode(raw, s))
    decreases |s.buf|
  {
    if s.last != 1 && Pass(raw, s).Some? {
      PassKeepsInv(raw, s);
      EncodeKeepsInv(raw, Pass(raw, s).value);
    }
  }

  /** The loop starts from the input itself and an empty table. */
  function Start(raw: seq<byte>): (s: State)
    requires |raw| >= 2
    ensures Inv(raw, s) && |s.buf| >= 2 && s.last != 1
  {
    ExpandAllEmptyTable(raw);
    State(raw, [], 0)
  }

  /** A non-empty input leaves room for at most 255 codes. */
  lemma TableFits(raw: seq<byte>, t: Table)
    requires Admissible(t, raw) && |raw| >= 1
    ensures |t| <= 255
  {
    TableBound(t, raw);
    assert raw[0] in Values(raw);
  }

  /**
    `compress_binary` on the octets raw: the artifact written from the
    state the loop ends in, a count octet, the final buffer and then one
    three-octet record per code.
  */
  function Compressed(raw: seq<byte>): (a: seq<byte>)
    requires |raw| >= 2
    ensures |a| == 1 + |Encode(raw, Start(raw)).buf| + 3 * |Encode(raw, Start(raw)).table|
  {
    var r := Encode(raw, Start(raw));
    TableFits(raw, r.table);
    Artifact(r.table, r.buf)
  }

  /**
    Round trip: `decompress_binary` reads back every artifact
    `compress_binary` writes, and decodes it to exactly the input.
  */
  lemma RoundTrip(raw: seq<byte>)
    requires |raw| >= 2
    ensures Framed(Compressed(raw))
    ensures Decoded(Compressed(raw)) == Some(raw)
  {
    var r := Encode(raw, Start(raw));
    EncodeKeepsInv(raw, Start(raw));
    TableFits(raw, r.table);
    DecodeArtifact(r.table, r.buf);
  }

  /** A pass the method performs is the pass Encode takes. */
  lemma PassStep(raw: seq<byte>, s: State, pairs: Dict<Pair, nat>, c: byte, q: Pair, f: nat)
    requires Admissible(s.table, raw) && |s.buf| >= 2 && s.last != 1
    requires pairs == Frequencies(s.buf) && |pairs| > 0 && (q, f) == pairs[LastMax(pairs)]
    requires Allocate(s.table, raw) == Some(c)
    ensures Pass(raw, s) == Some(State(Replace(s.buf, q, c), Put(s.table, c, q), f))
    ensures Encode(raw, s) == Encode(raw, Pass(raw, s).value)
  {
  }

  /** Where the loop stops, Encode stops too. */
  lemma EncodeStops(raw: seq<byte>, s: State)
    requires Admissible(s.table, raw) && (s.last != 1 ==> |s.buf| >= 2)
    requires s.last == 1 || Allocate(s.table, raw).None?
    ensures Encode(raw, s) == s
  {
  }

  /** The serialisation loop: the count octet, the buffer, then every record. */
  method WriteArtifact(lookupTable: Table, compressedData: seq<byte>) returns (compressedOutput: seq<byte>)
    requires |lookupTable| <= 255
    ensures compressedOutput == Artifact(lookupTable, compressedData)
  {
    compressedOutput := [|lookupTable| as byte] + compressedData;
    var i := 0;
    while i < |lookupTable|
      invariant i <= |lookupTable|
      invariant compressedOutput == [|lookupTable| as byte] + compressedData + Serialize(lookupTable[..i])
    {
      var (key, value) := lookupTable[i];
      assert lookupTable[..i + 1][..i] == lookupTable[..i];
      compressedOutput := compressedOutput + [key, value.fst, value.snd];
      i := i + 1;
    }
    assert lookupTable[..i] == lookupTable;
  }

  /**
    `compress_binary` after the input has been read: passes until the last
    pair occurred once or the codes ran out, then the artifact. It is the
    one Compressed describes, so it decodes to the input.
  */
  method Compress(raw: seq<byte>) returns (compressedOutput: seq<byte>)
    requires |raw| >= 2
    ensures compressedOutput == Compressed(raw)
    ensures Framed(compressedOutput) && Decoded(compressedOutput) == Some(raw)
  {
    var lastPairFrequency: nat := 0;
    var compressedData := raw;
    var lookupTable: Table := [];
    while lastPairFrequency != 1
      invariant Admissible(lookupTable, raw)
      invariant lastPairFrequency != 1 ==> |compressedData| >= 2
      invariant Encode(raw, State(compressedData, lookupTable, lastPairFrequency)) ==
        Encode(raw, Start(raw))
      decreases |compressedData|
    {
      var pairs := CountPairs(compressedData);
      var replacement := Allocate(lookupTable, raw);
      if replacement.None? {
        break;
      }
      FrequenciesMeaning(compressedData);
      var highestOccurringPair, freq := MaxPair(pairs);
      PassStep(raw, State(compressedData, lookupTable, lastPairFrequency), pairs,
        replacement.value, highestOccurringPair, freq);
      lastPairFrequency := freq;
      lookupTable := Put(lookupTable, replacement.value, highestOccurringPair);
      compressedData := Replace(compressedData, highestOccurringPair, replacement.value);
    }
    EncodeStops(raw, State(compressedData, lookupTable, lastPairFrequency));
    TableFits(raw, lookupTable);
    compressedOutput := WriteArtifact(lookupTable, compressedData);
    RoundTrip(raw);
  }

  /** The pair counts of "AAA": "AA" twice. */
  lemma FrequenciesAAA()
    ensures Frequencies([0x41, 0x41, 0x41]) == [(Pair(0x41, 0x41), 2)]
  {
    var aa := Pair(0x41, 0x41);
    var xs := Adjacent([0x41, 0x41, 0x41]);
    assert xs == [aa, aa];
    assert xs[..1] == [aa] && [aa][..0] == [];
    assert Dedup([aa]) == [aa];
    assert Dedup(xs) == [aa];
    assert Count([aa], aa) == 1;
    assert Count(xs, aa) == 2;
  }

  /** The pair counts of 0x00 "A": that pair once. */
  lemma FrequenciesZeroA()
    ensures Frequencies([0x00, 0x41]) == [(Pair(0x00, 0x41), 1)]
  {
    var za := Pair(0x00, 0x41);
    var xs := Adjacent([0x00, 0x41]);
    assert xs == [za];
    assert xs[..0] == [];
    assert Dedup(xs) == [za];
    assert Count(xs, za) == 1;
  }

  /** The first pass on "AAA" gives code 0x00 to "AA". */
  lemma FirstPassAAA()
    ensures Pass([0x41, 0x41, 0x41], Start([0x41, 0x41, 0x41])) ==
      Some(State([0x00, 0x41], [(0x00, Pair(0x41, 0x41))], 2))
  {
    var raw: seq<byte> := [0x41, 0x41, 0x41];
    var aa := Pair(0x41, 0x41);
    assert Values(raw) == {0x41};
    assert Free([], raw, 0x00);
    assert Allocate([], raw) == Some(0x00);
    FrequenciesAAA();
    assert Selected(raw) == (aa, 2);
    assert Replace(raw, aa, 0x00) == [0x00, 0x41] by {
      assert raw[2..] == [0x41];
    }
  }

  /** With 0x00 taken, the next code is 0x01. */
  lemma SecondCodeAAA()
    ensures Allocate([(0x00, Pair(0x41, 0x41))], [0x41, 0x41, 0x41]) == Some(0x01)
  {
    var raw: seq<byte> := [0x41, 0x41, 0x41];
    var t1: Table := [(0x00, Pair(0x41, 0x41))];
    assert Values(raw) == {0x41};
    assert HasKey(t1, 0x00);
    assert !Free(t1, raw, 0x00);
    assert Free(t1, raw, 0x01);
    assert SmallestFree(t1, raw, 0) == SmallestFree(t1, raw, 1);
  }

  /** The second pass gives code 0x01 to 0x00 "A", which occurred once. */
  lemma SecondPassAAA()
    ensures Pass([0x41, 0x41, 0x41], State([0x00, 0x41], [(0x00, Pair(0x41, 0x41))], 2)) ==
      Some(State([0x01], [(0x00, Pair(0x41, 0x41)), (0x01, Pair(0x00, 0x41))], 1))
  {
    var raw: seq<byte> := [0x41, 0x41, 0x41];
    var t1: Table := [(0x00, Pair(0x41, 0x41))];
    var za := Pair(0x00, 0x41);
    SecondCodeAAA();
    FrequenciesZeroA();
    assert Selected([0x00, 0x41]) == (za, 1);
    assert Put(t1, 0x01, za) == [(0x00, Pair(0x41, 0x41)), (0x01, za)] by {
      assert !HasKey(t1, 0x01);
    }
    assert Replace([0x00, 0x41], za, 0x01) == [0x01] by {
      assert [0x00, 0x41][2..] == [];
    }
    assert Pass(raw, State([0x00, 0x41], t1, 2)) ==
      Some(State(Replace([0x00, 0x41], za, 0x01), Put(t1, 0x01, za), 1));
  }

  /** The loop on "AAA" runs the two passes and stops. */
  lemma EncodeAAA()
    ensures Encode([0x41, 0x41, 0x41], Start([0x41, 0x41, 0x41])) ==
      State([0x01], [(0x00, Pair(0x41, 0x41)), (0x01, Pair(0x00, 0x41))], 1)
  {
    var raw: seq<byte> := [0x41, 0x41, 0x41];
    var t1: Table := [(0x00, Pair(0x41, 0x41))];
    FirstPassAAA();
    SecondPassAAA();
    assert Encode(raw, State([0x00, 0x41], t1, 2)) ==
      State([0x01], [(0x00, Pair(0x41, 0x41)), (0x01, Pair(0x00, 0x41))], 1);
  }

  /**
    Worked example: "AAA" becomes code 0x00 for "AA" (buffer 0x00 "A"),
    then code 0x01 for 0x00 "A" (buffer 0x01), whose pair occurred once.
  */
  lemma CompressAAA()
    ensures Compressed([0x41, 0x41, 0x41]) == [0x02, 0x01, 0x00, 0x41, 0x41, 0x01, 0x00, 0x41]
  {
    var raw: seq<byte> := [0x41, 0x41, 0x41];
    var t2: Table := [(0x00, Pair(0x41, 0x41)), (0x01, Pair(0x00, 0x41))];
    EncodeAAA();
    assert Compressed(raw) == Artifact(t2, [0x01]);
    ArtifactAAA();
  }

  /** The artifact of the worked example. */
  lemma ArtifactAAA()
    ensures Artifact([(0x00, Pair(0x41, 0x41)), (0x01, Pair(0x00, 0x41))], [0x01]) ==
      [0x02, 0x01, 0x00, 0x41, 0x41, 0x01, 0x00, 0x41]
  {
    SerializeAAA();
  }

  /** The trailer of the worked example. */
  lemma SerializeAAA()
    ensures Serialize([(0x00, Pair(0x41, 0x41)), (0x01, Pair(0x00, 0x41))]) ==
      [0x00, 0x41, 0x41, 0x01, 0x00, 0x41]
  {
    var t1: Table := [(0x00, Pair(0x41, 0x41))];
    var t2: Table := [(0x00, Pair(0x41, 0x41)), (0x01, Pair(0x00, 0x41))];
    assert t1[..0] == [];
    assert Serialize(t1) == [0x00, 0x41, 0x41];
    assert t2[..1] == t1;
  }
}
