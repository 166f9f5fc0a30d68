/**
  The code table: an insertion-ordered mapping from code octets to the pair
  of octets each code stands for, its recursive expansion, and its wire
  form in the artifact trailer.
*/
module CodeTable {
  import opened Octets
  import opened Dict

  type Table = Dict<byte, Pair>

  /** Concatenation of two expansions; a failed expansion poisons the result. */
  function Join(a: Option<seq<byte>>, b: Option<seq<byte>>): Option<seq<byte>> {
    if a.Some? && b.Some? then Some(a.value + b.value) else None
  }

  lemma JoinAssoc(a: Option<seq<byte>>, b: Option<seq<byte>>, c: Option<seq<byte>>)
    ensures Join(Join(a, b), c) == Join(a, Join(b, c))
  {
    if a.Some? && b.Some? && c.Some? {
      assert (a.value + b.value) + c.value == a.value + (b.value + c.value);
    }
  }

  /**
    The recursive lookup of `__get_original`, allowed at most `fuel` nested
    code lookups. A byte that is not a code stands for itself; a code stands
    for the expansion of its first component followed by that of its second.
    None means the lookup nests deeper than the budget, which is how a table
    whose codes refer to each other in a cycle shows up.
  */
  function Expand(t: Table, b: byte, fuel: nat): Option<seq<byte>>
    decreases fuel
  {
    if !HasKey(t, b) then Some([b])
    else if fuel == 0 then None
    else
      var p := Get(t, b);
      Join(Expand(t, p.fst, fuel - 1), Expand(t, p.snd, fuel - 1))
  }

  /**
    `__get_original(b, table)`: in a table of n codes, a lookup chain that
    does not revisit a code is at most n codes deep, so n nested lookups are
    enough for every acyclic table.
  */
  function GetOriginal(t: Table, b: byte): Option<seq<byte>> {
    Expand(t, b, |t|)
  }

  /** The concatenation of GetOriginal over s, in order. */
  function ExpandAll(t: Table, s: seq<byte>): Option<seq<byte>>
    decreases |s|
  {
    if s == [] then Some([])
    else Join(ExpandAll(t, s[..|s| - 1]), GetOriginal(t, s[|s| - 1]))
  }

  /** Expansion distributes over concatenation of buffers. */
  lemma {:induction false} ExpandAllAppend(t: Table, a: seq<byte>, b: seq<byte>)
    ensures ExpandAll(t, a + b) == Join(ExpandAll(t, a), ExpandAll(t, b))
    decreases |b|
  {
    if b == [] {
      assert a + b == a;
      if ExpandAll(t, a).Some? {
        assert ExpandAll(t, a).value + [] == ExpandAll(t, a).value;
      }
    } else {
      var b' := b[..|b| - 1];
      assert (a + b)[..|a + b| - 1] == a + b';
      ExpandAllAppend(t, a, b');
      JoinAssoc(ExpandAll(t, a), ExpandAll(t, b'), GetOriginal(t, b[|b| - 1]));
    }
  }

  /** A one-byte buffer expands to the expansion of its byte. */
  lemma ExpandAllSingle(t: Table, b: byte)
    ensures ExpandAll(t, [b]) == GetOriginal(t, b)
  {
    assert [b][..0] == [];
    var g := GetOriginal(t, b);
    if g.Some? {
      assert [] + g.value == g.value;
    }
  }

  /** Two tables that agree on every byte of s expand s alike. */
  lemma {:induction false} ExpandAllCongruent(t: Table, u: Table, s: seq<byte>)
    requires forall i :: 0 <= i < |s| ==> GetOriginal(t, s[i]) == GetOriginal(u, s[i])
    ensures ExpandAll(t, s) == ExpandAll(u, s)
    decreases |s|
  {
    if s != [] {
      ExpandAllCongruent(t, u, s[..|s| - 1]);
    }
  }

  /** Under the empty table every byte stands for itself. */
  lemma {:induction false} ExpandAllEmptyTable(s: seq<byte>)
    ensures ExpandAll([], s) == Some(s)
    decreases |s|
  {
    if s != [] {
      ExpandAllEmptyTable(s[..|s| - 1]);
      assert s[..|s| - 1] + [s[|s| - 1]] == s;
    }
  }

  /** x is not a code, or is the code of an entry before index i. */
  predicate Earlier(t: Table, x: byte, i: nat) {
    Find(t, x) < i || Find(t, x) == |t|
  }

  /**
    The structural acyclicity of an encoder-built table: each component of
    entry i is a literal or a code inserted before entry i.
  */
  predicate Ordered(t: Table) {
    forall i {:trigger Earlier(t, t[i].1.fst, i)} ::
      0 <= i < |t| ==> Earlier(t, t[i].1.fst, i) && Earlier(t, t[i].1.snd, i)
  }

  /** How many nested lookups expanding b needs at most in an Ordered table. */
  function Rank(t: Table, b: byte): nat {
    if HasKey(t, b) then Find(t, b) + 1 else 0
  }

  /** The components of a code in an Ordered table have smaller ranks. */
  lemma ComponentRanks(t: Table, b: byte) returns (i: nat, p: Pair)
    requires Ordered(t) && HasKey(t, b)
    ensures i == Find(t, b) && Rank(t, b) == i + 1 && p == Get(t, b)
    ensures Rank(t, p.fst) <= i && Rank(t, p.snd) <= i
  {
    i := Find(t, b);
    p := Get(t, b);
    assert p == t[i].1;
    assert Earlier(t, p.fst, i) && Earlier(t, p.snd, i);
  }

  lemma ExpandKey(t: Table, b: byte, fuel: nat)
    requires HasKey(t, b) && fuel > 0
    ensures Expand(t, b, fuel) == Join(Expand(t, Get(t, b).fst, fuel - 1), Expand(t, Get(t, b).snd, fuel - 1))
  {
  }

  /**
    In an Ordered table an expansion never runs out of budget once the
    budget covers the byte's rank, and extra budget changes nothing.
  */
  lemma {:induction false} ExpandSettles(t: Table, b: byte, fuel: nat)
    requires Ordered(t) && fuel >= Rank(t, b)
    ensures Expand(t, b, fuel).Some?
    ensures Expand(t, b, fuel) == Expand(t, b, Rank(t, b))
    decreases Rank(t, b)
  {
    if HasKey(t, b) {
      var i, p := ComponentRanks(t, b);
      ExpandSettles(t, p.fst, fuel - 1);
      ExpandSettles(t, p.fst, i);
      ExpandSettles(t, p.snd, fuel - 1);
      ExpandSettles(t, p.snd, i);
      ExpandKey(t, b, fuel);
      ExpandKey(t, b, i + 1);
    }
  }

  /** Two budgets that both cover the rank give the same expansion. */
  lemma ExpandFuelIrrelevant(t: Table, b: byte, f1: nat, f2: nat)
    requires Ordered(t) && f1 >= Rank(t, b) && f2 >= Rank(t, b)
    ensures Expand(t, b, f1) == Expand(t, b, f2)
  {
    ExpandSettles(t, b, f1);
    ExpandSettles(t, b, f2);
  }

  /**
    `__get_original` on an encoder-built table: it always yields a result;
    a byte that is not a code comes back unchanged, and a code comes back as
    the expansion of its first component followed by that of its second.
  */
  lemma GetOriginalUnfolds(t: Table, b: byte)
    requires Ordered(t)
    ensures GetOriginal(t, b).Some?
    ensures !HasKey(t, b) ==> GetOriginal(t, b) == Some([b])
    ensures HasKey(t, b) ==>
      GetOriginal(t, b) == Join(GetOriginal(t, Get(t, b).fst), GetOriginal(t, Get(t, b).snd))
  {
    ExpandSettles(t, b, |t|);
    if HasKey(t, b) {
      var i, p := ComponentRanks(t, b);
      ExpandFuelIrrelevant(t, p.fst, |t| - 1, |t|);
      ExpandFuelIrrelevant(t, p.snd, |t| - 1, |t|);
      ExpandKey(t, b, |t|);
    }
  }

  /** Every byte of an Ordered table has an expansion, so ExpandAll succeeds. */
  lemma {:induction false} ExpandAllSucceeds(t: Table, s: seq<byte>)
    requires Ordered(t)
    ensures ExpandAll(t, s).Some?
    decreases |s|
  {
    if s != [] {
      ExpandAllSucceeds(t, s[..|s| - 1]);
      ExpandSettles(t, s[|s| - 1], |t|);
    }
  }

  /** Looking up any other byte ignores a newly appended code. */
  lemma FreshLookup(t: Table, c: byte, p: Pair, b: byte)
    requires !HasKey(t, c) && b != c
    ensures HasKey(t + [(c, p)], b) == HasKey(t, b)
    ensures HasKey(t, b) ==> Get(t + [(c, p)], b) == Get(t, b)
  {
    FindAppend(t, (c, p));
  }

  /** No entry of t has c as a component. */
  predicate Unreferenced(t: Table, c: byte) {
    forall i :: 0 <= i < |t| ==> t[i].1.fst != c && t[i].1.snd != c
  }

  /**
    Appending an entry for a code c that is not yet a key and not a
    component of any entry leaves the expansion of every other byte
    unchanged.
  */
  lemma {:induction false} ExpandFresh(t: Table, c: byte, p: Pair, fuel: nat)
    requires !HasKey(t, c) && Unreferenced(t, c)
    ensures forall b :: b != c ==> Expand(t + [(c, p)], b, fuel) == Expand(t, b, fuel)
    decreases fuel
  {
    if fuel > 0 {
      ExpandFresh(t, c, p, fuel - 1);
    }
    forall b | b != c ensures Expand(t + [(c, p)], b, fuel) == Expand(t, b, fuel) {
      FreshLookup(t, c, p, b);
      if HasKey(t, b) && fuel > 0 {
        var q := Get(t, b);
        assert q == t[Find(t, b)].1;
      }
    }
  }

  // ---------------------------------------------------------------------
  // Wire form of the table
  // ---------------------------------------------------------------------

  /** The trailer: `key + value` for every entry, in insertion order. */
  function Serialize(t: Table): (s: seq<byte>)
    ensures |s| == 3 * |t|
    decreases |t|
  {
    if t == [] then []
    else
      var e := t[|t| - 1];
      Serialize(t[..|t| - 1]) + [e.0, e.1.fst, e.1.snd]
  }

  /** The artifact: one count octet, the payload, then the trailer. */
  function Artifact(t: Table, buf: seq<byte>): (a: seq<byte>)
    requires |t| <= 255
    ensures |a| == 1 + |buf| + 3 * |t|
  {
    [|t| as byte] + buf + Serialize(t)
  }

  /**
    The table `__reconstruct_dict` has built after reading the first k
    three-octet records `[code, c0, c1]` of chunk: `table[code] = (c0, c1)`
    for each record in turn.
  */
  function Records(chunk: seq<byte>, k: nat): (t: Table)
    requires 3 * k <= |chunk|
    ensures |t| <= k
    ensures UniqueKeys(t)
  {
    if k == 0 then []
    else
      var j := 3 * (k - 1);
      Put(Records(chunk, k - 1), chunk[j], Pair(chunk[j + 1], chunk[j + 2]))
  }

  /** Reading record k after the first k. */
  lemma RecordsNext(chunk: seq<byte>, k: nat)
    requires 3 * (k + 1) <= |chunk|
    ensures 3 * k + 2 < |chunk|
    ensures Records(chunk, k + 1) ==
      Put(Records(chunk, k), chunk[3 * k], Pair(chunk[3 * k + 1], chunk[3 * k + 2]))
  {
  }

  /** Reading k records looks only at the first 3k octets. */
  lemma {:induction false} RecordsAgree(c1: seq<byte>, c2: seq<byte>, k: nat)
    requires 3 * k <= |c1| && 3 * k <= |c2|
    requires forall i :: 0 <= i < 3 * k ==> c1[i] == c2[i]
    ensures Records(c1, k) == Records(c2, k)
  {
    if k > 0 {
      RecordsAgree(c1, c2, k - 1);
      var j := 3 * (k - 1);
      assert c1[j] == c2[j] && c1[j + 1] == c2[j + 1] && c1[j + 2] == c2[j + 2];
    }
  }

  /** Reading one more record of a trailer puts its entry into the table. */
  lemma RecordsSnoc(init: Table, e: (byte, Pair))
    ensures Records(Serialize(init + [e]), |init| + 1) ==
      Put(Records(Serialize(init), |init|), e.0, e.1)
  {
    var t := init + [e];
    assert t[..|t| - 1] == init;
    var rec := [e.0, e.1.fst, e.1.snd];
    var chunk := Serialize(t);
    assert chunk == Serialize(init) + rec;
    RecordsAgree(Serialize(init), chunk, |init|);
    var j := 3 * |init|;
    assert chunk[j] == e.0 && chunk[j + 1] == e.1.fst && chunk[j + 2] == e.1.snd;
  }

  /** In a table with unique keys the last key is not a key of the rest. */
  lemma LastKeyFresh(t: Table)
    requires UniqueKeys(t) && t != []
    ensures !HasKey(t[..|t| - 1], t[|t| - 1].0)
  {
    var init := t[..|t| - 1];
    assert forall i :: 0 <= i < |init| ==> init[i].0 != t[|t| - 1].0;
  }

  /**
    Reading the trailer of a table with unique keys back record by record
    rebuilds the same table, entries in the same order.
  */
  lemma {:induction false} RecordsOfSerialize(t: Table)
    requires UniqueKeys(t)
    ensures Records(Serialize(t), |t|) == t
    decreases |t|
  {
    if t != [] {
      var init := t[..|t| - 1];
      var e := t[|t| - 1];
      assert init + [e] == t;
      RecordsOfSerialize(init);
      RecordsSnoc(init, e);
      LastKeyFresh(t);
    }
  }
}
