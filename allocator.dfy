/**
  Code allocation (`__get_replacement`): a fresh octet that is neither a key
  of the code table nor any octet of the original input. The source draws
  random octets and retries; this model takes the smallest admissible octet,
  which is one of the values the random draw can return.
*/
module Allocator {
  import opened Octets
  import opened Dict
  import opened CodeTable

  /**
    The state allocation relies on: the table's keys are unique and none of
    them is an octet of the original input.
  */
  predicate Admissible(t: Table, raw: seq<byte>) {
    UniqueKeys(t) && forall i :: 0 <= i < |t| ==> t[i].0 !in raw
  }

  /** Codes and literals together never exceed the 256 octet values. */
  lemma TableBound(t: Table, raw: seq<byte>)
    requires Admissible(t, raw)
    ensures |t| + |Values(raw)| <= 256
  {
    KeyCount(t);
    var keys := KeySet(t);
    assert keys * Values(raw) == {};
    AtMostAllOctets(keys + Values(raw));
  }

  /** The admissible octet b is free: not a code and not a literal. */
  predicate Free(t: Table, raw: seq<byte>, b: byte) {
    !HasKey(t, b) && b !in raw
  }

  /** The smallest free octet at or above `from`, if there is one. */
  function SmallestFree(t: Table, raw: seq<byte>, from: nat): (r: Option<byte>)
    requires from <= 256
    ensures r.Some? ==> from <= r.value && Free(t, raw, r.value)
    ensures r.Some? ==> forall b: byte :: from <= b < r.value ==> !Free(t, raw, b)
    ensures r.None? ==> forall b: byte :: from <= b ==> !Free(t, raw, b)
    decreases 256 - from
  {
    if from == 256 then None
    else if Free(t, raw, from as byte) then Some(from as byte)
    else SmallestFree(t, raw, from + 1)
  }

  /** While codes remain, some octet is free. */
  lemma FreeExists(t: Table, raw: seq<byte>)
    requires Admissible(t, raw) && |t| != 256 - |Values(raw)|
    ensures SmallestFree(t, raw, 0).Some?
  {
    TableBound(t, raw);
    if SmallestFree(t, raw, 0).None? {
      var all := KeySet(t) + Values(raw);
      forall b: byte ensures b in all {
        assert !Free(t, raw, b);
        HasKeyIff(t, b);
      }
      AllOctets(all);
      KeyCount(t);
    }
  }

  /**
    `__get_replacement`: fails exactly when the table already holds
    256 - |set(raw)| codes; otherwise returns an octet that is not a key and
    not in the original input (here the smallest such octet).
  */
  function Allocate(t: Table, raw: seq<byte>): (r: Option<byte>)
    requires Admissible(t, raw)
    ensures r.None? <==> |t| == 256 - |Values(raw)|
    ensures r.Some? ==> !HasKey(t, r.value) && r.value !in raw
    ensures r.Some? ==> forall b: byte :: b < r.value ==> !Free(t, raw, b)
  {
    if |t| == 256 - |Values(raw)| then None
    else
      FreeExists(t, raw);
      SmallestFree(t, raw, 0)
  }

  /**
    `table[code] = pair` for an allocated code appends a new entry and keeps
    the table admissible.
  */
  lemma AddCode(t: Table, raw: seq<byte>, c: byte, p: Pair)
    requires Admissible(t, raw) && !HasKey(t, c) && c !in raw
    ensures Put(t, c, p) == t + [(c, p)]
    ensures Admissible(Put(t, c, p), raw)
  {
    var t' := t + [(c, p)];
    assert forall i :: 0 <= i < |t| ==> t'[i] == t[i];
  }
}
