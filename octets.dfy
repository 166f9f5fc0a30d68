/**
  Octets, octet pairs and the small wrappers shared by the compressor's
  components.
*/
module Octets {

  /** One octet, the unit the compressor reads, writes and substitutes. */
  type byte = x: int | 0 <= x < 256

  datatype Option<T> = None | Some(value: T)

  /**
    An ordered pair of octets: a key of the pair-frequency dictionary and
    the two components a code stands for.
  */
  datatype Pair = Pair(fst: byte, snd: byte)

  /** The distinct octets of a byte string (`set(data)` in the source). */
  function Values(s: seq<byte>): (v: set<byte>)
    ensures forall b :: b in v <==> b in s
  {
    set b | b in s
  }

  predicate Below(b: byte, n: int) { b < n }

  /** There are exactly n octets below n. */
  lemma {:induction false} OctetsBelow(n: nat)
    requires n <= 256
    ensures |set b: byte | Below(b, n)| == n
  {
    if n > 0 {
      var m := n - 1;
      OctetsBelow(m);
      assert (set b: byte | Below(b, n)) == (set b: byte | Below(b, m)) + {m as byte};
    }
  }

  lemma SubsetCard(a: set<byte>, b: set<byte>)
    requires a <= b
    ensures |a| <= |b|
  {
    assert b == a + (b - a);
    assert a * (b - a) == {};
  }

  /** A set holding every octet has 256 elements. */
  lemma AllOctets(s: set<byte>)
    requires forall b: byte :: b in s
    ensures |s| >= 256
  {
    OctetsBelow(256);
    var all := set b: byte | Below(b, 256);
    assert all <= s by {
      forall b | b in all ensures b in s { }
    }
    SubsetCard(all, s);
  }

  /** No set of octets has more than 256 elements. */
  lemma AtMostAllOctets(s: set<byte>)
    ensures |s| <= 256
  {
    OctetsBelow(256);
    var all := set b: byte | Below(b, 256);
    SubsetCard(s, all);
  }
}
