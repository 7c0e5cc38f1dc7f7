/** `EnumSet` as stored in C-DNS: a set of flags written as an unsigned
    integer whose bit p is set exactly when the flag at bit position p is in
    the set. A flag type is given by the bit position of each of its values;
    bits at or above the flag count are ignored when reading. */
module FlagSets {

  function Pow2(n: nat): (r: nat)
    ensures r >= 1
  {
    if n == 0 then 1 else 2 * Pow2(n - 1)
  }

  /** The mask of the positions in `s` among i, i+1, ..., n-1, with
      position i as its lowest bit. */
  function MaskFrom(s: set<nat>, i: nat, n: nat): nat
    decreases n - i
  {
    if i >= n then 0 else (if i in s then 1 else 0) + 2 * MaskFrom(s, i + 1, n)
  }

  /** The positions among i, ..., n-1 whose bit is set in `m`, whose lowest
      bit stands for position i. */
  function BitsFrom(m: nat, i: nat, n: nat): set<nat>
    decreases n - i
  {
    if i >= n then {} else (if m % 2 == 1 then {i} else {}) + BitsFrom(m / 2, i + 1, n)
  }

  /** The mask of a set of bit positions below n. */
  function Mask(s: set<nat>, n: nat): nat {
    MaskFrom(s, 0, n)
  }

  /** The bit positions below n set in m. */
  function Members(m: nat, n: nat): set<nat> {
    BitsFrom(m, 0, n)
  }

  lemma {:induction false} MaskFromBound(s: set<nat>, i: nat, n: nat)
    requires i <= n
    ensures MaskFrom(s, i, n) < Pow2(n - i)
    decreases n - i
  {
    if i < n {
      MaskFromBound(s, i + 1, n);
      assert Pow2(n - i) == 2 * Pow2(n - (i + 1));
    }
  }

  lemma {:induction false} BitsFromRange(m: nat, i: nat, n: nat)
    ensures forall p :: p in BitsFrom(m, i, n) ==> i <= p < n
    decreases n - i
  {
    if i < n {
      BitsFromRange(m / 2, i + 1, n);
    }
  }

  lemma {:induction false} BitsOfMaskFrom(s: set<nat>, i: nat, n: nat)
    ensures BitsFrom(MaskFrom(s, i, n), i, n) == set p | p in s && i <= p < n
    decreases n - i
  {
    if i < n {
      var m := MaskFrom(s, i, n);
      var b := if i in s then 1 else 0;
      assert m % 2 == b && m / 2 == MaskFrom(s, i + 1, n);
      BitsOfMaskFrom(s, i + 1, n);
    }
  }

  /** Two sets that agree on the positions i, ..., n-1 have the same mask. */
  lemma {:induction false} MaskFromAgree(s: set<nat>, t: set<nat>, i: nat, n: nat)
    requires forall p :: i <= p < n ==> (p in s <==> p in t)
    ensures MaskFrom(s, i, n) == MaskFrom(t, i, n)
    decreases n - i
  {
    if i < n {
      MaskFromAgree(s, t, i + 1, n);
    }
  }

  lemma {:induction false} MaskOfBitsFrom(m: nat, i: nat, n: nat)
    requires i <= n
    requires m < Pow2(n - i)
    ensures MaskFrom(BitsFrom(m, i, n), i, n) == m
    decreases n - i
  {
    if i < n {
      var bits, rest := BitsFrom(m, i, n), BitsFrom(m / 2, i + 1, n);
      assert Pow2(n - i) == 2 * Pow2(n - (i + 1));
      MaskOfBitsFrom(m / 2, i + 1, n);
      BitsFromRange(m / 2, i + 1, n);
      MaskFromAgree(bits, rest, i + 1, n);
      assert (i in bits) <==> m % 2 == 1;
    } else {
      assert Pow2(0) == 1;
    }
  }

  /** Every mask of positions below n fits in n bits. */
  lemma MaskBound(s: set<nat>, n: nat)
    ensures Mask(s, n) < Pow2(n)
  {
    MaskFromBound(s, 0, n);
  }

  /** Reading a mask back gives the positions of the set that lie below n. */
  lemma MembersOfMask(s: set<nat>, n: nat)
    ensures Members(Mask(s, n), n) == set p | p in s && p < n
  {
    BitsOfMaskFrom(s, 0, n);
  }

  /** A number below 2^n is the mask of its own set bits. */
  lemma MaskOfMembers(m: nat, n: nat)
    requires m < Pow2(n)
    ensures Mask(Members(m, n), n) == m
    ensures forall p :: p in Members(m, n) ==> p < n
  {
    MaskOfBitsFrom(m, 0, n);
    BitsFromRange(m, 0, n);
  }

  /** A flag type described by the bit position of each of its `n` values:
      `universe` holds all values of the type, each has a position below n
      from which `fromPosition` recovers it, and every position below n is
      the position of the value `fromPosition` gives for it. */
  ghost predicate Dense<F(!new)>(universe: set<F>, position: F -> nat, fromPosition: nat -> F, n: nat) {
    && (forall f: F :: f in universe)
    && (forall f: F :: position(f) < n && fromPosition(position(f)) == f)
    && (forall p :: 0 <= p < n ==> position(fromPosition(p)) == p)
  }

  /** Serializing an `EnumSet`: the mask of the flags' positions. */
  function EncodeSet<F>(s: set<F>, position: F -> nat, n: nat): nat {
    Mask(set f | f in s :: position(f), n)
  }

  /** Deserializing an `EnumSet`: the flags whose bit is set. */
  function DecodeSet<F(==)>(m: nat, universe: set<F>, position: F -> nat, n: nat): set<F> {
    set f | f in universe && position(f) in Members(m, n)
  }

  /** set -> mask -> set is the identity, and the mask fits in n bits. */
  lemma EncodeThenDecode<F(!new)>(s: set<F>, universe: set<F>, position: F -> nat, fromPosition: nat -> F, n: nat)
    requires Dense(universe, position, fromPosition, n)
    ensures DecodeSet(EncodeSet(s, position, n), universe, position, n) == s
    ensures EncodeSet(s, position, n) < Pow2(n)
  {
    var positions := set f | f in s :: position(f);
    MembersOfMask(positions, n);
    MaskBound(positions, n);
    var r := DecodeSet(EncodeSet(s, position, n), universe, position, n);
    forall f | f in r
      ensures f in s
    {
      var g :| g in s && position(g) == position(f);
      assert fromPosition(position(g)) == fromPosition(position(f));
    }
    forall f | f in s
      ensures f in r
    {
      assert position(f) in positions;
    }
  }

  /** mask -> set -> mask is the identity on every mask below 2^n. */
  lemma DecodeThenEncode<F(!new)>(m: nat, universe: set<F>, position: F -> nat, fromPosition: nat -> F, n: nat)
    requires Dense(universe, position, fromPosition, n)
    requires m < Pow2(n)
    ensures EncodeSet(DecodeSet(m, universe, position, n), position, n) == m
  {
    var s := DecodeSet(m, universe, position, n);
    var positions := set f | f in s :: position(f);
    MaskOfMembers(m, n);
    forall p | p in Members(m, n)
      ensures p in positions
    {
      var f := fromPosition(p);
      assert f in s;
    }
    assert positions == Members(m, n);
  }
}
