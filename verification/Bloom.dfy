/** The Bloom filter over a byte array: bits are only ever set, so a key that was added is always
    found. Which hash pair a key has (the runtime's seeded hash, then mixed) does not matter. */
module Bloom {
  import opened Basics

  type HashPair = string -> (nat, nat)

  function Mask(i: nat): bv8
    requires i < 8
  {
    (1 as bv8) << i
  }

  /** Is bit p of the bytes set? */
  predicate Bit(bytes: seq<bv8>, p: nat) {
    p / 8 < |bytes| && bytes[p / 8] & Mask(p % 8) != 0
  }

  /** The i-th position of a key: (h1 + i * h2) mod m. */
  function Position(h: (nat, nat), i: nat, m: nat): (p: nat)
    requires m > 0
    ensures p < m
  {
    (h.0 + i * h.1) % m
  }

  lemma SetOneBit(b: bv8, i: nat, j: nat)
    requires i < 8 && j < 8
    ensures (b | Mask(i)) & Mask(j) != 0 <==> i == j || b & Mask(j) != 0
  {}

  /** A filter that is no longer changed. */
  datatype Frozen = Frozen(m: nat, k: nat, hash: HashPair, bytes: seq<bv8>)
  {
    predicate MayContain(key: string) {
      m > 0 && forall i :: 0 <= i < k ==> Bit(bytes, Position(hash(key), i, m))
    }
  }

  class BloomFilter {
    const m: nat
    const k: nat
    const hash: HashPair
    var bits: array<bv8>

    ghost predicate Valid()
      reads this
    {
      m > 0 && bits.Length == (m + 7) / 8
    }

    function AsFrozen(): Frozen
      reads this, bits
    {
      Frozen(m, k, hash, bits[..])
    }

    constructor (m: nat, k: nat, hash: HashPair)
      requires m > 0
      ensures Valid() && fresh(bits) && this.m == m && this.k == k && this.hash == hash
      ensures forall p :: 0 <= p < m ==> !Bit(bits[..], p)
    {
      this.m, this.k, this.hash := m, k, hash;
      bits := new bv8[(m + 7) / 8](_ => 0);
    }

    /** Sets the key's bits and no others. */
    method Add(key: string)
      requires Valid()
      modifies bits
      ensures Valid()
      ensures forall p: nat :: p < m ==>
        (Bit(bits[..], p) <==> Bit(old(bits[..]), p) || exists i :: 0 <= i < k && Position(hash(key), i, m) == p)
    {
      for i := 0 to k
        invariant forall p: nat :: p < m ==>
          (Bit(bits[..], p) <==> Bit(old(bits[..]), p) || exists j :: 0 <= j < i && Position(hash(key), j, m) == p)
      {
        SetBit(Position(hash(key), i, m));
      }
    }

    method SetBit(q: nat)
      requires Valid() && q < m
      modifies bits
      ensures forall p: nat :: p < m ==> (Bit(bits[..], p) <==> Bit(old(bits[..]), p) || p == q)
    {
      bits[q / 8] := bits[q / 8] | Mask(q % 8);
      forall p: nat | p < m ensures Bit(bits[..], p) <==> Bit(old(bits[..]), p) || p == q {
        SetOneBit(old(bits[q / 8]), q % 8, p % 8);
      }
    }

    /** `__contains__`. */
    method Query(key: string) returns (b: bool)
      requires Valid()
      ensures b == AsFrozen().MayContain(key)
    {
      for i := 0 to k
        invariant forall j :: 0 <= j < i ==> Bit(bits[..], Position(hash(key), j, m))
      {
        var p := Position(hash(key), i, m);
        if bits[p / 8] & Mask(p % 8) == 0 {
          return false;
        }
      }
      return true;
    }

    /** Adding keeps every earlier key and makes the new one found. */
    method AddKey(key: string, ghost earlier: set<string>)
      requires Valid() && forall e :: e in earlier ==> AsFrozen().MayContain(e)
      modifies bits
      ensures Valid() && forall e :: e in earlier + {key} ==> AsFrozen().MayContain(e)
    {
      Add(key);
      forall e | e in earlier + {key} ensures AsFrozen().MayContain(e) {
        forall i | 0 <= i < k ensures Bit(bits[..], Position(hash(e), i, m)) {
          assert e in earlier ==> old(AsFrozen()).MayContain(e);
        }
      }
    }
  }
}
