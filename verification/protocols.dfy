/** Protocol versions, feature masks, and the context that keeps the two consistent. */
module Protocols {
  import opened Bytes
  import opened Bits

  type Version = (int, int, int)

  /** Python compares version tuples lexicographically. */
  predicate Before(a: Version, b: Version) {
    a.0 < b.0 || (a.0 == b.0 && (a.1 < b.1 || (a.1 == b.1 && a.2 < b.2)))
  }

  predicate AtLeast(v: Version, major: int, minor: int, patch: int) {
    !Before(v, (major, minor, patch))
  }

  const PROTOCOLS: seq<Version> := [(1, 7, 1), (1, 7, 0), (1, 6, 0), (1, 5, 0), (1, 4, 0), (1, 3, 0), (1, 2, 0)]

  const NEWEST: Version := (1, 7, 1)

  predicate FeatureFlagsSupported(v: Version) {
    AtLeast(v, 1, 7, 0)
  }

  predicate UserAttributesSupported(v: Version) {
    AtLeast(v, 1, 7, 1)
  }

  /** Transactions and expiry policies came together. */
  predicate TransactionsSupported(v: Version) {
    AtLeast(v, 1, 6, 0)
  }

  // ---- feature masks

  /** `bytes(features)`. */
  function MaskBytes(mask: nat): (b: bytes)
    ensures |b| == BitLength(mask) / 8 + 1
  {
    ToLE(mask, BitLength(mask) / 8 + 1)
  }

  /** `BitmaskFeature.from_array`. */
  function FromArray(packed: Option<bytes>): Option<nat> {
    if packed.None? then None else Some(FromLE(packed.value))
  }

  /** The byte count chosen from the bit length always leaves the top bit free, so every mask comes back. */
  lemma MaskRoundTrip(mask: nat)
    ensures FromArray(Some(MaskBytes(mask))) == Some(mask)
    ensures 2 * mask < Pow256(|MaskBytes(mask)|)
  {
    var n := BitLength(mask) / 8 + 1;
    BitLengthBounds(mask);
    Pow2OfBytes(n);
    Pow2Monotone(BitLength(mask) + 1, 8 * n);
    assert Pow2(BitLength(mask) + 1) == 2 * Pow2(BitLength(mask));
    FromToLENat(mask, n);
  }

  /** Of all encodings of a mask, exactly those of the chosen length are written back unchanged. */
  lemma ArrayRoundTripExactly(packed: bytes)
    ensures MaskBytes(FromLE(packed)) == packed <==> |packed| == BitLength(FromLE(packed)) / 8 + 1
  {
    ToFromLE(packed);
  }

  // ---- the context

  datatype Context = Context(version: Version, features: Option<nat>)

  /** Features are absent where the protocol has none. */
  predicate Coherent(c: Context) {
    c.features.Some? ==> FeatureFlagsSupported(c.version)
  }

  /** Features are dropped unless the version carries them. */
  function Restrict(c: Context): (r: Context)
    ensures Coherent(r) && r.version == c.version
    ensures r.features == if Before(c.version, (1, 7, 0)) then None else c.features
  {
    if FeatureFlagsSupported(c.version) then c else c.(features := None)
  }

  class ProtocolContext {
    var version: Version
    var features: Option<nat>

    function Abs(): Context
      reads this
    {
      Context(version, features)
    }

    constructor (version: Version, features: Option<nat>)
      ensures Abs() == Context(version, if Before(version, (1, 7, 0)) then None else features)
    {
      this.version := version;
      this.features := features;
      new;
      EnsureConsistency();
    }

    method EnsureConsistency()
      modifies this`features
      ensures Abs() == Restrict(old(Abs()))
    {
      if !FeatureFlagsSupported(version) { features := None; }
    }

    method SetVersion(v: Version)
      modifies this
      ensures Abs() == Context(v, if Before(v, (1, 7, 0)) then None else old(features))
    {
      version := v;
      EnsureConsistency();
    }

    method SetFeatures(f: Option<nat>)
      modifies this`features
      ensures Abs() == Context(version, if Before(version, (1, 7, 0)) then None else f)
    {
      features := f;
      EnsureConsistency();
    }
  }
}
