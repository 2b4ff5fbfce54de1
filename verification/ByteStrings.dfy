/** Byte strings, nibble strings and the big-endian integers of `ethereum_types.numeric`. */
module ByteStrings {

  type Byte = b: int | 0 <= b < 256
  type Nibble = n: int | 0 <= n < 16
  type Bytes = seq<Byte>
  type Nibbles = seq<Nibble>
  type Bytes32 = s: Bytes | |s| == 32 witness seq(32, _ => 0)

  /** The hash function is never looked into: every result holds for any map from byte strings to 32 bytes. */
  type Keccak = Bytes -> Bytes32

  /** `len()` of a Python object is below 2^63, so no byte string reaches this length. */
  const MAX_LENGTH: nat := 0x8000_0000_0000_0000

  const TWO_TO_THE_256: nat := 0x1_0000000000000000_0000000000000000_0000000000000000_0000000000000000

  type U256 = n: nat | n < TWO_TO_THE_256

  /** `K` maps no two members of `s` to one hash. `s` is finite, so this is a real condition on `K`. */
  ghost predicate CollisionFree(K: Keccak, s: set<Bytes>) {
    forall a, b :: a in s && b in s && K(a) == K(b) ==> a == b
  }

  lemma FewerCollide(K: Keccak, part: set<Bytes>, all: set<Bytes>)
    requires part <= all && CollisionFree(K, all)
    ensures CollisionFree(K, part)
  {}

  /** Shortest big-endian form of a number; zero is the empty string (`Uint.to_be_bytes`). */
  function ToBE(n: nat): (s: Bytes)
    ensures s != [] ==> s[0] != 0
    ensures s == [] <==> n == 0
  {
    if n == 0 then [] else ToBE(n / 256) + [n % 256]
  }

  function FromBE(s: Bytes): nat {
    if s == [] then 0 else FromBE(s[..|s| - 1]) * 256 + s[|s| - 1]
  }

  /** Big-endian form in exactly `w` bytes, dropping what does not fit. */
  function ToFixedBE(n: nat, w: nat): (s: Bytes)
    ensures |s| == w
  {
    if w == 0 then [] else ToFixedBE(n / 256, w - 1) + [n % 256]
  }

  function Pow256(w: nat): (r: nat)
    ensures r > 0
  {
    if w == 0 then 1 else 256 * Pow256(w - 1)
  }

  lemma FromBESnoc(s: Bytes, b: Byte)
    ensures FromBE(s + [b]) == FromBE(s) * 256 + b
  {
    assert (s + [b])[..|s|] == s;
  }

  lemma {:induction false} FromToBE(n: nat)
    ensures FromBE(ToBE(n)) == n
  {
    if n != 0 {
      FromToBE(n / 256);
      FromBESnoc(ToBE(n / 256), n % 256);
    }
  }

  /** Distinct numbers have distinct shortest forms. */
  lemma ToBEInjective(m: nat, n: nat)
    requires ToBE(m) == ToBE(n)
    ensures m == n
  {
    FromToBE(m);
    FromToBE(n);
  }

  lemma QuotientBelow(n: nat, p: nat)
    requires n < 256 * p
    ensures n / 256 < p && n / 256 * 256 + n % 256 == n
  {}

  lemma {:induction false} FromToFixedBE(n: nat, w: nat)
    requires n < Pow256(w)
    ensures FromBE(ToFixedBE(n, w)) == n
  {
    if w != 0 {
      var q, r := n / 256, n % 256;
      assert q < Pow256(w - 1) && q * 256 + r == n by { QuotientBelow(n, Pow256(w - 1)); }
      assert ToFixedBE(n, w) == ToFixedBE(q, w - 1) + [r];
      FromToFixedBE(q, w - 1);
      FromBESnoc(ToFixedBE(q, w - 1), r);
    }
  }

  lemma {:induction false} ToFixedFromBE(s: Bytes)
    ensures FromBE(s) < Pow256(|s|)
    ensures ToFixedBE(FromBE(s), |s|) == s
  {
    if s != [] {
      ToFixedFromBE(s[..|s| - 1]);
      assert s == s[..|s| - 1] + [s[|s| - 1]];
    }
  }

  lemma Pow256Of32()
    ensures Pow256(32) == TWO_TO_THE_256
  {
    assert Pow256(8) == 0x1_0000000000000000;
    assert Pow256(16) == 0x1_0000000000000000_0000000000000000;
    assert Pow256(24) == 0x1_0000000000000000_0000000000000000_0000000000000000;
  }

  lemma {:induction false} ToBELength(n: nat, w: nat)
    requires n < Pow256(w)
    ensures |ToBE(n)| <= w
  {
    if n != 0 {
      QuotientBelow(n, Pow256(w - 1));
      ToBELength(n / 256, w - 1);
    }
  }
}
