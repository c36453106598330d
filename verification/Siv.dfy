/** Synthetic initialisation vectors and AES-SIV as RFC 5297 defines them, for any
    CMAC function and any counter-mode keystream. */
module Siv {
  import opened SivBlock

  /** The primitives taken from outside: CMAC under a key, and byte `pos` of the
      counter-mode keystream for a key and an initial counter block. */
  datatype Crypto = Crypto(cmac: (Bytes, Bytes) -> Bytes, keystream: (Bytes, Bytes, nat) -> Byte)

  ghost predicate IsCrypto(c: Crypto) {
    forall k, m :: |c.cmac(k, m)| == BLOCK
  }

  const ZERO: Bytes := seq(BLOCK, _ => 0)

  // ----- section 2.4 of RFC 5297

  /** D after the components `s`, of which the string to be protected is not one. */
  function S2VState(c: Crypto, k: Bytes, s: seq<Bytes>): (d: Bytes)
    requires IsCrypto(c)
    ensures |d| == BLOCK
  {
    if s == [] then c.cmac(k, ZERO)
    else Xor(Dbl(S2VState(c, k, s[..|s| - 1])), c.cmac(k, s[|s| - 1]))
  }

  /** `a xorend b`: the last bytes of `a` are xored with `b`. */
  function XorEnd(a: Bytes, b: Bytes): (r: Bytes)
    requires |b| <= |a|
    ensures |r| == |a|
  {
    a[..|a| - |b|] + Xor(a[|a| - |b|..], b)
  }

  /** A one bit and zeros up to a block. */
  function Pad(a: Bytes): (r: Bytes)
    requires |a| < BLOCK
    ensures |r| == BLOCK
  {
    a + [0x80] + seq(BLOCK - |a| - 1, _ => 0)
  }

  /** S2V of the associated strings `s` and the string `p`. */
  function S2V(c: Crypto, k: Bytes, s: seq<Bytes>, p: Bytes): (v: Bytes)
    requires IsCrypto(c)
    ensures |v| == BLOCK
  {
    var d := S2VState(c, k, s);
    c.cmac(k, if |p| >= BLOCK then XorEnd(p, d) else Xor(Dbl(d), Pad(p)))
  }

  // ----- sections 2.5 to 2.7 of RFC 5297

  /** The counter block: the tag with two bits cleared. */
  function CounterBlock(v: Bytes): (q: Bytes)
    requires |v| == BLOCK
    ensures |q| == BLOCK
  {
    v[8 := v[8] & 0x7f][12 := v[12] & 0x7f]
  }

  /** Counter mode over a whole message. */
  function Ctr(c: Crypto, k: Bytes, q: Bytes, m: Bytes): (r: Bytes)
    ensures |r| == |m| && forall i :: 0 <= i < |m| ==> r[i] == m[i] ^ c.keystream(k, q, i)
  {
    seq(|m|, i requires 0 <= i < |m| => m[i] ^ c.keystream(k, q, i))
  }

  lemma CtrInverts(c: Crypto, k: Bytes, q: Bytes, m: Bytes)
    ensures Ctr(c, k, q, Ctr(c, k, q, m)) == m
  {
    forall i | 0 <= i < |m| ensures Ctr(c, k, q, Ctr(c, k, q, m))[i] == m[i] {
      XorTwice(m[i], c.keystream(k, q, i));
    }
  }

  lemma XorTwice(a: Byte, b: Byte)
    ensures (a ^ b) ^ b == a
  {
  }

  predicate KeyLength(n: nat) {
    n == 32 || n == 48 || n == 64
  }

  /** The halves of a key: for S2V, and for counter mode. */
  function MacKey(key: Bytes): Bytes { key[..|key| / 2] }

  function CtrKey(key: Bytes): Bytes { key[|key| / 2..] }

  /** SIV encryption: the tag, then the ciphertext. */
  function Seal(c: Crypto, key: Bytes, s: seq<Bytes>, p: Bytes): (z: Bytes)
    requires IsCrypto(c)
    ensures |z| == BLOCK + |p|
  {
    var v := S2V(c, MacKey(key), s, p);
    v + Ctr(c, CtrKey(key), CounterBlock(v), p)
  }

  /** The text a ciphertext with tag `v` decrypts to, genuine or not. */
  function Recovered(c: Crypto, key: Bytes, v: Bytes, z: Bytes): (p: Bytes)
    requires |v| == BLOCK
    ensures |p| == |z|
  {
    Ctr(c, CtrKey(key), CounterBlock(v), z)
  }

  /** The tag belongs to the text it decrypts to. */
  predicate Genuine(c: Crypto, key: Bytes, s: seq<Bytes>, v: Bytes, z: Bytes)
    requires IsCrypto(c) && |v| == BLOCK
  {
    S2V(c, MacKey(key), s, Recovered(c, key, v, z)) == v
  }

  /** A tag and ciphertext pass exactly when they are the sealing of the text they
      decrypt to; so exactly the results of sealing pass, and give back the text. */
  lemma GenuineIffSealed(c: Crypto, key: Bytes, s: seq<Bytes>, v: Bytes, z: Bytes, p: Bytes)
    requires IsCrypto(c) && |v| == BLOCK
    ensures Genuine(c, key, s, v, z) && Recovered(c, key, v, z) == p <==> Seal(c, key, s, p) == v + z
  {
    var q := CounterBlock(v);
    CtrInverts(c, CtrKey(key), q, z);
    CtrInverts(c, CtrKey(key), q, p);
    var t := S2V(c, MacKey(key), s, p);
    if Seal(c, key, s, p) == v + z {
      assert t == (v + z)[..BLOCK] == v;
      assert Ctr(c, CtrKey(key), CounterBlock(t), p) == (v + z)[BLOCK..] == z;
    }
  }

  /** What was sealed opens again, for every text. */
  lemma SealOpens(c: Crypto, key: Bytes, s: seq<Bytes>, p: Bytes)
    requires IsCrypto(c)
    ensures var z := Seal(c, key, s, p);
            Genuine(c, key, s, z[..BLOCK], z[BLOCK..]) && Recovered(c, key, z[..BLOCK], z[BLOCK..]) == p
  {
    var z := Seal(c, key, s, p);
    assert z == z[..BLOCK] + z[BLOCK..];
    GenuineIffSealed(c, key, s, z[..BLOCK], z[BLOCK..], p);
  }
}
