/** The context of libaes_siv/aes_siv.c: S2V computed incrementally, counter mode in
    chunks, and one-shot encryption and decryption into caller-supplied buffers. */
module SivContext {
  import opened SivBlock
  import opened Siv

  /** A CMAC computation: its key and what it has been fed so far. */
  datatype Mac = Mac(key: Bytes, fed: Bytes) {
    function Update(data: Bytes): Mac { Mac(key, fed + data) }
    function Final(c: Crypto): Bytes { c.cmac(key, fed) }
  }

  /** A counter-mode cipher: key, initial counter block and position in the keystream. */
  datatype Cipher = Cipher(key: Bytes, iv: Bytes, pos: nat)

  class Context {
    const c: Crypto
    var d: Bytes
    var cipher: Cipher
    var macInit: Mac
    var mac: Mac

    constructor (c: Crypto)
      ensures this.c == c
    {
      this.c := c;
      d, cipher, macInit, mac := ZERO, Cipher([], [], 0), Mac([], []), Mac([], []);
    }

    /** The context was set up with `key` and has taken the strings `s`. */
    ghost predicate Keyed(key: Bytes, s: seq<Bytes>)
      reads this
    {
      IsCrypto(c) && macInit == Mac(MacKey(key), []) && cipher.key == CtrKey(key) &&
      d == S2VState(c, MacKey(key), s)
    }

    /** AES_SIV_Init */
    method Init(key: Bytes) returns (ok: bool)
      requires IsCrypto(c)
      modifies this
      ensures ok <==> KeyLength(|key|)
      ensures ok ==> Keyed(key, [])
      ensures !ok ==> d == old(d) && cipher == old(cipher) && macInit == old(macInit) && mac == old(mac)
    {
      if |key| == 32 {
        macInit := Mac(key[..16], []);
        cipher := Cipher(key[16..], [], 0);
      } else if |key| == 48 {
        macInit := Mac(key[..24], []);
        cipher := Cipher(key[24..], [], 0);
      } else if |key| == 64 {
        macInit := Mac(key[..32], []);
        cipher := Cipher(key[32..], [], 0);
      } else {
        return false;
      }
      mac := macInit;
      mac := mac.Update(ZERO);
      assert [] + ZERO == ZERO;
      d := mac.Final(c);
      return true;
    }

    /** AES_SIV_AssociateData */
    method AssociateData(data: Bytes, ghost key: Bytes, ghost s: seq<Bytes>, ghost s': seq<Bytes>)
      requires Keyed(key, s) && s' == s + [data]
      modifies this`d, this`mac
      ensures Keyed(key, s')
    {
      d := Dbl(d);
      mac := macInit;
      mac := mac.Update(data);
      assert [] + data == data;
      var macOut := mac.Final(c);
      d := Xor(d, macOut);
      assert s'[..|s|] == s;
    }

    /** The end of do_s2v_p for a text of at least a block: `d` is xored onto its end. */
    method FeedEnd(p: Bytes)
      requires |p| >= BLOCK && |d| == BLOCK && macInit.fed == []
      modifies this`mac
      ensures mac == Mac(macInit.key, XorEnd(p, d))
    {
      mac := macInit;
      mac := mac.Update(p[..|p| - BLOCK]);
      var t := p[|p| - BLOCK..];
      t := Xor(t, d);
      mac := mac.Update(t);
      assert mac.fed == XorEnd(p, d);
    }

    /** The end of do_s2v_p for a shorter text: it is padded, and `d` is doubled on the way. */
    method FeedPadded(p: Bytes)
      requires |p| < BLOCK && |d| == BLOCK && macInit.fed == []
      modifies this`d, this`mac
      ensures d == Dbl(old(d)) && mac == Mac(macInit.key, Xor(d, Pad(p)))
    {
      mac := macInit;
      var t := PadBlock(p);
      d := Dbl(d);
      FeedXor(t);
    }

    /** Feed a block xored with `d`. */
    method FeedXor(t: Bytes)
      requires |t| == |d| && mac.fed == []
      modifies this`mac
      ensures mac == Mac(old(mac.key), Xor(d, t))
    {
      XorCommutes(t, d);
      var x := Xor(t, d);
      mac := mac.Update(x);
      assert [] + x == x;
    }

    /** do_s2v_p */
    method S2VOf(p: Bytes, ghost key: Bytes, ghost s: seq<Bytes>) returns (v: Bytes)
      requires Keyed(key, s)
      modifies this`d, this`mac
      ensures v == S2V(c, MacKey(key), s, p)
      ensures d == if |p| < BLOCK then Dbl(old(d)) else old(d)
    {
      if |p| >= BLOCK {
        FeedEnd(p);
      } else {
        FeedPadded(p);
      }
      v := mac.Final(c);
    }

    /** EVP_EncryptUpdate in counter mode: the keystream goes on where it stopped. */
    method CipherUpdate(out: array<Byte>, at: nat, input: Bytes)
      requires at + |input| <= out.Length
      modifies this`cipher, out
      ensures cipher == old(cipher).(pos := old(cipher.pos) + |input|)
      ensures forall i :: 0 <= i < |input| ==> out[at + i] == input[i] ^ c.keystream(cipher.key, cipher.iv, old(cipher.pos) + i)
      ensures forall i :: 0 <= i < out.Length && !(at <= i < at + |input|) ==> out[i] == old(out[i])
    {
      for i := 0 to |input|
        invariant forall j :: 0 <= j < i ==> out[at + j] == input[j] ^ c.keystream(cipher.key, cipher.iv, cipher.pos + j)
        invariant forall j :: 0 <= j < out.Length && !(at <= j < at + i) ==> out[j] == old(out[j])
        invariant cipher == old(cipher)
      {
        out[at + i] := input[i] ^ c.keystream(cipher.key, cipher.iv, cipher.pos + i);
      }
      cipher := cipher.(pos := cipher.pos + |input|);
    }

    /** do_encrypt: the message goes through the cipher in chunks. */
    method Encrypt(out: array<Byte>, at: nat, input: Bytes, icv: Bytes, chunk: nat)
      requires chunk > 0 && at + |input| <= out.Length
      modifies this`cipher, out
      ensures cipher.key == old(cipher.key)
      ensures out[at..at + |input|] == Ctr(c, cipher.key, icv, input)
      ensures forall i :: 0 <= i < out.Length && !(at <= i < at + |input|) ==> out[i] == old(out[i])
    {
      cipher := cipher.(iv := icv, pos := 0);
      var done := 0;
      while |input| - done > chunk
        invariant 0 <= done <= |input|
        invariant cipher == old(cipher).(iv := icv, pos := done)
        invariant forall i :: 0 <= i < done ==> out[at + i] == input[i] ^ c.keystream(cipher.key, icv, i)
        invariant forall i :: 0 <= i < out.Length && !(at <= i < at + |input|) ==> out[i] == old(out[i])
      {
        EncryptChunk(out, at, input, icv, done, chunk);
        done := done + chunk;
      }
      EncryptChunk(out, at, input, icv, done, |input| - done);
    }

    /** One chunk of `n` bytes after the first `done`. */
    method EncryptChunk(out: array<Byte>, at: nat, input: Bytes, icv: Bytes, done: nat, n: nat)
      requires at + |input| <= out.Length && done + n <= |input|
      requires cipher.iv == icv && cipher.pos == done
      requires forall i :: 0 <= i < done ==> out[at + i] == input[i] ^ c.keystream(cipher.key, icv, i)
      modifies this`cipher, out
      ensures cipher == old(cipher).(pos := done + n)
      ensures forall i :: 0 <= i < done + n ==> out[at + i] == input[i] ^ c.keystream(cipher.key, icv, i)
      ensures forall i :: 0 <= i < out.Length && !(at <= i < at + |input|) ==> out[i] == old(out[i])
    {
      CipherUpdate(out, at + done, input[done..done + n]);
      forall i | 0 <= i < done + n ensures out[at + i] == input[i] ^ c.keystream(cipher.key, icv, i) {
        if i >= done {
          assert out[at + done + (i - done)] == input[done..done + n][i - done] ^ c.keystream(cipher.key, icv, done + (i - done));
        }
      }
    }

    /** Store the tag, then the text encrypted from the counter block it gives. */
    method Emit(vOut: array<Byte>, vAt: nat, cOut: array<Byte>, cAt: nat, v: Bytes, p: Bytes, chunk: nat)
      requires chunk > 0 && |v| == BLOCK && vAt + BLOCK <= vOut.Length && cAt + |p| <= cOut.Length
      modifies this`cipher, vOut, cOut
      ensures cOut[cAt..cAt + |p|] == Ctr(c, old(cipher.key), CounterBlock(v), p)
      ensures Apart(vOut, vAt, cOut, cAt, |p|) ==> vOut[vAt..vAt + BLOCK] == v
      ensures forall i :: 0 <= i < vOut.Length && !(vAt <= i < vAt + BLOCK) && !(vOut == cOut && cAt <= i < cAt + |p|) ==>
                            vOut[i] == old(vOut[i])
      ensures forall i :: 0 <= i < cOut.Length && !(cAt <= i < cAt + |p|) && !(vOut == cOut && vAt <= i < vAt + BLOCK) ==>
                            cOut[i] == old(cOut[i])
    {
      CopyOut(vOut, vAt, v);
      ghost var tag := vOut[vAt..vAt + BLOCK];
      var q := ClearBits(v);
      Encrypt(cOut, cAt, p, q, chunk);
      if Apart(vOut, vAt, cOut, cAt, |p|) {
        assert vOut[vAt..vAt + BLOCK] == tag;
      }
    }

    /** AES_SIV_EncryptFinal: the tag goes to `vAt` in one buffer, the ciphertext to `cAt` in the
        same or another. Wherever they are, the ciphertext is right, and the tag too unless they overlap. */
    method EncryptFinal(vOut: array<Byte>, vAt: nat, cOut: array<Byte>, cAt: nat, p: Bytes, chunk: nat,
                        ghost key: Bytes, ghost s: seq<Bytes>)
      requires Keyed(key, s) && chunk > 0 && vAt + BLOCK <= vOut.Length && cAt + |p| <= cOut.Length
      modifies this`d, this`mac, this`cipher, vOut, cOut
      ensures cOut[cAt..cAt + |p|] == Seal(c, key, s, p)[BLOCK..]
      ensures Apart(vOut, vAt, cOut, cAt, |p|) ==> vOut[vAt..vAt + BLOCK] == Seal(c, key, s, p)[..BLOCK]
      ensures forall i :: 0 <= i < vOut.Length && !(vAt <= i < vAt + BLOCK) && !(vOut == cOut && cAt <= i < cAt + |p|) ==>
                            vOut[i] == old(vOut[i])
      ensures forall i :: 0 <= i < cOut.Length && !(cAt <= i < cAt + |p|) && !(vOut == cOut && vAt <= i < vAt + BLOCK) ==>
                            cOut[i] == old(cOut[i])
    {
      var v := S2VOf(p, key, s);
      Emit(vOut, vAt, cOut, cAt, v, p, chunk);
    }

    /** AES_SIV_DecryptFinal: accepts just the genuine tags; otherwise the output is cleared. */
    method DecryptFinal(out: array<Byte>, v: Bytes, z: Bytes, chunk: nat, ghost key: Bytes, ghost s: seq<Bytes>) returns (ok: bool)
      requires Keyed(key, s) && chunk > 0 && |v| == BLOCK && |z| <= out.Length
      modifies this`d, this`mac, this`cipher, out
      ensures ok <==> Genuine(c, key, s, v, z)
      ensures ok ==> out[..|z|] == Recovered(c, key, v, z)
      ensures !ok ==> forall i :: 0 <= i < |z| ==> out[i] == 0
      ensures forall i :: |z| <= i < out.Length ==> out[i] == old(out[i])
    {
      var q := ClearBits(v);
      Encrypt(out, 0, z, q, chunk);
      assert out[..|z|] == out[0..0 + |z|];
      var t := S2VOf(out[..|z|], key, s);
      ok := SameBlock(t, v);
      if !ok {
        Cleanse(out, |z|);
      }
    }

    /** The setting up that AES_SIV_Encrypt and AES_SIV_Decrypt share. */
    method SetUp(key: Bytes, nonce: Nonce, ad: Bytes) returns (ok: bool)
      requires IsCrypto(c)
      modifies this
      ensures ok <==> KeyLength(|key|)
      ensures ok ==> Keyed(key, Associated(ad, nonce))
    {
      ok := Init(key);
      if !ok {
        return;
      }
      AssociateData(ad, key, [], [ad]);
      if nonce.Nonce? {
        AssociateData(nonce.bytes, key, [ad], [ad, nonce.bytes]);
      }
    }

    /** AES_SIV_Encrypt. `outLen` is how much room there is and becomes how much was used. */
    method SivEncrypt(out: array<Byte>, outLen: nat, key: Bytes, nonce: Nonce, p: Bytes, ad: Bytes, chunk: nat)
      returns (ok: bool, used: nat)
      requires IsCrypto(c) && chunk > 0 && outLen <= out.Length
      modifies this, out
      ensures ok <==> |p| + BLOCK <= outLen && KeyLength(|key|)
      ensures used == if |p| + BLOCK <= outLen then |p| + BLOCK else outLen
      ensures ok ==> out[..used] == Seal(c, key, Associated(ad, nonce), p)
      ensures forall i :: 0 <= i < out.Length && (!ok || used <= i) ==> out[i] == old(out[i])
    {
      if outLen < |p| + BLOCK {
        return false, outLen;
      }
      used := |p| + BLOCK;
      ok := SetUp(key, nonce, ad);
      if !ok {
        return;
      }
      EncryptFinal(out, 0, out, BLOCK, p, chunk, key, Associated(ad, nonce));
      assert out[..used] == out[0..0 + BLOCK] + out[BLOCK..BLOCK + |p|];
    }

    /** AES_SIV_Decrypt */
    method SivDecrypt(out: array<Byte>, outLen: nat, key: Bytes, nonce: Nonce, z: Bytes, ad: Bytes, chunk: nat)
      returns (ok: bool, used: nat)
      requires IsCrypto(c) && chunk > 0 && outLen <= out.Length
      modifies this, out
      ensures ok <==> BLOCK <= |z| <= outLen + BLOCK && KeyLength(|key|) &&
                      Genuine(c, key, Associated(ad, nonce), z[..BLOCK], z[BLOCK..])
      ensures used == if BLOCK <= |z| <= outLen + BLOCK then |z| - BLOCK else outLen
      ensures ok ==> out[..used] == Recovered(c, key, z[..BLOCK], z[BLOCK..])
      ensures !ok && BLOCK <= |z| <= outLen + BLOCK && KeyLength(|key|) ==> forall i :: 0 <= i < used ==> out[i] == 0
      ensures !(BLOCK <= |z| <= outLen + BLOCK && KeyLength(|key|)) ==> out[..] == old(out[..])
      ensures forall i :: used <= i < out.Length ==> out[i] == old(out[i])
    {
      if |z| < BLOCK {
        return false, outLen;
      }
      if outLen < |z| - BLOCK {
        return false, outLen;
      }
      used := |z| - BLOCK;
      ok := SetUp(key, nonce, ad);
      if !ok {
        return;
      }
      ok := DecryptFinal(out, z[..BLOCK], z[BLOCK..], chunk, key, Associated(ad, nonce));
    }
  }

  /** A tag at `vAt` in `vOut` and `n` bytes at `cAt` in `cOut` share no byte. */
  predicate Apart(vOut: array<Byte>, vAt: nat, cOut: array<Byte>, cAt: nat, n: nat) {
    vOut != cOut || vAt + BLOCK <= cAt || cAt + n <= vAt
  }

  method CopyOut(out: array<Byte>, at: nat, v: Bytes)
    requires at + |v| <= out.Length
    modifies out
    ensures out[at..at + |v|] == v
    ensures forall j :: 0 <= j < out.Length && !(at <= j < at + |v|) ==> out[j] == old(out[j])
  {
    for i := 0 to |v|
      invariant forall j :: 0 <= j < i ==> out[at + j] == v[j]
      invariant forall j :: 0 <= j < out.Length && !(at <= j < at + i) ==> out[j] == old(out[j])
    {
      out[at + i] := v[i];
    }
  }

  /** The counter block from the tag. */
  method ClearBits(v: Bytes) returns (q: Bytes)
    requires |v| == BLOCK
    ensures q == CounterBlock(v)
  {
    q := v;
    q := q[8 := q[8] & 0x7f];
    q := q[12 := q[12] & 0x7f];
  }

  /** OPENSSL_cleanse */
  method Cleanse(out: array<Byte>, n: nat)
    requires n <= out.Length
    modifies out
    ensures forall j :: 0 <= j < n ==> out[j] == 0
    ensures forall j :: n <= j < out.Length ==> out[j] == old(out[j])
  {
    for i := 0 to n
      invariant forall j :: 0 <= j < i ==> out[j] == 0
      invariant forall j :: n <= j < out.Length ==> out[j] == old(out[j])
    {
      out[i] := 0;
    }
  }

  /** The comparison that ends decryption: xor byte by byte, then both words or-ed together. */
  method SameBlock(t: Bytes, v: Bytes) returns (same: bool)
    requires |t| == |v| == BLOCK
    ensures same <==> t == v
  {
    var x := t;
    for i := 0 to BLOCK
      invariant |x| == BLOCK
      invariant forall j :: 0 <= j < i ==> x[j] == t[j] ^ v[j]
      invariant forall j :: i <= j < BLOCK ==> x[j] == t[j]
    {
      x := x[i := x[i] ^ v[i]];
    }
    var result := GetWord(x, 0) | GetWord(x, 1);
    ZeroWords(x);
    forall j | 0 <= j < BLOCK ensures x[j] == 0 <==> t[j] == v[j] { XorZeroIff(t[j], v[j]); }
    same := result == 0;
  }

  lemma XorZeroIff(a: Byte, b: Byte)
    ensures a ^ b == 0 <==> a == b
  {
  }

  datatype Nonce = NoNonce | Nonce(bytes: Bytes)

  /** The strings a one-shot call associates: the additional data, then the nonce if there is one. */
  function Associated(ad: Bytes, nonce: Nonce): seq<Bytes> {
    match nonce
    case NoNonce => [ad]
    case Nonce(n) => [ad, n]
  }

  /** The pad of do_s2v_p, byte by byte. */
  method PadBlock(p: Bytes) returns (t: Bytes)
    requires |p| < BLOCK
    ensures t == Pad(p)
  {
    t := p + [0x80];
    var i := |p| + 1;
    while i < BLOCK
      invariant |p| + 1 <= i <= BLOCK
      invariant t == p + [0x80] + seq(i - |p| - 1, _ => 0)
    {
      t := t + [0];
      i := i + 1;
    }
  }

  lemma XorCommutes(a: Bytes, b: Bytes)
    requires |a| == |b|
    ensures Xor(a, b) == Xor(b, a)
  {
    forall i | 0 <= i < |a| ensures Xor(a, b)[i] == Xor(b, a)[i] { ByteXorCommutes(a[i], b[i]); }
  }

  lemma ByteXorCommutes(a: Byte, b: Byte)
    ensures a ^ b == b ^ a
  {
  }
}
