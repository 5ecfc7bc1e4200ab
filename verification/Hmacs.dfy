/** Keyed digests: shared/include/Poco/HMACEngine.h over any digest engine, against RFC 2104. */
module Hmacs {

  type bytes = seq<bv8>

  /** A hash function with its block and digest sizes; nothing else is known about it. */
  datatype Hash = Hash(h: bytes -> bytes, blockSize: nat, digestSize: nat)

  ghost predicate IsHash(hash: Hash) {
    hash.blockSize >= 1 && hash.digestSize >= 1 && forall m :: |hash.h(m)| == hash.digestSize
  }

  // ----- RFC 2104, section 2 -------------------------------------------------------------------

  function Zeros(n: nat): (z: bytes)
    ensures |z| == n
  {
    seq(n, _ => 0)
  }

  function Take(s: bytes, n: nat): bytes {
    if |s| <= n then s else s[..n]
  }

  /** Bytes of a string with the byte x. */
  function XorByte(s: bytes, x: bv8): (r: bytes)
    ensures |r| == |s| && forall i :: 0 <= i < |s| ==> r[i] == s[i] ^ x
  {
    seq(|s|, i requires 0 <= i < |s| => s[i] ^ x)
  }

  /** A key longer than a block is hashed first; zeros are appended to the length of a block. */
  function BlockKey(hash: Hash, key: bytes): (k: bytes)
    ensures |k| == hash.blockSize
  {
    var k := Take(if |key| > hash.blockSize then hash.h(key) else key, hash.blockSize);
    k + Zeros(hash.blockSize - |k|)
  }

  function Hmac(hash: Hash, key: bytes, text: bytes): bytes {
    var k := BlockKey(hash, key);
    hash.h(XorByte(k, 0x5c) + hash.h(XorByte(k, 0x36) + text))
  }

  // ----- a digest engine -----------------------------------------------------------------------

  class DigestEngine {
    const hash: Hash
    var message: bytes

    constructor (hash: Hash)
      ensures this.hash == hash && message == []
    {
      this.hash, message := hash, [];
    }

    method Reset()
      modifies this
      ensures message == []
    {
      message := [];
    }

    method Update(data: bytes)
      modifies this
      ensures message == old(message) + data
    {
      message := message + data;
    }

    /** Finishes the computation and resets the engine. */
    method Digest() returns (d: bytes)
      modifies this
      ensures d == hash.h(old(message)) && message == []
    {
      d := hash.h(message);
      message := [];
    }
  }

  class HmacEngine {
    const engine: DigestEngine
    const ipad: array<bv8>
    const opad: array<bv8>
    ghost const key: bytes
    ghost var text: bytes

    ghost predicate Keyed()
      reads ipad, opad
    {
      IsHash(engine.hash) &&
      ipad[..] == XorByte(BlockKey(engine.hash, key), 0x36) &&
      opad[..] == XorByte(BlockKey(engine.hash, key), 0x5c)
    }

    /** The engine has taken the inner pad and then the text since the last digest. */
    ghost predicate Valid()
      reads this, engine, ipad, opad
    {
      Keyed() && engine.message == ipad[..] + text
    }

    constructor (hash: Hash, passphrase: bytes)
      requires IsHash(hash)
      ensures Valid() && engine.hash == hash && key == passphrase && text == []
      ensures fresh(engine) && fresh(ipad) && fresh(opad)
    {
      engine := new DigestEngine(hash);
      ipad := new bv8[hash.blockSize](_ => 0);
      opad := new bv8[hash.blockSize](_ => 0);
      key := passphrase;
      text := [];
      new;
      Init(passphrase);
    }

    method Init(passphrase: bytes)
      requires IsHash(engine.hash) && passphrase == key && text == []
      requires ipad != opad && ipad[..] == opad[..] == Zeros(engine.hash.blockSize)
      modifies engine, ipad, opad
      ensures Valid()
    {
      hide Zeros, XorByte;
      var material := passphrase;
      if |passphrase| > engine.hash.blockSize {
        engine.Reset();
        engine.Update(passphrase);
        assert [] + passphrase == passphrase;
        material := engine.Digest();
      }
      CopyKey(ipad, Take(material, engine.hash.blockSize));
      CopyKey(opad, Take(material, engine.hash.blockSize));
      XorPad(ipad, 0x36);
      XorPad(opad, 0x5c);
      engine.Reset();
      engine.Update(ipad[..]);
      assert [] + ipad[..] == ipad[..] + [];
    }

    method Reset()
      requires Keyed()
      modifies this, engine
      ensures Valid() && text == []
    {
      engine.Reset();
      engine.Update(ipad[..]);
      text := [];
      assert [] + ipad[..] == ipad[..] + [];
    }

    method Update(data: bytes)
      requires Valid()
      modifies this, engine
      ensures Valid() && text == old(text) + data
    {
      engine.Update(data);
      assert ipad[..] + text + data == ipad[..] + (text + data);
      text := text + data;
    }

    /** The digest of everything since the last one; the engine is ready for the next message. */
    method Digest() returns (d: bytes)
      requires Valid()
      modifies this, engine
      ensures d == Hmac(engine.hash, key, old(text))
      ensures Valid() && text == []
    {
      var inner := engine.Digest();
      engine.Reset();
      engine.Update(opad[..]);
      engine.Update(inner);
      assert [] + opad[..] + inner == opad[..] + inner;
      d := engine.Digest();
      Reset();
    }
  }

  /** Key material over the zeros of a pad. */
  method CopyKey(pad: array<bv8>, material: bytes)
    requires |material| <= pad.Length && pad[..] == Zeros(pad.Length)
    modifies pad
    ensures pad[..] == material + Zeros(pad.Length - |material|)
  {
    var n := 0;
    while n < |material|
      invariant n <= |material|
      invariant forall i :: 0 <= i < pad.Length ==> pad[i] == if i < n then material[i] else 0
    {
      pad[n] := material[n];
      n := n + 1;
    }
  }

  method XorPad(pad: array<bv8>, x: bv8)
    modifies pad
    ensures pad[..] == XorByte(old(pad[..]), x)
  {
    var i := 0;
    while i < pad.Length
      invariant i <= pad.Length
      invariant forall j :: 0 <= j < pad.Length ==> pad[j] == if j < i then old(pad[j]) ^ x else old(pad[j])
    {
      pad[i] := pad[i] ^ x;
      i := i + 1;
    }
  }

  // ----- equivalent keys -----------------------------------------------------------------------

  /** A key longer than a block and its digest are the same key when the digest fits a block. */
  lemma LongKeyIsItsDigest(hash: Hash, key: bytes, text: bytes)
    requires IsHash(hash) && |key| > hash.blockSize && hash.digestSize <= hash.blockSize
    ensures Hmac(hash, key, text) == Hmac(hash, hash.h(key), text)
  {
    assert BlockKey(hash, key) == BlockKey(hash, hash.h(key));
  }

  /** Trailing zeros of a short key do not matter. */
  lemma ZeroPaddedKey(hash: Hash, key: bytes, n: nat, text: bytes)
    requires |key| + n <= hash.blockSize
    ensures Hmac(hash, key, text) == Hmac(hash, key + Zeros(n), text)
  {
    assert BlockKey(hash, key) == BlockKey(hash, key + Zeros(n));
  }

  // ----- the formula spelled out ---------------------------------------------------------------

  /** Section 2 of RFC 2104 byte by byte: with B the block size, the inner pad has the byte 0x36 and the outer
      pad the byte 0x5C repeated B times, each combined with the key that is hashed when it is longer than B
      and then filled with zeros; the text is hashed behind the inner pad, and the result behind the outer. */
  lemma Rfc2104(hash: Hash, key: bytes, text: bytes, material: bytes, ipad: bytes, opad: bytes)
    requires IsHash(hash) && |ipad| == |opad| == hash.blockSize
    requires material == if |key| > hash.blockSize then hash.h(key) else key
    requires forall i :: 0 <= i < hash.blockSize ==>
      ipad[i] == (if i < |material| then material[i] else 0) ^ 0x36 &&
      opad[i] == (if i < |material| then material[i] else 0) ^ 0x5C
    ensures Hmac(hash, key, text) == hash.h(opad + hash.h(ipad + text))
  {
    var k := BlockKey(hash, key);
    assert XorByte(k, 0x36) == ipad;
    assert XorByte(k, 0x5c) == opad;
  }
}
