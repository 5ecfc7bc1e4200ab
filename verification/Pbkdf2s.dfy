/** Key derivation: shared/include/Poco/PBKDF2Engine.h with HMAC, against RFC 2898. */
module Pbkdf2s {
  import opened Hmacs

  // ----- RFC 2898, section 5.2 -----------------------------------------------------------------

  /** INT(i): four octets, most significant first. */
  function Int32(i: nat): bytes
    requires i < 0x1_0000_0000
  {
    [(i / 0x100_0000) as bv8, (i / 0x1_0000 % 256) as bv8, (i / 0x100 % 256) as bv8, (i % 256) as bv8]
  }

  function Xor(a: bytes, b: bytes): (r: bytes)
    requires |a| == |b|
    ensures |r| == |a| && forall k :: 0 <= k < |a| ==> r[k] == a[k] ^ b[k]
  {
    seq(|a|, k requires 0 <= k < |a| => a[k] ^ b[k])
  }

  /** U_k for block i. */
  ghost function U(hash: Hash, p: bytes, s: bytes, i: nat, k: nat): (u: bytes)
    requires IsHash(hash) && 1 <= i < 0x1_0000_0000 && k >= 1
    ensures |u| == hash.digestSize
  {
    if k == 1 then Hmac(hash, p, s + Int32(i)) else Hmac(hash, p, U(hash, p, s, i, k - 1))
  }

  /** F(P, S, c, i): the exclusive or of U_1 to U_c. */
  ghost function F(hash: Hash, p: bytes, s: bytes, c: nat, i: nat): (t: bytes)
    requires IsHash(hash) && 1 <= i < 0x1_0000_0000 && c >= 1
    ensures |t| == hash.digestSize
  {
    if c == 1 then U(hash, p, s, i, 1) else Xor(F(hash, p, s, c - 1, i), U(hash, p, s, i, c))
  }

  /** The first n octets of T_i || T_(i+1) || ... */
  ghost function DerivedFrom(hash: Hash, p: bytes, s: bytes, c: nat, i: nat, n: nat): (dk: bytes)
    requires IsHash(hash) && c >= 1 && 1 <= i && i + n <= 0x1_0000_0000
    ensures |dk| == n
    decreases n
  {
    if n == 0 then []
    else if n <= hash.digestSize then F(hash, p, s, c, i)[..n]
    else F(hash, p, s, c, i) + DerivedFrom(hash, p, s, c, i + 1, n - hash.digestSize)
  }

  ghost function DerivedKey(hash: Hash, p: bytes, s: bytes, c: nat, dkLen: nat): bytes
    requires IsHash(hash) && c >= 1 && dkLen < 0x1_0000_0000
  {
    DerivedFrom(hash, p, s, c, 1, dkLen)
  }

  /** A shorter key is a prefix of a longer one. */
  lemma {:induction false} DerivedPrefix(hash: Hash, p: bytes, s: bytes, c: nat, i: nat, m: nat, n: nat)
    requires IsHash(hash) && c >= 1 && 1 <= i && m <= n && i + n <= 0x1_0000_0000
    ensures DerivedFrom(hash, p, s, c, i, n)[..m] == DerivedFrom(hash, p, s, c, i, m)
    decreases n
  {
    hide Hmac, U, F;
    if m <= hash.digestSize {
    } else {
      DerivedPrefix(hash, p, s, c, i + 1, m - hash.digestSize, n - hash.digestSize);
    }
  }

  // ----- the engine ----------------------------------------------------------------------------

  /** An iteration count of 0 works like 1: the first U is always computed. */
  function Iterations(c: nat): nat {
    if c == 0 then 1 else c
  }

  class Pbkdf2Engine {
    const hash: Hash
    const s: bytes
    const c: nat
    const dkLen: nat
    var p: bytes
    var result: bytes

    ghost predicate Valid()
      reads this
    {
      IsHash(hash) && dkLen < 0x1_0000_0000 && (result == [] || |result| == dkLen)
    }

    constructor (hash: Hash, salt: bytes, c: nat, dkLen: nat)
      requires IsHash(hash) && dkLen < 0x1_0000_0000
      ensures Valid() && p == [] && result == []
      ensures this.hash == hash && s == salt && this.c == c && this.dkLen == dkLen
    {
      this.hash, s, this.c, this.dkLen := hash, salt, c, dkLen;
      p, result := [], [];
    }

    method Reset()
      requires Valid()
      modifies this
      ensures Valid() && p == [] && result == []
    {
      p, result := [], [];
    }

    method Update(data: bytes)
      requires Valid()
      modifies this`p
      ensures Valid() && p == old(p) + data
    {
      p := p + data;
    }

    /** One block: the loop over the iterations. */
    method Block(i: nat) returns (t: bytes)
      requires IsHash(hash) && 1 <= i < 0x1_0000_0000
      ensures t == F(hash, p, s, Iterations(c), i)
    {
      hide Hmac, BlockKey, XorByte;
      var prf := new HmacEngine(hash, p);
      prf.Update(s);
      prf.Update(Int32(i));
      assert [] + s + Int32(i) == s + Int32(i);
      var up := prf.Digest();
      var ux := up;
      var k := 1;
      while k < c
        invariant 1 <= k <= Iterations(c)
        invariant prf.Valid() && prf.engine.hash == hash && prf.key == p && fresh(prf) && fresh(prf.engine)
        invariant up == U(hash, p, s, i, k) && ux == F(hash, p, s, k, i)
      {
        var u := Next(prf, up);
        assert u == U(hash, p, s, i, k + 1);
        ux := XorInto(ux, u);
        up := u;
        k := k + 1;
      }
      t := ux;
    }

    /** The derived key of the passphrase so far. The result is kept and only reset() drops it, so that
        without a reset every later digest is the first one again. */
    method Digest() returns (d: bytes)
      requires Valid()
      modifies this`result
      ensures Valid() && result == d && |d| == dkLen
      ensures d == if old(result) == [] then DerivedKey(hash, p, s, Iterations(c), dkLen) else old(result)
    {
      if |result| < dkLen {
        AppendBlocks();
      } else {
        assert DerivedKey(hash, p, s, Iterations(c), 0) == [];
      }
      result := result[..dkLen];
      d := result;
    }

    /** The loop over the blocks, which ends with the first block that completes the length. */
    method AppendBlocks()
      requires Valid() && |result| < dkLen
      modifies this`result
      ensures |result| >= dkLen && result[..dkLen] == DerivedKey(hash, p, s, Iterations(c), dkLen)
    {
      hide F, Hmac;
      var i := 1;
      ghost var rest := DerivedKey(hash, p, s, Iterations(c), dkLen);
      while |result| < dkLen
        invariant 1 <= i && i - 1 <= |result|
        invariant if |result| < dkLen
          then i + (dkLen - |result|) <= 0x1_0000_0000 &&
               rest == DerivedFrom(hash, p, s, Iterations(c), i, dkLen - |result|) &&
               result + rest == DerivedKey(hash, p, s, Iterations(c), dkLen)
          else result[..dkLen] == DerivedKey(hash, p, s, Iterations(c), dkLen)
        decreases dkLen - |result|
      {
        var t := Block(i);
        TakeBlock(result, t, rest, dkLen);
        if dkLen - |result| > |t| {
          rest := rest[|t|..];
        }
        result := result + t;
        i := i + 1;
      }
    }
  }

  /** Appending a block to what is there: it completes the key, or the key goes on behind it. */
  lemma TakeBlock(result: bytes, t: bytes, rest: bytes, length: nat)
    requires |result| < length && |rest| == length - |result|
    requires if |rest| <= |t| then rest == t[..|rest|] else rest[..|t|] == t
    ensures |rest| <= |t| ==> (result + t)[..length] == result + rest
    ensures |rest| > |t| ==> result + rest == (result + t) + rest[|t|..]
  {
  }

  /** The next U: the HMAC of the one before. */
  method Next(prf: HmacEngine, up: bytes) returns (u: bytes)
    requires prf.Valid()
    modifies prf, prf.engine
    ensures prf.Valid() && u == Hmac(prf.engine.hash, prf.key, up)
  {
    hide Hmac;
    prf.Reset();
    prf.Update(up);
    assert [] + up == up;
    u := prf.Digest();
  }

  /** The inner loop: the accumulator is updated octet by octet. */
  method XorInto(ux: bytes, u: bytes) returns (r: bytes)
    requires |ux| == |u|
    ensures r == Xor(ux, u)
  {
    var a := new bv8[|ux|](i requires 0 <= i < |ux| => ux[i]);
    var ui := 0;
    while ui < |u|
      invariant ui <= |u|
      invariant forall k :: 0 <= k < |u| ==> a[k] == if k < ui then ux[k] ^ u[k] else ux[k]
    {
      a[ui] := a[ui] ^ u[ui];
      ui := ui + 1;
    }
    r := a[..];
  }

  /** After a digest, further input has no effect on the next one, whatever key it would derive. */
  method SecondDigestIsStale(hash: Hash, salt: bytes, c: nat, dkLen: nat, p: bytes, more: bytes)
      returns (first: bytes, second: bytes)
    requires IsHash(hash) && 0 < dkLen < 0x1_0000_0000
    ensures first == DerivedKey(hash, p, salt, Iterations(c), dkLen) && second == first
  {
    hide DerivedKey;
    var engine := new Pbkdf2Engine(hash, salt, c, dkLen);
    engine.Update(p);
    assert [] + p == p;
    first := engine.Digest();
    engine.Update(more);
    second := engine.Digest();
  }

  // ----- the formulas spelled out --------------------------------------------------------------

  function Octet(x: bv8): (n: nat)
    ensures n < 256
  {
    x as int
  }

  /** The number that octets stand for, the most significant first. */
  function BigEndian(octets: bytes): nat {
    if octets == [] then 0 else 256 * BigEndian(octets[..|octets| - 1]) + Octet(octets[|octets| - 1])
  }

  lemma BigEndianAppend(s: bytes, x: bv8)
    ensures BigEndian(s + [x]) == 256 * BigEndian(s) + Octet(x)
  {
    assert (s + [x])[..|s|] == s;
  }

  lemma BigEndianOfFour(a: bv8, b: bv8, c: bv8, d: bv8)
    ensures BigEndian([a, b, c, d]) == 0x100_0000 * Octet(a) + 0x1_0000 * Octet(b) + 0x100 * Octet(c) + Octet(d)
  {
    hide BigEndian, Octet;
    assert BigEndian([]) == 0 by { NoOctets(); }
    BigEndianAppend([], a);
    BigEndianAppend([a], b);
    BigEndianAppend([a, b], c);
    BigEndianAppend([a, b, c], d);
    assert [] + [a] == [a] && [a] + [b] == [a, b] && [a, b] + [c] == [a, b, c] && [a, b, c] + [d] == [a, b, c, d];
  }

  lemma NoOctets()
    ensures BigEndian([]) == 0
  {
  }

  lemma SameOctet(x: bv8, y: bv8)
    requires Octet(x) == Octet(y)
    ensures x == y
  {
  }

  lemma {:induction false} BigEndianInjective(a: bytes, b: bytes)
    requires |a| == |b| && BigEndian(a) == BigEndian(b)
    ensures a == b
  {
    hide Octet;
    if a == [] {
    } else {
      var x, y := a[|a| - 1], b[|b| - 1];
      SplitLast(BigEndian(a[..|a| - 1]), Octet(x), BigEndian(b[..|b| - 1]), Octet(y));
      SameOctet(x, y);
      BigEndianInjective(a[..|a| - 1], b[..|b| - 1]);
      assert a == a[..|a| - 1] + [x] && b == b[..|b| - 1] + [y];
    }
  }

  lemma SplitLast(m: nat, x: nat, n: nat, y: nat)
    requires x < 256 && y < 256 && 256 * m + x == 256 * n + y
    ensures m == n && x == y
  {
  }

  lemma NextOctet(x: bv8)
    requires Octet(x) < 255
    ensures Octet(x + 1) == Octet(x) + 1
  {
  }

  lemma OctetIsInverse(x: bv8)
    ensures Octet(x) as bv8 == x && Octet(0) == 0
  {
  }

  lemma {:induction false} OctetWithValue(n: nat) returns (x: bv8)
    requires n < 256
    ensures Octet(x) == n
  {
    hide Octet;
    if n == 0 {
      OctetIsInverse(0);
      x := 0;
    } else {
      var y := OctetWithValue(n - 1);
      NextOctet(y);
      x := y + 1;
    }
  }

  lemma OctetOf(n: nat)
    requires n < 256
    ensures Octet(n as bv8) == n
  {
    hide Octet;
    var x := OctetWithValue(n);
    OctetIsInverse(x);
  }

  lemma SplitInOctets(i: nat)
    ensures i == 0x100_0000 * (i / 0x100_0000) + 0x1_0000 * (i / 0x1_0000 % 256) + 0x100 * (i / 0x100 % 256) + i % 256
  {
    assert i / 0x1_0000 == i / 0x100 / 256 && i / 0x100_0000 == i / 0x1_0000 / 256;
  }

  lemma Int32Value(i: nat)
    requires i < 0x1_0000_0000
    ensures BigEndian(Int32(i)) == i
  {
    hide BigEndian, Octet;
    var a, b, c, d := i / 0x100_0000, i / 0x1_0000 % 256, i / 0x100 % 256, i % 256;
    OctetOf(a);
    OctetOf(b);
    OctetOf(c);
    OctetOf(d);
    BigEndianOfFour(a as bv8, b as bv8, c as bv8, d as bv8);
    SplitInOctets(i);
  }

  /** INT(i) is the encoding of i in four octets, the most significant first, and there is no other. */
  lemma Int32IsBigEndian(i: nat, octets: bytes)
    requires i < 0x1_0000_0000
    ensures |octets| == 4 && BigEndian(octets) == i <==> octets == Int32(i)
  {
    Int32Value(i);
    assert |Int32(i)| == 4;
    hide Int32, BigEndian;
    if |octets| == 4 && BigEndian(octets) == i {
      BigEndianInjective(octets, Int32(i));
    }
  }

  /** The first block hashes the salt with 00 00 00 01 behind it. */
  lemma FirstBlockNumber(hash: Hash, p: bytes, s: bytes)
    requires IsHash(hash)
    ensures U(hash, p, s, 1, 1) == Hmac(hash, p, s + [0, 0, 0, 1])
  {
    BigEndianOfFour(0, 0, 0, 1);
    Int32IsBigEndian(1, [0, 0, 0, 1]);
  }

  /** The exclusive or of the octets at one position. */
  function XorAt(us: seq<bytes>, j: nat): bv8
    requires forall k :: 0 <= k < |us| ==> j < |us[k]|
  {
    if us == [] then 0 else XorAt(us[..|us| - 1], j) ^ us[|us| - 1][j]
  }

  /** U_1 is the HMAC of the salt and the block number, and each further one that of the one before. */
  ghost predicate IsChain(hash: Hash, p: bytes, s: bytes, i: nat, us: seq<bytes>) {
    us != [] &&
    (exists octets: bytes :: |octets| == 4 && BigEndian(octets) == i && us[0] == Hmac(hash, p, s + octets)) &&
    forall k :: 1 <= k < |us| ==> us[k] == Hmac(hash, p, us[k - 1])
  }

  lemma {:induction false} ChainIsU(hash: Hash, p: bytes, s: bytes, i: nat, us: seq<bytes>, k: nat)
    requires IsHash(hash) && 1 <= i < 0x1_0000_0000 && IsChain(hash, p, s, i, us) && k < |us|
    ensures us[k] == U(hash, p, s, i, k + 1)
  {
    hide Hmac, Int32, BigEndian;
    if k == 0 {
      var octets: bytes :| |octets| == 4 && BigEndian(octets) == i && us[0] == Hmac(hash, p, s + octets);
      Int32IsBigEndian(i, octets);
    } else {
      ChainIsU(hash, p, s, i, us, k - 1);
    }
  }

  /** F(P, S, c, i) is the exclusive or of the c links of the chain, octet by octet. */
  lemma {:induction false} BlockIsXorOfChain(hash: Hash, p: bytes, s: bytes, c: nat, i: nat, us: seq<bytes>, j: nat)
    requires IsHash(hash) && 1 <= i < 0x1_0000_0000 && c >= 1 && |us| == c && IsChain(hash, p, s, i, us)
    requires j < hash.digestSize && forall k :: 0 <= k < |us| ==> |us[k]| == hash.digestSize
    ensures F(hash, p, s, c, i)[j] == XorAt(us, j)
  {
    hide Hmac, U, BigEndian;
    ChainIsU(hash, p, s, i, us, c - 1);
    var most := us[..c - 1];
    if c == 1 {
      assert XorAt(most, j) == 0;
      ZeroXor(us[0][j]);
    } else {
      assert IsChain(hash, p, s, i, most);
      BlockIsXorOfChain(hash, p, s, c - 1, i, most, j);
    }
  }

  lemma ZeroXor(x: bv8)
    ensures 0 ^ x == x
  {
  }

  /** Where a block starts. */
  function Offset(block: nat, size: nat): nat {
    if block == 0 then 0 else Offset(block - 1, size) + size
  }

  /** The derived key is the blocks one after the other, each hLen octets, up to its length. */
  lemma {:induction false} DerivedAt(hash: Hash, p: bytes, s: bytes, c: nat, i: nat, n: nat, block: nat, j: nat)
    requires IsHash(hash) && c >= 1 && 1 <= i && i + n <= 0x1_0000_0000
    requires j < hash.digestSize && Offset(block, hash.digestSize) + j < n
    ensures i + block < 0x1_0000_0000
    ensures DerivedFrom(hash, p, s, c, i, n)[Offset(block, hash.digestSize) + j] == F(hash, p, s, c, i + block)[j]
    decreases block
  {
    hide F, Hmac;
    if block == 0 {
    } else {
      DerivedAt(hash, p, s, c, i + 1, n - hash.digestSize, block - 1, j);
    }
  }
}
