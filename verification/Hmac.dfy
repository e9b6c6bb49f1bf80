/** The four-state HMAC of TLS and the SSLv3 MAC, over streaming hash states. */
module Hmacs {
  import opened Bytes
  import opened Hashes

  datatype HmacAlg =
    | HMAC_NONE | HMAC_MD5 | HMAC_SHA1 | HMAC_SHA224 | HMAC_SHA256 | HMAC_SHA384 | HMAC_SHA512
    | SSLv3_MD5 | SSLv3_SHA1
  {
    predicate IsSslV3() {
      this == SSLv3_MD5 || this == SSLv3_SHA1
    }

    function Hash(): (a: HashAlg)
      ensures a != HashAlg.MD5_SHA1
    {
      match this
      case HMAC_NONE => HashAlg.NONE
      case HMAC_MD5 => HashAlg.MD5
      case HMAC_SHA1 => HashAlg.SHA1
      case HMAC_SHA224 => HashAlg.SHA224
      case HMAC_SHA256 => HashAlg.SHA256
      case HMAC_SHA384 => HashAlg.SHA384
      case HMAC_SHA512 => HashAlg.SHA512
      case SSLv3_MD5 => HashAlg.MD5
      case SSLv3_SHA1 => HashAlg.SHA1
    }

    function MacSize(): (n: nat)
      ensures n <= 64
    {
      DigestSize(Hash())
    }

    function HashBlockSize(): (n: nat)
      ensures n == BlockSize(Hash())
    {
      match this
      case HMAC_SHA384 => 128
      case HMAC_SHA512 => 128
      case _ => 64
    }

    function XorPadSize(): (n: nat)
      ensures n <= 128
      ensures !IsSslV3() ==> n == HashBlockSize()
    {
      match this
      case HMAC_SHA384 => 128
      case HMAC_SHA512 => 128
      case SSLv3_MD5 => 48
      case SSLv3_SHA1 => 40
      case _ => 64
    }
  }

  // ---------- reference definitions: section 2 of RFC 2104, section 5.2.3.1 of RFC 6101 ----------

  function XorAll(s: seq<byte>, b: byte): (r: seq<byte>)
    ensures |r| == |s|
  {
    seq(|s|, i requires 0 <= i < |s| => XorByte(s[i], b))
  }

  /** The key, hashed when longer than a block, zero-padded to a block. */
  function BlockKey(h: HashFn, alg: HmacAlg, key: seq<byte>): (k: seq<byte>)
    ensures |k| == alg.HashBlockSize()
  {
    var short := if |key| > alg.HashBlockSize() then h(alg.Hash(), key) else key;
    short + Repeat(0, alg.HashBlockSize() - |short|)
  }

  function KeyPrefix(h: HashFn, alg: HmacAlg, key: seq<byte>, pad: byte): (p: seq<byte>)
  {
    if alg.IsSslV3() then key + Repeat(pad, alg.XorPadSize()) else XorAll(BlockKey(h, alg, key), pad)
  }

  const IPAD: byte := 0x36
  const OPAD: byte := 0x5c

  function Mac(h: HashFn, alg: HmacAlg, key: seq<byte>, message: seq<byte>): (d: seq<byte>)
    ensures |d| == alg.MacSize()
  {
    var a := alg.Hash();
    h(a, KeyPrefix(h, alg, key, OPAD) + h(a, KeyPrefix(h, alg, key, IPAD) + message))
  }

  // ---------- the same in literals ----------

  /** H(K xor 0x5c.. | H(K xor 0x36.. | message)), with the key zero-filled to 64 or 128 bytes. */
  lemma HmacFormula(h: HashFn, alg: HmacAlg, a: HashAlg, block: nat, key: seq<byte>, message: seq<byte>,
                    inner: seq<byte>, outer: seq<byte>)
    requires (alg, a, block) in {
      (HMAC_MD5, HashAlg.MD5, 64), (HMAC_SHA1, HashAlg.SHA1, 64), (HMAC_SHA224, HashAlg.SHA224, 64),
      (HMAC_SHA256, HashAlg.SHA256, 64), (HMAC_SHA384, HashAlg.SHA384, 128), (HMAC_SHA512, HashAlg.SHA512, 128)}
    requires |key| <= block == |inner| == |outer|
    requires forall i :: 0 <= i < block ==> inner[i] == XorByte(if i < |key| then key[i] else 0, 0x36)
    requires forall i :: 0 <= i < block ==> outer[i] == XorByte(if i < |key| then key[i] else 0, 0x5c)
    ensures Mac(h, alg, key, message) == h(a, outer + h(a, inner + message))
  {
    assert KeyPrefix(h, alg, key, 0x36) == inner;
    assert KeyPrefix(h, alg, key, 0x5c) == outer;
  }

  /** A key longer than a block counts as its hash. */
  lemma LongKeyFormula(h: HashFn, alg: HmacAlg, a: HashAlg, block: nat, key: seq<byte>, message: seq<byte>)
    requires (alg, a, block) in {
      (HMAC_MD5, HashAlg.MD5, 64), (HMAC_SHA1, HashAlg.SHA1, 64), (HMAC_SHA224, HashAlg.SHA224, 64),
      (HMAC_SHA256, HashAlg.SHA256, 64), (HMAC_SHA384, HashAlg.SHA384, 128), (HMAC_SHA512, HashAlg.SHA512, 128)}
    requires |key| > block
    ensures Mac(h, alg, key, message) == Mac(h, alg, h(a, key), message)
  {
    assert BlockKey(h, alg, key) == BlockKey(h, alg, h(a, key));
  }

  /** H(K | 0x5c.. | H(K | 0x36.. | message)), with 48 pad bytes for MD5 and 40 for SHA-1. */
  lemma SslV3Formula(h: HashFn, alg: HmacAlg, a: HashAlg, n: nat, key: seq<byte>, message: seq<byte>,
                     pad1: seq<byte>, pad2: seq<byte>)
    requires (alg, a, n) in {(SSLv3_MD5, HashAlg.MD5, 48), (SSLv3_SHA1, HashAlg.SHA1, 40)}
    requires |pad1| == |pad2| == n && forall i :: 0 <= i < n ==> pad1[i] == 0x36 && pad2[i] == 0x5c
    ensures Mac(h, alg, key, message) == h(a, key + pad2 + h(a, key + pad1 + message))
  {
    assert pad1 == Repeat(0x36, n) && pad2 == Repeat(0x5c, n);
  }

  /** Sizes of the MACs. */
  lemma MacSizes()
    ensures HMAC_MD5.MacSize() == SSLv3_MD5.MacSize() == 16 && HMAC_SHA1.MacSize() == SSLv3_SHA1.MacSize() == 20
    ensures HMAC_SHA224.MacSize() == 28 && HMAC_SHA256.MacSize() == 32
    ensures HMAC_SHA384.MacSize() == 48 && HMAC_SHA512.MacSize() == 64
  {
  }

  // ---------- buffers ----------

  method XorIn(a: array<byte>, n: nat, b: byte)
    requires n <= a.Length
    modifies a
    ensures a[..] == XorAll(old(a[..n]), b) + old(a[n..])
  {
    for i := 0 to n
      invariant a[..i] == XorAll(old(a[..i]), b) && a[i..] == old(a[i..])
    {
      assert a[i] == old(a[i..])[0];
      a[i] := XorByte(a[i], b);
      assert a[..i + 1] == a[..i] + [a[i]];
    }
    assert a[..] == a[..n] + a[n..];
  }

  lemma ZeroPadded(s: seq<byte>, n: nat)
    requires |s| <= n <= 128
    ensures (s + Repeat(0, 128)[|s|..])[..n] == s + Repeat(0, n - |s|)
  {
  }

  /** The second pass turns the inner pad into the outer one: 0x36 xor 0x6a is 0x5c. */
  lemma InnerToOuterPad(s: seq<byte>)
    ensures XorAll(XorAll(s, IPAD), 0x6a) == XorAll(s, OPAD)
  {
    forall i | 0 <= i < |s|
      ensures XorAll(XorAll(s, IPAD), 0x6a)[i] == XorAll(s, OPAD)[i]
    {
      XorByteTwice(s[i], IPAD, 0x6a);
      PadsXor();
    }
  }

  lemma PadsXor()
    ensures XorByte(0x36, 0x6a) == 0x5c
  {
    assert Xor(0, 1) == 1;
    assert Xor(1, 3) == 2;
    assert Xor(3, 6) == 5;
    assert Xor(6, 13) == 11;
    assert Xor(13, 26) == 23;
    assert Xor(0x1b, 0x35) == 0x2e;
  }

  // ---------- the state ----------

  /** Offset of the update's modulus: divisible by every block size, 17535 below 2^32. */
  const HIGHEST_32_BIT: int := 4294949760
  const MAX_UPDATE: int := UINT32_MAX - HIGHEST_32_BIT

  class Hmac {
    const H: HashFn
    var alg: HmacAlg
    var hashBlockSize: nat
    var currentlyInHashBlock: nat
    var xorPadSize: nat
    var digestSize: nat
    const inner: HashState
    const innerJustKey: HashState
    const outer: HashState
    const outerJustKey: HashState
    const xorPad: array<byte>
    const digestPad: array<byte>
    /** What the just-key states have absorbed. */
    ghost var innerPrefix: seq<byte>
    ghost var outerPrefix: seq<byte>

    ghost predicate Wf() {
      && inner != innerJustKey && inner != outer && inner != outerJustKey
      && innerJustKey != outer && innerJustKey != outerJustKey && outer != outerJustKey
      && inner.H == H && innerJustKey.H == H && outer.H == H && outerJustKey.H == H
      && xorPad != digestPad && xorPad.Length == 128 && digestPad.Length == 64
    }

    ghost predicate Disjoint(other: Hmac) {
      && this != other && xorPad != other.xorPad && xorPad != other.digestPad
      && digestPad != other.xorPad && digestPad != other.digestPad
      && {inner, innerJustKey, outer, outerJustKey}
         !! {other.inner, other.innerJustKey, other.outer, other.outerJustKey}
    }

    constructor (h: HashFn)
      ensures Wf() && H == h && hashBlockSize == 0
      ensures fresh(inner) && fresh(innerJustKey) && fresh(outer) && fresh(outerJustKey)
      ensures fresh(xorPad) && fresh(digestPad)
    {
      H := h;
      inner := new HashState(h);
      innerJustKey := new HashState(h);
      outer := new HashState(h);
      outerJustKey := new HashState(h);
      xorPad := new byte[128];
      digestPad := new byte[64];
      alg, hashBlockSize, currentlyInHashBlock, xorPadSize, digestSize := HMAC_NONE, 0, 0, 0, 0;
    }

    /** Initialised: the just-key states hold the two key prefixes. */
    ghost predicate Keyed()
      reads this, inner, innerJustKey, outer, outerJustKey
    {
      && Wf() && |innerPrefix| <= UINT32_MAX + 128 && |outerPrefix| <= UINT32_MAX + 128
      && hashBlockSize == alg.HashBlockSize() && xorPadSize == alg.XorPadSize()
      && digestSize == alg.MacSize() && inner.alg == alg.Hash()
      && currentlyInHashBlock < hashBlockSize
      && innerJustKey.Holds(alg.Hash(), innerPrefix) && outerJustKey.Holds(alg.Hash(), outerPrefix)
    }

    /** The key the prefixes come from. */
    ghost predicate KeyIs(key: seq<byte>)
      reads this
    {
      innerPrefix == KeyPrefix(H, alg, key, IPAD) && outerPrefix == KeyPrefix(H, alg, key, OPAD)
    }

    /** Keyed, and the updates since the last reset spell this message. */
    ghost predicate Absorbing(message: seq<byte>)
      reads this, inner, innerJustKey, outer, outerJustKey
    {
      && Keyed()
      && inner.Holds(alg.Hash(), innerPrefix + message)
      && currentlyInHashBlock == |innerPrefix + message| % hashBlockSize
    }

    /** The tag of a message under these prefixes. */
    ghost function Tag(message: seq<byte>): (d: seq<byte>)
      reads this
      ensures forall key :: KeyIs(key) ==> d == Mac(H, alg, key, message)
    {
      H(alg.Hash(), outerPrefix + H(alg.Hash(), innerPrefix + message))
    }

    /** Compression calls made so far by all four states. */
    ghost function Work(): (n: int)
      reads this, inner, innerJustKey, outer, outerJustKey
    {
      inner.work + innerJustKey.work + outer.work + outerJustKey.work
    }

    method SslV3MacInit(key: seq<byte>)
      requires Wf() && xorPadSize <= 128 && |key| <= UINT32_MAX
      requires innerJustKey.Holds(alg.Hash(), []) && outerJustKey.Holds(alg.Hash(), [])
      modifies innerJustKey, outerJustKey, xorPad
      ensures innerJustKey.Holds(alg.Hash(), key + Repeat(IPAD, xorPadSize))
      ensures outerJustKey.Holds(alg.Hash(), key + Repeat(OPAD, xorPadSize))
    {
      Fill(xorPad, xorPadSize, IPAD);
      var _ := innerJustKey.Update(key);
      var _ := innerJustKey.Update(xorPad[..xorPadSize]);
      assert innerJustKey.absorbed == key + Repeat(IPAD, xorPadSize);
      Fill(xorPad, xorPadSize, OPAD);
      var _ := outerJustKey.Update(key);
      var _ := outerJustKey.Update(xorPad[..xorPadSize]);
      assert outerJustKey.absorbed == key + Repeat(OPAD, xorPadSize);
    }

    method TlsHmacInit(key: seq<byte>)
      requires Wf() && !alg.IsSslV3() && |key| <= UINT32_MAX
      requires xorPadSize == alg.XorPadSize() && digestSize == alg.MacSize()
      requires outer.Holds(alg.Hash(), [])
      requires innerJustKey.Holds(alg.Hash(), []) && outerJustKey.Holds(alg.Hash(), [])
      modifies innerJustKey, outerJustKey, outer, xorPad, digestPad
      ensures innerJustKey.Holds(alg.Hash(), KeyPrefix(H, alg, key, IPAD))
      ensures outerJustKey.Holds(alg.Hash(), KeyPrefix(H, alg, key, OPAD))
    {
      LoadBlockKey(key);
      ghost var k := BlockKey(H, alg, key);
      XorIn(xorPad, xorPadSize, IPAD);
      assert xorPad[..xorPadSize] == XorAll(k, IPAD);
      var _ := innerJustKey.Update(xorPad[..xorPadSize]);
      XorIn(xorPad, xorPadSize, 0x6a);
      assert xorPad[..xorPadSize] == XorAll(XorAll(k, IPAD), 0x6a);
      InnerToOuterPad(k);
      var _ := outerJustKey.Update(xorPad[..xorPadSize]);
    }

    method LoadBlockKey(key: seq<byte>)
      requires Wf() && !alg.IsSslV3() && |key| <= UINT32_MAX
      requires xorPadSize == alg.XorPadSize() && digestSize == alg.MacSize()
      requires outer.Holds(alg.Hash(), [])
      modifies outer, xorPad, digestPad
      ensures xorPad[..xorPadSize] == BlockKey(H, alg, key)
    {
      Fill(xorPad, 128, 0);
      assert xorPad[..] == Repeat(0, 128);
      var short := key;
      if |key| > xorPadSize {
        short := HashKey(key);
      }
      assert xorPad[|short|..] == Repeat(0, 128)[|short|..];
      CopyAt(xorPad, 0, short);
      ZeroPadded(short, xorPadSize);
      assert xorPad[..xorPadSize] == xorPad[..][..xorPadSize];
    }

    method HashKey(key: seq<byte>) returns (digest: seq<byte>)
      requires Wf() && |key| <= UINT32_MAX && digestSize == alg.MacSize()
      requires outer.Holds(alg.Hash(), [])
      modifies outer, digestPad
      ensures digest == H(alg.Hash(), key)
    {
      var _ := outer.Update(key);
      assert outer.absorbed == key;
      var r := outer.Digest(digestSize);
      CopyAt(digestPad, 0, r.value);
      digest := digestPad[..digestSize];
    }

    /** Every algorithm is available outside FIPS mode, so initialisation cannot fail. */
    method Init(a: HmacAlg, k: seq<byte>)
      requires Wf() && |k| <= UINT32_MAX
      modifies this, inner, innerJustKey, outer, outerJustKey, xorPad, digestPad
      ensures alg == a && KeyIs(k) && Absorbing([])
    {
      innerPrefix, outerPrefix := KeyPrefix(H, a, k, IPAD), KeyPrefix(H, a, k, OPAD);
      alg, hashBlockSize, currentlyInHashBlock := a, a.HashBlockSize(), 0;
      xorPadSize, digestSize := a.XorPadSize(), a.MacSize();
      InitStates(k);
      Fill(xorPad, 128, 0);
      var _ := Reset();
    }

    method InitStates(k: seq<byte>)
      requires Wf() && |k| <= UINT32_MAX
      requires xorPadSize == alg.XorPadSize() && digestSize == alg.MacSize()
      modifies inner, innerJustKey, outer, outerJustKey, xorPad, digestPad
      ensures inner.alg == alg.Hash()
      ensures innerJustKey.Holds(alg.Hash(), KeyPrefix(H, alg, k, IPAD))
      ensures outerJustKey.Holds(alg.Hash(), KeyPrefix(H, alg, k, OPAD))
    {
      inner.Init(alg.Hash());
      innerJustKey.Init(alg.Hash());
      outer.Init(alg.Hash());
      outerJustKey.Init(alg.Hash());
      if alg.IsSslV3() {
        SslV3MacInit(k);
      } else {
        TlsHmacInit(k);
      }
    }

    method Reset() returns (ok: bool)
      requires Wf()
      modifies this`currentlyInHashBlock, inner
      ensures ok <==> hashBlockSize != 0 && innerJustKey.ready
      ensures old(Keyed()) ==> Absorbing([])
      ensures inner.work == old(inner.work)
    {
      if hashBlockSize == 0 {
        return false;
      }
      inner.CopyFrom(innerJustKey);
      var bytesInHash := inner.CurrentlyInHashTotal();
      if bytesInHash.None? {
        return false;
      }
      currentlyInHashBlock := bytesInHash.value % hashBlockSize;
      assert innerPrefix == innerPrefix + [];
      return true;
    }

    /** The constant-cycle remainder: a large multiple of every block size is added first. */
    method CountIntoBlock(size: nat)
      requires hashBlockSize == 64 || hashBlockSize == 128
      modifies this`currentlyInHashBlock
      ensures currentlyInHashBlock == (old(currentlyInHashBlock) + size) % hashBlockSize
    {
      var value := (HIGHEST_32_BIT + size) % hashBlockSize;
      OffsetVanishes(currentlyInHashBlock, size, hashBlockSize);
      currentlyInHashBlock := (currentlyInHashBlock + value) % hashBlockSize;
    }

    method Update(data: seq<byte>) returns (ok: bool)
      requires Keyed() && |data| <= UINT32_MAX
      modifies this`currentlyInHashBlock, inner
      ensures Keyed()
      ensures ok <==> |data| <= 17535 && old(inner.ready)
                      && |data| <= UINT64_MAX - old(inner.currentlyInHash)
      ensures |data| > 17535 ==> unchanged(this) && unchanged(inner)
      ensures forall message :: ok && old(Absorbing(message)) ==> Absorbing(message + data)
      ensures ok ==> inner.ready && inner.absorbed == old(inner.absorbed) + data
      ensures ok ==> currentlyInHashBlock == (old(currentlyInHashBlock) + |data|) % hashBlockSize
      ensures ok ==> inner.currentlyInHash == old(inner.currentlyInHash) + |data|
      ensures ok ==> inner.work == old(inner.work) + UpdateWork(alg.Hash(), |old(inner.absorbed)|, |data|)
    {
      if |data| > MAX_UPDATE {
        return false;
      }
      CountIntoBlock(|data|);
      ok := inner.Update(data);
      forall message | ok && old(Absorbing(message)) ensures Absorbing(message + data) {
        assert innerPrefix + (message + data) == innerPrefix + message + data;
        AddMod(|innerPrefix + message|, |data|, hashBlockSize);
      }
    }

    /** The MAC of everything absorbed; the result is what is written to the caller's buffer. */
    method Digest(size: nat) returns (r: Option<seq<byte>>)
      requires Keyed()
      modifies inner, outer, digestPad
      ensures Keyed()
      ensures r.Some? <==> old(inner.ready) && (alg == HMAC_NONE || size == digestSize)
      ensures forall message :: r.Some? && old(Absorbing(message)) ==> r.value == Tag(message)
      ensures r.Some? ==> inner.work == old(inner.work) + FinalWork(alg.Hash(), |old(inner.absorbed)|)
      ensures r.Some? ==> outer.work == old(outer.work) + OuterWork(alg, |outerPrefix|)
    {
      var innerDigest := inner.Digest(digestSize);
      if innerDigest.None? {
        return None;
      }
      CopyAt(digestPad, 0, innerDigest.value);
      outer.CopyFrom(outerJustKey);
      var _ := outer.Update(digestPad[..digestSize]);
      assert digestPad[..digestSize] == innerDigest.value;
      r := outer.Digest(size);
    }

    /** Same result; the inner hash always spends two compressions on its final blocks. */
    method DigestTwoCompressionRounds(size: nat) returns (r: Option<seq<byte>>)
      requires Keyed()
      modifies inner, outer, digestPad
      ensures Keyed()
      ensures r.Some? <==> old(inner.ready) && (alg == HMAC_NONE || size == digestSize)
      ensures forall message :: r.Some? && old(Absorbing(message)) ==> r.value == Tag(message)
      ensures r.Some? && currentlyInHashBlock == |old(inner.absorbed)| % hashBlockSize ==>
        inner.work == old(inner.work) + Contexts(alg.Hash(), 2)
      ensures r.Some? ==> outer.work == old(outer.work) + OuterWork(alg, |outerPrefix|)
    {
      r := Digest(size);
      if r.None? {
        return;
      }
      var spaceLeft := if hashBlockSize == 128 then 17 else 9;
      if currentlyInHashBlock > hashBlockSize - spaceLeft {
        return;
      }
      inner.Reset();
      var _ := inner.Update(xorPad[..hashBlockSize]);
    }

    method CopyStates(from: Hmac)
      requires Wf() && from.Wf() && Disjoint(from)
      modifies inner, innerJustKey, outer, outerJustKey
      ensures forall a, m :: from.inner.Holds(a, m) ==> inner.Holds(a, m)
      ensures forall a, m :: from.innerJustKey.Holds(a, m) ==> innerJustKey.Holds(a, m)
      ensures forall a, m :: from.outerJustKey.Holds(a, m) ==> outerJustKey.Holds(a, m)
      ensures inner.alg == from.inner.alg
    {
      inner.CopyFrom(from.inner);
      innerJustKey.CopyFrom(from.innerJustKey);
      outer.CopyFrom(from.outer);
      outerJustKey.CopyFrom(from.outerJustKey);
    }

    method CopySizes(from: Hmac)
      requires Wf() && from.Wf() && Disjoint(from)
      modifies this
      ensures innerPrefix == from.innerPrefix && outerPrefix == from.outerPrefix && alg == from.alg
      ensures hashBlockSize == from.hashBlockSize && currentlyInHashBlock == from.currentlyInHashBlock
      ensures xorPadSize == from.xorPadSize && digestSize == from.digestSize
    {
      innerPrefix, outerPrefix := from.innerPrefix, from.outerPrefix;
      alg, hashBlockSize := from.alg, from.hashBlockSize;
      currentlyInHashBlock := from.currentlyInHashBlock;
      xorPadSize, digestSize := from.xorPadSize, from.digestSize;
    }

    method CopyPads(from: Hmac)
      requires Wf() && from.Wf() && Disjoint(from)
      modifies xorPad, digestPad
      ensures xorPad[..] == from.xorPad[..] && digestPad[..] == from.digestPad[..]
    {
      CopyAt(xorPad, 0, from.xorPad[..]);
      CopyAt(digestPad, 0, from.digestPad[..]);
      assert xorPad[..] == from.xorPad[..];
    }

    method CopyFrom(from: Hmac)
      requires Wf() && from.Wf() && H == from.H && Disjoint(from)
      modifies this, inner, innerJustKey, outer, outerJustKey, xorPad, digestPad
      ensures alg == from.alg && innerPrefix == from.innerPrefix && outerPrefix == from.outerPrefix
      ensures from.Keyed() ==> Keyed()
      ensures forall message :: from.Absorbing(message) ==> Absorbing(message)
    {
      CopySizes(from);
      CopyStates(from);
      CopyPads(from);
    }
  }

  /** Compressions the outer hash spends: the inner digest after the outer key prefix. */
  ghost function OuterWork(alg: HmacAlg, prefix: nat): (n: int)
  {
    UpdateWork(alg.Hash(), prefix, alg.MacSize()) + FinalWork(alg.Hash(), prefix + alg.MacSize())
  }

  lemma AddMod(a: nat, b: nat, block: nat)
    requires block == 64 || block == 128
    ensures (a % block + b) % block == (a + b) % block
  {
  }

  lemma OffsetVanishes(current: nat, size: nat, block: nat)
    requires block == 64 || block == 128
    ensures (current + (HIGHEST_32_BIT + size) % block) % block == (current + size) % block
  {
  }

  // ---------- whole runs ----------

  /**
   Any split of a message into updates, then a digest of either kind, then a reset: the digest is
   the MAC of the whole message and the state is ready for the next one.
   */
  method MacInPieces(hmac: Hmac, pieces: seq<seq<byte>>, twoRounds: bool) returns (r: Option<seq<byte>>)
    requires hmac.Absorbing([])
    requires forall i :: 0 <= i < |pieces| ==> |pieces[i]| <= UINT32_MAX
    modifies hmac`currentlyInHashBlock, hmac.inner, hmac.outer, hmac.digestPad
    ensures hmac.innerPrefix == old(hmac.innerPrefix) && hmac.alg == old(hmac.alg)
    ensures r.Some? <==>
      && (forall i :: 0 <= i < |pieces| ==> |pieces[i]| <= 17535)
      && |hmac.innerPrefix| + |Concat(pieces)| <= UINT64_MAX
    ensures r.Some? ==> hmac.Absorbing([])
    ensures forall key :: r.Some? && old(hmac.KeyIs(key)) ==>
      hmac.KeyIs(key) && r.value == Mac(hmac.H, hmac.alg, key, Concat(pieces))
  {
    for n := 0 to |pieces|
      invariant hmac.innerPrefix == old(hmac.innerPrefix) && hmac.outerPrefix == old(hmac.outerPrefix)
      invariant hmac.alg == old(hmac.alg)
      invariant hmac.Absorbing(Concat(pieces[..n]))
      invariant forall i :: 0 <= i < n ==> |pieces[i]| <= MAX_UPDATE
      invariant |hmac.innerPrefix| + |Concat(pieces[..n])| <= UINT64_MAX
    {
      assert pieces[..n + 1][..n] == pieces[..n];
      ConcatPrefix(pieces, n + 1);
      var ok := hmac.Update(pieces[n]);
      if !ok {
        return None;
      }
    }
    assert pieces[..|pieces|] == pieces;
    if twoRounds {
      r := hmac.DigestTwoCompressionRounds(hmac.digestSize);
    } else {
      r := hmac.Digest(hmac.digestSize);
    }
    var _ := hmac.Reset();
  }
}
