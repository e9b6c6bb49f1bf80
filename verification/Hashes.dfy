/**
 The low-level hash state: libcrypto's streaming contexts behind a readiness flag and a byte
 counter. The hash itself is any function with the right digest sizes; every theorem holds for
 all of them. A ghost counter records calls of the compression function.
 */
module Hashes {
  import opened Bytes

  datatype HashAlg = NONE | MD5 | SHA1 | SHA224 | SHA256 | SHA384 | SHA512 | MD5_SHA1

  function DigestSize(alg: HashAlg): (n: nat)
  {
    match alg
    case NONE => 0
    case MD5 => 16
    case SHA1 => 20
    case SHA224 => 28
    case SHA256 => 32
    case SHA384 => 48
    case SHA512 => 64
    case MD5_SHA1 => 36
  }

  function BlockSize(alg: HashAlg): (n: nat)
    ensures n == 64 || n == 128
  {
    match alg
    case SHA384 => 128
    case SHA512 => 128
    case _ => 64
  }

  /** Room finalisation needs in the last block: the 0x80 byte and the serialized length. */
  function FinalSpace(alg: HashAlg): (n: nat)
  {
    if BlockSize(alg) == 128 then 17 else 9
  }

  /** The work of all libcrypto contexts an algorithm runs: none, one, or MD5 beside SHA-1. */
  ghost function Contexts(alg: HashAlg, each: int): (n: int)
  {
    match alg
    case NONE => 0
    case MD5_SHA1 => 2 * each
    case _ => each
  }

  /** Whole blocks in a message of n bytes. */
  ghost function Blocks(alg: HashAlg, n: nat): (b: nat)
    ensures b == n / BlockSize(alg)
  {
    if BlockSize(alg) == 128 then n / 128 else n / 64
  }

  /** Compressions made when `size` bytes follow `before` bytes: one per block that fills up. */
  ghost function UpdateWork(alg: HashAlg, before: nat, size: nat): (n: int)
  {
    Contexts(alg, Blocks(alg, before + size) - Blocks(alg, before))
  }

  /** Compressions made by finalisation after `before` bytes. */
  ghost function FinalWork(alg: HashAlg, before: nat): (n: int)
  {
    Contexts(alg, if before % BlockSize(alg) + FinalSpace(alg) <= BlockSize(alg) then 1 else 2)
  }

  /**
   A whole message costs one compression per block of its padded form: at least one byte 0x80 and
   8 or 16 bytes of length, filled up to blocks of 64 or 128 bytes (section 5.1 of FIPS 180-4).
   */
  lemma MessageWork(alg: HashAlg, n: nat)
    requires alg != NONE && alg != MD5_SHA1
    ensures UpdateWork(alg, 0, n) + FinalWork(alg, n) ==
      if alg == SHA384 || alg == SHA512 then (n + 17 + 127) / 128 else (n + 9 + 63) / 64
  {
  }

  type HashFn = h: (HashAlg, seq<byte>) -> seq<byte> | forall a, m :: |h(a, m)| == DigestSize(a)
    witness (a, m) => seq(DigestSize(a), _ => 0)

  class HashState {
    const H: HashFn
    var alg: HashAlg
    var ready: bool
    var currentlyInHash: nat
    /** The message libcrypto's context has been fed. */
    var absorbed: seq<byte>
    ghost var work: int

    constructor (h: HashFn)
      ensures H == h && !ready && alg == NONE && absorbed == [] && currentlyInHash == 0 && work == 0
    {
      H, alg, ready, currentlyInHash, absorbed, work := h, NONE, false, 0, [], 0;
    }

    /** Ready for input, holding exactly m. */
    ghost predicate Holds(a: HashAlg, m: seq<byte>)
      reads this
    {
      ready && alg == a && absorbed == m && currentlyInHash == |m|
    }

    method Init(a: HashAlg)
      modifies this
      ensures Holds(a, []) && work == old(work)
    {
      alg, absorbed := a, [];
      ready, currentlyInHash := true, 0;
    }

    method Update(data: seq<byte>) returns (ok: bool)
      requires |data| <= UINT32_MAX
      modifies this
      ensures ok <==> old(ready) && |data| <= UINT64_MAX - old(currentlyInHash)
      ensures alg == old(alg) && ready == old(ready)
      ensures absorbed == if old(ready) then old(absorbed) + data else old(absorbed)
      ensures currentlyInHash == if ok then old(currentlyInHash) + |data| else old(currentlyInHash)
      ensures work == old(work) + if old(ready) then UpdateWork(alg, |old(absorbed)|, |data|) else 0
    {
      if !ready {
        return false;
      }
      work := work + UpdateWork(alg, |absorbed|, |data|);
      absorbed := absorbed + data;
      if |data| > UINT64_MAX - currentlyInHash {
        return false;
      }
      currentlyInHash := currentlyInHash + |data|;
      return true;
    }

    /** Finalises; the result is what is written to the caller's buffer of the given size. */
    method Digest(size: nat) returns (r: Option<seq<byte>>)
      modifies this
      ensures r.Some? <==> old(ready) && (alg == NONE || size == DigestSize(alg))
      ensures r.Some? ==> r.value == H(alg, old(absorbed)) && !ready && currentlyInHash == 0
      ensures r.Some? ==> work == old(work) + FinalWork(alg, |old(absorbed)|)
      ensures r.None? ==> unchanged(this)
      ensures alg == old(alg) && absorbed == old(absorbed)
    {
      if !ready || (alg != NONE && size != DigestSize(alg)) {
        return None;
      }
      work := work + FinalWork(alg, |absorbed|);
      currentlyInHash, ready := 0, false;
      return Some(H(alg, absorbed));
    }

    method CopyFrom(from: HashState)
      modifies this
      ensures alg == old(from.alg) && ready == old(from.ready)
      ensures currentlyInHash == old(from.currentlyInHash) && absorbed == old(from.absorbed)
      ensures work == old(work)
    {
      alg, ready := from.alg, from.ready;
      currentlyInHash, absorbed := from.currentlyInHash, from.absorbed;
    }

    method Reset()
      modifies this
      ensures Holds(old(alg), []) && work == old(work)
    {
      Init(alg);
    }

    method CurrentlyInHashTotal() returns (r: Option<nat>)
      ensures r == if ready then Some(currentlyInHash) else None
    {
      r := if ready then Some(currentlyInHash) else None;
    }

    /** The constant-time form: a mask instead of a division. */
    method CurrentlyInHashBlock() returns (r: Option<nat>)
      ensures r == if ready then Some(currentlyInHash % BlockSize(alg)) else None
    {
      if !ready {
        return None;
      }
      AndOnes(currentlyInHash, 6);
      AndOnes(currentlyInHash, 7);
      assert Pow2(6) == 64 && Pow2(7) == 128;
      return Some(And(currentlyInHash, BlockSize(alg) - 1));
    }
  }
}
