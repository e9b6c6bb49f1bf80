/**
 Verification of a decrypted TLS CBC record
 [ payload ][ MAC ][ padding ][ padding length ]:
 a masked, branch-free check with equalised hash work.
 */
module Cbc {
  import opened Bytes
  import opened Hashes
  import opened Hmacs

  const INT_MAX: int := 0x7FFF_FFFF
  const S2N_SSLv3: int := 30

  // ---------- reference definitions ----------

  function PaddingLength(record: seq<byte>): (p: byte)
    requires record != []
  {
    record[|record| - 1]
  }

  /** The padding and its length byte fit in the record after the MAC. */
  predicate PaddingFits(record: seq<byte>, macSize: nat)
    requires record != []
  {
    macSize + PaddingLength(record) + 1 <= |record|
  }

  function PayloadLength(record: seq<byte>, macSize: nat): (n: nat)
    requires macSize < |record|
    ensures n + macSize + 1 <= |record|
  {
    if PaddingFits(record, macSize) then |record| - macSize - PaddingLength(record) - 1 else 0
  }

  /** Every padding byte repeats the length byte. */
  predicate PaddingBytesAgree(record: seq<byte>, macSize: nat)
    requires record != []
  {
    var p := PaddingLength(record);
    PaddingFits(record, macSize) ==>
      forall j :: |record| - 1 - p <= j < |record| - 1 ==> record[j] == p
  }

  /** The record's MAC is the tag of header and payload. */
  ghost predicate MacMatches(hmac: Hmac, header: seq<byte>, record: seq<byte>)
    requires hmac.alg.MacSize() < |record|
    reads hmac
  {
    var n := PayloadLength(record, hmac.alg.MacSize());
    hmac.Tag(header + record[..n]) == record[n..n + hmac.alg.MacSize()]
  }

  // ---------- hash work ----------

  /**
   Compressions one verification costs. Neither the padding byte nor any record content occurs:
   only the record's size, the algorithm, and the lengths of the key prefixes and the header.
   */
  ghost function VerifyWork(alg: HmacAlg, innerPrefix: nat, outerPrefix: nat, header: nat, size: nat): (n: int)
    requires alg.MacSize() < size
  {
    var a := alg.Hash();
    Contexts(a,
      Blocks(a, innerPrefix + innerPrefix + header + size - alg.MacSize() - 1)
      - Blocks(a, innerPrefix) - Blocks(a, innerPrefix + header) + 2)
    + OuterWork(alg, outerPrefix)
  }

  /**
   The floor identity behind the equalisation: hashing `payload` bytes after `start`, then the
   partial block and the rest after `restart`, fills as many blocks however the total is split.
   */
  lemma SplitWork(alg: HashAlg, start: nat, restart: nat, payload: nat, rest: nat)
    ensures
      var partial := (start + payload) % BlockSize(alg);
      Blocks(alg, start + payload) - Blocks(alg, start)
      + Blocks(alg, restart + partial + rest) - Blocks(alg, restart)
      == Blocks(alg, restart + start + payload + rest) - Blocks(alg, start) - Blocks(alg, restart)
  {
    if BlockSize(alg) == 128 {
    } else {
    }
  }

  /**
   In numbers, for a key of at most a block and the 13 bytes before a record's payload: as many
   compressions as there are blocks in what is hashed, and three more, whatever the padding.
   */
  lemma VerifyCost(alg: HmacAlg, block: nat, mac: nat, size: nat)
    requires (alg, block, mac) in {
      (HMAC_MD5, 64, 16), (HMAC_SHA1, 64, 20), (HMAC_SHA224, 64, 28), (HMAC_SHA256, 64, 32),
      (HMAC_SHA384, 128, 48), (HMAC_SHA512, 128, 64)}
    requires mac < size
    ensures VerifyWork(alg, block, block, 13, size) == (size - mac + 12) / block + 3
  {
  }

  // ---------- the padding loop ----------

  /** `mask` of the padding loop: all ones from the cutoff on. The comparison is unsigned. */
  function Mask(i: nat, cutoff: int): (m: byte)
    requires i < 255
  {
    var unsigned := if cutoff < 0 then cutoff + 0x1_0000_0000 else cutoff;
    if i >= unsigned then 0xff else 0
  }

  /** A negative cutoff never masks a byte in; otherwise bytes from the cutoff on count. */
  lemma MaskedDifference(a: byte, b: byte, i: nat, cutoff: int)
    requires i < 255 && -256 < cutoff
    ensures And(XorByte(a, b), Mask(i, cutoff)) == 0 <==> (0 <= cutoff <= i ==> a == b)
  {
    AndOnes(XorByte(a, b), 8);
    assert Pow2(8) == 256;
    AndOnes(XorByte(a, b), 0);
  }

  method PaddingMismatches(record: seq<byte>, macSize: nat, initial: nat) returns (mismatches: nat)
    requires macSize < |record| <= INT_MAX
    ensures mismatches == 0 <==> initial == 0 && PaddingBytesAgree(record, macSize)
  {
    var paddingLength := record[|record| - 1];
    var check := if 255 < |record| - macSize - 1 then 255 else |record| - macSize - 1;
    var cutoff := check - paddingLength;
    mismatches := initial;
    var i, j := 0, |record| - 1 - check;
    while i < check && j < |record|
      invariant 0 <= i <= check && j == |record| - 1 - check + i
      invariant mismatches == 0 <==>
        && initial == 0
        && (0 <= cutoff ==> forall l :: |record| - 1 - paddingLength <= l < j ==> record[l] == paddingLength)
    {
      var difference := And(XorByte(record[j], paddingLength), Mask(i, cutoff));
      MaskedDifference(record[j], paddingLength, i, cutoff);
      OrZero(mismatches, difference);
      mismatches := Or(mismatches, difference);
      i, j := i + 1, j + 1;
    }
  }

  // ---------- reads in bounds ----------

  /** The bytes of the record re-hashed to include the first MAC's partial block. */
  function PartialBlock(alg: HmacAlg, inBlock: nat, record: seq<byte>): (n: nat)
    requires alg.MacSize() < |record|
  {
    (inBlock + PayloadLength(record, alg.MacSize())) % alg.HashBlockSize()
  }

  /** The read of the partial block stays inside the record. */
  predicate ReadsInBounds(alg: HmacAlg, inBlock: nat, record: seq<byte>)
  {
    alg.MacSize() < |record| ==> PartialBlock(alg, inBlock, record) <= |record|
  }

  /** All reads are in bounds on every record exactly when at most MAC size + 1 bytes are in the block. */
  lemma ReadsInBoundsIff(alg: HmacAlg, inBlock: nat)
    requires inBlock < alg.HashBlockSize()
    ensures (forall record :: ReadsInBounds(alg, inBlock, record)) <==> inBlock <= alg.MacSize() + 1
  {
    if inBlock <= alg.MacSize() + 1 {
      forall record ensures ReadsInBounds(alg, inBlock, record) {
        if alg.MacSize() < |record| {
          ModAtMost(inBlock + PayloadLength(record, alg.MacSize()), alg.HashBlockSize());
        }
      }
    } else {
      var record := Repeat(0, alg.MacSize() + 1);
      assert PartialBlock(alg, inBlock, record) == inBlock;
      assert !ReadsInBounds(alg, inBlock, record);
    }
  }

  lemma ModAtMost(a: nat, block: nat)
    requires block == 64 || block == 128
    ensures a % block <= a
  {
  }

  // ---------- the check ----------

  /** Both parts of the record around the MAC are within the limit of one HMAC update. */
  predicate UpdatesFit(record: seq<byte>, macSize: nat)
    requires macSize < |record|
  {
    var n := PayloadLength(record, macSize);
    n <= MAX_UPDATE && |record| - n - macSize - 1 <= MAX_UPDATE
  }

  lemma RecordsFit(record: seq<byte>, macSize: nat)
    requires macSize < |record| <= MAX_UPDATE + macSize + 1
    ensures UpdatesFit(record, macSize)
  {
  }

  lemma UpdateWorkAdds(alg: HashAlg, before: nat, a: nat, b: nat)
    ensures UpdateWork(alg, before, a) + UpdateWork(alg, before + a, b) == UpdateWork(alg, before, a + b)
  {
  }

  /** When a record is accepted. */
  ghost predicate Accepts(version: int, hmac: Hmac, header: seq<byte>, record: seq<byte>)
    reads hmac
  {
    && hmac.alg.MacSize() < |record|
    && UpdatesFit(record, hmac.alg.MacSize())
    && MacMatches(hmac, header, record)
    && (version != S2N_SSLv3 ==> PaddingBytesAgree(record, hmac.alg.MacSize()))
  }

  /**
   What that comes to, in numbers: for version 30 (SSLv3) only the MAC counts and the padding bytes are
   free, for every other version a padding that fits has to repeat its length.
   */
  lemma AcceptsExactly(version: int, hmac: Hmac, header: seq<byte>, record: seq<byte>)
    ensures |record| <= hmac.alg.MacSize() ==> !Accepts(version, hmac, header, record)
    ensures hmac.alg.MacSize() < |record| ==>
      var m: int, p: int := hmac.alg.MacSize(), record[|record| - 1];
      var n := if |record| - m - p - 1 >= 0 then |record| - m - p - 1 else 0;
      var matches := record[n..n + m] == hmac.Tag(header + record[..n]);
      var agrees := forall j :: |record| - 1 - p <= j < |record| && 0 <= j ==> record[j] == p;
      var fits := n <= 17535 && |record| - n - m - 1 <= 17535;
      Accepts(version, hmac, header, record) <==>
      fits && matches && (version != 30 && m + p + 1 <= |record| ==> agrees)
  {
  }

  /** The check one would write without regard to timing (section 6.2.3.2 of RFC 5246). */
  ghost predicate NaiveAccepts(hmac: Hmac, header: seq<byte>, record: seq<byte>)
    reads hmac
  {
    var macSize := hmac.alg.MacSize();
    && macSize < |record| && UpdatesFit(record, macSize)
    && PaddingFits(record, macSize)
    && (var p: int := PaddingLength(record);
        var n := |record| - macSize - p - 1;
        && record[n + macSize..] == Repeat(p, p + 1)
        && record[n..n + macSize] == hmac.Tag(header + record[..n]))
  }

  /** The masked check is the naive one whenever the padding fits, and a bare MAC check otherwise. */
  lemma AcceptsIffNaive(version: int, hmac: Hmac, header: seq<byte>, record: seq<byte>)
    requires version != 30
    requires hmac.alg.MacSize() < |record| && UpdatesFit(record, hmac.alg.MacSize())
    ensures PaddingFits(record, hmac.alg.MacSize()) ==>
      (Accepts(version, hmac, header, record) <==> NaiveAccepts(hmac, header, record))
    ensures !PaddingFits(record, hmac.alg.MacSize()) ==>
      && !NaiveAccepts(hmac, header, record)
      && (Accepts(version, hmac, header, record) <==> record[..hmac.alg.MacSize()] == hmac.Tag(header))
  {
    var macSize := hmac.alg.MacSize();
    var p: int := PaddingLength(record);
    if PaddingFits(record, macSize) {
      var padding := record[|record| - p - 1..];
      assert PaddingBytesAgree(record, macSize) <==> padding == Repeat(p, p + 1) by {
        assert forall j :: |record| - p - 1 <= j < |record| ==> record[j] == padding[j - (|record| - p - 1)];
      }
    } else {
      assert header + record[..0] == header;
    }
  }

  /**
   The two checks agree on every record of a size exactly when no padding length can overrun it:
   a shorter record with an overlong padding length byte is accepted on its MAC alone.
   */
  lemma AcceptsIffNaiveForSize(version: int, hmac: Hmac, header: seq<byte>, size: nat)
    requires version != 30 && hmac.alg.MacSize() < size <= MAX_UPDATE
    ensures (forall record :: |record| == size ==>
              (Accepts(version, hmac, header, record) <==> NaiveAccepts(hmac, header, record)))
       <==> hmac.alg.MacSize() + 256 <= size
  {
    var macSize := hmac.alg.MacSize();
    if macSize + 256 <= size {
      forall record | |record| == size
        ensures Accepts(version, hmac, header, record) <==> NaiveAccepts(hmac, header, record)
      {
        AcceptsIffNaive(version, hmac, header, record);
      }
    } else {
      var record := hmac.Tag(header) + Repeat(255, size - macSize);
      assert record[..macSize] == hmac.Tag(header);
      AcceptsIffNaive(version, hmac, header, record);
    }
  }

  /** What the payload's MAC and the hashing of the rest cost, added up. */
  lemma VerifyWorkSplit(alg: HmacAlg, inner: nat, outer: nat, header: nat, size: nat,
                        payload: nat, partial: nat, macWork: int, restWork: int)
    requires payload + alg.MacSize() < size
    requires partial == (inner + header + payload) % alg.HashBlockSize()
    requires macWork == UpdateWork(alg.Hash(), inner + header, payload) + Contexts(alg.Hash(), 2)
    requires restWork == UpdateWork(alg.Hash(), inner, partial + size - 1 - (payload + alg.MacSize()))
    ensures macWork + OuterWork(alg, outer) + restWork == VerifyWork(alg, inner, outer, header, size)
  {
    SplitWork(alg.Hash(), inner + header, inner, payload, size - payload - alg.MacSize() - 1);
  }

  /** Hashes the partial block and everything after the MAC on a reset state. */
  method HashRest(hmac: Hmac, decrypted: seq<byte>, afterMac: nat, inBlock: nat) returns (ok: bool)
    requires hmac.Keyed() && afterMac < |decrypted| <= INT_MAX && inBlock < 128 && inBlock <= |decrypted|
    modifies hmac`currentlyInHashBlock, hmac.inner
    ensures hmac.Keyed()
    ensures ok <==> |decrypted| - 1 - afterMac <= MAX_UPDATE
    ensures ok ==>
      hmac.inner.work - old(hmac.inner.work) ==
      UpdateWork(hmac.alg.Hash(), |hmac.innerPrefix|, inBlock + |decrypted| - 1 - afterMac)
  {
    ok := hmac.Reset();
    var partial, rest := decrypted[..inBlock], decrypted[afterMac..|decrypted| - 1];
    ghost var hash, n, work := hmac.alg.Hash(), |hmac.innerPrefix|, hmac.inner.work;
    ok := hmac.Update(partial);
    assert hmac.Absorbing([] + partial) && |hmac.innerPrefix + ([] + partial)| == n + inBlock;
    assert hmac.inner.work == work + UpdateWork(hash, n, inBlock);
    ok := hmac.Update(rest);
    assert ok ==> hmac.inner.work == work + UpdateWork(hash, n, inBlock) + UpdateWork(hash, n + inBlock, |rest|);
    UpdateWorkAdds(hash, n, inBlock, |rest|);
  }

  /** The MAC of header and payload, and how full its last block was before finalisation. */
  method MacPayload(hmac: Hmac, payload: seq<byte>, ghost header: seq<byte>, ghost limit: nat)
    returns (digest: Option<seq<byte>>, inBlock: nat)
    requires hmac.Absorbing(header) && |payload| <= INT_MAX
    requires |hmac.inner.absorbed| + |payload| <= UINT64_MAX
    requires (hmac.currentlyInHashBlock + |payload|) % hmac.hashBlockSize <= limit
    modifies hmac`currentlyInHashBlock, hmac.inner, hmac.outer, hmac.digestPad
    ensures hmac.Keyed()
    ensures digest == if |payload| <= MAX_UPDATE then Some(hmac.Tag(header + payload)) else None
    ensures digest.Some? ==> inBlock <= limit && inBlock < 128
    ensures digest.Some? ==> inBlock == (|hmac.innerPrefix| + |header| + |payload|) % hmac.alg.HashBlockSize()
    ensures digest.Some? ==>
      hmac.inner.work - old(hmac.inner.work) ==
      UpdateWork(hmac.alg.Hash(), |hmac.innerPrefix| + |header|, |payload|) + Contexts(hmac.alg.Hash(), 2)
    ensures digest.Some? ==>
      hmac.outer.work - old(hmac.outer.work) == OuterWork(hmac.alg, |hmac.outerPrefix|)
  {
    var updated := hmac.Update(payload);
    inBlock := hmac.currentlyInHashBlock;
    if !updated {
      return None, inBlock;
    }
    assert hmac.Absorbing(header + payload);
    digest := hmac.DigestTwoCompressionRounds(hmac.alg.MacSize());
  }

  /** What is left to hash when the MAC took `macWork` compressions. */
  method HashAfterMac(hmac: Hmac, decrypted: seq<byte>, n: nat, inBlock: nat, ghost header: nat, ghost macWork: int)
    returns (ok: bool)
    requires hmac.Keyed() && n + hmac.alg.MacSize() < |decrypted| <= INT_MAX && inBlock < 128 && inBlock <= |decrypted|
    requires inBlock == (|hmac.innerPrefix| + header + n) % hmac.alg.HashBlockSize()
    requires macWork == UpdateWork(hmac.alg.Hash(), |hmac.innerPrefix| + header, n) + Contexts(hmac.alg.Hash(), 2)
    modifies hmac`currentlyInHashBlock, hmac.inner
    ensures hmac.Keyed()
    ensures ok <==> |decrypted| - 1 - (n + hmac.alg.MacSize()) <= MAX_UPDATE
    ensures ok ==>
      macWork + OuterWork(hmac.alg, |hmac.outerPrefix|) + hmac.inner.work - old(hmac.inner.work) ==
      VerifyWork(hmac.alg, |hmac.innerPrefix|, |hmac.outerPrefix|, header, |decrypted|)
  {
    ok := HashRest(hmac, decrypted, n + hmac.alg.MacSize(), inBlock);
    if ok {
      VerifyWorkSplit(hmac.alg, |hmac.innerPrefix|, |hmac.outerPrefix|, header, |decrypted|, n, inBlock, macWork,
                      hmac.inner.work - old(hmac.inner.work));
    }
  }

  /** The MAC after `n` payload bytes, and the rest hashed too; None if an update refuses its input. */
  method HashAll(hmac: Hmac, decrypted: seq<byte>, n: nat, ghost header: seq<byte>) returns (digest: Option<seq<byte>>)
    requires hmac.Absorbing(header) && n + hmac.alg.MacSize() < |decrypted| <= INT_MAX
    requires |hmac.inner.absorbed| + |decrypted| <= UINT64_MAX
    requires (hmac.currentlyInHashBlock + n) % hmac.hashBlockSize <= |decrypted|
    modifies hmac`currentlyInHashBlock, hmac.inner, hmac.outer, hmac.digestPad
    ensures hmac.Keyed()
    ensures digest.Some? <==> n <= MAX_UPDATE && |decrypted| - 1 - (n + hmac.alg.MacSize()) <= MAX_UPDATE
    ensures digest.Some? ==> digest.value == hmac.Tag(header + decrypted[..n])
    ensures digest.Some? ==>
      hmac.inner.work + hmac.outer.work - old(hmac.inner.work + hmac.outer.work) ==
      VerifyWork(hmac.alg, |hmac.innerPrefix|, |hmac.outerPrefix|, |header|, |decrypted|)
  {
    var payload := decrypted[..n];
    var inBlock;
    digest, inBlock := MacPayload(hmac, payload, header, |decrypted|);
    if digest.None? {
      return;
    }
    var updated := HashAfterMac(hmac, decrypted, n, inBlock, |header|, hmac.inner.work - old(hmac.inner.work));
    if !updated {
      return None;
    }
  }

  /** 0 or 1 for a matching or mismatching MAC; None if an update refuses its input. */
  method HashAndCompare(hmac: Hmac, decrypted: seq<byte>, n: nat, ghost header: seq<byte>)
    returns (mismatches: Option<nat>)
    requires hmac.Absorbing(header) && n + hmac.alg.MacSize() < |decrypted| <= INT_MAX
    requires |hmac.inner.absorbed| + |decrypted| <= UINT64_MAX
    requires (hmac.currentlyInHashBlock + n) % hmac.hashBlockSize <= |decrypted|
    modifies hmac`currentlyInHashBlock, hmac.inner, hmac.outer, hmac.digestPad
    ensures hmac.Keyed()
    ensures mismatches.Some? <==> n <= MAX_UPDATE && |decrypted| - 1 - (n + hmac.alg.MacSize()) <= MAX_UPDATE
    ensures mismatches.Some? ==>
      mismatches.value ==
      if hmac.Tag(header + decrypted[..n]) == decrypted[n..n + hmac.alg.MacSize()] then 0 else 1
    ensures mismatches.Some? ==>
      hmac.inner.work + hmac.outer.work - old(hmac.inner.work + hmac.outer.work) ==
      VerifyWork(hmac.alg, |hmac.innerPrefix|, |hmac.outerPrefix|, |header|, |decrypted|)
  {
    var checkDigest := HashAll(hmac, decrypted, n, header);
    if checkDigest.None? {
      return None;
    }
    return Some(if decrypted[n..n + hmac.alg.MacSize()] == checkDigest.value then 0 else 1);
  }

  /** The check, as a predicate says it. */
  method CheckCbc(version: int, hmac: Hmac, decrypted: seq<byte>, ghost header: seq<byte>) returns (ok: bool)
    requires hmac.Absorbing(header) && |decrypted| <= INT_MAX
    requires |hmac.inner.absorbed| + |decrypted| <= UINT64_MAX
    requires ReadsInBounds(hmac.alg, hmac.currentlyInHashBlock, decrypted)
    modifies hmac`currentlyInHashBlock, hmac.inner, hmac.outer, hmac.digestPad
    ensures hmac.Keyed()
    ensures ok <==> Accepts(version, hmac, header, decrypted)
    ensures hmac.alg.MacSize() < |decrypted| && UpdatesFit(decrypted, hmac.alg.MacSize()) ==>
      hmac.Work() - old(hmac.Work()) ==
      VerifyWork(hmac.alg, |hmac.innerPrefix|, |hmac.outerPrefix|, |header|, |decrypted|)
    ensures hmac.alg.MacSize() < |decrypted| <= MAX_UPDATE + hmac.alg.MacSize() + 1 ==>
      hmac.Work() - old(hmac.Work()) ==
      VerifyWork(hmac.alg, |hmac.innerPrefix|, |hmac.outerPrefix|, |header|, |decrypted|)
  {
    var macSize := hmac.alg.MacSize();
    if |decrypted| <= macSize {
      return false;
    }
    if |decrypted| <= MAX_UPDATE + macSize + 1 {
      RecordsFit(decrypted, macSize);
    }
    var payloadAndPadding := |decrypted| - macSize;
    var paddingLength := decrypted[|decrypted| - 1];
    var payloadLength := if payloadAndPadding - paddingLength - 1 > 0 then payloadAndPadding - paddingLength - 1 else 0;
    assert payloadLength == PayloadLength(decrypted, macSize);
    var compared := HashAndCompare(hmac, decrypted, payloadLength, header);
    assert compared.Some? <==> UpdatesFit(decrypted, macSize);
    assert compared.Some? ==> (compared.value == 0 <==> MacMatches(hmac, header, decrypted));
    if compared.None? {
      return false;
    }
    var mismatches := compared.value;
    if version == S2N_SSLv3 {
      return mismatches == 0;
    }
    mismatches := PaddingMismatches(decrypted, macSize, mismatches);
    return mismatches == 0;
  }

  method VerifyCbc(version: int, hmac: Hmac, decrypted: seq<byte>, ghost header: seq<byte>) returns (ok: bool)
    requires hmac.Absorbing(header) && |decrypted| <= INT_MAX
    requires |hmac.inner.absorbed| + |decrypted| <= UINT64_MAX
    requires ReadsInBounds(hmac.alg, hmac.currentlyInHashBlock, decrypted)
    modifies hmac`currentlyInHashBlock, hmac.inner, hmac.outer, hmac.digestPad
    ensures hmac.Keyed()
    ensures ok <==> Accepts(version, hmac, header, decrypted)
    ensures |decrypted| <= hmac.alg.MacSize() ==> !ok
    ensures hmac.alg.MacSize() < |decrypted| ==>
      var m: int, p: int := hmac.alg.MacSize(), decrypted[|decrypted| - 1];
      var n := if |decrypted| - m - p - 1 >= 0 then |decrypted| - m - p - 1 else 0;
      var matches := decrypted[n..n + m] == hmac.Tag(header + decrypted[..n]);
      var agrees := forall j :: |decrypted| - 1 - p <= j < |decrypted| && 0 <= j ==> decrypted[j] == p;
      var fits := n <= 17535 && |decrypted| - n - m - 1 <= 17535;
      ok <==> fits && matches && (version != 30 && m + p + 1 <= |decrypted| ==> agrees)
    ensures hmac.alg.MacSize() < |decrypted| && UpdatesFit(decrypted, hmac.alg.MacSize()) ==>
      hmac.Work() - old(hmac.Work()) ==
      VerifyWork(hmac.alg, |hmac.innerPrefix|, |hmac.outerPrefix|, |header|, |decrypted|)
    ensures hmac.alg.MacSize() < |decrypted| <= MAX_UPDATE + hmac.alg.MacSize() + 1 ==>
      hmac.Work() - old(hmac.Work()) ==
      VerifyWork(hmac.alg, |hmac.innerPrefix|, |hmac.outerPrefix|, |header|, |decrypted|)
  {
    ok := CheckCbc(version, hmac, decrypted, header);
    AcceptsExactly(version, hmac, header, decrypted);
  }
}
