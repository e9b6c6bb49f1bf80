/** Loading a certificate chain from PEM. */
module Certificates {
  import opened Bytes
  import opened Stuffers
  import Pem
  import Text

  /**
   The certificates at the front of a text, whether they are all of it, and whether the text is used up:
   by them, or by the attempt to read one more.
   */
  datatype Chain = Chain(certs: seq<seq<byte>>, complete: bool, exhausted: bool)

  function ParseChain(t: seq<byte>, i: nat): (c: Chain)
    requires i <= |t|
    decreases |t| - i
  {
    var found := Pem.Object(t, i, Pem.CERTIFICATE);
    if found.None? then Chain([], false, Pem.ObjectStop(t, i, Pem.CERTIFICATE) == |t|) else
      var (j, der) := found.value;
      if j == |t| then Chain([der], true, true) else
        var rest := ParseChain(t, j);
        Chain([der] + rest.certs, rest.complete, rest.exhausted)
  }

  /** Text without a dash after the last certificate is ignored. */
  lemma TrailingText(t: seq<byte>, i: nat)
    requires i <= |t| && forall k :: i <= k < |t| ==> t[k] != Pem.DASH
    ensures ParseChain(t, i) == Chain([], false, true)
  {
    Text.SkipToIff(t, i, Pem.DASH, |t|);
    Text.SkipRunIff(t, |t|, Pem.DASH, Pem.MAX_DASHES, |t|);
  }

  /** Bytes of the certificate list the chain makes, each certificate with its 3-byte length. */
  function ChainSize(certs: seq<seq<byte>>): (n: nat)
  {
    if certs == [] then 0 else ChainSize(certs[..|certs| - 1]) + |certs[|certs| - 1]| + 3
  }

  /** The chains from every position of a text. */
  ghost predicate IsPlan(plan: seq<Chain>, t: seq<byte>) {
    |plan| == |t| + 1 && forall i {:trigger ParseChain(t, i)} :: 0 <= i <= |t| ==> plan[i] == ParseChain(t, i)
  }

  /** The certificate bytes decoded so far are bounded by the text consumed, so the buffer can always grow. */
  ghost predicate Room(pem: Stuffer, certOut: Stuffer, i0: nat)
    reads pem, certOut
  {
    && pem.Valid() && certOut.Valid() && certOut.growable && !certOut.tainted
    && certOut.read == certOut.write && i0 <= pem.read && 4 * certOut.write <= 3 * (pem.read - i0)
  }

  ghost predicate Follows(plan: seq<Chain>, i: nat, der: seq<byte>, j: nat)
    requires i < |plan| && j < |plan|
  {
    plan[i] ==
    if j == |plan| - 1 then Chain([der], true, true)
    else Chain([der] + plan[j].certs, plan[j].complete, plan[j].exhausted)
  }

  /** Decodes the next certificate into the growing buffer. */
  method DecodeNext(pem: Stuffer, certOut: Stuffer, ghost i0: nat, ghost plan: seq<Chain>)
    returns (ok: bool, ghost der: seq<byte>)
    requires pem != certOut && Room(pem, certOut, i0) && IsPlan(plan, pem.Contents())
    modifies pem`read, certOut`mem, certOut`size, certOut`write, certOut`highWater
    ensures pem.Valid() && certOut.Valid()
    ensures ok ==>
      && old(pem.read) + |der| + 3 <= pem.read && 4 * |der| <= 3 * (pem.read - old(pem.read))
      && certOut.Contents() == old(certOut.Contents()) + der
      && Follows(plan, old(pem.read), der, pem.read)
    ensures !ok ==> plan[old(pem.read)] == Chain([], false, pem.read == pem.write)
  {
    ghost var found := Pem.Object(pem.Contents(), pem.read, Pem.CERTIFICATE);
    PlanStep(plan, pem.Contents(), pem.read, found);
    ok := Pem.DataFromPem(pem, certOut, Pem.CERTIFICATE);
    der := if found.Some? then found.value.1 else [];
  }

  /** One round of the loop: the next certificate, or no more. An empty one is left to the caller to refuse. */
  method NextCertificate(pem: Stuffer, certOut: Stuffer, ghost i0: nat, ghost plan: seq<Chain>)
    returns (ok: bool, der: seq<byte>)
    requires pem != certOut && Room(pem, certOut, i0) && IsPlan(plan, pem.Contents())
    modifies pem`read, certOut`read, certOut`mem, certOut`size, certOut`write, certOut`highWater
    ensures pem.Valid()
    ensures ok ==>
      && Room(pem, certOut, i0) && old(pem.read) + |der| + 3 <= pem.read
      && Follows(plan, old(pem.read), der, pem.read)
    ensures !ok ==> plan[old(pem.read)] == Chain([], false, pem.read == pem.write)
  {
    ghost var next;
    ok, next := DecodeNext(pem, certOut, i0, plan);
    if !ok {
      return false, [];
    }
    var available := certOut.write - certOut.read;
    assert certOut.Unread() == next;
    if available == 0 {
      return true, [];
    }
    var raw := certOut.ReadBytes(available);
    der := raw.value;
    assert der == next;
  }

  lemma PlanStep(plan: seq<Chain>, t: seq<byte>, i: nat, found: Option<(nat, seq<byte>)>)
    requires IsPlan(plan, t) && i <= |t| && found == Pem.Object(t, i, Pem.CERTIFICATE)
    ensures found.None? ==> plan[i] == Chain([], false, Pem.ObjectStop(t, i, Pem.CERTIFICATE) == |t|)
    ensures found.Some? ==>
      var (j, der) := found.value;
      && i + |der| + 3 <= j <= |t| && 4 * |der| <= 3 * (j - i)
      && Follows(plan, i, der, j)
  {
    assert plan[i] == ParseChain(t, i);
    if found.Some? {
      assert plan[found.value.0] == ParseChain(t, found.value.0);
    }
  }

  lemma OneMore(certs: seq<seq<byte>>, der: seq<byte>, rest: seq<seq<byte>>)
    ensures certs + ([der] + rest) == certs + [der] + rest
    ensures ChainSize(certs + [der]) == ChainSize(certs) + |der| + 3
  {
    assert (certs + [der])[..|certs|] == certs;
  }

  method CreateCertChainFromStuffer(pem: Stuffer) returns (r: Option<(seq<seq<byte>>, nat)>)
    requires pem.Valid()
    modifies pem`read
    ensures pem.Valid()
    ensures var chain := old(ParseChain(pem.Contents(), pem.read));
      && (r.Some? <==> chain.certs != [] && [] !in chain.certs && chain.exhausted)
      && (r.Some? ==>
            r.value.0 == chain.certs && r.value.1 == ChainSize(chain.certs) && pem.read == pem.write)
  {
    var certOut := new Stuffer.Alloc(2048, true);
    ghost var t := pem.Contents();
    ghost var plan := seq(|t| + 1, i requires 0 <= i <= |t| => ParseChain(t, i));
    assert plan[pem.read] == ParseChain(t, pem.read);
    r := LoadCertificates(pem, certOut, plan);
  }

  /** `certs` have been loaded, and `rest` follows them in the chain: from here on, or nothing any more. */
  ghost predicate Loading(pem: Stuffer, certOut: Stuffer, i0: nat, plan: seq<Chain>, chain: Chain,
                          certs: seq<seq<byte>>, chainSize: nat, rest: Chain, more: bool)
    reads pem, certOut
  {
    && pem.Valid() && IsPlan(plan, pem.Contents())
    && (more ==> Room(pem, certOut, i0) && rest == plan[pem.read] && chainSize <= pem.read - i0)
    && (!more ==> certs != [] && rest.certs == [] && rest.exhausted == (pem.read == pem.write))
    && chain == Chain(certs + rest.certs, rest.complete, rest.exhausted)
    && chainSize == ChainSize(certs) && [] !in certs && (certs == [] <==> chainSize == 0)
  }

  /** One round of the loop. */
  method LoadNext(pem: Stuffer, certOut: Stuffer, certs: seq<seq<byte>>, chainSize: nat, ghost i0: nat,
                  ghost plan: seq<Chain>, ghost chain: Chain, ghost rest: Chain)
    returns (ok: bool, more: bool, certs': seq<seq<byte>>, chainSize': nat, ghost rest': Chain)
    requires pem != certOut && Loading(pem, certOut, i0, plan, chain, certs, chainSize, rest, true)
    modifies pem`read, certOut`read, certOut`mem, certOut`size, certOut`write, certOut`highWater
    ensures pem.Valid()
    ensures ok ==> Loading(pem, certOut, i0, plan, chain, certs', chainSize', rest', more)
    ensures ok && more ==> old(pem.read) < pem.read
    ensures !ok ==> chain.certs == [] || [] in chain.certs
  {
    more, certs', chainSize', rest' := false, certs, chainSize, rest;
    var der;
    ok, der := NextCertificate(pem, certOut, i0, plan);
    if !ok {
      rest' := Chain([], false, pem.read == pem.write);
      return chainSize > 0, false, certs, chainSize, rest';
    }
    if der == [] {
      return false, false, certs, chainSize, rest;
    }
    chainSize' := (chainSize + |der| + 3) % 0x1_0000_0000;
    more := pem.write - pem.read > 0;
    rest' := if more then plan[pem.read] else Chain([], true, true);
    OneMore(certs, der, rest'.certs);
    certs' := certs + [der];
  }

  method LoadCertificates(pem: Stuffer, certOut: Stuffer, ghost plan: seq<Chain>)
    returns (r: Option<(seq<seq<byte>>, nat)>)
    requires pem != certOut && Room(pem, certOut, pem.read) && certOut.write == 0 && IsPlan(plan, pem.Contents())
    modifies pem`read, certOut`read, certOut`mem, certOut`size, certOut`write, certOut`highWater
    ensures pem.Valid()
    ensures var chain := plan[old(pem.read)];
      && (r.Some? <==> chain.certs != [] && [] !in chain.certs && chain.exhausted)
      && (r.Some? ==>
            r.value.0 == chain.certs && r.value.1 == ChainSize(chain.certs) && pem.read == pem.write)
  {
    ghost var i0, chain := pem.read, plan[pem.read];
    var certs: seq<seq<byte>>, chainSize: nat, more, ok := [], 0, true, true;
    ghost var rest := chain;
    assert [] + chain.certs == chain.certs;
    while more
      invariant Loading(pem, certOut, i0, plan, chain, certs, chainSize, rest, more)
      decreases more, pem.write - pem.read
    {
      ok, more, certs, chainSize, rest := LoadNext(pem, certOut, certs, chainSize, i0, plan, chain, rest);
      if !ok {
        return None;
      }
    }
    assert certs + [] == certs;
    if pem.write - pem.read > 0 {
      return None;
    }
    return Some((certs, chainSize));
  }
}
