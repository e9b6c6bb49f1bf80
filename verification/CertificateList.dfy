/** The certificate_list of the TLS Certificate message: sent up to TLS 1.2, and converted from TLS 1.3. */
module CertificateLists {
  import opened Bytes
  import opened Stuffers
  import opened NetworkOrder
  import opened Certificates

  const MAX_CERT := 0x100_0000
  const MAX_EXTENSIONS := 0x1_0000
  const TLS13 := 34

  /** Bytes with a length prefix of w bytes. */
  function Vector(data: seq<byte>, w: nat): (s: seq<byte>)
  {
    ToBE(|data|, w) + data
  }

  /** The list of section 7.4.2 of RFC 5246: every certificate with a 3-byte length. */
  function List12(certs: seq<seq<byte>>): (s: seq<byte>)
  {
    if certs == [] then [] else List12(certs[..|certs| - 1]) + Vector(certs[|certs| - 1], 3)
  }

  lemma List12Append(certs: seq<seq<byte>>, cert: seq<byte>)
    ensures List12(certs + [cert]) == List12(certs) + Vector(cert, 3)
    ensures ChainSize(certs + [cert]) == ChainSize(certs) + 3 + |cert|
  {
    assert (certs + [cert])[..|certs|] == certs;
  }

  lemma {:induction false} List12Size(certs: seq<seq<byte>>)
    ensures |List12(certs)| == ChainSize(certs)
  {
    if certs != [] {
      List12Size(certs[..|certs| - 1]);
    }
  }

  lemma {:induction false} SizeOfEach(certs: seq<seq<byte>>, k: nat)
    requires k < |certs|
    ensures |certs[k]| + 3 <= ChainSize(certs)
  {
    if k < |certs| - 1 {
      SizeOfEach(certs[..|certs| - 1], k);
    }
  }

  // ---------- sending, up to TLS 1.2 ----------

  /**
   A chain is sent only with exact lengths: each one is written modulo 2^24, but a certificate that
   does not fit three bytes makes the whole list too long, and then closing the list fails.
   */
  method SendCertChain(out: Stuffer, certs: seq<seq<byte>>) returns (ok: bool)
    requires out.Valid() && forall k :: 0 <= k < |certs| ==> |certs[k]| <= UINT32_MAX
    modifies out`mem, out`size, out`write, out`highWater
    ensures out.Valid()
    ensures ok ==>
      && certs != [] && ChainSize(certs) < 0x100_0000
      && out.Contents() == old(out.Contents()) + (ToBE(ChainSize(certs), 3) + List12(certs))
      && forall k :: 0 <= k < |certs| ==> |certs[k]| < 0x100_0000
    ensures certs != [] && ChainSize(certs) < 0x100_0000 && old(out.Accommodates(3 + ChainSize(certs))) ==> ok
  {
    if certs == [] {
      return false;
    }
    ghost var before := out.Contents();
    var reservation := ReserveFor(out, 3, ChainSize(certs));
    if reservation.None? {
      return false;
    }
    ok := SendCerts(out, certs);
    if !ok {
      return;
    }
    List12Size(certs);
    assert Pow256(3) == MAX_CERT;
    ok := CloseVector(out, reservation.value, before, List12(certs));
    if ok {
      EachFits(certs);
    }
  }

  lemma EachFits(certs: seq<seq<byte>>)
    requires ChainSize(certs) < MAX_CERT
    ensures forall k :: 0 <= k < |certs| ==> |certs[k]| < MAX_CERT
  {
    forall k | 0 <= k < |certs| ensures |certs[k]| < MAX_CERT { SizeOfEach(certs, k); }
  }

  method SendCerts(out: Stuffer, certs: seq<seq<byte>>) returns (ok: bool)
    requires out.Valid() && forall k :: 0 <= k < |certs| ==> |certs[k]| <= UINT32_MAX
    modifies out`mem, out`size, out`write, out`highWater
    ensures out.Valid()
    ensures ok ==> out.Contents() == old(out.Contents()) + List12(certs)
    ensures old(out.Accommodates(ChainSize(certs))) ==> ok
  {
    for i := 0 to |certs|
      invariant out.Valid() && out.Contents() == old(out.Contents()) + List12(certs[..i])
      invariant ChainSize(certs[..i]) <= ChainSize(certs)
      invariant old(out.Accommodates(ChainSize(certs))) ==> out.Accommodates(ChainSize(certs) - ChainSize(certs[..i]))
    {
      assert certs[..i + 1] == certs[..i] + [certs[i]];
      List12Append(certs[..i], certs[i]);
      SizeGrows(certs, i + 1);
      Assoc(old(out.Contents()), List12(certs[..i]), Vector(certs[i], 3));
      ok := SendCert(out, certs[i]);
      if !ok {
        return;
      }
    }
    assert certs[..|certs|] == certs;
    return true;
  }

  lemma {:induction false} SizeGrows(certs: seq<seq<byte>>, i: nat)
    requires i <= |certs|
    ensures ChainSize(certs[..i]) <= ChainSize(certs)
  {
    if i < |certs| {
      assert certs[..|certs| - 1][..i] == certs[..i];
      SizeGrows(certs[..|certs| - 1], i);
    } else {
      assert certs[..i] == certs;
    }
  }

  method SendCert(out: Stuffer, cert: seq<byte>) returns (ok: bool)
    requires out.Valid() && |cert| <= UINT32_MAX
    modifies out`mem, out`size, out`write, out`highWater
    ensures out.Valid()
    ensures ok ==> out.Contents() == old(out.Contents()) + Vector(cert, 3)
    ensures forall n: nat :: 3 + |cert| <= n && old(out.Accommodates(n)) ==> ok && out.Accommodates(n - 3 - |cert|)
  {
    ok := WriteNetworkOrder(out, |cert|, 3);
    if ok {
      Assoc(old(out.Contents()), ToBE(|cert|, 3), cert);
      ok := out.WriteBytes(cert);
    }
  }

  // ---------- receiving in TLS 1.3 ----------

  /** A CertificateEntry of section 4.4.2 of RFC 8446. */
  datatype CertEntry = CertEntry(cert: seq<byte>, extensions: seq<byte>)

  function Entry13(e: CertEntry): (s: seq<byte>)
  {
    Vector(e.cert, 3) + Vector(e.extensions, 2)
  }

  function List13(es: seq<CertEntry>): (s: seq<byte>)
  {
    if es == [] then [] else Entry13(es[0]) + List13(es[1..])
  }

  ghost predicate Encodable(es: seq<CertEntry>) {
    forall k :: 0 <= k < |es| ==> |es[k].cert| < 0x100_0000 && |es[k].extensions| < 0x1_0000
  }

  function Certs(es: seq<CertEntry>): (certs: seq<seq<byte>>)
  {
    seq(|es|, k requires 0 <= k < |es| => es[k].cert)
  }

  lemma {:induction false} List12Cons(cert: seq<byte>, certs: seq<seq<byte>>)
    ensures List12([cert] + certs) == Vector(cert, 3) + List12(certs)
    decreases |certs|
  {
    var all := [cert] + certs;
    if certs == [] {
      assert all[..0] == [] && List12([]) == [] && [] + Vector(cert, 3) == Vector(cert, 3) == Vector(cert, 3) + [];
    } else {
      var last := certs[|certs| - 1];
      assert all[..|all| - 1] == [cert] + certs[..|certs| - 1];
      List12Cons(cert, certs[..|certs| - 1]);
      Assoc(Vector(cert, 3), List12(certs[..|certs| - 1]), Vector(last, 3));
    }
  }

  /**
   Both lists, byte by byte from the front: three bytes of length and the certificate, and in TLS 1.3
   two bytes of length and the extensions.
   */
  lemma ListsAre(e: CertEntry, es: seq<CertEntry>)
    ensures Certs([e] + es) == [e.cert] + Certs(es)
    ensures var n := |e.cert|;
      List12([e.cert] + Certs(es)) ==
      [n / 0x1_0000 % 0x100, n / 0x100 % 0x100, n % 0x100] + e.cert + List12(Certs(es))
    ensures var n, m := |e.cert|, |e.extensions|;
      List13([e] + es) ==
      [n / 0x1_0000 % 0x100, n / 0x100 % 0x100, n % 0x100] + e.cert + [m / 0x100 % 0x100, m % 0x100] + e.extensions
      + List13(es)
    ensures List12([]) == [] && List13([]) == []
  {
    ToBE3(|e.cert|);
    ToBE2(|e.extensions|);
    List12Cons(e.cert, Certs(es));
    assert ([e] + es)[1..] == es;
    Assoc(Vector(e.cert, 3), ToBE(|e.extensions|, 2), e.extensions);
  }

  /** The position after the vector at i, which has a length prefix of w bytes. */
  function VectorEnd(t: seq<byte>, i: nat, w: nat): (r: Option<nat>)
    requires i <= |t|
    ensures r.Some? ==> i + w <= r.value <= |t|
  {
    if |t| - i < w || |t| - i - w < BE(t[i..i + w]) then None else Some(i + w + BE(t[i..i + w]))
  }

  /** The entry at i, and the position after it. */
  function NextEntry(t: seq<byte>, i: nat): (r: Option<(CertEntry, nat)>)
    requires i <= |t|
    ensures r.Some? ==> i + |r.value.0.cert| + 5 <= r.value.1 <= |t|
  {
    var a := VectorEnd(t, i, 3);
    if a.None? then None else
      var b := VectorEnd(t, a.value, 2);
      if b.None? then None else Some((CertEntry(t[i + 3..a.value], t[a.value + 2..b.value]), b.value))
  }

  /** The entries that make up the text from i on. */
  function Entries(t: seq<byte>, i: nat): (r: Option<seq<CertEntry>>)
    requires i <= |t|
    decreases |t| - i
  {
    if i == |t| then Some([]) else
      var first := NextEntry(t, i);
      if first.None? then None else
        var rest := Entries(t, first.value.1);
        if rest.None? then None else Some([first.value.0] + rest.value)
  }

  lemma VectorReads(t: seq<byte>, i: nat, w: nat, data: seq<byte>, rest: seq<byte>) returns (j: nat)
    requires i <= |t| && t[i..] == Vector(data, w) + rest && |data| < Pow256(w)
    ensures j == i + w + |data| <= |t| && VectorEnd(t, i, w) == Some(j) && t[i + w..j] == data && t[j..] == rest
  {
    j := i + w + |data|;
    var u := Vector(data, w) + rest;
    assert t[i..i + w] == u[..w] == ToBE(|data|, w);
    assert t[i + w..j] == u[w..w + |data|] == data;
    assert t[j..] == u[w + |data|..] == rest;
    ReadsBack(|data|, w);
  }

  lemma VectorWrites(t: seq<byte>, i: nat, w: nat)
    requires i <= |t| && VectorEnd(t, i, w).Some?
    ensures var j := VectorEnd(t, i, w).value;
      var data := t[i + w..j];
      |data| < Pow256(w) && t[i..] == Vector(data, w) + t[j..]
  {
    var n := t[i..i + w];
    BEBound(n);
    ToBEBE(n);
  }

  lemma EntryReads(t: seq<byte>, i: nat, e: CertEntry, rest: seq<byte>) returns (j: nat)
    requires i <= |t| && t[i..] == Entry13(e) + rest
    requires |e.cert| < MAX_CERT && |e.extensions| < MAX_EXTENSIONS
    ensures j <= |t| && t[j..] == rest && NextEntry(t, i) == Some((e, j))
  {
    assert Pow256(3) == MAX_CERT && Pow256(2) == MAX_EXTENSIONS;
    Assoc(Vector(e.cert, 3), Vector(e.extensions, 2), rest);
    var a := VectorReads(t, i, 3, e.cert, Vector(e.extensions, 2) + rest);
    j := VectorReads(t, a, 2, e.extensions, rest);
  }

  lemma EntriesStep(t: seq<byte>, i: nat, es: seq<CertEntry>, j: nat)
    requires i < |t| && j <= |t| && es != [] && NextEntry(t, i) == Some((es[0], j)) && Entries(t, j) == Some(es[1..])
    ensures Entries(t, i) == Some(es)
  {
    assert [es[0]] + es[1..] == es;
  }

  /** Every list of entries that can be encoded is read back. */
  lemma {:induction false} EntriesOfList(t: seq<byte>, i: nat, es: seq<CertEntry>)
    requires i <= |t| && t[i..] == List13(es) && Encodable(es)
    ensures Entries(t, i) == Some(es)
    decreases |es|
  {
    if es != [] {
      var j := EntryReads(t, i, es[0], List13(es[1..]));
      EntriesOfList(t, j, es[1..]);
      EntriesStep(t, i, es, j);
    }
  }

  lemma EntryWrites(t: seq<byte>, i: nat)
    requires i <= |t| && NextEntry(t, i).Some?
    ensures var (e, j) := NextEntry(t, i).value;
      && |e.cert| < MAX_CERT && |e.extensions| < MAX_EXTENSIONS && t[i..] == Entry13(e) + t[j..]
  {
    var (e, j) := NextEntry(t, i).value;
    assert Pow256(3) == MAX_CERT && Pow256(2) == MAX_EXTENSIONS;
    var a := i + 3 + |e.cert|;
    VectorWrites(t, i, 3);
    VectorWrites(t, a, 2);
    TwoAfter(t, i, Vector(e.cert, 3), a, Vector(e.extensions, 2), j);
  }

  lemma TwoAfter(t: seq<byte>, i: nat, u: seq<byte>, a: nat, v: seq<byte>, j: nat)
    requires i <= |t| && a <= |t| && j <= |t| && t[i..] == u + t[a..] && t[a..] == v + t[j..]
    ensures t[i..] == u + v + t[j..]
  {
    Assoc(u, v, t[j..]);
  }

  /** And only the encoding of a list reads as that list. */
  lemma {:induction false} ListOfEntries(t: seq<byte>, i: nat)
    requires i <= |t| && Entries(t, i).Some?
    ensures Encodable(Entries(t, i).value) && t[i..] == List13(Entries(t, i).value)
    decreases |t| - i
  {
    if i < |t| {
      EntryWrites(t, i);
      ListOfEntries(t, NextEntry(t, i).value.1);
      assert Entries(t, i).value[1..] == Entries(t, NextEntry(t, i).value.1).value;
    }
  }

  function Joined(es: seq<CertEntry>, rest: Option<seq<CertEntry>>): (r: Option<seq<CertEntry>>)
  {
    if rest.None? then None else Some(es + rest.value)
  }

  lemma JoinedStep(es: seq<CertEntry>, t: seq<byte>, i: nat)
    requires i < |t|
    ensures NextEntry(t, i).None? ==> Joined(es, Entries(t, i)) == None
    ensures NextEntry(t, i).Some? ==>
      var (e, j) := NextEntry(t, i).value;
      Joined(es, Entries(t, i)) == Joined(es + [e], Entries(t, j))
  {
    if NextEntry(t, i).Some? {
      var (e, j) := NextEntry(t, i).value;
      if Entries(t, j).Some? {
        assert es + ([e] + Entries(t, j).value) == es + [e] + Entries(t, j).value;
      }
    }
  }

  lemma JoinedNone(rest: Option<seq<CertEntry>>)
    ensures Joined([], rest) == rest
  {
    if rest.Some? {
      assert [] + rest.value == rest.value;
    }
  }

  method ReadCertSize(input: Stuffer) returns (r: Option<nat>)
    requires input.Valid()
    modifies input`read
    ensures input.Valid()
    ensures var t, i := input.Contents(), old(input.read);
      && (r.Some? <==> 3 <= |t| - i)
      && (r.Some? ==> input.read == i + 3 && r.value == BE(t[i..i + 3]) && r.value < MAX_CERT)
  {
    ghost var t, i := input.Contents(), input.read;
    r := ReadUint24(input);
    if r.Some? {
      assert t[i..][..3] == t[i..i + 3];
      BEBound(t[i..i + 3]);
      assert Pow256(3) == MAX_CERT;
    }
  }

  /** Writes the length n and moves the n bytes, if there are that many. */
  method MoveCert(input: Stuffer, output: Stuffer, n: nat) returns (ok: bool)
    requires input != output && input.Valid() && output.Valid() && n < MAX_CERT
    requires 3 + input.write - input.read <= output.size - output.write
    modifies input`read, output`mem, output`size, output`write, output`highWater
    ensures input.Valid() && output.Valid() && output.size == old(output.size)
    ensures var t, i := input.Contents(), old(input.read);
      && (ok <==> n <= |t| - i)
      && (ok ==> input.read == i + n && output.Contents() == old(output.Contents()) + Vector(t[i..i + n], 3))
  {
    ghost var t, i := input.Contents(), input.read;
    ok := WriteNetworkOrder(output, n, 3);
    assert ok && output.size == old(output.size) && output.Contents() == old(output.Contents()) + ToBE(n, 3);
    ok := Copy(input, output, n);
    if ok {
      assert t[i..][..n] == t[i..i + n];
      Assoc(old(output.Contents()), ToBE(n, 3), t[i..i + n]);
    }
  }

  /** Copies one certificate with its length to the output. */
  method CopyCert(input: Stuffer, output: Stuffer) returns (ok: bool)
    requires input != output && input.Valid() && output.Valid()
    requires input.write - input.read <= output.size - output.write
    modifies input`read, output`mem, output`size, output`write, output`highWater
    ensures input.Valid() && output.Valid() && output.size == old(output.size)
    ensures var t, i := input.Contents(), old(input.read);
      var end := VectorEnd(t, i, 3);
      && (ok <==> end.Some?)
      && (ok ==> && input.read == end.value
                 && output.Contents() == old(output.Contents()) + Vector(t[i + 3..end.value], 3))
  {
    var n := ReadCertSize(input);
    if n.None? {
      return false;
    }
    ok := MoveCert(input, output, n.value);
  }

  method SkipExtensions(input: Stuffer) returns (ok: bool)
    requires input.Valid()
    modifies input`read
    ensures input.Valid()
    ensures var end := VectorEnd(input.Contents(), old(input.read), 2);
      (ok <==> end.Some?) && (ok ==> input.read == end.value)
  {
    ghost var t, i := input.Contents(), input.read;
    var size := ReadUint16(input);
    if size.None? {
      return false;
    }
    assert t[i..][..2] == t[i..i + 2];
    ok := input.SkipRead(size.value);
  }

  lemma OneMoreCert(es: seq<CertEntry>, t: seq<byte>, i: nat) returns (es': seq<CertEntry>)
    requires i <= |t| && NextEntry(t, i).Some?
    ensures es' == es + [NextEntry(t, i).value.0]
    ensures List12(Certs(es')) == List12(Certs(es)) + Vector(NextEntry(t, i).value.0.cert, 3)
  {
    var e := NextEntry(t, i).value.0;
    es' := es + [e];
    assert Certs(es + [e]) == Certs(es) + [e.cert];
    List12Append(Certs(es), e.cert);
  }

  /** Copies one certificate and passes over its extensions. */
  method CopyEntry(input: Stuffer, output: Stuffer) returns (ok: bool)
    requires input != output && input.Valid() && output.Valid()
    requires input.write - input.read <= output.size - output.write
    modifies input`read, output`mem, output`size, output`write, output`highWater
    ensures input.Valid() && output.Valid() && output.size == old(output.size)
    ensures var next := NextEntry(input.Contents(), old(input.read));
      && (ok <==> next.Some?)
      && (ok ==> && input.read == next.value.1
                 && output.Contents() == old(output.Contents()) + Vector(next.value.0.cert, 3))
  {
    ok := CopyCert(input, output);
    if ok {
      ok := SkipExtensions(input);
    }
  }

  /** Certificates copied so far make `es`; the entries still in the input complete the list. */
  ghost predicate Copied(input: Stuffer, output: Stuffer, list: seq<byte>, es: seq<CertEntry>,
                         all: Option<seq<CertEntry>>)
    reads input, output
  {
    && input.Valid() && output.Valid() && input.Contents() == list && output.size == |list|
    && output.write <= input.read && output.Contents() == List12(Certs(es))
    && all == Joined(es, Entries(list, input.read))
  }

  method StripEntry(input: Stuffer, output: Stuffer, ghost list: seq<byte>, ghost es: seq<CertEntry>,
                    ghost all: Option<seq<CertEntry>>)
    returns (ok: bool, ghost es': seq<CertEntry>)
    requires input != output && Copied(input, output, list, es, all) && input.read < input.write
    modifies input`read, output`mem, output`size, output`write, output`highWater
    ensures !ok ==> all.None?
    ensures ok ==> Copied(input, output, list, es', all) && old(input.read) < input.read
  {
    ghost var i := input.read;
    JoinedStep(es, list, i);
    es' := es;
    ok := CopyEntry(input, output);
    if ok {
      es' := OneMoreCert(es, list, i);
    }
  }

  method StripEntries(input: Stuffer, output: Stuffer, ghost list: seq<byte>, ghost all: Option<seq<CertEntry>>)
    returns (ok: bool)
    requires input != output && Copied(input, output, list, [], all)
    modifies input`read, output`mem, output`size, output`write, output`highWater
    ensures ok <==> all.Some?
    ensures ok ==> output.Valid() && output.Contents() == List12(Certs(all.value))
  {
    ghost var es: seq<CertEntry> := [];
    while input.write - input.read > 0
      invariant Copied(input, output, list, es, all)
      decreases input.write - input.read
    {
      ok, es := StripEntry(input, output, list, es, all);
      if !ok {
        return;
      }
    }
    assert es + [] == es;
    return true;
  }

  /** A stuffer over bytes that are already there. */
  method Loaded(data: seq<byte>) returns (s: Stuffer)
    requires |data| <= UINT32_MAX
    ensures fresh(s) && s.Valid() && s.Contents() == data && s.read == 0
  {
    s := new Stuffer.Init(data);
    var ok := s.SkipWrite(|data|);
  }

  /**
   Keeps the certificates of a TLS 1.3 list and drops their extensions. A list is refused exactly when
   it is not the encoding of a list of entries; the output never outgrows a buffer of the input's size.
   */
  method StripExtensions(list: seq<byte>) returns (r: Option<seq<byte>>)
    requires |list| <= UINT32_MAX
    ensures r.Some? <==> Entries(list, 0).Some?
    ensures r.Some? ==> r.value == List12(Certs(Entries(list, 0).value))
  {
    var input := Loaded(list);
    var memory := Malloc(|list|);
    var output := new Stuffer.Init(memory);
    JoinedNone(Entries(list, 0));
    var ok := StripEntries(input, output, list, Entries(list, 0));
    if !ok {
      return None;
    }
    assert output.read == 0;
    return Some(output.mem[..output.write - output.read]);
  }

  /** What the connection keeps of the client's chain: as it came before TLS 1.3, converted since. */
  method StoreClientCertChain(version: nat, list: seq<byte>, stored: seq<byte>) returns (r: Option<seq<byte>>)
    requires |list| <= UINT32_MAX
    ensures version < 34 ==> r == if stored == [] && list != [] then Some(list) else None
    ensures version >= 34 ==> forall es | Encodable(es) && List13(es) == list :: r == Some(List12(Certs(es)))
    ensures version >= 34 && r.Some? ==>
      exists es :: Encodable(es) && List13(es) == list && r.value == List12(Certs(es))
  {
    if version < TLS13 {
      return if stored == [] && list != [] then Some(list) else None;
    }
    assert list[0..] == list;
    forall es | Encodable(es) && List13(es) == list ensures Entries(list, 0) == Some(es) { EntriesOfList(list, 0, es); }
    if Entries(list, 0).Some? { ListOfEntries(list, 0); }
    r := StripExtensions(list);
  }
}
