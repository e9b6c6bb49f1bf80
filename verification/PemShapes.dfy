/**
 What the loader accepts, read off the text: a line, a certificate and a chain are accepted exactly if
 the text has their shape. No scan occurs in the shapes, only positions and characters.
 */
module PemShapes {
  import opened Bytes
  import opened Text
  import opened Pem
  import Base64
  import opened Certificates
  import opened PemStops

  /** The words of a line, and the character around them. */
  lemma Words()
    ensures |BEGIN| == 6 && forall k :: 0 <= k < 6 ==> BEGIN[k] == "BEGIN "[k] as int
    ensures |END| == 4 && forall k :: 0 <= k < 4 ==> END[k] == "END "[k] as int
    ensures |CERTIFICATE| == 11 && forall k :: 0 <= k < 11 ==> CERTIFICATE[k] == "CERTIFICATE"[k] as int
    ensures DASH == '-' as int
    ensures forall c: byte :: IsSpace(c) <==> c in [' ' as int, '\t' as int, '\n' as int, '\r' as int]
  {
  }

  // ---------- lines ----------

  /** No dash up to a, 1 to 64 dashes up to b, the two words up to c. */
  ghost predicate HeadingIs(t: seq<byte>, i: nat, marker: seq<byte>, a: nat, b: nat, c: nat) {
    && NoDash(t, i, a) && AllDashes(t, a, b) && 1 <= b - a <= 64
    && StartsAt(t, b, marker) && StartsAt(t, b + |marker|, CERTIFICATE) && c == b + |marker| + |CERTIFICATE|
  }

  /**
   From c on 1 to 64 dashes up to d, all there are if fewer than 64, and whitespace up to j, all there is. If
   BEGIN follows an END line at once, the last dash is left for it.
   */
  ghost predicate ClosingIs(t: seq<byte>, c: nat, marker: seq<byte>, d: nat, j: nat) {
    && AllDashes(t, c, d) && 1 <= d - c <= 64 && (d - c == 64 || d == |t| || t[d] != DASH)
    && var q := if marker == END && StartsAt(t, d, BEGIN) then d - 1 else d;
       q <= j <= |t| && (forall k :: q <= k < j ==> IsSpace(t[k])) && (j == |t| || !IsSpace(t[j]))
  }

  ghost predicate LineIs(t: seq<byte>, i: nat, marker: seq<byte>, j: nat) {
    exists a: nat, b: nat, c: nat, d: nat :: HeadingIs(t, i, marker, a, b, c) && ClosingIs(t, c, marker, d, j)
  }

  lemma HeadingFound(t: seq<byte>, i: nat, marker: seq<byte>, a: nat, b: nat, c: nat)
    requires HeadingIs(t, i, marker, a, b, c) && marker != [] && marker[0] != DASH
    ensures i <= |t| && Heading(t, i, marker, CERTIFICATE) == Some(c)
  {
    SkipToIff(t, i, DASH, a);
    assert t[b] == t[b..b + |marker|][0] == marker[0];
    SkipRunIff(t, a, DASH, 64, b);
  }

  lemma HeadingHas(t: seq<byte>, i: nat, marker: seq<byte>, c: nat) returns (a: nat, b: nat)
    requires i <= |t| && Heading(t, i, marker, CERTIFICATE) == Some(c)
    ensures HeadingIs(t, i, marker, a, b, c)
  {
    a := SkipTo(t, i, DASH);
    b := SkipRun(t, a, DASH, MAX_DASHES);
    SkipToIff(t, i, DASH, a);
    SkipRunIff(t, a, DASH, MAX_DASHES, b);
  }

  lemma ClosingFound(t: seq<byte>, c: nat, marker: seq<byte>, d: nat, j: nat)
    requires ClosingIs(t, c, marker, d, j)
    ensures c <= |t| && Closing(t, c, marker) == Some(j)
  {
    SkipRunIff(t, c, DASH, 64, d);
    SkipSpaceIff(t, if marker == END && StartsAt(t, d, BEGIN) then d - 1 else d, j);
  }

  lemma ClosingHas(t: seq<byte>, c: nat, marker: seq<byte>, j: nat) returns (d: nat)
    requires c <= |t| && Closing(t, c, marker) == Some(j)
    ensures ClosingIs(t, c, marker, d, j)
  {
    d := SkipRun(t, c, DASH, MAX_DASHES);
    SkipRunIff(t, c, DASH, MAX_DASHES, d);
    SkipSpaceIff(t, if marker == END && StartsAt(t, d, BEGIN) then d - 1 else d, j);
  }

  /** A line is accepted exactly if it has this shape. */
  lemma LineIff(t: seq<byte>, i: nat, marker: seq<byte>, j: nat)
    requires i <= |t| && marker != [] && marker[0] != DASH
    ensures EncapsulationLine(t, i, marker, CERTIFICATE) == Some(j) <==> LineIs(t, i, marker, j)
  {
    if EncapsulationLine(t, i, marker, CERTIFICATE) == Some(j) {
      var c := Heading(t, i, marker, CERTIFICATE).value;
      var a, b := HeadingHas(t, i, marker, c);
      var d := ClosingHas(t, c, marker, j);
    }
    if LineIs(t, i, marker, j) {
      var a: nat, b: nat, c: nat, d: nat :| HeadingIs(t, i, marker, a, b, c) && ClosingIs(t, c, marker, d, j);
      HeadingFound(t, i, marker, a, b, c);
      ClosingFound(t, c, marker, d, j);
    }
  }

  // ---------- contents ----------

  /** Up to the next dash, at `end`: base64 characters that decode to `der` buffer by buffer, among others. */
  ghost predicate BodyIs(t: seq<byte>, p: nat, end: nat, der: seq<byte>) {
    && NoDash(t, p, end) && end < |t| && t[end] == DASH
    && exists buffers, pieces :: Base64.Buffered(Filtered(t, p, end), buffers, pieces) && der == Concat(pieces)
  }

  lemma BodyIff(t: seq<byte>, p: nat, end: nat, der: seq<byte>)
    requires p <= |t|
    ensures Body(t, p) == Some((end, der)) <==> BodyIs(t, p, end, der)
  {
    var e := SkipTo(t, p, DASH);
    SkipToIff(t, p, DASH, e);
    if p <= end < |t| {
      SkipToIff(t, p, DASH, end);
      if NoDash(t, p, end) && t[end] == DASH {
        Base64.StagedIff(Filtered(t, p, end), der);
      }
    }
  }

  /**
   The base64 characters of a stretch, and where they are: the positions ascend, and they are all those
   that hold a letter, a digit, '+', '/' or '='.
   */
  lemma {:induction false} FilteredAt(t: seq<byte>, i: nat, j: nat) returns (at: seq<nat>)
    requires i <= j <= |t|
    ensures |at| == |Filtered(t, i, j)|
    ensures forall k :: 0 <= k < |at| ==> i <= at[k] < j && t[at[k]] == Filtered(t, i, j)[k]
    ensures forall k, l :: 0 <= k < l < |at| ==> at[k] < at[l]
    ensures forall p :: i <= p < j ==> (p in at <==> Base64.IsBase64Char(t[p]))
    decreases j
  {
    at := [];
    if i < j {
      var before := FilteredAt(t, i, j - 1);
      at := before;
      if Base64.IsBase64Char(t[j - 1]) {
        at := before + [j - 1];
        assert at[|before|] == j - 1;
      }
      forall p | i <= p < j ensures p in at <==> Base64.IsBase64Char(t[p]) {
        assert p in at <==> p in before || (p == j - 1 && Base64.IsBase64Char(t[p]));
      }
    }
  }

  // ---------- certificates and chains ----------

  /** A BEGIN line up to p, contents up to `end`, and an END line up to j. */
  ghost predicate CertificateIs(t: seq<byte>, i: nat, der: seq<byte>, j: nat) {
    exists p: nat, end: nat :: LineIs(t, i, BEGIN, p) && BodyIs(t, p, end, der) && LineIs(t, end, END, j)
  }

  lemma LineEnds(t: seq<byte>, i: nat, marker: seq<byte>, j: nat)
    requires LineIs(t, i, marker, j)
    ensures i <= j <= |t|
  {
  }

  lemma CertificateHas(t: seq<byte>, i: nat)
    requires i <= |t| && Object(t, i, CERTIFICATE).Some?
    ensures var (j, der) := Object(t, i, CERTIFICATE).value; CertificateIs(t, i, der, j)
  {
    var (j, der) := Object(t, i, CERTIFICATE).value;
    var p := EncapsulationLine(t, i, BEGIN, CERTIFICATE).value;
    var end := Body(t, p).value.0;
    LineIff(t, i, BEGIN, p);
    BodyIff(t, p, end, der);
    LineIff(t, end, END, j);
  }

  lemma PiecesFound(t: seq<byte>, i: nat, der: seq<byte>, j: nat, p: nat, end: nat)
    requires i <= |t| && LineIs(t, i, BEGIN, p) && BodyIs(t, p, end, der) && LineIs(t, end, END, j)
    ensures Object(t, i, CERTIFICATE) == Some((j, der))
  {
    LineIff(t, i, BEGIN, p);
    LineEnds(t, i, BEGIN, p);
    BodyIff(t, p, end, der);
    LineIff(t, end, END, j);
  }

  /** A certificate is accepted exactly if it has this shape. */
  lemma CertificateIff(t: seq<byte>, i: nat, der: seq<byte>, j: nat)
    requires i <= |t|
    ensures Object(t, i, CERTIFICATE) == Some((j, der)) <==> CertificateIs(t, i, der, j)
  {
    if Object(t, i, CERTIFICATE).Some? {
      CertificateHas(t, i);
    }
    if CertificateIs(t, i, der, j) {
      var p: nat, end: nat :| LineIs(t, i, BEGIN, p) && BodyIs(t, p, end, der) && LineIs(t, end, END, j);
      PiecesFound(t, i, der, j, p, end);
    }
  }

  /**
   Certificates one after the other. A complete chain ends with the text; otherwise no certificate follows
   the last one.
   */
  ghost predicate ChainIs(t: seq<byte>, i: nat, ders: seq<seq<byte>>, complete: bool)
    decreases |ders|
  {
    if ders == [] then !complete && forall der, j: nat :: !CertificateIs(t, i, der, j)
    else exists j: nat :: CertificateIs(t, i, ders[0], j) && RestIs(t, j, ders, complete)
  }

  ghost predicate RestIs(t: seq<byte>, j: nat, ders: seq<seq<byte>>, complete: bool)
    requires ders != []
    decreases |ders|, 0
  {
    if j == |t| then |ders| == 1 && complete else ChainIs(t, j, ders[1..], complete)
  }

  lemma {:induction false} ChainHas(t: seq<byte>, i: nat)
    requires i <= |t|
    ensures ChainIs(t, i, ParseChain(t, i).certs, ParseChain(t, i).complete)
    decreases |t| - i
  {
    var chain, found := ParseChain(t, i), Object(t, i, CERTIFICATE);
    if found.None? {
      forall der, j: nat ensures !CertificateIs(t, i, der, j) {
        CertificateIff(t, i, der, j);
      }
    } else {
      var (j, der) := found.value;
      CertificateIff(t, i, der, j);
      if j < |t| {
        ChainHas(t, j);
        assert chain.certs[1..] == ParseChain(t, j).certs;
      }
      assert RestIs(t, j, chain.certs, chain.complete);
    }
  }

  lemma FirstFound(t: seq<byte>, i: nat, ders: seq<seq<byte>>, complete: bool) returns (j: nat)
    requires i <= |t| && ders != [] && ChainIs(t, i, ders, complete)
    ensures Object(t, i, CERTIFICATE) == Some((j, ders[0])) && RestIs(t, j, ders, complete)
  {
    j :| CertificateIs(t, i, ders[0], j) && RestIs(t, j, ders, complete);
    CertificateIff(t, i, ders[0], j);
  }

  lemma NoneFound(t: seq<byte>, i: nat, ders: seq<seq<byte>>, complete: bool)
    requires i <= |t| && ders == [] && ChainIs(t, i, ders, complete)
    ensures Object(t, i, CERTIFICATE).None? && !complete
  {
    if Object(t, i, CERTIFICATE).Some? {
      CertificateHas(t, i);
    }
  }

  lemma Uncons(ders: seq<seq<byte>>)
    requires ders != []
    ensures ders == [ders[0]] + ders[1..]
  {
  }

  lemma {:induction false} ChainFound(t: seq<byte>, i: nat, ders: seq<seq<byte>>, complete: bool)
    requires i <= |t| && ChainIs(t, i, ders, complete)
    ensures ParseChain(t, i).certs == ders && ParseChain(t, i).complete == complete
    decreases |ders|
  {
    if ders == [] {
      NoneFound(t, i, ders, complete);
    } else {
      var j := FirstFound(t, i, ders, complete);
      if j < |t| {
        ChainFound(t, j, ders[1..], complete);
      }
      Uncons(ders);
    }
  }

  /** The chain read from a text is these certificates exactly if the text holds them in this order. */
  lemma ChainIff(t: seq<byte>, i: nat, ders: seq<seq<byte>>, complete: bool)
    requires i <= |t|
    ensures ParseChain(t, i).certs == ders && ParseChain(t, i).complete == complete <==> ChainIs(t, i, ders, complete)
  {
    ChainHas(t, i);
    if ChainIs(t, i, ders, complete) {
      ChainFound(t, i, ders, complete);
    }
  }
}
