/** PEM texts of certificate chains, and that loading them gives the chain back. */
module PemChain {
  import opened Bytes
  import opened Stuffers
  import opened Text
  import opened Pem
  import Base64
  import opened Certificates
  import opened PemStops

  // ---------- what a chain looks like ----------

  ghost predicate DashesAt(t: seq<byte>, i: nat, n: nat) {
    AllDashes(t, i, i + n)
  }

  ghost predicate NoDashAt(t: seq<byte>, i: nat, n: nat) {
    NoDash(t, i, i + n)
  }

  ghost predicate SpaceAt(t: seq<byte>, i: nat, n: nat) {
    i + n <= |t| && forall k :: i <= k < i + n ==> IsSpace(t[k])
  }

  /** A marker, the keyword, and 1 to 64 dashes: an encapsulation line after its leading dashes. */
  ghost predicate LineAt(t: seq<byte>, w: nat, marker: seq<byte>, after: nat) {
    && 1 <= after <= MAX_DASHES
    && StartsAt(t, w, marker) && StartsAt(t, w + |marker|, CERTIFICATE)
    && DashesAt(t, w + |marker| + |CERTIFICATE|, after)
  }

  /**
   One certificate from the word BEGIN on: the rest of its BEGIN line, base64 of `der` interleaved
   with other characters, an END line, and whitespace or none. The numbers are lengths. The certificate
   may also be cut off: then the text ends with some of its base64.
   */
  datatype Block = Block(d2: nat, body: nat, d3: nat, d4: nat, space: nat, der: seq<byte>, cut: bool)
  {
    function Body(w: nat): (p: nat) { w + |BEGIN| + |CERTIFICATE| + d2 }
    function End(w: nat): (p: nat) { Body(w) + body }
    function Close(w: nat): (p: nat) { End(w) + d3 + |END| + |CERTIFICATE| }
    function Next(w: nat): (p: nat) { if cut then End(w) else Close(w) + d4 + space }

    ghost predicate At(t: seq<byte>, w: nat) {
      && LineAt(t, w, BEGIN, d2) && NoDashAt(t, Body(w), body) && der != []
      && if cut then CutAt(t, w) else WholeAt(t, w)
    }

    ghost predicate WholeAt(t: seq<byte>, w: nat)
      requires End(w) <= |t|
    {
      && Filtered(t, Body(w), End(w)) == Base64.Encode(der)
      && 1 <= d3 <= MAX_DASHES && DashesAt(t, End(w), d3) && LineAt(t, End(w) + d3, END, d4)
      && SpaceAt(t, Close(w) + d4, space)
    }

    ghost predicate CutAt(t: seq<byte>, w: nat)
      requires End(w) <= |t|
    {
      End(w) == |t| && Filtered(t, Body(w), |t|) <= Base64.Encode(der)
    }
  }

  /** A comment without dashes, the dashes of the BEGIN line, and the certificate. */
  datatype Entry = Entry(comment: nat, d1: nat, block: Block)
  {
    function Word(i: nat): (w: nat) { i + comment + d1 }
    function Next(i: nat): (p: nat) { block.Next(Word(i)) }

    ghost predicate At(t: seq<byte>, i: nat) {
      && NoDashAt(t, i, comment) && 1 <= d1 <= MAX_DASHES && DashesAt(t, i + comment, d1)
      && block.At(t, Word(i))
    }
  }

  /** The text from i on is these certificates; text glued to an END line does not look like a BEGIN. */
  ghost predicate ChainAt(t: seq<byte>, i: nat, es: seq<Entry>)
    decreases |es|
  {
    if es == [] then i == |t| else
      && es[0].At(t, i) && ChainAt(t, es[0].Next(i), es[1..])
      && (es[0].block.space == 0 && |es| > 1 && es[1].comment > 0 ==> !StartsAt(t, es[0].Next(i), BEGIN))
  }

  function Ders(es: seq<Entry>): (ds: seq<seq<byte>>)
  {
    if es == [] then [] else if es[0].block.cut then Ders(es[1..]) else [es[0].block.der] + Ders(es[1..])
  }

  /** No certificate is cut off. */
  predicate Whole(es: seq<Entry>)
  {
    es == [] || (!es[0].block.cut && Whole(es[1..]))
  }

  // ---------- scanning it ----------

  lemma RunOfDashes(t: seq<byte>, i: nat, n: nat)
    requires DashesAt(t, i, n) && 1 <= n <= MAX_DASHES && (i + n < |t| ==> t[i + n] != DASH)
    ensures SkipRun(t, i, DASH, MAX_DASHES) == i + n
  {
    SkipRunIff(t, i, DASH, MAX_DASHES, i + n);
  }

  lemma HeadingParses(t: seq<byte>, i: nat, comment: nat, w: nat, marker: seq<byte>, after: nat) returns (j: nat)
    requires NoDashAt(t, i, comment) && i + comment < w <= i + comment + MAX_DASHES
    requires DashesAt(t, i + comment, w - i - comment) && LineAt(t, w, marker, after)
    requires marker != [] && marker[0] != DASH
    ensures j == w + |marker| + |CERTIFICATE| && i <= |t| && j <= |t|
    ensures Heading(t, i, marker, CERTIFICATE) == Some(j)
  {
    j := w + |marker| + |CERTIFICATE|;
    var line := i + comment;
    SkipToIff(t, i, DASH, line);
    assert t[w] == t[w..w + |marker|][0];
    RunOfDashes(t, line, w - line);
  }

  lemma SpaceIsNotBase64(c: byte)
    requires IsSpace(c)
    ensures !Base64.IsBase64Char(c)
  {
    Base64.SymbolValue(c);
  }

  lemma {:induction false} FilteredSkipsSpace(t: seq<byte>, i: nat, k: nat, j: nat)
    requires i <= k <= j <= |t| && SpaceAt(t, i, k - i)
    ensures Filtered(t, i, j) == Filtered(t, k, j)
    decreases j
  {
    if k < j {
      FilteredSkipsSpace(t, i, k, j - 1);
    } else if i < j {
      SpaceIsNotBase64(t[j - 1]);
      FilteredSkipsSpace(t, i, k - 1, j - 1);
    }
  }

  /** Any interleaving of base64(der) with characters that are neither base64 nor a dash reads as der. */
  lemma BodyParses(t: seq<byte>, i: nat, end: nat, der: seq<byte>)
    requires i <= end < |t| && t[end] == DASH && NoDashAt(t, i, end - i)
    requires Filtered(t, i, end) == Base64.Encode(der)
    ensures Pem.Body(t, i) == Some((end, der))
  {
    SkipToIff(t, i, DASH, end);
    Base64.StagedEncode(der);
  }

  /** From the dashes of the BEGIN line to the end of the body. */
  lemma BeginParses(t: seq<byte>, i: nat, body: nat, end: nat, der: seq<byte>) returns (start: nat)
    requires i < body <= end < |t| && DashesAt(t, i, body - i) && body - i <= MAX_DASHES
    requires NoDashAt(t, body, end - body) && t[end] == DASH && der != []
    requires Filtered(t, body, end) == Base64.Encode(der)
    ensures start <= |t| && Closing(t, i, BEGIN) == Some(start)
    ensures Pem.Body(t, start) == Some((end, der))
  {
    assert body < end by { assert Base64.Encode(der) != []; }
    RunOfDashes(t, i, body - i);
    start := SkipSpace(t, body);
    SkipSpaceIff(t, body, start);
    assert start <= end;
    FilteredSkipsSpace(t, body, start, end);
    BodyParses(t, start, end, der);
  }

  lemma EntryOpens(t: seq<byte>, i: nat, e: Entry, w: nat, end: nat) returns (start: nat)
    requires e.At(t, i) && !e.block.cut && w == e.Word(i) && end == e.block.End(w)
    ensures i <= |t| && start <= |t| && EncapsulationLine(t, i, BEGIN, CERTIFICATE) == Some(start)
    ensures Pem.Body(t, start) == Some((end, e.block.der))
  {
    var begun := HeadingParses(t, i, e.comment, w, BEGIN, e.block.d2);
    var body := e.block.Body(w);
    assert body == begun + e.block.d2;
    start := BeginParses(t, begun, body, end, e.block.der);
    LineFrom(t, i, BEGIN, begun, start);
  }

  lemma LineFrom(t: seq<byte>, i: nat, marker: seq<byte>, heading: nat, closing: nat)
    requires i <= |t| && heading <= |t|
    requires Heading(t, i, marker, CERTIFICATE) == Some(heading) && Closing(t, heading, marker) == Some(closing)
    ensures EncapsulationLine(t, i, marker, CERTIFICATE) == Some(closing)
  {
  }

  lemma BlockEnds(t: seq<byte>, w: nat, b: Block, end: nat) returns (j: nat)
    requires b.At(t, w) && !b.cut && end == b.End(w)
    ensures end <= |t| && j <= |t| && j == b.Close(w) && Heading(t, end, END, CERTIFICATE) == Some(j)
  {
    j := HeadingParses(t, end, 0, end + b.d3, END, b.d4);
  }

  /** An entry is read, up to how its closing dashes are. */
  lemma EntryParses(t: seq<byte>, i: nat, e: Entry, close: nat, next: nat)
    requires e.At(t, i) && !e.block.cut && close == e.block.Close(e.Word(i)) && close <= |t|
    requires Closing(t, close, END) == Some(next)
    ensures i <= |t| && Object(t, i, CERTIFICATE) == Some((next, e.block.der))
  {
    var w := e.Word(i);
    var end := e.block.End(w);
    var start := EntryOpens(t, i, e, w, end);
    var j := BlockEnds(t, w, e.block, end);
    ObjectFrom(t, i, start, end, e.block.der, j, next);
  }

  lemma ObjectFrom(t: seq<byte>, i: nat, start: nat, end: nat, der: seq<byte>, j: nat, next: nat)
    requires i <= |t| && start <= |t| && end <= |t| && j <= |t|
    requires EncapsulationLine(t, i, BEGIN, CERTIFICATE) == Some(start) && Pem.Body(t, start) == Some((end, der))
    requires Heading(t, end, END, CERTIFICATE) == Some(j) && Closing(t, j, END) == Some(next)
    ensures Object(t, i, CERTIFICATE) == Some((next, der))
  {
  }

  // ---------- from one entry to the next ----------

  /** The same certificates. */
  ghost predicate Same(es: seq<Entry>, fs: seq<Entry>) {
    |es| == |fs| && Ders(es) == Ders(fs) && Whole(es) == Whole(fs)
  }

  /** Reading resumes inside the leading comment or dashes of the first entry: what is left is a chain too. */
  lemma ChainResumes(t: seq<byte>, n: nat, es: seq<Entry>, m: nat, f: Entry)
    requires es != [] && ChainAt(t, n, es)
    requires f.At(t, m) && f.Word(m) == es[0].Word(n) && f.block == es[0].block
    ensures ChainAt(t, m, [f] + es[1..]) && Same([f] + es[1..], es)
  {
    var es' := [f] + es[1..];
    assert es'[1..] == es[1..];
  }

  lemma SpaceStops(t: seq<byte>, q: nat, n: nat, dash: nat)
    requires q <= n <= dash < |t| && SpaceAt(t, q, n - q) && t[dash] == DASH
    ensures n <= SkipSpace(t, q) <= dash
  {
    SkipSpaceIff(t, q, SkipSpace(t, q));
  }

  /** Part of the comment is skipped. */
  lemma EntryTrims(t: seq<byte>, q: nat, n: nat, e: Entry, next: nat) returns (f: Entry)
    requires q <= n && SpaceAt(t, q, n - q) && e.At(t, n) && next == SkipSpace(t, q)
    ensures f.At(t, next) && f.Word(next) == e.Word(n) && f.block == e.block
  {
    var dash := n + e.comment;
    SpaceStops(t, q, n, dash);
    f := e.(comment := dash - next);
  }

  /** Whitespace, or a comment right after the dashes: reading resumes inside the comment. */
  lemma ResumesInComment(t: seq<byte>, q: nat, n: nat, es: seq<Entry>, next: nat) returns (rest: seq<Entry>)
    requires q <= n && SpaceAt(t, q, n - q) && ChainAt(t, n, es) && es != [] && next == SkipSpace(t, q)
    ensures ChainAt(t, next, rest) && Same(rest, es)
  {
    var f := EntryTrims(t, q, n, es[0], next);
    ChainResumes(t, n, es, next, f);
    rest := [f] + es[1..];
  }

  lemma NotBegin(t: seq<byte>, p: nat)
    requires p < |t| ==> t[p] != BEGIN[0]
    ensures !StartsAt(t, p, BEGIN)
  {
    assert p + |BEGIN| <= |t| ==> t[p..p + |BEGIN|][0] == t[p];
  }

  /** No newline in between: the dashes of both lines run together, and the last few open the next line. */
  lemma DashesClose(t: seq<byte>, p: nat, w: nat) returns (next: nat)
    requires p + 2 <= w <= p + 2 * MAX_DASHES && DashesAt(t, p, w - p) && StartsAt(t, w, BEGIN)
    ensures p < next < w <= next + MAX_DASHES && Closing(t, p, END) == Some(next)
  {
    assert t[w] == t[w..w + |BEGIN|][0];
    var run := Min(w, p + MAX_DASHES);
    SkipRunIff(t, p, DASH, MAX_DASHES, run);
    if run == w {
      next := run - 1;
    } else {
      next := run;
      NotBegin(t, next);
    }
    SkipSpaceIff(t, next, next);
  }

  lemma EntryExtends(t: seq<byte>, p: nat, n: nat, e: Entry) returns (next: nat, f: Entry)
    requires p < n <= p + MAX_DASHES && DashesAt(t, p, n - p) && e.At(t, n) && e.comment == 0
    ensures Closing(t, p, END) == Some(next)
    ensures f.At(t, next) && f.Word(next) == e.Word(n) && f.block == e.block
  {
    var w := e.Word(n);
    next := DashesClose(t, p, w);
    f := e.(d1 := w - next);
  }

  lemma ResumesInDashes(t: seq<byte>, p: nat, n: nat, es: seq<Entry>) returns (next: nat, rest: seq<Entry>)
    requires p < n <= p + MAX_DASHES && DashesAt(t, p, n - p) && ChainAt(t, n, es)
    requires es != [] && es[0].comment == 0
    ensures Closing(t, p, END) == Some(next) && ChainAt(t, next, rest) && Same(rest, es)
  {
    var f;
    next, f := EntryExtends(t, p, n, es[0]);
    ChainResumes(t, n, es, next, f);
    rest := [f] + es[1..];
  }

  lemma DashesStop(t: seq<byte>, p: nat, q: nat)
    requires p < q <= p + MAX_DASHES && DashesAt(t, p, q - p)
    requires (q < |t| ==> t[q] != DASH) && !StartsAt(t, q, BEGIN)
    ensures Closing(t, p, END) == Some(SkipSpace(t, q))
  {
    RunOfDashes(t, p, q - p);
  }

  lemma ChainStarts(t: seq<byte>, n: nat, es: seq<Entry>)
    requires ChainAt(t, n, es)
    ensures n <= |t| && (es == [] <==> n == |t|)
    ensures es != [] && es[0].comment > 0 ==> t[n] != DASH
  {
    if es != [] {
      assert NoDashAt(t, n, es[0].comment) && DashesAt(t, n + es[0].comment, es[0].d1);
    }
  }

  lemma NotGlued(t: seq<byte>, q: nat, n: nat, es: seq<Entry>)
    requires q <= n && SpaceAt(t, q, n - q) && ChainAt(t, n, es)
    requires q == n && es != [] ==> es[0].comment > 0 && !StartsAt(t, q, BEGIN)
    ensures (q < |t| ==> t[q] != DASH) && !StartsAt(t, q, BEGIN)
  {
    ChainStarts(t, n, es);
    if q < n || es == [] {
      NotBegin(t, q);
    }
  }

  lemma ResumesAfterSpace(t: seq<byte>, q: nat, n: nat, es: seq<Entry>) returns (next: nat, rest: seq<Entry>)
    requires q <= n && SpaceAt(t, q, n - q) && ChainAt(t, n, es)
    ensures next == SkipSpace(t, q) && ChainAt(t, next, rest) && Same(rest, es)
  {
    next := SkipSpace(t, q);
    if es == [] {
      SkipSpaceIff(t, q, n);
      rest := es;
    } else {
      rest := ResumesInComment(t, q, n, es, next);
    }
  }

  /** After the dashes that close an END line, what is left of the text is the rest of the chain. */
  lemma EndCloses(t: seq<byte>, p: nat, q: nat, n: nat, es: seq<Entry>) returns (next: nat, rest: seq<Entry>)
    requires p < q <= p + MAX_DASHES && DashesAt(t, p, q - p) && q <= n && SpaceAt(t, q, n - q)
    requires ChainAt(t, n, es)
    requires q == n && es != [] && es[0].comment > 0 ==> !StartsAt(t, q, BEGIN)
    ensures Closing(t, p, END) == Some(next)
    ensures ChainAt(t, next, rest) && Same(rest, es)
  {
    if q == n && es != [] && es[0].comment == 0 {
      next, rest := ResumesInDashes(t, p, n, es);
    } else {
      NotGlued(t, q, n, es);
      DashesStop(t, p, q);
      next, rest := ResumesAfterSpace(t, q, n, es);
    }
  }

  // ---------- the whole chain ----------

  lemma BlockCloses(t: seq<byte>, w: nat, b: Block, p: nat, q: nat)
    requires b.At(t, w) && !b.cut && p == b.Close(w) && q == p + b.d4
    ensures p < q <= p + MAX_DASHES && DashesAt(t, p, q - p) && SpaceAt(t, q, b.space)
  {
  }

  lemma FirstParses(t: seq<byte>, i: nat, es: seq<Entry>) returns (next: nat, rest: seq<Entry>)
    requires ChainAt(t, i, es) && es != [] && !es[0].block.cut
    ensures i <= |t| && Object(t, i, CERTIFICATE) == Some((next, es[0].block.der))
    ensures ChainAt(t, next, rest) && Same(rest, es[1..])
  {
    var e := es[0];
    var w := e.Word(i);
    var p := e.block.Close(w);
    var q, n := p + e.block.d4, e.Next(i);
    BlockCloses(t, w, e.block, p, q);
    next, rest := EndCloses(t, p, q, n, es[1..]);
    EntryParses(t, i, e, p, next);
  }

  lemma BufferDecodes(der: seq<byte>, f: seq<byte>, k: nat, at: nat)
    requires f <= Base64.Encode(der) && at == Base64.STAGING * k && at + Base64.STAGING < |f|
    ensures Base64.Decode(f[at..at + Base64.STAGING]).ok
  {
    var s := Base64.Encode(der);
    Base64.StagedEncode(der);
    Base64.StagedBuffers(s, 0, k, at);
    assert f[at..at + Base64.STAGING] == s[at..at + Base64.STAGING];
  }

  /** Contents that break off in the base64 of a certificate. */
  lemma BodyBreaksOff(t: seq<byte>, p: nat, der: seq<byte>, f: seq<byte>)
    requires NoDash(t, p, |t|) && f == Filtered(t, p, |t|) && f <= Base64.Encode(der)
    ensures BodyCut(t, p) && Pem.Body(t, p) == None
  {
    forall k: nat | Base64.STAGING * k + Base64.STAGING < |f| ensures Base64.Decode(Buffer(f, k)).ok {
      BufferDecodes(der, f, k, Base64.STAGING * k);
    }
    SkipToIff(t, p, DASH, |t|);
  }

  lemma CutCloses(t: seq<byte>, i: nat, body: nat) returns (start: nat)
    requires i < body <= i + MAX_DASHES && DashesAt(t, i, body - i) && NoDash(t, body, |t|)
    ensures start <= |t| && Closing(t, i, BEGIN) == Some(start)
    ensures NoDash(t, start, |t|) && Filtered(t, start, |t|) == Filtered(t, body, |t|)
  {
    RunOfDashes(t, i, body - i);
    start := SkipSpace(t, body);
    SkipSpaceIff(t, body, start);
    FilteredSkipsSpace(t, body, start, |t|);
  }

  /** The BEGIN line of a certificate that is cut off in its contents. */
  lemma CutOpens(t: seq<byte>, i: nat, e: Entry) returns (start: nat)
    requires e.At(t, i) && e.block.cut
    ensures i <= |t| && start <= |t| && EncapsulationLine(t, i, BEGIN, CERTIFICATE) == Some(start)
    ensures NoDash(t, start, |t|) && Filtered(t, start, |t|) <= Base64.Encode(e.block.der)
  {
    var w := e.Word(i);
    var begun := HeadingParses(t, i, e.comment, w, BEGIN, e.block.d2);
    var body := e.block.Body(w);
    assert body == begun + e.block.d2;
    start := CutCloses(t, begun, body);
    LineFrom(t, i, BEGIN, begun, start);
  }

  /** A certificate that is cut off ends the chain, and uses up the text. */
  lemma CutParses(t: seq<byte>, i: nat, e: Entry)
    requires e.At(t, i) && e.block.cut
    ensures i <= |t| && ParseChain(t, i) == Chain([], false, true)
  {
    var start := CutOpens(t, i, e);
    BodyBreaksOff(t, start, e.block.der, Filtered(t, start, |t|));
    ObjectStopIff(t, i);
  }

  /**
   Every PEM rendering of a chain of certificates reads as exactly that chain, to the end of the text. If
   the text breaks off in the last certificate, it reads as the chain without it.
   */
  lemma {:induction false} ParseRender(t: seq<byte>, i: nat, es: seq<Entry>)
    requires ChainAt(t, i, es) && es != []
    ensures i <= |t| && ParseChain(t, i) == Chain(Ders(es), Whole(es), true)
    decreases |es|
  {
    if es[0].block.cut {
      CutParses(t, i, es[0]);
      ChainStarts(t, es[0].Next(i), es[1..]);
    } else {
      var next, rest := FirstParses(t, i, es);
      ChainStarts(t, next, rest);
      assert Ders(es) == [es[0].block.der] + Ders(rest) && Whole(es) == Whole(rest);
      if rest != [] {
        ParseRender(t, next, rest);
      }
    }
  }
}
