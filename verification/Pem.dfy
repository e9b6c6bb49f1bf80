/** Reading PEM objects: encapsulation lines around base64 contents. */
module Pem {
  import opened Bytes
  import opened Stuffers
  import opened Text
  import Base64

  const DASH: byte := 45
  const MAX_DASHES: nat := 64
  const BEGIN: seq<byte> := [66, 69, 71, 73, 78, 32]
  const END: seq<byte> := [69, 78, 68, 32]
  const CERTIFICATE: seq<byte> := [67, 69, 82, 84, 73, 70, 73, 67, 65, 84, 69]

  // ---------- encapsulation lines ----------

  /** The position after the dashes, the marker and the keyword that open a line. */
  function Heading(t: seq<byte>, i: nat, marker: seq<byte>, keyword: seq<byte>): (j: Option<nat>)
    requires i <= |t|
    ensures j.Some? ==> i + |marker| + |keyword| < j.value <= |t|
  {
    var line := SkipTo(t, i, DASH);
    var word := SkipRun(t, line, DASH, MAX_DASHES);
    var name := word + |marker|;
    if word == line || !StartsAt(t, word, marker) || !StartsAt(t, name, keyword) then None else Some(name + |keyword|)
  }

  /** The position after the dashes and the whitespace that close a line. */
  function Closing(t: seq<byte>, i: nat, marker: seq<byte>): (j: Option<nat>)
    requires i <= |t|
    ensures j.Some? ==> i <= j.value <= |t|
  {
    var end := SkipRun(t, i, DASH, MAX_DASHES);
    if end == i then None else
      Some(SkipSpace(t, if marker == END && StartsAt(t, end, BEGIN) then end - 1 else end))
  }

  function EncapsulationLine(t: seq<byte>, i: nat, marker: seq<byte>, keyword: seq<byte>): (j: Option<nat>)
    requires i <= |t|
    ensures j.Some? ==> i + |marker| + |keyword| < j.value <= |t|
  {
    var heading := Heading(t, i, marker, keyword);
    if heading.None? then None else Closing(t, heading.value, marker)
  }

  /** Where reading stops when a line does not open as it should. */
  function HeadingStop(t: seq<byte>, i: nat, marker: seq<byte>): (j: nat)
    requires i <= |t|
    ensures i <= j <= |t|
  {
    var line := SkipTo(t, i, DASH);
    var word := SkipRun(t, line, DASH, MAX_DASHES);
    if word > line && StartsAt(t, word, marker) then word + |marker| else word
  }

  /** Where reading stops when a line is malformed: without closing dashes, right after the keyword. */
  function LineStop(t: seq<byte>, i: nat, marker: seq<byte>, keyword: seq<byte>): (j: nat)
    requires i <= |t|
    ensures i <= j <= |t|
  {
    var heading := Heading(t, i, marker, keyword);
    if heading.None? then HeadingStop(t, i, marker) else heading.value
  }

  method ReadEncapsulationLine(pem: Stuffer, marker: seq<byte>, keyword: seq<byte>) returns (ok: bool)
    requires pem.Valid()
    modifies pem`read
    ensures pem.Valid()
    ensures var j := old(EncapsulationLine(pem.Contents(), pem.read, marker, keyword));
      (ok <==> j.Some?) && (ok ==> pem.read == j.value)
    ensures !ok ==> pem.read == old(LineStop(pem.Contents(), pem.read, marker, keyword))
  {
    ok := ReadHeading(pem, marker, keyword);
    if ok {
      ok := ReadClosing(pem, marker);
    }
  }

  method ReadHeading(pem: Stuffer, marker: seq<byte>, keyword: seq<byte>) returns (ok: bool)
    requires pem.Valid()
    modifies pem`read
    ensures pem.Valid()
    ensures var j := old(Heading(pem.Contents(), pem.read, marker, keyword));
      (ok <==> j.Some?) && (ok ==> pem.read == j.value)
    ensures !ok ==> pem.read == old(HeadingStop(pem.Contents(), pem.read, marker))
  {
    SkipToChar(pem, DASH);
    ok := SkipExpectedChar(pem, DASH, 1, MAX_DASHES);
    if !ok {
      return;
    }
    ok := ReadExpectedStr(pem, marker);
    if !ok {
      return;
    }
    ok := ReadExpectedStr(pem, keyword);
  }

  method ReadClosing(pem: Stuffer, marker: seq<byte>) returns (ok: bool)
    requires pem.Valid()
    modifies pem`read
    ensures pem.Valid()
    ensures var j := old(Closing(pem.Contents(), pem.read, marker));
      (ok <==> j.Some?) && (ok ==> pem.read == j.value)
    ensures !ok ==> pem.read == old(pem.read)
  {
    ok := SkipExpectedChar(pem, DASH, 1, MAX_DASHES);
    if !ok {
      return;
    }
    if marker == END {
      var next := PeekCheckForStr(pem, BEGIN);
      if next {
        ok := pem.RewindRead(1);
      }
    }
    SkipWhitespace(pem);
  }

  // ---------- contents ----------

  /** The base64 characters among t[i..j]. */
  function Filtered(t: seq<byte>, i: nat, j: nat): (f: seq<byte>)
    requires i <= j <= |t|
    ensures |f| <= j - i
    decreases j
  {
    if i == j then [] else
      Filtered(t, i, j - 1) + if Base64.IsBase64Char(t[j - 1]) then [t[j - 1]] else []
  }

  lemma {:induction false} FilteredPrefix(t: seq<byte>, i: nat, j: nat, k: nat)
    requires i <= j <= k <= |t|
    ensures Filtered(t, i, j) <= Filtered(t, i, k)
    decreases k
  {
    if j < k {
      FilteredPrefix(t, i, j, k - 1);
    }
  }

  lemma FilteredNext(t: seq<byte>, i: nat, j: nat, k: nat)
    requires i <= j < k <= |t|
    ensures var m := |Filtered(t, i, j)|;
      if Base64.IsBase64Char(t[j]) then
        m < |Filtered(t, i, k)| && Filtered(t, i, k)[m] == t[j] && |Filtered(t, i, j + 1)| == m + 1
      else |Filtered(t, i, j + 1)| == m
  {
    FilteredPrefix(t, i, j + 1, k);
  }

  /** Outcome of reading contents from position i: the dash they end at and the decoded bytes. */
  function Body(t: seq<byte>, i: nat): (r: Option<(nat, seq<byte>)>)
    requires i <= |t|
    ensures r.Some? ==> i <= r.value.0 < |t| && 4 * |r.value.1| <= 3 * (r.value.0 - i)
  {
    var end := SkipTo(t, i, DASH);
    var staged := Base64.Staged(Filtered(t, i, end), 0);
    if end == |t| || !staged.0 then None else Some((end, staged.1))
  }

  /** At p a full staging buffer is due, and it does not decode. */
  predicate FlushFails(t: seq<byte>, i: nat, p: nat)
    requires i <= p <= |t|
  {
    var f := Filtered(t, i, p);
    |f| > 0 && |f| % Base64.STAGING == 0 && !Base64.Decode(f[|f| - Base64.STAGING..]).ok
  }

  /** Where reading contents from i stops, having come to p. */
  function ContentsStop(t: seq<byte>, i: nat, p: nat): (j: nat)
    requires i <= p <= |t|
    ensures p <= j <= |t|
    decreases |t| - p
  {
    if p == |t| || t[p] == DASH then p
    else if Base64.IsBase64Char(t[p]) && FlushFails(t, i, p) then p + 1
    else ContentsStop(t, i, p + 1)
  }

  /** Between flushes: whole buffers have been flushed, and after the first flush the buffer is never empty. */
  predicate Between(flushed: nat, m: nat) {
    && flushed <= m <= flushed + Base64.STAGING && flushed % Base64.STAGING == 0
    && (flushed > 0 ==> flushed < m)
  }

  lemma FlushDue(flushed: nat, m: nat)
    requires Between(flushed, m)
    ensures m > 0 && m % Base64.STAGING == 0 <==> m == flushed + Base64.STAGING
  {
  }

  lemma LastBuffer(g: seq<byte>, f: seq<byte>, m: nat, flushed: nat)
    requires g <= f && m == |g| && m == flushed + Base64.STAGING
    ensures g[m - Base64.STAGING..] == f[flushed..m]
  {
  }

  lemma FlushIff(t: seq<byte>, i: nat, p: nat, end: nat, f: seq<byte>, flushed: nat, m: nat)
    requires i <= p <= end <= |t| && f == Filtered(t, i, end) && m == |Filtered(t, i, p)| && Between(flushed, m)
    ensures m <= |f|
    ensures FlushFails(t, i, p) <==> m == flushed + Base64.STAGING && !Base64.Decode(f[flushed..m]).ok
  {
    FilteredPrefix(t, i, p, end);
    FlushDue(flushed, m);
    if m == flushed + Base64.STAGING {
      LastBuffer(Filtered(t, i, p), f, m, flushed);
    }
  }

  /** The staging buffer holds the characters of f from `flushed` up to m. */
  ghost predicate Staging(base64: Stuffer, f: seq<byte>, flushed: nat, m: nat)
    reads base64
  {
    && base64.Valid() && base64.read == 0 && base64.size == Base64.STAGING && !base64.growable
    && flushed + base64.write == m <= |f| && base64.Contents() == f[flushed..m]
  }

  /** The results of staged decoding from every position. */
  ghost predicate IsPlan(plan: seq<(bool, seq<byte>)>, f: seq<byte>) {
    && |plan| == |f| + 1
    && forall n {:trigger Base64.Staged(f, n)} :: 0 <= n <= |f| ==> plan[n] == Base64.Staged(f, n)
  }

  /** Decodes a full staging buffer and empties it. */
  method FlushFull(base64: Stuffer, asn1: Stuffer, ghost f: seq<byte>, ghost plan: seq<(bool, seq<byte>)>,
                   ghost flushed: nat, ghost m: nat)
    returns (ok: bool, ghost chunk: seq<byte>)
    requires base64 != asn1 && asn1.Valid() && Staging(base64, f, flushed, m) && IsPlan(plan, f)
    requires m == flushed + Base64.STAGING < |f|
    modifies base64, asn1`mem, asn1`size, asn1`write, asn1`highWater
    ensures asn1.Valid() && old(asn1.size) <= asn1.size && |chunk| <= 48
    ensures ok ==>
      && Staging(base64, f, m, m) && asn1.Contents() == old(asn1.Contents()) + chunk
      && plan[flushed] == (plan[m].0, chunk + plan[m].1) && Base64.Decode(f[flushed..m]).ok
    ensures !ok ==> !plan[flushed].0 || !old(asn1.Accommodates(|plan[flushed].1|))
    ensures !ok ==> !Base64.Decode(f[flushed..m]).ok || !old(asn1.Accommodates(48))
  {
    assert base64.Unread() == f[flushed..m];
    assert plan[flushed] == Base64.Staged(f, flushed);
    assert plan[m] == Base64.Staged(f, m);
    chunk := Base64.Decode(base64.Unread()).out;
    ok := Base64.ReadBase64(base64, asn1);
    if ok {
      base64.Rewrite();
    }
  }

  /** Stages one more character, emptying a full buffer first. */
  method StageChar(base64: Stuffer, asn1: Stuffer, c: byte, ghost f: seq<byte>,
                   ghost plan: seq<(bool, seq<byte>)>, ghost flushed: nat, ghost m: nat)
    returns (ok: bool, ghost chunk: seq<byte>, ghost flushed': nat)
    requires base64 != asn1 && asn1.Valid() && Staging(base64, f, flushed, m) && m < |f| && f[m] == c
    requires IsPlan(plan, f) && Between(flushed, m)
    modifies base64, asn1`mem, asn1`size, asn1`write, asn1`highWater
    ensures asn1.Valid() && old(asn1.size) <= asn1.size
    ensures ok ==>
      && Staging(base64, f, flushed', m + 1) && flushed' <= |f| && Between(flushed', m + 1)
      && asn1.Contents() == old(asn1.Contents()) + chunk && 4 * |chunk| <= 3 * (flushed' - flushed)
      && plan[flushed] == (plan[flushed'].0, chunk + plan[flushed'].1)
    ensures !ok ==> !plan[flushed].0 || !old(asn1.Accommodates(|plan[flushed].1|))
    ensures ok && m == flushed + Base64.STAGING ==> Base64.Decode(f[flushed..m]).ok
    ensures !ok ==> m == flushed + Base64.STAGING
    ensures !ok ==> !Base64.Decode(f[flushed..m]).ok || !old(asn1.Accommodates(48))
  {
    chunk, flushed' := [], flushed;
    if base64.size - base64.write == 0 {
      ok, chunk := FlushFull(base64, asn1, f, plan, flushed, m);
      if !ok {
        return;
      }
      flushed' := flushed + Base64.STAGING;
    } else {
      assert [] + plan[flushed].1 == plan[flushed].1;
    }
    ok := base64.WriteBytes([c]);
  }

  /** One reading of contents: the text from i to the dash at `end`, its base64 characters, and what came before. */
  datatype Scan = Scan(t: seq<byte>, i: nat, end: nat, f: seq<byte>, plan: seq<(bool, seq<byte>)>, out0: seq<byte>)
  {
    ghost predicate Wf() {
      i <= end <= |t| && end == SkipTo(t, i, DASH) && f == Filtered(t, i, end) && IsPlan(plan, f)
    }
  }

  /** The scan has reached p and read m characters: `done` is decoded, and the staging buffer holds the rest. */
  ghost predicate Scanned(base64: Stuffer, asn1: Stuffer, k: Scan, p: nat, m: nat, flushed: nat, done: seq<byte>)
    reads base64, asn1
  {
    && k.Wf() && k.i <= p <= k.end && m == |Filtered(k.t, k.i, p)| && m <= |k.f|
    && asn1.Valid() && Staging(base64, k.f, flushed, m) && Between(flushed, m)
    && k.plan[0] == (k.plan[flushed].0, done + k.plan[flushed].1) && 4 * |done| <= 3 * flushed
    && asn1.Contents() == k.out0 + done
  }

  /** What one more character means for the scan. */
  lemma ScanStep(k: Scan, p: nat, m: nat, flushed: nat) returns (m': nat)
    requires k.Wf() && k.i <= p <= k.end && m == |Filtered(k.t, k.i, p)| && Between(flushed, m)
    requires p < |k.t| && k.t[p] != DASH
    ensures p < k.end && m' == |Filtered(k.t, k.i, p + 1)| <= |k.f| && m <= p - k.i
    ensures m' == if Base64.IsBase64Char(k.t[p]) then m + 1 else m
    ensures Base64.IsBase64Char(k.t[p]) ==> k.f[m] == k.t[p]
    ensures m <= |k.f|
    ensures ContentsStop(k.t, k.i, p) ==
      if Base64.IsBase64Char(k.t[p]) && m == flushed + Base64.STAGING && !Base64.Decode(k.f[flushed..m]).ok then p + 1
      else ContentsStop(k.t, k.i, p + 1)
  {
    SkipToIff(k.t, k.i, DASH, k.end);
    FilteredNext(k.t, k.i, p, k.end);
    FilteredPrefix(k.t, k.i, p + 1, k.end);
    FlushIff(k.t, k.i, p, k.end, k.f, flushed, m);
    m' := |Filtered(k.t, k.i, p + 1)|;
  }

  lemma ScanEnds(k: Scan, p: nat)
    requires k.Wf() && k.i <= p <= k.end && (p == |k.t| || k.t[p] == DASH)
    ensures p == k.end && Filtered(k.t, k.i, p) == k.f && ContentsStop(k.t, k.i, p) == p
  {
    SkipToIff(k.t, k.i, DASH, k.end);
  }

  method TakeChar(pem: Stuffer) returns (c: byte)
    requires pem.Valid() && pem.read < pem.write
    modifies pem`read
    ensures pem.Valid() && pem.read == old(pem.read) + 1 && c == pem.Contents()[old(pem.read)]
    ensures pem.Contents() == old(pem.Contents())
  {
    c := pem.mem[pem.read];
    pem.read := pem.read + 1;
  }

  /** n bytes more than w would have fitted when the buffer had `size` bytes. */
  ghost predicate Fitted(asn1: Stuffer, size: nat, w: nat, n: nat)
    reads asn1
  {
    w + n <= size || (asn1.growable && !asn1.tainted && w + n + MIN_GROWTH <= UINT32_MAX)
  }

  method StageNext(base64: Stuffer, asn1: Stuffer, c: byte, ghost k: Scan, ghost p: nat, ghost m: nat,
                   ghost flushed: nat, ghost done: seq<byte>, ghost size: nat)
    returns (ok: bool, ghost m': nat, ghost flushed': nat, ghost done': seq<byte>)
    requires base64 != asn1 && Scanned(base64, asn1, k, p, m, flushed, done)
    requires p < |k.t| && k.t[p] == c != DASH
    requires size <= asn1.size
    modifies base64, asn1`mem, asn1`size, asn1`write, asn1`highWater
    ensures asn1.Valid() && old(asn1.size) <= asn1.size
    ensures ok ==> Scanned(base64, asn1, k, p + 1, m', flushed', done')
    ensures ok ==> ContentsStop(k.t, k.i, p) == ContentsStop(k.t, k.i, p + 1)
    ensures !ok ==> !k.plan[0].0 || !Fitted(asn1, size, |k.out0|, |k.plan[0].1|)
    ensures !ok ==> ContentsStop(k.t, k.i, p) == p + 1 || !Fitted(asn1, size, |k.out0|, 3 * (p - k.i) / 4)
  {
    m' := ScanStep(k, p, m, flushed);
    flushed', done' := flushed, done;
    if !Base64.IsBase64Char(c) {
      return true, m', flushed, done;
    }
    ghost var chunk;
    ok, chunk, flushed' := StageChar(base64, asn1, c, k.f, k.plan, flushed, m);
    done' := done + chunk;
    if ok {
      Assoc(done, chunk, k.plan[flushed'].1);
      Assoc(k.out0, done, chunk);
    }
  }

  /** The scan is where pem's read cursor is, and goes to `stop`. */
  ghost predicate Progress(pem: Stuffer, base64: Stuffer, asn1: Stuffer, k: Scan, m: nat, flushed: nat,
                           done: seq<byte>, size: nat, stop: nat)
    reads pem, base64, asn1
  {
    && pem.Valid() && pem.Contents() == k.t && size <= asn1.size
    && Scanned(base64, asn1, k, pem.read, m, flushed, done) && stop == ContentsStop(k.t, k.i, pem.read)
  }

  method StageStep(pem: Stuffer, base64: Stuffer, asn1: Stuffer, ghost k: Scan, ghost m: nat, ghost flushed: nat,
                   ghost done: seq<byte>, ghost size: nat, ghost stop: nat)
    returns (ok: bool, ghost m': nat, ghost flushed': nat, ghost done': seq<byte>)
    requires pem != asn1 && pem != base64 && base64 != asn1
    requires Progress(pem, base64, asn1, k, m, flushed, done, size, stop)
    requires pem.read < pem.write && pem.mem[pem.read] != DASH
    modifies pem`read, base64, asn1`mem, asn1`size, asn1`write, asn1`highWater
    ensures pem.Valid() && asn1.Valid() && size <= asn1.size && old(pem.read) < pem.read
    ensures ok ==> Progress(pem, base64, asn1, k, m', flushed', done', size, stop)
    ensures !ok ==> !k.plan[0].0 || !Fitted(asn1, size, |k.out0|, |k.plan[0].1|)
    ensures !ok ==> stop == pem.read || !Fitted(asn1, size, |k.out0|, 3 * (pem.write - k.i) / 4)
  {
    ghost var p := pem.read;
    var c := TakeChar(pem);
    ok, m', flushed', done' := StageNext(base64, asn1, c, k, p, m, flushed, done, size);
  }

  /** Stages the characters up to the first dash; what the staging buffer holds then is not decoded yet. */
  method StageBody(pem: Stuffer, base64: Stuffer, asn1: Stuffer, ghost k: Scan)
    returns (ok: bool, ghost flushed: nat, ghost done: seq<byte>)
    requires pem != asn1 && pem != base64 && base64 != asn1 && pem.Valid() && k.t == pem.Contents() && k.i == pem.read
    requires Scanned(base64, asn1, k, pem.read, 0, 0, [])
    modifies pem`read, base64, asn1`mem, asn1`size, asn1`write, asn1`highWater
    ensures pem.Valid() && asn1.Valid() && old(asn1.size) <= asn1.size
    ensures ok ==> pem.read == k.end < pem.write && Scanned(base64, asn1, k, k.end, |k.f|, flushed, done)
    ensures !ok ==> k.end == pem.write || !k.plan[0].0 || !Fitted(asn1, old(asn1.size), |k.out0|, |k.plan[0].1|)
    ensures Fitted(asn1, old(asn1.size), |k.out0|, 3 * (pem.write - k.i) / 4) ==>
      pem.read == ContentsStop(k.t, k.i, k.i)
  {
    ghost var m, stop, size := 0, ContentsStop(k.t, k.i, k.i), asn1.size;
    flushed, done := 0, [];
    while pem.write - pem.read >= 1 && pem.mem[pem.read] != DASH
      invariant Progress(pem, base64, asn1, k, m, flushed, done, size, stop)
      decreases pem.write - pem.read
    {
      ok, m, flushed, done := StageStep(pem, base64, asn1, k, m, flushed, done, size, stop);
      if !ok {
        return;
      }
    }
    ScanEnds(k, pem.read);
    ok := pem.write - pem.read >= 1;
  }

  method ReadContents(pem: Stuffer, asn1: Stuffer) returns (ok: bool)
    requires pem != asn1 && pem.Valid() && asn1.Valid()
    modifies pem`read, asn1`mem, asn1`size, asn1`write, asn1`highWater
    ensures pem.Valid() && asn1.Valid() && old(asn1.size) <= asn1.size
    ensures var body := old(Body(pem.Contents(), pem.read));
      && (ok ==> body.Some? && pem.read == body.value.0 && asn1.Contents() == old(asn1.Contents()) + body.value.1)
      && (!ok ==> body.None? || !old(asn1.Accommodates(|Body(pem.Contents(), pem.read).value.1|)))
    ensures old(asn1.Accommodates(3 * (pem.write - pem.read) / 4)) ==>
      pem.read == old(ContentsStop(pem.Contents(), pem.read, pem.read))
  {
    ghost var k := BodyPlan(pem.Contents(), pem.read, asn1.Contents());
    var base64 := new Stuffer.Init(Repeat(0, Base64.STAGING));
    ghost var flushed, done;
    ok, flushed, done := StageBody(pem, base64, asn1, k);
    if ok {
      ok := FlushRest(base64, asn1, k, flushed, done);
    }
  }

  lemma BodyPlan(t: seq<byte>, i: nat, out0: seq<byte>) returns (k: Scan)
    requires i <= |t|
    ensures k.Wf() && k.t == t && k.i == i && k.out0 == out0 && Filtered(t, i, i) == []
    ensures k.plan[0] == (k.plan[0].0, [] + k.plan[0].1) && out0 == out0 + []
    ensures Body(t, i) == if k.end == |t| || !k.plan[0].0 then None else Some((k.end, k.plan[0].1))
  {
    var end := SkipTo(t, i, DASH);
    var f := Filtered(t, i, end);
    var plan := seq(|f| + 1, n requires 0 <= n <= |f| => Base64.Staged(f, n));
    assert plan[0] == Base64.Staged(f, 0);
    assert [] + plan[0].1 == plan[0].1;
    k := Scan(t, i, end, f, plan, out0);
  }

  /** Decodes what is left in the staging buffer. */
  method FlushRest(base64: Stuffer, asn1: Stuffer, ghost k: Scan, ghost flushed: nat, ghost done: seq<byte>)
    returns (ok: bool)
    requires base64 != asn1 && Scanned(base64, asn1, k, k.end, |k.f|, flushed, done)
    modifies base64`read, asn1`mem, asn1`size, asn1`write, asn1`highWater
    ensures asn1.Valid() && old(asn1.size) <= asn1.size
    ensures ok ==> k.plan[0].0 && asn1.Contents() == k.out0 + k.plan[0].1
    ensures !ok ==> !k.plan[0].0 || !old(asn1.Accommodates(|k.plan[flushed].1|))
  {
    assert k.plan[flushed] == Base64.Staged(k.f, flushed);
    assert base64.Unread() == k.f[flushed..];
    Assoc(k.out0, done, k.plan[flushed].1);
    ok := Base64.ReadBase64(base64, asn1);
  }

  // ---------- objects ----------

  /** Contents from position p and the END line after them: where that ends and the bytes. */
  function Remainder(t: seq<byte>, p: nat, keyword: seq<byte>): (r: Option<(nat, seq<byte>)>)
    requires p <= |t|
    ensures r.Some? ==> p < r.value.0 <= |t| && 4 * |r.value.1| <= 3 * (r.value.0 - p)
  {
    var body := Body(t, p);
    if body.None? then None else
      var end := EncapsulationLine(t, body.value.0, END, keyword);
      if end.None? then None else Some((end.value, body.value.1))
  }

  function RemainderStop(t: seq<byte>, p: nat, keyword: seq<byte>): (j: nat)
    requires p <= |t|
    ensures p <= j <= |t|
  {
    var body := Body(t, p);
    if body.None? then ContentsStop(t, p, p) else LineStop(t, body.value.0, END, keyword)
  }

  /** One PEM object from position i: where it ends and its bytes. */
  function Object(t: seq<byte>, i: nat, keyword: seq<byte>): (r: Option<(nat, seq<byte>)>)
    requires i <= |t|
    ensures r.Some? ==> i + |keyword| < r.value.0 <= |t| && 4 * |r.value.1| <= 3 * (r.value.0 - i)
  {
    var begin := EncapsulationLine(t, i, BEGIN, keyword);
    if begin.None? then None else Remainder(t, begin.value, keyword)
  }

  /** Where reading stops when there is no object at i. */
  function ObjectStop(t: seq<byte>, i: nat, keyword: seq<byte>): (j: nat)
    requires i <= |t|
    ensures i <= j <= |t|
  {
    var begin := EncapsulationLine(t, i, BEGIN, keyword);
    if begin.None? then LineStop(t, i, BEGIN, keyword) else RemainderStop(t, begin.value, keyword)
  }

  method ReadRemainder(pem: Stuffer, asn1: Stuffer, keyword: seq<byte>) returns (ok: bool)
    requires pem != asn1 && pem.Valid() && asn1.Valid()
    modifies pem`read, asn1`mem, asn1`size, asn1`write, asn1`highWater
    ensures pem.Valid() && asn1.Valid() && old(asn1.size) <= asn1.size
    ensures var found := old(Remainder(pem.Contents(), pem.read, keyword));
      && (ok ==> found.Some? && pem.read == found.value.0 && asn1.Contents() == old(asn1.Contents()) + found.value.1)
      && (!ok ==> found.None? || !old(asn1.Accommodates(|Remainder(pem.Contents(), pem.read, keyword).value.1|)))
    ensures !ok ==>
      || pem.read == old(RemainderStop(pem.Contents(), pem.read, keyword))
      || !old(asn1.Accommodates(3 * (pem.write - pem.read) / 4))
  {
    ok := ReadContents(pem, asn1);
    if ok {
      ok := ReadEncapsulationLine(pem, END, keyword);
    }
  }

  method DataFromPem(pem: Stuffer, asn1: Stuffer, keyword: seq<byte>) returns (ok: bool)
    requires pem != asn1 && pem.Valid() && asn1.Valid()
    modifies pem`read, asn1`mem, asn1`size, asn1`write, asn1`highWater
    ensures pem.Valid() && asn1.Valid() && old(asn1.size) <= asn1.size
    ensures var found := old(Object(pem.Contents(), pem.read, keyword));
      && (ok ==> found.Some? && pem.read == found.value.0 && asn1.Contents() == old(asn1.Contents()) + found.value.1)
      && (!ok ==> found.None? || !old(asn1.Accommodates(|Object(pem.Contents(), pem.read, keyword).value.1|)))
    ensures !ok ==>
      || pem.read == old(ObjectStop(pem.Contents(), pem.read, keyword))
      || !old(asn1.Accommodates(3 * (pem.write - pem.read) / 4))
  {
    ok := ReadEncapsulationLine(pem, BEGIN, keyword);
    if ok {
      ok := ReadRemainder(pem, asn1, keyword);
    }
  }
}
