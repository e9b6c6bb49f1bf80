/** The usual way to write a chain: every list of certificates has a PEM text, and it loads as that list. */
module PemRender {
  import opened Bytes
  import opened Text
  import opened Pem
  import Base64
  import opened Certificates
  import opened PemChain

  const NEWLINE: seq<byte> := [10]

  function Dashes(): (s: seq<byte>)
    ensures |s| == 5 && forall k :: 0 <= k < 5 ==> s[k] == DASH
  {
    seq(5, _ => DASH)
  }

  ghost predicate Blank(sep: seq<byte>) {
    forall k :: 0 <= k < |sep| ==> IsSpace(sep[k])
  }

  /** What follows the word END: any whitespace, or none at all, may separate certificates. */
  function Tail(sep: seq<byte>): (s: seq<byte>)
  {
    END + (CERTIFICATE + (Dashes() + sep))
  }

  /** What follows the word BEGIN and its keyword. */
  function Contents(der: seq<byte>, sep: seq<byte>): (s: seq<byte>)
  {
    Dashes() + (NEWLINE + (Base64.Encode(der) + (NEWLINE + (Dashes() + Tail(sep)))))
  }

  function CertText(der: seq<byte>, sep: seq<byte>): (s: seq<byte>)
  {
    Dashes() + (BEGIN + (CERTIFICATE + Contents(der, sep)))
  }

  function Render(ders: seq<seq<byte>>, sep: seq<byte>): (s: seq<byte>)
  {
    if ders == [] then [] else CertText(ders[0], sep) + Render(ders[1..], sep)
  }

  // ---------- such a text has the shape the loader reads ----------

  lemma StartsConcat(t: seq<byte>, i: nat, a: seq<byte>, b: seq<byte>)
    requires StartsAt(t, i, a + b)
    ensures StartsAt(t, i, a) && StartsAt(t, i + |a|, b)
  {
    var s := t[i..i + |a + b|];
    assert s[..|a|] == t[i..i + |a|] && s[|a|..] == t[i + |a|..i + |a| + |b|];
    assert (a + b)[..|a|] == a && (a + b)[|a|..] == b;
  }

  lemma StartsWith(t: seq<byte>, i: nat, word: seq<byte>, k: nat)
    requires StartsAt(t, i, word) && k < |word|
    ensures t[i + k] == word[k]
  {
    assert t[i..i + |word|][k] == t[i + k];
  }

  lemma DashesStart(t: seq<byte>, i: nat)
    requires StartsAt(t, i, Dashes())
    ensures DashesAt(t, i, 5)
  {
    forall k | i <= k < i + 5 ensures t[k] == DASH { StartsWith(t, i, Dashes(), k - i); }
  }

  lemma SymbolIsText(v: nat)
    requires v < 65
    ensures Base64.IsBase64Char(Base64.Symbol(v)) && Base64.Symbol(v) != DASH
  {
    Base64.ValueSymbol(v);
  }

  lemma BlockIsText(d: seq<byte>, k: nat)
    requires 1 <= |d| <= 3 && k < 4
    ensures var c := Base64.EncodeBlock(d)[k]; Base64.IsBase64Char(c) && c != DASH
  {
    SymbolIsText(64);
    var c := Base64.EncodeBlock(d)[k];
    if c != Base64.PAD {
      var v :| 0 <= v < 64 && c == Base64.Symbol(v);
      SymbolIsText(v);
    }
  }

  lemma {:induction false} EncodedIsText(d: seq<byte>, k: nat)
    requires k < |Base64.Encode(d)|
    ensures var c := Base64.Encode(d)[k]; Base64.IsBase64Char(c) && c != DASH
  {
    if |d| <= 3 {
      BlockIsText(d, k);
    } else if k < 4 {
      BlockIsText(d[..3], k);
    } else {
      EncodedIsText(d[3..], k - 4);
    }
  }

  lemma {:induction false} FilteredAll(t: seq<byte>, i: nat, j: nat)
    requires i <= j <= |t| && forall k :: i <= k < j ==> Base64.IsBase64Char(t[k])
    ensures Filtered(t, i, j) == t[i..j]
    decreases j
  {
    if i < j {
      FilteredAll(t, i, j - 1);
      assert t[i..j] == t[i..j - 1] + [t[j - 1]];
    }
  }

  lemma CharsRead(t: seq<byte>, i: nat, der: seq<byte>, e: seq<byte>)
    requires e == Base64.Encode(der) && StartsAt(t, i, e)
    ensures NoDashAt(t, i, |e|) && Filtered(t, i, i + |e|) == e
  {
    forall k | i <= k < i + |e| ensures Base64.IsBase64Char(t[k]) && t[k] != DASH {
      StartsWith(t, i, e, k - i);
      EncodedIsText(der, k - i);
    }
    FilteredAll(t, i, i + |e|);
  }

  /** The body: a newline, the base64 characters, a newline. */
  lemma BodyReads(t: seq<byte>, i: nat, n: nat, e: seq<byte>, end: nat)
    requires end == i + n + 2 && StartsAt(t, i, NEWLINE) && StartsAt(t, end - 1, NEWLINE)
    requires NoDashAt(t, i + 1, n) && Filtered(t, i + 1, end - 1) == e
    ensures end <= |t| && NoDashAt(t, i, end - i) && Filtered(t, i, end) == e
  {
    StartsWith(t, i, NEWLINE, 0);
    StartsWith(t, end - 1, NEWLINE, 0);
    SpaceIsNotBase64(t[end - 1]);
    FilteredSkipsSpace(t, i, i + 1, end - 1);
  }

  function EntryOf(der: seq<byte>, sep: seq<byte>): (e: Entry)
  {
    Entry(0, 5, Block(5, |Base64.Encode(der)| + 2, 5, 5, |sep|, der, false))
  }

  lemma TailReads(t: seq<byte>, w: nat, sep: seq<byte>)
    requires StartsAt(t, w, Tail(sep)) && Blank(sep)
    ensures LineAt(t, w, END, 5) && SpaceAt(t, w + |END| + |CERTIFICATE| + 5, |sep|)
  {
    StartsConcat(t, w, END, CERTIFICATE + (Dashes() + sep));
    var c := w + |END|;
    StartsConcat(t, c, CERTIFICATE, Dashes() + sep);
    var d := c + |CERTIFICATE|;
    StartsConcat(t, d, Dashes(), sep);
    DashesStart(t, d);
    forall k | d + 5 <= k < d + 5 + |sep| ensures IsSpace(t[k]) { StartsWith(t, d + 5, sep, k - d - 5); }
  }

  lemma ContentsRead(t: seq<byte>, d: nat, der: seq<byte>, sep: seq<byte>, e: seq<byte>, end: nat)
    requires StartsAt(t, d, Contents(der, sep)) && e == Base64.Encode(der) && end == d + 5 + |e| + 2
    ensures DashesAt(t, d, 5) && end <= |t| && NoDashAt(t, d + 5, |e| + 2) && Filtered(t, d + 5, end) == e
    ensures DashesAt(t, end, 5) && StartsAt(t, end + 5, Tail(sep))
  {
    var text := NEWLINE + (e + (NEWLINE + (Dashes() + Tail(sep))));
    StartsConcat(t, d, Dashes(), text);
    DashesStart(t, d);
    TextPieces(t, d + 5, e, Tail(sep), end);
    CharsRead(t, d + 6, der, e);
    BodyReads(t, d + 5, |e|, e, end);
  }

  lemma TextPieces(t: seq<byte>, p: nat, e: seq<byte>, tail: seq<byte>, end: nat)
    requires StartsAt(t, p, NEWLINE + (e + (NEWLINE + (Dashes() + tail)))) && end == p + |e| + 2
    ensures StartsAt(t, p, NEWLINE) && StartsAt(t, p + 1, e) && StartsAt(t, end - 1, NEWLINE)
    ensures DashesAt(t, end, 5) && StartsAt(t, end + 5, tail)
  {
    var last := Dashes() + tail;
    StartsConcat(t, p, NEWLINE, e + (NEWLINE + last));
    StartsConcat(t, p + 1, e, NEWLINE + last);
    StartsConcat(t, end - 1, NEWLINE, last);
    StartsConcat(t, end, Dashes(), tail);
    DashesStart(t, end);
  }

  lemma HeadReads(t: seq<byte>, i: nat, r: seq<byte>, w: nat, d: nat)
    requires StartsAt(t, i, Dashes() + (BEGIN + (CERTIFICATE + r))) && w == i + 5 && d == w + |BEGIN| + |CERTIFICATE|
    ensures DashesAt(t, i, 5) && StartsAt(t, w, BEGIN) && StartsAt(t, w + |BEGIN|, CERTIFICATE) && StartsAt(t, d, r)
  {
    StartsConcat(t, i, Dashes(), BEGIN + (CERTIFICATE + r));
    DashesStart(t, i);
    StartsConcat(t, w, BEGIN, CERTIFICATE + r);
    StartsConcat(t, w + |BEGIN|, CERTIFICATE, r);
  }

  lemma BlockReads(t: seq<byte>, w: nat, d: nat, e: seq<byte>, end: nat, b: Block)
    requires !b.cut && b.d2 == b.d3 == b.d4 == 5 && b.body == |e| + 2 && b.der != [] && e == Base64.Encode(b.der)
    requires d == w + |BEGIN| + |CERTIFICATE| && end == d + 5 + |e| + 2
    requires StartsAt(t, w, BEGIN) && StartsAt(t, w + |BEGIN|, CERTIFICATE)
    requires DashesAt(t, d, 5) && end <= |t| && NoDashAt(t, d + 5, |e| + 2) && Filtered(t, d + 5, end) == e
    requires DashesAt(t, end, 5) && LineAt(t, end + 5, END, 5)
    requires SpaceAt(t, end + 5 + |END| + |CERTIFICATE| + 5, b.space)
    ensures b.At(t, w) && b.Next(w) == end + 5 + |END| + |CERTIFICATE| + 5 + b.space
  {
    assert b.Body(w) == d + 5 && b.End(w) == end;
  }

  lemma CertSize(der: seq<byte>, sep: seq<byte>, e: seq<byte>)
    requires e == Base64.Encode(der)
    ensures |CertText(der, sep)| == 22 + |BEGIN| + |CERTIFICATE| + |e| + |END| + |CERTIFICATE| + |sep|
  {
  }

  lemma ConsEntries(e: Entry, es: seq<Entry>, all: seq<Entry>)
    requires all == [e] + es
    ensures all != [] && all[0] == e && all[1..] == es && (|all| > 1 ==> all[1] == es[0])
  {
  }

  lemma ChainCons(t: seq<byte>, i: nat, e: Entry, es: seq<Entry>, next: nat, all: seq<Entry>)
    requires e.comment == 0 && e.d1 == 5 && DashesAt(t, i, 5) && e.block.At(t, i + 5) && all == [e] + es
    requires next == e.block.Next(i + 5) && ChainAt(t, next, es) && (es != [] ==> es[0].comment == 0)
    ensures ChainAt(t, i, all)
  {
    ConsEntries(e, es, all);
  }

  /** A certificate, followed by what is already known to be a chain. */
  lemma ChainGrows(t: seq<byte>, i: nat, der: seq<byte>, sep: seq<byte>, rest: seq<Entry>, next: nat)
    requires StartsAt(t, i, CertText(der, sep)) && next == i + |CertText(der, sep)| && der != [] && Blank(sep)
    requires ChainAt(t, next, rest) && (rest != [] ==> rest[0].comment == 0)
    ensures ChainAt(t, i, [EntryOf(der, sep)] + rest)
  {
    var w := i + 5;
    var d := w + |BEGIN| + |CERTIFICATE|;
    var e := Base64.Encode(der);
    var end := d + 5 + |e| + 2;
    HeadReads(t, i, Contents(der, sep), w, d);
    ContentsRead(t, d, der, sep, e, end);
    TailReads(t, end + 5, sep);
    BlockReads(t, w, d, e, end, EntryOf(der, sep).block);
    CertSize(der, sep, e);
    ChainCons(t, i, EntryOf(der, sep), rest, next, [EntryOf(der, sep)] + rest);
  }

  /** A rendered list starts with its first certificate, and the others follow it. */
  lemma RenderSplits(t: seq<byte>, i: nat, ders: seq<seq<byte>>, sep: seq<byte>, end: nat) returns (next: nat)
    requires StartsAt(t, i, Render(ders, sep)) && end == i + |Render(ders, sep)| && ders != []
    ensures StartsAt(t, i, CertText(ders[0], sep)) && next == i + |CertText(ders[0], sep)|
    ensures StartsAt(t, next, Render(ders[1..], sep)) && next + |Render(ders[1..], sep)| == end
  {
    var text, rest := CertText(ders[0], sep), Render(ders[1..], sep);
    assert Render(ders, sep) == text + rest;
    StartsConcat(t, i, text, rest);
    next := i + |text|;
  }

  function EntriesOf(ders: seq<seq<byte>>, sep: seq<byte>, last: seq<Entry>): (es: seq<Entry>)
  {
    if ders == [] then last else [EntryOf(ders[0], sep)] + EntriesOf(ders[1..], sep, last)
  }

  lemma ConsConcat(ders: seq<seq<byte>>, more: seq<seq<byte>>)
    requires ders != []
    ensures [ders[0]] + (ders[1..] + more) == ders + more
  {
  }

  lemma {:induction false} DersOfEntries(ders: seq<seq<byte>>, sep: seq<byte>, last: seq<Entry>)
    ensures Ders(EntriesOf(ders, sep, last)) == ders + Ders(last)
    ensures Whole(EntriesOf(ders, sep, last)) == Whole(last)
  {
    if ders == [] {
      assert [] + Ders(last) == Ders(last);
    } else {
      var es := EntriesOf(ders, sep, last);
      DersOfEntries(ders[1..], sep, last);
      assert es[1..] == EntriesOf(ders[1..], sep, last);
      ConsConcat(ders, Ders(last));
    }
  }

  /** A rendered list, followed by what is already known to be a chain. */
  lemma {:induction false} RenderIsChain(t: seq<byte>, i: nat, ders: seq<seq<byte>>, sep: seq<byte>,
                                         last: seq<Entry>, end: nat)
    requires StartsAt(t, i, Render(ders, sep)) && end == i + |Render(ders, sep)| && ChainAt(t, end, last)
    requires [] !in ders && Blank(sep) && (last != [] ==> last[0].comment == 0)
    ensures ChainAt(t, i, EntriesOf(ders, sep, last))
    decreases |ders|
  {
    if ders != [] {
      var next := RenderSplits(t, i, ders, sep, end);
      var rest := EntriesOf(ders[1..], sep, last);
      RenderIsChain(t, next, ders[1..], sep, last, end);
      assert rest != [] ==> rest[0].comment == 0;
      ChainGrows(t, i, ders[0], sep, rest, next);
    }
  }

  lemma RenderParses(t: seq<byte>, ders: seq<seq<byte>>, sep: seq<byte>, last: seq<Entry>, end: nat)
    requires StartsAt(t, 0, Render(ders, sep)) && end == |Render(ders, sep)| && ChainAt(t, end, last)
    requires ders != [] && [] !in ders && Blank(sep) && (last != [] ==> last[0].comment == 0)
    ensures ParseChain(t, 0) == Chain(ders + Ders(last), Whole(last), true)
  {
    RenderIsChain(t, 0, ders, sep, last, end);
    DersOfEntries(ders, sep, last);
    ParseRender(t, 0, EntriesOf(ders, sep, last));
  }

  /** Any non-empty list of non-empty certificates, with any whitespace or none between them, loads as that list. */
  lemma RenderLoads(ders: seq<seq<byte>>, sep: seq<byte>)
    requires ders != [] && [] !in ders && Blank(sep)
    ensures ParseChain(Render(ders, sep), 0) == Chain(ders, true, true)
  {
    var t := Render(ders, sep);
    assert t[0..|t|] == t && ders + [] == ders;
    RenderParses(t, ders, sep, [], |t|);
  }

  // ---------- a text that is cut off ----------

  /** A certificate up to the first n characters of its base64. */
  function CutText(der: seq<byte>, n: nat): (s: seq<byte>)
    requires n <= |Base64.Encode(der)|
  {
    Dashes() + (BEGIN + (CERTIFICATE + (Dashes() + (NEWLINE + Base64.Encode(der)[..n]))))
  }

  lemma TextReads(t: seq<byte>, p: nat, der: seq<byte>, s: seq<byte>)
    requires s <= Base64.Encode(der) && StartsAt(t, p, s) && p + |s| == |t|
    ensures NoDashAt(t, p, |s|) && Filtered(t, p, |t|) == s
  {
    forall k | p <= k < |t| ensures Base64.IsBase64Char(t[k]) && t[k] != DASH {
      StartsWith(t, p, s, k - p);
      EncodedIsText(der, k - p);
    }
    FilteredAll(t, p, |t|);
  }

  lemma CutBodyReads(t: seq<byte>, p: nat, der: seq<byte>, e: seq<byte>, s: seq<byte>)
    requires e == Base64.Encode(der) && s <= e && p + 1 + |s| == |t|
    requires StartsAt(t, p, NEWLINE) && StartsAt(t, p + 1, s)
    ensures NoDashAt(t, p, 1 + |s|) && Filtered(t, p, |t|) == s
  {
    StartsWith(t, p, NEWLINE, 0);
    TextReads(t, p + 1, der, s);
    FilteredSkipsSpace(t, p, p + 1, |t|);
  }

  lemma CutBlockReads(t: seq<byte>, w: nat, d: nat, s: seq<byte>, b: Block)
    requires b.cut && b.d2 == 5 && b.body == 1 + |s| && b.der != [] && s <= Base64.Encode(b.der)
    requires d == w + |BEGIN| + |CERTIFICATE| && d + 6 + |s| == |t|
    requires StartsAt(t, w, BEGIN) && StartsAt(t, w + |BEGIN|, CERTIFICATE)
    requires DashesAt(t, d, 5) && NoDashAt(t, d + 5, 1 + |s|) && Filtered(t, d + 5, |t|) == s
    ensures b.At(t, w) && b.Next(w) == |t|
  {
    assert b.Body(w) == d + 5 && b.End(w) == |t|;
  }

  lemma CutPieces(t: seq<byte>, i: nat, s: seq<byte>, w: nat, d: nat)
    requires StartsAt(t, i, Dashes() + (BEGIN + (CERTIFICATE + (Dashes() + (NEWLINE + s)))))
    requires w == i + 5 && d == w + |BEGIN| + |CERTIFICATE|
    ensures DashesAt(t, i, 5) && StartsAt(t, w, BEGIN) && StartsAt(t, w + |BEGIN|, CERTIFICATE) && DashesAt(t, d, 5)
    ensures StartsAt(t, d + 5, NEWLINE) && StartsAt(t, d + 6, s)
  {
    HeadReads(t, i, Dashes() + (NEWLINE + s), w, d);
    StartsConcat(t, d, Dashes(), NEWLINE + s);
    DashesStart(t, d);
    StartsConcat(t, d + 5, NEWLINE, s);
  }

  lemma CutReads(t: seq<byte>, i: nat, der: seq<byte>, n: nat, s: seq<byte>) returns (e: Entry)
    requires n <= |Base64.Encode(der)| && der != [] && s == Base64.Encode(der)[..n]
    requires StartsAt(t, i, CutText(der, n)) && i + |CutText(der, n)| == |t|
    ensures e.At(t, i) && e.block.cut && e.comment == 0 && e.Next(i) == |t|
  {
    var w := i + 5;
    var d := w + |BEGIN| + |CERTIFICATE|;
    CutPieces(t, i, s, w, d);
    assert |t| == d + 6 + |s|;
    CutBodyReads(t, d + 5, der, Base64.Encode(der), s);
    e := Entry(0, 5, Block(5, 1 + n, 0, 0, 0, der, true));
    CutBlockReads(t, w, d, s, e.block);
  }

  lemma CutChain(t: seq<byte>, i: nat, e: Entry)
    requires e.At(t, i) && e.block.cut && e.Next(i) == |t|
    ensures ChainAt(t, i, [e]) && Ders([e]) == [] && !Whole([e])
  {
    assert [e][1..] == [];
  }

  /** A text cut off anywhere in the base64 of its last certificate loads as the list without it. */
  lemma CutRenderLoads(ders: seq<seq<byte>>, sep: seq<byte>, der: seq<byte>, n: nat)
    requires ders != [] && [] !in ders && Blank(sep) && der != [] && n <= |Base64.Encode(der)|
    ensures ParseChain(Render(ders, sep) + CutText(der, n), 0) == Chain(ders, false, true)
  {
    var a, b := Render(ders, sep), CutText(der, n);
    var t := a + b;
    assert t[0..|t|] == t;
    StartsConcat(t, 0, a, b);
    var e := CutReads(t, |a|, der, n, Base64.Encode(der)[..n]);
    CutChain(t, |a|, e);
    assert ders + [] == ders;
    RenderParses(t, ders, sep, [e], |a|);
  }
}
