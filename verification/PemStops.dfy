/** Where reading a certificate that is not there stops, and for which texts that is at their end. */
module PemStops {
  import opened Bytes
  import opened Text
  import opened Pem
  import Base64
  import opened Certificates

  ghost predicate NoDash(t: seq<byte>, i: nat, j: nat) {
    i <= j <= |t| && forall k :: i <= k < j ==> t[k] != DASH
  }

  ghost predicate AllDashes(t: seq<byte>, i: nat, j: nat) {
    i <= j <= |t| && forall k :: i <= k < j ==> t[k] == DASH
  }

  // ---------- lines ----------

  /** After its dashes at b, a line ends with the text: at once, after the marker, or after the keyword. */
  ghost predicate CutAfterDashes(t: seq<byte>, b: nat, marker: seq<byte>)
    requires b <= |t|
  {
    t[b..] == [] || t[b..] == marker || t[b..] == marker + CERTIFICATE
  }

  /** No dash from i on, or one line that is cut off: in its first dashes, or right after one of its words. */
  ghost predicate LineCut(t: seq<byte>, i: nat, marker: seq<byte>) {
    || NoDash(t, i, |t|)
    || exists a: nat, b: nat ::
         NoDash(t, i, a) && AllDashes(t, a, b) && a < b <= a + MAX_DASHES && CutAfterDashes(t, b, marker)
  }

  lemma SuffixIs(t: seq<byte>, b: nat, word: seq<byte>)
    requires b <= |t|
    ensures t[b..] == word <==> StartsAt(t, b, word) && b + |word| == |t|
  {
    if b + |word| == |t| {
      assert t[b..] == t[b..b + |word|];
    }
  }

  lemma SuffixTwo(t: seq<byte>, b: nat, u: seq<byte>, v: seq<byte>)
    requires b <= |t|
    ensures t[b..] == u + v <==> StartsAt(t, b, u) && StartsAt(t, b + |u|, v) && b + |u| + |v| == |t|
  {
    if b + |u| + |v| == |t| {
      assert t[b..] == t[b..b + |u|] + t[b + |u|..b + |u| + |v|];
      assert (u + v)[..|u|] == u && (u + v)[|u|..] == v;
      assert t[b..][..|u|] == t[b..b + |u|] && t[b..][|u|..] == t[b + |u|..];
    }
  }

  /** The dashes of a line are where the scan finds them. */
  lemma DashesFound(t: seq<byte>, i: nat, a: nat, b: nat, marker: seq<byte>)
    requires NoDash(t, i, a) && AllDashes(t, a, b) && a < b <= a + MAX_DASHES
    requires CutAfterDashes(t, b, marker) && marker != [] && marker[0] != DASH
    ensures SkipTo(t, i, DASH) == a && SkipRun(t, a, DASH, MAX_DASHES) == b
  {
    SkipToIff(t, i, DASH, a);
    assert b < |t| ==> t[b] == t[b..][0] == marker[0];
    SkipRunIff(t, a, DASH, MAX_DASHES, b);
  }

  lemma StopOfCut(t: seq<byte>, i: nat, a: nat, b: nat, marker: seq<byte>)
    requires i <= |t| && a == SkipTo(t, i, DASH) && b == SkipRun(t, a, DASH, MAX_DASHES) && a < b
    requires marker != [] && EncapsulationLine(t, i, marker, CERTIFICATE).None?
    ensures LineStop(t, i, marker, CERTIFICATE) == |t| <==> CutAfterDashes(t, b, marker)
  {
    SuffixIs(t, b, []);
    SuffixIs(t, b, marker);
    SuffixTwo(t, b, marker, CERTIFICATE);
  }

  lemma LineStopIff(t: seq<byte>, i: nat, marker: seq<byte>)
    requires i <= |t| && marker != [] && marker[0] != DASH && EncapsulationLine(t, i, marker, CERTIFICATE).None?
    ensures LineStop(t, i, marker, CERTIFICATE) == |t| <==> LineCut(t, i, marker)
  {
    var a := SkipTo(t, i, DASH);
    var b := SkipRun(t, a, DASH, MAX_DASHES);
    SkipToIff(t, i, DASH, a);
    if a < |t| {
      SkipRunIff(t, a, DASH, MAX_DASHES, b);
      StopOfCut(t, i, a, b, marker);
      assert NoDash(t, i, a) && AllDashes(t, a, b) && a < b <= a + MAX_DASHES;
      if LineCut(t, i, marker) {
        var a': nat, b': nat :|
          NoDash(t, i, a') && AllDashes(t, a', b') && a' < b' <= a' + MAX_DASHES && CutAfterDashes(t, b', marker);
        DashesFound(t, i, a', b', marker);
      }
    }
  }

  // ---------- contents ----------

  /** The k-th group of characters that go through the staging buffer together. */
  function Buffer(f: seq<byte>, k: nat): (g: seq<byte>)
    requires Base64.STAGING * k + Base64.STAGING <= |f|
  {
    f[Base64.STAGING * k..Base64.STAGING * k + Base64.STAGING]
  }

  /**
   Contents from p on that the text breaks off: there is no dash, and every full buffer that is followed
   by another character decodes. The last one need not if that character is the very last.
   */
  ghost predicate BodyCut(t: seq<byte>, p: nat) {
    && NoDash(t, p, |t|)
    && var f := Filtered(t, p, |t|);
       forall k: nat :: Base64.STAGING * k + Base64.STAGING < |f| ==>
         || Base64.Decode(Buffer(f, k)).ok
         || (|f| == Base64.STAGING * k + Base64.STAGING + 1 && Base64.IsBase64Char(t[|t| - 1]))
  }

  /** No dash from q on, and no flush fails before the last character. */
  ghost predicate GoesThrough(t: seq<byte>, p: nat, q: nat)
    requires p <= q <= |t|
  {
    && NoDash(t, q, |t|)
    && forall r :: q <= r < |t| - 1 && Base64.IsBase64Char(t[r]) ==> !FlushFails(t, p, r)
  }

  lemma {:induction false} ContentsStopIff(t: seq<byte>, p: nat, q: nat)
    requires p <= q <= |t|
    ensures ContentsStop(t, p, q) == |t| <==> GoesThrough(t, p, q)
    decreases |t| - q
  {
    if q < |t| && t[q] != DASH && !(Base64.IsBase64Char(t[q]) && FlushFails(t, p, q)) {
      ContentsStopIff(t, p, q + 1);
    }
  }

  /** Where the m-th character is. */
  lemma {:induction false} CharAt(t: seq<byte>, p: nat, end: nat, m: nat) returns (r: nat)
    requires p <= end <= |t| && m < |Filtered(t, p, end)|
    ensures p <= r < end && Base64.IsBase64Char(t[r]) && |Filtered(t, p, r)| == m
    decreases end
  {
    if |Filtered(t, p, end - 1)| == m {
      r := end - 1;
    } else {
      r := CharAt(t, p, end - 1, m);
    }
  }

  /** A flush at r fails exactly if a whole number of buffers came before and the last of them does not decode. */
  lemma FlushOf(t: seq<byte>, p: nat, r: nat, f: seq<byte>, k: nat)
    requires p <= r < |t| && f == Filtered(t, p, |t|) && Base64.IsBase64Char(t[r])
    requires |Filtered(t, p, r)| == Base64.STAGING * k + Base64.STAGING
    ensures Base64.STAGING * k + Base64.STAGING < |f|
    ensures FlushFails(t, p, r) <==> !Base64.Decode(Buffer(f, k)).ok
  {
    FilteredPrefix(t, p, r, |t|);
    FilteredNext(t, p, r, |t|);
    var g := Filtered(t, p, r);
    LastBuffer(g, f, |g|, Base64.STAGING * k);
  }

  /** The last character of the text is the last of the base64 characters, if it is one. */
  lemma LastChar(t: seq<byte>, p: nat, r: nat)
    requires p <= r < |t| && Base64.IsBase64Char(t[r])
    ensures r == |t| - 1 <==> |Filtered(t, p, r)| + 1 == |Filtered(t, p, |t|)| && Base64.IsBase64Char(t[|t| - 1])
  {
    FilteredNext(t, p, r, |t|);
    if r < |t| - 1 {
      FilteredPrefix(t, p, r + 1, |t| - 1);
    }
  }

  lemma BodyCutIff(t: seq<byte>, p: nat)
    requires p <= |t|
    ensures BodyCut(t, p) <==> GoesThrough(t, p, p)
  {
    var f := Filtered(t, p, |t|);
    if BodyCut(t, p) {
      forall r | p <= r < |t| - 1 && Base64.IsBase64Char(t[r]) ensures !FlushFails(t, p, r) {
        var m := |Filtered(t, p, r)|;
        if m > 0 && m % Base64.STAGING == 0 {
          FlushOf(t, p, r, f, m / Base64.STAGING - 1);
          LastChar(t, p, r);
        }
      }
    }
    if GoesThrough(t, p, p) {
      forall k: nat | Base64.STAGING * k + Base64.STAGING < |f|
        ensures Base64.Decode(Buffer(f, k)).ok ||
                (|f| == Base64.STAGING * k + Base64.STAGING + 1 && Base64.IsBase64Char(t[|t| - 1]))
      {
        var r := CharAt(t, p, |t|, Base64.STAGING * k + Base64.STAGING);
        FlushOf(t, p, r, f, k);
        LastChar(t, p, r);
      }
    }
  }

  // ---------- certificates ----------

  /**
   The text breaks off where a certificate should be: in or before its BEGIN line, in its contents, or in
   its END line.
   */
  ghost predicate BreaksOff(t: seq<byte>, i: nat)
    requires i <= |t|
  {
    var begin := EncapsulationLine(t, i, BEGIN, CERTIFICATE);
    if begin.None? then LineCut(t, i, BEGIN)
    else
      var body := Body(t, begin.value);
      if body.None? then BodyCut(t, begin.value) else LineCut(t, body.value.0, END)
  }

  lemma ObjectStopIff(t: seq<byte>, i: nat)
    requires i <= |t| && Object(t, i, CERTIFICATE).None?
    ensures ObjectStop(t, i, CERTIFICATE) == |t| <==> BreaksOff(t, i)
  {
    var begin := EncapsulationLine(t, i, BEGIN, CERTIFICATE);
    if begin.None? {
      LineStopIff(t, i, BEGIN);
    } else {
      var body := Body(t, begin.value);
      if body.None? {
        ContentsStopIff(t, begin.value, begin.value);
        BodyCutIff(t, begin.value);
      } else {
        LineStopIff(t, body.value.0, END);
      }
    }
  }

  /** Where the first attempt to read a certificate fails, if one does. */
  function FailsAt(t: seq<byte>, i: nat): (p: Option<nat>)
    requires i <= |t|
    ensures p.Some? ==> i <= p.value <= |t|
    decreases |t| - i
  {
    var found := Object(t, i, CERTIFICATE);
    if found.None? then Some(i) else if found.value.0 == |t| then None else FailsAt(t, found.value.0)
  }

  /** A chain uses up its text exactly if it is complete, or the text breaks off where a certificate should be. */
  lemma {:induction false} ExhaustedIff(t: seq<byte>, i: nat)
    requires i <= |t|
    ensures ParseChain(t, i).complete <==> FailsAt(t, i).None?
    ensures ParseChain(t, i).exhausted <==> FailsAt(t, i).None? || BreaksOff(t, FailsAt(t, i).value)
    decreases |t| - i
  {
    var found := Object(t, i, CERTIFICATE);
    if found.None? {
      ObjectStopIff(t, i);
    } else if found.value.0 < |t| {
      ExhaustedIff(t, found.value.0);
    }
  }
}
