/** Big-endian byte counters: record sequence numbers, and the counter of the DRBG. */
module Counters {
  import opened Bytes

  /** The counter after n more increments; its length bounds it. */
  function After(s: seq<byte>, n: nat): (t: seq<byte>)
    ensures |t| == |s|
  {
    ToBE(BE(s) + n, |s|)
  }

  // ---------- one increment ----------

  /** A carry moves to the byte before. */
  lemma Carries(s: seq<byte>, j: nat)
    requires 0 < j <= |s| && s[j - 1] == 255
    ensures After(s[..j], 1) == After(s[..j - 1], 1) + [0]
    ensures BE(s[..j]) + 1 == Pow256(j) <==> BE(s[..j - 1]) + 1 == Pow256(j - 1)
  {
    assert s[..j][..j - 1] == s[..j - 1];
    assert BE(s[..j]) + 1 == 256 * (BE(s[..j - 1]) + 1);
  }

  /** Without a carry the bytes before stay. */
  lemma Settles(s: seq<byte>, j: nat)
    requires 0 < j <= |s| && s[j - 1] < 255
    ensures After(s[..j], 1) == s[..j - 1] + [s[j - 1] + 1]
    ensures BE(s[..j]) + 1 < Pow256(j)
  {
    var t := s[..j - 1];
    assert s[..j][..j - 1] == t;
    assert (BE(s[..j]) + 1) / 256 == BE(t) && (BE(s[..j]) + 1) % 256 == s[j - 1] + 1;
    ToBEBE(t);
    BEBound(t);
  }

  /** The carry has come down to byte j: it leaves zeros behind, and the bytes before are untouched. */
  ghost predicate Carrying(s: seq<byte>, a: seq<byte>, j: nat) {
    && j <= |s| == |a| && a == s[..j] + Repeat(0, |s| - j)
    && After(s, 1) == After(s[..j], 1) + Repeat(0, |s| - j)
    && (BE(s) + 1 == Pow256(|s|) <==> BE(s[..j]) + 1 == Pow256(j))
  }

  lemma CarryingFrom(s: seq<byte>)
    ensures Carrying(s, s, |s|)
  {
    assert s[..|s|] == s;
  }

  lemma CarryingOn(s: seq<byte>, a: seq<byte>, j: nat)
    requires 0 < j && Carrying(s, a, j) && a[j - 1] == 255
    ensures Carrying(s, a[j - 1 := 0], j - 1)
  {
    Carries(s, j);
    assert [0] + Repeat(0, |s| - j) == Repeat(0, |s| - j + 1);
    Assoc(After(s[..j - 1], 1), [0], Repeat(0, |s| - j));
  }

  lemma CarryingEnds(s: seq<byte>, a: seq<byte>, j: nat)
    requires 0 < j && Carrying(s, a, j) && a[j - 1] < 255
    ensures a[j - 1 := a[j - 1] + 1] == After(s, 1) && BE(s) + 1 < Pow256(|s|)
  {
    Settles(s, j);
    BEBound(s);
    var x := s[j - 1] + 1;
    assert a[j - 1 := x] == s[..j - 1] + [x] + Repeat(0, |s| - j);
  }

  lemma CarriedOut(s: seq<byte>, a: seq<byte>)
    requires Carrying(s, a, 0)
    ensures a == After(s, 1) && BE(s) + 1 == Pow256(|s|)
  {
  }

  /** Adds one to byte i, to which the carry has come. */
  method IncrementByte(a: array<byte>, i: nat, ghost s: seq<byte>) returns (wrapped: bool)
    requires i < a.Length && Carrying(s, a[..], i + 1)
    modifies a
    ensures wrapped ==> Carrying(s, a[..], i)
    ensures !wrapped ==> a[..] == After(s, 1) && BE(s) + 1 < Pow256(|s|)
  {
    ghost var before := a[..];
    a[i] := (a[i] as int + 1) % 256;
    wrapped := a[i] == 0;
    if wrapped {
      CarryingOn(s, before, i + 1);
    } else {
      CarryingEnds(s, before, i + 1);
    }
  }

  /** Adds one, and fails exactly when that wraps (section 6.1 of RFC 5246). */
  method IncrementSequenceNumber(a: array<byte>) returns (ok: bool)
    modifies a
    ensures a[..] == After(old(a[..]), 1)
    ensures ok <==> a.Length == 0 || BE(old(a[..])) + 1 < Pow256(a.Length)
  {
    ghost var s := a[..];
    CarryingFrom(s);
    var j := a.Length;
    while j > 0
      invariant 0 <= j <= a.Length && Carrying(s, a[..], j) && (a.Length > 0 ==> j > 0)
    {
      var i := j - 1;
      var wrapped := IncrementByte(a, i, s);
      if !wrapped {
        return true;
      }
      if i == 0 {
        CarriedOut(s, a[..]);
        return false;
      }
      j := j - 1;
    }
    return true;
  }

  /** The same without the check: the DRBG's counter wraps. */
  method IncrementDrbgCounter(a: array<byte>)
    modifies a
    ensures a[..] == After(old(a[..]), 1)
  {
    ghost var s := a[..];
    CarryingFrom(s);
    var i := a.Length;
    while i > 0
      invariant 0 <= i <= a.Length && Carrying(s, a[..], i)
    {
      var wrapped := IncrementByte(a, i - 1, s);
      if !wrapped {
        return;
      }
      i := i - 1;
    }
    CarriedOut(s, a[..]);
  }

  // ---------- many increments ----------

  lemma Quotient(x: nat, m: nat) returns (a: nat, r: nat)
    requires 0 < m
    ensures r == x % m && 0 <= r < m && x == m * a + r
  {
    a, r := x / m, x % m;
  }

  /** What is stored is the residue modulo 256^n. */
  lemma Residue(x: nat, n: nat, p: nat) returns (a: nat, r: nat)
    requires p == Pow256(n)
    ensures r == BE(ToBE(x, n)) && 0 <= r < p && x == p * a + r
  {
    BEToBE(x, n);
    a, r := Quotient(x, p);
  }

  lemma SameResidue(m: int, a: int, b: int, r: int)
    requires 0 < m && a != b
    ensures !(m * a + r < m * b + r < m * a + r + m)
  {
    Distribute(m, b, a);
    Distribute(m, a, b);
    if b > a {
      MulAtLeast(m, b - a);
    } else {
      MulAtLeast(m, a - b);
    }
  }

  /** No value comes back before the counter has gone through all 256^n of them. */
  lemma ToBEDiffer(x: nat, y: nat, n: nat, p: nat)
    requires p == Pow256(n) && x < y < x + p
    ensures ToBE(x, n) != ToBE(y, n)
  {
    var a, r := Residue(x, n, p);
    var b, q := Residue(y, n, p);
    if a != b {
      SameResidue(p, a, b, r);
    }
  }

  /** Numbers with the same residue are stored alike. */
  lemma ToBEShifted(x: nat, n: nat, p: nat, a: nat)
    requires p == Pow256(n)
    ensures ToBE(p * a + x, n) == ToBE(x, n)
  {
    var b, r := Residue(x, n, p);
    var c, q := Residue(p * a + x, n, p);
    assert p * (a + b) == p * a + p * b;
    DivModUnique(p * a + x, p, a + b, r);
    DivModUnique(p * a + x, p, c, q);
    BEInjective(ToBE(p * a + x, n), ToBE(x, n));
  }

  lemma AfterAfter(s: seq<byte>, n: nat, m: nat)
    ensures After(After(s, n), m) == After(s, n + m)
  {
    var p := Pow256(|s|);
    var a, r := Residue(BE(s) + n, |s|, p);
    ToBEShifted(r + m, |s|, p, a);
  }

  /** Incrementing what is stored of x stores x + 1. */
  lemma NextStored(x: nat, n: nat)
    ensures After(ToBE(x, n), 1) == ToBE(x + 1, n)
  {
    var p := Pow256(n);
    var a, r := Residue(x, n, p);
    ToBEShifted(r + 1, n, p, a);
  }

  method AdvanceStored(a: array<byte>, ghost x: nat)
    requires a[..] == ToBE(x, a.Length)
    modifies a
    ensures a[..] == ToBE(x + 1, a.Length)
  {
    NextStored(x, a.Length);
    IncrementDrbgCounter(a);
  }

  /** The sequence numbers of a run in which every increment succeeded. */
  ghost predicate SuccessfulRun(states: seq<seq<byte>>) {
    && states != []
    && forall k :: 0 <= k < |states| - 1 ==>
         BE(states[k]) + 1 < Pow256(|states[k]|) && states[k + 1] == After(states[k], 1)
  }

  /** After n successful increments the number has grown by n, so it never repeats. */
  lemma {:induction false} RunCounts(states: seq<seq<byte>>, n: nat)
    requires SuccessfulRun(states) && n < |states|
    ensures |states[n]| == |states[0]| && BE(states[n]) == BE(states[0]) + n
  {
    if n > 0 {
      RunCounts(states, n - 1);
      var k := n - 1;
      assert states[k + 1] == After(states[k], 1);
      ReadsBack(BE(states[k]) + 1, |states[k]|);
    }
  }

  lemma RunDistinct(states: seq<seq<byte>>, i: nat, j: nat)
    requires SuccessfulRun(states) && i < j < |states|
    ensures states[i] != states[j]
  {
    RunCounts(states, i);
    RunCounts(states, j);
  }

  // ---------- reading a sequence number ----------

  method SequenceNumberToUint64(a: array<byte>) returns (output: nat)
    requires a.Length <= 8
    ensures output == BE(a[..]) && output <= UINT64_MAX
  {
    var shift := 0;
    output := 0;
    var i := a.Length;
    while i > 0
      invariant 0 <= i <= a.Length && shift == 8 * (a.Length - i) && output == BE(a[i..])
    {
      FirstByte(a[i - 1..], a.Length - i);
      assert a[i - 1..][1..] == a[i..];
      BEBound(a[i - 1..]);
      FitsUint64(a.Length - i + 1);
      output := (output + ShiftLeft(a[i - 1], shift, a.Length - i)) % (UINT64_MAX + 1);
      shift := shift + 8;
      i := i - 1;
    }
    assert a[0..] == a[..];
    BEBound(a[..]);
    FitsUint64(a.Length);
  }

  lemma FirstByte(s: seq<byte>, n: nat)
    requires |s| == n + 1
    ensures BE(s) == s[0] as int * Pow256(n) + BE(s[1..])
  {
    assert s == [s[0]] + s[1..];
    BEConcat([s[0]], s[1..]);
    assert BE([s[0]]) == s[0] by { assert [s[0]][..0] == []; }
  }

  lemma FitsUint64(n: nat)
    requires n <= 8
    ensures Pow256(n) <= UINT64_MAX + 1
  {
    assert Pow256(8) == UINT64_MAX + 1;
    Pow256Monotone(n, 8);
  }

  lemma {:induction false} Pow256Monotone(n: nat, m: nat)
    requires n <= m
    ensures Pow256(n) <= Pow256(m)
  {
    if n < m {
      Pow256Monotone(n, m - 1);
    }
  }

  /** A byte shifted left by n whole bytes. */
  function ShiftLeft(b: byte, shift: nat, ghost n: nat): (x: nat)
    requires shift == 8 * n
    ensures x == b as int * Pow256(n)
  {
    WholeBytes(n);
    b as int * Pow2(shift)
  }

  lemma {:induction false} WholeBytes(n: nat)
    ensures Pow2(8 * n) == Pow256(n)
  {
    if n > 0 {
      WholeBytes(n - 1);
      var m := 8 * n;
      assert Pow2(m) == 2 * Pow2(m - 1) == 4 * Pow2(m - 2) == 8 * Pow2(m - 3) == 16 * Pow2(m - 4);
      assert Pow2(m - 4) == 2 * Pow2(m - 5) == 4 * Pow2(m - 6) == 8 * Pow2(m - 7) == 16 * Pow2(m - 8);
    }
  }
}
