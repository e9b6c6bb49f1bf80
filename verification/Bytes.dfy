/** Bytes, the bit operations C applies to them, and network (big-endian) byte order. */
module Bytes {

  type byte = x: int | 0 <= x < 256

  const UINT32_MAX: int := 0xFFFF_FFFF
  const UINT64_MAX: int := 0xFFFF_FFFF_FFFF_FFFF

  datatype Option<+T> = None | Some(value: T)

  lemma Assoc(a: seq<byte>, b: seq<byte>, c: seq<byte>)
    ensures a + b + c == a + (b + c)
  {
  }

  // ---------- arithmetic ----------

  lemma MulAtLeast(m: int, d: int)
    requires 0 < m && 1 <= d
    ensures m <= m * d
  {
  }

  lemma DivModUnique(x: int, m: int, q: int, r: int)
    requires 0 < m && 0 <= r < m && x == m * q + r
    ensures x / m == q && x % m == r
  {
    var q', r' := x / m, x % m;
    Distribute(m, q, q');
    if q > q' {
      MulAtLeast(m, q - q');
    } else if q < q' {
      MulAtLeast(m, q' - q);
      Distribute(m, q', q);
    }
  }

  lemma Distribute(m: int, q: int, r: int)
    ensures m * (q - r) == m * q - m * r
  {
  }

  // ---------- bit operations ----------

  function Xor(a: nat, b: nat): (r: nat)
    decreases a + b
  {
    if a == 0 && b == 0 then 0 else 2 * Xor(a / 2, b / 2) + (a + b) % 2
  }

  function And(a: nat, b: nat): (r: nat)
    decreases a
  {
    if a == 0 || b == 0 then 0
    else 2 * And(a / 2, b / 2) + if a % 2 == 1 && b % 2 == 1 then 1 else 0
  }

  function Or(a: nat, b: nat): (r: nat)
    decreases a + b
  {
    if a == 0 && b == 0 then 0
    else 2 * Or(a / 2, b / 2) + if a % 2 == 1 || b % 2 == 1 then 1 else 0
  }

  function Pow2(n: nat): (p: nat)
    ensures 0 < p
  {
    if n == 0 then 1 else 2 * Pow2(n - 1)
  }

  lemma {:induction false} XorBound(a: nat, b: nat, n: nat)
    requires a < Pow2(n) && b < Pow2(n)
    ensures Xor(a, b) < Pow2(n)
    decreases n
  {
    if n > 0 && (a != 0 || b != 0) {
      XorBound(a / 2, b / 2, n - 1);
    }
  }

  lemma {:induction false} XorZero(a: nat, b: nat)
    ensures Xor(a, b) == 0 <==> a == b
    decreases a + b
  {
    if a != 0 || b != 0 {
      XorZero(a / 2, b / 2);
    }
  }

  lemma {:induction false} XorAssociative(a: nat, b: nat, c: nat)
    ensures Xor(Xor(a, b), c) == Xor(a, Xor(b, c))
    decreases a + b + c
  {
    if a != 0 || b != 0 || c != 0 {
      XorAssociative(a / 2, b / 2, c / 2);
      var x, y := Xor(a, b), Xor(b, c);
      XorHalves(a, b);
      XorHalves(b, c);
      XorHalves(x, c);
      XorHalves(a, y);
      ParityAdds(a, b, c, x, y);
    }
  }

  lemma ParityAdds(a: nat, b: nat, c: nat, x: nat, y: nat)
    requires x % 2 == (a + b) % 2 && y % 2 == (b + c) % 2
    ensures (x + c) % 2 == (a + y) % 2
  {
  }

  lemma XorHalves(a: nat, b: nat)
    ensures Xor(a, b) / 2 == Xor(a / 2, b / 2) && Xor(a, b) % 2 == (a + b) % 2
  {
    if a == 0 && b == 0 {
      assert Xor(0, 0) == 0;
    }
  }

  lemma {:induction false} OrZero(a: nat, b: nat)
    ensures Or(a, b) == 0 <==> a == 0 && b == 0
    decreases a + b
  {
    if a != 0 || b != 0 {
      OrZero(a / 2, b / 2);
    }
  }

  /** Masking with n one-bits keeps the value modulo 2^n. */
  lemma {:induction false} AndOnes(a: nat, n: nat)
    ensures And(a, Pow2(n) - 1) == a % Pow2(n)
    decreases n
  {
    var m := Pow2(n);
    if n == 0 || a == 0 {
      DivModUnique(a, m, a, 0) by { assert n == 0 ==> m == 1; }
    } else {
      var p := Pow2(n - 1);
      assert m == 2 * p;
      AndOnes(a / 2, n - 1);
      ModDouble(a, p);
      assert (m - 1) / 2 == p - 1 && (m - 1) % 2 == 1;
    }
  }

  lemma ModDouble(a: nat, p: nat)
    requires 0 < p
    ensures a % (2 * p) == 2 * (a / 2 % p) + a % 2
  {
    var q, r := a / 2 / p, a / 2 % p;
    assert 2 * (p * q) == (2 * p) * q;
    DivModUnique(a, 2 * p, q, 2 * r + a % 2);
  }

  /** Or-ing a shifted value with one below the shift is addition. */
  lemma {:induction false} OrDisjoint(a: nat, b: nat, n: nat)
    requires b < Pow2(n)
    ensures Or(Pow2(n) * a, b) == Pow2(n) * a + b
    decreases n, a
  {
    if n == 0 {
      OrSelf(a);
    } else {
      var p := Pow2(n - 1);
      assert Pow2(n) * a == 2 * (p * a);
      OrDisjoint(a, b / 2, n - 1);
    }
  }

  lemma {:induction false} OrSelf(a: nat)
    ensures Or(a, 0) == a
  {
    if a != 0 {
      OrSelf(a / 2);
    }
  }

  function XorByte(a: byte, b: byte): (r: byte)
    ensures r == 0 <==> a == b
  {
    XorBound(a, b, 8);
    XorZero(a, b);
    assert Pow2(8) == 256;
    Xor(a, b)
  }

  lemma XorByteTwice(a: byte, b: byte, c: byte)
    ensures XorByte(XorByte(a, b), c) == XorByte(a, XorByte(b, c))
  {
    XorAssociative(a, b, c);
  }

  /** Bit i of a number. */
  function Bit(a: nat, i: nat): (b: nat)
    ensures b < 2
  {
    a / Pow2(i) % 2
  }

  lemma BitOfHalf(a: nat, i: nat)
    requires i > 0
    ensures Bit(a, i) == Bit(a / 2, i - 1)
  {
    var p := Pow2(i - 1);
    var q, r := a / 2 / p, a / 2 % p;
    assert 2 * (p * q) == (2 * p) * q;
    DivModUnique(a, 2 * p, q, 2 * r + a % 2);
  }

  /** A bit of the exclusive or is set exactly if one of the two bits is. */
  lemma {:induction false} XorBit(a: nat, b: nat, i: nat)
    ensures Bit(Xor(a, b), i) == if Bit(a, i) != Bit(b, i) then 1 else 0
    decreases i
  {
    if i == 0 {
      XorLowBit(a, b);
    } else {
      XorBit(a / 2, b / 2, i - 1);
      BitOfHalf(a, i);
      BitOfHalf(b, i);
      BitOfHalf(Xor(a, b), i);
      XorHalves(a, b);
    }
  }

  /** A bit of the conjunction is set exactly if both bits are. */
  lemma {:induction false} AndBit(a: nat, b: nat, i: nat)
    ensures Bit(And(a, b), i) == if Bit(a, i) == 1 && Bit(b, i) == 1 then 1 else 0
    decreases i
  {
    AndHalves(a, b);
    if i == 0 {
      LowBit(a);
      LowBit(b);
      LowBit(And(a, b));
    } else {
      AndBit(a / 2, b / 2, i - 1);
      BitOfHalf(a, i);
      BitOfHalf(b, i);
      BitOfHalf(And(a, b), i);
    }
  }

  /** A bit of the disjunction is set exactly if either bit is. */
  lemma {:induction false} OrBit(a: nat, b: nat, i: nat)
    ensures Bit(Or(a, b), i) == if Bit(a, i) == 1 || Bit(b, i) == 1 then 1 else 0
    decreases i
  {
    OrHalves(a, b);
    if i == 0 {
      LowBit(a);
      LowBit(b);
      LowBit(Or(a, b));
    } else {
      OrBit(a / 2, b / 2, i - 1);
      BitOfHalf(a, i);
      BitOfHalf(b, i);
      BitOfHalf(Or(a, b), i);
    }
  }

  lemma Parity(a: nat, b: nat)
    ensures (a + b) % 2 == if a % 2 != b % 2 then 1 else 0
  {
  }

  lemma XorLowBit(a: nat, b: nat)
    ensures Bit(Xor(a, b), 0) == if Bit(a, 0) != Bit(b, 0) then 1 else 0
  {
    XorHalves(a, b);
    Parity(a, b);
    LowBit(a);
    LowBit(b);
    LowBit(Xor(a, b));
  }

  lemma LowBit(a: nat)
    ensures Bit(a, 0) == a % 2
  {
    assert Pow2(0) == 1;
  }

  lemma AndHalves(a: nat, b: nat)
    ensures And(a, b) / 2 == And(a / 2, b / 2)
    ensures And(a, b) % 2 == if a % 2 == 1 && b % 2 == 1 then 1 else 0
  {
    if a == 0 || b == 0 {
      assert And(a / 2, b / 2) == 0;
    }
  }

  lemma OrHalves(a: nat, b: nat)
    ensures Or(a, b) / 2 == Or(a / 2, b / 2)
    ensures Or(a, b) % 2 == if a % 2 == 1 || b % 2 == 1 then 1 else 0
  {
    if a == 0 && b == 0 {
      assert Or(0, 0) == 0;
    }
  }

  // ---------- network byte order ----------

  function Pow256(n: nat): (p: nat)
    ensures 0 < p
  {
    if n == 0 then 1 else 256 * Pow256(n - 1)
  }

  /** The number a byte string spells, most significant byte first. */
  function BE(s: seq<byte>): (x: nat)
  {
    if s == [] then 0 else 256 * BE(s[..|s| - 1]) + s[|s| - 1]
  }

  /** The low n bytes of x, most significant first. */
  function ToBE(x: nat, n: nat): (s: seq<byte>)
    ensures |s| == n
  {
    if n == 0 then [] else ToBE(x / 256, n - 1) + [x % 256]
  }

  lemma {:induction false} BEBound(s: seq<byte>)
    ensures BE(s) < Pow256(|s|)
  {
    if s != [] {
      BEBound(s[..|s| - 1]);
    }
  }

  /** Dividing by 256 and then by p. */
  lemma DivMod256(x: nat, p: nat, m: nat)
    requires 0 < p && m == 256 * p
    ensures x / m == x / 256 / p && x % m == 256 * (x / 256 % p) + x % 256
  {
    var y := x / 256;
    var q, r := y / p, y % p;
    var z := p * q;
    assert y == z + r && x == 256 * z + 256 * r + x % 256;
    assert m * q == 256 * z;
    DivModUnique(x, m, q, 256 * r + x % 256);
  }

  lemma {:induction false} BEToBE(x: nat, n: nat)
    ensures BE(ToBE(x, n)) == x % Pow256(n)
  {
    if n > 0 {
      BEToBE(x / 256, n - 1);
      var s := ToBE(x, n);
      assert s[..n - 1] == ToBE(x / 256, n - 1) && s[n - 1] == x % 256;
      DivMod256(x, Pow256(n - 1), Pow256(n));
    }
  }

  lemma {:induction false} ToBEBE(s: seq<byte>)
    ensures ToBE(BE(s), |s|) == s
  {
    if s != [] {
      var t, b := s[..|s| - 1], s[|s| - 1];
      ToBEBE(t);
      assert BE(s) / 256 == BE(t) && BE(s) % 256 == b;
      assert s == t + [b];
    }
  }

  /** What a write of a value that fits the width leaves, a read gives back. */
  lemma ReadsBack(x: nat, length: nat)
    requires x < Pow256(length)
    ensures BE(ToBE(x, length)) == x
  {
    BEToBE(x, length);
    DivModUnique(x, Pow256(length), 0, x);
  }

  lemma BEInjective(s: seq<byte>, t: seq<byte>)
    requires |s| == |t| && BE(s) == BE(t)
    ensures s == t
  {
    ToBEBE(s);
    ToBEBE(t);
  }

  lemma {:induction false} BEConcat(s: seq<byte>, t: seq<byte>)
    ensures BE(s + t) == BE(s) * Pow256(|t|) + BE(t)
    decreases |t|
  {
    if t == [] {
      assert s + t == s;
    } else {
      var t' := t[..|t| - 1];
      assert (s + t)[..|s + t| - 1] == s + t';
      BEConcat(s, t');
      assert 256 * (BE(s) * Pow256(|t'|)) == BE(s) * (256 * Pow256(|t'|));
    }
  }

  /** Byte i of the encoding, as `(x >> 8*(n-i-1)) & 0xff` picks it. */
  lemma {:induction false} ToBEByte(x: nat, n: nat, i: nat)
    requires i < n
    ensures ToBE(x, n)[i] == x / Pow256(n - i - 1) % 256
    decreases n
  {
    if i < n - 1 {
      ToBEByte(x / 256, n - 1, i);
      DivMod256(x, Pow256(n - i - 2), Pow256(n - i - 1));
    }
  }

  /** Two and three bytes, spelled out. */
  lemma ToBE2(x: nat)
    ensures ToBE(x, 2) == [x / 0x100 % 0x100, x % 0x100]
  {
    assert ToBE(x / 0x100, 1) == ToBE(x / 0x100 / 0x100, 0) + [x / 0x100 % 0x100];
  }

  lemma ToBE3(x: nat)
    ensures ToBE(x, 3) == [x / 0x1_0000 % 0x100, x / 0x100 % 0x100, x % 0x100]
  {
    ToBE2(x / 0x100);
  }

  // ---------- buffers ----------

  /** n copies of a byte. */
  function Repeat(b: byte, n: nat): (s: seq<byte>)
    ensures |s| == n && forall i :: 0 <= i < n ==> s[i] == b
  {
    seq(n, _ => b)
  }

  function Concat(pieces: seq<seq<byte>>): (s: seq<byte>)
  {
    if pieces == [] then [] else Concat(pieces[..|pieces| - 1]) + pieces[|pieces| - 1]
  }

  lemma ConcatOne(piece: seq<byte>)
    ensures Concat([piece]) == piece
  {
    assert [piece][..0] == [] && [] + piece == piece;
  }

  lemma {:induction false} ConcatCons(piece: seq<byte>, rest: seq<seq<byte>>)
    ensures Concat([piece] + rest) == piece + Concat(rest)
    decreases |rest|
  {
    var all := [piece] + rest;
    if rest == [] {
      assert all[..0] == [] && [] + piece == piece == piece + [];
    } else {
      var last := rest[|rest| - 1];
      assert all[..|all| - 1] == [piece] + rest[..|rest| - 1];
      ConcatCons(piece, rest[..|rest| - 1]);
      Assoc(piece, Concat(rest[..|rest| - 1]), last);
    }
  }

  lemma {:induction false} ConcatPrefix(pieces: seq<seq<byte>>, n: nat)
    requires n <= |pieces|
    ensures Concat(pieces[..n]) <= Concat(pieces)
    decreases |pieces| - n
  {
    if n < |pieces| {
      assert pieces[..n + 1][..n] == pieces[..n];
      ConcatPrefix(pieces, n + 1);
    } else {
      assert pieces[..n] == pieces;
    }
  }

  /** memset of the first n bytes. */
  method Fill(a: array<byte>, n: nat, b: byte)
    requires n <= a.Length
    modifies a
    ensures a[..] == Repeat(b, n) + old(a[n..])
  {
    for i := 0 to n
      invariant a[..i] == Repeat(b, i) && a[i..] == old(a[i..])
    {
      a[i] := b;
      assert a[..i + 1] == a[..i] + [b];
    }
    assert a[..] == a[..n] + a[n..];
  }

  /** memcpy into a buffer, from `at` on. */
  method CopyAt(a: array<byte>, at: nat, s: seq<byte>)
    requires at + |s| <= a.Length
    modifies a
    ensures a[..at] == old(a[..at]) && a[at..at + |s|] == s && a[at + |s|..] == old(a[at + |s|..])
    ensures at == 0 ==> a[..] == s + old(a[|s|..])
  {
    for i := 0 to |s|
      invariant a[..at] == old(a[..at]) && a[at..at + i] == s[..i] && a[at + i..] == old(a[at + i..])
    {
      a[at + i] := s[i];
    }
    assert at == 0 ==> a[..] == a[0..|s|] + a[|s|..];
  }
}
