/** Base64 (section 4 of RFC 4648) between stuffers. */
module Base64 {
  import opened Bytes
  import opened Stuffers

  const PAD: byte := 61
  const INVALID: byte := 255

  /** Letters, digits, '+', '/', and the padding sign last. */
  function Symbol(v: nat): (c: byte)
    requires v < 65
  {
    if v < 26 then 65 + v
    else if v < 52 then 71 + v
    else if v < 62 then v - 4
    else if v == 62 then 43
    else if v == 63 then 47
    else PAD
  }

  function Alphabet(): (s: seq<byte>)
    ensures |s| == 65
  {
    seq(65, v requires 0 <= v < 65 => Symbol(v))
  }

  function IndexOf(s: seq<byte>, c: byte): (i: nat)
    ensures i <= |s|
  {
    if s == [] || s[0] == c then 0 else 1 + IndexOf(s[1..], c)
  }

  function Char(v: nat): (c: byte)
    requires v < 64
  {
    Symbol(v)
  }

  /** The inverse table: 64 for '=', 255 for what is not base64. */
  function Value(c: byte): (v: byte)
    ensures v <= 64 || v == INVALID
  {
    var i := IndexOf(Alphabet(), c);
    if i < 65 then i else INVALID
  }

  lemma {:induction false} IndexOfIs(s: seq<byte>, c: byte, i: nat)
    requires i < |s| && s[i] == c && forall j :: 0 <= j < i ==> s[j] != c
    ensures IndexOf(s, c) == i
    decreases i
  {
    if i > 0 {
      IndexOfIs(s[1..], c, i - 1);
    }
  }

  lemma {:induction false} IndexOfHit(s: seq<byte>, c: byte)
    ensures IndexOf(s, c) < |s| ==> s[IndexOf(s, c)] == c
  {
    if s != [] && s[0] != c {
      IndexOfHit(s[1..], c);
    }
  }

  lemma ValueSymbol(v: nat)
    requires v < 65
    ensures Value(Symbol(v)) == v
  {
    forall j | 0 <= j < v ensures Alphabet()[j] != Symbol(v) {
      assert Symbol(j) != Symbol(v);
    }
    IndexOfIs(Alphabet(), Symbol(v), v);
  }

  lemma SymbolValue(c: byte)
    ensures Value(c) < 65 ==> Symbol(Value(c)) == c
    ensures Value(c) == 64 <==> c == PAD
  {
    IndexOfHit(Alphabet(), c);
    ValueSymbol(64);
  }

  predicate IsBase64Char(c: byte) {
    Value(c) != INVALID
  }

  // ---------- bit fiddling ----------

  lemma AndDouble(x: nat, y: nat, a: nat, m: nat)
    requires x == 2 * a && y == 2 * m
    ensures And(x, y) == 2 * And(a, m)
  {
    assert x / 2 == a && y / 2 == m && x % 2 == 0;
  }

  lemma And4(x: nat, y: nat, a: nat, m: nat)
    requires x == 4 * a && y == 4 * m
    ensures And(x, y) == 4 * And(a, m)
  {
    var b, n := 2 * a, 2 * m;
    AndDouble(x, y, b, n);
    AndDouble(b, n, a, m);
  }

  lemma And16(x: nat, y: nat, a: nat, m: nat)
    requires x == 16 * a && y == 16 * m
    ensures And(x, y) == 16 * And(a, m)
  {
    var b, n := 4 * a, 4 * m;
    And4(x, y, b, n);
    And4(b, n, a, m);
  }

  lemma And64(x: nat, y: nat, a: nat, m: nat)
    requires x == 64 * a && y == 64 * m
    ensures And(x, y) == 64 * And(a, m)
  {
    var b, n := 4 * a, 4 * m;
    And16(x, y, b, n);
    And4(b, n, a, m);
  }

  lemma LowBits(a: nat)
    ensures And(a, 3) == a % 4 && And(a, 15) == a % 16 && And(a, 63) == a % 64
  {
    AndOnes(a, 2);
    AndOnes(a, 4);
    AndOnes(a, 6);
    SmallPowers();
  }

  lemma SmallPowers()
    ensures Pow2(2) == 4 && Pow2(4) == 16 && Pow2(6) == 64
  {
  }

  lemma SmallBits(a: nat, n: nat)
    requires a < Pow2(n)
    ensures And(a, Pow2(n) - 1) == a
  {
    AndOnes(a, n);
    DivModUnique(a, Pow2(n), 0, a);
  }

  /** A shifted value or-ed with one below the shift. */
  lemma Pair(hi: nat, lo: nat)
    ensures lo < 4 ==> Or(4 * hi, lo) == 4 * hi + lo
    ensures lo < 16 ==> Or(16 * hi, lo) == 16 * hi + lo
    ensures lo < 64 ==> Or(64 * hi, lo) == 64 * hi + lo
  {
    SmallPowers();
    if lo < 4 { OrDisjoint(hi, lo, 2); }
    if lo < 16 { OrDisjoint(hi, lo, 4); }
    if lo < 64 { OrDisjoint(hi, lo, 6); }
  }

  /** `((hi << 4) & 0x30) | ((lo >> 4) & 0x0f)` */
  method SixBits42(hi: byte, lo: byte) returns (v: nat)
    ensures v == hi % 4 * 16 + lo / 16
  {
    var h, l := And(16 * hi as int, 0x30), And(lo / 16, 0x0f);
    assert h == 16 * (hi % 4) by { And16(16 * hi as int, 0x30, hi, 3); LowBits(hi); }
    assert l == lo / 16 by { SmallPowers(); SmallBits(lo / 16, 4); }
    Pair(hi % 4, l);
    return Or(h, l);
  }

  /** `((hi << 2) & 0x3c) | ((lo >> 6) & 0x03)` */
  method SixBits24(hi: byte, lo: byte) returns (v: nat)
    ensures v == hi % 16 * 4 + lo / 64
  {
    var h, l := And(4 * hi as int, 0x3c), And(lo / 64, 0x03);
    assert h == 4 * (hi % 16) by { And4(4 * hi as int, 0x3c, hi, 15); LowBits(hi); }
    assert l == lo / 64 by { SmallPowers(); SmallBits(lo / 64, 2); }
    Pair(hi % 16, l);
    return Or(h, l);
  }

  /** `((hi << 2) & 0xfc) | ((lo >> 4) & 0x03)` */
  method EightBits62(hi: byte, lo: byte) returns (v: nat)
    requires hi < 64 && lo < 64
    ensures v == hi * 4 + lo / 16
  {
    var h, l := And(4 * hi as int, 0xfc), And(lo / 16, 0x03);
    assert h == 4 * hi as int by { And4(4 * hi as int, 0xfc, hi, 63); SmallPowers(); SmallBits(hi, 6); }
    assert l == lo / 16 by { SmallPowers(); SmallBits(lo / 16, 2); }
    Pair(hi, l);
    return Or(h, l);
  }

  /** `((hi << 4) & 0xf0) | ((lo >> 2) & 0x0f)` */
  method EightBits44(hi: byte, lo: byte) returns (v: nat)
    requires hi < 64 && lo < 64
    ensures v == hi % 16 * 16 + lo / 4
  {
    var h, l := And(16 * hi as int, 0xf0), And(lo / 4, 0x0f);
    assert h == 16 * (hi % 16) by { And16(16 * hi as int, 0xf0, hi, 15); LowBits(hi); }
    assert l == lo / 4 by { SmallPowers(); SmallBits(lo / 4, 4); }
    Pair(hi % 16, l);
    return Or(h, l);
  }

  /** `((hi << 6) & 0xc0) | (lo & 0x3f)` */
  method EightBits26(hi: byte, lo: byte) returns (v: nat)
    requires hi < 64 && lo < 64
    ensures v == hi % 4 * 64 + lo
  {
    var h, l := And(64 * hi as int, 0xc0), And(lo, 0x3f);
    assert h == 64 * (hi % 4) by { And64(64 * hi as int, 0xc0, hi, 3); LowBits(hi); }
    assert l == lo by { SmallPowers(); SmallBits(lo, 6); }
    Pair(hi % 4, l);
    return Or(h, l);
  }

  /** `x & 0x3f` */
  method Low6(x: nat) returns (v: nat)
    ensures v == x % 64
  {
    LowBits(x);
    return And(x, 0x3f);
  }

  /** `(x << 4) & 0x30` */
  method Low2High(x: byte) returns (v: nat)
    ensures v == x % 4 * 16
  {
    And16(16 * x as int, 0x30, x, 3);
    LowBits(x);
    return And(16 * x as int, 0x30);
  }

  /** `(x << 2) & 0x3c` */
  method Low4High(x: byte) returns (v: nat)
    ensures v == x % 16 * 4
  {
    And4(4 * x as int, 0x3c, x, 15);
    LowBits(x);
    return And(4 * x as int, 0x3c);
  }

  // ---------- blocks ----------

  /** The four characters for one, two or three bytes, six bits each, zero-filled. */
  function EncodeBlock(t: seq<byte>): (q: seq<byte>)
    requires 1 <= |t| <= 3
    ensures |q| == 4
  {
    var a, b, c := t[0], if |t| > 1 then t[1] else 0, if |t| > 2 then t[2] else 0;
    [Char(a / 4), Char(a % 4 * 16 + b / 16),
     if |t| > 1 then Char(b % 16 * 4 + c / 64) else PAD,
     if |t| > 2 then Char(c % 64) else PAD]
  }

  datatype Quad = BadFirst | Bad | Good(bytes: seq<byte>)

  /** What four characters decode to. Unused trailing bits have to be zero. */
  function DecodeBlock(q: seq<byte>): (r: Quad)
    requires |q| == 4
    ensures r.Good? ==> 1 <= |r.bytes| <= 3
  {
    var v1, v2, v3, v4 := Value(q[0]), Value(q[1]), Value(q[2]), Value(q[3]);
    if v1 == INVALID then BadFirst
    else if v1 == 64 || v2 == 64 || v2 == INVALID || v3 == INVALID || v4 == INVALID then Bad
    else if v3 == 64 then
      if v4 != 64 || v2 % 16 != 0 then Bad else Good([v1 * 4 + v2 / 16])
    else if v4 == 64 then
      if v3 % 4 != 0 then Bad else Good([v1 * 4 + v2 / 16, v2 % 16 * 16 + v3 / 4])
    else
      Good([v1 * 4 + v2 / 16, v2 % 16 * 16 + v3 / 4, v3 % 4 * 64 + v4])
  }

  /** Regrouping bytes as 6-bit values and back. */
  lemma Regrouped(a: int, b: int, c: int, v1: int, v2: int, v3: int, v4: int)
    requires 0 <= a < 256 && 0 <= b < 256 && 0 <= c < 256
    requires v1 == a / 4 && v2 == a % 4 * 16 + b / 16 && v3 == b % 16 * 4 + c / 64 && v4 == c % 64
    ensures 0 <= v1 < 64 && 0 <= v2 < 64 && 0 <= v3 < 64 && 0 <= v4 < 64
    ensures v1 * 4 + v2 / 16 == a && v2 % 16 * 16 + v3 / 4 == b && v3 % 4 * 64 + v4 == c
    ensures b == 0 ==> v2 % 16 == 0
    ensures c == 0 ==> v3 % 4 == 0
  {
  }

  /** Characters with these values decode to these bytes. */
  lemma DecodesTo(q: seq<byte>, t: seq<byte>, v1: int, v2: int, v3: int, v4: int)
    requires |q| == 4 && 1 <= |t| <= 3 && 0 <= v1 < 64 && 0 <= v2 < 64 && 0 <= v3 < 64 && 0 <= v4 < 64
    requires Value(q[0]) == v1 && Value(q[1]) == v2
    requires Value(q[2]) == (if |t| > 1 then v3 else 64) && Value(q[3]) == (if |t| > 2 then v4 else 64)
    requires v1 * 4 + v2 / 16 == t[0] && (|t| == 1 ==> v2 % 16 == 0) && (|t| == 2 ==> v3 % 4 == 0)
    requires |t| > 1 ==> v2 % 16 * 16 + v3 / 4 == t[1]
    requires |t| > 2 ==> v3 % 4 * 64 + v4 == t[2]
    ensures DecodeBlock(q) == Good(t)
  {
  }

  lemma BlockRoundTrip(t: seq<byte>)
    requires 1 <= |t| <= 3
    ensures DecodeBlock(EncodeBlock(t)) == Good(t)
  {
    var a: int, b: int, c: int := t[0], if |t| > 1 then t[1] else 0, if |t| > 2 then t[2] else 0;
    var v1, v2, v3, v4 := a / 4, a % 4 * 16 + b / 16, b % 16 * 4 + c / 64, c % 64;
    Regrouped(a, b, c, v1, v2, v3, v4);
    var q := EncodeBlock(t);
    assert Value(q[0]) == v1 by { ValueSymbol(v1); }
    assert Value(q[1]) == v2 by { ValueSymbol(v2); }
    assert Value(q[2]) == if |t| > 1 then v3 else 64 by { ValueSymbol(v3); ValueSymbol(64); }
    assert Value(q[3]) == if |t| > 2 then v4 else 64 by { ValueSymbol(v4); ValueSymbol(64); }
    DecodesTo(q, t, v1, v2, v3, v4);
  }

  /** The characters of section 4 of RFC 4648. */
  lemma AlphabetIs()
    ensures forall v :: 0 <= v < 26 ==> Symbol(v) == "ABCDEFGHIJKLMNOPQRSTUVWXYZ"[v] as int
    ensures forall v :: 0 <= v < 26 ==> Symbol(26 + v) == "abcdefghijklmnopqrstuvwxyz"[v] as int
    ensures forall v :: 0 <= v < 10 ==> Symbol(52 + v) == "0123456789"[v] as int
    ensures Symbol(62) == '+' as int && Symbol(63) == '/' as int && PAD == '=' as int
  {
  }

  /** What counts as a base64 character. */
  lemma Base64Chars(c: byte)
    ensures IsBase64Char(c) <==>
      || 'A' as int <= c <= 'Z' as int || 'a' as int <= c <= 'z' as int || '0' as int <= c <= '9' as int
      || c == '+' as int || c == '/' as int || c == '=' as int
  {
    SymbolValue(c);
    var v: int :=
      if 65 <= c <= 90 then c - 65 else if 97 <= c <= 122 then c - 71 else if 48 <= c <= 57 then c + 4
      else if c == 43 then 62 else if c == 47 then 63 else 64;
    ValueSymbol(v);
  }

  /** The values of the characters and the bytes spell the same number, zero-filled to whole characters. */
  lemma BlockNumber(t: seq<byte>)
    requires 1 <= |t| <= 3
    ensures var q := EncodeBlock(t);
      var v: int, w: int, x: int, y: int := Value(q[0]), Value(q[1]), Value(q[2]), Value(q[3]);
      var a: int, b: int, c: int := t[0], if |t| > 1 then t[1] else 0, if |t| > 2 then t[2] else 0;
      && (|t| == 3 ==> v * 0x4_0000 + w * 0x1000 + x * 0x40 + y == a * 0x1_0000 + b * 0x100 + c)
      && (|t| == 2 ==> q[3] == '=' as int && v * 0x1000 + w * 0x40 + x == (a * 0x100 + b) * 4)
      && (|t| == 1 ==> q[2] == q[3] == '=' as int && v * 0x40 + w == a * 0x10)
  {
    var a: int, b: int, c: int := t[0], if |t| > 1 then t[1] else 0, if |t| > 2 then t[2] else 0;
    Regrouped(a, b, c, a / 4, a % 4 * 16 + b / 16, b % 16 * 4 + c / 64, c % 64);
    ValueSymbol(a / 4);
    ValueSymbol(a % 4 * 16 + b / 16);
    ValueSymbol(b % 16 * 4 + c / 64);
    ValueSymbol(c % 64);
  }

  /** Regrouping 6-bit values as bytes and back. */
  lemma Regroup(v1: int, v2: int, v3: int, v4: int, a: int, b: int, c: int)
    requires 0 <= v1 < 64 && 0 <= v2 < 64 && 0 <= v3 < 64 && 0 <= v4 < 64
    requires a == v1 * 4 + v2 / 16 && b == v2 % 16 * 16 + v3 / 4 && c == v3 % 4 * 64 + v4
    ensures a / 4 == v1 && a % 4 * 16 + b / 16 == v2 && b % 16 * 4 + c / 64 == v3 && c % 64 == v4
  {
  }

  /** Bytes with these values are written as these characters. */
  lemma EncodesTo(t: seq<byte>, q: seq<byte>, v1: nat, v2: nat, v3: nat, v4: nat)
    requires |q| == 4 && 1 <= |t| <= 3 && v1 < 64 && v2 < 64 && v3 < 64 && v4 < 64
    requires v1 == t[0] / 4 && v2 == t[0] % 4 * 16 + (if |t| > 1 then t[1] else 0) / 16
    requires |t| > 1 ==> v3 == t[1] % 16 * 4 + (if |t| > 2 then t[2] else 0) / 64
    requires |t| > 2 ==> v4 == t[2] % 64
    requires q[0] == Symbol(v1) && q[1] == Symbol(v2)
    requires q[2] == (if |t| > 1 then Symbol(v3) else PAD) && q[3] == if |t| > 2 then Symbol(v4) else PAD
    ensures EncodeBlock(t) == q
  {
  }

  /** The values of characters that decode, zero in place of padding, and the bytes they make. */
  lemma GoodBlock(q: seq<byte>) returns (v1: nat, v2: nat, v3: nat, v4: nat, t: seq<byte>)
    requires |q| == 4 && DecodeBlock(q).Good?
    ensures t == DecodeBlock(q).bytes && v1 < 64 && v2 < 64 && v3 < 64 && v4 < 64
    ensures q[0] == Symbol(v1) && q[1] == Symbol(v2)
    ensures q[2] == (if |t| > 1 then Symbol(v3) else PAD) && q[3] == if |t| > 2 then Symbol(v4) else PAD
    ensures t[0] == v1 * 4 + v2 / 16 && (|t| > 1 ==> t[1] == v2 % 16 * 16 + v3 / 4)
    ensures |t| > 2 ==> t[2] == v3 % 4 * 64 + v4
    ensures (|t| == 1 ==> v2 % 16 == v3 == 0) && (|t| <= 2 ==> v3 % 4 == v4 == 0)
  {
    SymbolValue(q[0]);
    SymbolValue(q[1]);
    SymbolValue(q[2]);
    SymbolValue(q[3]);
    v1, v2, t := Value(q[0]), Value(q[1]), DecodeBlock(q).bytes;
    v3 := if q[2] == PAD then 0 else Value(q[2]);
    v4 := if q[3] == PAD then 0 else Value(q[3]);
  }

  lemma BlockCanonical(q: seq<byte>)
    requires |q| == 4 && DecodeBlock(q).Good?
    ensures EncodeBlock(DecodeBlock(q).bytes) == q
  {
    var v1, v2, v3, v4, t := GoodBlock(q);
    Regroup(v1, v2, v3, v4, v1 * 4 + v2 / 16, v2 % 16 * 16 + v3 / 4, v3 % 4 * 64 + v4);
    EncodesTo(t, q, v1, v2, v3, v4);
  }

  // ---------- strings ----------

  function Encode(d: seq<byte>): (s: seq<byte>)
    ensures |s| == (|d| + 2) / 3 * 4
  {
    if d == [] then []
    else if |d| <= 3 then EncodeBlock(d)
    else EncodeBlock(d[..3]) + Encode(d[3..])
  }

  /** Block k of the encoding is the encoding of bytes 3k to 3k + 3, or of those that are left. */
  lemma {:induction false} EncodeBlockAt(d: seq<byte>, k: nat, from: nat, end: nat, at: nat)
    requires from == 3 * k < |d| && at == 4 * k && end == if from + 3 <= |d| then from + 3 else |d|
    ensures at + 4 <= |Encode(d)| && Encode(d)[at..at + 4] == EncodeBlock(d[from..end])
    decreases k
  {
    if |d| <= 3 {
      assert d[0..|d|] == d && Encode(d)[0..4] == Encode(d);
    } else {
      EncodeSplits(d);
      if k > 0 {
        EncodeBlockAt(d[3..], k - 1, from - 3, end - 3, at - 4);
        SlicesShift(d, 3, from, end);
        SlicesShift(Encode(d), 4, at, at + 4);
      }
    }
  }

  lemma EncodeSplits(d: seq<byte>)
    requires |d| > 3
    ensures |Encode(d)| >= 4 && Encode(d)[0..4] == EncodeBlock(d[0..3]) && Encode(d)[4..] == Encode(d[3..])
  {
    assert d[0..3] == d[..3];
  }

  lemma SlicesShift(s: seq<byte>, n: nat, i: nat, j: nat)
    requires n <= i <= j <= |s|
    ensures s[n..][i - n..j - n] == s[i..j]
  {
  }

  /** Outcome of reading: success or not, characters consumed, bytes produced. */
  datatype Reading = Reading(ok: bool, consumed: nat, out: seq<byte>)

  /** Reads blocks until fewer than four characters are left, or a padded block ends the data. */
  function Decode(s: seq<byte>): (r: Reading)
    ensures r.consumed <= |s| && 4 * |r.out| <= 3 * r.consumed
  {
    if |s| < 4 then Reading(true, 0, []) else
      match DecodeBlock(s[..4])
      case BadFirst => Reading(false, 0, [])
      case Bad => Reading(false, 4, [])
      case Good(bytes) =>
        if |bytes| < 3 then Reading(true, 4, bytes) else
          var rest := Decode(s[4..]);
          Reading(rest.ok, 4 + rest.consumed, bytes + rest.out)
  }

  lemma {:induction false} DecodeEncode(d: seq<byte>)
    ensures Decode(Encode(d)) == Reading(true, |Encode(d)|, d)
  {
    if d == [] {
    } else if |d| <= 3 {
      BlockRoundTrip(d);
      assert Encode(d)[..4] == Encode(d);
    } else {
      BlockRoundTrip(d[..3]);
      DecodeEncode(d[3..]);
      assert Encode(d)[..4] == EncodeBlock(d[..3]) && Encode(d)[4..] == Encode(d[3..]);
      assert d == d[..3] + d[3..];
    }
  }

  /** Whatever is read successfully is the one encoding of the result. */
  lemma {:induction false} EncodeDecode(s: seq<byte>)
    requires Decode(s).ok
    ensures Encode(Decode(s).out) == s[..Decode(s).consumed]
  {
    if |s| >= 4 {
      var block := DecodeBlock(s[..4]).bytes;
      BlockCanonical(s[..4]);
      if |block| == 3 {
        var rest := Decode(s[4..]);
        calc {
          Encode(block + rest.out);
          { EncodeCons(block, rest.out); }
          EncodeBlock(block) + Encode(rest.out);
          { EncodeDecode(s[4..]); }
          s[..4] + s[4..][..rest.consumed];
          s[..4 + rest.consumed];
        }
      }
    }
  }

  lemma EncodeCons(block: seq<byte>, rest: seq<byte>)
    requires |block| == 3
    ensures Encode(block + rest) == EncodeBlock(block) + Encode(rest)
  {
    var d := block + rest;
    assert d[..3] == block && d[3..] == rest;
    if rest == [] {
      assert d == block;
    }
  }

  // ---------- through a staging buffer ----------

  const STAGING: nat := 64

  /** Decoding 64 characters at a time from position n; each full buffer is read and then dropped. */
  function Staged(s: seq<byte>, n: nat): (r: (bool, seq<byte>))
    requires n <= |s|
    ensures 4 * |r.1| <= 3 * (|s| - n)
    decreases |s| - n
  {
    if |s| - n <= STAGING then (Decode(s[n..]).ok, Decode(s[n..]).out) else
      var head := Decode(s[n..n + STAGING]);
      if !head.ok then (false, head.out) else
        var rest := Staged(s, n + STAGING);
        (rest.0, head.out + rest.1)
  }

  /** Reading stops within a prefix of whole blocks, or goes on after it. */
  lemma {:induction false} DecodeSplit(s: seq<byte>, n: nat)
    requires n <= |s| && n % 4 == 0
    ensures var head, tail := Decode(s[..n]), Decode(s[n..]);
      Decode(s) ==
      if head.ok && 4 * |head.out| == 3 * n then Reading(tail.ok, n + tail.consumed, head.out + tail.out)
      else head
    decreases n
  {
    if n == 0 {
      assert s[0..] == s;
    } else {
      SplitSlices(s, n);
      var block := DecodeBlock(s[..4]);
      if block.Good? && |block.bytes| == 3 {
        DecodeSplit(s[4..], n - 4);
        Assoc(block.bytes, Decode(s[4..][..n - 4]).out, Decode(s[n..]).out);
      }
    }
  }

  lemma SplitSlices(s: seq<byte>, n: nat)
    requires 4 <= n <= |s|
    ensures s[..n][..4] == s[..4] && s[..n][4..] == s[4..][..n - 4] && s[4..][n - 4..] == s[n..]
  {
  }

  lemma DecodesSomething(s: seq<byte>)
    ensures Decode(s).ok ==> (|s| < 4 <==> Decode(s).out == []) && (|s| < 4 <==> Decode(s).consumed == 0)
  {
  }

  /** Nothing comes of a text exactly if it has fewer than four characters. */
  lemma StagedNothing(s: seq<byte>, n: nat)
    requires n <= |s|
    ensures Staged(s, n) == (true, []) <==> |s| - n < 4
  {
    if |s| - n <= STAGING {
      DecodesSomething(s[n..]);
    } else {
      DecodesSomething(s[n..n + STAGING]);
    }
  }

  /** The end of the buffer that holds the last character consumed. */
  function BufferEnd(consumed: nat): (n: nat)
    ensures consumed <= n < consumed + STAGING && n % STAGING == 0
    ensures consumed >= STAGING ==> n == STAGING + BufferEnd(consumed - STAGING)
  {
    (consumed + STAGING - 1) / STAGING * STAGING
  }

  lemma SameTail(a: seq<byte>, b: seq<byte>, c: seq<byte>)
    ensures a + b == a + c <==> b == c
  {
    if a + b == a + c {
      assert (a + b)[|a|..] == b && (a + c)[|a|..] == c;
    }
  }

  /**
   Staged decoding is decoding in one pass exactly if the latter fails, or no block is left in the
   buffers after the one in which it ends: padding may come early, but only in the last buffer.
   */
  lemma {:induction false} StagedIsDecode(s: seq<byte>, n: nat, t: seq<byte>, d: Reading)
    requires n <= |s| && t == s[n..] && d == Decode(t)
    ensures Staged(s, n) == (d.ok, d.out) <==> (d.ok ==> |t| < BufferEnd(d.consumed) + 4)
    decreases |s| - n, 0
  {
    DecodesSomething(t);
    if |t| > STAGING {
      DecodeSplit(t, STAGING);
      assert t[..STAGING] == s[n..n + STAGING] && t[STAGING..] == s[n + STAGING..];
      var head, tail := Decode(t[..STAGING]), Decode(t[STAGING..]);
      if head.ok {
        StagedGoesOn(s, n + STAGING, t, head, tail);
      }
    }
  }

  lemma {:induction false} StagedGoesOn(s: seq<byte>, m: nat, t: seq<byte>, head: Reading, tail: Reading)
    requires STAGING < |t| && m <= |s| && t[STAGING..] == s[m..] && head == Decode(t[..STAGING]) && head.ok
    requires tail == Decode(t[STAGING..])
    ensures var rest := Staged(s, m);
      var full := 4 * |head.out| == 3 * STAGING;
      var d := if full then Reading(tail.ok, STAGING + tail.consumed, head.out + tail.out) else head;
      (rest.0, head.out + rest.1) == (d.ok, d.out) <==> (d.ok ==> |t| < BufferEnd(d.consumed) + 4)
    decreases |s| - m, 1
  {
    if 4 * |head.out| == 3 * STAGING {
      StagedIsDecode(s, m, t[STAGING..], tail);
      SameTail(head.out, Staged(s, m).1, tail.out);
    } else {
      StagedEnds(s, m, t, head);
    }
  }

  lemma StagedEnds(s: seq<byte>, m: nat, t: seq<byte>, head: Reading)
    requires STAGING < |t| && m <= |s| && |t| - STAGING == |s| - m && head == Decode(t[..STAGING]) && head.ok
    ensures (Staged(s, m).0, head.out + Staged(s, m).1) == (true, head.out) <==> |t| < BufferEnd(head.consumed) + 4
  {
    StagedNothing(s, m);
    SameTail(head.out, Staged(s, m).1, []);
    assert head.out + [] == head.out;
    DecodesSomething(t[..STAGING]);
  }

  /** If staged decoding succeeds, every buffer that is followed by another character decodes. */
  lemma {:induction false} StagedBuffers(s: seq<byte>, n: nat, k: nat, at: nat)
    requires at == n + STAGING * k && at + STAGING < |s| && Staged(s, n).0
    ensures Decode(s[at..at + STAGING]).ok
    decreases k
  {
    if k > 0 {
      StagedBuffers(s, n + STAGING, k - 1, at);
    }
  }

  /** A buffer that decodes to a piece. */
  ghost predicate BufferIs(buffer: seq<byte>, piece: seq<byte>) {
    Decode(buffer).ok && Decode(buffer).out == piece
  }

  /**
   The characters cut into buffers of 64 and a last one of at most 64, empty only if it is the only one.
   Each decodes on its own, to the piece of the same number.
   */
  ghost predicate Buffered(s: seq<byte>, buffers: seq<seq<byte>>, pieces: seq<seq<byte>>) {
    && s == Concat(buffers) && |buffers| == |pieces| >= 1
    && (forall k :: 0 <= k < |buffers| - 1 ==> |buffers[k]| == 64)
    && |buffers[|buffers| - 1]| <= 64 && (|buffers| > 1 ==> buffers[|buffers| - 1] != [])
    && forall k :: 0 <= k < |buffers| ==> BufferIs(buffers[k], pieces[k])
  }

  lemma BufferedCons(b: seq<byte>, p: seq<byte>, s: seq<byte>, buffers: seq<seq<byte>>, pieces: seq<seq<byte>>)
    requires Buffered(s, buffers, pieces) && s != [] && |b| == 64 && BufferIs(b, p)
    ensures Buffered(b + s, [b] + buffers, [p] + pieces)
  {
    ConcatCons(b, buffers);
    if |buffers| == 1 {
      ConcatOne(buffers[0]);
      assert buffers == [buffers[0]];
    }
  }

  lemma {:induction false} StagedHas(s: seq<byte>, n: nat) returns (buffers: seq<seq<byte>>, pieces: seq<seq<byte>>)
    requires n <= |s| && Staged(s, n).0
    ensures Buffered(s[n..], buffers, pieces) && Staged(s, n).1 == Concat(pieces)
    decreases |s| - n
  {
    if |s| - n <= 64 {
      buffers, pieces := [s[n..]], [Decode(s[n..]).out];
      ConcatOne(buffers[0]);
      ConcatOne(pieces[0]);
    } else {
      buffers, pieces := StagedHas(s, n + 64);
      var b, p := s[n..n + 64], Decode(s[n..n + 64]).out;
      BufferedCons(b, p, s[n + 64..], buffers, pieces);
      assert s[n..] == b + s[n + 64..];
      ConcatCons(p, pieces);
      buffers, pieces := [b] + buffers, [p] + pieces;
    }
  }

  lemma BufferedTail(s: seq<byte>, buffers: seq<seq<byte>>, pieces: seq<seq<byte>>)
    requires Buffered(s, buffers, pieces) && |buffers| > 1
    ensures |s| > 64 && s[..64] == buffers[0] && Buffered(s[64..], buffers[1..], pieces[1..])
    ensures Concat(pieces) == pieces[0] + Concat(pieces[1..])
  {
    assert buffers == [buffers[0]] + buffers[1..] && pieces == [pieces[0]] + pieces[1..];
    ConcatCons(buffers[0], buffers[1..]);
    ConcatCons(pieces[0], pieces[1..]);
    var last := buffers[|buffers| - 1];
    assert buffers[1..][|buffers| - 2] == last;
    assert Concat(buffers[1..]) == Concat(buffers[1..][..|buffers| - 2]) + last;
  }

  lemma {:induction false} StagedFound(s: seq<byte>, n: nat, buffers: seq<seq<byte>>, pieces: seq<seq<byte>>)
    requires n <= |s| && Buffered(s[n..], buffers, pieces)
    ensures Staged(s, n) == (true, Concat(pieces))
    decreases |s| - n
  {
    if |buffers| == 1 {
      assert buffers == [buffers[0]] && pieces == [pieces[0]];
      ConcatOne(buffers[0]);
      ConcatOne(pieces[0]);
      assert BufferIs(buffers[0], pieces[0]);
    } else {
      BufferedTail(s[n..], buffers, pieces);
      assert s[n..][..64] == s[n..n + 64] && s[n..][64..] == s[n + 64..];
      assert BufferIs(buffers[0], pieces[0]);
      StagedFound(s, n + 64, buffers[1..], pieces[1..]);
    }
  }

  /** Staged decoding succeeds exactly if every buffer decodes, and then yields their pieces one after the other. */
  lemma StagedIff(s: seq<byte>, out: seq<byte>)
    ensures Staged(s, 0) == (true, out) <==>
      exists buffers, pieces :: Buffered(s, buffers, pieces) && out == Concat(pieces)
  {
    assert s[0..] == s;
    if Staged(s, 0).0 {
      var buffers, pieces := StagedHas(s, 0);
    }
    forall buffers, pieces | Buffered(s, buffers, pieces) ensures Staged(s, 0) == (true, Concat(pieces)) {
      StagedFound(s, 0, buffers, pieces);
    }
  }

  lemma StagedEncode(d: seq<byte>)
    ensures Staged(Encode(d), 0) == (true, d)
  {
    assert Encode(d)[0..] == Encode(d);
    DecodeEncode(d);
    StagedIsDecode(Encode(d), 0, Encode(d), Decode(Encode(d)));
  }

  /** A padded block, 60 characters, and a padded block: staging sees both blocks, one pass only the first. */
  lemma EarlyPadding(a: byte, filler: seq<byte>, b: byte)
    requires |filler| == 60
    ensures var s := EncodeBlock([a]) + filler + EncodeBlock([b]);
      Staged(s, 0) == (true, [a, b]) && Decode(s) == Reading(true, 4, [a])
  {
    var first, last := EncodeBlock([a]), EncodeBlock([b]);
    var s := first + filler + last;
    BlockRoundTrip([a]);
    BlockRoundTrip([b]);
    assert s[..4] == first && s[0..STAGING][..4] == first && s[STAGING..] == last && last[..4] == last;
    assert Decode(s[0..STAGING]) == Reading(true, 4, [a]) && Decode(last) == Reading(true, 4, [b]);
    var rest := Staged(s, STAGING);
    assert rest == (true, [b]);
    assert Staged(s, 0) == (rest.0, [a] + rest.1) && [a] + [b] == [a, b];
  }

  // ---------- stuffers ----------

  /** The block check and the bit regrouping of one round. */
  method DecodeChars(o: seq<byte>) returns (q: Quad)
    requires |o| == 4
    ensures q == DecodeBlock(o)
  {
    var value1, value2, value3, value4 := Value(o[0]), Value(o[1]), Value(o[2]), Value(o[3]);
    if value1 == INVALID {
      return BadFirst;
    }
    if value1 == 64 || value2 == 64 || value2 == INVALID || value3 == INVALID || value4 == INVALID {
      return Bad;
    }
    SymbolValue(o[2]);
    SymbolValue(o[3]);
    var bytesThisRound := 3;
    if o[2] == PAD {
      LowBits(value2);
      if o[3] != PAD || And(value2, 0x0f) != 0 {
        return Bad;
      }
      bytesThisRound, value3, value4 := 1, 0, 0;
    } else if o[3] == PAD {
      LowBits(value3);
      if And(value3, 0x03) != 0 {
        return Bad;
      }
      bytesThisRound, value4 := 2, 0;
    }
    var b1 := EightBits62(value1, value2);
    var b2 := EightBits44(value2, value3);
    var b3 := EightBits26(value3, value4);
    return Good([b1, b2, b3][..bytesThisRound]);
  }

  /** The same, from a position in a buffer. */
  ghost function DecodeAt(s: seq<byte>, i: nat): (r: Reading)
    requires i <= |s|
    decreases |s| - i
  {
    if |s| - i < 4 then Reading(true, 0, []) else
      match DecodeBlock(s[i..i + 4])
      case BadFirst => Reading(false, 0, [])
      case Bad => Reading(false, 4, [])
      case Good(bytes) =>
        if |bytes| < 3 then Reading(true, 4, bytes) else
          var rest := DecodeAt(s, i + 4);
          Reading(rest.ok, 4 + rest.consumed, bytes + rest.out)
  }

  /** One good block, and what is left to read after it. */
  lemma DecodeAtStep(s: seq<byte>, i: nat, rest: Reading)
    requires i + 4 <= |s| && DecodeBlock(s[i..i + 4]).Good?
    requires rest == if |DecodeBlock(s[i..i + 4]).bytes| == 3 then DecodeAt(s, i + 4) else Reading(true, 0, [])
    ensures DecodeAt(s, i) == Reading(rest.ok, 4 + rest.consumed, DecodeBlock(s[i..i + 4]).bytes + rest.out)
  {
    var bytes := DecodeBlock(s[i..i + 4]).bytes;
    assert bytes + [] == bytes;
  }

  lemma {:induction false} DecodeAtIsDecode(s: seq<byte>, i: nat)
    requires i <= |s|
    ensures DecodeAt(s, i) == Decode(s[i..])
    decreases |s| - i
  {
    if |s| - i >= 4 {
      assert s[i..][..4] == s[i..i + 4] && s[i..][4..] == s[i + 4..];
      DecodeAtIsDecode(s, i + 4);
    }
  }

  /** One round of the reader: the bytes it produced, and what is left to read after it. */
  method ReadBlock(s: Stuffer, out: Stuffer) returns (ok: bool, ghost bytes: seq<byte>, bytesThisRound: nat)
    requires s != out && s.Valid() && out.Valid() && s.write - s.read >= 4
    modifies s`read, out`mem, out`size, out`write, out`highWater
    ensures s.Valid() && out.Valid() && old(out.size) <= out.size
    ensures var now := old(DecodeAt(s.Contents(), s.read));
      && (ok ==>
            var rest := if bytesThisRound == 3 then DecodeAt(s.Contents(), s.read) else Reading(true, 0, []);
            && s.read == old(s.read) + 4 && |bytes| == bytesThisRound
            && now == Reading(rest.ok, 4 + rest.consumed, bytes + rest.out)
            && out.Contents() == old(out.Contents()) + bytes)
      && (!ok ==> !now.ok || !old(out.Accommodates(|DecodeAt(s.Contents(), s.read).out|)))
  {
    ghost var chars, at := s.Contents(), s.read;
    var read := s.ReadBytes(4);
    assert read.value == chars[at..at + 4];
    var q := DecodeChars(read.value);
    if q.BadFirst? {
      s.read := s.read - 4;
      return false, [], 0;
    } else if q.Bad? {
      return false, [], 0;
    }
    bytes, bytesThisRound := q.bytes, |q.bytes|;
    DecodeAtStep(chars, at, if bytesThisRound == 3 then DecodeAt(chars, at + 4) else Reading(true, 0, []));
    ok := out.WriteBytes(q.bytes);
  }

  /** Reads until the data runs out or a padded block ends it. */
  method ReadBase64(s: Stuffer, out: Stuffer) returns (ok: bool)
    requires s != out && s.Valid() && out.Valid()
    modifies s`read, out`mem, out`size, out`write, out`highWater
    ensures s.Valid() && out.Valid()
    ensures ok ==>
      && Decode(old(s.Unread())).ok
      && out.Contents() == old(out.Contents()) + Decode(old(s.Unread())).out
      && s.read == old(s.read) + Decode(old(s.Unread())).consumed
    ensures !ok ==> !Decode(old(s.Unread())).ok || !old(out.Accommodates(|Decode(s.Unread()).out|))
    ensures old(out.size) <= out.size
  {
    DecodeAtIsDecode(s.Contents(), s.read);
    ok := ReadBlocks(s, out);
  }

  method ReadBlocks(s: Stuffer, out: Stuffer) returns (ok: bool)
    requires s != out && s.Valid() && out.Valid()
    modifies s`read, out`mem, out`size, out`write, out`highWater
    ensures s.Valid() && out.Valid() && old(out.size) <= out.size
    ensures var all := old(DecodeAt(s.Contents(), s.read));
      && (ok ==> all.ok && out.Contents() == old(out.Contents()) + all.out && s.read == old(s.read) + all.consumed)
      && (!ok ==> !all.ok || !old(out.Accommodates(|DecodeAt(s.Contents(), s.read).out|)))
  {
    ghost var all, out0 := DecodeAt(s.Contents(), s.read), out.Contents();
    ghost var done, rest, bytes := [], all, [];
    var bytesThisRound := 3;
    while bytesThisRound == 3 && s.write - s.read >= 4
      invariant s.Valid() && out.Valid() && old(s.read) <= s.read && old(out.size) <= out.size
      invariant rest == if bytesThisRound == 3 then DecodeAt(s.Contents(), s.read) else Reading(true, 0, [])
      invariant all.ok == rest.ok && all.consumed == s.read - old(s.read) + rest.consumed
      invariant all.out == done + rest.out && out.Contents() == out0 + done
      decreases s.write - s.read
    {
      ok, bytes, bytesThisRound := ReadBlock(s, out);
      if !ok {
        return;
      }
      rest := if bytesThisRound == 3 then DecodeAt(s.Contents(), s.read) else Reading(true, 0, []);
      Assoc(done, bytes, rest.out);
      Assoc(out0, done, bytes);
      done := done + bytes;
    }
    return true;
  }

  /** The bit fiddling of one round of the writer. */
  method EncodeChars(i: seq<byte>) returns (o: seq<byte>)
    requires 1 <= |i| <= 3
    ensures o == EncodeBlock(i)
  {
    var v1 := Low6(i[0] / 4);
    if |i| == 3 {
      o := EncodeThree(v1, i[0], i[1], i[2]);
    } else if |i| == 2 {
      o := EncodeTwo(v1, i[0], i[1]);
    } else {
      var v2 := Low2High(i[0]);
      return [Char(v1), Char(v2), PAD, PAD];
    }
  }

  method EncodeThree(v1: nat, a: byte, b: byte, c: byte) returns (o: seq<byte>)
    requires v1 == a / 4
    ensures o == EncodeBlock([a, b, c])
  {
    var v2 := SixBits42(a, b);
    var v3 := SixBits24(b, c);
    var v4 := Low6(c);
    return [Char(v1), Char(v2), Char(v3), Char(v4)];
  }

  method EncodeTwo(v1: nat, a: byte, b: byte) returns (o: seq<byte>)
    requires v1 == a / 4
    ensures o == EncodeBlock([a, b])
  {
    var v2 := SixBits42(a, b);
    var v3 := Low4High(b);
    return [Char(v1), Char(v2), Char(v3), PAD];
  }

  /** Writes the encoding of everything unread in `input`. */
  method WriteBase64(s: Stuffer, input: Stuffer) returns (ok: bool)
    requires s != input && s.Valid() && input.Valid()
    modifies input`read, s`mem, s`size, s`write, s`highWater
    ensures s.Valid() && input.Valid()
    ensures ok ==> input.Unread() == [] && s.Contents() == old(s.Contents()) + Encode(old(input.Unread()))
    ensures old(s.Accommodates(|Encode(input.Unread())|)) ==> ok
  {
    ghost var whole, s0 := Encode(input.Unread()), s.Contents();
    ghost var done: seq<byte> := [];
    while input.write - input.read > 2
      invariant s.Valid() && input.Valid() && old(s.size) <= s.size
      invariant whole == done + Encode(input.Unread())
      invariant s.Contents() == s0 + done
      decreases input.write - input.read
    {
      ghost var rest := input.Unread()[3..];
      ghost var o := EncodeBlock(input.Unread()[..3]);
      EncodeCons(input.Unread()[..3], rest);
      assert input.Unread() == input.Unread()[..3] + rest;
      Assoc(done, o, Encode(rest));
      Assoc(s0, done, o);
      ok := WriteFullBlock(s, input);
      if !ok {
        return;
      }
      done := done + o;
    }
    if input.write - input.read > 0 {
      ghost var rest := input.Unread();
      ok := WriteLastBlock(s, input);
      Assoc(s0, done, EncodeBlock(rest));
    } else {
      assert done + [] == done;
      ok := true;
    }
  }

  method WriteFullBlock(s: Stuffer, input: Stuffer) returns (ok: bool)
    requires s != input && s.Valid() && input.Valid() && 3 <= |input.Unread()|
    modifies input`read, s`mem, s`size, s`write, s`highWater
    ensures s.Valid() && input.Valid() && input.Unread() == old(input.Unread())[3..]
    ensures ok <==> old(s.CanReserve(4))
    ensures ok ==> s.Contents() == old(s.Contents()) + EncodeBlock(old(input.Unread())[..3]) && old(s.size) <= s.size
    ensures s.growable == old(s.growable) && s.tainted == old(s.tainted) && (!ok ==> unchanged(s))
  {
    var read := input.ReadBytes(3);
    var o := EncodeChars(read.value);
    ok := s.WriteBytes(o);
  }

  method WriteLastBlock(s: Stuffer, input: Stuffer) returns (ok: bool)
    requires s != input && s.Valid() && input.Valid() && 1 <= |input.Unread()| <= 2
    modifies input`read, s`mem, s`size, s`write, s`highWater
    ensures s.Valid() && input.Valid() && input.Unread() == []
    ensures ok <==> old(s.CanReserve(4))
    ensures ok ==> s.Contents() == old(s.Contents()) + EncodeBlock(old(input.Unread()))
  {
    ghost var before := input.Unread();
    var read := input.ReadBytes(1);
    var i := read.value;
    assert i == before[..1];
    if input.write - input.read > 0 {
      read := input.ReadBytes(1);
      assert read.value == before[1..];
      i := i + read.value;
    }
    assert i == before;
    var o := EncodeChars(i);
    ok := s.WriteBytes(o);
  }
}
