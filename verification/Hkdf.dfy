/** HKDF (RFC 5869) over the streaming HMAC, and the HKDF-Expand-Label of TLS 1.3. */
module Hkdfs {
  import opened Bytes
  import opened Hashes
  import opened Hmacs
  import opened Stuffers
  import opened NetworkOrder

  const MAX_ROUNDS := 255

  // ---------- section 2 of RFC 5869 ----------

  /** T(i), with T(0) empty. */
  function T(h: HashFn, alg: HmacAlg, prk: seq<byte>, info: seq<byte>, i: byte): (t: seq<byte>)
    ensures |t| == if i == 0 then 0 else alg.MacSize()
  {
    if i == 0 then [] else Mac(h, alg, prk, T(h, alg, prk, info, i - 1) + info + [i])
  }

  /** T(1) up to T(n), concatenated. */
  function Expansion(h: HashFn, alg: HmacAlg, prk: seq<byte>, info: seq<byte>, n: byte): (s: seq<byte>)
  {
    if n == 0 then [] else Expansion(h, alg, prk, info, n - 1) + T(h, alg, prk, info, n)
  }

  function Rounds(length: nat, m: nat): (n: nat)
    requires m > 0
  {
    length / m + if length % m > 0 then 1 else 0
  }

  /** As many rounds as the output needs, and no more. */
  lemma RoundsCover(length: nat, m: nat, n: nat)
    requires m > 0 && n == Rounds(length, m)
    ensures length <= m * n && (n > 0 ==> m * n - m < length)
    ensures n == 0 <==> length == 0
  {
    var q, r := length / m, length % m;
    assert length == m * q + r;
    if r > 0 {
      Distribute(m, n, 1);
    }
  }

  lemma MulMonotone(m: nat, a: int, b: int)
    requires a <= b
    ensures m * a <= m * b
  {
    Distribute(m, b, a);
  }

  lemma RoundsAtMost(length: nat, m: nat, n: nat, k: nat)
    requires m > 0 && n == Rounds(length, m)
    ensures n <= k <==> length <= m * k
  {
    RoundsCover(length, m, n);
    if n <= k {
      MulMonotone(m, n, k);
    } else {
      MulMonotone(m, k, n - 1);
      Distribute(m, n, 1);
    }
  }

  lemma {:induction false} BlocksSize(h: HashFn, alg: HmacAlg, prk: seq<byte>, info: seq<byte>, n: byte)
    ensures |Expansion(h, alg, prk, info, n)| == alg.MacSize() * n as int
  {
    if n > 0 {
      BlocksSize(h, alg, prk, info, n - 1);
      Distribute(alg.MacSize(), n, 1);
    }
  }

  /** The first `length` bytes of T(1) | T(2) | ... */
  ghost function Okm(h: HashFn, alg: HmacAlg, prk: seq<byte>, info: seq<byte>, length: nat): (s: seq<byte>)
    requires 1 <= length <= MAX_ROUNDS * alg.MacSize()
    ensures |s| == length
  {
    var m := alg.MacSize();
    RoundsAtMost(length, m, Rounds(length, m), MAX_ROUNDS);
    RoundsCover(length, m, Rounds(length, m));
    BlocksSize(h, alg, prk, info, Rounds(length, m));
    Expansion(h, alg, prk, info, Rounds(length, m))[..length]
  }

  lemma {:induction false} BlocksPrefix(h: HashFn, alg: HmacAlg, prk: seq<byte>, info: seq<byte>, n: byte, k: byte)
    requires n <= k
    ensures Expansion(h, alg, prk, info, n) <= Expansion(h, alg, prk, info, k)
    decreases k
  {
    if n < k {
      BlocksPrefix(h, alg, prk, info, n, k - 1);
    }
  }

  /** A shorter output is a prefix of a longer one from the same key and info. */
  lemma OkmPrefix(h: HashFn, alg: HmacAlg, prk: seq<byte>, info: seq<byte>, length: nat, longer: nat)
    requires 1 <= length <= longer <= MAX_ROUNDS * alg.MacSize()
    ensures Okm(h, alg, prk, info, length) == Okm(h, alg, prk, info, longer)[..length]
  {
    var m := alg.MacSize();
    var n, k := Rounds(length, m), Rounds(longer, m);
    RoundsAtMost(longer, m, k, MAX_ROUNDS);
    RoundsAtMost(length, m, n, MAX_ROUNDS);
    RoundsCover(longer, m, k);
    RoundsCover(length, m, n);
    RoundsAtMost(length, m, n, k);
    BlocksPrefix(h, alg, prk, info, n, k);
    BlocksSize(h, alg, prk, info, n);
  }

  /** Block k of the concatenation. */
  lemma BlockAt(h: HashFn, alg: HmacAlg, prk: seq<byte>, info: seq<byte>, all: seq<byte>, n: byte, k: byte, start: nat)
    requires 1 <= k <= n && start == alg.MacSize() * (k as int - 1) && all == Expansion(h, alg, prk, info, n)
    ensures start + alg.MacSize() <= |all| && all[start..start + alg.MacSize()] == T(h, alg, prk, info, k)
  {
    BlocksSize(h, alg, prk, info, k - 1);
    BlocksPrefix(h, alg, prk, info, k, n);
    var upTo := Expansion(h, alg, prk, info, k);
    assert upTo[start..] == T(h, alg, prk, info, k);
    assert all[..|upTo|] == upTo;
  }

  lemma EnoughRounds(length: nat, m: nat, n: nat, k: nat)
    requires m > 0 && n == Rounds(length, m) && k >= 1 && m * (k - 1) < length
    ensures k <= n
  {
    RoundsCover(length, m, n);
    if k > n {
      MulMonotone(m, n, k - 1);
    }
  }

  lemma SliceOfPrefix(all: seq<byte>, length: nat, lo: nat, m: nat, hi: nat)
    requires lo <= hi <= length <= |all| && hi <= lo + m <= |all|
    ensures all[..length][lo..hi] == all[lo..lo + m][..hi - lo]
  {
  }

  lemma OkmIsPrefix(h: HashFn, alg: HmacAlg, prk: seq<byte>, info: seq<byte>, length: nat) returns (n: byte)
    requires 1 <= length <= 255 * alg.MacSize()
    ensures n as nat == Rounds(length, alg.MacSize()) && length <= |Expansion(h, alg, prk, info, n)|
    ensures Okm(h, alg, prk, info, length) == Expansion(h, alg, prk, info, n)[..length]
  {
    var m := alg.MacSize();
    RoundsAtMost(length, m, Rounds(length, m), 255);
    RoundsCover(length, m, Rounds(length, m));
    n := Rounds(length, m);
    BlocksSize(h, alg, prk, info, n);
  }

  /** Where a block of the output is, and what it is of T. */
  lemma OkmSlice(h: HashFn, alg: HmacAlg, prk: seq<byte>, info: seq<byte>, length: nat, out: seq<byte>, k: byte,
                 m: nat, lo: nat, hi: nat)
    requires 1 <= length <= 255 * alg.MacSize() && out == Okm(h, alg, prk, info, length)
    requires m == alg.MacSize() && k >= 1 && lo == m * (k - 1) <= hi <= length && lo < length && hi <= lo + m
    ensures out[lo..hi] == T(h, alg, prk, info, k)[..hi - lo]
  {
    var n := OkmIsPrefix(h, alg, prk, info, length);
    EnoughRounds(length, m, n, k);
    BlockAt(h, alg, prk, info, Expansion(h, alg, prk, info, n), n, k, lo);
    SliceOfPrefix(Expansion(h, alg, prk, info, n), length, lo, m, hi);
  }

  /**
   Block k of the output, from lo to hi, is the MAC of the block before it, the info and the byte k,
   cut off where the output ends. m is the size of the MAC.
   */
  lemma OkmBlock(h: HashFn, alg: HmacAlg, prk: seq<byte>, info: seq<byte>, length: nat, out: seq<byte>, k: byte,
                 m: nat, lo: nat, hi: nat)
    requires 1 <= length <= 255 * alg.MacSize() && out == Okm(h, alg, prk, info, length)
    requires m == alg.MacSize() && k >= 1 && lo == m * (k - 1) < length
    requires hi == if lo + m <= length then lo + m else length
    ensures k == 1 ==> out[lo..hi] == Mac(h, alg, prk, info + [k])[..hi - lo]
    ensures k > 1 ==> m <= lo && out[lo..hi] == Mac(h, alg, prk, out[lo - m..lo] + info + [k])[..hi - lo]
  {
    OkmSlice(h, alg, prk, info, length, out, k, m, lo, hi);
    if k == 1 {
      assert T(h, alg, prk, info, 0) + info == info;
    } else {
      BlockBefore(h, alg, prk, info, length, out, k, m, lo);
    }
  }

  lemma BlockBefore(h: HashFn, alg: HmacAlg, prk: seq<byte>, info: seq<byte>, length: nat, out: seq<byte>, k: byte,
                    m: nat, lo: nat)
    requires 1 <= length <= 255 * alg.MacSize() && out == Okm(h, alg, prk, info, length)
    requires m == alg.MacSize() && k > 1 && lo == m * (k - 1) < length
    ensures m <= lo && out[lo - m..lo] == T(h, alg, prk, info, k - 1)
  {
    Distribute(m, k - 1, 1);
    MulAtLeast(m, k - 1);
    OkmSlice(h, alg, prk, info, length, out, k - 1, m, lo - m, lo);
    var t := T(h, alg, prk, info, k - 1);
    assert t[..m] == t;
  }

  // ---------- the code ----------

  method Absorb(hmac: Hmac, data: seq<byte>, ghost message: seq<byte>) returns (ok: bool)
    requires hmac.Absorbing(message) && |data| <= UINT32_MAX && |message| <= UINT32_MAX
    modifies hmac`currentlyInHashBlock, hmac.inner
    ensures ok <==> |data| <= MAX_UPDATE
    ensures ok ==> hmac.Absorbing(message + data)
  {
    ok := hmac.Update(data);
  }

  /** Takes the MAC of what was absorbed, and leaves the state keyed for another message. */
  method Finish(hmac: Hmac, ghost key: seq<byte>, ghost message: seq<byte>) returns (tag: seq<byte>)
    requires hmac.Absorbing(message) && hmac.KeyIs(key)
    modifies hmac`currentlyInHashBlock, hmac.inner, hmac.outer, hmac.digestPad
    ensures tag == Mac(hmac.H, hmac.alg, key, message) && hmac.Absorbing([])
  {
    var r := hmac.Digest(hmac.alg.MacSize());
    tag := r.value;
    var _ := hmac.Reset();
  }

  /** HKDF-Extract: the pseudorandom key is the MAC of the input key under the salt. */
  method Extract(hmac: Hmac, alg: HmacAlg, salt: seq<byte>, key: seq<byte>) returns (prk: Option<seq<byte>>)
    requires hmac.Wf() && |salt| <= UINT32_MAX && |key| <= UINT32_MAX
    modifies hmac, hmac.inner, hmac.innerJustKey, hmac.outer, hmac.outerJustKey, hmac.xorPad, hmac.digestPad
    ensures prk == if |key| <= 17535 then Some(Mac(hmac.H, alg, salt, key)) else None
  {
    hmac.Init(alg, salt);
    var ok := Absorb(hmac, key, []);
    if !ok {
      return None;
    }
    assert [] + key == key;
    var tag := Finish(hmac, salt, key);
    return Some(tag);
  }

  /** T(round) from T(round - 1). */
  method Round(hmac: Hmac, alg: HmacAlg, prk: seq<byte>, prev: seq<byte>, info: seq<byte>, round: nat)
    returns (t: Option<seq<byte>>)
    requires hmac.Wf() && |prk| <= UINT32_MAX && |info| <= UINT32_MAX && 1 <= round <= MAX_ROUNDS
    requires round > 1 ==> prev == T(hmac.H, alg, prk, info, round - 1)
    modifies hmac, hmac.inner, hmac.innerJustKey, hmac.outer, hmac.outerJustKey, hmac.xorPad, hmac.digestPad
    ensures t == if |info| <= MAX_UPDATE then Some(T(hmac.H, alg, prk, info, round)) else None
  {
    hmac.Init(alg, prk);
    ghost var before := T(hmac.H, alg, prk, info, round - 1);
    var ok := true;
    if round != 1 {
      ok := Absorb(hmac, prev, []);
    }
    assert [] + before == before;
    ok := Absorb(hmac, info, before);
    if !ok {
      return None;
    }
    ok := Absorb(hmac, [round], before + info);
    var tag := Finish(hmac, prk, before + info + [round]);
    return Some(tag);
  }

  lemma Extends(a: seq<byte>, b: seq<byte>, i: nat, j: nat)
    requires i <= j <= |a| && j <= |b| && a[..i] == b[..i] && a[i..j] == b[i..j]
    ensures a[..j] == b[..j]
  {
    assert a[..j] == a[..i] + a[i..j] && b[..j] == b[..i] + b[i..j];
  }

  /** Before the last round the output is not full yet. */
  lemma NotFull(length: nat, m: nat, rounds: nat, round: nat, start: nat)
    requires m > 0 && rounds == Rounds(length, m) && 1 <= round <= rounds && start == m * (round - 1)
    ensures start < length && m * (round + 1 - 1) == start + m
  {
    RoundsCover(length, m, rounds);
    MulMonotone(m, round - 1, rounds - 1);
    Distribute(m, rounds, 1);
    Distribute(m, round, 1);
  }

  ghost predicate Filled(output: array<byte>, done: nat, all: seq<byte>)
    reads output
  {
    done <= output.Length && done <= |all| && output[..done] == all[..done]
  }

  /** Copies as much of the block as fits. */
  method AppendBlock(output: array<byte>, done: nat, t: seq<byte>, ghost all: seq<byte>) returns (done': nat)
    requires Filled(output, done, all) && done + |t| <= |all| && all[done..done + |t|] == t
    modifies output
    ensures done' == Min(output.Length, done + |t|) && Filled(output, done', all)
  {
    var take := if done + |t| > output.Length then output.Length - done else |t|;
    CopyAt(output, done, t[..take]);
    assert all[done..done + take] == t[..take];
    Extends(output[..], all, done, done + take);
    done' := done + take;
  }

  lemma FullIsOkm(h: HashFn, alg: HmacAlg, prk: seq<byte>, info: seq<byte>, s: seq<byte>, rounds: byte)
    requires alg.MacSize() > 0 && 1 <= rounds <= MAX_ROUNDS && rounds == Rounds(|s|, alg.MacSize())
    requires |Expansion(h, alg, prk, info, rounds)| >= |s| && s == Expansion(h, alg, prk, info, rounds)[..|s|]
    ensures 1 <= |s| <= MAX_ROUNDS * alg.MacSize() && s == Okm(h, alg, prk, info, |s|)
  {
    RoundsAtMost(|s|, alg.MacSize(), rounds, MAX_ROUNDS);
    RoundsCover(|s|, alg.MacSize(), rounds);
  }

  /** One round: T(round), of which the output takes what it has room for. */
  method NextBlock(hmac: Hmac, alg: HmacAlg, prk: seq<byte>, info: seq<byte>, output: array<byte>, round: nat,
                   prev: seq<byte>, done: nat, ghost rounds: nat, ghost all: seq<byte>)
    returns (t: Option<seq<byte>>, done': nat)
    requires hmac.Wf() && |prk| <= UINT32_MAX && |info| <= UINT32_MAX
    requires output != hmac.xorPad && output != hmac.digestPad && alg.MacSize() > 0
    requires 1 <= round <= rounds <= MAX_ROUNDS && all == Expansion(hmac.H, alg, prk, info, rounds)
    requires round > 1 ==> alg.MacSize() <= done <= |all| && prev == all[done - alg.MacSize()..done]
    requires done == alg.MacSize() * (round - 1) && Filled(output, done, all)
    modifies hmac, hmac.inner, hmac.innerJustKey, hmac.outer, hmac.outerJustKey, hmac.xorPad, hmac.digestPad, output
    ensures t.Some? <==> |info| <= MAX_UPDATE
    ensures done + alg.MacSize() <= |all| && (t.Some? ==> t.value == all[done..done + alg.MacSize()])
    ensures t.Some? ==> done' == Min(output.Length, done + alg.MacSize()) && Filled(output, done', all)
    ensures t.None? ==> output[..] == old(output[..])
  {
    if round > 1 {
      Distribute(alg.MacSize(), round - 1, 1);
      BlockAt(hmac.H, alg, prk, info, all, rounds, round - 1, done - alg.MacSize());
    }
    BlockAt(hmac.H, alg, prk, info, all, rounds, round, done);
    done' := done;
    t := Round(hmac, alg, prk, prev, info, round);
    if t.Some? {
      done' := AppendBlock(output, done, t.value, all);
    }
  }

  /** Before a round: the rounds so far have filled the output up to `start`, and `prev` is the last of them. */
  ghost predicate AtRound(output: array<byte>, all: seq<byte>, m: nat, round: nat, start: nat, prev: seq<byte>, done: nat)
    reads output
  {
    && round >= 1 && start == m * (round - 1) && done == Min(output.Length, start) && Filled(output, done, all)
    && (round > 1 ==> m <= start <= |all| && prev == all[start - m..start])
  }

  /** The rounds of HKDF-Expand: the output fills up with T(1), T(2), ... and a piece of the last. */
  method FillOutput(hmac: Hmac, alg: HmacAlg, prk: seq<byte>, info: seq<byte>, output: array<byte>, rounds: nat,
              ghost all: seq<byte>)
    returns (ok: bool)
    requires hmac.Wf() && |prk| <= UINT32_MAX && |info| <= UINT32_MAX
    requires output != hmac.xorPad && output != hmac.digestPad && alg.MacSize() > 0
    requires rounds == Rounds(output.Length, alg.MacSize()) && 1 <= rounds <= MAX_ROUNDS
    requires all == Expansion(hmac.H, alg, prk, info, rounds)
    modifies hmac, hmac.inner, hmac.innerJustKey, hmac.outer, hmac.outerJustKey, hmac.xorPad, hmac.digestPad, output
    ensures ok <==> |info| <= MAX_UPDATE
    ensures ok ==> Filled(output, output.Length, all)
    ensures !ok ==> output[..] == old(output[..])
  {
    var m, prev: seq<byte> := alg.MacSize(), [];
    var done: nat := 0;
    ghost var start: nat := 0;
    for round := 1 to rounds + 1
      invariant AtRound(output, all, m, round, start, prev, done)
      invariant if round == 1 then output[..] == old(output[..]) else |info| <= MAX_UPDATE
    {
      NotFull(output.Length, m, rounds, round, start);
      var t;
      t, done := NextBlock(hmac, alg, prk, info, output, round, prev, done, rounds, all);
      if t.None? {
        return false;
      }
      prev, start := t.value, start + m;
    }
    RoundsCover(output.Length, m, rounds);
    return true;
  }

  method CountRounds(length: nat, m: nat) returns (rounds: nat)
    requires m > 0
    ensures rounds == Rounds(length, m)
    ensures (rounds <= MAX_ROUNDS <==> length <= m * MAX_ROUNDS) && (rounds == 0 <==> length == 0)
  {
    rounds := length / m;
    if length % m > 0 {
      rounds := rounds + 1;
    }
    RoundsCover(length, m, rounds);
    RoundsAtMost(length, m, rounds, MAX_ROUNDS);
  }

  /** HKDF-Expand: refused exactly when no output of that size exists, or the info is over-long. */
  method Expand(hmac: Hmac, alg: HmacAlg, prk: seq<byte>, info: seq<byte>, output: array<byte>) returns (ok: bool)
    requires hmac.Wf() && |prk| <= UINT32_MAX && |info| <= UINT32_MAX
    requires output != hmac.xorPad && output != hmac.digestPad
    modifies hmac, hmac.inner, hmac.innerJustKey, hmac.outer, hmac.outerJustKey, hmac.xorPad, hmac.digestPad, output
    ensures ok <==> 1 <= output.Length <= 255 * alg.MacSize() && |info| <= 17535
    ensures ok ==> output[..] == Okm(hmac.H, alg, prk, info, output.Length)
    ensures !ok ==> output[..] == old(output[..])
  {
    var m := alg.MacSize();
    if m == 0 {
      return false;
    }
    var rounds := CountRounds(output.Length, m);
    if rounds > MAX_ROUNDS || rounds == 0 {
      return false;
    }
    ok := FillOutput(hmac, alg, prk, info, output, rounds, Expansion(hmac.H, alg, prk, info, rounds));
    if ok {
      assert output[..output.Length] == output[..];
      FullIsOkm(hmac.H, alg, prk, info, output[..], rounds);
    }
  }

  /** Extract, then expand. */
  method Hkdf(hmac: Hmac, alg: HmacAlg, salt: seq<byte>, key: seq<byte>, info: seq<byte>, output: array<byte>)
    returns (ok: bool)
    requires hmac.Wf() && |salt| <= UINT32_MAX && |key| <= UINT32_MAX && |info| <= UINT32_MAX
    requires output != hmac.xorPad && output != hmac.digestPad
    modifies hmac, hmac.inner, hmac.innerJustKey, hmac.outer, hmac.outerJustKey, hmac.xorPad, hmac.digestPad, output
    ensures ok <==>
      1 <= output.Length <= 255 * alg.MacSize() && |info| <= 17535 && |key| <= 17535
    ensures ok ==> output[..] == Okm(hmac.H, alg, Mac(hmac.H, alg, salt, key), info, output.Length)
    ensures !ok ==> output[..] == old(output[..])
  {
    var prk := Extract(hmac, alg, salt, key);
    if prk.None? {
      return false;
    }
    ok := Expand(hmac, alg, prk.value, info, output);
  }

  // ---------- HKDF-Expand-Label, section 7.1 of RFC 8446 ----------

  const MAX_LABEL := 12
  const LABEL_BUFFER := 514
  /** "tls13 " */
  const PREFIX: seq<byte> := [0x74, 0x6c, 0x73, 0x31, 0x33, 0x20]

  /** The info block as the code writes it: the lengths are cut to 16 and 8 bits. */
  function Info(length: nat, name: seq<byte>, context: seq<byte>): (s: seq<byte>)
  {
    ToBE(length, 2) + ToBE(|name| + |PREFIX|, 1) + PREFIX + name + ToBE(|context|, 1) + context
  }

  /** The same in literals. */
  lemma InfoIs(length: nat, name: seq<byte>, context: seq<byte>)
    ensures Info(length, name, context) ==
      [length / 0x100 % 0x100, length % 0x100, (|name| + 6) % 0x100]
      + ['t' as int, 'l' as int, 's' as int, '1' as int, '3' as int, ' ' as int]
      + name + [|context| % 0x100] + context
  {
    ToBE2(length);
    assert ToBE(|name| + 6, 1) == [(|name| + 6) % 0x100] && ToBE(|context|, 1) == [|context| % 0x100];
  }

  /** The HkdfLabel structure of the standard. */
  function HkdfLabel(length: nat, name: Chunk, context: Chunk): (b: Body)
    requires |name| <= MAX_LABEL
  {
    Raw(ToBE(length, 2), Vector(1, Raw(PREFIX + name, End), Vector(1, Raw(context, End), End)))
  }

  /** The block is the standard's encoding exactly when the context fits its one-byte length. */
  lemma InfoIsHkdfLabel(length: nat, name: Chunk, context: Chunk)
    requires |name| <= MAX_LABEL
    ensures Encode(HkdfLabel(length, name, context)) ==
            if |context| <= 255 then Some(Info(length, name, context)) else None
  {
    assert Pow256(1) == 256;
    var inner := Vector(1, Raw(context, End), End);
    assert context + [] == context;
    assert Encode(Raw(context, End)) == Some(context);
    if |context| <= 255 {
      var c := ToBE(|context|, 1) + context;
      assert c + [] == c;
      assert Encode(inner) == Some(c);
      var p := PREFIX + name;
      assert p + [] == p;
      assert Encode(Raw(p, End)) == Some(p);
      var n := ToBE(|p|, 1);
      assert Encode(Vector(1, Raw(p, End), inner)) == Some(n + p + c);
      assert ToBE(length, 2) + (n + p + c) == Info(length, name, context);
    } else {
      assert Encode(inner) == None;
      assert Encode(Vector(1, Raw(PREFIX + name, End), inner)) == None;
    }
  }

  /** A longer context is accepted, with a length byte that is wrong. */
  lemma LongContext()
    ensures var context := Repeat(0, 256);
      && 10 + |context| <= LABEL_BUFFER && Info(32, [], context)[9] == 0
      && Encode(HkdfLabel(32, [], context)) == None
  {
    var context := Repeat(0, 256);
    InfoIsHkdfLabel(32, [], context);
    assert ToBE(256, 1) == [0];
  }

  /** Different requests never share an info block. */
  lemma InfoInjective(length: nat, name: seq<byte>, context: seq<byte>,
                      length': nat, name': seq<byte>, context': seq<byte>)
    requires length < 0x1_0000 && length' < 0x1_0000 && |name| <= MAX_LABEL && |name'| <= MAX_LABEL
    requires Info(length, name, context) == Info(length', name', context')
    ensures length == length' && name == name' && context == context'
  {
    var s := Info(length, name, context);
    InfoParts(length, name, context);
    InfoParts(length', name', context');
    assert Pow256(2) == 0x1_0000;
    ReadsBack(length, 2);
    ReadsBack(length', 2);
  }

  lemma InfoParts(length: nat, name: seq<byte>, context: seq<byte>)
    requires |name| <= MAX_LABEL
    ensures var s := Info(length, name, context);
      && |s| == 10 + |name| + |context| && s[..2] == ToBE(length, 2) && s[2] == |name| + |PREFIX|
      && s[9..9 + |name|] == name && s[10 + |name|..] == context
  {
    assert ToBE(|name| + |PREFIX|, 1) == [|name| + |PREFIX|];
  }

  /** The part before the context always has room. */
  method WriteName(info: Stuffer, length: nat, name: seq<byte>)
    requires info.Valid() && info.Contents() == [] && info.size == LABEL_BUFFER && !info.growable
    requires |name| <= MAX_LABEL && length <= UINT32_MAX
    modifies info`mem, info`size, info`write, info`highWater
    ensures info.Valid() && info.size == LABEL_BUFFER
    ensures info.Contents() == ToBE(length, 2) + ToBE(|name| + |PREFIX|, 1) + PREFIX + name
  {
    var ok := WriteNetworkOrder(info, length, 2);
    assert [] + ToBE(length, 2) == ToBE(length, 2);
    ok := WriteNetworkOrder(info, |name| + |PREFIX|, 1);
    ok := info.WriteBytes(PREFIX);
    ok := info.WriteBytes(name);
  }

  method WriteInfo(length: nat, name: seq<byte>, context: seq<byte>) returns (r: Option<seq<byte>>)
    requires |name| <= MAX_LABEL && |context| <= UINT32_MAX && length <= UINT32_MAX
    ensures r == if 10 + |name| + |context| <= 514 then Some(Info(length, name, context)) else None
  {
    var memory := Malloc(LABEL_BUFFER);
    var info := new Stuffer.Init(memory);
    WriteName(info, length, name);
    var ok := WriteNetworkOrder(info, |context|, 1);
    ok := info.WriteBytes(context);
    if !ok {
      return None;
    }
    return Some(info.mem[..info.write - info.read]);
  }

  /** A derived secret of the requested size, and the label it was asked for under. */
  method ExpandLabel(hmac: Hmac, alg: HmacAlg, secret: seq<byte>, name: seq<byte>, context: seq<byte>,
                     output: array<byte>)
    returns (ok: bool)
    requires hmac.Wf() && |secret| <= UINT32_MAX && |name| <= UINT32_MAX && |context| <= UINT32_MAX
    requires output != hmac.xorPad && output != hmac.digestPad && output.Length <= UINT32_MAX
    modifies hmac, hmac.inner, hmac.innerJustKey, hmac.outer, hmac.outerJustKey, hmac.xorPad, hmac.digestPad, output
    ensures ok <==>
      && 1 <= output.Length <= 255 * alg.MacSize()
      && |name| <= 12 && 10 + |name| + |context| <= 514
    ensures ok ==> output.Length < 0x1_0000
    ensures ok ==> output[..] == Okm(hmac.H, alg, secret, Info(output.Length, name, context), output.Length)
    ensures !ok ==> output[..] == old(output[..])
  {
    if |name| > MAX_LABEL {
      return false;
    }
    var info := WriteInfo(output.Length, name, context);
    if info.None? {
      return false;
    }
    InfoParts(output.Length, name, context);
    ok := Expand(hmac, alg, secret, info.value, output);
  }
}
