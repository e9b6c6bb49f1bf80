/** The CTR DRBG without derivation function (section 10.2.1 of NIST SP 800-90A), reseeded for every request. */
module Drbgs {
  import opened Bytes
  import opened Counters

  const BLOCK := 16
  const GENERATE_LIMIT := 8192

  /** A block cipher in ECB mode: key and block to block. */
  type CipherFn = e: (seq<byte>, seq<byte>) -> seq<byte> | forall k, b :: |e(k, b)| == BLOCK
    witness (k, b) => seq(BLOCK, _ => 0)

  datatype Mode = AES_128 | AES_256
  {
    function KeySize(): (n: nat)
    {
      if AES_128? then 16 else 32
    }

    function SeedSize(): (n: nat)
      ensures n % BLOCK == 0 && n > KeySize()
    {
      BLOCK + KeySize()
    }
  }

  // ---------- the standard ----------

  /** Key and counter; the counter is stored modulo 2^128. */
  datatype Working = Working(key: seq<byte>, v: nat)

  function Keystream(e: CipherFn, w: Working, n: nat): (s: seq<byte>)
    ensures |s| == BLOCK * n
  {
    if n == 0 then [] else Keystream(e, w, n - 1) + e(w.key, ToBE(w.v + n, BLOCK))
  }

  function BlocksFor(n: nat): (k: nat)
    ensures BLOCK * k - BLOCK < n <= BLOCK * k
  {
    (n + BLOCK - 1) / BLOCK
  }

  function Output(e: CipherFn, w: Working, n: nat): (s: seq<byte>)
    ensures |s| == n
  {
    Keystream(e, w, BlocksFor(n))[..n]
  }

  function XorSeq(a: seq<byte>, b: seq<byte>): (r: seq<byte>)
    requires |b| <= |a|
    ensures |r| == |a|
  {
    seq(|a|, i requires 0 <= i < |a| => if i < |b| then XorByte(a[i], b[i]) else a[i])
  }

  /** CTR_DRBG_Update, section 10.2.1.2. */
  function Updated(e: CipherFn, mode: Mode, w: Working, provided: seq<byte>): (w': Working)
    requires |provided| == mode.SeedSize()
  {
    var temp := XorSeq(Output(e, w, mode.SeedSize()), provided);
    Working(temp[..mode.KeySize()], BE(temp[mode.KeySize()..]))
  }

  /** Reseed, section 10.2.1.4.1, without additional input. */
  function Reseeded(e: CipherFn, mode: Mode, w: Working, entropy: seq<byte>): (w': Working)
    requires |entropy| == mode.SeedSize()
  {
    Updated(e, mode, w, entropy)
  }

  function Advanced(w: Working, n: nat): (w': Working)
  {
    Working(w.key, w.v + BlocksFor(n))
  }

  /** Generate, section 10.2.1.5.1, with prediction resistance: the new working state, after the output. */
  function Generated(e: CipherFn, mode: Mode, w: Working, entropy: seq<byte>, n: nat): (r: (Working, seq<byte>))
    requires |entropy| == mode.SeedSize()
  {
    var w1 := Reseeded(e, mode, w, entropy);
    (Updated(e, mode, Advanced(w1, n), Repeat(0, mode.SeedSize())), Output(e, w1, n))
  }

  /** The blocks a request encrypts: for the reseeding under the old key, then for output and update under the next. */
  ghost function EpochsOf(e: CipherFn, mode: Mode, w: Working, entropy: seq<byte>, n: nat): (es: seq<Epoch>)
    requires |entropy| == mode.SeedSize()
  {
    var w1, k := Reseeded(e, mode, w, entropy), BlocksFor(mode.SeedSize());
    [Epoch(w.key, CounterBlocks(w.v, k)), Epoch(w1.key, CounterBlocks(w1.v, BlocksFor(n) + k))]
  }

  lemma EpochsJoin(before: seq<Epoch>, first: Epoch, second: Epoch)
    ensures before + [first] + [second] == before + [first, second]
  {
  }

  function Cut(s: seq<byte>, n: nat): (t: seq<byte>)
    ensures |t| <= n
  {
    if |s| <= n then s else s[..n]
  }

  /** Instantiate, section 10.2.1.3.1: an over-long personalization string is cut. */
  function Instantiated(e: CipherFn, mode: Mode, entropy: seq<byte>, personalization: seq<byte>): (w: Working)
    requires |entropy| == mode.SeedSize()
  {
    Updated(e, mode, Working(Repeat(0, mode.KeySize()), 0), XorSeq(entropy, Cut(personalization, mode.SeedSize())))
  }

  // ---------- no block is encrypted twice under one key ----------

  ghost predicate Distinct(bs: seq<seq<byte>>) {
    forall i, j :: 0 <= i < j < |bs| ==> bs[i] != bs[j]
  }

  /** Counter blocks of any width are distinct exactly until the counter has gone round. */
  lemma DistinctIff(bs: seq<seq<byte>>, v: nat, width: nat, p: nat)
    requires p == Pow256(width) && forall i :: 0 <= i < |bs| ==> bs[i] == ToBE(v + i + 1, width)
    ensures Distinct(bs) <==> |bs| <= p
  {
    if |bs| <= p {
      forall i, j | 0 <= i < j < |bs| ensures bs[i] != bs[j] {
        ToBEDiffer(v + i + 1, v + j + 1, width, p);
      }
    } else {
      ToBEShifted(v + 1, width, p, 1);
      assert bs[0] == bs[p];
    }
  }

  /** The blocks are the counter values after v, in order. */
  ghost predicate Counted(bs: seq<seq<byte>>, v: nat) {
    forall i :: 0 <= i < |bs| ==> bs[i] == ToBE(v + i + 1, BLOCK)
  }

  lemma CountedMore(bs: seq<seq<byte>>, v: nat, b: seq<byte>)
    requires Counted(bs, v) && b == ToBE(v + |bs| + 1, BLOCK)
    ensures Counted(bs + [b], v)
  {
  }

  ghost function CounterBlocks(v: nat, n: nat): (bs: seq<seq<byte>>)
    ensures |bs| == n && Counted(bs, v)
  {
    seq(n, i requires 0 <= i < n => ToBE(v + i + 1, BLOCK))
  }

  lemma CountedDistinct(bs: seq<seq<byte>>, v: nat)
    requires Counted(bs, v)
    ensures Distinct(bs) <==> |bs| <= Pow256(BLOCK)
  {
    DistinctIff(bs, v, BLOCK, Pow256(BLOCK));
  }

  /** The counter blocks are what the keystream encrypts: block i of it comes from the i-th of them. */
  lemma {:induction false} KeystreamBlock(e: CipherFn, w: Working, n: nat, i: nat)
    requires i < n
    ensures Keystream(e, w, n)[BLOCK * i..BLOCK * i + BLOCK] == e(w.key, CounterBlocks(w.v, n)[i])
  {
    var before := Keystream(e, w, n - 1);
    if i < n - 1 {
      KeystreamBlock(e, w, n - 1, i);
      assert Keystream(e, w, n)[BLOCK * i..BLOCK * i + BLOCK] == before[BLOCK * i..BLOCK * i + BLOCK];
    }
  }

  /** A key, and the blocks encrypted under it. */
  datatype Epoch = Epoch(key: seq<byte>, blocks: seq<seq<byte>>)

  ghost predicate AllDistinct(epochs: seq<Epoch>) {
    forall k :: 0 <= k < |epochs| ==> Distinct(epochs[k].blocks)
  }

  /** At most 512 blocks for the longest request, and 3 for the next key and counter. */
  const EPOCH := 515

  lemma EpochEnds(epochs: seq<Epoch>, key: seq<byte>, bs: seq<seq<byte>>, v: nat)
    requires AllDistinct(epochs) && Counted(bs, v) && |bs| <= EPOCH
    ensures AllDistinct(epochs + [Epoch(key, bs)])
  {
    EpochIsShort(BLOCK);
    CountedDistinct(bs, v);
  }

  lemma EpochIsShort(width: nat)
    requires width >= 2
    ensures EPOCH <= Pow256(width)
  {
    assert Pow256(2) == 0x1_0000;
    Pow256Monotone(2, width);
  }

  // ---------- the same byte by byte ----------

  /** Byte i of the keystream after w. */
  function StreamByte(e: CipherFn, w: Working, i: nat): (b: byte)
  {
    e(w.key, ToBE(w.v + i / 16 + 1, 16))[i % 16]
  }

  lemma KeystreamByte(e: CipherFn, w: Working, n: nat, i: nat)
    requires i < 16 * n
    ensures Keystream(e, w, n)[i] == StreamByte(e, w, i)
  {
    var k, r := i / 16, i % 16;
    KeystreamBlock(e, w, n, k);
    assert Keystream(e, w, n)[i] == Keystream(e, w, n)[BLOCK * k..BLOCK * k + BLOCK][r];
  }

  lemma OutputByte(e: CipherFn, w: Working, n: nat, i: nat)
    requires i < n
    ensures Output(e, w, n)[i] == StreamByte(e, w, i)
  {
    KeystreamByte(e, w, BlocksFor(n), i);
  }

  /** The state as bytes: the key, and 16 bytes of counter. */
  function StateBytes(w: Working): (s: seq<byte>)
    ensures |s| == |w.key| + 16
  {
    w.key + ToBE(w.v, 16)
  }

  /** Every byte of the new state is a byte of the keystream, xor the byte that was provided. */
  ghost predicate Mixed(e: CipherFn, w: Working, provided: seq<byte>, w': Working) {
    && |w'.key| + 16 == |provided| && w'.v < Pow256(16)
    && forall i :: 0 <= i < |provided| ==> StateBytes(w')[i] == XorByte(StreamByte(e, w, i), provided[i])
  }

  lemma TempBytes(temp: seq<byte>, keySize: nat, w': Working)
    requires |temp| == keySize + 16 && w' == Working(temp[..keySize], BE(temp[keySize..]))
    ensures StateBytes(w') == temp && w'.v < Pow256(16)
  {
    ToBEBE(temp[keySize..]);
    BEBound(temp[keySize..]);
  }

  /** CTR_DRBG_Update with a key of 16 or 32 bytes. */
  lemma UpdatedIs(e: CipherFn, mode: Mode, w: Working, provided: seq<byte>)
    requires |provided| == if mode == AES_128 then 32 else 48
    ensures Mixed(e, w, provided, Updated(e, mode, w, provided))
  {
    var w' := Updated(e, mode, w, provided);
    var stream := Output(e, w, |provided|);
    TempBytes(XorSeq(stream, provided), |provided| - 16, w');
    forall i | 0 <= i < |provided| ensures StateBytes(w')[i] == XorByte(StreamByte(e, w, i), provided[i]) {
      OutputByte(e, w, |provided|, i);
    }
  }

  lemma XorCancels(a: byte, b: byte, c: byte)
    requires XorByte(a, b) == XorByte(a, c)
    ensures b == c
  {
    XorByteTwice(a, a, b);
    XorByteTwice(a, a, c);
    ZeroXor(b);
    ZeroXor(c);
  }

  lemma ZeroXor(b: byte)
    ensures XorByte(XorByte(b, b), b) == b && forall a: byte :: XorByte(XorByte(a, a), b) == b
  {
    XorFromZero(b);
  }

  lemma {:induction false} XorFromZero(b: nat)
    ensures Xor(0, b) == b
  {
    if b != 0 {
      XorFromZero(b / 2);
    }
  }

  /** Different data never lead from one state to the same state. */
  lemma UpdatedInjective(e: CipherFn, mode: Mode, w: Working, a: seq<byte>, b: seq<byte>)
    requires |a| == |b| == mode.SeedSize() && a != b
    ensures Updated(e, mode, w, a) != Updated(e, mode, w, b)
  {
    UpdatedIs(e, mode, w, a);
    UpdatedIs(e, mode, w, b);
    var i :| 0 <= i < |a| && a[i] != b[i];
    if XorByte(StreamByte(e, w, i), a[i]) == XorByte(StreamByte(e, w, i), b[i]) {
      XorCancels(StreamByte(e, w, i), a[i], b[i]);
    }
  }

  /** The first state mixes entropy xor personalization, cut or zero-filled, into the zero key and counter. */
  lemma InstantiatedIs(e: CipherFn, mode: Mode, entropy: seq<byte>, ps: seq<byte>, zero: Working, provided: seq<byte>)
    requires |entropy| == |provided| == if mode == AES_128 then 32 else 48
    requires |zero.key| + 16 == |entropy| && zero.v == 0 && forall i :: 0 <= i < |zero.key| ==> zero.key[i] == 0
    requires forall i :: 0 <= i < |entropy| ==>
      provided[i] == if i < |ps| then XorByte(entropy[i], ps[i]) else entropy[i]
    ensures Mixed(e, zero, provided, Instantiated(e, mode, entropy, ps))
  {
    assert zero.key == Repeat(0, |entropy| - 16);
    assert provided == XorSeq(entropy, Cut(ps, |entropy|));
    UpdatedIs(e, mode, zero, provided);
  }

  lemma LaterByte(e: CipherFn, w: Working, n: nat, i: nat)
    ensures StreamByte(e, Advanced(w, n), i) == StreamByte(e, w, 16 * ((n + 15) / 16) + i)
  {
    var k := (n + 15) / 16;
    assert (16 * k + i) / 16 == k + i / 16 && (16 * k + i) % 16 == i % 16;
  }

  /** An update with zeros takes the keystream as it is. */
  lemma ZerosMixed(e: CipherFn, w: Working, zeros: seq<byte>, w': Working, i: nat)
    requires Mixed(e, w, zeros, w') && i < |zeros| && zeros == Repeat(0, |zeros|)
    ensures StateBytes(w')[i] == StreamByte(e, w, i)
  {
    XorWithZero(StreamByte(e, w, i));
  }

  /**
   One request for n bytes: the state w1 into which the entropy was mixed gives the output and, with the
   keystream that follows the started blocks, the next state.
   */
  lemma GeneratedIs(e: CipherFn, mode: Mode, w: Working, entropy: seq<byte>, n: nat) returns (w1: Working)
    requires |entropy| == if mode == AES_128 then 32 else 48
    ensures Mixed(e, w, entropy, w1)
    ensures var out := Generated(e, mode, w, entropy, n).1;
      |out| == n && forall i :: 0 <= i < n ==> out[i] == StreamByte(e, w1, i)
    ensures var next := StateBytes(Generated(e, mode, w, entropy, n).0);
      && |next| == |entropy|
      && forall i :: 0 <= i < |entropy| ==> next[i] == StreamByte(e, w1, 16 * ((n + 15) / 16) + i)
  {
    w1 := Reseeded(e, mode, w, entropy);
    UpdatedIs(e, mode, w, entropy);
    var (w2, out) := Generated(e, mode, w, entropy, n);
    forall i | 0 <= i < n ensures out[i] == StreamByte(e, w1, i) {
      OutputByte(e, w1, n, i);
    }
    var zeros := Repeat(0, |entropy|);
    UpdatedIs(e, mode, Advanced(w1, n), zeros);
    forall i | 0 <= i < |entropy| ensures StateBytes(w2)[i] == StreamByte(e, w1, 16 * ((n + 15) / 16) + i) {
      ZerosMixed(e, Advanced(w1, n), zeros, w2, i);
      LaterByte(e, w1, n, i);
    }
  }

  // ---------- the code ----------

  method XorInto(a: array<byte>, b: seq<byte>)
    requires |b| <= a.Length
    modifies a
    ensures a[..] == XorSeq(old(a[..]), b)
  {
    for i := 0 to |b|
      invariant forall k :: 0 <= k < i ==> a[k] == XorByte(old(a[k]), b[k])
      invariant forall k :: i <= k < a.Length ==> a[k] == old(a[k])
    {
      a[i] := XorByte(a[i], b[i]);
    }
  }

  lemma SeedBlocks(mode: Mode)
    ensures BlocksFor(mode.SeedSize()) <= 3 && BLOCK * BlocksFor(mode.SeedSize()) == mode.SeedSize()
  {
  }

  lemma Spend(spent: nat)
    ensures (spent % (UINT64_MAX + 1) + BLOCK) % (UINT64_MAX + 1) == (spent + BLOCK) % (UINT64_MAX + 1)
  {
  }

  lemma OutputPieces(e: CipherFn, w: Working, n: nat, blocks: nat)
    requires BLOCK * blocks <= n < BLOCK * blocks + BLOCK
    ensures n == BLOCK * blocks ==> BlocksFor(n) == blocks && Output(e, w, n) == Keystream(e, w, blocks)
    ensures n > BLOCK * blocks ==>
      && BlocksFor(n) == blocks + 1
      && Output(e, w, n) == Keystream(e, w, blocks) + e(w.key, ToBE(w.v + blocks + 1, BLOCK))[..n - BLOCK * blocks]
  {
  }

  method WholeBlocksIn(n: nat) returns (blocks: nat)
    ensures BLOCK * blocks <= n < BLOCK * blocks + BLOCK
  {
    blocks := n / BLOCK;
  }

  /** The string in a buffer of n zero bytes. */
  method Padded(s: seq<byte>, n: nat) returns (padded: seq<byte>)
    ensures padded == Cut(s, n) + Repeat(0, n - |Cut(s, n)|)
  {
    var ps := new byte[n];
    Fill(ps, n, 0);
    assert ps[..] == Repeat(0, n);
    var cut := Cut(s, n);
    CopyAt(ps, 0, cut);
    assert ps[..] == ps[..|cut|] + ps[|cut|..];
    padded := ps[..];
  }

  lemma {:induction false} XorWithZero(a: nat)
    ensures Xor(a, 0) == a
  {
    if a != 0 {
      XorWithZero(a / 2);
    }
  }

  lemma XorWithZeros(a: seq<byte>, zeros: seq<byte>)
    requires zeros == Repeat(0, |a|)
    ensures XorSeq(a, zeros) == a
  {
    forall i | 0 <= i < |a| ensures XorByte(a[i], 0) == a[i] { XorWithZero(a[i]); }
  }

  /** Zero padding after a personalization string leaves the entropy there as it is. */
  lemma XorPadded(a: seq<byte>, b: seq<byte>, padded: seq<byte>)
    requires |b| <= |a| == |padded| && padded == b + Repeat(0, |a| - |b|)
    ensures XorSeq(a, padded) == XorSeq(a, b)
  {
    forall i | 0 <= i < |a| ensures XorByte(a[i], 0) == a[i] { XorWithZero(a[i]); }
  }

  lemma {:induction false} ZeroStored(n: nat)
    ensures ToBE(0, n) == Repeat(0, n)
  {
    if n > 0 {
      ZeroStored(n - 1);
    }
  }

  class Drbg {
    const E: CipherFn
    var mode: Mode
    var key: seq<byte>
    const v: array<byte>
    var bytesUsed: nat
    var mixes: nat
    /** Bytes of keystream since the last seeding, of which `bytesUsed` keeps 64 bits. */
    ghost var spent: nat
    /** The counter when the key was set, the blocks encrypted since, and those under the earlier keys. */
    ghost var start: nat
    ghost var used: seq<seq<byte>>
    ghost var past: seq<Epoch>

    constructor (e: CipherFn)
      ensures E == e && v.Length == BLOCK && mixes == 0 && fresh(v)
    {
      E, mode, key, v, bytesUsed, mixes := e, AES_128, [], new byte[BLOCK], 0, 0;
    }

    ghost predicate Valid()
      reads this, v
    {
      && v.Length == BLOCK && |key| == mode.KeySize()
      && bytesUsed == spent % (UINT64_MAX + 1) && mixes <= UINT64_MAX
      && Counted(used, start) && v[..] == ToBE(start + |used|, BLOCK)
      && AllDistinct(past)
    }

    ghost function State(): (w: Working)
      reads this
    {
      Working(key, start + |used|)
    }

    /** One more key is behind: the n blocks after v were encrypted under it, and none yet under the new one. */
    ghost predicate Closed(before: seq<Epoch>, w: Working, n: nat)
      reads this
    {
      used == [] && past == before + [Epoch(w.key, CounterBlocks(w.v, n))]
    }

    method AdvanceCounter()
      requires v.Length == BLOCK && v[..] == ToBE(start + |used|, BLOCK) && Counted(used, start)
      modifies `used, v
      ensures used == old(used) + [ToBE(start + |used|, BLOCK)] && v[..] == ToBE(start + |used|, BLOCK)
      ensures Counted(used, start)
    {
      AdvanceStored(v, start + |used|);
      CountedMore(used, start, v[..]);
      used := used + [v[..]];
    }

    /** Advances the counter and encrypts it. */
    method EncryptNext() returns (block: seq<byte>)
      requires Valid()
      modifies `bytesUsed, `spent, `used, v
      ensures Valid() && State().v == old(State()).v + 1
      ensures block == E(key, ToBE(State().v, BLOCK)) && used == old(used) + [ToBE(State().v, BLOCK)]
      ensures spent == old(spent) + BLOCK
    {
      Spend(spent);
      AdvanceCounter();
      block := E(key, v[..]);
      bytesUsed := (bytesUsed + BLOCK) % (UINT64_MAX + 1);
      spent := spent + BLOCK;
    }

    /** Whole blocks straight into the buffer, and a piece of one more for the rest. */
    method Bits(out: array<byte>)
      requires Valid() && out != v
      modifies `bytesUsed, `spent, `used, v, out
      ensures Valid() && out[..] == Output(E, old(State()), out.Length) && old(used) <= used
      ensures State() == Advanced(old(State()), out.Length)
      ensures spent == old(spent) + BLOCK * BlocksFor(out.Length)
    {
      var blocks := WholeBlocksIn(out.Length);
      var aligned := BLOCK * blocks;
      ghost var w := State();
      OutputPieces(E, w, out.Length, blocks);
      WholeBlocks(out, blocks);
      if out.Length <= aligned {
        assert out[..] == out[..aligned];
      } else {
        PartialBlock(out, aligned);
      }
    }

    method PartialBlock(out: array<byte>, aligned: nat)
      requires Valid() && out != v && aligned <= out.Length < aligned + BLOCK
      modifies `bytesUsed, `spent, `used, v, out
      ensures Valid() && State() == Working(key, old(State()).v + 1) && spent == old(spent) + BLOCK && old(used) <= used
      ensures out[..] == old(out[..aligned]) + E(key, ToBE(State().v, BLOCK))[..out.Length - aligned]
    {
      var spare := EncryptNext();
      CopyAt(out, aligned, spare[..out.Length - aligned]);
      assert out[..] == out[..aligned] + spare[..out.Length - aligned];
    }

    method WholeBlocks(out: array<byte>, blocks: nat)
      requires Valid() && out != v && BLOCK * blocks <= out.Length
      modifies `bytesUsed, `spent, `used, v, out
      ensures Valid() && out[..BLOCK * blocks] == Keystream(E, old(State()), blocks)
      ensures State() == Working(key, old(State()).v + blocks) && old(used) <= used
      ensures spent == old(spent) + BLOCK * blocks
    {
      ghost var w := State();
      for k := 0 to blocks
        invariant Valid() && State().v == w.v + k && old(used) <= used && out[..BLOCK * k] == Keystream(E, w, k)
        invariant spent == old(spent) + BLOCK * k
      {
        var block := EncryptNext();
        CopyAt(out, BLOCK * k, block);
        assert out[..BLOCK * (k + 1)] == out[..BLOCK * k] + block;
      }
    }

    /** Takes a new key and counter from the temporary block. */
    method Rekey(temp: seq<byte>)
      requires Valid() && |temp| == mode.SeedSize() && |used| <= EPOCH
      modifies `key, `start, `used, `past, v
      ensures Valid() && State() == Working(temp[..mode.KeySize()], BE(temp[mode.KeySize()..]))
      ensures Closed(old(past), Working(old(key), old(start)), old(|used|))
    {
      var value := temp[mode.KeySize()..];
      ToBEBE(value);
      EpochEnds(past, key, used, start);
      assert used == CounterBlocks(start, |used|);
      key := temp[..mode.KeySize()];
      CopyAt(v, 0, value);
      assert v[..] == value;
      past, start, used := past + [Epoch(old(key), used)], BE(value), [];
    }

    /** CTR_DRBG_Update. */
    method Update(provided: seq<byte>) returns (ok: bool)
      requires Valid() && |used| + 3 <= EPOCH
      modifies `key, `bytesUsed, `spent, `start, `used, `past, v
      ensures Valid() && (ok <==> |provided| == mode.SeedSize())
      ensures ok ==> State() == Updated(E, mode, old(State()), provided)
      ensures ok ==> Closed(old(past), Working(old(key), old(start)), old(|used|) + BlocksFor(mode.SeedSize()))
      ensures spent == if ok then old(spent) + mode.SeedSize() else old(spent)
      ensures !ok ==> State() == old(State()) && used == old(used) && past == old(past)
    {
      if |provided| != mode.SeedSize() {
        return false;
      }
      SeedBlocks(mode);
      var temp := new byte[mode.SeedSize()];
      Bits(temp);
      XorInto(temp, provided);
      Rekey(temp[..]);
      return true;
    }

    /** Mixes a personalization string into the entropy, and that into the state. */
    method MixInEntropy(entropy: array<byte>, ps: seq<byte>) returns (ok: bool)
      requires Valid() && |used| + 3 <= EPOCH && entropy != v
      modifies `key, `bytesUsed, `spent, `start, `used, `past, v, entropy
      ensures Valid() && (ok <==> |ps| <= entropy.Length == mode.SeedSize())
      ensures ok ==> State() == Updated(E, mode, old(State()), XorSeq(old(entropy[..]), ps))
      ensures ok ==> Closed(old(past), Working(old(key), old(start)), old(|used|) + BlocksFor(mode.SeedSize()))
      ensures spent == if ok then old(spent) + mode.SeedSize() else old(spent)
      ensures !ok ==> State() == old(State()) && used == old(used) && past == old(past)
    {
      if entropy.Length < |ps| {
        return false;
      }
      XorInto(entropy, ps);
      ok := Update(entropy[..]);
    }

    /** Mixes in entropy that has just been gathered into a buffer. */
    method MixIn(entropy: seq<byte>, ps: seq<byte>)
      requires Valid() && used == [] && |ps| <= |entropy| == mode.SeedSize()
      modifies `key, `bytesUsed, `spent, `start, `used, `past, v
      ensures Valid() && State() == Updated(E, mode, old(State()), XorSeq(entropy, ps))
      ensures Closed(old(past), old(State()), BlocksFor(mode.SeedSize())) && spent == old(spent) + mode.SeedSize()
    {
      var blob := new byte[mode.SeedSize()];
      CopyAt(blob, 0, entropy);
      assert blob[..] == entropy;
      var _ := MixInEntropy(blob, ps);
    }

    /** Reseeding for the first time; the entropy source may fail. */
    method Seed(entropy: Option<seq<byte>>, ps: seq<byte>) returns (ok: bool)
      requires Valid() && used == [] && |ps| <= mode.SeedSize()
      requires entropy.Some? ==> |entropy.value| == mode.SeedSize()
      modifies `key, `bytesUsed, `spent, `start, `used, `past, v
      ensures Valid() && used == [] && (ok <==> entropy.Some?)
      ensures ok ==> State() == Updated(E, mode, old(State()), XorSeq(entropy.value, ps)) && spent == 0
      ensures ok ==> Closed(old(past), old(State()), BlocksFor(mode.SeedSize()))
    {
      if entropy.None? {
        return false;
      }
      MixIn(entropy.value, ps);
      bytesUsed, spent := 0, 0;
      return true;
    }

    /** Fresh entropy for every request. */
    method Mix(entropy: Option<seq<byte>>, ps: seq<byte>) returns (ok: bool)
      requires Valid() && used == [] && |ps| <= mode.SeedSize()
      requires entropy.Some? ==> |entropy.value| == mode.SeedSize()
      modifies `key, `bytesUsed, `spent, `start, `used, `past, `mixes, v
      ensures Valid() && (ok <==> entropy.Some?)
      ensures ok ==> State() == Updated(E, mode, old(State()), XorSeq(entropy.value, ps))
      ensures ok ==> Closed(old(past), old(State()), BlocksFor(mode.SeedSize()))
      ensures ok ==> spent == old(spent) + mode.SeedSize() && mixes == (old(mixes) + 1) % (UINT64_MAX + 1)
      ensures !ok ==> State() == old(State()) && unchanged(this)
    {
      if entropy.None? {
        return false;
      }
      MixIn(entropy.value, ps);
      mixes := (mixes + 1) % (UINT64_MAX + 1);
      return true;
    }

    /** Zero key and counter, then the first seeding. */
    method Instantiate(m: Mode, personalization: seq<byte>, entropy: Option<seq<byte>>) returns (ok: bool)
      requires v.Length == BLOCK && mixes <= UINT64_MAX
      requires entropy.Some? ==> |entropy.value| == m.SeedSize()
      modifies this, v
      ensures ok <==> entropy.Some?
      ensures ok ==> Valid() && mode == m && used == [] && spent == 0 && bytesUsed == 0
      ensures ok ==> State() == Instantiated(E, m, entropy.value, personalization)
      ensures ok ==> past == [Epoch(Repeat(0, m.KeySize()), CounterBlocks(0, BlocksFor(m.SeedSize())))]
    {
      ZeroState(m);
      var ps := Padded(personalization, mode.SeedSize());
      if entropy.Some? {
        XorPadded(entropy.value, Cut(personalization, mode.SeedSize()), ps);
      }
      ok := Seed(entropy, ps);
    }

    method ZeroState(m: Mode)
      requires v.Length == BLOCK && mixes <= UINT64_MAX
      modifies this, v
      ensures Valid() && mode == m && used == [] && past == [] && State() == Working(Repeat(0, m.KeySize()), 0)
    {
      mode, key := m, Repeat(0, m.KeySize());
      CopyAt(v, 0, Repeat(0, BLOCK));
      assert v[..] == Repeat(0, BLOCK);
      ZeroStored(BLOCK);
      start, used, past, bytesUsed, spent := 0, [], [], 0, 0;
    }

    /** Output, and then the next key and counter. */
    method OutputThenUpdate(out: array<byte>, zeros: seq<byte>)
      requires Valid() && used == [] && out != v && out.Length <= GENERATE_LIMIT
      requires zeros == Repeat(0, mode.SeedSize())
      modifies `key, `bytesUsed, `spent, `start, `used, `past, v, out
      ensures Valid() && out[..] == Output(E, old(State()), out.Length)
      ensures State() == Updated(E, mode, Advanced(old(State()), out.Length), zeros)
      ensures Closed(old(past), old(State()), BlocksFor(out.Length) + BlocksFor(mode.SeedSize()))
      ensures spent == old(spent) + BLOCK * BlocksFor(out.Length) + mode.SeedSize()
    {
      Bits(out);
      var _ := Update(zeros);
    }

    /** What follows the reseeding of w. */
    method GenerateReseeded(out: array<byte>, zeros: seq<byte>, ghost w: Working, ghost entropy: seq<byte>,
                            ghost before: seq<Epoch>)
      requires Valid() && out != v && out.Length <= GENERATE_LIMIT && zeros == Repeat(0, mode.SeedSize())
      requires |entropy| == mode.SeedSize() && State() == Reseeded(E, mode, w, entropy)
      requires Closed(before, w, BlocksFor(mode.SeedSize()))
      modifies `key, `bytesUsed, `spent, `start, `used, `past, v, out
      ensures Valid() && used == []
      ensures (State(), out[..]) == Generated(E, mode, w, entropy, out.Length)
      ensures past == before + EpochsOf(E, mode, w, entropy, out.Length)
      ensures spent == old(spent) + BLOCK * BlocksFor(out.Length) + mode.SeedSize()
    {
      OutputThenUpdate(out, zeros);
      EpochsJoin(before, old(past)[|before|], past[|before| + 1]);
    }

    /**
     Refines reseed-then-generate of the standard: a request over the limit or without entropy
     changes nothing, and every other costs two rekeyings and the blocks of its output.
     */
    method Generate(out: array<byte>, entropy: Option<seq<byte>>) returns (ok: bool)
      requires Valid() && used == [] && out != v
      requires entropy.Some? ==> |entropy.value| == mode.SeedSize()
      modifies this`key, this`bytesUsed, this`spent, this`start, this`used, this`past, this`mixes, v, out
      ensures Valid() && used == [] && (ok <==> out.Length <= 8192 && entropy.Some?)
      ensures ok ==> (State(), out[..]) == Generated(E, mode, old(State()), entropy.value, out.Length)
      ensures ok ==> spent == old(spent) + 2 * mode.SeedSize() + BLOCK * BlocksFor(out.Length)
      ensures ok ==> mixes == (old(mixes) + 1) % (UINT64_MAX + 1)
      ensures ok ==> past == old(past) + EpochsOf(E, mode, old(State()), entropy.value, out.Length)
      ensures !ok ==> unchanged(this) && out[..] == old(out[..])
    {
      var zeros := Repeat(0, mode.SeedSize());
      if out.Length > GENERATE_LIMIT {
        return false;
      }
      ok := Mix(entropy, zeros);
      if !ok {
        return;
      }
      XorWithZeros(entropy.value, zeros);
      GenerateReseeded(out, zeros, old(State()), entropy.value, old(past));
    }
  }
}
