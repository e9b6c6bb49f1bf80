/**
 The stuffer: a byte buffer with read, write and high-water cursors. The assertions of a debug
 build are active, so every operation starts and ends in a valid state.
 */
module Stuffers {
  import opened Bytes

  const WIPE_PATTERN: byte := 119
  const MIN_GROWTH: nat := 1024

  function Max(a: int, b: int): (m: int) { if a < b then b else a }

  function Min(a: int, b: int): (m: int) { if a < b then a else b }

  /** s with the bytes from `at` on replaced by t. */
  function Splice(s: seq<byte>, at: nat, t: seq<byte>): (r: seq<byte>)
    requires at + |t| <= |s|
    ensures |r| == |s|
    ensures forall i :: 0 <= i < |s| ==> r[i] == if at <= i < at + |t| then t[i - at] else s[i]
  {
    s[..at] + t + s[at + |t|..]
  }

  /** The size of a blob that has to hold `end` bytes: growth is by at least 1k. */
  function SizeFor(size: nat, end: nat): (n: nat)
    ensures size <= n && end <= n
  {
    if end <= size then size else size + Max(end - size, MIN_GROWTH)
  }

  /** There is room for n bytes at a position, or the blob can grow to make it. */
  predicate Room(size: nat, at: nat, n: nat, mayGrow: bool) {
    at + n <= size || (mayGrow && SizeFor(size, at + n) <= UINT32_MAX)
  }

  /** In numbers. */
  lemma RoomIs(size: nat, at: nat, n: nat, mayGrow: bool)
    ensures at + n <= size ==> SizeFor(size, at + n) == size && Room(size, at, n, mayGrow)
    ensures at + n > size ==>
      var grown := if size + 1024 <= at + n then at + n else size + 1024;
      SizeFor(size, at + n) == grown && (Room(size, at, n, mayGrow) <==> mayGrow && grown <= 4294967295)
  {
  }

  /** Memory for a blob of size' bytes: the same, or more memory to which the blob of `size` bytes went over. */
  ghost predicate Moved(mem: seq<byte>, size: nat, mem': seq<byte>, size': nat) {
    && size <= |mem| && size <= size' <= |mem'| <= UINT32_MAX
    && (if size' <= |mem| then mem' == mem else mem'[..size] == mem[..size])
  }

  /** What was there before the bytes at `at` were stored in mem', if that is other memory than mem. */
  function Before(mem: seq<byte>, size: nat, mem': seq<byte>): (m: seq<byte>)
    requires size <= |mem| && size <= |mem'|
    ensures |m| == |mem'|
  {
    if |mem'| == |mem| then mem else mem[..size] + mem'[size..]
  }

  /** n bytes were reserved at a position and `data` stored there, in the same or in more memory. */
  ghost predicate Written(mem: seq<byte>, size: nat, at: nat, n: nat, data: seq<byte>, mem': seq<byte>, size': nat) {
    && at <= size <= |mem| && |data| <= n && size' == SizeFor(size, at + n) <= |mem'|
    && Moved(mem, size, Before(mem, size, mem'), size')
    && mem' == Splice(Before(mem, size, mem'), at, data)
  }

  lemma MovedIsWritten(mem: seq<byte>, size: nat, at: nat, n: nat, mem': seq<byte>, size': nat)
    requires at <= size && size' == SizeFor(size, at + n) && Moved(mem, size, mem', size')
    ensures Written(mem, size, at, n, [], mem', size')
  {
    if size' > |mem| {
      assert mem' == mem'[..size] + mem'[size..];
    }
  }

  lemma StoredIsWritten(mem: seq<byte>, size: nat, at: nat, n: nat, data: seq<byte>, mid: seq<byte>, size': nat)
    requires Written(mem, size, at, n, [], mid, size') && |data| <= n
    ensures Written(mem, size, at, n, data, Splice(mid, at, data), size')
  {
    var mem' := Splice(mid, at, data);
    assert mid == Before(mem, size, mid);
    if |mid| != |mem| {
      assert mem' == Splice(Before(mem, size, mem'), at, data);
    }
  }

  /** The contents up to the end of what was written. */
  lemma WrittenContents(mem: seq<byte>, size: nat, at: nat, n: nat, data: seq<byte>, mem': seq<byte>, size': nat)
    requires Written(mem, size, at, n, data, mem', size')
    ensures mem'[..at + |data|] == mem[..at] + data
    ensures at + n <= size ==> size' == size && mem' == Splice(mem, at, data)
  {
  }

  /** What wiping and erasing leave. */
  predicate IsConstant(b: byte) {
    b == WIPE_PATTERN || b == 0
  }

  /** All of a stuffer that its operations depend on. */
  datatype Cells = Cells(mem: seq<byte>, size: nat, read: nat, write: nat, highWater: nat,
                         growable: bool, tainted: bool)
  {
    predicate Ordered() {
      read <= write <= highWater <= size <= |mem| <= UINT32_MAX
    }
  }

  lemma SpliceAppend(s: seq<byte>, at: nat, t: seq<byte>, u: seq<byte>)
    requires at + |t| + |u| <= |s|
    ensures Splice(Splice(s, at, t), at + |t|, u) == Splice(s, at, t + u)
  {
  }

  lemma UnreadPrefix(mem: seq<byte>, read: nat, write: nat, n: nat)
    requires read + n <= write <= |mem|
    ensures mem[read..read + n] == mem[..write][read..][..n]
  {
  }

  /** Fresh memory: arbitrary bytes. */
  method Malloc(n: nat) returns (garbage: seq<byte>)
    ensures |garbage| == n
  {
    var a := new byte[n];
    garbage := a[..];
  }

  class Stuffer {
    /** The allocation; the blob is its first `size` bytes. */
    var mem: seq<byte>
    var size: nat
    var read: nat
    var write: nat
    var highWater: nat
    var alloced: bool
    var growable: bool
    var tainted: bool

    ghost predicate Valid()
      reads this
    {
      State().Ordered() && (growable ==> alloced)
    }

    /** All bytes written and not rewound. */
    ghost function Contents(): (s: seq<byte>)
      requires Valid()
      reads this
    {
      mem[..write]
    }

    /** The bytes waiting to be read. */
    ghost function Unread(): (s: seq<byte>)
      requires Valid()
      reads this
    {
      Contents()[read..]
    }

    function State(): (c: Cells)
      reads this
    {
      Cells(mem, size, read, write, highWater, growable, tainted)
    }

    /** Whether n more bytes can be written, growing by at least 1k where the buffer may grow. */
    predicate CanReserve(n: nat)
      reads this
    {
      Room(size, write, n, growable && !tainted)
    }

    /** n more bytes can be written, in as many pieces as one likes. */
    ghost predicate Accommodates(n: nat)
      requires Valid()
      reads this
    {
      n <= size - write || (growable && !tainted && write + n + MIN_GROWTH <= UINT32_MAX)
    }

    // ---------- creation ----------

    constructor Init(blob: seq<byte>)
      requires |blob| <= UINT32_MAX
      ensures Valid() && mem == blob && size == |blob| && Contents() == []
      ensures read == 0 && highWater == 0 && !alloced && !growable && !tainted
    {
      mem, size := blob, |blob|;
      read, write, highWater := 0, 0, 0;
      alloced, growable, tainted := false, false, false;
    }

    constructor Alloc(n: nat, canGrow: bool)
      requires n <= UINT32_MAX
      ensures Valid() && size == |mem| == n && Contents() == []
      ensures read == 0 && highWater == 0 && alloced && growable == canGrow && !tainted
    {
      var garbage := Malloc(n);
      mem, size := garbage, n;
      read, write, highWater := 0, 0, 0;
      alloced, growable, tainted := true, canGrow, false;
    }

    // ---------- wiping and resizing ----------

    method Wipe()
      requires Valid()
      modifies `mem, `tainted, `read, `write, `highWater
      ensures Valid() && Contents() == [] && highWater == 0 && !tainted
      ensures mem == Splice(old(mem), 0, Repeat(WIPE_PATTERN, old(highWater)))
    {
      mem := Splice(mem, 0, Repeat(WIPE_PATTERN, highWater));
      tainted, read, write, highWater := false, 0, 0, 0;
    }

    method WipeN(n: nat)
      requires Valid()
      modifies `mem, `tainted, `read, `write, `highWater
      ensures Valid()
      ensures Contents() == if n < old(write) then old(Contents())[..old(write) - n] else []
      ensures read == Min(old(read), write)
      ensures n < old(write) ==> highWater == old(highWater) && tainted == old(tainted)
      ensures n < old(write) ==> mem == Splice(old(mem), write, Repeat(WIPE_PATTERN, n))
      ensures n >= old(write) ==> highWater == 0 && !tainted
      ensures n >= old(write) ==> mem == Splice(old(mem), 0, Repeat(WIPE_PATTERN, old(highWater)))
    {
      if n >= write {
        Wipe();
        return;
      }
      write := write - n;
      mem := Splice(mem, write, Repeat(WIPE_PATTERN, n));
      read := Min(read, write);
    }

    /** Keeps the bytes of the blob; anything beyond them is the allocator's. */
    method Realloc(n: nat)
      requires Valid() && size <= n <= UINT32_MAX
      modifies `mem, `size
      ensures Valid() && size == n && Moved(old(mem), old(size), mem, n)
    {
      if n > |mem| {
        var capacity :| n <= capacity <= UINT32_MAX;
        var garbage := Malloc(capacity - size);
        mem := mem[..size] + garbage;
      }
      size := n;
    }

    method Resize(n: nat) returns (ok: bool)
      requires Valid() && n <= UINT32_MAX
      modifies this
      ensures Valid()
      ensures ok <==> !old(tainted) && growable
      ensures !ok ==> unchanged(this)
      ensures ok ==> size == n && Contents() == old(Contents())[..Min(old(write), n)]
      ensures ok ==> read == Min(old(read), n) && highWater == Min(old(highWater), n)
      ensures ok && old(size) <= n ==> Moved(old(mem), old(size), mem, n)
      ensures ok && 0 < n < old(size) ==> mem == Splice(old(mem), n, Repeat(WIPE_PATTERN, old(size) - n))
      ensures ok && 0 == n < old(size) ==> mem == []
      ensures growable == old(growable) && tainted == old(tainted) && alloced == old(alloced)
    {
      if tainted || !growable {
        return false;
      }
      if n == size {
        return true;
      }
      if n == 0 {
        Wipe();
        mem, size := [], 0;
        return true;
      }
      if n < size {
        Shrink(n);
      } else {
        Realloc(n);
        assert mem[..write] == mem[..old(size)][..write];
      }
      return true;
    }

    /** Wipes the tail that is given up, and cuts all cursors. */
    method Shrink(n: nat)
      requires Valid() && n < size
      modifies `mem, `size, `read, `write, `highWater
      ensures Valid() && size == n && mem == Splice(old(mem), n, Repeat(WIPE_PATTERN, old(size) - n))
      ensures read == Min(old(read), n) && write == Min(old(write), n) && highWater == Min(old(highWater), n)
      ensures Contents() == old(Contents())[..write]
    {
      mem := Splice(mem, n, Repeat(WIPE_PATTERN, size - n));
      read, write := Min(read, n), Min(write, n);
      highWater, size := Min(highWater, n), n;
    }

    method ReserveSpace(n: nat) returns (ok: bool)
      requires Valid() && n <= UINT32_MAX
      modifies `mem, `size
      ensures Valid()
      ensures ok <==> old(CanReserve(n))
      ensures !ok ==> unchanged(this)
      ensures n <= old(size) - write ==> unchanged(this)
      ensures ok ==> size == SizeFor(old(size), write + n) && Moved(old(mem), old(size), mem, size)
    {
      if size - write < n {
        if !growable {
          return false;
        }
        var newSize := size + Max(n - (size - write), MIN_GROWTH);
        if newSize > UINT32_MAX || tainted {
          return false;
        }
        Realloc(newSize);
      }
      return true;
    }

    // ---------- cursors ----------

    method Rewrite()
      requires Valid()
      modifies `read, `write
      ensures Valid() && Contents() == [] && read == 0
    {
      write, read := 0, 0;
    }

    method RewindRead(n: nat) returns (ok: bool)
      requires Valid()
      modifies `read
      ensures Valid()
      ensures ok <==> n <= old(read)
      ensures read == if ok then old(read) - n else old(read)
    {
      if read < n {
        return false;
      }
      read := read - n;
      return true;
    }

    method SkipRead(n: nat) returns (ok: bool)
      requires Valid()
      modifies `read
      ensures Valid()
      ensures ok <==> n <= |old(Unread())|
      ensures read == if ok then old(read) + n else old(read)
    {
      if write - read < n {
        return false;
      }
      read := read + n;
      return true;
    }

    method SkipWrite(n: nat) returns (ok: bool)
      requires Valid() && n <= UINT32_MAX
      modifies `mem, `size, `write, `highWater
      ensures Valid()
      ensures ok <==> old(CanReserve(n))
      ensures !ok ==> unchanged(this)
      ensures ok ==> write == old(write) + n && highWater == Max(old(highWater), write)
      ensures ok ==> Written(old(mem), old(size), old(write), n, [], mem, size)
      ensures ok ==> mem[..old(size)] == old(mem)[..old(size)]
    {
      ok := ReserveSpace(n);
      if !ok {
        return;
      }
      MovedIsWritten(old(mem), old(size), write, n, mem, size);
      write := write + n;
      highWater := Max(write, highWater);
    }

    // ---------- reading ----------

    /** Reading fails on a buffer without memory, even for zero bytes. */
    method ReadBytes(n: nat) returns (r: Option<seq<byte>>)
      requires Valid()
      modifies `read
      ensures Valid()
      ensures r == if n <= |old(Unread())| && mem != [] then Some(old(Unread())[..n]) else None
      ensures read == if r.Some? then old(read) + n else old(read)
    {
      var ok := SkipRead(n);
      if !ok || mem == [] {
        return None;
      }
      UnreadPrefix(mem, old(read), write, n);
      return Some(mem[read - n..read]);
    }

    /** Reading that also zeroes what was read. */
    method EraseAndReadBytes(n: nat) returns (r: Option<seq<byte>>)
      requires Valid()
      modifies `read, `mem
      ensures Valid()
      ensures r == if n <= |old(Unread())| && mem != [] then Some(old(Unread())[..n]) else None
      ensures read == if r.Some? then old(read) + n else old(read)
      ensures mem == if r.Some? then Splice(old(mem), old(read), Repeat(0, n)) else old(mem)
    {
      var ok := SkipRead(n);
      if !ok || mem == [] {
        return None;
      }
      r := Some(mem[read - n..read]);
      UnreadPrefix(mem, old(read), write, n);
      mem := Splice(mem, read - n, Repeat(0, n));
    }

    /** A raw read hands out a pointer into the buffer, which must then stay where it is. */
    method RawRead(n: nat) returns (r: Option<seq<byte>>)
      requires Valid()
      modifies `read, `tainted
      ensures Valid()
      ensures r == if n <= |old(Unread())| then Some(old(Unread())[..n]) else None
      ensures read == if r.Some? then old(read) + n else old(read)
      ensures tainted == (old(tainted) || r.Some?)
    {
      var ok := SkipRead(n);
      if !ok {
        return None;
      }
      tainted := true;
      UnreadPrefix(mem, old(read), write, n);
      return Some(mem[read - n..read]);
    }

    // ---------- writing ----------

    /** Stores bytes below the high-water mark. */
    method Store(at: nat, data: seq<byte>)
      requires Valid() && at + |data| <= highWater
      modifies `mem
      ensures Valid() && mem == Splice(old(mem), at, data)
    {
      mem := Splice(mem, at, data);
    }

    method WriteBytes(data: seq<byte>) returns (ok: bool)
      requires Valid() && |data| <= UINT32_MAX
      modifies `mem, `size, `write, `highWater
      ensures Valid()
      ensures ok <==> old(CanReserve(|data|))
      ensures !ok ==> unchanged(this)
      ensures ok ==> Contents() == old(Contents()) + data
      ensures ok ==> highWater == Max(old(highWater), write)
      ensures ok ==> Written(old(mem), old(size), old(write), |data|, data, mem, size)
    {
      ok := SkipWrite(|data|);
      if !ok {
        return;
      }
      StoredIsWritten(old(mem), old(size), old(write), |data|, data, mem, size);
      Store(write - |data|, data);
      WrittenContents(old(mem), old(size), old(write), |data|, data, mem, size);
    }

    /** A raw write hands out n bytes at the end of the contents for the caller to fill in. */
    method RawWrite(n: nat) returns (ok: bool)
      requires Valid() && n <= UINT32_MAX
      modifies `mem, `size, `write, `highWater, `tainted
      ensures Valid()
      ensures ok <==> old(CanReserve(n))
      ensures !ok ==> unchanged(this)
      ensures ok ==> write == old(write) + n && highWater == Max(old(highWater), write) && tainted
      ensures ok ==> Written(old(mem), old(size), old(write), n, [], mem, size)
    {
      ok := SkipWrite(n);
      if ok {
        tainted := true;
      }
    }

    /** Gathers n bytes, from offset `offs` of the concatenated pieces, into the buffer. */
    method WritevBytes(iov: seq<seq<byte>>, offs: nat, n: nat) returns (ok: bool)
      requires Valid() && n <= UINT32_MAX
      modifies `mem, `size, `write, `highWater, `tainted
      ensures Valid()
      ensures !old(CanReserve(n)) ==> !ok && unchanged(this)
      ensures old(CanReserve(n)) && (forall i :: 0 <= i < |iov| ==> |iov[i]| <= UINT32_MAX) ==> ok
      ensures ok ==> write == old(write) + n && highWater == Max(old(highWater), write) && tainted
      ensures ok ==> Written(old(mem), old(size), old(write), n, Gathered(Concat(iov), offs, n), mem, size)
      ensures ok && offs + n <= |Concat(iov)| ==> Contents() == old(Contents()) + Concat(iov)[offs..offs + n]
    {
      ok := RawWrite(n);
      if !ok {
        return;
      }
      ghost var reserved, data := mem, Gathered(Concat(iov), offs, n);
      ok := Gather(write - n, iov, offs, n);
      if ok {
        StoredIsWritten(old(mem), old(size), old(write), n, data, reserved, size);
        WrittenContents(old(mem), old(size), old(write), n, data, mem, size);
      }
    }

    method Gather(start: nat, iov: seq<seq<byte>>, offs: nat, n: nat) returns (ok: bool)
      requires Valid() && start + n <= highWater
      modifies `mem
      ensures Valid()
      ensures (forall i :: 0 <= i < |iov| ==> |iov[i]| <= UINT32_MAX) ==> ok
      ensures ok ==> mem == Splice(old(mem), start, Gathered(Concat(iov), offs, n))
    {
      var sizeLeft, toSkip, at := n, offs, start;
      ghost var done: seq<byte> := [];
      for i := 0 to |iov|
        invariant Valid() && |mem| == |old(mem)|
        invariant done == Gathered(Concat(iov[..i]), offs, n)
        invariant toSkip == Max(0, offs - |Concat(iov[..i])|)
        invariant |done| == n - sizeLeft == at - start
        invariant mem == Splice(old(mem), start, done)
      {
        ghost var before := Concat(iov[..i]);
        assert Concat(iov[..i + 1]) == before + iov[i] by {
          assert iov[..i + 1][..i] == iov[..i];
        }
        if toSkip >= |iov[i]| {
          GatheredSkip(before, iov[i], offs, n);
          toSkip := toSkip - |iov[i]|;
          continue;
        }
        if |iov[i]| - toSkip > UINT32_MAX {
          return false;
        }
        var take := Min(sizeLeft, |iov[i]| - toSkip);
        var piece := iov[i][toSkip..toSkip + take];
        GatheredTake(before, iov[i], offs, n, toSkip, take);
        SpliceAppend(old(mem), start, done, piece);
        Store(at, piece);
        done := done + piece;
        sizeLeft, at, toSkip := sizeLeft - take, at + take, 0;
        if sizeLeft == 0 {
          ConcatPrefix(iov, i + 1);
          GatheredFull(Concat(iov[..i + 1]), Concat(iov), offs, n);
          return true;
        }
      }
      assert iov[..|iov|] == iov;
      return true;
    }
  }

  // ---------- two stuffers ----------

  /** Moves n bytes. A failed copy leaves both queues as they were. */
  method Copy(from: Stuffer, to: Stuffer, n: nat) returns (ok: bool)
    requires from != to && from.Valid() && to.Valid() && n <= UINT32_MAX
    modifies from`read, to`mem, to`size, to`write, to`highWater
    ensures from.Valid() && to.Valid()
    ensures ok <==> n <= |old(from.Unread())| && old(to.CanReserve(n))
    ensures ok ==> from.Unread() == old(from.Unread())[n..]
    ensures ok ==> to.Contents() == old(to.Contents()) + old(from.Unread())[..n]
    ensures ok ==> to.highWater == Max(old(to.highWater), to.write)
    ensures ok ==>
      Written(old(to.mem), old(to.size), old(to.write), n, old(from.Unread())[..n], to.mem, to.size)
    ensures !ok ==> unchanged(from) && unchanged(to)
  {
    var origRead, origWrite := from.read, to.write;
    ok := CopyImpl(from, to, n);
    if !ok {
      from.read := origRead;
      to.write := origWrite;
    }
  }

  method CopyImpl(from: Stuffer, to: Stuffer, n: nat) returns (ok: bool)
    requires from != to && from.Valid() && to.Valid() && n <= UINT32_MAX
    modifies from`read, to`mem, to`size, to`write, to`highWater
    ensures from.Valid() && to.Valid()
    ensures ok <==> n <= |old(from.Unread())| && old(to.CanReserve(n))
    ensures ok ==> from.read == old(from.read) + n
    ensures ok ==> to.Contents() == old(to.Contents()) + old(from.Unread())[..n]
    ensures ok ==> to.highWater == Max(old(to.highWater), to.write)
    ensures ok ==>
      Written(old(to.mem), old(to.size), old(to.write), n, old(from.Unread())[..n], to.mem, to.size)
    ensures !ok ==> unchanged(to)
  {
    ok := from.SkipRead(n);
    if !ok {
      return;
    }
    UnreadPrefix(from.mem, old(from.read), from.write, n);
    var data := from.mem[from.read - n..from.read];
    assert data == old(from.Unread())[..n];
    ok := to.WriteBytes(data);
  }

  /** The bytes of s from `offs` on, at most n of them. */
  function Gathered(s: seq<byte>, offs: nat, n: nat): (t: seq<byte>)
    ensures |t| <= n
  {
    if |s| <= offs then [] else s[offs..Min(|s|, offs + n)]
  }

  lemma GatheredSkip(s: seq<byte>, piece: seq<byte>, offs: nat, n: nat)
    requires |piece| <= Max(0, offs - |s|)
    ensures Gathered(s + piece, offs, n) == Gathered(s, offs, n)
  {
    if piece == [] {
      assert s + piece == s;
    }
  }

  lemma GatheredTake(s: seq<byte>, piece: seq<byte>, offs: nat, n: nat, skip: nat, take: nat)
    requires skip == Max(0, offs - |s|) < |piece|
    requires take == Min(n - |Gathered(s, offs, n)|, |piece| - skip)
    ensures Gathered(s + piece, offs, n) == Gathered(s, offs, n) + piece[skip..skip + take]
  {
  }

  lemma GatheredFull(s: seq<byte>, t: seq<byte>, offs: nat, n: nat)
    requires s <= t && |Gathered(s, offs, n)| == n
    ensures Gathered(t, offs, n) == Gathered(s, offs, n)
  {
  }
}
