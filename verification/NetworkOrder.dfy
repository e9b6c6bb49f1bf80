/** Network-order integers and length reservations on a stuffer. */
module NetworkOrder {
  import opened Bytes
  import opened Stuffers

  // ---------- integers ----------

  /** Byte i of n, as `(input >> shift) & UINT8_MAX` takes it. */
  function ShiftedByte(input: nat, n: nat, i: nat): (b: byte)
    requires i < n
    ensures b == ToBE(input, n)[i]
  {
    ToBEByte(input, n, i);
    input / Pow256(n - i - 1) % 256
  }

  /** Writes the low `length` bytes of the input; higher ones are dropped silently. */
  method WriteNetworkOrder(s: Stuffer, input: nat, length: nat) returns (ok: bool)
    requires s.Valid() && input <= UINT64_MAX && length <= 255
    modifies s`mem, s`size, s`write, s`highWater
    ensures s.Valid()
    ensures ok <==> length <= 8 && old(s.CanReserve(length))
    ensures !ok ==> unchanged(s)
    ensures ok ==> s.write == old(s.write) + length && s.highWater == Max(old(s.highWater), s.write)
    ensures ok ==> s.Contents() == old(s.Contents()) + ToBE(input, length)
    ensures ok ==> Written(old(s.mem), old(s.size), old(s.write), length, ToBE(input, length), s.mem, s.size)
  {
    if length > 8 {
      return false;
    }
    ok := s.SkipWrite(length);
    if !ok {
      return;
    }
    StoredIsWritten(old(s.mem), old(s.size), old(s.write), length, ToBE(input, length), s.mem, s.size);
    StoreNumber(s, s.write - length, input, length);
    WrittenContents(old(s.mem), old(s.size), old(s.write), length, ToBE(input, length), s.mem, s.size);
  }

  /** One byte at a time, most significant first. */
  method StoreNumber(s: Stuffer, start: nat, input: nat, length: nat)
    requires s.Valid() && start + length <= s.highWater
    modifies s`mem
    ensures s.Valid() && s.mem == Splice(old(s.mem), start, ToBE(input, length))
  {
    for i := 0 to length
      invariant s.Valid() && s.mem == Splice(old(s.mem), start, ToBE(input, length)[..i])
    {
      SpliceAppend(old(s.mem), start, ToBE(input, length)[..i], [ShiftedByte(input, length, i)]);
      assert ToBE(input, length)[..i + 1] == ToBE(input, length)[..i] + [ShiftedByte(input, length, i)];
      s.Store(start + i, [ShiftedByte(input, length, i)]);
    }
    assert ToBE(input, length)[..length] == ToBE(input, length);
  }

  lemma OrByte(u: nat, b: byte)
    ensures Or(256 * u, b) == 256 * u + b
  {
    OrDisjoint(u, b, 8);
    assert Pow2(8) == 256;
  }

  method ReadUint16(s: Stuffer) returns (r: Option<nat>)
    requires s.Valid()
    modifies s`read
    ensures s.Valid()
    ensures r == if 2 <= |old(s.Unread())| then Some(BE(old(s.Unread())[..2])) else None
    ensures s.read == if r.Some? then old(s.read) + 2 else old(s.read)
  {
    var data := s.ReadBytes(2);
    if data.None? {
      return None;
    }
    var d := data.value;
    OrByte(d[0], d[1]);
    BE2(d);
    return Some(Or(d[0] as int * 0x100, d[1]));
  }

  lemma Or24(a: byte, b: byte, c: byte)
    ensures Or(Or(a as int * 0x1_0000, b as int * 0x100), c) == 0x1_0000 * a as int + 0x100 * b as int + c
  {
    assert Pow2(12) == 0x1000 && Pow2(16) == 0x1_0000;
    OrDisjoint(a, 0x100 * b as int, 16);
    OrByte(0x100 * a as int + b, c);
  }

  method ReadUint24(s: Stuffer) returns (r: Option<nat>)
    requires s.Valid()
    modifies s`read
    ensures s.Valid()
    ensures r == if 3 <= |old(s.Unread())| then Some(BE(old(s.Unread())[..3])) else None
    ensures s.read == if r.Some? then old(s.read) + 3 else old(s.read)
  {
    var data := s.ReadBytes(3);
    if data.None? {
      return None;
    }
    var d := data.value;
    Or24(d[0], d[1], d[2]);
    BE3(d);
    return Some(Or(Or(d[0] as int * 0x1_0000, d[1] as int * 0x100), d[2]));
  }

  lemma BE2(d: seq<byte>)
    requires |d| == 2
    ensures BE(d) == 0x100 * d[0] as int + d[1]
  {
    assert d[..1] == [d[0]];
    assert BE([d[0]]) == d[0] by { assert [d[0]][..0] == []; }
  }

  lemma BE3(d: seq<byte>)
    requires |d| == 3
    ensures BE(d) == 0x1_0000 * d[0] as int + 0x100 * d[1] as int + d[2]
  {
    assert d[..2] == [d[0], d[1]];
    BE2(d[..2]);
  }

  // ---------- reservations ----------

  /** A reservation remembers an offset, so it survives growth of the buffer. */
  datatype Reservation = Reservation(writeCursor: nat, length: nat)

  ghost predicate Reserved(s: Stuffer, r: Reservation)
    requires s.Valid()
    reads s
  {
    r.length <= 255 && r.writeCursor + r.length <= s.write
  }

  method Reserve(s: Stuffer, length: nat) returns (r: Option<Reservation>)
    requires s.Valid() && length <= 255
    modifies s`mem, s`size, s`write, s`highWater
    ensures s.Valid()
    ensures r.Some? <==> old(s.CanReserve(length))
    ensures r.None? ==> unchanged(s)
    ensures r.Some? ==> r.value == Reservation(old(s.write), length) && Reserved(s, r.value)
    ensures r.Some? ==> s.Contents() == old(s.Contents()) + Repeat(WIPE_PATTERN, length)
    ensures r.Some? ==> s.highWater == Max(old(s.highWater), s.write)
    ensures r.Some? ==>
      Written(old(s.mem), old(s.size), old(s.write), length, Repeat(WIPE_PATTERN, length), s.mem, s.size)
  {
    var reservation := Reservation(s.write, length);
    var ok := s.SkipWrite(length);
    if !ok {
      return None;
    }
    ghost var pattern := Repeat(WIPE_PATTERN, length);
    StoredIsWritten(old(s.mem), old(s.size), old(s.write), length, pattern, s.mem, s.size);
    s.Store(reservation.writeCursor, Repeat(WIPE_PATTERN, length));
    WrittenContents(old(s.mem), old(s.size), old(s.write), length, pattern, s.mem, s.size);
    return Some(reservation);
  }

  /** A reservation for the length of a body of n bytes. */
  method ReserveFor(s: Stuffer, width: nat, ghost n: nat) returns (r: Option<Reservation>)
    requires s.Valid() && width <= 255
    modifies s`mem, s`size, s`write, s`highWater
    ensures s.Valid() && old(s.size) <= s.size
    ensures old(s.Accommodates(width + n)) ==> r.Some? && s.Accommodates(n)
    ensures r.Some? ==>
      r.value == Reservation(old(s.write), width) && s.Contents() == old(s.Contents()) + Repeat(WIPE_PATTERN, width)
  {
    r := Reserve(s, width);
  }

  /** Whether a value can be stored in so many bytes. */
  function LengthMatchesValue(value: nat, length: nat): (ok: bool)
    requires value <= UINT32_MAX
    ensures ok <==> length <= 4 && value < Pow256(length)
  {
    assert Pow256(1) == 256 && Pow256(2) == 0x1_0000 && Pow256(3) == 0x100_0000 && Pow256(4) == 0x1_0000_0000;
    length <= 4 && (length < 4 ==> value < [1, 0x100, 0x1_0000, 0x100_0000][length])
  }

  /** Whether the stuffer still has the bytes of a reservation; after a rewind it may not. */
  predicate ReservationValid(c: Cells, r: Reservation) {
    r.length <= c.size && (r.length > 0 ==> r.writeCursor < c.write)
  }

  /** With the write cursor back at the reservation the stuffer is valid, the value fits, and there is room. */
  predicate CanFill(c: Cells, r: Reservation, u: nat) {
    && ReservationValid(c, r) && c.read <= r.writeCursor <= c.highWater
    && r.length <= 4 && u < Pow256(r.length) && Room(c.size, r.writeCursor, r.length, c.growable && !c.tainted)
  }

  /** Fills in a reservation at its own cursor and puts the write cursor back. */
  method FillReservation(s: Stuffer, r: Reservation, u: nat) returns (ok: bool)
    requires s.Valid() && r.length <= 255 && u <= UINT32_MAX
    modifies s`mem, s`size, s`write, s`highWater
    ensures s.Valid() && s.write == old(s.write)
    ensures ok <==> CanFill(old(s.State()), r, u)
    ensures !ok ==> unchanged(s)
    ensures ok ==> s.highWater == Max(old(s.highWater), r.writeCursor + r.length)
    ensures ok ==> Written(old(s.mem), old(s.size), r.writeCursor, r.length, ToBE(u, r.length), s.mem, s.size)
  {
    if !ReservationValid(s.State(), r) || s.read > r.writeCursor || r.writeCursor > s.highWater {
      return false;
    }
    var oldWrite := s.write;
    ok := WriteReservationImpl(s, r, u);
    s.write := oldWrite;
  }

  /**
   A filled-in reservation: of the contents only its bytes change. Bytes of it that a rewind has cut off
   end up beyond the contents.
   */
  method WriteReservation(s: Stuffer, r: Reservation, u: nat) returns (ok: bool)
    requires s.Valid() && r.length <= 255 && u <= UINT32_MAX
    modifies s`mem, s`size, s`write, s`highWater
    ensures s.Valid() && s.write == old(s.write)
    ensures ok <==> CanFill(old(s.State()), r, u)
    ensures !ok ==> unchanged(s)
    ensures ok && r.length > 0 ==>
      var kept := Min(r.length, s.write - r.writeCursor);
      s.Contents() == Splice(old(s.Contents()), r.writeCursor, ToBE(u, r.length)[..kept])
    ensures ok && r.length == 0 ==> s.Contents() == old(s.Contents())
    ensures ok ==> s.highWater == Max(old(s.highWater), r.writeCursor + r.length)
    ensures ok ==> Written(old(s.mem), old(s.size), r.writeCursor, r.length, ToBE(u, r.length), s.mem, s.size)
  {
    ok := FillReservation(s, r, u);
    if ok && r.length > 0 {
      FilledContents(old(s.mem), old(s.size), r.writeCursor, s.write, ToBE(u, r.length), s.mem, s.size);
    }
  }

  /** Writes at the reservation's cursor, and leaves the write cursor there. */
  method WriteReservationImpl(s: Stuffer, r: Reservation, u: nat) returns (ok: bool)
    requires s.Valid() && r.length <= 255 && u <= UINT32_MAX && s.read <= r.writeCursor <= s.highWater
    modifies s`mem, s`size, s`write, s`highWater
    ensures s.Valid()
    ensures var room := old(Room(s.size, r.writeCursor, r.length, s.growable && !s.tainted));
      ok <==> r.length <= 4 && u < Pow256(r.length) && room
    ensures ok ==> s.highWater == Max(old(s.highWater), r.writeCursor + r.length)
    ensures ok ==> Written(old(s.mem), old(s.size), r.writeCursor, r.length, ToBE(u, r.length), s.mem, s.size)
    ensures !ok ==> unchanged(s`mem, s`size, s`highWater)
  {
    s.write := r.writeCursor;
    if !LengthMatchesValue(u, r.length) {
      return false;
    }
    ok := WriteNetworkOrder(s, u, r.length);
  }

  /** What a write at `at` makes of the contents up to w, in place or into larger memory. */
  lemma FilledContents(mem: seq<byte>, size: nat, at: nat, w: nat, data: seq<byte>, mem': seq<byte>, size': nat)
    requires at <= w <= size && Written(mem, size, at, |data|, data, mem', size')
    ensures mem'[..w] == Splice(mem[..w], at, data[..Min(|data|, w - at)])
  {
    WrittenContents(mem, size, at, |data|, data, mem', size');
    if at + |data| > size {
      assert mem'[..w] == mem'[..at + |data|][..w];
    }
  }

  /** Stores the number of bytes written since the reservation. */
  method WriteVectorSize(s: Stuffer, r: Reservation) returns (ok: bool)
    requires s.Valid() && r.length <= 255
    modifies s`mem, s`size, s`write, s`highWater
    ensures s.Valid() && s.write == old(s.write) && s.highWater == old(s.highWater) && s.size == old(s.size)
    ensures var body := s.write - r.writeCursor - r.length;
      && (ok <==> 0 <= body && s.read <= r.writeCursor && r.length <= 4 && body < Pow256(r.length))
      && (ok ==> s.Contents() == Splice(old(s.Contents()), r.writeCursor, ToBE(body, r.length)))
      && (ok ==> s.mem == Splice(old(s.mem), r.writeCursor, ToBE(body, r.length)))
    ensures !ok ==> unchanged(s)
  {
    if s.write < r.writeCursor || s.write - r.writeCursor < r.length {
      return false;
    }
    ghost var body := s.write - r.writeCursor - r.length;
    ok := WriteReservation(s, r, s.write - r.writeCursor - r.length);
    if ok {
      WrittenContents(old(s.mem), old(s.size), r.writeCursor, r.length, ToBE(body, r.length), s.mem, s.size);
    }
  }

  lemma SpliceMiddle(a: seq<byte>, b: seq<byte>, c: seq<byte>, t: seq<byte>)
    requires |t| == |b|
    ensures Splice(a + b + c, |a|, t) == a + (t + c)
  {
  }

  /** Closes a vector whose body has just been written: it fails exactly if the body does not fit its prefix. */
  method CloseVector(s: Stuffer, r: Reservation, ghost before: seq<byte>, ghost body: seq<byte>) returns (ok: bool)
    requires s.Valid() && r == Reservation(|before|, r.length) && r.length <= 255 && s.read <= |before|
    requires s.Contents() == before + Repeat(WIPE_PATTERN, r.length) + body
    modifies s`mem, s`size, s`write, s`highWater
    ensures s.Valid() && s.size == old(s.size)
    ensures ok <==> r.length <= 4 && |body| < Pow256(r.length)
    ensures ok ==> s.Contents() == before + (ToBE(|body|, r.length) + body)
  {
    SpliceMiddle(before, Repeat(WIPE_PATTERN, r.length), body, ToBE(|body|, r.length));
    ok := WriteVectorSize(s, r);
  }

  // ---------- nested vectors ----------

  type Chunk = s: seq<byte> | |s| <= UINT32_MAX

  /** A message body: raw bytes and length-prefixed vectors, nested to any depth. */
  datatype Body =
    | End
    | Raw(data: Chunk, rest: Body)
    | Vector(width: byte, inner: Body, rest: Body)

  /** The presentation language's encoding (section 3.4 of RFC 8446), if every vector fits its prefix. */
  function Encode(b: Body): (e: Option<seq<byte>>)
  {
    match b
    case End => Some([])
    case Raw(data, rest) =>
      var r := Encode(rest);
      if r.None? then None else Some(data + r.value)
    case Vector(width, inner, rest) =>
      var i, r := Encode(inner), Encode(rest);
      if i.None? || r.None? || width > 4 || |i.value| >= Pow256(width) then None
      else Some(ToBE(|i.value|, width) + i.value + r.value)
  }

  /**
   A reader that follows the lengths: the body starts at i and ends at j. The number in the prefix of a
   vector says where it ends.
   */
  ghost predicate Reads(t: seq<byte>, i: nat, b: Body, j: nat)
    decreases b
  {
    match b
    case End => i == j <= |t|
    case Raw(data, rest) => i + |data| <= |t| && t[i..i + |data|] == data && Reads(t, i + |data|, rest, j)
    case Vector(width, inner, rest) =>
      && width <= 4 && i + width <= |t|
      && (var end := i + width + BE(t[i..i + width]); Reads(t, i + width, inner, end) && Reads(t, end, rest, j))
  }

  ghost predicate HoldsAt(t: seq<byte>, i: nat, e: seq<byte>, j: nat) {
    i + |e| == j <= |t| && t[i..j] == e
  }

  lemma HoldsTwo(t: seq<byte>, i: nat, a: seq<byte>, b: seq<byte>, j: nat)
    ensures HoldsAt(t, i, a + b, j) <==> HoldsAt(t, i, a, i + |a|) && HoldsAt(t, i + |a|, b, j)
  {
    if i + |a + b| == j <= |t| {
      assert t[i..j] == t[i..i + |a|] + t[i + |a|..j];
      assert (a + b)[..|a|] == a && (a + b)[|a|..] == b;
      assert t[i..j][..|a|] == t[i..i + |a|] && t[i..j][|a|..] == t[i + |a|..j];
    }
  }

  lemma PrefixIs(t: seq<byte>, i: nat, width: nat, n: nat)
    requires i + width <= |t| && width <= 4
    ensures BE(t[i..i + width]) == n <==> n < Pow256(width) && t[i..i + width] == ToBE(n, width)
  {
    var p := t[i..i + width];
    BEBound(p);
    ToBEBE(p);
    if n < Pow256(width) {
      ReadsBack(n, width);
    }
  }

  /** A text reads as a body exactly if it holds its encoding there. */
  lemma {:induction false} ReadsIff(t: seq<byte>, i: nat, b: Body, j: nat)
    ensures Reads(t, i, b, j) <==> Encode(b).Some? && HoldsAt(t, i, Encode(b).value, j)
    decreases b
  {
    match b
    case End =>
    case Raw(data, rest) =>
      ReadsIff(t, i + |data|, rest, j);
      if Encode(rest).Some? {
        HoldsTwo(t, i, data, Encode(rest).value, j);
      }
    case Vector(width, inner, rest) =>
      VectorReadsIff(t, i, width, inner, rest, j);
  }

  lemma {:induction false} VectorReadsIff(t: seq<byte>, i: nat, width: byte, inner: Body, rest: Body, j: nat)
    ensures var b := Vector(width, inner, rest);
      Reads(t, i, b, j) <==> Encode(b).Some? && HoldsAt(t, i, Encode(b).value, j)
    decreases Vector(width, inner, rest), 0
  {
    var mid := i + width;
    if width <= 4 && mid <= |t| {
      var end := mid + BE(t[i..mid]);
      ReadsIff(t, mid, inner, end);
      ReadsIff(t, end, rest, j);
      EncodedHolds(t, i, width, inner, rest, mid, end, j);
    }
  }

  /** The same of the encodings. */
  lemma EncodedHolds(t: seq<byte>, i: nat, width: byte, inner: Body, rest: Body, mid: nat, end: nat, j: nat)
    requires width <= 4 && mid == i + width <= |t| && end == mid + BE(t[i..mid])
    ensures var e, r, v := Encode(inner), Encode(rest), Encode(Vector(width, inner, rest));
      (v.Some? && HoldsAt(t, i, v.value, j)) <==>
      (e.Some? && HoldsAt(t, mid, e.value, end)) && (r.Some? && HoldsAt(t, end, r.value, j))
  {
    var e, r := Encode(inner), Encode(rest);
    if e.Some? && r.Some? {
      PrefixedHolds(t, i, width, ToBE(|e.value|, width), e.value, r.value, mid, end, j);
    }
  }

  lemma PrefixedHolds(t: seq<byte>, i: nat, width: nat, n: seq<byte>, e: seq<byte>, r: seq<byte>, mid: nat, end: nat,
                      j: nat)
    requires width <= 4 && mid == i + width <= |t| && end == mid + BE(t[i..mid]) && n == ToBE(|e|, width)
    ensures HoldsAt(t, mid, e, end) && HoldsAt(t, end, r, j) <==> |e| < Pow256(width) && HoldsAt(t, i, n + e + r, j)
  {
    var fits := |e| < Pow256(width);
    assert end == mid + |e| <==> fits && t[i..mid] == n by { PrefixIs(t, i, width, |e|); }
    VectorHolds(t, i, n, fits, e, r, mid, end, j);
  }

  /** n is the prefix that e should have, and `fits` whether there is one. */
  lemma VectorHolds(t: seq<byte>, i: nat, n: seq<byte>, fits: bool, e: seq<byte>, r: seq<byte>, mid: nat, end: nat,
                    j: nat)
    requires mid == i + |n| <= |t| && (end == mid + |e| <==> fits && t[i..mid] == n)
    ensures HoldsAt(t, mid, e, end) && HoldsAt(t, end, r, j) <==> fits && HoldsAt(t, i, n + e + r, j)
  {
    HoldsTwo(t, i, n + e, r, j);
    HoldsTwo(t, i, n, e, i + |n + e|);
  }

  /**
   Reserve, write the body, close: any properly nested use yields exactly the recursive encoding,
   and a growable stuffer with room below 2^32 refuses only what has no encoding.
   */
  method WriteBody(s: Stuffer, b: Body) returns (ok: bool)
    requires s.Valid()
    modifies s`mem, s`size, s`write, s`highWater
    ensures s.Valid()
    ensures ok ==> Encode(b).Some? && s.Contents() == old(s.Contents()) + Encode(b).value
    ensures old(s.size) <= s.size
    ensures Encode(b).Some? && old(s.Accommodates(|Encode(b).value|)) ==> ok
    decreases b, 0
  {
    match b
    case End =>
      return true;
    case Raw(data, rest) =>
      ok := s.WriteBytes(data);
      if ok {
        ok := WriteAfter(s, rest, old(s.Contents()), data, old(s.size));
      }
    case Vector(width, inner, rest) =>
      ok := WriteVector(s, width, inner);
      if ok {
        ghost var prefixed := ToBE(|Encode(inner).value|, width) + Encode(inner).value;
        ok := WriteAfter(s, rest, old(s.Contents()), prefixed, old(s.size));
      }
  }

  /** The rest of a body, after its first piece. */
  method WriteAfter(s: Stuffer, rest: Body, ghost before: seq<byte>, ghost piece: seq<byte>, ghost size: nat)
    returns (ok: bool)
    requires s.Valid() && s.Contents() == before + piece && size <= s.size
    modifies s`mem, s`size, s`write, s`highWater
    ensures s.Valid() && size <= s.size
    ensures ok ==> Encode(rest).Some? && s.Contents() == before + (piece + Encode(rest).value)
    ensures Encode(rest).Some? && old(s.Accommodates(|Encode(rest).value|)) ==> ok
    decreases rest, 1
  {
    ok := WriteBody(s, rest);
    if ok {
      Assoc(before, piece, Encode(rest).value);
    }
  }

  method WriteVector(s: Stuffer, width: byte, inner: Body) returns (ok: bool)
    requires s.Valid()
    modifies s`mem, s`size, s`write, s`highWater
    ensures s.Valid()
    ensures ok ==> Encode(inner).Some? && width <= 4 && |Encode(inner).value| < Pow256(width)
    ensures ok ==> s.Contents() == old(s.Contents()) + (ToBE(|Encode(inner).value|, width) + Encode(inner).value)
    ensures old(s.size) <= s.size
    ensures
      && Encode(inner).Some? && width <= 4 && |Encode(inner).value| < Pow256(width)
      && old(s.Accommodates(width + |Encode(inner).value|))
      ==> ok
    decreases inner, 1
  {
    var reservation := ReserveFor(s, width, if Encode(inner).Some? then |Encode(inner).value| else 0);
    if reservation.None? {
      return false;
    }
    ok := WriteBody(s, inner);
    if !ok {
      return;
    }
    ok := CloseVector(s, reservation.value, old(s.Contents()), Encode(inner).value);
  }
}
