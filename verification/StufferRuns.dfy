/** Whole runs of stuffer operations: the queue they refine, and what a wipe leaves behind. */
module StufferRuns {
  import opened Bytes
  import opened Stuffers
  import opened NetworkOrder

  // ---------- stuffers are queues ----------

  datatype QueueOp =
    | Put(data: Chunk)
    | PutGathered(iov: seq<Chunk>, offs: nat, n: nat)
    | Fetch(count: nat)
    | CopyOut(count: nat)
    | CopyIn(count: nat)

  predicate RangeExists(op: QueueOp) {
    && (op.PutGathered? ==> op.n <= UINT32_MAX && op.offs + op.n <= |Concat(op.iov)|)
    && (op.CopyOut? || op.CopyIn? ==> op.count <= UINT32_MAX)
  }

  /** A queue, and what decides whether it admits more: cursors, and whether it may grow or has any memory. */
  datatype Pipe = Pipe(queue: seq<byte>, size: nat, write: nat, mayGrow: bool, hasMemory: bool)
  {
    predicate Admits(n: nat) {
      Room(size, write, n, mayGrow)
    }

    /** Raw access forbids growth from then on. */
    function Push(data: seq<byte>, raw: bool): (p: Pipe)
    {
      var end := write + |data|;
      Pipe(queue + data, SizeFor(size, end), end, mayGrow && !raw, hasMemory || size < end)
    }

    function Pop(n: nat): (p: Pipe)
      requires n <= |queue|
    {
      this.(queue := queue[n..])
    }
  }

  /** Two queues, what was read from the first, all that ever left and entered it, and what succeeded. */
  datatype Queues = Queues(first: Pipe, second: Pipe, taken: seq<byte>, left: seq<byte>, entered: seq<byte>,
                           oks: seq<bool>)
  {
    predicate Accepts(op: QueueOp) {
      match op
      case Put(data) => first.Admits(|data|)
      case PutGathered(_, _, n) => first.Admits(n)
      case Fetch(n) => n <= |first.queue| && first.hasMemory
      case CopyOut(n) => n <= |first.queue| && second.Admits(n)
      case CopyIn(n) => n <= |second.queue| && first.Admits(n)
    }

    function Enqueue(data: seq<byte>, raw: bool): (q: Queues)
    {
      this.(first := first.Push(data, raw), entered := entered + data)
    }

    function Dequeue(n: nat): (q: Queues)
      requires n <= |first.queue|
    {
      this.(first := first.Pop(n), left := left + first.queue[..n])
    }
  }

  /** An operation that fails changes nothing. */
  function QueueNext(q: Queues, op: QueueOp): (q': Queues)
    requires RangeExists(op)
  {
    var ok := q.Accepts(op);
    var q' :=
      if !ok then q else
        match op
        case Put(data) => q.Enqueue(data, false)
        case PutGathered(iov, offs, n) => q.Enqueue(Concat(iov)[offs..offs + n], true)
        case Fetch(n) => q.Dequeue(n).(taken := q.taken + q.first.queue[..n])
        case CopyOut(n) => q.Dequeue(n).(second := q.second.Push(q.first.queue[..n], false))
        case CopyIn(n) => q.Enqueue(q.second.queue[..n], false).(second := q.second.Pop(n));
    q'.(oks := q.oks + [ok])
  }

  function QueueRun(q: Queues, ops: seq<QueueOp>): (q': Queues)
    requires forall op :: op in ops ==> RangeExists(op)
  {
    if ops == [] then q else
      var last := |ops| - 1;
      QueueNext(QueueRun(q, ops[..last]), ops[last])
  }

  /** First in, first out: what left a queue followed by what is in it is what was in it and what entered. */
  lemma {:induction false} FirstInFirstOut(q: Queues, ops: seq<QueueOp>)
    requires forall op :: op in ops ==> RangeExists(op)
    requires q.left == q.entered == []
    ensures var q' := QueueRun(q, ops); q'.left + q'.first.queue == q.first.queue + q'.entered
  {
    if ops != [] {
      var last := |ops| - 1;
      FirstInFirstOut(q, ops[..last]);
      QueueStepKeeps(q.first.queue, QueueRun(q, ops[..last]), ops[last]);
    }
  }

  lemma QueueStepKeeps(initial: seq<byte>, q: Queues, op: QueueOp)
    requires RangeExists(op) && q.left + q.first.queue == initial + q.entered
    ensures var q' := QueueNext(q, op); q'.left + q'.first.queue == initial + q'.entered
  {
    var q' := QueueNext(q, op);
    if q'.left == q.left {
      var data := q'.entered[|q.entered|..];
      assert q'.entered == q.entered + data && q'.first.queue == q.first.queue + data;
      Assoc(q.left, q.first.queue, data);
      Assoc(initial, q.entered, data);
    } else {
      var data := q'.left[|q.left|..];
      assert q.first.queue == data + q'.first.queue;
      Assoc(q.left, data, q'.first.queue);
    }
  }

  ghost function PipeOf(s: Stuffer): (p: Pipe)
    requires s.Valid()
    reads s
  {
    Pipe(s.Unread(), s.size, s.write, s.growable && !s.tainted, s.mem != [])
  }

  lemma Queued(before: seq<byte>, read: nat, data: seq<byte>)
    requires read <= |before|
    ensures (before + data)[read..] == before[read..] + data
  {
  }

  method PutBytes(s: Stuffer, data: Chunk) returns (ok: bool)
    requires s.Valid()
    modifies s
    ensures s.Valid() && (ok <==> old(PipeOf(s)).Admits(|data|))
    ensures PipeOf(s) == if ok then old(PipeOf(s)).Push(data, false) else old(PipeOf(s))
  {
    ok := s.WriteBytes(data);
    Queued(old(s.Contents()), s.read, data);
  }

  method PutRange(s: Stuffer, iov: seq<Chunk>, offs: nat, n: nat) returns (ok: bool)
    requires s.Valid() && n <= UINT32_MAX && offs + n <= |Concat(iov)|
    modifies s
    ensures s.Valid() && (ok <==> old(PipeOf(s)).Admits(n))
    ensures PipeOf(s) == if ok then old(PipeOf(s)).Push(Concat(iov)[offs..offs + n], true) else old(PipeOf(s))
  {
    ok := s.WritevBytes(iov, offs, n);
    Queued(old(s.Contents()), s.read, Concat(iov)[offs..offs + n]);
  }

  method TakeBytes(s: Stuffer, n: nat) returns (taken: seq<byte>, ok: bool)
    requires s.Valid()
    modifies s
    ensures s.Valid() && (ok <==> n <= |old(PipeOf(s)).queue| && old(PipeOf(s)).hasMemory)
    ensures PipeOf(s) == if ok then old(PipeOf(s)).Pop(n) else old(PipeOf(s))
    ensures taken == if ok then old(PipeOf(s)).queue[..n] else []
  {
    var r := s.ReadBytes(n);
    ok := r.Some?;
    taken := if ok then r.value else [];
  }

  method Move(from: Stuffer, to: Stuffer, n: nat) returns (ok: bool)
    requires from != to && from.Valid() && to.Valid() && n <= UINT32_MAX
    modifies from, to
    ensures from.Valid() && to.Valid()
    ensures ok <==> n <= |old(PipeOf(from)).queue| && old(PipeOf(to)).Admits(n)
    ensures PipeOf(from) == if ok then old(PipeOf(from)).Pop(n) else old(PipeOf(from))
    ensures PipeOf(to) == if ok then old(PipeOf(to)).Push(old(PipeOf(from)).queue[..n], false) else old(PipeOf(to))
  {
    ok := Copy(from, to, n);
    if ok {
      Queued(old(to.Contents()), to.read, old(from.Unread())[..n]);
    }
  }

  method PutStep(s: Stuffer, op: QueueOp, ghost q: Queues) returns (ok: bool)
    requires s.Valid() && RangeExists(op) && (op.Put? || op.PutGathered?) && q.first == PipeOf(s)
    modifies s
    ensures s.Valid() && q.Accepts(op) == ok
    ensures var q' := QueueNext(q, op);
      q'.first == PipeOf(s) && q'.second == q.second && q'.taken == q.taken
  {
    match op
    case Put(data) => ok := PutBytes(s, data);
    case PutGathered(iov, offs, n) => ok := PutRange(s, iov, offs, n);
  }

  method QueueStep(s: Stuffer, t: Stuffer, op: QueueOp, ghost q: Queues) returns (taken: seq<byte>, ok: bool)
    requires s != t && s.Valid() && t.Valid() && RangeExists(op)
    requires q.first == PipeOf(s) && q.second == PipeOf(t)
    modifies s, t
    ensures s.Valid() && t.Valid() && q.Accepts(op) == ok
    ensures var q' := QueueNext(q, op);
      q'.first == PipeOf(s) && q'.second == PipeOf(t) && q'.taken == q.taken + taken
  {
    taken := [];
    assert q.taken + [] == q.taken;
    match op
    case Put(_) => ok := PutStep(s, op, q);
    case PutGathered(_, _, _) => ok := PutStep(s, op, q);
    case Fetch(count) => taken, ok := TakeBytes(s, count);
    case CopyOut(count) => ok := Move(s, t, count);
    case CopyIn(count) => ok := Move(t, s, count);
  }

  /** Any run on two stuffers, with growth in between, is the same run on two queues, failures included. */
  method RunQueues(s: Stuffer, t: Stuffer, ops: seq<QueueOp>, ghost q0: Queues)
    returns (taken: seq<byte>, oks: seq<bool>)
    requires s != t && s.Valid() && t.Valid() && forall op :: op in ops ==> RangeExists(op)
    requires q0 == Queues(PipeOf(s), PipeOf(t), [], [], [], [])
    modifies s, t
    ensures s.Valid() && t.Valid()
    ensures var q := QueueRun(q0, ops);
      && PipeOf(s) == q.first && PipeOf(t) == q.second && taken == q.taken && oks == q.oks
      && q.left + s.Unread() == old(s.Unread()) + q.entered
  {
    taken, oks := [], [];
    ghost var q := q0;
    for i := 0 to |ops|
      invariant s.Valid() && t.Valid() && q == QueueRun(q0, ops[..i])
      invariant PipeOf(s) == q.first && PipeOf(t) == q.second && taken == q.taken && oks == q.oks
    {
      var got, ok := QueueStep(s, t, ops[i], q);
      assert ops[..i + 1][..i] == ops[..i];
      q := QueueNext(q, ops[i]);
      taken, oks := taken + got, oks + [ok];
    }
    assert ops[..|ops|] == ops;
    FirstInFirstOut(q0, ops);
  }

  // ---------- wiping ----------

  /** Operations that append. */
  datatype AddOp =
    | Write(data: Chunk)
    | Gather(iov: seq<Chunk>, offs: nat, n: nat)
    | Number(value: nat, width: byte)
    | CopyFrom(count: nat)
    | Skip(count: nat)
    | RawFill(data: Chunk)
    | Reserve(width: byte)

  /** Operations on an earlier reservation. */
  datatype FillOp =
    | FillIn(which: nat, value: nat)
    | Close(which: nat)

  /** Operations that read and rewind. */
  datatype ReadOp =
    | Read(count: nat)
    | RawTake(count: nat)
    | Erase(count: nat)
    | Rewind(count: nat)
    | Rewrite

  /** Operations that wipe and resize. */
  datatype WipeOp =
    | Wipe
    | WipeN(count: nat)
    | Resize(bytes: nat)

  datatype AnyOp = Add(add: AddOp) | Fill(fill: FillOp) | Take(take: ReadOp) | Drop(drop: WipeOp)

  predicate SizeFits(op: AnyOp) {
    match op
    case Add(add) =>
      && (add.Gather? ==> add.n <= UINT32_MAX) && (add.Number? ==> add.value <= UINT64_MAX)
      && (add.Skip? || add.CopyFrom? ==> add.count <= UINT32_MAX)
    case Fill(fill) => fill.FillIn? ==> fill.value <= UINT32_MAX
    case Take(_) => true
    case Drop(drop) => drop.Resize? ==> drop.bytes <= UINT32_MAX
  }

  /** Reservations made so far; later operations may fill them in or close them in any order. */
  type Reservations = rs: seq<Reservation> | forall i :: 0 <= i < |rs| ==> rs[i].length <= 255

  /** A stuffer, what another one has to read, and the reservations made. */
  datatype World = World(cells: Cells, source: seq<byte>, reservations: Reservations)

  ghost function WorldOf(s: Stuffer, t: Stuffer, rs: Reservations): (w: World)
    requires t.Valid()
    reads s, t
  {
    World(s.State(), t.Unread(), rs)
  }

  /** n bytes are reserved at a position and `data` stored there; otherwise the stuffer is c. */
  ghost predicate Puts(a: Cells, at: nat, n: nat, data: seq<byte>, c: Cells, b: Cells) {
    && Written(a.mem, a.size, at, n, data, b.mem, b.size)
    && b == c.(mem := b.mem, size := b.size, highWater := Max(a.highWater, at + n))
  }

  function Wiped(a: Cells): (b: Cells)
    requires a.Ordered()
  {
    var mem := Splice(a.mem, 0, Repeat(WIPE_PATTERN, a.highWater));
    a.(mem := mem, read := 0, write := 0, highWater := 0, tainted := false)
  }

  function PartlyWiped(a: Cells, n: nat): (b: Cells)
    requires a.Ordered()
  {
    if n >= a.write then Wiped(a) else
      var w := a.write - n;
      a.(mem := Splice(a.mem, w, Repeat(WIPE_PATTERN, n)), write := w, read := Min(a.read, w))
  }

  function Taken(a: Cells, n: nat, raw: bool): (b: Cells)
  {
    if n > a.write - a.read then a else a.(read := a.read + n, tainted := a.tainted || raw)
  }

  function Erased(a: Cells, n: nat): (b: Cells)
    requires a.Ordered()
  {
    if n > a.write - a.read || a.mem == [] then a
    else a.(mem := Splice(a.mem, a.read, Repeat(0, n)), read := a.read + n)
  }

  ghost predicate Resizes(a: Cells, n: nat, b: Cells)
    requires a.Ordered()
  {
    if !a.growable || a.tainted then b == a else
      && b == a.(mem := b.mem, size := n, read := Min(a.read, n), write := Min(a.write, n),
                 highWater := Min(a.highWater, n))
      && (if a.size <= n then Moved(a.mem, a.size, b.mem, n)
          else b.mem == if n == 0 then [] else Splice(a.mem, n, Repeat(WIPE_PATTERN, a.size - n)))
  }

  /** n bytes to append, of which the first are `data`. */
  datatype Payload = Payload(n: nat, data: seq<byte>, raw: bool)

  function PayloadOf(op: AddOp, source: seq<byte>): (p: Option<Payload>)
  {
    match op
    case Write(data) => Some(Payload(|data|, data, false))
    case Gather(iov, offs, n) => Some(Payload(n, Gathered(Concat(iov), offs, n), true))
    case Number(value, width) => if width > 8 then None else Some(Payload(width, ToBE(value, width), false))
    case CopyFrom(n) => if n > |source| then None else Some(Payload(n, source[..n], false))
    case Skip(n) => Some(Payload(n, [], false))
    case RawFill(data) => Some(Payload(|data|, data, true))
    case Reserve(width) => Some(Payload(width, Repeat(WIPE_PATTERN, width), false))
  }

  predicate Succeeds(c: Cells, p: Option<Payload>) {
    p.Some? && Room(c.size, c.write, p.value.n, c.growable && !c.tainted)
  }

  /** Appends what there is to append, or changes nothing. */
  ghost predicate Appends(a: Cells, p: Option<Payload>, b: Cells) {
    if !Succeeds(a, p) then b == a else
      var Payload(n, data, raw) := p.value;
      Puts(a, a.write, n, data, a.(write := a.write + n, tainted := a.tainted || raw), b)
  }

  ghost predicate Adds(a: World, op: AddOp, b: World) {
    var p := PayloadOf(op, a.source);
    && Appends(a.cells, p, b.cells)
    && b.source == (if op.CopyFrom? && Succeeds(a.cells, p) then a.source[op.count..] else a.source)
    && b.reservations ==
       if op.Reserve? && Succeeds(a.cells, p) then a.reservations + [Reservation(a.cells.write, op.width as nat)]
       else a.reservations
  }

  /** How many bytes follow a reservation. */
  function BodySize(r: Reservation, write: nat): (n: Option<nat>)
  {
    if r.writeCursor + r.length <= write then Some(write - r.writeCursor - r.length) else None
  }

  ghost predicate FillsIn(a: Cells, r: Reservation, u: Option<nat>, b: Cells) {
    if u.Some? && CanFill(a, r, u.value) then Puts(a, r.writeCursor, r.length, ToBE(u.value, r.length), a, b)
    else b == a
  }

  ghost predicate Fills(a: Cells, rs: Reservations, op: FillOp, b: Cells) {
    if op.which >= |rs| then b == a else
      var r := rs[op.which];
      match op
      case FillIn(_, value) => FillsIn(a, r, Some(value), b)
      case Close(_) => FillsIn(a, r, BodySize(r, a.write), b)
  }

  function AfterRead(c: Cells, op: ReadOp): (b: Cells)
    requires c.Ordered()
  {
    match op
    case Read(n) => if c.mem == [] then c else Taken(c, n, false)
    case RawTake(n) => Taken(c, n, true)
    case Erase(n) => Erased(c, n)
    case Rewind(n) => if n <= c.read then c.(read := c.read - n) else c
    case Rewrite => c.(read := 0, write := 0)
  }

  ghost predicate Drops(c: Cells, op: WipeOp, b: Cells)
    requires c.Ordered()
  {
    match op
    case Wipe => b == Wiped(c)
    case WipeN(n) => b == PartlyWiped(c, n)
    case Resize(n) => Resizes(c, n, b)
  }

  /** What an operation does. Only the allocator is free: how much more memory it delivers, and what that holds. */
  ghost predicate Moves(a: World, op: AnyOp, b: World) {
    && a.cells.Ordered()
    && match op
       case Add(add) => Adds(a, add, b)
       case Fill(fill) => Fills(a.cells, a.reservations, fill, b.cells) && b == a.(cells := b.cells)
       case Take(take) => b == a.(cells := AfterRead(a.cells, take))
       case Drop(drop) => Drops(a.cells, drop, b.cells) && b == a.(cells := b.cells)
  }

  ghost predicate IsRun(run: seq<World>, ops: seq<AnyOp>) {
    |run| == |ops| + 1 && forall k :: 0 <= k < |ops| ==> Moves(run[k], ops[k], run[k + 1])
  }

  method SkipStep(s: Stuffer, count: nat)
    requires s.Valid() && count <= UINT32_MAX
    modifies s
    ensures s.Valid() && Appends(old(s.State()), Some(Payload(count, [], false)), s.State())
  {
    var _ := s.SkipWrite(count);
  }

  /** The caller fills the bytes that a raw write hands out. */
  method RawStep(s: Stuffer, data: Chunk)
    requires s.Valid()
    modifies s
    ensures s.Valid() && Appends(old(s.State()), Some(Payload(|data|, data, true)), s.State())
  {
    var ok := s.RawWrite(|data|);
    if ok {
      StoredIsWritten(old(s.mem), old(s.size), old(s.write), |data|, data, s.mem, s.size);
      s.Store(s.write - |data|, data);
    }
  }

  method WriteCells(s: Stuffer, op: AddOp, ghost source: seq<byte>) returns (ok: bool)
    requires s.Valid() && SizeFits(Add(op)) && (op.Write? || op.Gather? || op.Number?)
    modifies s
    ensures s.Valid() && Appends(old(s.State()), PayloadOf(op, source), s.State())
  {
    match op
    case Write(data) => ok := s.WriteBytes(data);
    case Gather(iov, offs, n) => ok := s.WritevBytes(iov, offs, n);
    case Number(value, width) => ok := WriteNetworkOrder(s, value, width);
  }

  method CopyCells(s: Stuffer, t: Stuffer, count: nat) returns (ok: bool)
    requires s != t && s.Valid() && t.Valid() && count <= UINT32_MAX
    modifies s, t
    ensures s.Valid() && t.Valid()
    ensures ok <==> count <= |old(t.Unread())| && Succeeds(old(s.State()), Some(Payload(count, [], false)))
    ensures ok ==> Appends(old(s.State()), Some(Payload(count, old(t.Unread())[..count], false)), s.State())
    ensures t.Unread() == if ok then old(t.Unread())[count..] else old(t.Unread())
    ensures !ok ==> s.State() == old(s.State())
  {
    ok := Copy(t, s, count);
  }

  method CopyStep(s: Stuffer, t: Stuffer, count: nat, ghost rs: Reservations)
    requires s != t && s.Valid() && t.Valid() && count <= UINT32_MAX
    modifies s, t
    ensures s.Valid() && t.Valid() && Adds(old(WorldOf(s, t, rs)), CopyFrom(count), WorldOf(s, t, rs))
  {
    var _ := CopyCells(s, t, count);
  }

  method ReserveStep(s: Stuffer, width: byte, rs: Reservations, ghost t: Stuffer) returns (rs': Reservations)
    requires s != t && s.Valid() && t.Valid()
    modifies s
    ensures s.Valid() && t.Valid() && Adds(old(WorldOf(s, t, rs)), Reserve(width), WorldOf(s, t, rs'))
  {
    var r := NetworkOrder.Reserve(s, width);
    rs' := if r.Some? then rs + [r.value] else rs;
  }

  method AddStep(s: Stuffer, t: Stuffer, op: AddOp, rs: Reservations) returns (rs': Reservations)
    requires s != t && s.Valid() && t.Valid() && SizeFits(Add(op))
    modifies s, t
    ensures s.Valid() && t.Valid() && Adds(old(WorldOf(s, t, rs)), op, WorldOf(s, t, rs'))
  {
    rs' := rs;
    if op.CopyFrom? {
      CopyStep(s, t, op.count, rs);
    } else if op.Reserve? {
      rs' := ReserveStep(s, op.width, rs, t);
    } else if op.Skip? {
      SkipStep(s, op.count);
    } else if op.RawFill? {
      RawStep(s, op.data);
    } else {
      var _ := WriteCells(s, op, t.Unread());
    }
  }

  method FillInStep(s: Stuffer, r: Reservation, value: nat)
    requires s.Valid() && r.length <= 255 && value <= UINT32_MAX
    modifies s
    ensures s.Valid() && FillsIn(old(s.State()), r, Some(value), s.State())
  {
    var _ := WriteReservation(s, r, value);
  }

  method CloseStep(s: Stuffer, r: Reservation)
    requires s.Valid() && r.length <= 255
    modifies s
    ensures s.Valid() && FillsIn(old(s.State()), r, BodySize(r, s.write), s.State())
  {
    var ok := WriteVectorSize(s, r);
  }

  method FillStep(s: Stuffer, op: FillOp, rs: Reservations)
    requires s.Valid() && SizeFits(Fill(op))
    modifies s
    ensures s.Valid() && Fills(old(s.State()), rs, op, s.State())
  {
    if op.which < |rs| {
      match op
      case FillIn(which, value) => FillInStep(s, rs[which], value);
      case Close(which) => CloseStep(s, rs[which]);
    }
  }

  method ReadStep(s: Stuffer, op: ReadOp)
    requires s.Valid()
    modifies s
    ensures s.Valid() && s.State() == AfterRead(old(s.State()), op)
  {
    match op
    case Read(count) => var _ := s.ReadBytes(count);
    case RawTake(count) => var _ := s.RawRead(count);
    case Erase(count) => var _ := s.EraseAndReadBytes(count);
    case Rewind(count) => var _ := s.RewindRead(count);
    case Rewrite => s.Rewrite();
  }

  method WipeStep(s: Stuffer, op: WipeOp)
    requires s.Valid() && SizeFits(Drop(op))
    modifies s
    ensures s.Valid() && Drops(old(s.State()), op, s.State())
  {
    match op
    case Wipe => s.Wipe();
    case WipeN(count) => s.WipeN(count);
    case Resize(bytes) => var _ := s.Resize(bytes);
  }

  /** Any operation. */
  method Step(s: Stuffer, t: Stuffer, op: AnyOp, rs: Reservations) returns (rs': Reservations)
    requires s != t && s.Valid() && t.Valid() && SizeFits(op)
    modifies s, t
    ensures s.Valid() && t.Valid() && Moves(old(WorldOf(s, t, rs)), op, WorldOf(s, t, rs'))
  {
    rs' := rs;
    match op
    case Add(add) => rs' := AddStep(s, t, add, rs);
    case Fill(fill) => FillStep(s, fill, rs);
    case Take(take) => ReadStep(s, take);
    case Drop(drop) => WipeStep(s, drop);
  }

  // ---------- what a wipe leaves ----------

  /**
   Of the memory a stuffer has at the end of a run, the cells that were ever below its high-water mark.
   Memory of another capacity is other memory, to which the blob went over.
   */
  function Reached(run: seq<World>): (n: nat)
    requires run != []
  {
    var b := run[|run| - 1].cells;
    if |run| == 1 then b.highWater else ReachedNext(run[|run| - 2].cells, Reached(run[..|run| - 1]), b)
  }

  function ReachedNext(a: Cells, reached: nat, b: Cells): (n: nat)
  {
    Max(b.highWater, if |b.mem| == |a.mem| then reached else Min(|b.mem|, Min(a.size, reached)))
  }

  /** What that memory held before this stuffer wrote to it: at the start, or when the allocator delivered it. */
  function Given(run: seq<World>): (f: seq<byte>)
    requires run != []
    ensures |f| == |run[|run| - 1].cells.mem|
  {
    var b := run[|run| - 1].cells;
    if |run| == 1 then b.mem else GivenNext(run[|run| - 2].cells, Given(run[..|run| - 1]), b)
  }

  function GivenNext(a: Cells, given: seq<byte>, b: Cells): (f: seq<byte>)
    requires |given| == |a.mem|
    ensures |f| == |b.mem|
  {
    var n := Min(a.size, Min(|a.mem|, |b.mem|));
    if |b.mem| == |a.mem| then given else given[..n] + b.mem[n..]
  }

  /** From the high-water mark on no cell holds data: it is constant, or was never reached and is as given. */
  ghost predicate Clean(c: Cells, reached: nat, given: seq<byte>) {
    && c.Ordered() && c.highWater <= reached <= |c.mem| == |given|
    && (forall i :: c.highWater <= i < reached ==> IsConstant(c.mem[i]))
    && (forall i :: reached <= i < |c.mem| ==> IsConstant(c.mem[i]) || c.mem[i] == given[i])
  }

  lemma PutKeepsClean(a: Cells, at: nat, n: nat, data: seq<byte>, c: Cells, b: Cells, reached: nat, given: seq<byte>)
    requires Clean(a, reached, given) && Puts(a, at, n, data, c, b)
    requires c.read <= c.write <= Max(a.highWater, at + n)
    ensures Clean(b, ReachedNext(a, reached, b), GivenNext(a, given, b))
  {
    assert forall i :: b.highWater <= i < |b.mem| ==> b.mem[i] == Before(a.mem, a.size, b.mem)[i];
    if |b.mem| == |a.mem| {
      assert GivenNext(a, given, b) == given;
    } else {
      assert GivenNext(a, given, b) == given[..a.size] + b.mem[a.size..];
    }
  }

  lemma ResizeKeepsClean(a: Cells, n: nat, b: Cells, reached: nat, given: seq<byte>)
    requires Clean(a, reached, given) && Resizes(a, n, b) && n <= UINT32_MAX
    ensures Clean(b, ReachedNext(a, reached, b), GivenNext(a, given, b))
  {
  }

  lemma AppendKeepsClean(a: Cells, p: Option<Payload>, b: Cells, reached: nat, given: seq<byte>)
    requires Clean(a, reached, given) && Appends(a, p, b)
    ensures Clean(b, ReachedNext(a, reached, b), GivenNext(a, given, b))
  {
    if Succeeds(a, p) {
      var Payload(n, data, raw) := p.value;
      PutKeepsClean(a, a.write, n, data, a.(write := a.write + n, tainted := a.tainted || raw), b, reached, given);
    }
  }

  lemma FillKeepsClean(a: Cells, r: Reservation, u: Option<nat>, b: Cells, reached: nat, given: seq<byte>)
    requires Clean(a, reached, given) && FillsIn(a, r, u, b)
    ensures Clean(b, ReachedNext(a, reached, b), GivenNext(a, given, b))
  {
    if u.Some? && CanFill(a, r, u.value) {
      PutKeepsClean(a, r.writeCursor, r.length, ToBE(u.value, r.length), a, b, reached, given);
    }
  }

  lemma ReadKeepsClean(a: Cells, op: ReadOp, reached: nat, given: seq<byte>)
    requires Clean(a, reached, given)
    ensures var b := AfterRead(a, op); Clean(b, ReachedNext(a, reached, b), GivenNext(a, given, b))
  {
    var b := AfterRead(a, op);
    assert b.highWater == a.highWater && |b.mem| == |a.mem| && b.Ordered();
    assert forall i :: a.highWater <= i < |a.mem| ==> b.mem[i] == a.mem[i];
  }

  lemma WipeKeepsClean(a: Cells, op: WipeOp, b: Cells, reached: nat, given: seq<byte>)
    requires Clean(a, reached, given) && Drops(a, op, b) && SizeFits(Drop(op))
    ensures Clean(b, ReachedNext(a, reached, b), GivenNext(a, given, b))
  {
    if op.Resize? {
      ResizeKeepsClean(a, op.bytes, b, reached, given);
    }
  }

  lemma MoveKeepsClean(a: World, op: AnyOp, b: World, reached: nat, given: seq<byte>)
    requires Clean(a.cells, reached, given) && Moves(a, op, b) && SizeFits(op)
    ensures Clean(b.cells, ReachedNext(a.cells, reached, b.cells), GivenNext(a.cells, given, b.cells))
  {
    match op
    case Add(add) => AppendKeepsClean(a.cells, PayloadOf(add, a.source), b.cells, reached, given);
    case Fill(fill) =>
      if fill.which < |a.reservations| {
        var r := a.reservations[fill.which];
        var u := if fill.FillIn? then Some(fill.value) else BodySize(r, a.cells.write);
        FillKeepsClean(a.cells, r, u, b.cells, reached, given);
      }
    case Take(take) => ReadKeepsClean(a.cells, take, reached, given);
    case Drop(drop) => WipeKeepsClean(a.cells, drop, b.cells, reached, given);
  }

  /** Every run keeps it. */
  lemma {:induction false} RunIsClean(run: seq<World>, ops: seq<AnyOp>)
    requires IsRun(run, ops) && run[0].cells.Ordered() && forall i :: 0 <= i < |ops| ==> SizeFits(ops[i])
    ensures Clean(run[|ops|].cells, Reached(run), Given(run))
  {
    if ops != [] {
      var n := |ops| - 1;
      RunIsClean(run[..n + 1], ops[..n]);
      MoveKeepsClean(run[n], ops[n], run[n + 1], Reached(run[..n + 1]), Given(run[..n + 1]));
    }
  }

  /** A cell that was below the mark at some time is reached, unless it did not go over to new memory. */
  lemma {:induction false} StaysReached(run: seq<World>, k: nat, i: nat)
    requires k < |run| && i < run[k].cells.highWater
    requires forall j :: k <= j < |run| - 1 ==>
      var a, b := run[j].cells, run[j + 1].cells;
      |a.mem| == |b.mem| || i < Min(a.size, |b.mem|)
    ensures i < Reached(run)
    decreases |run|
  {
    if k < |run| - 1 {
      StaysReached(run[..|run| - 1], k, i);
    }
  }

  /**
   Any run on any stuffer, then a wipe. The run is a run of the cells. Every cell that was ever below the
   high-water mark, in the first memory or in memory that growth added, then holds the wipe pattern or an
   erasing zero. So does every other cell, unless it is as given.
   */
  method RunThenWipe(s: Stuffer, t: Stuffer, ops: seq<AnyOp>) returns (ghost run: seq<World>)
    requires s != t && s.Valid() && t.Valid() && forall i :: 0 <= i < |ops| ==> SizeFits(ops[i])
    modifies s, t
    ensures s.Valid() && t.Valid() && IsRun(run, ops) && run[0] == old(WorldOf(s, t, []))
    ensures run[|ops|].cells.Ordered() && s.State() == Wiped(run[|ops|].cells) && t.Unread() == run[|ops|].source
    ensures Reached(run) <= |s.mem| && forall i :: 0 <= i < Reached(run) ==> s.mem[i] == 'w' as int || s.mem[i] == 0
    ensures forall i :: 0 <= i < |s.mem| ==> s.mem[i] == 'w' as int || s.mem[i] == 0 || s.mem[i] == Given(run)[i]
  {
    var rs: Reservations := [];
    run := [WorldOf(s, t, rs)];
    for i := 0 to |ops|
      invariant s.Valid() && t.Valid() && |run| == i + 1
      invariant run[0] == old(WorldOf(s, t, [])) && run[i] == WorldOf(s, t, rs)
      invariant forall k :: 0 <= k < i ==> Moves(run[k], ops[k], run[k + 1])
    {
      rs := Step(s, t, ops[i], rs);
      run := run + [WorldOf(s, t, rs)];
    }
    RunIsClean(run, ops);
    s.Wipe();
  }

  // ---------- raw pointers ----------

  predicate WipesAll(op: AnyOp) {
    op.Drop? && !op.drop.Resize?
  }

  lemma TaintedMove(a: World, op: AnyOp, b: World)
    requires Moves(a, op, b) && a.cells.tainted && !WipesAll(op)
    ensures b.cells.tainted && |b.cells.mem| == |a.cells.mem| && b.cells.size == a.cells.size
  {
  }

  /** Once a pointer into the buffer was handed out, the memory stays where it is and as large, until a wipe. */
  lemma {:induction false} PointersStay(run: seq<World>, ops: seq<AnyOp>, k: nat, j: nat)
    requires IsRun(run, ops) && k <= j <= |ops| && run[k].cells.tainted
    requires forall i :: k <= i < j ==> !WipesAll(ops[i])
    ensures run[j].cells.tainted && |run[j].cells.mem| == |run[k].cells.mem| && run[j].cells.size == run[k].cells.size
    decreases j
  {
    if k < j {
      PointersStay(run, ops, k, j - 1);
      TaintedMove(run[j - 1], ops[j - 1], run[j]);
    }
  }

  /** Raw reads, raw writes and gathered writes that do anything hand one out. */
  lemma RawTaints(a: World, op: AnyOp, b: World)
    requires Moves(a, op, b) && b.cells != a.cells
    requires (op.Take? && op.take.RawTake?) || (op.Add? && (op.add.RawFill? || op.add.Gather?))
    ensures b.cells.tainted
  {
  }

  // ---------- writing, then wiping ----------

  function Writes(chunks: seq<Chunk>): (ops: seq<AnyOp>)
  {
    seq(|chunks|, i requires 0 <= i < |chunks| => Add(Write(chunks[i])))
  }

  /** With room for all of them, every chunk is appended. */
  lemma {:induction false} AllWritten(run: seq<World>, chunks: seq<Chunk>, k: nat)
    requires IsRun(run, Writes(chunks)) && k <= |chunks| && run[0].cells.write == 0
    requires run[0].cells.growable && !run[0].cells.tainted && |Concat(chunks)| + MIN_GROWTH <= UINT32_MAX
    ensures run[k].cells.write == |Concat(chunks[..k])| && run[k].cells.growable && !run[k].cells.tainted
  {
    if k > 0 {
      AllWritten(run, chunks, k - 1);
      ConcatPrefix(chunks, k);
      assert chunks[..k][..k - 1] == chunks[..k - 1];
      assert Moves(run[k - 1], Writes(chunks)[k - 1], run[k]);
    }
  }

  /** Of all that is written to a new stuffer, in any chunks and with any growth in between, a wipe leaves nothing. */
  method WriteThenWipe(s: Stuffer, t: Stuffer, chunks: seq<Chunk>)
    requires s != t && s.Valid() && t.Valid() && s.write == 0
    requires s.growable && !s.tainted && |Concat(chunks)| + MIN_GROWTH <= UINT32_MAX
    modifies s, t
    ensures s.Valid() && |Concat(chunks)| <= |s.mem|
    ensures forall i :: 0 <= i < |Concat(chunks)| ==> s.mem[i] == 'w' as int || s.mem[i] == 0
  {
    ghost var run := RunThenWipe(s, t, Writes(chunks));
    AllWritten(run, chunks, |chunks|);
    assert chunks[..|chunks|] == chunks;
  }
}
