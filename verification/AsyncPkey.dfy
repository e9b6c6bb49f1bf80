/** Private-key operations handed to the application: who may run them, apply them and free them, and when. */
module AsyncPkey {
  import opened Bytes

  datatype OpType = Decrypt | Sign
  datatype ValidationMode = Fast | Strict
  datatype AsyncState = NotInvoked | Invoked | Complete

  /** What happened to an operation, in order. */
  datatype Event =
    | Allocated                                                     // a buffer for the signature
    | SignedInPlace                                                 // the operation's own digest was signed
    | Decrypted(ok: bool)                                           // the private key was used to decrypt
    | Produced(output: Option<seq<byte>>)                           // perform or set_output gave a result
    | Verified(signature: Option<seq<byte>>, untouched: bool, ok: bool)
    | Completed(payload: Option<seq<byte>>, rsaFailed: bool, mode: ValidationMode, ok: bool)
    | Released                                                      // the release action ran

  /**
   An operation. `out` is the result buffer, if there is one; `lost` counts buffers that were
   overwritten; `untouched` says that the digest was never given to a signer or a verifier.
   */
  datatype Op = Op(
    kind: OpType, mode: ValidationMode, complete: bool, applied: bool, freed: bool, untouched: bool,
    rsaFailed: bool, out: Option<seq<byte>>, lost: nat, log: seq<Event>)

  function NewOp(kind: OpType, mode: ValidationMode, initial: Option<seq<byte>>): (op: Op)
  {
    Op(kind, mode, false, false, false, true, false, if kind == Decrypt then initial else None, 0, [])
  }

  // ---------- one call ----------

  /** `result` is what the private key makes of the input, `room` what a new buffer holds at first. */
  function PerformOp(op: Op, result: Option<seq<byte>>, room: seq<byte>): (r: (Op, bool))
  {
    if op.complete then (op, false)
    else if op.kind == Decrypt then
      var out := if result.Some? then result else op.out;
      var log := op.log + [Decrypted(result.Some?), Produced(out)];
      (op.(out := out, rsaFailed := result.None?, complete := true, log := log), true)
    else
      var lost := op.lost + if op.out.Some? then 1 else 0;
      var log := op.log + if op.mode == Fast then [Allocated, SignedInPlace] else [Allocated];
      var tried := op.(out := Some(room), lost := lost, untouched := op.untouched && op.mode == Strict, log := log);
      if result.None? then (tried, false)
      else (tried.(out := result, complete := true, log := log + [Produced(result)]), true)
  }

  function SetOutputOp(op: Op, data: seq<byte>): (op': Op)
  {
    var out := if data == [] then None else Some(data);
    op.(out := out, complete := true, log := op.log + [Produced(out)])
  }

  function Release(op: Op): (op': Op)
  {
    op.(out := None, log := op.log + [Released])
  }

  predicate Verifies(op: Op) {
    op.kind == Sign && op.mode == Strict
  }

  function Checked(op: Op, verified: bool): (op': Op)
  {
    if Verifies(op) then op.(untouched := false, log := op.log + [Verified(op.out, op.untouched, verified)]) else op
  }

  /** `own` says whether the connection is the operation's, `accepted` whether on_complete succeeded. */
  function ApplyOp(op: Op, own: bool, state: AsyncState, verified: bool, accepted: bool): (r: (Op, AsyncState))
  {
    if !op.complete || op.applied || !own || state != Invoked then (op, state)
    else
      var checked := Checked(op, verified);
      if Verifies(op) && !verified then (checked, state)
      else
        var done := checked.(log := checked.log + [Completed(op.out, op.rsaFailed, op.mode, accepted)]);
        if accepted then (Release(done.(applied := true)), Complete) else (done, state)
  }

  function FreeOp(op: Op): (op': Op)
  {
    if op.applied then op.(freed := true) else Release(op).(freed := true)
  }

  // ---------- the code ----------

  datatype Handler = Continue | Blocked | Finished

  class Connection {
    var asyncState: AsyncState

    constructor ()
      ensures asyncState == NotInvoked
    {
      asyncState := NotInvoked;
    }

    /** Entry of a handler that may start an operation: a completed one lets the handshake move on. */
    method Guard() returns (h: Handler)
      modifies this
      ensures h == match old(asyncState) case NotInvoked => Continue case Invoked => Blocked case Complete => Finished
      ensures asyncState == if old(asyncState) == Complete then NotInvoked else old(asyncState)
    {
      match asyncState
      case NotInvoked => h := Continue;
      case Invoked => h := Blocked;
      case Complete =>
        asyncState := NotInvoked;
        h := Finished;
    }

    /** Hands the operation to the application, or frees it when another one is out. */
    method Execute(op: PkeyOp) returns (given: bool)
      requires !op.freed && op.conn == this
      modifies this, op
      ensures given <==> old(asyncState) == NotInvoked
      ensures asyncState == if given then Invoked else old(asyncState)
      ensures op.Value() == if given then old(op.Value()) else FreeOp(old(op.Value()))
    {
      if asyncState != NotInvoked {
        op.Free();
        return false;
      }
      asyncState := Invoked;
      return true;
    }
  }

  class PkeyOp {
    const kind: OpType
    const conn: Connection
    var mode: ValidationMode
    var complete: bool
    var applied: bool
    var rsaFailed: bool
    /** The decrypted secret or the signature, if it has a buffer. */
    var out: Option<seq<byte>>
    ghost var freed: bool
    ghost var untouched: bool
    ghost var lost: nat
    ghost var log: seq<Event>

    ghost function Value(): (op: Op)
      reads this
    {
      Op(kind, mode, complete, applied, freed, untouched, rsaFailed, out, lost, log)
    }

    constructor (k: OpType, c: Connection, m: ValidationMode, initial: Option<seq<byte>>)
      ensures Value() == NewOp(k, m, initial) && conn == c
    {
      kind, conn, mode, complete, applied, rsaFailed := k, c, m, false, false, false;
      out := if k == Decrypt then initial else None;
      freed, untouched, lost, log := false, true, 0, [];
    }

    method SetValidationMode(m: ValidationMode)
      requires !freed
      modifies this
      ensures Value() == old(Value()).(mode := m)
    {
      mode := m;
    }

    method Perform(result: Option<seq<byte>>, room: seq<byte>) returns (ok: bool)
      requires !freed
      modifies this
      ensures (Value(), ok) == PerformOp(old(Value()), result, room)
    {
      if complete {
        return false;
      }
      if kind == Decrypt {
        DecryptPerform(result);
      } else {
        ok := SignPerform(result, room);
        if !ok {
          return;
        }
      }
      complete := true;
      log := log + [Produced(out)];
      assert kind == Decrypt ==> log == old(log) + [Decrypted(result.Some?), Produced(out)];
      return true;
    }

    method DecryptPerform(result: Option<seq<byte>>)
      modifies `rsaFailed, `out, `log
      ensures rsaFailed == result.None? && out == if result.Some? then result else old(out)
      ensures log == old(log) + [Decrypted(result.Some?)]
    {
      rsaFailed := result.None?;
      log := log + [Decrypted(result.Some?)];
      if result.Some? {
        out := result;
      }
    }

    /** A new buffer for every attempt; only strict mode signs a copy of the digest. */
    method SignPerform(result: Option<seq<byte>>, room: seq<byte>) returns (ok: bool)
      modifies `out, `lost, `untouched, `log
      ensures ok == result.Some? && out == (if ok then result else Some(room))
      ensures lost == old(lost) + if old(out).Some? then 1 else 0
      ensures untouched == (old(untouched) && mode == Strict)
      ensures log == old(log) + if mode == Fast then [Allocated, SignedInPlace] else [Allocated]
    {
      lost := lost + if out.Some? then 1 else 0;
      out := Some(room);
      log := log + if mode == Fast then [Allocated, SignedInPlace] else [Allocated];
      if mode != Strict {
        untouched := false;
      }
      if result.None? {
        return false;
      }
      out := result;
      return true;
    }

    method SetOutput(data: seq<byte>)
      requires !freed
      modifies this
      ensures Value() == SetOutputOp(old(Value()), data)
    {
      out := if data == [] then None else Some(data);
      complete := true;
      log := log + [Produced(out)];
    }

    /** The release action. */
    method ReleaseData()
      modifies `out, `log
      ensures Value() == Release(old(Value()))
    {
      out := None;
      log := log + [Released];
    }

    /** Verifies in strict mode, then completes. */
    method Complete(verified: bool, accepted: bool) returns (ok: bool)
      modifies `untouched, `log
      ensures ok <==> (Verifies(old(Value())) ==> verified) && accepted
      ensures Value() ==
        var checked := Checked(old(Value()), verified);
        if Verifies(old(Value())) && !verified then checked
        else checked.(log := checked.log + [Completed(out, rsaFailed, mode, accepted)])
    {
      if kind == Sign && mode == Strict {
        log := log + [Verified(out, untouched, verified)];
        untouched := false;
        if !verified {
          return false;
        }
      }
      log := log + [Completed(out, rsaFailed, mode, accepted)];
      return accepted;
    }

    method Apply(c: Connection, verified: bool, accepted: bool) returns (ok: bool)
      requires !freed
      modifies this, c
      ensures (Value(), c.asyncState) == ApplyOp(old(Value()), c == conn, old(c.asyncState), verified, accepted)
      ensures ok <==> applied && !old(applied)
    {
      if !complete || applied {
        return false;
      }
      if c != conn || c.asyncState != Invoked {
        return false;
      }
      ok := Complete(verified, accepted);
      if !ok {
        return;
      }
      applied := true;
      c.asyncState := AsyncState.Complete;
      ReleaseData();
    }

    method Free()
      requires !freed
      modifies this
      ensures Value() == FreeOp(old(Value()))
    {
      if !applied {
        ReleaseData();
      }
      freed := true;
    }
  }

  // ---------- what every call keeps ----------

  ghost predicate Has(log: seq<Event>, p: Event -> bool) {
    exists i :: 0 <= i < |log| && p(log[i])
  }

  lemma HasAppend(log: seq<Event>, e: Event, p: Event -> bool)
    ensures Has(log + [e], p) <==> Has(log, p) || p(e)
  {
    var log' := log + [e];
    if Has(log, p) {
      var i :| 0 <= i < |log| && p(log[i]);
      assert p(log'[i]);
    }
    if p(e) {
      assert p(log'[|log|]);
    }
  }

  predicate Succeeds(e: Event) {
    e.Completed? && e.ok
  }

  predicate Produces(e: Event) {
    e.Produced?
  }

  predicate FailsToDecrypt(e: Event) {
    e.Decrypted? && !e.ok
  }

  /** The result that was given last. */
  function LastOutput(log: seq<Event>): (out: Option<seq<byte>>)
  {
    if log == [] then None
    else if log[|log| - 1].Produced? then log[|log| - 1].output
    else LastOutput(log[..|log| - 1])
  }

  lemma LastOutputAppend(log: seq<Event>, e: Event)
    ensures LastOutput(log + [e]) == if e.Produced? then e.output else LastOutput(log)
  {
    assert (log + [e])[..|log|] == log;
  }

  predicate Touches(e: Event) {
    e.SignedInPlace? || e.Verified?
  }

  /**
   What may follow a history: on_complete runs only on a result, the last one given, which in strict
   mode was just verified as the signature, and never again once it succeeded. It is told of a failure
   exactly if a decryption failed. A verification sees the original digest exactly if nobody had used it before.
   */
  ghost predicate MayFollow(kind: OpType, log: seq<Event>, e: Event) {
    && (e.Completed? ==> Has(log, Produces) && !Has(log, Succeeds))
    && (e.Completed? ==> e.payload == LastOutput(log) && (e.rsaFailed <==> Has(log, FailsToDecrypt)))
    && (e.Completed? && kind == Sign && e.mode == Strict ==>
          log != [] && log[|log| - 1].Verified? && log[|log| - 1].ok && log[|log| - 1].signature == e.payload)
    && (e.Verified? ==> (e.untouched <==> !Has(log, Touches)))
  }

  ghost predicate Ordered(kind: OpType, log: seq<Event>) {
    forall j :: 0 <= j < |log| ==> MayFollow(kind, log[..j], log[j])
  }

  lemma OrderedAppend(kind: OpType, log: seq<Event>, e: Event)
    requires Ordered(kind, log) && MayFollow(kind, log, e)
    ensures Ordered(kind, log + [e])
  {
    var log' := log + [e];
    forall j | 0 <= j < |log'| ensures MayFollow(kind, log'[..j], log'[j]) {
      assert log'[..j] == log[..j];
      assert j < |log| ==> MayFollow(kind, log[..j], log[j]);
      assert log[..|log|] == log;
    }
  }

  /** The flags of an operation are what its history says. */
  ghost predicate Tracked(op: Op) {
    && (op.complete <==> Has(op.log, Produces))
    && (op.applied <==> Has(op.log, Succeeds))
    && (op.untouched <==> !Has(op.log, Touches))
    && (op.rsaFailed <==> Has(op.log, FailsToDecrypt))
    && Ordered(op.kind, op.log)
  }

  /** The release action ran once, when the operation was applied or freed, and not before. */
  ghost predicate ReleasedOnce(op: Op) {
    multiset(op.log)[Released] == if op.applied || op.freed then 1 else 0
  }

  /** One more event, and the flags it sets. */
  lemma Append(op: Op, e: Event, op': Op)
    requires Tracked(op) && MayFollow(op.kind, op.log, e) && op'.kind == op.kind && op'.log == op.log + [e]
    requires op'.complete == (op.complete || Produces(e)) && op'.applied == (op.applied || Succeeds(e))
    requires op'.untouched == (op.untouched && !Touches(e)) && op'.rsaFailed == (op.rsaFailed || FailsToDecrypt(e))
    ensures Tracked(op')
  {
    OrderedAppend(op.kind, op.log, e);
    HasAppend(op.log, e, Produces);
    HasAppend(op.log, e, Succeeds);
    HasAppend(op.log, e, Touches);
    HasAppend(op.log, e, FailsToDecrypt);
  }

  /** Until it is applied or freed, a complete operation holds the last result it was given. */
  ghost predicate Carries(op: Op) {
    op.complete && !op.applied && !op.freed ==> op.out == LastOutput(op.log)
  }

  // ---------- memory ----------

  /** After the operation was freed, buffers nobody can release any more. */
  predicate Leaks(op: Op) {
    op.freed && (op.out.Some? || op.lost > 0)
  }

  predicate EndsWithOutput(log: seq<Event>) {
    log != [] && log[|log| - 1].Produced? && log[|log| - 1].output.Some?
  }

  /** Result buffers come from signing attempts and from set_output, and the release action empties the last. */
  ghost predicate Accounted(op: Op) {
    var attempts := multiset(op.log)[Allocated];
    && op.lost == (if attempts > 0 then attempts - 1 else 0)
    && (!op.complete && !op.freed && op.kind == Sign ==> (op.out.Some? <==> attempts > 0))
    && (op.applied || op.freed ==> (op.out.Some? <==> EndsWithOutput(op.log)))
    && (op.kind == Decrypt ==> attempts == 0)
  }

  // ---------- every call keeps all of it ----------

  ghost predicate Sound(op: Op) {
    Tracked(op) && ReleasedOnce(op) && Accounted(op) && Carries(op) && (op.applied || op.rsaFailed ==> op.complete)
  }

  lemma NewSound(kind: OpType, mode: ValidationMode, initial: Option<seq<byte>>)
    ensures Sound(NewOp(kind, mode, initial))
  {
  }

  lemma PerformTracked(op: Op, result: Option<seq<byte>>, room: seq<byte>)
    requires Tracked(op) && (op.rsaFailed ==> op.complete)
    ensures Tracked(PerformOp(op, result, room).0)
  {
    var op' := PerformOp(op, result, room).0;
    if !op.complete && op.kind == Decrypt {
      var e := Decrypted(result.Some?);
      var used := op.(rsaFailed := result.None?, log := op.log + [e]);
      Append(op, e, used);
      Append(used, Produced(op'.out), op');
    } else if !op.complete {
      var tried := Tries(op);
      if result.Some? {
        Append(tried, Produced(result), tried.(complete := true, log := tried.log + [Produced(result)]));
      }
    }
  }

  /** An attempt to sign, whatever becomes of it. */
  lemma Tries(op: Op) returns (tried: Op)
    requires Tracked(op)
    ensures Tracked(tried) && tried.complete == op.complete && tried.applied == op.applied && tried.kind == op.kind
    ensures tried.untouched == (op.untouched && op.mode == Strict)
    ensures tried.log == (op.log + if op.mode == Fast then [Allocated, SignedInPlace] else [Allocated])
    ensures tried.rsaFailed == op.rsaFailed
  {
    tried := op.(log := op.log + [Allocated]);
    Append(op, Allocated, tried);
    if op.mode == Fast {
      var prepared := tried;
      tried := prepared.(untouched := false, log := prepared.log + [SignedInPlace]);
      Append(prepared, SignedInPlace, tried);
      assert tried.log == op.log + [Allocated, SignedInPlace];
    }
  }

  lemma ApplyTracked(op: Op, own: bool, state: AsyncState, verified: bool, accepted: bool)
    requires Tracked(op) && Carries(op) && !op.freed
    ensures Tracked(ApplyOp(op, own, state, verified, accepted).0)
  {
    var op' := ApplyOp(op, own, state, verified, accepted).0;
    if op.complete && !op.applied && own && state == Invoked {
      var checked := Checked(op, verified);
      if Verifies(op) {
        Append(op, Verified(op.out, op.untouched, verified), checked);
        LastOutputAppend(op.log, Verified(op.out, op.untouched, verified));
      }
      if !Verifies(op) || verified {
        var e := Completed(op.out, op.rsaFailed, op.mode, accepted);
        var done := checked.(applied := accepted, log := checked.log + [e]);
        Append(checked, e, done);
        if accepted {
          Append(done, Released, op');
        }
      }
    }
  }

  lemma PerformCounted(op: Op, result: Option<seq<byte>>, room: seq<byte>)
    requires ReleasedOnce(op) && Accounted(op) && (op.applied ==> op.complete) && !op.freed
    ensures var op' := PerformOp(op, result, room).0; ReleasedOnce(op') && Accounted(op')
  {
  }

  /** The buffers are accounted for while the operation is in use. */
  ghost predicate InUse(op: Op) {
    !op.applied && !op.freed && ReleasedOnce(op) && Accounted(op)
  }

  lemma PassingEvent(op: Op, e: Event, op': Op)
    requires InUse(op) && (e.Verified? || e.Completed?)
    requires op' == op.(log := op.log + [e], untouched := op'.untouched)
    ensures InUse(op')
  {
  }

  lemma ReleaseCounted(op: Op, op': Op)
    requires InUse(op) && op' == Release(op).(applied := op'.applied, freed := op'.freed)
    requires op'.freed || (op'.applied && op.complete)
    ensures ReleasedOnce(op') && Accounted(op')
  {
  }

  lemma ApplyCounted(op: Op, own: bool, state: AsyncState, verified: bool, accepted: bool)
    requires ReleasedOnce(op) && Accounted(op) && !op.freed
    ensures var op' := ApplyOp(op, own, state, verified, accepted).0; ReleasedOnce(op') && Accounted(op')
  {
    if op.complete && !op.applied && own && state == Invoked {
      var checked := Checked(op, verified);
      if Verifies(op) {
        PassingEvent(op, Verified(op.out, op.untouched, verified), checked);
      }
      if !Verifies(op) || verified {
        var e := Completed(op.out, op.rsaFailed, op.mode, accepted);
        var done := checked.(log := checked.log + [e]);
        PassingEvent(checked, e, done);
        if accepted {
          ReleaseCounted(done, Release(done.(applied := true)));
        }
      }
    }
  }

  lemma SetOutputCounted(op: Op, data: seq<byte>)
    requires ReleasedOnce(op) && Accounted(op) && !op.freed
    ensures ReleasedOnce(SetOutputOp(op, data)) && Accounted(SetOutputOp(op, data))
  {
  }

  lemma SetOutputSound(op: Op, data: seq<byte>)
    requires Sound(op) && !op.freed
    ensures Sound(SetOutputOp(op, data))
  {
    var op' := SetOutputOp(op, data);
    Append(op, Produced(op'.out), op');
    LastOutputAppend(op.log, Produced(op'.out));
    SetOutputCounted(op, data);
  }

  lemma FreeSound(op: Op)
    requires Sound(op) && !op.freed
    ensures Sound(FreeOp(op))
  {
    if !op.applied {
      Append(op, Released, Release(op));
      ReleaseCounted(op, FreeOp(op));
    }
  }

  // ---------- any number of connections and operations ----------

  /** An operation, the connection it belongs to, and whether it was handed to the application. */
  datatype Handed = Handed(conn: nat, given: bool, op: Op)

  datatype World = World(conns: map<nat, AsyncState>, ops: map<nat, Handed>)
  {
    function State(c: nat): (s: AsyncState)
    {
      if c in conns then conns[c] else NotInvoked
    }

    predicate Live(o: nat) {
      o in ops && !ops[o].op.freed
    }

    /** Handed out and not applied. */
    predicate Pending(o: nat) {
      o in ops && ops[o].given && !ops[o].op.applied
    }
  }

  /** What an application may do with an operation it was given. */
  datatype Call =
    | SetMode(mode: ValidationMode)
    | Perform(result: Option<seq<byte>>, room: seq<byte>)
    | SetOutput(data: seq<byte>)
    | Apply(c: nat, verified: bool, accepted: bool)
    | Free

  /** A step of the handshake, or a call. Operations are named by numbers that are never reused. */
  datatype Step =
    | Start(o: nat, c: nat, kind: OpType, mode: ValidationMode, initial: Option<seq<byte>>)
    | Guard(c: nat)
    | Use(o: nat, call: Call)

  /** The operation and the state of its own connection after a call; no call changes another connection. */
  function AfterCall(op: Op, home: nat, state: AsyncState, call: Call): (r: (Op, AsyncState))
  {
    match call
    case SetMode(mode) => (op.(mode := mode), state)
    case Perform(result, room) => (PerformOp(op, result, room).0, state)
    case SetOutput(data) => (SetOutputOp(op, data), state)
    case Apply(c, verified, accepted) => ApplyOp(op, c == home, state, verified, accepted)
    case Free => (FreeOp(op), state)
  }

  /** A call on an operation that does not exist or was freed is none an application may make: nothing happens. */
  function Next(w: World, s: Step): (w': World)
  {
    match s
    case Start(o, c, kind, mode, initial) =>
      var op := NewOp(kind, mode, initial);
      if o in w.ops then w
      else if w.State(c) != NotInvoked then w.(ops := w.ops[o := Handed(c, false, FreeOp(op))])
      else World(w.conns[c := Invoked], w.ops[o := Handed(c, true, op)])
    case Guard(c) => if w.State(c) == Complete then w.(conns := w.conns[c := NotInvoked]) else w
    case Use(o, call) =>
      if !w.Live(o) then w
      else
        var home := w.ops[o].conn;
        var (op, state) := AfterCall(w.ops[o].op, home, w.State(home), call);
        World(w.conns[home := state], w.ops[o := w.ops[o].(op := op)])
  }

  function Run(w: World, steps: seq<Step>): (w': World)
  {
    if steps == [] then w else Next(Run(w, steps[..|steps| - 1]), steps[|steps| - 1])
  }

  /** A connection waits exactly while one operation of its is handed out and not applied. */
  ghost predicate OneEach(w: World) {
    && (forall o :: w.Pending(o) ==> w.State(w.ops[o].conn) == Invoked)
    && (forall o, o' :: w.Pending(o) && w.Pending(o') && w.ops[o].conn == w.ops[o'].conn ==> o == o')
    && (forall c :: w.State(c) == Invoked ==> Awaited(w, c))
  }

  ghost predicate Awaited(w: World, c: nat) {
    exists o :: w.Pending(o) && w.ops[o].conn == c
  }

  ghost predicate AllSound(w: World) {
    forall o :: o in w.ops ==> Sound(w.ops[o].op) && (!w.ops[o].given ==> w.ops[o].op.freed)
  }

  lemma PerformSound(op: Op, result: Option<seq<byte>>, room: seq<byte>)
    requires Sound(op) && !op.freed
    ensures Sound(PerformOp(op, result, room).0)
  {
    PerformTracked(op, result, room);
    PerformCounted(op, result, room);
    PerformCarries(op, result, room);
  }

  lemma PerformCarries(op: Op, result: Option<seq<byte>>, room: seq<byte>)
    requires Carries(op)
    ensures Carries(PerformOp(op, result, room).0)
  {
    var op' := PerformOp(op, result, room).0;
    if !op.complete && op'.complete {
      LastOutputAppend(op'.log[..|op'.log| - 1], Produced(op'.out));
      assert op'.log == op'.log[..|op'.log| - 1] + [Produced(op'.out)];
    }
  }

  lemma ApplyCarries(op: Op, own: bool, state: AsyncState, verified: bool, accepted: bool)
    requires Carries(op) && !op.freed
    ensures Carries(ApplyOp(op, own, state, verified, accepted).0)
  {
    if op.complete && !op.applied && own && state == Invoked {
      var checked := Checked(op, verified);
      LastOutputAppend(op.log, Verified(op.out, op.untouched, verified));
      LastOutputAppend(checked.log, Completed(op.out, op.rsaFailed, op.mode, accepted));
    }
  }

  lemma ApplySound(op: Op, own: bool, state: AsyncState, verified: bool, accepted: bool)
    requires Sound(op) && !op.freed
    ensures Sound(ApplyOp(op, own, state, verified, accepted).0)
  {
    ApplyTracked(op, own, state, verified, accepted);
    ApplyCounted(op, own, state, verified, accepted);
    ApplyCarries(op, own, state, verified, accepted);
  }

  lemma SetModeSound(op: Op, mode: ValidationMode)
    requires Sound(op)
    ensures Sound(op.(mode := mode))
  {
  }

  lemma CallSound(op: Op, home: nat, state: AsyncState, call: Call)
    requires Sound(op) && !op.freed
    ensures Sound(AfterCall(op, home, state, call).0)
  {
    match call
    case SetMode(mode) => SetModeSound(op, mode);
    case Perform(result, room) => PerformSound(op, result, room);
    case SetOutput(data) => SetOutputSound(op, data);
    case Apply(c, verified, accepted) => ApplySound(op, c == home, state, verified, accepted);
    case Free => FreeSound(op);
  }

  lemma PutSound(w: World, o: nat, h: Handed, conns: map<nat, AsyncState>)
    requires AllSound(w) && Sound(h.op) && (!h.given ==> h.op.freed)
    ensures AllSound(World(conns, w.ops[o := h]))
  {
  }

  lemma NextSound(w: World, s: Step)
    requires AllSound(w)
    ensures AllSound(Next(w, s))
  {
    var w' := Next(w, s);
    match s
    case Start(o, c, kind, mode, initial) =>
      if o !in w.ops {
        NewSound(kind, mode, initial);
        FreeSound(NewOp(kind, mode, initial));
        PutSound(w, o, w'.ops[o], w'.conns);
      }
    case Guard(c) =>
    case Use(o, call) =>
      if w.Live(o) {
        var h := w.ops[o];
        CallSound(h.op, h.conn, w.State(h.conn), call);
        PutSound(w, o, w'.ops[o], w'.conns);
      }
  }

  /** A call applies the operation and resumes its connection, or does neither. */
  lemma CallEffect(op: Op, home: nat, state: AsyncState, call: Call)
    ensures var (op', state') := AfterCall(op, home, state, call);
      || (op'.applied == op.applied && state' == state)
      || (&& !op.applied && op'.applied && op.complete && state == Invoked && state' == Complete
          && call.Apply? && call.c == home)
  {
  }

  /** Operations that are pending on a connection which awaits them stay so. */
  lemma StillAwaited(w: World, w': World, c: nat)
    requires Awaited(w, c)
    requires forall o :: w.Pending(o) && w.ops[o].conn == c ==> w'.Pending(o) && w'.ops[o].conn == c
    ensures Awaited(w', c)
  {
    var o :| w.Pending(o) && w.ops[o].conn == c;
    assert w'.Pending(o);
  }

  function Put(w: World, o: nat, h: Handed, state: AsyncState): (w': World)
  {
    World(w.conns[h.conn := state], w.ops[o := h])
  }

  lemma PutSame(w: World, o: nat, h: Handed)
    requires OneEach(w) && o in w.ops
    requires h.conn == w.ops[o].conn && h.given == w.ops[o].given && h.op.applied == w.ops[o].op.applied
    ensures OneEach(Put(w, o, h, w.State(h.conn)))
  {
    var w' := Put(w, o, h, w.State(h.conn));
    forall c | w'.State(c) == Invoked ensures Awaited(w', c) { StillAwaited(w, w', c); }
  }

  lemma PutApplied(w: World, o: nat, h: Handed)
    requires OneEach(w) && w.Pending(o) && h.conn == w.ops[o].conn && h.op.applied
    ensures OneEach(Put(w, o, h, Complete))
  {
    var w' := Put(w, o, h, Complete);
    forall c | w'.State(c) == Invoked ensures Awaited(w', c) { StillAwaited(w, w', c); }
  }

  lemma PutRefused(w: World, o: nat, h: Handed)
    requires OneEach(w) && o !in w.ops && !h.given
    ensures OneEach(w.(ops := w.ops[o := h]))
  {
    var w' := w.(ops := w.ops[o := h]);
    forall c | w'.State(c) == Invoked ensures Awaited(w', c) { StillAwaited(w, w', c); }
  }

  lemma PutStarted(w: World, o: nat, h: Handed)
    requires OneEach(w) && o !in w.ops && h.given && !h.op.applied && w.State(h.conn) == NotInvoked
    ensures OneEach(Put(w, o, h, Invoked))
  {
    var w' := Put(w, o, h, Invoked);
    assert w'.Pending(o);
    forall c | w'.State(c) == Invoked ensures Awaited(w', c) {
      if c != h.conn {
        StillAwaited(w, w', c);
      }
    }
  }

  lemma NextOneEach(w: World, s: Step)
    requires AllSound(w) && OneEach(w)
    ensures OneEach(Next(w, s))
  {
    var w' := Next(w, s);
    match s
    case Start(o, c, kind, mode, initial) =>
      if o !in w.ops {
        if w.State(c) != NotInvoked {
          PutRefused(w, o, w'.ops[o]);
        } else {
          PutStarted(w, o, w'.ops[o]);
        }
      }
    case Guard(c) =>
      forall d | w'.State(d) == Invoked ensures Awaited(w', d) { StillAwaited(w, w', d); }
    case Use(o, call) =>
      if w.Live(o) {
        var h := w.ops[o];
        CallEffect(h.op, h.conn, w.State(h.conn), call);
        if w'.ops[o].op.applied == h.op.applied {
          PutSame(w, o, w'.ops[o]);
        } else {
          PutApplied(w, o, w'.ops[o]);
        }
      }
  }

  const IDLE := World(map[], map[])

  /** Over every run: at most one unapplied operation per connection, and every operation's history is in order. */
  lemma {:induction false} RunsAreSound(steps: seq<Step>)
    ensures AllSound(Run(IDLE, steps)) && OneEach(Run(IDLE, steps))
  {
    if steps != [] {
      var before := Run(IDLE, steps[..|steps| - 1]);
      RunsAreSound(steps[..|steps| - 1]);
      NextSound(before, steps[|steps| - 1]);
      NextOneEach(before, steps[|steps| - 1]);
    }
  }

  // ---------- what that means ----------

  /** The history of an operation, after any run. */
  lemma History(steps: seq<Step>, o: nat)
    requires o in Run(IDLE, steps).ops
    ensures var op := Run(IDLE, steps).ops[o].op;
      && (forall i, j :: 0 <= i < j < |op.log| && Succeeds(op.log[i]) ==> !op.log[j].Completed?)
      && (op.freed ==> multiset(op.log)[Released] == 1)
      && (op.freed ==> (Leaks(op) <==> multiset(op.log)[Allocated] >= 2 || EndsWithOutput(op.log)))
      && (op.applied <==> Has(op.log, Succeeds))
  {
    RunsAreSound(steps);
    var log, kind := Run(IDLE, steps).ops[o].op.log, Run(IDLE, steps).ops[o].op.kind;
    forall i, j | 0 <= i < j < |log| && Succeeds(log[i]) ensures !log[j].Completed? {
      assert MayFollow(kind, log[..j], log[j]);
      assert Succeeds(log[..j][i]);
    }
  }

  /** Event i gave this result, and none before j gave another. */
  ghost predicate GivesLast(log: seq<Event>, i: nat, j: nat, out: Option<seq<byte>>)
    requires j <= |log|
  {
    i < j && log[i].Produced? && log[i].output == out && forall l :: i < l < j ==> !log[l].Produced?
  }

  /** The last result is the output of the last event that gave one. */
  lemma {:induction false} LastOutputAt(log: seq<Event>) returns (i: nat)
    requires Has(log, Produces)
    ensures i < |log| && log[i].Produced? && LastOutput(log) == log[i].output
    ensures forall l :: i < l < |log| ==> !log[l].Produced?
  {
    var last := |log| - 1;
    if log[last].Produced? {
      i := last;
    } else {
      var k :| 0 <= k < |log| && Produces(log[k]);
      assert Produces(log[..last][k]);
      i := LastOutputAt(log[..last]);
    }
  }

  lemma InOrder(op: Op, j: nat)
    requires Ordered(op.kind, op.log) && j < |op.log|
    ensures op.log[j].Completed? ==> exists i :: 0 <= i < j && GivesLast(op.log, i, j, op.log[j].payload)
    ensures op.log[j].Completed? ==>
      (op.log[j].rsaFailed <==> exists i :: 0 <= i < j && op.log[i].Decrypted? && !op.log[i].ok)
    ensures op.log[j].Verified? ==>
      (op.log[j].untouched <==> forall i :: 0 <= i < j ==> !op.log[i].SignedInPlace? && !op.log[i].Verified?)
    ensures op.log[j].Completed? && op.kind == Sign && op.log[j].mode == Strict ==>
      j > 0 && op.log[j - 1].Verified? && op.log[j - 1].ok && op.log[j - 1].signature == op.log[j].payload
  {
    var before := op.log[..j];
    assert MayFollow(op.kind, before, op.log[j]);
    assert forall i :: 0 <= i < j ==> before[i] == op.log[i];
    if op.log[j].Completed? {
      var i := LastOutputAt(before);
      assert GivesLast(op.log, i, j, op.log[j].payload);
      forall i | 0 <= i < j && op.log[i].Decrypted? && !op.log[i].ok ensures Has(before, FailsToDecrypt) {
        assert FailsToDecrypt(before[i]);
      }
      if Has(before, FailsToDecrypt) {
        var d :| 0 <= d < j && FailsToDecrypt(before[d]);
        assert op.log[d].Decrypted?;
      }
    }
  }

  /**
   In any run, on_complete got the last result that was given before it, and was told of a failure
   exactly if a decryption had failed. In strict mode it came right after the verification of that
   signature, and a verification saw the original digest exactly if no fast signing and no
   verification came before.
   */
  lemma Before(steps: seq<Step>, o: nat, op: Op, j: nat)
    requires o in Run(IDLE, steps).ops && op == Run(IDLE, steps).ops[o].op && j < |op.log|
    ensures op.log[j].Completed? ==> exists i :: 0 <= i < j && GivesLast(op.log, i, j, op.log[j].payload)
    ensures op.log[j].Completed? ==>
      (op.log[j].rsaFailed <==> exists i :: 0 <= i < j && op.log[i].Decrypted? && !op.log[i].ok)
    ensures op.log[j].Verified? ==>
      (op.log[j].untouched <==> forall i :: 0 <= i < j ==> !op.log[i].SignedInPlace? && !op.log[i].Verified?)
    ensures op.log[j].Completed? && op.kind == Sign && op.log[j].mode == Strict ==>
      j > 0 && op.log[j - 1].Verified? && op.log[j - 1].ok && op.log[j - 1].signature == op.log[j].payload
  {
    RunsAreSound(steps);
    InOrder(op, j);
  }

  /** A connection is resumed only by applying its own operation, which has a result. */
  lemma ResumedByOwn(w: World, s: Step, c: nat)
    requires w.State(c) == Invoked && Next(w, s).State(c) != Invoked
    ensures Next(w, s).State(c) == Complete
    ensures s.Use? && s.call.Apply? && s.call.c == c && w.Live(s.o) && w.ops[s.o].conn == c && w.ops[s.o].op.complete
  {
    if s.Use? && w.Live(s.o) {
      CallEffect(w.ops[s.o].op, w.ops[s.o].conn, w.State(w.ops[s.o].conn), s.call);
    }
  }

  lemma FreedStays(w: World, o: nat, s: Step)
    requires w.Pending(o) && w.ops[o].op.freed
    ensures var w' := Next(w, s); w'.Pending(o) && w'.ops[o] == w.ops[o]
  {
  }

  /** An operation freed without being applied leaves its connection waiting, whatever is done later. */
  lemma {:induction false} FreedBlocks(w: World, o: nat, steps: seq<Step>)
    requires AllSound(w) && OneEach(w) && w.Pending(o) && w.ops[o].op.freed
    ensures var w' := Run(w, steps);
      AllSound(w') && OneEach(w') && w'.Pending(o) && w'.ops[o] == w.ops[o] && w'.State(w.ops[o].conn) == Invoked
  {
    if steps != [] {
      var before, s := Run(w, steps[..|steps| - 1]), steps[|steps| - 1];
      FreedBlocks(w, o, steps[..|steps| - 1]);
      NextSound(before, s);
      NextOneEach(before, s);
      FreedStays(before, o, s);
    }
  }

  /** Setting output once more after applying leaks it. */
  lemma LateOutputLeaks(op: Op, late: seq<byte>)
    requires op == NewOp(Sign, Fast, None) && late != []
    ensures var applied := ApplyOp(SetOutputOp(op, [1]), true, Invoked, true, true).0;
      applied.applied && Leaks(FreeOp(SetOutputOp(applied, late))) && !Leaks(FreeOp(applied))
  {
  }

  /** Signing again after a failure leaks the first buffer. */
  lemma RetriedSigningLeaks(op: Op, room: seq<byte>, signature: seq<byte>)
    requires op.kind == Sign && op == NewOp(Sign, op.mode, None)
    ensures var failed := PerformOp(op, None, room);
      var retried := PerformOp(failed.0, Some(signature), room);
      !failed.1 && retried.1 && !Leaks(FreeOp(failed.0)) && Leaks(FreeOp(retried.0))
  {
  }

  /** Signed fast and then made strict: the verification no longer sees the original digest. */
  lemma LateStrictness(op: Op, signature: seq<byte>, room: seq<byte>)
    requires op == NewOp(Sign, Fast, None)
    ensures var strict := PerformOp(op, Some(signature), room).0.(mode := Strict);
      Checked(strict, true).log[3] == Verified(Some(signature), false, true)
  {
  }
}
