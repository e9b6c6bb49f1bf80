/**
 What the application gave and what on_complete gets: a ledger kept from the calls alone, and what every
 run makes of it.
 */
module AsyncLedgers {
  import opened Bytes
  import opened AsyncPkey

  /**
   What the calls on an operation say, without the operation: its result once there is one, the mode
   set last, whether a decryption failed, how often signing was tried, and whether once in fast mode.
   */
  datatype Ledger = Ledger(kind: OpType, initial: Option<seq<byte>>, mode: ValidationMode,
                           result: Option<Option<seq<byte>>>, failed: bool, attempts: nat, signedFast: bool)

  /** Output replaces the result at any time; performing gives one only if there is none. */
  function Entered(l: Ledger, call: Call): (l': Ledger)
  {
    match call
    case SetMode(mode) => l.(mode := mode)
    case SetOutput(data) => l.(result := Some(if |data| == 0 then None else Some(data)))
    case Perform(result, _) =>
      if l.result.Some? then l
      else if l.kind == Decrypt then
        if result.Some? then l.(result := Some(result)) else l.(result := Some(l.initial), failed := true)
      else
        var tried := l.(attempts := l.attempts + 1, signedFast := l.signedFast || l.mode == Fast);
        if result.Some? then tried.(result := Some(result)) else tried
    case Apply(_, _, _) => l
    case Free => l
  }

  /** The ledger of operation o after these steps, if it was started. */
  function LedgerOf(steps: seq<Step>, o: nat): (l: Option<Ledger>)
  {
    if steps == [] then None else
      var before, s := LedgerOf(steps[..|steps| - 1], o), steps[|steps| - 1];
      match s
      case Start(o', _, kind, mode, initial) =>
        if o' == o && before.None? then Some(Ledger(kind, initial, mode, None, false, 0, false)) else before
      case Guard(_) => before
      case Use(o', call) => if o' == o && before.Some? then Some(Entered(before.value, call)) else before
  }

  /** An operation is as its ledger says; the release action takes its result away. */
  ghost predicate Matches(op: Op, l: Ledger) {
    && op.kind == l.kind && op.mode == l.mode && (op.complete <==> l.result.Some?) && op.rsaFailed == l.failed
    && (op.complete && !op.applied && !op.freed ==> op.out == l.result.value)
    && (!op.complete && op.kind == Decrypt && !op.freed ==> op.out == l.initial)
  }

  predicate SignsInPlace(e: Event) {
    e.SignedInPlace?
  }

  /** The history shows the attempts to sign. */
  ghost predicate Shows(log: seq<Event>, l: Ledger) {
    multiset(log)[Allocated] == l.attempts && (l.signedFast <==> Has(log, SignsInPlace))
  }

  lemma ShowsMore(log: seq<Event>, l: Ledger, e: Event)
    requires Shows(log, l) && !e.Allocated? && !e.SignedInPlace?
    ensures Shows(log + [e], l)
  {
    HasAppend(log, e, SignsInPlace);
  }

  lemma ShowsAttempt(log: seq<Event>, l: Ledger, log': seq<Event>)
    requires Shows(log, l) && log' == log + if l.mode == Fast then [Allocated, SignedInPlace] else [Allocated]
    ensures Shows(log', l.(attempts := l.attempts + 1, signedFast := l.signedFast || l.mode == Fast))
  {
    HasAppend(log, Allocated, SignsInPlace);
    if l.mode == Fast {
      HasAppend(log + [Allocated], SignedInPlace, SignsInPlace);
      assert log' == log + [Allocated] + [SignedInPlace];
    }
  }

  lemma DecryptShows(log: seq<Event>, l: Ledger, ok: bool, out: Option<seq<byte>>)
    requires Shows(log, l)
    ensures Shows(log + [Decrypted(ok), Produced(out)], l)
  {
    ShowsMore(log, l, Decrypted(ok));
    ShowsMore(log + [Decrypted(ok)], l, Produced(out));
    assert log + [Decrypted(ok), Produced(out)] == log + [Decrypted(ok)] + [Produced(out)];
  }

  lemma SignShows(log: seq<Event>, l: Ledger, tried: seq<Event>, result: Option<seq<byte>>)
    requires Shows(log, l) && tried == log + if l.mode == Fast then [Allocated, SignedInPlace] else [Allocated]
    ensures var l' := l.(attempts := l.attempts + 1, signedFast := l.signedFast || l.mode == Fast);
      Shows(tried, l') && Shows(tried + [Produced(result)], l')
  {
    ShowsAttempt(log, l, tried);
    ShowsMore(tried, l.(attempts := l.attempts + 1, signedFast := l.signedFast || l.mode == Fast), Produced(result));
  }

  lemma PerformShows(op: Op, result: Option<seq<byte>>, room: seq<byte>, l: Ledger)
    requires Matches(op, l) && Shows(op.log, l)
    ensures Shows(PerformOp(op, result, room).0.log, Entered(l, Perform(result, room)))
  {
    if op.kind == Decrypt {
      DecryptShows(op.log, l, result.Some?, if result.Some? then result else op.out);
    } else {
      SignShows(op.log, l, op.log + if op.mode == Fast then [Allocated, SignedInPlace] else [Allocated], result);
    }
  }

  lemma ApplyShows(op: Op, own: bool, state: AsyncState, verified: bool, accepted: bool, l: Ledger)
    requires Shows(op.log, l)
    ensures Shows(ApplyOp(op, own, state, verified, accepted).0.log, l)
  {
    if op.complete && !op.applied && own && state == Invoked {
      var log, e := Checked(op, verified).log, Completed(op.out, op.rsaFailed, op.mode, accepted);
      ShowsMore(op.log, l, Verified(op.out, op.untouched, verified));
      ShowsMore(log, l, e);
      ShowsMore(log + [e], l, Released);
    }
  }

  lemma CallShows(op: Op, home: nat, state: AsyncState, call: Call, l: Ledger)
    requires Matches(op, l) && Shows(op.log, l)
    ensures Shows(AfterCall(op, home, state, call).0.log, Entered(l, call))
  {
    match call
    case SetMode(mode) =>
    case Perform(result, room) => PerformShows(op, result, room, l);
    case SetOutput(data) => ShowsMore(op.log, l, Produced(SetOutputOp(op, data).out));
    case Apply(c, verified, accepted) => ApplyShows(op, c == home, state, verified, accepted, l);
    case Free => ShowsMore(op.log, l, Released);
  }

  lemma CallMatches(op: Op, home: nat, state: AsyncState, call: Call, l: Ledger)
    requires Matches(op, l) && (op.applied || op.rsaFailed ==> op.complete)
    ensures Matches(AfterCall(op, home, state, call).0, Entered(l, call))
  {
  }

  ghost predicate LedgerHolds(w: World, steps: seq<Step>, o: nat) {
    && (o in w.ops <==> LedgerOf(steps, o).Some?)
    && (w.Live(o) ==> Matches(w.ops[o].op, LedgerOf(steps, o).value))
    && (w.Live(o) ==> Shows(w.ops[o].op.log, LedgerOf(steps, o).value))
  }

  lemma UseMatches(w: World, o: nat, call: Call, l: Ledger)
    requires w.Live(o) && Matches(w.ops[o].op, l) && Shows(w.ops[o].op.log, l) && AllSound(w)
    ensures var op := Next(w, Use(o, call)).ops[o].op;
      Matches(op, Entered(l, call)) && Shows(op.log, Entered(l, call))
  {
    var h := w.ops[o];
    CallMatches(h.op, h.conn, w.State(h.conn), call, l);
    CallShows(h.op, h.conn, w.State(h.conn), call, l);
  }

  lemma StepMatches(w: World, steps: seq<Step>, s: Step, o: nat)
    requires LedgerHolds(w, steps, o) && AllSound(w)
    ensures LedgerHolds(Next(w, s), steps + [s], o)
  {
    assert (steps + [s])[..|steps|] == steps;
    if s.Use? && s.o == o && w.Live(o) {
      UseMatches(w, o, s.call, LedgerOf(steps, o).value);
    }
  }

  lemma {:induction false} RunMatches(steps: seq<Step>, o: nat)
    ensures LedgerHolds(Run(IDLE, steps), steps, o)
  {
    if steps != [] {
      var earlier, s := steps[..|steps| - 1], steps[|steps| - 1];
      RunMatches(earlier, o);
      RunsAreSound(earlier);
      StepMatches(Run(IDLE, earlier), earlier, s, o);
      assert earlier + [s] == steps;
    }
  }

  /**
   Whatever the run, on_complete gets exactly the result that the calls gave last, the mode they set
   last, and the failure of the decryption if there was one.
   */
  lemma Delivers(steps: seq<Step>, o: nat, c: nat, verified: bool, accepted: bool, e: Event)
    requires var w := Run(IDLE, steps);
      && w.Live(o) && e.Completed?
      && Next(w, Use(o, Apply(c, verified, accepted))).ops[o].op.log != w.ops[o].op.log
      && e in Next(w, Use(o, Apply(c, verified, accepted))).ops[o].op.log[|w.ops[o].op.log|..]
    ensures var l := LedgerOf(steps, o);
      && l.Some? && l.value.result.Some?
      && e == Completed(l.value.result.value, l.value.failed, l.value.mode, accepted)
  {
    RunMatches(steps, o);
  }

  /**
   Applying resumes the connection exactly if the operation is its own and still pending, the calls
   gave a result, a strict signature verifies, and on_complete succeeds.
   */
  lemma ResumedIff(steps: seq<Step>, o: nat, c: nat, verified: bool, accepted: bool)
    requires Run(IDLE, steps).Live(o)
    ensures var w, l := Run(IDLE, steps), LedgerOf(steps, o);
      && l.Some?
      && (w.State(c) == Invoked && Next(w, Use(o, Apply(c, verified, accepted))).State(c) == Complete <==>
          && w.Pending(o) && w.ops[o].conn == c && l.value.result.Some? && accepted
          && (l.value.kind == Sign && l.value.mode == Strict ==> verified))
  {
    RunMatches(steps, o);
    RunsAreSound(steps);
    LiveIs(Run(IDLE, steps), o);
    ResumedFrom(Run(IDLE, steps), o, c, verified, accepted, LedgerOf(steps, o).value);
  }

  lemma LiveIs(w: World, o: nat)
    requires AllSound(w) && OneEach(w) && w.Live(o)
    ensures w.ops[o].given && Accounted(w.ops[o].op) && (w.Pending(o) ==> w.State(w.ops[o].conn) == Invoked)
  {
  }

  lemma ResumedFrom(w: World, o: nat, c: nat, verified: bool, accepted: bool, l: Ledger)
    requires w.Live(o) && w.ops[o].given && (w.Pending(o) ==> w.State(w.ops[o].conn) == Invoked)
    requires Matches(w.ops[o].op, l)
    ensures w.State(c) == Invoked && Next(w, Use(o, Apply(c, verified, accepted))).State(c) == Complete <==>
      && w.Pending(o) && w.ops[o].conn == c && l.result.Some? && accepted
      && (l.kind == Sign && l.mode == Strict ==> verified)
  {
    var h := w.ops[o];
    ApplyResumes(h.op, c == h.conn, w.State(h.conn), verified, accepted);
  }

  lemma ApplyResumes(op: Op, own: bool, state: AsyncState, verified: bool, accepted: bool)
    ensures ApplyOp(op, own, state, verified, accepted).1 ==
      if op.complete && !op.applied && own && state == Invoked && (op.kind == Sign && op.mode == Strict ==> verified)
         && accepted
      then Complete else state
  {
  }

  /**
   Freeing leaks exactly if the calls tried to sign twice, or the operation was applied and non-empty output
   was set last of all.
   */
  lemma LeaksByCalls(steps: seq<Step>, o: nat)
    requires Run(IDLE, steps).Live(o)
    ensures var w, l := Run(IDLE, steps), LedgerOf(steps, o);
      && l.Some?
      && (Leaks(Next(w, Use(o, Free)).ops[o].op) <==>
          l.value.attempts >= 2 || (w.ops[o].op.applied && EndsWithOutput(w.ops[o].op.log)))
  {
    RunMatches(steps, o);
    RunsAreSound(steps);
    LiveIs(Run(IDLE, steps), o);
    FreeLeaks(Run(IDLE, steps), o, LedgerOf(steps, o).value);
  }

  lemma FreeLeaks(w: World, o: nat, l: Ledger)
    requires w.Live(o) && Accounted(w.ops[o].op) && Shows(w.ops[o].op.log, l)
    ensures Leaks(Next(w, Use(o, Free)).ops[o].op) <==>
      l.attempts >= 2 || (w.ops[o].op.applied && EndsWithOutput(w.ops[o].op.log))
  {
    OpLeaks(w.ops[o].op, l);
  }

  lemma OpLeaks(op: Op, l: Ledger)
    requires Accounted(op) && !op.freed && Shows(op.log, l)
    ensures Leaks(FreeOp(op)) <==> l.attempts >= 2 || (op.applied && EndsWithOutput(op.log))
  {
  }
}
