/**
  What a refresh makes visible when none times out and membership does not change from the
  moment the reader looks at the number of recorders until all have answered. Before and after
  that window, recorders may arrive, leave, go idle and return, and some may stay idle.
 */
module PhaseVisibility {
  import opened Phases

  /** Which changes of membership a phase of the reader leaves undisturbed. */
  predicate MayChange(reader: Reader, op: Operation) {
    match reader
    case Resting | Draining => true
    case Drained => op != Drop
    case Gobbling => op != Reactivate
    case _ => false
  }

  /** A recorder is not cloned while it is behind, as it can be if it idled through a refresh. */
  predicate Calm(s: State, a: Action)
    requires Enabled(s, a)
  {
    match a
    case With(i, op) => CalmOperation(s.recorders[i], op, s.phase, s.reader)
    case Timeout => false
    case _ => true
  }

  predicate CalmOperation(r: Recorder, op: Operation, phase: nat, reader: Reader) {
    || op.Record? || op == LoadPhase || op == Send
    || (MayChange(reader, op) && (op == Clone ==> r.last == phase))
  }

  ghost predicate CalmRun(s: State, run: seq<Action>)
    requires ValidRun(s, run)
    decreases |run|
  {
    run != [] ==> Calm(s, run[0]) && CalmRun(Next(s, run[0]), run[1..])
  }

  /** An active recorder is at most one phase behind; once it has answered, it holds only new samples. */
  ghost predicate RecorderSteady(r: Recorder, phase: nat, reader: Reader) {
    && (r.status == Active ==> r.last == phase || (reader.Waiting? && r.last + 1 == phase))
    && (r.status == Active && r.last == phase && (reader.Waiting? || reader == Gobbling) ==>
          forall x <- r.local :: x.epoch >= phase)
    && (r.control.Sending? ==> r.control.phase == phase)
  }

  ghost predicate Steady(s: State) {
    && Inv(s)
    && (forall i :: 0 <= i < |s.recorders| ==> RecorderSteady(s.recorders[i], s.phase, s.reader))
    && (match s.reader
        case Waiting(n, phased) => n == Actives(s.recorders) && n == phased + InChannel(s) + Owing(s.recorders, s.phase)
        case Counted(n) => n == Actives(s.recorders) && InChannel(s) == 0
        case Drained => InChannel(s) == 0
        case _ => true)
  }

  lemma InitialSteady(base: multiset<Sample>)
    ensures Steady(Initial(base))
  {
    InitialInv(base);
  }

  lemma SteadyByRecorder(s: State, i: nat, op: Operation)
    requires Steady(s)
    requires Enabled(s, With(i, op)) && Calm(s, With(i, op))
    ensures Steady(Next(s, With(i, op)))
  {
    hide Inv, Owing, Actives, RecorderSteady, Moved, Owes, Possible, Sends;
    InvStep(s, With(i, op));
    RecorderAt(s, i);
    assert RecorderSteady(s.recorders[i], s.phase, s.reader);
    var r, t := s.recorders[i], Next(s, With(i, op));
    SteadyMove(r, op, s.phase, s.reader);
    if op == Clone {
      assert t.recorders == s.recorders[i := Moved(r, op, s.phase)] + [Recorder(multiset{}, r.last, AtRest, Active, 0)];
    } else {
      assert t.recorders == s.recorders[i := Moved(r, op, s.phase)];
    }
    if s.reader.Waiting? || s.reader.Counted? {
      CountsPerform(s, i, op, s.phase);
    }
  }

  /** What an operation leaves of a steady recorder, and of its clone. */
  lemma SteadyMove(r: Recorder, op: Operation, phase: nat, reader: Reader)
    requires RecorderSteady(r, phase, reader) && RecorderInOrder(r, phase)
    requires Possible(r, op, phase)
    requires CalmOperation(r, op, phase, reader)
    ensures var moved := Moved(r, op, phase);
      && RecorderSteady(moved, phase, reader)
      && (op == Clone ==> RecorderSteady(Recorder(multiset{}, r.last, AtRest, Active, 0), phase, reader))
      && (r.status == Active && op != Reactivate ==> moved.sent - r.sent == moved.last - r.last)
      && (reader == Drained ==> !Sends(r, op, phase))
      && (op.Record? || op == LoadPhase || op == Send ==>
            && moved.status == r.status
            && (Sends(r, op, phase) <==> op == Send)
            && (op == Send ==> reader.Waiting? && Owes(r, phase) && !Owes(moved, phase))
            && (op != Send ==> (Owes(moved, phase) <==> Owes(r, phase))))
  {
  }

  lemma SteadyByReader(s: State, a: Action)
    requires Steady(s)
    requires Enabled(s, a) && Calm(s, a) && !a.With?
    ensures Steady(Next(s, a))
  {
    hide Inv, Owing, Actives;
    InvStep(s, a);
    NobodyOwes(s.recorders, s.phase);
    NumbersKnown(s);
    if a == Bump {
      forall i | 0 <= i < |s.recorders|
        ensures s.recorders[i].last != s.phase + 1
        ensures RecorderSteady(s.recorders[i], s.phase + 1, Next(s, a).reader)
      {
        RecorderAt(s, i);
        assert RecorderSteady(s.recorders[i], s.phase, s.reader);
      }
      AllOwe(s.recorders, s.phase + 1);
    } else {
      forall i | 0 <= i < |s.recorders| ensures RecorderSteady(s.recorders[i], s.phase, Next(s, a).reader) {
        assert RecorderSteady(s.recorders[i], s.phase, s.reader);
        assert Owes(s.recorders[i], s.phase) <==> s.recorders[i].status == Active && s.recorders[i].last != s.phase;
      }
    }
  }

  lemma NumbersKnown(s: State)
    requires Inv(s)
    ensures s.count == Actives(s.recorders)
    ensures s.reader.Waiting? ==> s.reader.phased <= s.reader.n
  {
    hide ConservedAt, InOrder;
  }

  lemma {:induction false} SteadyAfter(s: State, run: seq<Action>)
    requires Steady(s)
    requires ValidRun(s, run) && CalmRun(s, run)
    ensures Steady(After(s, run))
    decreases |run|
  {
    hide Steady, Next, Calm;
    if run != [] {
      if run[0].With? {
        SteadyByRecorder(s, run[0].i, run[0].op);
      } else {
        SteadyByReader(s, run[0]);
      }
      SteadyAfter(Next(s, run[0]), run[1..]);
    }
  }

  // ---- visibility ----

  /** How often a sample is held by idle recorders. */
  function HeldIdle(rs: seq<Recorder>, x: Sample): nat {
    if rs == [] then 0
    else HeldIdle(rs[..|rs| - 1], x) + (if rs[|rs| - 1].status == Idle then rs[|rs| - 1].local[x] else 0)
  }

  lemma {:induction false} OnlyIdleHold(rs: seq<Recorder>, x: Sample)
    requires forall i :: 0 <= i < |rs| && rs[i].status != Idle ==> x !in rs[i].local
    ensures Held(rs, x) == HeldIdle(rs, x)
  {
    if rs != [] {
      OnlyIdleHold(rs[..|rs| - 1], x);
    }
  }

  lemma {:induction false} NoIdle(rs: seq<Recorder>, x: Sample)
    requires forall i :: 0 <= i < |rs| ==> rs[i].status != Idle
    ensures HeldIdle(rs, x) == 0
  {
    if rs != [] {
      NoIdle(rs[..|rs| - 1], x);
    }
  }

  /**
    In every calm run, whenever a refresh returns, every copy of a sample recorded before it
    raised the phase is merged, except those that recorders took along into their idle time.
   */
  lemma RefreshShowsAll(base: multiset<Sample>, run: seq<Action>, a: Action, x: Sample)
    requires ValidRun(Initial(base), run) && CalmRun(Initial(base), run)
    requires Returns(After(Initial(base), run), a)
    ensures
      var t := Next(After(Initial(base), run), a);
      && (x.epoch < t.phase ==> t.merged[x] + HeldIdle(t.recorders, x) == t.recorded[x])
      && (x.epoch < t.phase && (forall i :: 0 <= i < |t.recorders| ==> t.recorders[i].status != Idle) ==>
            t.merged[x] == t.recorded[x])
  {
    hide ValidRun, CalmRun, After, Inv, Actives, Owing, Held, HeldIdle;
    InitialSteady(base);
    SteadyAfter(Initial(base), run);
    var s := After(Initial(base), run);
    CopiesOf(s, x);
    if x.epoch < s.phase {
      forall i | 0 <= i < |s.recorders| && s.recorders[i].status != Idle ensures x !in s.recorders[i].local {
        RecorderAt(s, i);
        assert RecorderSteady(s.recorders[i], s.phase, s.reader);
      }
      OnlyIdleHold(s.recorders, x);
      if forall i :: 0 <= i < |s.recorders| ==> s.recorders[i].status != Idle {
        NoIdle(s.recorders, x);
      }
    }
  }

  lemma CopiesOf(s: State, x: Sample)
    requires Inv(s)
    requires InChannel(s) <= 0
    ensures s.recorded[x] == s.merged[x] + Held(s.recorders, x)
  {
    hide InOrder, Accounted, Sent, Held;
    assert ConservedAt(s, x);
    assert s.log[..s.received] == s.log;
  }

  // ---- one histogram per phase ----

  /** The recorder has not left since `s`, and its histograms keep step with phases. */
  ghost predicate InStep(s: State, t: State, i: nat) {
    && i < |s.recorders| && i < |t.recorders|
    && t.recorders[i].status != Idle
    && t.recorders[i].sent - s.recorders[i].sent == t.recorders[i].last - s.recorders[i].last
  }

  lemma InStepStep(s: State, t: State, a: Action, i: nat)
    requires Steady(t) && InStep(s, t, i)
    requires Enabled(t, a) && Calm(t, a)
    requires a != With(i, Deactivate)
    ensures InStep(s, Next(t, a), i)
  {
    hide Inv, Owing, Actives, RecorderSteady, Moved, Sends, Owes;
    if a.With? && a.i == i {
      RecorderAt(t, a.i);
      assert RecorderSteady(t.recorders[a.i], t.phase, t.reader);
      SteadyMove(t.recorders[a.i], a.op, t.phase, t.reader);
      Remains(t.recorders[a.i], a.op, t.phase);
    }
  }

  lemma Remains(r: Recorder, op: Operation, phase: nat)
    requires Possible(r, op, phase) && RecorderInOrder(r, phase)
    requires r.status != Idle && op != Deactivate
    ensures r.status == Active && op != Reactivate
    ensures Moved(r, op, phase).status != Idle
  {
  }

  lemma {:induction false} InStepAfter(s: State, t: State, run: seq<Action>, i: nat)
    requires Steady(t) && InStep(s, t, i)
    requires ValidRun(t, run) && CalmRun(t, run)
    requires With(i, Deactivate) !in run
    ensures Steady(After(t, run)) && InStep(s, After(t, run), i)
    decreases |run|
  {
    hide Steady, InStep, Next, Calm;
    if run != [] {
      InStepStep(s, t, run[0], i);
      if run[0].With? {
        SteadyByRecorder(t, run[0].i, run[0].op);
      } else {
        SteadyByReader(t, run[0]);
      }
      InStepAfter(s, Next(t, run[0]), run[1..], i);
    }
  }

  /** From one rest of the reader to a later one, a recorder that stayed has sent one histogram per phase. */
  lemma OneHistogramPerPhase(s: State, run: seq<Action>, i: nat)
    requires Steady(s) && s.reader == Resting
    requires ValidRun(s, run) && CalmRun(s, run)
    requires After(s, run).reader == Resting
    requires i < |s.recorders| && s.recorders[i].status == Active
    requires With(i, Deactivate) !in run
    ensures var t := After(s, run);
      && i < |t.recorders|
      && (t.recorders[i].status == Active ==> t.recorders[i].sent - s.recorders[i].sent == t.phase - s.phase)
  {
    hide ValidRun, CalmRun, After, Inv, Actives, Owing;
    InStepAfter(s, s, run, i);
    var t := After(s, run);
    assert RecorderSteady(s.recorders[i], s.phase, s.reader);
    assert RecorderSteady(t.recorders[i], t.phase, t.reader);
  }
}
