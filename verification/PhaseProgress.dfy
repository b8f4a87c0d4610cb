/** That refreshes can always be completed: recorders that owe a histogram send it, and the reader returns. */
module PhaseProgress {
  import opened Phases

  /** The steps of one write with the given samples, as far as the recorder is behind. */
  function Write(i: nat, samples: multiset<Sample>): seq<Action> {
    [With(i, Record(samples))] + ([With(i, LoadPhase)] + [])
  }

  function WriteAndSend(i: nat, samples: multiset<Sample>): seq<Action> {
    [With(i, Record(samples))] + ([With(i, LoadPhase)] + ([With(i, Send)] + []))
  }

  /** The two steps that every write starts with. */
  lemma WriteBegins(s: State, i: nat, samples: multiset<Sample>)
    requires i < |s.recorders| && s.recorders[i].control == AtRest && s.recorders[i].status == Active
    requires forall x <- samples :: x.epoch == s.phase
    ensures Enabled(s, With(i, Record(samples)))
    ensures
      var r, s1 := s.recorders[i], Next(s, With(i, Record(samples)));
      && Enabled(s1, With(i, LoadPhase))
      && var s2 := Next(s1, With(i, LoadPhase));
      && s2 == s.(
        recorders := s.recorders[i := r.(
          local := r.local + samples,
          control := if Owes(r, s.phase) then Sending(s.phase) else AtRest)],
        recorded := s.recorded + samples)
  {
    var r := s.recorders[i];
    var s1 := Next(s, With(i, Record(samples)));
    assert s1.recorders == s.recorders[i := r.(local := r.local + samples, control := Wrote)];
    assert s1.recorders[i := s.recorders[i]] == s.recorders;
  }

  /** The step with which it ends if the recorder was behind. */
  lemma WriteEnds(s: State, i: nat)
    requires i < |s.recorders| && s.recorders[i].control.Sending?
    ensures Enabled(s, With(i, Send))
    ensures
      var r := s.recorders[i];
      Next(s, With(i, Send)) == s.(
        recorders := s.recorders[i := Recorder(multiset{}, r.control.phase, AtRest, r.status, r.sent + 1)],
        log := s.log + [r.local],
        extra := s.extra + 1)
  {
    var r := s.recorders[i];
    var moved := Recorder(multiset{}, r.control.phase, AtRest, r.status, r.sent + 1);
    assert s.recorders[i := moved] + [] == s.recorders[i := moved];
  }

  /** The next write of a recorder that owes a histogram sends it, with the samples of that write. */
  lemma WriteAnswers(s: State, i: nat, samples: multiset<Sample>)
    requires i < |s.recorders| && s.recorders[i].control == AtRest
    requires Owes(s.recorders[i], s.phase)
    requires forall x <- samples :: x.epoch == s.phase
    ensures ValidRun(s, WriteAndSend(i, samples))
    ensures
      var r, t := s.recorders[i], After(s, WriteAndSend(i, samples));
      && t.log == s.log + [r.local + samples]
      && t.recorders == s.recorders[i := Recorder(multiset{}, s.phase, AtRest, Active, r.sent + 1)]
      && !Owes(t.recorders[i], t.phase)
      && t.reader == s.reader && t.phase == s.phase && t.received == s.received && t.count == s.count
  {
    hide ValidRun, After, Enabled, Next;
    WriteBegins(s, i, samples);
    var s1 := Next(s, With(i, Record(samples)));
    var s2 := Next(s1, With(i, LoadPhase));
    WriteEnds(s2, i);
    EmptyRun(Next(s2, With(i, Send)));
    RunStep(s2, With(i, Send), []);
    RunStep(s1, With(i, LoadPhase), [With(i, Send)] + []);
    RunStep(s, With(i, Record(samples)), [With(i, LoadPhase)] + ([With(i, Send)] + []));
  }

  /** A write of a recorder that owes nothing sends nothing, and the samples stay with it. */
  lemma WriteKeeps(s: State, i: nat, samples: multiset<Sample>)
    requires i < |s.recorders| && s.recorders[i].control == AtRest
    requires s.recorders[i].status == Active && s.recorders[i].last == s.phase
    requires forall x <- samples :: x.epoch == s.phase
    ensures ValidRun(s, Write(i, samples))
    ensures
      var r, t := s.recorders[i], After(s, Write(i, samples));
      && t.log == s.log
      && t.recorders == s.recorders[i := r.(local := r.local + samples)]
      && t.reader == s.reader && t.phase == s.phase && t.received == s.received
  {
    hide ValidRun, After, Enabled, Next;
    WriteBegins(s, i, samples);
    var s1 := Next(s, With(i, Record(samples)));
    EmptyRun(Next(s1, With(i, LoadPhase)));
    RunStep(s1, With(i, LoadPhase), []);
    RunStep(s, With(i, Record(samples)), [With(i, LoadPhase)] + []);
  }

  /**
    A write that has loaded the phase before the reader raises it sends its histogram all the
    same, and the recorder owes another one for the new phase.
   */
  lemma OvertakenWrite(s: State, i: nat)
    requires Inv(s) && s.reader.Counted?
    requires i < |s.recorders| && s.recorders[i].control == Sending(s.phase)
    ensures ValidRun(s, [Bump] + ([With(i, Send)] + []))
    ensures
      var t := After(s, [Bump] + ([With(i, Send)] + []));
      && t.log == s.log + [s.recorders[i].local]
      && |t.recorders| == |s.recorders|
      && t.recorders[i].local == multiset{} && t.recorders[i].control == AtRest
      && Owes(t.recorders[i], t.phase)
  {
    hide ValidRun, After;
    RecorderAt(s, i);
    var s1 := Next(s, Bump);
    EmptyRun(Next(s1, With(i, Send)));
    RunStep(s1, With(i, Send), []);
    RunStep(s, Bump, [With(i, Send)] + []);
  }

  // ---- putting runs together ----

  lemma {:induction false} RunsJoin(s: State, a: seq<Action>, b: seq<Action>)
    requires ValidRun(s, a)
    requires ValidRun(After(s, a), b)
    ensures ValidRun(s, a + b)
    ensures After(s, a + b) == After(After(s, a), b)
    decreases |a|
  {
    hide Enabled, Next;
    if a == [] {
      assert a + b == b;
    } else {
      RunsJoin(Next(s, a[0]), a[1..], b);
      assert (a + b)[1..] == a[1..] + b;
    }
  }

  /** Only writes of recorders that are there, and steps of the reader other than giving up. */
  predicate Ordinary(a: Action) {
    match a
    case With(_, op) => op.Record? || op == LoadPhase || op == Send
    case NewRecorder => false
    case StartRefresh => false
    case Timeout => false
    case _ => true
  }

  ghost predicate OrdinaryRun(run: seq<Action>) {
    forall k :: 0 <= k < |run| ==> Ordinary(run[k])
  }

  /** What a run of ordinary steps leads to, and how. */
  ghost predicate LeadsTo(s: State, run: seq<Action>, t: State) {
    && ValidRun(s, run) && OrdinaryRun(run)
    && After(s, run) == t
  }

  lemma StepLeads(s: State, a: Action)
    requires Enabled(s, a) && Ordinary(a)
    ensures LeadsTo(s, [a], Next(s, a))
  {
    hide Enabled, Next, Ordinary;
    EmptyRun(Next(s, a));
    RunStep(s, a, []);
    assert [a] + [] == [a];
  }

  lemma Leads(s: State, a: seq<Action>, t: State, b: seq<Action>, u: State)
    requires LeadsTo(s, a, t) && LeadsTo(t, b, u)
    ensures LeadsTo(s, a + b, u)
  {
    hide ValidRun, After, Ordinary;
    RunsJoin(s, a, b);
  }

  // ---- the reader's own steps ----

  /** Leftovers are taken in until the channel is empty, and then the refresh returns. */
  lemma {:induction false} GobbleAll(s: State) returns (run: seq<Action>, t: State)
    requires Inv(s) && s.reader == Gobbling
    ensures LeadsTo(s, run, t) && t.reader == Resting
    decreases InChannel(s)
  {
    hide Inv, LeadsTo;
    var a := if s.received < |s.log| then Gobble else GobbleEnd;
    StepLeads(s, a);
    run, t := [a], Next(s, a);
    if a == Gobble {
      InvStep(s, a);
      var rest, u := GobbleAll(t);
      Leads(s, run, t, rest, u);
      run, t := run + rest, u;
    }
  }

  /** If enough histograms are on their way, the wait ends. */
  lemma {:induction false} ReceiveAll(s: State) returns (run: seq<Action>, t: State)
    requires Inv(s) && s.reader.Waiting?
    requires s.reader.n - s.reader.phased <= InChannel(s)
    ensures LeadsTo(s, run, t) && Inv(t) && t.reader == Gobbling
    decreases InChannel(s)
  {
    hide Inv, LeadsTo;
    var a := if s.reader.phased < s.reader.n then Receive else WaitEnd;
    StepLeads(s, a);
    InvStep(s, a);
    run, t := [a], Next(s, a);
    if a == Receive {
      var rest, u := ReceiveAll(t);
      Leads(s, run, t, rest, u);
      run, t := run + rest, u;
    }
  }

  /** Draining ends, and the number of recorders is read and the phase raised in one go. */
  lemma {:induction false} DrainAll(s: State) returns (run: seq<Action>, t: State)
    requires Inv(s) && s.reader in {Draining, Drained}
    ensures LeadsTo(s, run, t) && Inv(t) && Covered(t) && t.reader.Waiting?
    decreases InChannel(s), s.reader == Draining
  {
    hide Inv, LeadsTo, Covered;
    if s.reader == Draining {
      var a := if s.received < |s.log| then Drain else DrainEnd;
      StepLeads(s, a);
      InvStep(s, a);
      var rest, u := DrainAll(Next(s, a));
      Leads(s, [a], Next(s, a), rest, u);
      run, t := [a] + rest, u;
    } else {
      CountKnown(s);
      StepLeads(s, Snapshot);
      InvStep(s, Snapshot);
      var u := Next(s, Snapshot);
      StepLeads(u, Bump);
      InvStep(u, Bump);
      BumpCovers(u);
      Leads(s, [Snapshot], u, [Bump], Next(u, Bump));
      run, t := [Snapshot] + [Bump], Next(u, Bump);
    }
  }

  lemma CountKnown(s: State)
    requires Inv(s)
    ensures s.count >= 0
  {
    hide ConservedAt, InOrder, Actives;
  }

  // ---- the recorders' answers ----

  /** Whatever step of a write it is in, a recorder that owes a histogram gets to send one and to owe none. */
  lemma Answer(s: State, i: nat) returns (run: seq<Action>, t: State)
    requires Inv(s)
    requires i < |s.recorders| && Owes(s.recorders[i], s.phase)
    ensures LeadsTo(s, run, t) && Inv(t)
    ensures t.reader == s.reader
    ensures InChannel(t) >= InChannel(s) + 1
    ensures Owing(t.recorders, t.phase) == Owing(s.recorders, s.phase) - 1
  {
    hide Inv, Owing, LeadsTo;
    RecorderAt(s, i);
    run, t := FinishWrite(s, i);
    if Owes(t.recorders[i], t.phase) {
      var rest, u := FreshAnswer(t, i);
      Leads(s, run, t, rest, u);
      run, t := run + rest, u;
    }
  }

  /** A write in progress is finished; if it is not, nothing happens. */
  lemma FinishWrite(s: State, i: nat) returns (run: seq<Action>, t: State)
    requires Inv(s)
    requires i < |s.recorders| && Owes(s.recorders[i], s.phase)
    ensures LeadsTo(s, run, t) && Inv(t)
    ensures t.reader == s.reader && t.phase == s.phase
    ensures i < |t.recorders| && t.recorders[i].control == AtRest && t.recorders[i].status == Active
    ensures InChannel(t) >= InChannel(s)
    ensures Owing(t.recorders, t.phase) == Owing(s.recorders, s.phase) - if Owes(t.recorders[i], t.phase) then 0 else 1
    ensures !Owes(t.recorders[i], t.phase) ==> InChannel(t) >= InChannel(s) + 1
  {
    hide Inv, Owing, LeadsTo, Actives;
    RecorderAt(s, i);
    match s.recorders[i].control
    case AtRest =>
      NothingLeads(s);
      run, t := [], s;
    case Wrote =>
      StepLeads(s, With(i, LoadPhase));
      InvStep(s, With(i, LoadPhase));
      CountsPerform(s, i, LoadPhase, s.phase);
      var u := Next(s, With(i, LoadPhase));
      StepLeads(u, With(i, Send));
      InvStep(u, With(i, Send));
      CountsPerform(u, i, Send, s.phase);
      t := Next(u, With(i, Send));
      Leads(s, [With(i, LoadPhase)], u, [With(i, Send)], t);
      run := [With(i, LoadPhase)] + [With(i, Send)];
    case Sending(_) =>
      StepLeads(s, With(i, Send));
      InvStep(s, With(i, Send));
      CountsPerform(s, i, Send, s.phase);
      run, t := [With(i, Send)], Next(s, With(i, Send));
  }

  lemma NothingLeads(s: State)
    ensures LeadsTo(s, [], s)
  {
    EmptyRun(s);
  }

  lemma FreshAnswer(s: State, i: nat) returns (run: seq<Action>, t: State)
    requires Inv(s)
    requires i < |s.recorders| && Owes(s.recorders[i], s.phase) && s.recorders[i].control == AtRest
    ensures LeadsTo(s, run, t) && Inv(t)
    ensures t.reader == s.reader
    ensures InChannel(t) == InChannel(s) + 1
    ensures Owing(t.recorders, t.phase) == Owing(s.recorders, s.phase) - 1
  {
    hide Inv, Owing, Actives, ValidRun, After;
    run := WriteAndSend(i, multiset{});
    WriteAnswers(s, i, multiset{});
    InvRun(s, run);
    t := After(s, run);
    CountsUpdate(s.recorders, i, t.recorders[i], s.phase);
  }

  /** All recorders that owe a histogram answer, one after the other. */
  lemma {:induction false} AllAnswer(s: State) returns (run: seq<Action>, t: State)
    requires Inv(s)
    ensures LeadsTo(s, run, t) && Inv(t)
    ensures t.reader == s.reader
    ensures InChannel(t) >= InChannel(s) + Owing(s.recorders, s.phase)
    decreases Owing(s.recorders, s.phase)
  {
    hide Inv, Owing, LeadsTo, Owes;
    if Owing(s.recorders, s.phase) == 0 {
      NothingLeads(s);
      run, t := [], s;
    } else {
      NobodyOwes(s.recorders, s.phase);
      var i :| 0 <= i < |s.recorders| && Owes(s.recorders[i], s.phase);
      var first, u := Answer(s, i);
      var rest, v := AllAnswer(u);
      Leads(s, first, u, rest, v);
      run, t := first + rest, v;
    }
  }

  // ---- a refresh can always return ----

  /**
    From every state in which the reader is in a refresh, with the departures of the window made
    up for, ordinary writes and steps of the reader alone complete the refresh.
   */
  lemma RefreshCanReturn(s: State) returns (run: seq<Action>, t: State)
    requires Inv(s) && Covered(s) && s.reader != Resting
    requires s.reader.Counted? ==> s.silent <= s.extra
    ensures LeadsTo(s, run, t) && t.reader == Resting
  {
    hide Inv, LeadsTo, Owing;
    match s.reader
    case Gobbling =>
      run, t := GobbleAll(s);
    case Waiting(_, _) =>
      run, t := WaitEnds(s);
    case Counted(_) =>
      StepLeads(s, Bump);
      InvStep(s, Bump);
      BumpCovers(s);
      run, t := WaitEnds(Next(s, Bump));
      Leads(s, [Bump], Next(s, Bump), run, t);
      run := [Bump] + run;
    case _ =>
      var first, u := DrainAll(s);
      run, t := WaitEnds(u);
      Leads(s, first, u, run, t);
      run := first + run;
  }

  lemma WaitEnds(s: State) returns (run: seq<Action>, t: State)
    requires Inv(s) && Covered(s) && s.reader.Waiting?
    ensures LeadsTo(s, run, t) && t.reader == Resting
  {
    hide Inv, LeadsTo, Owing;
    var answers, u := AllAnswer(s);
    var receipts, v := ReceiveAll(u);
    var leftovers, w := GobbleAll(v);
    Leads(s, answers, u, receipts, v);
    Leads(s, answers + receipts, v, leftovers, w);
    run, t := (answers + receipts) + leftovers, w;
  }

  /** In particular from every waiting state that is reached with the two steps taken as one. */
  lemma RefreshReturns(base: multiset<Sample>, before: seq<Action>) returns (run: seq<Action>, t: State)
    requires ValidRun(Initial(base), before) && AtomicWindows(before)
    requires After(Initial(base), before).reader.Waiting?
    ensures LeadsTo(After(Initial(base), before), run, t) && t.reader == Resting
  {
    hide ValidRun, After, Inv, LeadsTo, WindowsBalanced;
    InitialInv(base);
    AtomicIsBalanced(Initial(base), before);
    CoveredRun(Initial(base), before);
    run, t := RefreshCanReturn(After(Initial(base), before));
  }
}
