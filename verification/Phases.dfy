/**
  The phase-shift protocol between many recorders and one reader, as a machine whose steps are
  the atomic ones of the program: a critical section under the lock, an atomic load or
  increment of the phase, a send or receive on the channel. Histograms are the multisets of
  their samples.
 */
module Phases {
  /** A recorded sample, tagged with the phase during which it was recorded. */
  datatype Sample = Sample(value: nat, epoch: nat)

  /** Where a recorder is inside a write: done, before loading the phase, or about to send. */
  datatype Control = AtRest | Wrote | Sending(phase: nat)

  datatype Status = Active | Idle | Gone

  /** `sent` counts the histograms sent by writes; it is history only. */
  datatype Recorder = Recorder(local: multiset<Sample>, last: nat, control: Control, status: Status, sent: nat)

  datatype Reader =
    | Resting
    | Draining
    | Drained
    | Counted(n: nat)
    | Waiting(n: nat, phased: nat)
    | Gobbling

  /**
    The channel is kept as the log of all histograms ever sent, of which the first `received`
    have been taken out. History only: `base` (what the reader's histogram held at first),
    `recorded`, and what happened since the reader last looked at the number of recorders:
    `silent` departures without a message, and `extra` arrivals and messages.
   */
  datatype State = State(
    recorders: seq<Recorder>,
    count: int,
    phase: nat,
    log: seq<multiset<Sample>>,
    received: nat,
    merged: multiset<Sample>,
    reader: Reader,
    base: multiset<Sample>,
    recorded: multiset<Sample>,
    silent: nat,
    extra: nat)

  /** What can be done with one recorder. */
  datatype Operation =
    | Record(samples: multiset<Sample>)
    | LoadPhase
    | Send
    | Clone
    | Drop
    | Deactivate
    | Reactivate

  datatype Action =
    | With(i: nat, op: Operation)
    | NewRecorder
    | StartRefresh
    | Drain
    | DrainEnd
    | Snapshot
    | Bump
    | Receive
    | WaitEnd
    | Timeout
    | Gobble
    | GobbleEnd

  /** A step with which a refresh returns, be it after all histograms or after a timeout. */
  predicate Returns(s: State, a: Action) {
    Enabled(s, a) && s.reader != Resting && Next(s, a).reader == Resting
  }

  function InChannel(s: State): int {
    |s.log| - s.received
  }

  predicate Possible(r: Recorder, op: Operation, phase: nat) {
    match op
    case Record(xs) => r.status == Active && r.control == AtRest && forall x <- xs :: x.epoch == phase
    case LoadPhase => r.control == Wrote
    case Send => r.control.Sending?
    case Clone => r.status != Gone && r.control == AtRest
    case Drop => r.status == Active && r.control == AtRest
    case Deactivate => r.status == Active && r.control == AtRest
    case Reactivate => r.status == Idle
  }

  predicate Enabled(s: State, a: Action) {
    match a
    case With(i, op) => i < |s.recorders| && Possible(s.recorders[i], op, s.phase)
    case NewRecorder => s.reader == Resting
    case StartRefresh => s.reader == Resting
    case Drain => s.reader == Draining && s.received < |s.log|
    case DrainEnd => s.reader == Draining && s.received >= |s.log|
    case Snapshot => s.reader == Drained && s.count >= 0 && InChannel(s) >= 0
    case Bump => s.reader.Counted?
    case Receive => s.reader.Waiting? && s.reader.phased < s.reader.n && s.received < |s.log|
    case WaitEnd => s.reader.Waiting? && s.reader.phased >= s.reader.n
    case Timeout => s.reader.Waiting? && s.reader.phased < s.reader.n
    case Gobble => s.reader == Gobbling && s.received < |s.log|
    case GobbleEnd => s.reader == Gobbling && s.received >= |s.log|
  }

  /** A recorder after an operation of its own. */
  function Moved(r: Recorder, op: Operation, phase: nat): Recorder
    requires Possible(r, op, phase)
  {
    match op
    case Record(xs) => r.(local := r.local + xs, control := Wrote)
    case LoadPhase => r.(control := if phase != r.last then Sending(phase) else AtRest)
    case Send => Recorder(multiset{}, r.control.phase, AtRest, r.status, r.sent + 1)
    case Clone => r
    case Drop => r.(local := multiset{}, status := Gone)
    case Deactivate =>
      if phase != r.last then r.(local := multiset{}, last := phase, status := Idle) else r.(status := Idle)
    case Reactivate => r.(last := phase, status := Active)
  }

  /** Whether an operation sends what the recorder holds. */
  predicate Sends(r: Recorder, op: Operation, phase: nat) {
    op == Send || op == Drop || (op == Deactivate && phase != r.last)
  }

  function Perform(s: State, i: nat, op: Operation): State
    requires Enabled(s, With(i, op))
  {
    var r := s.recorders[i];
    var moved := Moved(r, op, s.phase);
    var clones := if op == Clone then [Recorder(multiset{}, r.last, AtRest, Active, 0)] else [];
    var arrives, leaves := op == Clone || op == Reactivate, op == Drop || op == Deactivate;
    s.(recorders := s.recorders[i := moved] + clones,
       count := s.count + (if arrives then 1 else 0) - (if leaves then 1 else 0),
       log := if Sends(r, op, s.phase) then s.log + [r.local] else s.log,
       recorded := if op.Record? then s.recorded + op.samples else s.recorded,
       silent := if leaves && !Sends(r, op, s.phase) then s.silent + 1 else s.silent,
       extra := if arrives || op == Send then s.extra + 1 else s.extra)
  }

  function Next(s: State, a: Action): State
    requires Enabled(s, a)
  {
    match a
    case With(i, op) => Perform(s, i, op)
    case NewRecorder =>
      s.(recorders := s.recorders + [Recorder(multiset{}, s.phase, AtRest, Active, 0)], count := s.count + 1)
    case StartRefresh => s.(reader := Draining)
    case Drain => Taken(s)
    case DrainEnd => s.(reader := Drained)
    case Snapshot => s.(reader := Counted(s.count), silent := 0, extra := InChannel(s))
    case Bump => s.(phase := s.phase + 1, reader := Waiting(s.reader.n, 0))
    case Receive => Taken(s).(reader := Waiting(s.reader.n, s.reader.phased + 1))
    case WaitEnd => s.(reader := Gobbling)
    case Timeout => s.(reader := Gobbling)
    case Gobble => Taken(s)
    case GobbleEnd => s.(reader := Resting)
  }

  /** The oldest histogram in the channel is merged. */
  function Taken(s: State): State
    requires s.received < |s.log|
  {
    s.(received := s.received + 1, merged := s.merged + s.log[s.received])
  }

  function Initial(base: multiset<Sample>): State {
    State([], 0, 0, [], 0, base, Resting, base, base, 0, 0)
  }

  predicate ValidRun(s: State, run: seq<Action>)
    decreases |run|
  {
    run == [] || (Enabled(s, run[0]) && ValidRun(Next(s, run[0]), run[1..]))
  }

  function After(s: State, run: seq<Action>): State
    requires ValidRun(s, run)
    decreases |run|
  {
    if run == [] then s else After(Next(s, run[0]), run[1..])
  }

  // ---- sums over recorders and messages ----

  /** How often a sample is held by recorders. */
  function Held(rs: seq<Recorder>, x: Sample): nat {
    if rs == [] then 0 else Held(rs[..|rs| - 1], x) + rs[|rs| - 1].local[x]
  }

  function Actives(rs: seq<Recorder>): nat {
    if rs == [] then 0 else Actives(rs[..|rs| - 1]) + (if rs[|rs| - 1].status == Active then 1 else 0)
  }

  /** Active recorders whose next write sends a histogram. */
  function Owing(rs: seq<Recorder>, phase: nat): nat {
    if rs == [] then 0
    else Owing(rs[..|rs| - 1], phase) + (if Owes(rs[|rs| - 1], phase) then 1 else 0)
  }

  predicate Owes(r: Recorder, phase: nat) {
    r.status == Active && r.last != phase
  }

  /** How often a sample is in histograms. */
  function Sent(ms: seq<multiset<Sample>>, x: Sample): nat {
    if ms == [] then 0 else Sent(ms[..|ms| - 1], x) + ms[|ms| - 1][x]
  }

  lemma {:induction false} HeldUpdate(rs: seq<Recorder>, i: nat, r: Recorder, x: Sample)
    requires i < |rs|
    ensures Held(rs[i := r], x) == Held(rs, x) - rs[i].local[x] + r.local[x]
  {
    var n := |rs| - 1;
    if i < n {
      HeldUpdate(rs[..n], i, r, x);
      assert rs[i := r][..n] == rs[..n][i := r];
    } else {
      assert rs[i := r][..n] == rs[..n];
    }
  }

  lemma {:induction false} CountsUpdate(rs: seq<Recorder>, i: nat, r: Recorder, phase: nat)
    requires i < |rs|
    ensures Actives(rs[i := r]) ==
      Actives(rs) - (if rs[i].status == Active then 1 else 0) + (if r.status == Active then 1 else 0)
    ensures Owing(rs[i := r], phase) ==
      Owing(rs, phase) - (if Owes(rs[i], phase) then 1 else 0) + (if Owes(r, phase) then 1 else 0)
  {
    hide Owes;
    var n := |rs| - 1;
    if i < n {
      CountsUpdate(rs[..n], i, r, phase);
      assert rs[i := r][..n] == rs[..n][i := r];
    } else {
      assert rs[i := r][..n] == rs[..n];
    }
  }

  lemma SumsAppend(rs: seq<Recorder>, r: Recorder, phase: nat, x: Sample)
    ensures Held(rs + [r], x) == Held(rs, x) + r.local[x]
    ensures Actives(rs + [r]) == Actives(rs) + (if r.status == Active then 1 else 0)
    ensures Owing(rs + [r], phase) == Owing(rs, phase) + (if Owes(r, phase) then 1 else 0)
  {
    assert (rs + [r])[..|rs|] == rs;
  }

  lemma SentAppend(ms: seq<multiset<Sample>>, m: multiset<Sample>, x: Sample)
    ensures Sent(ms + [m], x) == Sent(ms, x) + m[x]
  {
    assert (ms + [m])[..|ms|] == ms;
  }

  lemma SentNext(ms: seq<multiset<Sample>>, k: nat, x: Sample)
    requires k < |ms|
    ensures Sent(ms[..k + 1], x) == Sent(ms[..k], x) + ms[k][x]
  {
    assert ms[..k + 1][..k] == ms[..k];
  }

  /** When everyone's last phase lies in the past, all active recorders owe a histogram. */
  lemma {:induction false} AllOwe(rs: seq<Recorder>, phase: nat)
    requires forall i :: 0 <= i < |rs| ==> rs[i].last != phase
    ensures Owing(rs, phase) == Actives(rs)
  {
    if rs != [] {
      AllOwe(rs[..|rs| - 1], phase);
    }
  }

  lemma {:induction false} NobodyOwes(rs: seq<Recorder>, phase: nat)
    ensures Owing(rs, phase) == 0 <==> forall i :: 0 <= i < |rs| ==> !Owes(rs[i], phase)
  {
    hide Owes;
    if rs != [] {
      var n := |rs| - 1;
      NobodyOwes(rs[..n], phase);
      assert forall i :: 0 <= i < n ==> rs[..n][i] == rs[i];
    }
  }

  lemma {:induction false} ActiveCounted(rs: seq<Recorder>, i: nat)
    requires i < |rs|
    requires rs[i].status == Active
    ensures Actives(rs) >= 1
  {
    if i < |rs| - 1 {
      ActiveCounted(rs[..|rs| - 1], i);
    }
  }

  // ---- what every step keeps ----

  /** All copies of a sample are accounted for: merged, on their way, or held by a recorder. */
  ghost predicate ConservedAt(s: State, x: Sample) {
    && s.received <= |s.log|
    && s.recorded[x] == s.base[x] + Sent(s.log, x) + Held(s.recorders, x)
    && s.merged[x] == s.base[x] + Sent(s.log[..s.received], x)
  }

  ghost predicate InOrder(s: State) {
    forall i :: 0 <= i < |s.recorders| ==> RecorderInOrder(s.recorders[i], s.phase)
  }

  ghost predicate RecorderInOrder(r: Recorder, phase: nat) {
    && r.last <= phase
    && (r.control == Wrote ==> r.status == Active)
    && (r.control.Sending? ==> r.status == Active && r.last < r.control.phase <= phase)
    && (r.status == Gone ==> r.local == multiset{})
  }

  /** Between looking at the number of recorders and raising the phase, departures and arrivals are on the books. */
  ghost predicate Accounted(s: State) {
    && s.count == Actives(s.recorders)
    && (s.reader.Counted? ==> s.reader.n + s.extra == s.count + InChannel(s) + s.silent)
    && (s.reader.Waiting? ==> s.reader.phased <= s.reader.n)
  }

  ghost predicate Inv(s: State)
    ensures Inv(s) ==> s.received <= |s.log|
  {
    assert ConservedAt(s, Sample(0, 0)) ==> s.received <= |s.log|;
    && (forall x :: ConservedAt(s, x))
    && InOrder(s)
    && Accounted(s)
  }

  lemma ConservedByReader(s: State, a: Action, x: Sample)
    requires Enabled(s, a) && !a.With? && !a.NewRecorder?
    requires ConservedAt(s, x)
    ensures ConservedAt(Next(s, a), x)
  {
    if s.received < |s.log| {
      SentNext(s.log, s.received, x);
    }
  }

  lemma ConservedByRecorder(s: State, i: nat, op: Operation, x: Sample)
    requires Enabled(s, With(i, op))
    requires ConservedAt(s, x)
    ensures ConservedAt(Perform(s, i, op), x)
  {
    hide Held, Sent;
    var r := s.recorders[i];
    var t := Perform(s, i, op);
    if Sends(r, op, s.phase) {
      SentAppend(s.log, r.local, x);
      assert t.log[..s.received] == s.log[..s.received];
    }
    HeldUpdate(s.recorders, i, Moved(r, op, s.phase), x);
    if op == Clone {
      SumsAppend(s.recorders[i := r], Recorder(multiset{}, r.last, AtRest, Active, 0), 0, x);
    } else {
      assert t.recorders == s.recorders[i := Moved(r, op, s.phase)];
    }
  }

  lemma InOrderStep(s: State, a: Action)
    requires Enabled(s, a)
    requires InOrder(s)
    ensures InOrder(Next(s, a))
  {
    var t := Next(s, a);
    if a.With? {
      assert RecorderInOrder(s.recorders[a.i], s.phase);
      assert RecorderInOrder(Moved(s.recorders[a.i], a.op, s.phase), s.phase);
    }
  }

  /** What an operation does to the numbers of active and of owing recorders. */
  lemma CountsPerform(s: State, i: nat, op: Operation, phase: nat)
    requires Enabled(s, With(i, op))
    ensures
      var r, rs, rs' := s.recorders[i], s.recorders, Perform(s, i, op).recorders;
      var moved := Moved(r, op, s.phase);
      var clone := Recorder(multiset{}, r.last, AtRest, Active, 0);
      && Actives(rs') == Actives(rs) - (if r.status == Active then 1 else 0) + (if moved.status == Active then 1 else 0)
           + (if op == Clone then 1 else 0)
      && Owing(rs', phase) ==
        Owing(rs, phase) - (if Owes(r, phase) then 1 else 0) + (if Owes(moved, phase) then 1 else 0)
           + (if op == Clone && Owes(clone, phase) then 1 else 0)
  {
    hide Owing, Actives, Owes;
    var r := s.recorders[i];
    var moved := Moved(r, op, s.phase);
    CountsUpdate(s.recorders, i, moved, phase);
    if op == Clone {
      SumsAppend(s.recorders[i := moved], Recorder(multiset{}, r.last, AtRest, Active, 0), phase, Sample(0, 0));
    } else {
      assert Perform(s, i, op).recorders == s.recorders[i := moved];
    }
  }

  lemma AccountedStep(s: State, a: Action)
    requires Enabled(s, a)
    requires Accounted(s) && InOrder(s) && s.received <= |s.log|
    ensures Accounted(Next(s, a))
  {
    hide Owing, Actives, Owes;
    if a.With? {
      assert RecorderInOrder(s.recorders[a.i], s.phase);
      CountsPerform(s, a.i, a.op, 0);
    } else if a.NewRecorder? {
      SumsAppend(s.recorders, Recorder(multiset{}, s.phase, AtRest, Active, 0), 0, Sample(0, 0));
    }
  }

  /** One step of anyone keeps all of it. */
  lemma InvStep(s: State, a: Action)
    requires Enabled(s, a)
    requires Inv(s)
    ensures Inv(Next(s, a))
  {
    hide InOrder, Sent, Held, Actives;
    forall x ensures ConservedAt(Next(s, a), x) {
      assert ConservedAt(s, x);
      if a.With? {
        ConservedByRecorder(s, a.i, a.op, x);
      } else if a.NewRecorder? {
        SumsAppend(s.recorders, Recorder(multiset{}, s.phase, AtRest, Active, 0), 0, x);
      } else {
        ConservedByReader(s, a, x);
      }
    }
    InOrderStep(s, a);
    AccountedStep(s, a);
    assert ConservedAt(Next(s, a), Sample(0, 0));
  }

  lemma InitialInv(base: multiset<Sample>)
    ensures Inv(Initial(base))
  {
  }

  lemma {:induction false} InvRun(s: State, run: seq<Action>)
    requires Inv(s)
    requires ValidRun(s, run)
    ensures Inv(After(s, run))
    decreases |run|
  {
    hide Inv, Enabled;
    if run != [] {
      InvStep(s, run[0]);
      InvRun(Next(s, run[0]), run[1..]);
    }
  }

  /**
    No interleaving loses or invents a sample: each recorded one is merged, in the channel or
    held by one recorder, a dropped recorder holds nothing, and the number of recorders that the
    reader looks at is that of the active ones, so it never underflows.
   */
  lemma Conservation(base: multiset<Sample>, run: seq<Action>, x: Sample)
    requires ValidRun(Initial(base), run)
    ensures
      var s := After(Initial(base), run);
      && s.received <= |s.log|
      && s.recorded[x] == s.merged[x] + Sent(s.log[s.received..], x) + Held(s.recorders, x)
      && (forall i :: 0 <= i < |s.recorders| && s.recorders[i].status == Gone ==> s.recorders[i].local == multiset{})
      && s.count == Actives(s.recorders) >= 0
  {
    hide Next, Enabled, Sent, Held, Actives, ValidRun, After;
    InitialInv(base);
    InvRun(Initial(base), run);
    var s := After(Initial(base), run);
    assert ConservedAt(s, x);
    SentSplit(s.log, s.received, x);
    forall i | 0 <= i < |s.recorders| && s.recorders[i].status == Gone ensures s.recorders[i].local == multiset{} {
      assert RecorderInOrder(s.recorders[i], s.phase);
    }
  }

  lemma {:induction false} SentSplit(ms: seq<multiset<Sample>>, k: nat, x: Sample)
    requires k <= |ms|
    ensures Sent(ms, x) == Sent(ms[..k], x) + Sent(ms[k..], x)
    decreases |ms|
  {
    if k < |ms| {
      var n := |ms| - 1;
      SentSplit(ms[..n], k, x);
      assert ms[..n][..k] == ms[..k];
      assert ms[k..][..n - k] == ms[..n][k..];
    } else {
      assert ms[..k] == ms;
    }
  }

  /** A recorder that may leave is counted, so the number cannot drop below zero. */
  lemma CountCovers(s: State, i: nat, op: Operation)
    requires Inv(s)
    requires op == Drop || op == Deactivate
    requires Enabled(s, With(i, op))
    ensures s.count >= 1
  {
    hide ConservedAt, InOrder, Actives;
    ActiveCounted(s.recorders, i);
  }

  // ---- returning from a refresh ----

  lemma LogStep(s: State, a: Action)
    requires Enabled(s, a)
    ensures s.log <= Next(s, a).log
    ensures s.received <= Next(s, a).received
  {
  }

  /** Messages are never forgotten, and those received stay received. */
  lemma {:induction false} LogGrows(s: State, run: seq<Action>)
    requires Inv(s)
    requires ValidRun(s, run)
    ensures s.log <= After(s, run).log
    ensures s.received <= After(s, run).received
    decreases |run|
  {
    hide Inv, Enabled, Next;
    if run != [] {
      InvStep(s, run[0]);
      LogStep(s, run[0]);
      LogGrows(Next(s, run[0]), run[1..]);
    }
  }

  /**
    When a refresh returns, the channel is empty. So everything sent before it began, be it by
    a recorder dropped since, is in the merged histogram, in every interleaving.
   */
  lemma SentIsMerged(s: State, run: seq<Action>, a: Action, x: Sample)
    requires Inv(s)
    requires ValidRun(s, run)
    requires Returns(After(s, run), a)
    ensures
      var t := Next(After(s, run), a);
      && t.received == |t.log|
      && s.log <= t.log
      && t.merged[x] == t.base[x] + Sent(t.log, x)
      && t.recorded[x] == t.merged[x] + Held(t.recorders, x)
  {
    hide ValidRun, After, InOrder, Accounted, Sent, Held;
    InvRun(s, run);
    LogGrows(s, run);
    var t := After(s, run);
    assert ConservedAt(t, x);
    assert t.log[..|t.log|] == t.log;
  }

  // ---- progress ----

  /** The messages that the reader still waits for are on their way or owed. */
  ghost predicate Covered(s: State) {
    s.reader.Waiting? ==> s.reader.n - s.reader.phased <= InChannel(s) + Owing(s.recorders, s.phase)
  }

  /** No interleaving of writes, clones, drops, departures and returns leaves the reader waiting for nothing. */
  lemma CoveredStep(s: State, a: Action)
    requires Inv(s)
    requires Enabled(s, a)
    requires s.reader.Waiting? && Covered(s)
    ensures Covered(Next(s, a))
  {
    hide Inv, Owing, Actives;
    if a.With? {
      RecorderAt(s, a.i);
      CountsPerform(s, a.i, a.op, s.phase);
    }
  }

  lemma RecorderAt(s: State, i: nat)
    requires Inv(s)
    requires i < |s.recorders|
    ensures RecorderInOrder(s.recorders[i], s.phase)
  {
    hide ConservedAt, Accounted;
  }

  /**
    In the program the lock is released between reading the number of recorders and raising the
    phase. The wait that follows is covered if and only if, in that window, no more recorders
    left without sending than arrived or sent something.
   */
  lemma BumpCovers(s: State)
    requires Inv(s)
    requires s.reader.Counted?
    ensures Covered(Next(s, Bump)) <==> s.silent <= s.extra
  {
    hide ConservedAt;
    forall i | 0 <= i < |s.recorders| ensures s.recorders[i].last != s.phase + 1 {
      assert RecorderInOrder(s.recorders[i], s.phase);
    }
    AllOwe(s.recorders, s.phase + 1);
  }

  /** In a run, whenever the phase is raised, the departures in the window before are made up for. */
  ghost predicate WindowsBalanced(s: State, run: seq<Action>)
    requires ValidRun(s, run)
    decreases |run|
  {
    run != [] ==>
      && (run[0] == Bump ==> s.silent <= s.extra)
      && WindowsBalanced(Next(s, run[0]), run[1..])
  }

  lemma {:induction false} CoveredRun(s: State, run: seq<Action>)
    requires Inv(s) && Covered(s)
    requires ValidRun(s, run)
    requires WindowsBalanced(s, run)
    ensures Inv(After(s, run)) && Covered(After(s, run))
    decreases |run|
  {
    hide Inv, Covered;
    if run != [] {
      InvStep(s, run[0]);
      CoveredNext(s, run[0]);
      CoveredRun(Next(s, run[0]), run[1..]);
    }
  }

  lemma CoveredNext(s: State, a: Action)
    requires Inv(s) && Covered(s)
    requires Enabled(s, a)
    requires a == Bump ==> s.silent <= s.extra
    ensures Covered(Next(s, a))
  {
    hide Inv, Owing;
    if s.reader.Waiting? {
      CoveredStep(s, a);
    } else if a == Bump {
      BumpCovers(s);
    }
  }

  /** Nothing happens between reading the number of recorders and raising the phase. */
  ghost predicate AtomicWindows(run: seq<Action>) {
    forall k :: 0 < k < |run| && run[k] == Bump ==> run[k - 1] == Snapshot
  }

  /** If the two steps were one, as intended, every window would be balanced. */
  lemma {:induction false} AtomicIsBalanced(s: State, run: seq<Action>)
    requires Inv(s)
    requires ValidRun(s, run)
    requires AtomicWindows(run)
    requires run != [] && run[0] == Bump ==> s.silent <= s.extra
    ensures WindowsBalanced(s, run)
    decreases |run|
  {
    hide Inv;
    if run != [] {
      InvStep(s, run[0]);
      var t, rest := Next(s, run[0]), run[1..];
      assert forall k :: 0 < k < |rest| ==> rest[k] == run[k + 1] && rest[k - 1] == run[k];
      if rest != [] && rest[0] == Bump {
        assert run[1] == Bump;
      }
      AtomicIsBalanced(t, rest);
    }
  }

  /**
    Progress with the two steps taken as one: in every reachable state in which the reader waits
    for a histogram and the channel is empty, some active recorder owes one with its next write.
   */
  lemma NeverWaitsForNothing(base: multiset<Sample>, run: seq<Action>)
    requires ValidRun(Initial(base), run)
    requires AtomicWindows(run)
    ensures
      var s := After(Initial(base), run);
      Enabled(s, Timeout) && InChannel(s) == 0 ==>
        exists i :: 0 <= i < |s.recorders| && Owes(s.recorders[i], s.phase)
  {
    hide Next, Inv, Owes;
    InitialInv(base);
    AtomicIsBalanced(Initial(base), run);
    CoveredRun(Initial(base), run);
    var s := After(Initial(base), run);
    NobodyOwes(s.recorders, s.phase);
  }

  // ---- the window between reading the number of recorders and raising the phase ----

  /** The reader waits, and nobody owes it anything. */
  ghost predicate Stalled(s: State) {
    && s.reader.Waiting? && s.reader.phased < s.reader.n
    && InChannel(s) == 0
    && Owing(s.recorders, s.phase) == 0
  }

  function StallingRun(): seq<Action> {
    [NewRecorder] + ([StartRefresh] + ([DrainEnd] + ([Snapshot] + ([With(0, Deactivate)] + ([Bump] + [])))))
  }

  lemma RunStep(s: State, a: Action, rest: seq<Action>)
    requires Enabled(s, a)
    requires ValidRun(Next(s, a), rest)
    ensures ValidRun(s, [a] + rest)
    ensures After(s, [a] + rest) == After(Next(s, a), rest)
  {
    hide Enabled, Next;
    assert ([a] + rest)[1..] == rest;
  }

  /** A lone recorder, and a reader about to look at the number of recorders. */
  function Lone(base: multiset<Sample>): State {
    State([Recorder(multiset{}, 0, AtRest, Active, 0)], 1, 0, [], 0, base, Drained, base, base, 0, 0)
  }

  /** The recorder has left between the two steps of the reader. */
  function Left(base: multiset<Sample>): State {
    State([Recorder(multiset{}, 0, AtRest, Idle, 0)], 0, 1, [], 0, base, Waiting(1, 0), base, base, 1, 0)
  }

  lemma LoneReached(base: multiset<Sample>, rest: seq<Action>)
    requires ValidRun(Lone(base), rest)
    ensures ValidRun(Initial(base), [NewRecorder] + ([StartRefresh] + ([DrainEnd] + rest)))
    ensures After(Initial(base), [NewRecorder] + ([StartRefresh] + ([DrainEnd] + rest))) == After(Lone(base), rest)
  {
    hide ValidRun, After;
    var s1 := Next(Initial(base), NewRecorder);
    var s2 := Next(s1, StartRefresh);
    assert Next(s2, DrainEnd) == Lone(base);
    RunStep(s2, DrainEnd, rest);
    RunStep(s1, StartRefresh, [DrainEnd] + rest);
    RunStep(Initial(base), NewRecorder, [StartRefresh] + ([DrainEnd] + rest));
  }

  lemma LeftReached(base: multiset<Sample>)
    ensures ValidRun(Lone(base), [Snapshot] + ([With(0, Deactivate)] + ([Bump] + [])))
    ensures After(Lone(base), [Snapshot] + ([With(0, Deactivate)] + ([Bump] + []))) == Left(base)
  {
    hide ValidRun, After;
    var s1 := Next(Lone(base), Snapshot);
    var s2 := Next(s1, With(0, Deactivate));
    assert Next(s2, Bump) == Left(base);
    EmptyRun(Left(base));
    RunStep(s2, Bump, []);
    RunStep(s1, With(0, Deactivate), [Bump] + []);
    RunStep(Lone(base), Snapshot, [With(0, Deactivate)] + ([Bump] + []));
  }

  lemma EmptyRun(s: State)
    ensures ValidRun(s, []) && After(s, []) == s
  {
  }

  /** As the program is written, a lone recorder that goes idle in the window stalls the reader. */
  lemma SilentDepartureStalls(base: multiset<Sample>)
    ensures ValidRun(Initial(base), StallingRun())
    ensures Stalled(After(Initial(base), StallingRun()))
  {
    hide ValidRun, After;
    LeftReached(base);
    LoneReached(base, [Snapshot] + ([With(0, Deactivate)] + ([Bump] + [])));
    NobodyOwes(Left(base).recorders, 1);
  }

  /** No recorder is dropped or cloned, and the reader does not give up. */
  ghost predicate NoRescue(run: seq<Action>) {
    forall k :: 0 <= k < |run| ==> run[k] != Timeout && (run[k].With? ==> run[k].op != Drop && run[k].op != Clone)
  }

  lemma StallStep(s: State, a: Action)
    requires Inv(s) && Stalled(s)
    requires Enabled(s, a)
    requires NoRescue([a])
    ensures Stalled(Next(s, a))
  {
    hide Inv, Owing, Actives, Owes;
    assert [a][0] == a;
    if a.With? {
      RecorderAt(s, a.i);
      CountsPerform(s, a.i, a.op, s.phase);
      NobodyOwes(s.recorders, s.phase);
      StallPossible(s.recorders[a.i], a.op, s.phase);
    }
  }

  lemma StallPossible(r: Recorder, op: Operation, phase: nat)
    requires RecorderInOrder(r, phase)
    requires !Owes(r, phase)
    requires Possible(r, op, phase)
    requires op != Drop && op != Clone
    ensures !Sends(r, op, phase) && !Owes(Moved(r, op, phase), phase)
  {
  }

  /** No amount of writing, leaving and returning ends a stall. */
  lemma {:induction false} StallIsPermanent(s: State, run: seq<Action>)
    requires Inv(s) && Stalled(s)
    requires ValidRun(s, run)
    requires NoRescue(run)
    ensures Stalled(After(s, run))
    decreases |run|
  {
    hide Inv, Stalled;
    if run != [] {
      InvStep(s, run[0]);
      StallStep(s, run[0]);
      StallIsPermanent(Next(s, run[0]), run[1..]);
    }
  }
}
