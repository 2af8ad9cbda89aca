/**
 The race of one CONNECT dial (pkg/httpx/proxy_client.go, connectDialer and resolveConnectResult):
 the dialing goroutine, the watcher goroutine, and cancellation of the context, from the moment the
 proxy is connected and the watcher started.
 */
module ConnectDial {

  // What the dial returned.
  datatype Result = Success | Failed | Cancelled

  // The dialing goroutine. The handshake has I/O operations left to do; failed tells how it ended.
  datatype Main =
    | Shaking(left: nat)
    | WantLock(failed: bool)
    | SetDone(failed: bool)
    | Unlock(failed: bool)
    | StopWatcher(failed: bool)
    | Resolve(failed: bool)
    | FailedAndClosed
    | Discard
    | Returned(result: Result)

  // The watcher goroutine.
  datatype Watcher = Waiting | WantsLock | Checks | Closes | Unlocks | Ended

  datatype Owner = Nobody | ByMain | ByWatcher

  datatype State = State(main: Main, watcher: Watcher, mu: Owner, handshakeDone: bool, stopped: bool,
    cancelled: bool, closed: bool)

  // PeerAnswers and PeerFails are the peer's doing (or the deadline's), Cancel the caller's.
  datatype Step =
    | Cancel | PeerAnswers | PeerFails | ClosedUnderneath | HandshakeEnds | MainStep
    | SeeCancelled | SeeStopped | WatcherStep

  ghost predicate Init(s: State) {
    && s.main.Shaking? && s.watcher == Waiting && s.mu == Nobody
    && !s.handshakeDone && !s.stopped && !s.closed
  }

  predicate Enabled(s: State, step: Step) {
    match step
    case Cancel => !s.cancelled
    case PeerAnswers => s.main.Shaking? && s.main.left > 0 && !s.closed
    case PeerFails => s.main.Shaking? && s.main.left > 0 && !s.closed
    case ClosedUnderneath => s.main.Shaking? && s.main.left > 0 && s.closed
    case HandshakeEnds => s.main.Shaking? && s.main.left == 0
    case MainStep => !s.main.Shaking? && !s.main.Returned? && (s.main.WantLock? ==> s.mu == Nobody)
    case SeeCancelled => s.watcher == Waiting && s.cancelled
    case SeeStopped => s.watcher == Waiting && s.stopped
    case WatcherStep => s.watcher != Waiting && s.watcher != Ended && (s.watcher == WantsLock ==> s.mu == Nobody)
  }

  function ApplyMain(s: State): State
    requires Enabled(s, MainStep)
  {
    match s.main
    case WantLock(f) => s.(main := SetDone(f), mu := ByMain)
    case SetDone(f) => s.(main := Unlock(f), handshakeDone := true)
    case Unlock(f) => s.(main := StopWatcher(f), mu := Nobody)
    case StopWatcher(f) => s.(main := Resolve(f), stopped := true)
    case Resolve(f) =>
      if f then s.(main := FailedAndClosed, closed := true)
      else if s.cancelled then s.(main := Discard)
      else s.(main := Returned(Success))
    case FailedAndClosed => s.(main := Returned(if s.cancelled then Cancelled else Failed))
    case Discard => s.(main := Returned(Cancelled), closed := true)
  }

  function ApplyWatcher(s: State): State
    requires Enabled(s, WatcherStep)
  {
    match s.watcher
    case WantsLock => s.(watcher := Checks, mu := ByWatcher)
    case Checks => s.(watcher := if s.handshakeDone then Unlocks else Closes)
    case Closes => s.(watcher := Unlocks, closed := true)
    case Unlocks => s.(watcher := Ended, mu := Nobody)
  }

  function Apply(s: State, step: Step): State
    requires Enabled(s, step)
  {
    match step
    case Cancel => s.(cancelled := true)
    case PeerAnswers => s.(main := Shaking(s.main.left - 1))
    case PeerFails => s.(main := WantLock(true))
    case ClosedUnderneath => s.(main := WantLock(true))
    case HandshakeEnds => s.(main := WantLock(false))
    case MainStep => ApplyMain(s)
    case SeeCancelled => s.(watcher := WantsLock)
    case SeeStopped => s.(watcher := Ended)
    case WatcherStep => ApplyWatcher(s)
  }

  predicate Legal(s: State, run: seq<Step>)
    decreases |run|
  {
    run == [] || (Enabled(s, run[0]) && Legal(Apply(s, run[0]), run[1..]))
  }

  function After(s: State, run: seq<Step>): State
    requires Legal(s, run)
    decreases |run|
  {
    if run == [] then s else After(Apply(s, run[0]), run[1..])
  }

  // ---------------------------------------------------------------- the invariant

  // The mutex, the flag and the channel say what the goroutines have done.
  ghost predicate InStep(s: State) {
    && (s.mu == ByMain <==> s.main.SetDone? || s.main.Unlock?)
    && (s.mu == ByWatcher <==> s.watcher == Checks || s.watcher == Closes || s.watcher == Unlocks)
    && (s.handshakeDone <==> !s.main.Shaking? && !s.main.WantLock? && !s.main.SetDone?)
    && (s.stopped <==> s.main.Resolve? || s.main.FailedAndClosed? || s.main.Discard? || s.main.Returned?)
  }

  // The watcher closes only a connection whose handshake is still running, and only when cancelled.
  ghost predicate ClosesRightly(s: State) {
    && (s.watcher == Closes ==> !s.handshakeDone)
    && (s.watcher != Waiting && s.watcher != Ended ==> s.cancelled)
    && (s.watcher == Unlocks || s.watcher == Ended ==> s.handshakeDone || s.closed)
    && (s.closed ==> s.cancelled || s.main.FailedAndClosed? || s.main == Returned(Failed))
  }

  // What was returned tells whether the connection is open.
  ghost predicate ReturnsRightly(s: State) {
    && (s.main == Returned(Success) ==> !s.closed)
    && (s.main == Returned(Failed) || s.main == Returned(Cancelled) || s.main.FailedAndClosed? ==> s.closed)
    && (s.main == Returned(Cancelled) || s.main.Discard? ==> s.cancelled)
  }

  ghost predicate Inv(s: State) {
    InStep(s) && ClosesRightly(s) && ReturnsRightly(s)
  }

  lemma StepInv(s: State, step: Step)
    requires Inv(s) && Enabled(s, step)
    ensures Inv(Apply(s, step))
  {
  }

  lemma {:induction false} RunInv(s: State, run: seq<Step>)
    requires Inv(s) && Legal(s, run)
    ensures Inv(After(s, run))
    decreases |run|
  {
    if run != [] {
      StepInv(s, run[0]);
      RunInv(Apply(s, run[0]), run[1..]);
    }
  }

  lemma {:induction false} ReturnedStays(s: State, run: seq<Step>)
    requires Legal(s, run) && s.main.Returned?
    ensures After(s, run).main == s.main
    decreases |run|
  {
    if run != [] {
      ReturnedStays(Apply(s, run[0]), run[1..]);
    }
  }

  // In every interleaving: after a successful return the connection is open and stays so, whatever
  // the watcher and the caller's context do later; after an error it is closed.
  lemma ReturnIsSafe(s: State, before: seq<Step>, after: seq<Step>)
    requires Init(s) && Legal(s, before) && Legal(After(s, before), after)
    ensures var now := After(s, before);
            var later := After(now, after);
            now.main.Returned? ==>
              && later.main == now.main
              && (later.closed <==> now.main.result != Success)
              && (now.main.result == Cancelled ==> now.cancelled)
  {
    RunInv(s, before);
    RunInv(After(s, before), after);
    if After(s, before).main.Returned? {
      ReturnedStays(After(s, before), after);
    }
  }

  // ---------------------------------------------------------------- what is returned

  // The dialing goroutine decides between the handshake's outcome and the cancellation it sees at
  // that moment.
  ghost predicate SawCancel(s: State, run: seq<Step>)
    requires Legal(s, run)
    decreases |run|
  {
    run != [] && (SeesCancel(s, run[0]) || SawCancel(Apply(s, run[0]), run[1..]))
  }

  ghost predicate SeesCancel(s: State, step: Step) {
    step == MainStep && s.cancelled && (s.main == Resolve(false) || s.main == FailedAndClosed)
  }

  ghost predicate Fails(run: seq<Step>) {
    PeerFails in run || ClosedUnderneath in run
  }

  // The handshake is over and failed or not as f says; nothing has been returned.
  ghost predicate Over(m: Main, f: bool) {
    || m == WantLock(f) || m == SetDone(f) || m == Unlock(f) || m == StopWatcher(f) || m == Resolve(f)
    || (m == FailedAndClosed && f) || (m == Discard && !f)
  }

  lemma MainOver(s: State, f: bool)
    requires Enabled(s, MainStep) && Over(s.main, f)
    ensures var t := ApplyMain(s);
      && (t.main.Returned? ==>
            t.main.result == if s.main.Discard? || SeesCancel(s, MainStep) then Cancelled else if f then Failed else Success)
      && (!t.main.Returned? ==>
            Over(t.main, f) && (t.main.Discard? <==> s.main.Discard? || SeesCancel(s, MainStep)))
  {
  }

  lemma OverStep(s: State, step: Step, f: bool)
    requires Enabled(s, step) && Over(s.main, f)
    ensures step != HandshakeEnds && step != PeerFails && step != ClosedUnderneath
    ensures step != MainStep ==> Apply(s, step).main == s.main && !SeesCancel(s, step)
  {
  }

  // From a handshake that is over, a dial returns Cancelled if it sees the cancellation, and
  // otherwise what the handshake came to.
  lemma {:induction false} ReturnsOutcome(s: State, run: seq<Step>, f: bool)
    requires Legal(s, run) && Over(s.main, f) && After(s, run).main.Returned?
    ensures HandshakeEnds !in run && !Fails(run)
    ensures After(s, run).main.result
         == if s.main.Discard? || SawCancel(s, run) then Cancelled else if f then Failed else Success
    decreases |run|
  {
    var step, t := run[0], Apply(s, run[0]);
    assert run == [step] + run[1..];
    OverStep(s, step, f);
    if step == MainStep {
      MainOver(s, f);
    }
    if t.main.Returned? {
      ReturnedStays(t, run[1..]);
      ReturnedSawNothing(t, run[1..]);
    } else {
      ReturnsOutcome(t, run[1..], f);
    }
  }

  lemma {:induction false} ReturnedSawNothing(s: State, run: seq<Step>)
    requires Legal(s, run) && s.main.Returned?
    ensures !SawCancel(s, run) && HandshakeEnds !in run && !Fails(run)
    decreases |run|
  {
    if run != [] {
      ReturnedSawNothing(Apply(s, run[0]), run[1..]);
      assert run == [run[0]] + run[1..];
    }
  }

  // A dial that returned had a handshake that ended or failed, not both; it returned Cancelled
  // exactly when it saw its context cancelled, and otherwise Success exactly when it ended.
  lemma {:induction false} DialOutcome(s: State, run: seq<Step>)
    requires s.main.Shaking? && Legal(s, run) && After(s, run).main.Returned?
    ensures HandshakeEnds in run <==> !Fails(run)
    ensures After(s, run).main.result
         == if SawCancel(s, run) then Cancelled else if HandshakeEnds in run then Success else Failed
    decreases |run|
  {
    var t := Apply(s, run[0]);
    assert run == [run[0]] + run[1..];
    if t.main.Shaking? {
      DialOutcome(t, run[1..]);
    } else {
      ReturnsOutcome(t, run[1..], run[0] != HandshakeEnds);
    }
  }

  lemma {:induction false} SeesOnlyCancellation(s: State, run: seq<Step>)
    requires Legal(s, run) && !s.cancelled && Cancel !in run
    ensures !SawCancel(s, run) && !After(s, run).cancelled
    decreases |run|
  {
    if run != [] {
      assert run == [run[0]] + run[1..];
      SeesOnlyCancellation(Apply(s, run[0]), run[1..]);
    }
  }

  // So with nothing cancelled a dial succeeds if and only if the proxy let its handshake end, and
  // fails if and only if the peer failed it.
  lemma DialSucceeds(s: State, run: seq<Step>)
    requires Init(s) && !s.cancelled && Legal(s, run) && Cancel !in run && After(s, run).main.Returned?
    ensures After(s, run).main.result == Success <==> HandshakeEnds in run
    ensures After(s, run).main.result == Failed <==> PeerFails in run
  {
    DialOutcome(s, run);
    SeesOnlyCancellation(s, run);
    NothingClosedUnderneath(s, run);
  }

  lemma {:induction false} NothingClosedUnderneath(s: State, run: seq<Step>)
    requires Inv(s) && !s.cancelled && Legal(s, run) && Cancel !in run
    ensures ClosedUnderneath !in run
    decreases |run|
  {
    if run != [] {
      StepInv(s, run[0]);
      assert run == [run[0]] + run[1..];
      NothingClosedUnderneath(Apply(s, run[0]), run[1..]);
    }
  }

  // ---------------------------------------------------------------- every dial ends

  function MainRank(m: Main): nat {
    match m
    case Shaking(left) => 8 + left
    case WantLock(_) => 7
    case SetDone(_) => 6
    case Unlock(_) => 5
    case StopWatcher(_) => 4
    case Resolve(_) => 3
    case FailedAndClosed => 2
    case Discard => 2
    case Returned(_) => 0
  }

  function WatcherRank(w: Watcher): nat {
    match w
    case Waiting => 5
    case WantsLock => 4
    case Checks => 3
    case Closes => 2
    case Unlocks => 1
    case Ended => 0
  }

  function Measure(s: State): nat {
    MainRank(s.main) + WatcherRank(s.watcher) + if s.cancelled then 0 else 1
  }

  lemma StepLowers(s: State, step: Step)
    requires Enabled(s, step)
    ensures Measure(Apply(s, step)) < Measure(s)
  {
    if step == MainStep {
      MainLowers(s);
    } else if step == WatcherStep {
      WatcherLowers(s);
    }
  }

  lemma MainLowers(s: State)
    requires Enabled(s, MainStep)
    ensures var t := ApplyMain(s);
      MainRank(t.main) < MainRank(s.main) && t.watcher == s.watcher && t.cancelled == s.cancelled
  {
  }

  lemma WatcherLowers(s: State)
    requires Enabled(s, WatcherStep)
    ensures var t := ApplyWatcher(s);
      WatcherRank(t.watcher) < WatcherRank(s.watcher) && t.main == s.main && t.cancelled == s.cancelled
  {
  }

  // No run is longer than this bound.
  lemma {:induction false} RunsAreBounded(s: State, run: seq<Step>)
    requires Legal(s, run)
    ensures |run| + Measure(After(s, run)) <= Measure(s)
    decreases |run|
  {
    if run != [] {
      StepLowers(s, run[0]);
      RunsAreBounded(Apply(s, run[0]), run[1..]);
    }
  }

  // Some step that needs neither the peer nor the caller.
  ghost predicate CanGoOn(s: State) {
    || Enabled(s, ClosedUnderneath) || Enabled(s, HandshakeEnds) || Enabled(s, MainStep)
    || Enabled(s, SeeCancelled) || Enabled(s, SeeStopped) || Enabled(s, WatcherStep)
  }

  // Where nothing can go on by itself, both goroutines have ended, or the dial waits for the peer
  // with its connection open and its context live; so a cancelled dial always ends.
  lemma StopsOnlyWhenDone(s: State, run: seq<Step>)
    requires Init(s) && Legal(s, run)
    ensures var t := After(s, run);
            !CanGoOn(t) <==> (|| (t.main.Returned? && t.watcher == Ended)
                              || (t.main.Shaking? && t.main.left > 0 && !t.closed && !t.cancelled && t.watcher == Waiting))
  {
    RunInv(s, run);
  }
}
