/**
 Every crawl ends. A page may yield any finite number of links, so no number known in advance
 bounds a run; each step instead makes a vector of counters lexicographically smaller.
 */
module CrawlTermination {
  import opened Basics
  import opened Frontiers
  import opened CrawlProtocol
  import opened CrawlSafety

  // ---------------------------------------------------------------- vectors of equal length

  ghost predicate LexLess(u: seq<nat>, v: seq<nat>)
    decreases |v|
  {
    |u| == |v| && v != [] && (u[0] < v[0] || (u[0] == v[0] && LexLess(u[1..], v[1..])))
  }

  // A property of vectors that passes from all smaller ones to the next.
  ghost predicate Progressive(n: nat, P: seq<nat> -> bool) {
    forall v: seq<nat> :: |v| == n && AllBelow(P, v) ==> P(v)
  }

  ghost predicate AllBelow(P: seq<nat> -> bool, v: seq<nat>) {
    forall u: seq<nat> :: LexLess(u, v) ==> P(u)
  }

  // The lexicographic order is well-founded, as an induction principle.
  lemma {:induction false} LexInduction(n: nat, P: seq<nat> -> bool, v: seq<nat>)
    requires Progressive(n, P) && |v| == n
    ensures P(v)
    decreases n, 1
  {
    if n == 0 {
      assert AllBelow(P, v);
    } else {
      LexInductionFrom(n, P, v[0], v[1..]);
      assert v == [v[0]] + v[1..];
    }
  }

  lemma {:induction false} LexInductionFrom(n: nat, P: seq<nat> -> bool, a: nat, t: seq<nat>)
    requires n > 0 && Progressive(n, P) && |t| == n - 1
    ensures P([a] + t)
    decreases n, 0, a
  {
    var Q := (t: seq<nat>) => P([a] + t);
    forall r: seq<nat> | |r| == n - 1 && AllBelow(Q, r) ensures Q(r) {
      var v := [a] + r;
      forall u: seq<nat> | LexLess(u, v) ensures P(u) {
        assert u == [u[0]] + u[1..] && v[1..] == r;
        if u[0] == a {
          assert Q(u[1..]);
        } else {
          LexInductionFrom(n, P, u[0], u[1..]);
        }
      }
      assert AllBelow(P, v);
    }
    LexInduction(n - 1, Q, t);
    assert Q(t);
  }

  ghost predicate Drops(vs: nat -> seq<nat>, i: nat) {
    LexLess(vs(i + 1), vs(i))
  }

  ghost predicate StopsDropping(vs: nat -> seq<nat>) {
    exists i: nat :: !Drops(vs, i)
  }

  lemma StopsLater(vs: nat -> seq<nat>, rest: nat -> seq<nat>)
    requires (forall i: nat :: rest(i) == vs(i + 1)) && StopsDropping(rest)
    ensures StopsDropping(vs)
  {
    var i: nat :| !Drops(rest, i);
    assert !Drops(vs, i + 1);
  }

  ghost predicate AllStopFrom(v: seq<nat>) {
    forall us: nat -> seq<nat> :: us(0) == v ==> StopsDropping(us)
  }

  lemma StopsFromBelow(v: seq<nat>, us: nat -> seq<nat>)
    requires AllBelow(AllStopFrom, v) && us(0) == v
    ensures StopsDropping(us)
  {
    if Drops(us, 0) {
      var rest := (i: nat) => us(i + 1);
      assert AllStopFrom(rest(0));
      StopsLater(us, rest);
    }
  }

  // No sequence of vectors drops for ever.
  lemma NoInfiniteDescent(vs: nat -> seq<nat>)
    ensures StopsDropping(vs)
  {
    var n := |vs(0)|;
    forall v: seq<nat> | |v| == n && AllBelow(AllStopFrom, v) ensures AllStopFrom(v) {
      forall us: nat -> seq<nat> | us(0) == v ensures StopsDropping(us) {
        StopsFromBelow(v, us);
      }
    }
    LexInduction(n, AllStopFrom, vs(0));
    assert AllStopFrom(vs(0));
  }

  lemma {:induction false} LexAfter(u: seq<nat>, v: seq<nat>, m: nat)
    requires |u| == |v| && m <= |v|
    requires forall i :: 0 <= i < m ==> u[i] <= v[i]
    requires LexLess(u[m..], v[m..])
    ensures LexLess(u, v)
  {
    if m > 0 {
      assert u[1..][m - 1..] == u[m..] && v[1..][m - 1..] == v[m..];
      LexAfter(u[1..], v[1..], m - 1);
    }
  }

  // ---------------------------------------------------------------- sums over the workers

  ghost function Total(pcs: seq<Pc>, f: (nat, Pc) -> nat): nat {
    if pcs == [] then 0
    else
      var n := |pcs| - 1;
      Total(pcs[..n], f) + f(n, pcs[n])
  }

  lemma {:induction false} TotalUpdate(pcs: seq<Pc>, w: nat, pc: Pc, f: (nat, Pc) -> nat)
    requires w < |pcs|
    ensures Total(pcs[w := pc], f) + f(w, pcs[w]) == Total(pcs, f) + f(w, pc)
  {
    var n := |pcs| - 1;
    var qcs := pcs[w := pc];
    if w == n {
      assert qcs[..n] == pcs[..n];
    } else {
      assert qcs[..n] == pcs[..n][w := pc];
      TotalUpdate(pcs[..n], w, pc, f);
    }
  }

  // If no term grows by more than slack, the sum grows by at most slack for each worker.
  lemma {:induction false} TotalSlack(pcs: seq<Pc>, f: (nat, Pc) -> nat, g: (nat, Pc) -> nat, slack: nat)
    requires forall i: nat :: i < |pcs| ==> g(i, pcs[i]) <= f(i, pcs[i]) + slack
    ensures Total(pcs, g) <= Total(pcs, f) + slack * |pcs|
  {
    if pcs != [] {
      var n := |pcs| - 1;
      forall i: nat | i < n ensures g(i, pcs[..n][i]) <= f(i, pcs[..n][i]) + slack {
      }
      TotalSlack(pcs[..n], f, g, slack);
      assert slack * n + slack == slack * |pcs|;
    }
  }

  // ---------------------------------------------------------------- the counters

  // How far a worker is from its next Pop or exit. Waking all sleepers costs less than the
  // step that does it pays.
  function Phase(n: nat, waiting: set<nat>, w: nat, pc: Pc): nat {
    match pc
    case Exited(_) => 0
    case AtPop => if w in waiting then 1 else 2
    case Budget => 3
    case Top => 4
    case Finishing(_, _) => n + 5
    case Pushing(_, _) => 2 * n + 6
    case Recording(_, _, _) => 2 * n + 7
    case Emitting(_, _) => 2 * n + 7
    case Visiting(_) => 2 * n + 8
    case Reserving(_) => 2 * n + 9
  }

  ghost function PhaseOf(p: Params, waiting: set<nat>): (nat, Pc) -> nat {
    (w, pc) => Phase(p.workers, waiting, w, pc)
  }

  ghost function Phases(p: Params, s: State): nat {
    Total(s.pcs, PhaseOf(p, s.front.waiting))
  }

  // What the environment has left to do.
  function EnvLeft(s: State): nat {
    (if s.cancelled then 0 else 1) + (if s.front.closed then 0 else 1)
  }

  ghost predicate PopsEntry(s: State, step: Step) {
    step.Worker? && step.w < |s.pcs| && s.pcs[step.w] == AtPop && s.front.queue != []
  }

  // Every step but a successful Pop brings the workers closer to standing still.
  lemma PhasesStep(p: Params, env: Env, s: State, step: Step)
    requires Control(p, s) && Enabled(p, env, s, step) && !step.SetOrder? && !PopsEntry(s, step)
    ensures var t := Apply(p, env, s, step);
      EnvLeft(t) < EnvLeft(s) || (EnvLeft(t) == EnvLeft(s) && Phases(p, t) < Phases(p, s))
  {
    if step.Worker? {
      var w, t := step.w, Apply(p, env, s, step);
      PhaseDrop(p, env, s, w, step.choice);
      if t.front.waiting == s.front.waiting + {w} && s.pcs[w] == AtPop && t.pcs == s.pcs {
        SleepPhase(p, s, w);
      } else {
        MovePhase(p, s, t, w);
      }
    }
  }

  // A worker's own phase drops, by more than the number of workers when it may wake others; or it
  // falls asleep.
  ghost predicate Lowers(p: Params, s: State, t: State, w: nat) {
    && EnvLeft(t) <= EnvLeft(s) && w < |s.pcs| && |t.pcs| == |s.pcs| && t.pcs == s.pcs[w := t.pcs[w]]
    && (t.pcs == s.pcs ==> s.pcs[w] == AtPop && t.front.waiting == s.front.waiting + {w})
    && (t.pcs != s.pcs ==>
          && (t.front.waiting == s.front.waiting || t.front.waiting == {})
          && Phase(p.workers, t.front.waiting, w, t.pcs[w])
             + (if t.front.waiting == s.front.waiting then 0 else p.workers)
             < Phase(p.workers, s.front.waiting, w, s.pcs[w]))
  }

  lemma LocalLowers(p: Params, env: Env, s: State, w: nat, c: Choice)
    requires EngineFits(p, s) && IsLocal(p, env, s, w, c)
    ensures Lowers(p, s, ApplyLocal(p, s, w, c), w)
  {
    LocalFrame(p, env, s, w, c);
    assert PcFits(p.engine, s.pcs[w]);
    assert s.pcs[w] != ApplyLocal(p, s, w, c).pcs[w];
  }

  lemma IdleLowers(p: Params, s: State, w: nat)
    requires w < |s.pcs| && s.pcs[w].Finishing?
    ensures Lowers(p, s, ApplyIdle(s, w), w)
  {
  }

  lemma PushLowers(p: Params, s: State, w: nat)
    requires w < |s.pcs| && s.pcs[w].Pushing? && s.pcs[w].k < |s.popped|
    ensures Lowers(p, s, ApplyPush(p, s, w), w)
  {
  }

  lemma EmptyPopLowers(p: Params, s: State, w: nat)
    requires w < |s.pcs| && s.pcs[w] == AtPop && w !in s.front.waiting && s.front.queue == []
    ensures Lowers(p, s, ApplyPop(p, s, w), w)
  {
    assert s.pcs[w := AtPop] == s.pcs;
  }

  lemma PhaseDrop(p: Params, env: Env, s: State, w: nat, c: Choice)
    requires Control(p, s) && Enabled(p, env, s, Worker(w, c)) && !PopsEntry(s, Worker(w, c))
    ensures Lowers(p, s, Apply(p, env, s, Worker(w, c)), w)
  {
    match s.pcs[w]
    case AtPop => EmptyPopLowers(p, s, w);
    case Pushing(_, _) => PushLowers(p, s, w);
    case Finishing(_, _) => IdleLowers(p, s, w);
    case _ => LocalLowers(p, env, s, w, c);
  }

  lemma MovePhase(p: Params, s: State, t: State, w: nat)
    requires |s.pcs| == p.workers && w < |s.pcs| && |t.pcs| == |s.pcs| && t.pcs == s.pcs[w := t.pcs[w]]
    requires t.front.waiting == s.front.waiting || t.front.waiting == {}
    requires Phase(p.workers, t.front.waiting, w, t.pcs[w])
             + (if t.front.waiting == s.front.waiting then 0 else p.workers)
             < Phase(p.workers, s.front.waiting, w, s.pcs[w])
    ensures Phases(p, t) < Phases(p, s)
  {
    var f, g := PhaseOf(p, s.front.waiting), PhaseOf(p, t.front.waiting);
    TotalUpdate(s.pcs, w, t.pcs[w], g);
    if t.front.waiting != s.front.waiting {
      TotalSlack(s.pcs, f, g, 1);
      assert g(w, s.pcs[w]) >= f(w, s.pcs[w]);
    }
  }

  lemma SleepPhase(p: Params, s: State, w: nat)
    requires w < |s.pcs| && s.pcs[w] == AtPop && w !in s.front.waiting
    ensures Total(s.pcs, PhaseOf(p, s.front.waiting + {w})) < Total(s.pcs, PhaseOf(p, s.front.waiting))
  {
    var f, g := PhaseOf(p, s.front.waiting), PhaseOf(p, s.front.waiting + {w});
    var qcs := s.pcs[w := Exited(Drained)];
    TotalSlack(qcs, f, g, 0);
    TotalUpdate(s.pcs, w, Exited(Drained), f);
    TotalUpdate(s.pcs, w, Exited(Drained), g);
  }

  // ---------------------------------------------------------------- outstanding entries

  // Entries never lie outside depths 0..maxDepth.
  ghost predicate DepthsFit(p: Params, s: State) {
    forall e <- s.popped + s.front.queue :: 0 <= e.depth && WithinDepth(p.cfg, e.depth)
  }

  lemma DepthsFitPush(p: Params, s: State, w: nat)
    requires DepthsFit(p, s) && w < |s.pcs| && s.pcs[w].Pushing? && s.pcs[w].k < |s.popped|
    ensures DepthsFit(p, ApplyPush(p, s, w))
  {
    var from := s.popped[s.pcs[w].k];
    assert from in s.popped + s.front.queue;
    AcceptedIsExact(p.cfg, s.front.seen, LinkEntries(s.pcs[w].links, from.depth + 1));
  }

  lemma DepthsFitPop(p: Params, s: State, w: nat)
    requires DepthsFit(p, s) && w < |s.pcs|
    ensures DepthsFit(p, ApplyPop(p, s, w))
  {
    var t := ApplyPop(p, s, w);
    forall e | e in t.popped + t.front.queue ensures e in s.popped + s.front.queue {
    }
  }

  lemma DepthsFitLocal(p: Params, s: State, w: nat, c: Choice)
    requires DepthsFit(p, s) && w < |s.pcs|
    ensures DepthsFit(p, ApplyLocal(p, s, w, c))
  {
    assert ApplyLocal(p, s, w, c).popped == s.popped;
  }

  lemma DepthsFitStep(p: Params, env: Env, s: State, step: Step)
    requires DepthsFit(p, s) && Enabled(p, env, s, step)
    ensures DepthsFit(p, Apply(p, env, s, step))
  {
    if step.Worker? {
      match s.pcs[step.w]
      case AtPop => DepthsFitPop(p, s, step.w);
      case Pushing(_, _) => DepthsFitPush(p, s, step.w);
      case Finishing(_, _) =>
      case _ => DepthsFitLocal(p, s, step.w, step.choice);
    }
  }

  function QueuedAt(queue: seq<Entry>, d: int): nat {
    if queue == [] then 0 else (if queue[0].depth == d then 1 else 0) + QueuedAt(queue[1..], d)
  }

  lemma {:induction false} QueuedAtConcat(a: seq<Entry>, b: seq<Entry>, d: int)
    ensures QueuedAt(a + b, d) == QueuedAt(a, d) + QueuedAt(b, d)
  {
    if a == [] {
      assert a + b == b;
    } else {
      assert (a + b)[1..] == a[1..] + b;
      QueuedAtConcat(a[1..], b, d);
    }
  }

  lemma {:induction false} QueuedElsewhere(a: seq<Entry>, d: int)
    requires forall e <- a :: e.depth != d
    ensures QueuedAt(a, d) == 0
  {
    if a != [] {
      QueuedElsewhere(a[1..], d);
    }
  }

  // A worker owes the page it holds until it has pushed the page's links.
  predicate Owes(popped: seq<Entry>, pc: Pc, d: int) {
    pc.Holding() && !pc.Finishing? && pc.k < |popped| && popped[pc.k].depth == d
  }

  ghost function OwesOf(popped: seq<Entry>, d: int): (nat, Pc) -> nat {
    (w, pc) => if Owes(popped, pc, d) then 1 else 0
  }

  // The number of pages at depth d that are queued or whose links are still to come.
  ghost function Outstanding(s: State, d: int): nat {
    QueuedAt(s.front.queue, d) + Debt(s, d)
  }

  ghost function Debt(s: State, d: int): nat {
    Total(s.pcs, OwesOf(s.popped, d))
  }

  lemma DebtStep(s: State, w: nat, pc: Pc, d: int)
    requires w < |s.pcs|
    ensures Total(s.pcs[w := pc], OwesOf(s.popped, d)) + (if Owes(s.popped, s.pcs[w], d) then 1 else 0)
            == Debt(s, d) + (if Owes(s.popped, pc, d) then 1 else 0)
  {
    TotalUpdate(s.pcs, w, pc, OwesOf(s.popped, d));
  }

  // A popped entry moves from the queue to the worker's debt.
  lemma PopOutstanding(p: Params, s: State, w: nat, d: int)
    requires Control(p, s) && w < |s.pcs| && s.pcs[w] == AtPop && s.front.queue != []
    ensures Outstanding(ApplyPop(p, s, w), d) == Outstanding(s, d)
  {
    PopQueued(p, s, w, d);
    PopDebt(p, s, w, d);
  }

  function Weight(e: Entry, d: int): nat {
    if e.depth == d then 1 else 0
  }

  lemma PopQueued(p: Params, s: State, w: nat, d: int)
    requires w < |s.pcs| && s.pcs[w] == AtPop && s.front.queue != []
    ensures var t := ApplyPop(p, s, w);
      && |t.popped| == |s.popped| + 1
      && QueuedAt(s.front.queue, d) == QueuedAt(t.front.queue, d) + Weight(t.popped[|s.popped|], d)
  {
    var last := |s.front.queue| - 1;
    if s.front.dfs {
      var e := s.front.queue[last];
      assert s.front.queue == s.front.queue[..last] + [e];
      QueuedAtConcat(s.front.queue[..last], [e], d);
    }
  }

  lemma PopDebt(p: Params, s: State, w: nat, d: int)
    requires Control(p, s) && w < |s.pcs| && s.pcs[w] == AtPop && s.front.queue != []
    ensures var t := ApplyPop(p, s, w); Debt(t, d) == Debt(s, d) + Weight(t.popped[|s.popped|], d)
  {
    var t := ApplyPop(p, s, w);
    var f, g := OwesOf(s.popped, d), OwesOf(t.popped, d);
    TotalSlack(s.pcs, f, g, 0);
    TotalSlack(s.pcs, g, f, 0);
    TotalUpdate(s.pcs, w, t.pcs[w], g);
  }

  // A push pays the worker's debt and may add entries one level down.
  lemma PushOutstanding(p: Params, s: State, w: nat, d: int)
    requires w < |s.pcs| && s.pcs[w].Pushing? && s.pcs[w].k < |s.popped|
    ensures var at := s.popped[s.pcs[w].k].depth;
      && (d < at ==> Outstanding(ApplyPush(p, s, w), d) == Outstanding(s, d))
      && (d == at ==> Outstanding(ApplyPush(p, s, w), d) == Outstanding(s, d) - 1)
  {
    var t := ApplyPush(p, s, w);
    var at := s.popped[s.pcs[w].k].depth;
    var es := LinkEntries(s.pcs[w].links, at + 1);
    var a := if s.front.closed then [] else Accepted(p.cfg, s.front.seen, es);
    assert t.front.queue == s.front.queue + a;
    QueuedAtConcat(s.front.queue, a, d);
    AcceptedIsExact(p.cfg, s.front.seen, es);
    if d <= at {
      QueuedElsewhere(a, d);
    }
    DebtStep(s, w, t.pcs[w], d);
  }

  // A step that leaves the popped and queued entries alone, and its worker owing no more.
  ghost predicate OwesNoMore(s: State, t: State, w: nat, d: int) {
    && w < |s.pcs| && |t.pcs| == |s.pcs| && t.pcs == s.pcs[w := t.pcs[w]]
    && t.popped == s.popped && t.front.queue == s.front.queue
    && (Owes(s.popped, t.pcs[w], d) ==> Owes(s.popped, s.pcs[w], d))
  }

  lemma LocalOwes(p: Params, env: Env, s: State, w: nat, c: Choice, d: int)
    requires EngineFits(p, s) && IsLocal(p, env, s, w, c)
    ensures OwesNoMore(s, ApplyLocal(p, s, w, c), w, d)
  {
    LocalFrame(p, env, s, w, c);
    assert PcFits(p.engine, s.pcs[w]);
  }

  lemma IdleOwes(s: State, w: nat, d: int)
    requires w < |s.pcs| && s.pcs[w].Finishing?
    ensures OwesNoMore(s, ApplyIdle(s, w), w, d)
  {
  }

  lemma EmptyPopOwes(p: Params, s: State, w: nat, d: int)
    requires w < |s.pcs| && s.pcs[w] == AtPop && s.front.queue == []
    ensures OwesNoMore(s, ApplyPop(p, s, w), w, d)
  {
    assert s.pcs[w := AtPop] == s.pcs;
  }

  // Every other step leaves no more outstanding than before.
  lemma OtherOutstanding(p: Params, env: Env, s: State, step: Step, d: int)
    requires Control(p, s) && Enabled(p, env, s, step) && !PopsEntry(s, step)
    requires step.Worker? ==> !s.pcs[step.w].Pushing?
    ensures Outstanding(Apply(p, env, s, step), d) <= Outstanding(s, d)
    ensures Apply(p, env, s, step).front.queue == s.front.queue
  {
    if step.Worker? {
      var w, t := step.w, Apply(p, env, s, step);
      if s.pcs[w] == AtPop {
        EmptyPopOwes(p, s, w, d);
      } else if s.pcs[w].Finishing? {
        IdleOwes(s, w, d);
      } else {
        LocalOwes(p, env, s, w, step.choice, d);
      }
      DebtStep(s, w, t.pcs[w], d);
    }
  }

  // ---------------------------------------------------------------- a depth limit ends the crawl

  ghost function Measure(p: Params, s: State): seq<nat>
    requires p.cfg.maxDepth >= 0
  {
    seq(p.cfg.maxDepth + 1, d => Outstanding(s, d)) + [|s.front.queue|, EnvLeft(s), Phases(p, s)]
  }

  lemma PushDrops(p: Params, s: State, w: nat)
    requires p.cfg.maxDepth >= 0 && DepthsFit(p, s)
    requires w < |s.pcs| && s.pcs[w].Pushing? && s.pcs[w].k < |s.popped|
    ensures LexLess(Measure(p, ApplyPush(p, s, w)), Measure(p, s))
  {
    var u, v := Measure(p, ApplyPush(p, s, w)), Measure(p, s);
    var at := s.popped[s.pcs[w].k].depth;
    assert s.popped[s.pcs[w].k] in s.popped + s.front.queue;
    forall d | 0 <= d <= at ensures d < at ==> u[d] == v[d] ensures d == at ==> u[d] < v[d] {
      PushOutstanding(p, s, w, d);
    }
    LexAfter(u, v, at);
  }

  lemma PopDrops(p: Params, s: State, w: nat)
    requires p.cfg.maxDepth >= 0 && Control(p, s)
    requires w < |s.pcs| && s.pcs[w] == AtPop && s.front.queue != []
    ensures LexLess(Measure(p, ApplyPop(p, s, w)), Measure(p, s))
  {
    var n := p.cfg.maxDepth + 1;
    var t := ApplyPop(p, s, w);
    var u, v := Measure(p, t), Measure(p, s);
    forall d | 0 <= d < n ensures u[d] == v[d] {
      PopOutstanding(p, s, w, d);
    }
    assert u[n..] == [|t.front.queue|, EnvLeft(t), Phases(p, t)] && v[n..][0] == |s.front.queue|;
    LexAfter(u, v, n);
  }

  lemma MeasureDrops(p: Params, env: Env, s: State, step: Step)
    requires p.cfg.maxDepth >= 0 && Control(p, s) && DepthsFit(p, s)
    requires Enabled(p, env, s, step) && !step.SetOrder?
    ensures LexLess(Measure(p, Apply(p, env, s, step)), Measure(p, s))
  {
    if step.Worker? && s.pcs[step.w].Pushing? {
      PushDrops(p, s, step.w);
    } else if PopsEntry(s, step) {
      PopDrops(p, s, step.w);
    } else {
      OtherDrops(p, env, s, step);
    }
  }

  lemma OtherDrops(p: Params, env: Env, s: State, step: Step)
    requires p.cfg.maxDepth >= 0 && Control(p, s) && Enabled(p, env, s, step) && !step.SetOrder?
    requires !PopsEntry(s, step) && (step.Worker? ==> !s.pcs[step.w].Pushing?)
    ensures LexLess(Measure(p, Apply(p, env, s, step)), Measure(p, s))
  {
    var n := p.cfg.maxDepth + 1;
    var t := Apply(p, env, s, step);
    var u, v := Measure(p, t), Measure(p, s);
    forall d | 0 <= d < n ensures u[d] <= v[d] {
      OtherOutstanding(p, env, s, step, d);
    }
    OtherOutstanding(p, env, s, step, 0);
    PhasesStep(p, env, s, step);
    assert u[n..] == [|t.front.queue|, EnvLeft(t), Phases(p, t)];
    assert v[n..] == [|s.front.queue|, EnvLeft(s), Phases(p, s)];
    TailDrops(|s.front.queue|, EnvLeft(t), Phases(p, t), EnvLeft(s), Phases(p, s));
    LexAfter(u, v, n);
  }

  lemma TailDrops(q: nat, a: nat, b: nat, c: nat, d: nat)
    requires a < c || (a == c && b < d)
    ensures LexLess([q, a, b], [q, c, d])
  {
    assert [q, a, b][1..] == [a, b] && [q, c, d][1..] == [c, d];
    assert [a, b][1..] == [b] && [c, d][1..] == [d];
  }

  // ---------------------------------------------------------------- a page budget ends the crawl

  ghost function BudgetMeasure(p: Params, s: State): seq<nat> {
    [if |s.popped| <= p.maxPages + p.workers then p.maxPages + p.workers - |s.popped| else 0,
     EnvLeft(s), Phases(p, s)]
  }

  lemma BudgetMeasureDrops(p: Params, env: Env, s: State, step: Step)
    requires p.engine == Rod && p.maxPages > 0 && Control(p, s) && WithinBudget(p, s)
    requires Enabled(p, env, s, step) && !step.SetOrder?
    ensures LexLess(BudgetMeasure(p, Apply(p, env, s, step)), BudgetMeasure(p, s))
  {
    var t := Apply(p, env, s, step);
    ControlStep(p, env, s, step);
    BudgetStep(p, env, s, step);
    SubsetCount(Debtors(s.pcs), Below(p.workers));
    SubsetCount(Debtors(t.pcs), Below(p.workers));
    if !PopsEntry(s, step) {
      assert t.popped == s.popped;
      PhasesStep(p, env, s, step);
      TailDrops(BudgetMeasure(p, s)[0], EnvLeft(t), Phases(p, t), EnvLeft(s), Phases(p, s));
    }
  }

  // What makes a crawl finite.
  predicate Bounded(p: Params) {
    p.cfg.maxDepth >= 0 || (p.engine == Rod && p.maxPages > 0)
  }

  ghost function CrawlMeasure(p: Params, s: State): seq<nat> {
    if p.cfg.maxDepth >= 0 then Measure(p, s) else BudgetMeasure(p, s)
  }

  ghost predicate Good(p: Params, s: State) {
    Control(p, s) && WithinBudget(p, s) && DepthsFit(p, s)
  }

  // ---------------------------------------------------------------- infinite runs

  ghost predicate Next(p: Params, env: Env, s: State, t: State) {
    exists step :: Enabled(p, env, s, step) && t == Apply(p, env, s, step)
  }

  ghost predicate TakesStep(p: Params, env: Env, run: nat -> State, i: nat) {
    Next(p, env, run(i), run(i + 1))
  }

  ghost predicate Stops(p: Params, env: Env, run: nat -> State) {
    exists i: nat :: !TakesStep(p, env, run, i)
  }

  lemma NextDrops(p: Params, env: Env, s: State, t: State)
    requires Bounded(p) && !env.reorders && Good(p, s) && Next(p, env, s, t)
    ensures Good(p, t) && LexLess(CrawlMeasure(p, t), CrawlMeasure(p, s))
  {
    var step :| Enabled(p, env, s, step) && t == Apply(p, env, s, step);
    ControlStep(p, env, s, step);
    BudgetStep(p, env, s, step);
    DepthsFitStep(p, env, s, step);
    if p.cfg.maxDepth >= 0 {
      MeasureDrops(p, env, s, step);
    } else {
      BudgetMeasureDrops(p, env, s, step);
    }
  }

  lemma InitDepths(p: Params, s: State)
    requires Init(p, s)
    ensures DepthsFit(p, s)
  {
    AcceptedIsExact(p.cfg, {}, [Entry(p.seed, 0)]);
  }

  lemma {:induction false} AlwaysGood(p: Params, env: Env, run: nat -> State, n: nat)
    requires Bounded(p) && !env.reorders && Init(p, run(0)) && !Stops(p, env, run)
    ensures Good(p, run(n))
  {
    if n == 0 {
      InitInv(p, run(0));
      InitDepths(p, run(0));
    } else {
      AlwaysGood(p, env, run, n - 1);
      assert TakesStep(p, env, run, n - 1);
      NextDrops(p, env, run(n - 1), run(n));
    }
  }

  // With a depth limit no infinite sequence of states is a run, although every page may yield
  // any finite number of links and nothing bounds the number of pages; and with a page budget
  // the Rod engine needs no depth limit.
  lemma EveryCrawlEnds(p: Params, env: Env, run: nat -> State)
    requires Bounded(p) && !env.reorders && Init(p, run(0))
    ensures Stops(p, env, run)
  {
    if !Stops(p, env, run) {
      var vs := (i: nat) => CrawlMeasure(p, run(i));
      NoInfiniteDescent(vs);
      var i: nat :| !Drops(vs, i);
      AlwaysGood(p, env, run, i);
      assert TakesStep(p, env, run, i);
      NextDrops(p, env, run(i), run(i + 1));
      assert false;
    }
  }

  // So a scheduler that goes on taking steps until all workers have exited gets there.
  lemma AllWorkersExit(p: Params, env: Env, run: nat -> State)
    requires Bounded(p) && !env.reorders && Init(p, run(0))
    requires forall i: nat :: AllExited(run(i)) || TakesStep(p, env, run, i)
    ensures exists i: nat :: AllExited(run(i))
  {
    EveryCrawlEnds(p, env, run);
    var i: nat :| !TakesStep(p, env, run, i);
    assert AllExited(run(i));
  }
}
