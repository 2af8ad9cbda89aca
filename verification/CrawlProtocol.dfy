/**
 The concurrent crawl: N workers driving one frontier (pkg/crawl/engine.go and
 pkg/crawl/http_crawler.go), as a system of atomic steps.

 A step is one critical section of one worker, one oracle answer (a page visit), or one action
 of the environment. Both worker loops are covered; Params.engine says which one runs. The
 environment may close the frontier or switch its order at any moment, which the source does
 only after or before the workers run, so what is proved holds for more runs than it has.
 */
module CrawlProtocol {
  import opened Basics
  import opened Frontiers

  datatype Engine = Rod | Http

  // maxPages <= 0 means no page budget for the Rod engine; the Http engine always has one.
  datatype Params = Params(cfg: Config, engine: Engine, maxPages: int, workers: nat, seed: string)

  datatype Why = Cancelled | BudgetSpent | Released | Drained | ClosedOut

  // Where a worker is. k is the position in State.popped of the entry it holds.
  datatype Pc =
    | Top                                                      // about to look at the context
    | Budget                                                   // Rod: about to look at the budget
    | AtPop                                                    // in Pop, asleep when in waiting
    | Reserving(k: nat)                                        // Rod: about to reserve a page slot
    | Visiting(k: nat)                                         // in visitPage or fetchPage
    | Emitting(k: nat, links: seq<string>)                     // Rod: handing out captured requests
    | Recording(k: nat, observed: bool, links: seq<string>)    // Http: storing the result
    | Pushing(k: nat, links: seq<string>)                      // about to push the links
    | Finishing(k: nat, exit: Exit)                            // about to call MarkIdle
    | Exited(why: Why)
  {
    // Between a successful Pop and its MarkIdle.
    predicate Holding() {
      Reserving? || Visiting? || Emitting? || Recording? || Pushing? || Finishing?
    }

    // Holding an entry whose result is not recorded.
    predicate Unrecorded() {
      Reserving? || Visiting? || Recording?
    }

    // Gave an entry up for want of budget.
    predicate GivenUp() {
      this == Exited(Released) || (Finishing? && exit == Stop(Released))
    }

    // Popped an entry that was not visited yet, or never will be.
    predicate Debtor() {
      Reserving? || GivenUp()
    }
  }

  datatype Exit = Continue | Stop(reason: Why)

  datatype State = State(front: Frontier, pcs: seq<Pc>, cancelled: bool, pages: nat,
                         popped: seq<Entry>, visits: seq<nat>, results: seq<nat>)

  // What the outside world may do: which links a page may yield, whether visits may fail, and
  // whether the context may be cancelled, the frontier closed or its order switched.
  datatype Env = Env(answers: (string, seq<string>) -> bool, failures: bool, cancels: bool, closes: bool,
                     reorders: bool)

  datatype Choice = Go | Answer(links: seq<string>) | Fail | Fetched(links: seq<string>) | FetchFailed | Abandon

  datatype Step = Cancel | CloseFrontier | SetOrder(dfs: bool) | Worker(w: nat, choice: Choice)

  ghost predicate Init(p: Params, s: State) {
    exists dfs :: Started(p, dfs, s)
  }

  // The seed has been accepted and the workers are about to start.
  ghost predicate Started(p: Params, dfs: bool, s: State) {
    var (f, added) := Push(p.cfg, Frontier([], {}, 0, false, dfs, {}), [Entry(p.seed, 0)]);
    && added == 1
    && s == State(f, seq(p.workers, _ => Top), false, 0, [], [], [])
  }

  // pageBudgetReached, without the reservation.
  predicate BudgetReached(p: Params, s: State) {
    p.maxPages > 0 && s.pages >= p.maxPages
  }

  predicate Enabled(p: Params, env: Env, s: State, step: Step) {
    match step
    case Cancel => env.cancels && !s.cancelled
    case CloseFrontier => env.closes && !s.front.closed
    case SetOrder(dfs) => env.reorders && s.front.dfs != dfs
    case Worker(w, c) => w < |s.pcs| && CanChoose(p, env, s, w, c)
  }

  predicate CanChoose(p: Params, env: Env, s: State, w: nat, c: Choice)
    requires w < |s.pcs|
  {
    match s.pcs[w]
    case Exited(_) => false
    case AtPop => c == Go && w !in s.front.waiting
    case Visiting(k) =>
      k < |s.popped| &&
      (match c
       case Answer(links) => p.engine == Rod && env.answers(s.popped[k].url, links)
       case Fetched(links) => p.engine == Http && env.answers(s.popped[k].url, links)
       case Fail => p.engine == Rod && env.failures
       case FetchFailed => p.engine == Http && env.failures
       case _ => false)
    case Emitting(_, _) => c == Go || (c == Abandon && s.cancelled)
    case Pushing(k, _) => c == Go && k < |s.popped|
    case _ => c == Go
  }

  function Move(s: State, w: nat, pc: Pc): State
    requires w < |s.pcs|
  {
    s.(pcs := s.pcs[w := pc])
  }

  // Links are pushed only when there are any.
  function AfterPage(k: nat, links: seq<string>): Pc {
    if links == [] then Finishing(k, Continue) else Pushing(k, links)
  }

  function LinkEntries(links: seq<string>, depth: int): seq<Entry> {
    seq(|links|, i requires 0 <= i < |links| => Entry(links[i], depth))
  }

  function Apply(p: Params, env: Env, s: State, step: Step): State
    requires Enabled(p, env, s, step)
  {
    match step
    case Cancel => s.(cancelled := true)
    case CloseFrontier => s.(front := Close(s.front))
    case SetOrder(dfs) => s.(front := s.front.(dfs := dfs))
    case Worker(w, c) =>
      match s.pcs[w]
      case AtPop => ApplyPop(p, s, w)
      case Pushing(k, links) => ApplyPush(p, s, w)
      case Finishing(_, _) => ApplyIdle(s, w)
      case _ => ApplyLocal(p, s, w, c)
  }

  // The steps that leave the frontier alone.
  function ApplyLocal(p: Params, s: State, w: nat, c: Choice): State
    requires w < |s.pcs|
  {
    match s.pcs[w]
    case Top =>
      Move(s, w, if s.cancelled then Exited(Cancelled) else if p.engine == Rod then Budget else AtPop)
    case Budget =>
      Move(s, w, if BudgetReached(p, s) then Exited(BudgetSpent) else AtPop)
    case Reserving(k) =>
      if BudgetReached(p, s) then Move(s, w, Finishing(k, Stop(Released)))
      else Move(s, w, Visiting(k)).(pages := s.pages + 1, visits := s.visits + [k])
    case Visiting(k) => Move(s, w, AfterVisit(s, k, c))
    case Emitting(k, links) =>
      Move(s, w, if c == Abandon then Finishing(k, Stop(Cancelled)) else AfterPage(k, links))
    case Recording(k, observed, links) =>
      var t := Move(s, w, AfterPage(k, links));
      if observed && s.pages < p.maxPages then
        t.(pages := s.pages + 1, results := s.results + [k], cancelled := s.cancelled || s.pages + 1 >= p.maxPages)
      else t
    case _ => s
  }

  function AfterVisit(s: State, k: nat, c: Choice): Pc {
    match c
    case Answer(links) => Emitting(k, links)
    case Fetched(links) => Recording(k, true, links)
    case FetchFailed => Recording(k, false, [])
    case _ => Finishing(k, if s.cancelled then Stop(Cancelled) else Continue)
  }

  function ApplyPop(p: Params, s: State, w: nat): State
    requires w < |s.pcs|
  {
    var (f, r) := TryPop(s.front, w);
    match r
    case Got(entry) =>
      var k := |s.popped|;
      Move(s, w, if p.engine == Rod then Reserving(k) else Visiting(k)).(front := f, popped := s.popped + [entry])
    case Finished => Move(s, w, Exited(if s.front.closed then ClosedOut else Drained))
    case Asleep => s.(front := f)
  }

  function ApplyPush(p: Params, s: State, w: nat): State
    requires w < |s.pcs| && s.pcs[w].Pushing? && s.pcs[w].k < |s.popped|
  {
    var k := s.pcs[w].k;
    Move(s, w, Finishing(k, Continue)).(
      front := Push(p.cfg, s.front, LinkEntries(s.pcs[w].links, s.popped[k].depth + 1)).0)
  }

  function ApplyIdle(s: State, w: nat): State
    requires w < |s.pcs| && s.pcs[w].Finishing?
  {
    var exit := s.pcs[w].exit;
    Move(s, w, if exit == Continue then Top else Exited(exit.reason)).(front := MarkIdle(s.front))
  }

  // ---------------------------------------------------------------- runs

  ghost predicate Legal(p: Params, env: Env, s: State, steps: seq<Step>)
    decreases |steps|
  {
    steps != [] ==> Enabled(p, env, s, steps[0]) && Legal(p, env, Apply(p, env, s, steps[0]), steps[1..])
  }

  ghost function After(p: Params, env: Env, s: State, steps: seq<Step>): State
    requires Legal(p, env, s, steps)
    decreases |steps|
  {
    if steps == [] then s else After(p, env, Apply(p, env, s, steps[0]), steps[1..])
  }

  // ---------------------------------------------------------------- the invariant

  function Holders(pcs: seq<Pc>): set<nat> {
    set w: nat | w < |pcs| && pcs[w].Holding()
  }

  function Debtors(pcs: seq<Pc>): set<nat> {
    set w: nat | w < |pcs| && pcs[w].Debtor()
  }

  // active counts the workers between Pop and MarkIdle.
  ghost predicate Counted(s: State) {
    s.front.active == |Holders(s.pcs)|
  }

  // Only workers in Pop sleep, and only while there is nothing to pop and someone to wait for.
  ghost predicate SleepJustified(s: State) {
    forall w <- s.front.waiting ::
      w < |s.pcs| && s.pcs[w] == AtPop && s.front.queue == [] && s.front.active > 0 && !s.front.closed
  }

  // Every entry in flight is one that was popped, and no two workers hold the same one.
  ghost predicate Owned(s: State) {
    && (forall w: nat :: w < |s.pcs| && s.pcs[w].Holding() ==> s.pcs[w].k < |s.popped|)
    && (forall v: nat, w: nat :: v < w < |s.pcs| && s.pcs[v].Holding() && s.pcs[w].Holding() ==>
          s.pcs[v].k != s.pcs[w].k)
  }

  // No normalised URL is queued or popped twice, and seen is exactly what was ever queued.
  ghost predicate NoRepeats(p: Params, s: State) {
    DistinctNorms(p.cfg, s.popped + s.front.queue) && s.front.seen == Norms(p.cfg, s.popped + s.front.queue)
  }

  ghost predicate WithinBudget(p: Params, s: State) {
    match p.engine
    case Rod =>
      && |s.visits| == s.pages
      && |s.popped| == s.pages + |Debtors(s.pcs)|
      && (p.maxPages > 0 ==> s.pages <= p.maxPages)
    case Http =>
      && |s.results| == s.pages
      && (p.maxPages > 0 ==> s.pages <= p.maxPages && (s.pages == p.maxPages ==> s.cancelled))
  }

  // A worker that stopped, or is about to, has a reason that still holds.
  ghost predicate StopsJustified(p: Params, s: State) {
    forall w: nat :: w < |s.pcs| ==>
      && (s.pcs[w].Exited? ==> Justified(p, s, s.pcs[w].why))
      && (s.pcs[w].Finishing? && s.pcs[w].exit.Stop? ==>
            s.pcs[w].exit.reason != Drained && Justified(p, s, s.pcs[w].exit.reason))
  }

  predicate Justified(p: Params, s: State, why: Why) {
    match why
    case Cancelled => s.cancelled
    case BudgetSpent => BudgetReached(p, s)
    case Released => BudgetReached(p, s)
    case Drained => s.front.queue == [] && s.front.active == 0
    case ClosedOut => s.front.closed
  }

  // No entry is visited twice (Rod) ...
  ghost predicate VisitedOnce(s: State) {
    && NoDuplicates(s.visits)
    && (forall k <- s.visits :: k < |s.popped|)
    && (forall w: nat :: w < |s.pcs| && s.pcs[w].Reserving? ==> s.pcs[w].k !in s.visits)
  }

  // ... or recorded twice (Http).
  ghost predicate RecordedOnce(s: State) {
    && NoDuplicates(s.results)
    && (forall k <- s.results :: k < |s.popped|)
    && (forall w: nat :: w < |s.pcs| && s.pcs[w].Unrecorded() ==> s.pcs[w].k !in s.results)
  }

  ghost predicate NoDuplicates(ks: seq<nat>) {
    forall i, j :: 0 <= i < j < |ks| ==> ks[i] != ks[j]
  }

  // Each engine uses only its own control points.
  ghost predicate EngineFits(p: Params, s: State) {
    forall w: nat :: w < |s.pcs| ==> PcFits(p.engine, s.pcs[w])
  }

  predicate PcFits(engine: Engine, pc: Pc) {
    match engine
    case Rod => !pc.Recording?
    case Http => !pc.Budget? && !pc.Emitting? && !pc.Debtor()
  }

  // The workers' side of the invariant.
  ghost predicate Control(p: Params, s: State) {
    && |s.pcs| == p.workers
    && EngineFits(p, s) && Counted(s) && SleepJustified(s) && Owned(s) && StopsJustified(p, s)
  }

  ghost predicate Inv(p: Params, s: State) {
    Control(p, s) && WithinBudget(p, s) && NoRepeats(p, s) && VisitedOnce(s) && RecordedOnce(s)
  }

  function One(b: bool): int {
    if b then 1 else 0
  }

  // One worker moving changes each count by at most one.
  lemma Counts(pcs: seq<Pc>, w: nat, pc: Pc)
    requires w < |pcs|
    ensures |Holders(pcs[w := pc])| == |Holders(pcs)| + One(pc.Holding()) - One(pcs[w].Holding())
    ensures |Debtors(pcs[w := pc])| == |Debtors(pcs)| + One(pc.Debtor()) - One(pcs[w].Debtor())
  {
    CountsOf(Holders(pcs), Holders(pcs[w := pc]), w);
    CountsOf(Debtors(pcs), Debtors(pcs[w := pc]), w);
  }

  lemma CountsOf(a: set<nat>, b: set<nat>, w: nat)
    requires a - {w} == b - {w}
    ensures |b| == |a| + One(w in b) - One(w in a)
  {
    var c := a - {w};
    assert a == if w in a then c + {w} else c;
    assert b == if w in b then c + {w} else c;
  }

  lemma InitInv(p: Params, s: State)
    requires Init(p, s)
    ensures Inv(p, s)
  {
    var dfs :| Started(p, dfs, s);
    var e := Entry(p.seed, 0);
    assert Accepted(p.cfg, {}, [e]) == [e];
    assert Holders(s.pcs) == {} && Debtors(s.pcs) == {};
    assert s.front.queue == [e] && s.popped + s.front.queue == [e];
  }

  ghost predicate IsLocal(p: Params, env: Env, s: State, w: nat, c: Choice) {
    && w < |s.pcs| && CanChoose(p, env, s, w, c)
    && s.pcs[w] != AtPop && !s.pcs[w].Pushing? && !s.pcs[w].Finishing?
  }

  // What the invariant needs to know of a step that leaves the frontier alone.
  lemma LocalFrame(p: Params, env: Env, s: State, w: nat, c: Choice)
    requires IsLocal(p, env, s, w, c) && EngineFits(p, s)
    ensures var t := ApplyLocal(p, s, w, c);
      && t.front == s.front && t.popped == s.popped && |t.pcs| == |s.pcs|
      && t.pcs == s.pcs[w := t.pcs[w]]
      && t.pcs[w].Holding() == s.pcs[w].Holding()
      && (s.pcs[w].Holding() ==> t.pcs[w].k == s.pcs[w].k)
      && EngineFits(p, t)
  {
    var t := ApplyLocal(p, s, w, c);
    assert PcFits(p.engine, s.pcs[w]);
    assert PcFits(p.engine, t.pcs[w]);
  }

  lemma LocalStops(p: Params, env: Env, s: State, w: nat, c: Choice)
    requires Control(p, s) && IsLocal(p, env, s, w, c)
    ensures StopsJustified(p, ApplyLocal(p, s, w, c))
  {
    var t := ApplyLocal(p, s, w, c);
    LocalFrame(p, env, s, w, c);
    assert PcFits(p.engine, s.pcs[w]);
  }

  lemma LocalControl(p: Params, env: Env, s: State, w: nat, c: Choice)
    requires Control(p, s) && IsLocal(p, env, s, w, c)
    ensures Control(p, ApplyLocal(p, s, w, c))
  {
    var t := ApplyLocal(p, s, w, c);
    LocalFrame(p, env, s, w, c);
    Counts(s.pcs, w, t.pcs[w]);
    LocalStops(p, env, s, w, c);
    assert Counted(t) && SleepJustified(t) && Owned(t);
  }

  lemma LocalBudget(p: Params, env: Env, s: State, w: nat, c: Choice)
    requires EngineFits(p, s) && WithinBudget(p, s) && IsLocal(p, env, s, w, c)
    ensures WithinBudget(p, ApplyLocal(p, s, w, c))
  {
    var t := ApplyLocal(p, s, w, c);
    Counts(s.pcs, w, t.pcs[w]);
    assert PcFits(p.engine, s.pcs[w]);
    assert t.pcs == s.pcs[w := t.pcs[w]];
  }

  // A pop moves only the worker that pops, and only into holding an entry, out, or to sleep.
  lemma PopFrame(p: Params, s: State, w: nat)
    requires Control(p, s) && w < |s.pcs| && s.pcs[w] == AtPop
    ensures var t := ApplyPop(p, s, w);
      && t.pcs == s.pcs[w := t.pcs[w]] && |t.pcs| == p.workers
      && Counted(t) && EngineFits(p, t)
  {
    var t := ApplyPop(p, s, w);
    Counts(s.pcs, w, t.pcs[w]);
    assert t.pcs == s.pcs[w := t.pcs[w]];
  }

  lemma PopOwned(p: Params, s: State, w: nat)
    requires Owned(s) && w < |s.pcs| && s.pcs[w] == AtPop
    ensures Owned(ApplyPop(p, s, w))
  {
  }

  lemma PopSleep(p: Params, s: State, w: nat)
    requires Control(p, s) && w < |s.pcs| && s.pcs[w] == AtPop && w !in s.front.waiting
    ensures SleepJustified(ApplyPop(p, s, w))
  {
    var t := ApplyPop(p, s, w);
    assert t.pcs == s.pcs[w := t.pcs[w]];
  }

  lemma PopStops(p: Params, s: State, w: nat)
    requires StopsJustified(p, s) && w < |s.pcs| && s.pcs[w] == AtPop
    ensures StopsJustified(p, ApplyPop(p, s, w))
  {
  }

  lemma PopControl(p: Params, s: State, w: nat)
    requires Control(p, s) && w < |s.pcs| && s.pcs[w] == AtPop && w !in s.front.waiting
    ensures Control(p, ApplyPop(p, s, w))
  {
    PopFrame(p, s, w);
    PopOwned(p, s, w);
    PopSleep(p, s, w);
    PopStops(p, s, w);
  }

  lemma PopBudget(p: Params, s: State, w: nat)
    requires WithinBudget(p, s) && w < |s.pcs| && s.pcs[w] == AtPop
    ensures WithinBudget(p, ApplyPop(p, s, w))
  {
    var t := ApplyPop(p, s, w);
    Counts(s.pcs, w, t.pcs[w]);
    assert t.pcs == s.pcs[w := t.pcs[w]];
  }

  lemma PopNoRepeats(p: Params, s: State, w: nat)
    requires NoRepeats(p, s) && w < |s.pcs|
    ensures NoRepeats(p, ApplyPop(p, s, w))
  {
    if s.front.queue != [] && s.front.dfs {
      TakingLast(p, s);
    } else if s.front.queue != [] {
      var t := ApplyPop(p, s, w);
      assert t.popped + t.front.queue == s.popped + s.front.queue;
    }
  }

  // A LIFO pop moves the last queued entry to the end of popped: the same entries, reordered.
  lemma TakingLast(p: Params, s: State)
    requires NoRepeats(p, s) && s.front.queue != []
    ensures var n := |s.front.queue| - 1;
      var all := s.popped + [s.front.queue[n]] + s.front.queue[..n];
      DistinctNorms(p.cfg, all) && s.front.seen == Norms(p.cfg, all)
  {
    var n, q := |s.front.queue| - 1, s.front.queue;
    var all := s.popped + [q[n]] + q[..n];
    var was := s.popped + q;
    assert q == q[..n] + [q[n]];
    NormsOfConcat(p.cfg, s.popped, q);
    NormsOfConcat(p.cfg, q[..n], [q[n]]);
    NormsOfConcat(p.cfg, s.popped + [q[n]], q[..n]);
    NormsOfConcat(p.cfg, s.popped, [q[n]]);
    var m := |s.popped|;
    forall i, j | 0 <= i < j < |all| ensures p.cfg.normalize(all[i].url) != p.cfg.normalize(all[j].url) {
      var i' := if i < m then i else if i == m then m + n else i - 1;
      var j' := if j < m then j else if j == m then m + n else j - 1;
      assert was[i'] == all[i] && was[j'] == all[j];
    }
  }

  lemma PushControl(p: Params, s: State, w: nat)
    requires Control(p, s) && w < |s.pcs| && s.pcs[w].Pushing? && s.pcs[w].k < |s.popped|
    ensures Control(p, ApplyPush(p, s, w))
  {
    var t := ApplyPush(p, s, w);
    Counts(s.pcs, w, t.pcs[w]);
    assert PcFits(p.engine, s.pcs[w]);
  }

  lemma PushBudget(p: Params, s: State, w: nat)
    requires WithinBudget(p, s) && w < |s.pcs| && s.pcs[w].Pushing? && s.pcs[w].k < |s.popped|
    ensures WithinBudget(p, ApplyPush(p, s, w))
  {
    var t := ApplyPush(p, s, w);
    Counts(s.pcs, w, t.pcs[w]);
  }

  lemma PushNoRepeats(p: Params, s: State, w: nat)
    requires NoRepeats(p, s) && w < |s.pcs| && s.pcs[w].Pushing? && s.pcs[w].k < |s.popped|
    ensures NoRepeats(p, ApplyPush(p, s, w))
  {
    var es := LinkEntries(s.pcs[w].links, s.popped[s.pcs[w].k].depth + 1);
    var a := Accepted(p.cfg, s.front.seen, es);
    AcceptedIsExact(p.cfg, s.front.seen, es);
    NormsOfConcat(p.cfg, s.popped + s.front.queue, a);
    DistinctConcat(p.cfg, s.popped + s.front.queue, a);
    Regroup(s.popped, s.front.queue, a);
  }

  lemma DistinctConcat(cfg: Config, a: seq<Entry>, b: seq<Entry>)
    requires DistinctNorms(cfg, a) && DistinctNorms(cfg, b) && Norms(cfg, a) !! Norms(cfg, b)
    ensures DistinctNorms(cfg, a + b)
  {
    forall i, j | 0 <= i < |a| <= j < |a + b|
      ensures cfg.normalize((a + b)[i].url) != cfg.normalize((a + b)[j].url)
    {
      assert cfg.normalize(a[i].url) in Norms(cfg, a);
      assert cfg.normalize(b[j - |a|].url) in Norms(cfg, b);
    }
  }

  lemma IdleControl(p: Params, s: State, w: nat)
    requires Control(p, s) && w < |s.pcs| && s.pcs[w].Finishing?
    ensures Control(p, ApplyIdle(s, w))
  {
    var t := ApplyIdle(s, w);
    Counts(s.pcs, w, t.pcs[w]);
    assert PcFits(p.engine, s.pcs[w]);
  }

  lemma IdleBudget(p: Params, s: State, w: nat)
    requires WithinBudget(p, s) && w < |s.pcs| && s.pcs[w].Finishing?
    ensures WithinBudget(p, ApplyIdle(s, w))
  {
    var t := ApplyIdle(s, w);
    Counts(s.pcs, w, t.pcs[w]);
  }

  lemma VisitedOnceStep(p: Params, env: Env, s: State, step: Step)
    requires Owned(s) && VisitedOnce(s) && Enabled(p, env, s, step)
    ensures VisitedOnce(Apply(p, env, s, step))
  {
    var t := Apply(p, env, s, step);
    if step.Worker? {
      var w := step.w;
      assert t.pcs == s.pcs[w := t.pcs[w]];
      assert s.visits <= t.visits && s.popped <= t.popped;
      if t.visits != s.visits {
        assert t.visits == s.visits + [s.pcs[w].k];
      }
    }
  }

  // What a worker's step does to the results: it records at most the entry the worker holds, and
  // the worker holds an unrecorded one afterwards only if it did before or has just popped it.
  lemma RecordingMoves(p: Params, env: Env, s: State, w: nat, c: Choice)
    requires Enabled(p, env, s, Worker(w, c))
    ensures var t := Apply(p, env, s, Worker(w, c));
      && t.pcs == s.pcs[w := t.pcs[w]] && |s.popped| <= |t.popped|
      && (t.results == s.results
          || (s.pcs[w].Unrecorded() && !t.pcs[w].Unrecorded() && t.results == s.results + [s.pcs[w].k]))
      && (t.pcs[w].Unrecorded() ==>
            t.pcs[w].k == |s.popped| || (s.pcs[w].Unrecorded() && t.pcs[w].k == s.pcs[w].k))
  {
    if s.pcs[w] == AtPop {
      assert s.pcs[w := AtPop] == s.pcs;
    }
  }

  lemma RecordedOnceKept(s: State, t: State, w: nat)
    requires Owned(s) && RecordedOnce(s) && w < |s.pcs| == |t.pcs| && t.pcs == s.pcs[w := t.pcs[w]]
    requires |s.popped| <= |t.popped|
    requires t.results == s.results
             || (s.pcs[w].Unrecorded() && !t.pcs[w].Unrecorded() && t.results == s.results + [s.pcs[w].k])
    requires t.pcs[w].Unrecorded() ==>
               t.pcs[w].k == |s.popped| || (s.pcs[w].Unrecorded() && t.pcs[w].k == s.pcs[w].k)
    ensures RecordedOnce(t)
  {
    forall v: nat | v < |t.pcs| && t.pcs[v].Unrecorded() ensures t.pcs[v].k !in t.results {
      assert v != w ==> t.pcs[v] == s.pcs[v];
    }
  }

  lemma RecordedOnceStep(p: Params, env: Env, s: State, step: Step)
    requires Owned(s) && RecordedOnce(s) && Enabled(p, env, s, step)
    ensures RecordedOnce(Apply(p, env, s, step))
  {
    if step.Worker? {
      RecordingMoves(p, env, s, step.w, step.choice);
      RecordedOnceKept(s, Apply(p, env, s, step), step.w);
    }
  }

  lemma ControlStep(p: Params, env: Env, s: State, step: Step)
    requires Control(p, s) && Enabled(p, env, s, step)
    ensures Control(p, Apply(p, env, s, step))
  {
    match step
    case Worker(w, c) =>
      match s.pcs[w] {
        case AtPop => PopControl(p, s, w);
        case Pushing(_, _) => PushControl(p, s, w);
        case Finishing(_, _) => IdleControl(p, s, w);
        case Exited(_) => assert false;
        case _ => LocalControl(p, env, s, w, c);
      }
    case _ =>
  }

  lemma BudgetStep(p: Params, env: Env, s: State, step: Step)
    requires EngineFits(p, s) && WithinBudget(p, s) && Enabled(p, env, s, step)
    ensures WithinBudget(p, Apply(p, env, s, step))
  {
    match step
    case Worker(w, c) =>
      match s.pcs[w] {
        case AtPop => PopBudget(p, s, w);
        case Pushing(_, _) => PushBudget(p, s, w);
        case Finishing(_, _) => IdleBudget(p, s, w);
        case Exited(_) => assert false;
        case _ => LocalBudget(p, env, s, w, c);
      }
    case _ =>
  }

  lemma NoRepeatsStep(p: Params, env: Env, s: State, step: Step)
    requires NoRepeats(p, s) && Enabled(p, env, s, step)
    ensures NoRepeats(p, Apply(p, env, s, step))
  {
    if step.Worker? {
      if s.pcs[step.w].AtPop? {
        PopNoRepeats(p, s, step.w);
      } else if s.pcs[step.w].Pushing? {
        PushNoRepeats(p, s, step.w);
      }
    }
  }

  // Every step keeps the invariant ...
  lemma StepInv(p: Params, env: Env, s: State, step: Step)
    requires Inv(p, s) && Enabled(p, env, s, step)
    ensures Inv(p, Apply(p, env, s, step))
  {
    ControlStep(p, env, s, step);
    BudgetStep(p, env, s, step);
    NoRepeatsStep(p, env, s, step);
    VisitedOnceStep(p, env, s, step);
    RecordedOnceStep(p, env, s, step);
  }

  // ... so it holds in every state of every run.
  lemma {:induction false} RunInv(p: Params, env: Env, s: State, steps: seq<Step>)
    requires Inv(p, s) && Legal(p, env, s, steps)
    ensures Inv(p, After(p, env, s, steps))
    decreases |steps|
  {
    if steps != [] {
      StepInv(p, env, s, steps[0]);
      RunInv(p, env, Apply(p, env, s, steps[0]), steps[1..]);
    }
  }
}
