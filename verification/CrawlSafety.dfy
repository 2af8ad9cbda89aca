/**
 What holds in every state of every run of the crawl, for any number of workers, either engine,
 any pages and any interleaving.
 */
module CrawlSafety {
  import opened Basics
  import opened Frontiers
  import opened CrawlProtocol

  // The positions in popped of the entries being processed, and of those that are finished.
  function InFlight(s: State): set<nat> {
    set w: nat | w < |s.pcs| && s.pcs[w].Holding() :: s.pcs[w].k
  }

  function Done(s: State): set<nat> {
    set k: nat | k < |s.popped| && k !in InFlight(s)
  }

  function NormsAt(cfg: Config, es: seq<Entry>, ks: set<nat>): set<string> {
    set k | k in ks && k < |es| :: cfg.normalize(es[k].url)
  }

  predicate AllExited(s: State) {
    forall w: nat :: w < |s.pcs| ==> s.pcs[w].Exited?
  }

  lemma ReachableInv(p: Params, env: Env, s: State, steps: seq<Step>)
    requires Init(p, s) && Legal(p, env, s, steps)
    ensures Inv(p, After(p, env, s, steps))
  {
    InitInv(p, s);
    RunInv(p, env, s, steps);
  }

  // active is the number of workers between Pop and MarkIdle; and a sleeper that no broadcast
  // has woken sleeps rightly: the queue is empty, the frontier open, and some other worker
  // still processes a page, so the broadcast that wakes it is yet to come.
  lemma NoLostWakeup(p: Params, env: Env, s0: State, steps: seq<Step>)
    requires Init(p, s0) && Legal(p, env, s0, steps)
    ensures var s := After(p, env, s0, steps);
      && s.front.active == |Holders(s.pcs)|
      && forall w <- s.front.waiting ::
           && s.front.queue == [] && !s.front.closed
           && exists v: nat :: v != w && v < |s.pcs| && s.pcs[v].Holding()
  {
    var s := After(p, env, s0, steps);
    ReachableInv(p, env, s0, steps);
    forall w | w in s.front.waiting ensures exists v: nat :: v != w && v < |s.pcs| && s.pcs[v].Holding() {
      var v :| v in Holders(s.pcs);
    }
  }

  // Visits come back: for every URL there is an answer the environment may give.
  ghost predicate Responsive(env: Env) {
    forall url :: HasAnswer(env, url)
  }

  ghost predicate HasAnswer(env: Env, url: string) {
    exists links :: env.answers(url, links)
  }

  // No deadlock: until every worker has exited, some worker can take a step.
  lemma NoDeadlock(p: Params, env: Env, s0: State, steps: seq<Step>)
    requires Init(p, s0) && Legal(p, env, s0, steps) && Responsive(env)
    ensures var s := After(p, env, s0, steps);
      AllExited(s) || exists w, c :: Enabled(p, env, s, Worker(w, c))
  {
    var s := After(p, env, s0, steps);
    ReachableInv(p, env, s0, steps);
    if !AllExited(s) {
      var w: nat :| w < |s.pcs| && !s.pcs[w].Exited?;
      if w in s.front.waiting {
        w :| w in Holders(s.pcs);
      }
      CanMove(p, env, s, w);
    }
  }

  lemma CanMove(p: Params, env: Env, s: State, w: nat)
    requires Inv(p, s) && Responsive(env)
    requires w < |s.pcs| && !s.pcs[w].Exited? && w !in s.front.waiting
    ensures exists c :: Enabled(p, env, s, Worker(w, c))
  {
    if s.pcs[w].Visiting? {
      assert HasAnswer(env, s.popped[s.pcs[w].k].url);
      var links :| env.answers(s.popped[s.pcs[w].k].url, links);
      var c := if p.engine == Rod then Answer(links) else Fetched(links);
      assert Enabled(p, env, s, Worker(w, c));
    } else {
      assert Enabled(p, env, s, Worker(w, Go));
    }
  }

  // The queued, in-flight and finished entries have pairwise distinct normalised URLs (the
  // counts add up), and together they are seen.
  lemma Partition(p: Params, env: Env, s0: State, steps: seq<Step>)
    requires Init(p, s0) && Legal(p, env, s0, steps)
    ensures var s := After(p, env, s0, steps);
      && |InFlight(s)| == s.front.active
      && s.front.seen == Norms(p.cfg, s.front.queue) + NormsAt(p.cfg, s.popped, InFlight(s))
                         + NormsAt(p.cfg, s.popped, Done(s))
      && |s.front.seen| == |s.front.queue| + |InFlight(s)| + |Done(s)|
  {
    ReachableInv(p, env, s0, steps);
    PartitionOf(p, After(p, env, s0, steps));
  }

  lemma PartitionOf(p: Params, s: State)
    requires Counted(s) && Owned(s) && NoRepeats(p, s)
    ensures |InFlight(s)| == s.front.active
    ensures s.front.seen == Norms(p.cfg, s.front.queue) + NormsAt(p.cfg, s.popped, InFlight(s))
                            + NormsAt(p.cfg, s.popped, Done(s))
    ensures |s.front.seen| == |s.front.queue| + |InFlight(s)| + |Done(s)|
  {
    CountInFlight(s);
    NormsOfConcat(p.cfg, s.popped, s.front.queue);
    CountNorms(p.cfg, s.popped + s.front.queue);
    SplitPopped(p.cfg, s);
  }

  lemma SplitPopped(cfg: Config, s: State)
    requires Owned(s)
    ensures Norms(cfg, s.popped) == NormsAt(cfg, s.popped, InFlight(s)) + NormsAt(cfg, s.popped, Done(s))
    ensures |InFlight(s)| + |Done(s)| == |s.popped|
  {
    assert InFlight(s) + Done(s) == Below(|s.popped|);
    forall n | n in Norms(cfg, s.popped)
      ensures n in NormsAt(cfg, s.popped, InFlight(s)) + NormsAt(cfg, s.popped, Done(s))
    {
      var k: nat :| k < |s.popped| && cfg.normalize(s.popped[k].url) == n;
      assert k in InFlight(s) || k in Done(s);
    }
  }

  ghost function Image(ws: set<nat>, f: nat -> nat): set<nat> {
    set w | w in ws :: f(w)
  }

  lemma {:induction false} CountImage(ws: set<nat>, f: nat -> nat)
    requires forall v, w :: v in ws && w in ws && v != w ==> f(v) != f(w)
    ensures |Image(ws, f)| == |ws|
  {
    if ws != {} {
      var w :| w in ws;
      var rest := ws - {w};
      CountImage(rest, f);
      assert Image(ws, f) == Image(rest, f) + {f(w)};
    }
  }

  lemma CountInFlight(s: State)
    requires Owned(s)
    ensures |InFlight(s)| == |Holders(s.pcs)|
  {
    var held := (w: nat) => if w < |s.pcs| && s.pcs[w].Holding() then s.pcs[w].k else 0;
    CountImage(Holders(s.pcs), held);
    forall k ensures k in InFlight(s) <==> k in Image(Holders(s.pcs), held) {
      if k in InFlight(s) {
        var w: nat :| w < |s.pcs| && s.pcs[w].Holding() && s.pcs[w].k == k;
        assert held(w) == k && w in Holders(s.pcs);
      }
    }
    assert InFlight(s) == Image(Holders(s.pcs), held);
  }

  ghost function Below(n: nat): (r: set<nat>)
    ensures |r| == n && forall k: nat :: k in r <==> k < n
  {
    if n == 0 then {} else Below(n - 1) + {n - 1}
  }

  lemma {:induction false} CountNorms(cfg: Config, es: seq<Entry>)
    requires DistinctNorms(cfg, es)
    ensures |Norms(cfg, es)| == |es|
  {
    if es != [] {
      var n := |es| - 1;
      CountNorms(cfg, es[..n]);
      NormsOfConcat(cfg, es[..n], [es[n]]);
      NormsOfOne(cfg, es[n]);
      assert es == es[..n] + [es[n]];
    }
  }

  // Once Pop has told one worker that an open frontier is exhausted, every popped entry is
  // finished, and nothing is queued, popped, visited or seen ever again.
  lemma {:induction false} ExhaustedForGood(p: Params, env: Env, s: State, steps: seq<Step>)
    requires Inv(p, s) && Exited(Drained) in s.pcs && Legal(p, env, s, steps)
    ensures var t := After(p, env, s, steps);
      && t.front.queue == [] && InFlight(t) == {}
      && t.popped == s.popped && t.visits == s.visits && t.results == s.results && t.front.seen == s.front.seen
    decreases |steps|
  {
    NobodyHolds(s);
    if steps != [] {
      StepInv(p, env, s, steps[0]);
      ExhaustedStep(p, env, s, steps[0]);
      ExhaustedForGood(p, env, Apply(p, env, s, steps[0]), steps[1..]);
    }
  }

  lemma ExhaustedStep(p: Params, env: Env, s: State, step: Step)
    requires Inv(p, s) && Exited(Drained) in s.pcs && Enabled(p, env, s, step)
    ensures var t := Apply(p, env, s, step);
      && Exited(Drained) in t.pcs
      && t.popped == s.popped && t.visits == s.visits && t.results == s.results && t.front.seen == s.front.seen
  {
    NobodyHolds(s);
    var w :| 0 <= w < |s.pcs| && s.pcs[w] == Exited(Drained);
    assert Apply(p, env, s, step).pcs[w] == Exited(Drained);
  }

  lemma NobodyHolds(s: State)
    requires Counted(s) && s.front.active == 0
    ensures InFlight(s) == {} && forall w: nat :: w < |s.pcs| ==> !s.pcs[w].Holding()
  {
    forall w: nat | w < |s.pcs| ensures !s.pcs[w].Holding() {
      assert w !in Holders(s.pcs);
    }
  }

  // The Rod engine never visits more than maxPages pages nor pops more than that plus one entry
  // a worker; it visits no URL twice; and a worker gives up for want of budget only when the
  // budget is spent to the last page.
  lemma RodBudget(p: Params, env: Env, s0: State, steps: seq<Step>)
    requires Init(p, s0) && Legal(p, env, s0, steps) && p.engine == Rod
    ensures var s := After(p, env, s0, steps);
      && NoDuplicates(s.visits)
      && (p.maxPages > 0 ==> |s.visits| <= p.maxPages && |s.popped| <= p.maxPages + p.workers)
      && (Exited(BudgetSpent) in s.pcs || Exited(Released) in s.pcs ==> |s.visits| == p.maxPages)
  {
    var s := After(p, env, s0, steps);
    ReachableInv(p, env, s0, steps);
    SubsetCount(Debtors(s.pcs), Below(p.workers));
  }

  // The Http engine stores at most maxPages results, no entry's twice, and cancels the crawl
  // when, and unless the context is cancelled from outside only when, it has stored them all.
  lemma HttpBudget(p: Params, env: Env, s0: State, steps: seq<Step>)
    requires Init(p, s0) && Legal(p, env, s0, steps) && p.engine == Http && p.maxPages > 0
    ensures var s := After(p, env, s0, steps);
      && NoDuplicates(s.results) && |s.results| == s.pages <= p.maxPages
      && (|s.results| == p.maxPages ==> s.cancelled)
      && (s.cancelled && !env.cancels ==> |s.results| == p.maxPages)
  {
    ReachableInv(p, env, s0, steps);
    if !env.cancels {
      InitInv(p, s0);
      CancelledByCap(p, env, s0, steps);
    }
  }

  // ---------------------------------------------------------------- results stored (Http)

  ghost predicate HeldUnrecorded(s: State, k: nat) {
    exists w: nat :: w < |s.pcs| && s.pcs[w].Unrecorded() && s.pcs[w].k == k
  }

  // Unless the cap is reached, every popped entry is stored or about to be.
  ghost predicate Storing(p: Params, s: State) {
    && (forall w: nat :: w < |s.pcs| && s.pcs[w].Recording? ==> s.pcs[w].observed)
    && (s.pages < p.maxPages ==> forall k: nat :: k < |s.popped| ==> k in s.results || HeldUnrecorded(s, k))
  }

  // The worker that moves keeps its entry unrecorded, stores it, or meets the cap.
  lemma StoringMoves(p: Params, env: Env, s: State, w: nat, c: Choice)
    requires p.engine == Http && !env.failures && EngineFits(p, s) && Storing(p, s)
    requires Enabled(p, env, s, Worker(w, c))
    ensures var t := Apply(p, env, s, Worker(w, c));
      && t.pcs == s.pcs[w := t.pcs[w]] && s.pages <= t.pages && s.results <= t.results
      && (t.pcs[w].Recording? ==> t.pcs[w].observed)
      && (t.popped == s.popped
          || (|t.popped| == |s.popped| + 1 && t.pcs[w].Unrecorded() && t.pcs[w].k == |s.popped|
              && !s.pcs[w].Unrecorded()))
      && (s.pcs[w].Unrecorded() && t.pages < p.maxPages ==>
            s.pcs[w].k in t.results || (t.pcs[w].Unrecorded() && t.pcs[w].k == s.pcs[w].k))
  {
    assert PcFits(p.engine, s.pcs[w]);
    if s.pcs[w] == AtPop {
      assert s.pcs[w := AtPop] == s.pcs;
    }
    if s.pcs[w].Recording? && s.pages < p.maxPages {
      assert Apply(p, env, s, Worker(w, c)).results == s.results + [s.pcs[w].k];
    }
  }

  lemma StoringKept(p: Params, s: State, t: State, w: nat)
    requires Storing(p, s) && w < |s.pcs| == |t.pcs| && t.pcs == s.pcs[w := t.pcs[w]]
    requires s.pages <= t.pages && s.results <= t.results && (t.pcs[w].Recording? ==> t.pcs[w].observed)
    requires t.popped == s.popped
             || (|t.popped| == |s.popped| + 1 && t.pcs[w].Unrecorded() && t.pcs[w].k == |s.popped|
                 && !s.pcs[w].Unrecorded())
    requires s.pcs[w].Unrecorded() && t.pages < p.maxPages ==>
               s.pcs[w].k in t.results || (t.pcs[w].Unrecorded() && t.pcs[w].k == s.pcs[w].k)
    ensures Storing(p, t)
  {
    if t.pages < p.maxPages {
      forall k: nat | k < |t.popped| ensures k in t.results || HeldUnrecorded(t, k) {
        if k < |s.popped| && k !in t.results {
          assert k !in s.results;
          var v: nat :| v < |s.pcs| && s.pcs[v].Unrecorded() && s.pcs[v].k == k;
          assert v != w ==> t.pcs[v] == s.pcs[v];
        }
      }
    }
  }

  lemma StoringStep(p: Params, env: Env, s: State, step: Step)
    requires p.engine == Http && !env.failures && EngineFits(p, s) && Storing(p, s) && Enabled(p, env, s, step)
    ensures Storing(p, Apply(p, env, s, step))
  {
    if step.Worker? {
      StoringMoves(p, env, s, step.w, step.choice);
      StoringKept(p, s, Apply(p, env, s, step), step.w);
    } else {
      var t := Apply(p, env, s, step);
      forall k: nat | k < |t.popped| && HeldUnrecorded(s, k) ensures HeldUnrecorded(t, k) {
      }
    }
  }

  lemma {:induction false} StoringRun(p: Params, env: Env, s: State, steps: seq<Step>)
    requires p.engine == Http && !env.failures && Inv(p, s) && Storing(p, s) && Legal(p, env, s, steps)
    ensures Storing(p, After(p, env, s, steps))
    decreases |steps|
  {
    if steps != [] {
      StepInv(p, env, s, steps[0]);
      StoringStep(p, env, s, steps[0]);
      StoringRun(p, env, Apply(p, env, s, steps[0]), steps[1..]);
    }
  }

  ghost function Members(ks: seq<nat>): set<nat> {
    set k | k in ks
  }

  lemma {:induction false} CountStored(ks: seq<nat>)
    requires NoDuplicates(ks)
    ensures |Members(ks)| == |ks|
  {
    if ks != [] {
      var t, k := ks[..|ks| - 1], ks[|ks| - 1];
      CountStored(t);
      assert ks == t + [k];
      assert Members(ks) == Members(t) + {k};
    }
  }

  // If no fetch fails, the Http engine ends having stored the result of every entry popped, or as
  // many results as its cap allows.
  lemma EveryPageStored(p: Params, env: Env, s0: State, steps: seq<Step>)
    requires Init(p, s0) && Legal(p, env, s0, steps) && p.engine == Http && p.maxPages > 0 && !env.failures
    requires AllExited(After(p, env, s0, steps))
    ensures var s := After(p, env, s0, steps);
      |s.results| == if |s.popped| <= p.maxPages then |s.popped| else p.maxPages
  {
    var s := After(p, env, s0, steps);
    InitInv(p, s0);
    RunInv(p, env, s0, steps);
    StoringRun(p, env, s0, steps);
    CountStored(s.results);
    SubsetCount(Members(s.results), Below(|s.popped|));
    if s.pages < p.maxPages {
      forall k: nat | k < |s.popped| ensures k in s.results {
        assert !HeldUnrecorded(s, k);
      }
      assert Below(|s.popped|) == Members(s.results);
    }
  }

  lemma {:induction false} CancelledByCap(p: Params, env: Env, s: State, steps: seq<Step>)
    requires p.engine == Http && p.maxPages > 0 && !env.cancels
    requires Inv(p, s) && Legal(p, env, s, steps)
    requires s.cancelled ==> s.pages == p.maxPages
    ensures After(p, env, s, steps).cancelled ==> After(p, env, s, steps).pages == p.maxPages
    decreases |steps|
  {
    if steps != [] {
      StepInv(p, env, s, steps[0]);
      assert s.cancelled ==> Apply(p, env, s, steps[0]).pages == p.maxPages by {
        if steps[0].Worker? {
          assert PcFits(p.engine, s.pcs[steps[0].w]);
        }
      }
      CancelledByCap(p, env, Apply(p, env, s, steps[0]), steps[1..]);
    }
  }
}
