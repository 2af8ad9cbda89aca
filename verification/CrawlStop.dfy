/** Once the crawl is cancelled or its page budget spent, the workers stop: each pops at most once more. */
module CrawlStop {
  import opened Basics
  import opened Frontiers
  import opened CrawlProtocol
  import opened CrawlSafety

  // The context is cancelled, or the browser engine has visited as many pages as it may.
  ghost predicate Stopping(p: Params, s: State) {
    s.cancelled || (p.engine == Rod && 0 < p.maxPages <= s.pages)
  }

  // About to pop without another look at the context or at a budget that is spent.
  ghost predicate Ready(p: Params, s: State, pc: Pc) {
    pc == AtPop || (pc == Budget && !(0 < p.maxPages <= s.pages))
  }

  ghost function ReadyOnes(p: Params, s: State): set<nat> {
    set w: nat | w < |s.pcs| && Ready(p, s, s.pcs[w])
  }

  // Where one worker moves, no other becomes ready.
  lemma OthersStay(p: Params, s: State, t: State, w: nat)
    requires w < |s.pcs| && |t.pcs| == |s.pcs| && t.pcs == s.pcs[w := t.pcs[w]] && s.pages <= t.pages
    requires Ready(p, t, t.pcs[w]) ==> Ready(p, s, s.pcs[w])
    ensures ReadyOnes(p, t) <= ReadyOnes(p, s)
    ensures Ready(p, s, s.pcs[w]) && !Ready(p, t, t.pcs[w]) ==> ReadyOnes(p, t) <= ReadyOnes(p, s) - {w}
  {
  }

  // A worker that is not ready neither pops nor becomes ready, and one that pops is ready no more.
  lemma StoppingMove(p: Params, env: Env, s: State, step: Step)
    requires step.Worker? && Enabled(p, env, s, step) && Stopping(p, s)
    ensures var t, w := Apply(p, env, s, step), step.w;
      && Stopping(p, t) && s.pages <= t.pages && |t.pcs| == |s.pcs| && t.pcs == s.pcs[w := t.pcs[w]]
      && (Ready(p, t, t.pcs[w]) ==> Ready(p, s, s.pcs[w]) && t.popped == s.popped)
      && (t.popped != s.popped ==> Ready(p, s, s.pcs[w]) && |t.popped| == |s.popped| + 1)
  {
  }

  lemma StoppingStep(p: Params, env: Env, s: State, step: Step)
    requires Enabled(p, env, s, step) && Stopping(p, s)
    ensures var t := Apply(p, env, s, step);
      Stopping(p, t) && |t.popped| + |ReadyOnes(p, t)| <= |s.popped| + |ReadyOnes(p, s)|
  {
    if step.Worker? {
      StoppingMove(p, env, s, step);
      ReadyFewer(p, s, Apply(p, env, s, step), step.w);
    } else {
      assert ReadyOnes(p, Apply(p, env, s, step)) == ReadyOnes(p, s);
    }
  }

  lemma ReadyFewer(p: Params, s: State, t: State, w: nat)
    requires w < |s.pcs| && |t.pcs| == |s.pcs| && t.pcs == s.pcs[w := t.pcs[w]] && s.pages <= t.pages
    requires Ready(p, t, t.pcs[w]) ==> Ready(p, s, s.pcs[w]) && t.popped == s.popped
    requires t.popped != s.popped ==> Ready(p, s, s.pcs[w]) && |t.popped| == |s.popped| + 1
    ensures |t.popped| + |ReadyOnes(p, t)| <= |s.popped| + |ReadyOnes(p, s)|
  {
    OthersStay(p, s, t, w);
    SubsetCount(ReadyOnes(p, t), ReadyOnes(p, s));
    if t.popped != s.popped {
      assert w in ReadyOnes(p, s);
      SubsetCount(ReadyOnes(p, t), ReadyOnes(p, s) - {w});
    }
  }

  lemma {:induction false} StoppingRun(p: Params, env: Env, s: State, steps: seq<Step>)
    requires Legal(p, env, s, steps) && Stopping(p, s)
    ensures var t := After(p, env, s, steps);
      Stopping(p, t) && |t.popped| + |ReadyOnes(p, t)| <= |s.popped| + |ReadyOnes(p, s)|
    decreases |steps|
  {
    if steps != [] {
      StoppingStep(p, env, s, steps[0]);
      StoppingRun(p, env, Apply(p, env, s, steps[0]), steps[1..]);
    }
  }

  // From there on no more entries are popped than there are workers that had already looked, so
  // none if there are none, and at most one a worker.
  lemma StopsSoon(p: Params, env: Env, s: State, steps: seq<Step>)
    requires Legal(p, env, s, steps) && Stopping(p, s)
    ensures |After(p, env, s, steps).popped| <= |s.popped| + |ReadyOnes(p, s)|
    ensures |ReadyOnes(p, s)| <= |s.pcs|
  {
    StoppingRun(p, env, s, steps);
    SubsetCount(ReadyOnes(p, s), Below(|s.pcs|));
  }
}
