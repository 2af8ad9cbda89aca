/** Which entries the HTTP engine stores a result for: those whose fetch succeeded, and no others. */
module CrawlRecord {
  import opened Basics
  import opened Frontiers
  import opened CrawlProtocol
  import opened CrawlSafety

  // In the run some worker got this answer for the entry number k.
  ghost predicate Answered(p: Params, env: Env, s: State, steps: seq<Step>, k: nat, c: Choice -> bool)
    requires Legal(p, env, s, steps)
    decreases |steps|
  {
    steps != [] &&
      (|| AnswersNow(s, steps[0], k, c)
       || Answered(p, env, Apply(p, env, s, steps[0]), steps[1..], k, c))
  }

  ghost predicate AnswersNow(s: State, step: Step, k: nat, c: Choice -> bool) {
    step.Worker? && step.w < |s.pcs| && s.pcs[step.w] == Visiting(k) && c(step.choice)
  }

  ghost predicate Fetched(p: Params, env: Env, s: State, steps: seq<Step>, k: nat)
    requires Legal(p, env, s, steps)
  {
    Answered(p, env, s, steps, k, (c: Choice) => c.Fetched?)
  }

  ghost predicate FetchFails(p: Params, env: Env, s: State, steps: seq<Step>, k: nat)
    requires Legal(p, env, s, steps)
  {
    Answered(p, env, s, steps, k, (c: Choice) => c == FetchFailed)
  }

  // ---------------------------------------------------------------- only what was fetched is stored

  // Entry k is stored, or a worker is about to store it.
  ghost predicate Kept(s: State, k: nat) {
    k in s.results || Storing(s, k)
  }

  ghost predicate Storing(s: State, k: nat) {
    exists w: nat :: StoringAt(s, w, k)
  }

  ghost predicate StoringAt(s: State, w: nat, k: nat) {
    w < |s.pcs| && s.pcs[w].Recording? && s.pcs[w].k == k && s.pcs[w].observed
  }

  lemma StoringBefore(p: Params, env: Env, s: State, step: Step, k: nat)
    requires Enabled(p, env, s, step) && Storing(Apply(p, env, s, step), k)
    ensures Storing(s, k) || AnswersNow(s, step, k, (c: Choice) => c.Fetched?)
  {
    var w: nat :| StoringAt(Apply(p, env, s, step), w, k);
    if step.Worker? && step.w == w {
      StartsStoring(p, s, w, step.choice, k);
    } else {
      assert StoringAt(s, w, k);
    }
  }

  // Only a page just fetched is about to be stored.
  lemma StartsStoring(p: Params, s: State, w: nat, c: Choice, k: nat)
    requires w < |s.pcs| && StoringAt(ApplyLocal(p, s, w, c), w, k)
    requires !s.pcs[w].AtPop? && !s.pcs[w].Pushing? && !s.pcs[w].Finishing?
    ensures StoringAt(s, w, k) || (s.pcs[w] == Visiting(k) && c.Fetched?)
  {
  }

  lemma StoredBefore(p: Params, env: Env, s: State, step: Step, k: nat)
    requires Enabled(p, env, s, step) && k in Apply(p, env, s, step).results
    ensures Kept(s, k)
  {
    if k !in s.results {
      assert Apply(p, env, s, step).results == s.results + [s.pcs[step.w].k];
      assert StoringAt(s, step.w, k);
    }
  }

  lemma KeptBefore(p: Params, env: Env, s: State, step: Step, k: nat)
    requires Enabled(p, env, s, step) && Kept(Apply(p, env, s, step), k)
    ensures Kept(s, k) || AnswersNow(s, step, k, (c: Choice) => c.Fetched?)
  {
    if k in Apply(p, env, s, step).results {
      StoredBefore(p, env, s, step, k);
    } else {
      StoringBefore(p, env, s, step, k);
    }
  }

  lemma {:induction false} StoredWasFetched(p: Params, env: Env, s: State, steps: seq<Step>, k: nat)
    requires Legal(p, env, s, steps) && Kept(After(p, env, s, steps), k)
    ensures Kept(s, k) || Fetched(p, env, s, steps, k)
    decreases |steps|
  {
    if steps != [] {
      StoredWasFetched(p, env, Apply(p, env, s, steps[0]), steps[1..], k);
      if Kept(Apply(p, env, s, steps[0]), k) {
        KeptBefore(p, env, s, steps[0], k);
      }
    }
  }

  // A result is stored only for an entry whose fetch succeeded.
  lemma StoredIsFetched(p: Params, env: Env, s0: State, steps: seq<Step>, k: nat)
    requires Init(p, s0) && Legal(p, env, s0, steps) && k in After(p, env, s0, steps).results
    ensures Fetched(p, env, s0, steps, k)
  {
    StoredWasFetched(p, env, s0, steps, k);
    assert !Kept(s0, k);
  }

  // ---------------------------------------------------------------- what was fetched is stored

  lemma StoringOn(p: Params, env: Env, s: State, step: Step, k: nat, w: nat)
    requires Enabled(p, env, s, step) && StoringAt(s, w, k)
    ensures var t := Apply(p, env, s, step); Kept(t, k) || t.pages >= p.maxPages
  {
    var t := Apply(p, env, s, step);
    if step.Worker? && step.w == w {
      assert s.pages < p.maxPages ==> t.results == s.results + [k];
    } else {
      assert StoringAt(t, w, k);
    }
  }

  lemma ResultsGrow(p: Params, env: Env, s: State, step: Step)
    requires Enabled(p, env, s, step)
    ensures s.results <= Apply(p, env, s, step).results
  {
  }

  lemma KeptOn(p: Params, env: Env, s: State, step: Step, k: nat)
    requires Enabled(p, env, s, step) && (Kept(s, k) || AnswersNow(s, step, k, (c: Choice) => c.Fetched?))
    ensures var t := Apply(p, env, s, step); Kept(t, k) || t.pages >= p.maxPages
  {
    if k in s.results {
      ResultsGrow(p, env, s, step);
    } else if Storing(s, k) {
      var w: nat :| StoringAt(s, w, k);
      StoringOn(p, env, s, step, k, w);
    } else {
      assert StoringAt(Apply(p, env, s, step), step.w, k);
    }
  }

  lemma {:induction false} PagesGrow(p: Params, env: Env, s: State, steps: seq<Step>)
    requires Legal(p, env, s, steps)
    ensures s.pages <= After(p, env, s, steps).pages
    decreases |steps|
  {
    if steps != [] {
      PagesGrow(p, env, Apply(p, env, s, steps[0]), steps[1..]);
    }
  }

  lemma {:induction false} FetchedIsKept(p: Params, env: Env, s: State, steps: seq<Step>, k: nat)
    requires Legal(p, env, s, steps) && (Kept(s, k) || Fetched(p, env, s, steps, k))
    ensures var t := After(p, env, s, steps); Kept(t, k) || t.pages >= p.maxPages
    decreases |steps|
  {
    if steps != [] {
      var t := Apply(p, env, s, steps[0]);
      if Kept(s, k) || AnswersNow(s, steps[0], k, (c: Choice) => c.Fetched?) {
        KeptOn(p, env, s, steps[0], k);
        PagesGrow(p, env, t, steps[1..]);
      }
      if t.pages < p.maxPages || !Kept(s, k) {
        if Kept(t, k) || Fetched(p, env, t, steps[1..], k) {
          FetchedIsKept(p, env, t, steps[1..], k);
        }
      }
    }
  }

  // When all workers have exited with the cap not reached, exactly the entries fetched are stored.
  lemma StoredExactly(p: Params, env: Env, s0: State, steps: seq<Step>, k: nat)
    requires Init(p, s0) && Legal(p, env, s0, steps)
    requires AllExited(After(p, env, s0, steps)) && After(p, env, s0, steps).pages < p.maxPages
    ensures k in After(p, env, s0, steps).results <==> Fetched(p, env, s0, steps, k)
  {
    var s := After(p, env, s0, steps);
    assert !Kept(s0, k);
    if k in s.results {
      StoredIsFetched(p, env, s0, steps, k);
    }
    if Fetched(p, env, s0, steps, k) {
      FetchedIsKept(p, env, s0, steps, k);
      assert !Storing(s, k);
    }
  }

  // ---------------------------------------------------------------- a failed fetch

  // Entry k is popped, unrecorded, and no worker will fetch or store it.
  ghost predicate Lost(s: State, k: nat) {
    && k < |s.popped| && k !in s.results
    && forall w: nat :: w < |s.pcs| && s.pcs[w].Unrecorded() && s.pcs[w].k == k ==>
         s.pcs[w].Recording? && !s.pcs[w].observed
  }

  lemma LostStep(p: Params, env: Env, s: State, step: Step, k: nat)
    requires Enabled(p, env, s, step)
    requires Lost(s, k)
    ensures Lost(Apply(p, env, s, step), k)
  {
    var t := Apply(p, env, s, step);
    if step.Worker? {
      RecordingMoves(p, env, s, step.w, step.choice);
      forall w: nat | w < |t.pcs| && t.pcs[w].Unrecorded() && t.pcs[w].k == k
        ensures t.pcs[w].Recording? && !t.pcs[w].observed
      {
        if w != step.w {
          assert t.pcs[w] == s.pcs[w];
        }
      }
      if t.results != s.results {
        assert t.results == s.results + [s.pcs[step.w].k];
      }
    }
  }

  lemma {:induction false} LostForGood(p: Params, env: Env, s: State, steps: seq<Step>, k: nat)
    requires Legal(p, env, s, steps) && Lost(s, k)
    ensures Lost(After(p, env, s, steps), k)
    decreases |steps|
  {
    if steps != [] {
      LostStep(p, env, s, steps[0], k);
      LostForGood(p, env, Apply(p, env, s, steps[0]), steps[1..], k);
    }
  }

  lemma OwnsAlone(s: State, v: nat, w: nat)
    requires Owned(s) && v < |s.pcs| && w < |s.pcs| && v != w && s.pcs[v].Holding() && s.pcs[w].Holding()
    ensures s.pcs[v].k != s.pcs[w].k
  {
    if v < w {
      assert s.pcs[v].k != s.pcs[w].k;
    } else {
      assert s.pcs[w].k != s.pcs[v].k;
    }
  }

  lemma FailureLoses(p: Params, env: Env, s: State, step: Step, k: nat)
    requires Inv(p, s) && Enabled(p, env, s, step) && AnswersNow(s, step, k, (c: Choice) => c == FetchFailed)
    ensures Lost(Apply(p, env, s, step), k)
  {
    var t, mover := Apply(p, env, s, step), step.w;
    assert t.pcs[step.w] == Recording(k, false, []);
    forall w: nat | w < |t.pcs| && t.pcs[w].Unrecorded() && t.pcs[w].k == k
      ensures t.pcs[w].Recording? && !t.pcs[w].observed
    {
      if w != mover && s.pcs[w].Holding() {
        OwnsAlone(s, w, mover);
      }
    }
  }

  lemma {:induction false} FailedIsLost(p: Params, env: Env, s: State, steps: seq<Step>, k: nat)
    requires Inv(p, s) && Legal(p, env, s, steps) && FetchFails(p, env, s, steps, k)
    ensures Lost(After(p, env, s, steps), k)
    decreases |steps|
  {
    var t := Apply(p, env, s, steps[0]);
    if AnswersNow(s, steps[0], k, (c: Choice) => c == FetchFailed) {
      FailureLoses(p, env, s, steps[0], k);
      LostForGood(p, env, t, steps[1..], k);
    } else {
      StepInv(p, env, s, steps[0]);
      FailedIsLost(p, env, t, steps[1..], k);
    }
  }

  // An entry whose fetch failed is never stored, and the page count, which is the number of results,
  // does not count it.
  lemma FailedIsNotStored(p: Params, env: Env, s0: State, steps: seq<Step>, k: nat)
    requires Init(p, s0) && Legal(p, env, s0, steps) && p.engine == Http && FetchFails(p, env, s0, steps, k)
    ensures var s := After(p, env, s0, steps);
      && k !in s.results && s.pages == |s.results| && NoDuplicates(s.results)
      && !Fetched(p, env, s0, steps, k)
  {
    InitInv(p, s0);
    RunInv(p, env, s0, steps);
    FailedIsLost(p, env, s0, steps, k);
    AnswersExclude(p, env, s0, steps, k, (c: Choice) => c == FetchFailed, (c: Choice) => c.Fetched?);
  }

  // ---------------------------------------------------------------- one answer for each entry

  // Entry k is popped and not waiting for its visit any more.
  ghost predicate PastVisit(s: State, k: nat) {
    && k < |s.popped|
    && forall w: nat :: w < |s.pcs| && (s.pcs[w].Reserving? || s.pcs[w].Visiting?) ==> s.pcs[w].k != k
  }

  lemma AnswerIsPast(p: Params, env: Env, s: State, step: Step, k: nat, c: Choice -> bool)
    requires Inv(p, s) && Enabled(p, env, s, step) && AnswersNow(s, step, k, c)
    ensures PastVisit(Apply(p, env, s, step), k)
  {
    var t, mover := Apply(p, env, s, step), step.w;
    forall w: nat | w < |t.pcs| && (t.pcs[w].Reserving? || t.pcs[w].Visiting?) ensures t.pcs[w].k != k {
      if w != mover && s.pcs[w].Holding() {
        OwnsAlone(s, w, mover);
      }
    }
  }

  lemma PastStep(p: Params, env: Env, s: State, step: Step, k: nat)
    requires Enabled(p, env, s, step) && PastVisit(s, k)
    ensures PastVisit(Apply(p, env, s, step), k)
  {
    var t := Apply(p, env, s, step);
    forall w: nat | w < |t.pcs| && (t.pcs[w].Reserving? || t.pcs[w].Visiting?) ensures t.pcs[w].k != k {
      if !(step.Worker? && w == step.w) {
        assert t.pcs[w] == s.pcs[w];
      }
    }
  }

  lemma {:induction false} PastIsNotAnswered(p: Params, env: Env, s: State, steps: seq<Step>, k: nat, c: Choice -> bool)
    requires Legal(p, env, s, steps) && PastVisit(s, k)
    ensures !Answered(p, env, s, steps, k, c)
    decreases |steps|
  {
    if steps != [] {
      PastStep(p, env, s, steps[0], k);
      PastIsNotAnswered(p, env, Apply(p, env, s, steps[0]), steps[1..], k, c);
    }
  }

  // No two kinds of answer for one entry.
  lemma {:induction false} AnswersExclude(p: Params, env: Env, s: State, steps: seq<Step>, k: nat,
                                          c: Choice -> bool, d: Choice -> bool)
    requires Inv(p, s) && Legal(p, env, s, steps) && forall x :: !(c(x) && d(x))
    requires Answered(p, env, s, steps, k, c)
    ensures !Answered(p, env, s, steps, k, d)
    decreases |steps|
  {
    var t := Apply(p, env, s, steps[0]);
    if AnswersNow(s, steps[0], k, c) {
      AnswerIsPast(p, env, s, steps[0], k, c);
      PastIsNotAnswered(p, env, t, steps[1..], k, d);
    } else if AnswersNow(s, steps[0], k, d) {
      AnswerIsPast(p, env, s, steps[0], k, d);
      PastIsNotAnswered(p, env, t, steps[1..], k, c);
      assert false;
    } else {
      StepInv(p, env, s, steps[0]);
      AnswersExclude(p, env, t, steps[1..], k, c, d);
    }
  }
}
