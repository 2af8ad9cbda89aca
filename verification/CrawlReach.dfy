/**
 What a crawl visits: nothing but what links lead to, and in breadth-first order exactly the
 pages within maxDepth hops, each at its shortest distance.

 web(url) is the list of links found on a page. URLs with the same normalised form count as
 one page, and a crawl follows the links of only one of them.
 */
module CrawlReach {
  import opened Frontiers
  import opened CrawlProtocol
  import opened CrawlSafety

  type Web = string -> seq<string>

  // url is d link hops from the seed, through URLs that normalise and are in scope.
  ghost predicate Reach(p: Params, web: Web, url: string, d: nat)
    decreases d
  {
    && Admissible(p.cfg, url)
    && if d == 0 then url == p.seed
       else exists from: string :: Reach(p, web, from, d - 1) && url in web(from)
  }

  // Some URL with normalised form n is d hops away.
  ghost predicate ReachNorm(p: Params, web: Web, n: string, d: nat) {
    exists url: string :: Reach(p, web, url, d) && p.cfg.normalize(url) == n
  }

  ghost predicate AnswersWithin(env: Env, web: Web) {
    forall url, links :: env.answers(url, links) ==> forall l <- links :: l in web(url)
  }

  ghost predicate AnswersExactly(env: Env, web: Web) {
    forall url, links :: env.answers(url, links) ==> links == web(url)
  }

  function LinksOf(pc: Pc): seq<string> {
    if pc.Emitting? || pc.Recording? || pc.Pushing? then pc.links else []
  }

  // ---------------------------------------------------------------- soundness

  ghost predicate Sound(p: Params, web: Web, s: State) {
    SoundEntries(p, web, s) && SoundLinks(web, s)
  }

  ghost predicate SoundEntries(p: Params, web: Web, s: State) {
    forall e <- s.popped + s.front.queue ::
      e.depth >= 0 && WithinDepth(p.cfg, e.depth) && Reach(p, web, e.url, e.depth)
  }

  ghost predicate SoundLinks(web: Web, s: State) {
    forall w: nat :: w < |s.pcs| && LinksOf(s.pcs[w]) != [] ==>
      s.pcs[w].k < |s.popped| && forall l <- LinksOf(s.pcs[w]) :: l in web(s.popped[s.pcs[w].k].url)
  }

  lemma SoundStep(p: Params, web: Web, env: Env, s: State, step: Step)
    requires AnswersWithin(env, web) && Sound(p, web, s) && Enabled(p, env, s, step)
    ensures Sound(p, web, Apply(p, env, s, step))
  {
    var t := Apply(p, env, s, step);
    SoundLinksStep(p, web, env, s, step);
    if step.Worker? && s.pcs[step.w].Pushing? {
      PushSound(p, web, s, step.w);
    } else {
      forall e | e in t.popped + t.front.queue ensures e in s.popped + s.front.queue {
        QueueOnlyMoves(p, env, s, step, e);
      }
    }
  }

  lemma QueueOnlyMoves(p: Params, env: Env, s: State, step: Step, e: Entry)
    requires Enabled(p, env, s, step) && !(step.Worker? && s.pcs[step.w].Pushing?)
    ensures var t := Apply(p, env, s, step);
      e in t.popped + t.front.queue ==> e in s.popped + s.front.queue
  {
    var t := Apply(p, env, s, step);
    if !(step.Worker? && s.pcs[step.w].AtPop?) {
      assert t.popped == s.popped && t.front.queue == s.front.queue;
    }
  }

  // The worker that moved holds only links it held before or was just answered.
  lemma MovedLinks(p: Params, web: Web, env: Env, s: State, w: nat, c: Choice)
    requires AnswersWithin(env, web) && SoundLinks(web, s) && Enabled(p, env, s, Worker(w, c))
    ensures var t := Apply(p, env, s, Worker(w, c));
      && s.popped <= t.popped && t.pcs == s.pcs[w := t.pcs[w]]
      && (LinksOf(t.pcs[w]) != [] ==>
            t.pcs[w].k < |t.popped| && forall l <- LinksOf(t.pcs[w]) :: l in web(t.popped[t.pcs[w].k].url))
  {
    var t := Apply(p, env, s, Worker(w, c));
    if s.pcs[w] == AtPop {
      assert LinksOf(t.pcs[w]) == [];
      assert s.pcs[w := AtPop] == s.pcs;
    }
  }

  lemma SoundLinksStep(p: Params, web: Web, env: Env, s: State, step: Step)
    requires AnswersWithin(env, web) && SoundLinks(web, s) && Enabled(p, env, s, step)
    ensures SoundLinks(web, Apply(p, env, s, step))
  {
    if step.Worker? {
      MovedLinks(p, web, env, s, step.w, step.choice);
    }
  }

  // What a worker pushes lies one link beyond the page it comes from.
  lemma PushedSound(p: Params, web: Web, seen: set<string>, from: Entry, links: seq<string>, e: Entry)
    requires from.depth >= 0 && Reach(p, web, from.url, from.depth) && forall l <- links :: l in web(from.url)
    requires e in Accepted(p.cfg, seen, LinkEntries(links, from.depth + 1))
    ensures e.depth >= 0 && WithinDepth(p.cfg, e.depth) && Reach(p, web, e.url, e.depth)
  {
    AcceptedIsExact(p.cfg, seen, LinkEntries(links, from.depth + 1));
    assert e.url in links;
  }

  lemma PushSound(p: Params, web: Web, s: State, w: nat)
    requires Sound(p, web, s) && w < |s.pcs| && s.pcs[w].Pushing? && s.pcs[w].k < |s.popped|
    ensures SoundEntries(p, web, ApplyPush(p, s, w))
  {
    var from, links := s.popped[s.pcs[w].k], s.pcs[w].links;
    assert from in s.popped + s.front.queue;
    assert links == LinksOf(s.pcs[w]);
    forall e | e in Accepted(p.cfg, s.front.seen, LinkEntries(links, from.depth + 1))
      ensures e.depth >= 0 && WithinDepth(p.cfg, e.depth) && Reach(p, web, e.url, e.depth)
    {
      PushedSound(p, web, s.front.seen, from, links, e);
    }
  }

  lemma {:induction false} SoundRun(p: Params, web: Web, env: Env, s: State, steps: seq<Step>)
    requires AnswersWithin(env, web) && Sound(p, web, s) && Legal(p, env, s, steps)
    ensures Sound(p, web, After(p, env, s, steps))
    decreases |steps|
  {
    if steps != [] {
      SoundStep(p, web, env, s, steps[0]);
      SoundRun(p, web, env, Apply(p, env, s, steps[0]), steps[1..]);
    }
  }

  lemma InitSound(p: Params, web: Web, s: State)
    requires Init(p, s)
    ensures Sound(p, web, s) && s.popped == [] && s.front.queue == [Entry(p.seed, 0)]
    ensures forall pc <- s.pcs :: pc == Top
  {
    AcceptedIsExact(p.cfg, {}, [Entry(p.seed, 0)]);
    assert Accepted(p.cfg, {}, [Entry(p.seed, 0)]) == [Entry(p.seed, 0)];
  }

  // Whatever the order, the interleaving and the failures, every entry ever queued or visited is
  // a page as many link hops from the seed as its depth says, and no more than maxDepth.
  lemma EverythingIsReachable(p: Params, web: Web, env: Env, s0: State, steps: seq<Step>, e: Entry)
    requires Init(p, s0) && Legal(p, env, s0, steps) && AnswersWithin(env, web)
    requires var s := After(p, env, s0, steps); e in s.popped || e in s.front.queue
    ensures e.depth >= 0 && WithinDepth(p.cfg, e.depth) && Reach(p, web, e.url, e.depth)
  {
    InitSound(p, web, s0);
    SoundRun(p, web, env, s0, steps);
    var s := After(p, env, s0, steps);
    assert e in s.popped + s.front.queue;
  }

  // ---------------------------------------------------------------- completeness

  // Links and scope respect normalisation: pages with one normalised URL have the same links
  // in scope, up to normalisation.
  ghost predicate Respectful(p: Params, web: Web) {
    forall u: string, v: string :: SamePage(p, web, u, v)
  }

  ghost predicate SamePage(p: Params, web: Web, u: string, v: string) {
    p.cfg.normalize(u) == p.cfg.normalize(v) && p.cfg.normalize(u) != "" ==>
      forall l <- web(u) :: Admissible(p.cfg, l) ==> HasLinkTo(p, web, v, p.cfg.normalize(l))
  }

  ghost predicate HasLinkTo(p: Params, web: Web, url: string, n: string) {
    exists m: string :: m in web(url) && Admissible(p.cfg, m) && p.cfg.normalize(m) == n
  }

  // Nothing has been lost: links can still be queued, no entry was given up for want of budget and,
  // in the Rod engine, cancellation has stopped nobody halfway. The Http engine cancels itself when
  // its last result is stored, and loses nothing if the fetches under way still succeed.
  ghost predicate Undisturbed(p: Params, s: State) {
    !s.front.closed && (p.engine == Rod ==> !s.cancelled) && NoneGivenUp(s)
  }

  ghost predicate NoneGivenUp(s: State) {
    forall w: nat :: w < |s.pcs| ==> !s.pcs[w].GivenUp()
  }

  // Some worker still owes the links of the page popped as number k.
  ghost predicate Pending(s: State, k: nat) {
    exists w: nat :: w < |s.pcs| && s.pcs[w].Holding() && !s.pcs[w].Finishing? && s.pcs[w].k == k
  }

  // n has been queued; with shallow, at no more than the given depth.
  ghost predicate Found(p: Params, s: State, n: string, depth: int, shallow: bool) {
    && n in s.front.seen
    && (shallow ==> exists e :: e in s.popped + s.front.queue && p.cfg.normalize(e.url) == n && e.depth <= depth)
  }

  ghost predicate LinksFound(p: Params, web: Web, s: State, k: nat, shallow: bool)
    requires k < |s.popped|
  {
    var e := s.popped[k];
    forall l <- web(e.url) :: Admissible(p.cfg, l) && WithinDepth(p.cfg, e.depth + 1) ==>
      Found(p, s, p.cfg.normalize(l), e.depth + 1, shallow)
  }

  // Every popped page that no worker owes has had its links queued.
  ghost predicate Covered(p: Params, web: Web, s: State, shallow: bool) {
    && (forall k: nat :: k < |s.popped| && !Pending(s, k) ==> LinksFound(p, web, s, k, shallow))
    && LinksHeld(web, s)
  }

  ghost predicate LinksHeld(web: Web, s: State) {
    forall w: nat :: w < |s.pcs| && (s.pcs[w].Emitting? || s.pcs[w].Recording? || s.pcs[w].Pushing?) ==>
      s.pcs[w].k < |s.popped| && s.pcs[w].links == web(s.popped[s.pcs[w].k].url)
  }

  // One worker and FIFO order: depths never fall along popped and queue, the queue is at most
  // one level ahead, and the worker holds the entry popped last.
  ghost predicate BreadthFirst(p: Params, s: State) {
    && |s.pcs| == 1 && !s.front.dfs
    && Levelled(s.popped, s.front.queue)
    && (s.popped == [] ==> s.front.queue == [Entry(p.seed, 0)])
    && (s.pcs[0].Holding() ==> s.pcs[0].k == |s.popped| - 1)
  }

  ghost predicate Levelled(popped: seq<Entry>, queue: seq<Entry>) {
    && (forall i, j :: 0 <= i < j < |popped| ==> popped[i].depth <= popped[j].depth)
    && (forall i, j :: 0 <= i < j < |queue| ==> queue[i].depth <= queue[j].depth)
    && (popped != [] ==>
          forall e <- queue :: popped[|popped| - 1].depth <= e.depth <= popped[|popped| - 1].depth + 1)
  }

  ghost predicate Crawling(p: Params, web: Web, s: State, shallow: bool) {
    && Owned(s) && NoRepeats(p, s) && Sound(p, web, s)
    && Covered(p, web, s, shallow)
    && (shallow ==> BreadthFirst(p, s))
  }

  ghost predicate Faithful(env: Env, web: Web, shallow: bool) {
    AnswersExactly(env, web) && !env.failures && (shallow ==> !env.reorders)
  }

  lemma LinksFoundGrows(p: Params, web: Web, s: State, t: State, k: nat, shallow: bool)
    requires k < |s.popped| && s.popped <= t.popped && s.front.seen <= t.front.seen
    requires forall e <- s.popped + s.front.queue :: e in t.popped + t.front.queue
    requires LinksFound(p, web, s, k, shallow)
    ensures LinksFound(p, web, t, k, shallow)
  {
    var e := s.popped[k];
    forall l | l in web(e.url) && Admissible(p.cfg, l) && WithinDepth(p.cfg, e.depth + 1)
      ensures Found(p, t, p.cfg.normalize(l), e.depth + 1, shallow)
    {
      assert Found(p, s, p.cfg.normalize(l), e.depth + 1, shallow);
    }
  }

  lemma CoveredStep(p: Params, web: Web, env: Env, s: State, step: Step, shallow: bool)
    requires EngineFits(p, s) && Crawling(p, web, s, shallow) && Faithful(env, web, shallow)
    requires Enabled(p, env, s, step) && Undisturbed(p, s) && Undisturbed(p, Apply(p, env, s, step))
    ensures Covered(p, web, Apply(p, env, s, step), shallow)
  {
    var t := Apply(p, env, s, step);
    LinksHeldStep(p, web, env, s, step);
    if step.Worker? {
      var w := step.w;
      forall k: nat | k < |t.popped| && !Pending(t, k) ensures LinksFound(p, web, t, k, shallow) {
        if s.pcs[w].AtPop? {
          PopCovers(p, web, s, w, k, shallow);
        } else if s.pcs[w].Pushing? {
          PushCovers(p, web, s, w, k, shallow);
        } else {
          LocalCovers(p, web, env, s, w, step.choice, k, shallow);
        }
      }
    } else {
      forall k: nat | k < |t.popped| && !Pending(t, k) ensures LinksFound(p, web, t, k, shallow) {
        assert !Pending(s, k);
        LinksFoundGrows(p, web, s, t, k, shallow);
      }
    }
  }

  // The worker that moved holds all links of its page, if any.
  lemma MovedHolds(p: Params, web: Web, env: Env, s: State, w: nat, c: Choice)
    requires LinksHeld(web, s) && AnswersExactly(env, web) && !env.failures && Enabled(p, env, s, Worker(w, c))
    ensures var t := Apply(p, env, s, Worker(w, c));
      && s.popped <= t.popped && t.pcs == s.pcs[w := t.pcs[w]]
      && (t.pcs[w].Emitting? || t.pcs[w].Recording? || t.pcs[w].Pushing? ==>
            t.pcs[w].k < |t.popped| && t.pcs[w].links == web(t.popped[t.pcs[w].k].url))
  {
    if s.pcs[w] == AtPop {
      assert s.pcs[w := AtPop] == s.pcs;
    }
  }

  lemma LinksHeldStep(p: Params, web: Web, env: Env, s: State, step: Step)
    requires LinksHeld(web, s) && AnswersExactly(env, web) && !env.failures && Enabled(p, env, s, step)
    ensures LinksHeld(web, Apply(p, env, s, step))
  {
    if step.Worker? {
      MovedHolds(p, web, env, s, step.w, step.choice);
    }
  }

  lemma PopCovers(p: Params, web: Web, s: State, w: nat, k: nat, shallow: bool)
    requires Crawling(p, web, s, shallow) && w < |s.pcs| && s.pcs[w].AtPop?
    requires k < |ApplyPop(p, s, w).popped| && !Pending(ApplyPop(p, s, w), k)
    ensures LinksFound(p, web, ApplyPop(p, s, w), k, shallow)
  {
    var t := ApplyPop(p, s, w);
    PoppedIsPending(p, s, w);
    if k < |s.popped| {
      NotPendingBefore(s, t, w, k);
      LinksFoundGrows(p, web, s, t, k, shallow);
    }
  }

  lemma PoppedIsPending(p: Params, s: State, w: nat)
    requires w < |s.pcs|
    ensures s.front.queue != [] ==> Pending(ApplyPop(p, s, w), |s.popped|)
  {
    var pc := ApplyPop(p, s, w).pcs[w];
    assert s.front.queue != [] ==> pc.Holding() && pc.k == |s.popped|;
  }

  lemma NotPendingBefore(s: State, t: State, w: nat, k: nat)
    requires w < |s.pcs| && |t.pcs| == |s.pcs| && t.pcs == s.pcs[w := t.pcs[w]] && !Pending(t, k)
    requires !s.pcs[w].Holding() || s.pcs[w].Finishing? || s.pcs[w].k != k
    ensures !Pending(s, k)
  {
    assert forall v: nat :: v < |s.pcs| && v != w ==> t.pcs[v] == s.pcs[v];
  }

  lemma PushCovers(p: Params, web: Web, s: State, w: nat, k: nat, shallow: bool)
    requires Crawling(p, web, s, shallow) && w < |s.pcs| && s.pcs[w].Pushing? && !s.front.closed
    requires k < |s.popped| && !Pending(ApplyPush(p, s, w), k)
    ensures LinksFound(p, web, ApplyPush(p, s, w), k, shallow)
  {
    var t := ApplyPush(p, s, w);
    if k != s.pcs[w].k {
      NotPendingBefore(s, t, w, k);
      LinksFoundGrows(p, web, s, t, k, shallow);
    } else {
      OwnLinksFound(p, web, s, w, shallow);
    }
  }

  // The links just pushed.
  lemma OwnLinksFound(p: Params, web: Web, s: State, w: nat, shallow: bool)
    requires Crawling(p, web, s, shallow) && w < |s.pcs| && s.pcs[w].Pushing? && !s.front.closed
    requires s.pcs[w].k < |s.popped|
    ensures LinksFound(p, web, ApplyPush(p, s, w), s.pcs[w].k, shallow)
  {
    var from := s.popped[s.pcs[w].k];
    assert s.pcs[w].links == web(from.url);
    forall l | l in web(from.url) && Admissible(p.cfg, l) && WithinDepth(p.cfg, from.depth + 1)
      ensures Found(p, ApplyPush(p, s, w), p.cfg.normalize(l), from.depth + 1, shallow)
    {
      PushedIsFound(p, s, w, l, shallow);
    }
  }

  lemma PushedIsFound(p: Params, s: State, w: nat, l: string, shallow: bool)
    requires NoRepeats(p, s) && w < |s.pcs| && s.pcs[w].Pushing? && !s.front.closed
    requires s.pcs[w].k < |s.popped| && (shallow ==> BreadthFirst(p, s) && w == 0)
    requires l in s.pcs[w].links && Admissible(p.cfg, l) && WithinDepth(p.cfg, s.popped[s.pcs[w].k].depth + 1)
    ensures Found(p, ApplyPush(p, s, w), p.cfg.normalize(l), s.popped[s.pcs[w].k].depth + 1, shallow)
  {
    var from := s.popped[s.pcs[w].k];
    var es := LinkEntries(s.pcs[w].links, from.depth + 1);
    AdmittedIsSeen(p.cfg, s.front.seen, s.pcs[w].links, from.depth + 1, l);
    LinkFound(p, s, es, from, p.cfg.normalize(l), shallow);
  }

  lemma AdmittedIsSeen(cfg: Config, seen: set<string>, links: seq<string>, depth: int, l: string)
    requires l in links && Admissible(cfg, l) && WithinDepth(cfg, depth)
    ensures cfg.normalize(l) in seen + Norms(cfg, Accepted(cfg, seen, LinkEntries(links, depth)))
  {
    var es := LinkEntries(links, depth);
    AcceptedIsExact(cfg, seen, es);
    var i :| 0 <= i < |links| && links[i] == l;
    assert es[i] in es && es[i].url == l;
  }

  // Whatever has been popped or queued lies at most one level below the last page popped.
  lemma NoDeeper(p: Params, s: State, i: nat)
    requires BreadthFirst(p, s) && s.popped != [] && i < |s.popped + s.front.queue|
    ensures (s.popped + s.front.queue)[i].depth <= s.popped[|s.popped| - 1].depth + 1
  {
    if i < |s.popped| - 1 {
      assert s.popped[i].depth <= s.popped[|s.popped| - 1].depth;
    } else if i >= |s.popped| {
      assert s.front.queue[i - |s.popped|] in s.front.queue;
    }
  }

  lemma LinkFound(p: Params, s: State, es: seq<Entry>, from: Entry, n: string, shallow: bool)
    requires NoRepeats(p, s) && n in s.front.seen + Norms(p.cfg, Accepted(p.cfg, s.front.seen, es))
    requires forall e <- es :: e.depth == from.depth + 1
    requires shallow ==> BreadthFirst(p, s) && s.popped != [] && from == s.popped[|s.popped| - 1]
    ensures var a := Accepted(p.cfg, s.front.seen, es);
      shallow ==> exists e :: e in s.popped + (s.front.queue + a) && p.cfg.normalize(e.url) == n
                              && e.depth <= from.depth + 1
  {
    var a := Accepted(p.cfg, s.front.seen, es);
    AcceptedIsExact(p.cfg, s.front.seen, es);
    var all := s.popped + s.front.queue;
    if shallow {
      if n in s.front.seen {
        var i :| 0 <= i < |all| && p.cfg.normalize(all[i].url) == n;
        assert all[i] in s.popped + (s.front.queue + a);
        NoDeeper(p, s, i);
      } else {
        var i :| 0 <= i < |a| && p.cfg.normalize(a[i].url) == n;
        assert a[i] in s.popped + (s.front.queue + a);
      }
    }
  }

  lemma LocalCovers(p: Params, web: Web, env: Env, s: State, w: nat, c: Choice, k: nat, shallow: bool)
    requires Crawling(p, web, s, shallow) && Faithful(env, web, shallow)
    requires w < |s.pcs| && CanChoose(p, env, s, w, c) && !s.pcs[w].AtPop? && !s.pcs[w].Pushing?
    requires EngineFits(p, s) && Undisturbed(p, s) && Undisturbed(p, Apply(p, env, s, Worker(w, c)))
    requires k < |s.popped| && !Pending(Apply(p, env, s, Worker(w, c)), k)
    ensures LinksFound(p, web, Apply(p, env, s, Worker(w, c)), k, shallow)
  {
    var t := Apply(p, env, s, Worker(w, c));
    if s.pcs[w].Holding() && !s.pcs[w].Finishing? && s.pcs[w].k == k {
      assert t.pcs[w].Finishing?;
      assert web(s.popped[k].url) == [];
    } else {
      assert t.pcs == s.pcs[w := t.pcs[w]];
      NotPendingBefore(s, t, w, k);
      LinksFoundGrows(p, web, s, t, k, shallow);
    }
  }

  lemma BreadthFirstStep(p: Params, env: Env, s: State, step: Step)
    requires BreadthFirst(p, s) && !env.reorders && Enabled(p, env, s, step)
    ensures BreadthFirst(p, Apply(p, env, s, step))
  {
    if step.Worker? {
      if s.pcs[0].AtPop? {
        BreadthFirstPop(p, s);
      } else if s.pcs[0].Pushing? {
        BreadthFirstPush(p, s);
      } else {
        HoldsOn(p, env, s, step.choice);
      }
    }
  }

  lemma HoldsOn(p: Params, env: Env, s: State, c: Choice)
    requires |s.pcs| == 1 && CanChoose(p, env, s, 0, c) && !s.pcs[0].AtPop? && !s.pcs[0].Pushing?
    ensures var t := Apply(p, env, s, Worker(0, c));
      && |t.pcs| == 1 && t.popped == s.popped && t.front.queue == s.front.queue && t.front.dfs == s.front.dfs
      && (t.pcs[0].Holding() ==> s.pcs[0].Holding() && t.pcs[0].k == s.pcs[0].k)
  {
  }

  lemma BreadthFirstPop(p: Params, s: State)
    requires BreadthFirst(p, s) && s.pcs[0].AtPop?
    ensures BreadthFirst(p, ApplyPop(p, s, 0))
  {
    if s.front.queue != [] {
      LevelledPop(s.popped, s.front.queue);
    }
  }

  lemma BreadthFirstPush(p: Params, s: State)
    requires BreadthFirst(p, s) && s.pcs[0].Pushing? && s.pcs[0].k < |s.popped|
    ensures BreadthFirst(p, ApplyPush(p, s, 0))
  {
    var depth := s.popped[|s.popped| - 1].depth + 1;
    AcceptedDepth(p, s.front.seen, s.pcs[0].links, depth);
    LevelledPush(s.popped, s.front.queue, Accepted(p.cfg, s.front.seen, LinkEntries(s.pcs[0].links, depth)));
  }

  lemma AcceptedDepth(p: Params, seen: set<string>, links: seq<string>, depth: int)
    ensures forall e <- Accepted(p.cfg, seen, LinkEntries(links, depth)) :: e.depth == depth
  {
    AcceptedIsExact(p.cfg, seen, LinkEntries(links, depth));
  }

  lemma LevelledPop(popped: seq<Entry>, queue: seq<Entry>)
    requires Levelled(popped, queue) && queue != [] && (popped == [] ==> |queue| == 1)
    ensures Levelled(popped + [queue[0]], queue[1..])
  {
    forall e | e in queue[1..] ensures queue[0].depth <= e.depth <= queue[0].depth + 1 {
      assert queue[0] in queue && e in queue;
    }
    assert popped != [] ==> queue[0] in queue;
  }

  lemma LevelledPush(popped: seq<Entry>, queue: seq<Entry>, a: seq<Entry>)
    requires Levelled(popped, queue) && popped != []
    requires forall e <- a :: e.depth == popped[|popped| - 1].depth + 1
    ensures Levelled(popped, queue + a)
  {
    forall i, j | 0 <= i < j < |queue + a| ensures (queue + a)[i].depth <= (queue + a)[j].depth {
      if i < |queue| <= j {
        assert queue[i] in queue && a[j - |queue|] in a;
      } else if i >= |queue| {
        assert a[i - |queue|] in a && a[j - |queue|] in a;
      }
    }
  }

  lemma CrawlingStep(p: Params, web: Web, env: Env, s: State, step: Step, shallow: bool)
    requires Inv(p, s) && Crawling(p, web, s, shallow) && Faithful(env, web, shallow)
    requires Enabled(p, env, s, step) && Undisturbed(p, s) && Undisturbed(p, Apply(p, env, s, step))
    ensures Crawling(p, web, Apply(p, env, s, step), shallow)
  {
    StepInv(p, env, s, step);
    SoundStep(p, web, env, s, step);
    CoveredStep(p, web, env, s, step, shallow);
    if shallow {
      BreadthFirstStep(p, env, s, step);
    }
  }

  // Once disturbed, always disturbed.
  lemma DisturbedStep(p: Params, env: Env, s: State, step: Step)
    requires Enabled(p, env, s, step) && Undisturbed(p, Apply(p, env, s, step))
    ensures Undisturbed(p, s)
  {
    var t := Apply(p, env, s, step);
    forall w: nat | w < |s.pcs| ensures !s.pcs[w].GivenUp() {
      assert !t.pcs[w].GivenUp();
    }
  }

  lemma {:induction false} StaysDisturbed(p: Params, env: Env, s: State, steps: seq<Step>)
    requires Legal(p, env, s, steps) && Undisturbed(p, After(p, env, s, steps))
    ensures Undisturbed(p, s)
    decreases |steps|
  {
    if steps != [] {
      StaysDisturbed(p, env, Apply(p, env, s, steps[0]), steps[1..]);
      DisturbedStep(p, env, s, steps[0]);
    }
  }

  lemma {:induction false} CrawlingRun(p: Params, web: Web, env: Env, s: State, steps: seq<Step>, shallow: bool)
    requires Inv(p, s) && Crawling(p, web, s, shallow) && Faithful(env, web, shallow)
    requires Legal(p, env, s, steps) && Undisturbed(p, After(p, env, s, steps))
    ensures Crawling(p, web, After(p, env, s, steps), shallow)
    decreases |steps|
  {
    StaysDisturbed(p, env, s, steps);
    if steps != [] {
      var t := Apply(p, env, s, steps[0]);
      StaysDisturbed(p, env, t, steps[1..]);
      CrawlingStep(p, web, env, s, steps[0], shallow);
      StepInv(p, env, s, steps[0]);
      CrawlingRun(p, web, env, t, steps[1..], shallow);
    }
  }

  // ---------------------------------------------------------------- the end of a crawl

  // The crawl is over, nothing was lost and nothing is left.
  ghost predicate Finished(p: Params, s: State) {
    AllExited(s) && s.front.queue == [] && Undisturbed(p, s)
  }

  lemma NothingLeft(p: Params, s: State)
    requires Finished(p, s)
    ensures (forall k :: !Pending(s, k)) && Debtors(s.pcs) == {}
  {
    forall w: nat | w < |s.pcs| ensures !s.pcs[w].Debtor() {
    }
  }

  // In particular where every worker has exited, nothing was cancelled or closed, and the budget is
  // not used up.
  lemma QuietEnd(p: Params, s: State)
    requires Inv(p, s) && AllExited(s) && s.pcs != []
    requires !s.cancelled && !s.front.closed && !(p.maxPages > 0 && s.pages >= p.maxPages)
    ensures Finished(p, s)
  {
    assert Justified(p, s, s.pcs[0].why);
    forall w: nat | w < |s.pcs| ensures !s.pcs[w].GivenUp() {
      assert Justified(p, s, s.pcs[w].why);
    }
  }

  // No popped entry is left unvisited (Rod), and every one's result is stored up to the cap (Http).
  ghost predicate Handled(p: Params, s: State) {
    && (p.engine == Rod ==> NoDuplicates(s.visits) && |s.visits| == |s.popped|)
    && (p.engine == Http && p.maxPages > 0 ==>
          NoDuplicates(s.results) && |s.results| == if |s.popped| <= p.maxPages then |s.popped| else p.maxPages)
  }

  lemma EveryEntryHandled(p: Params, env: Env, s0: State, steps: seq<Step>)
    requires Init(p, s0) && Legal(p, env, s0, steps) && !env.failures && Finished(p, After(p, env, s0, steps))
    ensures Handled(p, After(p, env, s0, steps))
  {
    ReachableInv(p, env, s0, steps);
    NothingLeft(p, After(p, env, s0, steps));
    if p.engine == Http && p.maxPages > 0 {
      EveryPageStored(p, env, s0, steps);
    }
  }

  // Everything within maxDepth hops has been found, at no more than its distance.
  lemma {:induction false} ReachedIsFound(p: Params, web: Web, s: State, url: string, d: nat)
    requires NoRepeats(p, s) && Respectful(p, web) && s.front.queue == []
    requires forall k: nat :: k < |s.popped| ==> LinksFound(p, web, s, k, true)
    requires Reach(p, web, url, d) && WithinDepth(p.cfg, d)
    requires exists e <- s.popped :: e.url == p.seed && e.depth == 0
    ensures Found(p, s, p.cfg.normalize(url), d, true)
    decreases d
  {
    assert s.popped + s.front.queue == s.popped;
    if d == 0 {
      var i :| 0 <= i < |s.popped| && s.popped[i].url == p.seed && s.popped[i].depth == 0;
    } else {
      var from: string :| Reach(p, web, from, d - 1) && url in web(from);
      ReachedIsFound(p, web, s, from, d - 1);
      var e :| e in s.popped && p.cfg.normalize(e.url) == p.cfg.normalize(from) && e.depth <= d - 1;
      var k: nat :| k < |s.popped| && s.popped[k] == e;
      NextIsFound(p, web, s, from, url, k);
    }
  }

  lemma NextIsFound(p: Params, web: Web, s: State, from: string, url: string, k: nat)
    requires Respectful(p, web) && k < |s.popped| && LinksFound(p, web, s, k, true)
    requires Admissible(p.cfg, from) && url in web(from) && Admissible(p.cfg, url)
    requires p.cfg.normalize(s.popped[k].url) == p.cfg.normalize(from) && WithinDepth(p.cfg, s.popped[k].depth + 1)
    ensures Found(p, s, p.cfg.normalize(url), s.popped[k].depth + 1, true)
  {
    var e := s.popped[k];
    assert SamePage(p, web, from, e.url);
    var m: string :| m in web(e.url) && Admissible(p.cfg, m) && p.cfg.normalize(m) == p.cfg.normalize(url);
    assert Found(p, s, p.cfg.normalize(m), e.depth + 1, true);
  }

  lemma InitCrawling(p: Params, web: Web, s: State, shallow: bool)
    requires Init(p, s) && (shallow ==> |s.pcs| == 1 && !s.front.dfs)
    ensures Crawling(p, web, s, shallow)
  {
    InitInv(p, s);
    InitSound(p, web, s);
  }

  // The seed is queued first and never forgotten.
  lemma {:induction false} SeedKept(p: Params, env: Env, s: State, steps: seq<Step>)
    requires Legal(p, env, s, steps)
    ensures forall e <- s.popped + s.front.queue ::
      e in After(p, env, s, steps).popped + After(p, env, s, steps).front.queue
    decreases |steps|
  {
    if steps != [] {
      EntriesKept(p, env, s, steps[0]);
      SeedKept(p, env, Apply(p, env, s, steps[0]), steps[1..]);
    }
  }

  lemma EntriesKept(p: Params, env: Env, s: State, step: Step)
    requires Enabled(p, env, s, step)
    ensures forall e <- s.popped + s.front.queue ::
      e in Apply(p, env, s, step).popped + Apply(p, env, s, step).front.queue
  {
    if step.Worker? && s.pcs[step.w].AtPop? && s.front.queue != [] {
      var q, n := s.front.queue, |s.front.queue| - 1;
      assert q == q[..n] + [q[n]] && q == [q[0]] + q[1..];
    }
  }

  // The seed is among what was popped when nothing is queued any more.
  lemma SeedPopped(p: Params, env: Env, s0: State, steps: seq<Step>)
    requires Init(p, s0) && Legal(p, env, s0, steps) && After(p, env, s0, steps).front.queue == []
    ensures exists e <- After(p, env, s0, steps).popped :: e.url == p.seed && e.depth == 0
  {
    var s := After(p, env, s0, steps);
    InitSound(p, _ => [], s0);
    SeedKept(p, env, s0, steps);
    assert Entry(p.seed, 0) in s0.popped + s0.front.queue;
    assert s.popped + s.front.queue == s.popped;
  }

  lemma EndOfCrawl(p: Params, web: Web, env: Env, s0: State, steps: seq<Step>, shallow: bool)
    requires Init(p, s0) && Legal(p, env, s0, steps) && Faithful(env, web, shallow)
    requires shallow ==> |s0.pcs| == 1 && !s0.front.dfs
    requires Finished(p, After(p, env, s0, steps))
    ensures var s := After(p, env, s0, steps);
      && Inv(p, s) && Crawling(p, web, s, shallow) && s.front.queue == []
      && (forall k: nat :: k < |s.popped| ==> LinksFound(p, web, s, k, shallow))
      && s.front.seen == Norms(p.cfg, s.popped)
      && (exists e <- s.popped :: e.url == p.seed && e.depth == 0)
      && Debtors(s.pcs) == {} && Handled(p, s)
  {
    var s := After(p, env, s0, steps);
    InitInv(p, s0);
    RunInv(p, env, s0, steps);
    InitCrawling(p, web, s0, shallow);
    CrawlingRun(p, web, env, s0, steps, shallow);
    NothingLeft(p, s);
    assert s.popped + s.front.queue == s.popped;
    SeedPopped(p, env, s0, steps);
    EveryEntryHandled(p, env, s0, steps);
  }

  // One worker in FIFO order visits exactly the pages within maxDepth hops of the seed, in
  // order of distance, each popped at its shortest distance.
  lemma BreadthFirstIsExact(p: Params, web: Web, env: Env, s0: State, steps: seq<Step>)
    requires Init(p, s0) && Legal(p, env, s0, steps) && Faithful(env, web, true) && Respectful(p, web)
    requires p.workers == 1 && !s0.front.dfs && Finished(p, After(p, env, s0, steps))
    ensures var s := After(p, env, s0, steps);
      && (forall i, j :: 0 <= i < j < |s.popped| ==> s.popped[i].depth <= s.popped[j].depth)
      && (forall e <- s.popped :: e.depth >= 0 && WithinDepth(p.cfg, e.depth)
            && ReachNorm(p, web, p.cfg.normalize(e.url), e.depth))
      && (forall n: string, d: nat :: ReachNorm(p, web, n, d) && WithinDepth(p.cfg, d) ==>
            exists e :: e in s.popped && p.cfg.normalize(e.url) == n && e.depth <= d)
      && DistinctNorms(p.cfg, s.popped) && Handled(p, s)
  {
    var s := After(p, env, s0, steps);
    EndOfCrawl(p, web, env, s0, steps, true);
    assert s.popped + s.front.queue == s.popped;
    forall n: string, d: nat | ReachNorm(p, web, n, d) && WithinDepth(p.cfg, d)
      ensures exists e :: e in s.popped && p.cfg.normalize(e.url) == n && e.depth <= d
    {
      var url: string :| Reach(p, web, url, d) && p.cfg.normalize(url) == n;
      ReachedIsFound(p, web, s, url, d);
    }
  }
}
