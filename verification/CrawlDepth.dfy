/**
 What a crawl in any order and with any number of workers visits, when nothing cuts it short but
 the depth limit: all that is reachable if no chain of links is longer than the limit; and all
 that is within the limit if and only if no page met at the limit on a detour has a link that was
 never met at all.
 */
module CrawlDepth {
  import opened Basics
  import opened Frontiers
  import opened CrawlProtocol
  import opened CrawlSafety
  import opened CrawlReach

  // ---------------------------------------------------------------- chains of links

  // Links from the seed through admissible pages, no page twice.
  ghost predicate Chain(p: Params, web: Web, path: seq<string>) {
    && path != [] && path[0] == p.seed
    && (forall u <- path :: Admissible(p.cfg, u))
    && (forall i: nat :: i + 1 < |path| ==> path[i + 1] in web(path[i]))
    && (forall i: nat, j: nat :: i < j < |path| ==> p.cfg.normalize(path[i]) != p.cfg.normalize(path[j]))
  }

  // A chain to url, of as many links as depth says, through pages already seen.
  ghost predicate ChainTo(p: Params, web: Web, seen: set<string>, e: Entry, path: seq<string>) {
    && Chain(p, web, path) && |path| == e.depth + 1 && path[|path| - 1] == e.url
    && forall u <- path :: p.cfg.normalize(u) in seen
  }

  ghost predicate Chained(p: Params, web: Web, seen: set<string>, e: Entry) {
    exists path :: ChainTo(p, web, seen, e, path)
  }

  ghost predicate AllChained(p: Params, web: Web, s: State) {
    forall e <- s.popped + s.front.queue :: Chained(p, web, s.front.seen, e)
  }

  lemma ChainGrows(p: Params, web: Web, seen: set<string>, more: set<string>, e: Entry)
    requires Chained(p, web, seen, e) && seen <= more
    ensures Chained(p, web, more, e)
  {
    var path :| ChainTo(p, web, seen, e, path);
    assert ChainTo(p, web, more, e, path);
  }

  // A link to a page not seen yet makes the chain longer.
  lemma ChainExtends(p: Params, web: Web, seen: set<string>, from: Entry, path: seq<string>, l: string)
    requires ChainTo(p, web, seen, from, path) && l in web(from.url)
    requires Admissible(p.cfg, l) && p.cfg.normalize(l) !in seen
    ensures ChainTo(p, web, seen + {p.cfg.normalize(l)}, Entry(l, from.depth + 1), path + [l])
  {
    var longer := path + [l];
    forall i: nat, j: nat | i < j < |longer| ensures p.cfg.normalize(longer[i]) != p.cfg.normalize(longer[j]) {
      assert longer[i] in path;
      assert j < |path| ==> longer[j] == path[j];
    }
    forall i: nat | i + 1 < |longer| ensures longer[i + 1] in web(longer[i]) {
      assert i + 1 < |path| ==> longer[i + 1] == path[i + 1];
    }
  }

  lemma PushedIsChained(p: Params, web: Web, s: State, w: nat, e: Entry)
    requires AllChained(p, web, s) && SoundLinks(web, s)
    requires w < |s.pcs| && s.pcs[w].Pushing? && s.pcs[w].k < |s.popped|
    requires e in Accepted(p.cfg, s.front.seen, LinkEntries(s.pcs[w].links, s.popped[s.pcs[w].k].depth + 1))
    ensures Chained(p, web, s.front.seen + {p.cfg.normalize(e.url)}, e)
  {
    var from := s.popped[s.pcs[w].k];
    var es := LinkEntries(s.pcs[w].links, from.depth + 1);
    var a := Accepted(p.cfg, s.front.seen, es);
    AcceptedIsExact(p.cfg, s.front.seen, es);
    assert from in s.popped + s.front.queue;
    var i :| 0 <= i < |a| && a[i] == e;
    assert p.cfg.normalize(e.url) in Norms(p.cfg, a);
    assert e.url in LinksOf(s.pcs[w]);
    var path :| ChainTo(p, web, s.front.seen, from, path);
    ChainExtends(p, web, s.front.seen, from, path, e.url);
    assert ChainTo(p, web, s.front.seen + {p.cfg.normalize(e.url)}, e, path + [e.url]);
  }

  lemma PushChained(p: Params, web: Web, s: State, w: nat)
    requires AllChained(p, web, s) && SoundLinks(web, s)
    requires w < |s.pcs| && s.pcs[w].Pushing? && s.pcs[w].k < |s.popped|
    ensures AllChained(p, web, ApplyPush(p, s, w))
  {
    var t := ApplyPush(p, s, w);
    var es := LinkEntries(s.pcs[w].links, s.popped[s.pcs[w].k].depth + 1);
    var a := if s.front.closed then [] else Accepted(p.cfg, s.front.seen, es);
    assert t.front.queue == s.front.queue + a && t.front.seen == s.front.seen + Norms(p.cfg, a);
    forall e | e in t.popped + t.front.queue ensures Chained(p, web, t.front.seen, e) {
      if e in s.popped + s.front.queue {
        ChainGrows(p, web, s.front.seen, t.front.seen, e);
      } else {
        var i :| 0 <= i < |a| && a[i] == e;
        PushedIsChained(p, web, s, w, e);
        ChainGrows(p, web, s.front.seen + {p.cfg.normalize(e.url)}, t.front.seen, e);
      }
    }
  }

  lemma ChainedStep(p: Params, web: Web, env: Env, s: State, step: Step)
    requires AllChained(p, web, s) && SoundLinks(web, s) && Enabled(p, env, s, step)
    ensures AllChained(p, web, Apply(p, env, s, step))
  {
    if step.Worker? && s.pcs[step.w].Pushing? {
      PushChained(p, web, s, step.w);
    } else {
      var t := Apply(p, env, s, step);
      assert t.front.seen == s.front.seen;
      forall e | e in t.popped + t.front.queue ensures Chained(p, web, t.front.seen, e) {
        QueueOnlyMoves(p, env, s, step, e);
      }
    }
  }

  lemma {:induction false} ChainedRun(p: Params, web: Web, env: Env, s: State, steps: seq<Step>)
    requires AllChained(p, web, s) && Sound(p, web, s) && AnswersWithin(env, web) && Legal(p, env, s, steps)
    ensures AllChained(p, web, After(p, env, s, steps))
    decreases |steps|
  {
    if steps != [] {
      ChainedStep(p, web, env, s, steps[0]);
      SoundStep(p, web, env, s, steps[0]);
      ChainedRun(p, web, env, Apply(p, env, s, steps[0]), steps[1..]);
    }
  }

  lemma InitChained(p: Params, web: Web, s: State)
    requires Init(p, s)
    ensures AllChained(p, web, s)
  {
    InitSound(p, web, s);
    AcceptedIsExact(p.cfg, {}, [Entry(p.seed, 0)]);
    NormsOfOne(p.cfg, Entry(p.seed, 0));
    assert ChainTo(p, web, s.front.seen, Entry(p.seed, 0), [p.seed]);
  }

  // Every entry ever queued was met on a chain of as many links as its depth says.
  lemma EntriesAreChained(p: Params, web: Web, env: Env, s0: State, steps: seq<Step>)
    requires Init(p, s0) && Legal(p, env, s0, steps) && AnswersWithin(env, web)
    ensures AllChained(p, web, After(p, env, s0, steps))
  {
    InitChained(p, web, s0);
    InitSound(p, web, s0);
    ChainedRun(p, web, env, s0, steps);
  }

  // ---------------------------------------------------------------- when depth does not bind

  // There is no limit, or no chain of links is longer than the limit.
  ghost predicate DepthSuffices(p: Params, web: Web) {
    p.cfg.maxDepth < 0 || forall path :: Chain(p, web, path) ==> |path| <= p.cfg.maxDepth + 1
  }

  // In particular if at most maxDepth + 1 pages are reachable.
  lemma FewPagesSuffice(p: Params, web: Web, pages: set<string>)
    requires |pages| <= p.cfg.maxDepth + 1
    requires forall n: string, d: nat :: ReachNorm(p, web, n, d) ==> n in pages
    ensures DepthSuffices(p, web)
  {
    forall path | Chain(p, web, path) ensures |path| <= p.cfg.maxDepth + 1 {
      forall i: nat | i < |path| ensures p.cfg.normalize(path[i]) in pages {
        ChainReaches(p, web, path, i);
        assert ReachNorm(p, web, p.cfg.normalize(path[i]), i);
      }
      CountDistinct(p, path, pages);
    }
  }

  lemma {:induction false} ChainReaches(p: Params, web: Web, path: seq<string>, i: nat)
    requires Chain(p, web, path) && i < |path|
    ensures Reach(p, web, path[i], i)
    decreases i
  {
    assert path[i] in path;
    if i > 0 {
      ChainReaches(p, web, path, i - 1);
      assert path[(i - 1) + 1] in web(path[i - 1]);
    }
  }

  lemma CountDistinct(p: Params, path: seq<string>, pages: set<string>)
    requires forall i: nat, j: nat :: i < j < |path| ==> p.cfg.normalize(path[i]) != p.cfg.normalize(path[j])
    requires forall i: nat :: i < |path| ==> p.cfg.normalize(path[i]) in pages
    ensures |path| <= |pages|
  {
    var es := seq(|path|, i requires 0 <= i < |path| => Entry(path[i], 0));
    CountNorms(p.cfg, es);
    SubsetCount(Norms(p.cfg, es), pages);
  }

  // ---------------------------------------------------------------- the end of a crawl

  // Every admissible link of the page popped as number k has been met.
  ghost predicate LinksMet(p: Params, web: Web, s: State, k: nat)
    requires k < |s.popped|
  {
    forall l <- web(s.popped[k].url) :: Admissible(p.cfg, l) ==> p.cfg.normalize(l) in s.front.seen
  }

  // Page n is at some distance below the limit; any distance will do if there is none.
  ghost predicate Nearer(p: Params, web: Web, n: string, limit: int) {
    exists d: nat :: (limit < 0 || d < limit) && ReachNorm(p, web, n, d)
  }

  // If the links of all pages nearer than a limit have been met, all pages up to it have been.
  lemma {:induction false} ReachedIsMet(p: Params, web: Web, s: State, url: string, d: nat, limit: int)
    requires Respectful(p, web) && s.front.seen == Norms(p.cfg, s.popped)
    requires exists e <- s.popped :: e.url == p.seed
    requires forall k: nat :: k < |s.popped| && Nearer(p, web, p.cfg.normalize(s.popped[k].url), limit) ==>
               LinksMet(p, web, s, k)
    requires Reach(p, web, url, d) && (limit < 0 || d <= limit)
    ensures p.cfg.normalize(url) in s.front.seen
    decreases d
  {
    if d == 0 {
      var i :| 0 <= i < |s.popped| && s.popped[i].url == p.seed;
    } else {
      var from: string :| Reach(p, web, from, d - 1) && url in web(from);
      ReachedIsMet(p, web, s, from, d - 1, limit);
      var k: nat :| k < |s.popped| && p.cfg.normalize(s.popped[k].url) == p.cfg.normalize(from);
      assert ReachNorm(p, web, p.cfg.normalize(from), d - 1);
      assert Nearer(p, web, p.cfg.normalize(from), limit);
      assert SamePage(p, web, from, s.popped[k].url);
      var m: string :| m in web(s.popped[k].url) && Admissible(p.cfg, m)
                       && p.cfg.normalize(m) == p.cfg.normalize(url);
    }
  }

  // A page popped above the limit has had its links met, and so has any page if no chain of links
  // is longer than the limit.
  lemma PoppedLinksMet(p: Params, web: Web, s: State, k: nat)
    requires k < |s.popped| && LinksFound(p, web, s, k, false) && AllChained(p, web, s)
    requires WithinDepth(p.cfg, s.popped[k].depth + 1)
             || (WithinDepth(p.cfg, s.popped[k].depth) && DepthSuffices(p, web))
    ensures LinksMet(p, web, s, k)
  {
    var e := s.popped[k];
    if !WithinDepth(p.cfg, e.depth + 1) {
      assert e in s.popped + s.front.queue;
      var path :| ChainTo(p, web, s.front.seen, e, path);
      forall l | l in web(e.url) && Admissible(p.cfg, l) ensures p.cfg.normalize(l) in s.front.seen {
        if p.cfg.normalize(l) !in s.front.seen {
          ChainExtends(p, web, s.front.seen, e, path, l);
          assert false;
        }
      }
    } else {
      forall l | l in web(e.url) && Admissible(p.cfg, l) ensures p.cfg.normalize(l) in s.front.seen {
        assert Found(p, s, p.cfg.normalize(l), e.depth + 1, false);
      }
    }
  }

  // Any order, any number of workers: when depth does not bind and nothing goes wrong, the crawl
  // ends having popped the whole reachable set, one URL for each normalised form, and has visited
  // or stored each.
  lemma WholeReachableSet(p: Params, web: Web, env: Env, s0: State, steps: seq<Step>, n: string)
    requires Init(p, s0) && Legal(p, env, s0, steps) && Faithful(env, web, false) && Respectful(p, web)
    requires DepthSuffices(p, web) && CrawlReach.Finished(p, After(p, env, s0, steps))
    ensures var s := After(p, env, s0, steps);
      && (n in Norms(p.cfg, s.popped) <==> exists d: nat :: ReachNorm(p, web, n, d))
      && Handled(p, s)
  {
    var s := After(p, env, s0, steps);
    EndOfCrawl(p, web, env, s0, steps, false);
    EntriesAreChained(p, web, env, s0, steps);
    if n in Norms(p.cfg, s.popped) {
      var k: nat :| k < |s.popped| && p.cfg.normalize(s.popped[k].url) == n;
      assert s.popped[k] in s.popped + s.front.queue;
      assert ReachNorm(p, web, n, s.popped[k].depth);
    }
    forall k: nat | k < |s.popped| ensures LinksMet(p, web, s, k) {
      assert s.popped[k] in s.popped + s.front.queue;
      PoppedLinksMet(p, web, s, k);
    }
    forall d: nat | ReachNorm(p, web, n, d) ensures n in Norms(p.cfg, s.popped) {
      var url: string :| Reach(p, web, url, d) && p.cfg.normalize(url) == n;
      ReachedIsMet(p, web, s, url, d, -1);
    }
  }

  // ---------------------------------------------------------------- when it does

  // Every page within the limit has been popped.
  ghost predicate CoversDepth(p: Params, web: Web, s: State) {
    forall n: string, d: nat :: ReachNorm(p, web, n, d) && WithinDepth(p.cfg, d) ==> n in Norms(p.cfg, s.popped)
  }

  // No page popped at the limit, although it is nearer than that, has a link never met.
  ghost predicate NothingCut(p: Params, web: Web, s: State) {
    forall k: nat :: k < |s.popped| && s.popped[k].depth == p.cfg.maxDepth ==>
      Nearer(p, web, p.cfg.normalize(s.popped[k].url), p.cfg.maxDepth) ==> LinksMet(p, web, s, k)
  }

  // Any order, any number of workers: an undisturbed crawl has popped all pages within maxDepth
  // hops if and only if none of them was first met at the limit on a detour and had a link that
  // only it led to.
  lemma DepthCoverage(p: Params, web: Web, env: Env, s0: State, steps: seq<Step>)
    requires Init(p, s0) && Legal(p, env, s0, steps) && Faithful(env, web, false) && Respectful(p, web)
    requires p.cfg.maxDepth >= 0 && CrawlReach.Finished(p, After(p, env, s0, steps))
    ensures var s := After(p, env, s0, steps); (CoversDepth(p, web, s) <==> NothingCut(p, web, s)) && Handled(p, s)
  {
    var s := After(p, env, s0, steps);
    EndOfCrawl(p, web, env, s0, steps, false);
    EntriesAreChained(p, web, env, s0, steps);
    if NothingCut(p, web, s) {
      UncutCovers(p, web, s);
    }
    if CoversDepth(p, web, s) {
      CoverUncut(p, web, s);
    }
  }

  // Every page at the end of a chain as long as the limit, although it is nearer, has links only
  // to pages on that chain.
  ghost predicate NoDetours(p: Params, web: Web) {
    forall path :: Chain(p, web, path) && |path| == p.cfg.maxDepth + 1
                   && Nearer(p, web, p.cfg.normalize(path[|path| - 1]), p.cfg.maxDepth) ==>
      LinksBack(p, web, path)
  }

  ghost predicate LinksBack(p: Params, web: Web, path: seq<string>)
    requires path != []
  {
    forall l <- web(path[|path| - 1]) :: Admissible(p.cfg, l) ==>
      exists u :: u in path && p.cfg.normalize(u) == p.cfg.normalize(l)
  }

  // On such a site, which can be told before the crawl, every undisturbed crawl visits all pages
  // within maxDepth hops, in any order and with any number of workers.
  lemma NoDetoursCover(p: Params, web: Web, env: Env, s0: State, steps: seq<Step>)
    requires Init(p, s0) && Legal(p, env, s0, steps) && Faithful(env, web, false) && Respectful(p, web)
    requires p.cfg.maxDepth >= 0 && NoDetours(p, web) && CrawlReach.Finished(p, After(p, env, s0, steps))
    ensures var s := After(p, env, s0, steps); CoversDepth(p, web, s) && Handled(p, s)
  {
    var s := After(p, env, s0, steps);
    EntriesAreChained(p, web, env, s0, steps);
    forall k: nat | k < |s.popped| && s.popped[k].depth == p.cfg.maxDepth
                    && Nearer(p, web, p.cfg.normalize(s.popped[k].url), p.cfg.maxDepth)
      ensures LinksMet(p, web, s, k)
    {
      ChainEndMet(p, web, s, k);
    }
    DepthCoverage(p, web, env, s0, steps);
  }

  lemma ChainEndMet(p: Params, web: Web, s: State, k: nat)
    requires AllChained(p, web, s) && NoDetours(p, web) && k < |s.popped|
    requires s.popped[k].depth == p.cfg.maxDepth && Nearer(p, web, p.cfg.normalize(s.popped[k].url), p.cfg.maxDepth)
    ensures LinksMet(p, web, s, k)
  {
    var e := s.popped[k];
    assert e in s.popped + s.front.queue;
    var path :| ChainTo(p, web, s.front.seen, e, path);
    assert LinksBack(p, web, path);
  }

  // Where no chain is longer than the limit there are no detours.
  lemma SufficesIsNoDetours(p: Params, web: Web)
    requires p.cfg.maxDepth >= 0 && DepthSuffices(p, web)
    ensures NoDetours(p, web)
  {
    forall path | Chain(p, web, path) && |path| == p.cfg.maxDepth + 1 ensures LinksBack(p, web, path) {
      forall l | l in web(path[|path| - 1]) && Admissible(p.cfg, l)
        ensures exists u :: u in path && p.cfg.normalize(u) == p.cfg.normalize(l)
      {
        if forall u :: u in path ==> p.cfg.normalize(u) != p.cfg.normalize(l) {
          assert Chain(p, web, path + [l]);
        }
      }
    }
  }

  lemma UncutCovers(p: Params, web: Web, s: State)
    requires Respectful(p, web) && p.cfg.maxDepth >= 0 && NothingCut(p, web, s)
    requires Sound(p, web, s) && AllChained(p, web, s) && s.front.seen == Norms(p.cfg, s.popped)
    requires forall k: nat :: k < |s.popped| ==> LinksFound(p, web, s, k, false)
    requires exists e <- s.popped :: e.url == p.seed
    ensures CoversDepth(p, web, s)
  {
    forall k: nat | k < |s.popped| && Nearer(p, web, p.cfg.normalize(s.popped[k].url), p.cfg.maxDepth)
      ensures LinksMet(p, web, s, k)
    {
      assert s.popped[k] in s.popped + s.front.queue;
      if s.popped[k].depth < p.cfg.maxDepth {
        PoppedLinksMet(p, web, s, k);
      }
    }
    forall n: string, d: nat | ReachNorm(p, web, n, d) && WithinDepth(p.cfg, d) ensures n in Norms(p.cfg, s.popped) {
      var url: string :| Reach(p, web, url, d) && p.cfg.normalize(url) == n;
      ReachedIsMet(p, web, s, url, d, p.cfg.maxDepth);
    }
  }

  lemma CoverUncut(p: Params, web: Web, s: State)
    requires Respectful(p, web) && p.cfg.maxDepth >= 0 && CoversDepth(p, web, s)
    requires s.front.seen == Norms(p.cfg, s.popped)
    ensures NothingCut(p, web, s)
  {
    forall k: nat | k < |s.popped| && Nearer(p, web, p.cfg.normalize(s.popped[k].url), p.cfg.maxDepth)
      ensures LinksMet(p, web, s, k)
    {
      var n := p.cfg.normalize(s.popped[k].url);
      var d: nat :| d < p.cfg.maxDepth && ReachNorm(p, web, n, d);
      var url: string :| Reach(p, web, url, d) && p.cfg.normalize(url) == n;
      assert SamePage(p, web, s.popped[k].url, url);
      forall l | l in web(s.popped[k].url) && Admissible(p.cfg, l) ensures p.cfg.normalize(l) in s.front.seen {
        var m: string :| m in web(url) && Admissible(p.cfg, m) && p.cfg.normalize(m) == p.cfg.normalize(l);
        assert Reach(p, web, m, d + 1);
        assert ReachNorm(p, web, p.cfg.normalize(m), d + 1);
      }
    }
  }
}
