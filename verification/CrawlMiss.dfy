/**
 A depth-first crawl that misses a page within its depth limit. Page t is two links away through
 b, but is first met through a and c, at the limit of three; so its link to u is cut, and u, three
 links away through b, is never visited.
 */
module CrawlMiss {
  import opened Frontiers
  import opened CrawlProtocol
  import opened CrawlReach
  import CrawlDepth

  function Site(url: string): seq<string> {
    if url == "s" then ["b", "a"]
    else if url == "a" then ["c"]
    else if url == "b" || url == "c" then ["t"]
    else if url == "t" then ["u"]
    else []
  }

  // The HTTP engine, whose frontier is in LIFO order, with one worker.
  function Crawler(): Params {
    Params(Config(3, AnyUrl, (url: string) => url), Http, 10, 1, "s")
  }

  function World(): Env {
    Env((url: string, links: seq<string>) => links == Site(url), false, false, false, false)
  }

  // The worker at the top of its loop, nothing in flight.
  function Resting(queue: seq<Entry>, seen: set<string>, popped: seq<Entry>, results: seq<nat>): State {
    State(Frontier(queue, seen, 0, false, true, {}), [Top], false, |results|, popped, [], results)
  }

  function Go1(): Step {
    Worker(0, Go)
  }

  // One page: look, pop, fetch, record, push if there are links, go idle.
  function Turn(links: seq<string>): seq<Step> {
    [Go1(), Go1(), Worker(0, Fetched(links)), Go1()] + (if links == [] then [Go1()] else [Go1(), Go1()])
  }

  lemma {:induction false} RunsJoin(p: Params, env: Env, s: State, a: seq<Step>, b: seq<Step>)
    requires Legal(p, env, s, a) && Legal(p, env, After(p, env, s, a), b)
    ensures Legal(p, env, s, a + b) && After(p, env, s, a + b) == After(p, env, After(p, env, s, a), b)
    decreases |a|
  {
    if a == [] {
      assert a + b == b;
    } else {
      assert (a + b)[1..] == a[1..] + b;
      RunsJoin(p, env, Apply(p, env, s, a[0]), a[1..], b);
    }
  }

  // s leads to t by these steps.
  ghost predicate Leads(s: State, steps: seq<Step>, t: State) {
    Legal(Crawler(), World(), s, steps) && After(Crawler(), World(), s, steps) == t
  }

  lemma LeadsOn(s: State, a: seq<Step>, t: State, b: seq<Step>, u: State)
    requires Leads(s, a, t) && Leads(t, b, u)
    ensures Leads(s, a + b, u)
  {
    RunsJoin(Crawler(), World(), s, a, b);
  }

  lemma OneStep(s: State, step: Step)
    requires Enabled(Crawler(), World(), s, step)
    ensures Leads(s, [step], Apply(Crawler(), World(), s, step))
  {
    assert [step][1..] == [];
  }

  // The state after the pop and the fetch.
  lemma Fetches(queue: seq<Entry>, seen: set<string>, popped: seq<Entry>, results: seq<nat>, e: Entry)
    requires |results| == |popped| < 9
    ensures var s, links := Resting(queue + [e], seen, popped, results), Site(e.url);
      Leads(s, [Go1(), Go1(), Worker(0, Fetched(links)), Go1()],
        State(Frontier(queue, seen, 1, false, true, {}), [AfterPage(|popped|, links)], false, |results| + 1,
              popped + [e], [], results + [|popped|]))
  {
    var s, links, p, env := Resting(queue + [e], seen, popped, results), Site(e.url), Crawler(), World();
    var s1 := Apply(p, env, s, Go1());
    var s2 := Apply(p, env, s1, Go1());
    assert (queue + [e])[..|queue|] == queue;
    var s3 := Apply(p, env, s2, Worker(0, Fetched(links)));
    OneStep(s, Go1());
    OneStep(s1, Go1());
    OneStep(s2, Worker(0, Fetched(links)));
    OneStep(s3, Go1());
    LeadsOn(s, [Go1()], s1, [Go1()], s2);
    LeadsOn(s, [Go1()] + [Go1()], s2, [Worker(0, Fetched(links))], s3);
    LeadsOn(s, [Go1()] + [Go1()] + [Worker(0, Fetched(links))], s3, [Go1()], Apply(p, env, s3, Go1()));
    assert [Go1()] + [Go1()] + [Worker(0, Fetched(links))] + [Go1()]
      == [Go1(), Go1(), Worker(0, Fetched(links)), Go1()];
  }

  // The rest of a turn: pushing the links a, if any, and going idle.
  lemma GoesIdle(queue: seq<Entry>, seen: set<string>, popped: seq<Entry>, results: seq<nat>, e: Entry, a: seq<Entry>)
    requires |results| == |popped| + 1 && Site(e.url) != []
    requires a == Accepted(Crawler().cfg, seen, LinkEntries(Site(e.url), e.depth + 1))
    ensures Leads(State(Frontier(queue, seen, 1, false, true, {}), [Pushing(|popped|, Site(e.url))], false, |results|,
                        popped + [e], [], results), [Go1(), Go1()],
      Resting(queue + a, seen + Norms(Crawler().cfg, a), popped + [e], results))
  {
    var t := State(Frontier(queue, seen, 1, false, true, {}), [Pushing(|popped|, Site(e.url))], false, |results|,
                   popped + [e], [], results);
    var u := Apply(Crawler(), World(), t, Go1());
    OneStep(t, Go1());
    OneStep(u, Go1());
    LeadsOn(t, [Go1()], u, [Go1()], Apply(Crawler(), World(), u, Go1()));
    assert [Go1()] + [Go1()] == [Go1(), Go1()];
  }

  // A whole turn, in which the links a are new.
  lemma Turns(queue: seq<Entry>, seen: set<string>, popped: seq<Entry>, results: seq<nat>, e: Entry, a: seq<Entry>)
    requires |results| == |popped| < 9
    requires a == Accepted(Crawler().cfg, seen, LinkEntries(Site(e.url), e.depth + 1))
    ensures Leads(Resting(queue + [e], seen, popped, results), Turn(Site(e.url)),
      Resting(queue + a, seen + Norms(Crawler().cfg, a), popped + [e], results + [|popped|]))
  {
    var links := Site(e.url);
    var s := Resting(queue + [e], seen, popped, results);
    var fetch := [Go1(), Go1(), Worker(0, Fetched(links)), Go1()];
    var t := State(Frontier(queue, seen, 1, false, true, {}), [AfterPage(|popped|, links)], false, |results| + 1,
                   popped + [e], [], results + [|popped|]);
    Fetches(queue, seen, popped, results, e);
    if links == [] {
      OneStep(t, Go1());
      assert queue + a == queue && seen + Norms(Crawler().cfg, a) == seen;
      LeadsOn(s, fetch, t, [Go1()], Apply(Crawler(), World(), t, Go1()));
    } else {
      GoesIdle(queue, seen, popped, results + [|popped|], e, a);
      LeadsOn(s, fetch, t, [Go1(), Go1()],
        Resting(queue + a, seen + Norms(Crawler().cfg, a), popped + [e], results + [|popped|]));
    }
  }

  lemma AcceptsOne(seen: set<string>, url: string, depth: int)
    ensures Accepted(Crawler().cfg, seen, LinkEntries([url], depth))
         == if depth <= 3 && url != "" && url !in seen then [Entry(url, depth)] else []
  {
    var e := Entry(url, depth);
    assert LinkEntries([url], depth) == [e] && [e][1..] == [];
  }

  // A turn on a page with one link, to a new page ...
  lemma NewTurn(queue: seq<Entry>, seen: set<string>, popped: seq<Entry>, results: seq<nat>, e: Entry, url: string)
    requires |results| == |popped| < 9 && Site(e.url) == [url] && url != "" && url !in seen && e.depth < 3
    ensures Leads(Resting(queue + [e], seen, popped, results), Turn(Site(e.url)),
      Resting(queue + [Entry(url, e.depth + 1)], seen + {url}, popped + [e], results + [|popped|]))
  {
    AcceptsOne(seen, url, e.depth + 1);
    NormsAre(Entry(url, e.depth + 1));
    Turns(queue, seen, popped, results, e, [Entry(url, e.depth + 1)]);
  }

  // ... and to a page already met, or beyond the limit.
  lemma DullTurn(queue: seq<Entry>, seen: set<string>, popped: seq<Entry>, results: seq<nat>, e: Entry, url: string)
    requires |results| == |popped| < 9 && Site(e.url) == [url] && (url in seen || e.depth >= 3)
    ensures Leads(Resting(queue + [e], seen, popped, results), Turn(Site(e.url)),
      Resting(queue, seen, popped + [e], results + [|popped|]))
  {
    AcceptsOne(seen, url, e.depth + 1);
    NormsAre(e);
    assert queue + [] == queue && seen + {} == seen;
    Turns(queue, seen, popped, results, e, []);
  }

  lemma AcceptsTwo(seen: set<string>, u: string, v: string, depth: int)
    requires depth <= 3 && u != "" && v != "" && u !in seen && v !in seen && u != v
    ensures Accepted(Crawler().cfg, seen, LinkEntries([u, v], depth)) == [Entry(u, depth), Entry(v, depth)]
  {
    var x, y := Entry(u, depth), Entry(v, depth);
    assert LinkEntries([u, v], depth) == [x, y] && [x, y][1..] == [y] && LinkEntries([v], depth) == [y];
    AcceptsOne(seen + {u}, v, depth);
  }

  lemma NormsOfTwo(x: Entry, y: Entry)
    ensures Norms(Crawler().cfg, [x, y]) == {x.url, y.url}
  {
    NormsAre(x);
    NormsAre(y);
    NormsOfConcat(Crawler().cfg, [x], [y]);
    assert [x] + [y] == [x, y];
  }

  // A turn on a page with links to two new pages.
  lemma DoubleTurn(queue: seq<Entry>, seen: set<string>, popped: seq<Entry>, results: seq<nat>, e: Entry,
                   u: string, v: string)
    requires |results| == |popped| < 9 && Site(e.url) == [u, v] && u != v && e.depth < 3
    requires u != "" && v != "" && u !in seen && v !in seen
    ensures Leads(Resting(queue + [e], seen, popped, results), Turn(Site(e.url)),
      Resting(queue + [Entry(u, e.depth + 1), Entry(v, e.depth + 1)], seen + {u, v}, popped + [e],
              results + [|popped|]))
  {
    AcceptsTwo(seen, u, v, e.depth + 1);
    NormsOfTwo(Entry(u, e.depth + 1), Entry(v, e.depth + 1));
    Turns(queue, seen, popped, results, e, [Entry(u, e.depth + 1), Entry(v, e.depth + 1)]);
  }

  const S := Entry("s", 0)
  const B := Entry("b", 1)
  const A := Entry("a", 1)
  const C := Entry("c", 2)
  const T := Entry("t", 3)

  lemma NormsAre(a: Entry)
    ensures Norms(Crawler().cfg, [a]) == {a.url} && Norms(Crawler().cfg, []) == {}
  {
    NormsOfOne(Crawler().cfg, a);
  }

  lemma LeadsFour(s0: State, a: seq<Step>, s1: State, b: seq<Step>, s2: State, c: seq<Step>, s3: State,
                  d: seq<Step>, s4: State)
    requires Leads(s0, a, s1) && Leads(s1, b, s2) && Leads(s2, c, s3) && Leads(s3, d, s4)
    ensures Leads(s0, a + b + c + d, s4)
  {
    LeadsOn(s0, a, s1, b, s2);
    LeadsOn(s0, a + b, s2, c, s3);
    LeadsOn(s0, a + b + c, s3, d, s4);
  }

  // s, then the way down a, c and t.
  lemma GoesDown() returns (steps: seq<Step>)
    ensures Leads(Resting([S], {"s"}, [], []), steps,
                  Resting([B], {"s", "b", "a", "c", "t"}, [S, A, C, T], [0, 1, 2, 3]))
  {
    Down0();
    Down1();
    Down2();
    Down3();
    LeadsFour(Resting([S], {"s"}, [], []), Turn(Site("s")),
              Resting([B, A], {"s", "b", "a"}, [S], [0]), Turn(Site("a")),
              Resting([B, C], {"s", "b", "a", "c"}, [S, A], [0, 1]), Turn(Site("c")),
              Resting([B, T], {"s", "b", "a", "c", "t"}, [S, A, C], [0, 1, 2]), Turn(Site("t")),
              Resting([B], {"s", "b", "a", "c", "t"}, [S, A, C, T], [0, 1, 2, 3]));
    steps := Turn(Site("s")) + Turn(Site("a")) + Turn(Site("c")) + Turn(Site("t"));
  }

  lemma SetOfThree(x: string, y: string, z: string)
    ensures {x} + {y, z} == {x, y, z}
  {
  }

  lemma Down0()
    ensures Leads(Resting([S], {"s"}, [], []), Turn(Site("s")), Resting([B, A], {"s", "b", "a"}, [S], [0]))
  {
    assert [] + [S] == [S] && [] + [B, A] == [B, A] && [] + [0] == [0];
    SetOfThree("s", "b", "a");
    assert "b"[0] != "s"[0] && "a"[0] != "s"[0] && "b"[0] != "a"[0];
    DoubleTurn([], {"s"}, [], [], S, "b", "a");
  }

  lemma Down1()
    ensures Leads(Resting([B, A], {"s", "b", "a"}, [S], [0]), Turn(Site("a")),
                  Resting([B, C], {"s", "b", "a", "c"}, [S, A], [0, 1]))
  {
    assert [B] + [A] == [B, A] && [B] + [C] == [B, C] && [S] + [A] == [S, A] && [0] + [1] == [0, 1];
    assert {"s", "b", "a"} + {"c"} == {"s", "b", "a", "c"};
    NewTurn([B], {"s", "b", "a"}, [S], [0], A, "c");
  }

  lemma Down2()
    ensures Leads(Resting([B, C], {"s", "b", "a", "c"}, [S, A], [0, 1]), Turn(Site("c")),
                  Resting([B, T], {"s", "b", "a", "c", "t"}, [S, A, C], [0, 1, 2]))
  {
    assert [B] + [C] == [B, C] && [B] + [T] == [B, T] && [S, A] + [C] == [S, A, C] && [0, 1] + [2] == [0, 1, 2];
    assert {"s", "b", "a", "c"} + {"t"} == {"s", "b", "a", "c", "t"};
    NewTurn([B], {"s", "b", "a", "c"}, [S, A], [0, 1], C, "t");
  }

  // At the limit the link to u is cut.
  lemma Down3()
    ensures Leads(Resting([B, T], {"s", "b", "a", "c", "t"}, [S, A, C], [0, 1, 2]), Turn(Site("t")),
                  Resting([B], {"s", "b", "a", "c", "t"}, [S, A, C, T], [0, 1, 2, 3]))
  {
    assert [B] + [T] == [B, T] && [S, A, C] + [T] == [S, A, C, T] && [0, 1, 2] + [3] == [0, 1, 2, 3];
    DullTurn([B], {"s", "b", "a", "c", "t"}, [S, A, C], [0, 1, 2], T, "u");
  }

  // Then b, whose link to t is no news.
  lemma VisitsB()
    ensures Leads(Resting([B], {"s", "b", "a", "c", "t"}, [S, A, C, T], [0, 1, 2, 3]), Turn(Site("b")),
                  Resting([], {"s", "b", "a", "c", "t"}, [S, A, C, T, B], [0, 1, 2, 3, 4]))
  {
    assert [] + [B] == [B] && [S, A, C, T] + [B] == [S, A, C, T, B] && [0, 1, 2, 3] + [4] == [0, 1, 2, 3, 4];
    DullTurn([], {"s", "b", "a", "c", "t"}, [S, A, C, T], [0, 1, 2, 3], B, "t");
  }

  // The worker finds nothing left.
  lemma Drains(seen: set<string>, popped: seq<Entry>, results: seq<nat>)
    ensures var t := Resting([], seen, popped, results);
      Leads(t, [Go1()] + [Go1()], t.(pcs := [Exited(Drained)]))
  {
    var t := Resting([], seen, popped, results);
    var u := Apply(Crawler(), World(), t, Go1());
    OneStep(t, Go1());
    OneStep(u, Go1());
    LeadsOn(t, [Go1()], u, [Go1()], Apply(Crawler(), World(), u, Go1()));
  }

  lemma Starts()
    ensures Init(Crawler(), Resting([S], {"s"}, [], []))
  {
    NormsAre(S);
    assert Accepted(Crawler().cfg, {}, [S]) == [S] by {
      assert [S][1..] == [];
    }
    assert [] + [S] == [S] && {} + {"s"} == {"s"};
    assert seq(1, _ => Top) == [Top];
    assert Started(Crawler(), true, Resting([S], {"s"}, [], []));
  }

  // u is three links away: s, b, t, u.
  lemma ReachesU()
    ensures ReachNorm(Crawler(), Site, "u", 3)
  {
    assert Reach(Crawler(), Site, "s", 0);
    assert Reach(Crawler(), Site, "b", 1) by {
      assert "b" in Site("s");
    }
    assert Reach(Crawler(), Site, "t", 2) by {
      assert "t" in Site("b");
    }
    assert Reach(Crawler(), Site, "u", 3) by {
      assert "u" in Site("t");
    }
  }

  lemma SiteRespectful()
    ensures Respectful(Crawler(), Site)
  {
    forall u: string, v: string ensures SamePage(Crawler(), Site, u, v) {
      if u == v {
        forall l | l in Site(u) && l != "" ensures HasLinkTo(Crawler(), Site, v, l) {
          assert l in Site(v);
        }
      }
    }
  }

  lemma EndMisses(end: State)
    requires end == Resting([], {"s", "b", "a", "c", "t"}, [S, A, C, T, B], [0, 1, 2, 3, 4]).(pcs := [Exited(Drained)])
    ensures CrawlReach.Finished(Crawler(), end) && "u" !in Norms(Crawler().cfg, end.popped)
  {
    forall e | e in end.popped ensures e.url != "u" {
      assert e.url[0] != 'u';
    }
  }

  // The crawl of this site.
  lemma Crawls(s0: State) returns (steps: seq<Step>)
    requires s0 == Resting([S], {"s"}, [], [])
    ensures Leads(s0, steps, Resting([], {"s", "b", "a", "c", "t"}, [S, A, C, T, B], [0, 1, 2, 3, 4])
                               .(pcs := [Exited(Drained)]))
  {
    var down := GoesDown();
    var back := Turn(Site("b"));
    var low := Resting([B], {"s", "b", "a", "c", "t"}, [S, A, C, T], [0, 1, 2, 3]);
    var done := Resting([], {"s", "b", "a", "c", "t"}, [S, A, C, T, B], [0, 1, 2, 3, 4]);
    VisitsB();
    LeadsOn(s0, down, low, back, done);
    Drains(done.front.seen, done.popped, done.results);
    LeadsOn(s0, down + back, done, [Go1()] + [Go1()], done.(pcs := [Exited(Drained)]));
    steps := down + back + ([Go1()] + [Go1()]);
  }

  // So an undisturbed crawl of this site ends without u, although u is within its depth limit.
  lemma MissesU() returns (s0: State, steps: seq<Step>)
    ensures Init(Crawler(), s0) && Legal(Crawler(), World(), s0, steps)
    ensures Faithful(World(), Site, false) && Respectful(Crawler(), Site)
    ensures CrawlReach.Finished(Crawler(), After(Crawler(), World(), s0, steps))
    ensures ReachNorm(Crawler(), Site, "u", Crawler().cfg.maxDepth)
    ensures "u" !in Norms(Crawler().cfg, After(Crawler(), World(), s0, steps).popped)
    ensures !CrawlDepth.CoversDepth(Crawler(), Site, After(Crawler(), World(), s0, steps))
  {
    s0 := Resting([S], {"s"}, [], []);
    steps := Crawls(s0);
    EndMisses(After(Crawler(), World(), s0, steps));
    Starts();
    ReachesU();
    SiteRespectful();
  }
}
