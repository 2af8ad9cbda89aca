/**
 The URL frontier of the crawler (pkg/crawl/frontier.go): a mutex-protected queue with
 deduplication, a depth limit, a scope filter and detection of the end of the crawl.

 Every method of the source runs in one critical section, except that Pop may sleep on the
 condition variable in the middle. So the frontier's behaviour is a handful of atomic steps on
 the value type Frontier; class UrlFrontier carries them out on a Go slice (a window onto a
 backing array), and every method is proved to do exactly the step.
 */
module Frontiers {

  datatype Entry = Entry(url: string, depth: int)

  // Go's zero value, written into slots that have been popped.
  const ZERO_ENTRY := Entry("", 0)

  // A nil scope function accepts every URL.
  datatype Scope = AnyUrl | Only(accepts: string -> bool) {
    predicate Accepts(url: string) {
      AnyUrl? || accepts(url)
    }
  }

  // normalize stands for normalizeURL, of which nothing is assumed; "" marks an unusable URL.
  datatype Config = Config(maxDepth: int, scope: Scope, normalize: string -> string)

  // waiting holds the workers asleep in Pop that no broadcast has woken yet.
  datatype Frontier = Frontier(queue: seq<Entry>, seen: set<string>, active: int, closed: bool, dfs: bool,
                               waiting: set<nat>)

  datatype Popped = Got(entry: Entry) | Finished | Asleep

  predicate WithinDepth(cfg: Config, depth: int) {
    cfg.maxDepth < 0 || depth <= cfg.maxDepth
  }

  // What Push demands of an entry, apart from its being new.
  predicate Admissible(cfg: Config, url: string) {
    cfg.normalize(url) != "" && cfg.scope.Accepts(url)
  }

  // The entries of es that Push enqueues, in order.
  function Accepted(cfg: Config, seen: set<string>, es: seq<Entry>): seq<Entry>
    decreases |es|
  {
    if es == [] then []
    else if Takes(cfg, seen, es[0]) then
      [es[0]] + Accepted(cfg, seen + {cfg.normalize(es[0].url)}, es[1..])
    else
      Accepted(cfg, seen, es[1..])
  }

  predicate Takes(cfg: Config, seen: set<string>, e: Entry) {
    WithinDepth(cfg, e.depth) && Admissible(cfg, e.url) && cfg.normalize(e.url) !in seen
  }

  function Norms(cfg: Config, es: seq<Entry>): set<string> {
    set i | 0 <= i < |es| :: cfg.normalize(es[i].url)
  }

  ghost predicate DistinctNorms(cfg: Config, es: seq<Entry>) {
    forall i, j :: 0 <= i < j < |es| ==> cfg.normalize(es[i].url) != cfg.normalize(es[j].url)
  }

  function Push(cfg: Config, f: Frontier, es: seq<Entry>): (Frontier, nat) {
    if f.closed then (f, 0)
    else
      var a := Accepted(cfg, f.seen, es);
      (f.(queue := f.queue + a, seen := f.seen + Norms(cfg, a), waiting := if a != [] then {} else f.waiting), |a|)
  }

  // f after the entries acc have been enqueued.
  function Grown(cfg: Config, f: Frontier, acc: seq<Entry>): Frontier {
    f.(queue := f.queue + acc, seen := f.seen + Norms(cfg, acc))
  }

  // One pass of Pop's loop, from taking the mutex to releasing it.
  function TryPop(f: Frontier, worker: nat): (Frontier, Popped) {
    if f.queue != [] then
      var last := |f.queue| - 1;
      if f.dfs then
        (f.(queue := f.queue[..last], active := f.active + 1), Got(f.queue[last]))
      else
        (f.(queue := f.queue[1..], active := f.active + 1), Got(f.queue[0]))
    else if f.active == 0 || f.closed then
      (f, Finished)
    else
      (f.(waiting := f.waiting + {worker}), Asleep)
  }

  function MarkIdle(f: Frontier): Frontier {
    var g := f.(active := f.active - 1);
    if g.active == 0 && g.queue == [] then g.(waiting := {}) else g
  }

  function Close(f: Frontier): Frontier {
    f.(closed := true, waiting := {})
  }

  // The filters: the depth limit if there is one, the scope if there is one, and a usable URL.
  ghost predicate Passes(cfg: Config, e: Entry) {
    && (cfg.maxDepth >= 0 ==> e.depth <= cfg.maxDepth)
    && (cfg.scope.Only? ==> cfg.scope.accepts(e.url))
    && |cfg.normalize(e.url)| > 0
  }

  // Push admits exactly one entry for each new normalised URL that passes the filters.
  lemma {:induction false} AcceptedIsExact(cfg: Config, seen: set<string>, es: seq<Entry>)
    ensures var a := Accepted(cfg, seen, es);
      && (forall e <- a :: e in es && Passes(cfg, e))
      && DistinctNorms(cfg, a) && Norms(cfg, a) !! seen
      && (forall e <- es :: Passes(cfg, e) ==> cfg.normalize(e.url) in seen + Norms(cfg, a))
    decreases |es|
  {
    if es != [] {
      var e, n := es[0], cfg.normalize(es[0].url);
      if Takes(cfg, seen, e) {
        var t := Accepted(cfg, seen + {n}, es[1..]);
        AcceptedIsExact(cfg, seen + {n}, es[1..]);
        NormsOfConcat(cfg, [e], t);
        NormsOfOne(cfg, e);
        assert n !in Norms(cfg, t);
        forall i | 0 <= i < |t| ensures cfg.normalize(t[i].url) != n {
          assert cfg.normalize(t[i].url) in Norms(cfg, t);
        }
      } else {
        AcceptedIsExact(cfg, seen, es[1..]);
      }
    }
  }

  lemma NormsOfOne(cfg: Config, e: Entry)
    ensures Norms(cfg, [e]) == {cfg.normalize(e.url)}
  {
    assert cfg.normalize([e][0].url) in Norms(cfg, [e]);
  }

  lemma NormsOfConcat(cfg: Config, a: seq<Entry>, b: seq<Entry>)
    ensures Norms(cfg, a + b) == Norms(cfg, a) + Norms(cfg, b)
  {
    forall n | n in Norms(cfg, a) + Norms(cfg, b) ensures n in Norms(cfg, a + b) {
      if n in Norms(cfg, a) {
        var i :| 0 <= i < |a| && cfg.normalize(a[i].url) == n;
        assert (a + b)[i] == a[i];
      } else {
        var i :| 0 <= i < |b| && cfg.normalize(b[i].url) == n;
        assert (a + b)[|a| + i] == b[i];
      }
    }
  }

  // One turn of Push's loop, at entry i with acc enqueued so far.
  lemma OfferExtends(cfg: Config, f: Frontier, acc: seq<Entry>, es: seq<Entry>, i: nat)
    requires i < |es|
    ensures Takes(cfg, f.seen + Norms(cfg, acc), es[i]) ==>
      && Grown(cfg, f, acc + [es[i]]) ==
         Grown(cfg, f, acc).(queue := f.queue + acc + [es[i]],
                             seen := f.seen + Norms(cfg, acc) + {cfg.normalize(es[i].url)})
      && acc + [es[i]] + Accepted(cfg, f.seen + Norms(cfg, acc + [es[i]]), es[i + 1..])
         == acc + Accepted(cfg, f.seen + Norms(cfg, acc), es[i..])
    ensures !Takes(cfg, f.seen + Norms(cfg, acc), es[i]) ==>
      Accepted(cfg, f.seen + Norms(cfg, acc), es[i + 1..]) == Accepted(cfg, f.seen + Norms(cfg, acc), es[i..])
  {
    var e, seen := es[i], f.seen + Norms(cfg, acc);
    assert es[i..][0] == e && es[i..][1..] == es[i + 1..];
    if Takes(cfg, seen, e) {
      NormsOfConcat(cfg, acc, [e]);
      NormsOfOne(cfg, e);
      assert f.seen + Norms(cfg, acc + [e]) == seen + {cfg.normalize(e.url)};
      assert f.queue + (acc + [e]) == f.queue + acc + [e];
    }
  }

  /**
   The frontier as the source stores it. queue is the slice buf[off..off+len] with capacity
   buf.Length - off. Slots outside the slice hold no entry, so popped URLs can be collected.
   */
  class UrlFrontier {
    const cfg: Config
    var buf: array<Entry>
    var off: nat
    var len: nat
    var seen: set<string>
    var active: int
    var closed: bool
    var dfs: bool
    var waiting: set<nat>  // the condition variable's sleepers

    ghost predicate Valid()
      reads this, buf
    {
      && off + len <= buf.Length
      && (forall i :: 0 <= i < buf.Length && !(off <= i < off + len) ==> buf[i] == Entry("", 0))
    }

    ghost function Abs(): Frontier
      reads this, buf
      requires Valid()
    {
      Frontier(buf[off..off + len], seen, active, closed, dfs, waiting)
    }

    constructor (maxDepth: int, scope: Scope, normalize: string -> string)
      ensures Valid() && fresh(buf)
      ensures cfg == Config(maxDepth, scope, normalize)
      ensures Abs() == Frontier([], {}, 0, false, false, {})
    {
      cfg := Config(maxDepth, scope, normalize);
      buf := new Entry[64](_ => ZERO_ENTRY);
      off, len := 0, 0;
      seen, active, closed, dfs, waiting := {}, 0, false, false, {};
    }

    // Go's append: in place while the capacity lasts, else into a larger array. How much
    // larger is the Go runtime's choice; spare stands for it.
    method Append(e: Entry, spare: nat)
      requires Valid()
      modifies this`buf, this`off, this`len, buf
      ensures Valid() && (buf == old(buf) || fresh(buf))
      ensures Abs() == old(Abs()).(queue := old(Abs()).queue + [e])
    {
      if off + len == buf.Length {
        MoveTo(len + 1 + spare);
      }
      buf[off + len] := e;
      len := len + 1;
    }

    // Copies the slice into a fresh array of the given capacity.
    method MoveTo(capacity: nat)
      requires Valid() && len <= capacity
      modifies this`buf, this`off
      ensures Valid() && fresh(buf) && buf.Length == capacity && off == 0
      ensures Abs() == old(Abs())
    {
      var copied := new Entry[capacity](_ => ZERO_ENTRY);
      forall i | 0 <= i < len {
        copied[i] := buf[off + i];
      }
      ghost var was := buf[off..off + len];
      assert copied[..len] == was;
      buf, off := copied, 0;
    }

    method PushEntries(entries: seq<Entry>) returns (added: nat)
      requires Valid()
      modifies this, buf
      ensures Valid() && (buf == old(buf) || fresh(buf))
      ensures (Abs(), added) == Push(cfg, old(Abs()), entries)
    {
      if closed {
        return 0;
      }
      added := 0;
      ghost var before := Abs();
      ghost var acc: seq<Entry> := [];
      for i := 0 to |entries|
        invariant Valid() && (buf == old(buf) || fresh(buf))
        invariant added == |acc|
        invariant acc + Accepted(cfg, seen, entries[i..]) == Accepted(cfg, before.seen, entries)
        invariant Abs() == Grown(cfg, before, acc)
      {
        OfferExtends(cfg, before, acc, entries, i);
        var taken := Offer(entries[i]);
        if taken {
          added := added + 1;
          acc := acc + [entries[i]];
        }
      }
      assert entries[|entries|..] == [] && acc == Accepted(cfg, before.seen, entries);
      if added > 0 {
        waiting := {};
      }
    }

    // The body of Push's loop.
    method Offer(e: Entry) returns (taken: bool)
      requires Valid()
      modifies this`buf, this`off, this`len, this`seen, buf
      ensures Valid() && (buf == old(buf) || fresh(buf))
      ensures taken == Takes(cfg, old(seen), e)
      ensures Abs() == if taken
                       then old(Abs()).(queue := old(Abs()).queue + [e], seen := old(seen) + {cfg.normalize(e.url)})
                       else old(Abs())
    {
      if cfg.maxDepth >= 0 && e.depth > cfg.maxDepth {
        return false;
      }
      var normalized := cfg.normalize(e.url);
      if normalized == "" {
        return false;
      }
      if normalized in seen {
        return false;
      }
      if cfg.scope.Only? && !cfg.scope.accepts(e.url) {
        return false;
      }
      seen := seen + {normalized};
      Append(e, len);
      return true;
    }

    // One pass of Pop's loop.
    method PopOnce(worker: nat) returns (r: Popped)
      requires Valid()
      modifies this, buf
      ensures Valid() && (buf == old(buf) || fresh(buf))
      ensures (Abs(), r) == TryPop(old(Abs()), worker)
    {
      if len > 0 {
        var entry: Entry;
        if dfs {
          entry := TakeLast();
        } else {
          entry := TakeFirst();
        }
        active := active + 1;
        return Got(entry);
      }
      if active == 0 || closed {
        return Finished;
      }
      waiting := waiting + {worker};
      return Asleep;
    }

    // Clears the popped slot, then shortens the slice.
    method TakeLast() returns (entry: Entry)
      requires Valid() && len > 0
      modifies this`len, buf
      ensures Valid()
      ensures entry == old(Abs()).queue[|old(Abs()).queue| - 1]
      ensures Abs() == old(Abs()).(queue := old(Abs()).queue[..|old(Abs()).queue| - 1])
    {
      var last := len - 1;
      entry := buf[off + last];
      buf[off + last] := ZERO_ENTRY;
      len := last;
    }

    // Clears the popped slot, advances the slice, and compacts the backing array when its
    // capacity is more than four times what the slice holds.
    method TakeFirst() returns (entry: Entry)
      requires Valid() && len > 0
      modifies this`buf, this`off, this`len, buf
      ensures Valid() && (buf == old(buf) || fresh(buf))
      ensures entry == old(Abs()).queue[0]
      ensures Abs() == old(Abs()).(queue := old(Abs()).queue[1..])
      ensures 0 < len ==> buf.Length - off <= 4 * len
    {
      entry := buf[off];
      buf[off] := ZERO_ENTRY;
      off, len := off + 1, len - 1;
      assert Abs().queue == old(Abs()).queue[1..];
      if buf.Length - off > 4 * len && len > 0 {
        MoveTo(len);
      }
    }

    method SetIdle()
      requires Valid()
      modifies this`active, this`waiting
      ensures Valid() && Abs() == MarkIdle(old(Abs()))
    {
      active := active - 1;
      if active == 0 && len == 0 {
        waiting := {};
      }
    }

    method CloseDown()
      requires Valid()
      modifies this`closed, this`waiting
      ensures Valid() && Abs() == Close(old(Abs()))
    {
      closed := true;
      waiting := {};
    }

    method SetDFS(v: bool)
      requires Valid()
      modifies this`dfs
      ensures Valid() && Abs() == old(Abs()).(dfs := v)
    {
      dfs := v;
    }
  }
}
