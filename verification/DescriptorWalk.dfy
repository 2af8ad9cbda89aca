/**
 The budgeted walk over a target's file descriptors (pkg/probe/grpc.go, walkFileDescriptors and
 the loop of runReflection).
 */
module DescriptorWalk {
  import opened Basics
  import opened ByteStrings

  const MAX_FILES := 1000
  const MAX_BYTES := 64 * 1024 * 1024

  // A resolved file descriptor. Imports may form cycles.
  type File = nat

  // What a target serves: names, imports and serialised forms (None when serialising fails).
  datatype Files = Files(name: File -> string, deps: File -> seq<File>, raw: File -> Option<bytes>)

  // The shared accumulators of one target's walks.
  datatype Bag = Bag(fetched: set<string>, out: map<string, bytes>, total: nat)

  const EMPTY := Bag({}, map[], 0)

  function Room(b: Bag): nat {
    if |b.fetched| >= 1000 then 0 else 1000 - |b.fetched|
  }

  // Either of the budgets, 1000 files and 64 MiB, is used up.
  predicate Spent(b: Bag) {
    |b.fetched| >= 1000 || b.total >= 67_108_864
  }

  function Take(files: Files, fd: File, b: Bag): (r: Bag)
    requires files.name(fd) !in b.fetched
    ensures |r.fetched| == |b.fetched| + 1
  {
    var n := files.name(fd);
    match files.raw(fd)
    case None => b.(fetched := b.fetched + {n})
    case Some(raw) => Bag(b.fetched + {n}, b.out[n := raw], b.total + |raw|)
  }

  function Walk(files: Files, fd: File, b: Bag): (r: Bag)
    ensures |r.fetched| >= |b.fetched|
    decreases Room(b), 0
  {
    if Spent(b) || files.name(fd) in b.fetched then b
    else WalkAll(files, files.deps(fd), Take(files, fd, b))
  }

  function WalkAll(files: Files, fds: seq<File>, b: Bag): (r: Bag)
    ensures |r.fetched| >= |b.fetched|
    decreases Room(b), |fds|
  {
    if fds == [] then b else WalkAll(files, fds[1..], Walk(files, fds[0], b))
  }

  // The accumulators as the source holds them: two maps and a counter behind a pointer.
  class Accumulator {
    var fetched: set<string>
    var out: map<string, bytes>
    var totalBytes: nat

    function Abs(): Bag
      reads this
    {
      Bag(fetched, out, totalBytes)
    }

    constructor ()
      ensures Abs() == EMPTY
    {
      fetched := {};
      out := map[];
      totalBytes := 0;
    }

    method WalkFileDescriptors(files: Files, fd: Option<File>)
      modifies this
      ensures Abs() == if fd.None? then old(Abs()) else Walk(files, fd.value, old(Abs()))
      decreases Room(Abs())
    {
      if fd.None? || |fetched| >= MAX_FILES || totalBytes >= MAX_BYTES {
        return;
      }
      var name := files.name(fd.value);
      if name in fetched {
        return;
      }
      fetched := fetched + {name};
      var raw := files.raw(fd.value);
      if raw.Some? {
        out := out[name := raw.value];
        totalBytes := totalBytes + |raw.value|;
      }
      ghost var taken := Take(files, fd.value, old(Abs()));
      assert Abs() == taken;
      var deps := files.deps(fd.value);
      for i := 0 to |deps|
        invariant |fetched| >= |taken.fetched|
        invariant WalkAll(files, deps[i..], Abs()) == WalkAll(files, deps, taken)
      {
        assert deps[i..][0] == deps[i] && deps[i..][1..] == deps[i + 1..];
        WalkFileDescriptors(files, Some(deps[i]));
      }
    }
  }

  // ---------------------------------------------------------------- the budgets

  ghost function Sizes(m: map<string, bytes>): nat {
    if m == map[] then 0
    else
      var k :| k in m;
      |m[k]| + Sizes(m - {k})
  }

  lemma {:induction false} SizesWithout(m: map<string, bytes>, k: string)
    requires k in m
    ensures Sizes(m) == |m[k]| + Sizes(m - {k})
    decreases |m|
  {
    var k' :| k' in m && Sizes(m) == |m[k']| + Sizes(m - {k'});
    if k' != k {
      SizesWithout(m - {k'}, k);
      SizesWithout(m - {k}, k');
      assert m - {k'} - {k} == m - {k} - {k'};
    }
  }

  lemma SizesWith(m: map<string, bytes>, k: string, v: bytes)
    requires k !in m
    ensures Sizes(m[k := v]) == Sizes(m) + |v|
  {
    SizesWithout(m[k := v], k);
    assert m[k := v] - {k} == m;
  }

  // The counter is the size of what is kept, and it passes its cap by less than one file.
  ghost predicate WithinBudget(b: Bag) {
    && |b.fetched| <= 1000
    && b.out.Keys <= b.fetched
    && b.total == Sizes(b.out)
    && (b.total < 67_108_864 || exists n :: n in b.out && b.total - |b.out[n]| < 67_108_864)
  }

  lemma TakeKeepsBudget(files: Files, fd: File, b: Bag)
    requires WithinBudget(b) && !Spent(b) && files.name(fd) !in b.fetched
    ensures WithinBudget(Take(files, fd, b))
  {
    var n, r := files.name(fd), Take(files, fd, b);
    if files.raw(fd).Some? {
      SizesWith(b.out, n, files.raw(fd).value);
      assert n in r.out;
    }
  }

  lemma {:induction false} WalkKeepsBudget(files: Files, fd: File, b: Bag)
    requires WithinBudget(b)
    ensures WithinBudget(Walk(files, fd, b))
    decreases Room(b), 0
  {
    if !Spent(b) && files.name(fd) !in b.fetched {
      TakeKeepsBudget(files, fd, b);
      WalkAllKeepsBudget(files, files.deps(fd), Take(files, fd, b));
    }
  }

  lemma {:induction false} WalkAllKeepsBudget(files: Files, fds: seq<File>, b: Bag)
    requires WithinBudget(b)
    ensures WithinBudget(WalkAll(files, fds, b))
    decreases Room(b), |fds|
  {
    if fds != [] {
      WalkKeepsBudget(files, fds[0], b);
      WalkAllKeepsBudget(files, fds[1..], Walk(files, fds[0], b));
    }
  }

  // ---------------------------------------------------------------- what is fetched

  // A name belongs to one file.
  ghost predicate OneFileAName(files: Files) {
    forall f, g :: files.name(f) == files.name(g) ==> f == g
  }

  ghost predicate Has(files: Files, b: Bag, f: File) {
    files.name(f) in b.fetched
  }

  ghost predicate HasAll(files: Files, b: Bag, fds: seq<File>) {
    forall d :: d in fds ==> Has(files, b, d)
  }

  ghost predicate Closed(files: Files, b: Bag) {
    forall f :: Has(files, b, f) ==> HasAll(files, b, files.deps(f))
  }

  // Every file is kept as serialised, unless that failed.
  ghost predicate Keeps(files: Files, b: Bag, f: File) {
    match files.raw(f)
    case None => files.name(f) !in b.out
    case Some(raw) => files.name(f) in b.out && b.out[files.name(f)] == raw
  }

  ghost predicate KeepsAll(files: Files, b: Bag) {
    && b.out.Keys <= b.fetched
    && forall f :: Has(files, b, f) ==> Keeps(files, b, f)
  }

  // Imports of imports, in any number of steps.
  ghost predicate Reaches(files: Files, from: File, to: File) {
    exists path :: IsPath(files, from, path, to)
  }

  ghost predicate IsPath(files: Files, from: File, path: seq<File>, to: File)
    decreases path
  {
    if path == [] then from == to
    else path[0] in files.deps(from) && IsPath(files, path[0], path[1..], to)
  }

  lemma ReachesSelf(files: Files, f: File)
    ensures Reaches(files, f, f)
  {
    assert IsPath(files, f, [], f);
  }

  lemma ReachesThrough(files: Files, from: File, dep: File, to: File)
    requires dep in files.deps(from) && Reaches(files, dep, to)
    ensures Reaches(files, from, to)
  {
    var path :| IsPath(files, dep, path, to);
    assert ([dep] + path)[1..] == path;
    assert IsPath(files, from, [dep] + path, to);
  }

  lemma {:induction false} ClosedHasReached(files: Files, b: Bag, from: File, path: seq<File>, to: File)
    requires Closed(files, b) && Has(files, b, from) && IsPath(files, from, path, to)
    ensures Has(files, b, to)
    decreases path
  {
    if path != [] {
      ClosedHasReached(files, b, path[0], path[1..], to);
    }
  }

  ghost predicate AddsReached(files: Files, starts: seq<File>, b: Bag, r: Bag) {
    && b.fetched <= r.fetched && b.total <= r.total
    && (forall f :: Has(files, r, f) && !Has(files, b, f) ==> exists s :: s in starts && Reaches(files, s, f))
  }

  // What one walk adds: nothing goes, each new file is reached from a start, and each new file's
  // imports are fetched too unless a budget ran out.
  ghost predicate Adds(files: Files, starts: seq<File>, b: Bag, r: Bag) {
    && AddsReached(files, starts, b, r)
    && (!Spent(r) ==> HasAll(files, r, starts))
    && (!Spent(r) ==> forall f :: Has(files, r, f) && !Has(files, b, f) ==> HasAll(files, r, files.deps(f)))
  }

  lemma {:induction false} WalkAdds(files: Files, fd: File, b: Bag)
    requires OneFileAName(files)
    ensures Adds(files, [fd], b, Walk(files, fd, b))
    decreases Room(b), 0
  {
    var r := Walk(files, fd, b);
    if !Spent(b) && files.name(fd) !in b.fetched {
      var t := Take(files, fd, b);
      WalkAllAdds(files, files.deps(fd), t);
      TakeThenAdds(files, fd, b, t, r);
    }
  }

  lemma TakeThenAdds(files: Files, fd: File, b: Bag, t: Bag, r: Bag)
    requires OneFileAName(files) && files.name(fd) !in b.fetched && t == Take(files, fd, b)
    requires Adds(files, files.deps(fd), t, r)
    ensures Adds(files, [fd], b, r)
  {
    ReachesSelf(files, fd);
    assert fd in [fd];
    forall f | Has(files, r, f) && !Has(files, b, f) ensures exists s :: s in [fd] && Reaches(files, s, f) {
      if f != fd {
        assert !Has(files, t, f);
        var s :| s in files.deps(fd) && Reaches(files, s, f);
        ReachesThrough(files, fd, s, f);
      }
      assert fd in [fd] && Reaches(files, fd, f);
    }
    forall f | !Spent(r) && Has(files, r, f) && !Has(files, b, f) ensures HasAll(files, r, files.deps(f)) {
      assert f == fd || !Has(files, t, f);
    }
  }

  lemma {:induction false} WalkAllAdds(files: Files, fds: seq<File>, b: Bag)
    requires OneFileAName(files)
    ensures Adds(files, fds, b, WalkAll(files, fds, b))
    decreases Room(b), |fds|
  {
    if fds != [] {
      var m := Walk(files, fds[0], b);
      WalkAdds(files, fds[0], b);
      WalkAllAdds(files, fds[1..], m);
      AddsThenAdds(files, fds, b, m, WalkAll(files, fds, b));
    }
  }

  lemma ReachedThenReached(files: Files, fds: seq<File>, b: Bag, m: Bag, r: Bag)
    requires fds != [] && AddsReached(files, [fds[0]], b, m) && AddsReached(files, fds[1..], m, r)
    ensures AddsReached(files, fds, b, r)
  {
    forall f | Has(files, r, f) && !Has(files, b, f) ensures exists s :: s in fds && Reaches(files, s, f) {
      if Has(files, m, f) {
        var s :| s in [fds[0]] && Reaches(files, s, f);
        assert s in fds;
      } else {
        var s :| s in fds[1..] && Reaches(files, s, f);
        assert s in fds;
      }
    }
  }

  lemma AddsThenAdds(files: Files, fds: seq<File>, b: Bag, m: Bag, r: Bag)
    requires fds != [] && Adds(files, [fds[0]], b, m) && Adds(files, fds[1..], m, r)
    ensures Adds(files, fds, b, r)
  {
    SubsetCount(m.fetched, r.fetched);
    ReachedThenReached(files, fds, b, m, r);
    if !Spent(r) {
      assert fds[0] in [fds[0]];
      assert forall d :: d in fds ==> d == fds[0] || d in fds[1..];
      forall f | Has(files, r, f) && !Has(files, b, f) ensures HasAll(files, r, files.deps(f)) {
        if Has(files, m, f) {
          assert HasAll(files, m, files.deps(f));
        }
      }
    }
  }

  // From a closed start, and unless a budget runs out, the walk adds exactly what its file reaches,
  // itself included, whatever cycles the imports form; what was fetched is closed again.
  lemma WalkFetchesClosure(files: Files, fd: File, b: Bag, f: File)
    requires OneFileAName(files) && Closed(files, b) && !Spent(Walk(files, fd, b))
    ensures Closed(files, Walk(files, fd, b))
    ensures Has(files, Walk(files, fd, b), f) <==> Has(files, b, f) || Reaches(files, fd, f)
  {
    var r := Walk(files, fd, b);
    WalkAdds(files, fd, b);
    StaysClosed(files, [fd], b, r);
    assert fd in [fd];
    if Reaches(files, fd, f) {
      var path :| IsPath(files, fd, path, f);
      ClosedHasReached(files, r, fd, path, f);
    }
  }

  lemma TakeKeepsAll(files: Files, fd: File, b: Bag)
    requires OneFileAName(files) && KeepsAll(files, b) && files.name(fd) !in b.fetched
    ensures KeepsAll(files, Take(files, fd, b))
  {
    var r := Take(files, fd, b);
    forall f | Has(files, r, f) ensures Keeps(files, r, f) {
      if f != fd {
        assert files.name(f) != files.name(fd);
        assert Has(files, b, f) && Keeps(files, b, f);
      }
    }
  }

  // Nothing fetched is lost and nothing is kept under another file's name.
  lemma {:induction false} WalkKeepsAll(files: Files, fd: File, b: Bag)
    requires OneFileAName(files) && KeepsAll(files, b)
    ensures KeepsAll(files, Walk(files, fd, b))
    decreases Room(b), 0
  {
    if !Spent(b) && files.name(fd) !in b.fetched {
      TakeKeepsAll(files, fd, b);
      WalkAllKeepsAll(files, files.deps(fd), Take(files, fd, b));
    }
  }

  lemma {:induction false} WalkAllKeepsAll(files: Files, fds: seq<File>, b: Bag)
    requires OneFileAName(files) && KeepsAll(files, b)
    ensures KeepsAll(files, WalkAll(files, fds, b))
    decreases Room(b), |fds|
  {
    if fds != [] {
      WalkKeepsAll(files, fds[0], b);
      WalkAllKeepsAll(files, fds[1..], Walk(files, fds[0], b));
    }
  }

  // ---------------------------------------------------------------- one target

  // What a target answers: the file a symbol is in, and the service's signature in that file.
  datatype Target<S> = Target(files: Files, resolve: string -> Option<File>, describe: (File, string) -> Option<S>)

  // The caps of the configuration; those of the walk itself are constants.
  datatype Caps = Caps(maxFiles: int, maxBytes: int)

  datatype Found<S> = Found(bag: Bag, services: seq<S>)

  predicate ReflectionService(name: string) {
    name == "grpc.reflection.v1alpha.ServerReflection" || name == "grpc.reflection.v1.ServerReflection"
  }

  predicate Exhausted(caps: Caps, b: Bag) {
    |b.fetched| >= caps.maxFiles || b.total >= caps.maxBytes
  }

  function ToSeq<S>(s: Option<S>): seq<S> {
    if s.None? then [] else [s.value]
  }

  function Enumerate<S>(t: Target<S>, caps: Caps, names: seq<string>, found: Found<S>): Found<S> {
    if names == [] then found
    else if ReflectionService(names[0]) then Enumerate(t, caps, names[1..], found)
    else if Exhausted(caps, found.bag) then found
    else
      var fd := t.resolve(names[0]);
      if fd.None? then Enumerate(t, caps, names[1..], found)
      else Enumerate(t, caps, names[1..],
        Found(Walk(t.files, fd.value, found.bag), found.services + ToSeq(t.describe(fd.value, names[0]))))
  }

  method RunReflection<S>(t: Target<S>, caps: Caps, names: seq<string>) returns (r: Found<S>)
    ensures r == Enumerate(t, caps, names, Found(EMPTY, []))
  {
    var acc := new Accumulator();
    var services: seq<S> := [];
    for i := 0 to |names|
      invariant Enumerate(t, caps, names[i..], Found(acc.Abs(), services)) == Enumerate(t, caps, names, Found(EMPTY, []))
    {
      assert names[i..][0] == names[i] && names[i..][1..] == names[i + 1..];
      if ReflectionService(names[i]) {
        continue;
      }
      if |acc.fetched| >= caps.maxFiles || acc.totalBytes >= caps.maxBytes {
        return Found(acc.Abs(), services);
      }
      var fd := t.resolve(names[i]);
      if fd.None? {
        continue;
      }
      acc.WalkFileDescriptors(t.files, fd);
      var service := t.describe(fd.value, names[i]);
      assert services + [] == services;
      if service.Some? {
        services := services + [service.value];
      }
    }
    return Found(acc.Abs(), services);
  }

  // The names under which the reflection service describes itself.
  ghost predicate OfReflection(name: string) {
    name == "grpc.reflection.v1alpha.ServerReflection" || name == "grpc.reflection.v1.ServerReflection"
  }

  // The files of all other services listed, and their signatures, in order.
  ghost function Roots<S>(t: Target<S>, names: seq<string>): seq<File> {
    if names == [] then []
    else (if OfReflection(names[0]) then [] else ToSeq(t.resolve(names[0]))) + Roots(t, names[1..])
  }

  ghost function Described<S>(t: Target<S>, names: seq<string>): seq<S> {
    if names == [] then []
    else
      (if OfReflection(names[0]) || t.resolve(names[0]).None? then []
       else ToSeq(t.describe(t.resolve(names[0]).value, names[0])))
      + Described(t, names[1..])
  }

  // The state after one service.
  function Step<S>(t: Target<S>, name: string, found: Found<S>): Found<S> {
    var fd := t.resolve(name);
    if ReflectionService(name) || fd.None? then found
    else Found(Walk(t.files, fd.value, found.bag), found.services + ToSeq(t.describe(fd.value, name)))
  }

  lemma EnumerateStep<S>(t: Target<S>, caps: Caps, names: seq<string>, found: Found<S>)
    requires names != [] && (ReflectionService(names[0]) || !Exhausted(caps, found.bag))
    ensures Enumerate(t, caps, names, found) == Enumerate(t, caps, names[1..], Step(t, names[0], found))
  {
  }

  // Whatever the services, the accumulators stay within budget.
  lemma {:induction false} EnumerateKeepsBudget<S>(t: Target<S>, caps: Caps, names: seq<string>, found: Found<S>)
    requires WithinBudget(found.bag)
    ensures WithinBudget(Enumerate(t, caps, names, found).bag)
  {
    if names != [] && (ReflectionService(names[0]) || !Exhausted(caps, found.bag)) {
      EnumerateStep(t, caps, names, found);
      if t.resolve(names[0]).Some? {
        WalkKeepsBudget(t.files, t.resolve(names[0]).value, found.bag);
      }
      EnumerateKeepsBudget(t, caps, names[1..], Step(t, names[0], found));
    }
  }

  // Whatever the budgets, only what the services' files reach is fetched, each as serialised, and
  // the services found are the first of those described.
  lemma {:induction false} EnumerateReaches<S>(t: Target<S>, caps: Caps, names: seq<string>, found: Found<S>)
    requires OneFileAName(t.files) && KeepsAll(t.files, found.bag)
    ensures var r := Enumerate(t, caps, names, found);
            && KeepsAll(t.files, r.bag)
            && AddsReached(t.files, Roots(t, names), found.bag, r.bag)
            && found.services <= r.services <= found.services + Described(t, names)
  {
    if names != [] && (ReflectionService(names[0]) || !Exhausted(caps, found.bag)) {
      var next := Step(t, names[0], found);
      EnumerateStep(t, caps, names, found);
      StepAdds(t, names[0], found);
      EnumerateReaches(t, caps, names[1..], next);
      RootsSplit(t, names);
      ReachedFromBoth(t.files, Roots(t, [names[0]]), Roots(t, names[1..]), found.bag, next.bag,
        Enumerate(t, caps, names, found).bag);
      DescribedStep(t, names, found);
    }
  }

  lemma StepAdds<S>(t: Target<S>, name: string, found: Found<S>)
    requires OneFileAName(t.files)
    ensures Adds(t.files, Roots(t, [name]), found.bag, Step(t, name, found).bag)
    ensures KeepsAll(t.files, found.bag) ==> KeepsAll(t.files, Step(t, name, found).bag)
  {
    assert [name][1..] == [];
    var fd := t.resolve(name);
    if !ReflectionService(name) && fd.Some? {
      WalkAdds(t.files, fd.value, found.bag);
      if KeepsAll(t.files, found.bag) {
        WalkKeepsAll(t.files, fd.value, found.bag);
      }
      assert [fd.value] + Roots(t, []) == [fd.value];
    }
  }

  lemma RootsSplit<S>(t: Target<S>, names: seq<string>)
    requires names != []
    ensures Roots(t, names) == Roots(t, [names[0]]) + Roots(t, names[1..])
  {
    assert [names[0]][1..] == [];
    var first := if OfReflection(names[0]) then [] else ToSeq(t.resolve(names[0]));
    assert Roots(t, [names[0]]) == first + Roots(t, []) == first;
  }

  lemma ReachedFromBoth(files: Files, first: seq<File>, rest: seq<File>, b: Bag, m: Bag, r: Bag)
    requires AddsReached(files, first, b, m) && AddsReached(files, rest, m, r)
    ensures AddsReached(files, first + rest, b, r)
  {
    forall f | Has(files, r, f) && !Has(files, b, f)
      ensures exists s :: s in first + rest && Reaches(files, s, f)
    {
      if Has(files, m, f) {
        var s :| s in first && Reaches(files, s, f);
        assert s in first + rest;
      } else {
        var s :| s in rest && Reaches(files, s, f);
        assert s in first + rest;
      }
    }
  }

  lemma DescribedStep<S>(t: Target<S>, names: seq<string>, found: Found<S>)
    requires names != []
    ensures Step(t, names[0], found).services + Described(t, names[1..]) == found.services + Described(t, names)
    ensures found.services <= Step(t, names[0], found).services
  {
    var one := if OfReflection(names[0]) || t.resolve(names[0]).None? then []
               else ToSeq(t.describe(t.resolve(names[0]).value, names[0]));
    assert Step(t, names[0], found).services == found.services + one;
    Regroup(found.services, one, Described(t, names[1..]));
  }

  // Unless a budget ran out, every service is found, and what is fetched is exactly what their
  // files reach.
  lemma EnumerationIsComplete<S>(t: Target<S>, caps: Caps, names: seq<string>, f: File)
    requires OneFileAName(t.files)
    requires var r := Enumerate(t, caps, names, Found(EMPTY, [])); !Spent(r.bag) && !Exhausted(caps, r.bag)
    ensures var r := Enumerate(t, caps, names, Found(EMPTY, []));
            && r.services == Described(t, names)
            && (Has(t.files, r.bag, f) <==> exists s :: s in Roots(t, names) && Reaches(t.files, s, f))
  {
    var r := Enumerate(t, caps, names, Found(EMPTY, []));
    EnumerateReaches(t, caps, names, Found(EMPTY, []));
    EnumerateAll(t, caps, names, Found(EMPTY, []));
    assert [] + Described(t, names) == Described(t, names);
    forall s | s in Roots(t, names) && Reaches(t.files, s, f) ensures Has(t.files, r.bag, f) {
      var path :| IsPath(t.files, s, path, f);
      ClosedHasReached(t.files, r.bag, s, path, f);
    }
  }

  lemma {:induction false} EnumerateAll<S>(t: Target<S>, caps: Caps, names: seq<string>, found: Found<S>)
    requires OneFileAName(t.files) && KeepsAll(t.files, found.bag) && Closed(t.files, found.bag)
    requires var r := Enumerate(t, caps, names, found); !Spent(r.bag) && !Exhausted(caps, r.bag)
    ensures var r := Enumerate(t, caps, names, found);
            && r.services == found.services + Described(t, names)
            && Closed(t.files, r.bag) && HasAll(t.files, r.bag, Roots(t, names))
  {
    if names == [] {
      assert found.services + [] == found.services;
    } else {
      var r := Enumerate(t, caps, names, found);
      var next := Step(t, names[0], found);
      EnumerateStep(t, caps, names, found);
      StepAdds(t, names[0], found);
      EnumerateReaches(t, caps, names[1..], next);
      SubsetCount(next.bag.fetched, r.bag.fetched);
      StaysClosed(t.files, Roots(t, [names[0]]), found.bag, next.bag);
      EnumerateAll(t, caps, names[1..], next);
      RootsSplit(t, names);
      DescribedStep(t, names, found);
    }
  }

  lemma StaysClosed(files: Files, starts: seq<File>, b: Bag, r: Bag)
    requires Closed(files, b) && Adds(files, starts, b, r) && !Spent(r)
    ensures Closed(files, r) && HasAll(files, r, starts)
  {
    forall g | Has(files, r, g) ensures HasAll(files, r, files.deps(g)) {
      if Has(files, b, g) {
        assert HasAll(files, b, files.deps(g));
      }
    }
  }
}
