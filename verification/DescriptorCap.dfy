/**
 When the byte cap of walkFileDescriptors (pkg/probe/grpc.go) is passed: exactly when a file in the
 order of a walk without the cap does not fit in what the files before it leave; and never if all
 that a file reaches fits.
 */
module DescriptorCap {
  import opened Basics
  import opened ByteStrings
  import opened DescriptorWalk

  // ---------------------------------------------------------------- the walk without the byte cap

  function Left(seen: set<string>): nat {
    if |seen| >= MAX_FILES then 0 else MAX_FILES - |seen|
  }

  ghost function NamesOf(files: Files, fs: seq<File>): set<string> {
    set f | f in fs :: files.name(f)
  }

  // The files in depth-first order of their imports, none twice and none beyond the file cap; their
  // sizes play no part.
  ghost function Order(files: Files, fd: File, seen: set<string>): seq<File>
    decreases Left(seen), 0
  {
    if |seen| >= MAX_FILES || files.name(fd) in seen then []
    else [fd] + OrderAll(files, files.deps(fd), seen + {files.name(fd)})
  }

  ghost function OrderAll(files: Files, fds: seq<File>, seen: set<string>): seq<File>
    decreases Left(seen), |fds|
  {
    if fds == [] then []
    else
      var first := Order(files, fds[0], seen);
      SubsetCount(seen, seen + NamesOf(files, first));
      first + OrderAll(files, fds[1..], seen + NamesOf(files, first))
  }

  // What a file adds to the counter.
  function Size(files: Files, f: File): nat {
    match files.raw(f) case None => 0 case Some(raw) => |raw|
  }

  function Bytes(files: Files, fs: seq<File>): nat {
    if fs == [] then 0 else Size(files, fs[0]) + Bytes(files, fs[1..])
  }

  lemma {:induction false} BytesConcat(files: Files, a: seq<File>, b: seq<File>)
    ensures Bytes(files, a + b) == Bytes(files, a) + Bytes(files, b)
  {
    if a == [] {
      assert a + b == b;
    } else {
      assert (a + b)[1..] == a[1..] + b;
      BytesConcat(files, a[1..], b);
    }
  }

  // ---------------------------------------------------------------- what the cap leaves of it

  // The files up to the first point at which the counter, from total, is at its cap or above.
  ghost function UpToCap(files: Files, total: nat, fs: seq<File>): (taken: seq<File>)
    ensures |taken| <= |fs|
    decreases |fs|
  {
    if fs == [] || total >= MAX_BYTES then []
    else [fs[0]] + UpToCap(files, total + Size(files, fs[0]), fs[1..])
  }

  lemma {:induction false} UpToCapIsPrefix(files: Files, total: nat, fs: seq<File>)
    ensures var n := |UpToCap(files, total, fs)|;
      && UpToCap(files, total, fs) == fs[..n]
      && (n < |fs| ==> total + Bytes(files, fs[..n]) >= MAX_BYTES)
      && (n > 0 ==> total + Bytes(files, fs[..n - 1]) < MAX_BYTES)
    decreases |fs|
  {
    if fs != [] && total < MAX_BYTES {
      var rest := fs[1..];
      var m := |UpToCap(files, total + Size(files, fs[0]), rest)|;
      UpToCapIsPrefix(files, total + Size(files, fs[0]), rest);
      FirstBytes(files, fs, m);
      if m > 0 {
        FirstBytes(files, fs, m - 1);
      }
    }
  }

  lemma FirstBytes(files: Files, fs: seq<File>, m: nat)
    requires fs != [] && m <= |fs[1..]|
    ensures fs[..m + 1] == [fs[0]] + fs[1..][..m]
    ensures Bytes(files, fs[..m + 1]) == Size(files, fs[0]) + Bytes(files, fs[1..][..m])
  {
    assert fs[..m + 1][1..] == fs[1..][..m];
  }

  lemma UpToCapFirst(files: Files, total: nat, x: File, rest: seq<File>)
    requires total < MAX_BYTES
    ensures UpToCap(files, total, [x] + rest) == [x] + UpToCap(files, total + Size(files, x), rest)
  {
    assert ([x] + rest)[1..] == rest;
  }

  lemma BytesFirst(files: Files, x: File, rest: seq<File>)
    ensures Bytes(files, [x] + rest) == Size(files, x) + Bytes(files, rest)
  {
    assert ([x] + rest)[1..] == rest;
  }

  // Of two stretches: all of the first and then some of the second, or only some of the first.
  ghost predicate TakenInTurn(files: Files, total: nat, a: seq<File>, b: seq<File>) {
    var x := UpToCap(files, total, a);
    if x == a then UpToCap(files, total, a + b) == a + UpToCap(files, total + Bytes(files, a), b)
    else UpToCap(files, total, a + b) == x && total + Bytes(files, x) >= MAX_BYTES
  }

  lemma TakenFirst(files: Files, total: nat, x: File, a: seq<File>, b: seq<File>)
    requires total < MAX_BYTES && TakenInTurn(files, total + Size(files, x), a, b)
    ensures TakenInTurn(files, total, [x] + a, b)
  {
    var u := UpToCap(files, total + Size(files, x), a);
    UpToCapFirst(files, total, x, a);
    UpToCapFirst(files, total, x, a + b);
    BytesFirst(files, x, a);
    BytesFirst(files, x, u);
    Regroup([x], a, b);
    Regroup([x], a, UpToCap(files, total + Size(files, x) + Bytes(files, a), b));
    SameAfterFirst(x, u, a);
  }

  lemma SameAfterFirst(x: File, u: seq<File>, a: seq<File>)
    ensures [x] + u == [x] + a <==> u == a
  {
    assert ([x] + u)[1..] == u && ([x] + a)[1..] == a;
  }

  lemma {:induction false} UpToCapConcat(files: Files, total: nat, a: seq<File>, b: seq<File>)
    ensures TakenInTurn(files, total, a, b)
    decreases |a|
  {
    if a == [] {
      assert a + b == b && a + UpToCap(files, total, b) == UpToCap(files, total, b);
    } else if total < MAX_BYTES {
      UpToCapConcat(files, total + Size(files, a[0]), a[1..], b);
      TakenFirst(files, total, a[0], a[1..], b);
      assert a == [a[0]] + a[1..];
    }
  }

  // The walk has taken these files.
  ghost predicate Took(files: Files, b: Bag, fs: seq<File>, r: Bag) {
    r.total == b.total + Bytes(files, fs) && r.fetched == b.fetched + NamesOf(files, fs)
  }

  lemma TookBoth(files: Files, b: Bag, x: seq<File>, m: Bag, y: seq<File>, r: Bag)
    requires Took(files, b, x, m) && Took(files, m, y, r)
    ensures Took(files, b, x + y, r)
  {
    BytesConcat(files, x, y);
    assert NamesOf(files, x + y) == NamesOf(files, x) + NamesOf(files, y);
  }

  lemma TookFirst(files: Files, fd: File, b: Bag, rest: seq<File>, r: Bag)
    requires b.total < MAX_BYTES && files.name(fd) !in b.fetched
    requires Took(files, Take(files, fd, b), UpToCap(files, Take(files, fd, b).total, rest), r)
    ensures Took(files, b, UpToCap(files, b.total, [fd] + rest), r)
  {
    var t := Take(files, fd, b);
    TookOne(files, fd, b);
    UpToCapFirst(files, b.total, fd, rest);
    TookBoth(files, b, [fd], t, UpToCap(files, t.total, rest), r);
  }

  lemma TookAllFirst(files: Files, b: Bag, first: seq<File>, m: Bag, rest: seq<File>, r: Bag)
    requires UpToCap(files, b.total, first) == first && Took(files, b, first, m)
    requires Took(files, m, UpToCap(files, m.total, rest), r)
    ensures Took(files, b, UpToCap(files, b.total, first + rest), r)
  {
    UpToCapConcat(files, b.total, first, rest);
    TookBoth(files, b, first, m, UpToCap(files, m.total, rest), r);
  }

  lemma TookSomeFirst(files: Files, b: Bag, first: seq<File>, m: Bag, rest: seq<File>)
    requires UpToCap(files, b.total, first) != first && Took(files, b, UpToCap(files, b.total, first), m)
    ensures Took(files, b, UpToCap(files, b.total, first + rest), m) && Spent(m)
  {
    UpToCapConcat(files, b.total, first, rest);
  }

  // A walk takes the files of the uncapped order up to the cap.
  lemma {:induction false} WalkTakes(files: Files, fd: File, b: Bag)
    ensures Took(files, b, UpToCap(files, b.total, Order(files, fd, b.fetched)), Walk(files, fd, b))
    decreases Room(b), 0
  {
    if !Spent(b) && files.name(fd) !in b.fetched {
      var t := Take(files, fd, b);
      WalkAllTakes(files, files.deps(fd), t);
      TookFirst(files, fd, b, OrderAll(files, files.deps(fd), t.fetched), Walk(files, fd, b));
    } else {
      TookNone(files, b);
    }
  }

  lemma TookOne(files: Files, fd: File, b: Bag)
    requires files.name(fd) !in b.fetched
    ensures Took(files, b, [fd], Take(files, fd, b)) && Take(files, fd, b).total == b.total + Size(files, fd)
    ensures Take(files, fd, b).fetched == b.fetched + {files.name(fd)}
  {
    assert [fd][1..] == [];
  }

  lemma TookNone(files: Files, b: Bag)
    ensures Took(files, b, [], b)
  {
  }

  lemma {:induction false} WalkAllTakes(files: Files, fds: seq<File>, b: Bag)
    ensures Took(files, b, UpToCap(files, b.total, OrderAll(files, fds, b.fetched)), WalkAll(files, fds, b))
    decreases Room(b), |fds|
  {
    if fds == [] {
      TookNone(files, b);
    } else {
      var first, m := Order(files, fds[0], b.fetched), Walk(files, fds[0], b);
      var rest := OrderAll(files, fds[1..], b.fetched + NamesOf(files, first));
      WalkTakes(files, fds[0], b);
      if UpToCap(files, b.total, first) == first {
        WalkAllTakes(files, fds[1..], m);
        TookAllFirst(files, b, first, m, rest, WalkAll(files, fds, b));
      } else {
        TookSomeFirst(files, b, first, m, rest);
        SpentStays(files, fds[1..], m);
      }
    }
  }

  lemma {:induction false} SpentStays(files: Files, fds: seq<File>, b: Bag)
    requires Spent(b)
    ensures WalkAll(files, fds, b) == b
    decreases |fds|
  {
    if fds != [] {
      SpentStays(files, fds[1..], b);
    }
  }

  // ---------------------------------------------------------------- the file that crosses the cap

  // The file number k is below the cap before, and above it after.
  ghost predicate CrossesAt(files: Files, total: nat, fs: seq<File>, k: nat)
    requires k < |fs|
  {
    total + Bytes(files, fs[..k]) < MAX_BYTES < total + Bytes(files, fs[..k + 1])
  }

  lemma BytesGrow(files: Files, fs: seq<File>, k: nat, l: nat)
    requires k <= l <= |fs|
    ensures Bytes(files, fs[..k]) <= Bytes(files, fs[..l])
  {
    assert fs[..l] == fs[..k] + fs[k..l];
    BytesConcat(files, fs[..k], fs[k..l]);
  }

  lemma CrossingIsLast(files: Files, total: nat, fs: seq<File>, k: nat)
    requires k < |fs| && CrossesAt(files, total, fs, k)
    ensures k + 1 == |UpToCap(files, total, fs)|
  {
    var n := |UpToCap(files, total, fs)|;
    UpToCapIsPrefix(files, total, fs);
    if n <= k {
      BytesGrow(files, fs, n, k);
    } else if n > k + 1 {
      BytesGrow(files, fs, k + 1, n - 1);
    }
  }

  lemma TotalIs(files: Files, fd: File, b: Bag)
    ensures var o := Order(files, fd, b.fetched);
      Walk(files, fd, b).total == b.total + Bytes(files, o[..|UpToCap(files, b.total, o)|])
  {
    WalkTakes(files, fd, b);
    UpToCapIsPrefix(files, b.total, Order(files, fd, b.fetched));
  }

  // Taking files up to the cap ends above it if and only if one of them crosses it.
  lemma CrossesIfAbove(files: Files, total: nat, fs: seq<File>)
    requires total <= MAX_BYTES
    ensures total + Bytes(files, fs[..|UpToCap(files, total, fs)|]) > MAX_BYTES <==>
            exists k: nat :: k < |fs| && CrossesAt(files, total, fs, k)
  {
    var n := |UpToCap(files, total, fs)|;
    UpToCapIsPrefix(files, total, fs);
    if total + Bytes(files, fs[..n]) > MAX_BYTES {
      assert CrossesAt(files, total, fs, n - 1);
    }
    forall k: nat | k < |fs| && CrossesAt(files, total, fs, k) ensures k + 1 == n {
      CrossingIsLast(files, total, fs, k);
    }
  }

  // The counter ends above its cap if and only if, in the order of the walk without that cap, some
  // file crosses it.
  lemma CapPassed(files: Files, fd: File, b: Bag)
    requires b.total <= MAX_BYTES
    ensures var o := Order(files, fd, b.fetched);
      Walk(files, fd, b).total > MAX_BYTES <==> exists k: nat :: k < |o| && CrossesAt(files, b.total, o, k)
  {
    TotalIs(files, fd, b);
    CrossesIfAbove(files, b.total, Order(files, fd, b.fetched));
  }

  // ---------------------------------------------------------------- when all fits

  // sizes holds, under its name, every file in reach that serialises.
  ghost predicate Holds(files: Files, sizes: map<string, bytes>, fd: File) {
    forall f: File :: Reaches(files, fd, f) && files.raw(f).Some? ==>
      files.name(f) in sizes && sizes[files.name(f)] == files.raw(f).value
  }

  // What is in out was there before, or is in sizes.
  ghost predicate Within(m: map<string, bytes>, a: map<string, bytes>, b: map<string, bytes>) {
    forall k :: k in m ==> (k in a && a[k] == m[k]) || (k in b && b[k] == m[k])
  }

  lemma {:induction false} WalkWithin(files: Files, fd: File, b: Bag, before: map<string, bytes>, sizes: map<string, bytes>)
    requires Holds(files, sizes, fd) && Within(b.out, before, sizes)
    ensures Within(Walk(files, fd, b).out, before, sizes)
    decreases Room(b), 0
  {
    if !Spent(b) && files.name(fd) !in b.fetched {
      ReachesSelf(files, fd);
      forall d, f: File | d in files.deps(fd) && Reaches(files, d, f) ensures Reaches(files, fd, f) {
        ReachesThrough(files, fd, d, f);
      }
      WalkAllWithin(files, files.deps(fd), Take(files, fd, b), before, sizes);
    }
  }

  lemma {:induction false} WalkAllWithin(files: Files, fds: seq<File>, b: Bag, before: map<string, bytes>, sizes: map<string, bytes>)
    requires (forall d :: d in fds ==> Holds(files, sizes, d)) && Within(b.out, before, sizes)
    ensures Within(WalkAll(files, fds, b).out, before, sizes)
    decreases Room(b), |fds|
  {
    if fds != [] {
      WalkWithin(files, fds[0], b, before, sizes);
      WalkAllWithin(files, fds[1..], Walk(files, fds[0], b), before, sizes);
    }
  }

  lemma {:induction false} SizesWithin(m: map<string, bytes>, a: map<string, bytes>, b: map<string, bytes>)
    requires Within(m, a, b)
    ensures Sizes(m) <= Sizes(a) + Sizes(b)
    decreases |m|
  {
    if m != map[] {
      var k :| k in m;
      SizesWithout(m, k);
      if k in a && a[k] == m[k] {
        SizesWithout(a, k);
        SizesWithin(m - {k}, a - {k}, b);
      } else {
        SizesWithout(b, k);
        SizesWithin(m - {k}, a, b - {k});
      }
    }
  }

  // If all that a file reaches fits beside what is already kept, the walk stays within the cap.
  lemma FittingStaysWithin(files: Files, fd: File, b: Bag, sizes: map<string, bytes>)
    requires WithinBudget(b) && Holds(files, sizes, fd) && b.total + Sizes(sizes) <= MAX_BYTES
    ensures Walk(files, fd, b).total <= MAX_BYTES
  {
    WalkKeepsBudget(files, fd, b);
    WalkWithin(files, fd, b, b.out, sizes);
    SizesWithin(Walk(files, fd, b).out, b.out, sizes);
  }

  // ---------------------------------------------------------------- a walk past the cap

  const THREE_MIB := 3 * 1024 * 1024

  // 22 files of 3 MiB, each but the last importing the next; each fits in one message of 4 MiB.
  function Row(): Files {
    Files((f: File) => seq(f + 1, _ => 'a'), (f: File) => if f < 21 then [f + 1] else [],
          (f: File) => Some(seq(THREE_MIB, _ => 0)))
  }

  lemma RowTake(fd: File, b: Bag)
    requires |b.fetched| == fd <= 21 && b.total == fd * THREE_MIB && forall n :: n in b.fetched ==> |n| <= fd
    ensures !Spent(b) && Row().name(fd) !in b.fetched
    ensures var t := Take(Row(), fd, b);
      |t.fetched| == fd + 1 && t.total == (fd + 1) * THREE_MIB && forall n :: n in t.fetched ==> |n| <= fd + 1
  {
    assert |Row().name(fd)| == fd + 1;
  }

  lemma RowStep(fd: File, b: Bag)
    requires fd <= 21 && !Spent(b) && Row().name(fd) !in b.fetched
    ensures Walk(Row(), fd, b) == if fd < 21 then Walk(Row(), fd + 1, Take(Row(), fd, b)) else Take(Row(), fd, b)
  {
    var t, deps := Take(Row(), fd, b), Row().deps(fd);
    if fd < 21 {
      assert deps == [fd + 1] && deps[1..] == [];
      assert WalkAll(Row(), deps, t) == WalkAll(Row(), [], Walk(Row(), fd + 1, t));
    }
  }

  lemma {:induction false} RowWalk(fd: File, b: Bag)
    requires |b.fetched| == fd <= 21 && b.total == fd * THREE_MIB && forall n :: n in b.fetched ==> |n| <= fd
    ensures Walk(Row(), fd, b).total == 22 * THREE_MIB
    decreases 21 - fd
  {
    RowTake(fd, b);
    RowStep(fd, b);
    if fd < 21 {
      RowWalk(fd + 1, Take(Row(), fd, b));
    }
  }

  lemma RowNames()
    ensures OneFileAName(Row()) && forall f: File :: Row().name(f) != ""
  {
    forall f: File ensures |Row().name(f)| == f + 1 {
    }
    forall f: File, g: File | Row().name(f) == Row().name(g) ensures f == g {
      assert |Row().name(f)| == f + 1 && |Row().name(g)| == g + 1;
    }
  }

  lemma EmptyBudget()
    ensures WithinBudget(EMPTY)
  {
  }

  // 21 files come to 63 MiB, and the 22nd is taken whole.
  lemma CapIsPassed()
    ensures Walk(Row(), 0, EMPTY).total == MAX_BYTES + 2 * 1024 * 1024
    ensures OneFileAName(Row()) && WithinBudget(EMPTY)
    ensures forall f: File, d: File :: f < 22 && d in Row().deps(f) ==> d < 22
  {
    RowWalk(0, EMPTY);
    RowNames();
    EmptyBudget();
  }
}
