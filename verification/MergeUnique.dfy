/** The ordered, capped merge of query parameter values (pkg/classify/classifier.go, MergeUniqueOrdered). */
module MergeUnique {
  import opened Basics
  import opened ByteStrings

  const MAX_VALUES := 256

  // The first occurrence of each value, in order.
  ghost function Unique(s: seq<bytes>): seq<bytes> {
    if s == [] then []
    else
      var u, v := Unique(s[..|s| - 1]), s[|s| - 1];
      if v in u then u else u + [v]
  }

  ghost function Cap(s: seq<bytes>): seq<bytes> {
    if |s| <= 256 then s else s[..256]
  }

  ghost function Merge(a: seq<bytes>, b: seq<bytes>): seq<bytes> {
    Cap(Unique(a + b))
  }

  ghost predicate Distinct(s: seq<bytes>) {
    forall i, j :: 0 <= i < j < |s| ==> s[i] != s[j]
  }

  ghost function Values(s: seq<bytes>): set<bytes> {
    set v | v in s
  }

  lemma {:induction false} UniqueIsDistinct(s: seq<bytes>)
    ensures Distinct(Unique(s)) && Values(Unique(s)) == Values(s)
  {
    if s != [] {
      var t, v := s[..|s| - 1], s[|s| - 1];
      UniqueIsDistinct(t);
      assert s == t + [v];
      assert Values(s) == Values(t) + {v};
      assert Values(Unique(t) + [v]) == Values(Unique(t)) + {v};
      assert v in Values(Unique(t)) <==> v in Unique(t);
    }
  }

  // ---------------------------------------------------------------- one value at a time

  // One turn of either loop, and what returning at the cap amounts to.
  function Add(out: seq<bytes>, v: bytes): seq<bytes> {
    if |out| >= MAX_VALUES || v in out then out else out + [v]
  }

  ghost function AddAll(out: seq<bytes>, s: seq<bytes>): seq<bytes> {
    if s == [] then out else Add(AddAll(out, s[..|s| - 1]), s[|s| - 1])
  }

  lemma {:induction false} AddAllConcat(out: seq<bytes>, a: seq<bytes>, b: seq<bytes>)
    ensures AddAll(out, a + b) == AddAll(AddAll(out, a), b)
    decreases |b|
  {
    if b == [] {
      assert a + b == a;
    } else {
      assert (a + b)[..|a + b| - 1] == a + b[..|b| - 1];
      AddAllConcat(out, a, b[..|b| - 1]);
    }
  }

  lemma {:induction false} AddAllIsCapped(s: seq<bytes>)
    ensures AddAll([], s) == Cap(Unique(s))
  {
    if s != [] {
      AddAllIsCapped(s[..|s| - 1]);
      var u, v := Unique(s[..|s| - 1]), s[|s| - 1];
      assert |u| < MAX_VALUES ==> Cap(u) == u;
      assert |u| == MAX_VALUES ==> Cap(u + [v]) == u;
      assert |u| > MAX_VALUES ==> (u + [v])[..MAX_VALUES] == u[..MAX_VALUES];
    }
  }

  // Once full, nothing more is added.
  lemma {:induction false} FullStays(out: seq<bytes>, s: seq<bytes>)
    requires |out| >= MAX_VALUES
    ensures AddAll(out, s) == out
  {
    if s != [] {
      FullStays(out, s[..|s| - 1]);
    }
  }

  lemma {:induction false} AddAllKeeps(out: seq<bytes>, s: seq<bytes>)
    ensures Distinct(out) ==> Distinct(AddAll(out, s))
    ensures |out| <= MAX_VALUES ==> |AddAll(out, s)| <= MAX_VALUES
    ensures |AddAll(out, s)| < MAX_VALUES ==> forall v :: v in s ==> v in AddAll(out, s)
  {
    if s != [] {
      AddAllKeeps(out, s[..|s| - 1]);
      assert s == s[..|s| - 1] + [s[|s| - 1]];
    }
  }

  lemma {:induction false} DistinctCount(s: seq<bytes>)
    requires Distinct(s)
    ensures |Values(s)| == |s|
  {
    if s != [] {
      var t, v := s[..|s| - 1], s[|s| - 1];
      DistinctCount(t);
      assert s == t + [v];
      assert Values(s) == Values(t) + {v};
    }
  }

  // A full list of distinct values fills any list it is added to.
  lemma FullFills(out: seq<bytes>, s: seq<bytes>)
    requires Distinct(out) && Distinct(s) && |s| >= MAX_VALUES
    ensures |AddAll(out, s)| >= MAX_VALUES
  {
    var t := AddAll(out, s);
    AddAllKeeps(out, s);
    if |t| < MAX_VALUES {
      DistinctCount(s);
      DistinctCount(t);
      SubsetCount(Values(s), Values(t));
    }
  }

  // Adding a list's first 256 distinct values adds the same as the whole list.
  lemma {:induction false} CappedAddsTheSame(out: seq<bytes>, s: seq<bytes>)
    requires Distinct(out)
    ensures AddAll(out, AddAll([], s)) == AddAll(out, s)
  {
    if s != [] {
      var t, v := s[..|s| - 1], s[|s| - 1];
      CappedAddsTheSame(out, t);
      var u := AddAll([], t);
      AddAllKeeps([], t);
      AddAllKeeps(out, u);
      if v in u {
      } else if |u| >= MAX_VALUES {
        FullFills(out, u);
      } else {
        assert (u + [v])[..|u|] == u;
      }
    }
  }

  lemma MergeIsAddAll(a: seq<bytes>, b: seq<bytes>)
    ensures Merge(a, b) == AddAll(AddAll([], a), b) == AddAll([], a + b)
  {
    AddAllIsCapped(a + b);
    AddAllConcat([], a, b);
  }

  // Truncating the left operand loses nothing the result needs, nor does truncating the right.
  lemma MergedOnTheLeft(x: seq<bytes>, c: seq<bytes>)
    ensures Merge(Cap(Unique(x)), c) == Cap(Unique(x + c))
  {
    AddAllIsCapped(x);
    var u := AddAll([], x);
    MergeIsAddAll(u, c);
    MergeIsAddAll(x, c);
    CappedAddsTheSame([], x);
  }

  lemma MergedOnTheRight(a: seq<bytes>, y: seq<bytes>)
    ensures Merge(a, Cap(Unique(y))) == Cap(Unique(a + y))
  {
    AddAllIsCapped(y);
    var u := AddAll([], y);
    MergeIsAddAll(a, u);
    MergeIsAddAll(a, y);
    AddAllKeeps([], a);
    CappedAddsTheSame(AddAll([], a), y);
  }

  // Merging is associative although every intermediate result is capped.
  lemma MergeAssociative(a: seq<bytes>, b: seq<bytes>, c: seq<bytes>)
    ensures Merge(Merge(a, b), c) == Merge(a, Merge(b, c))
  {
    MergedOnTheLeft(a + b, c);
    MergedOnTheRight(a, b + c);
    assert a + (b + c) == a + b + c;
  }

  // Nothing is lost below the cap, nothing is made up, and the order is that of first sight.
  lemma MergeValues(a: seq<bytes>, b: seq<bytes>)
    ensures Distinct(Merge(a, b)) && |Merge(a, b)| <= 256
    ensures Values(Merge(a, b)) <= Values(a) + Values(b)
    ensures |Values(a) + Values(b)| <= 256 ==> Values(Merge(a, b)) == Values(a) + Values(b)
  {
    var u := Unique(a + b);
    UniqueIsDistinct(a + b);
    assert Values(a + b) == Values(a) + Values(b);
    DistinctCount(u);
    forall v | v in Values(Merge(a, b)) ensures v in Values(u) {
      assert v in u;
    }
  }

  // One turn of a loop that adds s to start.
  lemma AddsNext(start: seq<bytes>, s: seq<bytes>, i: nat, out: seq<bytes>)
    requires i < |s| && out == AddAll(start, s[..i]) && |out| < MAX_VALUES
    ensures AddAll(start, s[..i + 1]) == if s[i] in out then out else out + [s[i]]
    ensures Values(out + [s[i]]) == Values(out) + {s[i]}
  {
    assert s[..i + 1][..i] == s[..i];
  }

  // Returning at the cap leaves nothing out.
  lemma FullIsAll(start: seq<bytes>, s: seq<bytes>, i: nat, out: seq<bytes>)
    requires i <= |s| && out == AddAll(start, s[..i]) && |out| >= MAX_VALUES
    ensures AddAll(start, s) == out
  {
    AddAllConcat(start, s[..i], s[i..]);
    assert s == s[..i] + s[i..];
    FullStays(out, s[i..]);
  }

  method MergeUniqueOrdered(a: seq<bytes>, b: seq<bytes>) returns (out: seq<bytes>)
    ensures out == Merge(a, b)
  {
    MergeIsAddAll(a, b);
    if |a| == 0 && |b| == 0 {
      return [];
    }
    out := [];
    var seen: set<bytes> := {};
    for i := 0 to |a|
      invariant out == AddAll([], a[..i]) && |out| < MAX_VALUES && seen == Values(out)
    {
      AddsNext([], a, i, out);
      if a[i] !in seen {
        seen := seen + {a[i]};
        out := out + [a[i]];
        if |out| >= MAX_VALUES {
          FullIsAll([], a, i + 1, out);
          FullStays(out, b);
          return;
        }
      }
    }
    assert a[..|a|] == a;
    for i := 0 to |b|
      invariant out == AddAll(AddAll([], a), b[..i]) && |out| < MAX_VALUES && seen == Values(out)
    {
      AddsNext(AddAll([], a), b, i, out);
      if b[i] !in seen {
        seen := seen + {b[i]};
        out := out + [b[i]];
        if |out| >= MAX_VALUES {
          FullIsAll(AddAll([], a), b, i + 1, out);
          return;
        }
      }
    }
    assert b[..|b|] == b;
  }
}
