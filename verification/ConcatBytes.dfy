/**
 Which paths cleanConcatPath (pkg/crawl/jsreplay.go) accepts and which it leaves as they are, said of
 the bytes themselves.
 */
module ConcatBytes {
  import opened ByteStrings
  import opened ConcatPath

  // ---------------------------------------------------------------- where things are

  // p is path and then suffix, which is empty or starts with the first of ? and #.
  ghost predicate SplitsInto(p: bytes, path: bytes, suffix: bytes) {
    && p == path + suffix && (forall i :: 0 <= i < |path| ==> path[i] != 63 && path[i] != 35)
    && (suffix != [] ==> suffix[0] == 63 || suffix[0] == 35)
  }

  lemma {:induction false} NoMarksIs(s: bytes)
    ensures NoMarks(s) <==> forall i :: 0 <= i < |s| ==> s[i] != 63 && s[i] != 35
  {
    if s != [] {
      NoMarksIs(s[1..]);
      assert forall i :: 0 < i < |s| ==> s[i] == s[1..][i - 1];
      assert forall i :: 0 <= i < |s| - 1 ==> s[1..][i] == s[i + 1];
    }
  }

  lemma SuffixIs(p: bytes, path: bytes, suffix: bytes)
    ensures SplitsInto(p, path, suffix) <==> path == p[..SuffixAt(p)] && suffix == p[SuffixAt(p)..]
  {
    var n := SuffixAt(p);
    NoMarksBefore(p);
    NoMarksIs(p[..n]);
    if SplitsInto(p, path, suffix) {
      NoMarksIs(path);
      SuffixAtJoin(path, suffix);
    }
  }

  // "://" stands in s at i.
  ghost predicate SchemeEndAt(s: bytes, i: nat) {
    i + 3 <= |s| && s[i] == 58 && s[i + 1] == 47 && s[i + 2] == 47
  }

  ghost predicate FirstScheme(s: bytes, n: nat) {
    SchemeEndAt(s, n) && forall i: nat :: i < n ==> !SchemeEndAt(s, i)
  }

  lemma {:induction false} SchemeIs(s: bytes)
    ensures SchemeAt(s) < |s| ==> FirstScheme(s, SchemeAt(s))
    ensures SchemeAt(s) == |s| ==> forall i: nat :: !SchemeEndAt(s, i)
  {
    if |s| >= 3 {
      assert s[..3] == SCHEME_END <==> SchemeEndAt(s, 0);
      if s[..3] != SCHEME_END {
        SchemeIs(s[1..]);
        forall i: nat ensures i > 0 ==> SchemeEndAt(s, i) == SchemeEndAt(s[1..], i - 1) {
        }
      }
    }
  }

  // ---------------------------------------------------------------- runs of slashes

  // Two slashes stand together at i.
  ghost predicate RunAt(s: bytes, i: nat) {
    i + 1 < |s| && s[i] == 47 && s[i + 1] == 47
  }

  lemma {:induction false} HasDoubleIs(s: bytes)
    ensures HasDouble(s) <==> exists i: nat :: RunAt(s, i)
  {
    if |s| >= 2 {
      HasDoubleIs(s[1..]);
      if i: nat :| RunAt(s[1..], i) {
        assert RunAt(s, i + 1);
      }
      if i: nat :| RunAt(s, i) {
        assert i == 0 || RunAt(s[1..], i - 1);
      }
      assert RunAt(s, 0) <==> s[0] == SLASH && s[1] == SLASH;
    }
  }

  // A slash more in a run of them makes no difference to what they collapse to.
  lemma {:induction false} RunsMerge(a: bytes, b: bytes)
    ensures Collapse(a + ([47, 47] + b)) == Collapse(a + ([47] + b))
  {
    if a == [] {
      assert a + ([47, 47] + b) == [47, 47] + b && a + ([47] + b) == [47] + b;
      assert ([47, 47] + b)[1..] == [47] + b;
    } else {
      RunsMerge(a[1..], b);
      assert a + ([47, 47] + b) == [a[0]] + (a[1..] + ([47, 47] + b));
      assert a + ([47] + b) == [a[0]] + (a[1..] + ([47] + b));
      CollapsePut(a[0], a[1..] + ([47, 47] + b));
      CollapsePut(a[0], a[1..] + ([47] + b));
    }
  }

  // No slash after another, but before or in the first "://".
  ghost predicate SingleSlashes(path: bytes) {
    forall i: nat :: RunAt(path, i) ==> exists n: nat :: FirstScheme(path, n) && i < n + 3
  }

  // And none at the end.
  ghost predicate Tidy(path: bytes) {
    SingleSlashes(path) && (path != [] ==> path[|path| - 1] != 47)
  }

  lemma FirstIsOnly(s: bytes, m: nat, n: nat)
    requires FirstScheme(s, m) && FirstScheme(s, n)
    ensures m == n
  {
  }

  lemma SqueezeKeeps(path: bytes)
    ensures Squeeze(path) == path <==> SingleSlashes(path)
    ensures |Squeeze(path)| <= |path|
  {
    var n := SchemeAt(path);
    SchemeIs(path);
    if n < |path| {
      var rest := path[n + 3..];
      SplitAtScheme(path);
      CollapseKeepsSingle(rest);
      HasDoubleIs(rest);
      HeadKept(path[..n] + SCHEME_END, Collapse(rest), rest);
      forall i: nat ensures i >= n + 3 ==> RunAt(path, i) == RunAt(rest, i - (n + 3)) {
      }
      if i: nat :| RunAt(rest, i) {
        assert RunAt(path, i + (n + 3));
        forall m: nat | FirstScheme(path, m) ensures m == n {
          FirstIsOnly(path, m, n);
        }
      }
    } else {
      CollapseKeepsSingle(path);
      HasDoubleIs(path);
    }
  }

  lemma HeadKept(a: bytes, s: bytes, t: bytes)
    ensures a + s == a + t <==> s == t
  {
    assert (a + s)[|a|..] == s && (a + t)[|a|..] == t;
  }

  lemma TrimIs(s: bytes)
    ensures Trim(s) == s <==> (s != [] ==> s[|s| - 1] != 47)
  {
  }

  lemma CleanPathKeeps(path: bytes)
    ensures CleanPath(path) == path <==> Tidy(path)
  {
    SqueezeKeeps(path);
    var s := Squeeze(path);
    TrimIs(s);
    if CleanPath(path) == path {
      assert |s| == |path| && s[..|path|] == path && s == path;
    }
  }

  // ---------------------------------------------------------------- the bytes allowed

  // Every printable byte but the space and "#%&<=>?\^`, of which # & = ? may stand after the first
  // ? or #.
  ghost predicate Admitted(c: byte, inSuffix: bool) {
    && 33 <= c <= 126 && c != 34 && c != 37 && c != 60 && c != 62 && c != 92 && c != 94 && c != 96
    && (c == 35 || c == 38 || c == 61 || c == 63 ==> inSuffix)
  }

  ghost predicate IsHex(c: byte) {
    48 <= c <= 57 || 65 <= c <= 70 || 97 <= c <= 102
  }

  // A byte as it stands, or %hl.
  datatype Token = Plain(c: byte) | Escape(h: byte, l: byte)

  // %20 to %7e.
  ghost predicate TokenFits(t: Token, inSuffix: bool) {
    match t
    case Plain(c) => Admitted(c, inSuffix)
    case Escape(h, l) => 50 <= h <= 55 && IsHex(l) && (h == 55 ==> l != 70 && l != 102)
  }

  ghost predicate TokensFit(ts: seq<Token>, inSuffix: bool) {
    forall i :: 0 <= i < |ts| ==> TokenFits(ts[i], inSuffix)
  }

  ghost function Write(ts: seq<Token>): bytes {
    if ts == [] then []
    else (match ts[0] case Plain(c) => [c] case Escape(h, l) => [37, h, l]) + Write(ts[1..])
  }

  ghost predicate Acceptable(s: bytes, inSuffix: bool) {
    exists ts :: Write(ts) == s && TokensFit(ts, inSuffix)
  }

  lemma AdmittedIs(c: byte, inSuffix: bool)
    ensures IsAllowedByte(c, inSuffix) <==> Admitted(c, inSuffix)
  {
  }

  lemma EscapeIs(h: byte, l: byte)
    ensures ValidEscape(h, l) <==> TokenFits(Escape(h, l), false)
  {
  }

  lemma {:induction false} WrittenIsAllowed(ts: seq<Token>, inSuffix: bool)
    requires TokensFit(ts, inSuffix)
    ensures AllowedBytes(Write(ts), inSuffix)
  {
    if ts != [] {
      assert TokenFits(ts[0], inSuffix);
      WrittenIsAllowed(ts[1..], inSuffix);
      match ts[0]
      case Plain(c) =>
        AdmittedIs(c, inSuffix);
        assert ([c] + Write(ts[1..]))[1..] == Write(ts[1..]);
      case Escape(h, l) =>
        EscapeIs(h, l);
        assert ([37, h, l] + Write(ts[1..]))[3..] == Write(ts[1..]);
    }
  }

  lemma {:induction false} AllowedIsWritten(s: bytes, inSuffix: bool) returns (ts: seq<Token>)
    requires AllowedBytes(s, inSuffix)
    ensures Write(ts) == s && TokensFit(ts, inSuffix)
  {
    if s == [] {
      ts := [];
    } else if s[0] != 37 {
      var rest := AllowedIsWritten(s[1..], inSuffix);
      ts := [Plain(s[0])] + rest;
      AdmittedIs(s[0], inSuffix);
      assert ts[1..] == rest && [s[0]] + s[1..] == s;
    } else {
      var rest := AllowedIsWritten(s[3..], inSuffix);
      ts := [Escape(s[1], s[2])] + rest;
      EscapeIs(s[1], s[2]);
      assert ts[1..] == rest && [37, s[1], s[2]] + s[3..] == s;
    }
  }

  lemma AllowedExactly(s: bytes, inSuffix: bool)
    ensures AllowedBytes(s, inSuffix) <==> Acceptable(s, inSuffix)
  {
    if AllowedBytes(s, inSuffix) {
      var ts := AllowedIsWritten(s, inSuffix);
    }
    if ts :| Write(ts) == s && TokensFit(ts, inSuffix) {
      WrittenIsAllowed(ts, inSuffix);
    }
  }

  // ---------------------------------------------------------------- what is kept

  // Exactly the tidy paths of acceptable bytes with an API indicator are returned as they are.
  lemma KeptExactly(p: bytes, path: bytes, suffix: bytes, api: bytes -> bool)
    requires p != [] && SplitsInto(p, path, suffix)
    ensures Clean(p, api) == p <==> Tidy(path) && api(p) && Acceptable(path, false) && Acceptable(suffix, true)
  {
    SuffixIs(p, path, suffix);
    CleanPathKeeps(path);
    AllowedExactly(path, false);
    AllowedExactly(suffix, true);
    if Clean(p, api) == p {
      SameSuffix(CleanPath(path), path, suffix);
    }
  }

  // What is refused: a path without an indicator or with bytes that are not acceptable once it is tidied.
  lemma RefusedExactly(p: bytes, path: bytes, suffix: bytes, api: bytes -> bool)
    requires SplitsInto(p, path, suffix)
    ensures var q := CleanPath(path);
      Clean(p, api) == [] <==>
        q + suffix == [] || !api(q + suffix) || !Acceptable(q, false) || !Acceptable(suffix, true)
  {
    SuffixIs(p, path, suffix);
    AllowedExactly(CleanPath(path), false);
    AllowedExactly(suffix, true);
  }
}
