/** Cleaning a reconstructed path: cleanConcatPath and allowedConcatBytes of pkg/crawl/jsreplay.go. */
module ConcatPath {
  import opened ByteStrings

  const SLASH: byte := 47
  const COLON: byte := 58
  const PERCENT: byte := 37

  const SCHEME_END: bytes := [COLON, SLASH, SLASH]

  predicate IsMark(c: byte) {
    c == 63 || c == 35
  }

  // Where the query or fragment starts.
  function SuffixAt(p: bytes): (n: nat)
    ensures n <= |p|
  {
    if p == [] || IsMark(p[0]) then 0 else 1 + SuffixAt(p[1..])
  }

  // Where the first "://" starts, or the length when there is none.
  function SchemeAt(p: bytes): (n: nat)
    ensures n < |p| ==> n + 3 <= |p| && p[n..n + 3] == SCHEME_END
    ensures n <= |p|
  {
    if |p| < 3 then |p|
    else if p[..3] == SCHEME_END then 0
    else
      var n := SchemeAt(p[1..]);
      assert n < |p| - 1 ==> p[1..][n..n + 3] == p[n + 1..n + 4];
      1 + n
  }

  // strings.Contains(s, "//").
  predicate HasDouble(s: bytes) {
    |s| >= 2 && ((s[0] == SLASH && s[1] == SLASH) || HasDouble(s[1..]))
  }

  // strings.ReplaceAll(s, "//", "/"): each match is looked for after the previous one.
  function Halve(s: bytes): bytes {
    if |s| < 2 then s
    else if s[0] == SLASH && s[1] == SLASH then [SLASH] + Halve(s[2..])
    else [s[0]] + Halve(s[1..])
  }

  // Each run of slashes made one.
  function Collapse(s: bytes): bytes {
    if |s| < 2 then s
    else if s[0] == SLASH && s[1] == SLASH then Collapse(s[1..])
    else [s[0]] + Collapse(s[1..])
  }

  // strings.TrimRight(s, "/").
  function Trim(s: bytes): (t: bytes)
    ensures t == [] || t[|t| - 1] != SLASH
    ensures t <= s && forall i :: |t| <= i < |s| ==> s[i] == SLASH
  {
    if s != [] && s[|s| - 1] == SLASH then Trim(s[..|s| - 1]) else s
  }

  // Without runs of slashes, but for those of the scheme.
  function Squeeze(path: bytes): bytes {
    var n := SchemeAt(path);
    if n < |path| then path[..n] + SCHEME_END + Collapse(path[n + 3..]) else Collapse(path)
  }

  function CleanPath(path: bytes): bytes {
    Trim(Squeeze(path))
  }

  // ---------------------------------------------------------------- the bytes allowed

  predicate IsAllowedByte(c: byte, inSuffix: bool) {
    || 97 <= c <= 122 || 65 <= c <= 90 || 48 <= c <= 57
    || c == 47 || c == 95 || c == 45 || c == 46 || c == 58 || c == 123 || c == 125 || c == 126 || c == 64 || c == 33
    || c == 36 || c == 39 || c == 40 || c == 41 || c == 42 || c == 43 || c == 44 || c == 59
    || c == 91 || c == 93 || c == 124
    || ((c == 63 || c == 61 || c == 38 || c == 35) && inSuffix)
  }

  function HexDigit(c: byte): (d: int)
    ensures -1 <= d < 16
  {
    if 48 <= c <= 57 then c - 48
    else if 97 <= c <= 102 then c - 87
    else if 65 <= c <= 70 then c - 55
    else -1
  }

  // The byte a percent-escape stands for.
  function Escaped(hi: byte, lo: byte): Option<byte> {
    if HexDigit(hi) < 0 || HexDigit(lo) < 0 then None else Some(HexDigit(hi) * 16 + HexDigit(lo))
  }

  predicate ValidEscape(hi: byte, lo: byte) {
    Escaped(hi, lo).Some? && 0x20 <= Escaped(hi, lo).value <= 0x7E
  }

  predicate AllowedBytes(s: bytes, inSuffix: bool) {
    if s == [] then true
    else if s[0] != PERCENT then IsAllowedByte(s[0], inSuffix) && AllowedBytes(s[1..], inSuffix)
    else |s| >= 3 && ValidEscape(s[1], s[2]) && AllowedBytes(s[3..], inSuffix)
  }

  // hasAPIIndicator is the parameter api.
  function Clean(p: bytes, api: bytes -> bool): bytes {
    var n := SuffixAt(p);
    var path, suffix := CleanPath(p[..n]), p[n..];
    var q := path + suffix;
    if q == [] || !api(q) || !AllowedBytes(path, false) || !AllowedBytes(suffix, true) then [] else q
  }

  // ---------------------------------------------------------------- the source's loops

  lemma {:induction false} HalveShortens(s: bytes)
    ensures |Halve(s)| <= |s|
    ensures HasDouble(s) ==> |Halve(s)| < |s|
  {
    if |s| >= 2 {
      if s[0] == SLASH && s[1] == SLASH {
        HalveShortens(s[2..]);
      } else {
        HalveShortens(s[1..]);
      }
    }
  }

  function Put(c: byte, s: bytes): bytes {
    if c == SLASH && s != [] && s[0] == SLASH then s else [c] + s
  }

  lemma {:induction false} CollapsePut(c: byte, s: bytes)
    ensures Collapse([c] + s) == Put(c, Collapse(s))
    ensures s != [] ==> Collapse(s) != [] && Collapse(s)[0] == s[0]
    decreases s
  {
    if s != [] {
      CollapsePut(s[0], s[1..]);
      assert [s[0]] + s[1..] == s;
      assert ([c] + s)[1..] == s;
    }
  }

  lemma {:induction false} CollapseHalve(s: bytes)
    ensures Collapse(Halve(s)) == Collapse(s)
  {
    if |s| >= 2 {
      assert s == [s[0]] + s[1..];
      if s[0] == SLASH && s[1] == SLASH {
        CollapseHalve(s[2..]);
        CollapsePut(SLASH, Halve(s[2..]));
        CollapsePut(SLASH, s[2..]);
        assert s[1..] == [SLASH] + s[2..];
      } else {
        CollapseHalve(s[1..]);
        CollapsePut(s[0], Halve(s[1..]));
        CollapsePut(s[0], s[1..]);
      }
    }
  }

  lemma {:induction false} CollapseKeepsSingle(s: bytes)
    ensures !HasDouble(s) <==> Collapse(s) == s
    ensures |Collapse(s)| <= |s|
  {
    if |s| >= 2 {
      CollapseKeepsSingle(s[1..]);
      assert s == [s[0]] + s[1..];
    }
  }

  lemma {:induction false} CollapseHasNoDouble(s: bytes)
    ensures !HasDouble(Collapse(s))
  {
    if |s| >= 2 {
      CollapseHasNoDouble(s[1..]);
      CollapsePut(s[0], s[1..]);
      assert s == [s[0]] + s[1..];
      assert Collapse(s) == Put(s[0], Collapse(s[1..]));
      assert ([s[0]] + Collapse(s[1..]))[1..] == Collapse(s[1..]);
    }
  }

  // Replacing until nothing changes ends, with every run of slashes made one.
  method CollapseSlashes(s: bytes) returns (r: bytes)
    ensures r == Collapse(s)
  {
    r := s;
    while HasDouble(r)
      invariant Collapse(r) == Collapse(s)
      decreases |r|
    {
      HalveShortens(r);
      CollapseHalve(r);
      r := Halve(r);
    }
    CollapseKeepsSingle(r);
  }

  method ScanEscapedBytes(s: bytes, inSuffix: bool) returns (ok: bool)
    ensures ok == AllowedBytes(s, inSuffix)
  {
    var i := 0;
    while i < |s|
      invariant i <= |s| && AllowedBytes(s, inSuffix) == AllowedBytes(s[i..], inSuffix)
    {
      if s[i] != PERCENT {
        if !IsAllowedByte(s[i], inSuffix) {
          return false;
        }
        assert s[i..][1..] == s[i + 1..];
        i := i + 1;
        continue;
      }
      if i + 2 >= |s| || !ValidEscape(s[i + 1], s[i + 2]) {
        return false;
      }
      assert s[i..][3..] == s[i + 3..];
      i := i + 3;
    }
    return true;
  }

  method RunSqueeze(path: bytes) returns (r: bytes)
    ensures r == Squeeze(path)
  {
    var at := SchemeAt(path);
    if at < |path| {
      r := CollapseSlashes(path[at + 3..]);
      r := path[..at] + SCHEME_END + r;
    } else {
      r := CollapseSlashes(path);
    }
  }

  method CleanConcatPath(p: bytes, api: bytes -> bool) returns (q: bytes)
    ensures q == Clean(p, api)
  {
    var n := SuffixAt(p);
    var suffix := p[n..];
    var path := RunSqueeze(p[..n]);
    path := Trim(path);
    q := path + suffix;
    if q == [] || !api(q) {
      return [];
    }
    var pathOk := ScanEscapedBytes(path, false);
    var suffixOk := ScanEscapedBytes(suffix, true);
    if !pathOk || !suffixOk {
      return [];
    }
  }

  // ---------------------------------------------------------------- what cleaning does

  predicate NoMarks(s: bytes) {
    s == [] || (!IsMark(s[0]) && NoMarks(s[1..]))
  }

  lemma {:induction false} NoMarksConcat(a: bytes, b: bytes)
    ensures NoMarks(a + b) <==> NoMarks(a) && NoMarks(b)
  {
    if a == [] {
      assert a + b == b;
    } else {
      NoMarksConcat(a[1..], b);
      assert (a + b)[1..] == a[1..] + b;
    }
  }

  lemma {:induction false} NoMarksBefore(p: bytes)
    ensures NoMarks(p[..SuffixAt(p)])
    ensures SuffixAt(p) < |p| ==> IsMark(p[SuffixAt(p)])
  {
    if p != [] && !IsMark(p[0]) {
      NoMarksBefore(p[1..]);
      assert p[..SuffixAt(p)][1..] == p[1..][..SuffixAt(p[1..])];
    }
  }

  lemma {:induction false} SuffixAtJoin(path: bytes, suffix: bytes)
    requires NoMarks(path) && (suffix == [] || IsMark(suffix[0]))
    ensures SuffixAt(path + suffix) == |path|
  {
    if path == [] {
      assert path + suffix == suffix;
    } else {
      SuffixAtJoin(path[1..], suffix);
      assert (path + suffix)[1..] == path[1..] + suffix;
    }
  }

  lemma {:induction false} NoMarksCollapse(s: bytes)
    requires NoMarks(s)
    ensures NoMarks(Collapse(s))
  {
    if |s| >= 2 {
      NoMarksCollapse(s[1..]);
      assert ([s[0]] + Collapse(s[1..]))[1..] == Collapse(s[1..]);
    }
  }

  lemma NoMarksSqueeze(path: bytes)
    requires NoMarks(path)
    ensures NoMarks(Squeeze(path))
  {
    var n := SchemeAt(path);
    if n < |path| {
      var rest := path[n + 3..];
      assert path == (path[..n] + SCHEME_END) + rest;
      NoMarksConcat(path[..n] + SCHEME_END, rest);
      NoMarksCollapse(rest);
      NoMarksConcat(path[..n] + SCHEME_END, Collapse(rest));
    } else {
      NoMarksCollapse(path);
    }
  }

  lemma NoMarksClean(path: bytes)
    requires NoMarks(path)
    ensures NoMarks(CleanPath(path))
  {
    var whole := Squeeze(path);
    NoMarksSqueeze(path);
    var t := Trim(whole);
    assert whole == t + whole[|t|..];
    NoMarksConcat(t, whole[|t|..]);
  }

  // What comes out, unless the path is refused: the suffix is unchanged, and the path before it
  // ends in no slash.
  lemma CleanParts(p: bytes, api: bytes -> bool)
    requires Clean(p, api) != []
    ensures var q, n := Clean(p, api), SuffixAt(p);
            && SuffixAt(q) == |CleanPath(p[..n])|
            && q[..SuffixAt(q)] == CleanPath(p[..n]) && q[SuffixAt(q)..] == p[n..]
            && (SuffixAt(q) == 0 || q[SuffixAt(q) - 1] != SLASH)
  {
    var n := SuffixAt(p);
    NoMarksBefore(p);
    NoMarksClean(p[..n]);
    SuffixAtJoin(CleanPath(p[..n]), p[n..]);
  }

  lemma {:induction false} SchemeAtPrefix(a: bytes, x: bytes, y: bytes)
    requires SchemeAt(a + SCHEME_END + x) == |a|
    ensures SchemeAt(a + SCHEME_END + y) == |a|
  {
    var s, t := a + SCHEME_END + x, a + SCHEME_END + y;
    if a == [] {
      assert t[..3] == SCHEME_END;
    } else {
      assert s[..3] == t[..3];
      assert s[1..] == a[1..] + SCHEME_END + x && t[1..] == a[1..] + SCHEME_END + y;
      SchemeAtPrefix(a[1..], x, y);
    }
  }

  lemma {:induction false} NoSchemeBefore(a: bytes, x: bytes)
    requires SchemeAt(a + SCHEME_END + x) == |a|
    ensures SchemeAt(a + [COLON]) == |a + [COLON]|
  {
    var s, t := a + SCHEME_END + x, a + [COLON];
    if a != [] {
      if |t| >= 3 {
        assert s[..3] == t[..3];
      }
      assert s[1..] == a[1..] + SCHEME_END + x && t[1..] == a[1..] + [COLON];
      NoSchemeBefore(a[1..], x);
    }
  }

  lemma {:induction false} NoDoubleNoScheme(s: bytes)
    requires !HasDouble(s)
    ensures SchemeAt(s) == |s|
  {
    if |s| >= 3 {
      assert s[..3][1] == s[1] == s[1..][0] && s[..3][2] == s[2] == s[1..][1];
      NoDoubleNoScheme(s[1..]);
    }
  }

  lemma {:induction false} NoDoublePrefix(s: bytes, n: nat)
    requires n <= |s| && !HasDouble(s)
    ensures !HasDouble(s[..n])
  {
    if n >= 2 {
      NoDoublePrefix(s[1..], n - 1);
      assert s[..n][1..] == s[1..][..n - 1];
    }
  }

  predicate AllSlashes(s: bytes) {
    Trim(s) == []
  }

  lemma TrimAfter(a: bytes, b: bytes)
    ensures Trim(a + b) == if AllSlashes(b) then Trim(a) else a + Trim(b)
    decreases |b|
  {
    if b == [] {
      assert a + b == a;
    } else if b[|b| - 1] == SLASH {
      assert (a + b)[..|a + b| - 1] == a + b[..|b| - 1];
      TrimAfter(a, b[..|b| - 1]);
    }
  }

  lemma {:induction false} CollapseSlashRun(s: bytes)
    ensures AllSlashes(Collapse(s)) <==> AllSlashes(s)
  {
    if |s| >= 2 {
      CollapseSlashRun(s[1..]);
      assert s == [s[0]] + s[1..];
      TrimAfter([s[0]], s[1..]);
      TrimAfter([s[0]], Collapse(s[1..]));
    }
  }

  // Paths that a second cleaning changes: a scheme with a double slash in it and nothing but
  // slashes after it. The first cleaning trims the scheme's own slashes away, so the second no
  // longer takes it for a scheme.
  predicate Unstable(path: bytes) {
    var n := SchemeAt(path);
    n < |path| && HasDouble(path[..n]) && AllSlashes(path[n + 3..])
  }

  lemma CleanOfPlain(path: bytes)
    requires SchemeAt(path) == |path|
    ensures CleanPath(path) == Trim(Collapse(path))
  {
  }

  lemma CleanOfScheme(scheme: bytes, rest: bytes)
    requires SchemeAt(scheme + SCHEME_END + rest) == |scheme|
    ensures CleanPath(scheme + SCHEME_END + rest)
         == if AllSlashes(rest) then scheme + [COLON] else scheme + SCHEME_END + Trim(Collapse(rest))
  {
    var path := scheme + SCHEME_END + rest;
    assert path[..|scheme|] == scheme && path[|scheme| + 3..] == rest;
    CollapseSlashRun(rest);
    TrimAfter(scheme + SCHEME_END, Collapse(rest));
    TrimScheme(scheme);
  }

  lemma TrimScheme(scheme: bytes)
    ensures Trim(scheme + SCHEME_END) == scheme + [COLON]
  {
    var c := scheme + [COLON];
    assert scheme + SCHEME_END == c + [SLASH, SLASH];
    assert [SLASH, SLASH][..1] == [SLASH] && [SLASH][..0] == [];
    assert AllSlashes([SLASH, SLASH]);
    TrimAfter(c, [SLASH, SLASH]);
  }

  lemma SplitAtScheme(path: bytes)
    requires SchemeAt(path) < |path|
    ensures path == path[..SchemeAt(path)] + SCHEME_END + path[SchemeAt(path) + 3..]
  {
    ThreeParts(path, SchemeAt(path), SchemeAt(path) + 3);
  }

  lemma ThreeParts(s: bytes, i: nat, j: nat)
    requires i <= j <= |s|
    ensures s == s[..i] + s[i..j] + s[j..]
  {
  }

  lemma CleanWithoutScheme(path: bytes)
    requires SchemeAt(path) == |path|
    ensures CleanPath(CleanPath(path)) == CleanPath(path)
  {
    CleanOfPlain(path);
    var c := Trim(Collapse(path));
    CollapseHasNoDouble(path);
    NoDoubleTrim(Collapse(path));
    NoDoubleNoScheme(c);
    CollapseKeepsSingle(c);
    CleanOfPlain(c);
    TrimTrimmed(c);
  }

  lemma NoDoubleTrim(s: bytes)
    requires !HasDouble(s)
    ensures !HasDouble(Trim(s))
  {
    NoDoublePrefix(s, |Trim(s)|);
    assert Trim(s) == s[..|Trim(s)|];
  }

  lemma TrimTrimmed(s: bytes)
    requires s == [] || s[|s| - 1] != SLASH
    ensures Trim(s) == s
  {
  }

  lemma TrimmedAgain(rest: bytes)
    requires !AllSlashes(rest)
    ensures var t := Trim(Collapse(rest));
            !AllSlashes(t) && Collapse(t) == t && Trim(t) == t
  {
    var s, t := Collapse(rest), Trim(Collapse(rest));
    CollapseSlashRun(rest);
    CollapseHasNoDouble(rest);
    NoDoubleTrim(s);
    CollapseKeepsSingle(t);
  }

  lemma CleanWithScheme(path: bytes)
    requires SchemeAt(path) < |path| && !AllSlashes(path[SchemeAt(path) + 3..])
    ensures CleanPath(CleanPath(path)) == CleanPath(path)
  {
    var n := SchemeAt(path);
    var scheme, rest := path[..n], path[n + 3..];
    SplitAtScheme(path);
    CleanOfScheme(scheme, rest);
    TrimmedAgain(rest);
    var t := Trim(Collapse(rest));
    SchemeAtPrefix(scheme, rest, t);
    CleanOfScheme(scheme, t);
  }

  lemma {:induction false} DoubleBeforeColon(s: bytes)
    ensures HasDouble(s + [COLON]) <==> HasDouble(s)
  {
    if |s| >= 2 {
      DoubleBeforeColon(s[1..]);
      assert (s + [COLON])[1..] == s[1..] + [COLON];
    }
  }

  lemma {:induction false} CollapseEndsAlike(s: bytes)
    requires s != []
    ensures Collapse(s) != [] && Collapse(s)[|Collapse(s)| - 1] == s[|s| - 1]
  {
    if |s| >= 2 {
      CollapseEndsAlike(s[1..]);
    }
  }

  lemma CleanBareScheme(path: bytes)
    requires SchemeAt(path) < |path| && AllSlashes(path[SchemeAt(path) + 3..])
    ensures CleanPath(path) == path[..SchemeAt(path)] + [COLON]
    ensures CleanPath(CleanPath(path)) == CleanPath(path) <==> !HasDouble(path[..SchemeAt(path)])
  {
    var n := SchemeAt(path);
    var scheme, rest := path[..n], path[n + 3..];
    SplitAtScheme(path);
    CleanOfScheme(scheme, rest);
    NoSchemeBefore(scheme, rest);
    CleanColonEnded(scheme);
  }

  lemma CleanColonEnded(scheme: bytes)
    requires SchemeAt(scheme + [COLON]) == |scheme + [COLON]|
    ensures CleanPath(scheme + [COLON]) == scheme + [COLON] <==> !HasDouble(scheme)
  {
    var c := scheme + [COLON];
    CleanOfPlain(c);
    DoubleBeforeColon(scheme);
    CollapseKeepsSingle(c);
    CollapseEndsAlike(c);
  }

  lemma CleanPathTwice(path: bytes)
    ensures CleanPath(CleanPath(path)) == CleanPath(path) <==> !Unstable(path)
  {
    if SchemeAt(path) == |path| {
      CleanWithoutScheme(path);
    } else if AllSlashes(path[SchemeAt(path) + 3..]) {
      CleanBareScheme(path);
    } else {
      CleanWithScheme(path);
    }
  }

  // Cleaning what was accepted changes nothing, except exactly for unstable paths.
  lemma CleanTwice(p: bytes, api: bytes -> bool)
    requires Clean(p, api) != []
    ensures Clean(Clean(p, api), api) == Clean(p, api) <==> !Unstable(p[..SuffixAt(p)])
  {
    var n, q := SuffixAt(p), Clean(p, api);
    CleanParts(p, api);
    CleanPathTwice(p[..n]);
    var c := CleanPath(p[..n]);
    var d := CleanPath(c);
    SameSuffix(c, d, p[n..]);
  }

  lemma SameSuffix(c: bytes, d: bytes, suffix: bytes)
    ensures c + suffix == d + suffix <==> c == d
  {
    assert (c + suffix)[..|c|] == c && (d + suffix)[..|d|] == d;
  }

  lemma {:induction false} PlainBytes(a: bytes)
    requires forall c :: c in a ==> IsAllowedByte(c, false) && c != PERCENT
    ensures AllowedBytes(a, false) && NoMarks(a)
  {
    if a != [] {
      PlainBytes(a[1..]);
    }
  }

  lemma {:induction false} FirstColon(a: bytes)
    requires COLON !in a
    ensures SchemeAt(a + SCHEME_END) == |a|
  {
    var p := a + SCHEME_END;
    if a == [] {
      assert p[..3] == SCHEME_END;
    } else {
      FirstColon(a[1..]);
      assert p[..3][0] == a[0] && p[1..] == a[1..] + SCHEME_END;
    }
  }

  const API: bytes := [97, 112, 105, SLASH, SLASH]

  lemma ApiHasDouble()
    ensures HasDouble(API)
  {
    assert API[3..] == [SLASH, SLASH] && API[1..][1..][1..] == API[3..];
    assert HasDouble(API[3..]) && HasDouble(API[1..][1..]) && HasDouble(API[1..]);
  }

  // Where the mark-free path api//:// has its scheme end.
  lemma ApiSuffix()
    ensures SuffixAt(API + SCHEME_END) == |API + SCHEME_END|
    ensures SchemeAt(API + SCHEME_END) == 5 && AllowedBytes(API + [COLON], false)
  {
    var p := API + SCHEME_END;
    PlainBytes(p);
    PlainBytes(API + [COLON]);
    SuffixAtJoin(p, []);
    assert p + [] == p;
    FirstColon(API);
  }

  lemma ApiPathCleans()
    ensures CleanPath(API + SCHEME_END) == API + [COLON]
  {
    var p := API + SCHEME_END;
    ApiSuffix();
    assert p[..5] == API && p[8..] == [];
    CleanBareScheme(p);
  }

  lemma ApiCleans(api: bytes -> bool)
    requires api(API + [COLON])
    ensures Clean(API + SCHEME_END, api) == API + [COLON]
  {
    ApiSuffix();
    ApiPathCleans();
    PlainCleans(API + SCHEME_END, API + [COLON], api);
  }

  // A path without query or fragment is what is left of it.
  lemma PlainCleans(p: bytes, q: bytes, api: bytes -> bool)
    requires SuffixAt(p) == |p| && CleanPath(p) == q != [] && api(q) && AllowedBytes(q, false)
    ensures Clean(p, api) == q
  {
    assert p[..|p|] == p && p[|p|..] == [] && q + [] == q;
  }

  // api//:// becomes api//: and then api/:, or nothing.
  lemma CleanTwiceDiffers(api: bytes -> bool)
    requires api(API + [COLON])
    ensures Clean(API + SCHEME_END, api) == API + [COLON]
    ensures Clean(API + [COLON], api) != API + [COLON]
  {
    var p := API + SCHEME_END;
    ApiHasDouble();
    ApiSuffix();
    ApiCleans(api);
    assert p[..|p|] == p && p[..5] == API && p[8..] == [];
    CleanTwice(p, api);
  }

  // ---------------------------------------------------------------- what an accepted path shows

  // What url.Parse makes of percent-escapes.
  function Decode(s: bytes): bytes {
    if s == [] then []
    else if s[0] == PERCENT && |s| >= 3 && Escaped(s[1], s[2]).Some? then [Escaped(s[1], s[2]).value] + Decode(s[3..])
    else [s[0]] + Decode(s[1..])
  }

  ghost predicate Printable(s: bytes) {
    forall i :: 0 <= i < |s| ==> 0x20 <= s[i] <= 0x7E
  }

  lemma PrintableOn(a: bytes, b: bytes)
    requires Printable(a) && Printable(b)
    ensures Printable(a + b)
  {
  }

  lemma AllowedEscape(s: bytes, inSuffix: bool)
    requires AllowedBytes(s, inSuffix) && s != [] && s[0] == PERCENT
    ensures |s| >= 3 && Printable(s[..3]) && AllowedBytes(s[3..], inSuffix)
    ensures Escaped(s[1], s[2]).Some? && Printable([Escaped(s[1], s[2]).value])
    ensures Decode(s) == [Escaped(s[1], s[2]).value] + Decode(s[3..])
  {
  }

  lemma AllowedPlain(s: bytes, inSuffix: bool)
    requires AllowedBytes(s, inSuffix) && s != [] && s[0] != PERCENT
    ensures Printable([s[0]]) && AllowedBytes(s[1..], inSuffix) && Decode(s) == [s[0]] + Decode(s[1..])
  {
  }

  lemma {:induction false} AllowedIsPrintable(s: bytes, inSuffix: bool)
    requires AllowedBytes(s, inSuffix)
    ensures Printable(s) && Printable(Decode(s))
  {
    if s != [] {
      if s[0] == PERCENT {
        AllowedEscape(s, inSuffix);
        AllowedIsPrintable(s[3..], inSuffix);
        PrintableOn(s[..3], s[3..]);
        PrintableOn([Escaped(s[1], s[2]).value], Decode(s[3..]));
        assert s == s[..3] + s[3..];
      } else {
        AllowedPlain(s, inSuffix);
        AllowedIsPrintable(s[1..], inSuffix);
        PrintableOn([s[0]], s[1..]);
        PrintableOn([s[0]], Decode(s[1..]));
        assert s == [s[0]] + s[1..];
      }
    }
  }

  // Every byte of an accepted path is printable ASCII, as written and after percent-decoding.
  lemma CleanIsPrintable(p: bytes, api: bytes -> bool)
    ensures Printable(Clean(p, api))
    ensures Clean(p, api) != [] ==>
              var q := Clean(p, api);
              Printable(Decode(q[..SuffixAt(q)])) && Printable(Decode(q[SuffixAt(q)..]))
  {
    if Clean(p, api) != [] {
      CleanParts(p, api);
      AllowedIsPrintable(CleanPath(p[..SuffixAt(p)]), false);
      AllowedIsPrintable(p[SuffixAt(p)..], true);
    }
  }
}
