/**
 Which observations Deduplicate merges and what it keeps of them (pkg/classify/classifier.go), said
 of its result and without the text of its keys or its comparisons.
 */
module DedupKeys {
  import opened ByteStrings
  import opened Dedup

  ghost predicate NoColon(s: bytes) {
    forall i :: 0 <= i < |s| ==> s[i] != 58
  }

  // The media type and the fingerprint count only where there is a body.
  ghost predicate SameBody(lib: Library, a: Request, b: Request) {
    if a.body == [] || b.body == [] then a.body == b.body
    else
      && lib.mediaType(a.headers) == lib.mediaType(b.headers)
      && lib.fingerprint(a.headers, a.body) == lib.fingerprint(b.headers, b.body)
  }

  // The same method, path, SOAPAction and body, whatever the host, the query and the fragment are.
  ghost predicate Alike(lib: Library, a: Request, b: Request) {
    && lib.urlPath(a.url).Some? && lib.urlPath(a.url) == lib.urlPath(b.url)
    && a.verb == b.verb && lib.soapAction(a.headers) == lib.soapAction(b.headers) && SameBody(lib, a, b)
  }

  // ---------------------------------------------------------------- splitting at colons

  lemma FirstColonSplits(a: bytes, s: bytes, b: bytes, t: bytes)
    requires NoColon(a) && NoColon(b) && a + [58] + s == b + [58] + t
    ensures a == b && s == t
  {
    var u, v := a + [58] + s, b + [58] + t;
    assert u[|a|] == 58 && v[|b|] == 58;
    assert forall i :: 0 <= i < |a| ==> u[i] == a[i];
    assert forall i :: 0 <= i < |b| ==> v[i] == b[i];
    assert |a| == |b|;
    assert u[..|a|] == a && v[..|b|] == b && u[|a| + 1..] == s && v[|b| + 1..] == t;
  }

  lemma LastColonSplits(s: bytes, a: bytes, t: bytes, b: bytes)
    requires NoColon(a) && NoColon(b) && s + [58] + a == t + [58] + b
    ensures a == b && s == t
  {
    var u, v := s + [58] + a, t + [58] + b;
    assert u[|s|] == 58 && v[|t|] == 58;
    assert forall i :: |s| < i < |u| ==> u[i] == a[i - |s| - 1];
    assert forall i :: |t| < i < |v| ==> v[i] == b[i - |t| - 1];
    assert |s| == |t|;
    assert u[..|s|] == s && v[..|t|] == t && u[|s| + 1..] == a && v[|t| + 1..] == b;
  }

  lemma SameHead(a: bytes, s: bytes, t: bytes)
    requires a + s == a + t
    ensures s == t
  {
    assert (a + s)[|a|..] == s && (a + t)[|a|..] == t;
  }

  // ---------------------------------------------------------------- what a key says

  ghost function Tail(lib: Library, r: Request): bytes {
    (if lib.soapAction(r.headers) != [] then [58] + lib.soapAction(r.headers) else []) + BodyKey(lib, r)
  }

  lemma KeyOfParsed(lib: Library, r: Request)
    requires Parsed(lib, r)
    ensures KeyOf(lib, r) == r.verb + [58] + (lib.urlPath(r.url).value + Tail(lib, r))
  {
    var p, sa := lib.urlPath(r.url).value, lib.soapAction(r.headers);
    var s := if sa != [] then [58] + sa else [];
    assert r.verb + [58] + p + s + BodyKey(lib, r) == r.verb + [58] + (p + (s + BodyKey(lib, r)));
  }

  lemma KeyHoldsVerb(lib: Library, r: Request) returns (rest: bytes)
    ensures KeyOf(lib, r) == r.verb + [58] + rest
    ensures !Parsed(lib, r) ==> rest == r.url
    ensures Parsed(lib, r) ==> rest == lib.urlPath(r.url).value + Tail(lib, r)
  {
    if Parsed(lib, r) {
      KeyOfParsed(lib, r);
      rest := lib.urlPath(r.url).value + Tail(lib, r);
    } else {
      rest := r.url;
    }
  }

  lemma SameKeySameVerb(lib: Library, a: Request, b: Request)
    requires NoColon(a.verb) && NoColon(b.verb) && KeyOf(lib, a) == KeyOf(lib, b)
    ensures a.verb == b.verb
    ensures !Parsed(lib, a) && !Parsed(lib, b) ==> a.url == b.url
    ensures Parsed(lib, a) && Parsed(lib, b) ==>
      lib.urlPath(a.url).value + Tail(lib, a) == lib.urlPath(b.url).value + Tail(lib, b)
  {
    var s := KeyHoldsVerb(lib, a);
    var t := KeyHoldsVerb(lib, b);
    FirstColonSplits(a.verb, s, b.verb, t);
  }

  // A tail is empty or starts with a colon.
  lemma TailIs(lib: Library, r: Request)
    ensures Tail(lib, r) == [] || Tail(lib, r)[0] == 58
  {
  }

  lemma PathSplits(p: bytes, s: bytes, q: bytes, t: bytes)
    requires NoColon(p) && NoColon(q) && p + s == q + t
    requires (s == [] || s[0] == 58) && (t == [] || t[0] == 58)
    ensures p == q && s == t
  {
    assert s != [] ==> (p + s)[|p|] == 58;
    assert t != [] ==> (q + t)[|q|] == 58;
    assert s == [] ==> p + s == p;
    assert t == [] ==> q + t == q;
    if s != [] && t != [] {
      assert s == [58] + s[1..] && t == [58] + t[1..];
      assert p + s == p + [58] + s[1..] && q + t == q + [58] + t[1..];
      FirstColonSplits(p, s[1..], q, t[1..]);
    }
  }

  lemma SameKeySamePath(lib: Library, a: Request, b: Request)
    requires Parsed(lib, a) && Parsed(lib, b) && KeyOf(lib, a) == KeyOf(lib, b)
    requires NoColon(a.verb) && NoColon(b.verb)
    requires NoColon(lib.urlPath(a.url).value) && NoColon(lib.urlPath(b.url).value)
    ensures a.verb == b.verb && lib.urlPath(a.url) == lib.urlPath(b.url) && Tail(lib, a) == Tail(lib, b)
  {
    SameKeySameVerb(lib, a, b);
    TailIs(lib, a);
    TailIs(lib, b);
    PathSplits(lib.urlPath(a.url).value, Tail(lib, a), lib.urlPath(b.url).value, Tail(lib, b));
  }

  // With a media type and a fingerprint in it, the tail holds both at its end.
  ghost predicate Labelled(lib: Library, r: Request) {
    && r.body != [] && lib.mediaType(r.headers).Some? && NoColon(lib.mediaType(r.headers).value)
    && NoColon(lib.fingerprint(r.headers, r.body))
  }

  lemma LabelledTail(lib: Library, r: Request)
    requires Labelled(lib, r)
    ensures var sa := lib.soapAction(r.headers);
      Tail(lib, r) == (if sa != [] then [58] + sa else []) + [58] + lib.mediaType(r.headers).value
                      + [58] + lib.fingerprint(r.headers, r.body)
  {
  }

  lemma LabelledTailsSplit(lib: Library, a: Request, b: Request)
    requires Labelled(lib, a) && Labelled(lib, b) && Tail(lib, a) == Tail(lib, b)
    ensures lib.soapAction(a.headers) == lib.soapAction(b.headers) && SameBody(lib, a, b)
  {
    LabelledTail(lib, a);
    LabelledTail(lib, b);
    var sa, sb := lib.soapAction(a.headers), lib.soapAction(b.headers);
    var s, t := if sa != [] then [58] + sa else [], if sb != [] then [58] + sb else [];
    var m, n := lib.mediaType(a.headers).value, lib.mediaType(b.headers).value;
    LastColonSplits(s + [58] + m, lib.fingerprint(a.headers, a.body), t + [58] + n, lib.fingerprint(b.headers, b.body));
    LastColonSplits(s, m, t, n);
    assert sa != [] ==> sa == s[1..];
    assert sb != [] ==> sb == t[1..];
  }

  // ---------------------------------------------------------------- entries and observations

  // The entry of a group is its first observation in all that keys are made of.
  lemma {:induction false} FoldKeepsFirst(lib: Library, group: seq<Request>)
    requires group != []
    ensures var e, r := Fold(lib, group), group[0];
      e.verb == r.verb && e.url == r.url && e.headers == r.headers && e.body == r.body
  {
    if |group| > 1 {
      FoldKeepsFirst(lib, group[..|group| - 1]);
    }
  }

  // An entry and an observation with one key.
  ghost predicate Represents(lib: Library, xs: seq<Request>, e: Request, r: Request) {
    KeyOf(lib, e) == KeyOf(lib, r)
    && exists o :: o in xs && o.verb == e.verb && o.url == e.url && o.headers == e.headers && o.body == e.body
  }

  lemma EveryEntryRepresents(lib: Library, xs: seq<Request>, i: nat)
    requires i < |Deduplicated(lib, xs)|
    ensures i < |FirstSeen(lib, xs)| && KeyOf(lib, Deduplicated(lib, xs)[i]) == FirstSeen(lib, xs)[i]
    ensures exists o :: o in xs && Represents(lib, xs, Deduplicated(lib, xs)[i], o)
  {
    var keys := FirstSeen(lib, xs);
    EntriesAre(lib, xs, keys);
    GroupOfSeen(lib, xs, keys[i]);
    var g := Group(lib, xs, keys[i]);
    FoldKeepsFirst(lib, g);
    assert g[0] in g && g[0] in xs;
    assert Represents(lib, xs, Deduplicated(lib, xs)[i], g[0]);
  }

  lemma SeenKey(lib: Library, xs: seq<Request>, r: Request)
    requires r in xs
    ensures KeyOf(lib, r) in FirstSeen(lib, xs)
  {
    GroupOfSeen(lib, xs, KeyOf(lib, r));
    assert r in Group(lib, xs, KeyOf(lib, r));
  }

  lemma HasEntry(lib: Library, xs: seq<Request>, r: Request) returns (i: nat)
    requires r in xs
    ensures i < |Deduplicated(lib, xs)| && Represents(lib, xs, Deduplicated(lib, xs)[i], r)
  {
    SeenKey(lib, xs, r);
    i :| 0 <= i < |FirstSeen(lib, xs)| && FirstSeen(lib, xs)[i] == KeyOf(lib, r);
    EveryEntryRepresents(lib, xs, i);
  }

  ghost predicate PlainVerbs(xs: seq<Request>) {
    forall r :: r in xs ==> NoColon(r.verb)
  }

  ghost predicate PlainPaths(lib: Library, xs: seq<Request>) {
    forall r :: r in xs ==> lib.urlPath(r.url).Some? && NoColon(lib.urlPath(r.url).value)
  }

  // No method is lost: different methods never merge, for parsed and unparsed URLs alike.
  lemma MethodsSurvive(lib: Library, xs: seq<Request>, r: Request)
    requires PlainVerbs(xs) && r in xs
    ensures exists e :: e in Deduplicated(lib, xs) && e.verb == r.verb
  {
    var i := HasEntry(lib, xs, r);
    SameKeySameVerb(lib, Deduplicated(lib, xs)[i], r);
  }

  // Nor is any path under its method, where paths hold no colon either.
  lemma PathsSurvive(lib: Library, xs: seq<Request>, r: Request)
    requires PlainVerbs(xs) && PlainPaths(lib, xs) && r in xs
    ensures exists e :: e in Deduplicated(lib, xs) && e.verb == r.verb && lib.urlPath(e.url) == lib.urlPath(r.url)
  {
    var i := HasEntry(lib, xs, r);
    SameKeySamePath(lib, Deduplicated(lib, xs)[i], r);
  }

  // Every entry is made of an observation: it has its method, URL, headers and body.
  lemma EntriesAreObserved(lib: Library, xs: seq<Request>, e: Request)
    requires e in Deduplicated(lib, xs)
    ensures exists o :: o in xs && o.verb == e.verb && o.url == e.url && o.headers == e.headers && o.body == e.body
  {
    var i :| 0 <= i < |Deduplicated(lib, xs)| && Deduplicated(lib, xs)[i] == e;
    EveryEntryRepresents(lib, xs, i);
  }

  lemma AlikeShareKey(lib: Library, a: Request, b: Request)
    requires Alike(lib, a, b)
    ensures KeyOf(lib, a) == KeyOf(lib, b)
  {
  }

  // Observations that are alike always merge: no two entries are alike, and no two of unparsed URLs
  // have the same method and URL.
  lemma AlikeMerge(lib: Library, xs: seq<Request>, i: nat, j: nat)
    requires i < j < |Deduplicated(lib, xs)|
    ensures var e, f := Deduplicated(lib, xs)[i], Deduplicated(lib, xs)[j];
      && !Alike(lib, e, f)
      && !(lib.urlPath(e.url).None? && lib.urlPath(f.url).None? && e.verb == f.verb && e.url == f.url)
  {
    var e, f := Deduplicated(lib, xs)[i], Deduplicated(lib, xs)[j];
    EveryEntryRepresents(lib, xs, i);
    EveryEntryRepresents(lib, xs, j);
    FirstSeenDistinct(lib, xs);
    if Alike(lib, e, f) {
      AlikeShareKey(lib, e, f);
    }
  }

  // A request as one meets them: no colon in the method and the path, a body that comes with a
  // plain media type, and no SOAPAction without a body.
  ghost predicate Usual(lib: Library, r: Request) {
    && lib.urlPath(r.url).Some? && NoColon(lib.urlPath(r.url).value) && NoColon(r.verb)
    && if r.body == [] then lib.soapAction(r.headers) == [] else Labelled(lib, r)
  }

  lemma UsualKeys(lib: Library, a: Request, b: Request)
    requires Usual(lib, a) && Usual(lib, b)
    ensures KeyOf(lib, a) == KeyOf(lib, b) <==> Alike(lib, a, b)
  {
    if KeyOf(lib, a) == KeyOf(lib, b) {
      SameKeySamePath(lib, a, b);
      if a.body != [] && b.body != [] {
        LabelledTailsSplit(lib, a, b);
      }
    }
    if Alike(lib, a, b) {
      AlikeShareKey(lib, a, b);
    }
  }

  // Of usual requests, each observation has exactly one entry that is like it.
  lemma OneEntryEach(lib: Library, xs: seq<Request>, r: Request) returns (i: nat)
    requires (forall x :: x in xs ==> Usual(lib, x)) && r in xs
    ensures i < |Deduplicated(lib, xs)| && Alike(lib, Deduplicated(lib, xs)[i], r)
    ensures forall j :: 0 <= j < |Deduplicated(lib, xs)| && j != i ==> !Alike(lib, Deduplicated(lib, xs)[j], r)
  {
    i := HasEntry(lib, xs, r);
    var e := Deduplicated(lib, xs)[i];
    UsualKeys(lib, e, r);
    forall j | 0 <= j < |Deduplicated(lib, xs)| && j != i ensures !Alike(lib, Deduplicated(lib, xs)[j], r) {
      var f := Deduplicated(lib, xs)[j];
      if Alike(lib, f, r) {
        if i < j {
          AlikeMerge(lib, xs, i, j);
        } else {
          AlikeMerge(lib, xs, j, i);
        }
      }
    }
  }

  // ---------------------------------------------------------------- two observations

  lemma PairMerges(lib: Library, a: Request, b: Request)
    ensures |Deduplicated(lib, [a, b])| == if KeyOf(lib, a) == KeyOf(lib, b) then 1 else 2
  {
    var xs := [a, b];
    assert xs[..1] == [a] && [a][..0] == [];
    assert FirstSeen(lib, []) == [];
    assert FirstSeen(lib, [a]) == [KeyOf(lib, a)];
    assert |FirstSeen(lib, xs)| == |Deduplicated(lib, xs)|;
  }

  lemma UsualPair(lib: Library, a: Request, b: Request)
    requires Usual(lib, a) && Usual(lib, b)
    ensures |Deduplicated(lib, [a, b])| == 1 <==> Alike(lib, a, b)
  {
    PairMerges(lib, a, b);
    UsualKeys(lib, a, b);
  }

  lemma UnparsedPair(lib: Library, a: Request, b: Request)
    requires lib.urlPath(a.url).None? && lib.urlPath(b.url).None? && NoColon(a.verb) && NoColon(b.verb)
    ensures |Deduplicated(lib, [a, b])| == 1 <==> a.verb == b.verb && a.url == b.url
  {
    PairMerges(lib, a, b);
    if KeyOf(lib, a) == KeyOf(lib, b) {
      SameKeySameVerb(lib, a, b);
    }
  }

  // Under one method and path, whatever they hold ...
  ghost predicate SamePlace(lib: Library, a: Request, b: Request) {
    lib.urlPath(a.url).Some? && lib.urlPath(a.url) == lib.urlPath(b.url) && a.verb == b.verb
  }

  lemma SamePlaceKeys(lib: Library, a: Request, b: Request)
    requires SamePlace(lib, a, b)
    ensures KeyOf(lib, a) == KeyOf(lib, b) <==> Tail(lib, a) == Tail(lib, b)
  {
    KeyOfParsed(lib, a);
    KeyOfParsed(lib, b);
    var p := lib.urlPath(a.url).value;
    if KeyOf(lib, a) == KeyOf(lib, b) {
      SameHead(a.verb + [58], p + Tail(lib, a), p + Tail(lib, b));
      SameHead(p, Tail(lib, a), Tail(lib, b));
    }
  }

  // ... requests without a body merge exactly if their SOAPActions are equal, ...
  lemma BodilessPair(lib: Library, a: Request, b: Request)
    requires SamePlace(lib, a, b) && a.body == [] && b.body == []
    ensures |Deduplicated(lib, [a, b])| == 1 <==> lib.soapAction(a.headers) == lib.soapAction(b.headers)
  {
    PairMerges(lib, a, b);
    SamePlaceKeys(lib, a, b);
    var sa, sb := lib.soapAction(a.headers), lib.soapAction(b.headers);
    assert BodyKey(lib, a) == [] && BodyKey(lib, b) == [];
    assert Tail(lib, a) == if sa != [] then [58] + sa else [];
    assert Tail(lib, b) == if sb != [] then [58] + sb else [];
    if sa != [] && sb != [] && Tail(lib, a) == Tail(lib, b) {
      SameHead([58], sa, sb);
    }
  }

  // ... and those with one exactly if SOAPAction, media type and fingerprint are.
  lemma LabelledPair(lib: Library, a: Request, b: Request)
    requires SamePlace(lib, a, b) && Labelled(lib, a) && Labelled(lib, b)
    ensures |Deduplicated(lib, [a, b])| == 1 <==>
      lib.soapAction(a.headers) == lib.soapAction(b.headers) && SameBody(lib, a, b)
  {
    PairMerges(lib, a, b);
    SamePlaceKeys(lib, a, b);
    if Tail(lib, a) == Tail(lib, b) {
      LabelledTailsSplit(lib, a, b);
    } else if lib.soapAction(a.headers) == lib.soapAction(b.headers) && SameBody(lib, a, b) {
      AlikeShareKey(lib, a, b);
    }
  }

  // A colon in a path can lose one: /a:x and /a with the SOAPAction x are one entry.
  lemma ColonMergesPaths(lib: Library, a: Request, b: Request, p: bytes, x: bytes)
    requires a.verb == b.verb && a.body == [] && b.body == [] && x != []
    requires lib.urlPath(a.url) == Some(p + [58] + x) && lib.soapAction(a.headers) == []
    requires lib.urlPath(b.url) == Some(p) && lib.soapAction(b.headers) == x
    ensures lib.urlPath(a.url) != lib.urlPath(b.url) && |Deduplicated(lib, [a, b])| == 1
  {
    PairMerges(lib, a, b);
    assert a.verb + [58] + (p + [58] + x) == a.verb + [58] + p + ([58] + x);
    assert |p + [58] + x| != |p|;
    assert BodyKey(lib, a) == [] && BodyKey(lib, b) == [];
    assert KeyOf(lib, a) == a.verb + [58] + (p + [58] + x);
    assert KeyOf(lib, b) == a.verb + [58] + p + ([58] + x);
  }

  // ---------------------------------------------------------------- what is kept

  lemma BetterIs(r: Verdict, e: Verdict)
    ensures Better(r, e) <==>
      r.confidence > e.confidence
      || (r.confidence == e.confidence
          && (Precedes(e.apiType, r.apiType) || (r.apiType == e.apiType && Precedes(e.reason, r.reason))))
  {
    CompareIs(e.apiType, r.apiType);
    CompareFlips(e.apiType, r.apiType);
    CompareIs(e.reason, r.reason);
    CompareFlips(e.reason, r.reason);
  }

  // No observation is of higher confidence than its entry, none of the same confidence has an API
  // type that comes later, and none of the same type as well a reason that does.
  lemma HighestConfidence(lib: Library, group: seq<Request>, r: Request)
    requires AllParsed(lib, group) && r in group
    ensures var v, f := r.verdict, Fold(lib, group).verdict;
      && v.confidence <= f.confidence
      && (v.confidence == f.confidence ==> !Precedes(f.apiType, v.apiType))
      && (v.confidence == f.confidence && v.apiType == f.apiType ==> !Precedes(f.reason, v.reason))
  {
    FoldVerdict(lib, group);
    BetterIs(r.verdict, Fold(lib, group).verdict);
  }

  // A response that documents nothing.
  ghost predicate Blank(r: Response) {
    r.statusCode <= 0 && r.contentType == [] && r.body == []
  }

  ghost predicate SortsBefore(a: Response, b: Response) {
    a.statusCode < b.statusCode
    || (a.statusCode == b.statusCode
        && (Precedes(a.contentType, b.contentType) || (a.contentType == b.contentType && Precedes(a.body, b.body))))
  }

  lemma PrefersSecondIs(a: Response, b: Response)
    ensures PrefersSecond(a, b) <==> if Blank(a) != Blank(b) then Blank(a) else SortsBefore(b, a)
  {
    CompareIs(b.contentType, a.contentType);
    CompareIs(b.body, a.body);
  }

  // A response is kept that documents something if any does, and of those the first one.
  lemma FirstDocumented(lib: Library, group: seq<Request>, r: Request)
    requires AllParsed(lib, group) && r in group
    ensures var f := Fold(lib, group).response;
      (Blank(f) ==> Blank(r.response)) && (Blank(f) == Blank(r.response) ==> !SortsBefore(r.response, f))
  {
    FoldResponse(lib, group);
    PrefersSecondIs(Fold(lib, group).response, r.response);
  }

  // The keys of a merged map are those of the first and the true ones of the second, which are true.
  lemma MergeKeysIs(dst: Option<map<bytes, bool>>, src: Option<map<bytes, bool>>, k: bytes)
    ensures MergeKeys(dst, src).None? <==> dst.None? && src.None?
    ensures var m := MergeKeys(dst, src);
      var marked, known := src.Some? && k in src.value && src.value[k], dst.Some? && k in dst.value;
      (m.Some? && k in m.value <==> marked || known)
      && (marked ==> m.value[k])
      && (known && !marked ==> m.value[k] == dst.value[k])
  {
  }

  // An observation alone under its key is its own entry, but for keys marked false.
  lemma StartIs(lib: Library, r: Request)
    ensures Start(lib, r).(multiValueKeys := r.multiValueKeys) == r
    ensures lib.urlPath(r.url).None? ==> Start(lib, r) == r
    ensures forall k :: Multi(Start(lib, r), k) <==> Multi(r, k)
  {
  }
}
