/** Deduplication of classified requests (pkg/classify/classifier.go, Deduplicate). */
module Dedup {
  import opened ByteStrings
  import opened MergeUnique

  type Headers = map<bytes, bytes>
  type Params = map<bytes, seq<bytes>>

  datatype Response = Response(statusCode: int, headers: Headers, contentType: bytes, body: bytes)

  // What the classifiers concluded.
  datatype Verdict = Verdict(confidence: real, apiType: bytes, reason: bytes)

  // A map that may be nil is an Option.
  datatype Request = Request(verb: bytes, url: bytes, headers: Headers, body: bytes,
    queryParams: Option<Params>, multiValueKeys: Option<map<bytes, bool>>,
    response: Response, isApi: bool, verdict: Verdict)

  // Library calls: url.Parse's path, the SOAPAction header, the base media type of the
  // Content-Type header, and the hash of the normalised body in hexadecimal.
  datatype Library = Library(urlPath: bytes -> Option<bytes>, soapAction: Headers -> bytes,
    mediaType: Headers -> Option<bytes>, fingerprint: (Headers, bytes) -> bytes)

  const COLON: bytes := [58]

  function KeyOf(lib: Library, r: Request): bytes {
    var path := lib.urlPath(r.url);
    if path.None? then r.verb + COLON + r.url
    else
      var sa := lib.soapAction(r.headers);
      r.verb + COLON + path.value + (if sa != [] then COLON + sa else []) + BodyKey(lib, r)
  }

  function BodyKey(lib: Library, r: Request): bytes {
    if r.body == [] then []
    else
      var ct := lib.mediaType(r.headers);
      (if ct.Some? then COLON + ct.value else []) + COLON + lib.fingerprint(r.headers, r.body)
  }

  predicate Parsed(lib: Library, r: Request) {
    lib.urlPath(r.url).Some?
  }

  // ---------------------------------------------------------------- the order of responses

  predicate Populated(r: Response) {
    r.statusCode > 0 || |r.body| > 0 || r.contentType != []
  }

  function CompareResponses(a: Response, b: Response): int {
    if a.statusCode != b.statusCode then (if a.statusCode < b.statusCode then -1 else 1)
    else if a.contentType != b.contentType then (if Compare(a.contentType, b.contentType) < 0 then -1 else 1)
    else Compare(a.body, b.body)
  }

  predicate PrefersSecond(a: Response, b: Response) {
    if Populated(a) != Populated(b) then Populated(b) else CompareResponses(b, a) < 0
  }

  function PreferredResponse(a: Response, b: Response): Response {
    if PrefersSecond(a, b) then b else a
  }

  // The three fields compared.
  ghost predicate SameContent(a: Response, b: Response) {
    a.statusCode == b.statusCode && a.contentType == b.contentType && a.body == b.body
  }

  // CompareResponses orders responses totally, up to their headers.
  lemma ResponsesAreOrdered(a: Response, b: Response, c: Response)
    ensures CompareResponses(a, b) == -CompareResponses(b, a)
    ensures CompareResponses(a, b) == 0 <==> SameContent(a, b)
    ensures CompareResponses(a, b) <= 0 && CompareResponses(b, c) <= 0 ==> CompareResponses(a, c) <= 0
  {
    CompareFlips(a.contentType, b.contentType);
    CompareFlips(a.body, b.body);
    if Compare(a.contentType, b.contentType) <= 0 && Compare(b.contentType, c.contentType) <= 0 {
      CompareTransitive(a.contentType, b.contentType, c.contentType);
    }
    CompareFlips(b.contentType, c.contentType);
    CompareFlips(a.contentType, c.contentType);
    if Compare(a.body, b.body) <= 0 && Compare(b.body, c.body) <= 0 {
      CompareTransitive(a.body, b.body, c.body);
    }
  }

  // So does the preference for populated ones built on it.
  lemma PreferenceIsOrdered(a: Response, b: Response, c: Response)
    ensures !PrefersSecond(a, b) && !PrefersSecond(b, a) ==> SameContent(a, b)
    ensures !PrefersSecond(a, b) && !PrefersSecond(b, c) ==> !PrefersSecond(a, c)
    ensures PrefersSecond(a, b) ==> !PrefersSecond(b, a)
  {
    ResponsesAreOrdered(a, b, c);
    ResponsesAreOrdered(b, c, a);
    ResponsesAreOrdered(a, c, b);
  }

  // Which response is kept does not depend on which was seen first, up to headers.
  lemma PreferredIsSymmetric(a: Response, b: Response)
    ensures SameContent(PreferredResponse(a, b), PreferredResponse(b, a))
  {
    PreferenceIsOrdered(a, b, a);
  }

  // With headers, it does not exactly if equal content never comes with different headers.
  lemma PreferredIsExactlySymmetric(a: Response, b: Response)
    ensures PreferredResponse(a, b) == PreferredResponse(b, a) <==> (SameContent(a, b) ==> a.headers == b.headers)
  {
    PreferenceIsOrdered(a, b, a);
    ResponsesAreOrdered(a, b, a);
  }

  // Two empty responses, one with a header: the one seen first is kept.
  lemma PreferredKeepsFirst()
    ensures var a, b := Response(0, map[], [], []), Response(0, map[COLON := []], [], []);
            PreferredResponse(a, b) == a && PreferredResponse(b, a) == b && a != b
  {
    var a, b := Response(0, map[], [], []), Response(0, map[COLON := []], [], []);
    ResponsesAreOrdered(a, b, a);
    assert COLON !in a.headers && COLON in b.headers;
  }

  // ---------------------------------------------------------------- the order of verdicts

  predicate Better(r: Verdict, e: Verdict) {
    r.confidence > e.confidence
    || (r.confidence == e.confidence
        && if r.apiType != e.apiType then Compare(r.apiType, e.apiType) > 0 else Compare(r.reason, e.reason) > 0)
  }

  lemma VerdictsAreOrdered(a: Verdict, b: Verdict, c: Verdict)
    ensures !Better(a, b) && !Better(b, a) ==> a == b
    ensures !Better(a, b) && !Better(b, c) ==> !Better(a, c)
    ensures Better(a, b) ==> !Better(b, a)
  {
    CompareFlips(a.apiType, b.apiType);
    CompareFlips(a.reason, b.reason);
    if Compare(a.apiType, b.apiType) <= 0 && Compare(b.apiType, c.apiType) <= 0 {
      CompareTransitive(a.apiType, b.apiType, c.apiType);
    }
    CompareFlips(b.apiType, c.apiType);
    CompareFlips(a.apiType, c.apiType);
    if Compare(a.reason, b.reason) <= 0 && Compare(b.reason, c.reason) <= 0 {
      CompareTransitive(a.reason, b.reason, c.reason);
    }
  }

  // ---------------------------------------------------------------- merging two observations

  // mergeMultiValueKeys: nil in, nil out; only true entries are added.
  function MergeKeys(dst: Option<map<bytes, bool>>, src: Option<map<bytes, bool>>): Option<map<bytes, bool>> {
    if src.None? then dst
    else
      var d := if dst.None? then map[] else dst.value;
      Some(d + (map k | k in src.value && src.value[k] :: true))
  }

  function ValuesOf(params: Option<Params>, k: bytes): seq<bytes> {
    if params.Some? && k in params.value then params.value[k] else []
  }

  ghost function MergeParams(dst: Option<Params>, src: Option<Params>): Option<Params> {
    if src.None? then dst
    else
      var d := if dst.None? then map[] else dst.value;
      Some(map k | k in d.Keys + src.value.Keys :: MergedValues(d, src.value, k))
  }

  ghost function MergedValues(d: Params, s: Params, k: bytes): seq<bytes> {
    if k in s then Merge(ValuesOf(Some(d), k), s[k]) else ValuesOf(Some(d), k)
  }

  // The entry made of the first observation under a key.
  function Start(lib: Library, r: Request): Request {
    if Parsed(lib, r) then r.(multiValueKeys := MergeKeys(None, r.multiValueKeys)) else r
  }

  // The entry after one more observation.
  ghost function Absorb(lib: Library, e: Request, r: Request): Request {
    if !Parsed(lib, r) then e
    else e.(queryParams := MergeParams(e.queryParams, r.queryParams),
            multiValueKeys := MergeKeys(e.multiValueKeys, r.multiValueKeys),
            verdict := if Better(r.verdict, e.verdict) then r.verdict else e.verdict,
            response := PreferredResponse(e.response, r.response))
  }

  // ---------------------------------------------------------------- group by key, then fold

  // The keys in first-seen order.
  ghost function FirstSeen(lib: Library, xs: seq<Request>): seq<bytes> {
    if xs == [] then []
    else
      var t, k := FirstSeen(lib, xs[..|xs| - 1]), KeyOf(lib, xs[|xs| - 1]);
      if k in t then t else t + [k]
  }

  ghost function Group(lib: Library, xs: seq<Request>, k: bytes): seq<Request> {
    if xs == [] then []
    else
      var t, r := Group(lib, xs[..|xs| - 1], k), xs[|xs| - 1];
      if KeyOf(lib, r) == k then t + [r] else t
  }

  ghost function Fold(lib: Library, group: seq<Request>): Request
    requires group != []
  {
    if |group| == 1 then Start(lib, group[0])
    else Absorb(lib, Fold(lib, group[..|group| - 1]), group[|group| - 1])
  }

  lemma {:induction false} GroupOfSeen(lib: Library, xs: seq<Request>, k: bytes)
    ensures k in FirstSeen(lib, xs) <==> Group(lib, xs, k) != []
    ensures forall r :: r in Group(lib, xs, k) <==> r in xs && KeyOf(lib, r) == k
  {
    if xs != [] {
      GroupOfSeen(lib, xs[..|xs| - 1], k);
      assert xs == xs[..|xs| - 1] + [xs[|xs| - 1]];
    }
  }

  ghost function Entry(lib: Library, xs: seq<Request>, k: bytes): Request
    requires k in FirstSeen(lib, xs)
  {
    GroupOfSeen(lib, xs, k);
    Fold(lib, Group(lib, xs, k))
  }

  ghost function Entries(lib: Library, xs: seq<Request>, keys: seq<bytes>): (rs: seq<Request>)
    requires forall k :: k in keys ==> k in FirstSeen(lib, xs)
    ensures |rs| == |keys|
  {
    if keys == [] then []
    else Entries(lib, xs, keys[..|keys| - 1]) + [Entry(lib, xs, keys[|keys| - 1])]
  }

  ghost function Deduplicated(lib: Library, xs: seq<Request>): seq<Request> {
    Entries(lib, xs, FirstSeen(lib, xs))
  }

  // ---------------------------------------------------------------- the source's loops

  method RunMergeParams(dst: Option<Params>, src: Option<Params>) returns (merged: Option<Params>)
    ensures merged == MergeParams(dst, src)
  {
    if src.None? {
      return dst;
    }
    var out := RunMergeInto(if dst.None? then map[] else dst.value, src.value);
    return Some(out);
  }

  // The keys in left are still to be merged.
  ghost predicate MergedSoFar(d: Params, s: Params, left: set<bytes>, out: Params) {
    && left <= s.Keys && out.Keys == d.Keys + (s.Keys - left)
    && (forall k :: k in out && k in left ==> k in d && out[k] == d[k])
    && (forall k :: k in out && k !in left ==> out[k] == MergedValues(d, s, k))
  }

  lemma MergedNext(d: Params, s: Params, left: set<bytes>, out: Params, k: bytes)
    requires MergedSoFar(d, s, left, out) && k in left
    ensures k in s && Merge(if k in out then out[k] else [], s[k]) == MergedValues(d, s, k)
    ensures MergedSoFar(d, s, left - {k}, out[k := MergedValues(d, s, k)])
  {
    assert s.Keys - (left - {k}) == (s.Keys - left) + {k};
  }

  lemma MergedEnds(d: Params, s: Params, out: Params)
    requires MergedSoFar(d, s, {}, out)
    ensures out == map k | k in d.Keys + s.Keys :: MergedValues(d, s, k)
  {
  }

  lemma MergedStarts(d: Params, s: Params)
    ensures MergedSoFar(d, s, s.Keys, d)
  {
  }

  method RunMergeInto(d: Params, s: Params) returns (out: Params)
    ensures out == map k | k in d.Keys + s.Keys :: MergedValues(d, s, k)
  {
    out := d;
    var left := s.Keys;
    MergedStarts(d, s);
    while left != {}
      invariant MergedSoFar(d, s, left, out)
      decreases |left|
    {
      var k :| k in left;
      MergedNext(d, s, left, out, k);
      var merged := MergeUniqueOrdered(if k in out then out[k] else [], s[k]);
      out := out[k := merged];
      left := left - {k};
    }
    MergedEnds(d, s, out);
  }

  method RunAbsorb(lib: Library, e: Request, r: Request) returns (merged: Request)
    requires Parsed(lib, r)
    ensures merged == Absorb(lib, e, r)
  {
    var params := RunMergeParams(e.queryParams, r.queryParams);
    merged := e.(queryParams := params);
    merged := merged.(multiValueKeys := MergeKeys(merged.multiValueKeys, r.multiValueKeys));
    var better := r.verdict.confidence > e.verdict.confidence;
    if !better && r.verdict.confidence == e.verdict.confidence {
      if r.verdict.apiType != e.verdict.apiType {
        better := Compare(r.verdict.apiType, e.verdict.apiType) > 0;
      } else {
        better := Compare(r.verdict.reason, e.verdict.reason) > 0;
      }
    }
    if better {
      merged := merged.(verdict := r.verdict);
    }
    merged := merged.(response := PreferredResponse(e.response, r.response));
  }

  // The map and the order slice after the observations of xs.
  ghost predicate Holds(lib: Library, xs: seq<Request>, order: seq<bytes>, seen: map<bytes, Request>) {
    && order == FirstSeen(lib, xs)
    && (forall k :: k in seen <==> k in order)
    && (forall k :: k in order ==> seen[k] == Entry(lib, xs, k))
  }

  lemma HoldsNew(lib: Library, xs: seq<Request>, r: Request, order: seq<bytes>, seen: map<bytes, Request>)
    requires Holds(lib, xs, order, seen) && KeyOf(lib, r) !in seen
    ensures Holds(lib, xs + [r], order + [KeyOf(lib, r)], seen[KeyOf(lib, r) := Start(lib, r)])
  {
    var ys := xs + [r];
    assert ys[..|ys| - 1] == xs;
    GroupOfSeen(lib, xs, KeyOf(lib, r));
  }

  // A further observation changes its own key's entry ...
  lemma EntryGrows(lib: Library, xs: seq<Request>, r: Request)
    requires KeyOf(lib, r) in FirstSeen(lib, xs)
    ensures KeyOf(lib, r) in FirstSeen(lib, xs + [r])
    ensures Entry(lib, xs + [r], KeyOf(lib, r)) == Absorb(lib, Entry(lib, xs, KeyOf(lib, r)), r)
  {
    var ys, k := xs + [r], KeyOf(lib, r);
    assert ys[..|ys| - 1] == xs;
    GroupOfSeen(lib, xs, k);
    var g := Group(lib, xs, k);
    assert (g + [r])[..|g|] == g;
  }

  // ... and no other.
  lemma EntryStays(lib: Library, xs: seq<Request>, r: Request, k: bytes)
    requires k in FirstSeen(lib, xs) && k != KeyOf(lib, r)
    ensures k in FirstSeen(lib, xs + [r]) && Entry(lib, xs + [r], k) == Entry(lib, xs, k)
  {
    var ys := xs + [r];
    assert ys[..|ys| - 1] == xs;
  }

  lemma OrderStays(lib: Library, xs: seq<Request>, r: Request)
    requires KeyOf(lib, r) in FirstSeen(lib, xs)
    ensures FirstSeen(lib, xs + [r]) == FirstSeen(lib, xs)
  {
    var ys := xs + [r];
    assert ys[..|ys| - 1] == xs;
  }

  lemma EntriesKept(lib: Library, xs: seq<Request>, r: Request, order: seq<bytes>, seen: map<bytes, Request>, k: bytes)
    requires Holds(lib, xs, order, seen) && k in order && k != KeyOf(lib, r)
    ensures k in FirstSeen(lib, xs + [r]) && k in seen && seen[k] == Entry(lib, xs + [r], k)
  {
    EntryStays(lib, xs, r, k);
  }

  // Every entry but the one of k is up to date.
  ghost predicate HoldsBut(lib: Library, ys: seq<Request>, order: seq<bytes>, seen: map<bytes, Request>, k: bytes) {
    && order == FirstSeen(lib, ys) && k in order
    && (forall l :: l in seen <==> l in order)
    && (forall l :: l in order && l != k ==> seen[l] == Entry(lib, ys, l))
  }

  lemma HoldsOthers(lib: Library, xs: seq<Request>, r: Request, order: seq<bytes>, seen: map<bytes, Request>)
    requires Holds(lib, xs, order, seen) && KeyOf(lib, r) in seen
    ensures HoldsBut(lib, xs + [r], order, seen, KeyOf(lib, r))
  {
    OrderStays(lib, xs, r);
    forall k | k in order && k != KeyOf(lib, r) ensures seen[k] == Entry(lib, xs + [r], k) {
      EntriesKept(lib, xs, r, order, seen, k);
    }
  }

  lemma HoldsPut(lib: Library, ys: seq<Request>, order: seq<bytes>, seen: map<bytes, Request>, k: bytes, e: Request)
    requires HoldsBut(lib, ys, order, seen, k) && e == Entry(lib, ys, k)
    ensures Holds(lib, ys, order, seen[k := e])
  {
  }

  lemma HoldsMore(lib: Library, xs: seq<Request>, r: Request, order: seq<bytes>, seen: map<bytes, Request>)
    requires Holds(lib, xs, order, seen) && KeyOf(lib, r) in seen
    ensures Holds(lib, xs + [r], order, seen[KeyOf(lib, r) := Absorb(lib, seen[KeyOf(lib, r)], r)])
  {
    HoldsOthers(lib, xs, r, order, seen);
    EntryGrows(lib, xs, r);
    HoldsPut(lib, xs + [r], order, seen, KeyOf(lib, r), Absorb(lib, seen[KeyOf(lib, r)], r));
  }

  method RunDeduplicate(lib: Library, classified: seq<Request>) returns (results: seq<Request>)
    ensures results == Deduplicated(lib, classified)
  {
    var seen: map<bytes, Request> := map[];
    var order: seq<bytes> := [];
    for i := 0 to |classified|
      invariant Holds(lib, classified[..i], order, seen)
    {
      assert classified[..i + 1] == classified[..i] + [classified[i]];
      order, seen := RunObserve(lib, classified[..i], classified[i], order, seen);
    }
    assert classified[..|classified|] == classified;
    results := RunCollect(lib, classified, order, seen);
  }

  // The source's second loop.
  method RunCollect(lib: Library, ghost xs: seq<Request>, order: seq<bytes>, seen: map<bytes, Request>)
    returns (results: seq<Request>)
    requires Holds(lib, xs, order, seen)
    ensures results == Deduplicated(lib, xs)
  {
    results := [];
    for i := 0 to |order|
      invariant results == Entries(lib, xs, order[..i])
    {
      assert order[..i + 1][..i] == order[..i];
      results := results + [seen[order[i]]];
    }
    assert order[..|order|] == order;
  }

  // One turn of the source's first loop, after the observations of xs.
  method RunObserve(lib: Library, ghost xs: seq<Request>, r: Request, order: seq<bytes>, seen: map<bytes, Request>)
    returns (order': seq<bytes>, seen': map<bytes, Request>)
    requires Holds(lib, xs, order, seen)
    ensures Holds(lib, xs + [r], order', seen')
  {
    order', seen' := order, seen;
    var key := KeyOf(lib, r);
    if key !in seen {
      HoldsNew(lib, xs, r, order, seen);
      order' := order + [key];
      seen' := seen[key := Start(lib, r)];
    } else {
      HoldsMore(lib, xs, r, order, seen);
      if Parsed(lib, r) {
        var merged := RunAbsorb(lib, seen[key], r);
        seen' := seen[key := merged];
      } else {
        assert seen[key := seen[key]] == seen;
      }
    }
  }

  // ---------------------------------------------------------------- what the result depends on

  ghost predicate AllParsed(lib: Library, xs: seq<Request>) {
    forall r :: r in xs ==> Parsed(lib, r)
  }

  // The verdict kept is the greatest of the group's.
  lemma {:induction false} FoldVerdict(lib: Library, group: seq<Request>)
    requires group != [] && AllParsed(lib, group)
    ensures exists r :: r in group && r.verdict == Fold(lib, group).verdict
    ensures forall r :: r in group ==> !Better(r.verdict, Fold(lib, group).verdict)
  {
    var t, r := group[..|group| - 1], group[|group| - 1];
    assert group == t + [r];
    if t == [] {
      VerdictsAreOrdered(r.verdict, r.verdict, r.verdict);
      assert r in group;
    } else {
      FoldVerdict(lib, t);
      var e, f := Fold(lib, t).verdict, Fold(lib, group).verdict;
      var w :| w in t && w.verdict == e;
      assert w in group && r in group;
      forall o | o in group ensures !Better(o.verdict, f) {
        VerdictsAreOrdered(o.verdict, e, f);
        VerdictsAreOrdered(r.verdict, e, f);
        VerdictsAreOrdered(r.verdict, r.verdict, r.verdict);
      }
    }
  }

  // Whether the entry counts as an API request is the first observation's say, even where a later
  // one's verdict is kept.
  lemma {:induction false} FoldIsApi(lib: Library, group: seq<Request>)
    requires group != []
    ensures Fold(lib, group).isApi == group[0].isApi
  {
    if |group| > 1 {
      FoldIsApi(lib, group[..|group| - 1]);
    }
  }

  // So a verdict on an API request can end up on an entry that is not marked as one, and does
  // exactly if the first observation is not.
  lemma FoldMixesVerdicts(lib: Library, a: Request, b: Request)
    requires Parsed(lib, a) && Parsed(lib, b) && b.isApi && Better(b.verdict, a.verdict)
    ensures Fold(lib, [a, b]).verdict == b.verdict
    ensures Fold(lib, [a, b]).isApi == b.isApi <==> a.isApi
  {
    assert [a, b][..1] == [a];
    FoldIsApi(lib, [a, b]);
  }

  // The response kept comes first among the group's, up to headers.
  lemma {:induction false} FoldResponse(lib: Library, group: seq<Request>)
    requires group != [] && AllParsed(lib, group)
    ensures exists r :: r in group && r.response == Fold(lib, group).response
    ensures forall r :: r in group ==> !PrefersSecond(Fold(lib, group).response, r.response)
  {
    var t, r := group[..|group| - 1], group[|group| - 1];
    assert group == t + [r];
    if t == [] {
      PreferenceIsOrdered(r.response, r.response, r.response);
      assert r in group;
    } else {
      FoldResponse(lib, t);
      var e, f := Fold(lib, t).response, Fold(lib, group).response;
      var w :| w in t && w.response == e;
      assert w in group && r in group;
      forall o | o in group ensures !PrefersSecond(f, o.response) {
        PreferenceIsOrdered(f, e, o.response);
        PreferenceIsOrdered(e, f, o.response);
        PreferenceIsOrdered(r.response, r.response, r.response);
      }
    }
  }

  // The keys marked as multi-value.
  ghost predicate Multi(r: Request, k: bytes) {
    r.multiValueKeys.Some? && k in r.multiValueKeys.value && r.multiValueKeys.value[k]
  }

  lemma AbsorbedMulti(lib: Library, e: Request, r: Request, k: bytes)
    requires Parsed(lib, r)
    ensures Multi(Absorb(lib, e, r), k) <==> Multi(e, k) || Multi(r, k)
  {
  }

  // A key is marked when any observation of the group marked it.
  lemma {:induction false} FoldMulti(lib: Library, group: seq<Request>, k: bytes)
    requires group != [] && AllParsed(lib, group)
    ensures Multi(Fold(lib, group), k) <==> exists r :: r in group && Multi(r, k)
  {
    var t, r := group[..|group| - 1], group[|group| - 1];
    assert group == t + [r];
    assert forall o :: o in group <==> o in t || o == r;
    assert r in group;
    if t == [] {
      assert group == [r];
    } else {
      FoldMulti(lib, t, k);
      AbsorbedMulti(lib, Fold(lib, t), r, k);
    }
  }

  // The same observations in any order, however often repeated, give the same keys, and under each
  // key the same verdict, the same response up to headers, and the same multi-value keys.
  lemma OrderIndependent(lib: Library, xs: seq<Request>, ys: seq<Request>, key: bytes)
    requires forall r :: r in xs <==> r in ys
    requires AllParsed(lib, xs) && key in FirstSeen(lib, xs)
    ensures key in FirstSeen(lib, ys)
    ensures Entry(lib, xs, key).verdict == Entry(lib, ys, key).verdict
    ensures SameContent(Entry(lib, xs, key).response, Entry(lib, ys, key).response)
    ensures forall k :: Multi(Entry(lib, xs, key), k) <==> Multi(Entry(lib, ys, key), k)
  {
    GroupOfSeen(lib, xs, key);
    GroupOfSeen(lib, ys, key);
    var a, b := Group(lib, xs, key), Group(lib, ys, key);
    assert a[0] in b;
    SameVerdict(lib, a, b);
    SameResponse(lib, a, b);
    forall k ensures Multi(Fold(lib, a), k) <==> Multi(Fold(lib, b), k) {
      FoldMulti(lib, a, k);
      FoldMulti(lib, b, k);
    }
  }

  lemma SameVerdict(lib: Library, a: seq<Request>, b: seq<Request>)
    requires a != [] && b != [] && AllParsed(lib, a) && forall r :: r in a <==> r in b
    ensures Fold(lib, a).verdict == Fold(lib, b).verdict
  {
    FoldVerdict(lib, a);
    FoldVerdict(lib, b);
    VerdictsAreOrdered(Fold(lib, a).verdict, Fold(lib, b).verdict, Fold(lib, a).verdict);
  }

  lemma SameResponse(lib: Library, a: seq<Request>, b: seq<Request>)
    requires a != [] && b != [] && AllParsed(lib, a) && forall r :: r in a <==> r in b
    ensures SameContent(Fold(lib, a).response, Fold(lib, b).response)
  {
    FoldResponse(lib, a);
    FoldResponse(lib, b);
    PreferenceIsOrdered(Fold(lib, a).response, Fold(lib, b).response, Fold(lib, a).response);
  }

  // All values a group's observations have for one parameter, in order.
  ghost function Gathered(group: seq<Request>, k: bytes): seq<bytes> {
    if group == [] then []
    else Gathered(group[..|group| - 1], k) + ValuesOf(group[|group| - 1].queryParams, k)
  }

  ghost predicate Mentions(r: Request, k: bytes) {
    r.queryParams.Some? && k in r.queryParams.value
  }

  ghost predicate MentionedAgain(group: seq<Request>, k: bytes) {
    exists i :: 0 < i < |group| && Mentions(group[i], k)
  }

  lemma AbsorbedValues(lib: Library, e: Request, r: Request, k: bytes)
    requires Parsed(lib, r)
    ensures ValuesOf(Absorb(lib, e, r).queryParams, k)
         == if Mentions(r, k) then Merge(ValuesOf(e.queryParams, k), ValuesOf(r.queryParams, k)) else ValuesOf(e.queryParams, k)
  {
  }

  lemma MentionedLast(t: seq<Request>, r: Request, k: bytes)
    requires t != []
    ensures MentionedAgain(t + [r], k) <==> MentionedAgain(t, k) || Mentions(r, k)
  {
    var group := t + [r];
    assert Mentions(group[|t|], k) <==> Mentions(r, k);
    assert forall i :: 0 < i < |t| ==> group[i] == t[i];
  }

  // The values kept for a parameter: all of the first observation's until another one mentions
  // it, and from then on the first 256 distinct values ever seen, whatever was dropped on the way.
  lemma {:induction false} FoldParams(lib: Library, group: seq<Request>, k: bytes)
    requires group != [] && AllParsed(lib, group)
    ensures ValuesOf(Fold(lib, group).queryParams, k)
         == if MentionedAgain(group, k) then Cap(Unique(Gathered(group, k))) else ValuesOf(group[0].queryParams, k)
    ensures !MentionedAgain(group, k) ==> Gathered(group, k) == ValuesOf(group[0].queryParams, k)
  {
    var t, r := group[..|group| - 1], group[|group| - 1];
    assert group == t + [r];
    if t == [] {
      assert [] + ValuesOf(r.queryParams, k) == ValuesOf(r.queryParams, k);
    } else {
      FoldParams(lib, t, k);
      AbsorbedValues(lib, Fold(lib, t), r, k);
      var g, v := Gathered(t, k), ValuesOf(r.queryParams, k);
      MentionedLast(t, r, k);
      if Mentions(r, k) {
        MergedOnTheLeft(g, v);
      } else {
        assert g + v == g;
      }
    }
  }

  // ---------------------------------------------------------------- deduplicating twice

  ghost predicate DistinctKeys(lib: Library, rs: seq<Request>) {
    forall i, j :: 0 <= i < j < |rs| ==> KeyOf(lib, rs[i]) != KeyOf(lib, rs[j])
  }

  lemma {:induction false} NoGroup(lib: Library, rs: seq<Request>, k: bytes)
    requires forall r :: r in rs ==> KeyOf(lib, r) != k
    ensures Group(lib, rs, k) == []
  {
    if rs != [] {
      assert rs[|rs| - 1] in rs;
      NoGroup(lib, rs[..|rs| - 1], k);
    }
  }

  // Each observation is alone under its key.
  lemma {:induction false} AloneInGroup(lib: Library, rs: seq<Request>, i: nat)
    requires DistinctKeys(lib, rs) && i < |rs|
    ensures Group(lib, rs, KeyOf(lib, rs[i])) == [rs[i]]
  {
    var t, r := rs[..|rs| - 1], rs[|rs| - 1];
    assert rs == t + [r];
    if i < |t| {
      AloneInGroup(lib, t, i);
    } else {
      NoGroup(lib, t, KeyOf(lib, r));
    }
  }

  ghost function Keys(lib: Library, rs: seq<Request>): (ks: seq<bytes>)
    ensures |ks| == |rs| && forall i :: 0 <= i < |rs| ==> ks[i] == KeyOf(lib, rs[i])
  {
    if rs == [] then [] else Keys(lib, rs[..|rs| - 1]) + [KeyOf(lib, rs[|rs| - 1])]
  }

  lemma {:induction false} DistinctSeen(lib: Library, rs: seq<Request>)
    requires DistinctKeys(lib, rs)
    ensures FirstSeen(lib, rs) == Keys(lib, rs)
  {
    if rs != [] {
      DistinctSeen(lib, rs[..|rs| - 1]);
    }
  }

  lemma {:induction false} EntriesAre(lib: Library, xs: seq<Request>, keys: seq<bytes>)
    requires forall k :: k in keys ==> k in FirstSeen(lib, xs)
    ensures forall i :: 0 <= i < |keys| ==> Entries(lib, xs, keys)[i] == Entry(lib, xs, keys[i])
  {
    if keys != [] {
      EntriesAre(lib, xs, keys[..|keys| - 1]);
    }
  }

  lemma {:induction false} FirstSeenDistinct(lib: Library, xs: seq<Request>)
    ensures Distinct(FirstSeen(lib, xs))
  {
    if xs != [] {
      FirstSeenDistinct(lib, xs[..|xs| - 1]);
    }
  }

  ghost predicate NoFalse(r: Request) {
    r.multiValueKeys.Some? ==> forall k :: k in r.multiValueKeys.value ==> r.multiValueKeys.value[k]
  }

  lemma StartOfNoFalse(lib: Library, r: Request)
    ensures NoFalse(r) ==> Start(lib, r) == r
  {
    if NoFalse(r) && r.multiValueKeys.Some? {
      var m := r.multiValueKeys.value;
      assert map[] + (map k | k in m && m[k] :: true) == m;
    }
  }

  // An entry keeps the fields its key and its standing as parsed are made of, and once parsed
  // marks no key false.
  lemma {:induction false} FoldKeeps(lib: Library, group: seq<Request>)
    requires group != []
    ensures KeyOf(lib, Fold(lib, group)) == KeyOf(lib, group[0])
    ensures Parsed(lib, Fold(lib, group)) <==> Parsed(lib, group[0])
    ensures Parsed(lib, group[0]) ==> NoFalse(Fold(lib, group))
  {
    if |group| > 1 {
      FoldKeeps(lib, group[..|group| - 1]);
    }
  }

  // One observation a key, each as its own entry would be.
  ghost predicate Settled(lib: Library, rs: seq<Request>) {
    DistinctKeys(lib, rs) && forall i :: 0 <= i < |rs| ==> Start(lib, rs[i]) == rs[i]
  }

  lemma DeduplicatedIsSettled(lib: Library, xs: seq<Request>)
    ensures Settled(lib, Deduplicated(lib, xs))
  {
    var keys, rs := FirstSeen(lib, xs), Deduplicated(lib, xs);
    EntriesAre(lib, xs, keys);
    FirstSeenDistinct(lib, xs);
    forall i | 0 <= i < |rs| ensures KeyOf(lib, rs[i]) == keys[i] && Start(lib, rs[i]) == rs[i] {
      var g := Group(lib, xs, keys[i]);
      GroupOfSeen(lib, xs, keys[i]);
      FoldKeeps(lib, g);
      StartOfNoFalse(lib, rs[i]);
      assert g[0] in g;
    }
  }

  lemma SettledStays(lib: Library, rs: seq<Request>)
    requires Settled(lib, rs)
    ensures Deduplicated(lib, rs) == rs
  {
    DistinctSeen(lib, rs);
    var keys := Keys(lib, rs);
    EntriesAre(lib, rs, keys);
    forall i | 0 <= i < |rs| ensures Entry(lib, rs, keys[i]) == rs[i] {
      AloneInGroup(lib, rs, i);
    }
  }

  // Deduplicating the result changes nothing, for parsed and unparsed URLs alike.
  lemma DeduplicateTwice(lib: Library, xs: seq<Request>)
    ensures Deduplicated(lib, Deduplicated(lib, xs)) == Deduplicated(lib, xs)
  {
    DeduplicatedIsSettled(lib, xs);
    SettledStays(lib, Deduplicated(lib, xs));
  }
}
