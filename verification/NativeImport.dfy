/**
 importNative (pkg/importer/mitmproxy.go): a file of concatenated tnetstring flow dicts.

 convert stands for flowFromNativeState and parseFlow, which turn an HTTP flow's dict into a
 request or fail.
 */
module NativeImport {
  import opened ByteStrings
  import opened Tnetstrings
  import opened TnetRoundTrip
  import opened TnetReaders
  import opened TnetWire

  const MAX_NATIVE_FLOWS := 500_000

  const TYPE_KEY: bytes := [116, 121, 112, 101]
  const HTTP: bytes := [104, 116, 116, 112]

  datatype Failure = TooManyFlows | BadElement(error: Error) | NotADict | BadHttpFlow

  datatype Imported<R> = Requests(requests: seq<R>) | Failed(why: Failure)

  type Flow = map<bytes, Tnet>

  // tnetBytesOrString
  function BytesOrString(v: Tnet): bytes {
    match v case Str(s) => s case Bytes(b) => b case _ => []
  }

  // A flow without a usable type is not an HTTP flow.
  predicate IsHttp(flow: Flow) {
    TYPE_KEY in flow && BytesOrString(flow[TYPE_KEY]) == HTTP
  }

  // importNative on what is left of the file, after seen flows.
  function Import<R>(fp: bytes -> bool, convert: Flow -> Option<R>, b: bytes, seen: nat): Imported<R>
    decreases |b|
  {
    if b == [] then Requests([])
    else if seen >= MAX_NATIVE_FLOWS then Failed(TooManyFlows)
    else
      match Stream(fp, b, 0)
      case Err(e) => Failed(BadElement(e))
      case Ok(v, used) =>
        if !v.Dict? then Failed(NotADict)
        else if !IsHttp(v.entries) then Import(fp, convert, b[used..], seen + 1)
        else
          match convert(v.entries)
          case None => Failed(BadHttpFlow)
          case Some(r) => After([r], Import(fp, convert, b[used..], seen + 1))
  }

  function After<R>(done: seq<R>, r: Imported<R>): Imported<R> {
    match r case Requests(rs) => Requests(done + rs) case Failed(why) => Failed(why)
  }

  // With done imported and b still to be read, the whole import will come to all.
  ghost predicate ImportSoFar<R(!new)>(fp: bytes -> bool, convert: Flow -> Option<R>, all: Imported<R>,
                                       done: seq<R>, b: bytes, seen: nat) {
    all == After(done, Import(fp, convert, b, seen))
  }

  // One turn of the loop.
  lemma ImportNext<R(!new)>(fp: bytes -> bool, convert: Flow -> Option<R>, all: Imported<R>,
                            done: seq<R>, b: bytes, seen: nat)
    requires ImportSoFar(fp, convert, all, done, b, seen) && b != []
    ensures seen >= MAX_NATIVE_FLOWS ==> all == Failed(TooManyFlows)
    ensures seen < MAX_NATIVE_FLOWS ==>
      var s := Stream(fp, b, 0);
      && (s.Err? ==> all == Failed(BadElement(s.error)))
      && (s.Ok? && !s.value.Dict? ==> all == Failed(NotADict))
      && (s.Ok? && s.value.Dict? ==>
            var flow, rest := s.value.entries, b[s.used..];
            && (!IsHttp(flow) ==> ImportSoFar(fp, convert, all, done, rest, seen + 1))
            && (IsHttp(flow) && convert(flow).None? ==> all == Failed(BadHttpFlow))
            && (IsHttp(flow) && convert(flow).Some? ==>
                  ImportSoFar(fp, convert, all, done + [convert(flow).value], rest, seen + 1)))
  {
    var s := Stream(fp, b, 0);
    if s.Ok? && s.value.Dict? && convert(s.value.entries).Some? {
      AfterNext(done, convert(s.value.entries).value, Import(fp, convert, b[s.used..], seen + 1));
    }
  }

  lemma ImportEnds<R(!new)>(fp: bytes -> bool, convert: Flow -> Option<R>, all: Imported<R>, done: seq<R>, seen: nat)
    requires ImportSoFar(fp, convert, all, done, [], seen)
    ensures all == Requests(done)
  {
    assert done + [] == done;
  }

  method ImportNative<R(!new)>(fp: bytes -> bool, convert: Flow -> Option<R>, r: ByteReader, meter: Meter)
    returns (res: Imported<R>)
    requires r.Valid() && |meter.level| == LEVELS
    modifies r, meter
    ensures res == Import(fp, convert, old(r.Rest()), 0)
  {
    var requests: seq<R> := [];
    var seen := 0;
    ghost var all := Import(fp, convert, r.Rest(), 0);
    AfterNothing(all);
    while r.pos < |r.data|
      invariant r.Valid() && r.pos >= old(r.pos) && |meter.level| == LEVELS
      invariant ImportSoFar(fp, convert, all, requests, r.Rest(), seen)
      decreases |r.data| - r.pos
    {
      ImportNext(fp, convert, all, requests, r.Rest(), seen);
      if seen >= MAX_NATIVE_FLOWS {
        return Failed(TooManyFlows);
      }
      var raw := DecodeStream(fp, r, meter, 0);
      if raw.Bad? {
        return Failed(BadElement(raw.error));
      }
      if !raw.value.Dict? {
        return Failed(NotADict);
      }
      var state := raw.value.entries;
      seen := seen + 1;
      if !IsHttp(state) {
        continue;
      }
      var req := convert(state);
      if req.None? {
        return Failed(BadHttpFlow);
      }
      requests := requests + [req.value];
    }
    ImportEnds(fp, convert, all, requests, seen);
    return Requests(requests);
  }

  lemma AfterNothing<R>(r: Imported<R>)
    ensures After([], r) == r
  {
    if r.Requests? {
      assert [] + r.requests == r.requests;
    }
  }

  lemma AfterNext<R>(done: seq<R>, x: R, r: Imported<R>)
    ensures After(done, After([x], r)) == After(done + [x], r)
  {
    if r.Requests? {
      assert done + ([x] + r.requests) == done + [x] + r.requests;
    }
  }

  // ---------------------------------------------------------------- what an import returns

  ghost function Dump(flows: seq<Flow>): bytes {
    if flows == [] then [] else Encode(Dict(flows[0])) + Dump(flows[1..])
  }

  // The flow as it comes back from its encoding.
  ghost function Reread(flow: Flow): Flow {
    AsBytes(Dict(flow)).entries
  }

  // An HTTP flow is one whose type is http, as a byte string or as text.
  ghost predicate OfHttp(flow: Flow) {
    var key, http := [116, 121, 112, 101], [104, 116, 116, 112];
    key in flow && (flow[key] == Bytes(http) || flow[key] == Str(http))
  }

  lemma IsHttpIs(flow: Flow)
    ensures IsHttp(flow) <==> OfHttp(flow)
  {
  }

  // The flow fits the decoder's caps and, if it is an HTTP flow, converts.
  ghost predicate Importable<R(!new)>(fp: bytes -> bool, convert: Flow -> Option<R>, flow: Flow) {
    Fits(fp, Dict(flow), 0) && (OfHttp(flow) ==> convert(Reread(flow)).Some?)
  }

  ghost predicate AllImportable<R(!new)>(fp: bytes -> bool, convert: Flow -> Option<R>, flows: seq<Flow>) {
    flows != [] ==> Importable(fp, convert, flows[0]) && AllImportable(fp, convert, flows[1..])
  }

  ghost function ConvertedOne<R(!new)>(convert: Flow -> Option<R>, flow: Flow): seq<R>
    requires OfHttp(flow) ==> convert(Reread(flow)).Some?
  {
    if OfHttp(flow) then [convert(Reread(flow)).value] else []
  }

  // The conversions of the HTTP flows, in order.
  ghost function Converted<R(!new)>(fp: bytes -> bool, convert: Flow -> Option<R>, flows: seq<Flow>): seq<R>
    requires AllImportable(fp, convert, flows)
  {
    if flows == [] then [] else ConvertedOne(convert, flows[0]) + Converted(fp, convert, flows[1..])
  }

  lemma RereadIsMap(flow: Flow)
    ensures Reread(flow) == map k | k in flow :: AsBytes(flow[k])
  {
    var keys := SortedKeys(flow.Keys);
    assert Reread(flow) == PairsAsBytes(Dict(flow), keys);
    assert forall k :: k in keys <==> k in flow;
  }

  lemma TextSurvives(v: Tnet)
    ensures BytesOrString(AsBytes(v)) == BytesOrString(v)
  {
  }

  lemma TypeSurvives(flow: Flow)
    ensures IsHttp(Reread(flow)) == IsHttp(flow)
  {
    RereadIsMap(flow);
    if TYPE_KEY in flow {
      TextSurvives(flow[TYPE_KEY]);
    }
  }

  // One turn of the loop on a flow read from the first bytes.
  lemma ImportsOne<R>(fp: bytes -> bool, convert: Flow -> Option<R>, e: bytes, rest: bytes, flow: Flow, seen: nat)
    requires Stream(fp, e + rest, 0) == Ok(Dict(flow), |e|) && seen < MAX_NATIVE_FLOWS
    requires IsHttp(flow) ==> convert(flow).Some?
    ensures Import(fp, convert, e + rest, seen) ==
            After(if IsHttp(flow) then [convert(flow).value] else [], Import(fp, convert, rest, seen + 1))
  {
    assert (e + rest)[|e|..] == rest;
    AfterNothing(Import(fp, convert, rest, seen + 1));
  }

  lemma ImportsFirst<R(!new)>(fp: bytes -> bool, convert: Flow -> Option<R>, flow: Flow, rest: bytes, seen: nat)
    requires Importable(fp, convert, flow) && seen < MAX_NATIVE_FLOWS
    ensures Import(fp, convert, Encode(Dict(flow)) + rest, seen) ==
            After(ConvertedOne(convert, flow), Import(fp, convert, rest, seen + 1))
  {
    RoundTrip(fp, Dict(flow), rest, 0);
    TypeSurvives(flow);
    ImportsOne(fp, convert, Encode(Dict(flow)), rest, Reread(flow), seen);
  }

  // Importing any concatenation of encoded flows returns the conversions of the HTTP flows, in
  // order, if there are at most 500,000 flows of any kind, and fails if there are more.
  lemma {:induction false} ImportsDump<R(!new)>(fp: bytes -> bool, convert: Flow -> Option<R>, flows: seq<Flow>, seen: nat)
    requires AllImportable(fp, convert, flows)
    ensures Import(fp, convert, Dump(flows), seen) ==
            if flows == [] || seen + |flows| <= 500_000 then Requests(Converted(fp, convert, flows))
            else Failed(TooManyFlows)
  {
    if flows != [] {
      if seen < MAX_NATIVE_FLOWS {
        ImportsFirst(fp, convert, flows[0], Dump(flows[1..]), seen);
        ImportsDump(fp, convert, flows[1..], seen + 1);
      } else {
        EncodeIsWrap(Dict(flows[0]));
      }
    }
  }

  // ---------------------------------------------------------------- with text marked as text

  // Flows in the full wire format; texts says which dictionary keys are marked as text.
  ghost function WireDump(flows: seq<Flow>, texts: bytes -> bool): bytes {
    if flows == [] then [] else Written(Dict(flows[0]), texts) + WireDump(flows[1..], texts)
  }

  ghost predicate WireImportable<R(!new)>(fp: bytes -> bool, convert: Flow -> Option<R>, texts: bytes -> bool, flow: Flow) {
    TnetWire.Within(fp, Dict(flow), texts, 0) && (OfHttp(flow) ==> convert(flow).Some?)
  }

  ghost predicate AllWireImportable<R(!new)>(fp: bytes -> bool, convert: Flow -> Option<R>, texts: bytes -> bool,
                                             flows: seq<Flow>)
  {
    flows != [] ==>
      WireImportable(fp, convert, texts, flows[0]) && AllWireImportable(fp, convert, texts, flows[1..])
  }

  ghost function ConvertedHttp<R>(convert: Flow -> Option<R>, flow: Flow): seq<R> {
    if OfHttp(flow) && convert(flow).Some? then [convert(flow).value] else []
  }

  ghost function AllConvertedHttp<R>(convert: Flow -> Option<R>, flows: seq<Flow>): seq<R> {
    if flows == [] then [] else ConvertedHttp(convert, flows[0]) + AllConvertedHttp(convert, flows[1..])
  }

  lemma ImportsFirstWritten<R(!new)>(fp: bytes -> bool, convert: Flow -> Option<R>, texts: bytes -> bool, flow: Flow,
                                     rest: bytes, seen: nat)
    requires WireImportable(fp, convert, texts, flow) && seen < MAX_NATIVE_FLOWS
    ensures Import(fp, convert, Written(Dict(flow), texts) + rest, seen) ==
            After(ConvertedHttp(convert, flow), Import(fp, convert, rest, seen + 1))
  {
    WireRoundTrip(fp, Dict(flow), texts, 0, rest);
    ImportsOne(fp, convert, Written(Dict(flow), texts), rest, flow, seen);
  }

  // The same of flows written with all eight markers: each HTTP flow is converted as it was, its
  // text still text, whether its type is text or not and however its keys are marked.
  lemma {:induction false} ImportsWireDump<R(!new)>(fp: bytes -> bool, convert: Flow -> Option<R>, texts: bytes -> bool,
                                                    flows: seq<Flow>, seen: nat)
    requires AllWireImportable(fp, convert, texts, flows)
    ensures Import(fp, convert, WireDump(flows, texts), seen) ==
            if flows == [] || seen + |flows| <= 500_000 then Requests(AllConvertedHttp(convert, flows))
            else Failed(TooManyFlows)
  {
    if flows != [] {
      if seen < MAX_NATIVE_FLOWS {
        ImportsFirstWritten(fp, convert, texts, flows[0], WireDump(flows[1..], texts), seen);
        ImportsWireDump(fp, convert, texts, flows[1..], seen + 1);
      }
    }
  }
}
