/**
 The two halves of the codec fit together: what the encoder writes, either decoder reads back,
 whatever bytes follow; and the two decoders agree on every byte string.
 */
module TnetRoundTrip {
  import opened ByteStrings
  import opened Tnetstrings

  // The value within the decoder's caps when it is read at the given depth: payload sizes,
  // entry counts, nesting, and int64 integers.
  ghost predicate Fits(fp: bytes -> bool, v: Tnet, depth: nat)
    decreases v, 2
  {
    && depth <= MAX_DEPTH && |Payload(v)| <= MAX_ELEMENT
    && match v
       case Int(n) => MIN_INT64 <= n <= MAX_INT64
       case Float(text) => fp(text)
       case List(items) => |items| <= MAX_ELEMENTS && AllFit(fp, items, depth + 1)
       case Dict(entries) => |entries| <= MAX_ELEMENTS && PairsFit(fp, v, SortedKeys(entries.Keys), depth + 1)
       case _ => true
  }

  ghost predicate AllFit(fp: bytes -> bool, items: seq<Tnet>, depth: nat)
    decreases items, 0
  {
    items != [] ==> Fits(fp, items[0], depth) && AllFit(fp, items[1..], depth)
  }

  ghost predicate PairsFit(fp: bytes -> bool, dict: Tnet, keys: seq<bytes>, depth: nat)
    requires dict.Dict? && forall k <- keys :: k in dict.entries
    decreases dict, 0, |keys|
  {
    keys != [] ==>
      && depth <= MAX_DEPTH && |keys[0]| <= MAX_ELEMENT
      && Fits(fp, dict.entries[keys[0]], depth) && PairsFit(fp, dict, keys[1..], depth)
  }

  // The encoder writes strings as byte strings.
  ghost function AsBytes(v: Tnet): Tnet
    decreases v, 2
  {
    match v
    case Str(s) => Bytes(s)
    case List(items) => List(AllAsBytes(items))
    case Dict(entries) => Dict(PairsAsBytes(v, SortedKeys(entries.Keys)))
    case _ => v
  }

  ghost function AllAsBytes(items: seq<Tnet>): (r: seq<Tnet>)
    ensures |r| == |items| && forall i :: 0 <= i < |items| ==> r[i] == AsBytes(items[i])
    decreases items, 0
  {
    if items == [] then [] else [AsBytes(items[0])] + AllAsBytes(items[1..])
  }

  ghost function PairsAsBytes(dict: Tnet, keys: seq<bytes>): (r: map<bytes, Tnet>)
    requires dict.Dict? && forall k <- keys :: k in dict.entries
    ensures r == map k | k in keys :: AsBytes(dict.entries[k])
    decreases dict, 0, |keys|
  {
    if keys == [] then map[] else map[keys[0] := AsBytes(dict.entries[keys[0]])] + PairsAsBytes(dict, keys[1..])
  }

  lemma {:induction false} ScanningDigits(ds: bytes, acc: bytes, rest: bytes)
    requires AllDigits(ds) && AllDigits(acc) && |acc| + |ds| <= MAX_PREFIX_DIGITS
    ensures ScanDigits(ds + [COLON] + rest, acc) == Ok(acc + ds, |ds| + 1)
  {
    var b := ds + [COLON] + rest;
    if ds == [] {
      assert b[0] == COLON && acc + ds == acc;
    } else {
      ScanningDigits(ds[1..], acc + [ds[0]], rest);
      assert b[1..] == ds[1..] + [COLON] + rest;
      assert acc + [ds[0]] + ds[1..] == acc + ds;
    }
  }

  lemma ReadsPrefix(n: nat, rest: bytes, maxLen: nat)
    requires n <= MAX_ELEMENT && n <= maxLen
    ensures LengthPrefix(Decimal(n) + [COLON] + rest, maxLen) == Ok(n, |Decimal(n)| + 1)
  {
    assert Pow10(9) == 1_000_000_000;
    DecimalLength(n, 9);
    ValueOfDecimal(n);
    ScanningDigits(Decimal(n), [], rest);
    assert [] + Decimal(n) == Decimal(n);
  }

  // Either decoder splits a wrapped payload off the front and parses it.
  lemma ReadsWrapped(fp: bytes -> bool, p: bytes, marker: byte, rest: bytes, depth: nat)
    requires |p| <= MAX_ELEMENT && depth <= MAX_DEPTH
    ensures var r := Spanning(ParsePayload(fp, marker, p, depth), |Wrap(p, marker)|);
      && Stream(fp, Wrap(p, marker) + rest, depth) == r
      && Inner(fp, Wrap(p, marker) + rest, depth) == r
  {
    var ds, b := Decimal(|p|), Wrap(p, marker) + rest;
    var tail := p + [marker] + rest;
    assert b == ds + [COLON] + tail;
    ReadsPrefix(|p|, tail, MAX_ELEMENT);
    ReadsPrefix(|p|, tail, |b|);
    ElementSplits(fp, ds + [COLON], p, marker, rest, depth);
    assert b == ds + [COLON] + p + [marker] + rest;
  }

  lemma ElementSplits(fp: bytes -> bool, head: bytes, p: bytes, marker: byte, rest: bytes, depth: nat)
    requires head != []
    ensures Element(fp, head + p + [marker] + rest, |p|, |head|, depth)
            == Spanning(ParsePayload(fp, marker, p, depth), |head| + |p| + 1)
  {
    var b := head + p + [marker] + rest;
    assert b[|head|..|head| + |p|] == p && b[|head| + |p|] == marker;
  }

  lemma EncodeIsWrap(v: Tnet)
    ensures Encode(v) == Wrap(Payload(v), Marker(v))
  {
  }

  // What ParsePayload makes of an encoded value.
  lemma {:induction false} PayloadRoundTrip(fp: bytes -> bool, v: Tnet, depth: nat)
    requires Fits(fp, v, depth)
    ensures ParsePayload(fp, Marker(v), Payload(v), depth) == Good(AsBytes(v))
    decreases v, 3
  {
    match v
    case Int(n) => ParseOfFormat(n);
    case List(items) => ListRoundTrip(fp, v, depth);
    case Dict(entries) => DictRoundTrip(fp, v, depth);
    case _ => assert ParsePayload(fp, Marker(v), Payload(v), depth) == Good(AsBytes(v));
  }

  lemma {:induction false} ListRoundTrip(fp: bytes -> bool, v: Tnet, depth: nat)
    requires v.List? && Fits(fp, v, depth)
    ensures ParsePayload(fp, BRACKET, Payload(v), depth) == Good(AsBytes(v))
    decreases v, 2
  {
    ReadsItems(fp, v.items, depth + 1, 0);
  }

  lemma {:induction false} DictRoundTrip(fp: bytes -> bool, v: Tnet, depth: nat)
    requires v.Dict? && Fits(fp, v, depth)
    ensures ParsePayload(fp, BRACE, Payload(v), depth) == Good(AsBytes(v))
    decreases v, 2
  {
    var keys := SortedKeys(v.entries.Keys);
    assert |keys| == |v.entries|;
    ReadsPairs(fp, v, keys, depth + 1, 0);
    assert AsBytes(v) == Dict(PairsAsBytes(v, keys));
  }

  // Decoding an encoded value gives the value back and consumes exactly its bytes.
  lemma {:induction false} RoundTrip(fp: bytes -> bool, v: Tnet, rest: bytes, depth: nat)
    requires Fits(fp, v, depth)
    ensures Stream(fp, Encode(v) + rest, depth) == Ok(AsBytes(v), |Encode(v)|)
    ensures Inner(fp, Encode(v) + rest, depth) == Ok(AsBytes(v), |Encode(v)|)
    decreases v, 4
  {
    EncodeIsWrap(v);
    ReadsWrapped(fp, Payload(v), Marker(v), rest, depth);
    PayloadRoundTrip(fp, v, depth);
  }

  lemma ListSteps(fp: bytes -> bool, b: bytes, rest: bytes, v: Tnet, depth: nat, count: nat)
    requires Inner(fp, b + rest, depth) == Ok(v, |b|) && count < MAX_ELEMENTS
    ensures ParseList(fp, b + rest, depth, count) ==
            match ParseList(fp, rest, depth, count + 1) case Good(vs) => Good([v] + vs) case Bad(e) => Bad(e)
  {
    assert (b + rest)[|b|..] == rest;
  }

  lemma DictSteps(fp: bytes -> bool, b: bytes, rest: bytes, k: bytes, v: Tnet, depth: nat, count: nat)
    requires ParsePair(fp, b + rest, depth) == Ok((k, v), |b|) && count < MAX_ELEMENTS
    ensures ParseDict(fp, b + rest, depth, count) ==
            match ParseDict(fp, rest, depth, count + 1) case Good(m) => Good(map[k := v] + m) case Bad(e) => Bad(e)
  {
    assert (b + rest)[|b|..] == rest;
  }

  lemma {:induction false} ReadsItems(fp: bytes -> bool, items: seq<Tnet>, depth: nat, count: nat)
    requires AllFit(fp, items, depth)
    requires count + |items| <= MAX_ELEMENTS
    ensures ParseList(fp, EncodeItems(items), depth, count) == Good(AllAsBytes(items))
    decreases items, 0
  {
    if items != [] {
      var rest := EncodeItems(items[1..]);
      RoundTrip(fp, items[0], rest, depth);
      ReadsItems(fp, items[1..], depth, count + 1);
      ListSteps(fp, Encode(items[0]), rest, AsBytes(items[0]), depth, count);
    }
  }

  lemma {:induction false} ReadsPairs(fp: bytes -> bool, dict: Tnet, keys: seq<bytes>, depth: nat, count: nat)
    requires dict.Dict? && (forall k <- keys :: k in dict.entries)
    requires PairsFit(fp, dict, keys, depth)
    requires count + |keys| <= MAX_ELEMENTS
    ensures ParseDict(fp, EncodePairs(dict, keys), depth, count) == Good(PairsAsBytes(dict, keys))
    decreases dict, 0, |keys|
  {
    if keys != [] {
      var k, v := keys[0], dict.entries[keys[0]];
      var rest := EncodePairs(dict, keys[1..]);
      ReadsPair(fp, k, v, rest, depth);
      ReadsPairs(fp, dict, keys[1..], depth, count + 1);
      DictSteps(fp, Wrap(k, COMMA) + Encode(v), rest, k, AsBytes(v), depth, count);
    }
  }

  lemma {:induction false} ReadsPair(fp: bytes -> bool, k: bytes, v: Tnet, rest: bytes, depth: nat)
    requires depth <= MAX_DEPTH && |k| <= MAX_ELEMENT && Fits(fp, v, depth)
    ensures ParsePair(fp, Wrap(k, COMMA) + Encode(v) + rest, depth)
            == Ok((k, AsBytes(v)), |Wrap(k, COMMA) + Encode(v)|)
    decreases v, 5
  {
    var key := Wrap(k, COMMA);
    var b := key + Encode(v) + rest;
    ReadsWrapped(fp, k, COMMA, Encode(v) + rest, depth);
    RoundTrip(fp, v, rest, depth);
    assert b == key + (Encode(v) + rest) && b[|key|..] == Encode(v) + rest;
  }
}
