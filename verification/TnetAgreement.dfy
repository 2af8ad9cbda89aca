/**
 What the decoders do on arbitrary bytes: they agree with each other, they look no further than
 the element they return, and whatever they accept the encoder can write again, in no more bytes,
 for them to read back.
 */
module TnetAgreement {
  import opened ByteStrings
  import opened Tnetstrings
  import opened TnetRoundTrip

  // On every byte string both decoders accept or both refuse, and if they accept they return
  // the same value and consume the same bytes. (They may name different errors.)
  lemma DecodersAgree(fp: bytes -> bool, b: bytes, depth: nat)
    ensures Stream(fp, b, depth).Ok? <==> Inner(fp, b, depth).Ok?
    ensures Stream(fp, b, depth).Ok? ==> Stream(fp, b, depth) == Inner(fp, b, depth)
  {
    var s, i := LengthPrefix(b, MAX_ELEMENT), LengthPrefix(b, |b|);
    if s.Ok? && i.Ok? {
      assert s == i;
    }
  }

  lemma {:induction false} ScanPrefix(b: bytes, digits: bytes, n: nat, rest: bytes)
    requires AllDigits(digits) && ScanDigits(b, digits).Ok? && ScanDigits(b, digits).used <= n <= |b|
    ensures ScanDigits(b[..n] + rest, digits) == ScanDigits(b, digits)
  {
    var c := b[..n] + rest;
    if b[0] != COLON {
      ScanPrefix(b[1..], digits + [b[0]], n - 1, rest);
      assert c[1..] == b[1..][..n - 1] + rest;
    }
  }

  // A decoder's answer does not depend on the bytes after the element.
  lemma PrefixIndependent(fp: bytes -> bool, b: bytes, depth: nat, rest: bytes)
    requires Stream(fp, b, depth).Ok?
    ensures var n := Stream(fp, b, depth).used;
      && Stream(fp, b[..n] + rest, depth) == Stream(fp, b, depth)
      && Inner(fp, b[..n] + rest, depth) == Stream(fp, b, depth)
  {
    var n := Stream(fp, b, depth).used;
    var c := b[..n] + rest;
    var Ok(len, u) := LengthPrefix(b, MAX_ELEMENT);
    ScanPrefix(b, [], n, rest);
    assert c[u..u + len] == b[u..u + len] && c[u + len] == b[u + len];
    DecodersAgree(fp, c, depth);
  }

  // ---------------------------------------------------------------- decoded values fit

  lemma {:induction false} DecimalIsShortest(s: bytes)
    requires AllDigits(s) && s != []
    ensures |Decimal(Value(s))| <= |s|
  {
    var t, d := s[..|s| - 1], s[|s| - 1] - ZERO;
    if t != [] {
      DecimalIsShortest(t);
      assert Value(s) / 10 == Value(t);
    } else {
      assert Value(t) == 0;
    }
  }

  lemma {:induction false} DecimalGrows(m: nat, n: nat)
    requires m <= n
    ensures |Decimal(m)| <= |Decimal(n)|
  {
    if m >= 10 {
      DecimalGrows(m / 10, n / 10);
    }
  }

  lemma IntIsShortest(s: bytes)
    requires ParseInt(s).Some?
    ensures |FormatInt(ParseInt(s).value)| <= |s|
  {
    if s[0] == MINUS || s[0] == PLUS {
      DecimalIsShortest(s[1..]);
    } else {
      DecimalIsShortest(s);
    }
  }

  lemma {:induction false} ScanUses(b: bytes, digits: bytes)
    requires AllDigits(digits) && ScanDigits(b, digits).Ok?
    ensures |ScanDigits(b, digits).value| == |digits| + ScanDigits(b, digits).used - 1
  {
    if b[0] != COLON {
      ScanUses(b[1..], digits + [b[0]]);
    }
  }

  lemma WrapLength(b: bytes, maxLen: nat, p: bytes, marker: byte)
    requires LengthPrefix(b, maxLen).Ok? && |p| <= LengthPrefix(b, maxLen).value
    ensures var Ok(n, u) := LengthPrefix(b, maxLen); |Wrap(p, marker)| <= u + n + 1
  {
    var Ok(n, u) := LengthPrefix(b, maxLen);
    ScanUses(b, []);
    DecimalIsShortest(ScanDigits(b, []).value);
    DecimalGrows(|p|, n);
  }

  // A decoded value is within the encoder's reach, and its encoding is no longer than what was read.
  lemma {:induction false} DecodedFits(fp: bytes -> bool, b: bytes, depth: nat)
    requires Inner(fp, b, depth).Ok?
    ensures var Ok(v, used) := Inner(fp, b, depth); Fits(fp, v, depth) && |Encode(v)| <= used
    decreases |b|, 1
  {
    var Ok(n, u) := LengthPrefix(b, |b|);
    var Ok(v, used) := Inner(fp, b, depth);
    PayloadFits(fp, b[u + n], b[u..u + n], depth);
    WrapLength(b, |b|, Payload(v), Marker(v));
    EncodeIsWrap(v);
  }

  lemma {:induction false} PayloadFits(fp: bytes -> bool, marker: byte, payload: bytes, depth: nat)
    requires depth <= MAX_DEPTH && |payload| <= MAX_ELEMENT && ParsePayload(fp, marker, payload, depth).Good?
    ensures var v := ParsePayload(fp, marker, payload, depth).value;
      Fits(fp, v, depth) && |Payload(v)| <= |payload|
    decreases |payload|, 4
  {
    if marker == BRACKET {
      ListPayloadFits(fp, payload, depth);
    } else if marker == BRACE {
      DictPayloadFits(fp, payload, depth);
    } else if marker == HASH {
      IntIsShortest(payload);
    }
  }

  lemma {:induction false} ListPayloadFits(fp: bytes -> bool, payload: bytes, depth: nat)
    requires depth <= MAX_DEPTH && |payload| <= MAX_ELEMENT && ParseList(fp, payload, depth + 1, 0).Good?
    ensures var v := List(ParseList(fp, payload, depth + 1, 0).value);
      Fits(fp, v, depth) && |Payload(v)| <= |payload|
    decreases |payload|, 4, 0
  {
    ListFits(fp, payload, depth + 1, 0);
  }

  lemma {:induction false} DictPayloadFits(fp: bytes -> bool, payload: bytes, depth: nat)
    requires depth <= MAX_DEPTH && |payload| <= MAX_ELEMENT && ParseDict(fp, payload, depth + 1, 0).Good?
    ensures var v := Dict(ParseDict(fp, payload, depth + 1, 0).value);
      Fits(fp, v, depth) && |Payload(v)| <= |payload|
    decreases |payload|, 4, 0
  {
    var m := ParseDict(fp, payload, depth + 1, 0).value;
    var keys := SortedKeys(m.Keys);
    SortedAreDistinct(keys);
    DictFits(fp, payload, depth + 1, 0, m, keys);
    DictCount(fp, payload, depth + 1, 0, m);
  }

  lemma {:induction false} ListFits(fp: bytes -> bool, payload: bytes, depth: nat, count: nat)
    requires ParseList(fp, payload, depth, count).Good? && count <= MAX_ELEMENTS
    ensures var items := ParseList(fp, payload, depth, count).value;
      AllFit(fp, items, depth) && |EncodeItems(items)| <= |payload| && count + |items| <= MAX_ELEMENTS
    decreases |payload|, 3
  {
    if payload != [] {
      var Ok(v, used) := Inner(fp, payload, depth);
      DecodedFits(fp, payload, depth);
      ListFits(fp, payload[used..], depth, count + 1);
      var rest := ParseList(fp, payload[used..], depth, count + 1).value;
      assert ([v] + rest)[1..] == rest;
    }
  }

  ghost predicate Distinct(keys: seq<bytes>) {
    keys != [] ==> keys[0] !in keys[1..] && Distinct(keys[1..])
  }

  lemma {:induction false} SortedAreDistinct(keys: seq<bytes>)
    requires forall i, j :: 0 <= i < j < |keys| ==> Compare(keys[i], keys[j]) < 0
    ensures Distinct(keys)
  {
    if keys != [] {
      assert forall j :: 0 < j < |keys| ==> Compare(keys[0], keys[j]) < 0;
      SortedAreDistinct(keys[1..]);
    }
  }

  // The keys are keys of the dict with these entries, and its pairs for them fit in n bytes.
  ghost predicate PairsWithin(fp: bytes -> bool, m: map<bytes, Tnet>, keys: seq<bytes>, depth: nat, n: nat) {
    (forall k <- keys :: k in m) && PairsFit(fp, Dict(m), keys, depth) && |EncodePairs(Dict(m), keys)| <= n
  }

  // The pair fits the caps and its encoding takes at most n bytes.
  ghost predicate PairTakes(fp: bytes -> bool, k: bytes, v: Tnet, depth: nat, n: nat) {
    depth <= MAX_DEPTH && |k| <= MAX_ELEMENT && Fits(fp, v, depth) && |Wrap(k, COMMA)| + |Encode(v)| <= n
  }

  lemma NoPairs(fp: bytes -> bool, depth: nat)
    ensures PairsWithin(fp, map[], [], depth, 0)
  {
  }

  // Any selection of a decoded dict's keys, without repetition, encodes within the payload.
  lemma {:induction false} DictFits(fp: bytes -> bool, payload: bytes, depth: nat, count: nat,
                                    m: map<bytes, Tnet>, keys: seq<bytes>)
    requires ParseDict(fp, payload, depth, count) == Good(m) && Distinct(keys) && forall k <- keys :: k in m
    ensures PairsWithin(fp, m, keys, depth, |payload|)
    decreases |payload|, 3, 1
  {
    assert keys == [] || keys[0] in m;
    if payload == [] {
      NoPairs(fp, depth);
    } else {
      var k, v, used, rest := FirstPair(fp, payload, depth, count);
      RestFits(fp, payload, depth, count, k, v, used, rest, keys);
    }
  }

  lemma {:induction false} RestFits(fp: bytes -> bool, payload: bytes, depth: nat, count: nat,
                                    k: bytes, v: Tnet, used: nat, rest: map<bytes, Tnet>, keys: seq<bytes>)
    requires ParsePair(fp, payload, depth) == Ok((k, v), used) && 0 < used <= |payload|
    requires ParseDict(fp, payload[used..], depth, count + 1) == Good(rest)
    requires Distinct(keys) && forall l <- keys :: l == k || l in rest
    ensures PairsWithin(fp, map[k := v] + rest, keys, depth, |payload|)
    decreases |payload|, 3, 0
  {
    PairFits(fp, payload, depth);
    DictFits(fp, payload[used..], depth, count + 1, rest, Others(rest, k, keys));
    AddFirst(fp, rest, k, v, keys, depth, |payload| - used, used);
  }

  lemma {:induction false} DictCount(fp: bytes -> bool, payload: bytes, depth: nat, count: nat,
                                     m: map<bytes, Tnet>)
    requires ParseDict(fp, payload, depth, count) == Good(m) && count <= MAX_ELEMENTS
    ensures count + |m| <= MAX_ELEMENTS
    decreases |payload|
  {
    if payload == [] {
      assert m == map[];
    } else {
      var k, v, used, rest := FirstPair(fp, payload, depth, count);
      DictCount(fp, payload[used..], depth, count + 1, rest);
      CountOver(rest, k, v);
    }
  }

  lemma CountOver(m: map<bytes, Tnet>, k: bytes, v: Tnet)
    ensures |map[k := v] + m| <= 1 + |m|
  {
    assert (map[k := v] + m).Keys == {k} + m.Keys;
  }

  lemma AddFirst(fp: bytes -> bool, m: map<bytes, Tnet>, k: bytes, v: Tnet, keys: seq<bytes>,
                 depth: nat, n: nat, used: nat)
    requires Distinct(keys) && (forall l <- keys :: l == k || l in m)
    requires PairsWithin(fp, m, Others(m, k, keys), depth, n)
    requires PairTakes(fp, k, v, depth, used)
    ensures PairsWithin(fp, map[k := v] + m, keys, depth, n + used)
  {
    if k in m {
      assert map[k := v] + m == m;
    } else {
      AddPair(fp, m, k, v, keys, depth, n, used);
    }
  }

  lemma FirstPair(fp: bytes -> bool, payload: bytes, depth: nat, count: nat)
    returns (k: bytes, v: Tnet, used: nat, rest: map<bytes, Tnet>)
    requires ParseDict(fp, payload, depth, count).Good? && payload != []
    ensures count < MAX_ELEMENTS && ParsePair(fp, payload, depth) == Ok((k, v), used) && 0 < used <= |payload|
    ensures ParseDict(fp, payload[used..], depth, count + 1) == Good(rest)
    ensures ParseDict(fp, payload, depth, count).value == map[k := v] + rest
  {
    k, v, used := ParsePair(fp, payload, depth).value.0, ParsePair(fp, payload, depth).value.1,
      ParsePair(fp, payload, depth).used;
    rest := ParseDict(fp, payload[used..], depth, count + 1).value;
  }

  function Without(keys: seq<bytes>, k: bytes): (fewer: seq<bytes>)
    ensures forall l :: l in fewer <==> l in keys && l != k
    ensures Distinct(keys) ==> Distinct(fewer)
  {
    if keys == [] then []
    else if keys[0] == k then Without(keys[1..], k)
    else [keys[0]] + Without(keys[1..], k)
  }

  // The keys that m has, when every key but k is one of its own.
  ghost function Others(m: map<bytes, Tnet>, k: bytes, keys: seq<bytes>): (others: seq<bytes>)
    ensures Distinct(keys) ==> Distinct(others)
    ensures (forall l <- keys :: l == k || l in m) ==> forall l <- others :: l in m
  {
    if k in m then keys else Without(keys, k)
  }

  lemma {:induction false} WithoutAbsent(keys: seq<bytes>, k: bytes)
    requires k !in keys
    ensures Without(keys, k) == keys
  {
    if keys != [] {
      WithoutAbsent(keys[1..], k);
    }
  }

  // A new key adds at most its own pair to the encoding.
  lemma {:induction false} AddPair(fp: bytes -> bool, m: map<bytes, Tnet>, k: bytes, v: Tnet, keys: seq<bytes>,
                                   depth: nat, n: nat, used: nat)
    requires k !in m && Distinct(keys) && (forall l <- keys :: l == k || l in m)
    requires PairsWithin(fp, m, Without(keys, k), depth, n)
    requires PairTakes(fp, k, v, depth, used)
    ensures PairsWithin(fp, map[k := v] + m, keys, depth, n + used)
  {
    var m' := map[k := v] + m;
    if keys == [] {
    } else if keys[0] == k {
      WithoutAbsent(keys[1..], k);
      SamePairs(fp, m, m', keys[1..], depth);
    } else {
      var l := keys[0];
      var first := |Wrap(l, COMMA)| + |Encode(m[l])|;
      assert Without(keys, k)[0] == l && Without(keys, k)[1..] == Without(keys[1..], k);
      AddPair(fp, m, k, v, keys[1..], depth, n - first, used);
    }
  }

  lemma {:induction false} PairFits(fp: bytes -> bool, payload: bytes, depth: nat)
    requires ParsePair(fp, payload, depth).Ok?
    ensures var Ok((k, v), used) := ParsePair(fp, payload, depth); PairTakes(fp, k, v, depth, used)
    decreases |payload|, 2
  {
    var Ok(key, u) := Inner(fp, payload, depth);
    DecodedFits(fp, payload, depth);
    DecodedFits(fp, payload[u..], depth);
    assert |Encode(key)| <= u;
  }

  lemma {:induction false} SamePairs(fp: bytes -> bool, a: map<bytes, Tnet>, b: map<bytes, Tnet>, keys: seq<bytes>,
                                     depth: nat)
    requires forall k <- keys :: k in a && k in b && a[k] == b[k]
    ensures PairsFit(fp, Dict(a), keys, depth) == PairsFit(fp, Dict(b), keys, depth)
    ensures EncodePairs(Dict(a), keys) == EncodePairs(Dict(b), keys)
  {
    if keys != [] {
      SamePairs(fp, a, b, keys[1..], depth);
    }
  }

  // So for every input that is accepted, the decoded value can be encoded and decoded again,
  // and comes back unchanged (strings as bytes) from no more bytes than the input had.
  lemma AcceptedRoundTrips(fp: bytes -> bool, b: bytes, depth: nat, rest: bytes)
    requires Stream(fp, b, depth).Ok?
    ensures var Ok(v, used) := Stream(fp, b, depth);
      |Encode(v)| <= used && Stream(fp, Encode(v) + rest, depth) == Ok(AsBytes(v), |Encode(v)|)
  {
    DecodersAgree(fp, b, depth);
    DecodedFits(fp, b, depth);
    RoundTrip(fp, Stream(fp, b, depth).value, rest, depth);
  }
}
