/**
 The codec as the source runs it: readers that advance, loops that fill slices and maps, and
 mutual recursion between elements and containers. Every method computes the function of module
 Tnetstrings that has its name. A meter counts the payload bytes allocated at each nesting level.
 */
module TnetReaders {
  import opened ByteStrings
  import opened Tnetstrings

  // bufio.Reader or bytes.Reader: what is left to read of a byte string.
  class ByteReader {
    const data: bytes
    var pos: nat

    ghost predicate Valid()
      reads this
    {
      pos <= |data|
    }

    ghost function Rest(): bytes
      reads this
      requires Valid()
    {
      data[pos..]
    }

    constructor (data: bytes)
      ensures Valid() && this.data == data && pos == 0
    {
      this.data := data;
      pos := 0;
    }

    method ReadByte() returns (b: Option<byte>)
      requires Valid()
      modifies this
      ensures Valid()
      ensures old(Rest()) == [] ==> b == None && pos == old(pos)
      ensures old(Rest()) != [] ==> b == Some(old(Rest())[0]) && pos == old(pos) + 1 && Rest() == old(Rest())[1..]
    {
      if pos == |data| {
        return None;
      }
      b := Some(data[pos]);
      pos := pos + 1;
    }

    // io.ReadFull: all n bytes, or an error after the rest has been consumed.
    method ReadFull(n: nat) returns (p: Option<bytes>)
      requires Valid()
      modifies this
      ensures Valid() && pos >= old(pos)
      ensures n > |old(Rest())| ==> p == None
      ensures n <= |old(Rest())| ==>
        p == Some(old(Rest())[..n]) && pos == old(pos) + n && Rest() == old(Rest())[n..]
    {
      if n > |data| - pos {
        pos := |data|;
        return None;
      }
      p := Some(data[pos..pos + n]);
      assert data[pos..pos + n] == Rest()[..n] && data[pos + n..] == Rest()[n..];
      pos := pos + n;
    }
  }

  const LEVELS := MAX_DEPTH + 2

  class Meter {
    var level: seq<nat>

    constructor ()
      ensures level == seq(LEVELS, i => 0)
    {
      level := seq(LEVELS, i => 0);
    }

    method Allocate(depth: nat, n: nat)
      requires depth < |level|
      modifies this
      ensures level == old(level)[depth := old(level)[depth] + n]
    {
      level := level[depth := level[depth] + n];
    }
  }

  // What decoding at some depth may have allocated: nothing above, at each level no more than at
  // the level above it, and nothing beyond the depth limit.
  ghost predicate Nested(before: seq<nat>, after: seq<nat>, depth: nat) {
    && Tapers(before, after, depth)
    && (forall i :: 0 <= i < depth ==> after[i] == before[i])
  }

  ghost predicate Tapers(before: seq<nat>, after: seq<nat>, depth: nat) {
    && |before| == |after| == LEVELS && depth < LEVELS
    && (forall i :: depth <= i < LEVELS ==> before[i] <= after[i])
    && (forall i, j :: depth <= i && j == i + 1 && j < LEVELS ==> after[j] - before[j] <= after[i] - before[i])
    && after[LEVELS - 1] == before[LEVELS - 1]
  }

  // ... of which at most n at that depth itself.
  ghost predicate Within(before: seq<nat>, after: seq<nat>, depth: nat, n: nat) {
    Nested(before, after, depth) && after[depth] - before[depth] <= n
  }

  lemma WithinTwice(a: seq<nat>, b: seq<nat>, c: seq<nat>, depth: nat, m: nat, n: nat)
    requires Within(a, b, depth, m) && Within(b, c, depth, n)
    ensures Within(a, c, depth, m + n)
  {
  }

  // An element's own payload, then what its contents allocate one level down.
  lemma NestedInside(a: seq<nat>, b: seq<nat>, n: nat, depth: nat)
    requires |a| == LEVELS && depth <= MAX_DEPTH
    requires Within(a[depth := a[depth] + n], b, depth + 1, n)
    ensures Within(a, b, depth, n)
  {
  }

  // The sum of the levels from the given depth on.
  ghost function TotalFrom(level: seq<nat>, depth: nat): nat
    requires depth <= |level|
    decreases |level| - depth
  {
    if depth == |level| then 0 else level[depth] + TotalFrom(level, depth + 1)
  }

  // So an element that is decoded, or refused, at some depth allocates at most its own payload
  // once for each level that is left.
  lemma {:induction false} TotalAllocation(before: seq<nat>, after: seq<nat>, depth: nat, n: nat)
    requires Tapers(before, after, depth) && after[depth] - before[depth] <= n
    ensures TotalFrom(after, depth) - TotalFrom(before, depth) <= (LEVELS - 1 - depth) * n
    decreases LEVELS - depth
  {
    if depth < LEVELS - 1 {
      TotalAllocation(before, after, depth + 1, n);
      assert (LEVELS - 1 - depth) * n == n + (LEVELS - 2 - depth) * n;
    }
  }

  lemma ElementAllocation(before: seq<nat>, after: seq<nat>, depth: nat, n: nat)
    requires Within(before, after, depth, n)
    ensures TotalFrom(after, depth) <= TotalFrom(before, depth) + (LEVELS - 1 - depth) * n
  {
    TotalAllocation(before, after, depth, n);
  }

  // ---------------------------------------------------------------- decoder

  ghost function Advance<T>(r: Parsed<T>, k: nat): Parsed<T> {
    match r case Ok(v, used) => Ok(v, used + k) case Err(e) => Err(e)
  }

  // The result of reading, as a function computes it: the value, and the reader moved on.
  ghost predicate Returns<T(!new)>(r: Parsed<T>, res: Result<T>, start: nat, pos: nat) {
    match r case Ok(v, used) => res == Good(v) && pos == start + used case Err(e) => res == Bad(e)
  }

  method ReadLengthPrefix(r: ByteReader, maxLen: nat) returns (res: Result<nat>)
    requires r.Valid()
    modifies r
    ensures r.Valid() && r.pos >= old(r.pos)
    ensures Returns(LengthPrefix(old(r.Rest()), maxLen), res, old(r.pos), r.pos)
  {
    var digits: bytes := [];
    while true
      invariant r.Valid() && r.pos >= old(r.pos) && AllDigits(digits)
      invariant ScanDigits(old(r.Rest()), []) == Advance(ScanDigits(r.Rest(), digits), r.pos - old(r.pos))
      decreases |r.data| - r.pos
    {
      var next := r.ReadByte();
      if next == None {
        return Bad(TruncatedPrefix);
      }
      var b := next.value;
      if b == COLON {
        break;
      }
      if b < ZERO || b > NINE {
        return Bad(BadPrefixByte);
      }
      if |digits| == MAX_PREFIX_DIGITS {
        return Bad(TooManyDigits);
      }
      digits := digits + [b];
    }
    if |digits| == 0 {
      return Bad(EmptyPrefix);
    }
    var length := Value(digits);
    if length > MAX_ELEMENT {
      return Bad(ElementTooBig);
    }
    if length > maxLen {
      return Bad(BeyondContainer);
    }
    return Good(length);
  }

  // The payload bytes of the element at the front of b, as many as there are.
  function TopPayload(b: bytes): (n: nat)
    ensures n <= |b|
  {
    match LengthPrefix(b, MAX_ELEMENT)
    case Err(_) => 0
    case Ok(n, u) => if n <= |b| - u then n else |b| - u
  }

  // decodeTnetstringStream. What is allocated, accepted or not, goes by the element's own payload
  // and not by what else is in the stream.
  method DecodeStream(fp: bytes -> bool, r: ByteReader, meter: Meter, depth: nat) returns (res: Result<Tnet>)
    requires r.Valid() && |meter.level| == LEVELS && depth < LEVELS
    modifies r, meter
    ensures r.Valid() && r.pos >= old(r.pos) && r.Rest() == old(r.Rest())[r.pos - old(r.pos)..]
    ensures Within(old(meter.level), meter.level, depth, TopPayload(old(r.Rest())))
    ensures TotalFrom(meter.level, depth)
         <= TotalFrom(old(meter.level), depth) + (LEVELS - 1 - depth) * TopPayload(old(r.Rest()))
    ensures res.Good? ==> TopPayload(old(r.Rest())) < r.pos - old(r.pos)
    ensures Returns(Stream(fp, old(r.Rest()), depth), res, old(r.pos), r.pos)
  {
    if depth > MAX_DEPTH {
      ElementAllocation(meter.level, meter.level, depth, TopPayload(r.Rest()));
      return Bad(TooDeep);
    }
    var length := ReadLengthPrefix(r, MAX_ELEMENT);
    if length.Bad? {
      ElementAllocation(meter.level, meter.level, depth, TopPayload(old(r.Rest())));
      return Bad(length.error);
    }
    // The buffer grows only as bytes arrive.
    var arrived := if length.value <= |r.data| - r.pos then length.value else |r.data| - r.pos;
    assert arrived == TopPayload(old(r.Rest()));
    res := ReadElement(fp, r, meter, depth, length.value, arrived, old(r.Rest()), old(r.pos));
    ElementAllocation(old(meter.level), meter.level, depth, arrived);
  }

  // decodeTnetstringInner
  method DecodeInner(fp: bytes -> bool, r: ByteReader, meter: Meter, depth: nat) returns (res: Result<Tnet>)
    requires r.Valid() && |meter.level| == LEVELS && depth < LEVELS
    modifies r, meter
    ensures r.Valid() && r.pos >= old(r.pos) && Within(old(meter.level), meter.level, depth, |old(r.Rest())|)
    ensures res.Good? ==> Within(old(meter.level), meter.level, depth, r.pos - old(r.pos))
    ensures Returns(Inner(fp, old(r.Rest()), depth), res, old(r.pos), r.pos)
    decreases |r.Rest()|, 1
  {
    if depth > MAX_DEPTH {
      return Bad(TooDeep);
    }
    var length := ReadLengthPrefix(r, |r.data| - r.pos);
    if length.Bad? {
      return Bad(length.error);
    }
    res := ReadElement(fp, r, meter, depth, length.value, length.value, old(r.Rest()), old(r.pos));
  }

  // What both decoders do once they know the length n, having allocated a bytes for it. b was
  // left to read before the prefix.
  method ReadElement(fp: bytes -> bool, r: ByteReader, meter: Meter, depth: nat, n: nat, a: nat,
                     ghost b: bytes, ghost start: nat)
    returns (res: Result<Tnet>)
    requires r.Valid() && |meter.level| == LEVELS && depth <= MAX_DEPTH
    requires start < r.pos && r.pos - start <= |b| && r.Rest() == b[r.pos - start..]
    requires n <= |r.Rest()| ==> a == n
    modifies r, meter
    ensures r.Valid() && r.pos >= old(r.pos) && Within(old(meter.level), meter.level, depth, a)
    ensures res.Good? ==> r.pos > old(r.pos) + n
    ensures Returns(Element(fp, b, n, old(r.pos) - start, depth), res, start, r.pos)
    decreases |b|, 0
  {
    ghost var u := r.pos - start;
    meter.Allocate(depth, a);
    var payload := r.ReadFull(n);
    if payload == None {
      return Bad(TruncatedPayload);
    }
    assert payload.value == b[u..u + n] && r.Rest() == b[u + n..];
    var marker := r.ReadByte();
    if marker == None {
      return Bad(NoMarker);
    }
    assert marker.value == b[u + n];
    res := RunPayload(fp, marker.value, payload.value, meter, depth);
    NestedInside(old(meter.level), meter.level, n, depth);
  }

  // parseTnetPayload
  method RunPayload(fp: bytes -> bool, marker: byte, payload: bytes, meter: Meter, depth: nat)
    returns (res: Result<Tnet>)
    requires |meter.level| == LEVELS && depth <= MAX_DEPTH
    modifies meter
    ensures res == ParsePayload(fp, marker, payload, depth)
    ensures Within(old(meter.level), meter.level, depth + 1, |payload|)
    decreases |payload|, 4
  {
    if marker == BRACKET {
      var items := RunList(fp, payload, meter, depth + 1);
      res := match items case Good(vs) => Good(List(vs)) case Bad(e) => Bad(e);
    } else if marker == BRACE {
      var entries := RunDict(fp, payload, meter, depth + 1);
      res := match entries case Good(m) => Good(Dict(m)) case Bad(e) => Bad(e);
    } else {
      res := ParsePayload(fp, marker, payload, depth);
    }
  }

  // parseTnetList
  method RunList(fp: bytes -> bool, payload: bytes, meter: Meter, depth: nat) returns (res: Result<seq<Tnet>>)
    requires |meter.level| == LEVELS && depth < LEVELS
    modifies meter
    ensures res == ParseList(fp, payload, depth, 0)
    ensures Within(old(meter.level), meter.level, depth, |payload|)
    decreases |payload|, 3, 1
  {
    var r := new ByteReader(payload);
    assert r.Rest() == payload;
    res := RunItems(fp, r, meter, depth);
  }

  // One value of a list or dict being read since start, when the levels were before.
  method NextInner(fp: bytes -> bool, r: ByteReader, meter: Meter, depth: nat, ghost before: seq<nat>, ghost start: nat)
    returns (res: Result<Tnet>)
    requires r.Valid() && |meter.level| == LEVELS && depth < LEVELS
    requires start <= r.pos && Within(before, meter.level, depth, r.pos - start)
    modifies r, meter
    ensures r.Valid() && r.pos >= old(r.pos) && Within(before, meter.level, depth, |r.data| - start)
    ensures res.Good? ==> r.pos > old(r.pos) && Within(before, meter.level, depth, r.pos - start)
    ensures res.Good? ==> r.Rest() == old(r.Rest())[r.pos - old(r.pos)..]
    ensures Returns(Inner(fp, old(r.Rest()), depth), res, old(r.pos), r.pos)
    decreases |r.Rest()|, 2, 0
  {
    ghost var level, at := meter.level, r.pos;
    res := DecodeInner(fp, r, meter, depth);
    if res.Bad? {
      WithinTwice(before, level, meter.level, depth, at - start, |r.data| - at);
    } else {
      WithinTwice(before, level, meter.level, depth, at - start, r.pos - at);
    }
  }

  // parseTnetList's loop
  method RunItems(fp: bytes -> bool, r: ByteReader, meter: Meter, depth: nat) returns (res: Result<seq<Tnet>>)
    requires r.Valid() && |meter.level| == LEVELS && depth < LEVELS
    modifies r, meter
    ensures r.Valid() && Within(old(meter.level), meter.level, depth, |old(r.Rest())|)
    ensures res == ParseList(fp, old(r.Rest()), depth, 0)
    decreases |r.Rest()|, 3, 0
  {
    var result: seq<Tnet> := [];
    ghost var all := ParseList(fp, r.Rest(), depth, 0);
    OntoNothing(fp, r.Rest(), depth);
    while r.pos < |r.data|
      invariant r.Valid() && r.pos >= old(r.pos)
      invariant Within(old(meter.level), meter.level, depth, r.pos - old(r.pos))
      invariant ListSoFar(fp, all, result, r.Rest(), depth)
      decreases |r.data| - r.pos
    {
      ListNext(fp, all, result, r.Rest(), depth);
      if |result| >= MAX_ELEMENTS {
        return Bad(TooManyElements);
      }
      var val := NextInner(fp, r, meter, depth, old(meter.level), old(r.pos));
      if val.Bad? {
        return Bad(val.error);
      }
      result := result + [val.value];
    }
    OntoEnd(fp, all, result, depth);
    return Good(result);
  }

  // With head read and b still to be read, the whole list will come to all.
  ghost predicate ListSoFar(fp: bytes -> bool, all: Result<seq<Tnet>>, head: seq<Tnet>, b: bytes, depth: nat) {
    all == Onto(head, ParseList(fp, b, depth, |head|))
  }

  lemma OntoNothing(fp: bytes -> bool, b: bytes, depth: nat)
    ensures ListSoFar(fp, ParseList(fp, b, depth, 0), [], b, depth)
  {
    var r := ParseList(fp, b, depth, 0);
    if r.Good? {
      assert [] + r.value == r.value;
    }
  }

  lemma OntoEnd(fp: bytes -> bool, all: Result<seq<Tnet>>, head: seq<Tnet>, depth: nat)
    requires ListSoFar(fp, all, head, [], depth)
    ensures all == Good(head)
  {
    assert head + [] == head;
  }

  lemma ListNext(fp: bytes -> bool, all: Result<seq<Tnet>>, head: seq<Tnet>, b: bytes, depth: nat)
    requires ListSoFar(fp, all, head, b, depth) && b != []
    ensures |head| >= MAX_ELEMENTS ==> all == Bad(TooManyElements)
    ensures |head| < MAX_ELEMENTS ==>
      var r := Inner(fp, b, depth);
      && (r.Ok? ==> ListSoFar(fp, all, head + [r.value], b[r.used..], depth))
      && (r.Err? ==> all == Bad(r.error))
  {
    var r := Inner(fp, b, depth);
    if r.Ok? {
      OntoNext(head, r.value, ParseList(fp, b[r.used..], depth, |head| + 1));
    }
  }

  lemma OntoNext(head: seq<Tnet>, v: Tnet, r: Result<seq<Tnet>>)
    ensures Onto(head, Onto([v], r)) == Onto(head + [v], r)
  {
    if r.Good? {
      assert head + ([v] + r.value) == head + [v] + r.value;
    }
  }

  // parseTnetDict
  method RunDict(fp: bytes -> bool, payload: bytes, meter: Meter, depth: nat) returns (res: Result<map<bytes, Tnet>>)
    requires |meter.level| == LEVELS && depth < LEVELS
    modifies meter
    ensures res == ParseDict(fp, payload, depth, 0)
    ensures Within(old(meter.level), meter.level, depth, |payload|)
    decreases |payload|, 3, 1
  {
    var r := new ByteReader(payload);
    assert r.Rest() == payload;
    res := RunPairs(fp, r, meter, depth);
  }

  // parseTnetDict's loop
  method RunPairs(fp: bytes -> bool, r: ByteReader, meter: Meter, depth: nat)
    returns (res: Result<map<bytes, Tnet>>)
    requires r.Valid() && |meter.level| == LEVELS && depth < LEVELS
    modifies r, meter
    ensures r.Valid() && Within(old(meter.level), meter.level, depth, |old(r.Rest())|)
    ensures res == ParseDict(fp, old(r.Rest()), depth, 0)
    decreases |r.Rest()|, 3, 0
  {
    var result: map<bytes, Tnet> := map[];
    var pairsParsed := 0;
    ghost var all := ParseDict(fp, r.Rest(), depth, 0);
    OverNothing(fp, r.Rest(), depth);
    while r.pos < |r.data|
      invariant r.Valid() && r.pos >= old(r.pos)
      invariant Within(old(meter.level), meter.level, depth, r.pos - old(r.pos))
      invariant DictSoFar(fp, all, result, r.Rest(), depth, pairsParsed)
      decreases |r.data| - r.pos
    {
      DictNext(fp, all, result, r.Rest(), depth, pairsParsed);
      if pairsParsed >= MAX_ELEMENTS {
        return Bad(TooManyElements);
      }
      var pair := RunPair(fp, r, meter, depth, old(meter.level), old(r.pos));
      if pair.Bad? {
        return Bad(pair.error);
      }
      result := result[pair.value.0 := pair.value.1];
      pairsParsed := pairsParsed + 1;
    }
    OverEnd(fp, all, result, depth, pairsParsed);
    return Good(result);
  }

  // With first stored and b still to be read, the whole dict will come to all.
  ghost predicate DictSoFar(fp: bytes -> bool, all: Result<map<bytes, Tnet>>, first: map<bytes, Tnet>,
                            b: bytes, depth: nat, count: nat) {
    all == Over(first, ParseDict(fp, b, depth, count))
  }

  lemma OverNothing(fp: bytes -> bool, b: bytes, depth: nat)
    ensures DictSoFar(fp, ParseDict(fp, b, depth, 0), map[], b, depth, 0)
  {
    var r := ParseDict(fp, b, depth, 0);
    if r.Good? {
      assert map[] + r.value == r.value;
    }
  }

  lemma OverEnd(fp: bytes -> bool, all: Result<map<bytes, Tnet>>, first: map<bytes, Tnet>, depth: nat, count: nat)
    requires DictSoFar(fp, all, first, [], depth, count)
    ensures all == Good(first)
  {
    assert first + map[] == first;
  }

  lemma DictNext(fp: bytes -> bool, all: Result<map<bytes, Tnet>>, first: map<bytes, Tnet>,
                 b: bytes, depth: nat, count: nat)
    requires DictSoFar(fp, all, first, b, depth, count) && b != []
    ensures count >= MAX_ELEMENTS ==> all == Bad(TooManyElements)
    ensures count < MAX_ELEMENTS ==>
      var r := ParsePair(fp, b, depth);
      && (r.Ok? ==> DictSoFar(fp, all, first[r.value.0 := r.value.1], b[r.used..], depth, count + 1))
      && (r.Err? ==> all == Bad(r.error))
  {
    var r := ParsePair(fp, b, depth);
    if r.Ok? {
      OverNext(first, r.value.0, r.value.1, ParseDict(fp, b[r.used..], depth, count + 1));
    }
  }

  lemma OverNext(first: map<bytes, Tnet>, k: bytes, v: Tnet, r: Result<map<bytes, Tnet>>)
    ensures Over(first, Over(map[k := v], r)) == Over(first[k := v], r)
  {
    if r.Good? {
      assert first + (map[k := v] + r.value) == first[k := v] + r.value;
    }
  }

  // The body of parseTnetDict's loop, up to the store.
  method RunPair(fp: bytes -> bool, r: ByteReader, meter: Meter, depth: nat, ghost before: seq<nat>, ghost start: nat)
    returns (res: Result<(bytes, Tnet)>)
    requires r.Valid() && |meter.level| == LEVELS && depth < LEVELS
    requires start <= r.pos && Within(before, meter.level, depth, r.pos - start)
    modifies r, meter
    ensures r.Valid() && r.pos >= old(r.pos) && Within(before, meter.level, depth, |r.data| - start)
    ensures res.Good? ==> r.pos > old(r.pos) && Within(before, meter.level, depth, r.pos - start)
    ensures res.Good? ==> r.Rest() == old(r.Rest())[r.pos - old(r.pos)..]
    ensures Returns(ParsePair(fp, old(r.Rest()), depth), res, old(r.pos), r.pos)
    decreases |r.Rest()|, 2, 1
  {
    var keyVal := NextInner(fp, r, meter, depth, before, start);
    if keyVal.Bad? {
      return Bad(keyVal.error);
    }
    var key := CoerceDictKey(keyVal.value);
    if key == None {
      return Bad(BadKey);
    }
    if r.pos == |r.data| {
      return Bad(KeyWithoutValue);
    }
    var val := NextInner(fp, r, meter, depth, before, start);
    if val.Bad? {
      return Bad(val.error);
    }
    return Good((key.value, val.value));
  }
}
