/**
 The tnetstring codec: the encoder of internal/tnetenc/tnetenc.go and the independent decoder
 of pkg/importer/tnetstring.go, as functions on byte strings.

 fp says which texts strconv.ParseFloat accepts; a float is represented by its text.
 */
module Tnetstrings {
  import opened ByteStrings

  datatype Tnet =
    | Null
    | Bytes(b: bytes)
    | Str(s: bytes)
    | Bool(flag: bool)
    | Int(n: int)
    | Float(text: bytes)
    | List(items: seq<Tnet>)
    | Dict(entries: map<bytes, Tnet>)

  datatype Error =
    | TooDeep | TruncatedPrefix | BadPrefixByte | TooManyDigits | EmptyPrefix | ElementTooBig | BeyondContainer
    | TruncatedPayload | NoMarker | BadInt | BadFloat | BadBool | NullWithPayload | UnknownMarker
    | TooManyElements | BadKey | KeyWithoutValue

  // used is the number of bytes consumed.
  datatype Parsed<T> = Ok(value: T, used: nat) | Err(error: Error)
  datatype Result<T> = Good(value: T) | Bad(error: Error)

  const COLON: byte := 58

  const COMMA: byte := 44
  const SEMICOLON: byte := 59
  const HASH: byte := 35
  const CARET: byte := 94
  const BANG: byte := 33
  const TILDE: byte := 126
  const BRACKET: byte := 93
  const BRACE: byte := 125

  const TRUE: bytes := [116, 114, 117, 101]
  const FALSE: bytes := [102, 97, 108, 115, 101]

  const MAX_DEPTH := 64
  const MAX_PREFIX_DIGITS := 9
  const MAX_ELEMENT := 64 * 1024 * 1024
  const MAX_ELEMENTS := 0x10_0000

  // ---------------------------------------------------------------- encoder

  // encodeWithMarker
  function Wrap(payload: bytes, marker: byte): bytes {
    Decimal(|payload|) + [COLON] + payload + [marker]
  }

  ghost function Encode(v: Tnet): bytes
    decreases v, 2
  {
    match v
    case Null => [ZERO, COLON, TILDE]
    case Bool(flag) => if flag then [ZERO + 4, COLON] + TRUE + [BANG] else [ZERO + 5, COLON] + FALSE + [BANG]
    case _ => Wrap(Payload(v), Marker(v))
  }

  function Marker(v: Tnet): byte {
    match v
    case Null => TILDE
    case Bytes(_) => COMMA
    case Str(_) => COMMA
    case Bool(_) => BANG
    case Int(_) => HASH
    case Float(_) => CARET
    case List(_) => BRACKET
    case Dict(_) => BRACE
  }

  ghost function Payload(v: Tnet): bytes
    decreases v, 1
  {
    match v
    case Null => []
    case Bytes(b) => b
    case Str(s) => s
    case Bool(flag) => if flag then TRUE else FALSE
    case Int(n) => FormatInt(n)
    case Float(text) => text
    case List(items) => EncodeItems(items)
    case Dict(entries) => EncodePairs(v, SortedKeys(entries.Keys))
  }

  ghost function EncodeItems(items: seq<Tnet>): bytes
    decreases items, 2
  {
    if items == [] then [] else Encode(items[0]) + EncodeItems(items[1..])
  }

  ghost function EncodePairs(dict: Tnet, keys: seq<bytes>): bytes
    requires dict.Dict? && forall k <- keys :: k in dict.entries
    decreases dict, 0, |keys|
  {
    if keys == [] then []
    else Wrap(keys[0], COMMA) + Encode(dict.entries[keys[0]]) + EncodePairs(dict, keys[1..])
  }

  // sort.Strings on the keys of a map.
  ghost predicate IsSortingOf(keys: set<bytes>, sorted: seq<bytes>) {
    && (forall k :: k in sorted <==> k in keys)
    && |sorted| == |keys|
    && forall i, j :: 0 <= i < j < |sorted| ==> Compare(sorted[i], sorted[j]) < 0
  }

  ghost function SortedKeys(keys: set<bytes>): (sorted: seq<bytes>)
    ensures IsSortingOf(keys, sorted)
  {
    SortingExists(keys);
    var sorted :| IsSortingOf(keys, sorted);
    sorted
  }

  lemma {:induction false} SortingExists(keys: set<bytes>)
    ensures exists sorted :: IsSortingOf(keys, sorted)
  {
    if keys == {} {
      assert IsSortingOf(keys, []);
    } else {
      var least := LeastKey(keys);
      SortingExists(keys - {least});
      var rest :| IsSortingOf(keys - {least}, rest);
      PutLeast(keys, least, rest);
    }
  }

  lemma PutLeast(keys: set<bytes>, least: bytes, rest: seq<bytes>)
    requires least in keys && forall k <- keys :: k != least ==> Compare(least, k) < 0
    requires IsSortingOf(keys - {least}, rest)
    ensures IsSortingOf(keys, [least] + rest)
  {
    forall i, j | 0 <= i < j < |rest| + 1 ensures Compare(([least] + rest)[i], ([least] + rest)[j]) < 0 {
      if i == 0 {
        assert rest[j - 1] in keys - {least};
      }
    }
  }

  lemma {:induction false} LeastKey(keys: set<bytes>) returns (least: bytes)
    requires keys != {}
    ensures least in keys && forall k <- keys :: k != least ==> Compare(least, k) < 0
  {
    var x :| x in keys;
    var rest := keys - {x};
    assert forall k <- keys :: k == x || k in rest;
    if rest == {} {
      least := x;
    } else {
      var y := LeastKey(rest);
      CompareFlips(x, y);
      least := if Compare(x, y) < 0 then x else y;
      forall k | k in keys && k != least ensures Compare(least, k) < 0 {
        if least == x && k != y {
          CompareTransitive(x, y, k);
          assert Compare(y, k) < 0;
        }
      }
    }
  }

  // ---------------------------------------------------------------- decoder

  // The digits of a length prefix up to its ':', after the digits already read. The digit cap
  // is checked only once a byte is known to be a digit.
  function ScanDigits(b: bytes, digits: bytes): (r: Parsed<bytes>)
    requires AllDigits(digits)
    ensures r.Ok? ==> 0 < r.used <= |b| && AllDigits(r.value)
  {
    if b == [] then Err(TruncatedPrefix)
    else if b[0] == COLON then Ok(digits, 1)
    else if !(ZERO <= b[0] <= NINE) then Err(BadPrefixByte)
    else if |digits| == MAX_PREFIX_DIGITS then Err(TooManyDigits)
    else
      match ScanDigits(b[1..], digits + [b[0]])
      case Ok(all, used) => Ok(all, used + 1)
      case Err(e) => Err(e)
  }

  // readLengthPrefix
  function LengthPrefix(b: bytes, maxLen: nat): (r: Parsed<nat>)
    ensures r.Ok? ==> 0 < r.used <= |b| && r.value <= maxLen
  {
    match ScanDigits(b, [])
    case Err(e) => Err(e)
    case Ok(digits, used) =>
      if digits == [] then Err(EmptyPrefix)
      else if Value(digits) > MAX_ELEMENT then Err(ElementTooBig)
      else if Value(digits) > maxLen then Err(BeyondContainer)
      else Ok(Value(digits), used)
  }

  // decodeTnetstringStream: the length is bounded only by the element cap.
  function Stream(fp: bytes -> bool, b: bytes, depth: nat): (r: Parsed<Tnet>)
    ensures r.Ok? ==> 0 < r.used <= |b|
  {
    if depth > MAX_DEPTH then Err(TooDeep)
    else
      match LengthPrefix(b, MAX_ELEMENT)
      case Err(e) => Err(e)
      case Ok(n, u) => Element(fp, b, n, u, depth)
  }

  // decodeTnetstringInner: the length is also bounded by what is left of the container.
  function Inner(fp: bytes -> bool, b: bytes, depth: nat): (r: Parsed<Tnet>)
    ensures r.Ok? ==> 0 < r.used <= |b|
    decreases |b|, 1
  {
    if depth > MAX_DEPTH then Err(TooDeep)
    else
      match LengthPrefix(b, |b|)
      case Err(e) => Err(e)
      case Ok(n, u) => Element(fp, b, n, u, depth)
  }

  // The payload of n bytes after a prefix of u bytes, and its marker.
  function Element(fp: bytes -> bool, b: bytes, n: nat, u: nat, depth: nat): (r: Parsed<Tnet>)
    requires 0 < u <= |b|
    ensures r.Ok? ==> 0 < r.used <= |b|
    decreases |b|, 0
  {
    if n > |b| - u then Err(TruncatedPayload)
    else if u + n == |b| then Err(NoMarker)
    else
      Spanning(ParsePayload(fp, b[u + n], b[u..u + n], depth), u + n + 1)
  }

  function Spanning<T>(r: Result<T>, used: nat): Parsed<T> {
    match r
    case Good(v) => Ok(v, used)
    case Bad(e) => Err(e)
  }

  // parseTnetPayload
  function ParsePayload(fp: bytes -> bool, marker: byte, payload: bytes, depth: nat): Result<Tnet>
    decreases |payload|, 4
  {
    if marker == COMMA then Good(Bytes(payload))
    else if marker == SEMICOLON then Good(Str(payload))
    else if marker == HASH then
      match ParseInt(payload) case Some(n) => Good(Int(n)) case None => Bad(BadInt)
    else if marker == CARET then
      if fp(payload) then Good(Float(payload)) else Bad(BadFloat)
    else if marker == BANG then
      if payload == TRUE then Good(Bool(true)) else if payload == FALSE then Good(Bool(false)) else Bad(BadBool)
    else if marker == TILDE then
      if payload == [] then Good(Null) else Bad(NullWithPayload)
    else if marker == BRACKET then
      match ParseList(fp, payload, depth + 1, 0) case Good(vs) => Good(List(vs)) case Bad(e) => Bad(e)
    else if marker == BRACE then
      match ParseDict(fp, payload, depth + 1, 0) case Good(m) => Good(Dict(m)) case Bad(e) => Bad(e)
    else Bad(UnknownMarker)
  }

  // parseTnetList, with count elements parsed so far.
  function ParseList(fp: bytes -> bool, payload: bytes, depth: nat, count: nat): Result<seq<Tnet>>
    decreases |payload|, 3
  {
    if payload == [] then Good([])
    else if count >= MAX_ELEMENTS then Bad(TooManyElements)
    else
      match Inner(fp, payload, depth)
      case Err(e) => Bad(e)
      case Ok(v, used) =>
        Onto([v], ParseList(fp, payload[used..], depth, count + 1))
  }

  function Onto(head: seq<Tnet>, r: Result<seq<Tnet>>): (all: Result<seq<Tnet>>)
    ensures head == [] ==> all == r
    ensures r == Good([]) ==> all == Good(head)
  {
    match r
    case Good(tail) =>
      assert [] + tail == tail && head + [] == head;
      Good(head + tail)
    case Bad(e) => Bad(e)
  }

  // parseTnetDict, with count pairs parsed so far; a later pair overrides an earlier one.
  function ParseDict(fp: bytes -> bool, payload: bytes, depth: nat, count: nat): Result<map<bytes, Tnet>>
    decreases |payload|, 3
  {
    if payload == [] then Good(map[])
    else if count >= MAX_ELEMENTS then Bad(TooManyElements)
    else
      match ParsePair(fp, payload, depth)
      case Err(e) => Bad(e)
      case Ok((k, v), used) =>
        Over(map[k := v], ParseDict(fp, payload[used..], depth, count + 1))
  }

  // Later pairs override earlier ones.
  function Over(first: map<bytes, Tnet>, r: Result<map<bytes, Tnet>>): Result<map<bytes, Tnet>> {
    match r
    case Good(later) => Good(first + later)
    case Bad(e) => Bad(e)
  }

  // One key and its value.
  function ParsePair(fp: bytes -> bool, payload: bytes, depth: nat): (r: Parsed<(bytes, Tnet)>)
    ensures r.Ok? ==> 0 < r.used <= |payload|
    decreases |payload|, 2
  {
    match Inner(fp, payload, depth)
    case Err(e) => Err(e)
    case Ok(keyVal, u) =>
      match CoerceDictKey(keyVal)
      case None => Err(BadKey)
      case Some(key) =>
        if u == |payload| then Err(KeyWithoutValue)
        else
          match Inner(fp, payload[u..], depth)
          case Err(e) => Err(e)
          case Ok(v, w) => Ok((key, v), u + w)
  }

  function CoerceDictKey(v: Tnet): Option<bytes> {
    match v
    case Str(s) => Some(s)
    case Bytes(b) => Some(b)
    case _ => None
  }
}
