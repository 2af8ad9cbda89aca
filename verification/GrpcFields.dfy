/** Tags and fields of a Protocol Buffers message: ParseTag and WalkFields of internal/grpcwire/frame.go. */
module GrpcFields {
  import opened ByteStrings
  import opened GrpcWire

  const MAX_FIELD_NUMBER := 0x1FFF_FFFF

  const VARINT := 0
  const FIXED64 := 1
  const LENGTH_DELIM := 2
  const FIXED32 := 5

  datatype Tag = Tag(fieldNumber: nat, wireType: nat)

  datatype Field = Field(tag: Tag, value: bytes)

  // The callback's answer after each call; it may remember the calls made so far.
  type Visitor = seq<Field> -> bool

  // The calls made to the callback, and the error returned.
  datatype Walked = Walked(visited: seq<Field>, error: Option<WireError>)

  function TagOf(v: nat): Parsed<Tag> {
    if v / 8 == 0 then Err(FieldNumberZero)
    else if v / 8 > MAX_FIELD_NUMBER then Err(FieldNumberTooBig)
    else Ok(Tag(v / 8, v % 8), 0)
  }

  function ParseTag(b: bytes): (r: Parsed<Tag>)
    ensures r.Ok? ==> 0 < r.used <= |b|
  {
    var v := ParseVarint(b);
    if v.Err? then Err(v.error)
    else
      var t := TagOf(v.value);
      if t.Err? then t else Ok(t.value, v.used)
  }

  // The value after a tag: what the callback gets, and how far to move.
  function ReadValue(wireType: nat, b: bytes): (r: Parsed<bytes>)
    ensures r.Ok? ==> |r.value| <= r.used <= |b| && r.value == b[r.used - |r.value|..r.used]
  {
    if wireType == VARINT then
      var v := ParseVarint(b);
      if v.Err? then Err(v.error) else Ok(b[..v.used], v.used)
    else if wireType == FIXED64 then
      if |b| < 8 then Err(Fixed64Truncated) else Ok(b[..8], 8)
    else if wireType == LENGTH_DELIM then
      var v := ParseVarint(b);
      if v.Err? then Err(v.error)
      else if |b| - v.used < v.value then Err(LengthDelimTruncated)
      else Ok(b[v.used..v.used + v.value], v.used + v.value)
    else if wireType == FIXED32 then
      if |b| < 4 then Err(Fixed32Truncated) else Ok(b[..4], 4)
    else Err(UnsupportedWireType)
  }

  function ReadField(b: bytes): (r: Parsed<Field>)
    ensures r.Ok? ==> 0 < r.used <= |b|
  {
    var t := ParseTag(b);
    if t.Err? then Err(t.error)
    else
      var v := ReadValue(t.value.wireType, b[t.used..]);
      if v.Err? then Err(v.error) else Ok(Field(t.value, v.value), t.used + v.used)
  }

  function WalkFrom(b: bytes, fn: Visitor, visited: seq<Field>): Walked
    decreases |b|
  {
    if b == [] then Walked(visited, None)
    else
      var f := ReadField(b);
      if f.Err? then Walked(visited, Some(f.error))
      else
        var seen := visited + [f.value];
        if !fn(seen) then Walked(seen, None) else WalkFrom(b[f.used..], fn, seen)
  }

  method RunParseTag(b: bytes) returns (r: Parsed<Tag>)
    ensures r == ParseTag(b)
  {
    var v := RunParseVarint(b);
    if v.Err? {
      return Err(v.error);
    }
    var fieldNum := v.value / 8;
    if fieldNum == 0 {
      return Err(FieldNumberZero);
    }
    if fieldNum > MAX_FIELD_NUMBER {
      return Err(FieldNumberTooBig);
    }
    return Ok(Tag(fieldNum, v.value % 8), v.used);
  }

  // One case of the source's switch: the bytes to hand over and the bytes left.
  method RunReadValue(wireType: nat, rest: bytes) returns (r: Parsed<bytes>)
    ensures r == ReadValue(wireType, rest)
  {
    var b := rest;
    if wireType == VARINT {
      var v := RunParseVarint(b);
      if v.Err? {
        return Err(v.error);
      }
      return Ok(b[..v.used], v.used);
    } else if wireType == FIXED64 {
      if |b| < 8 {
        return Err(Fixed64Truncated);
      }
      return Ok(b[..8], 8);
    } else if wireType == LENGTH_DELIM {
      var length := RunParseVarint(b);
      if length.Err? {
        return Err(length.error);
      }
      b := b[length.used..];
      if |b| < length.value {
        return Err(LengthDelimTruncated);
      }
      assert b[..length.value] == rest[length.used..length.used + length.value];
      return Ok(b[..length.value], length.used + length.value);
    } else if wireType == FIXED32 {
      if |b| < 4 {
        return Err(Fixed32Truncated);
      }
      return Ok(b[..4], 4);
    } else {
      return Err(UnsupportedWireType);
    }
  }

  method RunWalkFields(message: bytes, fn: Visitor) returns (r: Walked)
    ensures r == WalkFrom(message, fn, [])
  {
    var b := message;
    var visited := [];
    while |b| > 0
      invariant WalkFrom(b, fn, visited) == WalkFrom(message, fn, [])
      decreases |b|
    {
      var tag := RunParseTag(b);
      if tag.Err? {
        return Walked(visited, Some(tag.error));
      }
      var value := RunReadValue(tag.value.wireType, b[tag.used..]);
      if value.Err? {
        return Walked(visited, Some(value.error));
      }
      visited := visited + [Field(tag.value, value.value)];
      if !fn(visited) {
        return Walked(visited, None);
      }
      assert b[tag.used..][value.used..] == b[tag.used + value.used..];
      b := b[tag.used..][value.used..];
    }
    return Walked(visited, None);
  }

  // ---------------------------------------------------------------- tags

  // The message starts with a varint of n bytes whose value lies between lo and hi.
  ghost predicate StartsWithin(b: bytes, n: nat, lo: nat, hi: nat) {
    n <= |b| && IsVarint(b[..n]) && lo <= Groups(b[..n]) < hi
  }

  // A tag of n bytes is a varint of that length that holds a valid field number above three bits
  // of wire type.
  lemma TagAccepts(b: bytes, n: nat, tag: Tag)
    ensures ParseTag(b) == Ok(tag, n) <==>
            && n <= |b| && IsVarint(b[..n])
            && 1 <= tag.fieldNumber <= 536_870_911 && tag.wireType < 8
            && Groups(b[..n]) == 8 * tag.fieldNumber + tag.wireType
  {
    if n <= |b| {
      VarintAccepts(b, n);
      EightTimes(Groups(b[..n]), tag.fieldNumber, tag.wireType);
      if ParseVarint(b).Ok? {
        VarintAccepts(b, ParseVarint(b).used);
        TagSplits(ParseVarint(b).value, tag);
      }
    }
  }

  lemma EightTimes(v: nat, n: nat, w: nat)
    ensures v == 8 * n + w && w < 8 <==> v / 8 == n && v % 8 == w
  {
  }

  lemma TagSplits(v: nat, tag: Tag)
    ensures TagOf(v) == Ok(tag, 0) <==>
            v == 8 * tag.fieldNumber + tag.wireType && tag.wireType < 8 && 1 <= tag.fieldNumber <= MAX_FIELD_NUMBER
  {
    EightTimes(v, tag.fieldNumber, tag.wireType);
  }

  // The message starts with a varint whose value lies between lo and hi.
  ghost predicate Starts(b: bytes, lo: nat, hi: nat) {
    exists n: nat :: StartsWithin(b, n, lo, hi)
  }

  lemma StartsIs(b: bytes, lo: nat, hi: nat)
    ensures Starts(b, lo, hi) <==> ParseVarint(b).Ok? && lo <= ParseVarint(b).value < hi
  {
    var v := ParseVarint(b);
    if v.Ok? && lo <= v.value < hi {
      VarintAccepts(b, v.used);
      assert StartsWithin(b, v.used, lo, hi);
    }
    if Starts(b, lo, hi) {
      var n: nat :| StartsWithin(b, n, lo, hi);
      VarintAccepts(b, n);
    }
  }

  lemma TagOfRefuses(v: nat, e: WireError)
    ensures TagOf(v) == Err(e) <==>
            (e == FieldNumberZero && v < 8) || (e == FieldNumberTooBig && v >= 8 * (MAX_FIELD_NUMBER + 1))
  {
  }

  lemma VarintRange(b: bytes)
    ensures match ParseVarint(b)
            case Ok(v, _) => v < Pow2(64)
            case Err(e) => e != FieldNumberZero && e != FieldNumberTooBig
  {
  }

  // The refusals: a varint with no field number in it, one with a number too big, or no varint.
  lemma TagRefuses(b: bytes, e: WireError)
    ensures ParseTag(b) == Err(e) <==>
            || (e == FieldNumberZero && Starts(b, 0, 8))
            || (e == FieldNumberTooBig && Starts(b, 8 * 536_870_912, Pow2(64)))
            || ParseVarint(b) == Err(e)
  {
    StartsIs(b, 0, 8);
    StartsIs(b, 8 * (MAX_FIELD_NUMBER + 1), Pow2(64));
    VarintRange(b);
    if ParseVarint(b).Ok? {
      TagOfRefuses(ParseVarint(b).value, e);
    }
  }

  // ---------------------------------------------------------------- tiling

  // How one field lies in a message: tag bytes, length bytes (only for a length-delimited
  // field), and the value.
  datatype Tile = Tile(tagBytes: bytes, lengthBytes: bytes, field: Field)

  ghost predicate TileFits(t: Tile) {
    && TagFits(t.tagBytes, t.field.tag)
    && (t.field.tag.wireType == 2 || t.lengthBytes == [])
    && ValueFits(t.field.tag.wireType, t.lengthBytes, t.field.value)
  }

  ghost predicate TagFits(tagBytes: bytes, tag: Tag) {
    && 1 <= tag.fieldNumber <= 536_870_911
    && IsVarint(tagBytes) && Groups(tagBytes) == 8 * tag.fieldNumber + tag.wireType
  }

  ghost predicate ValueFits(wireType: nat, lengthBytes: bytes, value: bytes) {
    || (wireType == 0 && IsVarint(value))
    || (wireType == 1 && |value| == 8)
    || (wireType == 2 && IsVarint(lengthBytes) && Groups(lengthBytes) == |value|)
    || (wireType == 5 && |value| == 4)
  }

  ghost function Bytes(t: Tile): bytes {
    t.tagBytes + t.lengthBytes + t.field.value
  }

  // Tiles side by side, without gap or overlap.
  ghost function Laid(tiles: seq<Tile>): bytes {
    if tiles == [] then [] else Bytes(tiles[0]) + Laid(tiles[1..])
  }

  ghost function FieldsOf(tiles: seq<Tile>): seq<Field> {
    if tiles == [] then [] else [tiles[0].field] + FieldsOf(tiles[1..])
  }

  ghost predicate AllFit(tiles: seq<Tile>) {
    tiles != [] ==> TileFits(tiles[0]) && AllFit(tiles[1..])
  }

  ghost predicate Tiles(tiles: seq<Tile>, message: bytes, fields: seq<Field>) {
    AllFit(tiles) && Laid(tiles) == message && FieldsOf(tiles) == fields
  }

  // Some way to lay the fields, in this order, makes the message.
  ghost predicate Tiled(message: bytes, fields: seq<Field>) {
    exists tiles :: Tiles(tiles, message, fields)
  }

  lemma ValueReads(wireType: nat, lengthBytes: bytes, value: bytes, rest: bytes)
    requires ValueFits(wireType, lengthBytes, value)
    requires wireType == LENGTH_DELIM || lengthBytes == []
    ensures ReadValue(wireType, lengthBytes + value + rest) == Ok(value, |lengthBytes| + |value|)
  {
    var b := lengthBytes + value + rest;
    assert b[|lengthBytes|..|lengthBytes| + |value|] == value;
    if wireType == VARINT {
      assert b == value + rest;
      VarintReads(value, rest);
    } else if wireType == LENGTH_DELIM {
      assert b == lengthBytes + (value + rest);
      VarintReads(lengthBytes, value + rest);
    } else {
      assert b[..|value|] == value;
    }
  }

  lemma TagReads(t: Tile, more: bytes)
    requires TileFits(t)
    ensures ParseTag(t.tagBytes + more) == Ok(t.field.tag, |t.tagBytes|)
  {
    VarintReads(t.tagBytes, more);
    var n, w := t.field.tag.fieldNumber, t.field.tag.wireType;
    assert (8 * n + w) / 8 == n && (8 * n + w) % 8 == w;
  }

  lemma ReadFieldFrom(tagBytes: bytes, more: bytes, tag: Tag, value: bytes, n: nat)
    requires ParseTag(tagBytes + more) == Ok(tag, |tagBytes|)
    requires n <= |more| && ReadValue(tag.wireType, more) == Ok(value, n)
    ensures ReadField(tagBytes + more) == Ok(Field(tag, value), |tagBytes| + n)
  {
    assert (tagBytes + more)[|tagBytes|..] == more;
  }

  lemma Regroup(a: bytes, b: bytes, c: bytes, d: bytes)
    ensures (a + b + c) + d == a + (b + c + d)
  {
  }

  lemma TileValueReads(t: Tile, rest: bytes)
    requires TileFits(t)
    ensures ReadValue(t.field.tag.wireType, t.lengthBytes + t.field.value + rest)
         == Ok(t.field.value, |t.lengthBytes| + |t.field.value|)
  {
    ValueReads(t.field.tag.wireType, t.lengthBytes, t.field.value, rest);
  }

  lemma TileReadsApart(t: Tile, more: bytes, n: nat)
    requires TileFits(t) && n <= |more| && ReadValue(t.field.tag.wireType, more) == Ok(t.field.value, n)
    ensures ReadField(t.tagBytes + more) == Ok(t.field, |t.tagBytes| + n)
  {
    TagReads(t, more);
    ReadFieldFrom(t.tagBytes, more, t.field.tag, t.field.value, n);
  }

  lemma BytesBefore(t: Tile, rest: bytes)
    ensures Bytes(t) + rest == t.tagBytes + (t.lengthBytes + t.field.value + rest)
    ensures |Bytes(t)| == |t.tagBytes| + (|t.lengthBytes| + |t.field.value|)
  {
    Regroup(t.tagBytes, t.lengthBytes, t.field.value, rest);
  }

  lemma TileReadsSplit(t: Tile, rest: bytes)
    requires TileFits(t)
    ensures ReadField(t.tagBytes + (t.lengthBytes + t.field.value + rest))
         == Ok(t.field, |t.tagBytes| + (|t.lengthBytes| + |t.field.value|))
  {
    TileValueReads(t, rest);
    TileReadsApart(t, t.lengthBytes + t.field.value + rest, |t.lengthBytes| + |t.field.value|);
  }

  lemma TileReads(t: Tile, rest: bytes)
    requires TileFits(t)
    ensures ReadField(Bytes(t) + rest) == Ok(t.field, |Bytes(t)|)
  {
    TileReadsSplit(t, rest);
    BytesBefore(t, rest);
  }

  // The tile under a field whose tag ends at i and whose value ends at n.
  ghost function TileAt(b: bytes, i: nat, n: nat, f: Field): Tile
    requires i <= n - |f.value| <= n <= |b|
  {
    Tile(b[..i], b[i..n - |f.value|], f)
  }

  // The tile under the field at the head of a message.
  ghost function HeadTile(b: bytes): Tile
    requires ReadField(b).Ok?
  {
    TileAt(b, ParseTag(b).used, ReadField(b).used, ReadField(b).value)
  }

  lemma ValueIsTiled(wireType: nat, b: bytes)
    requires ReadValue(wireType, b).Ok?
    ensures var r := ReadValue(wireType, b);
            ValueFits(wireType, b[..r.used - |r.value|], r.value) && (wireType == LENGTH_DELIM || r.used == |r.value|)
  {
    if wireType == VARINT || wireType == LENGTH_DELIM {
      VarintAccepts(b, ParseVarint(b).used);
    }
  }

  lemma SliceOfSlice(b: bytes, i: nat, j: nat, n: nat)
    requires i <= j <= n <= |b|
    ensures b[i..][j - i..n - i] == b[j..n]
  {
  }

  lemma SliceBytes(b: bytes, i: nat, j: nat, n: nat, f: Field)
    requires i <= j <= n <= |b| && f.value == b[j..n]
    ensures Bytes(Tile(b[..i], b[i..j], f)) == b[..n]
  {
  }

  lemma FieldBytes(b: bytes, i: nat, n: nat, f: Field)
    requires i <= n <= |b| && |f.value| <= n - i && f.value == b[i..][n - i - |f.value|..n - i]
    ensures Bytes(TileAt(b, i, n, f)) == b[..n]
  {
    SliceOfSlice(b, i, n - |f.value|, n);
    SliceBytes(b, i, n - |f.value|, n, f);
  }

  lemma LengthFits(b: bytes, i: nat, n: nat, f: Field)
    requires i <= n <= |b| && ReadValue(f.tag.wireType, b[i..]) == Ok(f.value, n - i)
    ensures ValueFits(f.tag.wireType, b[i..n - |f.value|], f.value)
    ensures f.tag.wireType == LENGTH_DELIM || b[i..n - |f.value|] == []
  {
    ValueIsTiled(f.tag.wireType, b[i..]);
    SliceOfSlice(b, i, i, n - |f.value|);
  }

  lemma HeadTagFits(b: bytes, n: nat, tag: Tag)
    requires n <= |b| && ParseTag(b) == Ok(tag, n)
    ensures TagFits(b[..n], tag)
  {
    TagAccepts(b, n, tag);
  }

  lemma TileAtFits(b: bytes, i: nat, n: nat, f: Field)
    requires i <= n - |f.value| <= n <= |b|
    requires TagFits(b[..i], f.tag) && ValueFits(f.tag.wireType, b[i..n - |f.value|], f.value)
    requires f.tag.wireType == LENGTH_DELIM || b[i..n - |f.value|] == []
    ensures TileFits(TileAt(b, i, n, f))
  {
  }

  lemma FieldFits(b: bytes, i: nat, n: nat, f: Field)
    requires i <= n <= |b| && ReadValue(f.tag.wireType, b[i..]) == Ok(f.value, n - i)
    requires TagFits(b[..i], f.tag)
    ensures TileFits(TileAt(b, i, n, f))
  {
    LengthFits(b, i, n, f);
    TileAtFits(b, i, n, f);
  }

  lemma FieldCovers(b: bytes, i: nat, n: nat, f: Field)
    requires i <= n <= |b| && ReadValue(f.tag.wireType, b[i..]) == Ok(f.value, n - i)
    ensures Bytes(TileAt(b, i, n, f)) == b[..n]
  {
    FieldBytes(b, i, n, f);
  }

  lemma HeadReads(b: bytes)
    requires ReadField(b).Ok?
    ensures var (t, f) := (ParseTag(b), ReadField(b));
            && t.Ok? && f.value.tag == t.value && t.used <= f.used <= |b|
            && ReadValue(t.value.wireType, b[t.used..]) == Ok(f.value.value, f.used - t.used)
  {
  }

  lemma HeadFits(b: bytes)
    requires ReadField(b).Ok?
    ensures TileFits(HeadTile(b)) && Bytes(HeadTile(b)) == b[..ReadField(b).used]
  {
    HeadReads(b);
    HeadTagFits(b, ParseTag(b).used, ParseTag(b).value);
    FieldFits(b, ParseTag(b).used, ReadField(b).used, ReadField(b).value);
    FieldCovers(b, ParseTag(b).used, ReadField(b).used, ReadField(b).value);
  }

  predicate KeepsGoing(fn: Visitor, visited: seq<Field>, n: nat)
    requires n <= |visited|
    decreases |visited| - n
  {
    n == |visited| || (fn(visited[..n + 1]) && KeepsGoing(fn, visited, n + 1))
  }

  lemma WalkStep(b: bytes, fn: Visitor, visited: seq<Field>, f: Field, n: nat)
    requires b != [] && n <= |b| && ReadField(b) == Ok(f, n) && fn(visited + [f])
    ensures WalkFrom(b, fn, visited) == WalkFrom(b[n..], fn, visited + [f])
  {
  }

  lemma KeepsGoingStep(fn: Visitor, visited: seq<Field>, f: Field, rest: seq<Field>)
    requires KeepsGoing(fn, visited + ([f] + rest), |visited|)
    ensures fn(visited + [f]) && KeepsGoing(fn, (visited + [f]) + rest, |visited| + 1)
    ensures visited + ([f] + rest) == (visited + [f]) + rest
  {
    PutField(visited, f, rest);
    FrontOf(visited + [f], rest);
  }

  lemma FrontOf(front: seq<Field>, rest: seq<Field>)
    ensures (front + rest)[..|front|] == front
  {
  }

  lemma WalkTile(t: Tile, more: bytes, fn: Visitor, visited: seq<Field>)
    requires TileFits(t) && fn(visited + [t.field])
    ensures WalkFrom(Bytes(t) + more, fn, visited) == WalkFrom(more, fn, visited + [t.field])
  {
    TileReads(t, more);
    assert (Bytes(t) + more)[|Bytes(t)|..] == more;
    WalkStep(Bytes(t) + more, fn, visited, t.field, |Bytes(t)|);
  }

  // A message that tiles is walked field by field.
  lemma {:induction false} TilesAreWalked(tiles: seq<Tile>, fn: Visitor, visited: seq<Field>)
    requires AllFit(tiles)
    requires KeepsGoing(fn, visited + FieldsOf(tiles), |visited|)
    ensures WalkFrom(Laid(tiles), fn, visited) == Walked(visited + FieldsOf(tiles), None)
    decreases tiles
  {
    if tiles == [] {
      assert visited + [] == visited;
    } else {
      var t, rest := tiles[0], tiles[1..];
      KeepsGoingStep(fn, visited, t.field, FieldsOf(rest));
      TilesAreWalked(rest, fn, visited + [t.field]);
      WalkTile(t, Laid(rest), fn, visited);
    }
  }

  lemma PutTile(b: bytes, rest: seq<Tile>)
    requires ReadField(b).Ok? && AllFit(rest) && Laid(rest) == b[ReadField(b).used..]
    ensures var tiles := [HeadTile(b)] + rest;
            AllFit(tiles) && Laid(tiles) == b && FieldsOf(tiles) == [ReadField(b).value] + FieldsOf(rest)
  {
    HeadFits(b);
    var tiles := [HeadTile(b)] + rest;
    assert tiles[1..] == rest;
    assert b == b[..ReadField(b).used] + b[ReadField(b).used..];
  }

  lemma PutField(visited: seq<Field>, f: Field, rest: seq<Field>)
    ensures (visited + [f]) + rest == visited + ([f] + rest)
  {
  }

  // A walk that meets no error and is not stopped visits the fields of some tiling.
  lemma {:induction false} WalkIsTiled(b: bytes, fn: Visitor, visited: seq<Field>, w: Walked) returns (tiles: seq<Tile>)
    requires w == WalkFrom(b, fn, visited) && w.error.None?
    requires |visited| <= |w.visited| && KeepsGoing(fn, w.visited, |visited|)
    ensures AllFit(tiles) && Laid(tiles) == b && w.visited == visited + FieldsOf(tiles)
    decreases |b|
  {
    if b == [] {
      tiles := [];
    } else {
      var f := ReadField(b);
      GoesOn(b, fn, visited, w);
      var rest := WalkIsTiled(b[f.used..], fn, visited + [f.value], w);
      tiles := [HeadTile(b)] + rest;
      PutTile(b, rest);
      PutField(visited, f.value, FieldsOf(rest));
    }
  }

  lemma GoesOn(b: bytes, fn: Visitor, visited: seq<Field>, w: Walked)
    requires b != [] && w == WalkFrom(b, fn, visited) && w.error.None?
    requires |visited| <= |w.visited| && KeepsGoing(fn, w.visited, |visited|)
    ensures ReadField(b).Ok? && |visited| < |w.visited| && KeepsGoing(fn, w.visited, |visited| + 1)
    ensures w == WalkFrom(b[ReadField(b).used..], fn, visited + [ReadField(b).value])
  {
    var f := ReadField(b);
    var seen := visited + [f.value];
    if !fn(seen) {
      GoesTo(fn, seen, |visited|);
      assert false;
    }
    VisitedGrows(b[f.used..], fn, seen);
    WalkStep(b, fn, visited, f.value, f.used);
  }

  lemma GoesTo(fn: Visitor, seen: seq<Field>, n: nat)
    requires n + 1 == |seen| && KeepsGoing(fn, seen, n)
    ensures fn(seen)
  {
    assert seen[..|seen|] == seen;
  }

  lemma {:induction false} VisitedGrows(b: bytes, fn: Visitor, visited: seq<Field>)
    ensures visited <= WalkFrom(b, fn, visited).visited
    decreases |b|
  {
    if b != [] && ReadField(b).Ok? {
      var f := ReadField(b);
      if fn(visited + [f.value]) {
        VisitedGrows(b[f.used..], fn, visited + [f.value]);
      }
    }
  }

  // The walk accepts a message to its end, with these calls, exactly when the fields tile it.
  lemma WalkTiles(message: bytes, fn: Visitor, fields: seq<Field>)
    requires KeepsGoing(fn, fields, 0)
    ensures WalkFrom(message, fn, []) == Walked(fields, None) <==> Tiled(message, fields)
  {
    if WalkFrom(message, fn, []) == Walked(fields, None) {
      var tiles := WalkIsTiled(message, fn, [], Walked(fields, None));
      assert [] + FieldsOf(tiles) == fields;
      assert Tiles(tiles, message, fields);
    }
    if Tiled(message, fields) {
      var tiles :| Tiles(tiles, message, fields);
      assert [] + FieldsOf(tiles) == fields;
      TilesAreWalked(tiles, fn, []);
    }
  }

  // Whatever the callback answers and however the walk ends, the fields visited tile the front
  // of the message; an error is the one met on reading a field where they end.
  lemma {:induction false} VisitedTilesFront(b: bytes, fn: Visitor, visited: seq<Field>)
      returns (tiles: seq<Tile>, rest: bytes)
    ensures AllFit(tiles) && Laid(tiles) + rest == b
    ensures var w := WalkFrom(b, fn, visited);
            && w.visited == visited + FieldsOf(tiles)
            && (w.error.Some? ==> rest != [] && ReadField(rest) == Err(w.error.value))
            && (w.error.None? && rest != [] ==> tiles != [] && !fn(w.visited))
    decreases |b|
  {
    if b == [] || ReadField(b).Err? {
      tiles, rest := [], b;
    } else {
      var f := ReadField(b);
      var seen := visited + [f.value];
      var more := b[f.used..];
      var later: seq<Tile>;
      if fn(seen) {
        later, rest := VisitedTilesFront(more, fn, seen);
      } else {
        later, rest := [], more;
      }
      tiles := [HeadTile(b)] + later;
      PutTileBefore(b, later, rest);
      PutField(visited, f.value, FieldsOf(later));
    }
  }

  lemma PutTileBefore(b: bytes, later: seq<Tile>, rest: bytes)
    requires ReadField(b).Ok? && AllFit(later) && Laid(later) + rest == b[ReadField(b).used..]
    ensures var tiles := [HeadTile(b)] + later;
            AllFit(tiles) && Laid(tiles) + rest == b && FieldsOf(tiles) == [ReadField(b).value] + FieldsOf(later)
  {
    HeadFits(b);
    PutFirst(HeadTile(b), later, rest);
    SplitAt(b, ReadField(b).used);
  }

  lemma SplitAt(b: bytes, n: nat)
    requires n <= |b|
    ensures b[..n] + b[n..] == b
  {
  }

  lemma PutFirst(t: Tile, later: seq<Tile>, rest: bytes)
    requires TileFits(t) && AllFit(later)
    ensures var tiles := [t] + later;
            && AllFit(tiles) && FieldsOf(tiles) == [t.field] + FieldsOf(later)
            && Laid(tiles) + rest == Bytes(t) + (Laid(later) + rest)
  {
    var tiles := [t] + later;
    assert tiles[0] == t && tiles[1..] == later;
  }

  // ---------------------------------------------------------------- encoding

  // What a field must satisfy to be written.
  ghost predicate Writable(f: Field) {
    && 1 <= f.tag.fieldNumber <= MAX_FIELD_NUMBER
    && |f.value| < Pow2(64)
    && (|| (f.tag.wireType == VARINT && IsVarint(f.value))
        || (f.tag.wireType == FIXED64 && |f.value| == 8)
        || f.tag.wireType == LENGTH_DELIM
        || (f.tag.wireType == FIXED32 && |f.value| == 4))
  }

  ghost predicate AllWritable(fields: seq<Field>) {
    fields != [] ==> Writable(fields[0]) && AllWritable(fields[1..])
  }

  function EncodeField(f: Field): bytes {
    EncodeVarint(8 * f.tag.fieldNumber + f.tag.wireType)
    + (if f.tag.wireType == LENGTH_DELIM then EncodeVarint(|f.value|) else [])
    + f.value
  }

  function EncodeFields(fields: seq<Field>): bytes {
    if fields == [] then [] else EncodeField(fields[0]) + EncodeFields(fields[1..])
  }

  lemma TagBelow(fieldNumber: nat, wireType: nat)
    requires fieldNumber <= MAX_FIELD_NUMBER && wireType < 8
    ensures 8 * fieldNumber + wireType < Pow2(64)
  {
    assert Pow2(8) == 256;
    Pow2Add(8, 8);
    Pow2Add(16, 16);
    Pow2Monotone(32, 64);
  }

  ghost function TileOf(f: Field): Tile {
    Tile(EncodeVarint(8 * f.tag.fieldNumber + f.tag.wireType),
      if f.tag.wireType == LENGTH_DELIM then EncodeVarint(|f.value|) else [], f)
  }

  lemma TileTagFits(tag: Tag)
    requires 1 <= tag.fieldNumber <= MAX_FIELD_NUMBER && tag.wireType < 8
    ensures TagFits(EncodeVarint(8 * tag.fieldNumber + tag.wireType), tag)
  {
    TagBelow(tag.fieldNumber, tag.wireType);
    EncodedIsVarint(8 * tag.fieldNumber + tag.wireType);
  }

  lemma TileOfFits(f: Field)
    requires Writable(f)
    ensures TileFits(TileOf(f)) && Bytes(TileOf(f)) == EncodeField(f)
  {
    TileTagFits(f.tag);
    if f.tag.wireType == LENGTH_DELIM {
      EncodedIsVarint(|f.value|);
    }
  }

  lemma {:induction false} EncodingTiles(fields: seq<Field>) returns (tiles: seq<Tile>)
    requires AllWritable(fields)
    ensures Tiles(tiles, EncodeFields(fields), fields)
  {
    if fields == [] {
      tiles := [];
    } else {
      var rest := EncodingTiles(fields[1..]);
      TileOfFits(fields[0]);
      tiles := [TileOf(fields[0])] + rest;
      assert tiles[1..] == rest;
    }
  }

  // Walking the encoding of any list of fields visits exactly that list.
  lemma WalkRoundTrip(fields: seq<Field>, fn: Visitor)
    requires AllWritable(fields) && KeepsGoing(fn, fields, 0)
    ensures WalkFrom(EncodeFields(fields), fn, []) == Walked(fields, None)
  {
    var tiles := EncodingTiles(fields);
    WalkTiles(EncodeFields(fields), fn, fields);
  }
}
