/**
 The decoder inverts the wire format: every value within the caps, written with all eight markers,
 decodes to itself, byte strings and text strings kept apart.
 */
module TnetWire {
  import opened ByteStrings
  import opened Tnetstrings
  import opened TnetRoundTrip
  import opened TnetGrammar

  ghost function Framed(p: bytes, m: byte): bytes {
    Decimal(|p|) + [58] + p + [m]
  }

  // v on the wire; texts says which dictionary keys are marked as text.
  ghost function Written(v: Tnet, texts: bytes -> bool): bytes
    decreases v, 2
  {
    match v
    case Bytes(b) => Framed(b, 44)
    case Str(s) => Framed(s, 59)
    case Int(n) => Framed(if n < 0 then [45] + Decimal(-n) else Decimal(n), 35)
    case Float(text) => Framed(text, 94)
    case Bool(flag) => Framed(if flag then [116, 114, 117, 101] else [102, 97, 108, 115, 101], 33)
    case Null => Framed([], 126)
    case List(vs) => Framed(WrittenAll(vs, texts), 93)
    case Dict(d) => Framed(WrittenPairs(v, SortedKeys(d.Keys), texts), 125)
  }

  ghost function WrittenAll(vs: seq<Tnet>, texts: bytes -> bool): bytes
    decreases vs, 2
  {
    if vs == [] then [] else Written(vs[0], texts) + WrittenAll(vs[1..], texts)
  }

  ghost function WrittenKey(k: bytes, texts: bytes -> bool): bytes {
    Framed(k, if texts(k) then 59 else 44)
  }

  ghost function WrittenPairs(dict: Tnet, keys: seq<bytes>, texts: bytes -> bool): bytes
    requires dict.Dict? && forall k <- keys :: k in dict.entries
    decreases dict, 0, |keys|
  {
    if keys == [] then []
    else WrittenKey(keys[0], texts) + Written(dict.entries[keys[0]], texts) + WrittenPairs(dict, keys[1..], texts)
  }

  // The decoder's caps, for v on the wire at the given depth.
  ghost predicate Within(fp: bytes -> bool, v: Tnet, texts: bytes -> bool, depth: nat)
    decreases v, 2
  {
    && depth <= 64
    && match v
       case Bytes(b) => |b| <= 67_108_864
       case Str(s) => |s| <= 67_108_864
       case Int(n) => -0x8000_0000_0000_0000 <= n <= 0x7fff_ffff_ffff_ffff
       case Float(text) => fp(text) && |text| <= 67_108_864
       case List(vs) => |vs| <= 1_048_576 && |WrittenAll(vs, texts)| <= 67_108_864 && AllWithin(fp, vs, texts, depth + 1)
       case Dict(d) =>
         var keys := SortedKeys(d.Keys);
         |d| <= 1_048_576 && |WrittenPairs(v, keys, texts)| <= 67_108_864 && PairsWithin(fp, v, keys, texts, depth + 1)
       case _ => true
  }

  ghost predicate AllWithin(fp: bytes -> bool, vs: seq<Tnet>, texts: bytes -> bool, depth: nat)
    decreases vs, 2
  {
    vs != [] ==> Within(fp, vs[0], texts, depth) && AllWithin(fp, vs[1..], texts, depth)
  }

  ghost predicate PairsWithin(fp: bytes -> bool, dict: Tnet, keys: seq<bytes>, texts: bytes -> bool, depth: nat)
    requires dict.Dict? && forall k <- keys :: k in dict.entries
    decreases dict, 0, |keys|
  {
    keys != [] ==>
      && |keys[0]| <= 67_108_864 && Within(fp, dict.entries[keys[0]], texts, depth)
      && PairsWithin(fp, dict, keys[1..], texts, depth)
  }

  lemma FramedHeads(p: bytes, m: byte)
    requires |p| <= 67_108_864
    ensures var b, k := Framed(p, m), |Decimal(|p|)|;
      Headed(b, k) && b[k + 1..|b| - 1] == p && b[|b| - 1] == m
  {
    assert Pow10(9) == 1_000_000_000;
    DecimalLength(|p|, 9);
    DecimalIs(Decimal(|p|), |p|);
    assert Framed(p, m)[..|Decimal(|p|)|] == Decimal(|p|);
  }

  lemma FramedSpells(fp: bytes -> bool, p: bytes, m: byte, v: Tnet, depth: nat)
    requires depth <= 64 && |p| <= 67_108_864 && Denotes(fp, m, p, v, depth)
    ensures Spells(fp, Framed(p, m), v, depth)
  {
    FramedHeads(p, m);
    SpellsAt(fp, Framed(p, m), v, depth, |Decimal(|p|)|);
  }


  lemma IntSpells(fp: bytes -> bool, n: int, depth: nat)
    requires depth <= 64 && -0x8000_0000_0000_0000 <= n <= 0x7fff_ffff_ffff_ffff
    ensures Spells(fp, Framed(if n < 0 then [45] + Decimal(-n) else Decimal(n), 35), Int(n), depth)
  {
    var m: nat := if n < 0 then -n else n;
    var p := if n < 0 then [45] + Decimal(m) else Decimal(m);
    assert Pow10(19) == 10_000_000_000_000_000_000 by {
      assert Pow10(10) == 10_000_000_000;
    }
    DecimalLength(m, 19);
    DecimalIs(Decimal(m), m);
    assert n < 0 ==> p[1..] == Decimal(m);
    FramedSpells(fp, p, 35, Int(n), depth);
  }

  // What is written spells the value.
  lemma {:induction false} WrittenSpells(fp: bytes -> bool, v: Tnet, texts: bytes -> bool, depth: nat)
    requires Within(fp, v, texts, depth)
    ensures Spells(fp, Written(v, texts), v, depth)
    decreases v, 3
  {
    match v
    case Bytes(b) => FramedSpells(fp, b, 44, v, depth);
    case Str(s) => FramedSpells(fp, s, 59, v, depth);
    case Int(n) => IntSpells(fp, n, depth);
    case Float(text) => FramedSpells(fp, text, 94, v, depth);
    case Bool(flag) => FramedSpells(fp, if flag then [116, 114, 117, 101] else [102, 97, 108, 115, 101], 33, v, depth);
    case Null => FramedSpells(fp, [], 126, v, depth);
    case List(vs) =>
      AllSpell(fp, vs, texts, depth + 1);
      FramedSpells(fp, WrittenAll(vs, texts), 93, v, depth);
    case Dict(d) => DictSpells(fp, v, texts, depth);
  }

  lemma {:induction false} DictSpells(fp: bytes -> bool, v: Tnet, texts: bytes -> bool, depth: nat)
    requires v.Dict? && Within(fp, v, texts, depth)
    ensures Spells(fp, Written(v, texts), v, depth)
    decreases v, 2
  {
    var keys := SortedKeys(v.entries.Keys);
    PairsSpell(fp, v, keys, texts, depth + 1, 1_048_576);
    assert (map k | k in keys :: v.entries[k]) == v.entries;
    FramedSpells(fp, WrittenPairs(v, keys, texts), 125, v, depth);
  }

  lemma {:induction false} AllSpell(fp: bytes -> bool, vs: seq<Tnet>, texts: bytes -> bool, depth: nat)
    requires AllWithin(fp, vs, texts, depth)
    ensures Items(fp, WrittenAll(vs, texts), vs, depth)
    decreases vs, 2
  {
    if vs != [] {
      var b, rest := Written(vs[0], texts), WrittenAll(vs[1..], texts);
      WrittenSpells(fp, vs[0], texts, depth);
      AllSpell(fp, vs[1..], texts, depth);
      assert (b + rest)[..|b|] == b && (b + rest)[|b|..] == rest && [vs[0]] + vs[1..] == vs;
      ItemsFirst(fp, b + rest, |b|, vs[0], vs[1..], depth);
    }
  }

  lemma KeySpells(fp: bytes -> bool, k: bytes, texts: bytes -> bool, depth: nat)
    requires depth <= 64 && |k| <= 67_108_864
    ensures Key(fp, WrittenKey(k, texts), k, depth)
  {
    if texts(k) {
      FramedSpells(fp, k, 59, Str(k), depth);
    } else {
      FramedSpells(fp, k, 44, Bytes(k), depth);
    }
  }

  lemma PairSplits(fp: bytes -> bool, a: bytes, b: bytes, c: bytes, k: bytes, v: Tnet, depth: nat)
    requires a != [] && b != [] && Key(fp, a, k, depth) && Spells(fp, b, v, depth)
    ensures PairAt(fp, a + b + c, |a|, |a + b|, k, v, depth) && (a + b + c)[|a + b|..] == c
  {
    assert (a + b + c)[..|a|] == a && (a + b + c)[|a|..|a + b|] == b;
  }

  lemma FirstOver(entries: map<bytes, Tnet>, keys: seq<bytes>)
    requires keys != [] && forall k <- keys :: k in entries
    ensures map[keys[0] := entries[keys[0]]] + (map k | k in keys[1..] :: entries[k]) == map k | k in keys :: entries[k]
  {
  }

  lemma PairWritten(fp: bytes -> bool, k: bytes, v: Tnet, c: bytes, texts: bytes -> bool, later: map<bytes, Tnet>,
                    depth: nat, left: nat)
    requires depth <= 64 && |k| <= 67_108_864 && Spells(fp, Written(v, texts), v, depth)
    requires Pairs(fp, c, later, depth, left)
    ensures Pairs(fp, WrittenKey(k, texts) + Written(v, texts) + c, map[k := v] + later, depth, left + 1)
  {
    var a, b := WrittenKey(k, texts), Written(v, texts);
    KeySpells(fp, k, texts, depth);
    PairSplits(fp, a, b, c, k, v, depth);
    PairsFirst(fp, a + b + c, |a|, |a + b|, k, v, later, depth, left);
  }

  lemma {:induction false} PairsSpell(fp: bytes -> bool, dict: Tnet, keys: seq<bytes>, texts: bytes -> bool,
                                      depth: nat, left: nat)
    requires dict.Dict? && (forall k <- keys :: k in dict.entries)
    requires PairsWithin(fp, dict, keys, texts, depth) && |keys| <= left
    ensures Pairs(fp, WrittenPairs(dict, keys, texts), map k | k in keys :: dict.entries[k], depth, left)
    decreases dict, 0, |keys|
  {
    if keys != [] {
      var k, v := keys[0], dict.entries[keys[0]];
      WrittenSpells(fp, v, texts, depth);
      PairsSpell(fp, dict, keys[1..], texts, depth, left - 1);
      PairWritten(fp, k, v, WrittenPairs(dict, keys[1..], texts), texts, map l | l in keys[1..] :: dict.entries[l],
                  depth, left - 1);
      FirstOver(dict.entries, keys);
    }
  }

  // A value decodes to itself whatever follows it, alone or inside lists and dictionaries, and
  // whichever way the dictionary keys are marked.
  lemma WireRoundTrip(fp: bytes -> bool, v: Tnet, texts: bytes -> bool, depth: nat, rest: bytes)
    requires Within(fp, v, texts, depth)
    ensures Stream(fp, Written(v, texts) + rest, depth) == Ok(v, |Written(v, texts)|)
    ensures Inner(fp, Written(v, texts) + rest, depth) == Ok(v, |Written(v, texts)|)
  {
    WrittenSpells(fp, v, texts, depth);
    InnerComplete(fp, Written(v, texts), v, depth, rest);
  }

  // The encoder spells the value with its text strings turned into byte strings.
  lemma EncodeSpells(fp: bytes -> bool, v: Tnet, depth: nat)
    requires Fits(fp, v, depth)
    ensures Spells(fp, Encode(v), AsBytes(v), depth)
  {
    RoundTrip(fp, v, [], depth);
    DecodesSpelling(fp, Encode(v) + [], depth, AsBytes(v), |Encode(v)|);
    assert Encode(v) + [] == Encode(v) && Encode(v)[..|Encode(v)|] == Encode(v);
  }
}
