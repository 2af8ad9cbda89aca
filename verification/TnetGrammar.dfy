/**
 What byte strings the decoder accepts and what they denote, as a grammar (tnetstrings.org, and
 pkg/importer/tnetstring.go for the caps): a length of one to nine digits, a colon, a payload of
 that length and a marker that says how the payload is read.
 */
module TnetGrammar {
  import opened ByteStrings
  import opened Tnetstrings
  import opened TnetRoundTrip
  import opened TnetAgreement

  // The whole of b is an element that spells v.
  ghost predicate Spells(fp: bytes -> bool, b: bytes, v: Tnet, depth: nat)
    decreases |b|, 1
  {
    depth <= 64 && exists k: nat :: Headed(b, k) && Denotes(fp, b[|b| - 1], b[k + 1..|b| - 1], v, depth)
  }

  // The first k bytes are the payload's length.
  ghost predicate Headed(b: bytes, k: nat) {
    1 <= k <= 9 && k + 2 <= |b| && b[k] == 58 && |b| - k - 2 <= 67_108_864 && Numeral(b[..k], |b| - k - 2)
  }

  // The payload p with marker m denotes v.
  ghost predicate Denotes(fp: bytes -> bool, m: byte, p: bytes, v: Tnet, depth: nat)
    decreases |p|, 3
  {
    match v
    case Bytes(x) => m == 44 && p == x
    case Str(x) => m == 59 && p == x
    case Int(n) => m == 35 && IntText(p, n)
    case Float(text) => m == 94 && p == text && fp(p)
    case Bool(flag) => m == 33 && p == if flag then [116, 114, 117, 101] else [102, 97, 108, 115, 101]
    case Null => m == 126 && p == []
    case List(vs) => m == 93 && |vs| <= 1_048_576 && Items(fp, p, vs, depth + 1)
    case Dict(d) => m == 125 && Pairs(fp, p, d, depth + 1, 1_048_576)
  }

  // Elements one after the other.
  ghost predicate Items(fp: bytes -> bool, p: bytes, vs: seq<Tnet>, depth: nat)
    decreases |p|, 2
  {
    if vs == [] || p == [] then vs == [] && p == []
    else exists n: nat :: 0 < n <= |p| && Spells(fp, p[..n], vs[0], depth) && Items(fp, p[n..], vs[1..], depth)
  }

  // Keys and values in turn, at most left of them; a later pair overrides an earlier one.
  ghost predicate Pairs(fp: bytes -> bool, p: bytes, d: map<bytes, Tnet>, depth: nat, left: nat)
    decreases |p|, 2
  {
    if p == [] then d == map[]
    else left > 0 && exists n: nat, l: nat, k: bytes, v: Tnet, later: map<bytes, Tnet> ::
      0 < n < l <= |p| && PairAt(fp, p, n, l, k, v, depth) && Pairs(fp, p[l..], later, depth, left - 1)
      && d == map[k := v] + later
  }

  ghost predicate PairAt(fp: bytes -> bool, p: bytes, n: nat, l: nat, k: bytes, v: Tnet, depth: nat)
    requires 0 < n < l <= |p|
    decreases |p|, 1
  {
    Key(fp, p[..n], k, depth) && Spells(fp, p[n..l], v, depth)
  }

  // A key is a string of either kind.
  ghost predicate Key(fp: bytes -> bool, b: bytes, k: bytes, depth: nat)
    decreases |b|, 2
  {
    Spells(fp, b, Bytes(k), depth) || Spells(fp, b, Str(k), depth)
  }

  // ---------------------------------------------------------------- what is accepted is spelt

  lemma {:induction false} ScanIs(b: bytes, acc: bytes)
    requires AllDigits(acc) && |acc| <= 9 && ScanDigits(b, acc).Ok?
    ensures var r := ScanDigits(b, acc);
      r.value == acc + b[..r.used - 1] && b[r.used - 1] == 58 && |r.value| <= 9
  {
    if b[0] != COLON {
      ScanIs(b[1..], acc + [b[0]]);
      var n := ScanDigits(b[1..], acc + [b[0]]).used;
      assert b[..n] == [b[0]] + b[1..][..n - 1];
      assert acc + [b[0]] + b[1..][..n - 1] == acc + ([b[0]] + b[1..][..n - 1]);
    }
  }

  lemma PrefixIs(b: bytes, maxLen: nat)
    requires LengthPrefix(b, maxLen).Ok?
    ensures var Ok(n, u) := LengthPrefix(b, maxLen);
      2 <= u <= 10 && u <= |b| && b[u - 1] == 58 && n <= 67_108_864 && Numeral(b[..u - 1], n)
  {
    var r := ScanDigits(b, []);
    ScanIs(b, []);
    assert [] + b[..r.used - 1] == b[..r.used - 1];
    NumeralIs(b[..r.used - 1], Value(r.value));
  }

  lemma HeadSound(b: bytes, maxLen: nat)
    requires LengthPrefix(b, maxLen).Ok?
    ensures var Ok(n, u) := LengthPrefix(b, maxLen);
      u + n < |b| ==> Headed(b[..u + n + 1], u - 1)
  {
    var Ok(n, u) := LengthPrefix(b, maxLen);
    PrefixIs(b, maxLen);
    if u + n < |b| {
      assert b[..u + n + 1][..u - 1] == b[..u - 1];
    }
  }

  lemma SpellsAt(fp: bytes -> bool, b: bytes, v: Tnet, depth: nat, k: nat)
    requires depth <= 64 && Headed(b, k) && Denotes(fp, b[|b| - 1], b[k + 1..|b| - 1], v, depth)
    ensures Spells(fp, b, v, depth)
  {
  }

  lemma {:induction false} InnerSound(fp: bytes -> bool, b: bytes, depth: nat)
    requires Inner(fp, b, depth).Ok?
    ensures var Ok(v, n) := Inner(fp, b, depth); Spells(fp, b[..n], v, depth)
    decreases |b|, 2
  {
    var Ok(n, u) := LengthPrefix(b, |b|);
    var Ok(v, used) := Inner(fp, b, depth);
    var e := b[..used];
    PayloadSound(fp, b[u + n], b[u..u + n], depth);
    HeadSound(b, |b|);
    assert e[u..|e| - 1] == b[u..u + n] && e[|e| - 1] == b[u + n];
    SpellsAt(fp, e, v, depth, u - 1);
  }

  lemma {:induction false} PayloadSound(fp: bytes -> bool, m: byte, p: bytes, depth: nat)
    requires ParsePayload(fp, m, p, depth).Good?
    ensures Denotes(fp, m, p, ParsePayload(fp, m, p, depth).value, depth)
    decreases |p|, 5
  {
    if m == BRACKET {
      ListSound(fp, p, depth + 1, 0);
    } else if m == BRACE {
      DictSound(fp, p, depth + 1, 0);
    } else if m == HASH {
      ParseIntIs(p, ParseInt(p).value);
    }
  }

  lemma ItemsFirst(fp: bytes -> bool, p: bytes, n: nat, v: Tnet, vs: seq<Tnet>, depth: nat)
    requires 0 < n <= |p| && Spells(fp, p[..n], v, depth) && Items(fp, p[n..], vs, depth)
    ensures Items(fp, p, [v] + vs, depth)
  {
    assert ([v] + vs)[1..] == vs && ([v] + vs)[0] == v;
  }

  lemma {:induction false} ListSound(fp: bytes -> bool, p: bytes, depth: nat, count: nat)
    requires ParseList(fp, p, depth, count).Good? && count <= 1_048_576
    ensures var vs := ParseList(fp, p, depth, count).value; Items(fp, p, vs, depth) && count + |vs| <= 1_048_576
    decreases |p|, 4
  {
    if p != [] {
      var Ok(v, used) := Inner(fp, p, depth);
      var rest := ParseList(fp, p[used..], depth, count + 1).value;
      InnerSound(fp, p, depth);
      ListSound(fp, p[used..], depth, count + 1);
      ItemsFirst(fp, p, used, v, rest, depth);
    }
  }

  lemma Slice(p: bytes, n: nat, w: nat)
    requires n + w <= |p|
    ensures p[n..][..w] == p[n..n + w]
  {
  }

  lemma {:induction false} PairSound(fp: bytes -> bool, p: bytes, depth: nat) returns (n: nat)
    requires ParsePair(fp, p, depth).Ok?
    ensures var Ok((k, v), l) := ParsePair(fp, p, depth); 0 < n < l <= |p| && PairAt(fp, p, n, l, k, v, depth)
    decreases |p|, 3
  {
    n := Inner(fp, p, depth).used;
    InnerSound(fp, p, depth);
    InnerSound(fp, p[n..], depth);
    Slice(p, n, Inner(fp, p[n..], depth).used);
  }

  lemma PairsFirst(fp: bytes -> bool, p: bytes, n: nat, l: nat, k: bytes, v: Tnet, later: map<bytes, Tnet>,
                   depth: nat, left: nat)
    requires 0 < n < l <= |p| && PairAt(fp, p, n, l, k, v, depth) && Pairs(fp, p[l..], later, depth, left)
    ensures Pairs(fp, p, map[k := v] + later, depth, left + 1)
  {
  }

  lemma {:induction false} DictSound(fp: bytes -> bool, p: bytes, depth: nat, count: nat)
    requires ParseDict(fp, p, depth, count).Good? && count <= 1_048_576
    ensures Pairs(fp, p, ParseDict(fp, p, depth, count).value, depth, 1_048_576 - count)
    decreases |p|, 4
  {
    if p != [] {
      var Ok((k, v), l) := ParsePair(fp, p, depth);
      var later := ParseDict(fp, p[l..], depth, count + 1).value;
      var n := PairSound(fp, p, depth);
      DictSound(fp, p[l..], depth, count + 1);
      PairsFirst(fp, p, n, l, k, v, later, depth, 1_048_576 - count - 1);
    }
  }

  // ---------------------------------------------------------------- what is spelt is accepted

  lemma HeadSplits(b: bytes, k: nat, rest: bytes)
    requires k < |b| && b[k] == 58
    ensures b + rest == b[..k] + [COLON] + (b[k + 1..] + rest)
  {
  }

  lemma HeadScans(b: bytes, k: nat, rest: bytes)
    requires k < |b| && k <= 9 && b[k] == 58 && AllDigits(b[..k])
    ensures ScanDigits(b + rest, []) == Ok(b[..k], k + 1)
  {
    HeadSplits(b, k, rest);
    ScanningDigits(b[..k], [], b[k + 1..] + rest);
    assert [] + b[..k] == b[..k];
  }

  lemma HeadComplete(b: bytes, k: nat, rest: bytes, maxLen: nat)
    requires Headed(b, k) && |b| - k - 2 <= maxLen
    ensures LengthPrefix(b + rest, maxLen) == Ok(|b| - k - 2, k + 1)
  {
    NumeralIs(b[..k], |b| - k - 2);
    HeadScans(b, k, rest);
  }

  lemma SplitElement(b: bytes, k: nat, rest: bytes)
    requires k + 2 <= |b|
    ensures b + rest == b[..k + 1] + b[k + 1..|b| - 1] + [b[|b| - 1]] + rest
  {
    assert b == b[..k + 1] + b[k + 1..|b| - 1] + [b[|b| - 1]];
  }

  lemma ElementComplete(fp: bytes -> bool, b: bytes, k: nat, v: Tnet, depth: nat, rest: bytes)
    requires k + 2 <= |b| && ParsePayload(fp, b[|b| - 1], b[k + 1..|b| - 1], depth) == Good(v)
    ensures Element(fp, b + rest, |b| - k - 2, k + 1, depth) == Ok(v, |b|)
  {
    SplitElement(b, k, rest);
    ElementSplits(fp, b[..k + 1], b[k + 1..|b| - 1], b[|b| - 1], rest, depth);
  }

  lemma HeadedComplete(fp: bytes -> bool, b: bytes, k: nat, v: Tnet, depth: nat, rest: bytes)
    requires depth <= 64 && Headed(b, k) && ParsePayload(fp, b[|b| - 1], b[k + 1..|b| - 1], depth) == Good(v)
    ensures Inner(fp, b + rest, depth) == Ok(v, |b|) && Stream(fp, b + rest, depth) == Ok(v, |b|)
  {
    HeadComplete(b, k, rest, |b + rest|);
    HeadComplete(b, k, rest, MAX_ELEMENT);
    ElementComplete(fp, b, k, v, depth, rest);
  }

  lemma {:induction false} InnerComplete(fp: bytes -> bool, b: bytes, v: Tnet, depth: nat, rest: bytes)
    requires Spells(fp, b, v, depth)
    ensures Inner(fp, b + rest, depth) == Ok(v, |b|) && Stream(fp, b + rest, depth) == Ok(v, |b|)
    decreases |b|, 2
  {
    var k: nat :| Headed(b, k) && Denotes(fp, b[|b| - 1], b[k + 1..|b| - 1], v, depth);
    PayloadComplete(fp, b[|b| - 1], b[k + 1..|b| - 1], v, depth);
    HeadedComplete(fp, b, k, v, depth, rest);
  }

  lemma {:induction false} PayloadComplete(fp: bytes -> bool, m: byte, p: bytes, v: Tnet, depth: nat)
    requires Denotes(fp, m, p, v, depth)
    ensures ParsePayload(fp, m, p, depth) == Good(v)
    decreases |p|, 5
  {
    match v
    case Int(n) => ParseIntIs(p, n);
    case List(vs) => ListComplete(fp, p, vs, depth + 1, 0);
    case Dict(d) => DictComplete(fp, p, d, depth + 1, 0);
    case Bool(flag) => assert TRUE[0] != FALSE[0];
    case _ =>
  }

  lemma {:induction false} FirstComplete(fp: bytes -> bool, p: bytes, n: nat, v: Tnet, depth: nat)
    requires 0 < n <= |p| && Spells(fp, p[..n], v, depth)
    ensures Inner(fp, p, depth) == Ok(v, n)
    decreases |p|, 3
  {
    InnerComplete(fp, p[..n], v, depth, p[n..]);
    assert p[..n] + p[n..] == p;
  }

  lemma ListStep(fp: bytes -> bool, p: bytes, n: nat, vs: seq<Tnet>, depth: nat, count: nat)
    requires 0 < n <= |p| && vs != [] && Inner(fp, p, depth) == Ok(vs[0], n) && count < 1_048_576
    requires ParseList(fp, p[n..], depth, count + 1) == Good(vs[1..])
    ensures ParseList(fp, p, depth, count) == Good(vs)
  {
    assert [vs[0]] + vs[1..] == vs;
  }

  lemma {:induction false} ListComplete(fp: bytes -> bool, p: bytes, vs: seq<Tnet>, depth: nat, count: nat)
    requires Items(fp, p, vs, depth) && count + |vs| <= 1_048_576
    ensures ParseList(fp, p, depth, count) == Good(vs)
    decreases |p|, 4
  {
    if p != [] {
      var n: nat :| 0 < n <= |p| && Spells(fp, p[..n], vs[0], depth) && Items(fp, p[n..], vs[1..], depth);
      FirstComplete(fp, p, n, vs[0], depth);
      ListComplete(fp, p[n..], vs[1..], depth, count + 1);
      ListStep(fp, p, n, vs, depth, count);
    }
  }

  lemma {:induction false} KeyComplete(fp: bytes -> bool, b: bytes, k: bytes, depth: nat, rest: bytes)
    requires Key(fp, b, k, depth)
    ensures Inner(fp, b + rest, depth).Ok? && Inner(fp, b + rest, depth).used == |b|
    ensures CoerceDictKey(Inner(fp, b + rest, depth).value) == Some(k)
    decreases |b|, 3
  {
    if Spells(fp, b, Bytes(k), depth) {
      InnerComplete(fp, b, Bytes(k), depth, rest);
    } else {
      InnerComplete(fp, b, Str(k), depth, rest);
    }
  }

  lemma {:induction false} PairComplete(fp: bytes -> bool, p: bytes, n: nat, l: nat, k: bytes, v: Tnet, depth: nat)
    requires 0 < n < l <= |p| && PairAt(fp, p, n, l, k, v, depth)
    ensures ParsePair(fp, p, depth) == Ok((k, v), l)
    decreases |p|, 3
  {
    KeyComplete(fp, p[..n], k, depth, p[n..]);
    assert p[n..][..l - n] == p[n..l] && p[..n] + p[n..] == p;
    FirstComplete(fp, p[n..], l - n, v, depth);
  }

  lemma {:induction false} DictComplete(fp: bytes -> bool, p: bytes, d: map<bytes, Tnet>, depth: nat, count: nat)
    requires count <= 1_048_576 && Pairs(fp, p, d, depth, 1_048_576 - count)
    ensures ParseDict(fp, p, depth, count) == Good(d)
    decreases |p|, 4
  {
    if p != [] {
      var n: nat, l: nat, k: bytes, v: Tnet, later: map<bytes, Tnet> :|
        0 < n < l <= |p| && PairAt(fp, p, n, l, k, v, depth)
        && Pairs(fp, p[l..], later, depth, 1_048_576 - count - 1) && d == map[k := v] + later;
      PairComplete(fp, p, n, l, k, v, depth);
      DictComplete(fp, p[l..], later, depth, count + 1);
    }
  }

  // A decoder returns a value and moves n bytes if and only if those bytes spell that value.
  lemma DecodesSpelling(fp: bytes -> bool, b: bytes, depth: nat, v: Tnet, n: nat)
    ensures Inner(fp, b, depth) == Ok(v, n) <==> n <= |b| && Spells(fp, b[..n], v, depth)
    ensures Stream(fp, b, depth) == Ok(v, n) <==> n <= |b| && Spells(fp, b[..n], v, depth)
  {
    DecodersAgree(fp, b, depth);
    if Inner(fp, b, depth) == Ok(v, n) {
      InnerSound(fp, b, depth);
    }
    if n <= |b| && Spells(fp, b[..n], v, depth) {
      InnerComplete(fp, b[..n], v, depth, b[n..]);
      assert b[..n] + b[n..] == b;
    }
  }
}
