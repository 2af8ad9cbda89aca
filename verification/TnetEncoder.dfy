/** The encoder as internal/tnetenc/tnetenc.go runs it: sorted keys and loops appending to a buffer. */
module TnetEncoders {
  import opened ByteStrings
  import opened Tnetstrings

  // sort.Strings leaves no choice: a set of strings has one strictly increasing order.
  lemma {:induction false} SortingIsUnique(keys: set<bytes>, a: seq<bytes>, b: seq<bytes>)
    requires IsSortingOf(keys, a) && IsSortingOf(keys, b)
    ensures a == b
  {
    if keys == {} {
    } else {
      LeastFirst(keys, a);
      LeastFirst(keys, b);
      CompareFlips(a[0], b[0]);
      assert a[0] in keys && b[0] in keys;
      SortingIsUnique(keys - {a[0]}, a[1..], b[1..]);
    }
  }

  lemma LeastIsFirst(keys: set<bytes>, a: seq<bytes>)
    requires IsSortingOf(keys, a) && keys != {}
    ensures a != [] && forall k <- keys :: k != a[0] ==> Compare(a[0], k) < 0
  {
    var x :| x in keys;
    assert x in a;
    forall k | k in keys && k != a[0] ensures Compare(a[0], k) < 0 {
      assert k in a;
      var i :| 0 <= i < |a| && a[i] == k;
    }
  }

  lemma LeastFirst(keys: set<bytes>, a: seq<bytes>)
    requires IsSortingOf(keys, a) && keys != {}
    ensures a != [] && (forall k <- keys :: k != a[0] ==> Compare(a[0], k) < 0)
    ensures IsSortingOf(keys - {a[0]}, a[1..])
  {
    LeastIsFirst(keys, a);
    forall k ensures k in a[1..] <==> k in keys - {a[0]} {
      if k in a[1..] {
        var i :| 0 <= i < |a[1..]| && a[1..][i] == k;
        assert Compare(a[0], a[i + 1]) < 0;
      }
    }
  }

  // s with k put where it belongs.
  function Insert(s: seq<bytes>, k: bytes): (r: seq<bytes>)
    ensures |r| == |s| + 1
    ensures forall l :: l in r <==> l == k || l in s
  {
    if s == [] then [k]
    else if Compare(k, s[0]) < 0 then [k] + s
    else [s[0]] + Insert(s[1..], k)
  }

  ghost predicate Increasing(s: seq<bytes>) {
    forall i, j :: 0 <= i < j < |s| ==> Compare(s[i], s[j]) < 0
  }

  lemma {:induction false} InsertSorts(s: seq<bytes>, k: bytes)
    requires Increasing(s) && k !in s
    ensures Increasing(Insert(s, k))
  {
    if s != [] {
      CompareFlips(k, s[0]);
      var t := s[1..];
      if Compare(k, s[0]) < 0 {
        forall i | 0 <= i < |s| ensures Compare(k, s[i]) < 0 {
          CompareTransitive(k, s[0], s[i]);
        }
      } else {
        assert Increasing(t);
        InsertSorts(t, k);
        forall i | 0 <= i < |Insert(t, k)| ensures Compare(s[0], Insert(t, k)[i]) < 0 {
          assert Insert(t, k)[i] in Insert(t, k);
        }
      }
    }
  }

  lemma InsertsKey(keys: set<bytes>, sorted: seq<bytes>, k: bytes)
    requires IsSortingOf(keys, sorted) && k !in keys
    ensures IsSortingOf(keys + {k}, Insert(sorted, k))
  {
    InsertSorts(sorted, k);
    assert |keys + {k}| == |keys| + 1;
  }

  method SortStrings(keys: set<bytes>) returns (sorted: seq<bytes>)
    ensures sorted == SortedKeys(keys)
  {
    sorted := [];
    var left := keys;
    while left != {}
      invariant left <= keys && IsSortingOf(keys - left, sorted)
      decreases |left|
    {
      var k :| k in left;
      InsertsKey(keys - left, sorted, k);
      assert keys - left + {k} == keys - (left - {k});
      sorted := Insert(sorted, k);
      left := left - {k};
    }
    assert keys - left == keys;
    SortingIsUnique(keys, sorted, SortedKeys(keys));
  }

  method RunEncode(v: Tnet) returns (out: bytes)
    ensures out == Encode(v)
    decreases v, 1
  {
    match v
    case Null => out := [ZERO, COLON, TILDE];
    case Bool(flag) => out := if flag then [ZERO + 4, COLON] + TRUE + [BANG] else [ZERO + 5, COLON] + FALSE + [BANG];
    case Bytes(b) => out := Wrap(b, COMMA);
    case Str(s) => out := Wrap(s, COMMA);
    case Int(n) => out := Wrap(FormatInt(n), HASH);
    case Float(text) => out := Wrap(text, CARET);
    case List(items) =>
      var buf := RunItems(items);
      out := Wrap(buf, BRACKET);
    case Dict(entries) =>
      var keys := SortStrings(entries.Keys);
      var buf := RunPairs(v, keys);
      out := Wrap(buf, BRACE);
  }

  method RunItems(items: seq<Tnet>) returns (buf: bytes)
    ensures buf == EncodeItems(items)
    decreases items, 2
  {
    buf := [];
    for i := 0 to |items|
      invariant buf + EncodeItems(items[i..]) == EncodeItems(items)
    {
      var item := RunEncode(items[i]);
      assert items[i..][0] == items[i] && items[i..][1..] == items[i + 1..];
      buf := buf + item;
    }
  }

  method RunPairs(dict: Tnet, keys: seq<bytes>) returns (buf: bytes)
    requires dict.Dict? && forall k <- keys :: k in dict.entries
    ensures buf == EncodePairs(dict, keys)
    decreases dict, 0
  {
    buf := [];
    for i := 0 to |keys|
      invariant buf + EncodePairs(dict, keys[i..]) == EncodePairs(dict, keys)
    {
      var k := keys[i];
      var value := RunEncode(dict.entries[k]);
      assert keys[i..][0] == k && keys[i..][1..] == keys[i + 1..];
      buf := buf + Wrap(k, COMMA) + value;
    }
  }
}
