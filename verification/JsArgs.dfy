/** Argument lists of .concat( calls: findConcatArgListEnd and splitConcatArgs of pkg/crawl/jsreplay.go. */
module JsArgs {
  import opened ByteStrings
  import opened JsScan

  const CLOSE: byte := 41

  function Min(a: nat, b: nat): nat {
    if a < b then a else b
  }

  // The round bracket that closes the argument list being read at i.
  function ListEnd(b: bytes, i: nat, d: Depth): (r: Option<nat>)
    ensures r.Some? ==> i <= r.value < |b|
    decreases |b| - i
  {
    if i >= |b| then None
    else if IsQuote(b[i]) then
      var end := LiteralEnd(b, i);
      if end.None? then None else ListEnd(b, end.value + 1, d)
    else if b[i] == CLOSE && d == TOP then Some(i)
    else ListEnd(b, i + 1, Count(d, b[i]))
  }

  // The scan reads at most 500 bytes.
  function ArgListEnd(js: bytes, start: nat): (r: Option<nat>)
    ensures r.Some? ==> start <= r.value < Min(start + MAX_ARG_LIST, |js|)
  {
    ListEnd(js[..Min(start + MAX_ARG_LIST, |js|)], start, TOP)
  }

  datatype Split = Split(args: seq<bytes>, malformed: bool)

  function Flush(args: seq<bytes>, current: bytes): seq<bytes> {
    if current == [] then args else args + [current]
  }

  // malformed records that the source took its branch for an unterminated literal.
  function SplitFrom(b: bytes, i: nat, d: Depth, current: bytes, args: seq<bytes>): Split
    decreases |b| - i
  {
    if i >= |b| then Split(Flush(args, current), false)
    else if IsQuote(b[i]) then
      var end := LiteralEnd(b, i);
      if end.None? then Split(Flush(args, current + b[i..]), true)
      else SplitFrom(b, end.value + 1, d, current + b[i..end.value + 1], args)
    else if b[i] == COMMA && d == TOP then SplitFrom(b, i + 1, d, [], args + [current])
    else SplitFrom(b, i + 1, Count(d, b[i]), current + [b[i]], args)
  }

  function SplitArgs(b: bytes): Split {
    SplitFrom(b, 0, TOP, [], [])
  }

  method FindConcatArgListEnd(js: bytes, start: nat) returns (r: Option<nat>)
    ensures r == ArgListEnd(js, start)
  {
    var round, square, curly: nat := 0, 0, 0;
    var limit := start + MAX_ARG_LIST;
    if limit > |js| {
      limit := |js|;
    }
    var body := js[..limit];
    var i := start;
    while i < limit
      invariant ListEnd(body, i, Depth(round, square, curly)) == ListEnd(body, start, TOP)
      decreases limit - i
    {
      var c := body[i];
      if c == DOUBLE || c == SINGLE || c == BACKTICK {
        var end := ScanStringLiteral(body, i);
        if end.None? {
          return None;
        }
        i := end.value;
      } else if c == 40 {
        round := round + 1;
      } else if c == CLOSE {
        if round == 0 && square == 0 && curly == 0 {
          return Some(i);
        }
        if round > 0 {
          round := round - 1;
        }
      } else if c == 91 {
        square := square + 1;
      } else if c == 93 {
        if square > 0 {
          square := square - 1;
        }
      } else if c == 123 {
        curly := curly + 1;
      } else if c == 125 {
        if curly > 0 {
          curly := curly - 1;
        }
      }
      i := i + 1;
    }
    return None;
  }

  method SplitConcatArgs(data: bytes) returns (r: Split)
    ensures r == SplitArgs(data)
  {
    var round, square, curly: nat := 0, 0, 0;
    var b: bytes, args: seq<bytes> := [], [];
    var i := 0;
    while i < |data|
      invariant SplitFrom(data, i, Depth(round, square, curly), b, args) == SplitArgs(data)
      decreases |data| - i
    {
      var c := data[i];
      if c == DOUBLE || c == SINGLE || c == BACKTICK {
        var end := ScanStringLiteral(data, i);
        if end.None? {
          return Split(Flush(args, b + data[i..]), true);
        }
        b := b + data[i..end.value + 1];
        i := end.value + 1;
        continue;
      } else if c == 40 {
        round := round + 1;
      } else if c == CLOSE {
        if round > 0 {
          round := round - 1;
        }
      } else if c == 91 {
        square := square + 1;
      } else if c == 93 {
        if square > 0 {
          square := square - 1;
        }
      } else if c == 123 {
        curly := curly + 1;
      } else if c == 125 {
        if curly > 0 {
          curly := curly - 1;
        }
      } else if c == COMMA {
        if round == 0 && square == 0 && curly == 0 {
          args := args + [b];
          b := [];
          i := i + 1;
          continue;
        }
      }
      b := b + [c];
      i := i + 1;
    }
    if |b| > 0 {
      args := args + [b];
    }
    return Split(args, false);
  }

  // ---------------------------------------------------------------- joining the pieces

  ghost function Join(args: seq<bytes>): bytes {
    if args == [] then []
    else if |args| == 1 then args[0]
    else Join(args[..|args| - 1]) + [44] + args[|args| - 1]
  }

  lemma JoinMore(args: seq<bytes>, current: bytes, more: bytes)
    ensures Join(args + [current + more]) == Join(args + [current]) + more
    ensures Join((args + [current]) + [[]]) == Join(args + [current]) + [COMMA]
  {
    assert (args + [current + more])[..|args|] == args;
    assert (args + [current])[..|args|] == args;
    var longer := (args + [current]) + [[]];
    assert longer[..|longer| - 1] == args + [current];
    if args != [] {
      assert Join(args) + [COMMA] + (current + more) == (Join(args) + [COMMA] + current) + more;
    }
  }

  lemma PrefixGrows(b: bytes, i: nat, j: nat)
    requires i <= j <= |b|
    ensures b[..i] + b[i..j] == b[..j]
  {
  }

  // The pieces of which current is being read restore b up to i.
  ghost predicate Restores(b: bytes, i: nat, current: bytes, args: seq<bytes>) {
    i <= |b| && Join(args + [current]) == b[..i]
  }

  lemma RestoresMore(b: bytes, i: nat, j: nat, current: bytes, args: seq<bytes>)
    requires Restores(b, i, current, args) && i <= j <= |b|
    ensures Restores(b, j, current + b[i..j], args)
  {
    JoinMore(args, current, b[i..j]);
    PrefixGrows(b, i, j);
  }

  lemma RestoresByte(b: bytes, i: nat, current: bytes, args: seq<bytes>)
    requires Restores(b, i, current, args) && i < |b|
    ensures Restores(b, i + 1, current + [b[i]], args)
    ensures b[i] == COMMA ==> Restores(b, i + 1, [], args + [current])
  {
    JoinMore(args, current, [b[i]]);
    PrefixGrows(b, i, i + 1);
    assert b[i..i + 1] == [b[i]];
  }

  // All pieces, the empty one the source drops at the end included, restore the input.
  lemma {:induction false} SplitRestores(b: bytes, i: nat, d: Depth, current: bytes, args: seq<bytes>)
    requires Restores(b, i, current, args)
    ensures var r := SplitFrom(b, i, d, current, args).args;
            Join(r) == b || Join(r + [[]]) == b
    decreases |b| - i
  {
    if i == |b| {
      assert b[..i] == b;
    } else if IsQuote(b[i]) {
      var end := LiteralEnd(b, i);
      var j := if end.None? then |b| else end.value + 1;
      RestoresMore(b, i, j, current, args);
      if end.Some? {
        SplitRestores(b, j, d, current + b[i..j], args);
      } else {
        assert b[i..j] == b[i..] && b[..j] == b;
      }
    } else {
      RestoresByte(b, i, current, args);
      if b[i] == COMMA && d == TOP {
        SplitRestores(b, i + 1, d, [], args + [current]);
      } else {
        SplitRestores(b, i + 1, Count(d, b[i]), current + [b[i]], args);
      }
    }
  }

  // Joining what an argument list is split into gives it back, up to one trailing comma.
  lemma SplitJoins(b: bytes)
    ensures Join(SplitArgs(b).args) == b || Join(SplitArgs(b).args) + [44] == b
  {
    assert Join([] + [[]]) == b[..0];
    SplitRestores(b, 0, TOP, [], []);
    var r := SplitArgs(b).args;
    if r != [] {
      var t := r[..|r| - 1];
      JoinMore(t, r[|r| - 1], []);
      assert t + [r[|r| - 1]] == r;
    } else {
      assert r + [[]] == [[]];
    }
  }

  // ---------------------------------------------------------------- the pieces themselves

  // The first comma or closing bracket outside all literals and brackets.
  function PieceEnd(b: bytes, i: nat, d: Depth): (r: Option<nat>)
    ensures r.Some? ==> i <= r.value < |b| && (b[r.value] == COMMA || b[r.value] == CLOSE)
    decreases |b| - i
  {
    if i >= |b| then None
    else if IsQuote(b[i]) then
      var end := LiteralEnd(b, i);
      if end.None? then None else PieceEnd(b, end.value + 1, d)
    else if (b[i] == CLOSE || b[i] == COMMA) && d == TOP then Some(i)
    else PieceEnd(b, i + 1, Count(d, b[i]))
  }

  // One whole argument: with a closing bracket after it, that bracket is the first separator.
  ghost predicate Whole(p: bytes) {
    PieceEnd(p + [41], 0, TOP) == Some(|p|)
  }

  lemma {:induction false} ListEndLocal(b: bytes, i: nat, c: bytes, off: int, d: Depth, e: nat)
    requires ListEnd(b, i, d) == Some(e) && Agree(b, c, off, i, e + 1)
    ensures ListEnd(c, i + off, d) == Some(e + off)
    decreases |b| - i
  {
    var x := b[i];
    if IsQuote(x) {
      var q := LiteralEnd(b, i).value;
      LiteralEndLocal(b, i, c, off, q);
      ListEndLocal(b, q + 1, c, off, d, e);
    } else if !(x == CLOSE && d == TOP) {
      ListEndLocal(b, i + 1, c, off, Count(d, x), e);
    }
  }

  // A piece keeps its end wherever it stands, whichever separator follows it.
  lemma {:induction false} PieceEndLocal(b: bytes, i: nat, c: bytes, off: int, d: Depth, j: nat)
    requires PieceEnd(b, i, d) == Some(j) && Agree(b, c, off, i, j)
    requires j + off < |c| && (c[j + off] == CLOSE || c[j + off] == COMMA)
    ensures PieceEnd(c, i + off, d) == Some(j + off)
    decreases |b| - i
  {
    if i < j {
      var x := b[i];
      if IsQuote(x) {
        var q := LiteralEnd(b, i).value;
        LiteralEndLocal(b, i, c, off, q);
        PieceEndLocal(b, q + 1, c, off, d, j);
      } else {
        PieceEndLocal(b, i + 1, c, off, Count(d, x), j);
      }
    }
  }

  // A list is pieces and commas up to its closing bracket.
  lemma {:induction false} ListStartsWithPiece(b: bytes, i: nat, d: Depth)
    requires ListEnd(b, i, d).Some?
    ensures var e, p := ListEnd(b, i, d).value, PieceEnd(b, i, d);
            && p.Some? && p.value <= e
            && (p.value < e ==> b[p.value] == COMMA && ListEnd(b, p.value + 1, TOP) == Some(e))
    decreases |b| - i
  {
    if IsQuote(b[i]) {
      ListStartsWithPiece(b, LiteralEnd(b, i).value + 1, d);
    } else if b[i] == COMMA && d == TOP {
      assert Count(d, b[i]) == TOP;
    } else if !(b[i] == CLOSE && d == TOP) {
      ListStartsWithPiece(b, i + 1, Count(d, b[i]));
    }
  }

  lemma SplitsLiteral(list: bytes, i: nat, d: Depth, current: bytes, args: seq<bytes>)
    requires i < |list| && IsQuote(list[i]) && LiteralEnd(list + [CLOSE], i).Some?
    requires LiteralEnd(list + [CLOSE], i).value < |list|
    ensures var next := LiteralEnd(list + [CLOSE], i).value + 1;
            SplitFrom(list, i, d, current, args) == SplitFrom(list, next, d, current + list[i..next], args)
  {
    LiteralEndLocal(list + [CLOSE], i, list, 0, LiteralEnd(list + [CLOSE], i).value);
  }

  lemma SplitsByte(list: bytes, i: nat, d: Depth, current: bytes, args: seq<bytes>)
    requires i < |list| && !IsQuote(list[i]) && !(list[i] == COMMA && d == TOP)
    ensures SplitFrom(list, i, d, current, args)
         == SplitFrom(list, i + 1, Count(d, list[i]), current + list[i..i + 1], args)
  {
    assert list[i..i + 1] == [list[i]];
  }

  // At the separator.
  lemma SplitsThere(list: bytes, j: nat, d: Depth, current: bytes, args: seq<bytes>)
    requires j <= |list| && d == TOP && (j < |list| ==> list[j] == COMMA)
    ensures j == |list| ==> SplitFrom(list, j, d, current, args) == Split(Flush(args, current), false)
    ensures j < |list| ==> SplitFrom(list, j, d, current, args) == SplitFrom(list, j + 1, TOP, [], args + [current])
  {
  }

  lemma Joined(current: bytes, list: bytes, i: nat, next: nat, j: nat)
    requires i <= next <= j <= |list|
    ensures (current + list[i..next]) + list[next..j] == current + list[i..j]
  {
  }

  // Splitting takes the first piece off.
  lemma {:induction false} SplitTakesPiece(list: bytes, i: nat, d: Depth, current: bytes, args: seq<bytes>, j: nat)
    requires i <= |list| && PieceEnd(list + [CLOSE], i, d) == Some(j) && (j < |list| ==> list[j] == COMMA)
    ensures j == |list| ==> SplitFrom(list, i, d, current, args) == Split(Flush(args, current + list[i..j]), false)
    ensures j < |list| ==>
              SplitFrom(list, i, d, current, args) == SplitFrom(list, j + 1, TOP, [], args + [current + list[i..j]])
    decreases |list| - i
  {
    var b := list + [CLOSE];
    if i == j {
      assert current + list[i..i] == current;
      SplitsThere(list, j, d, current, args);
    } else if IsQuote(b[i]) {
      var next := LiteralEnd(b, i).value + 1;
      SplitsLiteral(list, i, d, current, args);
      SplitTakesPiece(list, next, d, current + list[i..next], args, j);
      Joined(current, list, i, next, j);
    } else {
      SplitsByte(list, i, d, current, args);
      SplitTakesPiece(list, i + 1, Count(d, b[i]), current + list[i..i + 1], args, j);
      Joined(current, list, i, i + 1, j);
    }
  }

  lemma PieceIsWhole(list: bytes, i: nat)
    requires i <= |list| && PieceEnd(list + [CLOSE], i, TOP).Some?
    ensures Whole(list[i..PieceEnd(list + [CLOSE], i, TOP).value])
  {
    var b := list + [CLOSE];
    var j := PieceEnd(b, i, TOP).value;
    PieceEndLocal(b, i, list[i..j] + [CLOSE], -(i as int), TOP, j);
  }

  lemma {:induction false} SplitTakesPieces(list: bytes, i: nat, args: seq<bytes>)
    requires i <= |list| && ListEnd(list + [CLOSE], i, TOP) == Some(|list|)
    requires forall p :: p in args ==> Whole(p)
    ensures var r := SplitFrom(list, i, TOP, [], args);
            !r.malformed && forall p :: p in r.args ==> Whole(p)
    decreases |list| - i
  {
    var b := list + [CLOSE];
    ListStartsWithPiece(b, i, TOP);
    var j := PieceEnd(b, i, TOP).value;
    SplitTakesPiece(list, i, TOP, [], args, j);
    PieceIsWhole(list, i);
    assert [] + list[i..j] == list[i..j];
    if j < |list| {
      SplitTakesPieces(list, j + 1, args + [list[i..j]]);
    }
  }

  // On a list that findConcatArgListEnd delimited, splitting meets no unterminated literal, and
  // cuts at every separating comma and nowhere else.
  lemma DelimitedSplits(js: bytes, start: nat)
    requires ArgListEnd(js, start).Some?
    ensures var r := SplitArgs(js[start..ArgListEnd(js, start).value]);
            !r.malformed && forall p :: p in r.args ==> Whole(p)
  {
    var e := ArgListEnd(js, start).value;
    var list := js[start..e];
    var body := js[..Min(start + MAX_ARG_LIST, |js|)];
    ListEndsAtBracket(body, start, TOP);
    ListEndLocal(body, start, list + [CLOSE], -(start as int), TOP, e);
    SplitTakesPieces(list, 0, []);
  }

  lemma {:induction false} ListEndsAtBracket(b: bytes, i: nat, d: Depth)
    requires ListEnd(b, i, d).Some?
    ensures b[ListEnd(b, i, d).value] == CLOSE
    decreases |b| - i
  {
    if IsQuote(b[i]) {
      ListEndsAtBracket(b, LiteralEnd(b, i).value + 1, d);
    } else if !(b[i] == CLOSE && d == TOP) {
      ListEndsAtBracket(b, i + 1, Count(d, b[i]));
    }
  }

  // ---------------------------------------------------------------- joining, then splitting

  lemma {:induction false} JoinFirst(args: seq<bytes>)
    requires |args| > 1
    ensures Join(args) == args[0] + [COMMA] + Join(args[1..])
  {
    var n := |args| - 1;
    var rest := args[1..];
    assert rest[..|rest| - 1] == args[..n][1..] && rest[|rest| - 1] == args[n];
    if n > 1 {
      JoinFirst(args[..n]);
      assert args[0] + [COMMA] + Join(rest[..|rest| - 1]) + [COMMA] + args[n]
        == args[0] + [COMMA] + (Join(rest[..|rest| - 1]) + [COMMA] + args[n]);
    } else {
      assert args[..1][0] == args[0];
    }
  }

  ghost predicate AllWhole(args: seq<bytes>) {
    forall p :: p in args ==> Whole(p)
  }

  // The arguments args, joined and closed, stand at the end of list from i.
  ghost predicate Remain(list: bytes, i: nat, args: seq<bytes>) {
    i <= |list| && args != [] && AllWhole(args) && list[i..] == Join(args)
  }

  lemma FirstPieceEnds(list: bytes, i: nat, args: seq<bytes>)
    requires Remain(list, i, args)
    ensures var j := i + |args[0]|;
            && j <= |list| && list[i..j] == args[0] && PieceEnd(list + [CLOSE], i, TOP) == Some(j)
            && (|args| == 1 ==> j == |list|)
            && (|args| > 1 ==> j < |list| && list[j] == COMMA && Remain(list, j + 1, args[1..]))
  {
    var p := args[0];
    var j, c := i + |p|, list + [CLOSE];
    if |args| > 1 {
      JoinFirst(args);
      assert list[i..][|p|] == COMMA && list[i..][|p| + 1..] == Join(args[1..]);
      assert list[j + 1..] == list[i..][|p| + 1..];
    }
    assert list[i..][..|p|] == p;
    assert Whole(p);
    forall k {:trigger (p + [CLOSE])[k]} | 0 <= k < |p| ensures (p + [CLOSE])[k] == c[k + i] {
      assert list[i..][k] == p[k];
    }
    PieceEndLocal(p + [CLOSE], 0, c, i, TOP, |p|);
  }

  lemma {:induction false} SplitsRemaining(list: bytes, i: nat, args: seq<bytes>, done: seq<bytes>)
    requires Remain(list, i, args) && args[|args| - 1] != []
    ensures SplitFrom(list, i, TOP, [], done) == Split(done + args, false)
    decreases |args|
  {
    var p := args[0];
    var j := i + |p|;
    FirstPieceEnds(list, i, args);
    SplitTakesPiece(list, i, TOP, [], done, j);
    assert [] + p == p;
    if |args| > 1 {
      SplitsRemaining(list, j + 1, args[1..], done + [p]);
      assert (done + [p]) + args[1..] == done + args;
    } else {
      assert done + [p] == done + args;
    }
  }

  // Any whole arguments, joined with commas, split into themselves; an empty last one is lost.
  lemma JoinSplits(args: seq<bytes>)
    requires args != [] && AllWhole(args) && args[|args| - 1] != []
    ensures SplitArgs(Join(args)) == Split(args, false)
  {
    SplitsRemaining(Join(args), 0, args, []);
    assert [] + args == args;
  }
}
