/** The scanners over JavaScript text in pkg/crawl/jsreplay.go. An index the source returns as -1 is None. */
module JsScan {
  import opened ByteStrings

  const MAX_ARG_LIST := 500

  const BACKTICK: byte := 96
  const DOUBLE: byte := 34
  const SINGLE: byte := 39
  const BACKSLASH: byte := 92
  const DOLLAR: byte := 36
  const NEWLINE: byte := 10
  const COMMA: byte := 44

  // How many round, square and curly brackets are open.
  datatype Depth = Depth(round: nat, square: nat, curly: nat)

  const TOP := Depth(0, 0, 0)

  function Less(n: nat): nat {
    if n > 0 then n - 1 else 0
  }

  // The bracket counters after one byte; a closing bracket with none open is ignored.
  function Count(d: Depth, c: byte): Depth {
    if c == 40 then d.(round := d.round + 1)
    else if c == 41 then d.(round := Less(d.round))
    else if c == 91 then d.(square := d.square + 1)
    else if c == 93 then d.(square := Less(d.square))
    else if c == 123 then d.(curly := d.curly + 1)
    else if c == 125 then d.(curly := Less(d.curly))
    else d
  }

  predicate IsQuote(c: byte) {
    c == DOUBLE || c == SINGLE || c == BACKTICK
  }

  // ---------------------------------------------------------------- literals

  // The closing backtick of the template literal being read at i, with `depth` braces open inside
  // an interpolation of it.
  function TemplateEnd(b: bytes, i: nat, depth: nat): (r: Option<nat>)
    ensures r.Some? ==> i <= r.value < |b|
    decreases |b| - i
  {
    if i >= |b| then None
    else if depth == 0 then
      if b[i] == BACKTICK then Some(i)
      else if b[i] == DOLLAR && i + 1 < |b| && b[i + 1] == 123 then TemplateEnd(b, i + 2, 1)
      else if b[i] == BACKSLASH && i + 1 < |b| then TemplateEnd(b, i + 2, 0)
      else TemplateEnd(b, i + 1, 0)
    else if b[i] == BACKTICK then
      var nested := TemplateEnd(b, i + 1, 0);
      if nested.None? then None else TemplateEnd(b, nested.value + 1, depth)
    else if b[i] == 123 then TemplateEnd(b, i + 1, depth + 1)
    else if b[i] == 125 then TemplateEnd(b, i + 1, depth - 1)
    else if b[i] == BACKSLASH && i + 1 < |b| then TemplateEnd(b, i + 2, depth)
    else TemplateEnd(b, i + 1, depth)
  }

  function QuotedEnd(b: bytes, i: nat, quote: byte): (r: Option<nat>)
    ensures r.Some? ==> i <= r.value < |b|
    decreases |b| - i
  {
    if i >= |b| then None
    else if b[i] == BACKSLASH && i + 1 < |b| then QuotedEnd(b, i + 2, quote)
    else if b[i] == quote then Some(i)
    else if b[i] == NEWLINE then None
    else QuotedEnd(b, i + 1, quote)
  }

  function LiteralEnd(b: bytes, start: nat): (r: Option<nat>)
    ensures r.Some? ==> start < r.value < |b|
  {
    if start >= |b| then None
    else if b[start] == BACKTICK then TemplateEnd(b, start + 1, 0)
    else QuotedEnd(b, start + 1, b[start])
  }

  method FindTemplateLiteralEnd(b: bytes, start: nat) returns (r: Option<nat>)
    ensures r == TemplateEnd(b, start, 0)
    decreases |b| - start
  {
    var exprDepth: int := 0;
    var i := start;
    while i < |b|
      invariant i >= start && exprDepth >= 0
      invariant TemplateEnd(b, i, exprDepth) == TemplateEnd(b, start, 0)
      decreases |b| - i
    {
      var c := b[i];
      if exprDepth == 0 {
        if c == BACKTICK {
          return Some(i);
        }
        if c == DOLLAR && i + 1 < |b| && b[i + 1] == 123 {
          exprDepth := 1;
          i := i + 2;
          continue;
        }
        if c == BACKSLASH && i + 1 < |b| {
          i := i + 2;
          continue;
        }
        i := i + 1;
        continue;
      }
      if c == BACKTICK {
        var nested := FindTemplateLiteralEnd(b, i + 1);
        if nested.None? {
          return None;
        }
        i := nested.value;
      } else if c == 123 {
        exprDepth := exprDepth + 1;
      } else if c == 125 {
        exprDepth := exprDepth - 1;
        if exprDepth < 0 {
          // The source's guard against unbalanced braces never fires.
          assert false;
        }
      } else if c == BACKSLASH {
        if i + 1 < |b| {
          i := i + 1;
        }
      }
      i := i + 1;
    }
    return None;
  }

  method ScanStringLiteral(b: bytes, start: nat) returns (r: Option<nat>)
    ensures r == LiteralEnd(b, start)
  {
    if start >= |b| {
      return None;
    }
    var quote := b[start];
    if quote == BACKTICK {
      r := FindTemplateLiteralEnd(b, start + 1);
      return;
    }
    var i := start + 1;
    while i < |b|
      invariant QuotedEnd(b, i, quote) == QuotedEnd(b, start + 1, quote)
      decreases |b| - i
    {
      var c := b[i];
      if c == BACKSLASH && i + 1 < |b| {
        i := i + 2;
        continue;
      }
      if c == quote {
        return Some(i);
      }
      if c == NEWLINE {
        return None;
      }
      i := i + 1;
    }
    return None;
  }

  // The bytes of b from lo to hi are those of c, moved by off.
  ghost predicate Agree(b: bytes, c: bytes, off: int, lo: nat, hi: nat) {
    && 0 <= lo + off && lo <= hi <= |b| && hi + off <= |c|
    && forall k {:trigger b[k]} :: lo <= k < hi ==> b[k] == c[k + off]
  }

  // A literal found to end at e ends there in any text with the same bytes up to e, wherever it is.
  lemma {:induction false} TemplateEndLocal(b: bytes, i: nat, c: bytes, off: int, depth: nat, e: nat)
    requires TemplateEnd(b, i, depth) == Some(e) && Agree(b, c, off, i, e + 1)
    ensures TemplateEnd(c, i + off, depth) == Some(e + off)
    decreases |b| - i, 1
  {
    var x := b[i];
    if depth > 0 {
      ExpressionEndLocal(b, i, c, off, depth, e);
    } else if x != BACKTICK {
      var y := b[i + 1];
      if x == BACKSLASH {
        TemplateEndLocal(b, i + 2, c, off, 0, e);
      } else if x == DOLLAR && y == 123 {
        TemplateEndLocal(b, i + 2, c, off, 1, e);
      } else {
        TemplateEndLocal(b, i + 1, c, off, 0, e);
      }
    }
  }

  // Inside an interpolation.
  lemma {:induction false} ExpressionEndLocal(b: bytes, i: nat, c: bytes, off: int, depth: nat, e: nat)
    requires depth > 0 && TemplateEnd(b, i, depth) == Some(e) && Agree(b, c, off, i, e + 1)
    ensures TemplateEnd(c, i + off, depth) == Some(e + off)
    decreases |b| - i, 0
  {
    var x, y := b[i], b[i + 1];
    if x == BACKTICK {
      var m := TemplateEnd(b, i + 1, 0).value;
      TemplateEndLocal(b, i + 1, c, off, 0, m);
      TemplateEndLocal(b, m + 1, c, off, depth, e);
    } else if x == BACKSLASH {
      TemplateEndLocal(b, i + 2, c, off, depth, e);
    } else {
      var d := if x == 123 then depth + 1 else if x == 125 then depth - 1 else depth;
      TemplateEndLocal(b, i + 1, c, off, d, e);
    }
  }

  lemma {:induction false} QuotedEndLocal(b: bytes, i: nat, c: bytes, off: int, quote: byte, e: nat)
    requires QuotedEnd(b, i, quote) == Some(e) && Agree(b, c, off, i, e + 1) && quote != BACKSLASH
    ensures QuotedEnd(c, i + off, quote) == Some(e + off)
    decreases |b| - i
  {
    var x := b[i];
    if x == BACKSLASH && i + 1 < |b| {
      var y := b[i + 1];
      QuotedEndLocal(b, i + 2, c, off, quote, e);
    } else if x != quote {
      QuotedEndLocal(b, i + 1, c, off, quote, e);
    }
  }

  lemma LiteralEndLocal(b: bytes, i: nat, c: bytes, off: int, e: nat)
    requires LiteralEnd(b, i) == Some(e) && b[i] != BACKSLASH && Agree(b, c, off, i, e + 1)
    ensures LiteralEnd(c, i + off) == Some(e + off)
  {
    var x := b[i];
    if x == BACKTICK {
      TemplateEndLocal(b, i + 1, c, off, 0, e);
    } else {
      QuotedEndLocal(b, i + 1, c, off, x, e);
    }
  }

  lemma AgreeBack(b: bytes, c: bytes, off: int, lo: nat, hi: nat)
    requires Agree(b, c, off, lo, hi)
    ensures Agree(c, b, -off, lo + off, hi + off)
  {
    forall k | lo + off <= k < hi + off ensures c[k] == b[k + -off] {
      var x := b[k - off];
    }
  }

  // Two texts alike from here to their ends are scanned alike, found or not.
  lemma LiteralEndShift(b: bytes, i: nat, c: bytes, off: int)
    requires i < |b| && Agree(b, c, off, i, |b|) && |c| == |b| + off && b[i] != BACKSLASH
    ensures LiteralEnd(b, i).Some? <==> LiteralEnd(c, i + off).Some?
    ensures LiteralEnd(b, i).Some? ==> LiteralEnd(c, i + off) == Some(LiteralEnd(b, i).value + off)
  {
    AgreeBack(b, c, off, i, |b|);
    if LiteralEnd(b, i).Some? {
      LiteralEndLocal(b, i, c, off, LiteralEnd(b, i).value);
    }
    if LiteralEnd(c, i + off).Some? {
      LiteralEndLocal(c, i + off, b, -off, LiteralEnd(c, i + off).value);
    }
  }

  // The same first e + 1 bytes, the same end.
  lemma LiteralEndStable(b: bytes, c: bytes, start: nat, e: nat)
    requires LiteralEnd(b, start) == Some(e) && b[start] != BACKSLASH && e < |c| && b[..e + 1] == c[..e + 1]
    ensures LiteralEnd(c, start) == Some(e)
  {
    forall k | start <= k < e + 1 ensures b[k] == c[k] {
      assert b[..e + 1][k] == c[..e + 1][k];
    }
    LiteralEndLocal(b, start, c, 0, e);
  }

  // Whatever ends a literal that opens with q ends it in every longer text.
  ghost predicate StableFrom(q: byte) {
    forall b: bytes, c: bytes, start: nat, e: nat :: StableAt(q, b, c, start, e)
  }

  ghost predicate StableAt(q: byte, b: bytes, c: bytes, start: nat, e: nat) {
    LiteralEnd(b, start) == Some(e) && b[start] == q && e < |c| && b[..e + 1] == c[..e + 1] ==>
      LiteralEnd(c, start) == Some(e)
  }

  const SHORT: bytes := [BACKSLASH, 120, BACKSLASH]
  const LONG: bytes := [BACKSLASH, 120, BACKSLASH, BACKSLASH]

  // The short text ends at its last byte, which in the long one escapes the next.
  lemma BackslashUnstable()
    ensures LiteralEnd(SHORT, 0) == Some(2) && LiteralEnd(LONG, 0) == None && SHORT == LONG[..3]
  {
    assert QuotedEnd(SHORT, 2, BACKSLASH) == Some(2) && QuotedEnd(SHORT, 1, BACKSLASH) == Some(2);
    assert QuotedEnd(LONG, 4, BACKSLASH) == None && QuotedEnd(LONG, 2, BACKSLASH) == None;
    assert QuotedEnd(LONG, 1, BACKSLASH) == None;
  }

  // The scan is stable from every opening byte, the three quotes among them, but a backslash.
  lemma StableExactly(q: byte)
    ensures StableFrom(q) <==> q != BACKSLASH
  {
    if q == BACKSLASH {
      BackslashUnstable();
      assert SHORT[..3] == LONG[..3];
      assert !StableAt(q, SHORT, LONG, 0, 2);
    } else {
      forall b: bytes, c: bytes, start: nat, e: nat ensures StableAt(q, b, c, start, e) {
        if LiteralEnd(b, start) == Some(e) && b[start] == q && e < |c| && b[..e + 1] == c[..e + 1] {
          LiteralEndStable(b, c, start, e);
        }
      }
    }
  }
}
