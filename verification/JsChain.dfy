/** Chains of operands joined by plus signs: parsePlusChain of pkg/crawl/jsreplay.go. */
module JsChain {
  import opened ByteStrings
  import opened JsScan
  import opened JsArgs

  const MAX_OPERANDS := 16
  const MAX_SPAN := 1024

  // What stands for an operand whose text is unknown.
  const SENTINEL: bytes := [48]

  const SEMICOLON: byte := 59

  datatype Operand = Operand(text: bytes, end: nat)

  predicate IsSpace(c: byte) {
    c == 32 || c == 9 || c == 10 || c == 13
  }

  function SkipSpace(b: bytes, i: nat): (r: nat)
    ensures r >= i && (i <= |b| ==> r <= |b|)
    decreases |b| - i
  {
    if i < |b| && IsSpace(b[i]) then SkipSpace(b, i + 1) else i
  }

  // What ends an operand outside brackets.
  predicate EndsOperand(c: byte) {
    c == PLUS || c == SEMICOLON || c == COMMA || c == 10 || c == 13 || c == 41 || c == 93 || c == 125
  }

  function OperandEnd(b: bytes, i: nat, d: Depth): (r: nat)
    ensures r >= i && (i <= |b| ==> r <= |b|)
    decreases |b| - i
  {
    if i >= |b| || (d == TOP && EndsOperand(b[i])) then i
    else if IsQuote(b[i]) then
      var end := LiteralEnd(b, i);
      if end.None? then i else OperandEnd(b, end.value + 1, d)
    else OperandEnd(b, i + 1, Count(d, b[i]))
  }

  // strings.Contains(s, "${").
  predicate Interpolates(s: bytes) {
    |s| >= 2 && ((s[0] == DOLLAR && s[1] == 123) || Interpolates(s[1..]))
  }

  function StringLiteralValue(s: bytes): Option<bytes> {
    if |s| < 2 || s[0] != s[|s| - 1] || !IsQuote(s[0]) then None
    else
      var inner := s[1..|s| - 1];
      if s[0] == BACKTICK && Interpolates(inner) then None else Some(inner)
  }

  function ReadOperand(b: bytes, pos: nat): (r: Option<Operand>)
    ensures r.Some? ==> pos < r.value.end <= |b|
  {
    if pos >= |b| then None
    else if IsQuote(b[pos]) then
      var end := LiteralEnd(b, pos);
      if end.None? then None
      else
        var text := StringLiteralValue(b[pos..end.value + 1]);
        Some(Operand(if text.Some? then text.value else SENTINEL, end.value + 1))
    else
      var end := OperandEnd(b, pos, TOP);
      if end == pos then None else Some(Operand(SENTINEL, end))
  }

  // One operand, and where the next one starts if a plus sign follows.
  datatype Link = Link(text: bytes, next: Option<nat>)

  // Where the next operand is read, if a plus sign stands at q.
  function NextAt(b: bytes, q: nat): Option<nat> {
    if q >= |b| || b[q] != PLUS then None else Some(q + 1)
  }

  function ReadLink(b: bytes, pos: nat): Option<Link> {
    var p := SkipSpace(b, pos);
    var o := ReadOperand(b, p);
    if o.None? then None
    else
      var q := SkipSpace(b, o.value.end);
      Some(Link(o.value.text, NextAt(b, q)))
  }

  type Reader = nat -> Option<Link>

  function Reading(b: bytes): Reader {
    (pos: nat) => ReadLink(b, pos)
  }

  // At most n operands from pos.
  function Chain(read: Reader, pos: nat, n: nat): bytes
    decreases n
  {
    if n == 0 then []
    else
      var l := read(pos);
      if l.None? then []
      else if l.value.next.None? then l.value.text
      else l.value.text + Chain(read, l.value.next.value, n - 1)
  }

  function ChainFrom(b: bytes, pos: nat, n: nat): bytes {
    Chain(Reading(b), pos, n)
  }

  function PlusChain(js: bytes, start: nat): bytes {
    ChainFrom(js[..Min(start + MAX_SPAN, |js|)], start, MAX_OPERANDS)
  }

  method SkipPlusChainWhitespace(b: bytes, start: nat) returns (pos: nat)
    ensures pos == SkipSpace(b, start)
  {
    pos := start;
    while pos < |b|
      invariant SkipSpace(b, pos) == SkipSpace(b, start)
    {
      var c := b[pos];
      if c != 32 && c != 9 && c != 10 && c != 13 {
        return;
      }
      pos := pos + 1;
    }
  }

  method ScanIdentifierOperand(b: bytes, pos: nat) returns (i: nat)
    ensures i == OperandEnd(b, pos, TOP)
  {
    var round, square, curly: nat := 0, 0, 0;
    i := pos;
    while i < |b|
      invariant OperandEnd(b, i, Depth(round, square, curly)) == OperandEnd(b, pos, TOP)
      decreases |b| - i
    {
      var c := b[i];
      if round == 0 && square == 0 && curly == 0 {
        if EndsOperand(c) {
          return;
        }
      }
      if c == 40 {
        round := round + 1;
      } else if c == 41 {
        if round > 0 {
          round := round - 1;
        }
      } else if c == 91 {
        square := square + 1;
      } else if c == 93 {
        if square > 0 {
          square := square - 1;
        }
      } else if c == 123 {
        curly := curly + 1;
      } else if c == 125 {
        if curly > 0 {
          curly := curly - 1;
        }
      } else if c == DOUBLE || c == SINGLE || c == BACKTICK {
        var end := ScanStringLiteral(b, i);
        if end.None? {
          return;
        }
        i := end.value;
      }
      i := i + 1;
    }
  }

  method ReadChainOperand(b: bytes, pos: nat) returns (r: Option<Operand>)
    ensures r == ReadOperand(b, pos)
  {
    if pos >= |b| {
      return None;
    }
    var c := b[pos];
    if c == DOUBLE || c == SINGLE || c == BACKTICK {
      var end := ScanStringLiteral(b, pos);
      if end.None? {
        return None;
      }
      var text := StringLiteralValue(b[pos..end.value + 1]);
      if text.Some? {
        return Some(Operand(text.value, end.value + 1));
      }
      return Some(Operand(SENTINEL, end.value + 1));
    }
    var end := ScanIdentifierOperand(b, pos);
    if end == pos {
      return None;
    }
    return Some(Operand(SENTINEL, end));
  }

  // One turn of the source's loop.
  method ReadPlusLink(b: bytes, start: nat) returns (r: Option<Link>)
    ensures r == ReadLink(b, start)
  {
    var pos := SkipPlusChainWhitespace(b, start);
    if pos >= |b| {
      return None;
    }
    var o := ReadChainOperand(b, pos);
    if o.None? {
      return None;
    }
    pos := SkipPlusChainWhitespace(b, o.value.end);
    if pos >= |b| || b[pos] != PLUS {
      return Some(Link(o.value.text, None));
    }
    return Some(Link(o.value.text, Some(pos + 1)));
  }

  // The same, onto the text built so far.
  ghost function ChainOnto(text: bytes, read: Reader, pos: nat, n: nat): bytes
    decreases n
  {
    var l := read(pos);
    if n == 0 || l.None? then text
    else if l.value.next.None? then text + l.value.text
    else ChainOnto(text + l.value.text, read, l.value.next.value, n - 1)
  }

  lemma {:induction false} ChainOntoIs(text: bytes, read: Reader, pos: nat, n: nat)
    ensures ChainOnto(text, read, pos, n) == text + Chain(read, pos, n)
    decreases n
  {
    var l := read(pos);
    if n > 0 && l.Some? && l.value.next.Some? {
      ChainOntoIs(text + l.value.text, read, l.value.next.value, n - 1);
    }
  }

  method RunChain(body: bytes, start: nat, n: nat) returns (text: bytes)
    ensures text == ChainFrom(body, start, n)
  {
    ghost var read := Reading(body);
    ChainOntoIs([], read, start, n);
    text := [];
    var pos: nat := start;
    for op := 0 to n
      invariant ChainOnto(text, read, pos, n - op) == ChainOnto([], read, start, n)
    {
      var l := ReadPlusLink(body, pos);
      if l.None? {
        return;
      }
      text := text + l.value.text;
      if l.value.next.None? {
        return;
      }
      pos := l.value.next.value;
    }
  }

  method ParsePlusChain(js: bytes, start: nat) returns (text: bytes)
    ensures text == PlusChain(js, start)
  {
    var limit := start + MAX_SPAN;
    if limit > |js| {
      limit := |js|;
    }
    text := RunChain(js[..limit], start, MAX_OPERANDS);
  }

  // ---------------------------------------------------------------- the window

  // Two texts alike from here to their ends.
  ghost predicate SameRest(b: bytes, c: bytes, off: int, i: nat) {
    i <= |b| && Agree(b, c, off, i, |b|) && |c| == |b| + off
  }

  lemma {:induction false} SkipSpaceShift(b: bytes, c: bytes, off: int, i: nat)
    requires SameRest(b, c, off, i)
    ensures SkipSpace(c, i + off) == SkipSpace(b, i) + off
    decreases |b| - i
  {
    if i < |b| && IsSpace(b[i]) {
      SkipSpaceShift(b, c, off, i + 1);
    }
  }

  lemma SameFurther(b: bytes, c: bytes, off: int, i: nat, k: nat)
    requires SameRest(b, c, off, i) && i <= k <= |b|
    ensures SameRest(b, c, off, k)
  {
  }

  lemma OperandSteps(b: bytes, i: nat, d: Depth)
    requires i < |b| && !IsQuote(b[i]) && !(d == TOP && EndsOperand(b[i]))
    ensures OperandEnd(b, i, d) == OperandEnd(b, i + 1, Count(d, b[i]))
  {
  }

  lemma OperandSkips(b: bytes, i: nat, d: Depth)
    requires i < |b| && IsQuote(b[i])
    ensures OperandEnd(b, i, d)
         == if LiteralEnd(b, i).Some? then OperandEnd(b, LiteralEnd(b, i).value + 1, d) else i
  {
  }

  lemma {:induction false} OperandEndShift(b: bytes, c: bytes, off: int, i: nat, j: nat, d: Depth)
    requires SameRest(b, c, off, i) && j == i + off
    ensures OperandEnd(c, j, d) == OperandEnd(b, i, d) + off
    decreases |b| - i
  {
    if i < |b| {
      var x := b[i];
      if IsQuote(x) {
        LiteralEndShift(b, i, c, off);
        OperandSkips(b, i, d);
        OperandSkips(c, j, d);
        if LiteralEnd(b, i).Some? {
          SameFurther(b, c, off, i, LiteralEnd(b, i).value + 1);
          OperandEndShift(b, c, off, LiteralEnd(b, i).value + 1, LiteralEnd(c, j).value + 1, d);
        }
      } else if !(d == TOP && EndsOperand(x)) {
        OperandSteps(b, i, d);
        OperandSteps(c, j, d);
        SameFurther(b, c, off, i, i + 1);
        OperandEndShift(b, c, off, i + 1, j + 1, Count(d, x));
      }
    }
  }

  lemma ReadOperandShift(b: bytes, c: bytes, off: int, i: nat)
    requires SameRest(b, c, off, i)
    ensures ReadOperand(b, i).Some? <==> ReadOperand(c, i + off).Some?
    ensures ReadOperand(b, i).Some? ==>
              ReadOperand(c, i + off) == Some(Operand(ReadOperand(b, i).value.text, ReadOperand(b, i).value.end + off))
  {
    if i < |b| {
      var x := b[i];
      if IsQuote(x) {
        LiteralEndShift(b, i, c, off);
        if LiteralEnd(b, i).Some? {
          var e := LiteralEnd(b, i).value;
          SliceShift(b, c, off, i, e + 1);
        }
      } else {
        OperandEndShift(b, c, off, i, i + off, TOP);
      }
    }
  }

  lemma SliceShift(b: bytes, c: bytes, off: int, lo: nat, hi: nat)
    requires lo <= hi <= |b| && Agree(b, c, off, lo, |b|)
    ensures b[lo..hi] == c[lo + off..hi + off]
  {
    forall k | 0 <= k < hi - lo ensures b[lo..hi][k] == c[lo + off..hi + off][k] {
      var x := b[lo + k];
    }
  }

  // The same link, the place it leads to moved by off and between lo and hi.
  ghost predicate SameLink(l: Option<Link>, m: Option<Link>, off: int, lo: nat, hi: nat) {
    && (l.Some? <==> m.Some?)
    && (l.Some? ==>
          && m.value.text == l.value.text && (m.value.next.Some? <==> l.value.next.Some?)
          && (l.value.next.Some? ==> m.value.next.value == l.value.next.value + off && lo <= l.value.next.value <= hi))
  }

  lemma LinkIs(b: bytes, pos: nat, start: nat, text: bytes, stop: nat, end: nat)
    requires SkipSpace(b, pos) == start && ReadOperand(b, start) == Some(Operand(text, stop))
    requires SkipSpace(b, stop) == end
    ensures ReadLink(b, pos) == Some(Link(text, NextAt(b, end)))
  {
  }

  lemma NoLink(b: bytes, pos: nat, start: nat)
    requires SkipSpace(b, pos) == start && ReadOperand(b, start).None?
    ensures ReadLink(b, pos).None?
  {
  }

  lemma NextAtShift(b: bytes, c: bytes, off: int, i: nat, q: nat, text: bytes)
    requires SameRest(b, c, off, i) && i <= q <= |b|
    ensures 0 <= q + off && SameLink(Some(Link(text, NextAt(b, q))), Some(Link(text, NextAt(c, q + off))), off, i, |b|)
  {
    if q < |b| {
      var x := b[q];
    }
  }

  lemma ReadLinkShift(b: bytes, c: bytes, off: int, i: nat)
    requires SameRest(b, c, off, i)
    ensures SameLink(ReadLink(b, i), ReadLink(c, i + off), off, i, |b|)
  {
    SkipSpaceShift(b, c, off, i);
    var p := SkipSpace(b, i);
    ReadOperandShift(b, c, off, p);
    if ReadOperand(b, p).Some? {
      var o := ReadOperand(b, p).value;
      var q := SkipSpace(b, o.end);
      SkipSpaceShift(b, c, off, o.end);
      LinkIs(b, i, p, o.text, o.end, q);
      LinkIs(c, i + off, p + off, o.text, o.end + off, q + off);
      NextAtShift(b, c, off, i, q, o.text);
    } else {
      NoLink(b, i, p);
      NoLink(c, i + off, p + off);
    }
  }

  // The reader s does from i + off what r does from i, up to hi.
  ghost predicate Shifted(r: Reader, s: Reader, off: int, lo: nat, hi: nat) {
    0 <= lo + off && forall i: nat :: lo <= i <= hi ==> SameLink(r(i), s(i + off), off, i, hi)
  }

  lemma ReadingShift(b: bytes, c: bytes, off: int, lo: nat)
    requires SameRest(b, c, off, lo)
    ensures Shifted(Reading(b), Reading(c), off, lo, |b|)
  {
    forall i: nat | lo <= i <= |b| ensures SameLink(Reading(b)(i), Reading(c)(i + off), off, i, |b|) {
      ReadLinkShift(b, c, off, i);
    }
  }

  lemma {:induction false} ChainShift(r: Reader, s: Reader, off: int, lo: nat, hi: nat, i: nat, j: nat, n: nat)
    requires Shifted(r, s, off, lo, hi) && lo <= i <= hi && j == i + off
    ensures Chain(s, j, n) == Chain(r, i, n)
    decreases n
  {
    if n > 0 && r(i).Some? && r(i).value.next.Some? {
      ChainShift(r, s, off, lo, hi, r(i).value.next.value, s(j).value.next.value, n - 1);
    }
  }

  // The window the chain is read from.
  function Window(js: bytes, start: nat): bytes
    requires start <= |js|
  {
    js[start..Min(start + 1024, |js|)]
  }

  lemma SameWindow(js: bytes, start: nat, other: bytes, from: nat)
    requires start <= |js| && from <= |other| && Window(js, start) == Window(other, from)
    ensures SameRest(js[..Min(start + MAX_SPAN, |js|)], other[..Min(from + MAX_SPAN, |other|)], from - start, start)
  {
    var b, c := js[..Min(start + MAX_SPAN, |js|)], other[..Min(from + MAX_SPAN, |other|)];
    assert |Window(js, start)| == |b| - start && |Window(other, from)| == |c| - from;
    forall k | start <= k < |b| ensures b[k] == c[k + (from - start)] {
      assert b[k] == Window(js, start)[k - start] == Window(other, from)[k - start];
    }
  }

  lemma ChainsAlike(b: bytes, c: bytes, off: int, start: nat, from: nat)
    requires SameRest(b, c, off, start) && from == start + off
    ensures ChainFrom(c, from, MAX_OPERANDS) == ChainFrom(b, start, MAX_OPERANDS)
  {
    ReadingShift(b, c, off, start);
    ChainShift(Reading(b), Reading(c), off, start, |b|, start, from, MAX_OPERANDS);
  }

  // The result depends on the 1024 bytes from start and on nothing before or after them.
  lemma ChainReadsWindow(js: bytes, start: nat, other: bytes, from: nat)
    requires start <= |js| && from <= |other| && Window(js, start) == Window(other, from)
    ensures PlusChain(js, start) == PlusChain(other, from)
  {
    var b, c := js[..Min(start + MAX_SPAN, |js|)], other[..Min(from + MAX_SPAN, |other|)];
    SameWindow(js, start, other, from);
    ChainsAlike(b, c, from - start, start, from);
  }

  // ---------------------------------------------------------------- chains of known texts

  // The first n texts, one after the other.
  ghost function Concat(texts: seq<bytes>, n: nat): bytes {
    if texts == [] || n == 0 then [] else texts[0] + Concat(texts[1..], n - 1)
  }

  // Reading from pos yields these texts, linked in this order.
  ghost predicate Linked(read: Reader, pos: nat, texts: seq<bytes>)
    requires texts != []
    decreases texts
  {
    var l := read(pos);
    && l.Some? && l.value.text == texts[0]
    && (l.value.next.None? <==> |texts| == 1)
    && (l.value.next.Some? ==> Linked(read, l.value.next.value, texts[1..]))
  }

  lemma ConcatFirst(texts: seq<bytes>, n: nat)
    requires texts != [] && n > 0
    ensures Concat(texts, n) == if |texts| == 1 then texts[0] else texts[0] + Concat(texts[1..], n - 1)
  {
    assert |texts| == 1 ==> texts[0] + [] == texts[0];
  }

  // A chain that yields these texts reads as the first n of them, one after the other.
  lemma {:induction false} LinkedIsRead(read: Reader, pos: nat, texts: seq<bytes>, n: nat)
    requires texts != [] && Linked(read, pos, texts)
    ensures Chain(read, pos, n) == Concat(texts, n)
    decreases n
  {
    if n > 0 {
      ConcatFirst(texts, n);
      if |texts| > 1 {
        LinkedIsRead(read, read(pos).value.next.value, texts[1..], n - 1);
      }
    }
  }
}
