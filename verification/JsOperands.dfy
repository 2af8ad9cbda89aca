/**
 What parsePlusChain of pkg/crawl/jsreplay.go makes of well-formed operands: string literals,
 template literals and other expressions, with white space around the plus signs between them.
 */
module JsOperands {
  import opened ByteStrings
  import opened JsScan
  import opened JsArgs
  import opened JsLiterals
  import opened JsChain

  // An operand of a chain.
  datatype Term = Text(quote: byte, letters: seq<Letter>) | Backticked(parts: seq<Part>) | Expression(items: seq<Item>)

  ghost function WriteTerm(t: Term): bytes {
    match t
    case Text(quote, letters) => [quote] + WriteLetters(letters) + [quote]
    case Backticked(parts) => [96] + WriteParts(parts) + [96]
    case Expression(items) => WriteItems(items)
  }

  // What it contributes: a literal its text, anything else, a template literal with an
  // interpolation included, the sentinel.
  ghost function TextOf(t: Term): bytes {
    match t
    case Text(_, letters) => WriteLetters(letters)
    case Backticked(parts) => if HoldsDollarBrace(WriteParts(parts)) then [48] else WriteParts(parts)
    case Expression(_) => [48]
  }

  ghost predicate HoldsDollarBrace(s: bytes) {
    exists i: nat :: DollarBraceAt(s, i)
  }

  ghost predicate DollarBraceAt(s: bytes, i: nat) {
    i + 1 < |s| && s[i] == 36 && s[i + 1] == 123
  }

  lemma {:induction false} InterpolatesIs(s: bytes)
    ensures Interpolates(s) <==> HoldsDollarBrace(s)
  {
    if |s| >= 2 {
      InterpolatesIs(s[1..]);
      assert DollarBraceAt(s, 0) <==> s[0] == DOLLAR && s[1] == 123;
      if i: nat :| DollarBraceAt(s[1..], i) {
        assert DollarBraceAt(s, i + 1);
      }
      if i: nat :| DollarBraceAt(s, i) {
        assert i == 0 || DollarBraceAt(s[1..], i - 1);
      }
    }
  }

  // What ends an operand outside brackets: + ; , a line end or a closing bracket.
  ghost predicate Ends(c: byte) {
    c == 43 || c == 59 || c == 44 || c == 10 || c == 13 || c == 41 || c == 93 || c == 125
  }

  // A blank, a tab or a line end.
  ghost predicate White(c: byte) {
    c == 32 || c == 9 || c == 10 || c == 13
  }

  ghost predicate TermFits(t: Term) {
    match t
    case Text(quote, letters) => (quote == 34 || quote == 39) && LettersFit(letters, quote)
    case Backticked(parts) => PartsFit(parts)
    case Expression(items) => ItemsFit(items, false) && Unbroken(items) && StartsExpression(WriteItems(items))
  }

  // Outside brackets and literals an expression holds nothing that ends an operand.
  ghost predicate Unbroken(items: seq<Item>) {
    items != [] ==> (items[0].Raw? ==> !Ends(items[0].c)) && Unbroken(items[1..])
  }

  ghost predicate StartsExpression(w: bytes) {
    w != [] && w[0] != 34 && w[0] != 39 && w[0] != 96 && !White(w[0])
  }

  // ---------------------------------------------------------------- one operand

  lemma {:induction false} SkipsItems(b: bytes, i: nat, items: seq<Item>, d: Depth, end: nat)
    requires ItemsFit(items, d != TOP) && (d == TOP ==> Unbroken(items))
    requires Stands(b, i, WriteItems(items)) && end == i + |WriteItems(items)|
    ensures OperandEnd(b, i, d) == OperandEnd(b, end, d)
    decreases items, 0
  {
    if items != [] {
      var j := i + |WriteItem(items[0])|;
      StandsApart(b, i, WriteItem(items[0]), WriteItems(items[1..]));
      SkipsItem(b, i, items[0], d, j);
      SkipsItems(b, j, items[1..], d, end);
    }
  }

  lemma {:induction false} SkipsItem(b: bytes, i: nat, item: Item, d: Depth, end: nat)
    requires ItemFits(item, d != TOP) && Stands(b, i, WriteItem(item)) && end == i + |WriteItem(item)|
    requires d == TOP && item.Raw? ==> !Ends(item.c)
    ensures OperandEnd(b, i, d) == OperandEnd(b, end, d)
    decreases item, 1
  {
    match item
    case Raw(c) => StandsAt(b, i, [c], 0);
    case Literal(text) => SkipsLiteral(b, i, text, d, end);
    case Group(open, close, inner) => SkipsGroup(b, i, item, d, end);
  }

  lemma SkipsLiteral(b: bytes, i: nat, text: bytes, d: Depth, end: nat)
    requires text != [] && IsQuote(text[0]) && LiteralEnd(text, 0) == Some(|text| - 1) && Stands(b, i, text)
    requires end == i + |text|
    ensures OperandEnd(b, i, d) == OperandEnd(b, end, d)
  {
    StandsAt(b, i, text, 0);
    LiteralStands(b, i, text);
  }

  lemma CountsOn(b: bytes, i: nat, d: Depth)
    requires i < |b| && IsBracket(b[i]) && (d == TOP ==> !EndsOperand(b[i]))
    ensures OperandEnd(b, i, d) == OperandEnd(b, i + 1, Count(d, b[i]))
  {
  }

  lemma CountsOpening(b: bytes, i: nat, d: Depth, open: byte, close: byte)
    requires i < |b| && b[i] == open && Matches(open, close)
    ensures OperandEnd(b, i, d) == OperandEnd(b, i + 1, Count(d, open))
  {
    CountsOn(b, i, d);
  }

  lemma CountsClosing(b: bytes, i: nat, d: Depth, open: byte, close: byte)
    requires i < |b| && b[i] == close && Matches(open, close) && d != TOP
    ensures OperandEnd(b, i, d) == OperandEnd(b, i + 1, Count(d, close))
  {
    CountsOn(b, i, d);
  }

  lemma {:induction false} SkipsGroup(b: bytes, i: nat, item: Item, d: Depth, end: nat)
    requires item.Group? && Matches(item.open, item.close) && ItemsFit(item.inner, true)
    requires Stands(b, i, WriteItem(item)) && end == i + |WriteItem(item)|
    ensures OperandEnd(b, i, d) == OperandEnd(b, end, d)
    decreases item, 0
  {
    var within := Count(d, item.open);
    GroupStands(b, i, item, end);
    OpensAndCloses(d, item.open, item.close);
    CountsOpening(b, i, d, item.open, item.close);
    SkipsItems(b, i + 1, item.inner, within, end - 1);
    CountsClosing(b, end - 1, within, item.open, item.close);
  }

  lemma ReadsText(b: bytes, pos: nat, t: Term, last: nat)
    requires t.Text? && TermFits(t) && Stands(b, pos, WriteTerm(t)) && last == pos + 1 + |WriteLetters(t.letters)|
    ensures ReadOperand(b, pos) == Some(Operand(TextOf(t), last + 1))
  {
    StringStands(b, pos, t.letters, t.quote);
    ReadsLiteral(b, pos, t.quote, WriteLetters(t.letters), last);
  }

  lemma ReadsBackticked(b: bytes, pos: nat, t: Term, last: nat)
    requires t.Backticked? && TermFits(t) && Stands(b, pos, WriteTerm(t)) && last == pos + 1 + |WriteParts(t.parts)|
    ensures ReadOperand(b, pos) == Some(Operand(TextOf(t), last + 1))
  {
    TemplateStands(b, pos, t.parts);
    ReadsLiteral(b, pos, BACKTICK, WriteParts(t.parts), last);
  }

  lemma ReadsExpression(b: bytes, pos: nat, items: seq<Item>, end: nat)
    requires ItemsFit(items, false) && Unbroken(items) && StartsExpression(WriteItems(items))
    requires Stands(b, pos, WriteItems(items)) && end == pos + |WriteItems(items)| && (end < |b| ==> Ends(b[end]))
    ensures ReadOperand(b, pos) == Some(Operand([48], end))
  {
    StandsAt(b, pos, WriteItems(items), 0);
    SkipsItems(b, pos, items, TOP, end);
  }

  // A well-formed operand is read to its end and contributes its text; an expression needs
  // something after it that ends an operand, or nothing.
  lemma ReadsTerm(b: bytes, pos: nat, t: Term)
    requires TermFits(t) && Stands(b, pos, WriteTerm(t))
    requires t.Expression? && pos + |WriteTerm(t)| < |b| ==> Ends(b[pos + |WriteTerm(t)|])
    ensures ReadOperand(b, pos) == Some(Operand(TextOf(t), pos + |WriteTerm(t)|))
  {
    match t
    case Text(quote, letters) => ReadsText(b, pos, t, pos + 1 + |WriteLetters(letters)|);
    case Backticked(parts) => ReadsBackticked(b, pos, t, pos + 1 + |WriteParts(parts)|);
    case Expression(items) => ReadsExpression(b, pos, items, pos + |WriteItems(items)|);
  }

  lemma LiteralValue(quote: byte, w: bytes)
    requires IsQuote(quote)
    ensures StringLiteralValue([quote] + w + [quote])
         == if quote == BACKTICK && Interpolates(w) then None else Some(w)
  {
    var raw := [quote] + w + [quote];
    assert raw[1..|raw| - 1] == w;
  }

  lemma ReadsLiteral(b: bytes, pos: nat, quote: byte, w: bytes, last: nat)
    requires IsQuote(quote) && Stands(b, pos, [quote] + w + [quote])
    requires last == pos + 1 + |w| && LiteralEnd(b, pos) == Some(last)
    ensures ReadOperand(b, pos)
         == Some(Operand(if quote == BACKTICK && HoldsDollarBrace(w) then [48] else w, last + 1))
  {
    LiteralValue(quote, w);
    InterpolatesIs(w);
    StandsEnclosed(b, pos, quote, w, quote);
    ReadsRaw(b, pos, [quote] + w + [quote], last);
  }

  lemma ReadsRaw(b: bytes, pos: nat, raw: bytes, last: nat)
    requires pos < |b| && IsQuote(b[pos]) && LiteralEnd(b, pos) == Some(last)
    requires last + 1 == pos + |raw| && Stands(b, pos, raw)
    ensures ReadOperand(b, pos)
         == Some(Operand(if StringLiteralValue(raw).Some? then StringLiteralValue(raw).value else SENTINEL, last + 1))
  {
  }

  // ---------------------------------------------------------------- chains

  // An operand and the white space around it. After an expression it starts with a line end,
  // because blanks and tabs there count as part of the expression.
  datatype Segment = Segment(before: bytes, term: Term, after: bytes)

  ghost predicate AllSpace(s: bytes) {
    s != [] ==> White(s[0]) && AllSpace(s[1..])
  }

  ghost predicate SegmentFits(s: Segment) {
    && TermFits(s.term) && AllSpace(s.before) && AllSpace(s.after)
    && (s.term.Expression? && s.after != [] ==> s.after[0] == 10 || s.after[0] == 13)
  }

  // A segment as written, what it contributes, and whether an operand goes on at its end.
  datatype Piece = Piece(written: bytes, text: bytes, open: bool)

  ghost function PieceOf(s: Segment): Piece {
    Piece(s.before + WriteTerm(s.term) + s.after, TextOf(s.term), s.term.Expression? && s.after == [])
  }

  ghost function PiecesOf(segments: seq<Segment>): seq<Piece> {
    seq(|segments|, i requires 0 <= i < |segments| => PieceOf(segments[i]))
  }

  // The pieces with a plus sign between every two.
  ghost function WritePieces(pieces: seq<Piece>): bytes {
    if pieces == [] then []
    else if |pieces| == 1 then pieces[0].written
    else pieces[0].written + ([43] + WritePieces(pieces[1..]))
  }

  ghost function WriteChain(segments: seq<Segment>): bytes {
    WritePieces(PiecesOf(segments))
  }

  ghost function TextsOf(pieces: seq<Piece>): seq<bytes> {
    if pieces == [] then [] else [pieces[0].text] + TextsOf(pieces[1..])
  }

  // What stands at end goes on neither white space nor, where one is open, an operand.
  ghost predicate StopsAt(b: bytes, end: nat, open: bool) {
    end < |b| ==> !White(b[end]) && (open ==> Ends(b[end]))
  }

  // What may follow a chain: nothing, or a byte that goes on neither it nor its last operand.
  ghost predicate EndsChain(rest: bytes, open: bool) {
    StopsAt(rest, 0, open) && (rest != [] ==> rest[0] != 43)
  }

  // Wherever the piece stands and goes no further, one link of the chain reads it.
  ghost predicate Readable(p: Piece) {
    forall b: bytes, pos: nat, end: nat :: ReadsAt(p, b, pos, end)
  }

  ghost predicate ReadsAt(p: Piece, b: bytes, pos: nat, end: nat) {
    Stands(b, pos, p.written) && end == pos + |p.written| && StopsAt(b, end, p.open) ==>
      ReadLink(b, pos) == Some(Link(p.text, NextAt(b, end)))
  }

  lemma {:induction false} SkipsSpace(b: bytes, i: nat, s: bytes)
    requires AllSpace(s) && Stands(b, i, s)
    requires i + |s| < |b| ==> !IsSpace(b[i + |s|])
    ensures SkipSpace(b, i) == i + |s|
    decreases s
  {
    if s != [] {
      StandsAt(b, i, s, 0);
      assert s == [s[0]] + s[1..];
      StandsApart(b, i, [s[0]], s[1..]);
      SkipsSpace(b, i + 1, s[1..]);
    }
  }

  lemma TermStarts(t: Term)
    requires TermFits(t)
    ensures WriteTerm(t) != [] && !IsSpace(WriteTerm(t)[0])
  {
  }

  lemma PartsStand(b: bytes, pos: nat, before: bytes, w: bytes, after: bytes)
    requires Stands(b, pos, before + w + after)
    ensures Stands(b, pos, before) && Stands(b, pos + |before|, w) && Stands(b, pos + |before| + |w|, after)
  {
    StandsApart(b, pos, before + w, after);
    StandsApart(b, pos, before, w);
  }

  // A line end after an expression ends it, and so does what ends the piece.
  lemma EndsTerm(b: bytes, stop: nat, after: bytes)
    requires Stands(b, stop, after) && (after != [] ==> after[0] == 10 || after[0] == 13)
    requires StopsAt(b, stop + |after|, after == [])
    ensures stop < |b| ==> EndsOperand(b[stop])
  {
    if after != [] {
      StandsAt(b, stop, after, 0);
    }
  }

  // Where an operand is read, white space before and after it is passed.
  lemma ReadsSpaced(b: bytes, pos: nat, before: bytes, start: nat, text: bytes, stop: nat, after: bytes, end: nat)
    requires AllSpace(before) && Stands(b, pos, before) && start == pos + |before|
    requires start < |b| && !IsSpace(b[start]) && ReadOperand(b, start) == Some(Operand(text, stop))
    requires AllSpace(after) && Stands(b, stop, after) && end == stop + |after| && StopsAt(b, end, false)
    ensures ReadLink(b, pos) == Some(Link(text, NextAt(b, end)))
  {
    SkipsSpace(b, pos, before);
    SkipsSpace(b, stop, after);
    LinkIs(b, pos, start, text, stop, end);
  }

  lemma ReadsSegment(b: bytes, pos: nat, s: Segment, start: nat, stop: nat, end: nat)
    requires SegmentFits(s) && StopsAt(b, end, s.term.Expression? && s.after == [])
    requires start == pos + |s.before| && stop == start + |WriteTerm(s.term)| && end == stop + |s.after|
    requires Stands(b, pos, s.before) && Stands(b, start, WriteTerm(s.term)) && Stands(b, stop, s.after)
    ensures ReadLink(b, pos) == Some(Link(TextOf(s.term), NextAt(b, end)))
  {
    TermStarts(s.term);
    StandsAt(b, start, WriteTerm(s.term), 0);
    if s.term.Expression? {
      EndsTerm(b, stop, s.after);
    }
    ReadsTerm(b, start, s.term);
    ReadsSpaced(b, pos, s.before, start, TextOf(s.term), stop, s.after, end);
  }

  lemma ReadsWritten(b: bytes, pos: nat, s: Segment, w: bytes, end: nat)
    requires SegmentFits(s) && StopsAt(b, end, s.term.Expression? && s.after == [])
    requires w == WriteTerm(s.term) && Stands(b, pos, s.before + w + s.after)
    requires end == pos + |s.before + w + s.after|
    ensures ReadLink(b, pos) == Some(Link(TextOf(s.term), NextAt(b, end)))
  {
    var start := pos + |s.before|;
    PartsStand(b, pos, s.before, w, s.after);
    ReadsSegment(b, pos, s, start, start + |w|, end);
  }

  lemma SegmentReadsAt(s: Segment, b: bytes, pos: nat, end: nat)
    requires SegmentFits(s)
    ensures ReadsAt(PieceOf(s), b, pos, end)
  {
    var p := PieceOf(s);
    if Stands(b, pos, p.written) && end == pos + |p.written| && StopsAt(b, end, p.open) {
      ReadsWritten(b, pos, s, WriteTerm(s.term), end);
    }
  }

  lemma SegmentIsReadable(s: Segment)
    requires SegmentFits(s)
    ensures Readable(PieceOf(s))
  {
    var p := PieceOf(s);
    forall b: bytes, pos: nat, end: nat ensures ReadsAt(p, b, pos, end) {
      SegmentReadsAt(s, b, pos, end);
    }
  }

  lemma PieceIsRead(p: Piece, b: bytes, pos: nat, end: nat)
    requires Readable(p) && Stands(b, pos, p.written) && end == pos + |p.written| && StopsAt(b, end, p.open)
    ensures ReadLink(b, pos) == Some(Link(p.text, NextAt(b, end)))
  {
    assert ReadsAt(p, b, pos, end);
  }

  lemma LinksOn(read: Reader, pos: nat, pieces: seq<Piece>)
    requires pieces != [] && read(pos).Some? && read(pos).value.text == pieces[0].text
    requires read(pos).value.next.None? <==> |pieces| == 1
    requires |pieces| > 1 ==> Linked(read, read(pos).value.next.value, TextsOf(pieces[1..]))
    ensures Linked(read, pos, TextsOf(pieces))
  {
    var rest := TextsOf(pieces[1..]);
    assert TextsOf(pieces) == [pieces[0].text] + rest && TextsOf(pieces)[1..] == rest;
  }

  lemma FirstStands(b: bytes, pos: nat, end: nat, pieces: seq<Piece>)
    requires |pieces| > 1 && Stands(b, pos, WritePieces(pieces)) && end == pos + |pieces[0].written|
    ensures Stands(b, pos, pieces[0].written) && NextAt(b, end) == Some(end + 1) && StopsAt(b, end, pieces[0].open)
    ensures Stands(b, end + 1, WritePieces(pieces[1..]))
    ensures pos + |WritePieces(pieces)| == end + 1 + |WritePieces(pieces[1..])|
  {
    StandsAround(b, pos, pieces[0].written, PLUS, WritePieces(pieces[1..]));
  }

  lemma FirstLinks(b: bytes, pos: nat, end: nat, pieces: seq<Piece>)
    requires |pieces| > 1 && Readable(pieces[0]) && Stands(b, pos, pieces[0].written)
    requires end == pos + |pieces[0].written| && StopsAt(b, end, pieces[0].open) && NextAt(b, end) == Some(end + 1)
    requires Linked(Reading(b), end + 1, TextsOf(pieces[1..]))
    ensures Linked(Reading(b), pos, TextsOf(pieces))
  {
    PieceIsRead(pieces[0], b, pos, end);
    LinksOn(Reading(b), pos, pieces);
  }

  // Readable pieces from pos to stop are read one by one.
  lemma {:induction false} PiecesAreLinked(b: bytes, pos: nat, pieces: seq<Piece>, stop: nat)
    requires pieces != [] && (forall p :: p in pieces ==> Readable(p))
    requires Stands(b, pos, WritePieces(pieces)) && stop == pos + |WritePieces(pieces)|
    requires StopsAt(b, stop, pieces[|pieces| - 1].open) && NextAt(b, stop) == None
    ensures Linked(Reading(b), pos, TextsOf(pieces))
    decreases pieces
  {
    var end := pos + |pieces[0].written|;
    assert pieces[0] in pieces;
    if |pieces| > 1 {
      FirstStands(b, pos, end, pieces);
      PiecesAreLinked(b, end + 1, pieces[1..], stop);
      FirstLinks(b, pos, end, pieces);
    } else {
      PieceIsRead(pieces[0], b, pos, end);
      LinksOn(Reading(b), pos, pieces);
    }
  }

  lemma InTheMiddle(before: bytes, w: bytes, rest: bytes, limit: nat)
    requires |before| + |w| <= limit <= |before + w + rest|
    ensures Stands((before + w + rest)[..limit], |before|, w)
    ensures |before| + |w| < limit ==> rest != [] && (before + w + rest)[..limit][|before| + |w|] == rest[0]
  {
    assert (before + w + rest)[..limit][|before|..|before| + |w|] == w;
  }

  lemma ChainOfPieces(b: bytes, pos: nat, pieces: seq<Piece>, stop: nat, rest: bytes)
    requires pieces != [] && (forall p :: p in pieces ==> Readable(p))
    requires Stands(b, pos, WritePieces(pieces)) && stop == pos + |WritePieces(pieces)|
    requires EndsChain(rest, pieces[|pieces| - 1].open) && (stop < |b| ==> rest != [] && b[stop] == rest[0])
    ensures ChainFrom(b, pos, MAX_OPERANDS) == JsChain.Concat(TextsOf(pieces), 16)
  {
    PiecesAreLinked(b, pos, pieces, stop);
    LinkedIsRead(Reading(b), pos, TextsOf(pieces), MAX_OPERANDS);
  }

  // The same for pieces within a text, in the window the chain is read from.
  lemma PlusChainOfPieces(before: bytes, pieces: seq<Piece>, w: bytes, rest: bytes)
    requires pieces != [] && (forall p :: p in pieces ==> Readable(p)) && w == WritePieces(pieces)
    requires EndsChain(rest, pieces[|pieces| - 1].open) && |w| <= 1024
    ensures PlusChain(before + w + rest, |before|) == JsChain.Concat(TextsOf(pieces), 16)
  {
    var js := before + w + rest;
    var limit := Min(|before| + MAX_SPAN, |js|);
    InTheMiddle(before, w, rest, limit);
    ChainOfPieces(js[..limit], |before|, pieces, |before| + |w|, rest);
  }

  // A chain of well-formed operands, whatever stands before it, reads as what the first 16 of them
  // contribute, one after the other.
  lemma PlusChainReads(before: bytes, segments: seq<Segment>, rest: bytes)
    requires segments != [] && (forall s :: s in segments ==> SegmentFits(s))
    requires EndsChain(rest, PieceOf(segments[|segments| - 1]).open) && |WriteChain(segments)| <= 1024
    ensures PlusChain(before + WriteChain(segments) + rest, |before|)
         == JsChain.Concat(TextsOf(PiecesOf(segments)), 16)
  {
    var pieces := PiecesOf(segments);
    forall i | 0 <= i < |pieces| ensures Readable(pieces[i]) {
      SegmentIsReadable(segments[i]);
    }
    PlusChainOfPieces(before, pieces, WriteChain(segments), rest);
  }
}
