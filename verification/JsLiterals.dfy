/**
 What the scanners of pkg/crawl/jsreplay.go recognise: string literals with escapes, template
 literals with interpolations, in which braces and further template literals may nest, and
 arguments made of these, brackets and other text.
 */
module JsLiterals {
  import opened ByteStrings
  import opened JsScan
  import opened JsArgs

  const OPEN_BRACE: byte := 123
  const CLOSE_BRACE: byte := 125

  // The text between the backticks. A dollar sign is plain unless the next byte is a brace.
  datatype Part = Plain(c: byte) | Escape(c: byte) | Interpolation(code: seq<Code>)

  // What stands between the braces of an interpolation.
  datatype Code = Other(c: byte) | EscapedByte(c: byte) | Braces(inner: seq<Code>) | Template(parts: seq<Part>)

  ghost predicate PartsFit(parts: seq<Part>) {
    parts != [] ==>
      && PartFits(parts[0]) && PartsFit(parts[1..])
      && (parts[0] == Plain(36) ==> !StartsWithBrace(WriteParts(parts[1..])))
  }

  ghost predicate PartFits(p: Part) {
    match p
    case Plain(c) => c != 96 && c != 92
    case Escape(_) => true
    case Interpolation(code) => AllCodeFits(code)
  }

  predicate StartsWithBrace(s: bytes) {
    s != [] && s[0] == 123
  }

  ghost predicate AllCodeFits(code: seq<Code>) {
    code != [] ==> CodeFits(code[0]) && AllCodeFits(code[1..])
  }

  ghost predicate CodeFits(c: Code) {
    match c
    case Other(b) => b != 96 && b != 92 && b != 123 && b != 125
    case EscapedByte(_) => true
    case Braces(inner) => AllCodeFits(inner)
    case Template(parts) => PartsFit(parts)
  }

  ghost function WriteParts(parts: seq<Part>): bytes {
    if parts == [] then [] else WritePart(parts[0]) + WriteParts(parts[1..])
  }

  ghost function WritePart(p: Part): bytes {
    match p
    case Plain(c) => [c]
    case Escape(c) => [92, c]
    case Interpolation(code) => [36, 123] + WriteAllCode(code) + [125]
  }

  ghost function WriteAllCode(code: seq<Code>): bytes {
    if code == [] then [] else WriteCode(code[0]) + WriteAllCode(code[1..])
  }

  ghost function WriteCode(c: Code): bytes {
    match c
    case Other(b) => [b]
    case EscapedByte(b) => [92, b]
    case Braces(inner) => [123] + WriteAllCode(inner) + [125]
    case Template(parts) => [96] + WriteParts(parts) + [96]
  }

  // The bytes w stand in b at i.
  ghost predicate Stands(b: bytes, i: nat, w: bytes) {
    i + |w| <= |b| && b[i..i + |w|] == w
  }

  lemma StandsApart(b: bytes, i: nat, u: bytes, v: bytes)
    requires Stands(b, i, u + v)
    ensures Stands(b, i, u) && Stands(b, i + |u|, v)
  {
    assert b[i..i + |u|] == (u + v)[..|u|];
    assert b[i + |u|..i + |u| + |v|] == (u + v)[|u|..];
  }

  lemma StandsAt(b: bytes, i: nat, w: bytes, k: nat)
    requires Stands(b, i, w) && k < |w|
    ensures b[i + k] == w[k]
  {
  }

  // A byte between two others.
  lemma StandsAround(b: bytes, i: nat, u: bytes, x: byte, v: bytes)
    requires Stands(b, i, u + ([x] + v))
    ensures Stands(b, i, u) && Stands(b, i + |u| + 1, v) && i + |u| < |b| && b[i + |u|] == x
  {
    StandsApart(b, i, u, [x] + v);
    StandsApart(b, i + |u|, [x], v);
    StandsAt(b, i + |u|, [x], 0);
  }

  // Bytes between an opening and a closing one.
  lemma StandsEnclosed(b: bytes, i: nat, open: byte, w: bytes, close: byte)
    requires Stands(b, i, [open] + w + [close])
    ensures Stands(b, i + 1, w + [close]) && Stands(b, i + 1, w)
    ensures i + 1 + |w| < |b| && b[i] == open && b[i + 1 + |w|] == close
  {
    assert [open] + w + [close] == [open] + (w + [close]);
    StandsApart(b, i, [open], w + [close]);
    StandsApart(b, i + 1, w, [close]);
    StandsAt(b, i, [open], 0);
    StandsAt(b, i + 1 + |w|, [close], 0);
  }

  // The scan passes over well-formed template text that no brace follows ...
  lemma {:induction false} PassesParts(b: bytes, i: nat, parts: seq<Part>)
    requires PartsFit(parts) && Stands(b, i, WriteParts(parts))
    requires !StartsWithBrace(b[i + |WriteParts(parts)|..])
    ensures TemplateEnd(b, i, 0) == TemplateEnd(b, i + |WriteParts(parts)|, 0)
    decreases parts, 0
  {
    if parts != [] {
      var w, rest := WritePart(parts[0]), WriteParts(parts[1..]);
      StandsApart(b, i, w, rest);
      if parts[0] == Plain(DOLLAR) && rest != [] {
        StandsAt(b, i + 1, rest, 0);
      }
      PassesPart(b, i, parts[0]);
      PassesParts(b, i + |w|, parts[1..]);
    }
  }

  lemma {:induction false} PassesPart(b: bytes, i: nat, p: Part)
    requires PartFits(p) && Stands(b, i, WritePart(p))
    requires p == Plain(DOLLAR) ==> !StartsWithBrace(b[i + 1..])
    ensures TemplateEnd(b, i, 0) == TemplateEnd(b, i + |WritePart(p)|, 0)
    decreases p, 1
  {
    match p
    case Plain(c) => StandsAt(b, i, [c], 0);
    case Escape(c) =>
      StandsAt(b, i, [BACKSLASH, c], 0);
      StandsAt(b, i, [BACKSLASH, c], 1);
    case Interpolation(code) => PassesInterpolation(b, i, p);
  }

  lemma {:induction false} PassesInterpolation(b: bytes, i: nat, p: Part)
    requires p.Interpolation? && PartFits(p) && Stands(b, i, WritePart(p))
    ensures TemplateEnd(b, i, 0) == TemplateEnd(b, i + |WritePart(p)|, 0)
    decreases p, 0
  {
    var w := WriteAllCode(p.code);
    assert WritePart(p) == [DOLLAR] + ([OPEN_BRACE] + w + [CLOSE_BRACE]);
    StandsApart(b, i, [DOLLAR], [OPEN_BRACE] + w + [CLOSE_BRACE]);
    StandsAt(b, i, [DOLLAR], 0);
    StandsEnclosed(b, i + 1, OPEN_BRACE, w, CLOSE_BRACE);
    PassesAllCode(b, i + 2, p.code, 1);
  }

  // ... and over the code of an interpolation, braces and template literals in it included.
  lemma {:induction false} PassesAllCode(b: bytes, i: nat, code: seq<Code>, depth: nat)
    requires AllCodeFits(code) && Stands(b, i, WriteAllCode(code)) && depth > 0
    ensures TemplateEnd(b, i, depth) == TemplateEnd(b, i + |WriteAllCode(code)|, depth)
    decreases code, 0
  {
    if code != [] {
      StandsApart(b, i, WriteCode(code[0]), WriteAllCode(code[1..]));
      PassesCode(b, i, code[0], depth);
      PassesAllCode(b, i + |WriteCode(code[0])|, code[1..], depth);
    }
  }

  lemma {:induction false} PassesCode(b: bytes, i: nat, c: Code, depth: nat)
    requires CodeFits(c) && Stands(b, i, WriteCode(c)) && depth > 0
    ensures TemplateEnd(b, i, depth) == TemplateEnd(b, i + |WriteCode(c)|, depth)
    decreases c, 1
  {
    match c
    case Other(x) => StandsAt(b, i, [x], 0);
    case EscapedByte(x) =>
      StandsAt(b, i, [BACKSLASH, x], 0);
      StandsAt(b, i, [BACKSLASH, x], 1);
    case Braces(_) => PassesBraces(b, i, c, depth);
    case Template(_) => PassesTemplate(b, i, c, depth);
  }

  lemma {:induction false} PassesBraces(b: bytes, i: nat, c: Code, depth: nat)
    requires c.Braces? && CodeFits(c) && Stands(b, i, WriteCode(c)) && depth > 0
    ensures TemplateEnd(b, i, depth) == TemplateEnd(b, i + |WriteCode(c)|, depth)
    decreases c, 0
  {
    var w := WriteAllCode(c.inner);
    StandsEnclosed(b, i, OPEN_BRACE, w, CLOSE_BRACE);
    PassesAllCode(b, i + 1, c.inner, depth + 1);
  }

  lemma {:induction false} PassesTemplate(b: bytes, i: nat, c: Code, depth: nat)
    requires c.Template? && CodeFits(c) && Stands(b, i, WriteCode(c)) && depth > 0
    ensures TemplateEnd(b, i, depth) == TemplateEnd(b, i + |WriteCode(c)|, depth)
    decreases c, 0
  {
    var w := WriteParts(c.parts);
    StandsEnclosed(b, i, BACKTICK, w, BACKTICK);
    ReadsTemplate(b, i + 1, c.parts);
  }

  lemma {:induction false} ReadsTemplate(b: bytes, i: nat, parts: seq<Part>)
    requires PartsFit(parts) && Stands(b, i, WriteParts(parts) + [BACKTICK])
    ensures TemplateEnd(b, i, 0) == Some(i + |WriteParts(parts)|)
    decreases parts, 1
  {
    StandsApart(b, i, WriteParts(parts), [BACKTICK]);
    StandsAt(b, i + |WriteParts(parts)|, [BACKTICK], 0);
    PassesParts(b, i, parts);
  }

  lemma TemplateStands(b: bytes, i: nat, parts: seq<Part>)
    requires PartsFit(parts) && Stands(b, i, [96] + WriteParts(parts) + [96])
    ensures LiteralEnd(b, i) == Some(i + 1 + |WriteParts(parts)|)
  {
    var w := WriteParts(parts);
    StandsEnclosed(b, i, BACKTICK, w, BACKTICK);
    ReadsTemplate(b, i + 1, parts);
  }

  lemma StandsBetween(before: bytes, w: bytes, after: bytes)
    ensures Stands(before + w + after, |before|, w)
  {
  }

  // A template literal ends at its own closing backtick, wherever it stands.
  lemma TemplateLiteralEnds(before: bytes, parts: seq<Part>, after: bytes)
    requires PartsFit(parts)
    ensures LiteralEnd(before + ([96] + WriteParts(parts) + [96]) + after, |before|)
         == Some(|before| + 1 + |WriteParts(parts)|)
  {
    var w := [BACKTICK] + WriteParts(parts) + [BACKTICK];
    StandsBetween(before, w, after);
    TemplateStands(before + w + after, |before|, parts);
  }

  // ---------------------------------------------------------------- quoted strings

  // A byte of a string literal, escaped or not.
  datatype Letter = Letter(escaped: bool, c: byte)

  ghost predicate LettersFit(letters: seq<Letter>, quote: byte) {
    letters != [] ==>
      && (letters[0].escaped || (letters[0].c != quote && letters[0].c != 92 && letters[0].c != 10))
      && LettersFit(letters[1..], quote)
  }

  ghost function WriteLetters(letters: seq<Letter>): bytes {
    if letters == [] then []
    else (if letters[0].escaped then [92, letters[0].c] else [letters[0].c]) + WriteLetters(letters[1..])
  }

  lemma {:induction false} PassesLetters(b: bytes, i: nat, letters: seq<Letter>, quote: byte)
    requires quote != BACKSLASH && LettersFit(letters, quote) && Stands(b, i, WriteLetters(letters))
    ensures QuotedEnd(b, i, quote) == QuotedEnd(b, i + |WriteLetters(letters)|, quote)
    decreases letters
  {
    if letters != [] {
      var l := letters[0];
      var w := if l.escaped then [BACKSLASH, l.c] else [l.c];
      StandsApart(b, i, w, WriteLetters(letters[1..]));
      StandsAt(b, i, w, 0);
      PassesLetters(b, i + |w|, letters[1..], quote);
    }
  }

  lemma StringStands(b: bytes, i: nat, letters: seq<Letter>, quote: byte)
    requires (quote == 34 || quote == 39) && LettersFit(letters, quote)
    requires Stands(b, i, [quote] + WriteLetters(letters) + [quote])
    ensures LiteralEnd(b, i) == Some(i + 1 + |WriteLetters(letters)|)
  {
    var w := WriteLetters(letters);
    StandsEnclosed(b, i, quote, w, quote);
    PassesLetters(b, i + 1, letters, quote);
  }

  // A string literal ends at its own closing quote, wherever it stands.
  lemma StringLiteralEnds(before: bytes, letters: seq<Letter>, quote: byte, after: bytes)
    requires (quote == 34 || quote == 39) && LettersFit(letters, quote)
    ensures LiteralEnd(before + ([quote] + WriteLetters(letters) + [quote]) + after, |before|)
         == Some(|before| + 1 + |WriteLetters(letters)|)
  {
    var w := [quote] + WriteLetters(letters) + [quote];
    StandsBetween(before, w, after);
    StringStands(before + w + after, |before|, letters, quote);
  }

  // ---------------------------------------------------------------- arguments

  // A piece of an argument: a byte, a literal, or something in brackets.
  datatype Item = Raw(c: byte) | Literal(text: bytes) | Group(open: byte, close: byte, inner: seq<Item>)

  predicate IsBracket(c: byte) {
    c == 40 || c == 41 || c == 91 || c == 93 || c == 123 || c == 125
  }

  predicate Matches(open: byte, close: byte) {
    (open == 40 && close == 41) || (open == 91 && close == 93) || (open == 123 && close == 125)
  }

  // Commas may stand only inside brackets.
  ghost predicate ItemsFit(items: seq<Item>, inside: bool) {
    items != [] ==> ItemFits(items[0], inside) && ItemsFit(items[1..], inside)
  }

  ghost predicate ItemFits(item: Item, inside: bool) {
    match item
    case Raw(c) => c != 34 && c != 39 && c != 96 && !IsBracket(c) && (c == 44 ==> inside)
    case Literal(text) => text != [] && IsQuote(text[0]) && LiteralEnd(text, 0) == Some(|text| - 1)
    case Group(open, close, inner) => Matches(open, close) && ItemsFit(inner, true)
  }

  ghost function WriteItems(items: seq<Item>): bytes {
    if items == [] then [] else WriteItem(items[0]) + WriteItems(items[1..])
  }

  ghost function WriteItem(item: Item): bytes {
    match item
    case Raw(c) => [c]
    case Literal(text) => text
    case Group(open, close, inner) => [open] + WriteItems(inner) + [close]
  }

  lemma {:induction false} PassesItems(b: bytes, i: nat, items: seq<Item>, d: Depth, end: nat)
    requires ItemsFit(items, d != TOP) && Stands(b, i, WriteItems(items)) && end == i + |WriteItems(items)|
    ensures PieceEnd(b, i, d) == PieceEnd(b, end, d)
    decreases items, 0
  {
    if items != [] {
      var j := i + |WriteItem(items[0])|;
      StandsApart(b, i, WriteItem(items[0]), WriteItems(items[1..]));
      PassesItem(b, i, items[0], d, j);
      PassesItems(b, j, items[1..], d, end);
    }
  }

  lemma {:induction false} PassesItem(b: bytes, i: nat, item: Item, d: Depth, end: nat)
    requires ItemFits(item, d != TOP) && Stands(b, i, WriteItem(item)) && end == i + |WriteItem(item)|
    ensures PieceEnd(b, i, d) == PieceEnd(b, end, d)
    decreases item, 1
  {
    match item
    case Raw(c) => StandsAt(b, i, [c], 0);
    case Literal(text) => PassesLiteral(b, i, text, d, end);
    case Group(open, close, inner) => PassesGroup(b, i, item, d, end);
  }

  lemma LiteralStands(b: bytes, i: nat, text: bytes)
    requires text != [] && IsQuote(text[0]) && LiteralEnd(text, 0) == Some(|text| - 1) && Stands(b, i, text)
    ensures LiteralEnd(b, i) == Some(i + |text| - 1)
  {
    forall k {:trigger text[k]} | 0 <= k < |text| ensures text[k] == b[k + i] {
      StandsAt(b, i, text, k);
    }
    LiteralEndLocal(text, 0, b, i, |text| - 1);
  }

  lemma PassesLiteral(b: bytes, i: nat, text: bytes, d: Depth, end: nat)
    requires text != [] && IsQuote(text[0]) && LiteralEnd(text, 0) == Some(|text| - 1) && Stands(b, i, text)
    requires end == i + |text|
    ensures PieceEnd(b, i, d) == PieceEnd(b, end, d)
  {
    StandsAt(b, i, text, 0);
    LiteralStands(b, i, text);
  }

  lemma OpensAndCloses(d: Depth, open: byte, close: byte)
    requires Matches(open, close)
    ensures Count(d, open) != TOP && Count(Count(d, open), close) == d
  {
  }

  lemma StepsOver(b: bytes, i: nat, d: Depth)
    requires i < |b| && IsBracket(b[i]) && (d == TOP ==> b[i] != CLOSE)
    ensures PieceEnd(b, i, d) == PieceEnd(b, i + 1, Count(d, b[i]))
  {
  }

  // The opening bracket, the inside and the closing bracket, each where it stands.
  lemma GroupStands(b: bytes, i: nat, item: Item, end: nat)
    requires item.Group? && Stands(b, i, WriteItem(item)) && end == i + |WriteItem(item)|
    ensures i + 1 < end <= |b| && b[i] == item.open && b[end - 1] == item.close
    ensures Stands(b, i + 1, WriteItems(item.inner)) && end - 1 == i + 1 + |WriteItems(item.inner)|
  {
    var w := WriteItems(item.inner);
    StandsEnclosed(b, i, item.open, w, item.close);
  }

  lemma {:induction false} PassesGroup(b: bytes, i: nat, item: Item, d: Depth, end: nat)
    requires item.Group? && Matches(item.open, item.close) && ItemsFit(item.inner, true)
    requires Stands(b, i, WriteItem(item)) && end == i + |WriteItem(item)|
    ensures PieceEnd(b, i, d) == PieceEnd(b, end, d)
    decreases item, 0
  {
    GroupStands(b, i, item, end);
    OpensAndCloses(d, item.open, item.close);
    StepsOver(b, i, d);
    PassesItems(b, i + 1, item.inner, Count(d, item.open), end - 1);
    StepsOver(b, end - 1, Count(d, item.open));
  }

  // An argument with its brackets balanced and its literals closed is whole, commas in brackets
  // and brackets in literals notwithstanding.
  lemma BalancedIsWhole(items: seq<Item>)
    requires ItemsFit(items, false)
    ensures Whole(WriteItems(items))
  {
    var w := WriteItems(items);
    var b := w + [CLOSE];
    assert b[0..|w|] == w;
    PassesItems(b, 0, items, TOP, |w|);
  }
}
