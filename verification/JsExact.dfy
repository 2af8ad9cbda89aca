/**
 The scanners of pkg/crawl/jsreplay.go find a literal's end exactly where a well-formed literal
 ends, and the end of an argument list wherever its text is balanced and within their reach.
 */
module JsExact {
  import opened ByteStrings
  import opened JsScan
  import opened JsArgs
  import opened JsLiterals

  lemma StandsTogether(b: bytes, i: nat, u: bytes, v: bytes)
    requires Stands(b, i, u) && Stands(b, i + |u|, v)
    ensures Stands(b, i, u + v)
  {
    assert b[i..i + |u| + |v|] == b[i..i + |u|] + b[i + |u|..i + |u| + |v|];
  }

  lemma StandsByte(b: bytes, i: nat)
    requires i < |b|
    ensures Stands(b, i, [b[i]])
  {
  }

  lemma StandsPair(b: bytes, i: nat, x: byte)
    requires i + 1 < |b| && b[i] == x
    ensures Stands(b, i, [x, b[i + 1]])
  {
  }

  // ---------------------------------------------------------------- quoted strings

  lemma {:induction false} LettersFound(b: bytes, i: nat, quote: byte, e: nat) returns (letters: seq<Letter>)
    requires quote != 92 && QuotedEnd(b, i, quote) == Some(e)
    ensures LettersFit(letters, quote) && Stands(b, i, WriteLetters(letters))
    ensures e == i + |WriteLetters(letters)| && b[e] == quote
    decreases |b| - i
  {
    if b[i] == 92 {
      var rest := LettersFound(b, i + 2, quote, e);
      letters := [Letter(true, b[i + 1])] + rest;
      StandsPair(b, i, 92);
      StandsTogether(b, i, [92, b[i + 1]], WriteLetters(rest));
      assert letters[1..] == rest;
    } else if b[i] == quote {
      letters := [];
    } else {
      var rest := LettersFound(b, i + 1, quote, e);
      letters := [Letter(false, b[i])] + rest;
      StandsByte(b, i);
      StandsTogether(b, i, [b[i]], WriteLetters(rest));
      assert letters[1..] == rest;
    }
  }

  // ---------------------------------------------------------------- template literals

  lemma MoreParts(b: bytes, i: nat, p: Part, rest: seq<Part>, e: nat)
    requires PartFits(p) && Stands(b, i, WritePart(p)) && (p == Plain(36) ==> !StartsWithBrace(b[i + 1..]))
    requires PartsFit(rest) && Stands(b, i + |WritePart(p)|, WriteParts(rest))
    requires e == i + |WritePart(p)| + |WriteParts(rest)|
    ensures PartsFit([p] + rest) && Stands(b, i, WriteParts([p] + rest)) && e == i + |WriteParts([p] + rest)|
  {
    assert ([p] + rest)[1..] == rest;
    StandsTogether(b, i, WritePart(p), WriteParts(rest));
    if WriteParts(rest) != [] {
      StandsAt(b, i + |WritePart(p)|, WriteParts(rest), 0);
    }
  }

  lemma MoreCode(b: bytes, i: nat, c: Code, rest: seq<Code>, m: nat)
    requires CodeFits(c) && Stands(b, i, WriteCode(c))
    requires AllCodeFits(rest) && Stands(b, i + |WriteCode(c)|, WriteAllCode(rest))
    requires m == i + |WriteCode(c)| + |WriteAllCode(rest)|
    ensures AllCodeFits([c] + rest) && Stands(b, i, WriteAllCode([c] + rest)) && m == i + |WriteAllCode([c] + rest)|
  {
    assert ([c] + rest)[1..] == rest;
    StandsTogether(b, i, WriteCode(c), WriteAllCode(rest));
  }

  lemma Encloses(b: bytes, i: nat, open: byte, w: bytes, close: byte)
    requires i + 1 + |w| < |b| && b[i] == open && Stands(b, i + 1, w) && b[i + 1 + |w|] == close
    ensures Stands(b, i, [open] + w + [close])
  {
    StandsByte(b, i);
    StandsByte(b, i + 1 + |w|);
    StandsTogether(b, i, [open], w);
    StandsTogether(b, i, [open] + w, [close]);
  }

  lemma {:induction false} PartsFound(b: bytes, i: nat, e: nat) returns (parts: seq<Part>)
    requires TemplateEnd(b, i, 0) == Some(e)
    ensures PartsFit(parts) && Stands(b, i, WriteParts(parts)) && e == i + |WriteParts(parts)| && b[e] == 96
    decreases |b| - i, 0
  {
    if b[i] == 96 {
      parts := [];
    } else {
      var p, n := PartFound(b, i, e);
      var rest := PartsFound(b, n, e);
      parts := [p] + rest;
      MoreParts(b, i, p, rest, e);
    }
  }

  lemma InterpolationStands(b: bytes, i: nat, code: seq<Code>, m: nat)
    requires m == i + 2 + |WriteAllCode(code)| && m < |b| && b[i] == 36 && b[i + 1] == 123 && b[m] == 125
    requires Stands(b, i + 2, WriteAllCode(code))
    ensures Stands(b, i, WritePart(Interpolation(code))) && m + 1 == i + |WritePart(Interpolation(code))|
  {
    Encloses(b, i + 1, 123, WriteAllCode(code), 125);
    StandsByte(b, i);
    StandsTogether(b, i, [36], [123] + WriteAllCode(code) + [125]);
    assert WritePart(Interpolation(code)) == [36] + ([123] + WriteAllCode(code) + [125]);
  }

  // The first part, and where the next one starts.
  lemma {:induction false} PartFound(b: bytes, i: nat, e: nat) returns (p: Part, n: nat)
    requires TemplateEnd(b, i, 0) == Some(e) && b[i] != 96
    ensures PartFits(p) && Stands(b, i, WritePart(p)) && n == i + |WritePart(p)|
    ensures p == Plain(36) ==> !StartsWithBrace(b[i + 1..])
    ensures TemplateEnd(b, n, 0) == Some(e) && i < n <= |b|
    decreases |b| - i, -1
  {
    if b[i] == 36 && i + 1 < |b| && b[i + 1] == 123 {
      var code, m := CodeFound(b, i + 2, 1, e);
      p, n := Interpolation(code), m + 1;
      InterpolationStands(b, i, code, m);
    } else if b[i] == 92 {
      p, n := Escape(b[i + 1]), i + 2;
      StandsPair(b, i, 92);
    } else {
      p, n := Plain(b[i]), i + 1;
      StandsByte(b, i);
    }
  }

  // The code up to the brace that closes it.
  lemma {:induction false} CodeFound(b: bytes, i: nat, depth: nat, e: nat) returns (code: seq<Code>, m: nat)
    requires depth > 0 && TemplateEnd(b, i, depth) == Some(e)
    ensures AllCodeFits(code) && Stands(b, i, WriteAllCode(code)) && m == i + |WriteAllCode(code)|
    ensures m < |b| && b[m] == 125 && TemplateEnd(b, m + 1, depth - 1) == Some(e)
    decreases |b| - i, 0
  {
    if b[i] == 125 {
      code, m := [], i;
    } else {
      var c, n := PieceFound(b, i, depth, e);
      var rest, last := CodeFound(b, n, depth, e);
      code, m := [c] + rest, last;
      MoreCode(b, i, c, rest, m);
    }
  }

  lemma {:induction false} PieceFound(b: bytes, i: nat, depth: nat, e: nat) returns (c: Code, n: nat)
    requires depth > 0 && TemplateEnd(b, i, depth) == Some(e) && b[i] != 125
    ensures CodeFits(c) && Stands(b, i, WriteCode(c)) && n == i + |WriteCode(c)|
    ensures TemplateEnd(b, n, depth) == Some(e) && i < n <= |b|
    decreases |b| - i, -1
  {
    if b[i] == 96 {
      var last := TemplateEnd(b, i + 1, 0).value;
      var parts := PartsFound(b, i + 1, last);
      c, n := Template(parts), last + 1;
      Encloses(b, i, 96, WriteParts(parts), 96);
    } else if b[i] == 123 {
      var inner, m := CodeFound(b, i + 1, depth + 1, e);
      c, n := Braces(inner), m + 1;
      Encloses(b, i, 123, WriteAllCode(inner), 125);
    } else {
      c, n := LeafFound(b, i, depth, e);
    }
  }

  lemma LeafFound(b: bytes, i: nat, depth: nat, e: nat) returns (c: Code, n: nat)
    requires depth > 0 && TemplateEnd(b, i, depth) == Some(e) && b[i] != 96 && b[i] != 123 && b[i] != 125
    ensures CodeFits(c) && Stands(b, i, WriteCode(c)) && n == i + |WriteCode(c)|
    ensures TemplateEnd(b, n, depth) == Some(e) && i < n <= |b|
  {
    if b[i] == 92 {
      c, n := EscapedByte(b[i + 1]), i + 2;
      StandsPair(b, i, 92);
    } else {
      c, n := Other(b[i]), i + 1;
      StandsByte(b, i);
    }
  }

  // ---------------------------------------------------------------- literals

  ghost predicate IsString(w: bytes, quote: byte) {
    && (quote == 34 || quote == 39)
    && exists letters :: LettersFit(letters, quote) && w == [quote] + WriteLetters(letters) + [quote]
  }

  ghost predicate IsTemplate(w: bytes) {
    exists parts :: PartsFit(parts) && w == [96] + WriteParts(parts) + [96]
  }

  // The scan from a quote ends at e if and only if a well-formed literal stands from there to e.
  lemma StringExactly(b: bytes, i: nat, e: nat)
    requires i < |b| && (b[i] == 34 || b[i] == 39)
    ensures LiteralEnd(b, i) == Some(e) <==> i < e < |b| && IsString(b[i..e + 1], b[i])
  {
    var q := b[i];
    if LiteralEnd(b, i) == Some(e) {
      var letters := LettersFound(b, i + 1, q, e);
      Encloses(b, i, q, WriteLetters(letters), q);
    }
    if i < e < |b| && IsString(b[i..e + 1], q) {
      var letters :| LettersFit(letters, q) && b[i..e + 1] == [q] + WriteLetters(letters) + [q];
      assert |b[i..e + 1]| == e + 1 - i;
      StringStands(b, i, letters, q);
    }
  }

  lemma TemplateExactly(b: bytes, i: nat, e: nat)
    requires i < |b| && b[i] == 96
    ensures LiteralEnd(b, i) == Some(e) <==> i < e < |b| && IsTemplate(b[i..e + 1])
  {
    if LiteralEnd(b, i) == Some(e) {
      var parts := PartsFound(b, i + 1, e);
      Encloses(b, i, 96, WriteParts(parts), 96);
    }
    if i < e < |b| && IsTemplate(b[i..e + 1]) {
      var parts :| PartsFit(parts) && b[i..e + 1] == [96] + WriteParts(parts) + [96];
      assert |b[i..e + 1]| == e + 1 - i;
      TemplateStands(b, i, parts);
    }
  }

  // ---------------------------------------------------------------- argument lists

  lemma {:induction false} ListPassesItems(b: bytes, i: nat, items: seq<Item>, d: Depth, end: nat)
    requires ItemsFit(items, true) && Stands(b, i, WriteItems(items)) && end == i + |WriteItems(items)|
    ensures ListEnd(b, i, d) == ListEnd(b, end, d)
    decreases items, 0
  {
    if items != [] {
      var j := i + |WriteItem(items[0])|;
      StandsApart(b, i, WriteItem(items[0]), WriteItems(items[1..]));
      ListPassesItem(b, i, items[0], d, j);
      ListPassesItems(b, j, items[1..], d, end);
    }
  }

  lemma {:induction false} ListPassesItem(b: bytes, i: nat, item: Item, d: Depth, end: nat)
    requires ItemFits(item, true) && Stands(b, i, WriteItem(item)) && end == i + |WriteItem(item)|
    ensures ListEnd(b, i, d) == ListEnd(b, end, d)
    decreases item, 1
  {
    match item
    case Raw(c) => StandsAt(b, i, [c], 0);
    case Literal(text) => ListPassesLiteral(b, i, text, d, end);
    case Group(open, close, inner) => ListPassesGroup(b, i, item, d, end);
  }

  lemma ListPassesLiteral(b: bytes, i: nat, text: bytes, d: Depth, end: nat)
    requires text != [] && IsQuote(text[0]) && LiteralEnd(text, 0) == Some(|text| - 1) && Stands(b, i, text)
    requires end == i + |text|
    ensures ListEnd(b, i, d) == ListEnd(b, end, d)
  {
    StandsAt(b, i, text, 0);
    LiteralStands(b, i, text);
  }

  lemma ListStepsOver(b: bytes, i: nat, d: Depth)
    requires i < |b| && IsBracket(b[i]) && (d == TOP ==> b[i] != CLOSE)
    ensures ListEnd(b, i, d) == ListEnd(b, i + 1, Count(d, b[i]))
  {
  }

  lemma {:induction false} ListPassesGroup(b: bytes, i: nat, item: Item, d: Depth, end: nat)
    requires item.Group? && Matches(item.open, item.close) && ItemsFit(item.inner, true)
    requires Stands(b, i, WriteItem(item)) && end == i + |WriteItem(item)|
    ensures ListEnd(b, i, d) == ListEnd(b, end, d)
    decreases item, 0
  {
    GroupStands(b, i, item, end);
    OpensAndCloses(d, item.open, item.close);
    ListStepsOver(b, i, d);
    ListPassesItems(b, i + 1, item.inner, Count(d, item.open), end - 1);
    ListStepsOver(b, end - 1, Count(d, item.open));
  }

  lemma WindowHolds(before: bytes, w: bytes, after: bytes, limit: nat)
    requires |before| + |w| <= limit <= |before + w + after|
    ensures Stands((before + w + after)[..limit], |before|, w)
  {
    assert (before + w + after)[..limit][|before|..|before| + |w|] == w;
  }

  lemma ListStands(b: bytes, i: nat, items: seq<Item>)
    requires ItemsFit(items, true) && Stands(b, i, WriteItems(items) + [41])
    ensures ListEnd(b, i, TOP) == Some(i + |WriteItems(items)|)
  {
    var end := i + |WriteItems(items)|;
    StandsApart(b, i, WriteItems(items), [41]);
    StandsAt(b, end, [41], 0);
    ListPassesItems(b, i, items, TOP, end);
  }

  // Balanced text, commas in it or not, of up to 499 bytes before its closing bracket is delimited
  // by that bracket, wherever it stands.
  lemma BalancedIsDelimited(before: bytes, items: seq<Item>, after: bytes)
    requires ItemsFit(items, true) && |WriteItems(items)| <= 499
    ensures ArgListEnd(before + (WriteItems(items) + [41]) + after, |before|) == Some(|before| + |WriteItems(items)|)
  {
    var w := WriteItems(items) + [41];
    var js := before + w + after;
    WindowHolds(before, w, after, Min(|before| + MAX_ARG_LIST, |js|));
    ListStands(js[..Min(|before| + MAX_ARG_LIST, |js|)], |before|, items);
  }

  // What is delimited ends within 500 bytes at a closing bracket.
  lemma DelimitedInReach(js: bytes, start: nat)
    requires ArgListEnd(js, start).Some?
    ensures start <= ArgListEnd(js, start).value < start + 500 && js[ArgListEnd(js, start).value] == 41
  {
    ListEndsAtBracket(js[..Min(start + MAX_ARG_LIST, |js|)], start, TOP);
  }
}
