/** The values parseForms gives to textareas and selects (pkg/analyze/forms.go). */
module FormValues {
  import opened Basics
  import opened ByteStrings
  import opened Forms

  lemma LastValueOf(s: State, v: string, w: string)
    requires HasField(s)
    ensures LastValue(WithLastValue(s, v)) == v
    ensures WithLastValue(WithLastValue(s, v), w) == WithLastValue(s, w)
    ensures WithLastValue(s, LastValue(s)) == s
  {
    var n := |Top(s).fields| - 1;
    assert Top(s).fields[n := Top(s).fields[n]] == Top(s).fields;
    var t := WithLastValue(s, v);
    assert Top(t).fields[n := Top(t).fields[n].(value := w)] == Top(s).fields[n := Top(s).fields[n].(value := w)];
    var m := |s.stack| - 1;
    assert s.stack[m := s.stack[m]] == s.stack;
    assert t.stack[m := Top(WithLastValue(t, w))] == s.stack[m := Top(WithLastValue(s, w))];
  }

  // ---------------------------------------------------------------- textareas

  // All text among the tokens from i to j.
  ghost function TextOf(tokens: seq<Token>, i: nat, j: nat): string
    requires i <= j <= |tokens|
  {
    if i == j then "" else TextOf(tokens, i, j - 1) + if tokens[j - 1].Text? then tokens[j - 1].raw else ""
  }

  ghost function Capped4096(s: string): string {
    if |s| > 4096 then s[..4096] else s
  }

  lemma AppendToCapped(s: string, t: string)
    ensures AppendCapped(Capped4096(s), t) == Capped4096(s + t)
  {
  }

  predicate Closes(tok: Token) {
    tok == EndTag(TextareaTag) || tok == EndTag(SelectTag)
  }

  lemma InTextareaStep(lib: Library, s: State, tok: Token, at: nat)
    requires Wf(s) && s.pending == Some(IN_TEXTAREA) && !Closes(tok)
    ensures Step(lib, s, tok, at) == if tok.Text? then WithLastValue(s, AppendCapped(LastValue(s), tok.raw)) else s
  {
  }

  // Until it is closed, an open textarea gathers the text of every token, the first 4096 bytes of
  // it, into its own field; nothing else of any form changes, whatever tags come between.
  lemma {:induction false} TextareaGathers(lib: Library, tokens: seq<Token>, i: nat, j: nat)
    requires i <= j <= |tokens|
    requires After(lib, tokens, i).pending == Some(IN_TEXTAREA) && LastValue(After(lib, tokens, i)) == ""
    requires forall k :: i <= k < j ==> !Closes(tokens[k])
    ensures After(lib, tokens, j) == WithLastValue(After(lib, tokens, i), Capped4096(TextOf(tokens, i, j)))
    decreases j
  {
    var s := After(lib, tokens, i);
    if i == j {
      LastValueOf(s, "", "");
      assert TextOf(tokens, i, i) == "" && Capped4096("") == "";
    } else {
      TextareaGathers(lib, tokens, i, j - 1);
      GathersOne(lib, s, tokens, i, j);
    }
  }

  lemma GathersOne(lib: Library, s: State, tokens: seq<Token>, i: nat, j: nat)
    requires i < j <= |tokens| && Wf(s) && s.pending == Some(IN_TEXTAREA) && !Closes(tokens[j - 1])
    ensures var t := WithLastValue(s, Capped4096(TextOf(tokens, i, j - 1)));
            Step(lib, t, tokens[j - 1], j - 1) == WithLastValue(s, Capped4096(TextOf(tokens, i, j)))
  {
    var before, tok := TextOf(tokens, i, j - 1), tokens[j - 1];
    var t := WithLastValue(s, Capped4096(before));
    InTextareaStep(lib, t, tok, j - 1);
    if tok.Text? {
      LastValueOf(s, Capped4096(before), Capped4096(TextOf(tokens, i, j)));
      AppendToCapped(before, tok.raw);
    } else {
      assert before + "" == before;
    }
  }

  // Closing it trims what was gathered; a select's end tag, which closes it too, does not.
  lemma TextareaCloses(lib: Library, tokens: seq<Token>, i: nat, j: nat)
    requires i <= j < |tokens| && Closes(tokens[j])
    requires After(lib, tokens, i).pending == Some(IN_TEXTAREA) && LastValue(After(lib, tokens, i)) == ""
    requires forall k :: i <= k < j ==> !Closes(tokens[k])
    ensures var text := Capped4096(TextOf(tokens, i, j));
      After(lib, tokens, j + 1) == WithLastValue(After(lib, tokens, i),
        if tokens[j].atom == TextareaTag then lib.trimSpace(text) else if text == SELECTED then "" else text)
        .(pending := None)
  {
    var s, text := After(lib, tokens, i), Capped4096(TextOf(tokens, i, j));
    TextareaGathers(lib, tokens, i, j);
    LastValueOf(s, text, "");
    LastValueOf(s, text, lib.trimSpace(text));
  }

  // ---------------------------------------------------------------- selects

  predicate IsOption(tok: Token) {
    tok.StartTag? && tok.atom == OptionTag
  }

  predicate IsSelected(tok: Token) {
    IsOption(tok) && HasAttr(tok.attrs, "selected")
  }

  // Where the last option before j starts, unless it is closed before j.
  function Opened(tokens: seq<Token>, i: nat, j: nat): (at: Option<nat>)
    requires i <= j <= |tokens|
    ensures at.Some? ==> i <= at.value < j && IsOption(tokens[at.value])
  {
    if i == j || tokens[j - 1] == EndTag(OptionTag) then None
    else if IsOption(tokens[j - 1]) then Some(j - 1)
    else Opened(tokens, i, j - 1)
  }

  // Whether an option that starts after the last end tag of an option is selected.
  function Marked(tokens: seq<Token>, i: nat, j: nat): (marked: bool)
    requires i <= j <= |tokens|
    ensures marked ==> Opened(tokens, i, j).Some?
  {
    i < j && tokens[j - 1] != EndTag(OptionTag) && (IsSelected(tokens[j - 1]) || Marked(tokens, i, j - 1))
  }

  // The value of the option that starts at `at`, read up to j: its attribute, or else its text.
  ghost function ValueOf(lib: Library, tokens: seq<Token>, at: nat, j: nat): string
    requires at < j <= |tokens| && IsOption(tokens[at])
  {
    var v := GetAttr(tokens[at].attrs, "value");
    if v == "" then lib.trimSpace(Capped4096(TextOf(tokens, at + 1, j))) else v
  }

  datatype Choice = Choice(value: string, marked: bool)

  // The options closed between i and j.
  ghost function Choices(lib: Library, tokens: seq<Token>, i: nat, j: nat): seq<Choice>
    requires i <= j <= |tokens|
  {
    if i == j then []
    else
      var at := Opened(tokens, i, j - 1);
      if tokens[j - 1] == EndTag(OptionTag) && at.Some? then
        Choices(lib, tokens, i, j - 1) + [Choice(ValueOf(lib, tokens, at.value, j - 1), Marked(tokens, i, j - 1))]
      else Choices(lib, tokens, i, j - 1)
  }

  // A marked option gives the select its value while there is none; a value that looks like the
  // marker is replaced by the next option's.
  function Pick(choices: seq<Choice>): string {
    if choices == [] then ""
    else
      var c, v := choices[|choices| - 1], Pick(choices[..|choices| - 1]);
      if (v == "" && c.marked) || v == SELECTED then c.value else v
  }

  // What is picked, or else the first option.
  function Chosen(choices: seq<Choice>): string {
    var v := Pick(choices);
    if (v == "" || v == SELECTED) then if choices == [] then "" else choices[0].value else v
  }

  predicate Takes(c: Choice) {
    c.marked && c.value != ""
  }

  // No value being the marker, the first marked option with a value is picked.
  lemma {:induction false} PickIsFirst(choices: seq<Choice>, n: nat)
    requires n <= |choices| && (forall k :: 0 <= k < n ==> !Takes(choices[k]))
    requires forall c :: c in choices ==> c.value != SELECTED
    ensures n == |choices| ==> Pick(choices) == ""
    ensures n < |choices| && Takes(choices[n]) ==> Pick(choices) == choices[n].value
  {
    if choices != [] {
      var front := choices[..|choices| - 1];
      PickIsFirst(front, if n <= |front| then n else |front|);
    }
  }

  // Only the value of the innermost form's last field and what is pending differ.
  ghost function Chose(s: State, v: string, p: Pending): State
    requires HasField(s)
  {
    WithLastValue(s, v).(pending := Some(p))
  }

  lemma ChoseAgain(s: State, v: string, p: Pending, w: string, q: Pending)
    requires HasField(s)
    ensures HasField(Chose(s, v, p)) && LastValue(Chose(s, v, p)) == v
    ensures Chose(Chose(s, v, p), w, q) == Chose(s, w, q)
    ensures WithLastValue(Chose(s, v, p), w) == Chose(s, w, p)
  {
    LastValueOf(s, v, w);
  }

  // The value held while the select is open.
  function Held(picked: string, marked: bool): string {
    if marked && picked == "" then SELECTED else picked
  }

  function FirstOf(choices: seq<Choice>): Option<string> {
    if choices == [] then None else Some(choices[0].value)
  }

  // What is pending, given the option that is open and the text read since it started.
  ghost function PendingAt(lib: Library, tokens: seq<Token>, i: nat, j: nat): Pending
    requires i <= j <= |tokens|
  {
    var at, first := Opened(tokens, i, j), FirstOf(Choices(lib, tokens, i, j));
    if at.None? then IN_SELECT.(firstOption := first)
    else Pending(false, true, true, GetAttr(tokens[at.value].attrs, "value"),
           Capped4096(TextOf(tokens, at.value + 1, j)), first)
  }

  ghost function HeldAt(lib: Library, tokens: seq<Token>, i: nat, j: nat): string
    requires i <= j <= |tokens|
  {
    Held(Pick(Choices(lib, tokens, i, j)), Marked(tokens, i, j))
  }

  ghost function Holding(lib: Library, s: State, tokens: seq<Token>, i: nat, j: nat): (r: State)
    requires HasField(s) && i <= j <= |tokens|
    ensures Wf(r)
  {
    Chose(s, HeldAt(lib, tokens, i, j), PendingAt(lib, tokens, i, j))
  }

  // One token of an open select.
  lemma OpensOption(lib: Library, s: State, tokens: seq<Token>, i: nat, j: nat)
    requires HasField(s) && i <= j < |tokens| && IsOption(tokens[j])
    ensures Step(lib, Holding(lib, s, tokens, i, j), tokens[j], j) == Holding(lib, s, tokens, i, j + 1)
  {
    var v, p := HeldAt(lib, tokens, i, j), PendingAt(lib, tokens, i, j);
    ChoseAgain(s, v, p, HeldAt(lib, tokens, i, j + 1), PendingAt(lib, tokens, i, j + 1));
    assert TextOf(tokens, j + 1, j + 1) == "" && Choices(lib, tokens, i, j + 1) == Choices(lib, tokens, i, j);
  }

  // What a token that neither starts nor ends an option leaves as it was.
  lemma SameOption(lib: Library, tokens: seq<Token>, i: nat, j: nat)
    requires i <= j < |tokens| && !IsOption(tokens[j]) && tokens[j] != EndTag(OptionTag)
    ensures HeldAt(lib, tokens, i, j + 1) == HeldAt(lib, tokens, i, j)
    ensures Opened(tokens, i, j + 1) == Opened(tokens, i, j)
    ensures Choices(lib, tokens, i, j + 1) == Choices(lib, tokens, i, j)
  {
  }

  lemma SamePendingOpen(lib: Library, tokens: seq<Token>, i: nat, j: nat, at: nat)
    requires i <= j < |tokens| && !IsOption(tokens[j]) && tokens[j] != EndTag(OptionTag)
    requires Opened(tokens, i, j) == Some(at) == Opened(tokens, i, j + 1)
    requires Choices(lib, tokens, i, j + 1) == Choices(lib, tokens, i, j)
    ensures var p := PendingAt(lib, tokens, i, j);
            PendingAt(lib, tokens, i, j + 1) == p.(optionText :=
              if tokens[j].Text? then AppendCapped(p.optionText, tokens[j].raw) else p.optionText)
  {
    GrowsText(tokens, at + 1, j);
  }

  lemma SamePending(lib: Library, tokens: seq<Token>, i: nat, j: nat)
    requires i <= j < |tokens| && !IsOption(tokens[j]) && tokens[j] != EndTag(OptionTag)
    ensures var p, at := PendingAt(lib, tokens, i, j), Opened(tokens, i, j);
            && p.inSelect && !p.inTextarea && (p.inOption <==> at.Some?)
            && PendingAt(lib, tokens, i, j + 1) == p.(optionText :=
                 if tokens[j].Text? && at.Some? then AppendCapped(p.optionText, tokens[j].raw) else p.optionText)
  {
    SameOption(lib, tokens, i, j);
    if Opened(tokens, i, j).Some? {
      SamePendingOpen(lib, tokens, i, j, Opened(tokens, i, j).value);
    }
  }

  lemma GrowsText(tokens: seq<Token>, i: nat, j: nat)
    requires i <= j < |tokens|
    ensures Capped4096(TextOf(tokens, i, j + 1))
         == if tokens[j].Text? then AppendCapped(Capped4096(TextOf(tokens, i, j)), tokens[j].raw)
            else Capped4096(TextOf(tokens, i, j))
  {
    if tokens[j].Text? {
      AppendToCapped(TextOf(tokens, i, j), tokens[j].raw);
    }
  }

  lemma TextStep(lib: Library, s: State, v: string, p: Pending, tok: Token, q: Pending, at: nat)
    requires HasField(s) && p.inSelect && !p.inTextarea
    requires !IsOption(tok) && tok != EndTag(OptionTag) && !Closes(tok)
    requires q == p.(optionText :=
               if tok.Text? && p.inOption then AppendCapped(p.optionText, tok.raw) else p.optionText)
    ensures Step(lib, Chose(s, v, p), tok, at) == Chose(s, v, q)
  {
  }

  lemma PassesOver(lib: Library, s: State, tokens: seq<Token>, i: nat, j: nat)
    requires HasField(s) && i <= j < |tokens| && !Closes(tokens[j])
    requires !IsOption(tokens[j]) && tokens[j] != EndTag(OptionTag)
    ensures Step(lib, Holding(lib, s, tokens, i, j), tokens[j], j) == Holding(lib, s, tokens, i, j + 1)
  {
    SameOption(lib, tokens, i, j);
    SamePending(lib, tokens, i, j);
    TextStep(lib, s, HeldAt(lib, tokens, i, j), PendingAt(lib, tokens, i, j), tokens[j],
      PendingAt(lib, tokens, i, j + 1), j);
  }

  lemma FirstOfAppended(choices: seq<Choice>, c: Choice)
    ensures FirstOf(choices + [c]) == Some(if choices == [] then c.value else choices[0].value)
    ensures Pick(choices + [c])
         == if (Pick(choices) == "" && c.marked) || Pick(choices) == SELECTED then c.value else Pick(choices)
  {
    assert (choices + [c])[..|choices|] == choices;
  }

  // The option that is closed at j.
  ghost function ClosedAt(lib: Library, tokens: seq<Token>, i: nat, j: nat): Choice
    requires i <= j <= |tokens| && Opened(tokens, i, j).Some?
  {
    Choice(ValueOf(lib, tokens, Opened(tokens, i, j).value, j), Marked(tokens, i, j))
  }

  lemma AfterClosing(lib: Library, tokens: seq<Token>, i: nat, j: nat)
    requires i <= j < |tokens| && tokens[j] == EndTag(OptionTag) && Opened(tokens, i, j).Some?
    ensures var choices, c := Choices(lib, tokens, i, j), ClosedAt(lib, tokens, i, j);
            && HeldAt(lib, tokens, i, j + 1)
               == (if (Pick(choices) == "" && c.marked) || Pick(choices) == SELECTED then c.value else Pick(choices))
            && PendingAt(lib, tokens, i, j + 1)
               == IN_SELECT.(firstOption := Some(if choices == [] then c.value else choices[0].value))
  {
    FirstOfAppended(Choices(lib, tokens, i, j), ClosedAt(lib, tokens, i, j));
  }

  lemma BeforeClosing(lib: Library, tokens: seq<Token>, i: nat, j: nat)
    requires i <= j < |tokens| && Opened(tokens, i, j).Some?
    ensures var p := PendingAt(lib, tokens, i, j);
            && p.inSelect && !p.inTextarea && p.inOption && OptionOf(lib, p) == ClosedAt(lib, tokens, i, j).value
            && p.firstOption == FirstOf(Choices(lib, tokens, i, j))
  {
  }

  lemma CommitStep(lib: Library, s: State, v: string, p: Pending, w: string, q: Pending, at: nat)
    requires HasField(s) && p.inSelect && !p.inTextarea && p.inOption
    requires w == if v == SELECTED then OptionOf(lib, p) else v
    requires q == IN_SELECT.(firstOption := if p.firstOption.None? then Some(OptionOf(lib, p)) else p.firstOption)
    ensures Step(lib, Chose(s, v, p), EndTag(OptionTag), at) == Chose(s, w, q)
  {
    ChoseAgain(s, v, p, w, p);
  }

  lemma ClosesOpened(lib: Library, s: State, tokens: seq<Token>, i: nat, j: nat)
    requires HasField(s) && i <= j < |tokens| && tokens[j] == EndTag(OptionTag) && Opened(tokens, i, j).Some?
    ensures Step(lib, Holding(lib, s, tokens, i, j), tokens[j], j) == Holding(lib, s, tokens, i, j + 1)
  {
    BeforeClosing(lib, tokens, i, j);
    AfterClosing(lib, tokens, i, j);
    CommitStep(lib, s, HeldAt(lib, tokens, i, j), PendingAt(lib, tokens, i, j),
      HeldAt(lib, tokens, i, j + 1), PendingAt(lib, tokens, i, j + 1), j);
  }

  lemma ClosesOption(lib: Library, s: State, tokens: seq<Token>, i: nat, j: nat)
    requires HasField(s) && i <= j < |tokens| && tokens[j] == EndTag(OptionTag)
    ensures Step(lib, Holding(lib, s, tokens, i, j), tokens[j], j) == Holding(lib, s, tokens, i, j + 1)
  {
    if Opened(tokens, i, j).Some? {
      ClosesOpened(lib, s, tokens, i, j);
    }
  }

  lemma HoldsOn(lib: Library, s: State, tokens: seq<Token>, i: nat, j: nat)
    requires HasField(s) && i <= j < |tokens| && !Closes(tokens[j])
    ensures Step(lib, Holding(lib, s, tokens, i, j), tokens[j], j) == Holding(lib, s, tokens, i, j + 1)
  {
    if IsOption(tokens[j]) {
      OpensOption(lib, s, tokens, i, j);
    } else if tokens[j] == EndTag(OptionTag) {
      ClosesOption(lib, s, tokens, i, j);
    } else {
      PassesOver(lib, s, tokens, i, j);
    }
  }

  ghost predicate HeldTo(lib: Library, s: State, tokens: seq<Token>, i: nat, j: nat)
    requires HasField(s) && i <= j <= |tokens|
  {
    After(lib, tokens, j) == Holding(lib, s, tokens, i, j)
  }

  lemma HoldsFirst(lib: Library, s: State, tokens: seq<Token>, i: nat)
    requires i <= |tokens| && s == After(lib, tokens, i) && s.pending == Some(IN_SELECT) && LastValue(s) == ""
    ensures HeldTo(lib, s, tokens, i, i)
  {
    LastValueOf(s, "", "");
  }

  lemma HoldsNext(lib: Library, s: State, tokens: seq<Token>, i: nat, j: nat)
    requires HasField(s) && i <= j < |tokens| && !Closes(tokens[j]) && HeldTo(lib, s, tokens, i, j)
    ensures HeldTo(lib, s, tokens, i, j + 1)
  {
    HoldsOn(lib, s, tokens, i, j);
  }

  ghost function HeldUpTo(lib: Library, s: State, tokens: seq<Token>, i: nat): nat -> bool
    requires HasField(s)
  {
    (k: nat) => i <= k <= |tokens| && HeldTo(lib, s, tokens, i, k)
  }

  lemma HoldsAt(lib: Library, s: State, tokens: seq<Token>, i: nat, k: nat)
    requires HasField(s) && i <= k < |tokens| && !Closes(tokens[k])
    ensures Inherits(HeldUpTo(lib, s, tokens, i), k)
  {
    if HeldTo(lib, s, tokens, i, k) {
      HoldsNext(lib, s, tokens, i, k);
    }
  }

  lemma HoldsTo(lib: Library, s: State, tokens: seq<Token>, i: nat, j: nat)
    requires HasField(s) && i <= j <= |tokens| && HeldTo(lib, s, tokens, i, i)
    requires forall k :: i <= k < j ==> !Closes(tokens[k])
    ensures HeldTo(lib, s, tokens, i, j)
  {
    forall k: nat | i <= k < j ensures Inherits(HeldUpTo(lib, s, tokens, i), k) {
      HoldsAt(lib, s, tokens, i, k);
    }
    Upward(HeldUpTo(lib, s, tokens, i), i, j);
  }

  // An open select changes its own field only, as the options closed so far say.
  lemma SelectReads(lib: Library, tokens: seq<Token>, i: nat, j: nat)
    requires i <= j <= |tokens|
    requires After(lib, tokens, i).pending == Some(IN_SELECT) && LastValue(After(lib, tokens, i)) == ""
    requires forall k :: i <= k < j ==> !Closes(tokens[k])
    ensures After(lib, tokens, j) == Holding(lib, After(lib, tokens, i), tokens, i, j)
  {
    var s := After(lib, tokens, i);
    HoldsFirst(lib, s, tokens, i);
    HoldsTo(lib, s, tokens, i, j);
    assert HeldTo(lib, s, tokens, i, j);
  }

  lemma ResolveChose(s: State, v: string, p: Pending)
    requires HasField(s)
    ensures ResolveSelect(Chose(s, v, p)).(pending := None)
         == WithLastValue(s, if v != "" && v != SELECTED then v else if p.firstOption.Some? then p.firstOption.value else "")
              .(pending := None)
  {
    ChoseAgain(s, v, p, "", p);
    LastValueOf(s, v, "");
    if p.firstOption.Some? {
      ChoseAgain(s, v, p, p.firstOption.value, p);
      ChoseAgain(s, "", p, p.firstOption.value, p);
    }
  }

  lemma TrimsChose(lib: Library, s: State, v: string, p: Pending, at: nat)
    requires HasField(s)
    ensures Step(lib, Chose(s, v, p), EndTag(TextareaTag), at) == WithLastValue(s, lib.trimSpace(v)).(pending := None)
  {
    ChoseAgain(s, v, p, lib.trimSpace(v), p);
  }

  // A textarea end tag closes a select too, and its field keeps what it holds, trimmed.
  lemma SelectCutShort(lib: Library, tokens: seq<Token>, i: nat, j: nat)
    requires i <= j < |tokens| && tokens[j] == EndTag(TextareaTag)
    requires After(lib, tokens, i).pending == Some(IN_SELECT) && LastValue(After(lib, tokens, i)) == ""
    requires forall k :: i <= k < j ==> !Closes(tokens[k])
    ensures After(lib, tokens, j + 1)
         == WithLastValue(After(lib, tokens, i), lib.trimSpace(HeldAt(lib, tokens, i, j))).(pending := None)
  {
    SelectReads(lib, tokens, i, j);
    TrimsChose(lib, After(lib, tokens, i), HeldAt(lib, tokens, i, j), PendingAt(lib, tokens, i, j), j);
  }

  // Trimming leaves the marker, which has no white space, and the empty string as they are.
  ghost predicate KeepsMarker(trim: string -> string) {
    trim(SELECTED) == SELECTED && trim("") == ""
  }

  // So the marker is left behind if and only if a selected option is open and none closed before it
  // was picked, or the value picked trims to the marker.
  lemma MarkerLeft(lib: Library, tokens: seq<Token>, i: nat, j: nat)
    requires i <= j < |tokens| && tokens[j] == EndTag(TextareaTag) && KeepsMarker(lib.trimSpace)
    requires After(lib, tokens, i).pending == Some(IN_SELECT) && LastValue(After(lib, tokens, i)) == ""
    requires forall k :: i <= k < j ==> !Closes(tokens[k])
    ensures HasField(After(lib, tokens, j + 1))
    ensures var picked := Pick(Choices(lib, tokens, i, j));
            LastValue(After(lib, tokens, j + 1)) == SELECTED <==>
              (Marked(tokens, i, j) && picked == "") || lib.trimSpace(picked) == SELECTED
  {
    SelectCutShort(lib, tokens, i, j);
    LastValueOf(After(lib, tokens, i), lib.trimSpace(HeldAt(lib, tokens, i, j)), "");
  }

  ghost predicate TakesNone(choices: seq<Choice>) {
    forall i :: 0 <= i < |choices| ==> !Takes(choices[i])
  }

  // Where no option's value is the marker or trims to it, that is while a selected option is open
  // and no option closed before it was selected and had a value.
  lemma MarkerLeftPlainly(lib: Library, tokens: seq<Token>, i: nat, j: nat)
    requires i <= j < |tokens| && tokens[j] == EndTag(TextareaTag) && KeepsMarker(lib.trimSpace)
    requires After(lib, tokens, i).pending == Some(IN_SELECT) && LastValue(After(lib, tokens, i)) == ""
    requires forall k :: i <= k < j ==> !Closes(tokens[k])
    requires forall c :: c in Choices(lib, tokens, i, j) ==> c.value != SELECTED && lib.trimSpace(c.value) != SELECTED
    ensures HasField(After(lib, tokens, j + 1))
    ensures LastValue(After(lib, tokens, j + 1)) == SELECTED <==>
            Marked(tokens, i, j) && TakesNone(Choices(lib, tokens, i, j))
  {
    var choices := Choices(lib, tokens, i, j);
    MarkerLeft(lib, tokens, i, j);
    PickIsNothing(choices);
    PickIsOne(choices);
  }

  lemma {:induction false} PickIsOne(choices: seq<Choice>)
    ensures Pick(choices) == "" || exists c :: c in choices && c.value == Pick(choices)
  {
    if choices != [] {
      PickIsOne(choices[..|choices| - 1]);
    }
  }

  lemma {:induction false} PickIsNothing(choices: seq<Choice>)
    requires forall c :: c in choices ==> c.value != SELECTED
    ensures Pick(choices) != SELECTED && (Pick(choices) == "" <==> TakesNone(choices))
  {
    if choices != [] {
      var n := |choices| - 1;
      PickIsNothing(choices[..n]);
      assert TakesNone(choices) <==> TakesNone(choices[..n]) && !Takes(choices[n]) by {
        assert forall i :: 0 <= i < n ==> choices[..n][i] == choices[i];
      }
    }
  }

  // A form with a select named a, in which these tokens come before a textarea end tag.
  function CutShort(inside: seq<Token>): seq<Token> {
    [StartTag(FormTag, []), StartTag(SelectTag, [Attr("name", "a")])] + inside + [EndTag(TextareaTag), EndTag(FormTag)]
  }

  function MarkedForm(lib: Library, value: string): Form {
    Form(0, "", "", "", [Field("a", "select", value, "", false, false, lib.sensitive("a"))])
  }

  const OPEN_OPTION: seq<Token> := [StartTag(OptionTag, [Attr("selected", "")])]

  function ValueOption(): seq<Token> {
    [StartTag(OptionTag, [Attr("value", " " + SELECTED), Attr("selected", "")]), EndTag(OptionTag)]
  }

  // A selected option that is never closed ...
  lemma MarkerIsParsed(lib: Library)
    requires KeepsMarker(lib.trimSpace)
    ensures ParseForms(lib, CutShort(OPEN_OPTION)) == [MarkedForm(lib, "\0selected")]
  {
    var tokens := CutShort(OPEN_OPTION);
    CutShortOpens(lib, OPEN_OPTION);
    assert tokens[2] == OPEN_OPTION[0] && tokens[3] == EndTag(TextareaTag) && tokens[4] == EndTag(FormTag);
    assert IsSelected(tokens[2]);
    MarkedAgain(lib, "", SELECTED, Some(IN_SELECT));
    CutShortEnds(lib, tokens, 3, SELECTED);
  }

  // ... and a closed one whose value trims to the marker.
  lemma MarkerIsParsedFromValue(lib: Library)
    requires KeepsMarker(lib.trimSpace) && lib.trimSpace(" " + SELECTED) == SELECTED
    ensures ParseForms(lib, CutShort(ValueOption())) == [MarkedForm(lib, SELECTED)]
  {
    var tokens := CutShort(ValueOption());
    CutShortOpens(lib, ValueOption());
    assert tokens[2] == ValueOption()[0] && tokens[3] == EndTag(OptionTag);
    assert tokens[4] == EndTag(TextareaTag) && tokens[5] == EndTag(FormTag);
    ValueOptionReads(lib, State([MarkedForm(lib, "")], [], Some(IN_SELECT)), tokens, 2);
    CutShortEnds(lib, tokens, 4, " " + SELECTED);
  }

  lemma SelectedAttr(attrs: seq<Attr>)
    requires |attrs| == 2 && attrs[0].key == "value" && attrs[1].key == "selected"
    ensures HasAttr(attrs, "selected") && (|attrs[0].val| <= MAX_VALUE ==> GetAttr(attrs, "value") == attrs[0].val)
  {
    assert "value"[0] != "selected"[0];
    assert FindAttr(attrs[1..], "selected") == Some(attrs[1].val);
  }

  lemma ValueOptionReads(lib: Library, s: State, tokens: seq<Token>, i: nat)
    requires i + 2 <= |tokens| && tokens[i..i + 2] == ValueOption()
    requires s == State([MarkedForm(lib, "")], [], Some(IN_SELECT)) == After(lib, tokens, i)
    ensures var t := After(lib, tokens, i + 2);
            t.stack == [MarkedForm(lib, " " + SELECTED)] && t.results == [] && t.pending.Some?
  {
    assert tokens[i] == ValueOption()[0] && tokens[i + 1] == ValueOption()[1];
    SelectedAttr(tokens[i].attrs);
    MarkedAgain(lib, "", SELECTED, s.pending);
    var q := Pending(false, true, true, " " + SELECTED, "", None);
    assert After(lib, tokens, i + 1) == State([MarkedForm(lib, SELECTED)], [], Some(q));
    MarkedAgain(lib, SELECTED, " " + SELECTED, Some(q));
  }

  lemma MarkedAgain(lib: Library, v: string, w: string, p: Option<Pending>)
    ensures var s := State([MarkedForm(lib, v)], [], p);
            HasField(s) && LastValue(s) == v && WithLastValue(s, w) == State([MarkedForm(lib, w)], [], p)
  {
    var f, g := MarkedForm(lib, v), MarkedForm(lib, w);
    assert f.fields[0 := f.fields[0].(value := w)] == g.fields;
    assert [f][0 := g] == [g];
  }

  lemma CutShortOpens(lib: Library, inside: seq<Token>)
    ensures After(lib, CutShort(inside), 2) == State([MarkedForm(lib, "")], [], Some(IN_SELECT))
  {
    var tokens := CutShort(inside);
    assert tokens[0] == StartTag(FormTag, []) && tokens[1] == StartTag(SelectTag, [Attr("name", "a")]);
    assert After(lib, tokens, 0) == START;
    FormOpens(lib);
    SelectOpens(lib);
    assert After(lib, tokens, 1) == Step(lib, START, tokens[0], 0);
  }

  lemma FormOpens(lib: Library)
    ensures Step(lib, START, StartTag(FormTag, []), 0) == State([Form(0, "", "", "", [])], [], None)
  {
  }

  lemma NameOnly(attrs: seq<Attr>)
    requires attrs == [Attr("name", "a")]
    ensures GetAttr(attrs, "name") == "a" && !ContainsControl("a")
    ensures !HasAttr(attrs, "form") && GetAttr(attrs, "placeholder") == "" && !HasAttr(attrs, "required")
  {
    assert "name"[0] != "form"[0] && "name"[0] != "placeholder"[0] && "name"[0] != "required"[0];
    AbsentAttr(attrs, "form");
    AbsentAttr(attrs, "placeholder");
    AbsentAttr(attrs, "required");
  }

  lemma AbsentAttr(attrs: seq<Attr>, key: string)
    requires |attrs| == 1 && attrs[0].key != key
    ensures !HasAttr(attrs, key) && GetAttr(attrs, key) == ""
  {
    assert FindAttr(attrs[1..], key) == None;
  }

  lemma SelectOpens(lib: Library)
    ensures Step(lib, State([Form(0, "", "", "", [])], [], None), StartTag(SelectTag, [Attr("name", "a")]), 1)
         == State([MarkedForm(lib, "")], [], Some(IN_SELECT))
  {
    var attrs, f := [Attr("name", "a")], Form(0, "", "", "", []);
    NameOnly(attrs);
    assert f.fields + [OpenField(lib, attrs, "select")] == MarkedForm(lib, "").fields;
    assert [f][0 := MarkedForm(lib, "")] == [MarkedForm(lib, "")];
  }

  lemma TextareaEnds(lib: Library, s: State, value: string, at: nat)
    requires s.stack == [MarkedForm(lib, value)] && s.results == [] && s.pending.Some?
    ensures Step(lib, s, EndTag(TextareaTag), at) == State([MarkedForm(lib, lib.trimSpace(value))], [], None)
  {
    assert s == State([MarkedForm(lib, value)], [], s.pending);
    MarkedAgain(lib, value, lib.trimSpace(value), s.pending);
  }

  lemma FormEnds(lib: Library, f: Form, at: nat)
    ensures Step(lib, State([f], [], None), EndTag(FormTag), at) == State([], [f], None)
    ensures Flush(State([], [f], None)) == [f]
  {
    assert [f][..0] == [] && [] + [f] == [f] && [f] + [] == [f];
  }

  lemma CutShortEnds(lib: Library, tokens: seq<Token>, j: nat, value: string)
    requires j + 2 == |tokens| && tokens[j] == EndTag(TextareaTag) && tokens[j + 1] == EndTag(FormTag)
    requires After(lib, tokens, j).stack == [MarkedForm(lib, value)] && After(lib, tokens, j).results == []
    requires After(lib, tokens, j).pending.Some?
    ensures ParseForms(lib, tokens) == [MarkedForm(lib, lib.trimSpace(value))]
  {
    var g := MarkedForm(lib, lib.trimSpace(value));
    TextareaEnds(lib, After(lib, tokens, j), value, j);
    FormEnds(lib, g, j + 1);
    assert After(lib, tokens, j + 1) == State([g], [], None);
  }

  // Whatever tokens stand between a select's start and end tags, its field gets the value of the
  // option chosen among those closed there, and nothing else of any form changes.
  lemma SelectChooses(lib: Library, tokens: seq<Token>, i: nat, j: nat)
    requires i <= j < |tokens| && tokens[j] == EndTag(SelectTag)
    requires After(lib, tokens, i).pending == Some(IN_SELECT) && LastValue(After(lib, tokens, i)) == ""
    requires forall k :: i <= k < j ==> !Closes(tokens[k])
    ensures After(lib, tokens, j + 1)
         == WithLastValue(After(lib, tokens, i), Chosen(Choices(lib, tokens, i, j))).(pending := None)
  {
    SelectReads(lib, tokens, i, j);
    ResolveChose(After(lib, tokens, i), HeldAt(lib, tokens, i, j), PendingAt(lib, tokens, i, j));
  }
}
