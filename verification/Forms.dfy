/**
 Forms found in a stream of HTML tokens (pkg/analyze/forms.go, parseForms and its handlers).
 Characters stand for bytes.
 */
module Forms {
  import opened ByteStrings

  const MAX_FORMS := 1000
  const MAX_FIELDS := 500
  const MAX_VALUE := 4096

  datatype Atom = FormTag | InputTag | TextareaTag | SelectTag | OptionTag | OtherTag

  datatype Attr = Attr(key: string, val: string)

  datatype Token = StartTag(atom: Atom, attrs: seq<Attr>) | Text(raw: string) | EndTag(atom: Atom) | OtherToken

  datatype Field = Field(name: string, typ: string, value: string, placeholder: string,
    required: bool, hidden: bool, sensitive: bool)

  // at is the position of the form's start tag; it stands for the form's identity.
  datatype Form = Form(at: nat, action: string, verb: string, enctype: string, fields: seq<Field>)

  // strings.TrimSpace, strings.ToLower and isSensitiveName.
  datatype Library = Library(trimSpace: string -> string, lower: string -> string, sensitive: string -> bool)

  // An open textarea or select. Its field is the last one of the innermost form.
  datatype Pending = Pending(inTextarea: bool, inSelect: bool, inOption: bool,
    optionValue: string, optionText: string, firstOption: Option<string>)

  const IN_TEXTAREA := Pending(true, false, false, "", "", None)
  const IN_SELECT := Pending(false, true, false, "", "", None)

  // The marker for a selected option whose value is not known yet.
  const SELECTED: string := "\0selected"

  datatype State = State(stack: seq<Form>, results: seq<Form>, pending: Option<Pending>)

  const START := State([], [], None)

  // ---------------------------------------------------------------- attributes

  function FindAttr(attrs: seq<Attr>, key: string): Option<string> {
    if attrs == [] then None
    else if attrs[0].key == key then Some(attrs[0].val)
    else FindAttr(attrs[1..], key)
  }

  predicate HasAttr(attrs: seq<Attr>, key: string) {
    FindAttr(attrs, key).Some?
  }

  function GetAttr(attrs: seq<Attr>, key: string): (v: string)
    ensures |v| <= MAX_VALUE
  {
    match FindAttr(attrs, key)
    case None => ""
    case Some(v) => if |v| > MAX_VALUE then v[..MAX_VALUE] else v
  }

  predicate ContainsControl(s: string) {
    exists i :: 0 <= i < |s| && (s[i] as int < 0x20 || s[i] as int == 0x7F)
  }

  predicate IsSkippable(typ: string) {
    typ in ["submit", "button", "image", "file", "reset"]
  }

  function AppendCapped(prefix: string, suffix: string): (r: string)
    ensures |prefix| <= MAX_VALUE ==> |r| <= MAX_VALUE
  {
    if |prefix| >= MAX_VALUE then prefix
    else
      var remaining := MAX_VALUE - |prefix|;
      prefix + if |suffix| > remaining then suffix[..remaining] else suffix
  }

  // ---------------------------------------------------------------- one token

  predicate HasField(s: State) {
    s.stack != [] && s.stack[|s.stack| - 1].fields != []
  }

  // An open textarea or select has its field.
  predicate Wf(s: State) {
    s.pending.Some? ==> HasField(s)
  }

  function Top(s: State): Form
    requires s.stack != []
  {
    s.stack[|s.stack| - 1]
  }

  function WithTop(s: State, f: Form): State
    requires s.stack != []
  {
    s.(stack := s.stack[|s.stack| - 1 := f])
  }

  function LastValue(s: State): string
    requires HasField(s)
  {
    Top(s).fields[|Top(s).fields| - 1].value
  }

  function WithLastValue(s: State, v: string): (r: State)
    requires HasField(s)
    ensures HasField(r) && r.pending == s.pending
  {
    var f, n := Top(s), |Top(s).fields| - 1;
    WithTop(s, f.(fields := f.fields[n := f.fields[n].(value := v)]))
  }

  // Whether a tag may add a field to the innermost form.
  predicate TakesField(s: State, attrs: seq<Attr>) {
    && s.stack != []
    && !HasAttr(attrs, "form")
    && GetAttr(attrs, "name") != "" && !ContainsControl(GetAttr(attrs, "name"))
    && |Top(s).fields| < MAX_FIELDS
  }

  function AddField(s: State, field: Field): (r: State)
    requires s.stack != []
    ensures HasField(r) && r.pending == s.pending
  {
    WithTop(s, Top(s).(fields := Top(s).fields + [field]))
  }

  function InputField(lib: Library, attrs: seq<Attr>): Field {
    var name, typ := GetAttr(attrs, "name"), lib.lower(GetAttr(attrs, "type"));
    Field(name, typ, if typ == "hidden" || typ == "password" then "" else GetAttr(attrs, "value"),
      GetAttr(attrs, "placeholder"), HasAttr(attrs, "required"), typ == "hidden",
      lib.sensitive(name) || typ == "password")
  }

  function OpenField(lib: Library, attrs: seq<Attr>, typ: string): Field {
    var name := GetAttr(attrs, "name");
    Field(name, typ, "", GetAttr(attrs, "placeholder"), HasAttr(attrs, "required"), false, lib.sensitive(name))
  }

  function NewForm(at: nat, attrs: seq<Attr>): Form {
    Form(at, GetAttr(attrs, "action"), GetAttr(attrs, "method"), GetAttr(attrs, "enctype"), [])
  }

  // The start tag of a form that is taken.
  predicate Accepts(s: State, tok: Token) {
    tok.StartTag? && tok.atom == FormTag && s.pending.None? && |s.results| + |s.stack| < MAX_FORMS
  }

  function OnStart(lib: Library, s: State, tok: Token, at: nat): (r: State)
    requires s.pending.None? && tok.StartTag?
    ensures Wf(r)
  {
    match tok.atom
    case FormTag => if Accepts(s, tok) then s.(stack := s.stack + [NewForm(at, tok.attrs)]) else s
    case InputTag =>
      if TakesField(s, tok.attrs) && !IsSkippable(lib.lower(GetAttr(tok.attrs, "type")))
      then AddField(s, InputField(lib, tok.attrs)) else s
    case TextareaTag =>
      if TakesField(s, tok.attrs)
      then AddField(s, OpenField(lib, tok.attrs, "textarea")).(pending := Some(IN_TEXTAREA)) else s
    case SelectTag =>
      if TakesField(s, tok.attrs)
      then AddField(s, OpenField(lib, tok.attrs, "select")).(pending := Some(IN_SELECT)) else s
    case _ => s
  }

  function OnPendingStart(s: State, tok: Token): (r: State)
    requires s.pending.Some? && Wf(s) && tok.StartTag?
    ensures Wf(r)
  {
    var p := s.pending.value;
    if !p.inSelect || tok.atom != OptionTag then s
    else
      var q := p.(inOption := true, optionValue := GetAttr(tok.attrs, "value"), optionText := "");
      var t := if HasAttr(tok.attrs, "selected") && LastValue(s) == "" then WithLastValue(s, SELECTED) else s;
      t.(pending := Some(q))
  }

  function OnPendingText(s: State, raw: string): (r: State)
    requires s.pending.Some? && Wf(s)
    ensures Wf(r)
  {
    var p := s.pending.value;
    if p.inTextarea then WithLastValue(s, AppendCapped(LastValue(s), raw))
    else if p.inSelect && p.inOption then s.(pending := Some(p.(optionText := AppendCapped(p.optionText, raw))))
    else s
  }

  // The value of the option just read.
  function OptionOf(lib: Library, p: Pending): string {
    if p.optionValue == "" then lib.trimSpace(p.optionText) else p.optionValue
  }

  function CommitOption(lib: Library, s: State): (r: State)
    requires s.pending.Some? && Wf(s)
    ensures Wf(r)
  {
    var p := s.pending.value;
    var v := OptionOf(lib, p);
    var t := if LastValue(s) == SELECTED then WithLastValue(s, v) else s;
    var q := p.(firstOption := if p.firstOption.None? then Some(v) else p.firstOption);
    t.(pending := Some(q.(inOption := false, optionValue := "", optionText := "")))
  }

  function ResolveSelect(s: State): (r: State)
    requires s.pending.Some? && Wf(s)
    ensures HasField(r) && r.pending == s.pending
  {
    var p := s.pending.value;
    var t := if LastValue(s) == SELECTED then WithLastValue(s, "") else s;
    if LastValue(t) == "" && p.firstOption.Some? then WithLastValue(t, p.firstOption.value) else t
  }

  function OnPendingEnd(lib: Library, s: State, atom: Atom): (r: State)
    requires s.pending.Some? && Wf(s)
    ensures Wf(r)
  {
    var p := s.pending.value;
    match atom
    case OptionTag => if p.inSelect && p.inOption then CommitOption(lib, s) else s
    case SelectTag => ResolveSelect(s).(pending := None)
    case TextareaTag => WithLastValue(s, lib.trimSpace(LastValue(s))).(pending := None)
    case _ => s
  }

  function OnEnd(s: State, atom: Atom): State
    requires s.pending.None?
  {
    if atom == FormTag && s.stack != [] then
      State(s.stack[..|s.stack| - 1], s.results + [Top(s)], None)
    else s
  }

  function Step(lib: Library, s: State, tok: Token, at: nat): (r: State)
    requires Wf(s)
    ensures Wf(r)
  {
    match tok
    case StartTag(_, _) => if s.pending.Some? then OnPendingStart(s, tok) else OnStart(lib, s, tok, at)
    case Text(raw) => if s.pending.Some? then OnPendingText(s, raw) else s
    case EndTag(atom) => if s.pending.Some? then OnPendingEnd(lib, s, atom) else OnEnd(s, atom)
    case OtherToken => s
  }

  // ---------------------------------------------------------------- the whole stream

  // The state after the first n tokens.
  function After(lib: Library, tokens: seq<Token>, n: nat): (s: State)
    requires n <= |tokens|
    ensures Wf(s)
  {
    if n == 0 then START else Step(lib, After(lib, tokens, n - 1), tokens[n - 1], n - 1)
  }

  // The open forms, innermost first.
  function Unclosed(stack: seq<Form>): seq<Form> {
    if stack == [] then [] else [stack[|stack| - 1]] + Unclosed(stack[..|stack| - 1])
  }

  function Flush(s: State): seq<Form>
    requires Wf(s)
  {
    var t := if s.pending.Some? && s.pending.value.inSelect then ResolveSelect(s) else s;
    t.results + Unclosed(t.stack)
  }

  function ParseForms(lib: Library, tokens: seq<Token>): seq<Form> {
    Flush(After(lib, tokens, |tokens|))
  }

  // ---------------------------------------------------------------- the caps

  ghost predicate FieldFits(f: Field) {
    |f.value| <= 4096
  }

  ghost predicate FormFits(f: Form) {
    |f.fields| <= 500 && forall i :: 0 <= i < |f.fields| ==> FieldFits(f.fields[i])
  }

  ghost predicate AllFit(forms: seq<Form>) {
    forall i :: 0 <= i < |forms| ==> FormFits(forms[i])
  }

  ghost predicate PendingFits(p: Pending) {
    && |p.optionValue| <= MAX_VALUE && |p.optionText| <= MAX_VALUE
    && (p.firstOption.Some? ==> |p.firstOption.value| <= MAX_VALUE)
    && p.inTextarea != p.inSelect
  }

  ghost predicate Capped(s: State) {
    && |s.stack| + |s.results| <= MAX_FORMS
    && AllFit(s.stack) && AllFit(s.results)
    && (s.pending.Some? ==> PendingFits(s.pending.value))
  }

  // Trimming never lengthens.
  ghost predicate Shrinks(trim: string -> string) {
    forall s :: |trim(s)| <= |s|
  }

  lemma WithLastCapped(s: State, v: string)
    requires HasField(s) && Capped(s) && |v| <= MAX_VALUE
    ensures Capped(WithLastValue(s, v))
  {
  }

  lemma AddFieldCapped(s: State, field: Field)
    requires s.stack != [] && |Top(s).fields| < MAX_FIELDS && Capped(s) && FieldFits(field)
    ensures Capped(AddField(s, field))
  {
    assert FormFits(Top(s));
  }

  lemma ResolveCapped(s: State)
    requires s.pending.Some? && Wf(s) && Capped(s)
    ensures Capped(ResolveSelect(s))
  {
    var p := s.pending.value;
    var t := s;
    if LastValue(s) == SELECTED {
      t := WithLastValue(s, "");
      WithLastCapped(s, "");
    }
    if p.firstOption.Some? {
      WithLastCapped(t, p.firstOption.value);
    }
  }

  lemma PendingStepCapped(lib: Library, s: State, tok: Token, at: nat)
    requires Wf(s) && Capped(s) && Shrinks(lib.trimSpace) && s.pending.Some?
    ensures Capped(Step(lib, s, tok, at))
  {
    var p := s.pending.value;
    assert FormFits(Top(s)) && FieldFits(Top(s).fields[|Top(s).fields| - 1]);
    match tok
    case StartTag(_, _) =>
      WithLastCapped(s, SELECTED);
    case Text(raw) =>
      WithLastCapped(s, AppendCapped(LastValue(s), raw));
    case EndTag(atom) =>
      ResolveCapped(s);
      assert |OptionOf(lib, p)| <= MAX_VALUE;
      WithLastCapped(s, OptionOf(lib, p));
      WithLastCapped(s, lib.trimSpace(LastValue(s)));
    case OtherToken =>
  }

  lemma OpenStepCapped(lib: Library, s: State, tok: Token, at: nat)
    requires Capped(s) && s.pending.None?
    ensures Capped(Step(lib, s, tok, at))
  {
    if tok.StartTag? && TakesField(s, tok.attrs) {
      AddFieldCapped(s, InputField(lib, tok.attrs));
      AddFieldCapped(s, OpenField(lib, tok.attrs, "textarea"));
      AddFieldCapped(s, OpenField(lib, tok.attrs, "select"));
    }
  }

  lemma {:induction false} AfterCapped(lib: Library, tokens: seq<Token>, n: nat)
    requires n <= |tokens| && Shrinks(lib.trimSpace)
    ensures Capped(After(lib, tokens, n))
  {
    if n > 0 {
      AfterCapped(lib, tokens, n - 1);
      var s := After(lib, tokens, n - 1);
      if s.pending.Some? {
        PendingStepCapped(lib, s, tokens[n - 1], n - 1);
      } else {
        OpenStepCapped(lib, s, tokens[n - 1], n - 1);
      }
    }
  }

  lemma {:induction false} UnclosedFit(stack: seq<Form>)
    requires AllFit(stack)
    ensures AllFit(Unclosed(stack)) && |Unclosed(stack)| == |stack|
  {
    if stack != [] {
      UnclosedFit(stack[..|stack| - 1]);
    }
  }

  // At most 1000 forms, 500 fields a form and 4096 bytes a value, whatever the tokens.
  lemma ParsedFormsAreCapped(lib: Library, tokens: seq<Token>)
    requires Shrinks(lib.trimSpace)
    ensures |ParseForms(lib, tokens)| <= 1000 && AllFit(ParseForms(lib, tokens))
  {
    var s := After(lib, tokens, |tokens|);
    AfterCapped(lib, tokens, |tokens|);
    if s.pending.Some? {
      ResolveCapped(s);
      UnclosedFit(ResolveSelect(s).stack);
    }
    UnclosedFit(s.stack);
  }

  // ---------------------------------------------------------------- every form once

  ghost function Ids(forms: seq<Form>): multiset<nat> {
    if forms == [] then multiset{} else Ids(forms[..|forms| - 1]) + multiset{forms[|forms| - 1].at}
  }

  // The token at k is a form's start tag outside textareas and selects, and fewer than 1000 forms
  // are open or done.
  ghost predicate TakenAt(lib: Library, tokens: seq<Token>, k: nat) {
    && k < |tokens| && tokens[k].StartTag? && tokens[k].atom == FormTag
    && var s := After(lib, tokens, k); s.pending.None? && |s.results| + |s.stack| < 1000
  }

  ghost function One(yes: bool, k: nat): multiset<nat> {
    if yes then multiset{k} else multiset{}
  }

  // The positions taken among the first n.
  ghost function Positions(taken: nat -> bool, n: nat): multiset<nat> {
    if n == 0 then multiset{} else Positions(taken, n - 1) + One(taken(n - 1), n - 1)
  }

  ghost function Taken(lib: Library, tokens: seq<Token>): nat -> bool {
    (k: nat) => TakenAt(lib, tokens, k)
  }

  // The positions of the form tags taken among the first n tokens.
  ghost function Accepted(lib: Library, tokens: seq<Token>, n: nat): multiset<nat> {
    Positions(Taken(lib, tokens), n)
  }

  lemma SameIds(a: seq<Form>, b: seq<Form>)
    requires |a| == |b| && forall i :: 0 <= i < |a| ==> a[i].at == b[i].at
    ensures Ids(a) == Ids(b)
  {
  }

  lemma ResolveIds(s: State)
    requires s.pending.Some? && Wf(s)
    ensures Ids(ResolveSelect(s).stack) == Ids(s.stack) && ResolveSelect(s).results == s.results
  {
    SameIds(s.stack, ResolveSelect(s).stack);
  }

  lemma PendingStepIds(lib: Library, s: State, tok: Token, at: nat)
    requires Wf(s) && s.pending.Some?
    ensures var r := Step(lib, s, tok, at);
            r.results == s.results && Ids(r.stack) == Ids(s.stack)
  {
    SameIds(s.stack, Step(lib, s, tok, at).stack);
  }

  ghost function AllIds(s: State): multiset<nat> {
    Ids(s.results) + Ids(s.stack)
  }

  lemma PushIds(forms: seq<Form>, f: Form)
    ensures Ids(forms + [f]) == Ids(forms) + multiset{f.at}
  {
    assert (forms + [f])[..|forms|] == forms;
  }

  lemma StartIds(lib: Library, s: State, tok: Token, at: nat)
    requires s.pending.None? && tok.StartTag?
    ensures AllIds(OnStart(lib, s, tok, at)) == AllIds(s) + One(Accepts(s, tok), at)
  {
    if Accepts(s, tok) {
      PushIds(s.stack, NewForm(at, tok.attrs));
    } else {
      SameIds(s.stack, OnStart(lib, s, tok, at).stack);
    }
  }

  lemma EndIds(s: State, atom: Atom)
    requires s.pending.None?
    ensures AllIds(OnEnd(s, atom)) == AllIds(s)
  {
    if atom == FormTag && s.stack != [] {
      PushIds(s.results, Top(s));
    }
  }

  lemma StepIds(lib: Library, s: State, tok: Token, at: nat)
    requires Wf(s)
    ensures AllIds(Step(lib, s, tok, at)) == AllIds(s) + One(Accepts(s, tok), at)
  {
    if s.pending.Some? {
      PendingStepIds(lib, s, tok, at);
    } else if tok.StartTag? {
      StartIds(lib, s, tok, at);
    } else if tok.EndTag? {
      EndIds(s, tok.atom);
    }
  }

  lemma {:induction false} AfterIds(lib: Library, tokens: seq<Token>, n: nat)
    requires n <= |tokens|
    ensures AllIds(After(lib, tokens, n)) == Accepted(lib, tokens, n)
  {
    if n == 0 {
      assert AllIds(START) == multiset{};
    } else {
      AfterIds(lib, tokens, n - 1);
      NextIds(lib, tokens, n - 1, After(lib, tokens, n - 1), Accepted(lib, tokens, n - 1));
    }
  }

  lemma NextIds(lib: Library, tokens: seq<Token>, n: nat, s: State, taken: multiset<nat>)
    requires n < |tokens| && s == After(lib, tokens, n) && taken == Accepted(lib, tokens, n) == AllIds(s)
    ensures AllIds(After(lib, tokens, n + 1)) == Accepted(lib, tokens, n + 1)
  {
    StepIds(lib, s, tokens[n], n);
    assert After(lib, tokens, n + 1) == Step(lib, s, tokens[n], n);
  }

  lemma {:induction false} IdsConcat(a: seq<Form>, b: seq<Form>)
    ensures Ids(a + b) == Ids(a) + Ids(b)
    decreases |b|
  {
    if b == [] {
      assert a + b == a;
    } else {
      assert (a + b)[..|a + b| - 1] == a + b[..|b| - 1];
      IdsConcat(a, b[..|b| - 1]);
    }
  }

  lemma {:induction false} UnclosedIds(stack: seq<Form>)
    ensures Ids(Unclosed(stack)) == Ids(stack)
  {
    if stack != [] {
      var rest := stack[..|stack| - 1];
      UnclosedIds(rest);
      var top := [stack[|stack| - 1]];
      IdsConcat(top, Unclosed(rest));
      assert top[..0] == [];
    }
  }

  lemma {:induction false} TakenOnce(taken: nat -> bool, n: nat, k: nat)
    ensures Positions(taken, n)[k] == if k < n && taken(k) then 1 else 0
  {
    if n > 0 {
      TakenOnce(taken, n - 1, k);
      OneAt(Positions(taken, n - 1), taken(n - 1), n - 1, k);
    }
  }

  lemma OneAt(m: multiset<nat>, yes: bool, n: nat, k: nat)
    ensures (m + One(yes, n))[k] == m[k] + if yes && n == k then 1 else 0
  {
  }

  lemma FlushIds(s: State)
    requires Wf(s)
    ensures Ids(Flush(s)) == AllIds(s)
  {
    var t := if s.pending.Some? && s.pending.value.inSelect then ResolveSelect(s) else s;
    if s.pending.Some? {
      ResolveIds(s);
    }
    IdsConcat(t.results, Unclosed(t.stack));
    UnclosedIds(t.stack);
  }

  // The forms returned are those whose start tags were taken, each exactly once.
  lemma EachFormOnce(lib: Library, tokens: seq<Token>, k: nat)
    ensures Ids(ParseForms(lib, tokens))[k] == if TakenAt(lib, tokens, k) then 1 else 0
  {
    AfterIds(lib, tokens, |tokens|);
    FlushIds(After(lib, tokens, |tokens|));
    TakenOnce(Taken(lib, tokens), |tokens|, k);
  }
}
