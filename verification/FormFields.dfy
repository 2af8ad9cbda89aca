/**
 What the fields of a returned form are (pkg/analyze/forms.go): those of the field tags taken while
 the form was the innermost one, in order, each as its tag's attributes say.
 */
module FormFields {
  import opened Basics
  import opened ByteStrings
  import opened Forms
  import opened FormValues

  // ---------------------------------------------------------------- attributes

  ghost predicate Has(attrs: seq<Attr>, key: string) {
    exists i :: 0 <= i < |attrs| && attrs[i].key == key
  }

  ghost predicate FirstAt(attrs: seq<Attr>, key: string, i: nat) {
    i < |attrs| && attrs[i].key == key && forall j :: 0 <= j < i ==> attrs[j].key != key
  }

  // The first attribute of that name has this value, cut to 4096 bytes; without one it is empty.
  ghost predicate AttrIs(attrs: seq<Attr>, key: string, v: string) {
    if Has(attrs, key) then
      exists i: nat ::
        && FirstAt(attrs, key, i) && v <= attrs[i].val
        && |v| == (if |attrs[i].val| > 4096 then 4096 else |attrs[i].val|)
    else v == ""
  }

  lemma {:induction false} FindIs(attrs: seq<Attr>, key: string) returns (i: nat)
    ensures FindAttr(attrs, key).Some? <==> Has(attrs, key)
    ensures FindAttr(attrs, key).Some? ==> FirstAt(attrs, key, i) && attrs[i].val == FindAttr(attrs, key).value
  {
    i := 0;
    if attrs != [] && attrs[0].key != key {
      var j := FindIs(attrs[1..], key);
      i := j + 1;
      if Has(attrs, key) {
        var l :| 0 <= l < |attrs| && attrs[l].key == key;
        assert attrs[1..][l - 1].key == key;
      }
      if FindAttr(attrs, key).Some? {
        assert forall k :: 0 < k < i ==> attrs[k] == attrs[1..][k - 1];
      }
    }
  }

  lemma AttrIsGet(attrs: seq<Attr>, key: string, v: string)
    ensures AttrIs(attrs, key, v) <==> v == GetAttr(attrs, key)
    ensures Has(attrs, key) <==> HasAttr(attrs, key)
  {
    var i := FindIs(attrs, key);
    if Has(attrs, key) {
      forall j: nat | FirstAt(attrs, key, j) ensures j == i {
      }
    }
  }

  // ---------------------------------------------------------------- tags

  // A name without control bytes.
  ghost predicate PlainName(name: string) {
    name != "" && forall i :: 0 <= i < |name| ==> 0x20 <= name[i] as int != 0x7F
  }

  ghost predicate Usable(lib: Library, attrs: seq<Attr>) {
    exists t :: AttrIs(attrs, "type", t) && UsableType(lib.lower(t))
  }

  predicate UsableType(typ: string) {
    typ != "submit" && typ != "button" && typ != "image" && typ != "file" && typ != "reset"
  }

  ghost predicate Named(attrs: seq<Attr>) {
    exists name :: AttrIs(attrs, "name", name) && PlainName(name)
  }

  // The tag adds a field to the innermost form.
  ghost predicate TagTaken(lib: Library, s: State, tok: Token) {
    && s.pending.None? && s.stack != [] && |s.stack[|s.stack| - 1].fields| < 500
    && tok.StartTag? && (tok.atom == InputTag || tok.atom == TextareaTag || tok.atom == SelectTag)
    && !Has(tok.attrs, "form") && Named(tok.attrs)
    && (tok.atom == InputTag ==> Usable(lib, tok.attrs))
  }

  // What all three kinds of field take from their tag.
  ghost predicate Common(lib: Library, attrs: seq<Attr>, f: Field) {
    && AttrIs(attrs, "name", f.name) && AttrIs(attrs, "placeholder", f.placeholder)
    && (f.required <==> Has(attrs, "required"))
  }

  ghost predicate InputIs(lib: Library, attrs: seq<Attr>, f: Field) {
    && Common(lib, attrs, f)
    && (exists t :: AttrIs(attrs, "type", t) && f.typ == lib.lower(t))
    && (f.hidden <==> f.typ == "hidden")
    && (f.sensitive <==> lib.sensitive(f.name) || f.typ == "password")
    && (if f.typ == "hidden" || f.typ == "password" then f.value == "" else AttrIs(attrs, "value", f.value))
  }

  // The value of a textarea or a select comes from what follows the tag.
  ghost predicate OpenIs(lib: Library, attrs: seq<Attr>, typ: string, f: Field) {
    Common(lib, attrs, f) && f.typ == typ && !f.hidden && (f.sensitive <==> lib.sensitive(f.name))
  }

  ghost predicate FieldIs(lib: Library, tok: Token, f: Field) {
    && tok.StartTag?
    && (tok.atom == InputTag ==> InputIs(lib, tok.attrs, f))
    && (tok.atom == TextareaTag ==> OpenIs(lib, tok.attrs, "textarea", f))
    && (tok.atom == SelectTag ==> OpenIs(lib, tok.attrs, "select", f))
    && (tok.atom == InputTag || tok.atom == TextareaTag || tok.atom == SelectTag)
  }

  ghost predicate FormIs(tok: Token, f: Form) {
    && tok.StartTag? && tok.atom == FormTag
    && AttrIs(tok.attrs, "action", f.action) && AttrIs(tok.attrs, "method", f.verb)
    && AttrIs(tok.attrs, "enctype", f.enctype)
  }

  lemma TakesIs(s: State, attrs: seq<Attr>)
    ensures TakesField(s, attrs) <==>
            s.stack != [] && |s.stack[|s.stack| - 1].fields| < 500 && !Has(attrs, "form") && Named(attrs)
  {
    AttrIsGet(attrs, "form", "");
    var name := GetAttr(attrs, "name");
    AttrIsGet(attrs, "name", name);
    if Named(attrs) {
      var n :| AttrIs(attrs, "name", n) && PlainName(n);
      AttrIsGet(attrs, "name", n);
    }
    if name != "" && !ContainsControl(name) {
      assert PlainName(name);
    }
  }

  lemma UsableIs(lib: Library, attrs: seq<Attr>)
    ensures Usable(lib, attrs) <==> !IsSkippable(lib.lower(GetAttr(attrs, "type")))
  {
    AttrIsGet(attrs, "type", GetAttr(attrs, "type"));
    if Usable(lib, attrs) {
      var t :| AttrIs(attrs, "type", t) && UsableType(lib.lower(t));
      AttrIsGet(attrs, "type", t);
    }
  }

  lemma CommonIs(lib: Library, attrs: seq<Attr>, f: Field)
    requires f.name == GetAttr(attrs, "name") && f.placeholder == GetAttr(attrs, "placeholder")
    requires f.required == HasAttr(attrs, "required")
    ensures Common(lib, attrs, f)
  {
    AttrIsGet(attrs, "name", f.name);
    AttrIsGet(attrs, "placeholder", f.placeholder);
    AttrIsGet(attrs, "required", "");
  }

  lemma InputFieldIs(lib: Library, attrs: seq<Attr>)
    ensures InputIs(lib, attrs, InputField(lib, attrs))
  {
    CommonIs(lib, attrs, InputField(lib, attrs));
    AttrIsGet(attrs, "type", GetAttr(attrs, "type"));
    AttrIsGet(attrs, "value", GetAttr(attrs, "value"));
  }

  lemma OpenFieldIs(lib: Library, attrs: seq<Attr>, typ: string)
    ensures OpenIs(lib, attrs, typ, OpenField(lib, attrs, typ))
  {
    CommonIs(lib, attrs, OpenField(lib, attrs, typ));
  }

  // A field tag adds the field it describes if it is taken, and otherwise changes nothing.
  lemma TagStep(lib: Library, s: State, tok: Token, at: nat) returns (f: Field)
    requires s.pending.None? && tok.StartTag? && tok.atom != FormTag
    ensures TagTaken(lib, s, tok) ==>
              && FieldIs(lib, tok, f) && s.stack != []
              && Step(lib, s, tok, at) == AddField(s, f).(pending := Step(lib, s, tok, at).pending)
              && (Step(lib, s, tok, at).pending.Some? <==> tok.atom != InputTag)
    ensures !TagTaken(lib, s, tok) ==> Step(lib, s, tok, at) == s
  {
    TakesIs(s, tok.attrs);
    UsableIs(lib, tok.attrs);
    InputFieldIs(lib, tok.attrs);
    OpenFieldIs(lib, tok.attrs, "textarea");
    OpenFieldIs(lib, tok.attrs, "select");
    f := if tok.atom == InputTag then InputField(lib, tok.attrs)
         else OpenField(lib, tok.attrs, if tok.atom == TextareaTag then "textarea" else "select");
  }

  // ---------------------------------------------------------------- the tags of one form

  ghost predicate TagOf(lib: Library, tokens: seq<Token>, k: nat, at: nat) {
    && k < |tokens| && TagTaken(lib, After(lib, tokens, k), tokens[k])
    && Top(After(lib, tokens, k)).at == at
  }

  // The tags among the first n that were taken while the form that starts at `at` was innermost.
  ghost function TagsOf(lib: Library, tokens: seq<Token>, at: nat, n: nat): seq<nat> {
    if n == 0 then []
    else TagsOf(lib, tokens, at, n - 1) + if TagOf(lib, tokens, n - 1, at) then [n - 1] else []
  }

  ghost function Describing(lib: Library, tokens: seq<Token>): (nat, Field) -> bool {
    (k: nat, f: Field) => k < |tokens| && FieldIs(lib, tokens[k], f)
  }

  ghost predicate Pointwise(fields: seq<Field>, tags: seq<nat>, r: (nat, Field) -> bool) {
    |fields| == |tags| && forall i :: 0 <= i < |tags| ==> r(tags[i], fields[i])
  }

  lemma PointwiseLast(fields: seq<Field>, tags: seq<nat>, r: (nat, Field) -> bool, f: Field)
    requires Pointwise(fields, tags, r) && fields != [] && r(tags[|tags| - 1], f)
    ensures Pointwise(fields[|fields| - 1 := f], tags, r)
  {
  }

  ghost predicate FieldsAre(lib: Library, tokens: seq<Token>, fields: seq<Field>, tags: seq<nat>) {
    Pointwise(fields, tags, Describing(lib, tokens))
  }

  // The form is as its own tag and the field tags taken for it, among the first n tokens, say.
  ghost predicate Described(lib: Library, tokens: seq<Token>, n: nat, f: Form) {
    && f.at < n && f.at < |tokens| && FormIs(tokens[f.at], f)
    && FieldsAre(lib, tokens, f.fields, TagsOf(lib, tokens, f.at, n))
  }

  ghost function Describes(lib: Library, tokens: seq<Token>, n: nat): Form -> bool {
    (f: Form) => Described(lib, tokens, n, f)
  }

  ghost predicate AllHold(forms: seq<Form>, d: Form -> bool) {
    && (forall i :: 0 <= i < |forms| ==> d(forms[i]))
    && (forall i, j :: 0 <= i < j < |forms| ==> forms[i].at != forms[j].at)
  }

  lemma ReplacedHold(forms: seq<Form>, d: Form -> bool, f: Form)
    requires forms != [] && AllHold(forms, d) && f.at == forms[|forms| - 1].at && d(f)
    ensures AllHold(forms[|forms| - 1 := f], d)
  {
  }

  ghost predicate AllDescribed(lib: Library, tokens: seq<Token>, n: nat, forms: seq<Form>) {
    AllHold(forms, Describes(lib, tokens, n))
  }

  // An open textarea or select is the last field of the innermost form.
  ghost predicate PendingIsOpen(lib: Library, tokens: seq<Token>, n: nat, s: State) {
    s.pending.Some? ==>
      && s.stack != []
      && var tags := TagsOf(lib, tokens, Top(s).at, n);
         tags != [] && tags[|tags| - 1] < |tokens| && tokens[tags[|tags| - 1]].StartTag?
         && tokens[tags[|tags| - 1]].atom != InputTag
  }

  ghost predicate Faithful(lib: Library, tokens: seq<Token>, n: nat, s: State) {
    AllDescribed(lib, tokens, n, s.results + s.stack) && PendingIsOpen(lib, tokens, n, s)
  }

  lemma SameTags(lib: Library, tokens: seq<Token>, n: nat, f: Form)
    requires Described(lib, tokens, n, f) && !TagOf(lib, tokens, n, f.at)
    ensures Described(lib, tokens, n + 1, f) && TagsOf(lib, tokens, f.at, n + 1) == TagsOf(lib, tokens, f.at, n)
  {
  }

  // A token that takes no field tag leaves forms described.
  lemma StaysDescribed(lib: Library, tokens: seq<Token>, n: nat, forms: seq<Form>)
    requires n < |tokens| && AllDescribed(lib, tokens, n, forms)
    requires !TagTaken(lib, After(lib, tokens, n), tokens[n])
    ensures AllDescribed(lib, tokens, n + 1, forms)
  {
    forall i | 0 <= i < |forms| ensures Described(lib, tokens, n + 1, forms[i]) {
      SameTags(lib, tokens, n, forms[i]);
    }
  }

  lemma Replaced(lib: Library, tokens: seq<Token>, n: nat, forms: seq<Form>, f: Form)
    requires forms != [] && AllDescribed(lib, tokens, n, forms) && f.at == forms[|forms| - 1].at
    requires Described(lib, tokens, n, f)
    ensures AllDescribed(lib, tokens, n, forms[|forms| - 1 := f])
  {
    ReplacedHold(forms, Describes(lib, tokens, n), f);
  }

  lemma TopIsLast(s: State, f: Form)
    requires s.stack != []
    ensures var all := s.results + s.stack;
            all[|all| - 1] == Top(s) && all[|all| - 1 := f] == WithTop(s, f).results + WithTop(s, f).stack
  {
  }

  // ---------------------------------------------------------------- one token

  // Only the last value of the form differs.
  lemma RevaluedForm(lib: Library, tokens: seq<Token>, n: nat, f: Form, v: string)
    requires f.fields != [] && Described(lib, tokens, n, f)
    requires var tags := TagsOf(lib, tokens, f.at, n); tokens[tags[|tags| - 1]].atom != InputTag
    ensures Described(lib, tokens, n, f.(fields := f.fields[|f.fields| - 1 := f.fields[|f.fields| - 1].(value := v)]))
  {
    var m := |f.fields| - 1;
    var tags := TagsOf(lib, tokens, f.at, n);
    assert Describing(lib, tokens)(tags[m], f.fields[m]);
    RevaluedField(lib, tokens[tags[m]], f.fields[m], v);
    PointwiseLast(f.fields, tags, Describing(lib, tokens), f.fields[m].(value := v));
  }

  lemma TopIsDescribed(lib: Library, tokens: seq<Token>, n: nat, s: State)
    requires s.stack != [] && AllDescribed(lib, tokens, n, s.results + s.stack)
    ensures Described(lib, tokens, n, Top(s))
  {
    TopIsLast(s, Top(s));
  }

  lemma RevaluesForms(lib: Library, tokens: seq<Token>, n: nat, s: State, v: string)
    requires HasField(s) && AllDescribed(lib, tokens, n, s.results + s.stack)
    requires PendingIsOpen(lib, tokens, n, s) && s.pending.Some?
    ensures AllDescribed(lib, tokens, n, WithLastValue(s, v).results + WithLastValue(s, v).stack)
  {
    var g := Top(WithLastValue(s, v));
    TopIsDescribed(lib, tokens, n, s);
    RevaluedForm(lib, tokens, n, Top(s), v);
    TopIsLast(s, g);
    Replaced(lib, tokens, n, s.results + s.stack, g);
  }

  lemma Revalues(lib: Library, tokens: seq<Token>, n: nat, s: State, v: string)
    requires HasField(s) && AllDescribed(lib, tokens, n, s.results + s.stack)
    requires PendingIsOpen(lib, tokens, n, s) && s.pending.Some?
    ensures AllDescribed(lib, tokens, n, WithLastValue(s, v).results + WithLastValue(s, v).stack)
    ensures PendingIsOpen(lib, tokens, n, WithLastValue(s, v))
  {
    RevaluesForms(lib, tokens, n, s, v);
    assert Top(WithLastValue(s, v)).at == Top(s).at;
  }

  lemma RevaluedField(lib: Library, tok: Token, f: Field, v: string)
    requires FieldIs(lib, tok, f) && tok.atom != InputTag
    ensures FieldIs(lib, tok, f.(value := v))
  {
  }

  lemma Repends(lib: Library, tokens: seq<Token>, n: nat, s: State, p: Option<Pending>)
    requires Faithful(lib, tokens, n, s) && (p.Some? ==> s.pending.Some?)
    ensures Faithful(lib, tokens, n, s.(pending := p))
  {
    var t := s.(pending := p);
    assert t.results + t.stack == s.results + s.stack && (t.stack != [] ==> Top(t) == Top(s));
  }

  // While a field is pending a token changes at most its value.
  lemma OnlyRevalues(lib: Library, s: State, tok: Token, at: nat) returns (v: string)
    requires s.pending.Some? && Wf(s)
    ensures Step(lib, s, tok, at) == WithLastValue(s, v).(pending := Step(lib, s, tok, at).pending)
  {
    v := LastValue(s);
    LastValueOf(s, v, v);
    match tok
    case StartTag(_, _) =>
      if OnPendingStart(s, tok).stack != s.stack {
        v := SELECTED;
      }
    case Text(raw) =>
      if s.pending.value.inTextarea {
        v := AppendCapped(LastValue(s), raw);
      }
    case EndTag(atom) => v := OnlyRevaluesAtEnd(lib, s, atom);
    case OtherToken =>
  }

  lemma OnlyRevaluesAtEnd(lib: Library, s: State, atom: Atom) returns (v: string)
    requires s.pending.Some? && Wf(s)
    ensures OnPendingEnd(lib, s, atom) == WithLastValue(s, v).(pending := OnPendingEnd(lib, s, atom).pending)
  {
    v := LastValue(s);
    LastValueOf(s, v, v);
    if atom == TextareaTag {
      v := lib.trimSpace(v);
    } else if atom == SelectTag {
      v := ResolveRevalues(s);
    } else if atom == OptionTag && LastValue(s) == SELECTED && s.pending.value.inSelect && s.pending.value.inOption {
      v := OptionOf(lib, s.pending.value);
    }
  }

  lemma ResolveRevalues(s: State) returns (v: string)
    requires s.pending.Some? && Wf(s)
    ensures ResolveSelect(s) == WithLastValue(s, v)
  {
    var first := s.pending.value.firstOption;
    v := if LastValue(s) == SELECTED then "" else LastValue(s);
    LastValueOf(s, v, if first.Some? then first.value else v);
    LastValueOf(s, LastValue(s), v);
    if v == "" && first.Some? {
      v := first.value;
    }
  }

  lemma PendingStep(lib: Library, tokens: seq<Token>, n: nat, s: State, tok: Token, at: nat)
    requires Faithful(lib, tokens, n, s) && s.pending.Some? && Wf(s)
    ensures Faithful(lib, tokens, n, Step(lib, s, tok, at))
  {
    var v := OnlyRevalues(lib, s, tok, at);
    Revalues(lib, tokens, n, s, v);
    Repends(lib, tokens, n, WithLastValue(s, v), Step(lib, s, tok, at).pending);
  }

  lemma NoTags(lib: Library, tokens: seq<Token>, at: nat, n: nat)
    requires n <= |tokens| && forall k: nat :: k < n ==> !TagOf(lib, tokens, k, at)
    ensures TagsOf(lib, tokens, at, n) == []
  {
    if n > 0 {
      NoTags(lib, tokens, at, n - 1);
    }
  }

  // No form open or returned before its tag starts at its position.
  ghost predicate Earlier(s: State, n: nat) {
    forall i :: 0 <= i < |s.results + s.stack| ==> (s.results + s.stack)[i].at < n
  }

  lemma {:induction false} AfterIsEarlier(lib: Library, tokens: seq<Token>, n: nat)
    requires n <= |tokens|
    ensures Earlier(After(lib, tokens, n), n)
  {
    if n > 0 {
      AfterIsEarlier(lib, tokens, n - 1);
      StepIsEarlier(lib, After(lib, tokens, n - 1), tokens[n - 1], n - 1);
    }
  }

  lemma StepIsEarlier(lib: Library, s: State, tok: Token, n: nat)
    requires Wf(s) && Earlier(s, n)
    ensures Earlier(Step(lib, s, tok, n), n + 1)
  {
    var r := Step(lib, s, tok, n);
    var all := s.results + s.stack;
    assert forall f :: f in s.results || f in s.stack ==> f in all;
    if s.pending.Some? {
      var v := OnlyRevalues(lib, s, tok, n);
      TopIsLast(s, Top(WithLastValue(s, v)));
      assert r.results + r.stack == all[|all| - 1 := Top(WithLastValue(s, v))];
    } else if tok.StartTag? && tok.atom == FormTag {
      if r != s {
        assert r.results + r.stack == all + [NewForm(n, tok.attrs)];
      }
    } else if tok.StartTag? {
      var f := TagStep(lib, s, tok, n);
      if TagTaken(lib, s, tok) {
        TopIsLast(s, Top(AddField(s, f)));
        assert r.results + r.stack == all[|all| - 1 := Top(AddField(s, f))];
      }
    } else if tok.EndTag? && tok.atom == FormTag && s.stack != [] {
      ClosedForms(s);
    }
  }

  // Closing moves the innermost form behind the results.
  lemma ClosedForms(s: State)
    requires s.stack != [] && s.pending.None?
    ensures var r := OnEnd(s, FormTag);
      && (forall i :: 0 <= i < |r.results + r.stack| ==> (r.results + r.stack)[i] in s.results + s.stack)
      && |r.results + r.stack| == |s.results + s.stack|
  {
    var r := OnEnd(s, FormTag);
    forall i | 0 <= i < |r.results + r.stack| ensures (r.results + r.stack)[i] in s.results + s.stack {
      var f := (r.results + r.stack)[i];
      if i < |s.results| {
        assert (s.results + s.stack)[i] == f;
      } else if i == |s.results| {
        assert (s.results + s.stack)[|s.results + s.stack| - 1] == f;
      } else {
        assert (s.results + s.stack)[i - 1] == f;
      }
    }
  }

  ghost predicate DistinctAts(forms: seq<Form>) {
    forall i, j :: 0 <= i < j < |forms| ==> forms[i].at != forms[j].at
  }

  lemma MovedDistinct(a: seq<Form>, b: seq<Form>, f: Form)
    requires DistinctAts(a + b + [f])
    ensures DistinctAts(a + [f] + b)
  {
    var x, y, n, m := a + b + [f], a + [f] + b, |a|, |a| + |b|;
    forall i, j | 0 <= i < j < |y| ensures y[i].at != y[j].at {
      var p := if i < n then i else if i == n then m else i - 1;
      var q := if j < n then j else if j == n then m else j - 1;
      assert y[i] == x[p] && y[j] == x[q] && p != q;
    }
  }

  lemma CloseStep(lib: Library, tokens: seq<Token>, n: nat, s: State)
    requires s.stack != [] && s.pending.None? && AllDescribed(lib, tokens, n, s.results + s.stack)
    ensures AllDescribed(lib, tokens, n, OnEnd(s, FormTag).results + OnEnd(s, FormTag).stack)
  {
    var front := s.stack[..|s.stack| - 1];
    assert s.results + s.stack == s.results + front + [Top(s)];
    MovedDistinct(s.results, front, Top(s));
    ClosedForms(s);
  }

  lemma NewFormIs(tok: Token, at: nat)
    requires tok.StartTag? && tok.atom == FormTag
    ensures FormIs(tok, NewForm(at, tok.attrs))
  {
    AttrIsGet(tok.attrs, "action", GetAttr(tok.attrs, "action"));
    AttrIsGet(tok.attrs, "method", GetAttr(tok.attrs, "method"));
    AttrIsGet(tok.attrs, "enctype", GetAttr(tok.attrs, "enctype"));
  }

  lemma NoTagsYet(lib: Library, tokens: seq<Token>, n: nat)
    requires n < |tokens| && tokens[n].StartTag? && tokens[n].atom == FormTag
    ensures TagsOf(lib, tokens, n, n + 1) == []
  {
    forall k: nat | k <= n ensures !TagOf(lib, tokens, k, n) {
      var t := After(lib, tokens, k);
      AfterIsEarlier(lib, tokens, k);
      if t.stack != [] {
        assert (t.results + t.stack)[|t.results + t.stack| - 1] == Top(t);
      }
    }
    NoTags(lib, tokens, n, n + 1);
  }

  lemma OpenStep(lib: Library, tokens: seq<Token>, n: nat, s: State)
    requires n < |tokens| && tokens[n].StartTag? && tokens[n].atom == FormTag && Earlier(s, n)
    requires AllDescribed(lib, tokens, n + 1, s.results + s.stack)
    ensures AllDescribed(lib, tokens, n + 1, s.results + (s.stack + [NewForm(n, tokens[n].attrs)]))
  {
    var f, all := NewForm(n, tokens[n].attrs), s.results + s.stack;
    NewFormIs(tokens[n], n);
    NoTagsYet(lib, tokens, n);
    assert s.results + (s.stack + [f]) == all + [f];
  }

  lemma FieldAdded(lib: Library, tokens: seq<Token>, n: nat, f: Form, field: Field)
    requires Described(lib, tokens, n, f) && TagOf(lib, tokens, n, f.at) && FieldIs(lib, tokens[n], field)
    ensures Described(lib, tokens, n + 1, f.(fields := f.fields + [field]))
  {
  }

  // The last form got the field of tag n; the others are as they were.
  lemma LastGrows(lib: Library, tokens: seq<Token>, n: nat, forms: seq<Form>, g: Form)
    requires forms != [] && AllDescribed(lib, tokens, n, forms)
    requires TagOf(lib, tokens, n, forms[|forms| - 1].at)
    requires g.at == forms[|forms| - 1].at && Described(lib, tokens, n + 1, g)
    ensures AllDescribed(lib, tokens, n + 1, forms[|forms| - 1 := g])
  {
    forall i | 0 <= i < |forms| - 1 ensures Described(lib, tokens, n + 1, forms[i]) {
      assert Describes(lib, tokens, n)(forms[i]);
      SameTags(lib, tokens, n, forms[i]);
    }
  }

  lemma TopGrows(lib: Library, tokens: seq<Token>, n: nat, s: State, f: Form, g: Form, field: Field)
    requires s.stack != [] && f == Top(s) && g == f.(fields := f.fields + [field])
    requires AllDescribed(lib, tokens, n, s.results + s.stack) && Described(lib, tokens, n, f)
    requires TagOf(lib, tokens, n, f.at) && FieldIs(lib, tokens[n], field)
    ensures AllDescribed(lib, tokens, n + 1, WithTop(s, g).results + WithTop(s, g).stack)
  {
    TopIsLast(s, g);
    FieldAdded(lib, tokens, n, f, field);
    LastGrows(lib, tokens, n, s.results + s.stack, g);
  }

  lemma FieldStep(lib: Library, tokens: seq<Token>, n: nat, s: State, field: Field)
    requires n < |tokens| && s == After(lib, tokens, n) && s.stack != [] && TagTaken(lib, s, tokens[n])
    requires AllDescribed(lib, tokens, n, s.results + s.stack) && FieldIs(lib, tokens[n], field)
    ensures AllDescribed(lib, tokens, n + 1, AddField(s, field).results + AddField(s, field).stack)
  {
    TopIsDescribed(lib, tokens, n, s);
    TopGrows(lib, tokens, n, s, Top(s), Top(s).(fields := Top(s).fields + [field]), field);
  }

  lemma StartStep(lib: Library, tokens: seq<Token>, n: nat, s: State)
    requires n < |tokens| && s == After(lib, tokens, n) && s.pending.None? && tokens[n].StartTag?
    requires Faithful(lib, tokens, n, s)
    ensures Faithful(lib, tokens, n + 1, Step(lib, s, tokens[n], n))
  {
    var tok := tokens[n];
    if tok.atom == FormTag {
      StaysDescribed(lib, tokens, n, s.results + s.stack);
      AfterIsEarlier(lib, tokens, n);
      OpenStep(lib, tokens, n, s);
    } else {
      var f := TagStep(lib, s, tok, n);
      if TagTaken(lib, s, tok) {
        FieldStep(lib, tokens, n, s, f);
        assert Top(AddField(s, f)).at == Top(s).at && TagOf(lib, tokens, n, Top(s).at);
      } else {
        StaysDescribed(lib, tokens, n, s.results + s.stack);
      }
    }
  }

  lemma StaysFaithful(lib: Library, tokens: seq<Token>, n: nat, r: State)
    requires n < |tokens| && Faithful(lib, tokens, n, r) && !TagTaken(lib, After(lib, tokens, n), tokens[n])
    ensures Faithful(lib, tokens, n + 1, r)
  {
    StaysDescribed(lib, tokens, n, r.results + r.stack);
  }

  lemma EndStep(lib: Library, tokens: seq<Token>, n: nat, s: State, atom: Atom)
    requires s.pending.None? && Faithful(lib, tokens, n, s)
    ensures Faithful(lib, tokens, n, OnEnd(s, atom))
  {
    if atom == FormTag && s.stack != [] {
      CloseStep(lib, tokens, n, s);
    }
  }

  lemma NextIsFaithful(lib: Library, tokens: seq<Token>, n: nat, s: State)
    requires n < |tokens| && s == After(lib, tokens, n) && Faithful(lib, tokens, n, s)
    ensures Faithful(lib, tokens, n + 1, Step(lib, s, tokens[n], n))
  {
    var tok := tokens[n];
    if s.pending.Some? {
      PendingStep(lib, tokens, n, s, tok, n);
      StaysFaithful(lib, tokens, n, Step(lib, s, tok, n));
    } else if tok.StartTag? {
      StartStep(lib, tokens, n, s);
    } else {
      if tok.EndTag? {
        EndStep(lib, tokens, n, s, tok.atom);
      }
      StaysFaithful(lib, tokens, n, Step(lib, s, tok, n));
    }
  }

  ghost predicate FaithfulAt(lib: Library, tokens: seq<Token>, n: nat)
    requires n <= |tokens|
  {
    Faithful(lib, tokens, n, After(lib, tokens, n))
  }

  lemma FaithfulNext(lib: Library, tokens: seq<Token>, n: nat)
    requires n < |tokens| && FaithfulAt(lib, tokens, n)
    ensures FaithfulAt(lib, tokens, n + 1)
  {
    NextIsFaithful(lib, tokens, n, After(lib, tokens, n));
  }

  lemma AfterIsFaithful(lib: Library, tokens: seq<Token>, n: nat)
    requires n <= |tokens|
    ensures Faithful(lib, tokens, n, After(lib, tokens, n))
  {
    var p := (k: nat) => k <= |tokens| && FaithfulAt(lib, tokens, k);
    forall k: nat | 0 <= k < n ensures Inherits(p, k) {
      if p(k) {
        FaithfulNext(lib, tokens, k);
      }
    }
    assert p(0);
    Upward(p, 0, n);
  }

  // ---------------------------------------------------------------- the forms returned

  lemma {:induction false} UnclosedAreOpen(stack: seq<Form>, f: Form)
    requires f in Unclosed(stack)
    ensures f in stack
  {
    if stack != [] && f != stack[|stack| - 1] {
      UnclosedAreOpen(stack[..|stack| - 1], f);
    }
  }

  // Every form returned is as its tag says, and its fields are, in order, those of the field tags
  // taken while it was the innermost form, each as its own tag says.
  lemma FieldsAreTags(lib: Library, tokens: seq<Token>, f: Form)
    requires f in ParseForms(lib, tokens)
    ensures Described(lib, tokens, |tokens|, f)
  {
    var s := After(lib, tokens, |tokens|);
    AfterIsFaithful(lib, tokens, |tokens|);
    var t := if s.pending.Some? && s.pending.value.inSelect then ResolveSelect(s) else s;
    if t != s {
      var v := ResolveRevalues(s);
      Revalues(lib, tokens, |tokens|, s, v);
    }
    if f !in t.results {
      UnclosedAreOpen(t.stack, f);
    }
    assert f in t.results + t.stack;
  }

  // So no hidden field and no password field of a returned form has a value.
  lemma SecretsAreBlank(lib: Library, tokens: seq<Token>, f: Form, i: nat)
    requires f in ParseForms(lib, tokens) && i < |f.fields|
    ensures f.fields[i].hidden || f.fields[i].typ == "hidden" || f.fields[i].typ == "password" ==> f.fields[i].value == ""
  {
    FieldsAreTags(lib, tokens, f);
    var tok := tokens[TagsOf(lib, tokens, f.at, |tokens|)[i]];
    assert FieldIs(lib, tok, f.fields[i]);
    assert "textarea"[0] != "hidden"[0] && "textarea"[0] != "password"[0];
    assert "select"[0] != "hidden"[0] && "select"[0] != "password"[0];
  }
}
