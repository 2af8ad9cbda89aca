/**
 parseForms as the source runs it: forms behind pointers, field slices that grow by copying, and a
 pending pointer to a field inside the innermost form's slice (pkg/analyze/forms.go).
 */
module FormParsers {
  import opened ByteStrings
  import opened Forms

  const NO_FIELD := Field("", "", "", "", false, false, false)

  class FormNode {
    const at: nat
    const action: string
    const verb: string
    const enctype: string
    var fields: array<Field>
    var len: nat

    ghost predicate Valid()
      reads this
    {
      len <= fields.Length
    }

    ghost function Abs(): Form
      requires Valid()
      reads this, fields
    {
      Form(at, action, verb, enctype, fields[..len])
    }

    constructor (at: nat, attrs: seq<Attr>)
      ensures Valid() && fresh(fields) && Abs() == NewForm(at, attrs)
    {
      this.at := at;
      action := GetAttr(attrs, "action");
      verb := GetAttr(attrs, "method");
      enctype := GetAttr(attrs, "enctype");
      fields := new Field[0];
      len := 0;
    }

    // append: in place while there is room, into a larger copy otherwise.
    method Append(field: Field)
      requires Valid()
      modifies this, fields
      ensures Valid() && (fields == old(fields) || fresh(fields))
      ensures Abs() == old(Abs()).(fields := old(Abs()).fields + [field])
    {
      ghost var was := fields[..len];
      if len == fields.Length {
        var bigger := new Field[2 * len + 1](_ => NO_FIELD);
        for i := 0 to len
          modifies bigger
          invariant bigger[..i] == was[..i]
        {
          bigger[i] := fields[i];
        }
        fields := bigger;
      }
      assert fields[..len] == was;
      fields[len] := field;
      len := len + 1;
      assert fields[..len] == was + [field];
    }
  }

  // The pending pointer: an element of a slice's array, and the rest of pendingFieldState.
  datatype Ref = Ref(cells: array<Field>, index: nat, state: Pending)

  class FormParser {
    const lib: Library
    var stack: seq<FormNode>
    var results: seq<Form>
    var pending: Option<Ref>
    ghost var Repr: set<object>
    // The state these fields hold, as the specification has it.
    ghost var model: State

    ghost predicate Valid()
      reads this, Repr
    {
      Apart() && Holds(model)
    }

    // No two open forms share anything, and the pending pointer is the last field of the innermost
    // form, in the array that form still uses.
    ghost predicate Apart()
      reads this`stack, this`pending, this`Repr, Repr - {this}
    {
      && this in Repr
      && (forall i :: 0 <= i < |stack| ==> stack[i] in Repr && stack[i].fields in Repr && stack[i].Valid())
      && (forall i, j :: 0 <= i < j < |stack| ==> stack[i] != stack[j] && stack[i].fields != stack[j].fields)
      && (pending.Some? ==> PointsAtLast(pending.value))
    }

    ghost predicate PointsAtLast(p: Ref)
      reads this`stack, stack
    {
      && stack != []
      && var top := stack[|stack| - 1];
         p.cells == top.fields && p.index + 1 == top.len <= top.fields.Length
    }

    // The open forms hold these values.
    ghost predicate StackIs(forms: seq<Form>)
      requires forall i :: 0 <= i < |stack| ==> stack[i].Valid()
      reads this`stack, stack, set i | 0 <= i < |stack| :: stack[i].fields
    {
      |forms| == |stack| && forall i :: 0 <= i < |stack| ==> forms[i] == stack[i].Abs()
    }

    // The fields hold this state.
    ghost predicate Holds(s: State)
      requires forall i :: 0 <= i < |stack| ==> stack[i].Valid()
      reads this`stack, this`results, this`pending, stack, set i | 0 <= i < |stack| :: stack[i].fields
    {
      && StackIs(s.stack) && s.results == results
      && s.pending == (if pending.Some? then Some(pending.value.state) else None)
    }

    constructor (lib: Library)
      ensures Valid() && model == START && this.lib == lib && fresh(Repr)
    {
      this.lib := lib;
      stack := [];
      results := [];
      pending := None;
      Repr := {this};
      model := START;
    }

    // Records what the fields hold.
    ghost method Record(s: State)
      requires Apart() && Holds(s)
      modifies this`model
      ensures Valid() && model == s
    {
      model := s;
    }

    // Stores a value through the pending pointer, which changes the innermost form only.
    method Store(v: string, ghost s: State)
      requires Apart() && pending.Some? && StackIs(s.stack)
      modifies pending.value.cells
      ensures Apart() && unchanged(this) && HasField(s) && StackIs(WithLastValue(s, v).stack)
    {
      var p := pending.value;
      assert Top(s) == stack[|stack| - 1].Abs();
      p.cells[p.index] := p.cells[p.index].(value := v);
      assert Top(WithLastValue(s, v)) == stack[|stack| - 1].Abs();
    }

    method SetValue(v: string)
      requires Valid() && pending.Some?
      modifies Repr
      ensures Valid() && Repr == old(Repr) && pending == old(pending)
      ensures HasField(old(model)) && model == WithLastValue(old(model), v)
    {
      Store(v, model);
      Record(WithLastValue(model, v));
    }

    // The pending pointer always has a field to point at.
    lemma PendingHasField()
      requires Valid()
      ensures Wf(model)
    {
      if pending.Some? {
        assert model.stack[|stack| - 1] == stack[|stack| - 1].Abs();
      }
    }

    // Loads the value the pending pointer names.
    method GetValue() returns (v: string)
      requires Valid() && pending.Some?
      ensures HasField(model) && v == LastValue(model)
    {
      assert model.stack[|stack| - 1] == stack[|stack| - 1].Abs();
      return pending.value.cells[pending.value.index].value;
    }

    method SetPending(state: Pending)
      requires Valid() && pending.Some?
      modifies this`pending, this`model
      ensures Valid() && model == old(model).(pending := Some(state))
    {
      pending := Some(pending.value.(state := state));
      Record(model.(pending := Some(state)));
    }

    method Clear()
      requires Valid()
      modifies this`pending, this`model
      ensures Valid() && model == old(model).(pending := None)
    {
      pending := None;
      Record(model.(pending := None));
    }

    // ---------------------------------------------------------------- start tags

    // currentFormForField's guards.
    method MayAdd(attrs: seq<Attr>) returns (ok: bool)
      requires Valid()
      ensures ok == TakesField(model, attrs)
    {
      if |stack| == 0 || HasAttr(attrs, "form") {
        return false;
      }
      var name := GetAttr(attrs, "name");
      if name == "" || ContainsControl(name) {
        return false;
      }
      assert model.stack[|stack| - 1] == stack[|stack| - 1].Abs();
      return stack[|stack| - 1].len < MAX_FIELDS;
    }

    // The innermost form takes a field; no other form changes.
    method GrowTop(field: Field)
      requires Apart() && stack != [] && pending.None?
      modifies Repr
      ensures Apart() && fresh(Repr - old(Repr))
      ensures stack == old(stack) && pending == old(pending) && results == old(results) && model == old(model)
      ensures forall i :: 0 <= i < |stack| - 1 ==> stack[i].Abs() == old(stack[i].Abs())
      ensures var top := old(stack[|stack| - 1].Abs());
              stack[|stack| - 1].Abs() == top.(fields := top.fields + [field])
    {
      var top := stack[|stack| - 1];
      top.Append(field);
      Repr := Repr + {top.fields};
    }

    method Grow(field: Field, ghost s: State)
      requires Apart() && stack != [] && pending.None? && StackIs(s.stack)
      modifies Repr
      ensures Apart() && fresh(Repr - old(Repr)) && StackIs(AddField(s, field).stack)
      ensures stack == old(stack) && pending == old(pending) && results == old(results) && model == old(model)
    {
      assert Top(s) == stack[|stack| - 1].Abs();
      GrowTop(field);
      assert Top(AddField(s, field)) == stack[|stack| - 1].Abs();
    }

    method AppendField(field: Field)
      requires Valid() && stack != [] && pending.None?
      modifies Repr
      ensures Valid() && fresh(Repr - old(Repr)) && stack == old(stack)
      ensures model == AddField(old(model), field)
    {
      Grow(field, model);
      Record(AddField(model, field));
    }

    method OpenForm(attrs: seq<Attr>, at: nat)
      requires Valid() && pending.None?
      modifies this
      ensures Valid() && fresh(Repr - old(Repr))
      ensures model == old(model).(stack := old(model).stack + [NewForm(at, attrs)])
    {
      var f := new FormNode(at, attrs);
      stack := stack + [f];
      Repr := Repr + {f, f.fields};
      Record(model.(stack := model.stack + [NewForm(at, attrs)]));
    }

    method HandleInputTag(attrs: seq<Attr>)
      requires Valid() && pending.None?
      modifies Repr
      ensures Valid() && fresh(Repr - old(Repr))
      ensures model == (if TakesField(old(model), attrs) && !IsSkippable(lib.lower(GetAttr(attrs, "type")))
                        then AddField(old(model), InputField(lib, attrs)) else old(model))
    {
      var ok := MayAdd(attrs);
      if !ok {
        return;
      }
      var typ := lib.lower(GetAttr(attrs, "type"));
      if IsSkippable(typ) {
        return;
      }
      AppendField(InputField(lib, attrs));
    }

    // handleTextareaTag and handleSelectTag: the pointer is taken right after the append.
    method HandleOpenTag(attrs: seq<Attr>, typ: string, state: Pending)
      requires Valid() && pending.None?
      modifies Repr
      ensures Valid() && fresh(Repr - old(Repr))
      ensures model == (if TakesField(old(model), attrs)
                        then AddField(old(model), OpenField(lib, attrs, typ)).(pending := Some(state)) else old(model))
    {
      var ok := MayAdd(attrs);
      if !ok {
        return;
      }
      AppendPending(OpenField(lib, attrs, typ), state);
    }

    method AppendPending(field: Field, state: Pending)
      requires Valid() && stack != [] && pending.None?
      modifies Repr
      ensures Valid() && fresh(Repr - old(Repr))
      ensures model == AddField(old(model), field).(pending := Some(state))
    {
      AppendField(field);
      PointAtLast(state);
    }

    // Opens a pending state whose pointer names the innermost form's last field.
    method PointAtLast(state: Pending)
      requires Valid() && HasField(model)
      modifies this`pending, this`model
      ensures Valid() && model == old(model).(pending := Some(state))
    {
      assert model.stack[|stack| - 1] == stack[|stack| - 1].Abs();
      var top := stack[|stack| - 1];
      pending := Some(Ref(top.fields, top.len - 1, state));
      Record(model.(pending := Some(state)));
    }

    method HandleStartTag(tok: Token, at: nat)
      requires Valid() && pending.None? && tok.StartTag?
      modifies Repr
      ensures Valid() && fresh(Repr - old(Repr))
      ensures model == OnStart(lib, old(model), tok, at)
    {
      match tok.atom
      case FormTag =>
        if |results| + |stack| < MAX_FORMS {
          OpenForm(tok.attrs, at);
        }
      case InputTag => HandleInputTag(tok.attrs);
      case TextareaTag => HandleOpenTag(tok.attrs, "textarea", IN_TEXTAREA);
      case SelectTag => HandleOpenTag(tok.attrs, "select", IN_SELECT);
      case _ =>
    }

    // ---------------------------------------------------------------- while a field is pending

    method HandlePendingStartTag(tok: Token)
      requires Valid() && pending.Some? && tok.StartTag?
      modifies Repr
      ensures Valid() && Repr == old(Repr) && Wf(old(model))
      ensures model == OnPendingStart(old(model), tok)
    {
      var p := pending.value.state;
      var value := GetValue();
      if !p.inSelect || tok.atom != OptionTag {
        return;
      }
      if HasAttr(tok.attrs, "selected") && value == "" {
        SetValue(SELECTED);
      }
      SetPending(p.(inOption := true, optionValue := GetAttr(tok.attrs, "value"), optionText := ""));
    }

    // Adds text to the pending field's value, up to the cap.
    method AppendText(text: string)
      requires Valid() && pending.Some?
      modifies Repr
      ensures Valid() && Repr == old(Repr) && Wf(old(model))
      ensures model == WithLastValue(old(model), AppendCapped(LastValue(old(model)), text))
    {
      var value := GetValue();
      SetValue(AppendCapped(value, text));
    }

    method HandlePendingText(text: string)
      requires Valid() && pending.Some?
      modifies Repr
      ensures Valid() && Repr == old(Repr) && Wf(old(model))
      ensures model == OnPendingText(old(model), text)
    {
      var p := pending.value.state;
      PendingHasField();
      if p.inTextarea {
        AppendText(text);
      } else if p.inSelect && p.inOption {
        SetPending(p.(optionText := AppendCapped(p.optionText, text)));
      }
    }

    // Replaces one value of the pending field by another.
    method Replace(from: string, to: string)
      requires Valid() && pending.Some?
      modifies Repr
      ensures Valid() && Repr == old(Repr) && pending == old(pending) && HasField(old(model))
      ensures model == if LastValue(old(model)) == from then WithLastValue(old(model), to) else old(model)
    {
      var value := GetValue();
      if value == from {
        SetValue(to);
      }
    }

    method RunCommitOption()
      requires Valid() && pending.Some?
      modifies Repr
      ensures Valid() && Repr == old(Repr) && Wf(old(model))
      ensures model == CommitOption(lib, old(model))
    {
      var p := pending.value.state;
      var optVal := p.optionValue;
      if optVal == "" {
        optVal := lib.trimSpace(p.optionText);
      }
      Replace(SELECTED, optVal);
      var first := p.firstOption;
      if first.None? {
        first := Some(optVal);
      }
      SetPending(p.(firstOption := first, inOption := false, optionValue := "", optionText := ""));
    }

    method RunResolveSelect()
      requires Valid() && pending.Some?
      modifies Repr
      ensures Valid() && Repr == old(Repr) && Wf(old(model))
      ensures model == ResolveSelect(old(model))
    {
      var first := pending.value.state.firstOption;
      Replace(SELECTED, "");
      if first.Some? {
        Replace("", first.value);
      }
    }

    method CloseSelect()
      requires Valid() && pending.Some?
      modifies Repr
      ensures Valid() && Repr == old(Repr) && Wf(old(model))
      ensures model == ResolveSelect(old(model)).(pending := None)
    {
      RunResolveSelect();
      Clear();
    }

    method CloseTextarea()
      requires Valid() && pending.Some?
      modifies Repr
      ensures Valid() && Repr == old(Repr) && Wf(old(model))
      ensures model == WithLastValue(old(model), lib.trimSpace(LastValue(old(model)))).(pending := None)
    {
      TrimValue();
      Clear();
    }

    method TrimValue()
      requires Valid() && pending.Some?
      modifies Repr
      ensures Valid() && Repr == old(Repr) && pending == old(pending) && Wf(old(model))
      ensures model == WithLastValue(old(model), lib.trimSpace(LastValue(old(model))))
    {
      var value := GetValue();
      SetValue(lib.trimSpace(value));
    }

    method HandlePendingEndTag(atom: Atom)
      requires Valid() && pending.Some?
      modifies Repr
      ensures Valid() && Repr == old(Repr) && Wf(old(model))
      ensures model == OnPendingEnd(lib, old(model), atom)
    {
      PendingHasField();
      match atom
      case OptionTag =>
        if pending.value.state.inSelect && pending.value.state.inOption {
          RunCommitOption();
        }
      case SelectTag => CloseSelect();
      case TextareaTag => CloseTextarea();
      case _ =>
    }

    // ---------------------------------------------------------------- the stream

    method HandleEndTag(atom: Atom)
      requires Valid() && pending.None?
      modifies this
      ensures Valid() && Repr == old(Repr)
      ensures model == OnEnd(old(model), atom)
    {
      if atom == FormTag && |stack| > 0 {
        var top := Snapshot(stack[|stack| - 1]);
        results := results + [top];
        stack := stack[..|stack| - 1];
        Record(OnEnd(model, atom));
      }
    }

    method HandleToken(tok: Token, at: nat)
      requires Valid()
      modifies Repr
      ensures Valid() && fresh(Repr - old(Repr)) && Wf(old(model))
      ensures model == Step(lib, old(model), tok, at)
    {
      PendingHasField();
      match tok
      case StartTag(_, _) =>
        if pending.Some? {
          HandlePendingStartTag(tok);
        } else {
          HandleStartTag(tok, at);
        }
      case Text(raw) =>
        if pending.Some? {
          HandlePendingText(raw);
        }
      case EndTag(atom) =>
        if pending.Some? {
          HandlePendingEndTag(atom);
        } else {
          HandleEndTag(atom);
        }
      case OtherToken =>
    }

    method FlushUnclosed() returns (forms: seq<Form>)
      requires Valid()
      modifies Repr
      ensures Wf(old(model)) && forms == Flush(old(model))
    {
      PendingHasField();
      if pending.Some? && pending.value.state.inSelect {
        RunResolveSelect();
      }
      forms := AppendUnclosed();
    }

    // One turn of parseForms' loop.
    method HandleNext(tokens: seq<Token>, i: nat)
      requires Valid() && i < |tokens| && model == After(lib, tokens, i)
      modifies Repr
      ensures Valid() && fresh(Repr - old(Repr))
      ensures model == After(lib, tokens, i + 1)
    {
      HandleToken(tokens[i], i);
    }

    // The open forms after the results, innermost first.
    method AppendUnclosed() returns (forms: seq<Form>)
      requires Valid()
      ensures forms == model.results + Unclosed(model.stack)
    {
      ghost var open := model.stack;
      assert open[..|stack|] == open;
      forms := results;
      var i := |stack|;
      while i > 0
        invariant 0 <= i <= |stack|
        invariant forms + Unclosed(open[..i]) == results + Unclosed(open)
      {
        i := i - 1;
        var f := Snapshot(stack[i]);
        assert open[..i + 1][..i] == open[..i];
        assert forms + ([f] + Unclosed(open[..i])) == (forms + [f]) + Unclosed(open[..i]);
        forms := forms + [f];
      }
    }

    // A copy of a form as it stands.
    method Snapshot(node: FormNode) returns (f: Form)
      requires node.Valid()
      ensures f == node.Abs()
    {
      return Form(node.at, node.action, node.verb, node.enctype, node.fields[..node.len]);
    }
  }

  method RunParseForms(lib: Library, tokens: seq<Token>) returns (forms: seq<Form>)
    ensures forms == ParseForms(lib, tokens)
  {
    var parser := new FormParser(lib);
    for i := 0 to |tokens|
      invariant parser.Valid() && fresh(parser.Repr) && parser.lib == lib
      invariant parser.model == After(lib, tokens, i)
    {
      parser.HandleNext(tokens, i);
    }
    forms := parser.FlushUnclosed();
  }
}
