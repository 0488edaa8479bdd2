/**
 * What the submit handler of `initFormSubmission` sends (script.js): the
 * `FormData` entries folded into a response object, repeated keys turned
 * into arrays, then the four checkbox groups replaced by their checked
 * values joined with ", ". Also the last-write-wins fold of `autoSave`.
 */
module Payload {
  import opened Strings
  import opened Form

  /** A response value: a string, or the array a repeated key becomes. */
  datatype Value = Str(s: string) | Arr(items: seq<string>)

  /** JavaScript truthiness of a response value: an array always is. */
  predicate Truthy(v: Value) {
    match v
    case Str(s) => s != ""
    case Arr(_) => true
  }

  /** One `FormData` entry: a control's name and value. */
  type Entry = (string, string)

  /** The controls `FormData` lists: named ones, and radios and checkboxes
      only when checked. Text fields are listed even when empty, and
      hidden conditional questions are listed like any other. */
  predicate Submitted(c: Control) {
    c.name != "" && (IsChoice(c) ==> c.checked)
  }

  /** `new FormData(form).entries()`, in document order. */
  function FormEntries(form: seq<Control>): (es: seq<Entry>)
    ensures |es| <= |form|
    ensures forall k :: 0 <= k < |es| ==> es[k].0 != ""
    decreases |form|
  {
    if form == [] then []
    else
      var c := form[|form| - 1];
      FormEntries(form[..|form| - 1]) + (if Submitted(c) then [(c.name, c.value)] else [])
  }

  /** The values of the entries named `key`, in entry order. */
  function ValuesOf(entries: seq<Entry>, key: string): seq<string>
    decreases |entries|
  {
    if entries == [] then []
    else
      var e := entries[|entries| - 1];
      ValuesOf(entries[..|entries| - 1], key) + (if e.0 == key then [e.1] else [])
  }

  /** What happens to a stored value when another entry with its key
      arrives: a truthy value grows into (or extends) an array, a falsy
      one is overwritten. */
  function Merge(stored: Value, value: string): Value {
    if Truthy(stored) then
      match stored
      case Arr(xs) => Arr(xs + [value])
      case Str(s) => Arr([s, value])
    else Str(value)
  }

  /** One pass of the `for (let [key, value] of formData.entries())` loop. */
  function Absorb(responses: map<string, Value>, e: Entry): map<string, Value> {
    responses[e.0 := if e.0 in responses then Merge(responses[e.0], e.1) else Str(e.1)]
  }

  /** The response object after the loop has seen every entry. */
  function Collect(entries: seq<Entry>): map<string, Value>
    decreases |entries|
  {
    if entries == [] then map[] else Absorb(Collect(entries[..|entries| - 1]), entries[|entries| - 1])
  }

  /** The loop itself, filling `data.responses` in place. */
  method CollectResponses(entries: seq<Entry>) returns (responses: map<string, Value>)
    ensures responses == Collect(entries)
  {
    responses := map[];
    var i := 0;
    while i < |entries|
      invariant 0 <= i <= |entries|
      invariant responses == Collect(entries[..i])
    {
      var (key, value) := entries[i];
      assert entries[..i + 1][..i] == entries[..i];
      if key in responses && Truthy(responses[key]) {
        match responses[key] {
          case Arr(xs) => responses := responses[key := Arr(xs + [value])];
          case Str(s) => responses := responses[key := Arr([s, value])];
        }
      } else {
        responses := responses[key := Str(value)];
      }
      i := i + 1;
    }
    assert entries[..i] == entries;
  }

  /** Leading empty strings removed. */
  function DropBlankPrefix(vs: seq<string>): (r: seq<string>)
    ensures r == [] || r[0] != ""
    ensures |r| <= |vs|
    decreases |vs|
  {
    if vs != [] && vs[0] == "" then DropBlankPrefix(vs[1..]) else vs
  }

  /** An independent account of a key's final value, from the values sent
      under it: blanks before the first non-blank value are overwritten,
      a single surviving value stays a string, several make an array. */
  function Settled(vs: seq<string>): Value
    requires vs != []
  {
    var rest := DropBlankPrefix(vs);
    if rest == [] then Str("")
    else if |rest| == 1 then Str(rest[0])
    else Arr(rest)
  }

  lemma {:induction false} DropBlankPrefixSnoc(vs: seq<string>, v: string)
    ensures DropBlankPrefix(vs + [v]) ==
            if DropBlankPrefix(vs) == [] then DropBlankPrefix([v]) else DropBlankPrefix(vs) + [v]
    decreases |vs|
  {
    if vs != [] {
      assert (vs + [v])[1..] == vs[1..] + [v];
      if vs[0] == "" {
        DropBlankPrefixSnoc(vs[1..], v);
      }
    } else {
      assert vs + [v] == [v];
    }
  }

  lemma SettledSingle(v: string)
    ensures Settled([v]) == Str(v)
  {
    assert [v][1..] == [];
  }

  lemma SettledSnoc(vs: seq<string>, v: string)
    requires vs != []
    ensures Settled(vs + [v]) == Merge(Settled(vs), v)
  {
    DropBlankPrefixSnoc(vs, v);
  }

  /** The loop agrees with the reference account: a key is present
      exactly when some entry carries it, and holds `Settled` of its
      values. */
  lemma {:induction false} CollectIsSettled(entries: seq<Entry>, key: string)
    ensures key in Collect(entries) <==> ValuesOf(entries, key) != []
    ensures key in Collect(entries) ==> Collect(entries)[key] == Settled(ValuesOf(entries, key))
    decreases |entries|
  {
    if entries != [] {
      var init := entries[..|entries| - 1];
      var e := entries[|entries| - 1];
      CollectIsSettled(init, key);
      if e.0 == key {
        if ValuesOf(init, key) != [] {
          SettledSnoc(ValuesOf(init, key), e.1);
        } else {
          assert ValuesOf(entries, key) == [e.1];
          SettledSingle(e.1);
        }
      } else {
        assert ValuesOf(entries, key) == ValuesOf(init, key) + [];
        assert ValuesOf(entries, key) == ValuesOf(init, key);
        assert Collect(entries) == Absorb(Collect(init), e);
        assert key in Collect(entries) ==> Collect(entries)[key] == Collect(init)[key];
      }
    }
  }

  /** The first entry for a key stores its value unchanged. */
  lemma FirstEntryStored(entries: seq<Entry>, key: string, value: string)
    requires ValuesOf(entries, key) == []
    ensures Collect(entries + [(key, value)])[key] == Str(value)
  {
    var es := entries + [(key, value)];
    assert es[..|es| - 1] == entries;
    CollectIsSettled(es, key);
  }

  /** A key sent several times, starting with a non-empty value, ends as
      the array of all its values in entry order. */
  lemma RepeatedKeyBecomesArray(entries: seq<Entry>, key: string)
    requires |ValuesOf(entries, key)| >= 2 && ValuesOf(entries, key)[0] != ""
    ensures key in Collect(entries) && Collect(entries)[key] == Arr(ValuesOf(entries, key))
  {
    CollectIsSettled(entries, key);
  }

  /** A key whose stored value is `''` is overwritten by its next entry. */
  lemma BlankIsOverwritten(entries: seq<Entry>, key: string, value: string)
    requires key in Collect(entries) && Collect(entries)[key] == Str("")
    ensures Collect(entries + [(key, value)])[key] == Str(value)
  {
    var es := entries + [(key, value)];
    assert es[..|es| - 1] == entries;
  }

  /** The multi-select groups the handler re-encodes. */
  const CheckboxGroups: seq<string> := ["q2_tools", "q6_tasks", "q11_barriers", "q15_support"]

  /** `form.querySelectorAll('input[name="<name>"]:checked')` mapped to
      values, in document order. */
  function CheckedValues(form: seq<Control>, name: string): seq<string>
    decreases |form|
  {
    if form == [] then []
    else
      var c := form[|form| - 1];
      CheckedValues(form[..|form| - 1], name) + (if IsChecked(c) && c.name == name then [c.value] else [])
  }

  /** The checkbox step applied for each group of `groups` in turn. */
  function Flattened(responses: map<string, Value>, form: seq<Control>, groups: seq<string>): map<string, Value>
    decreases |groups|
  {
    if groups == [] then responses
    else
      var r := Flattened(responses, form, groups[..|groups| - 1]);
      var g := groups[|groups| - 1];
      var values := CheckedValues(form, g);
      if |values| > 0 then r[g := Str(Join(values, ", "))] else r
  }

  /** What the checkbox step promises: a group with a checked box holds
      the ", "-join of the checked values; every other key, including a
      group with nothing checked, keeps what the loop left. */
  lemma {:induction false} FlattenedMeaning(responses: map<string, Value>, form: seq<Control>, groups: seq<string>, k: string)
    ensures k in Flattened(responses, form, groups) <==> k in responses || (k in groups && CheckedValues(form, k) != [])
    ensures k in groups && CheckedValues(form, k) != [] ==>
              Flattened(responses, form, groups)[k] == Str(Join(CheckedValues(form, k), ", "))
    ensures !(k in groups && CheckedValues(form, k) != []) && k in responses ==>
              Flattened(responses, form, groups)[k] == responses[k]
    decreases |groups|
  {
    if groups != [] {
      var init := groups[..|groups| - 1];
      FlattenedMeaning(responses, form, init, k);
      assert k in groups <==> k in init || k == groups[|groups| - 1] by {
        assert groups == init + [groups[|groups| - 1]];
      }
    }
  }

  /** The `checkboxGroups.forEach` step, overwriting `data.responses`. */
  method FlattenCheckboxGroups(form: seq<Control>, responses: map<string, Value>) returns (r: map<string, Value>)
    ensures r == Flattened(responses, form, CheckboxGroups)
  {
    r := responses;
    for i := 0 to |CheckboxGroups|
      invariant r == Flattened(responses, form, CheckboxGroups[..i])
    {
      var group := CheckboxGroups[i];
      ghost var done := CheckboxGroups[..i + 1];
      assert done[..i] == CheckboxGroups[..i] && done[i] == group && |done| == i + 1;
      var values := CheckedValues(form, group);
      if |values| > 0 {
        r := r[group := Str(Join(values, ", "))];
      }
    }
    assert CheckboxGroups[..|CheckboxGroups|] == CheckboxGroups;
  }

  /** The whole `data.responses` the handler builds from the page. */
  function Responses(form: seq<Control>): map<string, Value> {
    Flattened(Collect(FormEntries(form)), form, CheckboxGroups)
  }

  /** For a name carried only by radios and checkboxes, the values
      `FormData` sends are exactly the checked values in document order. */
  lemma {:induction false} ChoiceEntriesAreCheckedValues(form: seq<Control>, name: string)
    requires name != ""
    requires forall i :: 0 <= i < |form| && form[i].name == name ==> IsChoice(form[i])
    ensures ValuesOf(FormEntries(form), name) == CheckedValues(form, name)
    decreases |form|
  {
    if form != [] {
      var init := form[..|form| - 1];
      var c := form[|form| - 1];
      ChoiceEntriesAreCheckedValues(init, name);
      var es := FormEntries(init);
      var extra: seq<Entry> := if Submitted(c) then [(c.name, c.value)] else [];
      ValuesOfAppend(es, extra, name);
    }
  }

  /** The values of the controls named `name` that take part in the
      submission (named, and checked when a radio or checkbox), in
      document order. */
  function SubmittedValues(form: seq<Control>, name: string): seq<string>
    decreases |form|
  {
    if form == [] then []
    else
      var c := form[|form| - 1];
      SubmittedValues(form[..|form| - 1], name) + (if Submitted(c) && c.name == name then [c.value] else [])
  }

  /** For every name, the entries carry exactly the values of the
      submitted controls of that name, in document order. */
  lemma {:induction false} FormEntriesCarrySubmittedValues(form: seq<Control>, name: string)
    ensures ValuesOf(FormEntries(form), name) == SubmittedValues(form, name)
    decreases |form|
  {
    if form != [] {
      var init := form[..|form| - 1];
      var c := form[|form| - 1];
      FormEntriesCarrySubmittedValues(init, name);
      var extra: seq<Entry> := if Submitted(c) then [(c.name, c.value)] else [];
      ValuesOfAppend(FormEntries(init), extra, name);
    }
  }

  lemma {:induction false} ValuesOfAppend(a: seq<Entry>, b: seq<Entry>, key: string)
    ensures ValuesOf(a + b, key) == ValuesOf(a, key) + ValuesOf(b, key)
    decreases |b|
  {
    if b == [] {
      assert a + b == a;
    } else {
      var init := b[..|b| - 1];
      assert (a + b)[..|a + b| - 1] == a + init;
      ValuesOfAppend(a, init, key);
    }
  }

  /** On a page where only the four checkbox groups can repeat a name, and
      only radios and checkboxes carry those names, every response sent is
      a plain string: the wire contract's `{key: string}` holds. */
  lemma PayloadIsFlat(form: seq<Control>, k: string)
    requires forall key :: |ValuesOf(FormEntries(form), key)| >= 2 ==> key in CheckboxGroups
    requires forall i :: 0 <= i < |form| && form[i].name in CheckboxGroups ==> IsChoice(form[i])
    requires k in Responses(form)
    ensures Responses(form)[k].Str?
  {
    var es := FormEntries(form);
    var collected := Collect(es);
    FlattenedMeaning(collected, form, CheckboxGroups, k);
    CollectIsSettled(es, k);
    if k in CheckboxGroups {
      ChoiceEntriesAreCheckedValues(form, k);
    } else if k in collected {
      var vs := ValuesOf(es, k);
      assert vs == [vs[0]];
      SettledSingle(vs[0]);
    }
  }

  /** A group with at least two checked, non-blank boxes: the entry loop
      makes it an array, and the checkbox step replaces that array by the
      same values joined with ", " — which splits back into them. */
  lemma GroupArrayIsJoined(form: seq<Control>, g: string)
    requires g in CheckboxGroups
    requires forall i :: 0 <= i < |form| && form[i].name == g ==> IsChoice(form[i])
    requires |CheckedValues(form, g)| >= 2 && CheckedValues(form, g)[0] != ""
    requires forall i :: 0 <= i < |CheckedValues(form, g)| ==> NoComma(CheckedValues(form, g)[i])
    ensures g in Collect(FormEntries(form)) && Collect(FormEntries(form))[g] == Arr(CheckedValues(form, g))
    ensures g in Responses(form) && Responses(form)[g] == Str(Join(CheckedValues(form, g), ", "))
    ensures SplitComma(Join(CheckedValues(form, g), ", ")) == CheckedValues(form, g)
  {
    ChoiceEntriesAreCheckedValues(form, g);
    RepeatedKeyBecomesArray(FormEntries(form), g);
    FlattenedMeaning(Collect(FormEntries(form)), form, CheckboxGroups, g);
    SplitJoin(CheckedValues(form, g));
  }

  /** The draft `autoSave` stores: each entry overwrites its key. */
  function LastWins(entries: seq<Entry>): map<string, string>
    decreases |entries|
  {
    if entries == [] then map[]
    else
      var e := entries[|entries| - 1];
      LastWins(entries[..|entries| - 1])[e.0 := e.1]
  }

  /** The `autoSave` loop over `new FormData(form).entries()`. */
  method AutoSaveDraft(form: seq<Control>) returns (draft: map<string, string>)
    ensures draft == LastWins(FormEntries(form))
  {
    var entries := FormEntries(form);
    draft := map[];
    var i := 0;
    while i < |entries|
      invariant 0 <= i <= |entries|
      invariant draft == LastWins(entries[..i])
    {
      assert entries[..i + 1][..i] == entries[..i];
      var (key, value) := entries[i];
      draft := draft[key := value];
      i := i + 1;
    }
    assert entries[..i] == entries;
  }

  /** Each key of the draft holds the last value sent under it. */
  lemma {:induction false} LastWinsIsLast(entries: seq<Entry>, key: string)
    ensures key in LastWins(entries) <==> ValuesOf(entries, key) != []
    ensures key in LastWins(entries) ==>
              LastWins(entries)[key] == ValuesOf(entries, key)[|ValuesOf(entries, key)| - 1]
    decreases |entries|
  {
    if entries != [] {
      LastWinsIsLast(entries[..|entries| - 1], key);
    }
  }

  /** Where a key is sent once, the draft and the submitted responses agree. */
  lemma DraftAgreesOnSingleKeys(entries: seq<Entry>, key: string)
    requires |ValuesOf(entries, key)| == 1
    ensures key in LastWins(entries) && key in Collect(entries)
    ensures Collect(entries)[key] == Str(LastWins(entries)[key])
  {
    LastWinsIsLast(entries, key);
    CollectIsSettled(entries, key);
    SettledSingle(ValuesOf(entries, key)[0]);
    assert ValuesOf(entries, key) == [ValuesOf(entries, key)[0]];
  }
}
