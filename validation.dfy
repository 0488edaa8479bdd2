/**
 * `validateCurrentSection` (script.js): the presence checks a page must
 * pass before the wizard moves on, and the `has-error` marks it leaves.
 */
module Validation {
  import opened Strings
  import opened Form

  /** Some input of page `s` named `name` is checked: the
      `Array.from(group).some(radio => radio.checked)` test. */
  predicate AnyChecked(form: seq<Control>, s: nat, name: string) {
    exists j :: 0 <= j < |form| && form[j].section == s && form[j].name == name && IsChecked(form[j])
  }

  /** A required control of page `s` that blocks the page: an unanswered
      radio or checkbox group, or a text field or textarea whose trimmed
      value is empty. Required controls of any other kind never block. */
  predicate Fails(form: seq<Control>, s: nat, c: Control) {
    && c.required
    && c.section == s
    && match c.kind
       case Radio => !AnyChecked(form, s, c.name)
       case Checkbox => !AnyChecked(form, s, c.name)
       case TextInput => Trim(c.value) == ""
       case TextArea => Trim(c.value) == ""
       case OtherControl => false
  }

  /** Page `s` passes: none of its controls fails. */
  predicate SectionPasses(form: seq<Control>, s: nat) {
    forall i :: 0 <= i < |form| ==> !Fails(form, s, form[i])
  }

  /** The question groups of page `s` that hold a failing control, taking
      only the controls listed in `among`. */
  ghost function MarksAmong(form: seq<Control>, s: nat, among: seq<Control>): set<GroupRef> {
    set c | c in among && Fails(form, s, c) && c.group.Some? :: GroupRef(s, c.group.value)
  }

  /** Every question group of page `s` holding a failing control. */
  ghost function ErrorMarks(form: seq<Control>, s: nat): set<GroupRef> {
    MarksAmong(form, s, form)
  }

  /** The loop over the page's required inputs: `ok` is the `isValid` flag
      and `marks` the groups the loop adds `has-error` to. */
  method CheckSection(form: seq<Control>, s: nat) returns (ok: bool, marks: set<GroupRef>)
    ensures ok == SectionPasses(form, s)
    ensures marks == ErrorMarks(form, s)
    ensures forall g :: g in marks ==> g.section == s
  {
    ok, marks := true, {};
    var i := 0;
    while i < |form|
      invariant 0 <= i <= |form|
      invariant ok <==> forall j :: 0 <= j < i ==> !Fails(form, s, form[j])
      invariant marks == MarksAmong(form, s, form[..i])
    {
      var c := form[i];
      assert form[..i + 1] == form[..i] + [c];
      if c.required && c.section == s {
        var failed := false;
        match c.kind {
          case Radio => failed := !AnyChecked(form, s, c.name);
          case Checkbox => failed := !AnyChecked(form, s, c.name);
          case TextInput => failed := Trim(c.value) == "";
          case TextArea => failed := Trim(c.value) == "";
          case OtherControl =>
        }
        if failed {
          ok := false;
          if c.group.Some? {
            marks := marks + {GroupRef(s, c.group.value)};
          }
        }
      }
      i := i + 1;
    }
    assert form[..i] == form;
  }

  /** The `has-error` marks after validating page `s`: the page's old marks
      are cleared, those of other pages stay, and the failing groups are
      marked. */
  ghost function MarksAfter(before: set<GroupRef>, form: seq<Control>, s: nat): set<GroupRef> {
    (set g | g in before && g.section != s) + ErrorMarks(form, s)
  }

  /** A page with a mark after validation did not pass; when every
      required control of the page sits in a question group, the converse
      holds too, so a failing page always shows at least one mark. */
  lemma MarksIffInvalid(form: seq<Control>, s: nat)
    ensures ErrorMarks(form, s) != {} ==> !SectionPasses(form, s)
    ensures (forall i :: 0 <= i < |form| && form[i].required && form[i].section == s ==> form[i].group.Some?)
            ==> (!SectionPasses(form, s) ==> ErrorMarks(form, s) != {})
  {
    if (forall i :: 0 <= i < |form| && form[i].required && form[i].section == s ==> form[i].group.Some?)
       && !SectionPasses(form, s) {
      var i :| 0 <= i < |form| && Fails(form, s, form[i]);
      assert GroupRef(s, form[i].group.value) in ErrorMarks(form, s);
    }
    if ErrorMarks(form, s) != {} {
      var g :| g in ErrorMarks(form, s);
      var c :| c in form && Fails(form, s, c) && c.group.Some? && g == GroupRef(s, c.group.value);
      var i :| 0 <= i < |form| && form[i] == c;
    }
  }

  /** Validating the same page twice in a row leaves the same marks as
      validating it once. */
  lemma RevalidateIsStable(before: set<GroupRef>, form: seq<Control>, s: nat)
    ensures MarksAfter(MarksAfter(before, form, s), form, s) == MarksAfter(before, form, s)
  {
    var once := MarksAfter(before, form, s);
    assert forall g :: g in ErrorMarks(form, s) ==> g.section == s;
    assert (set g | g in once && g.section != s) == (set g | g in before && g.section != s);
  }

  /** An answer in one page never changes whether another page passes:
      only controls of page `s` are read when validating page `s`. */
  lemma OtherPagesDoNotMatter(form: seq<Control>, s: nat, i: nat, c: Control)
    requires i < |form| && form[i].section != s && c.section != s
    ensures SectionPasses(form, s) == SectionPasses(form[i := c], s)
    ensures ErrorMarks(form, s) == ErrorMarks(form[i := c], s)
  {
    var form' := form[i := c];
    forall n: string ensures AnyChecked(form, s, n) <==> AnyChecked(form', s, n) {
      if AnyChecked(form, s, n) {
        var j :| 0 <= j < |form| && form[j].section == s && form[j].name == n && IsChecked(form[j]);
        assert form'[j] == form[j];
      }
      if AnyChecked(form', s, n) {
        var j :| 0 <= j < |form'| && form'[j].section == s && form'[j].name == n && IsChecked(form'[j]);
        assert form'[j] == form[j];
      }
    }
    forall d: Control ensures Fails(form, s, d) <==> Fails(form', s, d) {}
    forall j | 0 <= j < |form| ensures !Fails(form, s, form[j]) <==> !Fails(form', s, form'[j]) {
      if j == i {
        assert !Fails(form, s, form[j]) && !Fails(form', s, form'[j]);
      }
    }
    forall g | g in ErrorMarks(form, s) ensures g in ErrorMarks(form', s) {
      var d :| d in form && Fails(form, s, d) && d.group.Some? && g == GroupRef(s, d.group.value);
      var j :| 0 <= j < |form| && form[j] == d;
      assert form'[j] == d;
    }
    forall g | g in ErrorMarks(form', s) ensures g in ErrorMarks(form, s) {
      var d :| d in form' && Fails(form', s, d) && d.group.Some? && g == GroupRef(s, d.group.value);
      var j :| 0 <= j < |form'| && form'[j] == d;
      assert form[j] == d;
    }
  }
}
