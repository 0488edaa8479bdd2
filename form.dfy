/**
 * The survey page as the client code sees it: the form's controls in
 * document order, each with the attributes the validator, the conditional
 * rules and `FormData` read from it.
 */
module Form {
  import opened Common

  /** `input.type` for an `<input>`, or the `TEXTAREA` tag; anything else
      the code does not distinguish (a select, an email input, ...). */
  datatype Kind = Radio | Checkbox | TextInput | TextArea | OtherControl

  /** One control. `section` is the `data-section` number of the page that
      holds it; `group` is the position, inside that page, of its closest
      `.question-group` ancestor (None when it has none). `checked` is the
      checkedness of a radio or checkbox and is not read for other kinds. */
  datatype Control = Control(
    kind: Kind,
    name: string,
    value: string,
    checked: bool,
    required: bool,
    section: nat,
    group: Option<nat>)

  /** A question group, named by its page and its position on that page:
      the elements that carry the `has-error` class. */
  datatype GroupRef = GroupRef(section: nat, index: nat)

  predicate IsChoice(c: Control) {
    c.kind == Radio || c.kind == Checkbox
  }

  /** A radio or checkbox that is checked (the `:checked` pseudo-class). */
  predicate IsChecked(c: Control) {
    IsChoice(c) && c.checked
  }
}
