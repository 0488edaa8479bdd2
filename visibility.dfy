/**
 * The `change` handlers of `initConditionalLogic` (script.js): question
 * 10b shows when question 10 is answered "yes_failed", question 13b when
 * question 13 is answered "1" or "2".
 */
module Visibility {

  /** The two conditional rules. */
  datatype Rule = Q10b | Q13b

  /** A `change` event on a radio: its `value` and `checked` state. */
  datatype Change = Change(value: string, checked: bool)

  /** Whether `display` of each dependent container is `block`. */
  datatype Shown = Shown(q10b: bool, q13b: bool)

  /** The answers for which the rule shows its dependent question. */
  predicate Shows(rule: Rule, value: string) {
    match rule
    case Q10b => value == "yes_failed"
    case Q13b => value == "1" || value == "2"
  }

  /** One handler run: a checked event decides visibility from its value,
      an unchecked one leaves it as it was. */
  function OnChange(rule: Rule, visible: bool, e: Change): (v: bool)
    ensures e.checked ==> (v <==> Shows(rule, e.value))
    ensures !e.checked ==> v == visible
  {
    if Shows(rule, e.value) && e.checked then true
    else if e.checked then false
    else visible
  }

  /** The handler run on each event in turn. */
  function Replay(rule: Rule, visible: bool, events: seq<Change>): bool
    decreases |events|
  {
    if events == [] then visible
    else OnChange(rule, Replay(rule, visible, events[..|events| - 1]), events[|events| - 1])
  }

  /** Repeating an event changes nothing further. */
  lemma OnChangeIdempotent(rule: Rule, visible: bool, e: Change)
    ensures OnChange(rule, OnChange(rule, visible, e), e) == OnChange(rule, visible, e)
  {
  }

  /** After any run of events the dependent question is shown exactly when
      the last checked event's value is in the rule's allow-set; with no
      checked event, visibility is what it was. */
  lemma {:induction false} ReplayFollowsLastChecked(rule: Rule, visible: bool, events: seq<Change>)
    ensures (forall i :: 0 <= i < |events| ==> !events[i].checked) ==> Replay(rule, visible, events) == visible
    ensures forall i :: 0 <= i < |events| && events[i].checked
                        && (forall j :: i < j < |events| ==> !events[j].checked)
                        ==> (Replay(rule, visible, events) <==> Shows(rule, events[i].value))
    decreases |events|
  {
    if events != [] {
      var n := |events| - 1;
      var init := events[..n];
      ReplayFollowsLastChecked(rule, visible, init);
      assert Replay(rule, visible, events) == OnChange(rule, Replay(rule, visible, init), events[n]);
      if !events[n].checked {
        forall i | 0 <= i < n ensures init[i] == events[i] {}
      } else {
        forall i | 0 <= i < n && events[i].checked
          ensures exists j :: i < j < |events| && events[j].checked
        {
          assert i < n < |events| && events[n].checked;
        }
      }
    }
  }

  /** The whole page's handlers: an event on a `q10_tried_ai` radio drives
      rule 10b, one on a `q13_excitement` radio drives rule 13b, and any
      other input has no handler. */
  function OnInputChange(shown: Shown, name: string, e: Change): (r: Shown)
    ensures name == "q10_tried_ai" && e.checked ==> (r.q10b <==> e.value == "yes_failed")
    ensures name == "q13_excitement" && e.checked ==> (r.q13b <==> e.value == "1" || e.value == "2")
    ensures !e.checked ==> r == shown
  {
    if name == "q10_tried_ai" then shown.(q10b := OnChange(Q10b, shown.q10b, e))
    else if name == "q13_excitement" then shown.(q13b := OnChange(Q13b, shown.q13b, e))
    else shown
  }

  /** The two rules are independent: an event for one question never
      moves the other question's container. */
  lemma RulesIndependent(shown: Shown, name: string, e: Change)
    ensures name != "q10_tried_ai" ==> OnInputChange(shown, name, e).q10b == shown.q10b
    ensures name != "q13_excitement" ==> OnInputChange(shown, name, e).q13b == shown.q13b
  {
  }
}
