/**
 * The page-by-page wizard of script.js: the `currentSection` counter, the
 * Next and Previous handlers, the button visibility of
 * `updateNavigationButtons`, and the submit handler's validation gate.
 */
module Wizard {
  import opened Common
  import opened Form
  import opened Validation
  import opened Payload

  /** `CONFIG.totalSections` */
  const ConfigTotalSections: nat := 7

  /** Which navigation buttons have `display: block`. */
  datatype NavButtons = NavButtons(prevShown: bool, nextShown: bool, submitShown: bool)

  /** `updateNavigationButtons` for a given counter: exactly one of Next
      and Submit is on view, Submit on the last page only, and Previous
      everywhere but the first page. */
  function Buttons(current: int, total: int): (b: NavButtons)
    ensures b.nextShown != b.submitShown
    ensures b.submitShown <==> current == total
    ensures !b.prevShown <==> current == 1
  {
    NavButtons(current != 1, current != total, current == total)
  }

  /** The body the submit handler hands to `submitToGoogleSheets`. */
  datatype Submission = Submission(timestamp: string, responses: map<string, Value>)

  class SurveyWizard {
    const totalSections: nat
    /** The page on view (`currentSection`). */
    var currentSection: nat
    /** The question groups that carry the `has-error` class. */
    var hasError: set<GroupRef>

    ghost predicate Valid()
      reads this
    {
      1 <= currentSection <= totalSections
    }

    /** The page as loaded: page 1 on view, no error marks. */
    constructor (totalSections: nat)
      requires totalSections >= 1
      ensures Valid()
      ensures this.totalSections == totalSections && currentSection == 1 && hasError == {}
    {
      this.totalSections := totalSections;
      currentSection := 1;
      hasError := {};
    }

    /** `nextSection`: one page forward unless on the last page. The move
        is a no-op exactly when the submit button was the one on view. */
    method NextSection()
      requires Valid()
      modifies this`currentSection
      ensures Valid()
      ensures currentSection == if old(currentSection) < totalSections then old(currentSection) + 1
                                else old(currentSection)
      ensures Buttons(old(currentSection), totalSections).submitShown <==> currentSection == old(currentSection)
    {
      if currentSection < totalSections {
        currentSection := currentSection + 1;
      }
    }

    /** `previousSection`: one page back unless on the first page. The move
        happens exactly when the previous button was on view. */
    method PreviousSection()
      requires Valid()
      modifies this`currentSection
      ensures Valid()
      ensures currentSection == if old(currentSection) > 1 then old(currentSection) - 1
                                else old(currentSection)
      ensures Buttons(old(currentSection), totalSections).prevShown <==> currentSection == old(currentSection) - 1
    {
      if currentSection > 1 {
        currentSection := currentSection - 1;
      }
    }

    /** `validateCurrentSection`: clears the page's marks, marks every
        group holding a failing required control, and reports whether the
        page passes. The form itself is only read. */
    method ValidateCurrentSection(form: seq<Control>) returns (ok: bool)
      modifies this`hasError
      ensures ok == SectionPasses(form, currentSection)
      ensures hasError == MarksAfter(old(hasError), form, currentSection)
    {
      var marks;
      ok, marks := CheckSection(form, currentSection);
      hasError := (set g | g in hasError && g.section != currentSection) + marks;
    }

    /** The Next button: the page moves on only when it validates. */
    method ClickNext(form: seq<Control>) returns (ok: bool)
      requires Valid()
      modifies this`currentSection, this`hasError
      ensures Valid()
      ensures ok == SectionPasses(form, old(currentSection))
      ensures !ok ==> currentSection == old(currentSection)
      ensures ok ==> currentSection == if old(currentSection) < totalSections then old(currentSection) + 1
                                       else old(currentSection)
      ensures hasError == MarksAfter(old(hasError), form, old(currentSection))
    {
      ok := ValidateCurrentSection(form);
      if ok {
        NextSection();
      }
    }

    /** The Previous button: no validation, marks untouched. */
    method ClickPrevious()
      requires Valid()
      modifies this`currentSection
      ensures Valid()
      ensures currentSection == if old(currentSection) > 1 then old(currentSection) - 1
                                else old(currentSection)
    {
      PreviousSection();
    }

    /** The form's submit handler: it validates the page on view and, when
        that passes, sends the responses built from the whole form.
        `timestamp` stands for `new Date().toISOString()`. */
    method Submit(form: seq<Control>, timestamp: string) returns (sent: Option<Submission>)
      modifies this`hasError
      ensures sent.Some? <==> SectionPasses(form, currentSection)
      ensures sent.Some? ==> sent.value == Submission(timestamp, Responses(form))
      ensures hasError == MarksAfter(old(hasError), form, currentSection)
    {
      var ok := ValidateCurrentSection(form);
      if !ok {
        return None;
      }
      var responses := CollectResponses(FormEntries(form));
      responses := FlattenCheckboxGroups(form, responses);
      sent := Some(Submission(timestamp, responses));
    }
  }

  /** Page 1 with one required radio question left unanswered: Next stays
      on page 1 and exactly that question's group is marked. */
  method UnansweredRadioScenario()
  {
    var w := new SurveyWizard(ConfigTotalSections);
    var daily := Control(Radio, "q1_usage_level", "daily", false, true, 1, Some(0));
    var weekly := Control(Radio, "q1_usage_level", "weekly", false, false, 1, Some(0));
    var form := [daily, weekly];
    var ok := w.ClickNext(form);
    assert !IsChecked(form[0]) && !IsChecked(form[1]);
    assert Fails(form, 1, daily) && !Fails(form, 1, weekly);
    assert !ok && w.currentSection == 1;
    assert ErrorMarks(form, 1) == {GroupRef(1, 0)} by {
      assert daily in form;
      assert forall c :: c in form ==> c == daily || c == weekly;
    }
    assert w.hasError == {GroupRef(1, 0)};
  }
}
