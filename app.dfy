/** The requirement form page: the cached list of requirements, the six-field
    form, the loading and success flags and the colour theme, changed by the
    page's event handlers. Requests and their answers are parameters and
    results of the handlers: the page itself performs no I/O here. */
module App {
  import opened Records

  /** How the `POST` of the form ended: an ok response (`Accepted`), a response that is
      not ok (`Rejected`), or an exception thrown by `fetch`. */
  datatype SubmitOutcome = Accepted | Rejected | Threw

  const DARK: string := "dark"
  const LIGHT: string := "light"

  /** The form with each of the six fields empty. */
  function EmptyForm(): (form: Fields)
    ensures form.Keys == set k | k in FORM_FIELDS
    ensures forall k :: k in form ==> form[k] == ""
  {
    map["attribute" := "", "description" := "", "domain" := "",
        "source_system" := "", "source_entity" := "", "responsible_analyst" := ""]
  }

  /** Every one of the six inputs holds a non-empty value: the browser's
      check of the `required` attribute before it fires `onSubmit`. */
  predicate Complete(form: Fields)
  {
    forall k :: k in FORM_FIELDS ==> Get(form, k) != ""
  }

  /** The form emptied after an ok response cannot be submitted again
      until the user fills in its fields. */
  lemma EmptyFormIncomplete()
    ensures !Complete(EmptyForm())
  {
    assert Get(EmptyForm(), "attribute") == "";
  }

  /** `{ ...formData, [name]: value }`: the named input takes the new value
      (added if the form had no such key), every other key keeps its value. */
  function WithField(form: Fields, name: string, value: string): (form': Fields)
    ensures form'.Keys == form.Keys + {name}
    ensures form'[name] == value
    ensures forall k :: k in form && k != name ==> form'[k] == form[k]
  {
    form[name := value]
  }

  /** The theme after a toggle: dark becomes light, anything else becomes dark. */
  function Toggled(theme: string): (theme': string)
    ensures theme' == DARK || theme' == LIGHT
    ensures theme' == LIGHT <==> theme == DARK
  {
    if theme == DARK then LIGHT else DARK
  }

  /** `localStorage.getItem('theme') || 'dark'`: the saved theme if it is truthy. */
  function InitialTheme(saved: Option<string>): (theme: string)
    ensures theme != ""
    ensures saved.Some? && saved.value != "" ==> theme == saved.value
    ensures saved.None? || saved.value == "" ==> theme == DARK
  {
    if saved.Some? && saved.value != "" then saved.value else DARK
  }

  /** Toggling twice restores either of the two themes. */
  lemma ToggleTwice(theme: string)
    requires theme == DARK || theme == LIGHT
    ensures Toggled(Toggled(theme)) == theme
  {
  }

  /** `requirements.filter(req => req.id !== id)`. */
  function WithoutId(reqs: seq<Requirement>, id: int): (kept: seq<Requirement>)
    ensures |kept| <= |reqs|
    ensures forall i :: 0 <= i < |kept| ==> kept[i].id != id
  {
    if |reqs| == 0 then []
    else (if reqs[0].id != id then [reqs[0]] else []) + WithoutId(reqs[1..], id)
  }

  /** The filter keeps exactly the records whose id differs. */
  lemma {:induction false} WithoutIdMembers(reqs: seq<Requirement>, id: int)
    ensures forall r :: r in WithoutId(reqs, id) <==> r in reqs && r.id != id
    ensures |WithoutId(reqs, id)| <= |reqs|
  {
    if |reqs| > 0 {
      WithoutIdMembers(reqs[1..], id);
      assert reqs == [reqs[0]] + reqs[1..];
    }
  }

  /** The filter works piece by piece, so the kept records stay in their
      original relative order. */
  lemma {:induction false} WithoutIdAppend(a: seq<Requirement>, b: seq<Requirement>, id: int)
    ensures WithoutId(a + b, id) == WithoutId(a, id) + WithoutId(b, id)
  {
    if |a| > 0 {
      WithoutIdAppend(a[1..], b, id);
      assert (a + b)[1..] == a[1..] + b;
    } else {
      assert a + b == b;
    }
  }

  /** Deleting an id no record has leaves the list as it was. */
  lemma {:induction false} WithoutAbsentId(reqs: seq<Requirement>, id: int)
    requires forall r :: r in reqs ==> r.id != id
    ensures WithoutId(reqs, id) == reqs
  {
    if |reqs| > 0 {
      WithoutAbsentId(reqs[1..], id);
      assert reqs == [reqs[0]] + reqs[1..];
    }
  }

  /** Deleting the same id again changes nothing. */
  lemma WithoutIdIdempotent(reqs: seq<Requirement>, id: int)
    ensures WithoutId(WithoutId(reqs, id), id) == WithoutId(reqs, id)
  {
    WithoutIdMembers(reqs, id);
    WithoutAbsentId(WithoutId(reqs, id), id);
  }

  class AppState {
    var requirements: seq<Requirement>
    var formData: Fields
    var loading: bool
    var success: bool
    var theme: string

    /** The state on first render, given what local storage holds under `theme`. */
    constructor (savedTheme: Option<string>)
      ensures requirements == [] && formData == EmptyForm()
      ensures !loading && !success
      ensures theme == InitialTheme(savedTheme)
    {
      requirements := [];
      formData := EmptyForm();
      loading := false;
      success := false;
      theme := InitialTheme(savedTheme);
    }

    /** The submit button is disabled while a submission is in flight. */
    function SubmitEnabled(): (enabled: bool)
      reads this
      ensures enabled <==> !loading
    {
      !loading
    }

    method ToggleTheme()
      modifies this
      ensures theme == Toggled(old(theme))
      ensures requirements == old(requirements) && formData == old(formData)
      ensures loading == old(loading) && success == old(success)
    {
      theme := Toggled(theme);
    }

    /** The answer to `GET /requirements` arrives: the list is replaced by the
        fetched one, or kept when the fetch failed. */
    method FetchRequirements(fetched: Option<seq<Requirement>>)
      modifies this
      ensures requirements == if fetched.Some? then fetched.value else old(requirements)
      ensures formData == old(formData) && theme == old(theme)
      ensures loading == old(loading) && success == old(success)
    {
      if fetched.Some? {
        requirements := fetched.value;
      }
    }

    /** First half of `handleSubmit`: `loading` is set and the form, as it
        stands, is returned as the body of the `POST`. Every input is
        `required` and the button is disabled while `loading`, so the browser
        submits the form only when no field is empty and no submission is in
        flight; once started, no second submission can start before this one
        settles. */
    method SubmitStart() returns (body: Fields)
      requires Complete(formData) && SubmitEnabled()
      modifies this
      ensures body == formData && loading && !SubmitEnabled()
      ensures requirements == old(requirements) && formData == old(formData)
      ensures success == old(success) && theme == old(theme)
    {
      loading := true;
      body := formData;
    }

    /** Second half of `handleSubmit`, when the `POST` has settled. On an ok
        response the form is emptied, `success` is set and a re-fetch of the
        list is issued (`refetch`); otherwise the form and the list are kept.
        Whatever the outcome, `loading` is cleared. */
    method SubmitSettle(outcome: SubmitOutcome) returns (refetch: bool)
      modifies this
      ensures refetch <==> outcome == Accepted
      ensures !loading && SubmitEnabled()
      ensures formData == if outcome == Accepted then EmptyForm() else old(formData)
      ensures success == (outcome == Accepted || old(success))
      ensures requirements == old(requirements) && theme == old(theme)
    {
      refetch := false;
      if outcome == Accepted {
        formData := EmptyForm();
        success := true;
        refetch := true;
      }
      loading := false;
    }

    /** The timer set on a successful submit fires and hides the message. */
    method SuccessTimeout()
      modifies this
      ensures !success
      ensures requirements == old(requirements) && formData == old(formData)
      ensures loading == old(loading) && theme == old(theme)
    {
      success := false;
    }

    /** Removes the records with this id from the cached list only; no
        request is made, so the server still holds the record. */
    method HandleDelete(id: int)
      modifies this
      ensures requirements == WithoutId(old(requirements), id)
      ensures forall r :: r in requirements <==> r in old(requirements) && r.id != id
      ensures formData == old(formData) && theme == old(theme)
      ensures loading == old(loading) && success == old(success)
    {
      WithoutIdMembers(requirements, id);
      requirements := WithoutId(requirements, id);
    }

    /** An input changed: only the named key of the form takes the new value. */
    method HandleChange(name: string, value: string)
      modifies this
      ensures formData == WithField(old(formData), name, value)
      ensures requirements == old(requirements) && theme == old(theme)
      ensures loading == old(loading) && success == old(success)
    {
      formData := formData[name := value];
    }
  }

  /** `handleSubmit` when no other event comes between its two halves: the
      form as it stood is posted; an ok response brings the form back to its
      initial, empty state, any other outcome keeps the user's input; the
      button is enabled again either way. */
  method HandleSubmit(app: AppState, outcome: SubmitOutcome) returns (body: Fields, refetch: bool)
    requires Complete(app.formData) && app.SubmitEnabled()
    modifies app
    ensures body == old(app.formData)
    ensures app.formData == if outcome == Accepted then EmptyForm() else old(app.formData)
    ensures !app.loading && refetch == (outcome == Accepted)
    ensures app.success == (outcome == Accepted || old(app.success))
    ensures app.requirements == old(app.requirements) && app.theme == old(app.theme)
  {
    body := app.SubmitStart();
    refetch := app.SubmitSettle(outcome);
  }
}
