/** The new-habit form (src/components/HabitForm.tsx): its fields, the points clamp applied on
    every edit, and the submit handler that hands a draft to the page and resets the form. */
module HabitForm {
  import opened Types
  import opened Text

  /** The category choices of lines 12-20, in menu order. */
  const Categories: seq<string> := ["Health & Fitness", "Learning", "Productivity", "Social", "Hobbies", "Mindfulness", "Other"]

  /** The form's fields (lines 23-27). */
  datatype FormState = FormState(title: string, description: string, category: string,
                                 targetFrequency: Frequency, points: int)

  /** Lines 23-27 and 44-48: an empty title and description, the first category, daily, 10 points. */
  const InitialForm: FormState := FormState("", "", Categories[0], Daily, 10)

  /** Line 133: `Math.max(1, parseInt(value) || 1)`, where `parsed` is the result of `parseInt`
      and `None` stands for NaN. NaN and 0 are falsy and become 1; negatives are raised to 1. */
  function ClampPoints(parsed: Option<int>): (p: int)
    ensures p >= 1
    ensures parsed.Some? && parsed.value >= 1 ==> p == parsed.value
    ensures parsed.None? || parsed.value < 1 ==> p == 1
  {
    var orOne := if parsed.None? || parsed.value == 0 then 1 else parsed.value;
    if 1 >= orOne then 1 else orOne
  }

  /** A value above the input's `max` of 100 is kept: the handler enforces only the lower bound. */
  lemma ClampKeepsLargeValues(n: int)
    requires n > 100
    ensures ClampPoints(Some(n)) == n
  {
  }

  /** What the user can do to the fields before submitting. */
  datatype Edit =
    | SetTitle(title: string)
    | SetDescription(description: string)
    | SetCategory(category: string)
    | SetFrequency(frequency: Frequency)
    | SetPoints(parsed: Option<int>)

  /** The `onChange` handlers of the five inputs: each sets its own field and leaves the other
      four as they were; the points input never stores less than 1. */
  function ApplyEdit(form: FormState, edit: Edit): (r: FormState)
    ensures edit.SetTitle? ==> r == form.(title := edit.title)
    ensures edit.SetDescription? ==> r == form.(description := edit.description)
    ensures edit.SetCategory? ==> r == form.(category := edit.category)
    ensures edit.SetFrequency? ==> r == form.(targetFrequency := edit.frequency)
    ensures edit.SetPoints? ==> r == form.(points := ClampPoints(edit.parsed)) && r.points >= 1
    ensures !edit.SetPoints? ==> r.points == form.points
  {
    match edit
    case SetTitle(t) => form.(title := t)
    case SetDescription(d) => form.(description := d)
    case SetCategory(c) => form.(category := c)
    case SetFrequency(f) => form.(targetFrequency := f)
    case SetPoints(parsed) => form.(points := ClampPoints(parsed))
  }

  function ApplyEdits(form: FormState, edits: seq<Edit>): FormState
    decreases |edits|
  {
    if edits == [] then form else ApplyEdits(ApplyEdit(form, edits[0]), edits[1..])
  }

  /** Starting from the defaults, no sequence of edits brings the points below 1. */
  lemma {:induction false} PointsStayPositive(form: FormState, edits: seq<Edit>)
    requires form.points >= 1
    ensures ApplyEdits(form, edits).points >= 1
    decreases |edits|
  {
    if edits != [] {
      PointsStayPositive(ApplyEdit(form, edits[0]), edits[1..]);
    }
  }

  /** `handleSubmit` (lines 29-49): a title blank after trimming saves nothing and keeps the
      fields; otherwise the trimmed draft is saved, active and owned by the current user, and the
      fields are reset. */
  function HandleSubmit(form: FormState, currentUserId: string): (r: (Option<HabitDraft>, FormState))
    ensures r.0.None? <==> Trim(form.title) == []
    ensures r.0.None? ==> r.1 == form
    ensures r.0.Some? ==> r.1 == InitialForm
    ensures r.0.Some? ==> var d := r.0.value;
              && d.title == Trim(form.title) && d.description == Trim(form.description)
              && d.category == form.category && d.targetFrequency == form.targetFrequency
              && d.points == form.points && d.createdBy == currentUserId && d.isActive
  {
    if Trim(form.title) == [] then (None, form)
    else
      var draft := HabitDraft(Trim(form.title), Trim(form.description), form.category,
                              form.targetFrequency, form.points, currentUserId, true);
      (Some(draft), InitialForm)
  }

  /** A saved title is never blank and has nothing left to trim; a title of white space only is
      refused. */
  lemma {:induction false} SavedTitlesAreTrimmed(form: FormState, currentUserId: string)
    ensures var r := HandleSubmit(form, currentUserId);
            r.0.Some? ==> r.0.value.title != [] && Trim(r.0.value.title) == r.0.value.title
    ensures (forall k :: 0 <= k < |form.title| ==> IsSpace(form.title[k])) ==> HandleSubmit(form, currentUserId).0.None?
  {
    TrimIdempotent(form.title);
    TrimBlank(form.title);
  }

  /** Every form reached from the defaults by edits and submissions has at least 1 point, so every
      saved draft does too. */
  lemma {:induction false} SavedPointsArePositive(edits: seq<Edit>, currentUserId: string)
    ensures var r := HandleSubmit(ApplyEdits(InitialForm, edits), currentUserId);
            r.0.Some? ==> r.0.value.points >= 1
  {
    PointsStayPositive(InitialForm, edits);
  }
}
