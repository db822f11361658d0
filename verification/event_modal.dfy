/**
 * The create/edit modal (EventModal.jsx): the form it starts from, the pre-fill from the event
 * being edited, the save guard and the data it hands to the page, the delete button, and the
 * delete confirmation.
 */
module EventModal {
  import opened Wrappers
  import opened Text
  import opened ClientModel
  import EventStore

  /** The fields the user edits. */
  datatype Form = Form(title: string, startTime: string, endTime: string, description: string, color: string)

  /** The form of a freshly opened modal: everything empty, the colour green. */
  const InitialForm: Form := Form("", "", "", "", EventStore.DefaultColor)

  /** `value || fallback` for an optional string. */
  function OrElse(v: Option<string>, fallback: string): (r: string)
    ensures Truthy(v) ==> r == v.value
    ensures !Truthy(v) ==> r == fallback
  {
    if Truthy(v) then v.value else fallback
  }

  /**
   * The pre-fill effect: with nothing to edit the initial form stays; otherwise each field is
   * taken from the target when it has a truthy value and keeps its initial value (empty, or
   * green for the colour) when not. The slot placeholder has only its two times.
   */
  function Prefill(target: Option<EditTarget>): (f: Form)
    ensures target.None? ==> f == InitialForm
    ensures target.Some? && target.value.Slot? ==>
      f == InitialForm.(startTime := target.value.startTime, endTime := target.value.endTime)
  {
    match target
    case None => InitialForm
    case Some(Existing(e)) =>
      Form(e.title, OrElse(e.startTime, InitialForm.startTime), OrElse(e.endTime, InitialForm.endTime),
           OrElse(e.description, ""), OrElse(Some(e.color), EventStore.DefaultColor))
    case Some(Slot(s, t)) =>
      Form("", OrElse(Some(s), InitialForm.startTime), OrElse(Some(t), InitialForm.endTime), "", EventStore.DefaultColor)
  }

  /**
   * Editing an event pre-fills its title, its times and description (empty when it has none)
   * and its colour, falling back to green exactly when the event's colour is empty.
   */
  lemma PrefillOfEvent(e: ClientEvent)
    ensures var f := Prefill(Some(Existing(e)));
      && f.title == e.title
      && (e.startTime.Some? ==> f.startTime == e.startTime.value) && (e.startTime.None? ==> f.startTime == "")
      && (e.endTime.Some? ==> f.endTime == e.endTime.value) && (e.endTime.None? ==> f.endTime == "")
      && (e.description.Some? ==> f.description == e.description.value) && (e.description.None? ==> f.description == "")
      && (f.color == EventStore.DefaultColor <==> e.color == "" || e.color == EventStore.DefaultColor)
      && (e.color != "" ==> f.color == e.color)
  {
  }

  /** What a click on Save does: nothing, or hand the data to the page and close. */
  datatype SaveOutcome = KeepOpen | SubmitAndClose(data: EventData)

  /**
   * `handleSave`: a title that is empty after trimming keeps the modal open and sends nothing;
   * otherwise the data carries the title as typed, the times, description and colour of the
   * form, the target's id, and the target's day, or the selected day when creating.
   */
  function Save(form: Form, target: Option<EditTarget>, selectedDay: Option<int>): (r: SaveOutcome)
    ensures r.KeepOpen? <==> Blank(form.title)
    ensures r.SubmitAndClose? ==>
      && r.data.title == form.title
      && r.data.startTime == form.startTime && r.data.endTime == form.endTime
      && r.data.description == form.description && r.data.color == form.color
    ensures r.SubmitAndClose? && target.None? ==> r.data.id.None? && r.data.date == selectedDay
    ensures r.SubmitAndClose? && target.Some? && target.value.Existing? ==>
      r.data.id == Some(target.value.event.id) && r.data.date == Some(target.value.event.day)
    ensures r.SubmitAndClose? && target.Some? && target.value.Slot? ==> r.data.id.None? && r.data.date.None?
  {
    TrimEmptyIffBlank(form.title);
    if Trim(form.title) == "" then KeepOpen
    else
      SubmitAndClose(EventData(
        if target.Some? then TargetId(target.value) else None,
        form.title,
        if target.Some? then TargetDay(target.value) else selectedDay,
        form.startTime, form.endTime, form.description, form.color))
  }

  /** Only whitespace around the title is ignored by the guard, and it is still sent. */
  lemma TitleCheckedTrimmedSentAsTyped(form: Form, target: Option<EditTarget>, selectedDay: Option<int>)
    requires !Blank(form.title)
    ensures Save(form, target, selectedDay).SubmitAndClose?
    ensures Save(form, target, selectedDay).data.title == form.title
  {
  }

  /**
   * The save with the evident intent for the slot placeholder: a target without a day falls
   * back to the selected day, so the data always has a day when one is selected.
   */
  function SaveWithDayFallback(form: Form, target: Option<EditTarget>, selectedDay: Option<int>): (r: SaveOutcome)
    ensures r.KeepOpen? <==> Blank(form.title)
    ensures r.SubmitAndClose? && selectedDay.Some? ==> r.data.date.Some?
    ensures r.SubmitAndClose? && target.Some? && target.value.Slot? ==> r.data.id.None? && r.data.date == selectedDay
  {
    match Save(form, target, selectedDay)
    case KeepOpen => KeepOpen
    case SubmitAndClose(data) =>
      var day := if target.Some? && TargetDay(target.value).Some? then TargetDay(target.value) else selectedDay;
      SubmitAndClose(data.(date := day))
  }

  /** The fallback changes nothing for a target that has a day, or when creating. */
  lemma SaveWithDayFallbackAgrees(form: Form, target: Option<EditTarget>, selectedDay: Option<int>)
    requires target.None? || target.value.Existing?
    ensures SaveWithDayFallback(form, target, selectedDay) == Save(form, target, selectedDay)
  {
  }

  /** What a click on the confirmation's Delete does: nothing, or ask the page to delete and close. */
  datatype DeleteOutcome = NoDelete | DeleteAndClose(id: string)

  /** `handleDelete`: only a target with a (truthy) id is deleted. */
  function Delete(target: Option<EditTarget>): (r: DeleteOutcome)
    ensures r.DeleteAndClose? <==> target.Some? && target.value.Existing? && target.value.event.id != ""
    ensures r.DeleteAndClose? ==> r.id == target.value.event.id
  {
    if target.Some? && Truthy(TargetId(target.value)) then DeleteAndClose(TargetId(target.value).value)
    else NoDelete
  }

  /** Which of the modal's two screens shows: the form, or the delete confirmation over it. */
  datatype Screen = FormScreen | ConfirmScreen

  /** The trash button, shown only when editing, opens the confirmation. */
  function TrashClick(screen: Screen, target: Option<EditTarget>): (r: Screen)
    ensures target.Some? ==> r == ConfirmScreen
    ensures target.None? ==> r == screen
  {
    if target.Some? then ConfirmScreen else screen
  }

  /** The confirmation's Cancel returns to the form. */
  function CancelDelete(screen: Screen): (r: Screen)
    ensures r == FormScreen
  {
    FormScreen
  }

  /** When editing, opening the confirmation and cancelling it returns to the form without deleting. */
  lemma TrashThenCancel(target: Option<EditTarget>)
    requires target.Some?
    ensures TrashClick(FormScreen, target) == ConfirmScreen
    ensures CancelDelete(TrashClick(FormScreen, target)) == FormScreen
  {
  }
}
