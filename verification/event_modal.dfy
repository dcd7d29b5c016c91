/** The day modal's form as a state machine: the list view, adding a new
    event, and editing an existing one, with the save, edit, delete, cancel
    and close transitions. The callbacks the modal invokes are returned as
    values. */
module EventModal {
  import opened Wrappers
  import opened Events

  /** The modal's state: whether the form is shown, the event being edited
      (if any), and the form fields. */
  datatype Form = Form(
    isAdding: bool,
    editing: Option<Event>,
    title: string,
    time: string,
    notes: string,
    notificationEnabled: bool,
    color: string)

  /** A call the modal makes to the page. */
  datatype Callback = AddCall(event: Event) | UpdateCall(event: Event) | DeleteCall(id: string)

  datatype ModalToast = SuccessToast(message: string) | ErrorToast(message: string)

  /** The result of a transition that may call back to the page. */
  datatype Step = Step(form: Form, call: Option<Callback>, toast: ModalToast)

  /** The list view with every field at its default. */
  function Initial(): Form {
    Form(false, None, "", "", "", false, DefaultColor)
  }

  /** `resetForm`: the fields return to their defaults; the mode is untouched. */
  function ResetForm(f: Form): (r: Form)
    ensures r == Initial().(isAdding := f.isAdding, editing := f.editing)
  {
    f.(title := "", time := "", notes := "", notificationEnabled := false, color := DefaultColor)
  }

  /** "Add Event": show the form, as it is. */
  function StartAdding(f: Form): (r: Form)
    ensures r.isAdding && r.editing == f.editing
    ensures r.title == f.title && r.time == f.time && r.notes == f.notes
    ensures r.notificationEnabled == f.notificationEnabled && r.color == f.color
  {
    f.(isAdding := true)
  }

  /** `handleSave`. `selectedIso` is `selectedDate.toISOString()` (`None` when
      no date is selected) and `clockId` is `Date.now().toString()`. A missing
      title, time or date changes nothing and calls nothing. Otherwise the
      event keeps the edited event's id (unless that id is empty), is sent to
      `onUpdateEvent` when editing and to `onAddEvent` otherwise, and the form
      returns to the list view at its defaults. */
  function Save(f: Form, selectedIso: Option<string>, clockId: string): (r: Step)
    ensures f.title == "" || f.time == "" || selectedIso.None? ==>
      r.form == f && r.call.None? && r.toast.ErrorToast?
    ensures f.title != "" && f.time != "" && selectedIso.Some? ==>
      && r.form == Initial() && r.toast.SuccessToast?
      && r.call.Some? && !r.call.value.DeleteCall?
      && (r.call.value.UpdateCall? <==> f.editing.Some?)
      && r.call.value.event.title == f.title && r.call.value.event.time == f.time
      && r.call.value.event.date == selectedIso.value
      && r.call.value.event.notes == Some(f.notes)
      && r.call.value.event.notificationEnabled == f.notificationEnabled
      && r.call.value.event.color == Some(f.color)
      && r.call.value.event.id == (if f.editing.Some? && f.editing.value.id != "" then f.editing.value.id else clockId)
  {
    if f.title == "" || f.time == "" || selectedIso.None? then
      Step(f, None, ErrorToast("Please fill in all required fields"))
    else
      var id := if f.editing.Some? && f.editing.value.id != "" then f.editing.value.id else clockId;
      var e := Event(id, f.title, selectedIso.value, f.time, Some(f.notes), f.notificationEnabled, None, Some(f.color));
      if f.editing.Some? then Step(Initial(), Some(UpdateCall(e)), SuccessToast("Event updated successfully"))
      else Step(Initial(), Some(AddCall(e)), SuccessToast("Event added successfully"))
  }

  /** `handleEdit`: load the event into the form and show it. */
  function Edit(f: Form, e: Event): (r: Form)
    ensures r.isAdding && r.editing == Some(e)
    ensures r.title == e.title && r.time == e.time && r.notificationEnabled == e.notificationEnabled
    ensures r.notes == e.notes.GetOr("") && r.color == ColorOrDefault(e.color)
  {
    Form(true, Some(e), e.title, e.time, e.notes.GetOr(""), e.notificationEnabled, ColorOrDefault(e.color))
  }

  /** `handleDelete`: forward the id; the form is untouched. */
  function Delete(f: Form, id: string): (r: Step)
    ensures r.form == f && r.call == Some(DeleteCall(id))
  {
    Step(f, Some(DeleteCall(id)), SuccessToast("Event deleted successfully"))
  }

  /** The Cancel button: back to the list view at the defaults. */
  function Cancel(f: Form): (r: Form)
    ensures r == ResetForm(f).(isAdding := false, editing := None)
  {
    Initial()
  }

  /** The effect on `isOpen`: closing resets the form; opening keeps it. */
  function OpenChanged(f: Form, isOpen: bool): (r: Form)
    ensures !isOpen ==> r == Cancel(f)
    ensures isOpen ==> r == f
  {
    if isOpen then f else ResetForm(f).(isAdding := false, editing := None)
  }

  /** Whatever state the form is in, closing and cancelling reach the same
      state, and it is the initial one. */
  lemma CloseIsCancel(f: Form)
    ensures OpenChanged(f, false) == Cancel(f) == Initial()
    ensures ResetForm(ResetForm(f)) == ResetForm(f)
  {
  }

  /** Editing an event and saving it unchanged updates that same event: same
      id, title, time and flag, its notes and colour with their defaults
      filled in, the selected date, and no category. */
  lemma EditThenSave(f: Form, e: Event, iso: string, clockId: string)
    requires e.title != "" && e.time != "" && e.id != ""
    ensures Save(Edit(f, e), Some(iso), clockId).call
      == Some(UpdateCall(e.(date := iso, notes := Some(e.notes.GetOr("")), category := None,
                            color := Some(ColorOrDefault(e.color)))))
  {
  }

  /** A saved event never has an empty title or time. */
  lemma SavedEventComplete(f: Form, selectedIso: Option<string>, clockId: string)
    ensures var r := Save(f, selectedIso, clockId);
      r.call.Some? && (r.call.value.AddCall? || r.call.value.UpdateCall?) ==>
        r.call.value.event.title != "" && r.call.value.event.time != ""
  {
  }

  /** Saving from a fresh "Add Event" form adds a new event under the clock id. */
  lemma AddFromFreshForm(title: string, time: string, iso: string, clockId: string)
    requires title != "" && time != ""
    ensures var f := StartAdding(Initial()).(title := title, time := time);
      Save(f, Some(iso), clockId).call
        == Some(AddCall(Event(clockId, title, iso, time, Some(""), false, None, Some(DefaultColor))))
  {
  }
}
