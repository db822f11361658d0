/**
 * The values the calendar page passes between its components: the normalised event list,
 * what the edit modal is opened on, the page's modal state, and the form data the modal
 * hands back on save.
 */
module ClientModel {
  import opened Wrappers
  import opened CivilDate

  /**
   * An event as the page keeps it: the server document with its id, the day of the month
   * (`date`, used by the month grid) and the whole date (`fullDate`, used everywhere else).
   */
  datatype ClientEvent = ClientEvent(
    id: string,
    title: string,
    day: int,
    startTime: Option<string>,
    endTime: Option<string>,
    description: Option<string>,
    color: string,
    fullDate: Date,
    roomId: Option<int>)

  /** The day of the month agrees with the full date, as normalisation makes it. */
  predicate Coherent(e: ClientEvent) {
    Valid(e.fullDate) && e.day == e.fullDate.day
  }

  /**
   * What `eventToEdit` can hold: an event of the list, or the placeholder an empty hour slot
   * of the day view opens the modal with (it has only a start and an end time).
   */
  datatype EditTarget = Existing(event: ClientEvent) | Slot(startTime: string, endTime: string)

  /** The page state the click handlers set: whether the modal shows, the selected day, the event to edit. */
  datatype UiState = UiState(showModal: bool, selectedDay: Option<int>, eventToEdit: Option<EditTarget>)

  /**
   * The object the modal hands to the page on save. `id` is absent in create mode; `date` is a
   * day of the month, or absent when the modal was opened on a target without one.
   */
  datatype EventData = EventData(
    id: Option<string>,
    title: string,
    date: Option<int>,
    startTime: string,
    endTime: string,
    description: string,
    color: string)

  /** The id of an edit target (`eventToEdit.id`), absent for the slot placeholder. */
  function TargetId(t: EditTarget): Option<string> {
    match t
    case Existing(e) => Some(e.id)
    case Slot(_, _) => None
  }

  /** The day of an edit target (`eventToEdit.date`), absent for the slot placeholder. */
  function TargetDay(t: EditTarget): Option<int> {
    match t
    case Existing(e) => Some(e.day)
    case Slot(_, _) => None
  }

  /**
   * An add button: the day of the month of `shown` is selected and the modal opens; the edit
   * target is left as it was. The header's "Add Event" passes the current date, the week
   * view's "+ Add Event" the column's date.
   */
  function AddClick(ui: UiState, shown: Date): (r: UiState)
    ensures r.showModal && r.selectedDay == Some(shown.day) && r.eventToEdit == ui.eventToEdit
  {
    ui.(showModal := true, selectedDay := Some(shown.day))
  }
}
