/**
 * The entities of src/App.jsx: the five fields of an event or of the form,
 * and the event objects that the store holds.
 */
module EventModel {
  import opened Wrappers

  /** The key of one day in the store ("YYYY-MM-DD" in the app); treated as an opaque string. */
  type DayKey = string

  /**
   * The fields of an event, and equally of the form, which is copied field by
   * field into and out of events. `kind` is the event's `type` field (unset is "").
   * A description may be absent (None) in an event read back from storage.
   */
  datatype EventData = EventData(
    name: string,
    startTime: string,
    endTime: string,
    description: Option<string>,
    kind: string)

  /** The form after it is cleared. */
  const EmptyForm := EventData("", "", "", Some(""), "")

  /**
   * An event object. The app compares events with `===`, that is by reference,
   * so an event is an object here too; its fields never change once it exists.
   */
  class Event {
    const data: EventData

    /** `{ ...eventForm }`: a new object holding a copy of the form's fields. */
    constructor (data: EventData)
      ensures this.data == data
    {
      this.data := data;
    }
  }
}
