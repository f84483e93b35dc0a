/** The shapes of src/lib/types.ts. */
module Types {
  import opened Wrappers
  import opened Calendar

  /** A stored range of a meeting: two instants, kept as ISO-8601 `Z` strings by the source. */
  datatype DateRange = DateRange(startTime: Instant, endTime: Instant)

  /** A participant; `availableSlots` is optional in the source type. */
  datatype Participant = Participant(id: string, name: string, availableSlots: Option<seq<string>>)

  /**
   * A meeting. Every field may be `null`; the two optional fields
   * `resultTimeSlots` and `participants` use `None` for both absent and `null`.
   */
  datatype Meeting = Meeting(
    id: Option<string>,
    title: Option<string>,
    description: Option<string>,
    dates: Option<seq<DateRange>>,
    resultTimeSlots: Option<seq<string>>,
    participants: Option<seq<Participant>>)

  /** The slot list of a participant, `availableSlots || []`. */
  function SlotsOf(p: Participant): seq<string> {
    match p.availableSlots
    case Some(s) => s
    case None => []
  }
}
