/** The records the application stores and displays. */
module Types {

  /** The raw material a memory was generated from. */
  datatype RawAssets = RawAssets(text: string, images: seq<string>)

  /** One timeline entry. `date` is the instant the entry's ISO date string
      denotes, in milliseconds since the epoch. */
  datatype MemoryItem = MemoryItem(
    id: string,
    date: int,
    dayIndex: int,
    rawAssets: RawAssets,
    generatedHtml: string,
    createdAt: int)

  /** How long the couple has been together, split into a 365/30-day calendar. */
  datatype DayStats = DayStats(daysTogether: int, years: int, months: int, days: int)

  /** A thrown JavaScript error: its `name` and `message`. */
  datatype JsError = JsError(name: string, message: string)
  {
    /** `Error.prototype.toString`, which is what `${e}` renders. */
    function ToString(): string {
      if name == "" then message
      else if message == "" then name
      else name + ": " + message
    }
  }
}
