/** The listing record shared by the extractor and the browser client. */
module Events {
  import opened Wrappers

  /**
   * One theatre listing. A field that is missing (or null) in the JSON
   * snapshot is None; the dates are `YYYY-MM-DD` text when present.
   */
  datatype Event = Event(
    title: Option<string>,
    venue: Option<string>,
    city: Option<string>,
    startDate: Option<string>,
    endDate: Option<string>,
    times: seq<string>,
    url: Option<string>,
    image: Option<string>,
    source: Option<string>,
    category: Option<string>)
}
