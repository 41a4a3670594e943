/**
 * The state of the browser client (`app.js`): the module-level `allEvents`
 * that `loadEvents` reassigns, the option lists it puts in the three select
 * boxes, and the list `applyFilters` last handed to `render`.
 */
module Client {
  import opened Wrappers
  import opened Text
  import opened Sorting
  import opened Events
  import opened ClientFilter

  /** What the read endpoint gave `loadEvents`. */
  datatype Payload =
    | LoadFailed
      /** `events` is None when `data.events` is not an array. */
    | Loaded(generatedAt: Option<string>, events: Option<seq<Event>>)

  /** The status line. */
  datatype Status = Loading | LoadedCount(n: nat) | NoDataYet

  /** Options that are strictly ascending and non-empty. */
  predicate WellFormedOptions(options: seq<string>) {
    (forall i, j :: 0 <= i < j < |options| ==> StrLess(options[i], options[j]))
    && "" !in options
  }

  class ClientState {
    var allEvents: seq<Event>
    var sources: seq<string>
    var categories: seq<string>
    var cities: seq<string>
    /** The events last rendered as cards. */
    var visible: seq<Event>
    /** The text of "last refresh": the snapshot's `generatedAt`, or None for "Not yet". */
    var lastRefresh: Option<string>
    var status: Status

    /**
     * What the client keeps true: it only ever shows events it holds, and
     * the select boxes list distinct, sorted, non-empty values.
     */
    ghost predicate Valid()
      reads this
    {
      multiset(visible) <= multiset(allEvents)
      && WellFormedOptions(sources) && WellFormedOptions(categories) && WellFormedOptions(cities)
    }

    constructor ()
      ensures Valid()
      ensures allEvents == [] && visible == []
      ensures sources == [] && categories == [] && cities == []
      ensures lastRefresh == None && status == Loading
    {
      allEvents := [];
      sources, categories, cities := [], [], [];
      visible := [];
      lastRefresh := None;
      status := Loading;
    }

    /** `applyFilters()`: filter, sort and render with the form's values `c`. */
    method ApplyFilters(c: Criteria)
      requires Valid()
      modifies this`visible
      ensures Valid()
      ensures visible == Visible(allEvents, c)
      ensures unchanged(this`allEvents, this`sources, this`categories, this`cities, this`lastRefresh, this`status)
    {
      var filtered := FilterEvents(allEvents, c);
      if c.sort == "soonest" {
        filtered := SortBy(filtered, SoonestKey, false);
      } else if c.sort == "latest" {
        filtered := SortBy(filtered, LatestKey, true);
      } else if c.sort == "title" {
        filtered := SortBy(filtered, TitleKey, false);
      }
      visible := filtered;
      assert visible == Visible(allEvents, c);
    }

    /** The three distinct-and-sorted option lists of `loadEvents`. */
    method BuildOptions()
      requires multiset(visible) <= multiset(allEvents)
      modifies this`sources, this`categories, this`cities
      ensures Valid()
      ensures unchanged(this`allEvents, this`visible, this`lastRefresh, this`status)
      ensures sources == OptionList(allEvents, SourceChoice)
      ensures categories == OptionList(allEvents, CategoryChoice)
      ensures cities == OptionList(allEvents, CityChoice)
    {
      sources := OptionList(allEvents, SourceChoice);
      categories := OptionList(allEvents, CategoryChoice);
      cities := OptionList(allEvents, CityChoice);
    }

    /**
     * `loadEvents()` once the read endpoint has answered. On failure the
     * events and the rendered list are emptied but the select boxes keep
     * the options of the previous load.
     */
    method LoadEvents(p: Payload, c: Criteria)
      requires Valid()
      modifies this
      ensures Valid()
      ensures p.LoadFailed? ==>
        allEvents == [] && visible == [] && status == NoDataYet
        && sources == old(sources) && categories == old(categories) && cities == old(cities)
        && lastRefresh == old(lastRefresh)
      ensures p.Loaded? ==>
        && allEvents == (if p.events.Some? then p.events.value else [])
        && sources == OptionList(allEvents, SourceChoice)
        && categories == OptionList(allEvents, CategoryChoice)
        && cities == OptionList(allEvents, CityChoice)
        && lastRefresh == (if Truthy(p.generatedAt) then p.generatedAt else None)
        && status == LoadedCount(|allEvents|)
        && visible == Visible(allEvents, c)
    {
      status := Loading;
      match p
      case LoadFailed =>
        status := NoDataYet;
        allEvents := [];
        visible := [];
      case Loaded(generatedAt, events) =>
        Install(generatedAt, if events.Some? then events.value else [], c);
    }

    /** The successful branch of `loadEvents`: install the snapshot, build the options, render. */
    method Install(generatedAt: Option<string>, events: seq<Event>, c: Criteria)
      requires Valid()
      modifies this
      ensures Valid()
      ensures allEvents == events
      ensures sources == OptionList(events, SourceChoice)
      ensures categories == OptionList(events, CategoryChoice)
      ensures cities == OptionList(events, CityChoice)
      ensures lastRefresh == (if Truthy(generatedAt) then generatedAt else None)
      ensures status == LoadedCount(|events|)
      ensures visible == Visible(events, c)
    {
      lastRefresh := if Truthy(generatedAt) then generatedAt else None;
      allEvents := events;
      visible := [];
      BuildOptions();
      status := LoadedCount(|allEvents|);
      ApplyFilters(c);
    }
  }
}
