/** `RenfeSeleniumScraper`: the configuration it keeps, and the records `_extract_results`
    returns for a page of result rows (type filter, then time filter). */
module ConsultaTren {
  import opened Wrappers
  import opened PyStr
  import opened Seqs
  import opened Trips
  import opened Extraction
  import opened TimeWindow

  /** The train types searched for when none are given. */
  const DefaultTypes: seq<string> := [AVE, AVANT]

  /** What a list naming `ALL` stands for. */
  const AllTypes: seq<string> := [AVE, AVANT, MD]

  /** The farthest day ahead that can be searched. */
  const MaxDays := 15

  /** `train_types`, as `__init__` stores it. `None` or an empty list (both falsy) give the
      default; any list naming `ALL` becomes the three concrete types. */
  function NormalizeTrainTypes(given: Option<seq<string>>): (r: seq<string>)
    ensures ALL !in r
    ensures r != []
    ensures (given.None? || given.value == []) ==> r == DefaultTypes
    ensures given.Some? && ALL in given.value ==> r == AllTypes
    ensures given.Some? && given.value != [] && ALL !in given.value ==> r == given.value
  {
    var chosen := if given.Some? && given.value != [] then given.value else DefaultTypes;
    if ALL in chosen then AllTypes else chosen
  }

  /** The condition of the type filter in `_extract_results`. */
  predicate TypeAccepted(types: seq<string>, t: Trip)
  {
    TypeOf(t) in types || (TypeOf(t) == NA && ALL in types)
  }

  /** The trips that pass the type filter, in page order. */
  function TypeFiltered(trips: seq<Trip>, types: seq<string>): seq<Trip>
  {
    Filter(trips, t => TypeAccepted(types, t))
  }

  /** One record per row, in page order. */
  function Extracted(rows: seq<Row>): seq<Trip>
  {
    Map(rows, TripInfo)
  }

  /** The time filter applied by `_extract_results`: its `ValueError` is caught by the
      catch-all, which returns an empty list. */
  function Filtering(trips: seq<Trip>, filter: Option<TimeFilter>): Filtered
  {
    match TimeStage(trips, filter)
    case Success(f) => f
    case Failure(_) => Filtered([], [])
  }

  /** `_extract_results` for a page of rows: the records and the warnings logged. */
  function Results(rows: seq<Row>, types: seq<string>, filter: Option<TimeFilter>): Filtered
  {
    Filtering(TypeFiltered(Extracted(rows), types), filter)
  }

  /** Why `__init__` refuses its arguments. */
  datatype ConfigError = DaysOutOfRange(days: int)

  class RenfeScraper {
    const origin: string
    const destination: string
    const daysFromNow: int
    const verbose: bool
    var trainTypes: seq<string>
    const timeFilter: Option<TimeFilter>

    /** What `__init__` establishes and no method changes. */
    predicate Valid()
      reads this
    {
      0 <= daysFromNow <= MaxDays && ALL !in trainTypes && trainTypes != []
    }

    /** The part of `__init__` after the check on `days_from_now`: the type list is stored,
        then replaced when it names `ALL`. */
    constructor Init(origin: string, destination: string, daysFromNow: int,
                     trainTypes: Option<seq<string>>, timeFilter: Option<TimeFilter>, verbose: bool)
      requires 0 <= daysFromNow <= MaxDays
      ensures this.origin == origin && this.destination == destination
      ensures this.daysFromNow == daysFromNow && this.verbose == verbose
      ensures this.trainTypes == NormalizeTrainTypes(trainTypes)
      ensures this.timeFilter == timeFilter
      ensures Valid()
    {
      this.origin := origin;
      this.destination := destination;
      this.daysFromNow := daysFromNow;
      this.verbose := verbose;
      this.trainTypes := if trainTypes.Some? && trainTypes.value != [] then trainTypes.value else DefaultTypes;
      this.timeFilter := timeFilter;
      new;
      if ALL in this.trainTypes {
        this.trainTypes := AllTypes;
      }
    }

    /** `__init__`: a day outside `0..15` is refused before the date is computed and the
        driver is created. */
    static method New(origin: string, destination: string, daysFromNow: int,
                      trainTypes: Option<seq<string>>, timeFilter: Option<TimeFilter>, verbose: bool)
      returns (r: Result<RenfeScraper, ConfigError>)
      ensures r.Failure? <==> !(0 <= daysFromNow <= MaxDays)
      ensures r.Failure? ==> r.error == DaysOutOfRange(daysFromNow)
      ensures r.Success? ==> (
        && fresh(r.value) && r.value.Valid()
        && r.value.origin == origin && r.value.destination == destination
        && r.value.daysFromNow == daysFromNow && r.value.verbose == verbose
        && r.value.trainTypes == NormalizeTrainTypes(trainTypes)
        && r.value.timeFilter == timeFilter)
    {
      if !(0 <= daysFromNow <= MaxDays) {
        return Failure(DaysOutOfRange(daysFromNow));
      }
      var scraper := new RenfeScraper.Init(origin, destination, daysFromNow, trainTypes, timeFilter, verbose);
      return Success(scraper);
    }

    /** `_filter_by_time`: the departure times are read one trip at a time and the kept trips
        appended in order; `Failure` is the `ValueError` of an unreadable cutoff. */
    method FilterByTime(trips: seq<Trip>) returns (r: Result<Filtered, TimeError>)
      ensures r == TimeStage(trips, timeFilter)
    {
      if timeFilter.None? {
        return Success(Filtered(trips, []));
      }
      var kind, value := timeFilter.value.kind, timeFilter.value.value;
      var cutoff := CutoffMinutes(value);
      if cutoff.None? {
        return Failure(BadCutoff(value));
      }
      var kept: seq<Trip> := [];
      var warnings: seq<string> := [];
      var i := 0;
      while i < |trips|
        invariant 0 <= i <= |trips|
        invariant kept == TimeFiltered(trips[..i], kind, cutoff.value)
        invariant warnings == Warnings(trips[..i])
      {
        var trip := trips[i];
        FilterStep(trips, kind, cutoff.value, i);
        JudgeCases(kind, cutoff.value, trip);
        var departure := Departure(trip);
        if departure != "" {
          var minutes := DepartureMinutes(departure);
          match minutes {
            case None =>
              kept := kept + [trip];
              warnings := warnings + [departure];
            case Some(m) =>
              if kind == "before" && m <= cutoff.value {
                kept := kept + [trip];
              } else if kind == "after" && m >= cutoff.value {
                kept := kept + [trip];
              }
          }
        }
        i := i + 1;
      }
      assert trips[..i] == trips;
      return Success(Filtered(kept, warnings));
    }

    /** `_extract_results`: each row is read and kept when its type is searched for, then
        the time filter runs; an unreadable cutoff yields no trips. */
    method ExtractResults(rows: seq<Row>) returns (result: Filtered)
      ensures result == Results(rows, trainTypes, timeFilter)
    {
      ghost var all := Extracted(rows);
      var types := trainTypes;
      var trips: seq<Trip> := [];
      var i := 0;
      while i < |rows|
        invariant 0 <= i <= |rows|
        invariant trips == TypeFiltered(all[..i], types)
      {
        var info := ExtractTripInfo(rows[i]);
        MapAt(rows, TripInfo, i);
        TypeFilteredSnoc(all[..i], types, info);
        assert all[..i + 1] == all[..i] + [info];
        if TypeOf(info) in types || (TypeOf(info) == NA && ALL in types) {
          trips := trips + [info];
        }
        i := i + 1;
      }
      assert all[..i] == all;
      result := Filtered(trips, []);
      if timeFilter.Some? {
        var filtered := FilterByTime(trips);
        match filtered {
          case Success(f) => result := f;
          case Failure(_) => result := Filtered([], []);
        }
      }
    }
  }

  // ---------------------------------------------------------------------------
  // The type filter
  // ---------------------------------------------------------------------------

  /** The loop step: a trip is appended when its type is accepted. */
  lemma {:induction false} TypeFilteredSnoc(trips: seq<Trip>, types: seq<string>, t: Trip)
    ensures TypeFiltered(trips + [t], types)
      == TypeFiltered(trips, types) + (if TypeAccepted(types, t) then [t] else [])
  {
    FilterSnoc(trips, t, t => TypeAccepted(types, t));
  }

  /** A trip passes the type filter exactly when it is in the input and its type is accepted;
      the survivors keep their order. */
  lemma {:induction false} TypeFilteredMembers(trips: seq<Trip>, types: seq<string>, t: Trip)
    ensures t in TypeFiltered(trips, types) <==> t in trips && TypeAccepted(types, t)
    ensures IsSubsequence(TypeFiltered(trips, types), trips)
  {
    FilterMembers(trips, t => TypeAccepted(types, t), t);
    FilterIsSubsequence(trips, t => TypeAccepted(types, t));
  }

  /** For a type list without `ALL`, such as every list `__init__` stores (`Valid`), the
      `'N/A' and 'ALL'` branch never decides anything: a trip is accepted exactly when its type
      is in the list. */
  lemma {:induction false} AllBranchDead(types: seq<string>, t: Trip)
    requires ALL !in types
    ensures TypeAccepted(types, t) <==> TypeOf(t) in types
  {
  }

  /** Asking for `ALL` keeps the AVE, AVANT and MD trips and drops every other one, including
      the trips without a type. */
  lemma {:induction false} AllKeepsConcreteTypes(given: seq<string>, trips: seq<Trip>, t: Trip)
    requires ALL in given
    ensures t in TypeFiltered(trips, NormalizeTrainTypes(Some(given))) <==>
      t in trips && (TypeOf(t) == AVE || TypeOf(t) == AVANT || TypeOf(t) == MD)
  {
    TypeFilteredMembers(trips, NormalizeTrainTypes(Some(given)), t);
  }

  // ---------------------------------------------------------------------------
  // The whole pipeline
  // ---------------------------------------------------------------------------

  /** Every trip returned was read from a row of the page and has an accepted type; under a
      time filter it has a non-empty departure time and the filter does not drop it. */
  lemma {:induction false} ResultsSound(rows: seq<Row>, types: seq<string>, filter: Option<TimeFilter>, t: Trip)
    requires t in Results(rows, types, filter).trips
    ensures exists i :: 0 <= i < |rows| && t == TripInfo(rows[i])
    ensures TypeAccepted(types, t)
    ensures filter.Some? ==> t.salida.Some? && t.salida.value != ""
    ensures filter.Some? && CutoffMinutes(filter.value.value).Some? ==>
      Judge(filter.value.kind, CutoffMinutes(filter.value.value).value, t) != Drop
  {
    var typed := TypeFiltered(Extracted(rows), types);
    if filter.Some? {
      var cutoff := CutoffMinutes(filter.value.value).value;
      TimeFilteredMembers(typed, filter.value.kind, cutoff, t);
    }
    TypeFilteredMembers(Extracted(rows), types, t);
    MapMembers(rows, TripInfo, t);
  }

  /** Conversely, the record of a row whose type is accepted comes back, unless a time filter
      is set and drops it (or, as `BadCutoffEmpty` says, cannot read its cutoff). */
  lemma {:induction false} ResultsComplete(rows: seq<Row>, types: seq<string>, filter: Option<TimeFilter>, i: nat)
    requires i < |rows| && TypeAccepted(types, TripInfo(rows[i]))
    requires filter.Some? ==>
      && CutoffMinutes(filter.value.value).Some?
      && Judge(filter.value.kind, CutoffMinutes(filter.value.value).value, TripInfo(rows[i])) != Drop
    ensures TripInfo(rows[i]) in Results(rows, types, filter).trips
  {
    var t := TripInfo(rows[i]);
    MapAt(rows, TripInfo, i);
    TypeFilteredMembers(Extracted(rows), types, t);
    if filter.Some? {
      var cutoff := CutoffMinutes(filter.value.value).value;
      TimeFilteredMembers(TypeFiltered(Extracted(rows), types), filter.value.kind, cutoff, t);
    }
  }

  /** The trips returned are the rows' records with some left out, in page order. */
  lemma {:induction false} ResultsSubsequence(rows: seq<Row>, types: seq<string>, filter: Option<TimeFilter>)
    ensures IsSubsequence(Results(rows, types, filter).trips, Extracted(rows))
  {
    var typed := TypeFiltered(Extracted(rows), types);
    FilterIsSubsequence(Extracted(rows), t => TypeAccepted(types, t));
    match TimeStage(typed, filter) {
      case Failure(_) =>
      case Success(f) =>
        if filter.Some? {
          var cutoff := CutoffMinutes(filter.value.value).value;
          TimeFilteredSubsequence(typed, filter.value.kind, cutoff);
          SubsequenceTrans(f.trips, typed, Extracted(rows));
        }
    }
  }

  /** A cutoff that cannot be read empties the result, whatever the page holds. */
  lemma {:induction false} BadCutoffEmpty(rows: seq<Row>, types: seq<string>, f: TimeFilter)
    requires CutoffMinutes(f.value).None?
    ensures Results(rows, types, Some(f)) == Filtered([], [])
  {
  }

  /** Without a time filter, the result is the type filter's output and nothing is logged. */
  lemma {:induction false} NoTimeFilter(rows: seq<Row>, types: seq<string>)
    ensures Results(rows, types, None) == Filtered(TypeFiltered(Extracted(rows), types), [])
  {
  }

  /** Running the filters again over their own output returns it unchanged. */
  lemma {:induction false} ResultsIdempotent(rows: seq<Row>, types: seq<string>, kind: string, cutoff: int)
    ensures var once := TimeFiltered(TypeFiltered(Extracted(rows), types), kind, cutoff);
      TimeFiltered(TypeFiltered(once, types), kind, cutoff) == once
  {
    var typeKeep := t => TypeAccepted(types, t);
    var timeKeep := t => Judge(kind, cutoff, t) != Drop;
    var typed := Filter(Extracted(rows), typeKeep);
    var once := Filter(typed, timeKeep);
    FilterCommute(typed, timeKeep, typeKeep);
    FilterIdempotent(Extracted(rows), typeKeep);
    assert Filter(once, typeKeep) == once;
    FilterIdempotent(typed, timeKeep);
  }

  // ---------------------------------------------------------------------------
  // Two pages, end to end
  // ---------------------------------------------------------------------------

  /** An AVANT trip and an AVE trip, searched for AVANT without a time filter: only the
      AVANT trip comes back. */
  lemma {:induction false} AvantOnly(avant: Trip, ave: Trip)
    requires avant.tipo == Some(AVANT) && ave.tipo == Some(AVE)
    ensures Filtering(TypeFiltered([avant, ave], NormalizeTrainTypes(Some([AVANT]))), None)
      == Filtered([avant], [])
  {
    var types := NormalizeTrainTypes(Some([AVANT]));
    assert types == [AVANT];
    assert TypeAccepted(types, avant) && !TypeAccepted(types, ave);
    TypeFilteredSnoc([avant], types, ave);
    TypeFilteredSnoc([], types, avant);
    assert [avant] == [] + [avant];
    assert [avant, ave] == [avant] + [ave];
  }

  /** Asking for `ALL` never returns a trip of another type, nor one without a type, whatever
      the page and the time filter. */
  lemma {:induction false} UntypedNeverUnderAll(rows: seq<Row>, given: seq<string>, filter: Option<TimeFilter>, t: Trip)
    requires ALL in given && TypeOf(t) !in AllTypes
    ensures t !in Results(rows, NormalizeTrainTypes(Some(given)), filter).trips
  {
    if t in Results(rows, NormalizeTrainTypes(Some(given)), filter).trips {
      ResultsSound(rows, NormalizeTrainTypes(Some(given)), filter, t);
    }
  }
}
