/** `_filter_by_time`: keep the trips that leave before (or after) a cutoff, both bounds
    inclusive. A trip without a departure time is dropped; one whose departure time cannot
    be read is kept, with a warning (fail-open). */
module TimeWindow {
  import opened Wrappers
  import opened PyStr
  import opened Seqs
  import opened Trips

  /** Minutes since midnight. Hours and minutes are not range-checked: `25:99` is accepted. */
  function Minutes(hour: int, minute: int): int
  {
    hour * 60 + minute
  }

  /** `hour, minute = map(int, parts)`: exactly two pieces, both integers. `None` stands for
      the `ValueError` Python raises otherwise (a bad integer or the wrong number of pieces). */
  function PairMinutes(parts: seq<string>): Option<int>
  {
    if |parts| != 2 then None
    else match (ParseInt(parts[0]), ParseInt(parts[1]))
      case (Some(h), Some(m)) => Some(Minutes(h, m))
      case _ => None
  }

  /** The cutoff `time_value`, read as `H:M` only. */
  function CutoffMinutes(value: string): Option<int>
  {
    PairMinutes(Split(value, ":"))
  }

  /** A departure time, read as `H:M`, or as `H.M` when splitting on `:` does not give two pieces. */
  function DepartureMinutes(departure: string): Option<int>
  {
    var parts := Split(departure, ":");
    if |parts| == 2 then PairMinutes(parts)
    else PairMinutes(Split(Replace(departure, ".", ":"), ":"))
  }

  /** The departure time of a trip, as the loop reads it. */
  function Departure(t: Trip): string
  {
    t.salida.GetOr("")
  }

  /** What the loop does with one trip. */
  datatype Verdict = Keep | Drop | KeepUnparsed

  /** The loop body of `_filter_by_time` for one trip, given the parsed cutoff. */
  function Judge(kind: string, cutoff: int, t: Trip): Verdict
  {
    var departure := Departure(t);
    if departure == "" then Drop
    else match DepartureMinutes(departure)
      case None => KeepUnparsed
      case Some(m) =>
        if (kind == "before" && m <= cutoff) || (kind == "after" && m >= cutoff) then Keep else Drop
  }

  /** The trips `_filter_by_time` returns, in input order. */
  function TimeFiltered(trips: seq<Trip>, kind: string, cutoff: int): seq<Trip>
  {
    Filter(trips, t => Judge(kind, cutoff, t) != Drop)
  }

  /** A non-empty departure time that cannot be read. */
  predicate Unparsed(t: Trip)
  {
    Departure(t) != "" && DepartureMinutes(Departure(t)).None?
  }

  /** The departure times the loop warns about, in input order. */
  function Warnings(trips: seq<Trip>): seq<string>
  {
    Map(Filter(trips, Unparsed), Departure)
  }

  /** The list `_filter_by_time` returns, and the warnings it logs. */
  datatype Filtered = Filtered(trips: seq<Trip>, warnings: seq<string>)

  /** The `ValueError` raised when the cutoff is not two integers around a `:`. */
  datatype TimeError = BadCutoff(value: string)

  /** `_filter_by_time` as a whole: the trips unchanged without a filter; a failure when the
      cutoff cannot be read; otherwise the kept trips and the warnings. */
  function TimeStage(trips: seq<Trip>, filter: Option<TimeFilter>): Result<Filtered, TimeError>
  {
    match filter
    case None => Success(Filtered(trips, []))
    case Some(f) =>
      match CutoffMinutes(f.value)
      case None => Failure(BadCutoff(f.value))
      case Some(cutoff) => Success(Filtered(TimeFiltered(trips, f.kind, cutoff), Warnings(trips)))
  }

  // ---------------------------------------------------------------------------
  // Reading times
  // ---------------------------------------------------------------------------

  lemma {:induction false} DigitRunHasNo(d: string, c: char)
    requires IsDigitRun(d) && !IsDigit(c) && c != '_'
    ensures c !in d
  {
  }

  /** `H:M` with two digit runs reads as `60 * H + M`. */
  lemma {:induction false} ColonDeparture(h: string, m: string)
    requires IsDigitRun(h) && IsDigitRun(m)
    ensures DepartureMinutes(h + ":" + m) == Some(Minutes(DigitsValue(h), DigitsValue(m)))
    ensures CutoffMinutes(h + ":" + m) == Some(Minutes(DigitsValue(h), DigitsValue(m)))
  {
    DigitRunHasNo(h, ':');
    DigitRunHasNo(m, ':');
    assert h + ":" + m == h + [':'] + m;
    SplitAtOnly(h, ':', m);
    ParseDigitRun(h);
    ParseDigitRun(m);
  }

  /** `H.M` with two digit runs reads as `60 * H + M` too. */
  lemma {:induction false} DotDeparture(h: string, m: string)
    requires IsDigitRun(h) && IsDigitRun(m)
    ensures DepartureMinutes(h + "." + m) == Some(Minutes(DigitsValue(h), DigitsValue(m)))
  {
    var s := h + "." + m;
    DigitRunHasNo(h, ':');
    DigitRunHasNo(m, ':');
    DigitRunHasNo(h, '.');
    DigitRunHasNo(m, '.');
    assert s == h + ['.'] + m;
    assert ':' !in s;
    ContainsChar(s, ':');
    SplitAbsent(s, ":");
    ReplaceCharIsTranslate(s, '.', ':');
    TranslateAround(h, '.', ':', m);
    TranslateAbsent(m, '.', ':');
    assert Replace(s, ".", ":") == h + ":" + m;
    ColonDeparture(h, m);
  }

  /** The cutoff is not read as `H.M`: a dotted cutoff makes the filter fail. */
  lemma {:induction false} DotCutoffRejected(h: string, m: string)
    requires IsDigitRun(h) && IsDigitRun(m)
    ensures CutoffMinutes(h + "." + m) == None
  {
    var s := h + "." + m;
    DigitRunHasNo(h, ':');
    DigitRunHasNo(m, ':');
    assert ':' !in s;
    ContainsChar(s, ':');
    SplitAbsent(s, ":");
  }

  /** A departure time is unreadable when it does not have exactly one `:`, and does not have
      exactly one separator once every `.` counts as a `:` (`8`, `08:30:00`, `8.30.1`). */
  lemma {:induction false} SeparatorsUnreadable(s: string)
    requires Count(s, ':') != 1 && Count(s, ':') + Count(s, '.') != 1
    ensures DepartureMinutes(s) == None
  {
    SplitCount(s, ':');
    ReplaceCharIsTranslate(s, '.', ':');
    CountTranslate(s, '.', ':');
    SplitCount(Translate(s, '.', ':'), ':');
  }

  // ---------------------------------------------------------------------------
  // The filter
  // ---------------------------------------------------------------------------

  /** A trip survives exactly when it is in the input and the loop does not drop it. */
  lemma {:induction false} TimeFilteredMembers(trips: seq<Trip>, kind: string, cutoff: int, t: Trip)
    ensures t in TimeFiltered(trips, kind, cutoff) <==> t in trips && Judge(kind, cutoff, t) != Drop
  {
    FilterMembers(trips, t => Judge(kind, cutoff, t) != Drop, t);
  }

  /** The survivors are the input with trips left out, in their original order. */
  lemma {:induction false} TimeFilteredSubsequence(trips: seq<Trip>, kind: string, cutoff: int)
    ensures IsSubsequence(TimeFiltered(trips, kind, cutoff), trips)
  {
    FilterIsSubsequence(trips, t => Judge(kind, cutoff, t) != Drop);
  }

  /** A trip with a missing or empty departure time never survives. */
  lemma {:induction false} NoDepartureDropped(trips: seq<Trip>, kind: string, cutoff: int, t: Trip)
    requires t.salida.None? || t.salida == Some("")
    ensures t !in TimeFiltered(trips, kind, cutoff)
  {
    TimeFilteredMembers(trips, kind, cutoff, t);
  }

  /** For a departure `H:M` or `H.M`, `before` keeps it iff `60 * H + M <= cutoff` and `after`
      iff `60 * H + M >= cutoff`; any other kind keeps nothing readable. */
  lemma {:induction false} ClockDeparture(trips: seq<Trip>, kind: string, cutoff: int, t: Trip, h: string, m: string)
    requires t in trips && IsDigitRun(h) && IsDigitRun(m)
    requires t.salida == Some(h + ":" + m) || t.salida == Some(h + "." + m)
    ensures var minutes := 60 * DigitsValue(h) + DigitsValue(m);
      t in TimeFiltered(trips, kind, cutoff) <==>
        (kind == "before" && minutes <= cutoff) || (kind == "after" && minutes >= cutoff)
  {
    ColonDeparture(h, m);
    DotDeparture(h, m);
    TimeFilteredMembers(trips, kind, cutoff, t);
  }

  /** Fail-open: a non-empty departure time that cannot be read keeps its trip, whatever the
      filter, and is warned about. */
  lemma {:induction false} UnparsedKept(trips: seq<Trip>, kind: string, cutoff: int, t: Trip)
    requires t in trips && Unparsed(t)
    ensures t in TimeFiltered(trips, kind, cutoff)
    ensures t.salida.value in Warnings(trips)
  {
    TimeFilteredMembers(trips, kind, cutoff, t);
    WarningsMembers(trips, t.salida.value);
  }

  /** Every warning names the departure time of an unreadable trip of the input, and each such
      trip is warned about. */
  lemma {:induction false} WarningsMembers(trips: seq<Trip>, w: string)
    ensures w in Warnings(trips) <==> exists t :: t in trips && Unparsed(t) && t.salida == Some(w)
  {
    var unread := Filter(trips, Unparsed);
    MapMembers(unread, Departure, w);
    forall t {
      FilterMembers(trips, Unparsed, t);
    }
  }

  lemma {:induction false} WarningsSnoc(trips: seq<Trip>, t: Trip)
    ensures Warnings(trips + [t]) == Warnings(trips) + (if Unparsed(t) then [t.salida.value] else [])
  {
    var last := if Unparsed(t) then [t] else [];
    FilterSnoc(trips, t, Unparsed);
    MapAppend(Filter(trips, Unparsed), last, Departure);
    assert Map(last, Departure) == (if Unparsed(t) then [t.salida.value] else []) by {
      if Unparsed(t) {
        assert Map(last, Departure) == [Departure(t)] + Map([], Departure);
      }
    }
  }

  /** The loop step: a trip is appended when the loop does not drop it. */
  lemma {:induction false} TimeFilteredSnoc(trips: seq<Trip>, kind: string, cutoff: int, t: Trip)
    ensures TimeFiltered(trips + [t], kind, cutoff)
      == TimeFiltered(trips, kind, cutoff) + (if Judge(kind, cutoff, t) != Drop then [t] else [])
  {
    FilterSnoc(trips, t, t => Judge(kind, cutoff, t) != Drop);
  }

  /** One turn of the loop over `trips[i]`: what it appends to the kept trips and to the warnings. */
  lemma {:induction false} FilterStep(trips: seq<Trip>, kind: string, cutoff: int, i: nat)
    requires i < |trips|
    ensures Judge(kind, cutoff, trips[i]) != Drop ==>
      TimeFiltered(trips[..i + 1], kind, cutoff) == TimeFiltered(trips[..i], kind, cutoff) + [trips[i]]
    ensures Judge(kind, cutoff, trips[i]) == Drop ==>
      TimeFiltered(trips[..i + 1], kind, cutoff) == TimeFiltered(trips[..i], kind, cutoff)
    ensures Unparsed(trips[i]) ==> Warnings(trips[..i + 1]) == Warnings(trips[..i]) + [trips[i].salida.value]
    ensures !Unparsed(trips[i]) ==> Warnings(trips[..i + 1]) == Warnings(trips[..i])
  {
    var before := trips[..i];
    assert trips[..i + 1] == before + [trips[i]];
    TimeFilteredSnoc(before, kind, cutoff, trips[i]);
    WarningsSnoc(before, trips[i]);
    assert TimeFiltered(before, kind, cutoff) + [] == TimeFiltered(before, kind, cutoff);
    assert Warnings(before) + [] == Warnings(before);
  }

  /** The three outcomes of one turn of the loop, by the departure time it reads. */
  lemma {:induction false} JudgeCases(kind: string, cutoff: int, t: Trip)
    ensures Departure(t) == "" ==> Judge(kind, cutoff, t) == Drop && !Unparsed(t)
    ensures Departure(t) != "" && DepartureMinutes(Departure(t)).None? ==>
      Judge(kind, cutoff, t) == KeepUnparsed && Unparsed(t) && t.salida.value == Departure(t)
    ensures Departure(t) != "" && DepartureMinutes(Departure(t)).Some? ==>
      var m := DepartureMinutes(Departure(t)).value;
      !Unparsed(t) &&
      (Judge(kind, cutoff, t) != Drop <==> (kind == "before" && m <= cutoff) || (kind == "after" && m >= cutoff))
  {
  }

  /** Filtering the survivors again with the same filter changes nothing. */
  lemma {:induction false} TimeFilteredIdempotent(trips: seq<Trip>, kind: string, cutoff: int)
    ensures TimeFiltered(TimeFiltered(trips, kind, cutoff), kind, cutoff) == TimeFiltered(trips, kind, cutoff)
  {
    FilterIdempotent(trips, t => Judge(kind, cutoff, t) != Drop);
  }
}
