/** `_extract_trip_info`: the fields of one trip, each read independently from its row.
    A field whose element is missing is left unset, except the train type, which falls
    back to `N/A`, and the full-train flag, which falls back to false. */
module Extraction {
  import opened Wrappers
  import opened PyStr
  import opened Trips

  /** What the alt text must contain for a train type to be read from it. */
  const TypeMarker := "Tipo de tren"

  /** The literal part of the pattern `Tipo de tren (\w+)`, also what the fallback removes. */
  const TypePrefix := "Tipo de tren "

  /** The word the price follows ("from", as in "from 12,50 €"). */
  const PriceMarker := "desde"

  // ---------------------------------------------------------------------------
  // Train type: re.search(r'Tipo de tren (\w+)', alt_text)
  // ---------------------------------------------------------------------------

  /** The regex class `\w`, restricted to ASCII. */
  predicate IsWordChar(c: char) {
    ('a' <= c <= 'z') || ('A' <= c <= 'Z') || ('0' <= c <= '9') || c == '_'
  }

  /** Length of the run of word characters `s` starts with: what a greedy `\w+` takes. */
  function WordRun(s: string): (n: nat)
    ensures n <= |s|
    ensures forall k :: 0 <= k < n ==> IsWordChar(s[k])
    ensures n == |s| || !IsWordChar(s[n])
  {
    if s != [] && IsWordChar(s[0]) then 1 + WordRun(s[1..]) else 0
  }

  /** The pattern `Tipo de tren (\w+)` matches at index `i` of `s`. */
  predicate MatchesAt(s: string, i: nat) {
    OccursAt(s, TypePrefix, i) && i + |TypePrefix| < |s| && IsWordChar(s[i + |TypePrefix|])
  }

  /** Where `re.search` finds the pattern, trying the positions from `from` on in order. */
  function SearchFrom(s: string, from: nat): (r: Option<nat>)
    ensures r.Some? ==> from <= r.value && MatchesAt(s, r.value)
    ensures forall j: nat :: from <= j && (r.None? || j < r.value) ==> !MatchesAt(s, j)
    decreases |s| - from
  {
    if from >= |s| then None
    else if MatchesAt(s, from) then Some(from)
    else SearchFrom(s, from + 1)
  }

  /** `group(1)` of the leftmost match, or `None` when the pattern does not match. */
  function TypeToken(s: string): Option<string>
  {
    match SearchFrom(s, 0)
    case None => None
    case Some(i) =>
      var w := s[i + |TypePrefix|..];
      Some(w[..WordRun(w)])
  }

  /** The `tipo` field, or `None` when the key is left unset. */
  function TypeField(alt: Option<string>): Option<string>
  {
    match alt
    case None => Some(NA)
    case Some(text) =>
      if !Contains(text, TypeMarker) then None
      else match TypeToken(text)
        case Some(token) => Some(token)
        case None => Some(Strip(Replace(text, TypePrefix, "")))
  }

  /** A token is the whole run of word characters right after the leftmost `Tipo de tren `
      that is followed by one. */
  lemma {:induction false} TypeTokenAt(s: string) returns (i: nat)
    requires TypeToken(s).Some?
    ensures var token := TypeToken(s).value;
      && token != []
      && (forall k :: 0 <= k < |token| ==> IsWordChar(token[k]))
      && OccursAt(s, TypePrefix + token, i)
      && (i + |TypePrefix| + |token| == |s| || !IsWordChar(s[i + |TypePrefix| + |token|]))
      && forall j: nat :: j < i ==> !MatchesAt(s, j)
  {
    i := SearchFrom(s, 0).value;
    var w := s[i + |TypePrefix|..];
    var token := w[..WordRun(w)];
    assert s[i..i + |TypePrefix|] == TypePrefix;
    assert s[i..i + |TypePrefix| + |token|] == TypePrefix + token by {
      assert s[i + |TypePrefix|..i + |TypePrefix| + |token|] == token;
      assert s[i..i + |TypePrefix| + |token|]
          == s[i..i + |TypePrefix|] + s[i + |TypePrefix|..i + |TypePrefix| + |token|];
    }
    if i + |TypePrefix| + |token| < |s| {
      assert s[i + |TypePrefix| + |token|] == w[|token|];
    }
  }

  /** No token is read exactly when the pattern matches nowhere. */
  lemma {:induction false} TypeTokenNone(s: string)
    ensures TypeToken(s).None? <==> forall j: nat :: !MatchesAt(s, j)
  {
  }

  lemma {:induction false} WordRunOver(w: string, rest: string)
    requires forall k :: 0 <= k < |w| ==> IsWordChar(w[k])
    requires rest == [] || !IsWordChar(rest[0])
    ensures WordRun(w + rest) == |w|
  {
    if w == [] {
      assert w + rest == rest;
    } else {
      assert (w + rest)[0] == w[0] && (w + rest)[1..] == w[1..] + rest;
      WordRunOver(w[1..], rest);
    }
  }

  /** An alt text `Tipo de tren <w>`, with anything after `w` that does not continue the word,
      yields the train type `w`. */
  lemma {:induction false} TypeFromLabel(w: string, rest: string)
    requires w != [] && forall k :: 0 <= k < |w| ==> IsWordChar(w[k])
    requires rest == [] || !IsWordChar(rest[0])
    ensures TypeField(Some(TypePrefix + w + rest)) == Some(w)
  {
    var s := TypePrefix + w + rest;
    var n := |TypePrefix|;
    assert s[..n] == TypePrefix;
    assert s[..|TypeMarker|] == TypeMarker;
    assert OccursAt(s, TypeMarker, 0);
    assert s[n] == w[0];
    assert MatchesAt(s, 0);
    assert s[n..] == w + rest;
    WordRunOver(w, rest);
    assert (w + rest)[..|w|] == w;
  }

  // ---------------------------------------------------------------------------
  // Times and price
  // ---------------------------------------------------------------------------

  /** An `h5` text with every `h` removed, then stripped. */
  function CleanTime(text: string): string
  {
    Strip(Replace(text, "h", ""))
  }

  /** A cleaned time holds no `h` and no surrounding whitespace. */
  lemma {:induction false} CleanTimeFacts(text: string)
    ensures 'h' !in CleanTime(text) && IsStripped(CleanTime(text))
  {
    var removed := Replace(text, "h", "");
    RemoveCharGone(text, 'h');
    var i := StripSlice(removed);
    var r := CleanTime(text);
    forall k | 0 <= k < |r| ensures r[k] != 'h' {
      assert r[k] == removed[i + k];
    }
  }

  /** The page's `08:15 h` becomes `08:15`. */
  lemma {:induction false} CleanTimeLabel(t: string)
    requires IsStripped(t) && 'h' !in t
    ensures CleanTime(t + " h") == t
  {
    var head := t + " ";
    assert Replace(t + " h", "h", "") == head by {
      assert t + " h" == head + ['h'] + [];
      SplitAtOnly(head, 'h', []);
      var parts: seq<string> := [head, []];
      assert Split(t + " h", "h") == parts;
      assert Join(parts, "") == head + "" + Join(parts[1..], "");
    }
    assert Strip(head) == t by {
      assert [] + t + " " == head;
      StripPadded([], t, " ");
    }
  }

  /** `text.split("desde")[-1].strip()` */
  function PriceText(text: string): string
  {
    var parts := Split(text, PriceMarker);
    Strip(parts[|parts| - 1])
  }

  /** A price holds no `desde` and no surrounding whitespace. */
  lemma {:induction false} PriceFacts(text: string)
    ensures !Contains(PriceText(text), PriceMarker) && IsStripped(PriceText(text))
  {
    LastPieceAvoids(text, PriceMarker);
  }

  /** A text without the marker is only stripped. */
  lemma {:induction false} PriceWithoutMarker(text: string)
    requires !Contains(text, PriceMarker)
    ensures PriceText(text) == Strip(text)
  {
    SplitAbsent(text, PriceMarker);
  }

  /** With the marker present, the price is what follows one `desde` and holds none,
      stripped: the last piece `split` cuts off. */
  lemma {:induction false} PriceAfterMarker(text: string) returns (pre: string, rest: string)
    requires Contains(text, PriceMarker)
    ensures text == pre + PriceMarker + rest
    ensures !Contains(rest, PriceMarker) && PriceText(text) == Strip(rest)
  {
    var parts := Split(text, PriceMarker);
    var n := |parts|;
    assert n >= 2 by {
      FindNone(text, PriceMarker);
      var f := Find(text, PriceMarker).value;
      SplitStep(text, PriceMarker, f);
    }
    pre, rest := Join(parts[..n - 1], PriceMarker), parts[n - 1];
    assert text == pre + PriceMarker + rest by {
      SplitJoin(text, PriceMarker);
      JoinSnoc(parts, PriceMarker);
    }
    SplitAvoids(text, PriceMarker, n - 1);
  }

  // ---------------------------------------------------------------------------
  // The whole record
  // ---------------------------------------------------------------------------

  /** The trip record read from one row. */
  function TripInfo(row: Row): Trip
  {
    var times := |row.headings| >= 2;
    Trip(
      tipo := TypeField(row.alt),
      salida := if times then Some(CleanTime(row.headings[0])) else None,
      llegada := if times then Some(CleanTime(row.headings[1])) else None,
      duracion := if row.duration.Some? then Some(Strip(row.duration.value)) else None,
      precio := if row.price.Some? then Some(PriceText(row.price.value)) else None,
      completo := row.full)
  }

  /** `_extract_trip_info`: fills the record one field at a time, each from its own element. */
  method ExtractTripInfo(row: Row) returns (info: Trip)
    ensures info == TripInfo(row)
  {
    info := Trip(None, None, None, None, None, false);
    match row.alt {
      case None =>
        info := info.(tipo := Some(NA));
      case Some(text) =>
        if Contains(text, TypeMarker) {
          var token := TypeToken(text);
          if token.Some? {
            info := info.(tipo := token);
          } else {
            info := info.(tipo := Some(Strip(Replace(text, TypePrefix, ""))));
          }
        }
    }
    if |row.headings| >= 2 {
      info := info.(salida := Some(CleanTime(row.headings[0])));
      info := info.(llegada := Some(CleanTime(row.headings[1])));
    }
    if row.duration.Some? {
      info := info.(duracion := Some(Strip(row.duration.value)));
    }
    if row.price.Some? {
      info := info.(precio := Some(PriceText(row.price.value)));
    }
    info := info.(completo := row.full);
  }

  /** What each field of an extracted record holds. */
  lemma {:induction false} ExtractionFacts(row: Row)
    ensures row.alt.None? ==> TripInfo(row).tipo == Some(NA)
    ensures row.alt.Some? ==> (TripInfo(row).tipo.Some? <==> Contains(row.alt.value, TypeMarker))
    ensures TripInfo(row).salida.Some? <==> |row.headings| >= 2
    ensures TripInfo(row).llegada.Some? <==> |row.headings| >= 2
    ensures TripInfo(row).salida.Some? ==>
      'h' !in TripInfo(row).salida.value && IsStripped(TripInfo(row).salida.value)
    ensures TripInfo(row).llegada.Some? ==>
      'h' !in TripInfo(row).llegada.value && IsStripped(TripInfo(row).llegada.value)
    ensures TripInfo(row).duracion.Some? <==> row.duration.Some?
    ensures TripInfo(row).precio.Some? <==> row.price.Some?
    ensures TripInfo(row).precio.Some? ==>
      !Contains(TripInfo(row).precio.value, PriceMarker) && IsStripped(TripInfo(row).precio.value)
    ensures TripInfo(row).completo == row.full
  {
    var t := TripInfo(row);
    if |row.headings| >= 2 {
      CleanTimeFacts(row.headings[0]);
      CleanTimeFacts(row.headings[1]);
      assert t.salida == Some(CleanTime(row.headings[0]));
      assert t.llegada == Some(CleanTime(row.headings[1]));
    }
    if row.price.Some? {
      PriceFacts(row.price.value);
      assert t.precio == Some(PriceText(row.price.value));
    }
  }

  /** A missing price element leaves the price unset and every other field as it was. */
  lemma {:induction false} PriceIndependent(row: Row)
    ensures TripInfo(row.(price := None)) == TripInfo(row).(precio := None)
  {
  }
}
