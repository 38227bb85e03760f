/**
  `parseItinerary` of src/utils/itineraryParser.js: the plan text is split into lines;
  a "第N天" line opens a new day, and every time-slot line ("上午", "中午", "下午",
  "晚上") inside a day contributes the place names extracted from its description.

  The whole-input meaning is `Itinerary`: one record per day line, in document
  order, holding the place names of the time-slot lines up to the next day line.
  `ParseItinerary` is the line-by-line loop of the source, proved to compute it.
 */
module ItineraryParser {
  import opened Wrappers
  import opened JsText
  import opened Seqs
  import opened Patterns
  import opened PlaceExtraction

  /** One entry of the parsed itinerary: the day number of its marker line and the
      place names gathered for that day. */
  datatype ItineraryDay = ItineraryDay(day: nat, places: seq<string>)

  /** What a line of the plan is to the parser, once trimmed: a day marker with its
      number, a time slot with its (trimmed) description, or anything else. */
  datatype LineKind = DayLine(day: nat) | SlotLine(description: string) | OtherLine

  /** The day pattern is tried first; only a line that is not a day marker can be a
      time slot. */
  function Classify(raw: string): (k: LineKind)
    ensures k.DayLine? <==> DayMarker(Trim(raw)).Some?
    ensures k.DayLine? ==> DayMarker(Trim(raw)) == Some(k.day)
    ensures k.SlotLine? <==> DayMarker(Trim(raw)).None? && TimeSlot(Trim(raw)).Some?
    ensures k.SlotLine? ==> k.description == Trim(TimeSlot(Trim(raw)).value)
  {
    var line := Trim(raw);
    match DayMarker(line)
    case Some(d) => DayLine(d)
    case None =>
      match TimeSlot(line)
      case Some(text) => SlotLine(Trim(text))
      case None => OtherLine
  }

  /** The classification of every line. */
  function Kinds(lines: seq<string>): seq<LineKind> {
    Map(Classify, lines)
  }

  /** The place names a line of kind `k` contributes inside a day: what `extract`
      finds in a non-empty time-slot description, nothing otherwise. */
  function SlotPlaces(k: LineKind, extract: string -> seq<string>): seq<string> {
    if k.SlotLine? && k.description != [] then extract(k.description) else []
  }

  /** The place names lines of kinds `ks` contribute, in order, repeats included. */
  function Harvest(ks: seq<LineKind>, extract: string -> seq<string>): seq<string>
    decreases |ks|
  {
    if ks == [] then [] else Harvest(ks[..|ks| - 1], extract) + SlotPlaces(ks[|ks| - 1], extract)
  }

  /** The indices of the day lines: ascending, and exactly the day lines. */
  function Markers(ks: seq<LineKind>): (ms: seq<nat>)
    ensures |ms| <= |ks|
    decreases |ks|
  {
    if ks == [] then []
    else Markers(ks[..|ks| - 1]) + (if ks[|ks| - 1].DayLine? then [|ks| - 1] else [])
  }

  /** Every index in `Markers(ks)` is that of a day line. */
  lemma {:induction false} MarkersBounded(ks: seq<LineKind>)
    ensures forall j :: 0 <= j < |Markers(ks)| ==> Markers(ks)[j] < |ks| && ks[Markers(ks)[j]].DayLine?
    decreases |ks|
  {
    if ks != [] {
      var init := ks[..|ks| - 1];
      MarkersBounded(init);
      assert forall i :: 0 <= i < |init| ==> init[i] == ks[i];
    }
  }

  /** The indices in `Markers(ks)` ascend. */
  lemma {:induction false} MarkersSorted(ks: seq<LineKind>)
    ensures forall i, j :: 0 <= i < j < |Markers(ks)| ==> Markers(ks)[i] < Markers(ks)[j]
    decreases |ks|
  {
    if ks != [] {
      MarkersSorted(ks[..|ks| - 1]);
      MarkersBounded(ks[..|ks| - 1]);
    }
  }

  /** Every day line is in `Markers(ks)`. */
  lemma {:induction false} MarkersComplete(ks: seq<LineKind>)
    ensures forall i :: 0 <= i < |ks| && ks[i].DayLine? ==> i in Markers(ks)
    decreases |ks|
  {
    if ks != [] {
      var init := ks[..|ks| - 1];
      MarkersComplete(init);
      assert forall i :: 0 <= i < |init| ==> init[i] == ks[i];
    }
  }

  /** The record of the day whose marker is line `m`, its lines running up to `e`. */
  function DayRecord(ks: seq<LineKind>, m: nat, e: nat, extract: string -> seq<string>): ItineraryDay
    requires m < e <= |ks| && ks[m].DayLine?
  {
    ItineraryDay(ks[m].day, AddAll([], Harvest(ks[m + 1..e], extract)))
  }

  /** Where the `j`th day ends: at the next day line, or at the end of the text. */
  function DayEnd(ks: seq<LineKind>, j: nat): (e: nat)
    requires j < |Markers(ks)|
    ensures Markers(ks)[j] < e <= |ks|
  {
    MarkersBounded(ks);
    MarkersSorted(ks);
    var ms := Markers(ks);
    if j + 1 < |ms| then ms[j + 1] else |ks|
  }

  /** The itinerary of lines of kinds `ks`: a record per day line, in order. */
  function Days(ks: seq<LineKind>, extract: string -> seq<string>): seq<ItineraryDay> {
    MarkersBounded(ks);
    var ms := Markers(ks);
    seq(|ms|, j requires 0 <= j < |ms| => DayRecord(ks, ms[j], DayEnd(ks, j), extract))
  }

  /** What `parseItinerary` returns for the lines of a plan, with `extract` finding
      the place names of a description. */
  function Itinerary(lines: seq<string>, extract: string -> seq<string>): seq<ItineraryDay> {
    Days(Kinds(lines), extract)
  }

  // ---------------------------------------------------------------- one more line

  lemma MarkersSnoc(ks: seq<LineKind>, k: LineKind)
    ensures Markers(ks + [k]) == Markers(ks) + (if k.DayLine? then [|ks|] else [])
  {
    assert (ks + [k])[..|ks|] == ks;
  }

  /** Records of days closed before the last line are not changed by a line after it. */
  lemma DayRecordSnoc(ks: seq<LineKind>, k: LineKind, m: nat, e: nat, extract: string -> seq<string>)
    requires m < e <= |ks| && ks[m].DayLine?
    ensures DayRecord(ks + [k], m, e, extract) == DayRecord(ks, m, e, extract)
  {
    assert (ks + [k])[m + 1..e] == ks[m + 1..e];
  }

  /** A day line opens a new, empty record after all the earlier ones. */
  lemma DaysSnocDay(ks: seq<LineKind>, k: LineKind, extract: string -> seq<string>)
    requires k.DayLine?
    ensures Days(ks + [k], extract) == Days(ks, extract) + [ItineraryDay(k.day, [])]
  {
    var ms, ms' := Markers(ks), Markers(ks + [k]);
    MarkersSnoc(ks, k);
    MarkersBounded(ks);
    var a, b := Days(ks + [k], extract), Days(ks, extract) + [ItineraryDay(k.day, [])];
    forall j | 0 <= j < |ms|
      ensures a[j] == b[j]
    {
      assert DayEnd(ks + [k], j) == DayEnd(ks, j);
      DayRecordSnoc(ks, k, ms[j], DayEnd(ks, j), extract);
    }
    assert (ks + [k])[|ks| + 1..|ks| + 1] == [];
    assert a[|ms|] == b[|ms|];
  }

  /** Before the first day line, no line makes a record. */
  lemma DaysSnocNone(ks: seq<LineKind>, k: LineKind, extract: string -> seq<string>)
    requires !k.DayLine? && Markers(ks) == []
    ensures Days(ks + [k], extract) == []
  {
    MarkersSnoc(ks, k);
  }

  /** A line that is not a day line leaves every record but the last unchanged. */
  lemma DaysSnocKeeps(ks: seq<LineKind>, k: LineKind, j: nat, extract: string -> seq<string>)
    requires !k.DayLine? && j + 1 < |Markers(ks)|
    ensures |Days(ks + [k], extract)| == |Days(ks, extract)| && Days(ks + [k], extract)[j] == Days(ks, extract)[j]
  {
    MarkersSnoc(ks, k);
    MarkersBounded(ks);
    assert DayEnd(ks + [k], j) == DayEnd(ks, j);
    DayRecordSnoc(ks, k, Markers(ks)[j], DayEnd(ks, j), extract);
  }

  /** The record `d` with the new names `names` merged into its places. */
  function Extend(d: ItineraryDay, names: seq<string>): ItineraryDay {
    ItineraryDay(d.day, AddAll(d.places, names))
  }

  lemma DayRecordGrows(ks: seq<LineKind>, k: LineKind, m: nat, extract: string -> seq<string>)
    requires m < |ks| && ks[m].DayLine?
    ensures DayRecord(ks + [k], m, |ks| + 1, extract) == Extend(DayRecord(ks, m, |ks|, extract), SlotPlaces(k, extract))
  {
    var tail := ks[m + 1..|ks|];
    var body := (ks + [k])[m + 1..|ks| + 1];
    assert body == tail + [k];
    assert body[..|body| - 1] == tail;
    AddAllAppend([], Harvest(tail, extract), SlotPlaces(k, extract));
  }

  /** The `j`th record is that of the `j`th day line. */
  lemma DaysAt(ks: seq<LineKind>, j: nat, extract: string -> seq<string>)
    requires j < |Markers(ks)|
    ensures Markers(ks)[j] < |ks| && ks[Markers(ks)[j]].DayLine?
    ensures |Days(ks, extract)| == |Markers(ks)|
    ensures Days(ks, extract)[j] == DayRecord(ks, Markers(ks)[j], DayEnd(ks, j), extract)
  {
    MarkersBounded(ks);
  }

  /** A line that is not a day line adds its place names to the last record. */
  lemma DaysSnocLast(ks: seq<LineKind>, k: LineKind, extract: string -> seq<string>)
    requires !k.DayLine? && Markers(ks) != []
    ensures |Days(ks + [k], extract)| == |Days(ks, extract)| == |Markers(ks)|
    ensures Days(ks + [k], extract)[|Markers(ks)| - 1] == Extend(Days(ks, extract)[|Markers(ks)| - 1], SlotPlaces(k, extract))
  {
    var ms := Markers(ks);
    MarkersSnoc(ks, k);
    assert Markers(ks + [k]) == ms;
    var n := |ms|;
    DaysAt(ks, n - 1, extract);
    DaysAt(ks + [k], n - 1, extract);
    DayRecordGrows(ks, k, ms[n - 1], extract);
  }

  /** Any other line adds its place names to the record of the day it falls in. */
  lemma DaysSnocInDay(ks: seq<LineKind>, k: LineKind, extract: string -> seq<string>)
    requires !k.DayLine? && Markers(ks) != []
    ensures |Days(ks, extract)| == |Markers(ks)|
    ensures Days(ks + [k], extract) == Days(ks, extract)[..|Markers(ks)| - 1] +
      [Extend(Days(ks, extract)[|Markers(ks)| - 1], SlotPlaces(k, extract))]
  {
    var d := Days(ks, extract);
    var n := |Markers(ks)|;
    DaysSnocLast(ks, k, extract);
    var a := Days(ks + [k], extract);
    forall j | 0 <= j < n - 1
      ensures a[j] == d[j]
    {
      DaysSnocKeeps(ks, k, j, extract);
    }
    ReplaceLast(a, d, Extend(d[n - 1], SlotPlaces(k, extract)));
  }

  /** What `parseItinerary` holds after the lines of kinds `ks`: the records of the
      closed days, and the number and places of the open one, if any. */
  ghost predicate Parsed(ks: seq<LineKind>, itinerary: seq<ItineraryDay>, currentDay: Option<nat>, places: seq<string>,
                         extract: string -> seq<string>) {
    match currentDay
    case None => itinerary == [] && Markers(ks) == []
    case Some(day) => Days(ks, extract) == itinerary + [ItineraryDay(day, places)]
  }

  lemma ParsedDayLine(ks: seq<LineKind>, k: LineKind, itinerary: seq<ItineraryDay>, currentDay: Option<nat>, places: seq<string>, extract: string -> seq<string>)
    requires Parsed(ks, itinerary, currentDay, places, extract) && k.DayLine?
    ensures Parsed(ks + [k], if currentDay.Some? then itinerary + [ItineraryDay(currentDay.value, places)] else itinerary, Some(k.day), [], extract)
  {
    DaysSnocDay(ks, k, extract);
    if currentDay.None? {
      assert Days(ks, extract) == [];
    }
  }

  lemma ParsedOtherLine(ks: seq<LineKind>, k: LineKind, itinerary: seq<ItineraryDay>, currentDay: Option<nat>, places: seq<string>, extract: string -> seq<string>)
    requires Parsed(ks, itinerary, currentDay, places, extract) && !k.DayLine?
    ensures currentDay.None? ==> Parsed(ks + [k], itinerary, currentDay, places, extract)
    ensures currentDay.Some? ==> Parsed(ks + [k], itinerary, currentDay, AddAll(places, SlotPlaces(k, extract)), extract)
  {
    if currentDay.None? {
      DaysSnocNone(ks, k, extract);
      MarkersSnoc(ks, k);
    } else {
      assert |Days(ks, extract)| == |Markers(ks)|;
      DaysSnocInDay(ks, k, extract);
      var d := Days(ks, extract);
      assert d[..|d| - 1] == itinerary;
    }
  }

  // ---------------------------------------------------------------- the loop as a fold

  /** The variables of the loop of `parseItinerary`: the records pushed so far, the
      open day (`null` is `None`) and that day's places. */
  datatype ParseState = ParseState(itinerary: seq<ItineraryDay>, currentDay: Option<nat>, places: seq<string>)

  /** One turn of the loop, for a line of kind `k`. */
  function Step(st: ParseState, k: LineKind, extract: string -> seq<string>): ParseState {
    match k
    case DayLine(d) =>
      ParseState(if st.currentDay.Some? then st.itinerary + [ItineraryDay(st.currentDay.value, st.places)] else st.itinerary,
                 Some(d), [])
    case _ =>
      if st.currentDay.Some? then ParseState(st.itinerary, st.currentDay, AddAll(st.places, SlotPlaces(k, extract)))
      else st
  }

  /** The loop run over lines of kinds `ks`, from the initial state. */
  function Run(ks: seq<LineKind>, extract: string -> seq<string>): ParseState
    decreases |ks|
  {
    if ks == [] then ParseState([], None, [])
    else Step(Run(ks[..|ks| - 1], extract), ks[|ks| - 1], extract)
  }

  /** After the loop: the open day, if any, is pushed as well. */
  function Finish(st: ParseState): seq<ItineraryDay> {
    if st.currentDay.Some? then st.itinerary + [ItineraryDay(st.currentDay.value, st.places)] else st.itinerary
  }

  lemma RunSnoc(ks: seq<LineKind>, k: LineKind, extract: string -> seq<string>)
    ensures Run(ks + [k], extract) == Step(Run(ks, extract), k, extract)
  {
    assert (ks + [k])[..|ks|] == ks;
  }

  /** Every state the loop reaches describes the records of the lines read so far. */
  lemma {:induction false} RunParsed(ks: seq<LineKind>, extract: string -> seq<string>)
    ensures Parsed(ks, Run(ks, extract).itinerary, Run(ks, extract).currentDay, Run(ks, extract).places, extract)
    decreases |ks|
  {
    if ks != [] {
      var init, k := ks[..|ks| - 1], ks[|ks| - 1];
      RunParsed(init, extract);
      var st := Run(init, extract);
      assert ks == init + [k];
      RunSnoc(init, k, extract);
      if k.DayLine? {
        ParsedDayLine(init, k, st.itinerary, st.currentDay, st.places, extract);
      } else {
        ParsedOtherLine(init, k, st.itinerary, st.currentDay, st.places, extract);
      }
    }
  }

  /** The loop followed by the final push yields the declarative itinerary `Days`. */
  lemma RunDays(ks: seq<LineKind>, extract: string -> seq<string>)
    ensures Finish(Run(ks, extract)) == Days(ks, extract)
  {
    RunParsed(ks, extract);
    if Run(ks, extract).currentDay.None? {
      assert Days(ks, extract) == [];
    }
  }

  // ---------------------------------------------------------------- the method

  /** The `forEach` of `parseItinerary`: each extracted name not yet among `places`
      (and not empty) is appended. */
  method MergePlaces(places: seq<string>, extracted: seq<string>) returns (merged: seq<string>)
    ensures merged == AddAll(places, extracted)
  {
    merged := places;
    for k := 0 to |extracted|
      invariant merged == AddAll(places, extracted[..k])
    {
      assert extracted[..k + 1][..k] == extracted[..k];
      var place := extracted[k];
      if place != [] && place !in merged {
        merged := merged + [place];
      }
    }
    assert extracted[..|extracted|] == extracted;
  }

  /** The body of the loop for a line inside a day: the trimmed text after a
      time-slot word, when there is some, contributes its place names. */
  method CollectSlotPlaces(raw: string, line: string, places: seq<string>) returns (merged: seq<string>)
    requires line == Trim(raw) && DayMarker(line).None?
    ensures merged == AddAll(places, SlotPlaces(Classify(raw), PlaceNames))
  {
    merged := places;
    var timeMatch := TimeSlot(line);
    if timeMatch.Some? {
      var placeText := Trim(timeMatch.value);
      if placeText != [] {
        var extracted := ExtractPlaceNames(placeText);
        merged := MergePlaces(places, extracted);
      }
    }
  }

  /** `parseItinerary(planText)`; a missing text is `None`. */
  method ParseItinerary(planText: Option<string>) returns (itinerary: seq<ItineraryDay>)
    ensures planText.None? || planText.value == [] ==> itinerary == []
    ensures planText.Some? && planText.value != [] ==> itinerary == Itinerary(SplitLines(planText.value), PlaceNames)
  {
    if planText.None? || planText.value == [] {
      return [];
    }
    var lines := SplitLines(planText.value);
    itinerary := [];
    var currentDay: Option<nat> := None;
    var places: seq<string> := [];
    ghost var ks: seq<LineKind> := [];
    for i := 0 to |lines|
      invariant ks == Kinds(lines[..i])
      invariant ParseState(itinerary, currentDay, places) == Run(ks, PlaceNames)
    {
      MapStep(Classify, lines, i);
      RunSnoc(ks, Classify(lines[i]), PlaceNames);
      ks := ks + [Classify(lines[i])];
      var line := Trim(lines[i]);
      var dayMatch := DayMarker(line);
      if dayMatch.Some? {
        if currentDay.Some? {
          itinerary := itinerary + [ItineraryDay(currentDay.value, places)];
        }
        currentDay := Some(dayMatch.value);
        places := [];
        continue;
      }
      if currentDay.Some? {
        places := CollectSlotPlaces(lines[i], line, places);
      }
    }
    assert lines[..|lines|] == lines;
    RunDays(ks, PlaceNames);
    if currentDay.Some? {
      itinerary := itinerary + [ItineraryDay(currentDay.value, places)];
    }
  }

  // ---------------------------------------------------------------- properties

  /** The day lines of `lines`, as indices. */
  function DayLines(lines: seq<string>): seq<nat> {
    Markers(Kinds(lines))
  }

  /** One record per day line, in the order of the lines, carrying that line's day
      number; a repeated number starts a record of its own. */
  lemma ItineraryDays(lines: seq<string>, extract: string -> seq<string>)
    ensures |Itinerary(lines, extract)| == |DayLines(lines)|
    ensures forall i, j :: 0 <= i < j < |DayLines(lines)| ==> DayLines(lines)[i] < DayLines(lines)[j]
    ensures forall j :: 0 <= j < |DayLines(lines)| ==>
      DayLines(lines)[j] < |lines| && DayMarker(Trim(lines[DayLines(lines)[j]])) == Some(Itinerary(lines, extract)[j].day)
    ensures forall i :: 0 <= i < |lines| && DayMarker(Trim(lines[i])).Some? ==> i in DayLines(lines)
  {
    var ks := Kinds(lines);
    MarkersBounded(ks);
    MarkersSorted(ks);
    MarkersComplete(ks);
    forall i | 0 <= i < |lines|
      ensures ks[i] == Classify(lines[i])
    {
      MapAt(Classify, lines, i);
    }
  }

  lemma {:induction false} HarvestMembers(ks: seq<LineKind>, x: string, extract: string -> seq<string>)
    ensures x in Harvest(ks, extract) <==> exists i :: 0 <= i < |ks| && x in SlotPlaces(ks[i], extract)
    decreases |ks|
  {
    if ks != [] {
      var init := ks[..|ks| - 1];
      HarvestMembers(init, x, extract);
      assert forall i :: 0 <= i < |init| ==> init[i] == ks[i];
      if x in SlotPlaces(ks[|ks| - 1], extract) {
        assert x in Harvest(ks, extract);
      }
    }
  }

  lemma DayRecordPlaces(ks: seq<LineKind>, m: nat, e: nat, extract: string -> seq<string>)
    requires m < e <= |ks| && ks[m].DayLine?
    ensures NoDuplicates(DayRecord(ks, m, e, extract).places) && [] !in DayRecord(ks, m, e, extract).places
    ensures forall x :: x in DayRecord(ks, m, e, extract).places <==>
      x != [] && exists i :: m < i < e && x in SlotPlaces(ks[i], extract)
    ensures forall a, b :: 0 <= a < b < |DayRecord(ks, m, e, extract).places| ==>
      SeenBefore(Harvest(ks[m + 1..e], extract), DayRecord(ks, m, e, extract).places[a], DayRecord(ks, m, e, extract).places[b])
  {
    var body := ks[m + 1..e];
    var harvest := Harvest(body, extract);
    AddAllWellFormed([], harvest);
    AddAllMembers([], harvest);
    AddAllFirstSeen(harvest);
    forall x
      ensures x in harvest <==> exists i :: m < i < e && x in SlotPlaces(ks[i], extract)
    {
      HarvestWindow(ks, m, e, x, extract);
    }
  }

  /** A name is harvested from the lines strictly between `m` and `e` exactly when one
      of those lines contributes it. */
  lemma HarvestWindow(ks: seq<LineKind>, m: nat, e: nat, x: string, extract: string -> seq<string>)
    requires m < e <= |ks|
    ensures x in Harvest(ks[m + 1..e], extract) <==> exists i :: m < i < e && x in SlotPlaces(ks[i], extract)
  {
    var body := ks[m + 1..e];
    HarvestMembers(body, x, extract);
    if x in Harvest(body, extract) {
      var t :| 0 <= t < |body| && x in SlotPlaces(body[t], extract);
      assert body[t] == ks[m + 1 + t];
    }
    if exists i :: m < i < e && x in SlotPlaces(ks[i], extract) {
      var i :| m < i < e && x in SlotPlaces(ks[i], extract);
      assert body[i - m - 1] == ks[i];
    }
  }

  /** No day line lies between a day line and the end of its day. */
  lemma NoDayLineBetween(ks: seq<LineKind>, j: nat)
    requires j < |Markers(ks)|
    ensures forall i :: Markers(ks)[j] < i < DayEnd(ks, j) ==> !ks[i].DayLine?
  {
    var ms := Markers(ks);
    MarkersSorted(ks);
    MarkersBounded(ks);
    MarkersComplete(ks);
    var s, e := ms[j], DayEnd(ks, j);
    forall i | s < i < e
      ensures !ks[i].DayLine?
    {
      forall q | 0 <= q < |ms|
        ensures ms[q] != i
      {
        if q < j {
          assert ms[q] < ms[j];
        } else if j < q {
          assert e == ms[j + 1] <= ms[q];
        }
      }
      assert i !in ms;
    }
  }

  /** The `j`th record holds exactly the names extracted from the time-slot lines
      after its day line and before the next one, each once, none empty, in the
      order of their first mention; no day line lies in between. */
  lemma DayPlaces(ks: seq<LineKind>, j: nat, extract: string -> seq<string>)
    requires j < |Markers(ks)|
    ensures forall i :: Markers(ks)[j] < i < DayEnd(ks, j) ==> !ks[i].DayLine?
    ensures NoDuplicates(Days(ks, extract)[j].places) && [] !in Days(ks, extract)[j].places
    ensures forall x :: x in Days(ks, extract)[j].places <==>
      x != [] && exists i :: Markers(ks)[j] < i < DayEnd(ks, j) && x in SlotPlaces(ks[i], extract)
    ensures forall a, b :: 0 <= a < b < |Days(ks, extract)[j].places| ==>
      SeenBefore(Harvest(ks[Markers(ks)[j] + 1..DayEnd(ks, j)], extract),
                 Days(ks, extract)[j].places[a], Days(ks, extract)[j].places[b])
  {
    DaysAt(ks, j, extract);
    NoDayLineBetween(ks, j);
    DayRecordPlaces(ks, Markers(ks)[j], DayEnd(ks, j), extract);
  }

  /** Lines with no day line among them leave the initial state untouched. */
  lemma {:induction false} RunStaysInitial(ks: seq<LineKind>, extract: string -> seq<string>)
    requires forall i :: 0 <= i < |ks| ==> !ks[i].DayLine?
    ensures Run(ks, extract) == ParseState([], None, [])
    decreases |ks|
  {
    if ks != [] {
      RunStaysInitial(ks[..|ks| - 1], extract);
    }
  }

  /** After lines that leave the initial state, the loop runs as from the start. */
  lemma {:induction false} RunAfter(a: seq<LineKind>, b: seq<LineKind>, extract: string -> seq<string>)
    requires Run(a, extract) == ParseState([], None, [])
    ensures Run(a + b, extract) == Run(b, extract)
    decreases |b|
  {
    if b == [] {
      assert a + b == a;
    } else {
      var init, k := b[..|b| - 1], b[|b| - 1];
      RunAfter(a, init, extract);
      assert a + b == (a + init) + [k];
      RunSnoc(a + init, k, extract);
      RunSnoc(init, k, extract);
      assert b == init + [k];
    }
  }

  /** Lines before the first day line, whatever they say, do not change the result. */
  lemma LeadingLinesIgnored(pre: seq<string>, rest: seq<string>, extract: string -> seq<string>)
    requires forall i :: 0 <= i < |pre| ==> DayMarker(Trim(pre[i])).None?
    ensures Itinerary(pre + rest, extract) == Itinerary(rest, extract)
  {
    var a, b := Kinds(pre), Kinds(rest);
    MapAppend(Classify, pre, rest);
    forall i | 0 <= i < |pre|
      ensures !a[i].DayLine?
    {
      MapAt(Classify, pre, i);
    }
    RunStaysInitial(a, extract);
    RunAfter(a, b, extract);
    RunDays(a + b, extract);
    RunDays(b, extract);
  }

  /** A day line as the app writes it: list marks (indentation, `-`, spaces), `第`,
      ASCII digits, `天`, then any text. Whatever white space surrounds it, it is a day
      line for the value of the digits. */
  lemma ClassifyDayLine(lead: string, digits: string, rest: string)
    requires AllListMarks(lead)
    requires digits != [] && AllDigits(digits)
    ensures Classify(lead + "第" + digits + "天" + rest) == DayLine(DecimalValue(digits))
  {
    var mid := "第" + digits + "天";
    assert mid[0] == '第' && mid[|mid| - 1] == '天';
    Group3(lead, "第", digits, "天", rest);
    TrimMarked(lead, mid, rest);
    var lead', rest' := TrimStart(lead), TrimEnd(rest);
    Group3(lead', "第", digits, "天", rest');
    DayMarkerMatches(lead', digits, rest');
  }

  /** A time-slot line as the app writes it: list marks, a time-slot word, an optional
      colon, then text whose line terminators, if any, are in its trailing white space
      (and which starts with no second colon when the colon is left out). Whatever white
      space surrounds it, it is a time-slot line whose description is the trimmed text. */
  lemma ClassifySlotLine(lead: string, word: string, colon: string, text: string)
    requires AllListMarks(lead)
    requires word in TimeSlotWords
    requires colon == [] || (|colon| == 1 && IsColon(colon[0]))
    requires colon == [] ==> text == [] || !IsColon(text[0])
    requires forall k :: 0 <= k < |TrimEnd(text)| ==> !IsLineTerminator(text[k])
    ensures Classify(lead + word + colon + text).SlotLine?
    ensures Classify(lead + word + colon + text).description == Trim(text)
  {
    TimeSlotWordShape(word);
    SlotLineTrim(lead, word, colon, text);
    var lead', text' := TrimStart(lead), TrimEnd(text);
    SlotTextTrimEnd(colon, text);
    TimeSlotMatches(lead', word, colon, text');
    Assoc4(lead', word, colon, text');
    DayMarkerAbsent(lead', word + (colon + text'));
    ClassifySlot(lead + word + colon + text, text');
    TrimAfterTrimEnd(text);
  }

  /** Trimming the end of slot text keeps its first character and drops its line
      terminators. */
  lemma SlotTextTrimEnd(colon: string, text: string)
    requires colon == [] ==> text == [] || !IsColon(text[0])
    requires forall k :: 0 <= k < |TrimEnd(text)| ==> !IsLineTerminator(text[k])
    ensures colon == [] ==> TrimEnd(text) == [] || !IsColon(TrimEnd(text)[0])
    ensures forall k :: 0 <= k < |TrimEnd(text)| ==> !IsLineTerminator(TrimEnd(text)[k])
  {
    var t := TrimEnd(text);
    assert forall k :: 0 <= k < |t| ==> t[k] == text[k];
  }

  /** A line whose trim has no day marker and a time slot with text `t` is a time-slot
      line describing `t` trimmed. */
  lemma ClassifySlot(raw: string, t: string)
    requires DayMarker(Trim(raw)).None? && TimeSlot(Trim(raw)) == Some(t)
    ensures Classify(raw) == SlotLine(Trim(t))
  {
  }

  /** Trimming a time-slot line trims the front of its marks, which stay list marks,
      and the back of its text. */
  lemma SlotLineTrim(lead: string, word: string, colon: string, text: string)
    requires AllListMarks(lead)
    requires |word| == 2 && !IsSpace(word[0]) && !IsSpace(word[1])
    requires colon == [] || (|colon| == 1 && !IsSpace(colon[0]))
    ensures Trim(lead + word + colon + text) == TrimStart(lead) + word + colon + TrimEnd(text)
    ensures AllListMarks(TrimStart(lead))
  {
    Assoc4(lead, word, colon, text);
    Assoc3(lead, word, colon + text);
    TrimMarked(lead, word, colon + text);
    if colon == [] {
      assert colon + text == text && colon + TrimEnd(text) == TrimEnd(text);
    } else {
      TrimEndAppend(colon, text);
    }
    Assoc4(TrimStart(lead), word, colon, TrimEnd(text));
    Assoc3(TrimStart(lead), word, colon + TrimEnd(text));
  }
}
