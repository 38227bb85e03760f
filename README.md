# Itinerary parser, modelled in Dafny

This project models the itinerary text parser of a travel-planning web app,
`src/utils/itineraryParser.js`. The parser turns free-form plan text into an ordered list of
`{day, places}` records:

- `parseItinerary` splits the text into lines and trims each one.
  - A `第N天` ("day N") line closes the open day and opens a new one.
  - Inside a day, every time-slot line (`上午`, `中午`, `下午`, `晚上`) hands its trimmed
    description to `extractPlaceNames`. New names are added to the day's list; a name
    already there is not added again.
- `extractPlaceNames` is a cascade of three strategies. Each later one runs only when the
  earlier ones found nothing:
  1. a fixed gazetteer of sights and restaurants;
  2. the contents of `【…】` spans, unless they include a qualifier term;
  3. the single-name heuristic `extractSinglePlaceName`.
- `extractSinglePlaceName` strips parenthesised notes, activity-keyword clauses, trailing
  keywords and one trailing separator, then trims. It rejects short results and transit
  instructions.

The modules:

- `JsText` (`jstext.dfy`) models the JavaScript string builtins the parser uses: `trim`,
  `split('\n')`, `includes` and `endsWith`. Strings are `seq<char>`. `trim` and the regex
  class `\s` share one white-space predicate. `StartsWith` is not a builtin the parser
  calls: it models a regular expression's literal text matching at a position.
- `Patterns` (`patterns.dfy`) writes each regular expression of the parser out as a
  scanning function over the one pattern it is used with:
  - the day-marker and time-slot line patterns;
  - the global `【…】` match;
  - the `(…)`/`（…）` removal and the keyword-clause removal;
  - the trailing-separator removal.
- `Seqs` (`seqs.dfy`) holds sequence helpers:
  - `AddAll`, the "append when new and not empty" loop the parser uses twice;
  - subsequences and first-seen order;
  - `Map`, which reads the per-line classification loop as a value.
- `PlaceExtraction` (`extraction.dfy`) models `extractPlaceNames` and `extractSinglePlaceName`:
  - The methods keep the source's loops.
  - Each method is proved equal to a specification function (`Cascade`, `HeuristicName`).
  - The lemmas state what those functions guarantee.
  - The strategies are generic in their word lists. `PlaceNames` instantiates them with the
    source's three constant lists.
- `ItineraryParser` (`itinerary.dfy`) models `parseItinerary`:
  - The meaning of a whole input is `Itinerary`: one record per day-marker line, holding the
    names from the time-slot lines up to the next marker.
  - The method `ParseItinerary` is the source's line loop, including its `continue`. It is
    proved to compute `Itinerary` through the fold `Run`, which models one loop step per
    line.

## Model

| member | source | states |
|---|---|---|
| ItineraryParser.ParseItinerary | src/utils/itineraryParser.js:6-64 | a missing or empty text gives `[]`; any other text gives `Itinerary` of its `'\n'`-separated lines with the real place extractor: one record per day-marker line, as the lemmas below describe |
| ItineraryParser.MergePlaces | src/utils/itineraryParser.js:45-49 | the `forEach` appends, in order, each extracted name that is non-empty and not yet in the list, and nothing else (`AddAll`) |
| ItineraryParser.CollectSlotPlaces | src/utils/itineraryParser.js:36-51 | for a trimmed line that is not a day marker, the names merged in are exactly those extracted from a non-empty time-slot description, and none for any other line |
| ItineraryParser.RunDays | src/utils/itineraryParser.js:9-61 | running the loop step over all lines and flushing the open day gives exactly one record per day line, with the names gathered up to the next day line |
| ItineraryParser.ItineraryDays | src/utils/itineraryParser.js:19-32 | there are as many records as day-marker lines; their lines are in ascending text order; record `j` carries the number parsed from the `j`-th marker line; every marker line is counted, repeats included |
| ItineraryParser.DayPlaces | src/utils/itineraryParser.js:25-50 | a record's names are exactly the non-empty names extracted from time-slot lines between its marker and the next one; no marker lies in between; the names have no duplicates and keep the order of first mention |
| ItineraryParser.DayRecordPlaces | src/utils/itineraryParser.js:30-50 | the record built from a day line and the lines up to an end index has distinct, non-empty names, exactly those extracted in between, in first-seen order |
| ItineraryParser.NoDayLineBetween | src/utils/itineraryParser.js:19-31 | between a day line and the end of its day there is no other day line, so names never leak from one day into another |
| ItineraryParser.HarvestMembers | src/utils/itineraryParser.js:38-49 | a name is among those gathered from a run of lines exactly when some line of the run contributes it |
| ItineraryParser.LeadingLinesIgnored | src/utils/itineraryParser.js:12-36 | lines before the first day marker, time-slot lines included, do not change the result at all |
| ItineraryParser.RunStaysInitial | src/utils/itineraryParser.js:12-36 | lines without a day marker leave the loop state at its start: no record, no open day, no names |
| ItineraryParser.RunAfter | src/utils/itineraryParser.js:15-53 | after lines that leave the loop state at its start, the loop proceeds exactly as if it had started there |
| ItineraryParser.ClassifyDayLine | src/utils/itineraryParser.js:16-30 | a raw line made of list marks (indentation, `-`, spaces), `第`, ASCII digits, `天` and any text is a day line whose number is the decimal value of the digits |
| ItineraryParser.ClassifySlotLine | src/utils/itineraryParser.js:16-41 | a raw line made of list marks, a slot word, an optional colon and text whose line terminators, if any, sit in its trailing white space (and which does not start with a second colon when the colon is left out) is a time-slot line whose description is the trimmed text; it is never a day line |
| ItineraryParser.SlotLineTrim | src/utils/itineraryParser.js:16 | trimming such a line cuts only the front of its list marks, which stay list marks, and the back of its text |
| ItineraryParser.HarvestWindow | src/utils/itineraryParser.js:36-49 | a name is gathered from the lines strictly between two indices exactly when one of those lines contributes it |
| PlaceExtraction.ExtractPlaceNames | src/utils/itineraryParser.js:71-126 | `extractPlaceNames` with the source's gazetteer, qualifier terms and keywords computes `PlaceNames` |
| PlaceExtraction.ExtractNames | src/utils/itineraryParser.js:72-125 | the three loops of `extractPlaceNames`, over any place and qualifier lists, compute the cascade: gazetteer hits, else bracket names, else the one name `extractSinglePlaceName` gives, else nothing |
| PlaceExtraction.ContainsAnyTerm | src/utils/itineraryParser.js:102-108 | the loop with `break` reports whether the place includes one of the terms |
| PlaceExtraction.ExtractSinglePlaceName | src/utils/itineraryParser.js:133-170 | `extractSinglePlaceName` computes `SinglePlaceName`, the heuristic with the source's keyword list |
| PlaceExtraction.ExtractName | src/utils/itineraryParser.js:134-169 | the cleaning steps, in the source's order, compute `HeuristicName`, with `''` for an empty text |
| PlaceExtraction.DeleteClauses | src/utils/itineraryParser.js:149-152 | the first `forEach` removes each keyword's clauses in list order (`StripClauses`) |
| PlaceExtraction.DeleteSuffixes | src/utils/itineraryParser.js:155-159 | the second `forEach` cuts each keyword once off the end, in list order, where the text ends with it (`StripSuffixes`) |
| PlaceExtraction.GazetteerFirst | src/utils/itineraryParser.js:88-95 | when the text includes a gazetteer entry, the result is exactly the entries it includes, in gazetteer order (a subsequence of the list); brackets and the heuristic are not consulted |
| PlaceExtraction.BracketsSecond | src/utils/itineraryParser.js:95-115 | with no gazetteer hit and a usable bracket, the result is the bracket names, which are non-empty, distinct, free of qualifier terms, exactly the usable bracket contents, in order of first appearance |
| PlaceExtraction.HeuristicLast | src/utils/itineraryParser.js:117-123 | only when neither earlier strategy yields a name does the heuristic decide, adding at most one name of length at least 2, without `乘坐地铁`, drawn from the text |
| PlaceExtraction.PlaceNamesWellFormed | src/utils/itineraryParser.js:88-123 | no extracted name is empty, and the names are pairwise distinct |
| PlaceExtraction.GazetteerDistinct | src/utils/itineraryParser.js:77-85 | the place list has no entry twice |
| PlaceExtraction.GazetteerDistinctFront | src/utils/itineraryParser.js:77-85 | the entries of the first half differ pairwise |
| PlaceExtraction.GazetteerDistinctAcross | src/utils/itineraryParser.js:77-85 | each entry of the first half differs from each of the second |
| PlaceExtraction.GazetteerDistinctBack | src/utils/itineraryParser.js:77-85 | the entries of the second half differ pairwise |
| PlaceExtraction.CascadeWellFormed | src/utils/itineraryParser.js:88-123 | for any lists of non-empty entries and keywords, no name of the cascade is empty, and the names are distinct whenever the entries are |
| PlaceExtraction.CascadeGazetteerFirst | src/utils/itineraryParser.js:88-95 | for any list of non-empty entries, a gazetteer hit makes the cascade return exactly the hits |
| PlaceExtraction.CascadeBracketsSecond | src/utils/itineraryParser.js:95-115 | without a gazetteer hit, a usable bracket makes the cascade return the non-empty bracket names |
| PlaceExtraction.CascadeHeuristicLast | src/utils/itineraryParser.js:117-123 | without a hit and a usable bracket, the cascade returns the heuristic's name alone (or nothing), and that name is at least 2 long, free of the transit marker and a subsequence of the text |
| PlaceExtraction.GazetteerHitsExact | src/utils/itineraryParser.js:88-92 | the hits are exactly the entries the text includes; they form a subsequence of the list and are distinct when the list is |
| PlaceExtraction.BracketNamesSpec | src/utils/itineraryParser.js:96-113 | bracket names are non-empty, distinct, free of qualifier terms, each the trimmed content of a match, every usable content is among them, and they are in first-seen order |
| PlaceExtraction.BracketNamesNone | src/utils/itineraryParser.js:96-113 | when every bracket content is empty or qualified, the bracket strategy yields nothing |
| PlaceExtraction.BracketCandidatesMember | src/utils/itineraryParser.js:98-111 | a content is a candidate exactly when it is the content of some match and includes no qualifier term |
| PlaceExtraction.HeuristicNameFromText | src/utils/itineraryParser.js:143-169 | the heuristic only deletes characters: its name is a subsequence of the text |
| PlaceExtraction.HeuristicKeepsName | src/utils/itineraryParser.js:143-169 | a description that already is a bare name (no notes, no keyword, no trailing separator or white space, length at least 2, no transit marker) comes through unchanged |
| PlaceExtraction.SinglePlaceNameKeepsName | src/utils/itineraryParser.js:133-169 | the same with the source's keyword list |
| PlaceExtraction.StripClauses | src/utils/itineraryParser.js:149-152 | clause removal keeps the order of what it keeps (a subsequence), and leaves a text with no keyword unchanged |
| PlaceExtraction.StripSuffixes | src/utils/itineraryParser.js:155-159 | trailing-keyword removal leaves a prefix of the text, and leaves a text ending with no keyword unchanged |
| PlaceExtraction.StripSuffixCut | src/utils/itineraryParser.js:156-157 | cutting a keyword off the end undoes appending it: the text before the keyword comes back exactly |
| PlaceExtraction.HeuristicName | src/utils/itineraryParser.js:162-169 | the heuristic's name is empty, or at least 2 long and free of `乘坐地铁` |
| PlaceExtraction.WithoutCornerBrackets | src/utils/itineraryParser.js:99 | `replace(/【\|】/g, '')` leaves no corner bracket, deletes only characters, and leaves text without corner brackets unchanged |
| PlaceExtraction.WithoutCornerBracketsAppend | src/utils/itineraryParser.js:99 | the global replacement works piece by piece: on a concatenation it is the concatenation of the results |
| PlaceExtraction.BracketContentOf | src/utils/itineraryParser.js:96-99 | the name a match `【x】` stands for is `x` trimmed |
| Patterns.DayMarkerMatches | src/utils/itineraryParser.js:19 | every line of the form list marks, `第`, digits, `天`, anything matches the day pattern with the digits' value |
| Patterns.DayMarkerParts | src/utils/itineraryParser.js:19 | conversely, every match of the day pattern has that form, and its number is the value of its digits |
| Patterns.DayMarkerAbsent | src/utils/itineraryParser.js:19 | a line whose first character after the list marks is not `第` does not match the day pattern |
| Patterns.TrimMarked | src/utils/itineraryParser.js:16 | trimming list marks, a stretch with visible ends and a tail cuts only the front of the marks, which stay list marks, and the back of the tail |
| Patterns.TimeSlotMatches | src/utils/itineraryParser.js:38 | every line of the form list marks, slot word, optional colon, newline-free text matches the slot pattern with that text as second group |
| Patterns.TimeSlotParts | src/utils/itineraryParser.js:38 | conversely, every match has that form, and the group stops at the first line terminator |
| Patterns.BracketMatchesSpans | src/utils/itineraryParser.js:96 | every match of `【([^】]+)】` is `【`, at least one character other than `】`, then `】` |
| Patterns.BracketMatchesSplit | src/utils/itineraryParser.js:96 | matches come in order of appearance: text without `【`, then a bracket span, then anything, gives that span followed by the matches of the rest |
| Patterns.BracketMatchesPre | src/utils/itineraryParser.js:96 | text without `【` in front does not change the matches |
| Patterns.BracketMatchesSkip | src/utils/itineraryParser.js:96 | a `【` followed at once by `】`, or never closed, starts no match, and the scan resumes one character later |
| Patterns.BracketMatchesNone | src/utils/itineraryParser.js:96-97 | text without `【` has no matches |
| Patterns.StripParenNotes | src/utils/itineraryParser.js:146 | removing `(…)` and `（…）` notes keeps the order of what it keeps, and leaves a text with no opening parenthesis unchanged |
| Patterns.StripParenNote | src/utils/itineraryParser.js:146 | a name followed by a one-line note in `(…)` or in `（…）` comes out as the name alone |
| Patterns.RemoveSpans | src/utils/itineraryParser.js:146 | one `O.*?C` replacement keeps a subsequence, and leaves a text without `O` unchanged |
| Patterns.RemoveSpansSplit | src/utils/itineraryParser.js:146 | text without `O`, then `O`, a stretch with no `C` and no line break, `C`, then a rest, loses exactly that span: the front is kept and the rest is handled on its own |
| Patterns.RemoveSpansPre | src/utils/itineraryParser.js:146 | text in front of the first `O` is kept unchanged |
| Patterns.RemoveSpansFirst | src/utils/itineraryParser.js:146 | a span from `O` to the first `C`, on one line, is removed |
| Patterns.RemoveSpansUnclosed | src/utils/itineraryParser.js:146 | an `O` with no `C` before the end of its line is kept, because the lazy `.*?` cannot cross the line break |
| Patterns.RemoveSpansCons | src/utils/itineraryParser.js:146 | a first character other than `O` is kept |
| Patterns.RemoveClauses | src/utils/itineraryParser.js:150-151 | one keyword's clause replacement keeps a subsequence, and leaves a text not including the keyword unchanged |
| Patterns.RemoveClausesSplit | src/utils/itineraryParser.js:150-151 | text at no position of which the keyword begins (it may hold the keyword's first character), then the keyword, a clause with no stop and its stop (or the end of the text), then a rest, loses exactly keyword, clause and stop |
| Patterns.RemoveClausesPre | src/utils/itineraryParser.js:150-151 | text at no position of which the keyword begins is kept unchanged, even where it holds the keyword's first character (`中华门` for `中午`) |
| Patterns.RemoveClausesFirst | src/utils/itineraryParser.js:150-151 | the keyword, the longest stop-free clause after it and one stop are removed together |
| Patterns.RemoveClausesCons | src/utils/itineraryParser.js:150-151 | a first character at which the keyword does not begin is kept |
| Patterns.DropTrailingMark | src/utils/itineraryParser.js:162 | at most one character goes, from the end, and one goes exactly when the text ends with one of `、,，.。;；` |
| Patterns.UpToLineEnd | src/utils/itineraryParser.js:38 | `(.*)` takes the longest prefix free of line terminators |
| JsText.Trim | src/utils/itineraryParser.js:16 | `trim` gives a result no longer than its input, with no white space at either end, and empty exactly when the input is all white space |
| JsText.TrimIdempotent | src/utils/itineraryParser.js:16 | trimming a trimmed text changes nothing |
| JsText.TrimFramed | src/utils/itineraryParser.js:16 | the trim is a stretch of the text with only white space before it and only white space after it |
| JsText.TrimAround | src/utils/itineraryParser.js:16 | trimming `pre + mid + post`, where `mid` has visible ends, trims only the front of `pre` and the back of `post` |
| JsText.TrimAfterTrimEnd | src/utils/itineraryParser.js:41 | trimming the end of a text before trimming it changes nothing |
| JsText.TrimStartAppend | src/utils/itineraryParser.js:16 | leading white space ends at the first visible character, wherever the text is cut |
| JsText.TrimEndAppend | src/utils/itineraryParser.js:16 | trailing white space starts after the last visible character, wherever the text is cut |
| JsText.BlankTrims | src/utils/itineraryParser.js:16 | an all-white-space text trims to nothing from either end |
| JsText.JoinSplit | src/utils/itineraryParser.js:10 | `split('\n')` loses nothing: joining the pieces with newlines gives the text back |
| JsText.SplitJoin | src/utils/itineraryParser.js:10 | newline-free pieces joined with newlines split back into the same pieces |
| JsText.ContainsIff | src/utils/itineraryParser.js:89 | `includes` holds exactly when the text occurs at some index |
| Seqs.AddAllMembers | src/utils/itineraryParser.js:45-49 | after the appending loop, a name is in the list exactly when it was there before, or it is non-empty and was offered |
| Seqs.AddAllWellFormed | src/utils/itineraryParser.js:45-49 | the appending loop keeps a list free of duplicates and empty names |
| Seqs.AddAllFirstSeen | src/utils/itineraryParser.js:110-112 | from an empty list, the loop keeps the names in the order of their first appearance |

## Left out

- Only `src/utils/itineraryParser.js` is modelled. The app's network, speech, storage and
  routing code is not part of this model. Those parts are LLM and WebSocket calls, audio
  capture, Firebase wrappers, a router and build configuration.
- A missing `planText` (`null`, `undefined`) is `None`. Other falsy values that are not
  strings are outside the model, because the function is only called with text.
- JavaScript strings are UTF-16 code units; the model uses Unicode scalar values (`char`).
  All constants are in the Basic Multilingual Plane, so they agree. Length checks on text
  with astral characters (`cleanedText.length < 2`) may differ.
- `parseInt` is the exact decimal value of the digits (`DecimalValue`). Precision loss above
  2^53 is not modelled.
- The regular expressions are modelled one by one, not JavaScript regular expressions in
  general:
  - `.` does not match line terminators, and the negated classes do.
  - The optional colon after a slot word is taken whenever it is there.
- PlaceExtraction.StripClauses: its own contract says only that it deletes characters and
  leaves keyword-free text alone. What one keyword removes is stated by
  `Patterns.RemoveClausesSplit`, and `StripClauses` applies that keyword by keyword.
- PlaceExtraction.StripSuffixes: its own contract says only that it leaves a prefix. What
  one keyword cuts is stated by `StripSuffixCut`.
- Patterns.RemoveSpans: its own contract states deletion and the unchanged case only. What
  each span does is stated by `RemoveSpansSplit`, `RemoveSpansPre`, `RemoveSpansFirst` and
  `RemoveSpansUnclosed`.
- Patterns.StripParenNotes: its own contract states deletion and the unchanged case only.
  What a note does is stated by `StripParenNote`.
- Patterns.RemoveClauses: its own contract states deletion and the unchanged case only.
  What each clause does is stated by `RemoveClausesSplit`, `RemoveClausesPre`,
  `RemoveClausesCons` and `RemoveClausesFirst`, for any text around the clause.
- Three behaviours of the code worth knowing, which the model keeps:
  - A description such as `前往市政广场，自由活动` gives no place. The keyword `前往` deletes
    everything up to the comma, and `自由活动` the rest.
  - A day number may be `0`.
  - A bracket of punctuation only, such as `【，，】`, is kept as a place name.
- The in-place `push` onto `itinerary` and `places` is modelled as appending to a sequence
  value. The copy `[...places]` is the same value. No aliasing can be observed.
