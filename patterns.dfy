/**
  The regular expressions of the itinerary parser, each written out as a scanning
  function over the one pattern it is used with: the day-marker and time-slot line
  patterns, the global corner-bracket match, and the global replacements that strip
  parenthesised notes and keyword clauses.
 */
module Patterns {
  import opened Wrappers
  import opened JsText
  import opened Seqs

  // ---------------------------------------------------------------- scanning helpers

  /** A character of the leading run `[-\s]*` both line patterns allow. */
  predicate IsListMark(c: char) {
    c == '-' || IsSpace(c)
  }

  /** Every character of `s` is a list mark. */
  predicate AllListMarks(s: string) {
    forall k :: 0 <= k < |s| ==> IsListMark(s[k])
  }

  /** The end of the run of list marks that starts at `i`. */
  function SkipListMarks(s: string, i: nat): (j: nat)
    requires i <= |s|
    ensures i <= j <= |s|
    ensures forall k :: i <= k < j ==> IsListMark(s[k])
    ensures j == |s| || !IsListMark(s[j])
    decreases |s| - i
  {
    if i < |s| && IsListMark(s[i]) then SkipListMarks(s, i + 1) else i
  }

  lemma SkipListMarksIs(s: string, i: nat, j: nat)
    requires i <= j <= |s|
    requires forall k :: i <= k < j ==> IsListMark(s[k])
    requires j == |s| || !IsListMark(s[j])
    ensures SkipListMarks(s, i) == j
  {
  }

  /** Trimming list marks, a stretch with visible ends, and a tail only trims the
      front of the marks (which stay list marks) and the back of the tail. */
  lemma TrimMarked(lead: string, mid: string, post: string)
    requires AllListMarks(lead)
    requires mid != [] && !IsSpace(mid[0]) && !IsSpace(mid[|mid| - 1])
    ensures Trim(lead + mid + post) == TrimStart(lead) + mid + TrimEnd(post)
    ensures AllListMarks(TrimStart(lead))
  {
    TrimAround(lead, mid, post);
    ListMarksSuffix(lead, |lead| - |TrimStart(lead)|);
  }

  /** What follows list marks is list marks. */
  lemma ListMarksSuffix(lead: string, i: nat)
    requires AllListMarks(lead) && i <= |lead|
    ensures AllListMarks(lead[i..])
  {
    assert forall k :: 0 <= k < |lead| - i ==> lead[i..][k] == lead[i + k];
  }

  /** An ASCII digit, the regex class `\d`. */
  predicate IsDigit(c: char) {
    '0' <= c <= '9'
  }

  /** Every character of `s` is a digit. */
  predicate AllDigits(s: string) {
    forall k :: 0 <= k < |s| ==> IsDigit(s[k])
  }

  /** The end of the run of digits that starts at `i`. */
  function DigitRun(s: string, i: nat): (j: nat)
    requires i <= |s|
    ensures i <= j <= |s|
    ensures forall k :: i <= k < j ==> IsDigit(s[k])
    ensures j == |s| || !IsDigit(s[j])
    decreases |s| - i
  {
    if i < |s| && IsDigit(s[i]) then DigitRun(s, i + 1) else i
  }

  lemma DigitRunIs(s: string, i: nat, j: nat)
    requires i <= j <= |s|
    requires forall k :: i <= k < j ==> IsDigit(s[k])
    requires j == |s| || !IsDigit(s[j])
    ensures DigitRun(s, i) == j
  {
  }

  /** `parseInt` of a string of ASCII digits, read in base ten. */
  function DecimalValue(ds: string): nat
    requires AllDigits(ds)
    decreases |ds|
  {
    if ds == [] then 0
    else
      var d := ds[|ds| - 1];
      assert IsDigit(d);
      10 * DecimalValue(ds[..|ds| - 1]) + (d as int - '0' as int)
  }

  /** The first index at or after `i` that holds `c`, or `|s|`. */
  function IndexOfFrom(s: string, c: char, i: nat): (j: nat)
    requires i <= |s|
    ensures i <= j <= |s|
    ensures forall k :: i <= k < j ==> s[k] != c
    ensures j == |s| || s[j] == c
    decreases |s| - i
  {
    if i < |s| && s[i] != c then IndexOfFrom(s, c, i + 1) else i
  }

  lemma IndexOfFromIs(s: string, c: char, i: nat, j: nat)
    requires i <= j <= |s|
    requires forall k :: i <= k < j ==> s[k] != c
    requires j == |s| || s[j] == c
    ensures IndexOfFrom(s, c, i) == j
  {
  }

  // ---------------------------------------------------------------- day marker

  /** `line.match(/^[-\s]*第(\d+)天[：:]?/)`, giving `parseInt` of the captured digits.
      The optional colon cannot change whether or what the pattern matches. */
  function DayMarker(line: string): Option<nat> {
    var p := SkipListMarks(line, 0);
    if p < |line| && line[p] == '第' then
      var q := DigitRun(line, p + 1);
      if p + 1 < q < |line| && line[q] == '天' then Some(DecimalValue(line[p + 1..q])) else None
    else None
  }

  /** A day marker read off positions: list marks up to `p`, `第` at `p`, digits
      strictly between, `天` at `q`. */
  lemma DayMarkerAt(line: string, p: nat, q: nat)
    requires p + 1 < q < |line|
    requires AllListMarks(line[..p])
    requires line[p] == '第' && line[q] == '天'
    requires AllDigits(line[p + 1..q])
    ensures DayMarker(line) == Some(DecimalValue(line[p + 1..q]))
  {
    assert forall k :: 0 <= k < p ==> line[k] == line[..p][k];
    assert forall k :: p + 1 <= k < q ==> line[k] == line[p + 1..q][k - p - 1];
    SkipListMarksIs(line, 0, p);
    DigitRunIs(line, p + 1, q);
  }

  /** Every line of the form marks, `第`, digits, `天`, anything is a day marker for
      the value of its digits. */
  lemma DayMarkerMatches(lead: string, digits: string, rest: string)
    requires AllListMarks(lead)
    requires digits != [] && AllDigits(digits)
    ensures DayMarker(lead + "第" + digits + "天" + rest) == Some(DecimalValue(digits))
  {
    var tail := "天" + rest;
    var mid := digits + tail;
    var r := "第" + mid;
    var line := lead + r;
    Assoc5(lead, "第", digits, "天", rest);
    var p, q := |lead|, |lead| + 1 + |digits|;
    assert line[..p] == lead;
    assert line[p..] == r;
    assert line[p] == r[0] == '第';
    assert line[p + 1..] == r[1..] == mid;
    assert line[p + 1..q] == mid[..|digits|] == digits;
    assert line[q] == mid[|digits|] == tail[0] == '天';
    DayMarkerAt(line, p, q);
  }

  /** After the list marks, anything but `第` means there is no day marker. */
  lemma DayMarkerAbsent(lead: string, rest: string)
    requires AllListMarks(lead)
    requires rest != [] && !IsListMark(rest[0]) && rest[0] != '第'
    ensures DayMarker(lead + rest).None?
  {
    var line := lead + rest;
    assert forall k :: 0 <= k < |lead| ==> line[k] == lead[k];
    assert line[|lead|] == rest[0];
    SkipListMarksIs(line, 0, |lead|);
  }

  /** A line cut around two positions `p < q` into five pieces. */
  lemma CutAround(line: string, p: nat, q: nat)
    requires p < q < |line|
    ensures line == line[..p] + [line[p]] + line[p + 1..q] + [line[q]] + line[q + 1..]
  {
    SliceCons(line, q);
    SliceSplit(line, p + 1, q);
    SliceCons(line, p);
    SliceSplit(line, 0, p);
    assert line[0..] == line && line[0..p] == line[..p];
    Assoc5(line[..p], [line[p]], line[p + 1..q], [line[q]], line[q + 1..]);
  }

  /** The run of list marks found from the start of a line is all list marks. */
  lemma ListMarksLead(line: string)
    ensures AllListMarks(line[..SkipListMarks(line, 0)])
  {
    var p := SkipListMarks(line, 0);
    assert forall k :: 0 <= k < p ==> line[..p][k] == line[k];
  }

  /** A run of digits found from `i` is all digits. */
  lemma DigitsRun(line: string, i: nat)
    requires i <= |line|
    ensures AllDigits(line[i..DigitRun(line, i)])
  {
    var q := DigitRun(line, i);
    assert forall k :: 0 <= k < q - i ==> line[i..q][k] == line[i + k];
  }

  /** Conversely, a day marker has that form. */
  lemma DayMarkerParts(line: string) returns (lead: string, digits: string, rest: string)
    requires DayMarker(line).Some?
    ensures line == lead + "第" + digits + "天" + rest
    ensures AllListMarks(lead)
    ensures digits != [] && AllDigits(digits)
    ensures DayMarker(line) == Some(DecimalValue(digits))
  {
    var p := SkipListMarks(line, 0);
    var q := DigitRun(line, p + 1);
    lead, digits, rest := line[..p], line[p + 1..q], line[q + 1..];
    ListMarksLead(line);
    DigitsRun(line, p + 1);
    CutAround(line, p, q);
    assert [line[p]] == "第" && [line[q]] == "天";
  }

  // ---------------------------------------------------------------- time slot

  /** The four words a time-slot line starts with: morning, noon, afternoon, evening. */
  const TimeSlotWords: seq<string> := ["上午", "中午", "下午", "晚上"]

  predicate IsColon(c: char) {
    c == '：' || c == ':'
  }

  /** What `(.*)` captures: the longest prefix without a line terminator. */
  function UpToLineEnd(s: string): (r: string)
    ensures |r| <= |s| && r == s[..|r|]
    ensures forall k :: 0 <= k < |r| ==> !IsLineTerminator(r[k])
    ensures |r| == |s| || IsLineTerminator(s[|r|])
    decreases |s|
  {
    if s == [] || IsLineTerminator(s[0]) then [] else [s[0]] + UpToLineEnd(s[1..])
  }

  /** `line.match(/^[-\s]*(上午|中午|下午|晚上)[：:]?(.*)/)`, giving the second group.
      The optional colon is taken whenever it is there. */
  function TimeSlot(line: string): Option<string> {
    var p := SkipListMarks(line, 0);
    if p + 2 <= |line| && line[p..p + 2] in TimeSlotWords then
      var q := if p + 2 < |line| && IsColon(line[p + 2]) then p + 3 else p + 2;
      Some(UpToLineEnd(line[q..]))
    else None
  }

  /** Each time-slot word is two characters; the first is no list mark, colon or `第`,
      the second is not white space. */
  lemma TimeSlotWordShape(word: string)
    requires word in TimeSlotWords
    ensures |word| == 2 && !IsListMark(word[0]) && !IsColon(word[0]) && word[0] != '第'
    ensures !IsSpace(word[1])
  {
  }

  /** A time slot read off positions: list marks up to `p`, a time-slot word at `p`. */
  lemma TimeSlotAt(line: string, p: nat)
    requires p + 2 <= |line| && line[p..p + 2] in TimeSlotWords
    requires AllListMarks(line[..p])
    ensures TimeSlot(line) ==
      Some(UpToLineEnd(line[if p + 2 < |line| && IsColon(line[p + 2]) then p + 3 else p + 2..]))
  {
    TimeSlotWordShape(line[p..p + 2]);
    assert line[p] == line[p..p + 2][0];
    assert forall k :: 0 <= k < p ==> line[k] == line[..p][k];
    SkipListMarksIs(line, 0, p);
  }

  /** Text free of line terminators is captured whole. */
  lemma UpToLineEndWhole(text: string)
    requires forall k :: 0 <= k < |text| ==> !IsLineTerminator(text[k])
    ensures UpToLineEnd(text) == text
  {
  }

  /** Every line of the form marks, time word, optional colon, text is a time-slot
      line whose description is that text. */
  lemma TimeSlotMatches(lead: string, word: string, colon: string, text: string)
    requires AllListMarks(lead)
    requires word in TimeSlotWords
    requires colon == [] || (|colon| == 1 && IsColon(colon[0]))
    requires colon == [] ==> text == [] || !IsColon(text[0])
    requires forall k :: 0 <= k < |text| ==> !IsLineTerminator(text[k])
    ensures TimeSlot(lead + word + colon + text) == Some(text)
  {
    TimeSlotWordShape(word);
    var after := colon + text;
    var r := word + after;
    var line := lead + r;
    Assoc4(lead, word, colon, text);
    var p := |lead|;
    assert line[p..p + 2] == word by {
      assert line[p..] == r;
      assert r[..2] == word;
    }
    var q := p + 2 + |colon|;
    assert line[p + 2..] == after by {
      assert line[p..] == r;
      assert r[2..] == after;
    }
    if colon != [] {
      assert line[p + 2] == colon[0];
      assert after[1..] == text;
    } else if text != [] {
      assert line[p + 2] == text[0];
    }
    assert line[q..] == text;
    TimeSlotAt(line, p);
    UpToLineEndWhole(text);
  }

  /** Conversely, a time-slot line has that form, and its description stops at the
      first line terminator. */
  lemma TimeSlotParts(line: string) returns (lead: string, word: string, colon: string, text: string, tail: string)
    requires TimeSlot(line).Some?
    ensures line == lead + word + colon + text + tail
    ensures AllListMarks(lead)
    ensures word in TimeSlotWords
    ensures colon == [] || (|colon| == 1 && IsColon(colon[0]))
    ensures forall k :: 0 <= k < |text| ==> !IsLineTerminator(text[k])
    ensures tail == [] || IsLineTerminator(tail[0])
    ensures TimeSlot(line) == Some(text)
  {
    var p := SkipListMarks(line, 0);
    var q := if p + 2 < |line| && IsColon(line[p + 2]) then p + 3 else p + 2;
    var after := line[q..];
    text := UpToLineEnd(after);
    lead, word, colon, tail := line[..p], line[p..p + 2], line[p + 2..q], after[|text|..];
    ListMarksLead(line);
    if q == p + 3 {
      assert colon[0] == line[p + 2];
    }
    assert after == text + tail;
    CutThree(line, p, p + 2, q);
    Assoc4(lead, word, colon, after);
    Assoc5(lead, word, colon, text, tail);
  }

  /** A line cut at three positions into four pieces. */
  lemma CutThree(line: string, x: nat, y: nat, z: nat)
    requires x <= y <= z <= |line|
    ensures line == line[..x] + line[x..y] + line[y..z] + line[z..]
  {
    SliceSplit(line, y, z);
    SliceSplit(line, x, y);
    SliceSplit(line, 0, x);
    assert line[0..] == line && line[0..x] == line[..x];
    Assoc4(line[..x], line[x..y], line[y..z], line[z..]);
  }

  // ---------------------------------------------------------------- corner brackets

  /** A whole match of `【([^】]+)】`. */
  predicate IsBracketSpan(m: string) {
    |m| >= 3 && m[0] == '【' && m[|m| - 1] == '】' && forall k :: 0 < k < |m| - 1 ==> m[k] != '】'
  }

  /** `s.match(/【([^】]+)】/g)`: the whole matches, left to right. A `【` that is not
      followed by at least one character and then a `】` does not start a match, and
      the scan resumes one character later; after a match it resumes behind the `】`. */
  function BracketMatches(s: string): seq<string>
    decreases |s|
  {
    if s == [] then []
    else if s[0] == '【' then
      var j := IndexOfFrom(s, '】', 1);
      if 1 < j < |s| then [s[..j + 1]] + BracketMatches(s[j + 1..])
      else BracketMatches(s[1..])
    else BracketMatches(s[1..])
  }

  /** Every match is a bracket span: `【`, at least one character other than `】`, `】`. */
  lemma {:induction false} BracketMatchesSpans(s: string)
    ensures forall k :: 0 <= k < |BracketMatches(s)| ==> IsBracketSpan(BracketMatches(s)[k])
    decreases |s|
  {
    if s != [] {
      var j := IndexOfFrom(s, '】', 1);
      if s[0] == '【' && 1 < j < |s| {
        var m := s[..j + 1];
        assert forall t :: 0 < t < |m| - 1 ==> m[t] == s[t];
        BracketMatchesSpans(s[j + 1..]);
      } else {
        BracketMatchesSpans(s[1..]);
      }
    }
  }

  /** Text without `【` in front is passed over. */
  lemma {:induction false} BracketMatchesPre(pre: string, rest: string)
    requires '【' !in pre
    ensures BracketMatches(pre + rest) == BracketMatches(rest)
    decreases |pre|
  {
    if pre != [] {
      var s := pre + rest;
      assert pre[0] in pre;
      assert s[0] == pre[0] && s[1..] == pre[1..] + rest;
      assert forall c :: c in pre[1..] ==> c in pre;
      assert s[0] != '【';
      assert BracketMatches(s) == BracketMatches(s[1..]);
      BracketMatchesPre(pre[1..], rest);
    } else {
      assert pre + rest == rest;
    }
  }

  /** A `【` that starts no match, because `】` follows it at once (`【】`) or nothing
      closes it, is passed over, and the scan resumes one character later. */
  lemma BracketMatchesSkip(s: string, j: nat)
    requires 1 <= j <= |s| && s[0] == '【'
    requires forall k :: 1 <= k < j ==> s[k] != '】'
    requires j == |s| || s[j] == '】'
    requires j == 1 || j == |s|
    ensures BracketMatches(s) == BracketMatches(s[1..])
  {
    IndexOfFromIs(s, '】', 1, j);
  }

  /** A bracket span in front is the first match, and the scan goes on behind it. */
  lemma BracketMatchesSpanFirst(m: string, post: string)
    requires IsBracketSpan(m)
    ensures BracketMatches(m + post) == [m] + BracketMatches(post)
  {
    var s := m + post;
    var j := |m| - 1;
    forall t | 1 <= t < j
      ensures s[t] != '】'
    {
      assert s[t] == m[t];
    }
    assert s[j] == m[j];
    IndexOfFromIs(s, '】', 1, j);
    assert s[..j + 1] == m && s[j + 1..] == post;
  }

  /** Matches are found in order of appearance: text free of `【`, then a bracket span,
      then anything, yields that span followed by the matches of the rest. */
  lemma BracketMatchesSplit(pre: string, m: string, post: string)
    requires '【' !in pre
    requires IsBracketSpan(m)
    ensures BracketMatches(pre + m + post) == [m] + BracketMatches(post)
  {
    assert pre + m + post == pre + (m + post);
    BracketMatchesPre(pre, m + post);
    BracketMatchesSpanFirst(m, post);
  }

  /** Text without `【` has no bracket matches. */
  lemma BracketMatchesNone(s: string)
    requires '【' !in s
    ensures BracketMatches(s) == []
  {
    BracketMatchesPre(s, []);
    assert s + [] == s;
  }

  // ---------------------------------------------------------------- parenthesised notes

  /** The first index at or after `i` that holds `close` or a line terminator, or `|s|`. */
  function SpanClose(s: string, close: char, i: nat): (j: nat)
    requires i <= |s|
    ensures i <= j <= |s|
    ensures forall k :: i <= k < j ==> s[k] != close && !IsLineTerminator(s[k])
    decreases |s| - i
  {
    if i < |s| && s[i] != close && !IsLineTerminator(s[i]) then SpanClose(s, close, i + 1) else i
  }

  /** Keeping the first character in front of a subsequence of the rest gives a
      subsequence. */
  lemma KeepFirst(s: string, r: string)
    requires s != [] && IsSubsequence(r, s[1..])
    ensures IsSubsequence([s[0]] + r, s)
  {
    assert ([s[0]] + r)[1..] == r;
  }

  /** `s.replace(/O.*?C/g, '')` for one-character delimiters `O` and `C`: an `O`
      followed on the same line by a `C` is removed with everything up to the first
      such `C`; every other character is kept. The result keeps the order of what it
      keeps, and text without `O` comes through unchanged. */
  function RemoveSpans(s: string, open: char, close: char): (r: string)
    ensures IsSubsequence(r, s)
    ensures open !in s ==> r == s
    decreases |s|
  {
    if s == [] then []
    else
      var j := SpanClose(s, close, 1);
      if s[0] == open && j < |s| && s[j] == close then
        var r := RemoveSpans(s[j + 1..], open, close);
        SubsequenceOfSuffix(r, s, j + 1);
        r
      else
        var r := RemoveSpans(s[1..], open, close);
        KeepFirst(s, r);
        assert open !in s ==> open !in s[1..] && s == [s[0]] + s[1..];
        [s[0]] + r
  }

  /** `.replace(/\(.*?\)/g, '').replace(/（.*?）/g, '')`. */
  function StripParenNotes(s: string): (r: string)
    ensures IsSubsequence(r, s)
    ensures '(' !in s && '（' !in s ==> r == s
  {
    var t := RemoveSpans(s, '(', ')');
    var r := RemoveSpans(t, '（', '）');
    SubsequenceTrans(r, t, s);
    r
  }

  /** `SpanClose` read off a position: the stretch from `i` to `j` holds no `close`
      and no line terminator, and `j` ends it. */
  lemma SpanCloseIs(s: string, close: char, i: nat, j: nat)
    requires i <= j <= |s|
    requires forall k :: i <= k < j ==> s[k] != close && !IsLineTerminator(s[k])
    requires j == |s| || s[j] == close || IsLineTerminator(s[j])
    ensures SpanClose(s, close, i) == j
    decreases j - i
  {
  }

  /** A first character that does not open a closed span is kept. */
  lemma RemoveSpansHead(s: string, open: char, close: char)
    requires s != []
    requires s[0] != open || SpanClose(s, close, 1) == |s| || s[SpanClose(s, close, 1)] != close
    ensures RemoveSpans(s, open, close) == [s[0]] + RemoveSpans(s[1..], open, close)
  {
  }

  /** Text before the first `open` comes through span removal unchanged. */
  lemma {:induction false} RemoveSpansPre(pre: string, rest: string, open: char, close: char)
    requires open !in pre
    ensures RemoveSpans(pre + rest, open, close) == pre + RemoveSpans(rest, open, close)
    decreases |pre|
  {
    if pre == [] {
      assert pre + rest == rest;
    } else {
      var c, tail := pre[0], pre[1..];
      assert pre == [c] + tail && c in pre;
      assert open !in tail by {
        assert forall x :: x in tail ==> x in pre;
      }
      Assoc3([c], tail, rest);
      RemoveSpansCons(c, tail + rest, open, close);
      RemoveSpansPre(tail, rest, open, close);
      Assoc3([c], tail, RemoveSpans(rest, open, close));
    }
  }

  /** A character other than `open` in front is kept. */
  lemma RemoveSpansCons(c: char, t: string, open: char, close: char)
    requires c != open
    ensures RemoveSpans([c] + t, open, close) == [c] + RemoveSpans(t, open, close)
  {
    var s := [c] + t;
    assert s[0] == c && s[1..] == t;
    RemoveSpansHead(s, open, close);
  }

  /** A span `open mid close`, with no `close` and no line break inside, is removed. */
  lemma RemoveSpansFirst(mid: string, post: string, open: char, close: char)
    requires close !in mid
    requires forall k :: 0 <= k < |mid| ==> !IsLineTerminator(mid[k])
    ensures RemoveSpans([open] + mid + [close] + post, open, close) == RemoveSpans(post, open, close)
  {
    var s := [open] + mid + [close] + post;
    var j := 1 + |mid|;
    assert forall k :: 1 <= k < j ==> s[k] == mid[k - 1];
    assert s[j] == close;
    SpanCloseIs(s, close, 1, j);
    assert s[j + 1..] == post;
  }

  /** An `open` with no `close` before the end of its line, at `j`, is kept. */
  lemma RemoveSpansUnclosed(s: string, open: char, close: char, j: nat)
    requires 1 <= j <= |s| && s[0] == open && !IsLineTerminator(close)
    requires forall k :: 1 <= k < j ==> s[k] != close && !IsLineTerminator(s[k])
    requires j == |s| || IsLineTerminator(s[j])
    ensures RemoveSpans(s, open, close) == [open] + RemoveSpans(s[1..], open, close)
  {
    SpanCloseIs(s, close, 1, j);
    RemoveSpansHead(s, open, close);
  }

  /** Span removal on text made of a part with no `open`, one span and a rest: the
      part is kept, the span goes, the rest is handled on its own. */
  lemma RemoveSpansSplit(pre: string, mid: string, post: string, open: char, close: char)
    requires open !in pre && close !in mid
    requires forall k :: 0 <= k < |mid| ==> !IsLineTerminator(mid[k])
    ensures RemoveSpans(pre + ([open] + mid + [close] + post), open, close)
      == pre + RemoveSpans(post, open, close)
  {
    RemoveSpansPre(pre, [open] + mid + [close] + post, open, close);
    RemoveSpansFirst(mid, post, open, close);
  }

  /** A name followed by a note in parentheses, half- or full-width, loses the note. */
  lemma StripParenNote(name: string, note: string)
    requires '(' !in name && '（' !in name
    requires ')' !in note && '）' !in note && '(' !in note && '（' !in note
    requires forall k :: 0 <= k < |note| ==> !IsLineTerminator(note[k])
    ensures StripParenNotes(name + ("(" + note + ")")) == name
    ensures StripParenNotes(name + ("（" + note + "）")) == name
  {
    RemoveSpansSplit(name, note, [], '(', ')');
    assert name + ("(" + note + ")") == name + (['('] + note + [')'] + []);
    var full := name + ("（" + note + "）");
    assert '(' !in full by {
      assert forall c :: c in full ==> c in name || c in note || c == '（' || c == '）';
    }
    RemoveSpansSplit(name, note, [], '（', '）');
    assert full == name + (['（'] + note + ['）'] + []);
  }

  // ---------------------------------------------------------------- keyword clauses

  /** The marks `[,，.。]` that end a clause. */
  predicate IsClauseStop(c: char) {
    c == ',' || c == '，' || c == '.' || c == '。'
  }

  /** The first clause stop at or after `i`, or `|s|`. */
  function StopFrom(s: string, i: nat): (j: nat)
    requires i <= |s|
    ensures i <= j <= |s|
    ensures forall k :: i <= k < j ==> !IsClauseStop(s[k])
    ensures j == |s| || IsClauseStop(s[j])
    decreases |s| - i
  {
    if i < |s| && !IsClauseStop(s[i]) then StopFrom(s, i + 1) else i
  }

  /** `s.replace(new RegExp(k + '[^,，.。]*[,，.。]?', 'g'), '')`: each occurrence of
      `k` goes, together with everything after it up to and including the next clause
      stop (or to the end). The result keeps the order of what it keeps, and text not
      containing `k` comes through unchanged. */
  function RemoveClauses(s: string, k: string): (r: string)
    requires k != []
    ensures IsSubsequence(r, s)
    ensures !Contains(s, k) ==> r == s
    decreases |s|
  {
    if s == [] then []
    else if StartsWith(s, k) then
      StartsWithIff(s, k);
      var e := StopFrom(s, |k|);
      var next := if e < |s| then e + 1 else e;
      var r := RemoveClauses(s[next..], k);
      SubsequenceOfSuffix(r, s, next);
      r
    else
      var r := RemoveClauses(s[1..], k);
      KeepFirst(s, r);
      assert s == [s[0]] + s[1..];
      [s[0]] + r
  }

  /** `StopFrom` read off a position: no clause stop from `i` to `j`, and `j` ends it. */
  lemma StopFromIs(s: string, i: nat, j: nat)
    requires i <= j <= |s|
    requires forall k :: i <= k < j ==> !IsClauseStop(s[k])
    requires j == |s| || IsClauseStop(s[j])
    ensures StopFrom(s, i) == j
    decreases j - i
  {
  }

  /** Text at no position of which the keyword begins comes through clause removal
      unchanged, even where it holds the keyword's first character. */
  lemma {:induction false} RemoveClausesPre(pre: string, rest: string, k: string)
    requires k != []
    requires forall i :: 0 <= i < |pre| ==> !StartsWith((pre + rest)[i..], k)
    ensures RemoveClauses(pre + rest, k) == pre + RemoveClauses(rest, k)
    decreases |pre|
  {
    if pre == [] {
      assert pre + rest == rest;
    } else {
      var c, tail := pre[0], pre[1..];
      assert pre == [c] + tail;
      Assoc3([c], tail, rest);
      assert (pre + rest)[0..] == [c] + (tail + rest);
      forall i | 0 <= i < |tail|
        ensures !StartsWith((tail + rest)[i..], k)
      {
        assert (tail + rest)[i..] == (pre + rest)[i + 1..];
      }
      RemoveClausesCons(c, tail + rest, k);
      RemoveClausesPre(tail, rest, k);
      Assoc3([c], tail, RemoveClauses(rest, k));
    }
  }

  /** A first character at which the keyword does not begin is kept. */
  lemma RemoveClausesCons(c: char, t: string, k: string)
    requires k != [] && !StartsWith([c] + t, k)
    ensures RemoveClauses([c] + t, k) == [c] + RemoveClauses(t, k)
  {
    var s := [c] + t;
    assert s[0] == c && s[1..] == t;
  }

  /** The keyword, its clause (no stop in it) and the stop that ends the clause (none
      at the end of the text) are removed together. */
  lemma RemoveClausesFirst(k: string, clause: string, stop: string, post: string)
    requires k != []
    requires forall i :: 0 <= i < |clause| ==> !IsClauseStop(clause[i])
    requires (stop == [] && post == []) || (|stop| == 1 && IsClauseStop(stop[0]))
    ensures RemoveClauses(k + clause + stop + post, k) == RemoveClauses(post, k)
  {
    var s := k + clause + stop + post;
    var e := |k| + |clause|;
    assert s[..|k|] == k;
    StartsWithIff(s, k);
    assert forall i :: |k| <= i < e ==> s[i] == clause[i - |k|];
    assert e < |s| ==> s[e] == stop[0];
    StopFromIs(s, |k|, e);
    assert s[e + |stop|..] == post;
  }

  /** Clause removal on text made of a part at no position of which the keyword begins,
      one clause and a rest: the part is kept, the clause goes, the rest is handled on its
      own. */
  lemma RemoveClausesSplit(pre: string, k: string, clause: string, stop: string, post: string)
    requires k != []
    requires forall i :: 0 <= i < |pre| ==> !StartsWith((pre + (k + clause + stop + post))[i..], k)
    requires forall i :: 0 <= i < |clause| ==> !IsClauseStop(clause[i])
    requires (stop == [] && post == []) || (|stop| == 1 && IsClauseStop(stop[0]))
    ensures RemoveClauses(pre + (k + clause + stop + post), k) == pre + RemoveClauses(post, k)
  {
    RemoveClausesPre(pre, k + clause + stop + post, k);
    RemoveClausesFirst(k, clause, stop, post);
  }

  // ---------------------------------------------------------------- trailing mark

  predicate IsTrailingMark(c: char) {
    c == '、' || c == ',' || c == '，' || c == '.' || c == '。' || c == ';' || c == '；'
  }

  /** `s.replace(/[、,，.。;；]$/, '')`: one trailing separator goes. */
  function DropTrailingMark(s: string): (r: string)
    ensures |s| - 1 <= |r| <= |s| && r == s[..|r|]
    ensures |r| < |s| <==> s != [] && IsTrailingMark(s[|s| - 1])
  {
    if s != [] && IsTrailingMark(s[|s| - 1]) then s[..|s| - 1] else s
  }
}
