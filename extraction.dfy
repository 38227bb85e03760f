/**
  Place-name extraction from one time-slot description: `extractPlaceNames`, a cascade
  of three strategies tried in order until one yields a name (the fixed gazetteer,
  then `【…】` spans, then the single-name heuristic of `extractSinglePlaceName`).
  Each JavaScript function is a method with its loops, proved equal to a function
  that states the same computation as a whole; the lemmas say what those functions
  guarantee.
 */
module PlaceExtraction {
  import opened JsText
  import opened Seqs
  import opened Patterns

  /** The known sights and restaurants, in the order they are tried. */
  const Gazetteer: seq<string> := [
    "老门东历史文化街区", "夫子庙秦淮河风光带", "中山陵", "明孝陵", "石象路",
    "总统府", "颐和路公馆区", "玄武湖公园", "南京博物院", "先锋书店", "1912街区",
    "鸡鸣寺", "台城城墙", "德云社", "科巷", "狮子桥美食街", "湖南路", "评事街",
    "三七八巷", "回味鸭血粉丝汤", "奇芳阁", "中山陵永丰诗舍", "南京大牌档",
    "许阿姨糕团店", "陶记正宗德州扒鸡", "项记面馆", "小潘记·鸭血粉丝汤",
    "金宏兴鸭子店", "小厨娘淮扬菜", "绿柳居", "左师傅梅花糕", "李记清真馆锅贴",
    "古南都·素菜馆", "鸡鸣汤包", "秦淮河", "紫金山", "台城", "新街口"
  ]

  /** No place is listed twice. The pairs are checked in three blocks: both entries in
      the first half of the list, one in each half, both in the second half. */
  lemma GazetteerDistinct()
    ensures NoDuplicates(Gazetteer)
  {
    forall i, j | 0 <= i < j < |Gazetteer|
      ensures Gazetteer[i] != Gazetteer[j]
    {
      if j < 19 {
        GazetteerDistinctFront(i, j);
      } else if i < 19 {
        GazetteerDistinctAcross(i, j);
      } else {
        GazetteerDistinctBack(i, j);
      }
    }
  }

  // Entries of the same length differ in their first, second or last character.

  lemma GazetteerDistinctFront(i: nat, j: nat)
    requires i < j < 19
    ensures Gazetteer[i] != Gazetteer[j]
  {
    var a, b := Gazetteer[i], Gazetteer[j];
    assert |a| != |b| || a[0] != b[0] || a[1] != b[1] || a[|a| - 1] != b[|b| - 1];
  }

  lemma GazetteerDistinctAcross(i: nat, j: nat)
    requires i < 19 <= j < |Gazetteer|
    ensures Gazetteer[i] != Gazetteer[j]
  {
    var a, b := Gazetteer[i], Gazetteer[j];
    assert |a| != |b| || a[0] != b[0] || a[1] != b[1] || a[|a| - 1] != b[|b| - 1];
  }

  lemma GazetteerDistinctBack(i: nat, j: nat)
    requires 19 <= i < j < |Gazetteer|
    ensures Gazetteer[i] != Gazetteer[j]
  {
    var a, b := Gazetteer[i], Gazetteer[j];
    assert |a| != |b| || a[0] != b[0] || a[1] != b[1] || a[|a| - 1] != b[|b| - 1];
  }

  /** Qualifiers (free, booking needed, special, must-eat, recommended, suggested,
      per head, time-honoured) that mark a bracket as an attribute, not a place. */
  const GenericTerms: seq<string> := ["免费", "需预约", "特供", "必吃", "推荐", "建议", "人均", "老字号"]

  /** Words that introduce an activity rather than a place, in the order they are cut. */
  const NonPlaceKeywords: seq<string> := [
    "办理", "入住", "休息", "自由活动", "购物", "前往", "抵达",
    "参观", "游览", "体验", "欣赏", "品尝", "早餐", "午餐", "晚餐",
    "上午", "中午", "下午", "晚上", "建议", "推荐", "必吃", "根据返程时间，可选购伴手礼"
  ]

  /** "Take the metro": a transit instruction, never a place. */
  const TransitMarker: string := "乘坐地铁"

  predicate AllNonEmpty(s: seq<string>) {
    forall k :: 0 <= k < |s| ==> s[k] != []
  }

  lemma GazetteerNonEmpty()
    ensures AllNonEmpty(Gazetteer)
  {
  }

  lemma KeywordsNonEmpty()
    ensures AllNonEmpty(NonPlaceKeywords)
  {
  }

  // ---------------------------------------------------------------- strategy 1: gazetteer

  /** The entries of `entries` that `text` includes, kept in list order. */
  function GazetteerHits(text: string, entries: seq<string>): seq<string>
    decreases |entries|
  {
    if entries == [] then []
    else
      var e := entries[|entries| - 1];
      GazetteerHits(text, entries[..|entries| - 1]) + (if Contains(text, e) then [e] else [])
  }

  /** The hits are exactly the entries the text includes, as a subsequence of the list. */
  lemma {:induction false} GazetteerHitsExact(text: string, entries: seq<string>)
    ensures forall x :: x in GazetteerHits(text, entries) <==> x in entries && Contains(text, x)
    ensures IsSubsequence(GazetteerHits(text, entries), entries)
    ensures NoDuplicates(entries) ==> NoDuplicates(GazetteerHits(text, entries))
    decreases |entries|
  {
    if entries != [] {
      var init, e := entries[..|entries| - 1], entries[|entries| - 1];
      var h := GazetteerHits(text, init);
      GazetteerHitsExact(text, init);
      assert entries == init + [e];
      SubsequenceAppend(h, init, e);
      if Contains(text, e) {
        assert GazetteerHits(text, entries) == h + [e];
      } else {
        assert GazetteerHits(text, entries) == h;
      }
      if NoDuplicates(entries) {
        forall i, j | 0 <= i < j < |init|
          ensures init[i] != init[j]
        {
          assert init[i] == entries[i] && init[j] == entries[j];
        }
        forall i | 0 <= i < |init|
          ensures init[i] != e
        {
          assert init[i] == entries[i];
        }
      }
    }
  }

  lemma {:induction false} GazetteerHitsNone(text: string, entries: seq<string>)
    requires forall k :: 0 <= k < |entries| ==> !Contains(text, entries[k])
    ensures GazetteerHits(text, entries) == []
    decreases |entries|
  {
    if entries != [] {
      GazetteerHitsNone(text, entries[..|entries| - 1]);
    }
  }

  // ---------------------------------------------------------------- strategy 2: brackets

  /** `m.replace(/【|】/g, '')`. */
  function WithoutCornerBrackets(m: string): (r: string)
    ensures '【' !in r && '】' !in r
    ensures IsSubsequence(r, m)
    ensures '【' !in m && '】' !in m ==> r == m
    decreases |m|
  {
    if m == [] then []
    else if m[0] == '【' || m[0] == '】' then WithoutCornerBrackets(m[1..])
    else [m[0]] + WithoutCornerBrackets(m[1..])
  }

  /** The name a bracket match stands for: its text without brackets, trimmed. */
  function BracketContent(m: string): string {
    Trim(WithoutCornerBrackets(m))
  }

  /** Bracket removal works piece by piece. */
  lemma {:induction false} WithoutCornerBracketsAppend(x: string, y: string)
    ensures WithoutCornerBrackets(x + y) == WithoutCornerBrackets(x) + WithoutCornerBrackets(y)
    decreases |x|
  {
    if x == [] {
      assert x + y == y;
    } else {
      assert (x + y)[0] == x[0] && (x + y)[1..] == x[1..] + y;
      WithoutCornerBracketsAppend(x[1..], y);
    }
  }

  /** The name a match `【x】` stands for is `x` trimmed. */
  lemma BracketContentOf(x: string)
    requires '【' !in x && '】' !in x
    ensures BracketContent("【" + x + "】") == Trim(x)
  {
    var open, close := "【", "】";
    WithoutCornerBracketsAppend(open + x, close);
    WithoutCornerBracketsAppend(open, x);
    assert WithoutCornerBrackets(open) == [] by {
      assert open[1..] == [];
    }
    assert WithoutCornerBrackets(close) == [] by {
      assert close[1..] == [];
    }
    assert WithoutCornerBrackets(open + x + close) == x by {
      assert [] + x + [] == x;
    }
  }

  /** The contents of the bracket matches `ms`, in order. */
  function BracketContents(ms: seq<string>): (cs: seq<string>)
    ensures |cs| == |ms|
    decreases |ms|
  {
    if ms == [] then [] else BracketContents(ms[..|ms| - 1]) + [BracketContent(ms[|ms| - 1])]
  }

  /** `place` includes one of `terms`. */
  predicate ContainsAny(place: string, terms: seq<string>) {
    exists k :: 0 <= k < |terms| && Contains(place, terms[k])
  }

  /** The contents of the bracket matches `ms`, in order, those including one of the
      qualifier `terms` left out. */
  function BracketCandidates(ms: seq<string>, terms: seq<string>): seq<string>
    decreases |ms|
  {
    if ms == [] then []
    else
      var c := BracketContent(ms[|ms| - 1]);
      BracketCandidates(ms[..|ms| - 1], terms) + (if ContainsAny(c, terms) then [] else [c])
  }

  lemma BracketCandidatesStep(ms: seq<string>, k: nat, terms: seq<string>)
    requires k < |ms|
    ensures BracketCandidates(ms[..k + 1], terms) == BracketCandidates(ms[..k], terms) +
      (if ContainsAny(BracketContent(ms[k]), terms) then [] else [BracketContent(ms[k])])
  {
    assert ms[..k + 1][..k] == ms[..k];
  }

  lemma {:induction false} BracketCandidatesMember(ms: seq<string>, terms: seq<string>, x: string)
    ensures x in BracketCandidates(ms, terms) <==> x in BracketContents(ms) && !ContainsAny(x, terms)
    decreases |ms|
  {
    if ms != [] {
      BracketCandidatesMember(ms[..|ms| - 1], terms, x);
    }
  }

  /** The bracket strategy on its own, with qualifier terms `terms`: the bracket
      contents that include no qualifier, first occurrences only, empty ones skipped. */
  function BracketNames(text: string, terms: seq<string>): seq<string> {
    AddAll([], BracketCandidates(BracketMatches(text), terms))
  }

  /** Bracket names are non-empty, pairwise distinct, free of qualifier terms, each the
      content of some `【…】` match, every usable content is among them, and they come
      in the order of their first appearance. */
  lemma BracketNamesSpec(text: string, terms: seq<string>)
    ensures NoDuplicates(BracketNames(text, terms)) && [] !in BracketNames(text, terms)
    ensures forall x :: x in BracketNames(text, terms) <==>
      x != [] && !ContainsAny(x, terms) && x in BracketContents(BracketMatches(text))
    ensures forall i, j :: 0 <= i < j < |BracketNames(text, terms)| ==>
      SeenBefore(BracketCandidates(BracketMatches(text), terms), BracketNames(text, terms)[i], BracketNames(text, terms)[j])
  {
    var cs := BracketCandidates(BracketMatches(text), terms);
    AddAllWellFormed([], cs);
    AddAllMembers([], cs);
    forall x {
      BracketCandidatesMember(BracketMatches(text), terms, x);
    }
    AddAllFirstSeen(cs);
  }

  /** Without a usable bracket the strategy yields nothing. */
  lemma BracketNamesNone(text: string, terms: seq<string>)
    requires forall c :: c in BracketContents(BracketMatches(text)) ==> c == [] || ContainsAny(c, terms)
    ensures BracketNames(text, terms) == []
  {
    var cs := BracketCandidates(BracketMatches(text), terms);
    AddAllMembers([], cs);
    if AddAll([], cs) != [] {
      var x := AddAll([], cs)[0];
      BracketCandidatesMember(BracketMatches(text), terms, x);
      assert false;
    }
  }

  // ---------------------------------------------------------------- strategy 3: heuristic

  /** Each keyword in turn, with the clause it introduces, cut out of the text. */
  function StripClauses(s: string, keywords: seq<string>): (r: string)
    requires AllNonEmpty(keywords)
    ensures IsSubsequence(r, s)
    ensures (forall k :: 0 <= k < |keywords| ==> !Contains(s, keywords[k])) ==> r == s
    decreases |keywords|
  {
    if keywords == [] then
      SubsequenceRefl(s);
      s
    else
      var t := StripClauses(s, keywords[..|keywords| - 1]);
      var r := RemoveClauses(t, keywords[|keywords| - 1]);
      SubsequenceTrans(r, t, s);
      r
  }

  /** Each keyword in turn cut once from the end of the text, when the text ends with it. */
  function StripSuffixes(s: string, keywords: seq<string>): (r: string)
    ensures |r| <= |s| && r == s[..|r|]
    ensures (forall k :: 0 <= k < |keywords| ==> !EndsWith(s, keywords[k])) ==> r == s
    decreases |keywords|
  {
    if keywords == [] then s
    else
      var t := StripSuffixes(s, keywords[..|keywords| - 1]);
      var k := keywords[|keywords| - 1];
      if EndsWith(t, k) then t[..|t| - |k|] else t
  }

  /** Cutting a keyword off the end undoes appending it. */
  lemma StripSuffixCut(r: string, k: string)
    ensures StripSuffixes(r + k, [k]) == r
  {
    var s := r + k;
    assert [k][..0] == [];
    assert s[|s| - |k|..] == k;
    assert s[..|s| - |k|] == r;
  }

  /** The heuristic with activity keywords `keywords`: notes in parentheses, keyword
      clauses, trailing keywords, one trailing separator and surrounding white space
      removed; too short a result or a transit instruction gives nothing. */
  function HeuristicName(text: string, keywords: seq<string>): (name: string)
    requires AllNonEmpty(keywords)
    ensures name == [] || (|name| >= 2 && !Contains(name, TransitMarker))
  {
    if text == [] then []
    else
      var cleaned := Trim(DropTrailingMark(StripSuffixes(StripClauses(StripParenNotes(text), keywords), keywords)));
      if |cleaned| < 2 || Contains(cleaned, TransitMarker) then [] else cleaned
  }

  lemma TrimSubsequence(s: string)
    ensures IsSubsequence(Trim(s), s)
  {
    var t := TrimStart(s);
    SubsequenceRefl(t);
    SubsequenceOfSuffix(t, s, |s| - |t|);
    PrefixIsSubsequence(t, |TrimEnd(t)|);
    SubsequenceTrans(Trim(s), t, s);
  }

  /** The heuristic never invents text: its name is the description with characters
      deleted. */
  lemma HeuristicNameFromText(text: string, keywords: seq<string>)
    requires AllNonEmpty(keywords)
    ensures IsSubsequence(HeuristicName(text, keywords), text)
  {
    if text == [] {
    } else {
      var a := StripParenNotes(text);
      var b := StripClauses(a, keywords);
      var c := StripSuffixes(b, keywords);
      var d := DropTrailingMark(c);
      var e := Trim(d);
      TrimSubsequence(d);
      PrefixIsSubsequence(c, |d|);
      PrefixIsSubsequence(b, |c|);
      SubsequenceTrans(e, d, c);
      SubsequenceTrans(e, c, b);
      SubsequenceTrans(e, b, a);
      SubsequenceTrans(e, a, text);
      EmptySubsequence(text);
    }
  }

  lemma EndsWithContains(s: string, k: string)
    requires EndsWith(s, k)
    ensures Contains(s, k)
  {
    ContainsIff(s, k);
    assert OccursAt(s, k, |s| - |k|);
  }

  /** A description that already is a bare name (no notes in parentheses, no activity
      keyword, no separator at its end, no surrounding white space, at least two
      characters, not a transit instruction) comes through the heuristic unchanged. */
  lemma HeuristicKeepsName(text: string, keywords: seq<string>)
    requires AllNonEmpty(keywords)
    requires |text| >= 2 && !IsSpace(text[0]) && !IsSpace(text[|text| - 1])
    requires !IsTrailingMark(text[|text| - 1])
    requires '(' !in text && '（' !in text
    requires forall k :: 0 <= k < |keywords| ==> !Contains(text, keywords[k])
    requires !Contains(text, TransitMarker)
    ensures HeuristicName(text, keywords) == text
  {
    assert StripParenNotes(text) == text;
    assert StripClauses(text, keywords) == text;
    forall k | 0 <= k < |keywords|
      ensures !EndsWith(text, keywords[k])
    {
      if EndsWith(text, keywords[k]) {
        EndsWithContains(text, keywords[k]);
      }
    }
    assert StripSuffixes(text, keywords) == text;
    assert DropTrailingMark(text) == text;
    TrimClean(text);
  }

  // ---------------------------------------------------------------- the cascade

  /** The three strategies over the lists `entries`, `terms` and `keywords`, each tried
      only when the ones before it found nothing. */
  function Cascade(text: string, entries: seq<string>, terms: seq<string>, keywords: seq<string>): seq<string>
    requires AllNonEmpty(keywords)
  {
    if text == [] then []
    else
      var hits := GazetteerHits(text, entries);
      if hits != [] then hits
      else
        var bracketed := BracketNames(text, terms);
        if bracketed != [] then bracketed
        else
          var name := HeuristicName(text, keywords);
          if name != [] then [name] else []
  }

  lemma CascadeGazetteerFirst(text: string, entries: seq<string>, terms: seq<string>, keywords: seq<string>)
    requires AllNonEmpty(entries) && AllNonEmpty(keywords)
    requires exists k :: 0 <= k < |entries| && Contains(text, entries[k])
    ensures Cascade(text, entries, terms, keywords) == GazetteerHits(text, entries)
  {
    var k :| 0 <= k < |entries| && Contains(text, entries[k]);
    GazetteerHitsExact(text, entries);
    assert entries[k] in GazetteerHits(text, entries);
    assert text != [];
  }

  lemma CascadeBracketsSecond(text: string, entries: seq<string>, terms: seq<string>, keywords: seq<string>)
    requires AllNonEmpty(keywords)
    requires forall k :: 0 <= k < |entries| ==> !Contains(text, entries[k])
    requires exists c :: c in BracketContents(BracketMatches(text)) && c != [] && !ContainsAny(c, terms)
    ensures Cascade(text, entries, terms, keywords) == BracketNames(text, terms) != []
  {
    var c :| c in BracketContents(BracketMatches(text)) && c != [] && !ContainsAny(c, terms);
    BracketNamesSpec(text, terms);
    assert c in BracketNames(text, terms);
    GazetteerHitsNone(text, entries);
    if text == [] {
      BracketMatchesNone(text);
    }
  }

  lemma CascadeHeuristicLast(text: string, entries: seq<string>, terms: seq<string>, keywords: seq<string>)
    requires AllNonEmpty(keywords)
    requires forall k :: 0 <= k < |entries| ==> !Contains(text, entries[k])
    requires forall c :: c in BracketContents(BracketMatches(text)) ==> c == [] || ContainsAny(c, terms)
    ensures Cascade(text, entries, terms, keywords) ==
      if HeuristicName(text, keywords) == [] then [] else [HeuristicName(text, keywords)]
    ensures |Cascade(text, entries, terms, keywords)| <= 1
    ensures forall x :: x in Cascade(text, entries, terms, keywords) ==>
      |x| >= 2 && !Contains(x, TransitMarker) && IsSubsequence(x, text)
  {
    GazetteerHitsNone(text, entries);
    BracketNamesNone(text, terms);
    HeuristicNameFromText(text, keywords);
  }

  lemma CascadeWellFormed(text: string, entries: seq<string>, terms: seq<string>, keywords: seq<string>)
    requires AllNonEmpty(entries) && AllNonEmpty(keywords)
    ensures [] !in Cascade(text, entries, terms, keywords)
    ensures NoDuplicates(entries) ==> NoDuplicates(Cascade(text, entries, terms, keywords))
  {
    GazetteerHitsExact(text, entries);
    BracketNamesSpec(text, terms);
  }

  /** `extractSinglePlaceName(text)`: the heuristic with the source's keyword list. */
  function SinglePlaceName(text: string): string {
    KeywordsNonEmpty();
    HeuristicName(text, NonPlaceKeywords)
  }

  /** `extractPlaceNames` as a function of its text. */
  function PlaceNames(text: string): seq<string> {
    GazetteerNonEmpty();
    KeywordsNonEmpty();
    Cascade(text, Gazetteer, GenericTerms, NonPlaceKeywords)
  }

  /** When the text includes any gazetteer entry, the result is exactly the entries it
      includes, in gazetteer order; brackets and the heuristic are not consulted. */
  lemma GazetteerFirst(text: string)
    requires exists k :: 0 <= k < |Gazetteer| && Contains(text, Gazetteer[k])
    ensures PlaceNames(text) == GazetteerHits(text, Gazetteer)
    ensures forall x :: x in PlaceNames(text) <==> x in Gazetteer && Contains(text, x)
    ensures IsSubsequence(PlaceNames(text), Gazetteer)
  {
    GazetteerNonEmpty();
    KeywordsNonEmpty();
    CascadeGazetteerFirst(text, Gazetteer, GenericTerms, NonPlaceKeywords);
    GazetteerHitsExact(text, Gazetteer);
  }

  /** Without a gazetteer hit but with a usable bracket, the result is the bracket
      names: non-empty, pairwise distinct, free of generic terms, exactly the usable
      bracket contents, in order of first appearance. */
  lemma BracketsSecond(text: string)
    requires forall k :: 0 <= k < |Gazetteer| ==> !Contains(text, Gazetteer[k])
    requires exists c :: c in BracketContents(BracketMatches(text)) && c != [] && !ContainsAny(c, GenericTerms)
    ensures PlaceNames(text) == BracketNames(text, GenericTerms) != []
    ensures NoDuplicates(PlaceNames(text)) && [] !in PlaceNames(text)
    ensures forall x :: x in PlaceNames(text) <==>
      x != [] && !ContainsAny(x, GenericTerms) && x in BracketContents(BracketMatches(text))
    ensures forall i, j :: 0 <= i < j < |PlaceNames(text)| ==>
      SeenBefore(BracketCandidates(BracketMatches(text), GenericTerms), PlaceNames(text)[i], PlaceNames(text)[j])
  {
    GazetteerNonEmpty();
    KeywordsNonEmpty();
    CascadeBracketsSecond(text, Gazetteer, GenericTerms, NonPlaceKeywords);
    BracketNamesSpec(text, GenericTerms);
  }

  /** Only when neither earlier strategy yields anything does the heuristic run, and it
      adds at most one name: at least two characters long, not a transit instruction,
      and drawn from the text. */
  lemma HeuristicLast(text: string)
    requires forall k :: 0 <= k < |Gazetteer| ==> !Contains(text, Gazetteer[k])
    requires forall c :: c in BracketContents(BracketMatches(text)) ==> c == [] || ContainsAny(c, GenericTerms)
    ensures PlaceNames(text) == if SinglePlaceName(text) == [] then [] else [SinglePlaceName(text)]
    ensures |PlaceNames(text)| <= 1
    ensures forall x :: x in PlaceNames(text) ==>
      |x| >= 2 && !Contains(x, TransitMarker) && IsSubsequence(x, text)
  {
    GazetteerNonEmpty();
    KeywordsNonEmpty();
    assert SinglePlaceName(text) == HeuristicName(text, NonPlaceKeywords);
    assert PlaceNames(text) == Cascade(text, Gazetteer, GenericTerms, NonPlaceKeywords);
    CascadeHeuristicLast(text, Gazetteer, GenericTerms, NonPlaceKeywords);
  }

  /** Extracted names are never empty strings, and they are pairwise distinct. */
  lemma PlaceNamesWellFormed(text: string)
    ensures [] !in PlaceNames(text)
    ensures NoDuplicates(PlaceNames(text))
  {
    GazetteerDistinct();
    GazetteerNonEmpty();
    KeywordsNonEmpty();
    CascadeWellFormed(text, Gazetteer, GenericTerms, NonPlaceKeywords);
  }

  /** A description that already is a bare name (no notes in parentheses, no activity
      keyword, no separator at its end, no surrounding white space, at least two
      characters, not a transit instruction) comes through the heuristic unchanged. */
  lemma SinglePlaceNameKeepsName(text: string)
    requires |text| >= 2 && !IsSpace(text[0]) && !IsSpace(text[|text| - 1])
    requires !IsTrailingMark(text[|text| - 1])
    requires '(' !in text && '（' !in text
    requires forall k :: 0 <= k < |NonPlaceKeywords| ==> !Contains(text, NonPlaceKeywords[k])
    requires !Contains(text, TransitMarker)
    ensures SinglePlaceName(text) == text
  {
    KeywordsNonEmpty();
    HeuristicKeepsName(text, NonPlaceKeywords);
  }

  // ---------------------------------------------------------------- the methods

  /** The qualifier check of `extractPlaceNames`: a loop over `terms` that stops at the
      first one `place` includes. */
  method ContainsAnyTerm(place: string, terms: seq<string>) returns (found: bool)
    ensures found == ContainsAny(place, terms)
  {
    found := false;
    var t := 0;
    while t < |terms|
      invariant 0 <= t <= |terms|
      invariant forall u :: 0 <= u < t ==> !Contains(place, terms[u])
    {
      if Contains(place, terms[t]) {
        found := true;
        break;
      }
      t := t + 1;
    }
  }

  /** The first loop of `extractSinglePlaceName`: each keyword in turn deletes its
      clauses. */
  method DeleteClauses(text: string, keywords: seq<string>) returns (cleaned: string)
    requires AllNonEmpty(keywords)
    ensures cleaned == StripClauses(text, keywords)
  {
    cleaned := text;
    for k := 0 to |keywords|
      invariant cleaned == StripClauses(text, keywords[..k])
    {
      assert keywords[..k + 1][..k] == keywords[..k];
      cleaned := RemoveClauses(cleaned, keywords[k]);
    }
    assert keywords[..|keywords|] == keywords;
  }

  /** The second loop of `extractSinglePlaceName`: each keyword in turn is cut off the
      end, where it stands there. */
  method DeleteSuffixes(text: string, keywords: seq<string>) returns (cleaned: string)
    ensures cleaned == StripSuffixes(text, keywords)
  {
    cleaned := text;
    for k := 0 to |keywords|
      invariant cleaned == StripSuffixes(text, keywords[..k])
    {
      assert keywords[..k + 1][..k] == keywords[..k];
      var keyword := keywords[k];
      if EndsWith(cleaned, keyword) {
        cleaned := cleaned[..|cleaned| - |keyword|];
      }
    }
    assert keywords[..|keywords|] == keywords;
  }

  /** The heuristic with activity keywords `keywords`, as `extractSinglePlaceName`
      computes it: one loop deletes keyword clauses, a second one trailing keywords. */
  method ExtractName(text: string, keywords: seq<string>) returns (name: string)
    requires AllNonEmpty(keywords)
    ensures name == HeuristicName(text, keywords)
  {
    if text == [] {
      return [];
    }
    var cleaned := StripParenNotes(text);
    cleaned := DeleteClauses(cleaned, keywords);
    cleaned := DeleteSuffixes(cleaned, keywords);
    cleaned := Trim(DropTrailingMark(cleaned));
    if |cleaned| < 2 || Contains(cleaned, TransitMarker) {
      return [];
    }
    return cleaned;
  }

  /** `extractSinglePlaceName(text)`: the heuristic with the source's keyword list. */
  method ExtractSinglePlaceName(text: string) returns (name: string)
    ensures name == SinglePlaceName(text)
  {
    KeywordsNonEmpty();
    name := ExtractName(text, NonPlaceKeywords);
  }

  /** The three strategies as `extractPlaceNames` runs them, over the place list
      `entries` and the qualifier list `terms`. */
  method ExtractNames(text: string, entries: seq<string>, terms: seq<string>)
    returns (places: seq<string>)
    ensures places == Cascade(text, entries, terms, NonPlaceKeywords)
  {
    if text == [] {
      return [];
    }
    places := [];
    for k := 0 to |entries|
      invariant places == GazetteerHits(text, entries[..k])
    {
      assert entries[..k + 1][..k] == entries[..k];
      var keyword := entries[k];
      if Contains(text, keyword) {
        places := places + [keyword];
      }
    }
    assert entries[..|entries|] == entries;
    if places == [] {
      var matches := BracketMatches(text);
      for k := 0 to |matches|
        invariant places == AddAll([], BracketCandidates(matches[..k], terms))
      {
        var place := BracketContent(matches[k]);
        var isGeneric := ContainsAnyTerm(place, terms);
        ghost var before := BracketCandidates(matches[..k], terms);
        ghost var added := if isGeneric then [] else [place];
        BracketCandidatesStep(matches, k, terms);
        AddAllAppend([], before, added);
        assert AddAll(places, added) == if isGeneric then places else AddNew(places, place) by {
          if !isGeneric {
            assert added[..0] == [];
          }
        }
        if place != [] && place !in places && !isGeneric {
          places := places + [place];
        }
      }
      assert matches[..|matches|] == matches;
    }
    if places == [] {
      var place := ExtractSinglePlaceName(text);
      if place != [] {
        places := places + [place];
      }
    }
  }

  /** `extractPlaceNames(text)`: the strategies with the source's three lists. */
  method ExtractPlaceNames(text: string) returns (places: seq<string>)
    ensures places == PlaceNames(text)
  {
    GazetteerNonEmpty();
    KeywordsNonEmpty();
    places := ExtractNames(text, Gazetteer, GenericTerms);
  }
}
