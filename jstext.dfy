/**
  The JavaScript string builtins the itinerary parser relies on, written out over
  `string` (a sequence of `char`): `trim`, `split('\n')`, `includes` and `endsWith`,
  a match of fixed text at a position (what a regular expression's literal part does),
  and the character classes `\s` and `.` of its regular expressions.
 */
module JsText {
  import opened Seqs

  /** White space as `String.prototype.trim` and the regex class `\s` see it:
      the WhiteSpace and LineTerminator code points of ECMAScript. */
  predicate IsSpace(c: char) {
    c == '\t' || c == '\n' || c == '\U{B}' || c == '\U{C}' || c == '\r' || c == ' '
    || c == '\U{A0}' || c == '\U{1680}' || ('\U{2000}' <= c <= '\U{200A}')
    || c == '\U{2028}' || c == '\U{2029}' || c == '\U{202F}' || c == '\U{205F}'
    || c == '\U{3000}' || c == '\U{FEFF}'
  }

  /** The characters that the regex `.` does not match. */
  predicate IsLineTerminator(c: char) {
    c == '\n' || c == '\r' || c == '\U{2028}' || c == '\U{2029}'
  }

  // ---------------------------------------------------------------- trim

  /** `s` without its leading white space. */
  function TrimStart(s: string): (r: string)
    ensures |r| <= |s| && r == s[|s| - |r|..]
    ensures r == [] || !IsSpace(r[0])
    ensures forall i :: 0 <= i < |s| - |r| ==> IsSpace(s[i])
    decreases |s|
  {
    if s != [] && IsSpace(s[0]) then TrimStart(s[1..]) else s
  }

  /** `s` without its trailing white space. */
  function TrimEnd(s: string): (r: string)
    ensures |r| <= |s| && r == s[..|r|]
    ensures r == [] || !IsSpace(r[|r| - 1])
    ensures forall i :: |r| <= i < |s| ==> IsSpace(s[i])
    decreases |s|
  {
    if s != [] && IsSpace(s[|s| - 1]) then TrimEnd(s[..|s| - 1]) else s
  }

  /** Every character of `s` is white space. */
  predicate Blank(s: string) {
    forall k :: 0 <= k < |s| ==> IsSpace(s[k])
  }

  /** `String.prototype.trim`: the result neither starts nor ends with white space,
      and it is empty exactly when `s` is all white space. */
  function Trim(s: string): (r: string)
    ensures |r| <= |s|
    ensures r == [] || (!IsSpace(r[0]) && !IsSpace(r[|r| - 1]))
    ensures r == [] <==> forall i :: 0 <= i < |s| ==> IsSpace(s[i])
  {
    var t := TrimStart(s);
    var r := TrimEnd(t);
    assert r != [] ==> r[0] == t[0];
    r
  }

  /** The trim is what is left of `s` between white space before and white space
      after. */
  lemma TrimFramed(s: string)
    ensures exists p, q :: Blank(p) && Blank(q) && s == p + Trim(s) + q
  {
    var t := TrimStart(s);
    var p := TrimStartCut(s);
    var q := TrimEndCut(t);
    Assoc3(p, Trim(s), q);
  }

  /** The white space `TrimStart` cuts off. */
  lemma TrimStartCut(s: string) returns (p: string)
    ensures Blank(p) && s == p + TrimStart(s)
  {
    p := s[..|s| - |TrimStart(s)|];
  }

  /** The white space `TrimEnd` cuts off. */
  lemma TrimEndCut(s: string) returns (q: string)
    ensures Blank(q) && s == TrimEnd(s) + q
  {
    var r := TrimEnd(s);
    q := s[|r|..];
    assert Blank(q) by {
      forall k | 0 <= k < |q|
        ensures IsSpace(q[k])
      {
        assert q[k] == s[|r| + k];
      }
    }
  }

  /** A string with no white space at either end is its own trim. */
  lemma TrimClean(s: string)
    requires s == [] || (!IsSpace(s[0]) && !IsSpace(s[|s| - 1]))
    ensures Trim(s) == s
  {
  }

  lemma TrimIdempotent(s: string)
    ensures Trim(Trim(s)) == Trim(s)
  {
    TrimClean(Trim(s));
  }

  /** Leading white space ends at the first visible character, wherever the text is cut. */
  lemma {:induction false} TrimStartAppend(x: string, y: string)
    requires y != [] && !IsSpace(y[0])
    ensures TrimStart(x + y) == TrimStart(x) + y
    decreases |x|
  {
    if x == [] {
      assert x + y == y;
    } else {
      assert (x + y)[0] == x[0];
      if IsSpace(x[0]) {
        assert (x + y)[1..] == x[1..] + y;
        TrimStartAppend(x[1..], y);
      }
    }
  }

  /** Trailing white space starts after the last visible character, wherever the text
      is cut. */
  lemma {:induction false} TrimEndAppend(x: string, y: string)
    requires x != [] && !IsSpace(x[|x| - 1])
    ensures TrimEnd(x + y) == x + TrimEnd(y)
    decreases |y|
  {
    if y == [] {
      assert x + y == x;
    } else {
      assert (x + y)[|x + y| - 1] == y[|y| - 1];
      if IsSpace(y[|y| - 1]) {
        assert (x + y)[..|x + y| - 1] == x + y[..|y| - 1];
        TrimEndAppend(x, y[..|y| - 1]);
      }
    }
  }

  /** Trimming `pre + mid + post`, where `mid` starts and ends with visible characters,
      only trims the front of `pre` and the back of `post`. */
  lemma TrimAround(pre: string, mid: string, post: string)
    requires mid != [] && !IsSpace(mid[0]) && !IsSpace(mid[|mid| - 1])
    ensures Trim(pre + mid + post) == TrimStart(pre) + mid + TrimEnd(post)
  {
    assert pre + mid + post == pre + (mid + post);
    TrimStartAppend(pre, mid + post);
    var a := TrimStart(pre) + mid;
    assert TrimStart(pre) + (mid + post) == a + post;
    TrimEndAppend(a, post);
  }

  /** All-white-space text trims to nothing from either end. */
  lemma {:induction false} BlankTrims(s: string)
    requires Blank(s)
    ensures TrimStart(s) == [] && TrimEnd(s) == []
    decreases |s|
  {
    if s != [] {
      assert IsSpace(s[0]) && IsSpace(s[|s| - 1]);
      assert Blank(s[1..]) && Blank(s[..|s| - 1]);
      BlankTrims(s[1..]);
      BlankTrims(s[..|s| - 1]);
    }
  }

  /** Between white space on both sides, a stretch with visible ends is what trimming
      the end leaves after the leading white space, and what trimming leaves. */
  lemma TrimBetweenBlanks(p: string, m: string, q: string)
    requires Blank(p) && Blank(q)
    requires m != [] && !IsSpace(m[0]) && !IsSpace(m[|m| - 1])
    ensures TrimEnd(p + m + q) == p + m
    ensures Trim(p + m) == m
  {
    TrimEndBlankTail(p + m, q);
    TrimBlankHead(p, m);
  }

  /** White space after a visible last character is exactly what `TrimEnd` removes. */
  lemma TrimEndBlankTail(x: string, q: string)
    requires Blank(q)
    requires x != [] && !IsSpace(x[|x| - 1])
    ensures TrimEnd(x + q) == x
  {
    BlankTrims(q);
    TrimEndAppend(x, q);
    assert x + [] == x;
  }

  /** White space before a stretch with visible ends is exactly what `Trim` removes. */
  lemma TrimBlankHead(p: string, m: string)
    requires Blank(p)
    requires m != [] && !IsSpace(m[0]) && !IsSpace(m[|m| - 1])
    ensures Trim(p + m) == m
  {
    BlankTrims(p);
    TrimAround(p, m, []);
    assert p + m + [] == p + m && [] + m + [] == m;
  }

  /** Trimming the end first changes nothing about the trim. */
  lemma TrimAfterTrimEnd(s: string)
    ensures Trim(TrimEnd(s)) == Trim(s)
  {
    var m := Trim(s);
    if m == [] {
      BlankTrims(s);
    } else {
      assert !IsSpace(m[0]) && !IsSpace(m[|m| - 1]);
      TrimFramed(s);
      var p, q :| Blank(p) && Blank(q) && s == p + m + q;
      TrimBetweenBlanks(p, m, q);
    }
  }

  // ---------------------------------------------------------------- split

  /** `s.split('\n')`: the pieces between newlines, in order; an empty `s` gives one empty piece. */
  function SplitLines(s: string): (lines: seq<string>)
    ensures |lines| >= 1
    ensures forall k :: 0 <= k < |lines| ==> '\n' !in lines[k]
    decreases |s|
  {
    if s == [] then [[]]
    else
      var rest := SplitLines(s[1..]);
      if s[0] == '\n' then [[]] + rest
      else [[s[0]] + rest[0]] + rest[1..]
  }

  /** `lines.join('\n')`, the inverse of `SplitLines`. */
  function JoinLines(lines: seq<string>): string
    requires |lines| >= 1
    decreases |lines|
  {
    if |lines| == 1 then lines[0] else lines[0] + "\n" + JoinLines(lines[1..])
  }

  /** Splitting loses nothing: the pieces joined back with newlines are the input. */
  lemma {:induction false} JoinSplit(s: string)
    ensures JoinLines(SplitLines(s)) == s
    decreases |s|
  {
    if s != [] {
      var rest := SplitLines(s[1..]);
      JoinSplit(s[1..]);
      if s[0] == '\n' {
        assert SplitLines(s)[1..] == rest;
      } else {
        var lines := SplitLines(s);
        assert lines[1..] == rest[1..];
        if |rest| == 1 {
          assert JoinLines(lines) == [s[0]] + rest[0];
        } else {
          assert JoinLines(lines) == [s[0]] + rest[0] + "\n" + JoinLines(rest[1..]);
        }
      }
    }
  }

  /** The first character of the first piece leads the joined text. */
  lemma JoinFirstChar(lines: seq<string>)
    requires |lines| >= 1 && lines[0] != []
    ensures JoinLines(lines) == [lines[0][0]] + JoinLines([lines[0][1..]] + lines[1..])
  {
    var tail := [lines[0][1..]] + lines[1..];
    var head := lines[0];
    assert head == [head[0]] + tail[0];
    if |lines| == 1 {
      assert JoinLines(tail) == tail[0];
    } else {
      assert tail[1..] == lines[1..];
      var rest := JoinLines(lines[1..]);
      assert JoinLines(lines) == head + "\n" + rest;
      assert JoinLines(tail) == tail[0] + "\n" + rest;
      Assoc4([head[0]], tail[0], "\n", rest);
      Assoc3(tail[0], "\n", rest);
    }
  }

  /** Dropping the first character keeps the pieces free of newlines. */
  lemma DropFirstCharNoNewline(lines: seq<string>)
    requires |lines| >= 1 && lines[0] != []
    requires forall k :: 0 <= k < |lines| ==> '\n' !in lines[k]
    ensures forall k :: 0 <= k < |lines| ==> '\n' !in ([lines[0][1..]] + lines[1..])[k]
  {
    var tail := [lines[0][1..]] + lines[1..];
    forall k | 0 <= k < |tail|
      ensures '\n' !in tail[k]
    {
      if k == 0 {
        assert forall c :: c in lines[0][1..] ==> c in lines[0];
      } else {
        assert tail[k] == lines[k];
      }
    }
  }

  /** Splitting newline-free pieces joined with newlines gives the pieces back. */
  lemma {:induction false} SplitJoin(lines: seq<string>)
    requires |lines| >= 1
    requires forall k :: 0 <= k < |lines| ==> '\n' !in lines[k]
    ensures SplitLines(JoinLines(lines)) == lines
    decreases |lines|, |lines[0]|
  {
    if lines[0] == [] {
      if |lines| > 1 {
        SplitJoin(lines[1..]);
        assert JoinLines(lines) == "\n" + JoinLines(lines[1..]);
        assert [[]] + lines[1..] == lines;
      }
    } else {
      var tail := [lines[0][1..]] + lines[1..];
      DropFirstCharNoNewline(lines);
      SplitJoin(tail);
      var s := JoinLines(lines);
      JoinFirstChar(lines);
      assert s[1..] == JoinLines(tail);
      assert lines[0][0] in lines[0];
      assert [s[0]] + tail[0] == lines[0];
      assert [lines[0]] + tail[1..] == lines;
    }
  }

  // ---------------------------------------------------------------- includes

  /** `p` matches at the start of `s`, character by character: how a regular expression's
      literal text matches at a position. */
  predicate StartsWith(s: string, p: string)
    decreases |p|
  {
    p == [] || (s != [] && s[0] == p[0] && StartsWith(s[1..], p[1..]))
  }

  /** `s.endsWith(p)`. */
  predicate EndsWith(s: string, p: string) {
    |p| <= |s| && s[|s| - |p|..] == p
  }

  /** `t` occurs in `s` starting at index `i`. */
  predicate OccursAt(s: string, t: string, i: nat) {
    i + |t| <= |s| && s[i..i + |t|] == t
  }

  /** `s.includes(t)`. */
  predicate Contains(s: string, t: string)
    decreases |s|
  {
    StartsWith(s, t) || (s != [] && Contains(s[1..], t))
  }

  lemma {:induction false} StartsWithIff(s: string, p: string)
    ensures StartsWith(s, p) <==> |p| <= |s| && s[..|p|] == p
    decreases |p|
  {
    if p != [] && s != [] {
      StartsWithIff(s[1..], p[1..]);
      if |p| <= |s| && s[..|p|] == p {
        assert s[1..][..|p| - 1] == s[..|p|][1..];
      }
      if StartsWith(s, p) {
        assert s[..|p|] == [s[0]] + s[1..][..|p| - 1];
      }
    }
  }

  /** `includes` holds exactly when `t` occurs at some index of `s`. */
  lemma {:induction false} ContainsIff(s: string, t: string)
    ensures Contains(s, t) <==> exists i :: 0 <= i <= |s| && OccursAt(s, t, i)
    decreases |s|
  {
    StartsWithIff(s, t);
    assert StartsWith(s, t) <==> OccursAt(s, t, 0);
    if s != [] {
      ContainsIff(s[1..], t);
      forall i | 0 <= i <= |s| - 1
        ensures OccursAt(s[1..], t, i) <==> OccursAt(s, t, i + 1)
      {
        if i + |t| <= |s| - 1 {
          assert s[1..][i..i + |t|] == s[i + 1..i + 1 + |t|];
        }
      }
      if exists i :: 0 <= i <= |s| && OccursAt(s, t, i) {
        var i :| 0 <= i <= |s| && OccursAt(s, t, i);
        if i > 0 {
          assert OccursAt(s[1..], t, i - 1);
        }
      }
    } else {
      assert forall i :: 0 <= i <= |s| && OccursAt(s, t, i) ==> i == 0;
    }
  }

  /** A string that lacks some character of `t` cannot include `t`. */
  lemma {:induction false} MissingCharExcludes(s: string, t: string, c: char)
    requires c in t && c !in s
    ensures !Contains(s, t)
    decreases |s|
  {
    StartsWithIff(s, t);
    if s != [] {
      MissingCharExcludes(s[1..], t, c);
    }
  }
}
