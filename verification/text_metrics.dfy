/**
 * The text measurements the typing-practice component takes when a practice
 * is submitted: the non-whitespace character count behind the accuracy
 * figure (`s.replace(/\s/g, '')`), and the word count
 * (`s.trim().split(/\s+/).length`).
 */
module TextMetrics {

  /**
   * JavaScript's `\s` class, which is also the set `String.prototype.trim`
   * removes: the ECMAScript WhiteSpace code points (tab, vertical tab, form
   * feed, space, no-break space, zero-width no-break space and the Unicode
   * space separators) and the LineTerminator code points.
   */
  predicate IsSpace(c: char) {
    || c == '\t' || c == '\n' || c == '\U{000B}' || c == '\U{000C}' || c == '\r' || c == ' '
    || c == '\U{00A0}' || c == '\U{1680}' || ('\U{2000}' <= c <= '\U{200A}')
    || c == '\U{2028}' || c == '\U{2029}' || c == '\U{202F}' || c == '\U{205F}'
    || c == '\U{3000}' || c == '\U{FEFF}'
  }

  predicate AllSpace(s: string) {
    forall i :: 0 <= i < |s| ==> IsSpace(s[i])
  }

  predicate NoSpace(s: string) {
    forall i :: 0 <= i < |s| ==> !IsSpace(s[i])
  }

  // ---------------------------------------------------------------------------
  // Non-whitespace characters

  /** `s.replace(/\s/g, '')`: the characters of `s` that are not whitespace, in order. */
  function StripSpaces(s: string): (r: string)
    ensures NoSpace(r)
    ensures |r| <= |s|
    ensures r == [] <==> AllSpace(s)
    ensures |r| == |s| <==> NoSpace(s)
  {
    if s == [] then []
    else if IsSpace(s[0]) then StripSpaces(s[1..])
    else [s[0]] + StripSpaces(s[1..])
  }

  /** Stripping keeps every non-whitespace character as often as it occurs and drops all whitespace. */
  lemma {:induction false} StripOccurrences(s: string)
    ensures forall c :: multiset(StripSpaces(s))[c] == if IsSpace(c) then 0 else multiset(s)[c]
  {
    if s != [] {
      assert s == [s[0]] + s[1..];
      StripOccurrences(s[1..]);
    }
  }

  /** Stripping distributes over concatenation. */
  lemma {:induction false} StripAppend(a: string, b: string)
    ensures StripSpaces(a + b) == StripSpaces(a) + StripSpaces(b)
  {
    if a == [] {
      assert a + b == b;
    } else {
      assert (a + b)[0] == a[0];
      assert (a + b)[1..] == a[1..] + b;
      StripAppend(a[1..], b);
    }
  }

  /** Stripping a string that has no whitespace leaves it as it is. */
  lemma {:induction false} StripNoSpace(s: string)
    requires NoSpace(s)
    ensures StripSpaces(s) == s
  {
    if s != [] {
      StripNoSpace(s[1..]);
    }
  }

  /**
   * The number of characters `s.replace(/\s/g, '')` keeps, one per Unicode
   * scalar value; JavaScript's `.length` counts UTF-16 code units instead.
   */
  function NonSpaceCount(s: string): (n: nat)
    ensures n <= |s|
    ensures n == 0 <==> AllSpace(s)
    ensures n == |s| <==> NoSpace(s)
  {
    |StripSpaces(s)|
  }

  /** The non-whitespace count of a concatenation is the sum of the counts. */
  lemma NonSpaceCountAdditive(a: string, b: string)
    ensures NonSpaceCount(a + b) == NonSpaceCount(a) + NonSpaceCount(b)
  {
    StripAppend(a, b);
  }

  // ---------------------------------------------------------------------------
  // Trimming

  /** Removes the leading whitespace. */
  function TrimStart(s: string): (r: string)
    ensures |r| <= |s| && (r != [] ==> r[|r| - 1] == s[|s| - 1])
    ensures forall i :: 0 <= i < |s| - |r| ==> IsSpace(s[i])
    ensures r == [] || !IsSpace(r[0])
    ensures r == [] <==> AllSpace(s)
    ensures s != [] && IsSpace(s[0]) ==> |r| < |s|
  {
    if s != [] && IsSpace(s[0]) then
      var r := TrimStart(s[1..]);
      assert forall i :: 1 <= i < |s| ==> s[i] == s[1..][i - 1];
      r
    else
      s
  }

  /** Removes the trailing whitespace. */
  function TrimEnd(s: string): (r: string)
    ensures |r| <= |s| && (r != [] ==> r[0] == s[0])
    ensures forall i :: |r| <= i < |s| ==> IsSpace(s[i])
    ensures r == [] || !IsSpace(r[|r| - 1])
    ensures r == [] <==> AllSpace(s)
  {
    if s != [] && IsSpace(s[|s| - 1]) then
      var r := TrimEnd(s[..|s| - 1]);
      assert forall i :: 0 <= i < |s| - 1 ==> s[i] == s[..|s| - 1][i];
      r
    else
      s
  }

  /** What `TrimStart` leaves is a suffix of its argument. */
  lemma {:induction false} TrimStartSuffix(s: string)
    ensures TrimStart(s) == s[|s| - |TrimStart(s)|..]
  {
    if s != [] && IsSpace(s[0]) {
      TrimStartSuffix(s[1..]);
      assert s[1..][|s| - 1 - |TrimStart(s)|..] == s[|s| - |TrimStart(s)|..];
    }
  }

  /** What `TrimEnd` leaves is a prefix of its argument. */
  lemma {:induction false} TrimEndPrefix(s: string)
    ensures TrimEnd(s) == s[..|TrimEnd(s)|]
  {
    if s != [] && IsSpace(s[|s| - 1]) {
      TrimEndPrefix(s[..|s| - 1]);
      assert s[..|s| - 1][..|TrimEnd(s)|] == s[..|TrimEnd(s)|];
    }
  }

  /** `s.trim()`: removes whitespace at both ends. */
  function Trim(s: string): (r: string)
    ensures r == [] <==> AllSpace(s)
    ensures r == [] || (!IsSpace(r[0]) && !IsSpace(r[|r| - 1]))
  {
    var u := TrimStart(s);
    var r := TrimEnd(u);
    assert u != [] ==> !IsSpace(u[0]);
    assert r != [] ==> r[0] == u[0];
    r
  }

  /** `TrimStart` removes exactly a whitespace prefix in front of text that starts with a non-whitespace character. */
  lemma {:induction false} TrimStartPadded(p: string, u: string)
    requires AllSpace(p)
    requires u != [] && !IsSpace(u[0])
    ensures TrimStart(p + u) == u
  {
    if p == [] {
      assert p + u == u;
    } else {
      assert (p + u)[1..] == p[1..] + u;
      TrimStartPadded(p[1..], u);
    }
  }

  /** `TrimEnd` removes exactly a whitespace suffix after text that ends with a non-whitespace character. */
  lemma {:induction false} TrimEndPadded(t: string, q: string)
    requires AllSpace(q)
    requires t != [] && !IsSpace(t[|t| - 1])
    ensures TrimEnd(t + q) == t
  {
    if q == [] {
      assert t + q == t;
    } else {
      assert (t + q)[..|t + q| - 1] == t + q[..|q| - 1];
      TrimEndPadded(t, q[..|q| - 1]);
    }
  }

  /** Trim characterised: surrounding a whitespace-bounded text with whitespace and trimming gives the text back. */
  lemma TrimPadded(p: string, t: string, q: string)
    requires AllSpace(p) && AllSpace(q)
    requires t == [] || (!IsSpace(t[0]) && !IsSpace(t[|t| - 1]))
    ensures Trim(p + t + q) == t
  {
    if t == [] {
      assert p + t + q == p + q;
      assert AllSpace(p + q);
    } else {
      assert p + t + q == p + (t + q);
      TrimStartPadded(p, t + q);
      TrimEndPadded(t, q);
    }
  }

  // ---------------------------------------------------------------------------
  // Splitting on whitespace runs

  /** The concatenation of a sequence of strings. */
  function Concat(parts: seq<string>): string {
    if parts == [] then [] else parts[0] + Concat(parts[1..])
  }

  /**
   * `s.split(/\s+/)`: the pieces between maximal whitespace runs. A string
   * with no whitespace at all is one piece (the empty string is `[""]`), and
   * whitespace at either end yields an empty piece at that end.
   */
  function Split(s: string): (r: seq<string>)
    ensures |r| >= 1
    ensures forall k :: 0 <= k < |r| ==> NoSpace(r[k])
    decreases |s|
  {
    if s == [] then [""]
    else if !IsSpace(s[0]) then
      var rest := Split(s[1..]);
      var first := [s[0]] + rest[0];
      assert NoSpace(first) by {
        assert forall i :: 1 <= i < |first| ==> first[i] == rest[0][i - 1];
      }
      [first] + rest[1..]
    else
      [""] + Split(TrimStart(s))
  }

  /**
   * For a text ending in a non-whitespace character, every piece after the
   * first is non-empty, and so is the first when the text also starts with
   * one: the pieces of a trimmed, non-blank text are its words.
   */
  lemma {:induction false} SplitPiecesNonEmpty(s: string)
    requires s != [] && !IsSpace(s[|s| - 1])
    ensures forall k :: 1 <= k < |Split(s)| ==> |Split(s)[k]| > 0
    ensures !IsSpace(s[0]) ==> |Split(s)[0]| > 0
    decreases |s|
  {
    if !IsSpace(s[0]) {
      if s[1..] != [] {
        SplitPiecesNonEmpty(s[1..]);
      }
    } else {
      var t := TrimStart(s);
      SplitPiecesNonEmpty(t);
    }
  }

  /**
   * Where the pieces break: a whitespace-free word followed by a whitespace
   * run is the first piece, and the rest splits on its own.
   */
  lemma {:induction false} SplitAfterWord(a: string, w: string, b: string)
    requires a != [] && NoSpace(a)
    requires w != [] && AllSpace(w)
    requires b == [] || !IsSpace(b[0])
    ensures Split(a + w + b) == [a] + Split(b)
    decreases |a|
  {
    var s := a + w + b;
    assert s[0] == a[0];
    if |a| == 1 {
      assert s[1..] == w + b;
      if b == [] {
        assert w + b == w;
        assert TrimStart(w + b) == [];
      } else {
        TrimStartPadded(w, b);
      }
      var rest := Split(w + b);
      assert rest == [""] + Split(b);
      assert Split(s) == [[a[0]] + rest[0]] + rest[1..];
      assert [a[0]] + rest[0] == a;
    } else {
      assert s[1..] == a[1..] + w + b;
      SplitAfterWord(a[1..], w, b);
      assert [a[0]] + a[1..] == a;
    }
  }

  /** Splitting loses only whitespace: the pieces put back together are the non-whitespace characters. */
  lemma {:induction false} SplitKeepsText(s: string)
    ensures Concat(Split(s)) == StripSpaces(s)
    decreases |s|
  {
    if s == [] {
    } else if !IsSpace(s[0]) {
      SplitKeepsText(s[1..]);
      ConcatExtendFirst(s[0], Split(s[1..]));
    } else {
      var t := TrimStart(s);
      SplitKeepsText(t);
      StripPrefixSpaces(s);
      ConcatEmptyFirst(Split(t));
    }
  }

  /** Prepending a character to the first piece prepends it to the concatenation. */
  lemma ConcatExtendFirst(c: char, parts: seq<string>)
    requires |parts| >= 1
    ensures Concat([[c] + parts[0]] + parts[1..]) == [c] + Concat(parts)
  {
    var r := [[c] + parts[0]] + parts[1..];
    assert r[1..] == parts[1..];
    var tail := Concat(parts[1..]);
    assert Concat(r) == ([c] + parts[0]) + tail;
  }

  /** An empty first piece contributes nothing to the concatenation. */
  lemma ConcatEmptyFirst(parts: seq<string>)
    ensures Concat([""] + parts) == Concat(parts)
  {
    assert ([""] + parts)[1..] == parts;
  }

  /** Stripping ignores leading whitespace. */
  lemma {:induction false} StripPrefixSpaces(s: string)
    ensures StripSpaces(TrimStart(s)) == StripSpaces(s)
  {
    if s != [] && IsSpace(s[0]) {
      StripPrefixSpaces(s[1..]);
    }
  }

  /** `s.trim().split(/\s+/).length`: the number the component reports as words typed. */
  function WordCount(s: string): (n: nat)
    ensures n >= 1
  {
    |Split(Trim(s))|
  }

  // ---------------------------------------------------------------------------
  // Word count against an independent count of words

  /**
   * The number of positions in `s` where a maximal run of non-whitespace
   * characters begins; `afterSpace` says whether the character before `s`
   * (or the start of the text) counts as a boundary.
   */
  function RunStarts(afterSpace: bool, s: string): nat
    decreases |s|
  {
    if s == [] then 0
    else (if afterSpace && !IsSpace(s[0]) then 1 else 0) + RunStarts(IsSpace(s[0]), s[1..])
  }

  /** The number of maximal non-whitespace runs (words) in `s`. */
  function RunCount(s: string): nat {
    RunStarts(true, s)
  }

  /** A text has no words exactly when it is all whitespace. */
  lemma {:induction false} RunCountZero(s: string)
    ensures RunCount(s) == 0 <==> AllSpace(s)
  {
    if AllSpace(s) {
      RunStartsBlank(true, s);
    } else if IsSpace(s[0]) {
      RunCountZero(s[1..]);
    }
  }

  /** Whitespace has no run starts, whatever came before it. */
  lemma {:induction false} RunStartsBlank(afterSpace: bool, s: string)
    requires AllSpace(s)
    ensures RunStarts(afterSpace, s) == 0
    decreases |s|
  {
    if s != [] {
      RunStartsBlank(true, s[1..]);
    }
  }

  /** Whitespace at the end adds no words. */
  lemma {:induction false} RunStartsTrailing(afterSpace: bool, s: string, q: string)
    requires AllSpace(q)
    ensures RunStarts(afterSpace, s + q) == RunStarts(afterSpace, s)
    decreases |s|
  {
    if s == [] {
      assert s + q == q;
      RunStartsBlank(afterSpace, q);
    } else {
      assert (s + q)[1..] == s[1..] + q;
      RunStartsTrailing(IsSpace(s[0]), s[1..], q);
    }
  }

  /** Whitespace at the start adds no words. */
  lemma {:induction false} RunStartsLeading(p: string, s: string)
    requires AllSpace(p)
    ensures RunStarts(true, p + s) == RunStarts(true, s)
  {
    if p == [] {
      assert p + s == s;
    } else {
      assert (p + s)[0] == p[0];
      assert (p + s)[1..] == p[1..] + s;
      RunStartsLeading(p[1..], s);
    }
  }

  /**
   * For a text that is empty or ends in a non-whitespace character, the
   * split has one piece more than there are words preceded by whitespace.
   */
  lemma {:induction false} SplitLength(s: string)
    requires s == [] || !IsSpace(s[|s| - 1])
    ensures |Split(s)| == 1 + RunStarts(false, s)
    decreases |s|
  {
    if s == [] {
    } else if !IsSpace(s[0]) {
      SplitLength(s[1..]);
    } else {
      var t := TrimStart(s);
      assert t == TrimStart(s[1..]);
      SplitLength(t);
      RunStartsTrimStart(s[1..]);
    }
  }

  /** Leading whitespace adds no words. */
  lemma {:induction false} RunStartsTrimStart(s: string)
    ensures RunStarts(true, TrimStart(s)) == RunStarts(true, s)
  {
    if s != [] && IsSpace(s[0]) {
      RunStartsTrimStart(s[1..]);
    }
  }

  /** Trailing whitespace adds no words. */
  lemma {:induction false} RunStartsTrimEnd(afterSpace: bool, u: string)
    ensures RunStarts(afterSpace, TrimEnd(u)) == RunStarts(afterSpace, u)
    decreases |u|
  {
    if u != [] && IsSpace(u[|u| - 1]) {
      var v := u[..|u| - 1];
      assert u == v + [u[|u| - 1]];
      RunStartsTrailing(afterSpace, v, [u[|u| - 1]]);
      RunStartsTrimEnd(afterSpace, v);
    }
  }

  /** Whitespace around a text adds no words. */
  lemma PaddedRunCount(p: string, t: string, q: string)
    requires AllSpace(p) && AllSpace(q)
    ensures RunCount(p + t + q) == RunCount(t)
  {
    assert p + t + q == p + (t + q);
    RunStartsLeading(p, t + q);
    RunStartsTrailing(true, t, q);
  }

  /** A text that starts with a non-whitespace character has one word more than it has words preceded by whitespace. */
  lemma FirstWordRun(t: string)
    requires t != [] && !IsSpace(t[0])
    ensures RunStarts(true, t) == 1 + RunStarts(false, t)
  {
  }

  /**
   * The word count is the number of maximal non-whitespace runs, except
   * that a blank text counts as one word (the single empty piece).
   */
  lemma WordCountIsRunCount(s: string)
    ensures WordCount(s) == if RunCount(s) == 0 then 1 else RunCount(s)
  {
    RunCountZero(s);
    if !AllSpace(s) {
      var u := TrimStart(s);
      var t := TrimEnd(u);
      RunStartsTrimStart(s);
      RunStartsTrimEnd(true, u);
      FirstWordRun(t);
      SplitLength(t);
    }
  }

  /** Whitespace added at either end does not change the word count. */
  lemma WordCountPadded(p: string, s: string, q: string)
    requires AllSpace(p) && AllSpace(q)
    ensures WordCount(p + s + q) == WordCount(s)
  {
    PaddedRunCount(p, s, q);
    WordCountIsRunCount(p + s + q);
    WordCountIsRunCount(s);
  }

  // ---------------------------------------------------------------------------
  // Accuracy

  /**
   * The accuracy percentage, kept exact: `Ratio(n, d)` is n/d percent.
   * JavaScript's division by a zero character count gives `Infinity` when
   * something was typed and `NaN` when nothing was.
   */
  datatype Accuracy = Ratio(num: nat, den: nat) | Infinity | NaN

  /** The `0` the component stores before any practice is submitted. */
  const NoAccuracy: Accuracy := Ratio(0, 1)

  /**
   * `calculateAccuracy`: 100 times the typed non-whitespace characters over
   * the sample's non-whitespace characters.
   */
  function AccuracyOf(sample: string, typed: string): Accuracy {
    var correct := NonSpaceCount(sample);
    var typedChars := NonSpaceCount(typed);
    if correct > 0 then Ratio(100 * typedChars, correct)
    else if typedChars > 0 then Infinity
    else NaN
  }

  /**
   * What the accuracy means: a finite percentage exactly when the sample has
   * a non-whitespace character, equal to 100 times the typed count over the
   * sample count, above 100% exactly when more was typed than the sample
   * holds and exactly 100% when as much; otherwise `Infinity` if anything
   * was typed and `NaN` if not.
   */
  lemma AccuracyMeaning(sample: string, typed: string)
    ensures var a := AccuracyOf(sample, typed);
      && (a.Ratio? <==> !AllSpace(sample))
      && (a.Ratio? ==> a.den > 0 && a.num * NonSpaceCount(sample) == 100 * NonSpaceCount(typed) * a.den)
      && (a.Ratio? ==> (a.num > 100 * a.den <==> NonSpaceCount(typed) > NonSpaceCount(sample)))
      && (a.Ratio? ==> (a.num == 100 * a.den <==> NonSpaceCount(typed) == NonSpaceCount(sample)))
      && (a == Infinity <==> AllSpace(sample) && !AllSpace(typed))
      && (a == NaN <==> AllSpace(sample) && AllSpace(typed))
  {
  }

  /** Whitespace on either side plays no part in the accuracy. */
  lemma AccuracyIgnoresSpaces(sample: string, typed: string)
    ensures AccuracyOf(StripSpaces(sample), StripSpaces(typed)) == AccuracyOf(sample, typed)
  {
    StripNoSpace(StripSpaces(sample));
    StripNoSpace(StripSpaces(typed));
  }

  /** Typing more text adds its characters' share to the accuracy. */
  lemma AccuracyAdditive(sample: string, a: string, b: string)
    requires !AllSpace(sample)
    ensures AccuracyOf(sample, a + b).num == AccuracyOf(sample, a).num + AccuracyOf(sample, b).num
    ensures AccuracyOf(sample, a + b).den == AccuracyOf(sample, a).den
  {
    NonSpaceCountAdditive(a, b);
  }

  /** Counting run starts across a concatenation: the second part continues from the first's last character. */
  lemma {:induction false} RunStartsAppend(afterSpace: bool, x: string, y: string)
    requires x != []
    ensures RunStarts(afterSpace, x + y) == RunStarts(afterSpace, x) + RunStarts(IsSpace(x[|x| - 1]), y)
    decreases |x|
  {
    assert (x + y)[1..] == x[1..] + y;
    if |x| > 1 {
      RunStartsAppend(IsSpace(x[0]), x[1..], y);
    }
  }

  /** A single word starts one run, provided whitespace (or nothing) precedes it. */
  lemma {:induction false} RunStartsWord(afterSpace: bool, w: string)
    requires w != [] && NoSpace(w)
    ensures RunStarts(afterSpace, w) == if afterSpace then 1 else 0
    decreases |w|
  {
    if |w| > 1 {
      RunStartsWord(false, w[1..]);
    }
  }

  /** Printable ASCII other than the space is never whitespace. */
  lemma PrintableNoSpace(w: string)
    requires forall i :: 0 <= i < |w| ==> '!' <= w[i] <= '~'
    ensures NoSpace(w)
  {
  }

  /** A single space between two texts adds nothing to the non-whitespace count. */
  lemma SpacedCount(x: string, y: string)
    ensures NonSpaceCount(x + " " + y) == NonSpaceCount(x) + NonSpaceCount(y)
  {
    NonSpaceCountAdditive(x, " ");
    NonSpaceCountAdditive(x + " ", y);
  }

  /** Two words joined by a space count as two words. */
  lemma TwoWords(a: string, b: string)
    requires a != [] && NoSpace(a) && b != [] && NoSpace(b)
    ensures WordCount(a + " " + b) == 2
  {
    var x := a + " ";
    WordCountIsRunCount(x + b);
    RunStartsAppend(true, a, " ");
    RunStartsBlank(false, " ");
    RunStartsWord(true, a);
    RunStartsAppend(true, x, b);
    RunStartsWord(true, b);
  }

  /** The sample "Bacon ipsum dolor amet" has 19 non-whitespace characters. */
  lemma BaconSampleCount()
    ensures NonSpaceCount("Bacon ipsum dolor amet") == 19
  {
    var a, b, c, d := "Bacon", "ipsum", "dolor", "amet";
    PrintableNoSpace(a);
    PrintableNoSpace(b);
    PrintableNoSpace(c);
    PrintableNoSpace(d);
    var x := a + " " + b;
    var y := x + " " + c;
    assert "Bacon ipsum dolor amet" == y + " " + d;
    SpacedCount(a, b);
    SpacedCount(x, c);
    SpacedCount(y, d);
  }

  /** "Bacon ipsum" has two words and 10 non-whitespace characters. */
  lemma BaconTyped()
    ensures WordCount("Bacon ipsum") == 2
    ensures NonSpaceCount("Bacon ipsum") == 10
  {
    var a, b := "Bacon", "ipsum";
    PrintableNoSpace(a);
    PrintableNoSpace(b);
    assert "Bacon ipsum" == a + " " + b;
    SpacedCount(a, b);
    TwoWords(a, b);
  }

  /**
   * Typing "Bacon ipsum" against the sample "Bacon ipsum dolor amet" scores
   * 1000/19, about 52.63%.
   */
  lemma BaconAccuracy()
    ensures AccuracyOf("Bacon ipsum dolor amet", "Bacon ipsum") == Ratio(1000, 19)
  {
    BaconSampleCount();
    BaconTyped();
  }
}
