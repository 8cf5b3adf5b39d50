/**
 * The plain-text branch of `getUrls` (both client scripts): split the text
 * into lines on runs of `[\n\r]`, each trimmed line into tokens on runs of
 * `\s`, drop blank tokens and keep those `isValidUrl` accepts.
 *
 * The reference definition is `Words`: the maximal runs of non-whitespace
 * characters. The pipeline yields exactly the words of the text.
 */
module Tokens {
  import opened Common
  import opened Url

  /** Length of the longest prefix of `s` whose characters all satisfy `p`. */
  function Span(s: string, p: char -> bool): (n: nat)
    ensures n <= |s|
    ensures forall i :: 0 <= i < n ==> p(s[i])
    ensures n == |s| || !p(s[n])
  {
    if s == [] || !p(s[0]) then 0 else 1 + Span(s[1..], p)
  }

  /** Index of the first character of `s` that satisfies `p`, or `|s|` when none does. */
  function Until(s: string, p: char -> bool): (n: nat)
    ensures n <= |s|
    ensures forall i :: 0 <= i < n ==> !p(s[i])
    ensures n == |s| || p(s[n])
  {
    if s == [] || p(s[0]) then 0 else 1 + Until(s[1..], p)
  }

  /** A first separator inside `b`'s head, or right at its start, is found at the same place in `a + b`. */
  lemma {:induction false} UntilPrefix(a: string, b: string, p: char -> bool)
    requires b == [] || p(b[0])
    ensures Until(a + b, p) == Until(a, p)
  {
    if a != [] && !p(a[0]) {
      assert (a + b)[1..] == a[1..] + b;
      UntilPrefix(a[1..], b, p);
    }
  }

  /**
   * `s.split(/[…]+/)` for the character class `sep`: the pieces between
   * maximal runs of separators. A run at either end gives an empty piece
   * there; a string without separators is one piece.
   */
  function SplitRuns(s: string, sep: char -> bool): (r: seq<string>)
    ensures |r| >= 1
    ensures forall i, j :: 0 <= i < |r| && 0 <= j < |r[i]| ==> !sep(r[i][j])
    decreases |s|
  {
    var k := Until(s, sep);
    if k == |s| then [s]
    else
      var e := k + Span(s[k..], sep);
      [s[..k]] + SplitRuns(s[e..], sep)
  }

  /** One step of the split: the piece before the first run, then the split of what follows the run. */
  lemma SplitRunsStep(s: string, sep: char -> bool, k: nat, e: nat)
    requires k == Until(s, sep) < |s| && e == k + Span(s[k..], sep)
    ensures SplitRuns(s, sep) == [s[..k]] + SplitRuns(s[e..], sep)
  {
  }

  // ---------------------------------------------------------------------------
  // Reference definition

  /** The maximal runs of non-whitespace characters of `s`, in order. */
  function Words(s: string): (r: seq<string>)
    ensures forall i :: 0 <= i < |r| ==> r[i] != [] && NoSpace(r[i])
    decreases |s|
  {
    if s == [] then []
    else if IsSpace(s[0]) then Words(s[1..])
    else
      var n := Until(s, IsSpace);
      [s[..n]] + Words(s[n..])
  }

  /** Whitespace in front of a text adds no word. */
  lemma {:induction false} WordsSkipSpaces(r: string, b: string)
    requires AllSpace(r)
    ensures Words(r + b) == Words(b)
  {
    if r == [] {
      assert r + b == b;
    } else {
      assert (r + b)[0] == r[0] && IsSpace(r[0]);
      assert (r + b)[1..] == r[1..] + b;
      WordsSkipSpaces(r[1..], b);
    }
  }

  lemma WordsOfBlank(s: string)
    requires AllSpace(s)
    ensures Words(s) == []
  {
    WordsSkipSpaces(s, []);
    assert s + [] == s;
  }

  /** A whitespace-free text is one word, or none when empty. */
  lemma WordsOfWord(s: string)
    requires NoSpace(s)
    ensures Words(s) == if s == [] then [] else [s]
  {
    if s != [] {
      var n := Until(s, IsSpace);
      assert !IsSpace(s[0]);
      assert n == |s|;
      assert s[..n] == s && s[n..] == [];
    }
  }

  /** A cut just before whitespace cuts no word in two. */
  lemma {:induction false} WordsSplitAtSpace(a: string, b: string)
    requires b == [] || IsSpace(b[0])
    ensures Words(a + b) == Words(a) + Words(b)
    decreases |a|
  {
    if a == [] {
      assert a + b == b;
    } else if IsSpace(a[0]) {
      assert (a + b)[0] == a[0];
      DropOfAppend(a, b, 1);
      WordsSplitAtSpace(a[1..], b);
    } else {
      assert (a + b)[0] == a[0];
      var n := Until(a, IsSpace);
      UntilPrefix(a, b, IsSpace);
      TakeOfAppend(a, b, n);
      DropOfAppend(a, b, n);
      WordsSplitAtSpace(a[n..], b);
      AppendAssoc([a[..n]], Words(a[n..]), Words(b));
    }
  }

  /** `trim()` removes no word. */
  lemma WordsOfTrim(s: string)
    ensures Words(Trim(s)) == Words(s)
  {
    TrimShape(s);
    var k := LeadingSpace(s);
    var t := Trim(s);
    var post := s[k + |t|..];
    assert s == s[..k] + (t + post);
    WordsSkipSpaces(s[..k], t + post);
    WordsSplitAtSpace(t, post);
    WordsOfBlank(post);
    assert t + post == t + post;
  }

  // ---------------------------------------------------------------------------
  // The pipeline

  /** `.filter(url => url.trim() !== '')` */
  function DropBlank(ts: seq<string>): (r: seq<string>)
    ensures forall i :: 0 <= i < |r| ==> r[i] != [] && Trim(r[i]) != []
    ensures forall t :: t in r ==> t in ts
  {
    if ts == [] then []
    else if Trim(ts[0]) != [] then
      TrimOfBlank([]);
      [ts[0]] + DropBlank(ts[1..])
    else DropBlank(ts[1..])
  }

  lemma {:induction false} DropBlankConcat(x: seq<string>, y: seq<string>)
    ensures DropBlank(x + y) == DropBlank(x) + DropBlank(y)
  {
    if x == [] {
      assert x + y == y;
    } else {
      assert (x + y)[1..] == x[1..] + y;
      DropBlankConcat(x[1..], y);
    }
  }

  /** Cutting out a run of whitespace leaves the words before it and the words after it. */
  lemma WordsAroundRun(s: string, k: nat, e: nat)
    requires k < e <= |s| && AllSpace(s[k..e])
    ensures Words(s) == Words(s[..k]) + Words(s[e..])
  {
    var head, run, tail := s[..k], s[k..e], s[e..];
    assert IsSpace(run[0]);
    var rest := run + tail;
    assert rest[0] == run[0];
    SplitThree(s, k, e);
    WordsSplitAtSpace(head, rest);
    WordsSkipSpaces(run, tail);
  }

  /** A whitespace-free piece survives the blank filter exactly when it is a word. */
  lemma DropBlankOfWord(piece: string)
    requires NoSpace(piece)
    ensures DropBlank([piece]) == Words(piece)
  {
    TrimNoSpace(piece);
    WordsOfWord(piece);
    assert [piece][1..] == [];
  }

  /** Before the first whitespace run there is no whitespace; the run itself is all whitespace. */
  lemma SpaceRunBounds(s: string, k: nat, e: nat)
    requires k == Until(s, IsSpace) < |s| && e == k + Span(s[k..], IsSpace)
    ensures k < e <= |s| && NoSpace(s[..k]) && AllSpace(s[k..e])
  {
    assert s[k..][0] == s[k];
    forall x | 0 <= x < e - k
      ensures IsSpace(s[k..e][x])
    {
      assert s[k..e][x] == s[k..][x];
    }
  }

  /** Splitting on runs of whitespace and dropping the blank pieces gives the words. */
  lemma {:induction false} DropBlankOfSpaceSplit(s: string)
    ensures DropBlank(SplitRuns(s, IsSpace)) == Words(s)
    decreases |s|
  {
    var k := Until(s, IsSpace);
    if k == |s| {
      assert s[..k] == s;
      DropBlankOfWord(s);
    } else {
      var e := k + Span(s[k..], IsSpace);
      SpaceRunBounds(s, k, e);
      DropBlankOfSpaceSplit(s[e..]);
      DropBlankOfSpaceSplitStep(s, k, e);
    }
  }

  /** One step of `DropBlankOfSpaceSplit`, given the result for the text after the first run. */
  lemma DropBlankOfSpaceSplitStep(s: string, k: nat, e: nat)
    requires k == Until(s, IsSpace) < |s| && e == k + Span(s[k..], IsSpace)
    requires k < e <= |s| && NoSpace(s[..k]) && AllSpace(s[k..e])
    requires DropBlank(SplitRuns(s[e..], IsSpace)) == Words(s[e..])
    ensures DropBlank(SplitRuns(s, IsSpace)) == Words(s)
  {
    var later := SplitRuns(s[e..], IsSpace);
    SplitRunsStep(s, IsSpace, k, e);
    DropBlankConcat([s[..k]], later);
    DropBlankOfWord(s[..k]);
    WordsAroundRun(s, k, e);
  }

  /** `.flatMap(line => line.trim().split(/\s+/))` */
  function LineTokens(lines: seq<string>): (r: seq<string>)
    ensures forall i :: 0 <= i < |r| ==> NoSpace(r[i])
  {
    if lines == [] then [] else SplitRuns(Trim(lines[0]), IsSpace) + LineTokens(lines[1..])
  }

  /** The words of each line, line after line. */
  function WordsOfLines(lines: seq<string>): seq<string>
  {
    if lines == [] then [] else Words(lines[0]) + WordsOfLines(lines[1..])
  }

  lemma {:induction false} LineTokensAreWords(lines: seq<string>)
    ensures DropBlank(LineTokens(lines)) == WordsOfLines(lines)
  {
    if lines != [] {
      DropBlankConcat(SplitRuns(Trim(lines[0]), IsSpace), LineTokens(lines[1..]));
      DropBlankOfSpaceSplit(Trim(lines[0]));
      WordsOfTrim(lines[0]);
      LineTokensAreWords(lines[1..]);
    }
  }

  /** Cutting the text into lines loses no word and cuts none in two. */
  lemma {:induction false} WordsOfLineSplit(s: string)
    ensures WordsOfLines(SplitRuns(s, IsLineBreak)) == Words(s)
    decreases |s|
  {
    var k := Until(s, IsLineBreak);
    if k == |s| {
      assert WordsOfLines([s]) == Words(s) + [];
    } else {
      var e := k + Span(s[k..], IsLineBreak);
      var piece := s[..k];
      SplitRunsStep(s, IsLineBreak, k, e);
      WordsOfLineSplit(s[e..]);
      assert AllSpace(s[k..e]) by {
        forall i | 0 <= i < e - k
          ensures IsSpace(s[k..e][i])
        {
          assert IsLineBreak(s[k..][i]);
          LineBreakIsSpace(s[k..e][i]);
        }
      }
      WordsAroundRun(s, k, e);
    }
  }

  /** `text.split(/[\n\r]+/).flatMap(line => line.trim().split(/\s+/)).filter(url => url.trim() !== '')` */
  function PlainTokens(text: string): (r: seq<string>)
    ensures forall i :: 0 <= i < |r| ==> r[i] != [] && NoSpace(r[i])
  {
    var ts := LineTokens(SplitRuns(text, IsLineBreak));
    var r := DropBlank(ts);
    assert forall i :: 0 <= i < |r| ==> NoSpace(r[i]) by {
      forall i | 0 <= i < |r|
        ensures NoSpace(r[i])
      {
        assert r[i] in ts;
      }
    }
    r
  }

  /** The token pipeline computes exactly the words of the text. */
  lemma PlainTokensAreWords(text: string)
    ensures PlainTokens(text) == Words(text)
  {
    LineTokensAreWords(SplitRuns(text, IsLineBreak));
    WordsOfLineSplit(text);
  }

  /** `.filter(url => this.isValidUrl(url))` */
  function KeepValid(parse: Parser, ts: seq<string>): (r: seq<string>)
    ensures forall t :: t in r <==> t in ts && IsValidUrl(parse(t))
    ensures |r| <= |ts|
  {
    if ts == [] then []
    else (if IsValidUrl(parse(ts[0])) then [ts[0]] else []) + KeepValid(parse, ts[1..])
  }

  /** Filtering keeps the input order: it distributes over concatenation. */
  lemma {:induction false} KeepValidConcat(parse: Parser, a: seq<string>, b: seq<string>)
    ensures KeepValid(parse, a + b) == KeepValid(parse, a) + KeepValid(parse, b)
  {
    if a == [] {
      assert a + b == b;
    } else {
      var head := if IsValidUrl(parse(a[0])) then [a[0]] else [];
      assert (a + b)[1..] == a[1..] + b;
      assert KeepValid(parse, a + b) == head + KeepValid(parse, a[1..] + b);
      KeepValidConcat(parse, a[1..], b);
      AppendAssoc(head, KeepValid(parse, a[1..]), KeepValid(parse, b));
    }
  }

  /** A single token is kept exactly when it is a valid URL. */
  lemma KeepValidSingle(parse: Parser, t: string)
    ensures KeepValid(parse, [t]) == if IsValidUrl(parse(t)) then [t] else []
  {
  }

  /**
   * `getUrls()` of the plain client: nothing for a blank input, else the
   * words of the text that are http or https URLs, in input order.
   */
  function PlainUrls(parse: Parser, value: string): (r: seq<string>)
    ensures r == KeepValid(parse, Words(value))
  {
    var text := Trim(value);
    WordsOfTrim(value);
    if text == [] then []
    else
      PlainTokensAreWords(text);
      KeepValid(parse, PlainTokens(text))
  }

  /** Every URL returned is a non-empty, whitespace-free token that `isValidUrl` accepts. */
  lemma PlainUrlsAreValidTokens(parse: Parser, value: string, t: string)
    requires t in PlainUrls(parse, value)
    ensures t != [] && NoSpace(t) && IsValidUrl(parse(t))
  {
    var ws := Words(value);
    assert t in KeepValid(parse, ws);
    assert t in ws && IsValidUrl(parse(t));
    var i :| 0 <= i < |ws| && ws[i] == t;
  }

  /** A word of the input that is a valid URL is returned. */
  lemma PlainUrlsKeepValidWords(parse: Parser, value: string, t: string)
    requires t in Words(value) && IsValidUrl(parse(t))
    ensures t in PlainUrls(parse, value)
  {
  }

  /** Blank input gives no URL. */
  lemma PlainUrlsOfBlank(parse: Parser, value: string)
    requires AllSpace(value)
    ensures PlainUrls(parse, value) == []
  {
    WordsOfBlank(value);
  }
}
