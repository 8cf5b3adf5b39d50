/**
 * Shared vocabulary of the image downloader: optional values, the character
 * classes the JavaScript code relies on (whitespace of `trim()` and `\s`,
 * the characters that filenames must not contain), `trim()`, the
 * reserved-character replacement and decimal rendering of numbers.
 */
module Common {

  datatype Option<+T> = None | Some(value: T)

  function Min(a: int, b: int): int
  {
    if a <= b then a else b
  }

  /** JavaScript WhiteSpace and LineTerminator code points: what `trim()` removes and `\s` matches. */
  predicate IsSpace(c: char)
  {
    || c == ' ' || c == '\t' || c == '\n' || c == '\r' || c == '\U{000B}' || c == '\U{000C}'
    || c == '\U{00A0}' || c == '\U{1680}' || ('\U{2000}' <= c <= '\U{200A}')
    || c == '\U{2028}' || c == '\U{2029}' || c == '\U{202F}' || c == '\U{205F}'
    || c == '\U{3000}' || c == '\U{FEFF}'
  }

  /** The class `[\n\r]` used to split text into lines. */
  predicate IsLineBreak(c: char)
  {
    c == '\n' || c == '\r'
  }

  lemma LineBreakIsSpace(c: char)
    requires IsLineBreak(c)
    ensures IsSpace(c)
  {
  }

  predicate NoSpace(s: string)
  {
    forall i :: 0 <= i < |s| ==> !IsSpace(s[i])
  }

  predicate AllSpace(s: string)
  {
    forall i :: 0 <= i < |s| ==> IsSpace(s[i])
  }

  /** The class `[<>:"/\\|?*]` of characters that may not appear in an archive entry name. */
  predicate IsReserved(c: char)
  {
    c == '<' || c == '>' || c == ':' || c == '"' || c == '/' || c == '\\' || c == '|' || c == '?' || c == '*'
  }

  predicate NoReserved(s: string)
  {
    forall i :: 0 <= i < |s| ==> !IsReserved(s[i])
  }

  // ---------------------------------------------------------------------------
  // Sequences as strings

  predicate StartsWith<T(==)>(s: seq<T>, prefix: seq<T>)
  {
    |prefix| <= |s| && s[..|prefix|] == prefix
  }

  predicate EndsWith<T(==)>(s: seq<T>, suffix: seq<T>)
  {
    |suffix| <= |s| && s[|s| - |suffix|..] == suffix
  }

  /** `p` occurs in `s` starting at index `i`. */
  predicate OccursAt<T(==)>(s: seq<T>, p: seq<T>, i: nat)
  {
    i + |p| <= |s| && s[i..i + |p|] == p
  }

  /** The prefix up to `j` is the prefix up to `i` followed by the slice between them. */
  lemma PrefixSplit<T>(s: seq<T>, i: nat, j: nat)
    requires i <= j <= |s|
    ensures s[..j] == s[..i] + s[i..j]
  {
  }

  /** A slice of a suffix is a slice of the whole. */
  lemma SliceOfDrop<T>(s: seq<T>, d: nat, i: nat, j: nat)
    requires i <= j && d + j <= |s|
    ensures s[d..][i..j] == s[d + i..d + j]
  {
  }

  /** A suffix of a suffix is a suffix of the whole. */
  lemma DropOfDrop<T>(s: seq<T>, d: nat, i: nat)
    requires d + i <= |s|
    ensures s[d..][i..] == s[d + i..]
  {
  }

  lemma TakeOfAppend<T>(a: seq<T>, b: seq<T>, n: nat)
    requires n <= |a|
    ensures (a + b)[..n] == a[..n]
  {
  }

  lemma DropOfAppend<T>(a: seq<T>, b: seq<T>, n: nat)
    requires n <= |a|
    ensures (a + b)[n..] == a[n..] + b
  {
  }

  lemma AppendAssoc<T>(a: seq<T>, b: seq<T>, c: seq<T>)
    ensures (a + b) + c == a + (b + c)
  {
  }

  /** A sequence is the concatenation of its three slices at `i` and `j`. */
  lemma SplitThree<T>(s: seq<T>, i: nat, j: nat)
    requires i <= j <= |s|
    ensures s == s[..i] + (s[i..j] + s[j..])
  {
    assert s[i..] == s[i..j] + s[j..];
    assert s == s[..i] + s[i..];
  }

  /** `s.includes(p)` */
  predicate Contains<T(==)>(s: seq<T>, p: seq<T>)
  {
    exists i: nat :: i <= |s| && OccursAt(s, p, i)
  }

  /** `s.lastIndexOf(x)`, with `None` for -1. */
  function LastIndexOf<T(==)>(s: seq<T>, x: T): (r: Option<nat>)
    ensures r.None? ==> x !in s
    ensures r.Some? ==> r.value < |s| && s[r.value] == x && x !in s[r.value + 1..]
  {
    if s == [] then None
    else if s[|s| - 1] == x then Some(|s| - 1)
    else
      var r := LastIndexOf(s[..|s| - 1], x);
      assert s == s[..|s| - 1] + [s[|s| - 1]];
      r
  }

  // ---------------------------------------------------------------------------
  // ASCII case folding (what the code's lower-casing and `/i` regexes amount to
  // on the ASCII patterns they are compared against)

  function LowerChar(c: char): char
  {
    if 'A' <= c <= 'Z' then (c as int + 32) as char else c
  }

  function LowerAscii(s: string): (r: string)
    ensures |r| == |s|
    ensures forall i :: 0 <= i < |s| ==> r[i] == LowerChar(s[i])
  {
    if s == [] then [] else [LowerChar(s[0])] + LowerAscii(s[1..])
  }

  /** Case-insensitive match of the lower-case literal `lit` at position `i` of `s`. */
  predicate MatchesAt(s: string, i: nat, lit: string)
  {
    i + |lit| <= |s| && LowerAscii(s[i..i + |lit|]) == lit
  }

  // ---------------------------------------------------------------------------
  // trim()

  /** Number of whitespace characters at the start of `s`. */
  function LeadingSpace(s: string): (n: nat)
    ensures n <= |s|
    ensures AllSpace(s[..n])
    ensures n == |s| || !IsSpace(s[n])
  {
    if s == [] || !IsSpace(s[0]) then 0 else 1 + LeadingSpace(s[1..])
  }

  /** Number of whitespace characters at the end of `s`. */
  function TrailingSpace(s: string): (n: nat)
    ensures n <= |s|
    ensures AllSpace(s[|s| - n..])
    ensures n == |s| || !IsSpace(s[|s| - 1 - n])
  {
    if s == [] || !IsSpace(s[|s| - 1]) then 0
    else
      var n := TrailingSpace(s[..|s| - 1]);
      assert s[|s| - (n + 1)..] == s[..|s| - 1][|s| - 1 - n..] + [s[|s| - 1]];
      n + 1
  }

  /** `s.trim()` */
  function Trim(s: string): (r: string)
    ensures r == [] || (!IsSpace(r[0]) && !IsSpace(r[|r| - 1]))
  {
    var t := s[LeadingSpace(s)..];
    t[..|t| - TrailingSpace(t)]
  }

  /** Trim removes whitespace only: `s` is some blanks, then `Trim(s)`, then some blanks. */
  lemma TrimShape(s: string)
    ensures var k := LeadingSpace(s);
      k + |Trim(s)| <= |s| && s[k..k + |Trim(s)|] == Trim(s)
      && AllSpace(s[..k]) && AllSpace(s[k + |Trim(s)|..])
  {
    var k := LeadingSpace(s);
    var t := s[k..];
    var n := |t| - TrailingSpace(t);
    assert Trim(s) == t[..n] == t[0..n];
    SliceOfDrop(s, k, 0, n);
    DropOfDrop(s, k, n);
  }

  lemma TrimOfBlank(s: string)
    requires AllSpace(s)
    ensures Trim(s) == []
  {
    TrimShape(s);
  }

  lemma TrimNoSpace(s: string)
    requires NoSpace(s)
    ensures Trim(s) == s
  {
    assert LeadingSpace(s) == 0;
    assert TrailingSpace(s) == 0;
  }

  lemma TrimIdempotent(s: string)
    ensures Trim(Trim(s)) == Trim(s)
  {
    var r := Trim(s);
    if r != [] {
      assert LeadingSpace(r) == 0;
      assert TrailingSpace(r) == 0;
    }
  }

  // ---------------------------------------------------------------------------
  // The reserved-character replacement `s.replace(/[<>:"/\\|?*]/g, '_')`

  function SafeChar(c: char): char
  {
    if IsReserved(c) then '_' else c
  }

  function Sanitize(s: string): (r: string)
    ensures |r| == |s|
    ensures NoReserved(r)
    ensures forall i :: 0 <= i < |s| ==> r[i] == SafeChar(s[i])
  {
    if s == [] then [] else [SafeChar(s[0])] + Sanitize(s[1..])
  }

  lemma SanitizeKeepsClean(s: string)
    requires NoReserved(s)
    ensures Sanitize(s) == s
  {
  }

  lemma SanitizeIdempotent(s: string)
    ensures Sanitize(Sanitize(s)) == Sanitize(s)
  {
    SanitizeKeepsClean(Sanitize(s));
  }

  lemma SanitizeConcat(a: string, b: string)
    ensures Sanitize(a + b) == Sanitize(a) + Sanitize(b)
  {
  }

  // ---------------------------------------------------------------------------
  // Decimal rendering of a number, as in the template literal `${n}`

  predicate IsDigit(c: char)
  {
    '0' <= c <= '9'
  }

  function DigitChar(d: nat): (c: char)
    requires d < 10
    ensures IsDigit(c)
  {
    ('0' as int + d) as char
  }

  function NatToString(n: nat): (r: string)
    ensures 1 <= |r|
    ensures forall i :: 0 <= i < |r| ==> IsDigit(r[i])
    ensures n >= 10 ==> 2 <= |r|
  {
    if n < 10 then [DigitChar(n)] else NatToString(n / 10) + [DigitChar(n % 10)]
  }

  lemma DigitsAreClean(s: string)
    requires forall i :: 0 <= i < |s| ==> IsDigit(s[i])
    ensures NoReserved(s) && NoSpace(s) && '.' !in s && '_' !in s
  {
  }

  /** Different numbers render differently. */
  lemma {:induction false} NatToStringInjective(a: nat, b: nat)
    requires NatToString(a) == NatToString(b)
    ensures a == b
  {
    if a >= 10 && b >= 10 {
      var sa, sb := NatToString(a), NatToString(b);
      assert sa[..|sa| - 1] == NatToString(a / 10);
      assert sb[..|sb| - 1] == NatToString(b / 10);
      NatToStringInjective(a / 10, b / 10);
      assert DigitChar(a % 10) == sa[|sa| - 1] == DigitChar(b % 10);
    }
  }
}
