/** `isJsonFormat`: the cheap syntactic test that decides whether a CSV cell
    is handed to the JSON pruner. */
module CellClassifier {
  import opened Wrappers

  /** Java's `String.trim` treats every char at or below U+0020 as blank. */
  predicate IsBlank(c: char)
  {
    c <= ' '
  }

  /** Where `String.trim` starts (its `st`): the number of leading blanks. */
  function TrimStartIndex(s: string): (st: nat)
    ensures st <= |s|
    ensures forall i :: 0 <= i < st ==> IsBlank(s[i])
    ensures st < |s| ==> !IsBlank(s[st])
  {
    if |s| > 0 && IsBlank(s[0]) then 1 + TrimStartIndex(s[1..]) else 0
  }

  /** Where `String.trim` ends: the length of `s` without its trailing
      blanks, which is Java's `len` whenever `s` has a non-blank char (on an
      all-blank string Java stops at `st` instead; the trimmed text is empty
      either way). */
  function TrimEndIndex(s: string): (len: nat)
    ensures len <= |s|
    ensures forall i :: len <= i < |s| ==> IsBlank(s[i])
    ensures len > 0 ==> !IsBlank(s[len - 1])
  {
    if |s| > 0 && IsBlank(s[|s| - 1]) then TrimEndIndex(s[..|s| - 1]) else |s|
  }

  /** `String.trim`: the chars from `st` up to `len`. It is empty exactly
      when `s` is all blanks, and otherwise it starts and ends with a
      non-blank char. */
  function Trim(s: string): (r: string)
    ensures |r| == 0 <==> forall i :: 0 <= i < |s| ==> IsBlank(s[i])
    ensures |r| > 0 ==> !IsBlank(r[0]) && !IsBlank(r[|r| - 1])
    ensures |r| > 0 ==> r == s[TrimStartIndex(s)..TrimEndIndex(s)]
  {
    var st, len := TrimStartIndex(s), TrimEndIndex(s);
    assert st < |s| ==> st < len;
    if st < len then s[st..len] else []
  }

  predicate StartsWith(s: string, prefix: string)
  {
    |prefix| <= |s| && s[..|prefix|] == prefix
  }

  predicate EndsWith(s: string, suffix: string)
  {
    |suffix| <= |s| && s[|s| - |suffix|..] == suffix
  }

  /** `isJsonFormat(str)`; None stands for a Java null reference. A null or
      all-blank cell is never JSON-like, and a JSON-like cell trims to at
      least its two delimiters. */
  predicate IsJsonFormat(str: Option<string>)
    ensures IsJsonFormat(str) ==> str.Some? && |Trim(str.value)| >= 2
    ensures str.Some? && (forall i :: 0 <= i < |str.value| ==> IsBlank(str.value[i])) ==> !IsJsonFormat(str)
  {
    if str.None? || |Trim(str.value)| == 0 then false
    else
      var t := Trim(str.value);
      DelimiterChars(t);
      (StartsWith(t, "{") && EndsWith(t, "}")) || (StartsWith(t, "[") && EndsWith(t, "]"))
  }

  /** The prefix and suffix tests of `isJsonFormat`, char by char; an opening
      and a closing delimiter are different chars, so both need two chars. */
  lemma DelimiterChars(t: string)
    requires |t| > 0
    ensures (StartsWith(t, "{") && EndsWith(t, "}")) || (StartsWith(t, "[") && EndsWith(t, "]"))
      <==> (t[0] == '{' && t[|t| - 1] == '}') || (t[0] == '[' && t[|t| - 1] == ']')
    ensures (StartsWith(t, "{") && EndsWith(t, "}")) || (StartsWith(t, "[") && EndsWith(t, "]"))
      ==> |t| >= 2
  {
    OneCharAffixes(t, '{');
    OneCharAffixes(t, '}');
    OneCharAffixes(t, '[');
    OneCharAffixes(t, ']');
  }

  /** A one-char prefix or suffix test reads the first or the last char. */
  lemma OneCharAffixes(t: string, c: char)
    requires |t| > 0
    ensures StartsWith(t, [c]) <==> t[0] == c
    ensures EndsWith(t, [c]) <==> t[|t| - 1] == c
  {
    assert t[..1] == [t[0]];
    assert t[|t| - 1..] == [t[|t| - 1]];
  }

  /** Independent reading of the test: `s[lo..hi+1]` is `s` without its
      surrounding blanks and it is delimited by a matching brace or bracket pair. */
  predicate DelimitedSpan(s: string, lo: int, hi: int)
  {
    0 <= lo <= hi < |s|
    && (forall i :: 0 <= i < lo ==> IsBlank(s[i]))
    && (forall i :: hi < i < |s| ==> IsBlank(s[i]))
    && ((s[lo] == '{' && s[hi] == '}') || (s[lo] == '[' && s[hi] == ']'))
  }

  /** A null cell, an empty cell and a cell made only of blanks are never JSON. */
  lemma BlankIsNotJson(str: Option<string>)
    requires str.Some? ==> forall i :: 0 <= i < |str.value| ==> IsBlank(str.value[i])
    ensures !IsJsonFormat(str)
  {
  }

  /** Trimming a string whose first and last non-blank chars are at `lo` and
      `hi` yields exactly `s[lo..hi+1]`. */
  lemma TrimSpan(s: string, lo: int, hi: int)
    requires 0 <= lo <= hi < |s|
    requires forall i :: 0 <= i < lo ==> IsBlank(s[i])
    requires forall i :: hi < i < |s| ==> IsBlank(s[i])
    requires !IsBlank(s[lo]) && !IsBlank(s[hi])
    ensures Trim(s) == s[lo..hi + 1]
  {
    assert TrimStartIndex(s) == lo && TrimEndIndex(s) == hi + 1;
  }

  /** `isJsonFormat` holds exactly when the cell, apart from surrounding
      blanks, starts with `{` and ends with `}` or starts with `[` and ends with `]`. */
  lemma IsJsonFormatIff(s: string)
    ensures IsJsonFormat(Some(s)) <==> exists lo, hi :: DelimitedSpan(s, lo, hi)
  {
    if IsJsonFormat(Some(s)) {
      JsonFormatHasSpan(s);
    }
    if exists lo, hi :: DelimitedSpan(s, lo, hi) {
      var lo, hi :| DelimitedSpan(s, lo, hi);
      SpanIsJsonFormat(s, lo, hi);
    }
  }

  lemma JsonFormatHasSpan(s: string)
    requires IsJsonFormat(Some(s))
    ensures DelimitedSpan(s, TrimStartIndex(s), TrimEndIndex(s) - 1)
  {
    var t := Trim(s);
    var st, len := TrimStartIndex(s), TrimEndIndex(s);
    assert |t| >= 2;
    assert (StartsWith(t, "{") && EndsWith(t, "}")) || (StartsWith(t, "[") && EndsWith(t, "]"));
    DelimiterChars(t);
    assert t == s[st..len];
    assert t[0] == s[st] && t[|t| - 1] == s[len - 1];
    assert forall i :: len - 1 < i < |s| ==> IsBlank(s[i]);
  }

  lemma SpanIsJsonFormat(s: string, lo: int, hi: int)
    requires DelimitedSpan(s, lo, hi)
    ensures IsJsonFormat(Some(s))
  {
    TrimSpan(s, lo, hi);
    var t := s[lo..hi + 1];
    DelimiterChars(t);
  }
}
