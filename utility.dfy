/** The string helpers of initool.cpp (lines 21-59), as total functions on
    `string` (a `seq<char>`), and the properties the rest of the model uses. */
module Utility {
  import opened Wrappers

  /** The characters `trim` strips: space, tab, CR and LF. */
  predicate IsSpace(c: char) {
    c == ' ' || c == '\t' || c == '\r' || c == '\n'
  }

  predicate AllSpace(s: string) {
    forall i :: 0 <= i < |s| ==> IsSpace(s[i])
  }

  /** Neither end of `s` is a space character (vacuous for the empty string). */
  predicate NoEdgeSpace(s: string) {
    s == [] || (!IsSpace(s[0]) && !IsSpace(s[|s| - 1]))
  }

  /** `find_first_not_of(" \t\r\n")`, with `|s|` standing for `npos`. */
  function FirstNonSpace(s: string): (i: nat)
    ensures i <= |s|
    ensures i < |s| ==> !IsSpace(s[i])
  {
    if s == [] || !IsSpace(s[0]) then 0 else 1 + FirstNonSpace(s[1..])
  }

  /** Everything `FirstNonSpace` skips is a space. */
  lemma {:induction false} FirstNonSpaceSkipsSpaces(s: string)
    ensures AllSpace(s[..FirstNonSpace(s)])
  {
    if s != [] && IsSpace(s[0]) {
      FirstNonSpaceSkipsSpaces(s[1..]);
      assert s[..FirstNonSpace(s)] == [s[0]] + s[1..][..FirstNonSpace(s[1..])];
    }
  }

  /** One past `find_last_not_of(" \t\r\n")`, or 0 when there is none. */
  function EndNonSpace(s: string): (j: nat)
    ensures j <= |s|
    ensures j > 0 ==> !IsSpace(s[j - 1])
  {
    if s == [] || !IsSpace(s[|s| - 1]) then |s| else EndNonSpace(s[..|s| - 1])
  }

  /** Everything past `EndNonSpace` is a space. */
  lemma {:induction false} EndNonSpaceSkipsSpaces(s: string)
    ensures AllSpace(s[EndNonSpace(s)..])
  {
    if s != [] && IsSpace(s[|s| - 1]) {
      var t := s[..|s| - 1];
      EndNonSpaceSkipsSpaces(t);
      assert s[EndNonSpace(s)..] == t[EndNonSpace(t)..] + [s[|s| - 1]];
    }
  }

  /** A non-space character lies before the end `EndNonSpace` finds. */
  lemma {:induction false} EndNonSpaceAfter(s: string, i: nat)
    requires i < |s| && !IsSpace(s[i])
    ensures i < EndNonSpace(s)
  {
    if i < |s| - 1 && IsSpace(s[|s| - 1]) {
      EndNonSpaceAfter(s[..|s| - 1], i);
    }
  }

  /** `trim` (initool.cpp:21-28): nothing of the result is a space at either
      end. `TrimShape` and `TrimAllSpace` say what was cut off. */
  function Trim(s: string): (r: string)
    ensures |r| <= |s|
    ensures NoEdgeSpace(r)
  {
    var start := FirstNonSpace(s);
    if start == |s| then []
    else
      EndNonSpaceAfter(s, start);
      s[start..EndNonSpace(s)]
  }

  /** `trim` yields the empty string exactly for an all-space string. */
  lemma TrimAllSpace(s: string)
    ensures Trim(s) == [] <==> AllSpace(s)
  {
    FirstNonSpaceSkipsSpaces(s);
    if FirstNonSpace(s) == |s| {
      assert s[..|s|] == s;
    } else {
      EndNonSpaceAfter(s, FirstNonSpace(s));
      assert !IsSpace(s[FirstNonSpace(s)]);
    }
  }

  /** What `trim` removes is all spaces: `s` is the result padded on the left
      and on the right by all-space strings. */
  lemma TrimShape(s: string)
    ensures exists i :: 0 <= i <= |s| - |Trim(s)| && Trim(s) == s[i..i + |Trim(s)|]
                        && AllSpace(s[..i]) && AllSpace(s[i + |Trim(s)|..])
  {
    var start := FirstNonSpace(s);
    FirstNonSpaceSkipsSpaces(s);
    if start == |s| {
      assert s[..|s|] == s;
      assert AllSpace(s[..0]) && AllSpace(s[0..]);
    } else {
      var end := EndNonSpace(s);
      EndNonSpaceSkipsSpaces(s);
      assert AllSpace(s[..start]) && AllSpace(s[end..]);
    }
  }

  /** The first non-space of `p + r + q` is the first character of `r`, given
      all-space `p` and a non-empty `r` that does not start with a space. */
  lemma {:induction false} FirstNonSpaceOfPadded(p: string, rest: string)
    requires AllSpace(p) && rest != [] && !IsSpace(rest[0])
    ensures FirstNonSpace(p + rest) == |p|
  {
    if p != [] {
      assert (p + rest)[1..] == p[1..] + rest;
      FirstNonSpaceOfPadded(p[1..], rest);
    }
  }

  /** The end of the last non-space of `rest + q` is `|rest|`, given all-space
      `q` and a non-empty `rest` that does not end with a space. */
  lemma {:induction false} EndNonSpaceOfPadded(rest: string, q: string)
    requires AllSpace(q) && rest != [] && !IsSpace(rest[|rest| - 1])
    ensures EndNonSpace(rest + q) == |rest|
  {
    if q != [] {
      assert (rest + q)[..|rest + q| - 1] == rest + q[..|q| - 1];
      EndNonSpaceOfPadded(rest, q[..|q| - 1]);
    } else {
      assert rest + q == rest;
    }
  }

  /** Trimming is determined by the decomposition: whatever all-space `p` and
      `q` surround an edge-clean `r`, `Trim(p + r + q)` is `r`. */
  lemma {:induction false} TrimOfPadded(p: string, r: string, q: string)
    requires AllSpace(p) && AllSpace(q) && NoEdgeSpace(r)
    ensures Trim(p + r + q) == r
  {
    var s := p + r + q;
    if r == [] {
      assert AllSpace(s) by {
        forall i | 0 <= i < |s| ensures IsSpace(s[i]) {
          if i < |p| { assert s[i] == p[i]; } else { assert s[i] == q[i - |p|]; }
        }
      }
      TrimAllSpace(s);
    } else {
      assert s == p + (r + q);
      FirstNonSpaceOfPadded(p, r + q);
      assert s == (p + r) + q;
      EndNonSpaceOfPadded(p + r, q);
      assert s[|p|..|p| + |r|] == r;
    }
  }

  /** `trim` is idempotent. */
  lemma TrimIdempotent(s: string)
    ensures Trim(Trim(s)) == Trim(s)
  {
    TrimOfPadded([], Trim(s), []);
    assert [] + Trim(s) + [] == Trim(s);
  }

  /** ASCII lowercasing of one character, as `std::tolower` in the "C" locale. */
  function LowerChar(c: char): char {
    if 'A' <= c <= 'Z' then (c as int + 32) as char else c
  }

  /** `to_lower` (initool.cpp:30-37), which keeps the length;
      `ToLowerChars` says what becomes of each character. */
  function ToLower(s: string): (r: string)
    ensures |r| == |s|
  {
    if s == [] then [] else [LowerChar(s[0])] + ToLower(s[1..])
  }

  /** `to_lower` lowercases character by character, so no ASCII upper-case
      letter is left. */
  lemma {:induction false} ToLowerChars(s: string)
    ensures forall i :: 0 <= i < |s| ==> ToLower(s)[i] == LowerChar(s[i])
    ensures forall i :: 0 <= i < |s| ==> !('A' <= ToLower(s)[i] <= 'Z')
  {
    if s != [] {
      ToLowerChars(s[1..]);
      assert forall i :: 1 <= i < |s| ==> ToLower(s)[i] == ToLower(s[1..])[i - 1];
    }
  }

  /** Case folding twice is case folding once. */
  lemma ToLowerIdempotent(s: string)
    ensures ToLower(ToLower(s)) == ToLower(s)
  {
    ToLowerChars(s);
    ToLowerChars(ToLower(s));
  }

  /** `starts_with` (initool.cpp:39-41). */
  predicate StartsWith(s: string, c: char) {
    |s| > 0 && s[0] == c
  }

  /** `is_section_header` (initool.cpp:43-45). */
  predicate IsSectionHeader(s: string) {
    |s| >= 3 && s[0] == '[' && s[|s| - 1] == ']'
  }

  /** Every section header starts with '[', but not the other way round: the
      insertion scan of `set`, which tests only for a leading '[', stops at
      more lines than the loader treats as headers. */
  lemma HeaderTestIsStricter(s: string)
    ensures IsSectionHeader(s) ==> StartsWith(s, '[')
    ensures StartsWith("[x", '[') && !IsSectionHeader("[x")
  {
  }

  /** Both ends are a double quote and there are at least two characters. */
  predicate IsQuoted(s: string) {
    |s| >= 2 && s[0] == '"' && s[|s| - 1] == '"'
  }

  /** `unquote` (initool.cpp:47-52): strips one pair of surrounding quotes.
      Exactly one pair goes, and only when `s` is quoted. */
  function Unquote(s: string): (r: string)
    ensures IsQuoted(s) ==> s == ['"'] + r + ['"']
    ensures !IsQuoted(s) ==> r == s
  {
    if IsQuoted(s) then s[1..|s| - 1] else s
  }

  /** The test of `quote_if_needed`: `find_first_of(" =")` finds something. */
  predicate NeedsQuotes(s: string) {
    ' ' in s || '=' in s
  }

  /** `quote_if_needed` (initool.cpp:54-59). */
  function QuoteIfNeeded(s: string): (r: string)
    ensures NeedsQuotes(s) ==> r == ['"'] + s + ['"']
    ensures !NeedsQuotes(s) ==> r == s
  {
    if NeedsQuotes(s) then "\"" + s + "\"" else s
  }

  /** `unquote` undoes `quote_if_needed` exactly when the value either needed
      quotes or was not already quoted: a value such as `"x"` that needs no
      quotes is written as is and loses its quotes when read back. */
  lemma UnquoteQuoteIfNeeded(v: string)
    ensures Unquote(QuoteIfNeeded(v)) == v <==> NeedsQuotes(v) || !IsQuoted(v)
  {
    if NeedsQuotes(v) {
      var q := ['"'] + v + ['"'];
      assert q[1..|q| - 1] == v;
    } else if IsQuoted(v) {
      assert |Unquote(v)| == |v| - 2;
    }
  }

  /** `std::string::find(c)`: the first position of `c`, or `None` for `npos`. */
  function Find(s: string, c: char): (r: Option<nat>)
    ensures r.None? <==> c !in s
    ensures r.Some? ==> r.value < |s| && s[r.value] == c && c !in s[..r.value]
  {
    if s == [] then None
    else if s[0] == c then Some(0)
    else match Find(s[1..], c)
      case None => None
      case Some(i) =>
        assert s[..i + 1] == [s[0]] + s[1..][..i];
        Some(i + 1)
  }
}
