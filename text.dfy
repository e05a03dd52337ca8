/**
 * The few Python `str` operations the blog backend relies on, on strings
 * taken as sequences of Unicode code points: `isspace`, `strip`,
 * `split(sep)`, `sep.join(parts)` and `replace` of one character.
 */
module Text {

  /**
   * Python's `str.isspace()` for a single code point: the ASCII blanks and
   * control separators and the Unicode space separators, but no letter,
   * digit or punctuation.
   */
  predicate IsSpace(c: char): (b: bool)
    ensures c in " \t\n\r\U{0B}\U{0C}" ==> b
    ensures ('0' <= c <= '9' || 'a' <= c <= 'z' || 'A' <= c <= 'Z' || c in ".,:/") ==> !b
  {
    || c == ' '
    || ('\t' <= c <= '\r')
    || ('\U{1C}' <= c <= '\U{1F}')
    || c == '\U{85}'
    || c == '\U{A0}'
    || c == '\U{1680}'
    || ('\U{2000}' <= c <= '\U{200A}')
    || c == '\U{2028}'
    || c == '\U{2029}'
    || c == '\U{202F}'
    || c == '\U{205F}'
    || c == '\U{3000}'
  }

  predicate AllSpace(s: string) {
    forall i :: 0 <= i < |s| ==> IsSpace(s[i])
  }

  /** The number of whitespace code points at the front of `s`. */
  function LeadingSpaces(s: string): (n: nat)
    ensures n <= |s|
    ensures forall i :: 0 <= i < n ==> IsSpace(s[i])
    ensures n < |s| ==> !IsSpace(s[n])
  {
    if s == [] || !IsSpace(s[0]) then 0 else 1 + LeadingSpaces(s[1..])
  }

  /** The number of whitespace code points at the back of `s`. */
  function TrailingSpaces(s: string): (n: nat)
    ensures n <= |s|
    ensures forall i :: |s| - n <= i < |s| ==> IsSpace(s[i])
    ensures n < |s| ==> !IsSpace(s[|s| - 1 - n])
  {
    if s == [] || !IsSpace(s[|s| - 1]) then 0 else 1 + TrailingSpaces(s[..|s| - 1])
  }

  /**
   * Python's `str.strip()`: `s` without its leading and trailing whitespace.
   * The result is the slice of `s` that starts right after the leading
   * whitespace; it is empty exactly when `s` is all whitespace, and otherwise
   * neither begins nor ends with whitespace.
   */
  function Strip(s: string): (r: string)
    ensures LeadingSpaces(s) + |r| <= |s|
    ensures r == s[LeadingSpaces(s)..LeadingSpaces(s) + |r|]
    ensures r == [] <==> AllSpace(s)
    ensures r != [] ==> !IsSpace(r[0]) && !IsSpace(r[|r| - 1])
    ensures AllSpace(s[LeadingSpaces(s) + |r|..])
  {
    var a := LeadingSpaces(s);
    var rest := s[a..];
    var b := TrailingSpaces(rest);
    var r := rest[..|rest| - b];
    StripShape(s, a, rest, b);
    StripTail(s, a, rest, b);
    assert a + |r| == a + |rest| - b;
    r
  }

  lemma StripShape(s: string, a: nat, rest: string, b: nat)
    requires a == LeadingSpaces(s) && rest == s[a..] && b == TrailingSpaces(rest)
    ensures rest[..|rest| - b] == s[a..a + |rest| - b]
    ensures rest[..|rest| - b] == [] <==> AllSpace(s)
    ensures rest[..|rest| - b] != [] ==> !IsSpace(rest[0]) && !IsSpace(rest[|rest| - 1 - b])
  {
    if AllSpace(s) {
      AllSpaceLeading(s);
    } else {
      SomeNonSpaceKept(s, a, rest, b);
    }
  }

  lemma StripTail(s: string, a: nat, rest: string, b: nat)
    requires a <= |s| && rest == s[a..] && b == TrailingSpaces(rest)
    ensures AllSpace(s[a + |rest| - b..])
  {
    var t := s[a + |rest| - b..];
    forall i | 0 <= i < |t| ensures IsSpace(t[i]) {
      assert t[i] == rest[|rest| - b + i];
    }
  }

  lemma AllSpaceLeading(s: string)
    requires AllSpace(s)
    ensures LeadingSpaces(s) == |s|
  {
  }

  lemma SomeNonSpaceKept(s: string, a: nat, rest: string, b: nat)
    requires a == LeadingSpaces(s) && rest == s[a..] && b == TrailingSpaces(rest)
    requires !AllSpace(s)
    ensures b < |rest|
  {
    var i :| 0 <= i < |s| && !IsSpace(s[i]);
    assert a <= i;
    assert !IsSpace(rest[i - a]);
  }

  /** Stripping twice is stripping once. */
  lemma StripIdempotent(s: string)
    ensures Strip(Strip(s)) == Strip(s)
  {
    var r := Strip(s);
    if r != [] {
      assert LeadingSpaces(r) == 0;
      assert TrailingSpaces(r) == 0;
    }
  }

  /** Python's `s.replace("\n", " ")`. */
  function ReplaceNewlines(s: string): (r: string)
    ensures |r| == |s|
    ensures forall i :: 0 <= i < |s| ==> r[i] == (if s[i] == '\n' then ' ' else s[i])
    ensures '\n' !in r
  {
    if s == [] then [] else [if s[0] == '\n' then ' ' else s[0]] + ReplaceNewlines(s[1..])
  }

  /** True when `sep` occurs in `s` starting at index `i`. */
  predicate OccursAt(s: string, sep: string, i: nat) {
    i + |sep| <= |s| && s[i..i + |sep|] == sep
  }

  /** True when `sep` occurs anywhere in `s`. */
  predicate Contains(s: string, sep: string) {
    exists i: nat | i <= |s| :: OccursAt(s, sep, i)
  }

  /**
   * Python's `sep.join(parts)`: the parts with one `sep` between each two
   * neighbours. It starts with the first part, and joining one part gives
   * that part.
   */
  function Join(parts: seq<string>, sep: string): (r: string)
    ensures parts != [] ==> |parts[0]| <= |r| && r[..|parts[0]|] == parts[0]
    ensures |parts| == 1 ==> r == parts[0]
    ensures parts == [] ==> r == []
  {
    if parts == [] then []
    else if |parts| == 1 then parts[0]
    else parts[0] + sep + Join(parts[1..], sep)
  }

  /**
   * Python's `s.split(sep)` for a non-empty `sep`: scanning left to right,
   * every occurrence of `sep` that does not overlap an earlier one ends a
   * part. There is always at least one part, and joining the parts back
   * with the same separator gives `s`.
   */
  function Split(s: string, sep: string): (parts: seq<string>)
    requires sep != []
    ensures |parts| >= 1
    ensures Join(parts, sep) == s
    decreases |s|
  {
    if |s| < |sep| then [s]
    else if s[..|sep|] == sep then
      var rest := Split(s[|sep|..], sep);
      assert ([[]] + rest)[1..] == rest;
      assert s == sep + s[|sep|..];
      [[]] + rest
    else
      var rest := Split(s[1..], sep);
      JoinGrowFirst([s[0]], rest, sep);
      assert s == [s[0]] + s[1..];
      [[s[0]] + rest[0]] + rest[1..]
  }

  lemma {:induction false} JoinGrowFirst(c: string, parts: seq<string>, sep: string)
    requires |parts| >= 1
    ensures Join([c + parts[0]] + parts[1..], sep) == c + Join(parts, sep)
  {
    var q := [c + parts[0]] + parts[1..];
    if |parts| > 1 {
      assert q[1..] == parts[1..];
    }
  }

  /** No part of a split contains the separator. */
  lemma {:induction false} SplitPartsFree(s: string, sep: string)
    requires sep != []
    ensures forall k :: 0 <= k < |Split(s, sep)| ==> !Contains(Split(s, sep)[k], sep)
    decreases |s|
  {
    var parts := Split(s, sep);
    if |s| < |sep| {
      assert !Contains(s, sep);
    } else if s[..|sep|] == sep {
      SplitPartsFree(s[|sep|..], sep);
      forall k | 0 <= k < |parts| ensures !Contains(parts[k], sep) {
        if k > 0 { assert parts[k] == Split(s[|sep|..], sep)[k - 1]; }
      }
    } else {
      var rest := Split(s[1..], sep);
      SplitPartsFree(s[1..], sep);
      var first := [s[0]] + rest[0];
      assert rest[0] == s[1..][..|rest[0]|];
      assert first == s[..|first|];
      forall i: nat | OccursAt(first, sep, i) ensures false {
        if i > 0 {
          assert OccursAt(rest[0], sep, i - 1) by {
            assert first[i..i + |sep|] == rest[0][i - 1..i - 1 + |sep|];
          }
        }
      }
      forall k | 0 <= k < |parts| ensures !Contains(parts[k], sep) {
        if k > 0 { assert parts[k] == rest[k]; }
      }
    }
  }

  /** Sum of the lengths of the parts, separators not counted. */
  function TotalLength(parts: seq<string>): nat {
    if parts == [] then 0 else |parts[0]| + TotalLength(parts[1..])
  }

  lemma {:induction false} TotalLengthAppend(parts: seq<string>, p: string)
    ensures TotalLength(parts + [p]) == TotalLength(parts) + |p|
  {
    if parts != [] {
      assert (parts + [p])[1..] == parts[1..] + [p];
      TotalLengthAppend(parts[1..], p);
    }
  }

  /** A join is as long as its parts plus one separator between each two. */
  lemma {:induction false} JoinLength(parts: seq<string>, sep: string)
    requires |parts| >= 1
    ensures |Join(parts, sep)| == TotalLength(parts) + (|parts| - 1) * |sep|
  {
    if |parts| > 1 {
      JoinLength(parts[1..], sep);
    }
  }

  /** A string that does not contain the separator splits into itself alone. */
  lemma SplitWithoutSeparator(s: string, sep: string)
    requires sep != []
    requires !Contains(s, sep)
    ensures Split(s, sep) == [s]
  {
    var parts := Split(s, sep);
    if |parts| > 1 {
      assert Join(parts, sep) == parts[0] + sep + Join(parts[1..], sep);
      assert OccursAt(s, sep, |parts[0]|);
    }
  }

  /** Unfolding `Split` where the separator starts the string. */
  lemma SplitHere(s: string, sep: string)
    requires sep != [] && |s| >= |sep| && s[..|sep|] == sep
    ensures Split(s, sep) == [[]] + Split(s[|sep|..], sep)
  {
  }

  /** Unfolding `Split` where the string starts with a code point that is kept. */
  lemma SplitPast(s: string, sep: string)
    requires sep != [] && |s| >= |sep| && s[0] != sep[0]
    ensures Split(s, sep) == [[s[0]] + Split(s[1..], sep)[0]] + Split(s[1..], sep)[1..]
  {
    assert s[..|sep|][0] == s[0];
  }

  /** A string that neither begins nor ends with whitespace is its own strip. */
  lemma StripUnchanged(s: string)
    requires s != [] && !IsSpace(s[0]) && !IsSpace(s[|s| - 1])
    ensures Strip(s) == s
  {
    assert LeadingSpaces(s) == 0;
    assert TrailingSpaces(s) == 0;
  }
}
