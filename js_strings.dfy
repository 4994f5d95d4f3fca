/**
 * The few JavaScript string built-ins the portfolio relies on: the white-space
 * class shared by `String.prototype.trim` and the regular-expression escape
 * `\s`, `trim` itself, and `split`/`join` on a non-empty separator string.
 * Strings are sequences of characters; the UTF-16 code-unit view of JavaScript
 * only matters for characters outside the Basic Multilingual Plane, which none
 * of the rules below treat specially.
 */
module JsStrings {
  import opened Wrappers

  /** WhiteSpace (section 12.2 of ECMA-262, 2023 edition: TAB, VT, FF, ZWNBSP and
      every code point of the Unicode category Zs) together with LineTerminator
      (section 12.3: LF, CR, LS, PS). */
  predicate IsWhiteSpace(c: char) {
    || c == '\t' || c == '\n' || c == '\U{000B}' || c == '\U{000C}' || c == '\r'
    || c == ' ' || c == '\U{00A0}' || c == '\U{1680}'
    || ('\U{2000}' <= c <= '\U{200A}')
    || c == '\U{2028}' || c == '\U{2029}' || c == '\U{202F}' || c == '\U{205F}'
    || c == '\U{3000}' || c == '\U{FEFF}'
  }

  predicate AllWhiteSpace(s: string) {
    forall i :: 0 <= i < |s| ==> IsWhiteSpace(s[i])
  }

  /** `s.trimStart()`: drops the leading white space. */
  function TrimStart(s: string): string {
    if s != [] && IsWhiteSpace(s[0]) then TrimStart(s[1..]) else s
  }

  /** `s.trimEnd()`: drops the trailing white space. */
  function TrimEnd(s: string): string {
    if s != [] && IsWhiteSpace(s[|s| - 1]) then TrimEnd(s[..|s| - 1]) else s
  }

  /** `s.trim()`. */
  function Trim(s: string): string {
    TrimEnd(TrimStart(s))
  }

  /** The result of TrimStart is the suffix of `s` that starts at its first
      non-white-space character. */
  lemma {:induction false} TrimStartSpec(s: string)
    ensures |TrimStart(s)| <= |s| && TrimStart(s) == s[|s| - |TrimStart(s)|..]
    ensures AllWhiteSpace(s[..|s| - |TrimStart(s)|])
    ensures TrimStart(s) != [] ==> !IsWhiteSpace(TrimStart(s)[0])
    decreases |s|
  {
    if s != [] && IsWhiteSpace(s[0]) {
      TrimStartSpec(s[1..]);
      var n := |s| - |TrimStart(s)|;
      assert s[..n] == [s[0]] + s[1..][..n - 1];
    }
  }

  /** The result of TrimEnd is the prefix of `s` that ends at its last
      non-white-space character. */
  lemma {:induction false} TrimEndSpec(s: string)
    ensures |TrimEnd(s)| <= |s| && TrimEnd(s) == s[..|TrimEnd(s)|]
    ensures AllWhiteSpace(s[|TrimEnd(s)|..])
    ensures TrimEnd(s) != [] ==> !IsWhiteSpace(TrimEnd(s)[|TrimEnd(s)| - 1])
    decreases |s|
  {
    if s != [] && IsWhiteSpace(s[|s| - 1]) {
      var init := s[..|s| - 1];
      TrimEndSpec(init);
      var n := |TrimEnd(s)|;
      assert s[n..] == init[n..] + [s[|s| - 1]];
      assert init[..n] == s[..n];
    }
  }

  /** `s.trim()` is a piece of `s` that neither starts nor ends with white
      space, and is empty exactly when `s` is all white space. */
  lemma TrimSpec(s: string)
    ensures |Trim(s)| <= |s|
    ensures Trim(s) != [] ==> !IsWhiteSpace(Trim(s)[0]) && !IsWhiteSpace(Trim(s)[|Trim(s)| - 1])
    ensures Trim(s) == [] <==> AllWhiteSpace(s)
  {
    var t := TrimStart(s);
    TrimStartSpec(s);
    TrimEndSpec(t);
    var r := Trim(s);
    if r != [] {
      assert r[0] == t[0];
    }
    if r == [] {
      assert s[..|s|] == s;
    }
  }

  /** `!s.trim()`: the string is falsy once trimmed. */
  predicate IsBlank(s: string) {
    Trim(s) == []
  }

  /** `sep` occurs in `s` starting at index `k`. */
  predicate OccursAt(s: string, sep: string, k: int) {
    0 <= k && k + |sep| <= |s| && s[k..k + |sep|] == sep
  }

  predicate Contains(s: string, sep: string) {
    exists k :: 0 <= k <= |s| - |sep| && OccursAt(s, sep, k)
  }

  /** `s.indexOf(sep, from)`: the first occurrence at or after `from`. */
  function IndexOfFrom(s: string, sep: string, from: nat): Option<nat>
    decreases |s| - from
  {
    if from + |sep| > |s| then None
    else if s[from..from + |sep|] == sep then Some(from)
    else IndexOfFrom(s, sep, from + 1)
  }

  /** `s.indexOf(sep)`, with `None` for JavaScript's -1. */
  function IndexOf(s: string, sep: string): Option<nat> {
    IndexOfFrom(s, sep, 0)
  }

  /** IndexOfFrom finds an occurrence at or after `from`, and none lies
      between `from` and what it finds (or the end, when it finds nothing). */
  lemma {:induction false} IndexOfFromSpec(s: string, sep: string, from: nat)
    ensures IndexOfFrom(s, sep, from).Some? ==>
              from <= IndexOfFrom(s, sep, from).value && OccursAt(s, sep, IndexOfFrom(s, sep, from).value)
    ensures forall k ::
              from <= k && (IndexOfFrom(s, sep, from).None? || k < IndexOfFrom(s, sep, from).value) ==>
              !OccursAt(s, sep, k)
    decreases |s| - from
  {
    if from + |sep| <= |s| && s[from..from + |sep|] != sep {
      IndexOfFromSpec(s, sep, from + 1);
    }
  }

  /** `s.indexOf(sep)` is the first occurrence of `sep`, and finds nothing
      exactly when `s` does not contain `sep`. */
  lemma IndexOfSpec(s: string, sep: string)
    ensures IndexOf(s, sep).None? <==> !Contains(s, sep)
    ensures IndexOf(s, sep).Some? ==> OccursAt(s, sep, IndexOf(s, sep).value)
    ensures IndexOf(s, sep).Some? ==> forall k :: 0 <= k < IndexOf(s, sep).value ==> !OccursAt(s, sep, k)
  {
    IndexOfFromSpec(s, sep, 0);
  }

  /** `s.split(sep)` for a non-empty separator: the pieces between successive
      non-overlapping occurrences, scanning left to right; a string without the
      separator splits into itself alone. */
  function Split(s: string, sep: string): (r: seq<string>)
    requires sep != []
    ensures |r| >= 1
    ensures |r| == 1 <==> !Contains(s, sep)
    ensures forall i :: 0 <= i < |r| ==> !Contains(r[i], sep)
    decreases |s|
  {
    IndexOfSpec(s, sep);
    match IndexOf(s, sep)
    case None => [s]
    case Some(i) =>
      NoOccurrenceBefore(s, sep, i);
      [s[..i]] + Split(s[i + |sep|..], sep)
  }

  /** No occurrence of `sep` starts before `i` in `s`, so none lies in `s[..i]`. */
  lemma NoOccurrenceBefore(s: string, sep: string, i: nat)
    requires sep != [] && i <= |s|
    requires forall k :: 0 <= k < i ==> !OccursAt(s, sep, k)
    ensures !Contains(s[..i], sep)
  {
    if Contains(s[..i], sep) {
      var n := |sep|;
      var k :| 0 <= k <= i - n && OccursAt(s[..i], sep, k);
      assert s[..i][k..k + n] == s[k..k + n];
      assert OccursAt(s, sep, k);
      assert false;
    }
  }

  /** `parts.join(sep)`. */
  function Join(parts: seq<string>, sep: string): string {
    if |parts| == 0 then ""
    else if |parts| == 1 then parts[0]
    else parts[0] + sep + Join(parts[1..], sep)
  }

  /** Joining a piece in front of at least one more puts a separator between. */
  lemma JoinCons(first: string, rest: seq<string>, sep: string)
    requires |rest| >= 1
    ensures Join([first] + rest, sep) == first + sep + Join(rest, sep)
  {
  }

  /** What `indexOf` finds is the first occurrence. */
  lemma FoundOccurs(s: string, sep: string, i: nat)
    requires IndexOf(s, sep) == Some(i)
    ensures i + |sep| <= |s| && OccursAt(s, sep, i)
    ensures forall k :: 0 <= k < i ==> !OccursAt(s, sep, k)
  {
    IndexOfSpec(s, sep);
  }

  /** Where the first occurrence of the separator starts at `i`, the split is
      the piece before it followed by the split of what comes after it. */
  lemma SplitAtFirst(s: string, sep: string, i: nat)
    requires sep != [] && OccursAt(s, sep, i)
    requires forall k :: 0 <= k < i ==> !OccursAt(s, sep, k)
    ensures Split(s, sep) == [s[..i]] + Split(s[i + |sep|..], sep)
  {
    IndexOfSpec(s, sep);
    assert Contains(s, sep);
    var j := IndexOf(s, sep).value;
    assert !(j < i) && !(i < j);
  }

  /** Cutting a string at two points and gluing the three parts back. */
  lemma Reassemble(s: string, i: nat, j: nat)
    requires i <= j <= |s|
    ensures s[..i] + s[i..j] + s[j..] == s
  {
  }

  /** Joining the pieces of a split with the same separator gives back the
      original string. */
  lemma {:induction false} JoinSplit(s: string, sep: string)
    requires sep != []
    ensures Join(Split(s, sep), sep) == s
    decreases |s|
  {
    var found := IndexOf(s, sep);
    if found.Some? {
      var i, n := found.value, |sep|;
      FoundOccurs(s, sep, i);
      SplitAtFirst(s, sep, i);
      var rest := s[i + n..];
      var tail := Split(rest, sep);
      JoinCons(s[..i], tail, sep);
      JoinSplit(rest, sep);
      Reassemble(s, i, i + n);
    } else {
      assert Split(s, sep) == [s];
    }
  }
}
