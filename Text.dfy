/** String primitives used by both scripts: ASCII case mapping, prefix and
    suffix tests, first-occurrence search, JavaScript's `String.prototype.replace`
    with a string pattern, and the ordering used to sort file names. */
module Text {

  datatype Option<T> = None | Some(value: T)

  predicate IsAsciiLower(c: char) { 'a' <= c <= 'z' }

  predicate IsAsciiUpper(c: char) { 'A' <= c <= 'Z' }

  /** `toUpperCase` on one character, restricted to ASCII letters. */
  function UpperChar(c: char): (r: char)
    ensures !IsAsciiLower(r)
    ensures r != c ==> IsAsciiLower(c) && IsAsciiUpper(r)
    ensures IsAsciiLower(c) ==> r as int == c as int - 32
  {
    if IsAsciiLower(c) then (c as int - 32) as char else c
  }

  /** `toLowerCase` on one character, restricted to ASCII letters. */
  function LowerChar(c: char): (r: char)
    ensures !IsAsciiUpper(r)
    ensures r != c ==> IsAsciiUpper(c) && IsAsciiLower(r)
    ensures IsAsciiUpper(c) ==> r as int == c as int + 32
  {
    if IsAsciiUpper(c) then (c as int + 32) as char else c
  }

  /** `toLowerCase` on a string: character by character, length kept. */
  function Lower(s: string): (r: string)
    ensures |r| == |s|
    ensures forall i :: 0 <= i < |s| ==> r[i] == LowerChar(s[i])
  {
    seq(|s|, i requires 0 <= i < |s| => LowerChar(s[i]))
  }

  predicate StartsWith(s: string, prefix: string)
  {
    |prefix| <= |s| && s[..|prefix|] == prefix
  }

  predicate EndsWith(s: string, suffix: string)
  {
    |suffix| <= |s| && s[|s| - |suffix|..] == suffix
  }

  /** A non-empty string is its front followed by its last character. */
  lemma SplitLast(s: string)
    requires s != []
    ensures s == s[..|s| - 1] + [s[|s| - 1]]
  {
  }

  /** A character in neither part is not in their concatenation. */
  lemma ConcatAvoids(a: string, b: string, c: char)
    requires c !in a && c !in b
    ensures c !in a + b
  {
  }

  /** A suffix stays a suffix when the same character is appended to both. */
  lemma EndsWithSnoc(s: string, suffix: string, c: char)
    requires EndsWith(s, suffix)
    ensures EndsWith(s + [c], suffix + [c])
  {
    assert (s + [c])[|s + [c]| - |suffix + [c]|..] == s[|s| - |suffix|..] + [c];
  }

  /** `p` occurs in `t` starting at index `j`. */
  predicate OccursAt(t: string, p: string, j: nat)
  {
    j + |p| <= |t| && t[j..j + |p|] == p
  }

  /** The first occurrence of `p` in `t` at or after index `k`. */
  function IndexFrom(t: string, p: string, k: nat): (r: Option<nat>)
    ensures r.Some? ==> k <= r.value && OccursAt(t, p, r.value)
    ensures r.Some? ==> forall j: nat :: k <= j < r.value ==> !OccursAt(t, p, j)
    ensures r.None? ==> forall j: nat :: k <= j ==> !OccursAt(t, p, j)
    decreases |t| - k
  {
    if k + |p| > |t| then None
    else if OccursAt(t, p, k) then Some(k)
    else IndexFrom(t, p, k + 1)
  }

  /** `indexOf`: the first occurrence of `p` in `t`, if any. */
  function IndexOf(t: string, p: string): (r: Option<nat>)
    ensures r.Some? ==> OccursAt(t, p, r.value)
    ensures r.Some? ==> forall j: nat :: j < r.value ==> !OccursAt(t, p, j)
    ensures r.None? ==> forall j: nat :: !OccursAt(t, p, j)
  {
    IndexFrom(t, p, 0)
  }

  /** The replacement text that `replace` inserts for a match of length
      `matchLength` at `position` in `t`, with the `$` patterns that apply when
      the pattern is a string (there are no capture groups): `$$` gives `$`,
      `$&` the matched text, `$`` the text before the match, `$'` the text
      after it; any other `$` stands for itself. */
  function Substitution(replacement: string, t: string, position: nat, matchLength: nat): (r: string)
    requires position + matchLength <= |t|
    ensures '$' !in replacement ==> r == replacement
    decreases |replacement|
  {
    if replacement == [] then []
    else if replacement[0] == '$' && |replacement| >= 2 && replacement[1] == '$' then
      "$" + Substitution(replacement[2..], t, position, matchLength)
    else if replacement[0] == '$' && |replacement| >= 2 && replacement[1] == '&' then
      t[position..position + matchLength] + Substitution(replacement[2..], t, position, matchLength)
    else if replacement[0] == '$' && |replacement| >= 2 && replacement[1] == '`' then
      t[..position] + Substitution(replacement[2..], t, position, matchLength)
    else if replacement[0] == '$' && |replacement| >= 2 && replacement[1] == '\'' then
      t[position + matchLength..] + Substitution(replacement[2..], t, position, matchLength)
    else
      assert '$' !in replacement ==> '$' !in replacement[1..];
      [replacement[0]] + Substitution(replacement[1..], t, position, matchLength)
  }

  /** A character other than `$` is copied as it is. */
  lemma SubstitutionLiteralChar(replacement: string, t: string, position: nat, matchLength: nat)
    requires position + matchLength <= |t|
    requires replacement != [] && replacement[0] != '$'
    ensures Substitution(replacement, t, position, matchLength)
              == [replacement[0]] + Substitution(replacement[1..], t, position, matchLength)
  {
  }

  /** The first character of a `$`-free text in front of a replacement is
      copied, and the rest of the text stays in front. */
  lemma SubstitutionLiteralStep(a: string, b: string, t: string, position: nat, matchLength: nat)
    requires position + matchLength <= |t|
    requires a != [] && '$' !in a
    ensures '$' !in a[1..]
    ensures Substitution(a + b, t, position, matchLength)
              == [a[0]] + Substitution(a[1..] + b, t, position, matchLength)
  {
    assert a[0] in a;
    var ab := a + b;
    assert ab[0] == a[0] && ab[1..] == a[1..] + b;
    SubstitutionLiteralChar(ab, t, position, matchLength);
  }

  /** Putting the head of `a` back in front of the rest of `a` gives `a`. */
  lemma ConsConcat(a: string, tail: string)
    requires a != []
    ensures [a[0]] + (a[1..] + tail) == a + tail
  {
    assert a == [a[0]] + a[1..];
  }

  /** A replacement that begins with text free of `$` keeps that text verbatim. */
  lemma {:induction false} SubstitutionLiteralPrefix(a: string, b: string, t: string, position: nat, matchLength: nat)
    requires position + matchLength <= |t|
    requires '$' !in a
    ensures Substitution(a + b, t, position, matchLength) == a + Substitution(b, t, position, matchLength)
    decreases |a|
  {
    if a == [] {
      assert a + b == b;
    } else {
      var tail := Substitution(b, t, position, matchLength);
      SubstitutionLiteralStep(a, b, t, position, matchLength);
      SubstitutionLiteralPrefix(a[1..], b, t, position, matchLength);
      ConsConcat(a, tail);
    }
  }

  /** The empty string is a left unit of concatenation. */
  lemma EmptyConcat(s: string)
    ensures "" + s == s
  {
  }

  /** `t.replace(pattern, replacement)` with a string pattern: only the first
      occurrence is replaced; with no occurrence the text is returned as is. */
  function Replace(t: string, pattern: string, replacement: string): (r: string)
    ensures IndexOf(t, pattern).None? ==> r == t
    ensures IndexOf(t, pattern).Some? ==>
              var i := IndexOf(t, pattern).value;
              StartsWith(r, t[..i]) && EndsWith(r, t[i + |pattern|..]) &&
              ('$' !in replacement ==> r == t[..i] + replacement + t[i + |pattern|..])
  {
    match IndexOf(t, pattern)
    case None => t
    case Some(i) =>
      var r := t[..i] + Substitution(replacement, t, i, |pattern|) + t[i + |pattern|..];
      assert r[..i] == t[..i];
      assert r[|r| - |t[i + |pattern|..]|..] == t[i + |pattern|..];
      r
  }

  /** Text placed after a prefix starts, at the prefix's length, with its own
      opening part. */
  lemma StartsWithAfter(pre: string, head: string, mid: string, tail: string)
    ensures StartsWith((pre + (head + mid) + tail)[|pre|..], head)
  {
    assert (pre + (head + mid) + tail)[|pre|..] == head + (mid + tail);
  }

  /** Where the first occurrence was, the result of `Replace` begins with the
      opening part of the replacement when that part holds no `$`. */
  lemma ReplaceKeepsLiteralHead(t: string, pattern: string, replacement: string, head: string)
    requires StartsWith(replacement, head) && '$' !in head
    ensures IndexOf(t, pattern).Some? ==>
              StartsWith(Replace(t, pattern, replacement)[IndexOf(t, pattern).value..], head)
  {
    match IndexOf(t, pattern)
    case None =>
    case Some(i) =>
      var rest := replacement[|head|..];
      assert replacement == head + rest;
      SubstitutionLiteralPrefix(head, rest, t, i, |pattern|);
      StartsWithAfter(t[..i], head, Substitution(rest, t, i, |pattern|), t[i + |pattern|..]);
  }

  /** Lexicographic order on strings by character code, standing in for
      `localeCompare` (a <= b). */
  predicate LexLessEq(a: string, b: string)
    decreases |a|
  {
    |a| == 0 || (|b| > 0 && (a[0] < b[0] || (a[0] == b[0] && LexLessEq(a[1..], b[1..]))))
  }

  lemma {:induction false} LexReflexive(a: string)
    ensures LexLessEq(a, a)
    decreases |a|
  {
    if |a| > 0 {
      LexReflexive(a[1..]);
    }
  }

  lemma {:induction false} LexTotal(a: string, b: string)
    ensures LexLessEq(a, b) || LexLessEq(b, a)
    decreases |a|
  {
    if |a| > 0 && |b| > 0 && a[0] == b[0] {
      LexTotal(a[1..], b[1..]);
    }
  }

  lemma {:induction false} LexAntisymmetric(a: string, b: string)
    requires LexLessEq(a, b) && LexLessEq(b, a)
    ensures a == b
    decreases |a|
  {
    if |a| > 0 {
      LexAntisymmetric(a[1..], b[1..]);
      assert a == [a[0]] + a[1..] && b == [b[0]] + b[1..];
    }
  }

  lemma {:induction false} LexTransitive(a: string, b: string, c: string)
    requires LexLessEq(a, b) && LexLessEq(b, c)
    ensures LexLessEq(a, c)
    decreases |a|
  {
    if |a| > 0 && a[0] == b[0] && b[0] == c[0] {
      LexTransitive(a[1..], b[1..], c[1..]);
    }
  }
}
