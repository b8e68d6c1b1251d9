/** The string primitives of Python that the parser relies on: character classes,
    `str.strip()`, `str.split(sep)`, `sep.join(parts)`, `in` and `str.startswith`. */
module Text {

  /** Whitespace as Python's `str.isspace()` defines it; the `\s` class of `re` for str
      patterns is the same set. */
  predicate IsSpace(c: char) {
    || c == ' '
    || ('\t' <= c <= '\r')
    || ('\U{1c}' <= c <= '\U{1f}')
    || c == '\U{85}' || c == '\U{a0}' || c == '\U{1680}'
    || ('\U{2000}' <= c <= '\U{200a}')
    || c == '\U{2028}' || c == '\U{2029}' || c == '\U{202f}' || c == '\U{205f}' || c == '\U{3000}'
  }

  /** `\d`, restricted to ASCII digits. */
  predicate IsDigit(c: char) {
    '0' <= c <= '9'
  }

  /** `[A-Z]` */
  predicate IsUpper(c: char) {
    'A' <= c <= 'Z'
  }

  /** `[a-z]` */
  predicate IsLower(c: char) {
    'a' <= c <= 'z'
  }

  predicate SpacesBetween(s: string, i: nat, j: nat)
    requires i <= j <= |s|
  {
    forall k :: i <= k < j ==> IsSpace(s[k])
  }

  predicate IsBlank(s: string) {
    SpacesBetween(s, 0, |s|)
  }

  /** No whitespace at either end: what `str.strip()` returns. */
  predicate IsStripped(s: string) {
    |s| == 0 || (!IsSpace(s[0]) && !IsSpace(s[|s| - 1]))
  }

  /** The first index at or after i that does not hold whitespace (|s| if none). */
  function SkipSpaces(s: string, i: nat): (j: nat)
    requires i <= |s|
    ensures i <= j <= |s|
    ensures SpacesBetween(s, i, j)
    ensures j == |s| || !IsSpace(s[j])
    decreases |s| - i
  {
    if i < |s| && IsSpace(s[i]) then SkipSpaces(s, i + 1) else i
  }

  /** SkipSpaces is determined by the two properties it ensures. */
  lemma SkipSpacesUnique(s: string, i: nat, j: nat)
    requires i <= j <= |s|
    requires SpacesBetween(s, i, j)
    requires j == |s| || !IsSpace(s[j])
    ensures SkipSpaces(s, i) == j
  {
    var q := SkipSpaces(s, i);
  }

  /** Scanning back from j, no lower than lo: one past the last non-whitespace character. */
  function TrimEnd(s: string, lo: nat, j: nat): (e: nat)
    requires lo <= j <= |s|
    ensures lo <= e <= j
    ensures SpacesBetween(s, e, j)
    ensures e == lo || !IsSpace(s[e - 1])
    decreases j
  {
    if j > lo && IsSpace(s[j - 1]) then TrimEnd(s, lo, j - 1) else j
  }

  function StripStart(s: string): nat
    ensures StripStart(s) <= |s|
  {
    SkipSpaces(s, 0)
  }

  function StripStop(s: string): nat
    ensures StripStart(s) <= StripStop(s) <= |s|
  {
    TrimEnd(s, StripStart(s), |s|)
  }

  /** Python's `s.strip()`. */
  function Strip(s: string): (r: string)
    ensures IsStripped(r)
    ensures |r| <= |s|
    ensures r == [] <==> IsBlank(s)
  {
    var a, b := StripStart(s), StripStop(s);
    assert a < b ==> !IsSpace(s[b - 1]);
    assert a == b ==> SpacesBetween(s, 0, a) && SpacesBetween(s, a, |s|);
    s[a..b]
  }

  /** Stripping removes whitespace from the ends and nothing else. */
  lemma StripBounds(s: string)
    ensures s == s[..StripStart(s)] + Strip(s) + s[StripStop(s)..]
    ensures IsBlank(s[..StripStart(s)]) && IsBlank(s[StripStop(s)..])
  {
    var a, b := StripStart(s), StripStop(s);
    assert s == s[..a] + s[a..b] + s[b..];
    assert SpacesBetween(s, 0, a) && SpacesBetween(s, b, |s|);
    forall k | 0 <= k < |s[b..]| ensures IsSpace(s[b..][k]) {
      assert s[b..][k] == s[b + k];
    }
  }

  /** A stripped string is its own strip: `strip` is idempotent. */
  lemma StripOfStripped(s: string)
    requires IsStripped(s)
    ensures Strip(s) == s
  {
    if |s| > 0 {
      SkipSpacesUnique(s, 0, 0);
      assert StripStart(s) == 0;
      assert TrimEnd(s, 0, |s|) == |s|;
    }
  }

  lemma StripIdempotent(s: string)
    ensures Strip(Strip(s)) == Strip(s)
  {
    StripOfStripped(Strip(s));
  }

  /** Python's `sep.join(parts)`. */
  function Join(parts: seq<string>, sep: string): (r: string)
    ensures |parts| == 1 ==> r == parts[0]
    decreases |parts|
  {
    if |parts| == 0 then ""
    else if |parts| == 1 then parts[0]
    else parts[0] + sep + Join(parts[1..], sep)
  }

  /** A joined string starts with its first part. */
  lemma JoinStartsWithFirst(parts: seq<string>, sep: string)
    requires |parts| > 0
    ensures |parts[0]| <= |Join(parts, sep)|
    ensures Join(parts, sep)[..|parts[0]|] == parts[0]
  {
  }

  /** The first index at or after i holding c (|s| if none). */
  function IndexOf(s: string, c: char, i: nat): (k: nat)
    requires i <= |s|
    ensures i <= k <= |s|
    ensures forall m :: i <= m < k ==> s[m] != c
    ensures k < |s| ==> s[k] == c
    decreases |s| - i
  {
    if i == |s| || s[i] == c then i else IndexOf(s, c, i + 1)
  }

  /** Python's `s.split(sep)` for a one-character separator. */
  function Split(s: string, sep: char): (parts: seq<string>)
    ensures |parts| >= 1
    ensures Join(parts, [sep]) == s
    decreases |s|
  {
    var k := IndexOf(s, sep, 0);
    if k == |s| then
      [s]
    else
      var rest := Split(s[k + 1..], sep);
      assert ([s[..k]] + rest)[1..] == rest;
      assert s == s[..k] + [sep] + s[k + 1..];
      [s[..k]] + rest
  }

  /** No part of `s.split(sep)` holds sep. */
  lemma {:induction false} SplitPartsFree(s: string, sep: char)
    ensures forall j :: 0 <= j < |Split(s, sep)| ==> sep !in Split(s, sep)[j]
    decreases |s|
  {
    var k := IndexOf(s, sep, 0);
    if k < |s| {
      SplitPartsFree(s[k + 1..], sep);
      var rest := Split(s[k + 1..], sep);
      var parts := [s[..k]] + rest;
      assert Split(s, sep) == parts;
      assert forall m :: 0 <= m < k ==> s[..k][m] != sep;
      assert forall j :: 0 <= j < |rest| ==> sep !in rest[j];
      assert sep !in parts[0];
      assert forall j :: 1 <= j < |parts| ==> parts[j] == rest[j - 1];
      assert forall j :: 0 <= j < |parts| ==> sep !in parts[j];
    } else {
      assert Split(s, sep) == [s];
    }
  }

  /** Splitting undoes joining: parts free of the separator come back unchanged, so
      Split and Join are inverse bijections. */
  lemma {:induction false} SplitJoin(parts: seq<string>, sep: char)
    requires |parts| >= 1
    requires forall k :: 0 <= k < |parts| ==> sep !in parts[k]
    ensures Split(Join(parts, [sep]), sep) == parts
    decreases |parts|
  {
    var s := Join(parts, [sep]);
    if |parts| == 1 {
      assert sep !in s;
      assert IndexOf(s, sep, 0) == |s|;
    } else {
      var a, rest := parts[0], Join(parts[1..], [sep]);
      assert s == a + [sep] + rest;
      assert s[|a|] == sep;
      assert forall m :: 0 <= m < |a| ==> s[m] == a[m];
      var k := IndexOf(s, sep, 0);
      assert k == |a|;
      assert s[..k] == a;
      assert s[k + 1..] == rest;
      SplitJoin(parts[1..], sep);
    }
  }

  /** Joining one more part appends the separator and that part. */
  lemma {:induction false} JoinSnoc(parts: seq<string>, x: string, sep: string)
    requires |parts| >= 1
    ensures Join(parts + [x], sep) == Join(parts, sep) + sep + x
    decreases |parts|
  {
    var all := parts + [x];
    assert all[0] == parts[0];
    if |parts| == 1 {
      assert all[1..] == [x];
    } else {
      assert all[1..] == parts[1..] + [x];
      JoinSnoc(parts[1..], x, sep);
    }
  }

  /** `s.split(sep)` has more than one part exactly when sep occurs in s. */
  lemma SplitCount(s: string, sep: char)
    ensures |Split(s, sep)| >= 2 <==> sep in s
  {
    var parts := Split(s, sep);
    if |parts| >= 2 {
      SplitAtLast(s, sep);
    } else {
      assert Join(parts, [sep]) == parts[0];
    }
  }

  /** With more than one part, the last part is what follows the last sep, and the other
      parts, rejoined, are what precedes it. */
  lemma SplitAtLast(s: string, sep: char)
    requires |Split(s, sep)| >= 2
    ensures SplitsAt(s, sep, Split(s, sep), |s| - |Split(s, sep)[|Split(s, sep)| - 1]| - 1)
  {
    var parts := Split(s, sep);
    SplitPartsFree(s, sep);
    var n := |parts|;
    var init, last := parts[..n - 1], parts[n - 1];
    assert parts == init + [last];
    JoinSnoc(init, last, [sep]);
    var head := Join(init, [sep]);
    assert s == head + [sep] + last;
    ConcatAround(head, sep, last);
    assert s[..|head|] == head && s[|head|] == sep && s[|head| + 1..] == last;
    assert sep !in last;
  }

  /** s holds sep at c, none after it, and the parts but the last rejoin to what precedes c
      while the last part is what follows it. */
  predicate SplitsAt(s: string, sep: char, parts: seq<string>, c: int)
    requires |parts| >= 1
  {
    0 <= c < |s| && s[c] == sep && sep !in s[c + 1..] &&
    Join(parts[..|parts| - 1], [sep]) == s[..c] && parts[|parts| - 1] == s[c + 1..]
  }

  /** The pieces of `head + [c] + tail`, by index. */
  lemma ConcatAround(head: string, c: char, tail: string)
    ensures |head + [c] + tail| - |tail| - 1 == |head|
    ensures (head + [c] + tail)[..|head|] == head && (head + [c] + tail)[|head|] == c
    ensures (head + [c] + tail)[|head| + 1..] == tail
  {
  }

  /** The index of the last occurrence of c in s. */
  function LastIndexOf(s: string, c: char): (k: nat)
    requires c in s
    ensures k < |s| && s[k] == c
    ensures forall m :: k < m < |s| ==> s[m] != c
    decreases |s|
  {
    var n := |s| - 1;
    if s[n] == c then n
    else
      assert s == s[..n] + [s[n]];
      LastIndexOf(s[..n], c)
  }

  /** The last part of `s.split(sep)` follows the last sep, and the other parts, rejoined,
      precede it. */
  lemma SplitAtLastIndex(s: string, sep: char)
    requires sep in s
    ensures |Split(s, sep)| >= 2 && SplitsAt(s, sep, Split(s, sep), LastIndexOf(s, sep))
  {
    SplitCount(s, sep);
    SplitAtLast(s, sep);
    var parts, k := Split(s, sep), LastIndexOf(s, sep);
    var c := |s| - |parts[|parts| - 1]| - 1;
    assert c == k;
  }

  /** `sep.join(s.split(sep)[:-1])`: everything before the last sep, or "" without one. */
  function SplitInit(s: string, sep: char): (r: string)
    ensures sep in s ==> r == s[..LastIndexOf(s, sep)]
    ensures sep !in s ==> r == ""
  {
    var parts := Split(s, sep);
    if sep in s then
      SplitAtLastIndex(s, sep);
      Join(parts[..|parts| - 1], [sep])
    else
      SplitCount(s, sep);
      assert parts[..|parts| - 1] == [];
      Join(parts[..|parts| - 1], [sep])
  }

  /** `s.split(sep)[-1]`: everything after the last sep, or all of s without one. */
  function SplitLast(s: string, sep: char): (r: string)
    ensures sep in s ==> r == s[LastIndexOf(s, sep) + 1..]
    ensures sep !in s ==> r == s
  {
    var parts := Split(s, sep);
    if sep in s then
      SplitAtLastIndex(s, sep);
      parts[|parts| - 1]
    else
      SplitCount(s, sep);
      assert Join(parts, [sep]) == parts[0];
      parts[|parts| - 1]
  }

  /** Python's `sub in s`. */
  predicate Contains(s: string, sub: string) {
    exists i :: 0 <= i <= |s| && OccursAt(s, sub, i)
  }

  predicate OccursAt(s: string, sub: string, i: nat) {
    i + |sub| <= |s| && s[i..i + |sub|] == sub
  }

  /** Python's `s.startswith(p)`. */
  predicate StartsWith(s: string, p: string) {
    |p| <= |s| && s[..|p|] == p
  }
}
