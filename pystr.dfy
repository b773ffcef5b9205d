/** The Python `str` operations the scraper relies on, with Python's semantics:
    `in`, `find`, `split`, `join`, `replace`, `strip` and `int()` in base 10. */
module PyStr {
  import opened Wrappers

  // ---------------------------------------------------------------------------
  // Whitespace and strip()
  // ---------------------------------------------------------------------------

  /** The characters Python's `str.isspace()` accepts; `str.strip()` skips exactly these, and
      `int()` all of them but the separators U+001C to U+001F (`IsInfoSeparator`). */
  predicate IsSpace(c: char) {
    c == ' ' || ('\t' <= c <= '\r') || ('\U{1c}' <= c <= '\U{1f}')
    || c == '\U{85}' || c == '\U{a0}' || c == '\U{1680}'
    || ('\U{2000}' <= c <= '\U{200a}') || c == '\U{2028}' || c == '\U{2029}'
    || c == '\U{202f}' || c == '\U{205f}' || c == '\U{3000}'
  }

  predicate AllSpace(s: string) {
    forall k :: 0 <= k < |s| ==> IsSpace(s[k])
  }

  /** No whitespace at either end: what `strip()` leaves. */
  predicate IsStripped(s: string) {
    s == [] || (!IsSpace(s[0]) && !IsSpace(s[|s| - 1]))
  }

  /** `s.lstrip()`: no longer than `s` and not starting with whitespace (`TrimStartCut` says
      that it is the suffix left after a run of whitespace). */
  function TrimStart(s: string): (r: string)
    ensures |r| <= |s|
    ensures r == [] || !IsSpace(r[0])
  {
    if s != [] && IsSpace(s[0]) then TrimStart(s[1..]) else s
  }

  /** `s.rstrip()`: a prefix of `s` that does not end with whitespace (`TrimEndCut` says that
      everything cut off is whitespace). */
  function TrimEnd(s: string): (r: string)
    ensures |r| <= |s| && r == s[..|r|]
    ensures r == [] || !IsSpace(r[|r| - 1])
  {
    if s != [] && IsSpace(s[|s| - 1]) then TrimEnd(s[..|s| - 1]) else s
  }

  lemma {:induction false} TrimStartCut(s: string)
    ensures TrimStart(s) == s[|s| - |TrimStart(s)|..]
    ensures AllSpace(s[..|s| - |TrimStart(s)|])
    decreases |s|
  {
    if s != [] && IsSpace(s[0]) {
      var n := |s| - |TrimStart(s)|;
      TrimStartCut(s[1..]);
      assert s[..n] == [s[0]] + s[1..][..n - 1];
      assert s[1..][n - 1..] == s[n..];
    }
  }

  lemma {:induction false} TrimEndCut(s: string)
    ensures AllSpace(s[|TrimEnd(s)|..])
    decreases |s|
  {
    if s != [] && IsSpace(s[|s| - 1]) {
      var n := |TrimEnd(s)|;
      TrimEndCut(s[..|s| - 1]);
      assert s[n..] == s[..|s| - 1][n..] + [s[|s| - 1]];
    }
  }

  /** `s.strip()` */
  function Strip(s: string): (r: string)
    ensures IsStripped(r)
  {
    TrimEnd(TrimStart(s))
  }

  /** What `strip()` returns is a contiguous piece of its argument with only whitespace around it. */
  lemma {:induction false} StripSlice(s: string) returns (i: nat)
    ensures i + |Strip(s)| <= |s| && Strip(s) == s[i..i + |Strip(s)|]
    ensures AllSpace(s[..i]) && AllSpace(s[i + |Strip(s)|..])
  {
    var t := TrimStart(s);
    var r := TrimEnd(t);
    i := |s| - |t|;
    TrimStartCut(s);
    TrimEndCut(t);
    PrefixOfSuffix(s, i, t, r);
    assert Strip(s) == r;
  }

  lemma {:induction false} PrefixOfSuffix(s: string, i: nat, t: string, r: string)
    requires i <= |s| && t == s[i..] && |r| <= |t| && r == t[..|r|]
    ensures r == s[i..i + |r|] && t[|r|..] == s[i + |r|..]
  {
  }

  lemma {:induction false} TrimStartOver(a: string, t: string)
    requires AllSpace(a)
    ensures TrimStart(a + t) == TrimStart(t)
    decreases |a|
  {
    if a != [] {
      assert (a + t)[0] == a[0] && (a + t)[1..] == a[1..] + t;
      TrimStartOver(a[1..], t);
    } else {
      assert a + t == t;
    }
  }

  lemma {:induction false} TrimEndOver(t: string, b: string)
    requires AllSpace(b)
    ensures TrimEnd(t + b) == TrimEnd(t)
    decreases |b|
  {
    if b != [] {
      var b' := b[..|b| - 1];
      assert (t + b)[|t + b| - 1] == b[|b| - 1];
      assert (t + b)[..|t + b| - 1] == t + b';
      TrimEndOver(t, b');
    } else {
      assert t + b == t;
    }
  }

  /** `strip()` leaves an already stripped string alone. */
  lemma {:induction false} StripStripped(s: string)
    requires IsStripped(s)
    ensures Strip(s) == s
  {
    assert TrimStart(s) == s;
  }

  /** `strip()` is determined by its result: padding a stripped string with whitespace on
      either side and stripping it gives the string back. */
  lemma {:induction false} StripPadded(a: string, s: string, b: string)
    requires AllSpace(a) && AllSpace(b) && IsStripped(s)
    ensures Strip(a + s + b) == s
  {
    assert a + s + b == a + (s + b);
    TrimStartOver(a, s + b);
    if s == [] {
      assert TrimStart(s + b) == [] by {
        assert s + b == b + [];
        TrimStartOver(b, []);
      }
    } else {
      assert TrimStart(s + b) == s + b by {
        assert (s + b)[0] == s[0];
      }
      assert TrimEnd(s + b) == s by {
        TrimEndOver(s, b);
      }
    }
  }

  // ---------------------------------------------------------------------------
  // Occurrences, `in` and find()
  // ---------------------------------------------------------------------------

  /** `pat` occurs in `s` starting at index `i`. */
  predicate OccursAt(s: string, pat: string, i: nat) {
    i + |pat| <= |s| && s[i..i + |pat|] == pat
  }

  /** Python's `pat in s` */
  predicate Contains(s: string, pat: string) {
    exists i: nat | i <= |s| :: OccursAt(s, pat, i)
  }

  lemma {:induction false} OccursShift(s: string, pat: string, i: nat)
    requires s != []
    ensures OccursAt(s, pat, i + 1) <==> OccursAt(s[1..], pat, i)
  {
    if i + 1 + |pat| <= |s| {
      assert s[1..][i..i + |pat|] == s[i + 1..i + 1 + |pat|];
    }
  }

  /** `s.find(pat)`, with `None` for Python's -1: an index at which `pat` occurs, the first
      one (`FindFirst`). */
  function Find(s: string, pat: string): (r: Option<nat>)
    ensures r.Some? ==> r.value + |pat| <= |s| && OccursAt(s, pat, r.value)
    decreases |s|
  {
    if |s| < |pat| then None
    else if s[..|pat|] == pat then Some(0)
    else
      match Find(s[1..], pat)
      case None => None
      case Some(i) =>
        assert OccursAt(s, pat, i + 1) by {
          OccursShift(s, pat, i);
        }
        Some(i + 1)
  }

  /** No occurrence of `pat` comes before the index `find` reports, and there is none at all
      when it reports none. */
  lemma {:induction false} FindFirst(s: string, pat: string, j: nat)
    requires Find(s, pat).None? || j < Find(s, pat).value
    ensures !OccursAt(s, pat, j)
    decreases |s|
  {
    if |s| >= |pat| && s[..|pat|] != pat && j > 0 {
      OccursShift(s, pat, j - 1);
      FindFirst(s[1..], pat, j - 1);
    }
  }

  /** `find` reports nothing exactly when `pat in s` is false. */
  lemma {:induction false} FindNone(s: string, pat: string)
    ensures Find(s, pat).None? <==> !Contains(s, pat)
  {
    if Find(s, pat).None? {
      forall j: nat | j <= |s| ensures !OccursAt(s, pat, j) {
        FindFirst(s, pat, j);
      }
    }
  }

  /** The first occurrence is the index `find` reports. */
  lemma {:induction false} FindIs(s: string, pat: string, i: nat)
    requires OccursAt(s, pat, i) && forall j: nat :: j < i ==> !OccursAt(s, pat, j)
    ensures Find(s, pat) == Some(i)
  {
    if Find(s, pat) != Some(i) {
      if Find(s, pat).Some? && Find(s, pat).value < i {
        assert false;
      }
      FindFirst(s, pat, i);
      assert false;
    }
  }

  /** An occurrence inside a slice is an occurrence in the whole string. */
  lemma {:induction false} OccursInSlice(s: string, lo: nat, hi: nat, pat: string, j: nat)
    requires lo <= hi <= |s| && OccursAt(s[lo..hi], pat, j)
    ensures OccursAt(s, pat, lo + j)
  {
    var a, b := s[lo..hi][j..j + |pat|], s[lo + j..lo + j + |pat|];
    forall k | 0 <= k < |a| ensures a[k] == b[k] {
      assert a[k] == s[lo..hi][j + k] == s[lo + j + k];
    }
  }

  /** A string that does not contain `pat` has no slice that does. */
  lemma {:induction false} SliceAvoids(s: string, lo: nat, hi: nat, pat: string)
    requires lo <= hi <= |s| && !Contains(s, pat)
    ensures !Contains(s[lo..hi], pat)
  {
    if Contains(s[lo..hi], pat) {
      var j: nat :| j <= hi - lo && OccursAt(s[lo..hi], pat, j);
      OccursInSlice(s, lo, hi, pat, j);
    }
  }

  lemma {:induction false} StripAvoids(s: string, pat: string)
    requires !Contains(s, pat)
    ensures !Contains(Strip(s), pat)
  {
    var i := StripSlice(s);
    SliceAvoids(s, i, i + |Strip(s)|, pat);
  }

  /** For a single character, `[c] in s` is membership. */
  lemma {:induction false} ContainsChar(s: string, c: char)
    ensures Contains(s, [c]) <==> c in s
  {
    if c in s {
      var k :| 0 <= k < |s| && s[k] == c;
      assert s[k..k + 1] == [c];
      assert OccursAt(s, [c], k);
    }
    if Contains(s, [c]) {
      var k: nat :| k <= |s| && OccursAt(s, [c], k);
      assert s[k..k + 1] == [c];
      assert s[k] == c;
    }
  }

  // ---------------------------------------------------------------------------
  // split(), join() and replace()
  // ---------------------------------------------------------------------------

  lemma {:induction false} PrefixAvoids(s: string, pat: string, i: nat)
    requires pat != [] && i <= |s|
    requires forall j: nat :: j < i ==> !OccursAt(s, pat, j)
    ensures !Contains(s[..i], pat)
  {
    if Contains(s[..i], pat) {
      var j: nat :| j <= i && OccursAt(s[..i], pat, j);
      OccursInSlice(s, 0, i, pat, j);
    }
  }

  /** `s.split(sep)` for a non-empty separator (Python raises `ValueError` on an empty one):
      cut at every occurrence of `sep`, scanning left to right without overlap. */
  function Split(s: string, sep: string): (parts: seq<string>)
    requires sep != []
    ensures |parts| >= 1
  {
    SplitOn(s, sep, Find(s, sep))
  }

  /** `Split`, given where the first separator is. */
  function SplitOn(s: string, sep: string, first: Option<nat>): (parts: seq<string>)
    requires sep != [] && first == Find(s, sep)
    ensures |parts| >= 1
    decreases |s|
  {
    match first
    case None => [s]
    case Some(i) => [s[..i]] + SplitOn(s[i + |sep|..], sep, Find(s[i + |sep|..], sep))
  }

  /** `sep.join(parts)` */
  function Join(parts: seq<string>, sep: string): string
  {
    if parts == [] then []
    else if |parts| == 1 then parts[0]
    else parts[0] + sep + Join(parts[1..], sep)
  }

  /** One step of `split`: the piece before the first separator, then the split of the rest. */
  lemma {:induction false} SplitFirst(s: string, sep: string, i: nat)
    requires sep != [] && Find(s, sep) == Some(i)
    ensures i + |sep| <= |s|
    ensures Split(s, sep) == [s[..i]] + Split(s[i + |sep|..], sep)
    ensures !Contains(s[..i], sep)
  {
    SplitStep(s, sep, i);
    forall j: nat | j < i ensures !OccursAt(s, sep, j) {
      FindFirst(s, sep, j);
    }
    PrefixAvoids(s, sep, i);
  }

  lemma {:induction false} SplitStep(s: string, sep: string, i: nat)
    requires sep != [] && Find(s, sep) == Some(i)
    ensures i + |sep| <= |s|
    ensures Split(s, sep) == [s[..i]] + Split(s[i + |sep|..], sep)
  {
    assert Split(s, sep) == SplitOn(s, sep, Some(i));
  }

  /** Without a separator, `split` yields the whole string. */
  lemma {:induction false} SplitNone(s: string, sep: string)
    requires sep != [] && Find(s, sep).None?
    ensures Split(s, sep) == [s]
  {
    assert Split(s, sep) == SplitOn(s, sep, None);
  }

  /** No piece of a split holds the separator. */
  lemma {:induction false} SplitAvoids(s: string, sep: string, k: nat)
    requires sep != [] && k < |Split(s, sep)|
    ensures !Contains(Split(s, sep)[k], sep)
    decreases |s|
  {
    match Find(s, sep)
    case None =>
      SplitNone(s, sep);
      FindNone(s, sep);
    case Some(i) =>
      SplitFirst(s, sep, i);
      if k > 0 {
        SplitAvoids(s[i + |sep|..], sep, k - 1);
      }
  }

  /** The last piece of a split, stripped, holds no separator. */
  lemma {:induction false} LastPieceAvoids(s: string, sep: string)
    requires sep != []
    ensures !Contains(Strip(Split(s, sep)[|Split(s, sep)| - 1]), sep)
  {
    var parts := Split(s, sep);
    SplitAvoids(s, sep, |parts| - 1);
    StripAvoids(parts[|parts| - 1], sep);
  }

  lemma {:induction false} JoinCons(p: string, tail: seq<string>, sep: string)
    requires tail != []
    ensures Join([p] + tail, sep) == p + sep + Join(tail, sep)
  {
    assert ([p] + tail)[1..] == tail;
  }

  /** A string without the separator splits into itself alone. */
  lemma {:induction false} SplitAbsent(s: string, sep: string)
    requires sep != [] && !Contains(s, sep)
    ensures Split(s, sep) == [s]
  {
    if Find(s, sep).Some? {
      assert false;
    }
    SplitNone(s, sep);
  }

  /** Joining peels off the last piece as well as the first. */
  lemma {:induction false} JoinSnoc(parts: seq<string>, sep: string)
    requires |parts| >= 2
    ensures Join(parts, sep) == Join(parts[..|parts| - 1], sep) + sep + parts[|parts| - 1]
  {
    var n := |parts|;
    if n == 2 {
      assert parts[..1] == [parts[0]];
    } else {
      JoinSnoc(parts[1..], sep);
      assert parts[1..][..n - 2] == parts[..n - 1][1..];
    }
  }

  /** Splitting and joining again with the same separator gives the string back. */
  lemma {:induction false} SplitJoin(s: string, sep: string)
    requires sep != []
    ensures Join(Split(s, sep), sep) == s
    decreases |s|
  {
    match Find(s, sep)
    case None =>
      SplitNone(s, sep);
    case Some(i) =>
      var rest := s[i + |sep|..];
      SplitStep(s, sep, i);
      SplitJoin(rest, sep);
      JoinCons(s[..i], Split(rest, sep), sep);
      OccursAround(s, sep, i);
  }

  /** An occurrence cuts the string into what comes before it, itself and what follows. */
  lemma {:induction false} OccursAround(s: string, pat: string, i: nat)
    requires OccursAt(s, pat, i)
    ensures s == s[..i] + pat + s[i + |pat|..]
  {
    assert s == s[..i] + s[i..i + |pat|] + s[i + |pat|..];
  }

  /** `s.replace(pat, rep)` for a non-empty `pat`: every non-overlapping occurrence, left to right. */
  function Replace(s: string, pat: string, rep: string): string
    requires pat != []
  {
    Join(Split(s, pat), rep)
  }

  lemma {:induction false} JoinAvoidsChar(parts: seq<string>, sep: string, c: char)
    requires c !in sep
    requires forall k :: 0 <= k < |parts| ==> c !in parts[k]
    ensures c !in Join(parts, sep)
  {
    if |parts| > 1 {
      JoinAvoidsChar(parts[1..], sep, c);
    }
  }

  /** Removing a character with `replace(c, "")` leaves none of it. */
  lemma {:induction false} RemoveCharGone(s: string, c: char)
    ensures c !in Replace(s, [c], [])
  {
    var parts := Split(s, [c]);
    forall k | 0 <= k < |parts| ensures c !in parts[k] {
      SplitAvoids(s, [c], k);
      ContainsChar(parts[k], c);
    }
    JoinAvoidsChar(parts, [], c);
  }

  /** Character-for-character substitution: the reference for single-character `replace`. */
  function Translate(s: string, a: char, b: char): (r: string)
    ensures |r| == |s|
  {
    if s == [] then [] else [if s[0] == a then b else s[0]] + Translate(s[1..], a, b)
  }

  lemma {:induction false} TranslateConcat(x: string, y: string, a: char, b: char)
    ensures Translate(x + y, a, b) == Translate(x, a, b) + Translate(y, a, b)
  {
    if x != [] {
      assert (x + y)[0] == x[0] && (x + y)[1..] == x[1..] + y;
      TranslateConcat(x[1..], y, a, b);
    } else {
      assert x + y == y;
    }
  }

  lemma {:induction false} TranslateAbsent(x: string, a: char, b: char)
    requires a !in x
    ensures Translate(x, a, b) == x
  {
    if x != [] {
      TranslateAbsent(x[1..], a, b);
    }
  }

  /** `replace` with one character for another substitutes character by character. */
  lemma {:induction false} ReplaceCharIsTranslate(s: string, a: char, b: char)
    ensures Replace(s, [a], [b]) == Translate(s, a, b)
    decreases |s|
  {
    match Find(s, [a])
    case None =>
      SplitNone(s, [a]);
      FindNone(s, [a]);
      ContainsChar(s, a);
      TranslateAbsent(s, a, b);
    case Some(i) =>
      var pre, rest := s[..i], s[i + 1..];
      ReplaceCharStep(s, a, b, i);
      assert a !in pre by {
        ContainsChar(pre, a);
      }
      calc {
        Replace(s, [a], [b]);
        pre + [b] + Replace(rest, [a], [b]);
        { ReplaceCharIsTranslate(rest, a, b); }
        pre + [b] + Translate(rest, a, b);
        { TranslateAround(pre, a, b, rest); }
        Translate(pre + [a] + rest, a, b);
        { assert s[i..i + 1] == [a] && s == pre + s[i..i + 1] + rest; }
        Translate(s, a, b);
      }
  }

  lemma {:induction false} ReplaceCharStep(s: string, a: char, b: char, i: nat)
    requires Find(s, [a]) == Some(i)
    ensures i < |s|
    ensures Replace(s, [a], [b]) == s[..i] + [b] + Replace(s[i + 1..], [a], [b])
    ensures !Contains(s[..i], [a])
  {
    SplitFirst(s, [a], i);
    JoinCons(s[..i], Split(s[i + 1..], [a]), [b]);
  }

  lemma {:induction false} TranslateAround(pre: string, a: char, b: char, rest: string)
    requires a !in pre
    ensures Translate(pre + [a] + rest, a, b) == pre + [b] + Translate(rest, a, b)
  {
    TranslateAbsent(pre, a, b);
    TranslateConcat(pre + [a], rest, a, b);
    TranslateConcat(pre, [a], a, b);
    assert Translate([a], a, b) == [b] + Translate([], a, b);
  }

  /** Occurrences of a character. */
  function Count(s: string, c: char): nat
  {
    if s == [] then 0 else (if s[0] == c then 1 else 0) + Count(s[1..], c)
  }

  lemma {:induction false} CountConcat(x: string, y: string, c: char)
    ensures Count(x + y, c) == Count(x, c) + Count(y, c)
  {
    if x != [] {
      assert (x + y)[0] == x[0] && (x + y)[1..] == x[1..] + y;
      CountConcat(x[1..], y, c);
    } else {
      assert x + y == y;
    }
  }

  lemma {:induction false} CountAbsent(x: string, c: char)
    ensures c !in x <==> Count(x, c) == 0
  {
    if x != [] {
      CountAbsent(x[1..], c);
    }
  }

  /** Translating `a` to `b` turns every `a` into a `b`. */
  lemma {:induction false} CountTranslate(s: string, a: char, b: char)
    requires a != b
    ensures Count(Translate(s, a, b), b) == Count(s, b) + Count(s, a)
  {
    if s != [] {
      CountTranslate(s[1..], a, b);
    }
  }

  /** Splitting on one character yields one more piece than there are occurrences of it. */
  lemma {:induction false} SplitCount(s: string, c: char)
    ensures |Split(s, [c])| == Count(s, c) + 1
    decreases |s|
  {
    match Find(s, [c])
    case None =>
      SplitNone(s, [c]);
      FindNone(s, [c]);
      ContainsChar(s, c);
      CountAbsent(s, c);
    case Some(i) =>
      var pre, rest := s[..i], s[i + 1..];
      SplitFirst(s, [c], i);
      SplitCount(rest, c);
      assert s[i..i + 1] == [c];
      assert s == pre + [c] + rest;
      ContainsChar(pre, c);
      CountAbsent(pre, c);
      CountConcat(pre + [c], rest, c);
      CountConcat(pre, [c], c);
  }

  /** Splitting `x + [c] + y` on `c`, when neither side holds a `c`, yields the two sides. */
  lemma {:induction false} SplitAtOnly(x: string, c: char, y: string)
    requires c !in x && c !in y
    ensures Split(x + [c] + y, [c]) == [x, y]
  {
    var s := x + [c] + y;
    ContainsChar(x, c);
    ContainsChar(y, c);
    assert OccursAt(s, [c], |x|);
    forall j: nat | j < |x| ensures !OccursAt(s, [c], j) {
      assert s[j] == x[j];
    }
    FindIs(s, [c], |x|);
    SplitStep(s, [c], |x|);
    assert s[..|x|] == x && s[|x| + 1..] == y;
    SplitAbsent(y, [c]);
  }

  // ---------------------------------------------------------------------------
  // int()
  // ---------------------------------------------------------------------------

  predicate IsDigit(c: char) {
    '0' <= c <= '9'
  }

  /** Decimal digits, with single underscores allowed between two digits, as `int()` takes them. */
  predicate IsDigitRun(d: string) {
    d != [] && IsDigit(d[0]) && IsDigit(d[|d| - 1])
    && (forall k :: 0 <= k < |d| ==> IsDigit(d[k]) || d[k] == '_')
    && !Contains(d, "__")
  }

  function DigitValue(c: char): nat
    requires IsDigit(c)
  {
    c as int - '0' as int
  }

  /** The positional decimal value of a digit run, underscores ignored. */
  function DigitsValue(d: string): nat
    requires forall k :: 0 <= k < |d| ==> IsDigit(d[k]) || d[k] == '_'
  {
    if d == [] then 0
    else if IsDigit(d[|d| - 1]) then 10 * DigitsValue(d[..|d| - 1]) + DigitValue(d[|d| - 1])
    else DigitsValue(d[..|d| - 1])
  }

  /** The four characters `str.isspace()` accepts but `int()` does not skip. They are neither
      digits, signs nor `_`, so one of them anywhere makes `int()` fail. */
  predicate IsInfoSeparator(c: char) {
    '\U{1c}' <= c <= '\U{1f}'
  }

  /** `int(s)` in base 10: optional surrounding whitespace, an optional sign, then a digit run.
      `None` stands for the `ValueError` Python raises on anything else. */
  function ParseInt(s: string): Option<int>
  {
    if exists k :: 0 <= k < |s| && IsInfoSeparator(s[k]) then None
    else
    var t := Strip(s);
    if t != [] && (t[0] == '+' || t[0] == '-') then
      if IsDigitRun(t[1..]) then
        var n: int := DigitsValue(t[1..]);
        Some(if t[0] == '-' then -n else n)
      else None
    else if IsDigitRun(t) then Some(DigitsValue(t))
    else None
  }

  /** A separator U+001C to U+001F anywhere makes `int()` fail, though `strip()` would skip it. */
  lemma {:induction false} ParseIntSeparator(s: string, k: nat)
    requires k < |s| && IsInfoSeparator(s[k])
    ensures ParseInt(s) == None
  {
  }

  /** A bare digit run reads as its positional value. */
  lemma {:induction false} ParseDigitRun(d: string)
    requires IsDigitRun(d)
    ensures ParseInt(d) == Some(DigitsValue(d))
  {
    assert !IsSpace(d[0]) && !IsSpace(d[|d| - 1]);
    StripStripped(d);
  }

  lemma {:induction false} TrimStartKeeps(s: string, k: nat) returns (j: nat)
    requires k < |s| && !IsSpace(s[k])
    ensures j < |TrimStart(s)| && TrimStart(s)[j] == s[k]
  {
    var r := TrimStart(s);
    var cut := |s| - |r|;
    TrimStartCut(s);
    if k < cut {
      assert false;
    }
    j := k - cut;
    assert r[j] == s[cut..][j];
  }

  lemma {:induction false} TrimEndKeeps(s: string, k: nat)
    requires k < |s| && !IsSpace(s[k])
    ensures k < |TrimEnd(s)| && TrimEnd(s)[k] == s[k]
  {
    var r := TrimEnd(s);
    if k >= |r| {
      TrimEndCut(s);
      assert false;
    }
    assert r[k] == s[..|r|][k];
  }

  /** A non-whitespace character survives `strip()`. */
  lemma {:induction false} StripKeeps(s: string, k: nat) returns (j: nat)
    requires k < |s| && !IsSpace(s[k])
    ensures j < |Strip(s)| && Strip(s)[j] == s[k]
  {
    j := TrimStartKeeps(s, k);
    TrimEndKeeps(TrimStart(s), j);
  }

  /** A character that is neither whitespace, a digit, an underscore nor a sign makes `int()` fail. */
  lemma {:induction false} ParseIntRejects(s: string, k: nat)
    requires k < |s| && !IsSpace(s[k]) && !IsDigit(s[k]) && s[k] !in "_+-"
    ensures ParseInt(s) == None
  {
    var t := Strip(s);
    var j := StripKeeps(s, k);
    if t[0] == '+' || t[0] == '-' {
      assert j != 0;
      assert t[1..][j - 1] == t[j];
    }
  }

  /** The decimal digits of a natural number, most significant first. */
  function NatDigits(n: nat): (d: string)
    ensures d != [] && forall k :: 0 <= k < |d| ==> IsDigit(d[k])
  {
    if n < 10 then [('0' as int + n) as char]
    else NatDigits(n / 10) + [('0' as int + n % 10) as char]
  }

  /** `str(n)` for an integer. */
  function Show(n: int): string
  {
    if n < 0 then "-" + NatDigits(-n) else NatDigits(n)
  }

  lemma {:induction false} NatDigitsValue(n: nat)
    ensures DigitsValue(NatDigits(n)) == n
  {
    if n >= 10 {
      var d := NatDigits(n);
      assert d[..|d| - 1] == NatDigits(n / 10);
      NatDigitsValue(n / 10);
    }
  }

  lemma {:induction false} NoUnderscorePair(d: string)
    requires forall k :: 0 <= k < |d| ==> d[k] != '_'
    ensures !Contains(d, "__")
  {
    forall i: nat | i <= |d| ensures !OccursAt(d, "__", i) {
      if i + 2 <= |d| {
        assert d[i..i + 2][0] == d[i];
      }
    }
  }

  lemma {:induction false} NatDigitsRun(n: nat)
    ensures IsDigitRun(NatDigits(n))
  {
    var d := NatDigits(n);
    NoUnderscorePair(d);
  }

  /** A minus sign before a digit run negates its value. */
  lemma {:induction false} ParseNegative(d: string)
    requires IsDigitRun(d)
    ensures ParseInt("-" + d) == Some(-(DigitsValue(d) as int))
  {
    var s := ['-'] + d;
    assert s[1..] == d;
    assert Strip(s) == s by {
      assert s[0] == '-' && s[|s| - 1] == d[|d| - 1];
      StripStripped(s);
    }
    assert Strip(s)[0] == '-' && IsDigitRun(Strip(s)[1..]);
    assert ParseInt(s) == Some(-(DigitsValue(d) as int));
    assert "-" + d == s;
  }

  /** `int(str(n)) == n` */
  lemma {:induction false} ParseShow(n: int)
    ensures ParseInt(Show(n)) == Some(n)
  {
    var m: nat := if n < 0 then -n else n;
    var d := NatDigits(m);
    NatDigitsRun(m);
    NatDigitsValue(m);
    if n < 0 {
      assert Show(n) == "-" + d;
      ParseNegative(d);
    } else {
      assert Show(n) == d;
      ParseDigitRun(d);
    }
  }
}
