/** The handful of Python `str` operations that the telemetry reader relies on:
    `p in s`, `s.startswith(p)`, `s.split(sep)` and `s.strip()`, over strings of
    Unicode code points. */
module PyStr {

  datatype Option<+T> = None | Some(value: T)

  /** `p` occurs in `s` starting at index `i`. */
  predicate OccursAt(s: string, p: string, i: int) {
    0 <= i && i + |p| <= |s| && s[i..i + |p|] == p
  }

  /** The first index at or after `k` where `p` occurs in `s` (Python `s.find(p, k)`). */
  function FindFrom(s: string, p: string, k: nat): (r: Option<nat>)
    ensures r.Some? ==> k <= r.value && OccursAt(s, p, r.value)
    ensures forall j :: k <= j && (r.None? || j < r.value) ==> !OccursAt(s, p, j)
    decreases |s| - k
  {
    if k + |p| > |s| then None
    else if s[k..k + |p|] == p then Some(k)
    else FindFrom(s, p, k + 1)
  }

  /** The first index where `p` occurs in `s`. */
  function Find(s: string, p: string): (r: Option<nat>)
    ensures r.Some? ==> OccursAt(s, p, r.value)
    ensures forall j :: 0 <= j && (r.None? || j < r.value) ==> !OccursAt(s, p, j)
  {
    FindFrom(s, p, 0)
  }

  /** Python `p in s`. */
  predicate Contains(s: string, p: string) {
    Find(s, p).Some?
  }

  /** `p in s` holds exactly when `p` occurs somewhere in `s`. */
  lemma ContainsOccurs(s: string, p: string)
    ensures Contains(s, p) <==> exists i :: OccursAt(s, p, i)
  {
    if Contains(s, p) {
      assert OccursAt(s, p, Find(s, p).value);
    }
  }

  /** Python `s.startswith(p)`. */
  predicate StartsWith(s: string, p: string) {
    |p| <= |s| && s[..|p|] == p
  }

  /** `s.startswith(p)` holds exactly when `p` occurs at index 0, and then the search
      for `p` stops there; any string starts with itself. */
  lemma StartsWithOccurs(s: string, p: string, t: string)
    ensures StartsWith(s, p) <==> OccursAt(s, p, 0)
    ensures StartsWith(s, p) ==> Find(s, p) == Some(0)
    ensures StartsWith(p + t, p)
  {
    assert (p + t)[..|p|] == p;
  }

  /** Python `s.split(sep)` for a non-empty separator: the pieces between the
      non-overlapping occurrences of `sep`, found from left to right. */
  function Split(s: string, sep: string): (parts: seq<string>)
    requires sep != []
    ensures |parts| >= 1
    ensures |parts| >= 2 <==> Contains(s, sep)
    decreases |s|
  {
    match Find(s, sep)
    case None => [s]
    case Some(i) => [s[..i]] + Split(s[i + |sep|..], sep)
  }

  /** Python `sep.join(parts)`. */
  function Join(parts: seq<string>, sep: string): string {
    if parts == [] then []
    else if |parts| == 1 then parts[0]
    else parts[0] + sep + Join(parts[1..], sep)
  }

  /** An occurrence inside a slice is an occurrence in the whole string, shifted by the slice's start. */
  lemma OccursInSlice(s: string, p: string, lo: nat, hi: nat, j: int)
    requires lo <= hi <= |s|
    ensures OccursAt(s[lo..hi], p, j) <==> 0 <= j && j + |p| <= hi - lo && OccursAt(s, p, lo + j)
  {
    if 0 <= j && j + |p| <= hi - lo {
      var a, b := s[lo..hi][j..j + |p|], s[lo + j..lo + j + |p|];
      assert |a| == |b|;
      assert forall k :: 0 <= k < |a| ==> a[k] == b[k];
      assert a == b;
    }
  }

  /** Joining the pieces of a split with the same separator gives back the original string. */
  lemma {:induction false} SplitJoin(s: string, sep: string)
    requires sep != []
    ensures Join(Split(s, sep), sep) == s
    decreases |s|
  {
    match Find(s, sep)
    case None =>
    case Some(i) =>
      var rest := s[i + |sep|..];
      var parts := Split(s, sep);
      SplitJoin(rest, sep);
      assert parts == [s[..i]] + Split(rest, sep);
      assert parts[1..] == Split(rest, sep);
      assert Join(parts, sep) == s[..i] + sep + Join(Split(rest, sep), sep);
      assert s[i..i + |sep|] == sep;
      assert s == s[..i] + s[i..i + |sep|] + rest;
  }

  /** No piece of a split contains the separator. */
  lemma {:induction false} SplitPiecesFree(s: string, sep: string)
    requires sep != []
    ensures forall k :: 0 <= k < |Split(s, sep)| ==> !Contains(Split(s, sep)[k], sep)
    decreases |s|
  {
    match Find(s, sep)
    case None =>
    case Some(i) =>
      var rest := s[i + |sep|..];
      SplitPiecesFree(rest, sep);
      forall j | OccursAt(s[..i], sep, j) ensures false {
        OccursInSlice(s, sep, 0, i, j);
      }
  }

  /** The first piece is the text before the first occurrence of `sep`, or all of `s`. */
  lemma SplitFirst(s: string, sep: string)
    requires sep != []
    ensures Split(s, sep)[0] == match Find(s, sep) case Some(i) => s[..i] case None => s
  {
  }

  /** Where the next occurrence of `p` at or after `k` starts, or the end of `s`. */
  function NextOrEnd(s: string, p: string, k: nat): (e: nat)
    requires k <= |s|
    ensures k <= e <= |s|
  {
    match FindFrom(s, p, k)
    case Some(j) => j
    case None => |s|
  }

  /** Searching a suffix is searching the whole string from the suffix's start. */
  lemma FindShift(s: string, p: string, d: nat)
    requires d <= |s|
    ensures Find(s[d..], p) == match FindFrom(s, p, d) case Some(k) => Some(k - d) case None => None
  {
    forall j | 0 <= j ensures OccursAt(s[d..], p, j) <==> OccursAt(s, p, d + j) {
      OccursInSlice(s, p, d, |s|, j);
    }
    match FindFrom(s, p, d)
    case None =>
      FindUnique(s[d..], p, None);
    case Some(k) =>
      assert OccursAt(s[d..], p, k - d);
      FindUnique(s[d..], p, Some(k - d));
  }

  /** `Find` is determined by its postcondition. */
  lemma FindUnique(s: string, p: string, r: Option<nat>)
    requires r.Some? ==> OccursAt(s, p, r.value)
    requires forall j :: 0 <= j && (r.None? || j < r.value) ==> !OccursAt(s, p, j)
    ensures Find(s, p) == r
  {
    var f := Find(s, p);
    if f.Some? { assert OccursAt(s, p, f.value); }
    if r.Some? { assert OccursAt(s, p, r.value); }
  }

  /** Text appended after an occurrence does not move the first occurrence. */
  lemma FindAppend(s: string, t: string, p: string)
    requires Contains(s, p)
    ensures Find(s + t, p) == Find(s, p)
  {
    var i := Find(s, p).value;
    forall j | 0 <= j <= i ensures OccursAt(s + t, p, j) <==> OccursAt(s, p, j) {
      if j + |p| <= |s| { assert (s + t)[j..j + |p|] == s[j..j + |p|]; }
    }
    FindUnique(s + t, p, Some(i));
  }

  /** When `s` ends with a character that `p` lacks, no occurrence of `p` in `s + t`
      straddles the boundary between `s` and `t`. */
  lemma NoStraddle(s: string, t: string, p: string, j: int)
    requires |s| > 0 && s[|s| - 1] !in p
    ensures OccursAt(s + t, p, j) ==> j + |p| <= |s| || j >= |s|
  {
    if OccursAt(s + t, p, j) && j < |s| < j + |p| {
      StraddleWitness(s, t, p, j);
    }
  }

  lemma StraddleWitness(s: string, t: string, p: string, j: int)
    requires OccursAt(s + t, p, j) && j < |s| < j + |p|
    ensures s[|s| - 1] in p
  {
    assert p[|s| - 1 - j] == s[|s| - 1];
  }

  /** Text put in front of a string shifts its first occurrence by the text's length,
      provided the text holds no occurrence and ends with a character the pattern lacks. */
  lemma FindBehindPrefix(s: string, t: string, p: string)
    requires !Contains(s, p)
    requires s == [] || s[|s| - 1] !in p
    ensures Find(s + t, p) == match Find(t, p) case Some(k) => Some(|s| + k) case None => None
  {
    if s == [] {
      assert s + t == t;
    } else {
      forall j | 0 <= j < |s| ensures !OccursAt(s + t, p, j) {
        NotBeforeBoundary(s, t, p, j);
      }
      forall j | |s| <= j ensures OccursAt(s + t, p, j) <==> OccursAt(t, p, j - |s|) {
        OccursPastBoundary(s, t, p, j);
      }
      match Find(t, p)
      case None =>
        FindUnique(s + t, p, None);
      case Some(k) =>
        FindUnique(s + t, p, Some(|s| + k));
    }
  }

  lemma NotBeforeBoundary(s: string, t: string, p: string, j: int)
    requires !Contains(s, p) && |s| > 0 && s[|s| - 1] !in p
    requires 0 <= j < |s|
    ensures !OccursAt(s + t, p, j)
  {
    NoStraddle(s, t, p, j);
    OccursInSlice(s + t, p, 0, |s|, j);
    assert (s + t)[..|s|] == s;
  }

  lemma OccursPastBoundary(s: string, t: string, p: string, j: int)
    requires |s| <= j
    ensures OccursAt(s + t, p, j) <==> OccursAt(t, p, j - |s|)
  {
    OccursInSlice(s + t, p, |s|, |s + t|, j - |s|);
    assert (s + t)[|s|..|s + t|] == t;
  }

  /** The text after the first occurrence of `sep`. */
  function AfterFirst(s: string, sep: string): (r: string)
    requires Contains(s, sep)
    ensures |r| + |sep| <= |s|
  {
    s[Find(s, sep).value + |sep|..]
  }

  /** The second piece of a split is the first piece of splitting what follows the
      first occurrence. */
  lemma SplitSecondIsAfterFirst(s: string, sep: string)
    requires sep != [] && Contains(s, sep)
    ensures Split(s, sep)[1] == Split(AfterFirst(s, sep), sep)[0]
  {
  }

  /** The second piece runs from the end of the first occurrence of `sep` to the start
      of the next occurrence, or to the end of `s`. */
  lemma SplitSecond(s: string, sep: string, i: nat)
    requires sep != [] && Find(s, sep) == Some(i)
    ensures i + |sep| <= |s|
    ensures Split(s, sep)[1] == s[i + |sep|..NextOrEnd(s, sep, i + |sep|)]
  {
    SplitSecondIsAfterFirst(s, sep);
    assert AfterFirst(s, sep) == s[i + |sep|..];
    FirstPieceFrom(s, sep, i + |sep|);
  }

  /** The first piece of a suffix ends where the whole string's next occurrence of
      `sep` from the suffix's start begins. */
  lemma FirstPieceFrom(s: string, sep: string, start: nat)
    requires sep != [] && start <= |s|
    ensures Split(s[start..], sep)[0] == s[start..NextOrEnd(s, sep, start)]
  {
    var rest := s[start..];
    FindShift(s, sep, start);
    SplitFirst(rest, sep);
    match FindFrom(s, sep, start)
    case None =>
    case Some(k) =>
      assert rest[..k - start] == s[start..k];
  }

  /** Appending text after an occurrence of `sep` leaves the first piece alone. */
  lemma SplitFirstAppend(s: string, t: string, sep: string)
    requires sep != [] && Contains(s, sep)
    ensures Split(s + t, sep)[0] == Split(s, sep)[0]
  {
    FindAppend(s, t, sep);
  }

  /** Appending text after an occurrence of `sep` extends what follows it. */
  lemma AfterFirstAppend(s: string, t: string, sep: string)
    requires sep != [] && Contains(s, sep)
    ensures Contains(s + t, sep) && AfterFirst(s + t, sep) == AfterFirst(s, sep) + t
  {
    FindAppend(s, t, sep);
  }

  /** When `s` holds no `sep` and ends with a character `sep` lacks, the first piece of
      `s + t` is `s` followed by the first piece of `t`. */
  lemma SplitFirstExtends(s: string, t: string, sep: string)
    requires sep != [] && !Contains(s, sep)
    requires s == [] || s[|s| - 1] !in sep
    ensures Split(s + t, sep)[0] == s + Split(t, sep)[0]
  {
    FindBehindPrefix(s, t, sep);
    match Find(t, sep)
    case None =>
    case Some(k) =>
      assert (s + t)[..|s| + k] == s + t[..k];
  }

  /** Under the same conditions, what follows the first occurrence in `s + t` is what
      follows it in `t`. */
  lemma AfterFirstBehind(s: string, t: string, sep: string)
    requires sep != [] && !Contains(s, sep) && Contains(t, sep)
    requires s == [] || s[|s| - 1] !in sep
    ensures Contains(s + t, sep) && AfterFirst(s + t, sep) == AfterFirst(t, sep)
  {
    FindBehindPrefix(s, t, sep);
    var k := Find(t, sep).value;
    assert (s + t)[|s| + k + |sep|..] == t[k + |sep|..];
  }

  /** Python's `str.isspace` code points, which `str.strip()` removes. */
  predicate IsSpace(c: char) {
    ('\U{9}' <= c <= '\U{D}') || ('\U{1C}' <= c <= ' ') ||
    c == '\U{85}' || c == '\U{A0}' || c == '\U{1680}' ||
    ('\U{2000}' <= c <= '\U{200A}') || c == '\U{2028}' || c == '\U{2029}' ||
    c == '\U{202F}' || c == '\U{205F}' || c == '\U{3000}'
  }

  /** The first index at or after `k` that does not hold whitespace, or `|s|`. */
  function SkipSpace(s: string, k: nat): (i: nat)
    requires k <= |s|
    ensures k <= i <= |s|
    ensures forall j :: k <= j < i ==> IsSpace(s[j])
    ensures i < |s| ==> !IsSpace(s[i])
    decreases |s| - k
  {
    if k < |s| && IsSpace(s[k]) then SkipSpace(s, k + 1) else k
  }

  /** Walking back from `e` towards `lo`: the end of the last non-whitespace character, or `lo`. */
  function SkipSpaceBack(s: string, lo: nat, e: nat): (i: nat)
    requires lo <= e <= |s|
    ensures lo <= i <= e
    ensures forall j :: i <= j < e ==> IsSpace(s[j])
    ensures i > lo ==> !IsSpace(s[i - 1])
    decreases e
  {
    if e > lo && IsSpace(s[e - 1]) then SkipSpaceBack(s, lo, e - 1) else e
  }

  /** Python `s.strip()`: `s` without leading and trailing whitespace. */
  function Strip(s: string): (r: string)
    ensures |r| <= |s|
    ensures r == [] || (!IsSpace(r[0]) && !IsSpace(r[|r| - 1]))
  {
    var lo := SkipSpace(s, 0);
    s[lo..SkipSpaceBack(s, lo, |s|)]
  }

  predicate AllSpace(w: string) {
    forall k :: 0 <= k < |w| ==> IsSpace(w[k])
  }

  /** Stripping undoes padding with whitespace: the inverse of surrounding a stripped
      string with whitespace on either side. */
  lemma StripPadded(w1: string, t: string, w2: string)
    requires AllSpace(w1) && AllSpace(w2)
    requires t == [] || (!IsSpace(t[0]) && !IsSpace(t[|t| - 1]))
    ensures Strip(w1 + t + w2) == t
  {
    var s := w1 + t + w2;
    var lo := SkipSpace(s, 0);
    var hi := SkipSpaceBack(s, lo, |s|);
    if t == [] {
      assert lo == |s| by {
        assert forall k :: 0 <= k < |s| ==> IsSpace(s[k]);
      }
      assert s[lo..hi] == [];
    } else {
      assert lo == |w1| by {
        assert forall k :: 0 <= k < |w1| ==> IsSpace(s[k]);
        assert !IsSpace(s[|w1|]);
      }
      assert hi == |w1| + |t| by {
        assert forall k :: |w1| + |t| <= k < |s| ==> IsSpace(s[k]);
        assert !IsSpace(s[|w1| + |t| - 1]);
      }
      assert s[lo..hi] == t;
    }
  }

  /** Stripping twice is stripping once. */
  lemma StripIdempotent(s: string)
    ensures Strip(Strip(s)) == Strip(s)
  {
    StripPadded([], Strip(s), []);
    assert [] + Strip(s) + [] == Strip(s);
  }
}
