/**
 * The few Python string operations the dashboard script relies on:
 * `str.strip()` (no argument), `str.split(sep)` with its `[0]` and `[-1]`
 * pieces, and the ordering `sorted` uses on strings.
 */
module PyStr {

  /** Python's `str.isspace` for one character: the characters `str.strip()` removes. */
  predicate IsSpace(c: char) {
    || ('\U{9}' <= c <= '\U{D}')
    || ('\U{1C}' <= c <= '\U{20}')
    || c == '\U{85}' || c == '\U{A0}' || c == '\U{1680}'
    || ('\U{2000}' <= c <= '\U{200A}')
    || c == '\U{2028}' || c == '\U{2029}' || c == '\U{202F}'
    || c == '\U{205F}' || c == '\U{3000}'
  }

  predicate AllSpace(s: string) {
    forall i :: 0 <= i < |s| ==> IsSpace(s[i])
  }

  /** Neither the first nor the last character is whitespace. */
  predicate NoEdgeSpace(s: string) {
    s == [] || (!IsSpace(s[0]) && !IsSpace(s[|s| - 1]))
  }

  /** Length of the leading run of whitespace: it is all space and stops at a non-space. */
  function LeadingSpace(s: string): (n: nat)
    ensures n <= |s| && AllSpace(s[..n])
    ensures n == |s| || !IsSpace(s[n])
  {
    if s != [] && IsSpace(s[0]) then
      var n := 1 + LeadingSpace(s[1..]);
      assert s[..n] == [s[0]] + s[1..][..n - 1];
      n
    else 0
  }
  /** Start of the trailing run of whitespace: it is all space and follows a non-space. */
  function TrailingStart(s: string): (n: nat)
    ensures n <= |s| && AllSpace(s[n..])
    ensures n == 0 || !IsSpace(s[n - 1])
  {
    if s != [] && IsSpace(s[|s| - 1]) then
      var n := TrailingStart(s[..|s| - 1]);
      assert s[n..] == s[..|s| - 1][n..] + [s[|s| - 1]];
      n
    else |s|
  }
  /**
   * Python's `str.strip()`: the result has no whitespace at either end, so it
   * is empty exactly when `s` is all whitespace; `StripCutsOnlySpace` shows
   * that only whitespace is cut off.
   */
  function Strip(s: string): (r: string)
    ensures NoEdgeSpace(r)
    ensures r == [] <==> AllSpace(s)
  {
    var i := LeadingSpace(s);
    if i == |s| then
      assert s[..i] == s;
      []
    else
      var j := TrailingStart(s);
      StripCut(s, i, j);
      s[i..j]
  }

  /** With a non-space at `i` and only space from `j` on, `i` comes before `j`, and the piece between them starts and ends with a non-space. */
  lemma StripCut(s: string, i: nat, j: nat)
    requires i < |s| && !IsSpace(s[i])
    requires j <= |s| && AllSpace(s[j..]) && (j == 0 || !IsSpace(s[j - 1]))
    ensures i < j <= |s|
    ensures !IsSpace(s[i]) && !IsSpace(s[j - 1]) && !AllSpace(s)
  {
    forall k | j <= k < |s| ensures IsSpace(s[k]) {
      assert s[j..][k - j] == s[k];
    }
  }

  /**
   * `str.strip()` cuts only whitespace: the result is the piece of `s` that
   * starts after the leading whitespace, and everything before and after it
   * is whitespace.
   */
  lemma StripCutsOnlySpace(s: string)
    ensures var i, r := LeadingSpace(s), Strip(s);
      && i + |r| <= |s| && r == s[i..i + |r|]
      && AllSpace(s[..i]) && AllSpace(s[i + |r|..])
  {
    var i, r := LeadingSpace(s), Strip(s);
    if i == |s| {
      assert r == [] && s[i..] == [];
    } else {
      var j := TrailingStart(s);
      StripCut(s, i, j);
      assert r == s[i..j];
      assert s[i + |r|..] == s[j..];
    }
  }

  /** Stripping twice is stripping once. */
  lemma StripIdempotent(s: string)
    ensures Strip(Strip(s)) == Strip(s)
  {
    var r := Strip(s);
    if r != [] {
      assert LeadingSpace(r) == 0;
      assert TrailingStart(r) == |r|;
      assert r[0..|r|] == r;
    }
  }

  /** `sep` starts at position `i` of `s`. */
  predicate OccursAt(s: string, sep: string, i: nat) {
    i + |sep| <= |s| && s[i..i + |sep|] == sep
  }

  /** `sep` occurs nowhere in `s`. */
  predicate Free(s: string, sep: string) {
    forall j :: 0 <= j <= |s| ==> !OccursAt(s, sep, j)
  }

  datatype Option<T> = None | Some(value: T)

  /** First occurrence of `sep` at or after position `k`, the scan `str.split` repeats. */
  function FindFrom(s: string, sep: string, k: nat): (r: Option<nat>)
    requires k <= |s|
    ensures r.Some? ==> k <= r.value && r.value + |sep| <= |s|
    decreases |s| - k
  {
    if OccursAt(s, sep, k) then Some(k)
    else if k == |s| then None
    else FindFrom(s, sep, k + 1)
  }

  /** No occurrence of `sep` in `s` starts in the window `lo <= j < hi`. */
  predicate NoneIn(s: string, sep: string, lo: nat, hi: nat) {
    forall j :: lo <= j < hi ==> !OccursAt(s, sep, j)
  }

  /**
   * The scan finds an occurrence of `sep` with none before it at or after `k`,
   * and finds nothing exactly when `sep` does not start anywhere at or after `k`.
   */
  lemma {:induction false} FindFromSpec(s: string, sep: string, k: nat)
    requires k <= |s|
    ensures var r := FindFrom(s, sep, k);
      && (r.Some? ==> OccursAt(s, sep, r.value) && NoneIn(s, sep, k, r.value))
      && (r.None? <==> NoneIn(s, sep, k, |s| + 1))
    decreases |s| - k
  {
    if !OccursAt(s, sep, k) && k < |s| {
      FindFromSpec(s, sep, k + 1);
    }
  }

  /** What the scan finds is an occurrence of `sep`. */
  lemma {:induction false} FindFromOccurs(s: string, sep: string, k: nat)
    requires k <= |s|
    ensures FindFrom(s, sep, k).Some? ==> OccursAt(s, sep, FindFrom(s, sep, k).value)
    decreases |s| - k
  {
    if !OccursAt(s, sep, k) && k < |s| {
      FindFromOccurs(s, sep, k + 1);
    }
  }

  /** An occurrence inside the piece `s[a..b]` is an occurrence in `s`. */
  lemma OccursInPiece(s: string, sep: string, a: nat, b: nat, j: nat)
    requires a <= b <= |s| && OccursAt(s[a..b], sep, j)
    ensures OccursAt(s, sep, a + j) && a + j + |sep| <= b
  {
    var w := s[a..b][j..j + |sep|];
    assert forall t :: 0 <= t < |sep| ==> w[t] == s[a + j + t];
    assert w == s[a + j..a + j + |sep|];
  }

  /** A piece of `s` in which no occurrence of `sep` starts is free of `sep`. */
  lemma PieceFree(s: string, sep: string, a: nat, b: nat)
    requires sep != [] && a <= b <= |s| && NoneIn(s, sep, a, b)
    ensures Free(s[a..b], sep)
  {
    forall j | 0 <= j <= b - a ensures !OccursAt(s[a..b], sep, j) {
      if OccursAt(s[a..b], sep, j) { OccursInPiece(s, sep, a, b, j); }
    }
  }

  /**
   * The pieces of `s[k..]` under Python's `str.split(sep)`, for a non-empty
   * separator: cut at the first occurrence at or after `k`, continue after it.
   */
  function SplitFrom(s: string, sep: string, k: nat): (parts: seq<string>)
    requires sep != [] && k <= |s|
    ensures |parts| >= 1
    decreases |s| - k
  {
    match FindFrom(s, sep, k)
    case None => [s[k..]]
    case Some(i) => [s[k..i]] + SplitFrom(s, sep, i + |sep|)
  }

  /**
   * Python's `s.split(sep)`: at least one piece, no piece contains `sep`, and
   * joining the pieces with `sep` gives `s` back.
   */
  function Split(s: string, sep: string): (parts: seq<string>)
    requires sep != []
    ensures |parts| >= 1
    ensures Join(parts, sep) == s
    ensures forall p :: p in parts ==> Free(p, sep)
  {
    SplitFromJoin(s, sep, 0);
    SplitFromPiecesFree(s, sep, 0);
    SplitFrom(s, sep, 0)
  }

  /** Python's `sep.join(parts)`. */
  function Join(parts: seq<string>, sep: string): string {
    if |parts| == 0 then []
    else if |parts| == 1 then parts[0]
    else parts[0] + sep + Join(parts[1..], sep)
  }

  lemma SliceConcat(s: string, a: nat, b: nat, c: nat)
    requires a <= b <= c <= |s|
    ensures s[a..b] + s[b..c] == s[a..c]
  {
  }

  lemma {:induction false} SplitFromJoin(s: string, sep: string, k: nat)
    requires sep != [] && k <= |s|
    ensures Join(SplitFrom(s, sep, k), sep) == s[k..]
    decreases |s| - k
  {
    match FindFrom(s, sep, k)
    case None =>
    case Some(i) =>
      FindFromSpec(s, sep, k);
      var parts := SplitFrom(s, sep, k);
      var tail := SplitFrom(s, sep, i + |sep|);
      SplitFromJoin(s, sep, i + |sep|);
      assert parts[1..] == tail;
      assert Join(parts, sep) == s[k..i] + sep + Join(tail, sep);
      assert sep == s[i..i + |sep|];
      SliceConcat(s, k, i, i + |sep|);
      SliceConcat(s, k, i + |sep|, |s|);
      assert s[i + |sep|..|s|] == s[i + |sep|..] && s[k..|s|] == s[k..];
  }

  lemma {:induction false} SplitFromPiecesFree(s: string, sep: string, k: nat)
    requires sep != [] && k <= |s|
    ensures forall p :: p in SplitFrom(s, sep, k) ==> Free(p, sep)
    decreases |s| - k
  {
    FindFromSpec(s, sep, k);
    match FindFrom(s, sep, k)
    case None =>
      PieceFree(s, sep, k, |s|);
      assert s[k..|s|] == s[k..];
    case Some(i) =>
      PieceFree(s, sep, k, i);
      SplitFromPiecesFree(s, sep, i + |sep|);
  }

  /** The first of the joined pieces starts the joined string. */
  lemma {:induction false} JoinStartsWithFirst(parts: seq<string>, sep: string)
    requires |parts| >= 1
    ensures |parts[0]| <= |Join(parts, sep)| && Join(parts, sep)[..|parts[0]|] == parts[0]
  {
    if |parts| > 1 {
      assert Join(parts, sep) == parts[0] + (sep + Join(parts[1..], sep));
    }
  }

  /** The last of the joined pieces ends the joined string. */
  lemma {:induction false} JoinEndsWithLast(parts: seq<string>, sep: string)
    requires |parts| >= 1
    ensures var j, p := Join(parts, sep), parts[|parts| - 1]; |p| <= |j| && j[|j| - |p|..] == p
  {
    if |parts| > 1 {
      JoinEndsWithLast(parts[1..], sep);
      assert parts[1..][|parts[1..]| - 1] == parts[|parts| - 1];
      var rest := Join(parts[1..], sep);
      assert Join(parts, sep) == (parts[0] + sep) + rest;
    }
  }

  /** `s.split(sep)[0]`: a separator-free prefix of `s`. */
  function FirstPiece(s: string, sep: string): (r: string)
    requires sep != []
    ensures |r| <= |s| && s[..|r|] == r && Free(r, sep)
  {
    var parts := Split(s, sep);
    JoinStartsWithFirst(parts, sep);
    assert parts[0] in parts;
    parts[0]
  }

  /** `s.split(sep)[-1]`: a separator-free suffix of `s`. */
  function LastPiece(s: string, sep: string): (r: string)
    requires sep != []
    ensures |r| <= |s| && s[|s| - |r|..] == r && Free(r, sep)
  {
    var parts := Split(s, sep);
    JoinEndsWithLast(parts, sep);
    assert parts[|parts| - 1] in parts;
    parts[|parts| - 1]
  }

  /**
   * `s.split(sep)[0]` is the text before the first occurrence of `sep`:
   * a prefix of `s` in which no occurrence of `sep` starts, followed in `s` by
   * `sep` unless it is the whole of `s`; it is the whole of `s` exactly when
   * `sep` does not occur in `s`.
   */
  lemma FirstPieceIsPrefixBeforeFirstSeparator(s: string, sep: string)
    requires sep != []
    ensures var r := FirstPiece(s, sep);
      && r == s[..|r|]
      && NoneIn(s, sep, 0, |r|)
      && (|r| < |s| ==> OccursAt(s, sep, |r|))
      && (r == s <==> Free(s, sep))
  {
    FindFromSpec(s, sep, 0);
    match FindFrom(s, sep, 0)
    case None =>
      assert Split(s, sep) == [s[0..]];
    case Some(i) =>
      assert Split(s, sep) == [s[0..i]] + SplitFrom(s, sep, i + |sep|);
      assert !Free(s, sep) by { assert OccursAt(s, sep, i); }
  }

  /** With exactly one occurrence of `sep`, at `i`, the split gives the text before it and the text after it. */
  lemma SplitOnce(s: string, sep: string, i: nat)
    requires sep != [] && OccursAt(s, sep, i)
    requires NoneIn(s, sep, 0, i) && NoneIn(s, sep, i + 1, |s| + 1)
    ensures Split(s, sep) == [s[..i], s[i + |sep|..]]
  {
    FindFromSpec(s, sep, 0);
    FindFromSpec(s, sep, i + |sep|);
    assert FindFrom(s, sep, 0) == Some(i);
    assert FindFrom(s, sep, i + |sep|) == None;
    assert Split(s, sep) == [s[0..i]] + SplitFrom(s, sep, i + |sep|);
  }

  /**
   * Where the last piece of `s[k..]` begins: at `k` when no separator starts at or after `k`,
   * otherwise just after a separator; no separator starts at or after it.
   */
  function LastStartFrom(s: string, sep: string, k: nat): (r: nat)
    requires sep != [] && k <= |s|
    ensures k <= r <= |s|
    decreases |s| - k
  {
    match FindFrom(s, sep, k)
    case None => k
    case Some(i) => LastStartFrom(s, sep, i + |sep|)
  }

  /** The last piece of `s[k..]` starts at `k` exactly when no separator starts at or after `k`. */
  lemma LastStartAtStart(s: string, sep: string, k: nat)
    requires sep != [] && k <= |s|
    ensures LastStartFrom(s, sep, k) == k <==> NoneIn(s, sep, k, |s| + 1)
  {
    FindFromSpec(s, sep, k);
  }

  /** Otherwise it starts just after an occurrence of the separator. */
  lemma {:induction false} LastStartAfterSeparator(s: string, sep: string, k: nat)
    requires sep != [] && k <= |s|
    ensures var r := LastStartFrom(s, sep, k);
      r > k ==> k + |sep| <= r && OccursAt(s, sep, r - |sep|)
    decreases |s| - k
  {
    var f := FindFrom(s, sep, k);
    if f.Some? {
      var i := f.value;
      FindFromOccurs(s, sep, k);
      assert OccursAt(s, sep, i);
      LastStartAfterSeparator(s, sep, i + |sep|);
    }
  }

  /** No separator starts at or after the start of the last piece. */
  lemma {:induction false} LastStartNoneAfter(s: string, sep: string, k: nat)
    requires sep != [] && k <= |s|
    ensures NoneIn(s, sep, LastStartFrom(s, sep, k), |s| + 1)
    decreases |s| - k
  {
    match FindFrom(s, sep, k)
    case None =>
      FindFromSpec(s, sep, k);
    case Some(i) =>
      LastStartNoneAfter(s, sep, i + |sep|);
  }

  /** Where `s.split(sep)[-1]` begins in `s`. */
  function LastStart(s: string, sep: string): nat
    requires sep != []
  {
    LastStartFrom(s, sep, 0)
  }

  lemma {:induction false} LastPieceFrom(s: string, sep: string, k: nat)
    requires sep != [] && k <= |s|
    ensures var parts := SplitFrom(s, sep, k); parts[|parts| - 1] == s[LastStartFrom(s, sep, k)..]
    decreases |s| - k
  {
    match FindFrom(s, sep, k)
    case None =>
    case Some(i) =>
      LastPieceFrom(s, sep, i + |sep|);
  }

  /**
   * `s.split(sep)[-1]` is the suffix of `s` after the separator where the scan
   * stopped: it is free of `sep`, it is preceded by `sep` unless it is the whole
   * of `s`, and it is the whole of `s` exactly when `sep` does not occur in `s`.
   */
  lemma LastPieceIsSuffixAfterSeparator(s: string, sep: string)
    requires sep != []
    ensures LastPiece(s, sep) == s[LastStart(s, sep)..]
    ensures Free(LastPiece(s, sep), sep)
    ensures LastStart(s, sep) > 0 ==>
      |sep| <= LastStart(s, sep) && OccursAt(s, sep, LastStart(s, sep) - |sep|)
    ensures LastPiece(s, sep) == s <==> Free(s, sep)
  {
    LastPieceFrom(s, sep, 0);
    LastStartAtStart(s, sep, 0);
    LastStartAfterSeparator(s, sep, 0);
    LastStartNoneAfter(s, sep, 0);
    SuffixAfterSeparator(s, sep, LastStart(s, sep));
  }

  /**
   * When no earlier occurrence of `sep` overlaps the last one, at `i`,
   * `s.split(sep)[-1]` is the text after that last occurrence.
   */
  lemma LastPieceAfterLastOccurrence(s: string, sep: string, i: nat)
    requires sep != [] && OccursAt(s, sep, i) && NoneIn(s, sep, i + 1, |s| + 1)
    requires forall j :: 0 <= j < i && OccursAt(s, sep, j) ==> j + |sep| <= i
    ensures LastPiece(s, sep) == s[i + |sep|..]
  {
    LastPieceIsSuffixAfterSeparator(s, sep);
    LastStartAtStart(s, sep, 0);
    LastStartNoneAfter(s, sep, 0);
    var k := LastStart(s, sep);
    assert i < k;
    assert OccursAt(s, sep, k - |sep|);
    assert k - |sep| == i;
  }

  /**
   * A suffix `s[k..]` in which no separator starts, beginning at 0 exactly when
   * `s` has no separator and otherwise just after one, is separator-free and
   * is all of `s` exactly when `s` is.
   */
  lemma SuffixAfterSeparator(s: string, sep: string, k: nat)
    requires sep != [] && k <= |s| && NoneIn(s, sep, k, |s| + 1)
    requires k == 0 <==> NoneIn(s, sep, 0, |s| + 1)
    requires k > 0 ==> |sep| <= k && OccursAt(s, sep, k - |sep|)
    ensures Free(s[k..], sep)
    ensures s[k..] == s <==> Free(s, sep)
  {
    PieceFree(s, sep, k, |s|);
    assert s[k..|s|] == s[k..];
    if k == 0 {
      assert s[k..] == s;
    } else {
      assert |s[k..]| < |s|;
      assert !Free(s, sep) by { assert OccursAt(s, sep, k - |sep|); }
    }
  }

  /**
   * Python's `<` on strings: lexicographic by code point, a proper prefix
   * being smaller. (Dafny's own `<` on sequences means "proper prefix".)
   */
  predicate StrLess(a: string, b: string)
    ensures |a| < |b| && a == b[..|a|] ==> StrLess(a, b)
  {
    if a == [] then b != []
    else if b == [] then false
    else if a[0] != b[0] then a[0] < b[0]
    else StrLess(a[1..], b[1..])
  }

  lemma {:induction false} StrLessIrreflexive(a: string)
    ensures !StrLess(a, a)
  {
    if a != [] { StrLessIrreflexive(a[1..]); }
  }

  lemma {:induction false} StrLessTransitive(a: string, b: string, c: string)
    requires StrLess(a, b) && StrLess(b, c)
    ensures StrLess(a, c)
  {
    if a != [] && b != [] && c != [] && a[0] == b[0] == c[0] {
      StrLessTransitive(a[1..], b[1..], c[1..]);
    }
  }

  lemma {:induction false} StrLessTotal(a: string, b: string)
    requires a != b
    ensures StrLess(a, b) || StrLess(b, a)
  {
    if a != [] && b != [] && a[0] == b[0] {
      assert a == [a[0]] + a[1..] && b == [b[0]] + b[1..];
      StrLessTotal(a[1..], b[1..]);
    }
  }

  lemma StrLessAsymmetric(a: string, b: string)
    requires StrLess(a, b)
    ensures !StrLess(b, a)
  {
    if StrLess(b, a) {
      StrLessTransitive(a, b, a);
      StrLessIrreflexive(a);
    }
  }

  predicate StrictlySorted(xs: seq<string>) {
    forall i, j :: 0 <= i < j < |xs| ==> StrLess(xs[i], xs[j])
  }

  /** Inserts `x` into a strictly sorted list unless it is already there. */
  function Insert(x: string, xs: seq<string>): (r: seq<string>)
    requires StrictlySorted(xs)
    ensures StrictlySorted(r)
    ensures forall y :: y in r <==> y == x || y in xs
    decreases |xs|
  {
    if xs == [] then [x]
    else if x == xs[0] then xs
    else if StrLess(x, xs[0]) then
      assert forall j :: 0 < j < |xs| ==> StrLess(x, xs[j]) by {
        forall j | 0 < j < |xs| ensures StrLess(x, xs[j]) {
          StrLessTransitive(x, xs[0], xs[j]);
        }
      }
      [x] + xs
    else
      StrLessTotal(x, xs[0]);
      var tail := Insert(x, xs[1..]);
      assert forall y :: y in tail ==> StrLess(xs[0], y) by {
        forall y | y in tail ensures StrLess(xs[0], y) {
          if y != x {
            var j :| 0 <= j < |xs[1..]| && xs[1..][j] == y;
            assert xs[j + 1] == y;
          }
        }
      }
      [xs[0]] + tail
  }

  /**
   * `sorted(set(xs))`: the distinct strings of `xs` in strictly increasing
   * order, so each occurs once and nothing else occurs.
   */
  function SortedDistinct(xs: seq<string>): (r: seq<string>)
    ensures StrictlySorted(r)
    ensures forall y :: y in r <==> y in xs
  {
    if xs == [] then []
    else
      var r := Insert(xs[0], SortedDistinct(xs[1..]));
      assert forall y :: y in xs <==> y == xs[0] || y in xs[1..] by {
        assert xs == [xs[0]] + xs[1..];
      }
      r
  }

  /** A strictly sorted list has no duplicates. */
  lemma StrictlySortedDistinct(xs: seq<string>, i: nat, j: nat)
    requires StrictlySorted(xs) && i < j < |xs|
    ensures xs[i] != xs[j]
  {
    StrLessIrreflexive(xs[i]);
  }

  /** The head of a strictly sorted list is below every other element. */
  lemma HeadIsLeast(xs: seq<string>, y: string)
    requires StrictlySorted(xs) && y in xs
    ensures y == xs[0] || StrLess(xs[0], y)
  {
  }

  lemma HeadIn(xs: seq<string>)
    requires xs != []
    ensures xs[0] in xs
  {
  }

  /** Two strictly sorted lists with the same elements are equal: the sorted options are unique. */
  lemma {:induction false} StrictlySortedUnique(a: seq<string>, b: seq<string>)
    requires StrictlySorted(a) && StrictlySorted(b)
    requires forall y :: y in a <==> y in b
    ensures a == b
    decreases |a|
  {
    if a != [] && b != [] {
      assert a[0] in a && b[0] in b;
      HeadIsLeast(b, a[0]);
      HeadIsLeast(a, b[0]);
      if a[0] != b[0] {
        StrLessAsymmetric(a[0], b[0]);
      }
      forall y ensures y in a[1..] <==> y in b[1..] {
        if y in a[1..] {
          var j :| 0 <= j < |a[1..]| && a[1..][j] == y;
          StrictlySortedDistinct(a, 0, j + 1);
          assert y in b && y != b[0];
          assert b == [b[0]] + b[1..];
        }
        if y in b[1..] {
          var j :| 0 <= j < |b[1..]| && b[1..][j] == y;
          StrictlySortedDistinct(b, 0, j + 1);
          assert y in a && y != a[0];
          assert a == [a[0]] + a[1..];
        }
      }
      StrictlySortedUnique(a[1..], b[1..]);
      assert a == [a[0]] + a[1..] && b == [b[0]] + b[1..];
    } else if a != [] {
      HeadIn(a);
      assert false;
    } else if b != [] {
      HeadIn(b);
      assert false;
    }
  }
}
