/**
 * Literal string search, `String.prototype.split` with a non-empty string
 * separator, and `Array.prototype.join`, as the chat protocol uses them to cut
 * a note into lines and into turns.
 *
 * Everything is stated by positions in one fixed text, so that `split` walks
 * forward through `s` the way the ECMAScript algorithm does.
 */
module Text {
  import opened Wrappers

  /** `sep` occurs in `s` starting at index `i`. */
  predicate OccursAt(s: string, sep: string, i: nat) {
    i + |sep| <= |s| && forall k :: 0 <= k < |sep| ==> s[i + k] == sep[k]
  }

  /**
   * `s.indexOf(sep, from)`: the leftmost occurrence of `sep` in `s` at or after
   * `from`, or `None`. That it is the leftmost is `IndexOfLeftmost`.
   */
  function IndexOf(s: string, sep: string, from: nat): (r: Option<nat>)
    requires |sep| > 0
    ensures r.Some? ==> from <= r.value && r.value + |sep| <= |s|
    decreases |s| - from
  {
    if |s| < from + |sep| then None
    else if OccursAt(s, sep, from) then Some(from)
    else IndexOf(s, sep, from + 1)
  }

  /** `IndexOf` finds an occurrence and none lies between `from` and it; `None` means none at all. */
  lemma {:induction false} IndexOfLeftmost(s: string, sep: string, from: nat)
    requires |sep| > 0
    ensures var r := IndexOf(s, sep, from);
            && (r.Some? ==> OccursAt(s, sep, r.value))
            && (r.Some? ==> forall j: nat :: from <= j < r.value ==> !OccursAt(s, sep, j))
            && (r.None? ==> forall j: nat :: from <= j ==> !OccursAt(s, sep, j))
    decreases |s| - from
  {
    if from + |sep| <= |s| && !OccursAt(s, sep, from) {
      IndexOfLeftmost(s, sep, from + 1);
    }
  }

  /** An occurrence with none between `from` and it is the one `IndexOf` finds. */
  lemma IndexOfUnique(s: string, sep: string, from: nat, i: nat)
    requires |sep| > 0 && from <= i && OccursAt(s, sep, i)
    requires forall j: nat :: from <= j < i ==> !OccursAt(s, sep, j)
    ensures IndexOf(s, sep, from) == Some(i)
  {
    IndexOfLeftmost(s, sep, from);
  }

  /**
   * The pieces of `s[from..]` between the leftmost non-overlapping
   * occurrences of `sep`, in order.
   */
  function SplitFrom(s: string, sep: string, from: nat): (parts: seq<string>)
    requires |sep| > 0 && from <= |s|
    ensures |parts| >= 1
    decreases |s| - from
  {
    match IndexOf(s, sep, from)
    case None => [s[from..]]
    case Some(i) => [s[from..i]] + SplitFrom(s, sep, i + |sep|)
  }

  /** `s.split(sep)` for a non-empty string separator. */
  function Split(s: string, sep: string): (parts: seq<string>)
    requires |sep| > 0
    ensures |parts| >= 1
  {
    SplitFrom(s, sep, 0)
  }

  /** `parts.join(sep)`; the empty array joins to the empty string. */
  function Join(parts: seq<string>, sep: string): string
  {
    if |parts| == 0 then ""
    else if |parts| == 1 then parts[0]
    else parts[0] + sep + Join(parts[1..], sep)
  }

  /** Joining the pieces of a split with the same separator gives back the text. */
  lemma {:induction false} JoinSplitFrom(s: string, sep: string, from: nat)
    requires |sep| > 0 && from <= |s|
    ensures Join(SplitFrom(s, sep, from), sep) == s[from..]
    decreases |s| - from
  {
    match IndexOf(s, sep, from)
    case None =>
    case Some(i) =>
      IndexOfLeftmost(s, sep, from);
      JoinSplitFrom(s, sep, i + |sep|);
      assert s[from..] == s[from..i] + sep + s[i + |sep|..];
  }

  lemma JoinSplit(s: string, sep: string)
    requires |sep| > 0
    ensures Join(Split(s, sep), sep) == s
  {
    JoinSplitFrom(s, sep, 0);
  }

  /** No piece of a split contains the separator. */
  lemma {:induction false} SplitFromPiecesAreFree(s: string, sep: string, from: nat)
    requires |sep| > 0 && from <= |s|
    ensures forall k: nat, j: nat :: k < |SplitFrom(s, sep, from)| ==> !OccursAt(SplitFrom(s, sep, from)[k], sep, j)
    decreases |s| - from
  {
    IndexOfLeftmost(s, sep, from);
    match IndexOf(s, sep, from)
    case None =>
      assert s[from..] == s[from..|s|];
      forall j: nat ensures !OccursAt(s[from..], sep, j) {
        OccursAtSlice(s, from, |s|, sep, j);
      }
    case Some(i) =>
      SplitFromPiecesAreFree(s, sep, i + |sep|);
      forall j: nat ensures !OccursAt(s[from..i], sep, j) {
        OccursAtSlice(s, from, i, sep, j);
      }
  }

  lemma SplitPiecesAreFree(s: string, sep: string)
    requires |sep| > 0
    ensures forall k: nat, j: nat :: k < |Split(s, sep)| ==> !OccursAt(Split(s, sep)[k], sep, j)
  {
    SplitFromPiecesAreFree(s, sep, 0);
  }

  /** An occurrence inside the slice `s[lo..hi]` is an occurrence in `s`, shifted by `lo`. */
  lemma OccursAtSlice(s: string, lo: nat, hi: nat, sep: string, j: nat)
    requires lo <= hi <= |s|
    ensures OccursAt(s[lo..hi], sep, j) ==> OccursAt(s, sep, lo + j)
  {
    if OccursAt(s[lo..hi], sep, j) {
      forall k | 0 <= k < |sep| ensures s[lo + j..lo + j + |sep|][k] == sep[k] {
        assert s[lo..hi][j..j + |sep|][k] == sep[k];
      }
    }
  }

  /** The number of positions at or after `from` at which `sep` occurs, overlapping ones included. */
  function CountFrom(s: string, sep: string, from: nat): nat
    decreases |s| - from
  {
    if |s| <= from then 0
    else (if OccursAt(s, sep, from) then 1 else 0) + CountFrom(s, sep, from + 1)
  }

  /** The number of positions at which `sep` occurs in `s`. */
  function Count(s: string, sep: string): nat {
    CountFrom(s, sep, 0)
  }

  /** No proper suffix of `sep` is also a prefix of it, so two occurrences never overlap. */
  predicate OverlapFree(sep: string) {
    forall d: nat :: 0 < d < |sep| ==> sep[d..] != sep[..|sep| - d]
  }

  lemma NoOverlap(s: string, sep: string, i: nat, d: nat)
    requires OverlapFree(sep) && OccursAt(s, sep, i) && 0 < d < |sep|
    ensures !OccursAt(s, sep, i + d)
  {
    if i + d + |sep| <= |s| {
      assert s[i + d..i + |sep|] == sep[d..];
      assert s[i + d..i + |sep|] == s[i + d..i + d + |sep|][..|sep| - d];
    }
  }

  /** Positions where `sep` does not occur contribute nothing to the count. */
  lemma {:induction false} CountSkip(s: string, sep: string, from: nat, to: nat)
    requires from <= to
    requires forall p: nat :: from <= p < to ==> !OccursAt(s, sep, p)
    ensures CountFrom(s, sep, from) == CountFrom(s, sep, to)
    decreases (to as int) - (from as int)
  {
    if from < to && from < |s| {
      CountSkip(s, sep, from + 1, to);
    } else if from < to {
      CountBeyond(s, sep, from);
      CountBeyond(s, sep, to);
    }
  }

  lemma CountBeyond(s: string, sep: string, from: nat)
    requires |s| <= from
    ensures CountFrom(s, sep, from) == 0
  {
  }

  /**
   * For a separator whose occurrences cannot overlap, a split yields one piece
   * more than there are occurrences of the separator.
   */
  lemma {:induction false} SplitFromCount(s: string, sep: string, from: nat)
    requires |sep| > 0 && OverlapFree(sep) && from <= |s|
    ensures |SplitFrom(s, sep, from)| == CountFrom(s, sep, from) + 1
    decreases |s| - from
  {
    IndexOfLeftmost(s, sep, from);
    match IndexOf(s, sep, from)
    case None =>
      CountSkip(s, sep, from, |s|);
      CountBeyond(s, sep, |s|);
    case Some(i) =>
      SplitFromCount(s, sep, i + |sep|);
      SplitFromCountStep(s, sep, from, i);
  }

  lemma SplitFromCountStep(s: string, sep: string, from: nat, i: nat)
    requires |sep| > 0 && OverlapFree(sep) && from <= |s| && IndexOf(s, sep, from) == Some(i)
    requires |SplitFrom(s, sep, i + |sep|)| == CountFrom(s, sep, i + |sep|) + 1
    ensures |SplitFrom(s, sep, from)| == CountFrom(s, sep, from) + 1
  {
    SplitFromAt(s, sep, from, i);
    CountFromAt(s, sep, from, i);
  }

  /** The occurrence `IndexOf` finds is counted once, and nothing else before its end is. */
  lemma CountFromAt(s: string, sep: string, from: nat, i: nat)
    requires |sep| > 0 && OverlapFree(sep) && IndexOf(s, sep, from) == Some(i)
    ensures CountFrom(s, sep, from) == CountFrom(s, sep, i + |sep|) + 1
  {
    IndexOfLeftmost(s, sep, from);
    CountSkip(s, sep, from, i);
    assert CountFrom(s, sep, i) == 1 + CountFrom(s, sep, i + 1);
    forall p: nat | i + 1 <= p < i + |sep| ensures !OccursAt(s, sep, p) {
      NoOverlap(s, sep, i, p - i);
    }
    CountSkip(s, sep, i + 1, i + |sep|);
  }

  lemma SplitCount(s: string, sep: string)
    requires |sep| > 0 && OverlapFree(sep)
    ensures |Split(s, sep)| == Count(s, sep) + 1
  {
    SplitFromCount(s, sep, 0);
  }

  /** Where the `k`-th piece of `SplitFrom(s, sep, from)` starts in `s`. */
  function PieceStart(s: string, sep: string, from: nat, k: nat): (p: nat)
    requires |sep| > 0 && from <= |s|
    ensures from <= p <= |s|
    decreases |s| - from
  {
    if k == 0 then from
    else match IndexOf(s, sep, from)
      case None => |s|
      case Some(i) => PieceStart(s, sep, i + |sep|, k - 1)
  }

  /**
   * Dropping the first `k` pieces of a split leaves the split from where the
   * `k`-th piece starts; for `k > 0` that is right after an occurrence of `sep`.
   */
  lemma {:induction false} SplitFromSuffix(s: string, sep: string, from: nat, k: nat, p: nat)
    requires |sep| > 0 && from <= |s| && k < |SplitFrom(s, sep, from)|
    requires p == PieceStart(s, sep, from, k)
    ensures SplitFrom(s, sep, p) == SplitFrom(s, sep, from)[k..]
    ensures k > 0 ==> p >= |sep| && OccursAt(s, sep, p - |sep|)
    decreases |s| - from
  {
    var parts := SplitFrom(s, sep, from);
    if k == 0 {
      assert parts[0..] == parts;
    } else {
      match IndexOf(s, sep, from)
      case None =>
        assert false;
      case Some(i) =>
        var next := i + |sep|;
        SplitFromAt(s, sep, from, i);
        SplitFromSuffix(s, sep, next, k - 1, p);
        SplitFromSuffixStep(s, sep, from, k, p, i);
    }
  }

  lemma SplitFromSuffixStep(s: string, sep: string, from: nat, k: nat, p: nat, i: nat)
    requires |sep| > 0 && from <= |s| && 0 < k < |SplitFrom(s, sep, from)|
    requires IndexOf(s, sep, from) == Some(i) && p == PieceStart(s, sep, i + |sep|, k - 1)
    requires SplitFrom(s, sep, p) == SplitFrom(s, sep, i + |sep|)[k - 1..]
    requires k > 1 ==> p >= |sep| && OccursAt(s, sep, p - |sep|)
    ensures SplitFrom(s, sep, p) == SplitFrom(s, sep, from)[k..]
    ensures p >= |sep| && OccursAt(s, sep, p - |sep|)
  {
    SplitFromAt(s, sep, from, i);
    DropCons(s[from..i], SplitFrom(s, sep, i + |sep|), k);
    if k == 1 {
      IndexOfLeftmost(s, sep, from);
      assert p - |sep| == i;
    }
  }

  /** One step of `SplitFrom` past the occurrence `IndexOf` finds at `i`. */
  lemma SplitFromAt(s: string, sep: string, from: nat, i: nat)
    requires |sep| > 0 && from <= |s| && IndexOf(s, sep, from) == Some(i)
    ensures SplitFrom(s, sep, from) == [s[from..i]] + SplitFrom(s, sep, i + |sep|)
  {
  }

  /** `SplitFrom` when no occurrence is left. */
  lemma SplitFromNone(s: string, sep: string, from: nat)
    requires |sep| > 0 && from <= |s| && IndexOf(s, sep, from).None?
    ensures SplitFrom(s, sep, from) == [s[from..]]
  {
  }

  lemma DropCons<T>(a: T, t: seq<T>, k: nat)
    requires 0 < k <= |t| + 1
    ensures ([a] + t)[k..] == t[k - 1..]
  {
  }

  /** Occurrences in `y` are occurrences in `x + y`, shifted by `|x|`. */
  lemma OccursAtShift(s: string, n: nat, sep: string, j: nat)
    requires n <= |s|
    ensures OccursAt(s, sep, n + j) <==> OccursAt(s[n..], sep, j)
  {
  }

  /** Occurrences that end inside `x` are the same in `x` and in `x + y`. */
  lemma OccursAtConcat(x: string, y: string, sep: string, j: nat)
    requires j + |sep| <= |x|
    ensures OccursAt(x + y, sep, j) <==> OccursAt(x, sep, j)
  {
    assert (x + y)[j..j + |sep|] == x[j..j + |sep|];
  }

  /** Searching `s` from `n + j` is searching `s[n..]` from `j`. */
  lemma {:induction false} IndexOfShift(s: string, n: nat, sep: string, j: nat)
    requires |sep| > 0 && n <= |s|
    ensures IndexOf(s[n..], sep, j).None? ==> IndexOf(s, sep, n + j).None?
    ensures IndexOf(s[n..], sep, j).Some? ==> IndexOf(s, sep, n + j) == Some(n + IndexOf(s[n..], sep, j).value)
    decreases |s| - n - j
  {
    OccursAtShift(s, n, sep, j);
    if j + |sep| <= |s| - n && !OccursAt(s[n..], sep, j) {
      IndexOfShift(s, n, sep, j + 1);
    }
  }

  /** Splitting `s` from `at == n + j` is splitting `s[n..]` from `j`. */
  lemma {:induction false} SplitFromShift(s: string, n: nat, sep: string, j: nat, at: nat)
    requires |sep| > 0 && n <= |s| && j <= |s| - n && at == n + j
    ensures SplitFrom(s, sep, at) == SplitFrom(s[n..], sep, j)
    decreases |s| - at
  {
    IndexOfShift(s, n, sep, j);
    match IndexOf(s[n..], sep, j)
    case None =>
      SplitFromShiftLast(s, n, sep, j, at);
    case Some(i) =>
      var m := i + |sep|;
      var k := n + m;
      SplitFromShift(s, n, sep, m, k);
      SplitFromShiftStep(s, n, sep, j, at, i, m, k);
  }

  lemma SplitFromShiftLast(s: string, n: nat, sep: string, j: nat, at: nat)
    requires |sep| > 0 && n <= |s| && j <= |s| - n && at == n + j
    requires IndexOf(s[n..], sep, j).None? && IndexOf(s, sep, at).None?
    ensures SplitFrom(s, sep, at) == SplitFrom(s[n..], sep, j)
  {
    var t := s[n..];
    SplitFromNone(s, sep, at);
    SplitFromNone(t, sep, j);
    var piece := s[at..];
    assert piece == t[j..];
  }

  lemma SplitFromShiftStep(s: string, n: nat, sep: string, j: nat, at: nat, i: nat, m: nat, k: nat)
    requires |sep| > 0 && n <= |s| && j <= |s| - n && at == n + j
    requires IndexOf(s[n..], sep, j) == Some(i) && IndexOf(s, sep, at) == Some(n + i)
    requires m == i + |sep| && k == n + m
    requires SplitFrom(s, sep, k) == SplitFrom(s[n..], sep, m)
    ensures SplitFrom(s, sep, at) == SplitFrom(s[n..], sep, j)
  {
    var t := s[n..];
    SliceShift(s, n, j, i);
    SplitFromPiece(s, t[j..i], SplitFrom(t, sep, m), sep, at, n + i);
    SplitFromAt(t, sep, j, i);
  }

  lemma SliceShift(s: string, n: nat, j: nat, i: nat)
    requires n <= |s| && j <= i <= |s| - n
    ensures s[n + j..n + i] == s[n..][j..i]
  {
  }

  /**
   * Dropping the first `k` pieces of `Split(s, sep)` leaves the split of a
   * suffix of `s`, which for `k > 0` starts right after an occurrence of `sep`.
   */
  lemma SplitSuffix(s: string, sep: string, k: nat, p: nat)
    requires |sep| > 0 && k < |Split(s, sep)| && p == PieceStart(s, sep, 0, k)
    ensures Split(s[p..], sep) == Split(s, sep)[k..]
    ensures k > 0 ==> p >= |sep| && s[p - |sep|..p] == sep
  {
    SplitFromSuffix(s, sep, 0, k, p);
    SplitFromShift(s, p, sep, 0, p);
  }

  /** Joining the pieces from the `k`-th on gives the suffix of `s` where that piece starts. */
  lemma JoinSuffix(s: string, sep: string, k: nat, p: nat)
    requires |sep| > 0 && k < |Split(s, sep)| && p == PieceStart(s, sep, 0, k)
    ensures Join(Split(s, sep)[k..], sep) == s[p..]
  {
    SplitSuffix(s, sep, k, p);
    var rest := s[p..];
    JoinSplit(rest, sep);
  }

  /** No occurrence of `sep` in `a + sep` starts inside `a` and ends inside `sep`. */
  ghost predicate NoStraddle(a: string, sep: string) {
    forall j: nat :: j < |a| < j + |sep| ==> !OccursAt(a + sep, sep, j)
  }

  /**
   * From a position inside `a`, the first occurrence in `a + sep + b` is the
   * first one in `a`, or else the `sep` that follows `a`.
   */
  lemma ConcatIndexOf(a: string, b: string, sep: string, from: nat)
    requires |sep| > 0 && from <= |a| && NoStraddle(a, sep)
    ensures IndexOf(a + sep + b, sep, from) ==
            if IndexOf(a, sep, from).Some? then IndexOf(a, sep, from) else Some(|a|)
  {
    var s := a + sep + b;
    IndexOfLeftmost(a, sep, from);
    forall j: nat | j + |sep| <= |a|
      ensures OccursAt(s, sep, j) <==> OccursAt(a, sep, j)
    {
      assert s == a + (sep + b);
      OccursAtConcat(a, sep + b, sep, j);
    }
    forall j: nat | j < |a| < j + |sep|
      ensures !OccursAt(s, sep, j)
    {
      assert s == (a + sep) + b;
      OccursAtConcat(a + sep, b, sep, j);
    }
    match IndexOf(a, sep, from)
    case None =>
      assert s[|a|..|a| + |sep|] == sep;
      IndexOfUnique(s, sep, from, |a|);
    case Some(i) =>
      IndexOfUnique(s, sep, from, i);
  }

  /**
   * Splitting `a + sep + b` splits `a` and `b` separately, provided no
   * occurrence of `sep` straddles the end of `a`.
   */
  lemma {:induction false} SplitFromConcat(a: string, b: string, sep: string, from: nat)
    requires |sep| > 0 && from <= |a| && NoStraddle(a, sep)
    ensures SplitFrom(a + sep + b, sep, from) == SplitFrom(a, sep, from) + Split(b, sep)
    decreases |a| - from
  {
    ConcatIndexOf(a, b, sep, from);
    match IndexOf(a, sep, from)
    case None =>
      SplitFromConcatLast(a, b, sep, from);
    case Some(i) =>
      SplitFromConcat(a, b, sep, i + |sep|);
      SplitFromConcatStep(a, b, sep, from, i);
  }

  /** The last piece of `a` ends at the `sep` that follows `a`. */
  lemma SplitFromConcatLast(a: string, b: string, sep: string, from: nat)
    requires |sep| > 0 && from <= |a| && IndexOf(a, sep, from).None?
    requires IndexOf(a + sep + b, sep, from) == Some(|a|)
    ensures SplitFrom(a + sep + b, sep, from) == SplitFrom(a, sep, from) + Split(b, sep)
  {
    var s := a + sep + b;
    var end := |a|;
    SliceLeft(a, sep, b, from, end);
    SplitFromRest(a + sep, b, sep, end + |sep|);
    SplitFromNone(a, sep, from);
    SplitFromPiece(s, a[from..], Split(b, sep), sep, from, end);
  }

  /** A split whose first occurrence is at `end` is the piece before it and the split after it. */
  lemma SplitFromPiece(s: string, piece: string, rest: seq<string>, sep: string, from: nat, end: nat)
    requires |sep| > 0 && from <= end && end + |sep| <= |s| && IndexOf(s, sep, from) == Some(end)
    requires s[from..end] == piece && SplitFrom(s, sep, end + |sep|) == rest
    ensures SplitFrom(s, sep, from) == [piece] + rest
  {
    SplitFromAt(s, sep, from, end);
  }

  lemma SliceLeft(a: string, sep: string, b: string, from: nat, end: nat)
    requires from <= end == |a|
    ensures (a + sep + b)[from..end] == a[from..]
  {
  }

  /** Splitting `x + y` from the end of `x` is splitting `y`. */
  lemma SplitFromRest(x: string, y: string, sep: string, at: nat)
    requires |sep| > 0 && at == |x|
    ensures SplitFrom(x + y, sep, at) == Split(y, sep)
  {
    assert (x + y)[at..] == y;
    SplitFromShift(x + y, at, sep, 0, at);
  }

  /** One piece of `a` ahead of the rest. */
  lemma SplitFromConcatStep(a: string, b: string, sep: string, from: nat, i: nat)
    requires |sep| > 0 && from <= |a| && IndexOf(a, sep, from) == Some(i)
    requires IndexOf(a + sep + b, sep, from) == Some(i)
    requires SplitFrom(a + sep + b, sep, i + |sep|) == SplitFrom(a, sep, i + |sep|) + Split(b, sep)
    ensures SplitFrom(a + sep + b, sep, from) == SplitFrom(a, sep, from) + Split(b, sep)
  {
    var s := a + sep + b;
    SplitFromAt(s, sep, from, i);
    SplitFromAt(a, sep, from, i);
    assert s[from..i] == a[from..i];
    AppendAssoc([a[from..i]], SplitFrom(a, sep, i + |sep|), Split(b, sep));
  }

  lemma AppendAssoc<T>(x: seq<T>, y: seq<T>, z: seq<T>)
    ensures x + (y + z) == (x + y) + z
  {
  }

  lemma SplitConcat(a: string, b: string, sep: string)
    requires |sep| > 0 && NoStraddle(a, sep)
    ensures Split(a + sep + b, sep) == Split(a, sep) + Split(b, sep)
  {
    SplitFromConcat(a, b, sep, 0);
  }

  /** `sep` occurs nowhere in `s`. */
  ghost predicate Free(s: string, sep: string) {
    forall j: nat :: !OccursAt(s, sep, j)
  }

  /** A text free of the separator splits into itself alone. */
  lemma SplitFree(s: string, sep: string)
    requires |sep| > 0 && Free(s, sep)
    ensures Split(s, sep) == [s]
  {
    IndexOfLeftmost(s, sep, 0);
    assert s[0..] == s;
  }
}
