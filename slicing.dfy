// Rust's `str::split` on a string pattern, and the two helpers built on it:
// `slice_beginning_of_string` (the first piece) and `slice_end_of_string`
// (the last piece).

module Slicing {

  datatype Option<T> = None | Some(value: T)

  /** `d` occurs in `s` starting at index `i`. */
  predicate OccursAt(s: string, d: string, i: nat) {
    i + |d| <= |s| && s[i..i + |d|] == d
  }

  /** `d` occurs nowhere in `s`. */
  predicate Absent(s: string, d: string) {
    forall j: nat :: j <= |s| ==> !OccursAt(s, d, j)
  }

  /** The first index at or after `i` where `d` occurs in `s`. */
  function FindFrom(s: string, d: string, i: nat): (r: Option<nat>)
    requires i <= |s|
    ensures r.Some? ==> i <= r.value && OccursAt(s, d, r.value)
    ensures r.Some? ==> forall j: nat :: i <= j < r.value ==> !OccursAt(s, d, j)
    ensures r.None? ==> forall j: nat :: i <= j ==> !OccursAt(s, d, j)
    decreases |s| - i
  {
    if OccursAt(s, d, i) then Some(i)
    else if i == |s| then None
    else FindFrom(s, d, i + 1)
  }

  /**
   * The pieces of `s.split(d)` for a non-empty `d`, from index `i` on: the
   * text up to the next occurrence of `d`, then the pieces after it. The
   * scan moves left to right over `s`, so occurrences do not overlap.
   */
  function SplitFrom(s: string, d: string, i: nat): (parts: seq<string>)
    requires |d| > 0 && i <= |s|
    ensures |parts| >= 1
    decreases |s| - i
  {
    var r := FindFrom(s, d, i);
    if r.None? then [s[i..]] else [s[i..r.value]] + SplitFrom(s, d, r.value + |d|)
  }

  /** `s.split(d)` for a non-empty `d`. There is always at least one piece. */
  function Split(s: string, d: string): (parts: seq<string>)
    requires |d| > 0
    ensures |parts| >= 1
  {
    SplitFrom(s, d, 0)
  }

  /** An occurrence inside a slice of `s` is an occurrence in `s`, shifted by where the slice starts. */
  lemma OccursInSlice(s: string, d: string, a: nat, b: nat, j: nat)
    requires a <= b <= |s|
    ensures OccursAt(s[a..b], d, j) ==> OccursAt(s, d, a + j)
  {
    if j + |d| <= b - a {
      var inSlice, inWhole := s[a..b][j..j + |d|], s[a + j..a + j + |d|];
      forall t | 0 <= t < |d| ensures inSlice[t] == inWhole[t] {
        assert s[a..b][j + t] == s[a + j + t];
      }
      assert inSlice == inWhole;
    }
  }

  /**
   * `s.split("")`: an empty piece, then every character on its own, then an
   * empty piece.
   */
  function SplitEmpty(s: string): (parts: seq<string>)
    ensures |parts| == |s| + 2 && parts[0] == [] && parts[|parts| - 1] == []
    ensures forall i :: 0 <= i < |s| ==> parts[i + 1] == [s[i]]
  {
    [[]] + seq(|s|, i requires 0 <= i < |s| => [s[i]]) + [[]]
  }

  function SplitBy(s: string, d: string): (parts: seq<string>)
    ensures |parts| >= 1
  {
    if d == [] then SplitEmpty(s) else Split(s, d)
  }

  /** The pieces glued back together with `d` between them. */
  function Join(parts: seq<string>, d: string): string {
    if parts == [] then []
    else if |parts| == 1 then parts[0]
    else parts[0] + d + Join(parts[1..], d)
  }

  /** Joining the pieces of a split with the same delimiter gives back the text split. */
  lemma {:induction false} JoinSplitFrom(s: string, d: string, i: nat)
    requires |d| > 0 && i <= |s|
    ensures Join(SplitFrom(s, d, i), d) == s[i..]
    decreases |s| - i
  {
    var r := FindFrom(s, d, i);
    if r.Some? {
      var k := r.value;
      var tail := SplitFrom(s, d, k + |d|);
      JoinSplitFrom(s, d, k + |d|);
      assert ([s[i..k]] + tail)[1..] == tail;
      assert s[i..] == s[i..k] + s[k..k + |d|] + s[k + |d|..];
    }
  }

  lemma JoinSplit(s: string, d: string)
    requires |d| > 0
    ensures Join(Split(s, d), d) == s
  {
    JoinSplitFrom(s, d, 0);
    assert s[0..] == s;
  }

  /** A slice of `s` that no occurrence of `d` starts in does not contain `d`. */
  lemma SliceAvoids(s: string, d: string, i: nat, b: nat)
    requires i <= b <= |s| && |d| > 0
    requires forall j: nat :: i <= j < b ==> !OccursAt(s, d, j)
    ensures Absent(s[i..b], d)
  {
    forall j: nat | j <= |s[i..b]| ensures !OccursAt(s[i..b], d, j) {
      OccursInSlice(s, d, i, b, j);
    }
  }

  /** No piece contains `d`. */
  predicate PiecesAvoid(parts: seq<string>, d: string) {
    forall m :: 0 <= m < |parts| ==> Absent(parts[m], d)
  }

  /** No piece of a split contains the delimiter. */
  lemma {:induction false} SplitPiecesAvoidDelimiter(s: string, d: string, i: nat)
    requires |d| > 0 && i <= |s|
    ensures PiecesAvoid(SplitFrom(s, d, i), d)
    decreases |s| - i
  {
    var r := FindFrom(s, d, i);
    var parts := SplitFrom(s, d, i);
    if r.None? {
      SliceAvoids(s, d, i, |s|);
      assert parts[0] == s[i..|s|];
    } else {
      var k := r.value;
      SplitPiecesAvoidDelimiter(s, d, k + |d|);
      SliceAvoids(s, d, i, k);
      var tail := SplitFrom(s, d, k + |d|);
      assert parts[0] == s[i..k];
      assert parts == [s[i..k]] + tail;
      forall m | 1 <= m < |parts| ensures Absent(parts[m], d) {
        assert Absent(tail[m - 1], d);
        assert parts[m] == tail[m - 1];
      }
    }
  }

  /**
   * Where the last piece of a split from `i` starts: just past the last
   * occurrence the left-to-right scan finds, or `i` when there is none.
   */
  function LastStart(s: string, d: string, i: nat): (n: nat)
    requires |d| > 0 && i <= |s|
    ensures i <= n <= |s|
    decreases |s| - i
  {
    var r := FindFrom(s, d, i);
    if r.None? then i else LastStart(s, d, r.value + |d|)
  }

  /** When the scan finds `d`, the last piece starts right after an occurrence of `d`. */
  lemma {:induction false} LastStartAfterDelimiter(s: string, d: string, i: nat)
    requires |d| > 0 && i <= |s| && FindFrom(s, d, i).Some?
    ensures i + |d| <= LastStart(s, d, i) && OccursAt(s, d, LastStart(s, d, i) - |d|)
    decreases |s| - i
  {
    var k := FindFrom(s, d, i).value;
    var m := k + |d|;
    assert LastStart(s, d, i) == LastStart(s, d, m);
    if FindFrom(s, d, m).None? {
      assert LastStart(s, d, m) == m;
      assert LastStart(s, d, i) - |d| == k;
    } else {
      LastStartAfterDelimiter(s, d, m);
    }
  }

  /** The last piece of a split is the suffix of `s` from `LastStart` on. */
  lemma {:induction false} LastPieceOfSplit(s: string, d: string, i: nat)
    requires |d| > 0 && i <= |s|
    ensures var parts := SplitFrom(s, d, i); parts[|parts| - 1] == s[LastStart(s, d, i)..]
    decreases |s| - i
  {
    var r := FindFrom(s, d, i);
    if r.Some? {
      var m := r.value + |d|;
      LastPieceOfSplit(s, d, m);
      var tail := SplitFrom(s, d, m);
      var parts := SplitFrom(s, d, i);
      assert parts[|parts| - 1] == tail[|tail| - 1];
    }
  }

  /**
   * `slice_beginning_of_string`: splits `s` on `d`, reverses the pieces and
   * pops the last one, which is the first piece.
   */
  function SliceBeginningOfString(s: string, d: string): (r: string)
    ensures d == [] ==> r == []
    ensures |d| > 0 ==> |r| <= |s| && r == s[..|r|]
    ensures |d| > 0 ==> forall j: nat :: j < |r| ==> !OccursAt(s, d, j)
    ensures |d| > 0 ==> r == s || OccursAt(s, d, |r|)
  {
    var x := SplitBy(s, d);
    x[0]
  }

  /** `slice_end_of_string`: splits `s` on `d` and pops the last piece. */
  function SliceEndOfString(s: string, d: string): (r: string)
    ensures d == [] ==> r == []
    ensures |d| > 0 ==> |r| <= |s| && r == s[|s| - |r|..]
    ensures |d| > 0 ==> Absent(r, d)
    ensures |d| > 0 ==> (r == s <==> Absent(s, d))
    ensures |d| > 0 && r != s ==> |r| + |d| <= |s| && OccursAt(s, d, |s| - |r| - |d|)
    ensures |d| > 0 ==> r == s[LastStart(s, d, 0)..]
  {
    var x := SplitBy(s, d);
    if d == [] then x[|x| - 1]
    else
      SplitPiecesAvoidDelimiter(s, d, 0);
      LastPieceOfSplit(s, d, 0);
      if FindFrom(s, d, 0).Some? then LastStartAfterDelimiter(s, d, 0); x[|x| - 1]
      else assert s[0..] == s; x[|x| - 1]
  }

  /** With a non-empty delimiter absent from `s`, both slices give back all of `s`. */
  lemma SlicesOfUndelimited(s: string, d: string)
    requires |d| > 0 && Absent(s, d)
    ensures SliceBeginningOfString(s, d) == s
    ensures SliceEndOfString(s, d) == s
  {
  }
}
