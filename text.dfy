/** String searching as Rust's `str::find`, `str::contains` and `str::split` do it. */
module Text {
  import opened Base

  /** `p` occurs in `s` at index `i`. */
  predicate OccursAt(s: string, p: string, i: int)
  {
    0 <= i && i + |p| <= |s| && s[i..i + |p|] == p
  }

  /** The index of the leftmost occurrence of `p` in `s` (`str::find`). */
  function Find(s: string, p: string): (r: Option<nat>)
    ensures r.Some? ==> OccursAt(s, p, r.value)
    ensures r.Some? ==> forall j :: 0 <= j < r.value ==> !OccursAt(s, p, j)
    ensures r.None? ==> forall j :: !OccursAt(s, p, j)
    decreases |s|
  {
    if |s| < |p| then None
    else if s[..|p|] == p then Some(0)
    else
      var tail := s[1..];
      match Find(tail, p)
      case None =>
        assert forall j :: 1 <= j ==> OccursAt(s, p, j) == OccursAt(tail, p, j - 1);
        None
      case Some(k) =>
        assert forall j :: 1 <= j ==> OccursAt(s, p, j) == OccursAt(tail, p, j - 1);
        Some(k + 1)
  }

  /** `p` occurs somewhere in `s` (`str::contains`). */
  predicate Contains(s: string, p: string)
  {
    Find(s, p).Some?
  }

  /**
   * The pieces of `s` between the non-overlapping, leftmost-first occurrences
   * of the non-empty pattern `p` (`str::split`, collected).
   */
  function Split(s: string, p: string): (pieces: seq<string>)
    requires |p| > 0
    ensures |pieces| >= 1
    decreases |s|
  {
    match Find(s, p)
    case None => [s]
    case Some(i) => [s[..i]] + Split(s[i + |p|..], p)
  }

  /** The first piece of a split is the text up to the leftmost occurrence, or all of it. */
  lemma SplitFirst(s: string, p: string)
    requires |p| > 0
    ensures Split(s, p)[0] == if Find(s, p).Some? then s[..Find(s, p).value] else s
  {
  }

  /**
   * The first piece of a split is a prefix of the text without the pattern,
   * ending at the end of the text or where the pattern occurs.
   */
  lemma FirstPiece(s: string, p: string)
    requires |p| > 0
    ensures var piece := Split(s, p)[0];
      && |piece| <= |s| && s[..|piece|] == piece && !Contains(piece, p)
      && (|piece| == |s| || OccursAt(s, p, |piece|))
  {
    SplitFirst(s, p);
    SplitPiecesFree(s, p, 0);
  }

  /** The `n`th element of a sequence, if there is one (`Iterator::nth`). */
  function Nth<T>(xs: seq<T>, n: nat): (r: Option<T>)
    ensures r.Some? <==> n < |xs|
    ensures r.Some? ==> r.value == xs[n]
  {
    if n < |xs| then Some(xs[n]) else None
  }

  /** The pieces glued back together with `p` between each two. */
  function Join(pieces: seq<string>, p: string): string
  {
    if |pieces| <= 1 then (if pieces == [] then "" else pieces[0])
    else pieces[0] + p + Join(pieces[1..], p)
  }

  /** Joining a piece in front of at least one more. */
  lemma JoinCons(x: string, rest: seq<string>, p: string)
    requires |rest| >= 1
    ensures Join([x] + rest, p) == x + p + Join(rest, p)
  {
    assert ([x] + rest)[1..] == rest;
  }

  /** Splitting loses nothing: the pieces, rejoined with the pattern, give back the text. */
  lemma {:induction false} SplitJoin(s: string, p: string)
    requires |p| > 0
    ensures Join(Split(s, p), p) == s
    decreases |s|
  {
    match Find(s, p)
    case None =>
    case Some(i) =>
      var rest := s[i + |p|..];
      SplitJoin(rest, p);
      JoinCons(s[..i], Split(rest, p), p);
      assert s == s[..i] + p + rest;
  }

  /** An occurrence inside a prefix is an occurrence in the whole text. */
  lemma OccursInPrefix(s: string, p: string, n: nat, j: int)
    requires n <= |s| && OccursAt(s[..n], p, j)
    ensures OccursAt(s, p, j)
  {
    assert s[j..j + |p|] == s[..n][j..j + |p|];
  }

  /** The text before the leftmost occurrence does not contain the pattern. */
  lemma BeforeFindFree(s: string, p: string)
    requires |p| > 0 && Find(s, p).Some?
    ensures !Contains(s[..Find(s, p).value], p)
  {
    var i := Find(s, p).value;
    var head := s[..i];
    if Contains(head, p) {
      var j := Find(head, p).value;
      OccursInPrefix(s, p, i, j);
    }
  }

  /** No piece of a split contains the pattern. */
  lemma {:induction false} SplitPiecesFree(s: string, p: string, n: nat)
    requires |p| > 0
    requires n < |Split(s, p)|
    ensures !Contains(Split(s, p)[n], p)
    decreases |s|
  {
    match Find(s, p)
    case None =>
    case Some(i) =>
      if n == 0 {
        BeforeFindFree(s, p);
      } else {
        SplitPiecesFree(s[i + |p|..], p, n - 1);
      }
  }

  /** Only the leftmost occurrence can be what `Find` reports. */
  lemma FindLeftmost(s: string, p: string, i: nat)
    requires OccursAt(s, p, i)
    requires forall j :: 0 <= j < i ==> !OccursAt(s, p, j)
    ensures Find(s, p) == Some(i)
  {
  }

  /**
   * A pattern whose first character appears nowhere else in it cannot start
   * inside a text `a` that does not contain it and end inside a text `y` that
   * starts with that character.
   */
  lemma NoOccurrenceBefore(a: string, y: string, p: string)
    requires |p| > 0 && |y| > 0 && y[0] == p[0]
    requires forall k :: 0 < k < |p| ==> p[k] != p[0]
    requires !Contains(a, p)
    ensures forall j :: 0 <= j < |a| ==> !OccursAt(a + y, p, j)
  {
    forall j | 0 <= j < |a|
      ensures !OccursAt(a + y, p, j)
    {
      if j + |p| <= |a| {
        assert (a + y)[j..j + |p|] == a[j..j + |p|];
        assert !OccursAt(a, p, j);
      } else if j + |p| <= |a + y| {
        var k := |a| - j;
        assert (a + y)[j..j + |p|][k] == (a + y)[|a|] == y[0] != p[k];
      }
    }
  }

  /** A prefix of a text without `p` is without `p` too. */
  lemma PrefixFree(s: string, p: string, n: nat)
    requires n <= |s| && !Contains(s, p)
    ensures !Contains(s[..n], p)
  {
    forall j | 0 <= j && j + |p| <= n
      ensures !OccursAt(s[..n], p, j)
    {
      assert s[..n][j..j + |p|] == s[j..j + |p|];
      assert !OccursAt(s, p, j);
    }
  }

  /** A text in which the first two characters of `p` never stand side by side does not contain `p`. */
  lemma NoLeadingPair(s: string, p: string)
    requires |p| >= 2
    requires forall j :: 0 <= j < |s| - 1 ==> !(s[j] == p[0] && s[j + 1] == p[1])
    ensures !Contains(s, p)
  {
    forall j | 0 <= j && j + |p| <= |s|
      ensures !OccursAt(s, p, j)
    {
      assert s[j..j + |p|][0] == s[j] && s[j..j + |p|][1] == s[j + 1];
    }
  }

  /** A text without the first character of `p` does not contain `p`. */
  lemma NoLeadingChar(s: string, p: string)
    requires |p| > 0
    requires forall j :: 0 <= j < |s| ==> s[j] != p[0]
    ensures !Contains(s, p)
  {
    forall j | 0 <= j && j + |p| <= |s|
      ensures !OccursAt(s, p, j)
    {
      assert s[j..j + |p|][0] == s[j];
    }
  }
}
