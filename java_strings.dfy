/**
 * The parts of java.lang.String that the header map calls, over seq<char>:
 * replace(char, char) and split with a one-character pattern (as `split("\\.")`
 * and `split(",")` use it). One-character indexOf and lastIndexOf are helpers
 * for the model's split and line reader.
 */
module JavaStrings {

  /** Position of the first occurrence of c in s, or -1 (String.indexOf). */
  function IndexOf(s: string, c: char): (r: int)
    ensures -1 <= r < |s|
    ensures r == -1 <==> c !in s
    ensures r >= 0 ==> s[r] == c && c !in s[..r]
  {
    if s == [] then -1
    else if s[0] == c then 0
    else
      var r := IndexOf(s[1..], c);
      assert r >= 0 ==> s[1..][..r] == s[1..r + 1];
      if r < 0 then -1 else r + 1
  }

  /** Position of the last occurrence of c in s, or -1 (String.lastIndexOf). */
  function LastIndexOf(s: string, c: char): (r: int)
    ensures -1 <= r < |s|
    ensures r == -1 <==> c !in s
    ensures r >= 0 ==> s[r] == c && c !in s[r + 1..]
  {
    if s == [] then -1
    else if s[|s| - 1] == c then |s| - 1
    else
      var r := LastIndexOf(s[..|s| - 1], c);
      assert s == s[..|s| - 1] + [s[|s| - 1]];
      r
  }

  /** The pieces joined back with the separator d between neighbours. */
  function Join(parts: seq<string>, d: char): string
    requires |parts| >= 1
  {
    if |parts| == 1 then parts[0]
    else Join(parts[..|parts| - 1], d) + [d] + parts[|parts| - 1]
  }

  /**
   * Every piece of s between occurrences of d, empty pieces included; joined
   * back with d they give s (SegmentsJoin).
   */
  function Segments(s: string, d: char): (parts: seq<string>)
    ensures |parts| >= 1
    ensures forall i :: 0 <= i < |parts| ==> d !in parts[i]
    decreases |s|
  {
    var r := LastIndexOf(s, d);
    if r < 0 then [s]
    else
      var init := Segments(s[..r], d);
      var parts := init + [s[r + 1..]];
      assert forall i :: 0 <= i < |parts| ==> d !in parts[i] by {
        forall i | 0 <= i < |parts| ensures d !in parts[i] {
          if i < |init| { assert parts[i] == init[i]; } else { assert parts[i] == s[r + 1..]; }
        }
      }
      parts
  }

  /** Joining the pieces of s back with d gives s. */
  lemma {:induction false} SegmentsJoin(s: string, d: char)
    ensures Join(Segments(s, d), d) == s
    decreases |s|
  {
    var r := LastIndexOf(s, d);
    if r >= 0 {
      SegmentsJoin(s[..r], d);
      SegmentsUnfold(s, d);
      JoinSnoc(Segments(s[..r], d), s[r + 1..], d);
      assert s == s[..r] + [d] + s[r + 1..];
    }
  }

  /** Joining one more piece adds a separator and the piece. */
  lemma JoinSnoc(parts: seq<string>, x: string, d: char)
    requires |parts| >= 1
    ensures Join(parts + [x], d) == Join(parts, d) + [d] + x
  {
    assert (parts + [x])[..|parts|] == parts;
  }

  /** The list without its trailing empty pieces. */
  function DropTrailingEmpty(parts: seq<string>): (r: seq<string>)
    ensures |r| <= |parts| && r == parts[..|r|]
    ensures forall i :: |r| <= i < |parts| ==> parts[i] == []
    ensures r != [] ==> r[|r| - 1] != []
  {
    if parts != [] && parts[|parts| - 1] == [] then DropTrailingEmpty(parts[..|parts| - 1])
    else parts
  }

  /**
   * String.split with a one-character pattern and no limit: when d does not
   * occur the result is s itself; otherwise the pieces between occurrences of
   * d, with trailing empty pieces removed (so it may be empty).
   */
  function Split(s: string, d: char): (parts: seq<string>)
    ensures d !in s ==> parts == [s]
    ensures |parts| <= |Segments(s, d)| && parts == Segments(s, d)[..|parts|]
    ensures forall i :: |parts| <= i < |Segments(s, d)| ==> Segments(s, d)[i] == []
    ensures forall i :: 0 <= i < |parts| ==> d !in parts[i]
    ensures d in s ==> parts == [] || parts[|parts| - 1] != []
  {
    if d !in s then [s] else DropTrailingEmpty(Segments(s, d))
  }

  /** String.replace(char, char): every `from` becomes `to`, nothing else changes. */
  function Replace(s: string, from: char, to: char): (r: string)
    ensures |r| == |s|
    ensures forall i :: 0 <= i < |s| ==> r[i] == (if s[i] == from then to else s[i])
  {
    seq(|s|, i requires 0 <= i < |s| => if s[i] == from then to else s[i])
  }

  /**
   * A join whose last piece is empty is itself empty or ends with the
   * separator, so it never equals a non-empty name that does not end with it.
   */
  lemma JoinWithEmptyLast(parts: seq<string>, d: char)
    requires |parts| >= 1 && parts[|parts| - 1] == []
    ensures var j := Join(parts, d); j == [] || j[|j| - 1] == d
  {
  }

  /**
   * Each prefix of the pieces, joined, is a prefix of s that ends where s
   * ends or just before an occurrence of d.
   */
  lemma {:induction false} SegmentPrefixAtBoundary(s: string, d: char, i: nat)
    requires i < |Segments(s, d)|
    ensures PrefixAtBoundary(s, Join(Segments(s, d)[..i + 1], d), d)
    decreases |s|
  {
    var r := LastIndexOf(s, d);
    if r >= 0 && i < |Segments(s[..r], d)| {
      SegmentPrefixAtBoundary(s[..r], d, i);
      PrefixAtBoundaryStep(s, d, r, i);
    } else {
      assert Segments(s, d)[..i + 1] == Segments(s, d) by {
        if r >= 0 { SegmentsUnfold(s, d); }
      }
      SegmentsJoin(s, d);
    }
  }

  /** p is a prefix of s that ends where s ends or just before a d. */
  predicate PrefixAtBoundary(s: string, p: string, d: char) {
    |p| <= |s| && s[..|p|] == p && (|p| == |s| || s[|p|] == d)
  }

  /** A boundary prefix of the pieces before the last d is one of s. */
  lemma PrefixAtBoundaryStep(s: string, d: char, r: nat, i: nat)
    requires r == LastIndexOf(s, d)
    requires i < |Segments(s[..r], d)|
    requires PrefixAtBoundary(s[..r], Join(Segments(s[..r], d)[..i + 1], d), d)
    ensures i < |Segments(s, d)| && PrefixAtBoundary(s, Join(Segments(s, d)[..i + 1], d), d)
  {
    SegmentsPrefixOfInit(s, d, i);
    var p := Join(Segments(s[..r], d)[..i + 1], d);
    assert s[..r][..|p|] == s[..|p|];
    assert |p| < r ==> s[..r][|p|] == s[|p|];
  }

  /**
   * Conversely, every prefix of s that ends where s ends or just before an
   * occurrence of d is the join of some prefix of the pieces.
   */
  lemma {:induction false} BoundaryIsSegmentPrefix(s: string, d: char, k: nat) returns (i: nat)
    requires k <= |s| && (k == |s| || s[k] == d)
    ensures i < |Segments(s, d)| && Join(Segments(s, d)[..i + 1], d) == s[..k]
    decreases |s|
  {
    if k == |s| {
      i := |Segments(s, d)| - 1;
      JoinAllSegments(s, d);
    } else {
      var r := LastIndexOf(s, d);
      BoundaryBeforeLast(s, d, k);
      i := BoundaryIsSegmentPrefix(s[..r], d, k);
      BoundaryStep(s, d, k, r, i);
    }
  }

  /** Joining all the pieces of s gives s. */
  lemma JoinAllSegments(s: string, d: char)
    ensures Join(Segments(s, d)[..|Segments(s, d)|], d) == s[..|s|]
  {
    assert Segments(s, d)[..|Segments(s, d)|] == Segments(s, d);
    assert s[..|s|] == s;
    SegmentsJoin(s, d);
  }

  /** A prefix of the pieces before the last d is a prefix of the pieces of s. */
  lemma BoundaryStep(s: string, d: char, k: nat, r: nat, i: nat)
    requires r == LastIndexOf(s, d) && k <= r
    requires i < |Segments(s[..r], d)| && Join(Segments(s[..r], d)[..i + 1], d) == s[..r][..k]
    ensures i < |Segments(s, d)| && Join(Segments(s, d)[..i + 1], d) == s[..k]
  {
    SegmentsPrefixOfInit(s, d, i);
    assert s[..r][..k] == s[..k];
  }

  /** A boundary of s before its end is a boundary of s up to its last d. */
  lemma BoundaryBeforeLast(s: string, d: char, k: nat)
    requires k < |s| && s[k] == d
    ensures 0 <= k <= LastIndexOf(s, d)
    ensures k == LastIndexOf(s, d) || s[..LastIndexOf(s, d)][k] == d
  {
    BeforeLast(s, d, k);
  }

  /** The first pieces of s are the first pieces of s up to its last d. */
  lemma SegmentsPrefixOfInit(s: string, d: char, i: nat)
    requires d in s && i < |Segments(s[..LastIndexOf(s, d)], d)|
    ensures i < |Segments(s, d)|
    ensures Segments(s, d)[..i + 1] == Segments(s[..LastIndexOf(s, d)], d)[..i + 1]
  {
    SegmentsUnfold(s, d);
  }

  /** Every occurrence of c is at or before the last one. */
  lemma BeforeLast(s: string, c: char, k: nat)
    requires k < |s| && s[k] == c
    ensures k <= LastIndexOf(s, c)
  {
  }

  /** One step of Segments: the pieces before the last d, then the rest. */
  lemma SegmentsUnfold(s: string, d: char)
    requires d in s
    ensures var r := LastIndexOf(s, d);
      Segments(s, d) == Segments(s[..r], d) + [s[r + 1..]]
  {
  }

  /** In k + [c] + v with no c in k, the first c stands right after k. */
  lemma IndexAfterPrefix(k: string, c: char, v: string)
    requires c !in k
    ensures IndexOf(k + [c] + v, c) == |k|
  {
    var s := k + [c] + v;
    assert s[..|k|] == k;
    assert s[|k|] == c;
  }

  /**
   * Replacing every d1 by a d2 that does not occur in s turns the pieces
   * between d1s into the same pieces between d2s.
   */
  lemma {:induction false} ReplacePreservesSegments(s: string, d1: char, d2: char)
    requires d2 !in s
    ensures Segments(Replace(s, d1, d2), d2) == Segments(s, d1)
    decreases |s|
  {
    var r := LastIndexOf(s, d1);
    if r >= 0 {
      assert d2 !in s[..r] by { ReplacedPieces(s, d1, d2, r); }
      ReplacePreservesSegments(s[..r], d1, d2);
      ReplacedStep(s, d1, d2, r);
    } else {
      assert Replace(s, d1, d2) == s;
    }
  }

  /** One step of the induction above: from the pieces before the last d1 to all of them. */
  lemma ReplacedStep(s: string, d1: char, d2: char, r: nat)
    requires d2 !in s && r == LastIndexOf(s, d1)
    requires Segments(Replace(s[..r], d1, d2), d2) == Segments(s[..r], d1)
    ensures Segments(Replace(s, d1, d2), d2) == Segments(s, d1)
  {
    var t := Replace(s, d1, d2);
    assert Segments(t, d2) == Segments(t[..r], d2) + [t[r + 1..]] by {
      LastIndexOfReplaced(s, d1, d2);
      SegmentsUnfold(t, d2);
    }
    assert Segments(t[..r], d2) + [t[r + 1..]] == Segments(s[..r], d1) + [s[r + 1..]] by {
      ReplacedPieces(s, d1, d2, r);
    }
    assert Segments(s[..r], d1) + [s[r + 1..]] == Segments(s, d1) by {
      SegmentsUnfold(s, d1);
    }
  }

  /** Around the last d1, Replace acts on the front and leaves the rest alone. */
  lemma ReplacedPieces(s: string, d1: char, d2: char, r: nat)
    requires d2 !in s && r == LastIndexOf(s, d1)
    ensures d2 !in s[..r]
    ensures Replace(s, d1, d2)[..r] == Replace(s[..r], d1, d2)
    ensures Replace(s, d1, d2)[r + 1..] == s[r + 1..]
  {
    NotInTake(s, d2, r);
    ReplaceTake(s, d1, d2, r);
    ReplaceAfterLast(s, d1, d2, r);
  }

  lemma NotInTake(s: string, c: char, n: nat)
    requires c !in s && n <= |s|
    ensures c !in s[..n]
  {
    forall j | 0 <= j < n ensures s[..n][j] != c { assert s[..n][j] == s[j]; }
  }

  lemma ReplaceTake(s: string, d1: char, d2: char, n: nat)
    requires n <= |s|
    ensures Replace(s, d1, d2)[..n] == Replace(s[..n], d1, d2)
  {
  }

  lemma ReplaceAfterLast(s: string, d1: char, d2: char, r: nat)
    requires r == LastIndexOf(s, d1)
    ensures Replace(s, d1, d2)[r + 1..] == s[r + 1..]
  {
    var t := Replace(s, d1, d2);
    forall j | r + 1 <= j < |s| ensures t[j] == s[j] {
      assert s[r + 1..][j - r - 1] == s[j];
    }
  }

  /** The last d2 in Replace(s, d1, d2) stands where the last d1 stood in s. */
  lemma {:induction false} LastIndexOfReplaced(s: string, d1: char, d2: char)
    requires d2 !in s
    ensures LastIndexOf(Replace(s, d1, d2), d2) == LastIndexOf(s, d1)
    decreases |s|
  {
    var t := Replace(s, d1, d2);
    if s != [] {
      var n := |s| - 1;
      assert t[..n] == Replace(s[..n], d1, d2);
      assert d2 !in s[..n] by {
        forall j | 0 <= j < n ensures s[..n][j] != d2 { assert s[..n][j] == s[j]; }
      }
      assert s[n] != d2;
      LastIndexOfReplaced(s[..n], d1, d2);
    }
  }

  /** Splitting the join of pieces that do not contain d gives the pieces back. */
  lemma {:induction false} SegmentsOfJoin(parts: seq<string>, d: char)
    requires |parts| >= 1
    requires forall i :: 0 <= i < |parts| ==> d !in parts[i]
    ensures Segments(Join(parts, d), d) == parts
  {
    if |parts| > 1 {
      var init := parts[..|parts| - 1];
      var last := parts[|parts| - 1];
      var a := Join(init, d);
      var s := a + [d] + last;
      assert Join(parts, d) == s;
      calc {
        Segments(s, d);
        { LastIndexAfterPrefix(a, d, last); SegmentsUnfold(s, d); }
        Segments(s[..|a|], d) + [s[|a| + 1..]];
        { assert s[..|a|] == a; assert s[|a| + 1..] == last; }
        Segments(a, d) + [last];
        { SegmentsOfJoin(init, d); }
        init + [last];
      }
    }
  }

  /** In a + [c] + v with no c in v, the last c stands right after a. */
  lemma LastIndexAfterPrefix(a: string, c: char, v: string)
    requires c !in v
    ensures LastIndexOf(a + [c] + v, c) == |a|
  {
    var s := a + [c] + v;
    assert s[|a| + 1..] == v;
    assert s[|a|] == c;
  }
}
