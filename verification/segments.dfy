/**
 Splitting a sequence on a separator element, as Rust's `str::split(char)`
 does, and the inverse operation that joins the pieces back together.
 */
module Segments {

  /** Position of the first occurrence of `x` in `s`. */
  function IndexOf<T(==)>(s: seq<T>, x: T): (i: nat)
    requires x in s
    ensures i < |s| && s[i] == x
    ensures x !in s[..i]
  {
    if s[0] == x then 0 else 1 + IndexOf(s[1..], x)
  }

  /**
   The pieces of `s` between occurrences of `sep`, in order. Like Rust's
   `split`, an input without `sep` (the empty input included) is one piece,
   and adjacent, leading or trailing separators yield empty pieces.
   */
  function Split<T(==)>(s: seq<T>, sep: T): (parts: seq<seq<T>>)
    ensures |parts| >= 1
    ensures forall k :: 0 <= k < |parts| ==> sep !in parts[k]
    decreases |s|
  {
    if sep !in s then [s]
    else
      var i := IndexOf(s, sep);
      [s[..i]] + Split(s[i + 1..], sep)
  }

  /** The pieces of `parts` with one `sep` between each neighbouring pair. */
  function Join<T>(parts: seq<seq<T>>, sep: T): seq<T>
    requires |parts| >= 1
  {
    if |parts| == 1 then parts[0] else parts[0] + [sep] + Join(parts[1..], sep)
  }

  /** The first occurrence of `x` is the only position before which `x` does not occur. */
  lemma IndexOfUnique<T>(s: seq<T>, x: T, i: nat)
    requires i < |s| && s[i] == x && x !in s[..i]
    ensures IndexOf(s, x) == i
  {
    var j := IndexOf(s, x);
    assert forall k :: 0 <= k < i ==> s[..i][k] == s[k];
    assert forall k :: 0 <= k < j ==> s[..j][k] == s[k];
  }

  /** Joining the pieces of a split gives back the original sequence. */
  lemma {:induction false} JoinSplit<T>(s: seq<T>, sep: T)
    ensures Join(Split(s, sep), sep) == s
    decreases |s|
  {
    if sep in s {
      var i := IndexOf(s, sep);
      var rest := s[i + 1..];
      JoinSplit(rest, sep);
      var parts := Split(s, sep);
      assert parts[0] == s[..i];
      assert parts[1..] == Split(rest, sep);
      assert s == s[..i] + [sep] + rest;
    }
  }

  /** Splitting a join of separator-free pieces gives back the pieces. */
  lemma {:induction false} SplitJoin<T>(parts: seq<seq<T>>, sep: T)
    requires |parts| >= 1
    requires forall k :: 0 <= k < |parts| ==> sep !in parts[k]
    ensures Split(Join(parts, sep), sep) == parts
    decreases |parts|
  {
    if |parts| > 1 {
      var rest := Join(parts[1..], sep);
      var s := Join(parts, sep);
      var i := |parts[0]|;
      assert s == parts[0] + [sep] + rest;
      assert s[i] == sep && s[..i] == parts[0] && s[i + 1..] == rest;
      IndexOfUnique(s, sep, i);
      SplitJoin(parts[1..], sep);
    }
  }

  /** A split has more than one piece exactly when the separator occurs. */
  lemma SplitHasManyPieces<T>(s: seq<T>, sep: T)
    ensures |Split(s, sep)| > 1 <==> sep in s
  {
  }

  /** Every element of a piece occurs in the join of the pieces. */
  lemma {:induction false} JoinContains<T>(parts: seq<seq<T>>, sep: T, k: nat, x: T)
    requires |parts| >= 1 && k < |parts| && x in parts[k]
    ensures x in Join(parts, sep)
    decreases |parts|
  {
    if k > 0 {
      JoinContains(parts[1..], sep, k - 1, x);
    }
  }

  /** Every element of a join is the separator or an element of one of the pieces. */
  lemma {:induction false} JoinElements<T>(parts: seq<seq<T>>, sep: T, x: T)
    requires |parts| >= 1 && x in Join(parts, sep)
    ensures x == sep || exists k :: 0 <= k < |parts| && x in parts[k]
    decreases |parts|
  {
    if |parts| > 1 && x !in parts[0] && x != sep {
      JoinElements(parts[1..], sep, x);
      var k :| 0 <= k < |parts[1..]| && x in parts[1..][k];
      assert x in parts[k + 1];
    }
  }
}
