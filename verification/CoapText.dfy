/** Strings that are sent as one option a segment: splitting them at a separator, and merging the
    segments again. */
module CoapText {

  import opened Bytes
  import opened CoapOption

  const SLASH: byte := 47

  /** The position behind the slashes at `i`. */
  function SkipSlashes(s: seq<byte>, i: nat): (r: nat)
    ensures i <= r && (i <= |s| ==> r <= |s|)
    ensures r < |s| ==> s[r] != SLASH
    decreases |s| - i
  {
    if i < |s| && s[i] == SLASH then SkipSlashes(s, i + 1) else i
  }

  /** The segments from `start` on, when the search for the next separator has come to `j`. The first
      byte of a segment behind a separator is not looked at. */
  function Parts(s: seq<byte>, sep: byte, start: nat, j: nat): seq<seq<byte>>
    decreases |s| + 1 - j
  {
    if j > |s| || start > j then []
    else if j == |s| then [s[start..]]
    else if s[j] == sep then
      var next := SkipSlashes(s, j + 1);
      [s[start..j]] + Parts(s, sep, next, next + 1)
    else Parts(s, sep, start, j + 1)
  }

  function MergeOne(m: seq<byte>, part: seq<byte>, sep: byte): seq<byte> {
    if |m| > 0 then m + [sep] + part else part
  }

  function MergeAll(m: seq<byte>, parts: seq<seq<byte>>, sep: byte): seq<byte>
    decreases |parts|
  {
    if parts == [] then m else MergeAll(MergeOne(m, parts[0], sep), parts[1..], sep)
  }

  // ----- What merging gives

  function Join(parts: seq<seq<byte>>, sep: byte): seq<byte> {
    if parts == [] then [] else if |parts| == 1 then parts[0] else parts[0] + [sep] + Join(parts[1..], sep)
  }

  function DropEmpty(parts: seq<seq<byte>>): seq<seq<byte>> {
    if parts != [] && parts[0] == [] then DropEmpty(parts[1..]) else parts
  }

  lemma {:induction false} MergeOnto(m: seq<byte>, parts: seq<seq<byte>>, sep: byte)
    requires |m| > 0
    ensures MergeAll(m, parts, sep) == if parts == [] then m else m + [sep] + Join(parts, sep)
    decreases |parts|
  {
    if |parts| > 0 {
      MergeOnto(m + [sep] + parts[0], parts[1..], sep);
      assert |parts| > 1 ==> m + [sep] + parts[0] + [sep] + Join(parts[1..], sep) == m + [sep] + Join(parts, sep);
    }
  }

  /** Merging joins the segments with the separator, without the empty ones at the beginning. */
  lemma {:induction false} MergeJoins(parts: seq<seq<byte>>, sep: byte)
    ensures MergeAll([], parts, sep) == Join(DropEmpty(parts), sep)
    decreases |parts|
  {
    if parts != [] {
      if parts[0] == [] {
        MergeJoins(parts[1..], sep);
      } else {
        MergeOnto(parts[0], parts[1..], sep);
      }
    }
  }

  // ----- Which strings come back

  /** From `j` on, every separator that splits is followed by a byte other than a slash. */
  predicate CleanFrom(s: seq<byte>, sep: byte, j: nat)
    decreases |s| - j
  {
    if j >= |s| then true
    else if s[j] == sep then j + 1 < |s| && s[j + 1] != SLASH && CleanFrom(s, sep, j + 2)
    else CleanFrom(s, sep, j + 1)
  }

  predicate Clean(s: seq<byte>, sep: byte) { s == [] || (s[0] != sep && CleanFrom(s, sep, 0)) }

  predicate NoTwoSlashes(s: seq<byte>, j: nat) {
    forall i | j <= i < |s| - 1 :: s[i] == SLASH ==> s[i + 1] != SLASH
  }

  /** With slashes between the segments that means: none at the ends, and no two in a row. */
  lemma CleanPath(s: seq<byte>)
    ensures Clean(s, SLASH) <==> s == [] || (s[0] != SLASH && s[|s| - 1] != SLASH && NoTwoSlashes(s, 0))
  {
    if s != [] && s[0] != SLASH {
      CleanPathFrom(s, 0);
    }
  }

  lemma {:induction false} CleanPathFrom(s: seq<byte>, j: nat)
    requires j <= |s| && s != [] && (0 < j ==> s[j - 1] != SLASH) && s[0] != SLASH
    ensures CleanFrom(s, SLASH, j) <==> s[|s| - 1] != SLASH && NoTwoSlashes(s, j)
    decreases |s| - j
  {
    if j < |s| {
      if s[j] != SLASH {
        CleanPathFrom(s, j + 1);
      } else if j + 1 < |s| && s[j + 1] != SLASH {
        CleanPathFrom(s, j + 2);
      }
    }
  }

  /** What merging gives at most: what there is already, and the rest of the string. */
  function Whole(s: seq<byte>, sep: byte, m: seq<byte>, start: nat): seq<byte>
    requires start <= |s|
  {
    if m == [] then s[start..] else m + [sep] + s[start..]
  }

  lemma PartsStep(s: seq<byte>, sep: byte, m: seq<byte>, start: nat, j: nat)
    requires start <= j <= |s|
    ensures j < |s| && s[j] != sep ==> Parts(s, sep, start, j) == Parts(s, sep, start, j + 1)
    ensures j == |s| ==> MergeAll(m, Parts(s, sep, start, j), sep) == Whole(s, sep, m, start)
    ensures j < |s| && s[j] == sep ==>
      var next := SkipSlashes(s, j + 1);
      MergeAll(m, Parts(s, sep, start, j), sep) == MergeAll(MergeOne(m, s[start..j], sep), Parts(s, sep, next, next + 1), sep)
  {
    if j == |s| {
      assert Parts(s, sep, start, j) == [s[start..]];
    } else if s[j] == sep {
      var next := SkipSlashes(s, j + 1);
      var rest := Parts(s, sep, next, next + 1);
      assert Parts(s, sep, start, j) == [s[start..j]] + rest;
      assert ([s[start..j]] + rest)[1..] == rest;
    }
  }

  lemma CleanStep(s: seq<byte>, sep: byte, j: nat)
    requires j <= |s|
    ensures CleanFrom(s, sep, |s|)
    ensures j < |s| && s[j] != sep ==> CleanFrom(s, sep, j) == CleanFrom(s, sep, j + 1)
    ensures j < |s| && s[j] == sep ==>
      CleanFrom(s, sep, j) == (SkipSlashes(s, j + 1) == j + 1 < |s| && CleanFrom(s, sep, j + 2))
  {
  }

  lemma WholeStep(s: seq<byte>, sep: byte, m: seq<byte>, start: nat, j: nat)
    requires start <= j < |s| && s[j] == sep && (m != [] || start < j)
    ensures MergeOne(m, s[start..j], sep) != []
    ensures Whole(s, sep, MergeOne(m, s[start..j], sep), j + 1) == Whole(s, sep, m, start)
  {
    assert s[start..] == s[start..j] + [sep] + s[j + 1..];
  }

  lemma {:induction false} MergesBack(s: seq<byte>, sep: byte, m: seq<byte>, start: nat, j: nat)
    requires start <= j <= |s| && CleanFrom(s, sep, j)
    requires m != [] || start < j || j == |s| || s[j] != sep
    ensures MergeAll(m, Parts(s, sep, start, j), sep) == Whole(s, sep, m, start)
    decreases |s| - j
  {
    hide Parts, MergeAll, CleanFrom, MergeOne, Whole, SkipSlashes;
    PartsStep(s, sep, m, start, j);
    CleanStep(s, sep, j);
    if j == |s| {
    } else if s[j] == sep {
      WholeStep(s, sep, m, start, j);
      MergesBack(s, sep, MergeOne(m, s[start..j], sep), j + 1, j + 2);
    } else {
      MergesBack(s, sep, m, start, j + 1);
    }
  }

  function WholeLength(s: seq<byte>, m: seq<byte>, start: nat): nat
    requires start <= |s|
  {
    |m| + (if m == [] then 0 else 1) + |s| - start
  }

  lemma Lengths(s: seq<byte>, sep: byte, m: seq<byte>, start: nat, j: nat)
    requires start <= j <= |s|
    ensures |Whole(s, sep, m, start)| == WholeLength(s, m, start)
    ensures |MergeOne(m, s[start..j], sep)| == WholeLength(s[..j], m, start)
  {
  }

  lemma {:induction false} MergesLess(s: seq<byte>, sep: byte, m: seq<byte>, start: nat, j: nat)
    requires start <= j <= |s|
    ensures |MergeAll(m, Parts(s, sep, start, j), sep)| <= WholeLength(s, m, start)
    ensures !CleanFrom(s, sep, j) || (m == [] && start == j < |s| && s[j] == sep) ==>
      |MergeAll(m, Parts(s, sep, start, j), sep)| < WholeLength(s, m, start)
    decreases |s| - j
  {
    hide Parts, MergeAll, CleanFrom, MergeOne, Whole, SkipSlashes;
    PartsStep(s, sep, m, start, j);
    CleanStep(s, sep, j);
    Lengths(s, sep, m, start, j);
    if j == |s| {
    } else if s[j] == sep {
      var next := SkipSlashes(s, j + 1);
      var merged := MergeOne(m, s[start..j], sep);
      if next < |s| {
        MergesLess(s, sep, merged, next, next + 1);
      } else {
        NothingMore(s, sep, merged, next);
      }
    } else {
      MergesLess(s, sep, m, start, j + 1);
    }
  }

  lemma NothingMore(s: seq<byte>, sep: byte, m: seq<byte>, next: nat)
    requires next >= |s|
    ensures MergeAll(m, Parts(s, sep, next, next + 1), sep) == m
  {
  }

  /** A string comes back from its segments if and only if it is clean. */
  lemma ComesBack(s: seq<byte>, sep: byte)
    ensures MergeAll([], Parts(s, sep, 0, 0), sep) == s <==> Clean(s, sep)
  {
    hide Parts, MergeAll, CleanFrom, SkipSlashes;
    Lengths(s, sep, [], 0, 0);
    MergesLess(s, sep, [], 0, 0);
    if Clean(s, sep) {
      assert CleanFrom([], sep, 0) by {
        CleanNothing(sep);
      }
      MergesBack(s, sep, [], 0, 0);
    }
  }

  lemma CleanNothing(sep: byte)
    ensures CleanFrom([], sep, 0)
  {
  }
}
