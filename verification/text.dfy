/**
 * String helpers for the list views: the case-insensitive containment test
 * behind `field__icontains=...` and the ordering of `order_by("last_name", ...)`.
 * Case folding covers the ASCII letters only and the order is the order of
 * character codes; the database's collation is not part of this model.
 */
module Text {

  /** The lower-case form of an ASCII upper-case letter; every other character is kept. */
  function LowerChar(c: char): (r: char)
    ensures 'A' <= c <= 'Z' ==> r as int == c as int + 32
    ensures !('A' <= c <= 'Z') ==> r == c
  {
    if 'A' <= c <= 'Z' then (c as int + 32) as char else c
  }

  function Lower(s: string): (r: string)
    ensures |r| == |s|
    ensures forall i :: 0 <= i < |s| ==> r[i] == LowerChar(s[i])
  {
    if s == [] then [] else [LowerChar(s[0])] + Lower(s[1..])
  }

  /** `needle` occurs as a contiguous piece of `hay`. */
  predicate Contains(hay: string, needle: string)
  {
    needle <= hay || (hay != [] && Contains(hay[1..], needle))
  }

  /** `needle` starts at position `k` of `hay`. */
  ghost predicate OccursAt(hay: string, needle: string, k: int)
  {
    0 <= k <= |hay| - |needle| && hay[k..k + |needle|] == needle
  }

  /** `Contains` agrees with the positional reading of "occurs somewhere". */
  lemma {:induction false} ContainsAt(hay: string, needle: string)
    ensures Contains(hay, needle) <==> exists k :: OccursAt(hay, needle, k)
  {
    if needle <= hay {
      assert OccursAt(hay, needle, 0);
    }
    if hay != [] {
      ContainsAt(hay[1..], needle);
      if Contains(hay[1..], needle) {
        var k :| OccursAt(hay[1..], needle, k);
        assert hay[k + 1..k + 1 + |needle|] == hay[1..][k..k + |needle|];
        assert OccursAt(hay, needle, k + 1);
      }
      if exists k :: OccursAt(hay, needle, k) {
        var k :| OccursAt(hay, needle, k);
        if k > 0 {
          assert hay[1..][k - 1..k - 1 + |needle|] == hay[k..k + |needle|];
          assert OccursAt(hay[1..], needle, k - 1);
        } else {
          assert needle <= hay;
        }
      }
    } else if exists k :: OccursAt(hay, needle, k) {
      var k :| OccursAt(hay, needle, k);
      assert needle == [];
    }
  }

  /** Folding a string a second time changes nothing. */
  lemma {:induction false} LowerIdempotent(s: string)
    ensures Lower(Lower(s)) == Lower(s)
  {
  }

  /** Folding commutes with taking a slice. */
  lemma {:induction false} LowerSlice(s: string, i: int, j: int)
    requires 0 <= i <= j <= |s|
    ensures Lower(s)[i..j] == Lower(s[i..j])
  {
    var t := s[i..j];
    forall k | 0 <= k < j - i ensures Lower(s)[i..j][k] == Lower(t)[k] {
      assert t[k] == s[i + k];
    }
  }

  /** An exact occurrence survives case folding, and a folded occurrence still needs room. */
  lemma {:induction false} FoldedOccurrence(hay: string, needle: string)
    ensures Contains(hay, needle) ==> Contains(Lower(hay), Lower(needle))
    ensures Contains(Lower(hay), Lower(needle)) ==> |needle| <= |hay|
  {
    ContainsAt(hay, needle);
    ContainsAt(Lower(hay), Lower(needle));
    if Contains(hay, needle) {
      var k :| OccursAt(hay, needle, k);
      LowerSlice(hay, k, k + |needle|);
      assert OccursAt(Lower(hay), Lower(needle), k);
    }
  }

  /** The test behind `field__icontains=query`: true exactly when the lower-cased query
      occurs somewhere in the lower-cased string. So the empty query matches every string, an
      occurrence with the same case matches, and a match needs a string at least as long as
      the query. */
  function ContainsIgnoringCase(hay: string, needle: string): (ok: bool)
    ensures needle == [] ==> ok
    ensures Contains(hay, needle) ==> ok
    ensures ok ==> |needle| <= |hay|
    ensures ok ==> exists k :: OccursAt(Lower(hay), Lower(needle), k)
    ensures (exists k :: OccursAt(Lower(hay), Lower(needle), k)) ==> ok
  {
    FoldedOccurrence(hay, needle);
    ContainsAt(Lower(hay), Lower(needle));
    Contains(Lower(hay), Lower(needle))
  }

  /** Case does not matter on either side: folding the string or the query first gives the
      same answer. */
  lemma {:induction false} CaseDoesNotMatter(hay: string, needle: string)
    ensures ContainsIgnoringCase(Lower(hay), needle) == ContainsIgnoringCase(hay, needle)
    ensures ContainsIgnoringCase(hay, Lower(needle)) == ContainsIgnoringCase(hay, needle)
  {
    LowerIdempotent(hay);
    LowerIdempotent(needle);
  }

  /** Lexicographic order on strings by character code; a prefix comes first. */
  predicate StrLe(s: string, t: string)
  {
    if s == [] then true
    else if t == [] then false
    else if s[0] != t[0] then s[0] < t[0]
    else StrLe(s[1..], t[1..])
  }

  lemma {:induction false} StrLeTotal(s: string, t: string)
    ensures StrLe(s, t) || StrLe(t, s)
  {
    if s != [] && t != [] && s[0] == t[0] {
      StrLeTotal(s[1..], t[1..]);
    }
  }

  lemma {:induction false} StrLeReflexive(s: string)
    ensures StrLe(s, s)
  {
    if s != [] {
      StrLeReflexive(s[1..]);
    }
  }

  lemma {:induction false} StrLeAntisymmetric(s: string, t: string)
    requires StrLe(s, t) && StrLe(t, s)
    ensures s == t
  {
    if s != [] && t != [] {
      StrLeAntisymmetric(s[1..], t[1..]);
      assert s == [s[0]] + s[1..] && t == [t[0]] + t[1..];
    }
  }

  lemma {:induction false} StrLeTransitive(s: string, t: string, u: string)
    requires StrLe(s, t) && StrLe(t, u)
    ensures StrLe(s, u)
  {
    if s != [] && t != [] && u != [] && s[0] == t[0] && t[0] == u[0] {
      StrLeTransitive(s[1..], t[1..], u[1..]);
    }
  }
}
