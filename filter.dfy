/**
 The name filter of the Pokemon list page: the list of `{name, url}` records is
 narrowed to the records whose lower-cased name contains the lower-cased search
 term, keeping their order. Lower-casing is ASCII case folding; `includes` is the
 substring test of JavaScript strings.
 */
module PokemonFilter {

  /** One entry of the list response: a name and the URL of its detail record. */
  datatype Pokemon = Pokemon(name: string, url: string)

  // ---------------------------------------------------------------------------
  // Case folding
  // ---------------------------------------------------------------------------

  /** ASCII lower-casing of one character; every other character is kept. */
  function LowerChar(c: char): char
  {
    if 'A' <= c <= 'Z' then (c as int - 'A' as int + 'a' as int) as char else c
  }

  /** `toLowerCase` on ASCII: the string folded character by character. */
  function Lower(s: string): (r: string)
    ensures |r| == |s|
    ensures forall i :: 0 <= i < |s| ==> r[i] == LowerChar(s[i])
    ensures forall i :: 0 <= i < |r| ==> !('A' <= r[i] <= 'Z')
  {
    if s == [] then [] else [LowerChar(s[0])] + Lower(s[1..])
  }

  /** Two characters that are equal, or the upper- and lower-case form of one ASCII letter. */
  predicate CaseVariants(c: char, d: char)
  {
    || c == d
    || ('A' <= c <= 'Z' && d as int == c as int + 32)
    || ('A' <= d <= 'Z' && c as int == d as int + 32)
  }

  /** Two strings that differ at most in the letter case of their characters. */
  ghost predicate SameIgnoringCase(s: string, t: string)
  {
    |s| == |t| && forall i :: 0 <= i < |s| ==> CaseVariants(s[i], t[i])
  }

  /** Folding twice folds no further, and strings equal up to case fold to one string. */
  lemma LowerFolds(s: string, t: string)
    ensures Lower(Lower(s)) == Lower(s)
    ensures SameIgnoringCase(s, t) <==> Lower(s) == Lower(t)
  {
    if Lower(s) == Lower(t) {
      forall i | 0 <= i < |s| ensures CaseVariants(s[i], t[i]) {
        assert Lower(s)[i] == Lower(t)[i];
      }
    }
    if SameIgnoringCase(s, t) {
      forall i | 0 <= i < |s| ensures Lower(s)[i] == Lower(t)[i] {
        assert CaseVariants(s[i], t[i]);
      }
    }
  }

  // ---------------------------------------------------------------------------
  // Substring test
  // ---------------------------------------------------------------------------

  /** `hay.includes(needle)`: some suffix of `hay` starts with `needle`. */
  function Includes(hay: string, needle: string): bool
    decreases |hay|
  {
    needle <= hay || (hay != [] && Includes(hay[1..], needle))
  }

  /** `needle` occurs in `hay` starting at index `i`. */
  ghost predicate OccursAt(hay: string, needle: string, i: int)
  {
    0 <= i && i + |needle| <= |hay| && hay[i..i + |needle|] == needle
  }

  /** An `Includes` answer of true has an index where the needle occurs. */
  lemma {:induction false} IncludesWitness(hay: string, needle: string) returns (i: nat)
    requires Includes(hay, needle)
    ensures OccursAt(hay, needle, i)
    decreases |hay|
  {
    if needle <= hay {
      i := 0;
      assert hay[..|needle|] == needle;
    } else {
      var j := IncludesWitness(hay[1..], needle);
      i := j + 1;
      assert hay[1..][j..j + |needle|] == hay[i..i + |needle|];
    }
  }

  /** An occurrence at any index makes `Includes` answer true. */
  lemma {:induction false} OccursIncludes(hay: string, needle: string, i: int)
    requires OccursAt(hay, needle, i)
    ensures Includes(hay, needle)
    decreases i
  {
    if i == 0 {
      assert needle <= hay;
    } else {
      assert hay[1..][i - 1..i - 1 + |needle|] == hay[i..i + |needle|];
      OccursIncludes(hay[1..], needle, i - 1);
    }
  }

  /** `Includes` holds exactly when the needle occurs at some index of the haystack. */
  lemma IncludesIff(hay: string, needle: string)
    ensures Includes(hay, needle) <==> exists i :: OccursAt(hay, needle, i)
  {
    if Includes(hay, needle) {
      var i := IncludesWitness(hay, needle);
    }
    if i :| OccursAt(hay, needle, i) {
      OccursIncludes(hay, needle, i);
    }
  }

  /** The empty string is contained in every string. */
  lemma IncludesEmpty(hay: string)
    ensures Includes(hay, [])
  {
  }

  /** Containment is transitive: a string inside a substring of `a` is inside `a`. */
  lemma IncludesTransitive(a: string, b: string, c: string)
    requires Includes(a, b) && Includes(b, c)
    ensures Includes(a, c)
  {
    var i := IncludesWitness(a, b);
    var j := IncludesWitness(b, c);
    forall k | 0 <= k < |c| ensures a[i + j..i + j + |c|][k] == c[k] {
      assert c[k] == b[j..j + |c|][k] == b[j + k];
      assert b[j + k] == a[i..i + |b|][j + k] == a[i + j + k];
    }
    assert a[i + j..i + j + |c|] == c;
    OccursIncludes(a, c, i + j);
  }

  // ---------------------------------------------------------------------------
  // The filter
  // ---------------------------------------------------------------------------

  /** The predicate passed to `filter`: the folded name contains the folded term. */
  predicate Matches(p: Pokemon, term: string)
  {
    Includes(Lower(p.name), Lower(term))
  }

  /** `pokemons.filter(...)`: the entries that match, in their original order. */
  function Filter(ps: seq<Pokemon>, term: string): (r: seq<Pokemon>)
    ensures |r| <= |ps|
    ensures forall k :: 0 <= k < |r| ==> Matches(r[k], term)
  {
    if ps == [] then []
    else (if Matches(ps[0], term) then [ps[0]] else []) + Filter(ps[1..], term)
  }

  /** Positions listed in strictly increasing order. */
  ghost predicate Increasing(idx: seq<nat>)
  {
    forall k, l :: 0 <= k < l < |idx| ==> idx[k] < idx[l]
  }

  /** Every position moved up by one, for the positions of a list's tail. */
  function Shifted(idx: seq<nat>): (r: seq<nat>)
    ensures |r| == |idx|
    ensures forall k :: 0 <= k < |r| ==> r[k] == idx[k] + 1
    ensures forall j :: j in r <==> j >= 1 && j - 1 in idx
  {
    if idx == [] then [] else [idx[0] + 1] + Shifted(idx[1..])
  }

  /** Shifting keeps the order, and so does putting position 0 in front. */
  lemma ShiftedIncreasing(idx: seq<nat>)
    requires Increasing(idx)
    ensures Increasing(Shifted(idx)) && Increasing([0] + Shifted(idx))
  {
    var r := Shifted(idx);
    forall k, l | 0 <= k < l < |[0] + r| ensures ([0] + r)[k] < ([0] + r)[l] {
      assert ([0] + r)[l] == r[l - 1];
    }
  }

  /**
   The result is the subsequence of the input picked out by the matching
   positions: `idx` lists, in increasing order, exactly the positions whose
   entry matches, and the k-th result entry is the entry at `idx[k]`.
   */
  lemma {:induction false} FilterPositions(ps: seq<Pokemon>, term: string) returns (idx: seq<nat>)
    ensures |idx| == |Filter(ps, term)|
    ensures forall k :: 0 <= k < |idx| ==> idx[k] < |ps| && Filter(ps, term)[k] == ps[idx[k]]
    ensures Increasing(idx)
    ensures forall j :: 0 <= j < |ps| ==> (Matches(ps[j], term) <==> j in idx)
  {
    if ps == [] {
      idx := [];
    } else {
      var rest := FilterPositions(ps[1..], term);
      var first := Matches(ps[0], term);
      idx := if first then [0] + Shifted(rest) else Shifted(rest);
      ShiftedIncreasing(rest);
      PositionsPickEntries(ps, Filter(ps, term), Filter(ps[1..], term), rest, first);
      PositionsPickMatches(ps, term, rest, first);
    }
  }

  /** The entries step of `FilterPositions`: positions of the tail, shifted, pick the result. */
  lemma PositionsPickEntries(ps: seq<Pokemon>, r: seq<Pokemon>, tail: seq<Pokemon>, rest: seq<nat>, first: bool)
    requires ps != [] && r == if first then [ps[0]] + tail else tail
    requires |rest| == |tail|
    requires forall k :: 0 <= k < |rest| ==> rest[k] < |ps| - 1 && tail[k] == ps[1..][rest[k]]
    ensures var idx := if first then [0] + Shifted(rest) else Shifted(rest);
      |idx| == |r| && forall k :: 0 <= k < |idx| ==> idx[k] < |ps| && r[k] == ps[idx[k]]
  {
    var shifted := Shifted(rest);
    var idx := if first then [0] + shifted else shifted;
    forall k | 0 <= k < |idx| ensures idx[k] < |ps| && r[k] == ps[idx[k]] {
      var k' := if first then k - 1 else k;
      if k' >= 0 {
        assert idx[k] == shifted[k'] == rest[k'] + 1;
        assert r[k] == tail[k'] == ps[1..][rest[k']];
      }
    }
  }

  /** The matching step of `FilterPositions`: a position is listed exactly when its entry matches. */
  lemma PositionsPickMatches(ps: seq<Pokemon>, term: string, rest: seq<nat>, first: bool)
    requires ps != [] && first == Matches(ps[0], term)
    requires forall j :: 0 <= j < |ps| - 1 ==> (Matches(ps[1..][j], term) <==> j in rest)
    ensures var idx := if first then [0] + Shifted(rest) else Shifted(rest);
      forall j :: 0 <= j < |ps| ==> (Matches(ps[j], term) <==> j in idx)
  {
    var shifted := Shifted(rest);
    var idx := if first then [0] + shifted else shifted;
    assert 0 !in shifted;
    forall j | 1 <= j < |ps| ensures (Matches(ps[j], term) <==> j in idx) {
      assert ps[j] == ps[1..][j - 1];
      assert Matches(ps[1..][j - 1], term) <==> j - 1 in rest;
      assert j in shifted <==> j - 1 in rest;
    }
  }

  /** An entry is in the result exactly when it is in the input and matches. */
  lemma {:induction false} FilterMembers(ps: seq<Pokemon>, term: string, p: Pokemon)
    ensures p in Filter(ps, term) <==> p in ps && Matches(p, term)
  {
    if ps != [] {
      FilterMembers(ps[1..], term, p);
      assert ps == [ps[0]] + ps[1..];
    }
  }

  /** The empty search term keeps every entry: "" is inside every name. */
  lemma {:induction false} FilterEmptyTerm(ps: seq<Pokemon>)
    ensures Filter(ps, "") == ps
  {
    if ps != [] {
      IncludesEmpty(Lower(ps[0].name));
      FilterEmptyTerm(ps[1..]);
    }
  }

  /** Terms that differ only in letter case filter alike. */
  lemma {:induction false} FilterCaseInsensitive(ps: seq<Pokemon>, t1: string, t2: string)
    requires SameIgnoringCase(t1, t2)
    ensures Filter(ps, t1) == Filter(ps, t2)
  {
    LowerFolds(t1, t2);
    if ps != [] {
      FilterCaseInsensitive(ps[1..], t1, t2);
    }
  }

  /** Filtering a filtered list with the same term changes nothing. */
  lemma {:induction false} FilterIdempotent(ps: seq<Pokemon>, term: string)
    ensures Filter(Filter(ps, term), term) == Filter(ps, term)
  {
    if ps != [] {
      var tail := Filter(ps[1..], term);
      FilterIdempotent(ps[1..], term);
      if Matches(ps[0], term) {
        assert Filter(ps, term) == [ps[0]] + tail;
        assert ([ps[0]] + tail)[1..] == tail;
        assert Filter([ps[0]] + tail, term) == [ps[0]] + Filter(tail, term);
      } else {
        assert Filter(ps, term) == tail;
      }
    }
  }

  /**
   Extending the search term only narrows the result: when the folded old term
   occurs in the folded new one (typing more letters), filtering by the new term
   equals filtering the old result by the new term.
   */
  lemma {:induction false} FilterNarrows(ps: seq<Pokemon>, t1: string, t2: string)
    requires Includes(Lower(t2), Lower(t1))
    ensures Filter(Filter(ps, t1), t2) == Filter(ps, t2)
  {
    if ps != [] {
      var tail := Filter(ps[1..], t1);
      FilterNarrows(ps[1..], t1, t2);
      if Matches(ps[0], t1) {
        assert Filter(ps, t1) == [ps[0]] + tail;
        assert ([ps[0]] + tail)[1..] == tail;
      } else if Matches(ps[0], t2) {
        IncludesTransitive(Lower(ps[0].name), Lower(t2), Lower(t1));
        assert false;
      } else {
        assert Filter(ps, t1) == tail;
      }
    }
  }
}
