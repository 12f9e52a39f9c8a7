/** Filesystem paths as sequences of segments.

    A path is written out segment by segment; `Path.Combine(a, b)` of .NET
    appends the segment `b`. No normalisation takes place: a `..` segment is
    an ordinary segment, exactly as `Path.Combine` leaves it in the string. */
module Paths {

  type Segment = string
  type Path = seq<Segment>

  /** `Path.Combine(p, s)` for a relative, single-segment `s`. */
  function Combine(p: Path, s: Segment): (r: Path)
    ensures |r| == |p| + 1
    ensures r[..|p|] == p && r[|p|] == s
  {
    p + [s]
  }

  /** The directory that contains `p`. */
  function Parent(p: Path): (r: Path)
    requires |p| > 0
    ensures |r| == |p| - 1
    ensures Combine(r, p[|p| - 1]) == p
  {
    p[..|p| - 1]
  }

  /** The directories that must exist for `p` to be a directory: `p` and
      every directory on the way to it. */
  function Prefixes(p: Path): set<Path>
    decreases |p|
  {
    if |p| == 0 then {} else Prefixes(Parent(p)) + {p}
  }

  /** `Prefixes(p)` holds exactly the non-empty leading parts of `p`. */
  lemma {:induction false} PrefixesCharacterized(p: Path, q: Path)
    ensures q in Prefixes(p) <==> 0 < |q| <= |p| && q == p[..|q|]
    decreases |p|
  {
    if |p| > 0 {
      PrefixesCharacterized(Parent(p), q);
      assert p[..|p|] == p;
      assert |q| < |p| ==> (q == p[..|q|] <==> q == Parent(p)[..|q|]);
    }
  }

  /** The prefixes of a path are closed under taking the parent. */
  lemma {:induction false} PrefixesParentClosed(p: Path)
    ensures forall q :: q in Prefixes(p) ==> |q| > 0 && (|q| > 1 ==> Parent(q) in Prefixes(p))
    decreases |p|
  {
    if |p| > 0 {
      PrefixesParentClosed(Parent(p));
      if |p| > 1 {
        assert Prefixes(Parent(p)) == Prefixes(Parent(Parent(p))) + {Parent(p)};
      }
    }
  }

  /** The prefixes of a combined path are those of its parent plus itself. */
  lemma {:induction false} PrefixesOfCombine(p: Path, s: Segment)
    ensures Prefixes(Combine(p, s)) == Prefixes(p) + {Combine(p, s)}
  {
    assert Parent(Combine(p, s)) == p;
  }
}
