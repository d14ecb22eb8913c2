/**
 * colors.go: the CIE L*a*b* observation value fed to k-means, and the palette
 * type whose sort.Interface methods order colours by descending lightness.
 * Float64 coordinates are modelled as reals (no NaN, no rounding).
 */
module Colors {

  /** A colour as lightness L, green-red A and blue-yellow B. */
  datatype ColorLab = ColorLab(L: real, A: real, B: real) {

    /** The point this colour occupies in the 3-dimensional clustering space. */
    function Coordinates(): (pos: seq<real>)
      ensures |pos| == 3 && pos[0] == L
    {
      [L, A, B]
    }

    /**
     * Squared Euclidean distance to the first three coordinates of `pos`;
     * Go indexes pos[0], pos[1], pos[2] and panics on a shorter slice.
     */
    function Distance(pos: seq<real>): (d: real)
      requires |pos| >= 3
      ensures d >= 0.0
    {
      var dx := L - pos[0];
      var dy := A - pos[1];
      var dz := B - pos[2];
      dx * dx + dy * dy + dz * dz
    }
  }

  /** The colour whose L, A, B are the first three coordinates of a cluster centre. */
  function FromCoordinates(pos: seq<real>): (c: ColorLab)
    requires |pos| >= 3
    ensures c.Coordinates() == pos[..3]
  {
    ColorLab(pos[0], pos[1], pos[2])
  }

  /** Coordinates and FromCoordinates are inverse to each other on three coordinates. */
  lemma CoordinatesRoundTrip(c: ColorLab, pos: seq<real>)
    requires |pos| >= 3
    ensures FromCoordinates(c.Coordinates()) == c
    ensures FromCoordinates(pos).Coordinates() == pos[..3]
  {
  }

  /** A colour is at distance zero from its own coordinates. */
  lemma DistanceToSelf(c: ColorLab)
    ensures c.Distance(c.Coordinates()) == 0.0
  {
  }

  /** Distance between two colours does not depend on which one is asked. */
  lemma DistanceSymmetric(a: ColorLab, b: ColorLab)
    ensures a.Distance(b.Coordinates()) == b.Distance(a.Coordinates())
  {
  }

  /** Only the first three coordinates take part in a distance. */
  lemma DistanceReadsThreeCoordinates(c: ColorLab, pos: seq<real>)
    requires |pos| >= 3
    ensures c.Distance(pos) == c.Distance(pos[..3])
    ensures c.Distance(pos) == c.Distance(FromCoordinates(pos).Coordinates())
  {
    var q := pos[..3];
    assert q[0] == pos[0] && q[1] == pos[1] && q[2] == pos[2];
    var r := FromCoordinates(pos).Coordinates();
    assert r[0] == pos[0] && r[1] == pos[1] && r[2] == pos[2];
  }

  /** `type Palette []ColorLab`: a slice whose elements Swap updates in place. */
  type Palette = array<ColorLab>

  /** sort.Interface Len: the number of colours. */
  function Len(p: Palette): (n: int)
    reads p
    ensures n == |p[..]|
  {
    p.Length
  }

  /**
   * sort.Interface Less: colour i sorts before colour j when it is strictly
   * lighter, so the order is by descending lightness and a colour never sorts
   * before one that is as light as it.
   */
  predicate Less(p: Palette, i: int, j: int)
    requires 0 <= i < p.Length && 0 <= j < p.Length
    reads p
    ensures Less(p, i, j) <==> p[j].L < p[i].L
    ensures Less(p, i, j) ==> i != j && p[i] != p[j]
  {
    p[i].L > p[j].L
  }

  /** Less is a strict weak order, as sort.Sort requires of it. */
  lemma LessIsStrictWeakOrder(p: Palette)
    ensures forall i | 0 <= i < p.Length :: !Less(p, i, i)
    ensures forall i, j, k | 0 <= i < p.Length && 0 <= j < p.Length && 0 <= k < p.Length ::
      Less(p, i, j) && Less(p, j, k) ==> Less(p, i, k)
    ensures forall i, j, k | 0 <= i < p.Length && 0 <= j < p.Length && 0 <= k < p.Length ::
      !Less(p, i, j) && !Less(p, j, i) && !Less(p, j, k) && !Less(p, k, j) ==>
        !Less(p, i, k) && !Less(p, k, i)
  {
  }

  /** sort.Interface Swap: exchanges colours i and j in place. */
  method Swap(p: Palette, i: int, j: int)
    requires 0 <= i < p.Length && 0 <= j < p.Length
    modifies p
    ensures p[i] == old(p[j]) && p[j] == old(p[i])
    ensures forall k :: 0 <= k < p.Length && k != i && k != j ==> p[k] == old(p[k])
    ensures multiset(p[..]) == old(multiset(p[..]))
  {
    p[i], p[j] := p[j], p[i];
  }

  /** Every colour is at least as light as every colour after it. */
  ghost predicate NonIncreasingL(s: seq<ColorLab>) {
    forall i, j :: 0 <= i < j < |s| ==> s[i].L >= s[j].L
  }

  /** `sorted` is a reordering of `s` by non-increasing lightness. */
  ghost predicate IsLightnessOrder(sorted: seq<ColorLab>, s: seq<ColorLab>) {
    multiset(sorted) == multiset(s) && NonIncreasingL(sorted)
  }

  /**
   * sort.Sort(p): afterwards no colour is Less than one before it (so lightness
   * does not increase) and p holds the same colours. The model sorts by
   * insertion, through Len, Less and Swap only, as sort.Sort does for short
   * slices; the order of equally light colours is not specified.
   */
  method Sort(p: Palette)
    modifies p
    ensures forall i, j :: 0 <= i < j < p.Length ==> !Less(p, j, i)
    ensures IsLightnessOrder(p[..], old(p[..]))
  {
    var n := Len(p);
    var i := 0;
    while i < n
      invariant n == p.Length
      invariant 0 <= i <= n
      invariant forall a, b :: 0 <= a < b < i ==> p[a].L >= p[b].L
      invariant multiset(p[..]) == old(multiset(p[..]))
    {
      Insert(p, i);
      i := i + 1;
    }
  }

  /** One insertion step: sinks p[i] into the sorted prefix p[..i]. */
  method Insert(p: Palette, i: int)
    requires 0 <= i < p.Length
    requires forall a, b :: 0 <= a < b < i ==> p[a].L >= p[b].L
    modifies p
    ensures forall a, b :: 0 <= a < b <= i ==> p[a].L >= p[b].L
    ensures multiset(p[..]) == old(multiset(p[..]))
    ensures p[i + 1..] == old(p[i + 1..])
  {
    var j := i;
    while j > 0 && Less(p, j, j - 1)
      invariant 0 <= j <= i
      invariant forall k :: i < k < p.Length ==> p[k] == old(p[k])
      invariant forall a, b :: 0 <= a < b <= i && a != j && b != j ==> p[a].L >= p[b].L
      invariant forall b :: j < b <= i ==> p[j].L > p[b].L
      invariant multiset(p[..]) == old(multiset(p[..]))
    {
      Swap(p, j, j - 1);
      j := j - 1;
    }
  }

  /** Removing one colour keeps the rest in order and takes it out of the multiset. */
  lemma RemoveAt(s: seq<ColorLab>, j: int)
    requires 0 <= j < |s|
    ensures multiset(s[..j] + s[j + 1..]) == multiset(s) - multiset{s[j]}
    ensures NonIncreasingL(s) ==> NonIncreasingL(s[..j] + s[j + 1..])
  {
    var rest := s[..j] + s[j + 1..];
    assert s == s[..j] + [s[j]] + s[j + 1..];
    if NonIncreasingL(s) {
      forall a, b | 0 <= a < b < |rest| ensures rest[a].L >= rest[b].L {
        var a' := if a < j then a else a + 1;
        var b' := if b < j then b else b + 1;
        assert rest[a] == s[a'] && rest[b] == s[b'];
      }
    }
  }

  /** In a lightness order the first colour is at least as light as any other. */
  lemma FirstIsLightest(s: seq<ColorLab>, x: ColorLab) returns (k: int)
    requires NonIncreasingL(s) && x in multiset(s)
    ensures 0 <= k < |s| && s[k] == x && s[0].L >= x.L
  {
    k :| 0 <= k < |s| && s[k] == x;
  }

  /**
   * If s2 with its j-th colour removed has the lightness profile of s1 after
   * its first colour, and that first colour is as light as s2[0] and s2[j],
   * then s1 and s2 have the same profile.
   */
  lemma ProfileAfterRemoval(s1: seq<ColorLab>, s2: seq<ColorLab>, j: int, rest2: seq<ColorLab>)
    requires NonIncreasingL(s2) && 0 <= j < |s2| && |s1| == |s2|
    requires rest2 == s2[..j] + s2[j + 1..]
    requires s1[0].L == s2[0].L == s2[j].L
    requires forall i :: 0 < i < |s1| ==> s1[i].L == rest2[i - 1].L
    ensures forall i :: 0 <= i < |s1| ==> s1[i].L == s2[i].L
  {
    forall i | 0 < i < |s1| ensures s1[i].L == s2[i].L {
      assert s1[i].L == rest2[i - 1].L;
      if i <= j {
        assert rest2[i - 1] == s2[i - 1];
        assert s2[0].L >= s2[i - 1].L >= s2[i].L >= s2[j].L;
      } else {
        assert rest2[i - 1] == s2[i];
      }
    }
  }

  /**
   * Two lightness orderings of the same colours agree on the lightness at
   * every position: the sort fixes the sequence of L values and leaves only
   * the order among equally light colours open.
   */
  lemma {:induction false} LightnessProfileUnique(s1: seq<ColorLab>, s2: seq<ColorLab>)
    requires multiset(s1) == multiset(s2)
    requires NonIncreasingL(s1) && NonIncreasingL(s2)
    ensures |s1| == |s2|
    ensures forall i :: 0 <= i < |s1| ==> s1[i].L == s2[i].L
  {
    assert |s1| == |multiset(s1)| == |multiset(s2)| == |s2|;
    if |s1| > 0 {
      assert s1[0] in multiset(s2) && s2[0] in multiset(s1);
      var j := FirstIsLightest(s2, s1[0]);
      var _ := FirstIsLightest(s1, s2[0]);
      var rest2 := s2[..j] + s2[j + 1..];
      RemoveAt(s2, j);
      assert s1 == [s1[0]] + s1[1..];
      assert multiset(s1[1..]) == multiset(s1) - multiset{s1[0]};
      assert NonIncreasingL(s1[1..]) by {
        forall a, b | 0 <= a < b < |s1| - 1 ensures s1[1..][a].L >= s1[1..][b].L {
          assert s1[1..][a] == s1[a + 1] && s1[1..][b] == s1[b + 1];
        }
      }
      LightnessProfileUnique(s1[1..], rest2);
      ProfileAfterRemoval(s1, s2, j, rest2);
    }
  }
}
