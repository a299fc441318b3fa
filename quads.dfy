/**
 * Quad reconstruction over a mesh's triangles (is_adjacent, get_different_index,
 * fill_quad_triangles, get_quad_string, Mesh::calculate_quads).
 */
module Quads {
  import opened LinAlg
  import opened Types
  import opened KeyedStore

  /** Field `p` (0, 1 or 2) of a triangle. */
  function Field(t: Triangle, p: nat): U32
    requires p < 3
  {
    if p == 0 then t.i0 else if p == 1 then t.i1 else t.i2
  }

  /** is_adjacent: the twelve shared-pair cases the source spells out. */
  predicate IsAdjacent(a: Triangle, b: Triangle) {
    (a.i0 == b.i0 && a.i1 == b.i1) || (a.i0 == b.i0 && a.i1 == b.i2) ||
    (a.i0 == b.i0 && a.i2 == b.i1) || (a.i0 == b.i0 && a.i2 == b.i2) ||
    (a.i0 == b.i1 && a.i1 == b.i0) || (a.i0 == b.i1 && a.i1 == b.i2) ||
    (a.i0 == b.i1 && a.i2 == b.i0) || (a.i0 == b.i1 && a.i2 == b.i2) ||
    (a.i0 == b.i2 && a.i1 == b.i1) || (a.i0 == b.i2 && a.i1 == b.i0) ||
    (a.i0 == b.i2 && a.i2 == b.i1) || (a.i0 == b.i2 && a.i2 == b.i0)
  }

  /**
   * What the twelve cases amount to: a's first index sits at some position p of b, and
   * a's second or third index sits at another position q of b.
   */
  lemma IsAdjacentMeaning(a: Triangle, b: Triangle)
    ensures IsAdjacent(a, b) <==>
      exists p, q | 0 <= p < 3 && 0 <= q < 3 && p != q ::
        a.i0 == Field(b, p) && (a.i1 == Field(b, q) || a.i2 == Field(b, q))
  {
    if IsAdjacent(a, b) {
      if a.i0 == b.i0 && (a.i1 == b.i1 || a.i2 == b.i1) {
        assert Field(b, 0) == b.i0 && Field(b, 1) == b.i1;
      } else if a.i0 == b.i0 {
        assert Field(b, 0) == b.i0 && Field(b, 2) == b.i2;
      } else if a.i0 == b.i1 && (a.i1 == b.i0 || a.i2 == b.i0) {
        assert Field(b, 1) == b.i1 && Field(b, 0) == b.i0;
      } else if a.i0 == b.i1 {
        assert Field(b, 1) == b.i1 && Field(b, 2) == b.i2;
      } else if a.i1 == b.i1 || a.i2 == b.i1 {
        assert Field(b, 2) == b.i2 && Field(b, 1) == b.i1;
      } else {
        assert Field(b, 2) == b.i2 && Field(b, 0) == b.i0;
      }
    }
  }

  /**
   * The predicate is not symmetric, and an edge shared without a's first index goes
   * unnoticed: (0,1,2) and (1,2,5) share the edge {1,2}.
   */
  lemma IsAdjacentIsNotSymmetric()
    ensures IsAdjacent(Triangle(1, 2, 5), Triangle(0, 1, 2))
    ensures !IsAdjacent(Triangle(0, 1, 2), Triangle(1, 2, 5))
  {
  }

  predicate DistinctFields(t: Triangle) {
    t.i0 != t.i1 && t.i1 != t.i2 && t.i0 != t.i2
  }

  predicate IsFieldOf(x: U32, t: Triangle) {
    x == t.i0 || x == t.i1 || x == t.i2
  }

  /** How many of b's fields occur among a's. */
  function SharedCount(a: Triangle, b: Triangle): nat {
    (if IsFieldOf(b.i0, a) then 1 else 0) + (if IsFieldOf(b.i1, a) then 1 else 0) + (if IsFieldOf(b.i2, a) then 1 else 0)
  }

  /**
   * get_different_index: three if-chains, one per position of a's first index in b; a later
   * chain that fires overrides an earlier one, and 0 is returned when none fires.
   */
  function GetDifferentIndex(a: Triangle, b: Triangle): (d: U32)
    ensures !IsAdjacent(a, b) ==> d == 0
    ensures d == 0 || IsFieldOf(d, b)
    ensures DistinctFields(b) && IsFieldOf(a.i0, b) && SharedCount(a, b) == 2 ==>
      IsFieldOf(d, b) && !IsFieldOf(d, a)
  {
    var d1 :=
      if a.i0 == b.i0 && a.i1 == b.i1 then b.i2
      else if a.i0 == b.i0 && a.i1 == b.i2 then b.i1
      else if a.i0 == b.i0 && a.i2 == b.i1 then b.i2
      else if a.i0 == b.i0 && a.i2 == b.i2 then b.i1
      else 0;
    var d2 :=
      if a.i0 == b.i1 && a.i1 == b.i0 then b.i2
      else if a.i0 == b.i1 && a.i1 == b.i2 then b.i0
      else if a.i0 == b.i1 && a.i2 == b.i0 then b.i2
      else if a.i0 == b.i1 && a.i2 == b.i2 then b.i0
      else d1;
    if a.i0 == b.i2 && a.i1 == b.i0 then b.i1
    else if a.i0 == b.i2 && a.i1 == b.i1 then b.i0
    else if a.i0 == b.i2 && a.i2 == b.i0 then b.i1
    else if a.i0 == b.i2 && a.i2 == b.i1 then b.i0
    else d2
  }

  // ---------------------------------------------------------------------------
  // Neighbour lists (fill_quad_triangles)

  datatype QuadTriangle = QuadTriangle(main: Triangle, adjacent: seq<Triangle>)

  /** The triangles of `tris`, in order, that differ from `t` and that `t` is adjacent to. */
  function Neighbours(tris: seq<Triangle>, t: Triangle): seq<Triangle>
    decreases |tris|
  {
    if tris == [] then []
    else
      var last := tris[|tris| - 1];
      Neighbours(tris[..|tris| - 1], t) + (if last != t && IsAdjacent(t, last) then [last] else [])
  }

  lemma {:induction false} NeighboursMembership(tris: seq<Triangle>, t: Triangle)
    ensures |Neighbours(tris, t)| <= |tris|
    ensures forall x :: x in Neighbours(tris, t) <==> x in tris && x != t && IsAdjacent(t, x)
    decreases |tris|
  {
    if tris != [] {
      var init := tris[..|tris| - 1];
      NeighboursMembership(init, t);
      assert tris == init + [tris[|tris| - 1]];
    }
  }

  /**
   * fill_quad_triangles: appends (without clearing) one entry per triangle, in order, holding
   * that triangle and its neighbour list.
   */
  method FillQuadTriangles(tris: seq<Triangle>, quadTriangles: seq<QuadTriangle>) returns (r: seq<QuadTriangle>)
    ensures |r| == |quadTriangles| + |tris|
    ensures r[..|quadTriangles|] == quadTriangles
    ensures forall i | 0 <= i < |tris| :: r[|quadTriangles| + i] == QuadTriangle(tris[i], Neighbours(tris, tris[i]))
  {
    r := quadTriangles;
    var size := |tris|;
    var i := 0;
    while i < size
      invariant 0 <= i <= size
      invariant |r| == |quadTriangles| + i
      invariant r[..|quadTriangles|] == quadTriangles
      invariant forall k | 0 <= k < i :: r[|quadTriangles| + k] == QuadTriangle(tris[k], Neighbours(tris, tris[k]))
    {
      var main := tris[i];
      var adjacent: seq<Triangle> := [];
      var j := 0;
      while j < size
        invariant 0 <= j <= size
        invariant adjacent == Neighbours(tris[..j], main)
      {
        var tri := tris[j];
        assert tris[..j + 1][..j] == tris[..j];
        if !(main == tri || !IsAdjacent(main, tri)) {
          adjacent := adjacent + [tri];
        }
        j := j + 1;
      }
      assert tris[..size] == tris;
      r := r + [QuadTriangle(main, adjacent)];
      i := i + 1;
    }
  }

  // ---------------------------------------------------------------------------
  // Best match (the min_dot loop of calculate_quads)

  /** The starting value of min_dot: a neighbour is chosen only if it scores below it. */
  const InitialMinDot: real := 1000.0

  /** Every triangle's first index addresses a normal. */
  predicate FirstIndicesBelow(tris: seq<Triangle>, n: nat) {
    forall k | 0 <= k < |tris| :: tris[k].i0 < n
  }

  /** |dot(normals[main.i0], normals[adj.i0])|, the score a candidate neighbour gets. */
  function Score(normals: seq<Vec3>, main: Triangle, adj: Triangle): real
    requires main.i0 < |normals| && adj.i0 < |normals|
  {
    AbsDot(normals[main.i0], normals[adj.i0])
  }

  /** (best_match, min_dot) after scanning `adj` in order with a strict `<`. */
  function Best(adj: seq<Triangle>, main: Triangle, normals: seq<Vec3>): (Triangle, real)
    requires main.i0 < |normals| && FirstIndicesBelow(adj, |normals|)
    decreases |adj|
  {
    if adj == [] then (Triangle(0, 0, 0), InitialMinDot)
    else
      var init := adj[..|adj| - 1];
      var last := adj[|adj| - 1];
      var prev := Best(init, main, normals);
      var d := Score(normals, main, last);
      if d < prev.1 then (last, d) else prev
  }

  /**
   * The best match is the FIRST neighbour with the strictly smallest score below 1000;
   * when no neighbour scores below 1000 it stays the default Triangle().
   */
  lemma {:induction false} BestIsFirstMinimum(adj: seq<Triangle>, main: Triangle, normals: seq<Vec3>)
    requires main.i0 < |normals| && FirstIndicesBelow(adj, |normals|)
    ensures var (b, m) := Best(adj, main, normals);
      (b == Triangle(0, 0, 0) && m == InitialMinDot &&
       forall j | 0 <= j < |adj| :: Score(normals, main, adj[j]) >= InitialMinDot) ||
      (exists k | 0 <= k < |adj| ::
         b == adj[k] && m == Score(normals, main, adj[k]) && m < InitialMinDot &&
         (forall j | 0 <= j < k :: Score(normals, main, adj[j]) > m) &&
         (forall j | 0 <= j < |adj| :: Score(normals, main, adj[j]) >= m))
    decreases |adj|
  {
    if adj != [] {
      var init := adj[..|adj| - 1];
      assert FirstIndicesBelow(init, |normals|) by {
        forall k | 0 <= k < |init| ensures init[k].i0 < |normals| { assert init[k] == adj[k]; }
      }
      BestIsFirstMinimum(init, main, normals);
      var last := adj[|adj| - 1];
      var prev := Best(init, main, normals);
      var d := Score(normals, main, last);
      if d < prev.1 {
        var k := |adj| - 1;
        assert adj[k] == last;
        forall j | 0 <= j < k ensures Score(normals, main, adj[j]) > d {
          assert adj[j] == init[j];
        }
      } else {
        if prev.0 == Triangle(0, 0, 0) && prev.1 == InitialMinDot &&
           forall j | 0 <= j < |init| :: Score(normals, main, init[j]) >= InitialMinDot {
          forall j | 0 <= j < |adj| ensures Score(normals, main, adj[j]) >= InitialMinDot {
            if j < |init| { assert adj[j] == init[j]; }
          }
        } else {
          var k :| 0 <= k < |init| && prev.0 == init[k] && prev.1 == Score(normals, main, init[k]) &&
            prev.1 < InitialMinDot &&
            (forall j | 0 <= j < k :: Score(normals, main, init[j]) > prev.1) &&
            (forall j | 0 <= j < |init| :: Score(normals, main, init[j]) >= prev.1);
          assert adj[k] == init[k];
          forall j | 0 <= j < k ensures Score(normals, main, adj[j]) > prev.1 {
            assert adj[j] == init[j];
          }
          forall j | 0 <= j < |adj| ensures Score(normals, main, adj[j]) >= prev.1 {
            if j < |init| { assert adj[j] == init[j]; }
          }
        }
      }
    }
  }

  // ---------------------------------------------------------------------------
  // Candidate quads

  /** The quad candidate calculate_quads builds for triangle `main`. */
  function CandidateQuad(main: Triangle, tris: seq<Triangle>, normals: seq<Vec3>): Quad
    requires main.i0 < |normals| && FirstIndicesBelow(tris, |normals|)
  {
    var adj := Neighbours(tris, main);
    NeighboursFirstIndices(tris, main, |normals|);
    var best := Best(adj, main, normals).0;
    Quad(main.i0, main.i1, main.i2, GetDifferentIndex(main, best), main, best)
  }

  /**
   * A candidate is the main triangle's three indices and the main triangle as t1; t2 is the
   * first strictly best-scoring neighbour, or the default triangle when no neighbour beats the
   * initial bound (in particular when there is none); the fourth index is t2's index not in t1.
   */
  lemma CandidateQuadMeaning(main: Triangle, tris: seq<Triangle>, normals: seq<Vec3>)
    requires main.i0 < |normals| && FirstIndicesBelow(tris, |normals|)
    ensures var q := CandidateQuad(main, tris, normals);
      && q.i0 == main.i0 && q.i1 == main.i1 && q.i2 == main.i2 && q.t1 == main
      && q.i3 == GetDifferentIndex(main, q.t2)
      && (q.t2 == Triangle(0, 0, 0) || q.t2 in Neighbours(tris, main))
      && (Neighbours(tris, main) == [] ==> q.t2 == Triangle(0, 0, 0))
  {
    NeighboursFirstIndices(tris, main, |normals|);
    BestIsFirstMinimum(Neighbours(tris, main), main, normals);
  }

  lemma NeighboursFirstIndices(tris: seq<Triangle>, t: Triangle, n: nat)
    requires FirstIndicesBelow(tris, n)
    ensures FirstIndicesBelow(Neighbours(tris, t), n)
  {
    NeighboursMembership(tris, t);
    var adj := Neighbours(tris, t);
    forall k | 0 <= k < |adj| ensures adj[k].i0 < n {
      assert adj[k] in tris;
    }
  }

  /** One candidate per triangle, in triangle order. */
  function Candidates(tris: seq<Triangle>, normals: seq<Vec3>): (r: seq<Quad>)
    requires FirstIndicesBelow(tris, |normals|)
    ensures |r| == |tris|
  {
    seq(|tris|, i requires 0 <= i < |tris| => CandidateQuad(tris[i], tris, normals))
  }

  // ---------------------------------------------------------------------------
  // Deduplication key (get_quad_string)

  predicate Sorted(s: seq<U32>) {
    forall a, b | 0 <= a < b < |s| :: s[a] <= s[b]
  }

  /** Inserts x into a sorted sequence. */
  function InsertSorted(x: U32, s: seq<U32>): seq<U32>
  {
    if s == [] || x <= s[0] then [x] + s else [s[0]] + InsertSorted(x, s[1..])
  }

  /** Insertion sort: the reference definition of an ascending ordering. */
  function SortAscending(s: seq<U32>): seq<U32>
  {
    if s == [] then [] else InsertSorted(s[0], SortAscending(s[1..]))
  }

  lemma {:induction false} InsertSortedCorrect(x: U32, s: seq<U32>)
    requires Sorted(s)
    ensures |InsertSorted(x, s)| == |s| + 1
    ensures InsertSorted(x, s)[0] == if s == [] || x <= s[0] then x else s[0]
    ensures Sorted(InsertSorted(x, s)) && multiset(InsertSorted(x, s)) == multiset(s) + multiset{x}
  {
    if s == [] || x <= s[0] {
    } else {
      var tail := s[1..];
      assert Sorted(tail);
      InsertSortedCorrect(x, tail);
      assert s == [s[0]] + tail;
      var t := InsertSorted(x, tail);
      assert s[0] <= t[0];
      assert InsertSorted(x, s) == [s[0]] + t;
    }
  }

  lemma {:induction false} SortAscendingCorrect(s: seq<U32>)
    ensures Sorted(SortAscending(s)) && multiset(SortAscending(s)) == multiset(s)
  {
    if s != [] {
      SortAscendingCorrect(s[1..]);
      InsertSortedCorrect(s[0], SortAscending(s[1..]));
      assert s == [s[0]] + s[1..];
    }
  }

  lemma SortedHeadIsMin(a: seq<U32>, x: U32)
    requires Sorted(a) && x in a
    ensures a[0] <= x
  {
    var i :| 0 <= i < |a| && a[i] == x;
    if i > 0 { assert a[0] <= a[i]; }
  }

  lemma MultisetOfTail(a: seq<U32>)
    requires a != []
    ensures multiset(a[1..]) == multiset(a) - multiset{a[0]}
  {
    assert a == [a[0]] + a[1..];
  }

  /** A sorted arrangement of a multiset is unique. */
  lemma {:induction false} SortedUnique(a: seq<U32>, b: seq<U32>)
    requires Sorted(a) && Sorted(b) && multiset(a) == multiset(b)
    ensures a == b
  {
    assert |a| == |b| by { assert |multiset(a)| == |multiset(b)|; }
    if a != [] {
      assert a[0] in multiset(b) && b[0] in multiset(a);
      SortedHeadIsMin(b, a[0]);
      SortedHeadIsMin(a, b[0]);
      assert a[0] == b[0];
      MultisetOfTail(a);
      MultisetOfTail(b);
      SortedUnique(a[1..], b[1..]);
    }
  }

  function QuadIndices(q: Quad): seq<U32> {
    [q.i0, q.i1, q.i2, q.i3]
  }

  /** The canonical key: the quad's four indices in ascending order. */
  function QuadKey(q: Quad): seq<U32> {
    SortAscending(QuadIndices(q))
  }

  /** Two quads share a key exactly when they have the same four indices, in any order. */
  lemma QuadKeyIff(p: Quad, q: Quad)
    ensures QuadKey(p) == QuadKey(q) <==> multiset(QuadIndices(p)) == multiset(QuadIndices(q))
  {
    SortAscendingCorrect(QuadIndices(p));
    SortAscendingCorrect(QuadIndices(q));
    if multiset(QuadIndices(p)) == multiset(QuadIndices(q)) {
      SortedUnique(QuadKey(p), QuadKey(q));
    }
  }

  /** Exchanges two slots of an array. */
  method Swap(a: array<U32>, i: nat, j: nat)
    requires i < a.Length && j < a.Length
    modifies a
    ensures a[..] == old(a[..])[i := old(a[j])][j := old(a[i])]
    ensures multiset(a[..]) == old(multiset(a[..]))
  {
    a[i], a[j] := a[j], a[i];
  }

  /** Insertion sort in place, standing in for std::sort over the key array. */
  method SortInPlace(a: array<U32>)
    modifies a
    ensures Sorted(a[..]) && multiset(a[..]) == old(multiset(a[..]))
  {
    if a.Length == 0 {
      return;
    }
    var i := 1;
    while i < a.Length
      invariant 1 <= i <= a.Length
      invariant Sorted(a[..i])
      invariant multiset(a[..]) == old(multiset(a[..]))
    {
      var j := i;
      while j > 0 && a[j - 1] > a[j]
        invariant 0 <= j <= i
        invariant multiset(a[..]) == old(multiset(a[..]))
        invariant forall x, y | 0 <= x < y <= i && x != j && y != j :: a[x] <= a[y]
        invariant forall y | j < y <= i :: a[j] < a[y]
      {
        Swap(a, j - 1, j);
        j := j - 1;
      }
      i := i + 1;
    }
    assert a[..i] == a[..];
  }

  /** get_quad_string: sorts a local four-slot array in place and reads it out as the key. */
  method GetQuadString(q: Quad) returns (key: seq<U32>)
    ensures key == QuadKey(q)
  {
    var index := new U32[4];
    index[0], index[1], index[2], index[3] := q.i0, q.i1, q.i2, q.i3;
    assert index[..] == QuadIndices(q);
    SortInPlace(index);
    key := index[..];
    SortAscendingCorrect(QuadIndices(q));
    SortedUnique(key, QuadKey(q));
  }

  // ---------------------------------------------------------------------------
  // First-wins deduplication (flat_hash_map::insert)

  /** The map `insert` builds: for each key, the first candidate that produced it. */
  function FirstByKey(cands: seq<Quad>): map<seq<U32>, Quad>
    decreases |cands|
  {
    if cands == [] then map[]
    else
      var m := FirstByKey(cands[..|cands| - 1]);
      var last := cands[|cands| - 1];
      if QuadKey(last) in m then m else m[QuadKey(last) := last]
  }

  lemma {:induction false} FirstByKeyCovers(cands: seq<Quad>)
    ensures forall i | 0 <= i < |cands| :: QuadKey(cands[i]) in FirstByKey(cands)
    decreases |cands|
  {
    if cands != [] {
      var init := cands[..|cands| - 1];
      FirstByKeyCovers(init);
      forall i | 0 <= i < |cands| ensures QuadKey(cands[i]) in FirstByKey(cands) {
        if i < |init| { assert cands[i] == init[i]; }
      }
    }
  }

  lemma {:induction false} FirstByKeyValues(cands: seq<Quad>)
    ensures forall k | k in FirstByKey(cands) :: QuadKey(FirstByKey(cands)[k]) == k && FirstByKey(cands)[k] in cands
    ensures |FirstByKey(cands)| <= |cands|
    decreases |cands|
  {
    if cands != [] {
      var init := cands[..|cands| - 1];
      FirstByKeyValues(init);
      var m := FirstByKey(init);
      var last := cands[|cands| - 1];
      if QuadKey(last) !in m {
        assert |m[QuadKey(last) := last]| == |m| + 1;
      }
      assert cands == init + [last];
      assert forall x | x in init :: x in cands;
    }
  }

  /** Every candidate's key survives, each kept quad carries its own key, and there are at most as many keys as candidates. */
  lemma FirstByKeyContents(cands: seq<Quad>)
    ensures forall i | 0 <= i < |cands| :: QuadKey(cands[i]) in FirstByKey(cands)
    ensures forall k | k in FirstByKey(cands) :: QuadKey(FirstByKey(cands)[k]) == k && FirstByKey(cands)[k] in cands
    ensures |FirstByKey(cands)| <= |cands|
  {
    FirstByKeyCovers(cands);
    FirstByKeyValues(cands);
  }

  /** An earlier candidate with the same key wins: the first one with a key is the one kept. */
  lemma {:induction false} FirstByKeyKeepsFirst(cands: seq<Quad>, i: nat)
    requires i < |cands|
    requires forall l | 0 <= l < i :: QuadKey(cands[l]) != QuadKey(cands[i])
    ensures QuadKey(cands[i]) in FirstByKey(cands) && FirstByKey(cands)[QuadKey(cands[i])] == cands[i]
    decreases |cands|
  {
    var init := cands[..|cands| - 1];
    if i < |init| {
      assert init[i] == cands[i];
      forall l | 0 <= l < i ensures QuadKey(init[l]) != QuadKey(init[i]) { assert init[l] == cands[l]; }
      FirstByKeyKeepsFirst(init, i);
    } else {
      FirstByKeyValues(init);
      var m := FirstByKey(init);
      assert forall t | 0 <= t < |init| :: QuadKey(init[t]) != QuadKey(cands[i]) by {
        forall t | 0 <= t < |init| ensures QuadKey(init[t]) != QuadKey(cands[i]) { assert init[t] == cands[t]; }
      }
      assert QuadKey(cands[i]) !in m;
    }
  }

  /** The triangles calculate_quads works on: recomputed only when there are none. */
  function TrianglesFor(m: Mesh): seq<Triangle>
    requires m.triangles == [] ==> |m.indices| % 3 == 0
  {
    if m.triangles == [] then Triangulate(m.indices) else m.triangles
  }

  /** The min_dot scan of calculate_quads over one neighbour list. */
  method BestMatch(adjacent: seq<Triangle>, main: Triangle, normals: seq<Vec3>) returns (bestMatch: Triangle, minDot: real)
    requires main.i0 < |normals| && FirstIndicesBelow(adjacent, |normals|)
    ensures (bestMatch, minDot) == Best(adjacent, main, normals)
  {
    bestMatch := Triangle(0, 0, 0);
    minDot := InitialMinDot;
    var j := 0;
    while j < |adjacent|
      invariant 0 <= j <= |adjacent|
      invariant FirstIndicesBelow(adjacent[..j], |normals|)
      invariant (bestMatch, minDot) == Best(adjacent[..j], main, normals)
    {
      var adjTri := adjacent[j];
      assert adjacent[..j + 1][..j] == adjacent[..j];
      var dotVal := AbsDot(normals[main.i0], normals[adjTri.i0]);
      if dotVal < minDot {
        bestMatch := adjTri;
        minDot := dotVal;
      }
      j := j + 1;
    }
    assert adjacent[..j] == adjacent;
  }

  /**
   * `quads` lists the values of the key-to-quad map `temp`, each exactly once, in some order:
   * every entry is the map's value for its own key, every value appears, no key repeats.
   */
  predicate ListsValues(quads: seq<Quad>, temp: map<seq<U32>, Quad>) {
    && |quads| == |temp|
    && (forall l | 0 <= l < |quads| :: QuadKey(quads[l]) in temp && temp[QuadKey(quads[l])] == quads[l])
    && (forall k | k in temp :: temp[k] in quads)
    && (forall a, b | 0 <= a < b < |quads| :: QuadKey(quads[a]) != QuadKey(quads[b]))
  }

  /**
   * Copies the values of the key-to-quad map into a fresh buffer, in an unspecified order:
   * each value exactly once.
   */
  method MapValues(tempQuads: map<seq<U32>, Quad>) returns (quads: seq<Quad>)
    requires forall k | k in tempQuads :: QuadKey(tempQuads[k]) == k
    ensures ListsValues(quads, tempQuads)
  {
    var buffer := new Quad[|tempQuads|];
    var rest := tempQuads.Keys;
    ghost var order: seq<seq<U32>> := [];
    VisitingStart(tempQuads.Keys);
    var n := 0;
    while n < |tempQuads|
      invariant 0 <= n <= |tempQuads| && n == |order|
      invariant |rest| == |tempQuads| - n
      invariant Visiting(order, rest, tempQuads.Keys)
      invariant forall l | 0 <= l < n :: buffer[l] == tempQuads[order[l]]
    {
      var k :| k in rest;
      VisitingStep(order, rest, tempQuads.Keys, k);
      buffer[n] := tempQuads[k];
      order, rest, n := order + [k], rest - {k}, n + 1;
    }
    VisitingDone(order, tempQuads.Keys);
    quads := buffer[..];
    ValuesListed(tempQuads, order, quads);
  }

  /** Values read out along an iteration order list every value once. */
  lemma ValuesListed(tempQuads: map<seq<U32>, Quad>, order: seq<seq<U32>>, quads: seq<Quad>)
    requires forall k | k in tempQuads :: QuadKey(tempQuads[k]) == k
    requires Enumerates(order, tempQuads.Keys)
    requires |quads| == |order| && forall l | 0 <= l < |quads| :: quads[l] == tempQuads[order[l]]
    ensures ListsValues(quads, tempQuads)
  {
    EnumeratesSize(order, tempQuads.Keys);
    assert |tempQuads.Keys| == |tempQuads|;
    forall k | k in tempQuads ensures tempQuads[k] in quads {
      var l :| 0 <= l < |order| && order[l] == k;
      assert quads[l] == tempQuads[k];
    }
  }

  /**
   * The main loop of calculate_quads: for each triangle, pick its best neighbour, build the
   * quad, and insert it under its key unless that key is already present.
   */
  method CollectCandidates(tris: seq<Triangle>, normals: seq<Vec3>, quadTriangles: seq<QuadTriangle>)
    returns (tempQuads: map<seq<U32>, Quad>)
    requires FirstIndicesBelow(tris, |normals|)
    requires |quadTriangles| == |tris|
    requires forall i | 0 <= i < |tris| :: quadTriangles[i] == QuadTriangle(tris[i], Neighbours(tris, tris[i]))
    ensures tempQuads == FirstByKey(Candidates(tris, normals))
    ensures forall k | k in tempQuads :: QuadKey(tempQuads[k]) == k
    ensures |tempQuads| <= |tris|
  {
    ghost var cands := Candidates(tris, normals);
    tempQuads := map[];
    var i := 0;
    while i < |quadTriangles|
      invariant 0 <= i <= |quadTriangles|
      invariant tempQuads == FirstByKey(cands[..i])
    {
      var qt := quadTriangles[i];
      var main := qt.main;
      NeighboursFirstIndices(tris, main, |normals|);
      var bestMatch, _ := BestMatch(qt.adjacent, main, normals);
      var q := Quad(main.i0, main.i1, main.i2, GetDifferentIndex(main, bestMatch), main, bestMatch);
      assert q == cands[i];
      var key := GetQuadString(q);
      assert cands[..i + 1][..i] == cands[..i];
      if key !in tempQuads {
        tempQuads := tempQuads[key := q];
      }
      i := i + 1;
    }
    assert cands[..i] == cands;
    FirstByKeyValues(cands);
  }

  /** The key-to-quad map calculate_quads builds for a mesh. */
  function QuadMap(m: Mesh): map<seq<U32>, Quad>
    requires m.triangles == [] ==> |m.indices| % 3 == 0
    requires FirstIndicesBelow(TrianglesFor(m), |m.normals|)
  {
    FirstByKey(Candidates(TrianglesFor(m), m.normals))
  }

  /**
   * Mesh::calculate_quads. Every triangle yields a candidate; candidates are deduplicated by
   * key keeping the first; the surviving quads are read out in an unspecified order (the
   * source's hash-map iteration order). Only `triangles` and `quads` change.
   */
  method CalculateQuads(m: Mesh) returns (r: Mesh)
    requires m.triangles == [] ==> |m.indices| % 3 == 0
    requires FirstIndicesBelow(TrianglesFor(m), |m.normals|)
    ensures r == m.(triangles := TrianglesFor(m), quads := r.quads)
    ensures ListsValues(r.quads, QuadMap(m)) && |r.quads| <= |r.triangles|
  {
    var mesh := m;
    if m.triangles == [] {
      mesh := CalculateTriangles(m);
    }
    assert mesh == m.(triangles := TrianglesFor(m));
    var quads := QuadsOf(mesh.triangles, m.normals);
    r := mesh.(quads := quads);
  }

  /** The body of calculate_quads once the triangle list is in place. */
  method QuadsOf(tris: seq<Triangle>, normals: seq<Vec3>) returns (quads: seq<Quad>)
    requires FirstIndicesBelow(tris, |normals|)
    ensures ListsValues(quads, FirstByKey(Candidates(tris, normals))) && |quads| <= |tris|
  {
    var quadTriangles := FillQuadTriangles(tris, []);
    var tempQuads := CollectCandidates(tris, normals, quadTriangles);
    quads := MapValues(tempQuads);
  }

  /**
   * The two-triangle fan [0, 1, 2, 0, 2, 3]: each triangle is the other's only neighbour, both
   * candidates carry the indices 0, 1, 2, 3, and the first one is kept under that key.
   */
  lemma CalculateQuadsExample(m: Mesh)
    requires m.triangles == [] && m.indices == [0, 1, 2, 0, 2, 3]
    requires |m.normals| >= 4 && m.normals[0] == Vec3(0.0, 0.0, 1.0)
    ensures FirstIndicesBelow(TrianglesFor(m), |m.normals|)
    ensures QuadMap(m) == map[[0, 1, 2, 3] := Quad(0, 1, 2, 3, Triangle(0, 1, 2), Triangle(0, 2, 3))]
  {
    FanTriangles(m.indices);
    FanCandidates(m.normals);
    FanDeduplicated();
  }

  lemma FanCandidates(normals: seq<Vec3>)
    requires |normals| >= 4 && normals[0] == Vec3(0.0, 0.0, 1.0)
    ensures FirstIndicesBelow([Triangle(0, 1, 2), Triangle(0, 2, 3)], |normals|)
    ensures Candidates([Triangle(0, 1, 2), Triangle(0, 2, 3)], normals) ==
      [Quad(0, 1, 2, 3, Triangle(0, 1, 2), Triangle(0, 2, 3)), Quad(0, 2, 3, 1, Triangle(0, 2, 3), Triangle(0, 1, 2))]
  {
    var t0, t1 := Triangle(0, 1, 2), Triangle(0, 2, 3);
    var tris := [t0, t1];
    FanNeighbours();
    assert Best([t1], t0, normals) == (t1, 1.0) && Best([t0], t1, normals) == (t0, 1.0);
    assert GetDifferentIndex(t0, t1) == 3 && GetDifferentIndex(t1, t0) == 1;
    assert CandidateQuad(t0, tris, normals) == Quad(0, 1, 2, 3, t0, t1);
    assert CandidateQuad(t1, tris, normals) == Quad(0, 2, 3, 1, t1, t0);
  }

  lemma FanDeduplicated()
    ensures FirstByKey([Quad(0, 1, 2, 3, Triangle(0, 1, 2), Triangle(0, 2, 3)), Quad(0, 2, 3, 1, Triangle(0, 2, 3), Triangle(0, 1, 2))])
         == map[[0, 1, 2, 3] := Quad(0, 1, 2, 3, Triangle(0, 1, 2), Triangle(0, 2, 3))]
  {
    var q0, q1 := Quad(0, 1, 2, 3, Triangle(0, 1, 2), Triangle(0, 2, 3)), Quad(0, 2, 3, 1, Triangle(0, 2, 3), Triangle(0, 1, 2));
    FanKeys();
    assert [q0, q1][..1] == [q0] && [q0][..0] == [];
  }

  lemma FanTriangles(indices: seq<U32>)
    requires indices == [0, 1, 2, 0, 2, 3]
    ensures Triangulate(indices) == [Triangle(0, 1, 2), Triangle(0, 2, 3)]
  {
    var rest: seq<U32> := [0, 2, 3];
    assert indices[3..] == rest && rest[3..] == [];
  }

  lemma FanNeighbours()
    ensures Neighbours([Triangle(0, 1, 2), Triangle(0, 2, 3)], Triangle(0, 1, 2)) == [Triangle(0, 2, 3)]
    ensures Neighbours([Triangle(0, 1, 2), Triangle(0, 2, 3)], Triangle(0, 2, 3)) == [Triangle(0, 1, 2)]
  {
    var t0, t1 := Triangle(0, 1, 2), Triangle(0, 2, 3);
    assert [t0, t1][..1] == [t0] && [t0][..0] == [];
    assert IsAdjacent(t0, t1) && IsAdjacent(t1, t0);
  }

  lemma FanKeys()
    ensures QuadKey(Quad(0, 1, 2, 3, Triangle(0, 1, 2), Triangle(0, 2, 3))) == [0, 1, 2, 3]
    ensures QuadKey(Quad(0, 2, 3, 1, Triangle(0, 2, 3), Triangle(0, 1, 2))) == [0, 1, 2, 3]
  {
    var a: seq<U32> := [0, 1, 2, 3];
    assert a[1..] == [1, 2, 3] && a[1..][1..] == [2, 3] && a[1..][1..][1..] == [3] && a[1..][1..][1..][1..] == [];
    assert SortAscending([3]) == [3];
    assert SortAscending([2, 3]) == [2, 3];
    assert SortAscending([1, 2, 3]) == [1, 2, 3];
    var b: seq<U32> := [0, 2, 3, 1];
    assert b[1..] == [2, 3, 1] && b[1..][1..] == [3, 1] && b[1..][1..][1..] == [1] && b[1..][1..][1..][1..] == [];
    assert SortAscending([1]) == [1];
    assert SortAscending([3, 1]) == [1, 3];
    assert SortAscending([2, 3, 1]) == [1, 2, 3];
  }
}
