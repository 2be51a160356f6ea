/**
  Collision detection against the boundary polygon.

  The boundary is the closed polygon through the clicked points: edge i runs
  from point i to point i + 1, and the last edge wraps back to point 0. A
  candidate position collides with an edge when it lies in the edge's
  axis-aligned bounding box, borders included. The search takes the
  lowest-indexed such edge, not the nearest one.
 */
module Collision {
  import opened Geometry

  datatype Option<T> = None | Some(value: T)

  function Min(a: real, b: real): real {
    if b < a then b else a
  }

  function Max(a: real, b: real): real {
    if a < b then b else a
  }

  /** Whether q lies in the bounding box of the segment p1-p2, borders included. */
  predicate InBox(p1: Point, p2: Point, q: Point): (b: bool)
    ensures b <==>
      ((p1.x <= q.x <= p2.x) || (p2.x <= q.x <= p1.x)) &&
      ((p1.y <= q.y <= p2.y) || (p2.y <= q.y <= p1.y))
  {
    Min(p1.x, p2.x) <= q.x <= Max(p1.x, p2.x) &&
    Min(p1.y, p2.y) <= q.y <= Max(p1.y, p2.y)
  }

  /** Index of the point edge i ends at: the next one, wrapping to 0. */
  function NextIndex(n: nat, i: nat): (j: nat)
    requires i < n
    ensures j < n
    ensures j == 0 <==> i == n - 1
    ensures j != 0 ==> j == i + 1
  {
    (i + 1) % n
  }

  function EdgeStart(boundary: seq<Point>, i: nat): Point
    requires i < |boundary|
  {
    boundary[i]
  }

  function EdgeEnd(boundary: seq<Point>, i: nat): Point
    requires i < |boundary|
  {
    boundary[NextIndex(|boundary|, i)]
  }

  /** Whether the bounding box of edge i contains q. */
  predicate Hits(boundary: seq<Point>, i: nat, q: Point)
    requires i < |boundary|
  {
    InBox(EdgeStart(boundary, i), EdgeEnd(boundary, i), q)
  }

  /** The normal of edge i, as the reflection uses it. */
  function Normal(boundary: seq<Point>, i: nat): (m: Point)
    requires i < |boundary|
    ensures m == Origin <==> EdgeStart(boundary, i) == EdgeEnd(boundary, i)
  {
    EdgeNormal(EdgeStart(boundary, i), EdgeEnd(boundary, i))
  }

  /** i is the lowest index of an edge whose box contains q. */
  predicate IsFirstHit(boundary: seq<Point>, q: Point, i: nat) {
    i < |boundary| && Hits(boundary, i, q) &&
    forall j :: 0 <= j < i ==> !Hits(boundary, j, q)
  }

  /** No edge's box contains q. */
  predicate Misses(boundary: seq<Point>, q: Point) {
    forall j :: 0 <= j < |boundary| ==> !Hits(boundary, j, q)
  }

  /** The first edge at index from or later whose box contains q. */
  function FirstHitFrom(boundary: seq<Point>, q: Point, from: nat): (r: Option<nat>)
    requires from <= |boundary|
    decreases |boundary| - from
    ensures r.Some? ==> from <= r.value < |boundary| && Hits(boundary, r.value, q)
    ensures r.Some? ==> forall j :: from <= j < r.value ==> !Hits(boundary, j, q)
    ensures r.None? <==> forall j :: from <= j < |boundary| ==> !Hits(boundary, j, q)
  {
    if from == |boundary| then None
    else if Hits(boundary, from, q) then Some(from)
    else FirstHitFrom(boundary, q, from + 1)
  }

  /** The edge the timer reflects at: the lowest-indexed one whose box contains q. */
  function FirstHit(boundary: seq<Point>, q: Point): (r: Option<nat>)
    ensures r.Some? ==> IsFirstHit(boundary, q, r.value)
    ensures r.None? <==> Misses(boundary, q)
  {
    FirstHitFrom(boundary, q, 0)
  }

  /** The first hit is unique: no other index is a lowest hitting index. */
  lemma FirstHitUnique(boundary: seq<Point>, q: Point, i: nat, j: nat)
    requires IsFirstHit(boundary, q, i) && IsFirstHit(boundary, q, j)
    ensures i == j
  {
  }

  /** FirstHit finds exactly the lowest hitting index, whenever there is one. */
  lemma FirstHitExact(boundary: seq<Point>, q: Point, i: nat)
    ensures FirstHit(boundary, q) == Some(i) <==> IsFirstHit(boundary, q, i)
  {
    if IsFirstHit(boundary, q, i) {
      assert !Misses(boundary, q);
      FirstHitUnique(boundary, q, i, FirstHit(boundary, q).value);
    }
  }

  /**
    The search as the timer writes it: a for loop over the edges that breaks
    at the first box containing q. It computes the same index as FirstHit.
   */
  method ScanEdges(boundary: seq<Point>, q: Point) returns (r: Option<nat>)
    ensures r == FirstHit(boundary, q)
    ensures r.Some? ==> IsFirstHit(boundary, q, r.value)
  {
    var i := 0;
    while i < |boundary|
      invariant 0 <= i <= |boundary|
      invariant forall j :: 0 <= j < i ==> !Hits(boundary, j, q)
    {
      var p1 := boundary[i];
      var p2 := boundary[(i + 1) % |boundary|];
      if InBox(p1, p2, q) {
        FirstHitExact(boundary, q, i);
        return Some(i);
      }
      i := i + 1;
    }
    return None;
  }
}
