/** Blind exploration of the cavern: a depth-first search that only sees the
    current tile, its open neighbours and each neighbour's distance to the orb.
    The explorer keeps the tiles it has stood on, a stack of forward moves and
    a stack of branch points ("forks"), and walks back along the move stack to
    the last fork when it reaches a dead end. */
module Exploration {
  import opened Sequences

  /** A tile id (a Java long). */
  type Id = int

  /** The host's view of the cavern during exploration: a fixed, undirected
      neighbour relation over a finite set of tiles, each tile's distance to
      the orb, and the explorer's current tile. `trail` records every move the
      host was asked to make. */
  class Cave {
    const nodes: set<Id>
    const adj: Id -> seq<Id>
    const dist: Id -> nat
    var position: Id
    ghost var trail: seq<Id>

    /** Every move can be undone: the neighbour relation is symmetric. */
    ghost predicate Symmetric()
    {
      forall a, b :: b in adj(a) <==> a in adj(b)
    }

    /** Neighbours of a tile of the cavern are tiles of the cavern. */
    ghost predicate Closed()
    {
      forall a :: a in nodes ==> forall b :: b in adj(a) ==> b in nodes
    }

    /** No tile neighbours itself, and each neighbour is listed once. */
    ghost predicate Simple()
    {
      forall a :: a in nodes ==> a !in adj(a) && NoDup(adj(a))
    }

    ghost predicate Wellformed()
    {
      Symmetric() && Closed() && Simple()
    }

    ghost predicate Valid()
      reads this
    {
      Closed() && position in nodes
    }

    constructor (nodes: set<Id>, adj: Id -> seq<Id>, dist: Id -> nat, start: Id)
      ensures this.nodes == nodes && this.adj == adj && this.dist == dist
      ensures position == start && trail == []
    {
      this.nodes, this.adj, this.dist := nodes, adj, dist;
      position, trail := start, [];
    }

    /** Each tile of `w` is an open neighbour of the one before it. */
    ghost predicate IsWalk(w: seq<Id>)
    {
      forall i :: 0 <= i < |w| - 1 ==> w[i + 1] in adj(w[i])
    }

    /** Some walk leads from `from` to a tile at distance 0 (the orb). */
    ghost predicate TargetReachable(from: Id)
    {
      exists w :: IsWalk(w) && |w| > 0 && w[0] == from && dist(w[|w| - 1]) == 0
    }

    /** Moving is only possible to an open neighbour of the current tile. */
    method MoveTo(id: Id)
      requires Valid() && id in adj(position)
      modifies this
      ensures Valid()
      ensures position == id && trail == old(trail) + [id]
    {
      ghost var here := position;
      assert Closed() && here in nodes;
      assert forall b :: b in adj(here) ==> b in nodes;
      position := id;
      trail := trail + [id];
    }
  }

  /** Ascending by distance to the orb. */
  ghost predicate SortedByDistance(s: seq<Id>, dist: Id -> nat)
  {
    forall i, j :: 0 <= i < j < |s| ==> dist(s[i]) <= dist(s[j])
  }

  /** A tile no farther than every tile of a sorted list can go in front. */
  lemma ConsSorted(a: Id, s: seq<Id>, dist: Id -> nat)
    requires SortedByDistance(s, dist)
    requires forall y :: y in s ==> dist(a) <= dist(y)
    ensures SortedByDistance([a] + s, dist)
  {
    var r := [a] + s;
    forall i, j | 0 <= i < j < |r| ensures dist(r[i]) <= dist(r[j]) {
      assert r[j] == s[j - 1];
      if i > 0 {
        assert r[i] == s[i - 1];
      }
    }
  }

  /** The head of a sorted list is no farther than any of its tiles. */
  lemma SortedHeadNearest(s: seq<Id>, dist: Id -> nat)
    requires SortedByDistance(s, dist) && s != []
    ensures forall y :: y in s ==> dist(s[0]) <= dist(y)
  {
    forall y | y in s ensures dist(s[0]) <= dist(y) {
      var k :| 0 <= k < |s| && s[k] == y;
    }
  }

  /** Put `x` in front of the first element that is not nearer than it. */
  function InsertByDistance(x: Id, s: seq<Id>, dist: Id -> nat): (r: seq<Id>)
  {
    if s == [] || dist(x) <= dist(s[0]) then [x] + s
    else [s[0]] + InsertByDistance(x, s[1..], dist)
  }

  /** Inserting adds exactly `x`. */
  lemma {:induction false} InsertByDistancePermutes(x: Id, s: seq<Id>, dist: Id -> nat)
    ensures multiset(InsertByDistance(x, s, dist)) == multiset(s) + multiset{x}
  {
    if s != [] && dist(x) > dist(s[0]) {
      InsertByDistancePermutes(x, s[1..], dist);
      assert s == [s[0]] + s[1..];
    }
  }

  /** Inserting into a sorted list keeps it sorted. */
  lemma {:induction false} InsertByDistanceSorted(x: Id, s: seq<Id>, dist: Id -> nat)
    requires SortedByDistance(s, dist)
    ensures SortedByDistance(InsertByDistance(x, s, dist), dist)
  {
    if s != [] && dist(x) > dist(s[0]) {
      var t := s[1..];
      assert SortedByDistance(t, dist) by {
        forall i, j | 0 <= i < j < |t| ensures dist(t[i]) <= dist(t[j]) {
          assert t[i] == s[i + 1] && t[j] == s[j + 1];
        }
      }
      InsertByDistanceSorted(x, t, dist);
      InsertByDistancePermutes(x, t, dist);
      var rest := InsertByDistance(x, t, dist);
      SortedHeadNearest(s, dist);
      forall y | y in rest ensures dist(s[0]) <= dist(y) {
        assert y in multiset(rest);
        if y != x {
          assert y in multiset(t);
          assert y in s;
        }
      }
      ConsSorted(s[0], rest, dist);
    }
  }

  /** The neighbour observations as `Collections.sort` leaves them: ordered by
      distance to the orb, earlier observations first among equal distances. */
  function SortByDistance(s: seq<Id>, dist: Id -> nat): (r: seq<Id>)
    ensures SortedByDistance(r, dist)
    ensures multiset(r) == multiset(s)
  {
    if s == [] then []
    else
      var rest := SortByDistance(s[1..], dist);
      InsertByDistanceSorted(s[0], rest, dist);
      InsertByDistancePermutes(s[0], rest, dist);
      assert s == [s[0]] + s[1..];
      InsertByDistance(s[0], rest, dist)
  }

  /** The elements of `s` not in `visited`, in their order in `s`. */
  function Unvisited(s: seq<Id>, visited: seq<Id>): (r: seq<Id>)
    ensures forall x :: x in r <==> x in s && x !in visited
    ensures multiset(r) <= multiset(s)
  {
    if s == [] then []
    else
      assert s == [s[0]] + s[1..];
      (if s[0] in visited then [] else [s[0]]) + Unvisited(s[1..], visited)
  }

  /** `ArrayList.remove(Object)`: drops the first occurrence of `x`, if any. */
  function RemoveFirst(s: seq<Id>, x: Id): (r: seq<Id>)
    ensures x !in s ==> r == s
    ensures x in s ==> multiset(r) == multiset(s) - multiset{x} && |r| == |s| - 1
  {
    if s == [] then []
    else
      assert s == [s[0]] + s[1..];
      if s[0] == x then s[1..] else [s[0]] + RemoveFirst(s[1..], x)
  }

  lemma {:induction false} UnvisitedNone(s: seq<Id>)
    ensures Unvisited(s, []) == s
  {
    if s != [] {
      UnvisitedNone(s[1..]);
    }
  }

  lemma NoDupTail(s: seq<Id>)
    requires s != [] && NoDup(s)
    ensures NoDup(s[1..]) && s[0] !in s[1..]
  {
    var t := s[1..];
    assert s == [s[0]] + t;
    assert multiset(s) == multiset{s[0]} + multiset(t);
    assert multiset(s)[s[0]] == 1;
    forall y | y in t ensures multiset(t)[y] == 1 {
      assert y in s;
    }
  }

  lemma {:induction false} UnvisitedIgnores(s: seq<Id>, visited: seq<Id>, x: Id)
    requires x !in s
    ensures Unvisited(s, visited + [x]) == Unvisited(s, visited)
  {
    if s != [] {
      UnvisitedIgnores(s[1..], visited, x);
    }
  }

  /** On a list without duplicates, removing the first occurrence of `x` is
      the same as filtering `x` out. */
  lemma {:induction false} RemoveFirstUnvisited(s: seq<Id>, visited: seq<Id>, x: Id)
    requires NoDup(s)
    ensures RemoveFirst(Unvisited(s, visited), x) == Unvisited(s, visited + [x])
  {
    if s != [] {
      var t := s[1..];
      NoDupTail(s);
      if s[0] in visited {
        assert Unvisited(s, visited) == Unvisited(t, visited);
        assert Unvisited(s, visited + [x]) == Unvisited(t, visited + [x]);
        RemoveFirstUnvisited(t, visited, x);
      } else if s[0] == x {
        var u := Unvisited(t, visited);
        assert Unvisited(s, visited) == [x] + u;
        assert RemoveFirst([x] + u, x) == u;
        assert Unvisited(s, visited + [x]) == Unvisited(t, visited + [x]);
        UnvisitedIgnores(t, visited, x);
      } else {
        var u := Unvisited(t, visited);
        assert Unvisited(s, visited) == [s[0]] + u;
        assert RemoveFirst([s[0]] + u, x) == [s[0]] + RemoveFirst(u, x);
        assert Unvisited(s, visited + [x]) == [s[0]] + Unvisited(t, visited + [x]);
        RemoveFirstUnvisited(t, visited, x);
      }
    }
  }

  /** Each tile of `visited`, in order, removed from `s` by `RemoveFirst`. */
  function RemoveEach(s: seq<Id>, visited: seq<Id>): (r: seq<Id>)
    ensures multiset(r) <= multiset(s)
    decreases |visited|
  {
    if visited == [] then s
    else RemoveEach(RemoveFirst(s, visited[0]), visited[1..])
  }

  /** On a list without duplicates, removing each tile of `more` once from
      the tiles not in `visited` filters out every tile of `visited + more`. */
  lemma {:induction false} RemoveEachFilters(s: seq<Id>, visited: seq<Id>, more: seq<Id>)
    requires NoDup(s)
    ensures RemoveEach(Unvisited(s, visited), more) == Unvisited(s, visited + more)
    decreases |more|
  {
    if more == [] {
      assert visited + more == visited;
    } else {
      var u, v := Unvisited(s, visited), visited + [more[0]];
      calc {
        RemoveEach(u, more);
        RemoveEach(RemoveFirst(u, more[0]), more[1..]);
        { RemoveFirstUnvisited(s, visited, more[0]); }
        RemoveEach(Unvisited(s, v), more[1..]);
        { RemoveEachFilters(s, v, more[1..]); }
        Unvisited(s, v + more[1..]);
        { assert v + more[1..] == visited + more; }
        Unvisited(s, visited + more);
      }
    }
  }

  /** Filtering keeps the order by distance. */
  lemma {:induction false} UnvisitedSorted(s: seq<Id>, visited: seq<Id>, dist: Id -> nat)
    requires SortedByDistance(s, dist)
    ensures SortedByDistance(Unvisited(s, visited), dist)
  {
    if s != [] {
      UnvisitedSorted(s[1..], visited, dist);
      var rest := Unvisited(s[1..], visited);
      SortedHeadNearest(s, dist);
      forall y | y in rest ensures dist(s[0]) <= dist(y) {
        assert y in s;
      }
      if s[0] !in visited {
        ConsSorted(s[0], rest, dist);
      }
    }
  }

  /** The moves the explorer considers on `c`: its open neighbours nearest to
      the orb first, without the tiles in `visited`. */
  function Candidates(cave: Cave, c: Id, visited: seq<Id>): seq<Id>
  {
    Unvisited(SortByDistance(cave.adj(c), cave.dist), visited)
  }

  /** The candidate list holds exactly the unvisited neighbours, ordered by
      distance, so its head is a nearest unvisited neighbour. */
  lemma CandidatesNearestFirst(cave: Cave, c: Id, visited: seq<Id>)
    ensures forall y :: y in Candidates(cave, c, visited) <==> y in cave.adj(c) && y !in visited
    ensures SortedByDistance(Candidates(cave, c, visited), cave.dist)
    ensures Candidates(cave, c, visited) != [] ==>
      forall y :: y in cave.adj(c) && y !in visited ==> cave.dist(Candidates(cave, c, visited)[0]) <= cave.dist(y)
  {
    var sorted := SortByDistance(cave.adj(c), cave.dist);
    forall y ensures y in sorted <==> y in cave.adj(c) {
      assert y in sorted <==> y in multiset(sorted);
    }
    UnvisitedSorted(sorted, visited, cave.dist);
    var r := Candidates(cave, c, visited);
    if r != [] {
      SortedHeadNearest(r, cave.dist);
    }
  }

  /** A set of tiles closed under the neighbour relation holds every tile of
      a walk that starts inside it. */
  lemma {:induction false} WalkStaysInside(cave: Cave, region: set<Id>, w: seq<Id>)
    requires cave.IsWalk(w) && |w| > 0 && w[0] in region
    requires forall x, y :: x in region && y in cave.adj(x) ==> y in region
    ensures w[|w| - 1] in region
  {
    if |w| > 1 {
      var v := w[..|w| - 1];
      assert cave.IsWalk(v);
      WalkStaysInside(cave, region, v);
      assert w[|w| - 1] in cave.adj(v[|v| - 1]);
    }
  }

  /** The tile on top of a move stack that ends in a walk to the current
      tile is a neighbour of the current tile, and popping it leaves a walk. */
  lemma BackStep(cave: Cave, p: seq<Id>, pos: Id)
    requires cave.Symmetric() && cave.IsWalk(p + [pos]) && p != []
    ensures cave.IsWalk(p) && p[|p| - 1] in cave.adj(pos)
  {
    var w := p + [pos];
    assert w[|p| - 1] == p[|p| - 1] && w[|p|] == pos;
    forall i | 0 <= i < |p| - 1 ensures p[i + 1] in cave.adj(p[i]) {
      assert w[i] == p[i] && w[i + 1] == p[i + 1];
    }
  }

  /** A forward move to a neighbour extends the walk. */
  lemma ForwardStep(cave: Cave, w: seq<Id>, n: Id)
    requires cave.IsWalk(w) && w != [] && n in cave.adj(w[|w| - 1])
    ensures cave.IsWalk(w + [n])
  {
    var v := w + [n];
    forall i | 0 <= i < |v| - 1 ensures v[i + 1] in cave.adj(v[i]) {
      if i < |w| - 1 {
        assert v[i] == w[i] && v[i + 1] == w[i + 1];
      }
    }
  }

  /** The bookkeeping the exploration loop keeps while the explorer stands on
      `pos` with visited list `h`, move stack `p` and fork stack `f`:
      - every tile stood on lies in the cavern and is not the orb;
      - the move stack followed by the current tile is a walk;
      - every tile on the move stack has been stood on;
      - the fork stack lies along the move stack, in the same order;
      - a tile stood on (other than the current one) with a neighbour not yet
        seen is on the fork stack;
      - the starting tile has been seen. */
  ghost predicate Bookkept(cave: Cave, start: Id, pos: Id, h: seq<Id>, p: seq<Id>, f: seq<Id>)
  {
    pos in cave.nodes &&
    (forall x :: x in h ==> x in cave.nodes && cave.dist(x) != 0) &&
    cave.IsWalk(p + [pos]) &&
    (forall x :: x in p ==> x in h) &&
    IsSubsequence(f, p) &&
    Frontier(cave, pos, h, f) &&
    (start in h || start == pos)
  }

  /** A tile stood on, other than the current one, that still has a
      neighbour neither stood on nor under the explorer is on the fork stack. */
  ghost predicate Frontier(cave: Cave, pos: Id, h: seq<Id>, f: seq<Id>)
  {
    forall x, y :: x in h && x != pos && y in cave.adj(x) ==> y in h || y == pos || x in f
  }

  /** Leaving `c` for `n` keeps the frontier on the fork stack: either `c` is
      pushed as a fork, or `n` was its only neighbour not yet stood on. */
  lemma ForwardFrontier(cave: Cave, c: Id, h: seq<Id>, f: seq<Id>, n: Id, fork: bool)
    requires Frontier(cave, c, h, f)
    requires !fork ==> forall y :: y in cave.adj(c) && y !in h ==> y == n
    ensures Frontier(cave, n, [c] + h, if fork then f + [c] else f)
  {
    var h', f' := [c] + h, if fork then f + [c] else f;
    forall x, y | x in h' && x != n && y in cave.adj(x) ensures y in h' || y == n || x in f' {
      if x != c {
        assert y in h || y == c || x in f;
      }
    }
  }

  /** Tiles of the cavern neither stood on nor under the explorer. */
  ghost function UnseenAt(cave: Cave, pos: Id, h: seq<Id>): set<Id>
  {
    cave.nodes - (set x | x in h) - {pos}
  }

  /** Standing on `c` for the first time and moving on to `n`, a tile not
      seen before, removes exactly `n` from the unseen tiles. */
  lemma ForwardSeesNewTile(cave: Cave, c: Id, h: seq<Id>, n: Id)
    requires n in cave.nodes && n != c && n !in h
    ensures UnseenAt(cave, n, [c] + h) == UnseenAt(cave, c, h) - {n}
    ensures |UnseenAt(cave, n, [c] + h)| < |UnseenAt(cave, c, h)|
  {
    assert (set x | x in [c] + h) == (set x | x in h) + {c};
    assert n in UnseenAt(cave, c, h);
  }

  /** A forward move from `c` to its unvisited neighbour `n` keeps the
      bookkeeping and reaches a tile not seen before. The move records a
      fork when `fork`; otherwise `n` must be the only unvisited neighbour. */
  lemma ForwardKeepsBookkeeping(cave: Cave, start: Id, c: Id, h: seq<Id>, p: seq<Id>, f: seq<Id>, n: Id, fork: bool)
    requires Bookkept(cave, start, c, h, p, f) && cave.dist(c) != 0
    requires n in cave.adj(c) && n in cave.nodes && n != c && n !in h
    requires !fork ==> forall y :: y in cave.adj(c) && y !in h ==> y == n
    ensures Bookkept(cave, start, n, [c] + h, p + [c], if fork then f + [c] else f)
    ensures |UnseenAt(cave, n, [c] + h)| < |UnseenAt(cave, c, h)|
  {
    var h', p', f' := [c] + h, p + [c], if fork then f + [c] else f;
    assert cave.IsWalk(p' + [n]) by {
      ForwardStep(cave, p', n);
    }
    assert IsSubsequence(f', p') by {
      if fork {
        assert p'[..|p'| - 1] == p && f'[..|f'| - 1] == f;
      } else {
        SubsequenceExtend(f, p, c);
      }
    }
    ForwardFrontier(cave, c, h, f, n, fork);
    ForwardSeesNewTile(cave, c, h, n);
  }

  /** Walking back to the last fork after a dead end on `c` (every neighbour
      visited) keeps the bookkeeping and returns to a tile already seen. */
  lemma BacktrackKeepsBookkeeping(cave: Cave, start: Id, c: Id, h: seq<Id>, p: seq<Id>, f: seq<Id>, q: seq<Id>)
    requires Bookkept(cave, start, c, h, p, f) && cave.dist(c) != 0
    requires (forall y :: y in cave.adj(c) ==> y in h) && f != []
    requires |q| < |p| && q == p[..|q|] && p[|q|] == f[|f| - 1]
    requires cave.IsWalk(q + [f[|f| - 1]]) && IsSubsequence(f[..|f| - 1], q)
    ensures Bookkept(cave, start, f[|f| - 1], [c] + h, q, f[..|f| - 1])
    ensures UnseenAt(cave, f[|f| - 1], [c] + h) == UnseenAt(cave, c, h)
  {
    var fork, h', f' := f[|f| - 1], [c] + h, f[..|f| - 1];
    assert f == f' + [fork];
    forall x | x in q ensures x in h' {
      var k :| 0 <= k < |q| && q[k] == x;
      assert p[k] == x;
    }
    assert Frontier(cave, fork, h', f') by {
      forall x, y | x in h' && x != fork && y in cave.adj(x) ensures y in h' || y == fork || x in f' {
        if x != c {
          assert y in h || y == c || x in f;
        }
      }
    }
    assert (set x | x in h') == (set x | x in h) + {c};
  }

  /** A dead end on `c` with no fork left means every tile reachable from the
      start has been stood on without meeting the orb: it is unreachable. */
  lemma DeadEndUnreachable(cave: Cave, start: Id, c: Id, h: seq<Id>, p: seq<Id>)
    requires Bookkept(cave, start, c, h, p, []) && cave.dist(c) != 0
    requires forall y :: y in cave.adj(c) ==> y in h
    ensures !cave.TargetReachable(start)
  {
    var region := (set x | x in h) + {c};
    assert forall x, y :: x in region && y in cave.adj(x) ==> y in region by {
      forall x, y | x in region && y in cave.adj(x) ensures y in region {
        if x != c {
          assert y in h || y == c || x in [];
        }
      }
    }
    assert forall x :: x in region ==> cave.dist(x) != 0;
    forall w | cave.IsWalk(w) && |w| > 0 && w[0] == start
      ensures cave.dist(w[|w| - 1]) != 0
    {
      WalkStaysInside(cave, region, w);
    }
  }

  class Explorer {
    /** Tiles stood on, most recent first (`addFirst`). */
    var haveBeen: seq<Id>
    /** Tiles left by a forward move; the top is the last element. */
    var pathStack: seq<Id>
    /** Tiles left with more than one unvisited neighbour; top is last. */
    var forks: seq<Id>

    constructor ()
      ensures haveBeen == [] && pathStack == [] && forks == []
    {
      haveBeen, pathStack, forks := [], [], [];
    }

    ghost predicate Inv(cave: Cave, start: Id)
      reads this, cave
    {
      cave.Valid() && cave.Wellformed() && Bookkept(cave, start, cave.position, haveBeen, pathStack, forks)
    }

    /** Tiles not yet reached; shrinks with every forward move. */
    ghost function Unseen(cave: Cave): set<Id>
      reads this, cave
    {
      UnseenAt(cave, cave.position, haveBeen)
    }

    /** The candidate moves on the current tile. */
    ghost function Choices(cave: Cave): seq<Id>
      reads this, cave
    {
      Candidates(cave, cave.position, haveBeen)
    }

    /** Removes each tile of `haveBeen` in turn from `neighbours`, each
        removal dropping its first occurrence only. */
    method RemoveVisited(neighbours: seq<Id>) returns (r: seq<Id>)
      ensures r == RemoveEach(neighbours, haveBeen)
    {
      var visited := haveBeen;
      r := neighbours;
      for i := 0 to |visited|
        invariant RemoveEach(r, visited[i..]) == RemoveEach(neighbours, visited)
      {
        assert visited[i..][1..] == visited[i + 1..];
        r := RemoveFirst(r, visited[i]);
      }
    }

    /** The candidate list of one pass: the current tile's neighbours sorted
        by distance to the orb, then each visited tile removed once. */
    method ListChoices(cave: Cave) returns (choices: seq<Id>)
      requires cave.Valid() && cave.Simple()
      ensures choices == Choices(cave)
    {
      var current := cave.position;
      var sorted := SortByDistance(cave.adj(current), cave.dist);
      choices := RemoveVisited(sorted);
      assert NoDup(sorted) by {
        assert current in cave.nodes;
        NoDupPermutation(cave.adj(current), sorted);
      }
      UnvisitedNone(sorted);
      RemoveEachFilters(sorted, [], haveBeen);
      assert [] + haveBeen == haveBeen;
    }

    /** Pops the top of the move stack and moves the explorer onto it; the
        popped tile neighbours the current one, so the move is legal. */
    method PopAndMove(cave: Cave) returns (there: Id)
      requires cave.Valid() && cave.Symmetric()
      requires cave.IsWalk(pathStack + [cave.position]) && pathStack != []
      modifies this`pathStack, cave
      ensures cave.Valid() && old(pathStack) == pathStack + [there]
      ensures pathStack == old(pathStack)[..|old(pathStack)| - 1] && there == old(pathStack)[|old(pathStack)| - 1]
      ensures cave.position == there && cave.trail == old(cave.trail) + [there]
      ensures cave.IsWalk(pathStack + [there])
    {
      there := pathStack[|pathStack| - 1];
      BackStep(cave, pathStack, cave.position);
      pathStack := pathStack[..|pathStack| - 1];
      cave.MoveTo(there);
    }

    /** Pop the move stack and move onto each popped tile until the popped
        tile is `fork`, the topmost fork, which lies on the move stack. */
    method PopUntil(cave: Cave, fork: Id)
      requires cave.Valid() && cave.Symmetric() && cave.IsWalk(pathStack + [cave.position])
      requires IsSubsequence(forks + [fork], pathStack)
      modifies this`pathStack, cave
      ensures cave.Valid() && cave.position == fork && cave.IsWalk(pathStack + [fork])
      ensures IsSubsequence(forks, pathStack)
      ensures |pathStack| < |old(pathStack)| && pathStack == old(pathStack)[..|pathStack|]
      ensures old(pathStack)[|pathStack|] == fork
      ensures forall j :: |pathStack| < j < |old(pathStack)| ==> old(pathStack)[j] != fork
      ensures cave.trail == old(cave.trail) + Reversed(old(pathStack)[|pathStack|..])
    {
      ghost var p0, t0, f0 := pathStack, cave.trail, forks;
      UnwoundStart(p0, t0, f0, fork);
      var there := PopAndMove(cave);
      while there != fork
        invariant cave.Valid() && cave.position == there
        invariant forks == f0 && Unwound(p0, t0, f0, fork, pathStack, there, cave.trail)
        invariant cave.IsWalk(pathStack + [there])
        decreases |pathStack|
      {
        UnwoundStep(p0, t0, f0, fork, pathStack, there, cave.trail);
        there := PopAndMove(cave);
      }
    }

    /** Walk back to the most recent fork: pop it, then pop the move stack
        and move to each popped tile until the popped tile is that fork.
        With no fork left the pop fails and nothing changes. */
    method GoBackToLastFork(cave: Cave) returns (ok: bool)
      requires cave.Valid() && cave.Symmetric() && cave.IsWalk(pathStack + [cave.position])
      requires IsSubsequence(forks, pathStack)
      modifies this`pathStack, this`forks, cave
      ensures cave.Valid() && cave.IsWalk(pathStack + [cave.position])
      ensures IsSubsequence(forks, pathStack)
      ensures ok <==> old(forks) != []
      ensures !ok ==> forks == old(forks) && pathStack == old(pathStack) &&
                      cave.position == old(cave.position) && cave.trail == old(cave.trail)
      ensures ok ==> forks == old(forks)[..|old(forks)| - 1] &&
                     cave.position == old(forks)[|old(forks)| - 1]
      ensures ok ==> |pathStack| < |old(pathStack)| &&
                     pathStack == old(pathStack)[..|pathStack|] &&
                     old(pathStack)[|pathStack|] == cave.position
      ensures ok ==> forall j :: |pathStack| < j < |old(pathStack)| ==> old(pathStack)[j] != cave.position
      ensures ok ==> cave.trail == old(cave.trail) + Reversed(old(pathStack)[|pathStack|..])
    {
      if forks == [] {
        return false;
      }
      var lastFork := forks[|forks| - 1];
      forks := forks[..|forks| - 1];
      assert forks + [lastFork] == old(forks);
      PopUntil(cave, lastFork);
      ok := true;
    }

    /** A forward move from the current tile to its unvisited neighbour
        `next`: the tile is recorded as stood on and pushed on the move stack,
        and on the fork stack too when `fork`. */
    method MoveForward(cave: Cave, ghost start: Id, next: Id, fork: bool)
      requires Inv(cave, start) && cave.dist(cave.position) != 0
      requires next in cave.adj(cave.position) && next !in haveBeen
      requires !fork ==> forall y :: y in cave.adj(cave.position) && y !in haveBeen ==> y == next
      modifies this`haveBeen, this`pathStack, this`forks, cave
      ensures haveBeen == [old(cave.position)] + old(haveBeen)
      ensures pathStack == old(pathStack) + [old(cave.position)]
      ensures forks == if fork then old(forks) + [old(cave.position)] else old(forks)
      ensures cave.position == next && cave.trail == old(cave.trail) + [next]
      ensures Inv(cave, start) && |Unseen(cave)| < old(|Unseen(cave)|)
    {
      var current := cave.position;
      assert current !in cave.adj(current) && next in cave.nodes by {
        assert cave.Simple() && cave.Closed() && current in cave.nodes;
      }
      ForwardKeepsBookkeeping(cave, start, current, haveBeen, pathStack, forks, next, fork);
      if fork {
        forks := forks + [current];
      }
      haveBeen := [current] + haveBeen;
      pathStack := pathStack + [current];
      cave.MoveTo(next);
    }

    /** A pass with at least one candidate: the explorer moves to the head of
        `choices`, a nearest unvisited neighbour, recording a fork when there
        are several candidates. */
    method Advance(cave: Cave, ghost start: Id, choices: seq<Id>)
      requires Inv(cave, start) && cave.dist(cave.position) != 0
      requires choices == Choices(cave) && choices != []
      modifies this`haveBeen, this`pathStack, this`forks, cave
      ensures haveBeen == [old(cave.position)] + old(haveBeen)
      ensures pathStack == old(pathStack) + [old(cave.position)]
      ensures forks == if |choices| == 1 then old(forks) else old(forks) + [old(cave.position)]
      ensures cave.position == choices[0] && cave.trail == old(cave.trail) + [choices[0]]
      ensures Inv(cave, start) && |Unseen(cave)| < old(|Unseen(cave)|)
    {
      var current, next := cave.position, choices[0];
      assert next in cave.adj(current) && next !in haveBeen &&
        (|choices| == 1 ==> forall y :: y in cave.adj(current) && y !in haveBeen ==> y == next) by {
        CandidatesNearestFirst(cave, current, haveBeen);
        assert next in choices;
        if |choices| == 1 {
          assert choices == [next];
        }
      }
      MoveForward(cave, start, next, |choices| != 1);
    }

    /** A pass with no candidate, a dead end: the current tile is recorded as
        stood on and the explorer backs up to the last fork. `ok` is false when there is none, and then
        the orb cannot be reached from the start. */
    method Backtrack(cave: Cave, ghost start: Id) returns (ok: bool)
      requires Inv(cave, start) && cave.dist(cave.position) != 0
      requires forall y :: y in cave.adj(cave.position) ==> y in haveBeen
      modifies this`haveBeen, this`pathStack, this`forks, cave
      ensures haveBeen == [old(cave.position)] + old(haveBeen)
      ensures cave.Valid() && forall x :: x in haveBeen ==> cave.dist(x) != 0
      ensures ok <==> old(forks) != []
      ensures !ok ==> (forks == old(forks) && pathStack == old(pathStack) &&
                       cave.position == old(cave.position) && cave.trail == old(cave.trail))
      ensures !ok ==> !cave.TargetReachable(start)
      ensures ok ==> forks == old(forks)[..|old(forks)| - 1] && cave.position == old(forks)[|old(forks)| - 1]
      ensures ok ==> (|pathStack| < |old(pathStack)| && pathStack == old(pathStack)[..|pathStack|] &&
                      cave.trail == old(cave.trail) + Reversed(old(pathStack)[|pathStack|..]))
      ensures ok ==> Inv(cave, start) && Unseen(cave) == old(Unseen(cave))
    {
      var current := cave.position;
      ghost var h0, p0, f0 := haveBeen, pathStack, forks;
      haveBeen := [current] + haveBeen;
      ok := GoBackToLastFork(cave);
      if ok {
        assert Inv(cave, start) && Unseen(cave) == UnseenAt(cave, current, h0) by {
          BacktrackKeepsBookkeeping(cave, start, current, h0, p0, f0, pathStack);
        }
      } else {
        assert !cave.TargetReachable(start) by {
          DeadEndUnreachable(cave, start, current, h0, p0);
        }
      }
    }

    /** Explore the cavern until the explorer stands on the orb. `found` is
        false only when a dead end is met with no fork left, which cannot
        happen when the orb can be reached from the start. */
    method Explore(cave: Cave) returns (found: bool)
      requires cave.Valid() && cave.Wellformed()
      requires haveBeen == [] && pathStack == [] && forks == []
      modifies this, cave
      ensures cave.Valid()
      ensures found <==> cave.dist(cave.position) == 0
      ensures cave.TargetReachable(old(cave.position)) ==> found
      ensures forall x :: x in haveBeen ==> cave.dist(x) != 0
    {
      ghost var start := cave.position;
      while cave.dist(cave.position) != 0
        invariant Inv(cave, start)
        decreases |Unseen(cave)|, |forks|
      {
        var choices := ListChoices(cave);
        if |choices| == 0 {
          assert forall y :: y in cave.adj(cave.position) ==> y in haveBeen by {
            CandidatesNearestFirst(cave, cave.position, haveBeen);
          }
          var ok := Backtrack(cave, start);
          if !ok {
            return false;
          }
        } else {
          Advance(cave, start, choices);
        }
      }
      return true;
    }
  }
}
