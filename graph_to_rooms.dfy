/**
 * createRooms of graphToRooms.ts: lay the link graph out on a grid. The seed
 * room breq.dev sits at cell "0,0"; a FIFO queue of placed rooms is drained,
 * and on its turn each room fills its own empty cardinal neighbours, in the
 * order (0,1), (1,0), (0,-1), (-1,0), with its not yet placed link partners
 * ranked by out-degree.
 */
module GraphToRooms {
  import opened Types
  import opened CellKeys

  const Seed: string := "breq.dev"
  const Start: Room := Room(Seed, 0, 0)

  /** The four cardinal offsets, in the order the neighbour scan visits them. */
  const Offsets: seq<(int, int)> := [(0, 1), (1, 0), (0, -1), (-1, 0)]

  /** Cell (x, y) moved by offset o. */
  function Shift(x: int, y: int, o: (int, int)): (int, int) {
    (x + o.0, y + o.1)
  }

  /** b is one of the four cardinal neighbours of a. */
  predicate Adjacent(a: (int, int), b: (int, int)) {
    exists i | 0 <= i < |Offsets| :: b == Shift(a.0, a.1, Offsets[i])
  }

  function CellOf(r: Room): (int, int) {
    (r.x, r.y)
  }

  predicate NoDuplicates<T(==)>(s: seq<T>) {
    forall i, j | 0 <= i < j < |s| :: s[i] != s[j]
  }

  // ---------------------------------------------------------------------------
  // Reading the graph

  /** `graph.linksTo[d]`, an absent entry read as no links. */
  function OutLinks(g: Graph, d: string): seq<string> {
    if d in g.linksTo then g.linksTo[d] else []
  }

  /** `graph.linkedFrom[d]`, an absent entry read as no links. */
  function InLinks(g: Graph, d: string): seq<string> {
    if d in g.linkedFrom then g.linkedFrom[d] else []
  }

  /** The sort key `graph.linksTo[d]?.length`; an absent entry ranks as 0. */
  function OutDegree(g: Graph, d: string): nat {
    |OutLinks(g, d)|
  }

  /** Both link lists of d, outgoing first: `linksTo[d].concat(linkedFrom[d])`. */
  function Neighborhood(g: Graph, d: string): seq<string> {
    OutLinks(g, d) + InLinks(g, d)
  }

  /** Every domain that occurs in some link list of the graph. */
  ghost function Mentioned(g: Graph): set<string> {
    (set k, i | k in g.linksTo && 0 <= i < |g.linksTo[k]| :: g.linksTo[k][i]) +
    (set k, i | k in g.linkedFrom && 0 <= i < |g.linkedFrom[k]| :: g.linkedFrom[k][i])
  }

  /** The domains placement can ever use: the seed and every linked domain. */
  ghost function Universe(g: Graph): set<string> {
    Mentioned(g) + {Seed}
  }

  lemma NeighborhoodMentioned(g: Graph, d: string, x: string)
    requires x in Neighborhood(g, d)
    ensures x in Universe(g)
  {
    if x in OutLinks(g, d) {
      var i :| 0 <= i < |g.linksTo[d]| && g.linksTo[d][i] == x;
      assert x in (set k, i | k in g.linksTo && 0 <= i < |g.linksTo[k]| :: g.linksTo[k][i]);
    } else {
      var i :| 0 <= i < |g.linkedFrom[d]| && g.linkedFrom[d][i] == x;
      assert x in (set k, i | k in g.linkedFrom && 0 <= i < |g.linkedFrom[k]| :: g.linkedFrom[k][i]);
    }
  }

  // ---------------------------------------------------------------------------
  // The candidate list of one turn: filter, sort, deduplicate

  /** `.filter((d) => !placed.has(d))`. */
  function Unplaced(s: seq<string>, placed: set<string>): (r: seq<string>)
    ensures forall x :: x in r <==> x in s && x !in placed
  {
    if s == [] then []
    else (if s[0] in placed then [] else [s[0]]) + Unplaced(s[1..], placed)
  }

  predicate SortedByOutDegree(g: Graph, s: seq<string>) {
    forall i, j | 0 <= i < j < |s| :: OutDegree(g, s[i]) >= OutDegree(g, s[j])
  }

  /** Inserts x before the first element whose out-degree is not larger. */
  function InsertByOutDegree(g: Graph, x: string, s: seq<string>): (r: seq<string>)
    ensures multiset(r) == multiset(s) + multiset{x}
  {
    if s == [] || OutDegree(g, s[0]) <= OutDegree(g, x) then [x] + s
    else
      assert s == [s[0]] + s[1..];
      [s[0]] + InsertByOutDegree(g, x, s[1..])
  }

  /**
   * `.sort((a, b) => linksTo[b]?.length - linksTo[a]?.length)`: a stable sort,
   * largest out-degree first.
   */
  function SortByOutDegree(g: Graph, s: seq<string>): (r: seq<string>)
    ensures multiset(r) == multiset(s)
  {
    if s == [] then []
    else
      assert s == [s[0]] + s[1..];
      InsertByOutDegree(g, s[0], SortByOutDegree(g, s[1..]))
  }

  lemma InsertedElement(g: Graph, x: string, s: seq<string>, y: string)
    requires y in InsertByOutDegree(g, x, s)
    ensures y == x || y in s
  {
    assert y in multiset(InsertByOutDegree(g, x, s));
  }

  lemma {:induction false} InsertKeepsSorted(g: Graph, x: string, s: seq<string>)
    requires SortedByOutDegree(g, s)
    ensures SortedByOutDegree(g, InsertByOutDegree(g, x, s))
    decreases s
  {
    if s == [] || OutDegree(g, s[0]) <= OutDegree(g, x) {
      PrependKeepsSorted(g, x, s);
    } else {
      var t := InsertByOutDegree(g, x, s[1..]);
      InsertKeepsSorted(g, x, s[1..]);
      forall y | y in t ensures OutDegree(g, y) <= OutDegree(g, s[0]) {
        InsertedElement(g, x, s[1..], y);
      }
      PrependKeepsSorted(g, s[0], t);
    }
  }

  lemma PrependKeepsSorted(g: Graph, x: string, s: seq<string>)
    requires SortedByOutDegree(g, s)
    requires forall y | y in s :: OutDegree(g, y) <= OutDegree(g, x)
    ensures SortedByOutDegree(g, [x] + s)
  {
    var r := [x] + s;
    forall i, j | 0 <= i < j < |r| ensures OutDegree(g, r[i]) >= OutDegree(g, r[j]) {
      assert r[j] == s[j - 1];
      if i > 0 {
        assert r[i] == s[i - 1];
      }
    }
  }

  /** The sorted list is ranked by out-degree, largest first. */
  lemma {:induction false} SortIsSorted(g: Graph, s: seq<string>)
    ensures SortedByOutDegree(g, SortByOutDegree(g, s))
    decreases s
  {
    if s != [] {
      SortIsSorted(g, s[1..]);
      InsertKeepsSorted(g, s[0], SortByOutDegree(g, s[1..]));
    }
  }

  /** The elements of s whose out-degree is k, in their order in s. */
  function WithOutDegree(g: Graph, s: seq<string>, k: nat): seq<string> {
    if s == [] then []
    else (if OutDegree(g, s[0]) == k then [s[0]] else []) + WithOutDegree(g, s[1..], k)
  }

  lemma {:induction false} InsertKeepsOrder(g: Graph, x: string, s: seq<string>, k: nat)
    ensures WithOutDegree(g, InsertByOutDegree(g, x, s), k) ==
            (if OutDegree(g, x) == k then [x] else []) + WithOutDegree(g, s, k)
    decreases s
  {
    if s == [] || OutDegree(g, s[0]) <= OutDegree(g, x) {
      assert ([x] + s)[1..] == s;
    } else {
      var t := InsertByOutDegree(g, x, s[1..]);
      assert ([s[0]] + t)[1..] == t;
      InsertKeepsOrder(g, x, s[1..], k);
    }
  }

  /** The sort is stable: equal out-degrees keep their input order. */
  lemma {:induction false} SortIsStable(g: Graph, s: seq<string>, k: nat)
    ensures WithOutDegree(g, SortByOutDegree(g, s), k) == WithOutDegree(g, s, k)
    decreases s
  {
    if s != [] {
      SortIsStable(g, s[1..], k);
      InsertKeepsOrder(g, s[0], SortByOutDegree(g, s[1..]), k);
    }
  }

  /** `[...new Set(s)]`: each element once, at its first occurrence. */
  function Dedupe(s: seq<string>): (r: seq<string>)
    ensures forall x :: x in r <==> x in s
    ensures NoDuplicates(r)
  {
    if s == [] then []
    else
      var t := Dedupe(s[..|s| - 1]);
      assert s == s[..|s| - 1] + [s[|s| - 1]];
      if s[|s| - 1] in t then t else t + [s[|s| - 1]]
  }

  /** Position of the first occurrence of x in s. */
  function FirstIndex(s: seq<string>, x: string): (i: nat)
    requires x in s
    ensures i < |s| && s[i] == x
    ensures forall j | 0 <= j < i :: s[j] != x
  {
    if s[0] == x then 0 else 1 + FirstIndex(s[1..], x)
  }

  lemma {:induction false} FirstIndexInPrefix(s: seq<string>, n: nat, x: string)
    requires n <= |s| && x in s[..n]
    ensures FirstIndex(s, x) == FirstIndex(s[..n], x)
    decreases n
  {
    if s[0] != x {
      assert s[..n][1..] == s[1..][..n - 1];
      FirstIndexInPrefix(s[1..], n - 1, x);
    }
  }

  /** Dedupe lists the distinct elements in the order of their first occurrences. */
  lemma {:induction false} DedupeKeepsFirstOccurrences(s: seq<string>)
    ensures forall i, j | 0 <= i < j < |Dedupe(s)| ::
              FirstIndex(s, Dedupe(s)[i]) < FirstIndex(s, Dedupe(s)[j])
    decreases |s|
  {
    if s != [] {
      var p := s[..|s| - 1];
      var t := Dedupe(p);
      DedupeKeepsFirstOccurrences(p);
      assert s[..|s| - 1] == p;
      forall y | y in t ensures FirstIndex(s, y) == FirstIndex(p, y) {
        FirstIndexInPrefix(s, |s| - 1, y);
      }
      if s[|s| - 1] !in t {
        assert FirstIndex(s, s[|s| - 1]) == |s| - 1;
      }
    }
  }

  /** Removing later duplicates from a ranked list keeps it ranked. */
  lemma {:induction false} DedupeKeepsSorted(g: Graph, s: seq<string>)
    requires SortedByOutDegree(g, s)
    ensures SortedByOutDegree(g, Dedupe(s))
    decreases |s|
  {
    if s != [] {
      var p := s[..|s| - 1];
      DedupeKeepsSorted(g, p);
      var t := Dedupe(p);
      forall y | y in t ensures OutDegree(g, y) >= OutDegree(g, s[|s| - 1]) {
        var i :| 0 <= i < |p| && p[i] == y;
      }
    }
  }

  /** First occurrences in a list with a new head: the head is first, the rest move up by one. */
  lemma FirstIndexCons(h: string, t: seq<string>, x: string)
    requires x in [h] + t
    ensures FirstIndex([h] + t, x) == if h == x then 0 else 1 + FirstIndex(t, x)
  {
    assert ([h] + t)[1..] == t;
  }

  /** The filter keeps the relative order of the unplaced elements. */
  lemma {:induction false} UnplacedKeepsOrder(s: seq<string>, placed: set<string>, x: string, y: string)
    requires x in s && y in s && x !in placed && y !in placed
    ensures FirstIndex(Unplaced(s, placed), x) < FirstIndex(Unplaced(s, placed), y) <==>
            FirstIndex(s, x) < FirstIndex(s, y)
    decreases s
  {
    var h, t, r := s[0], Unplaced(s[1..], placed), Unplaced(s, placed);
    assert s == [h] + s[1..];
    FirstIndexCons(h, s[1..], x);
    FirstIndexCons(h, s[1..], y);
    if h == x || h == y {
      assert r == [h] + t;
      FirstIndexCons(h, t, x);
      FirstIndexCons(h, t, y);
      assert (FirstIndex(r, x) < FirstIndex(r, y)) == (h == x && h != y);
      assert (FirstIndex(s, x) < FirstIndex(s, y)) == (h == x && h != y);
    } else {
      UnplacedKeepsOrder(s[1..], placed, x, y);
      if h in placed {
        assert r == t;
      } else {
        assert r == [h] + t;
        FirstIndexCons(h, t, x);
        FirstIndexCons(h, t, y);
      }
      assert (FirstIndex(r, x) < FirstIndex(r, y)) == (FirstIndex(t, x) < FirstIndex(t, y));
    }
  }

  /** The elements of out-degree k, in the order they occur. */
  lemma {:induction false} WithOutDegreeKeepsOrder(g: Graph, s: seq<string>, k: nat, x: string, y: string)
    requires x in s && y in s && OutDegree(g, x) == k && OutDegree(g, y) == k
    ensures x in WithOutDegree(g, s, k) && y in WithOutDegree(g, s, k)
    ensures FirstIndex(WithOutDegree(g, s, k), x) < FirstIndex(WithOutDegree(g, s, k), y) <==>
            FirstIndex(s, x) < FirstIndex(s, y)
    decreases s
  {
    var h, t := s[0], WithOutDegree(g, s[1..], k);
    assert s == [h] + s[1..];
    FirstIndexCons(h, s[1..], x);
    FirstIndexCons(h, s[1..], y);
    if h == x && h == y {
      assert WithOutDegree(g, s, k) == [h] + t;
    } else if h == x {
      WithOutDegreeKeepsOrder(g, s[1..], k, y, y);
      assert WithOutDegree(g, s, k) == [h] + t;
      FirstIndexCons(h, t, x);
      FirstIndexCons(h, t, y);
    } else if h == y {
      WithOutDegreeKeepsOrder(g, s[1..], k, x, x);
      assert WithOutDegree(g, s, k) == [h] + t;
      FirstIndexCons(h, t, x);
      FirstIndexCons(h, t, y);
    } else {
      WithOutDegreeKeepsOrder(g, s[1..], k, x, y);
      if OutDegree(g, h) == k {
        assert WithOutDegree(g, s, k) == [h] + t;
        FirstIndexCons(h, t, x);
        FirstIndexCons(h, t, y);
      } else {
        assert WithOutDegree(g, s, k) == t;
      }
    }
  }

  /** Elements of equal out-degree keep their order of first occurrence through the sort. */
  lemma SortKeepsOrder(g: Graph, s: seq<string>, x: string, y: string)
    requires x in s && y in s && OutDegree(g, x) == OutDegree(g, y)
    ensures x in SortByOutDegree(g, s) && y in SortByOutDegree(g, s)
    ensures FirstIndex(SortByOutDegree(g, s), x) < FirstIndex(SortByOutDegree(g, s), y) <==>
            FirstIndex(s, x) < FirstIndex(s, y)
  {
    var sorted := SortByOutDegree(g, s);
    var k := OutDegree(g, x);
    assert x in multiset(s) && y in multiset(s);
    assert x in multiset(sorted) && y in multiset(sorted);
    WithOutDegreeKeepsOrder(g, s, k, x, y);
    WithOutDegreeKeepsOrder(g, sorted, k, x, y);
    SortIsStable(g, s, k);
  }

  /** Dedupe orders any two elements as their first occurrences are ordered. */
  lemma DedupeKeepsOrder(s: seq<string>, x: string, y: string)
    requires x in s && y in s
    ensures x in Dedupe(s) && y in Dedupe(s)
    ensures FirstIndex(Dedupe(s), x) < FirstIndex(Dedupe(s), y) <==> FirstIndex(s, x) < FirstIndex(s, y)
  {
    var r := Dedupe(s);
    var i, j := FirstIndex(r, x), FirstIndex(r, y);
    DedupeKeepsFirstOccurrences(s);
    if i < j {
      assert FirstIndex(s, r[i]) < FirstIndex(s, r[j]);
    } else if j < i {
      assert FirstIndex(s, r[j]) < FirstIndex(s, r[i]);
    }
  }

  /**
   * The candidate list of domain d's turn (graphToRooms.ts:35-44): when d has a
   * linksTo entry, its link partners that are not placed yet, each once, largest
   * out-degree first; otherwise nothing.
   */
  function Candidates(g: Graph, placed: set<string>, d: string): (r: seq<string>)
    ensures NoDuplicates(r)
    ensures forall x :: x in r <==> d in g.linksTo && x in Neighborhood(g, d) && x !in placed
    ensures SortedByOutDegree(g, r)
  {
    if d in g.linksTo then
      var s := SortByOutDegree(g, Unplaced(Neighborhood(g, d), placed));
      assert forall x :: x in s <==> x in multiset(s);
      SortIsSorted(g, Unplaced(Neighborhood(g, d), placed));
      DedupeKeepsSorted(g, s);
      Dedupe(s)
    else []
  }

  /**
   * Among candidates of equal out-degree, the candidate list keeps the order
   * in which they first occur in `linksTo[d].concat(linkedFrom[d])`; with
   * Candidates' own contract this fixes the list completely.
   */
  lemma CandidatesKeepLinkOrder(g: Graph, placed: set<string>, d: string, x: string, y: string)
    requires x in Candidates(g, placed, d) && y in Candidates(g, placed, d)
    requires OutDegree(g, x) == OutDegree(g, y)
    ensures x in Neighborhood(g, d) && y in Neighborhood(g, d)
    ensures FirstIndex(Candidates(g, placed, d), x) < FirstIndex(Candidates(g, placed, d), y) <==>
            FirstIndex(Neighborhood(g, d), x) < FirstIndex(Neighborhood(g, d), y)
  {
    var n := Neighborhood(g, d);
    var u := Unplaced(n, placed);
    var sorted := SortByOutDegree(g, u);
    assert Candidates(g, placed, d) == Dedupe(sorted);
    UnplacedKeepsOrder(n, placed, x, y);
    SortKeepsOrder(g, u, x, y);
    DedupeKeepsOrder(sorted, x, y);
  }

  // ---------------------------------------------------------------------------
  // The empty cardinal neighbours of a room (the inner `neighbors` helper)

  /** The cells (x, y) moved by each offset of offs, in order, that hold no room. */
  function Vacant(rooms: map<string, Room>, x: int, y: int, offs: seq<(int, int)>): seq<(int, int)> {
    if offs == [] then []
    else
      var c := Shift(x, y, offs[0]);
      (if Key(c.0, c.1) in rooms then [] else [c]) + Vacant(rooms, x, y, offs[1..])
  }

  function EmptyNeighbors(rooms: map<string, Room>, x: int, y: int): seq<(int, int)> {
    Vacant(rooms, x, y, Offsets)
  }

  lemma {:induction false} VacantLength(rooms: map<string, Room>, x: int, y: int, offs: seq<(int, int)>)
    ensures |Vacant(rooms, x, y, offs)| <= |offs|
    decreases offs
  {
    if offs != [] {
      VacantLength(rooms, x, y, offs[1..]);
    }
  }

  lemma {:induction false} VacantCells(rooms: map<string, Room>, x: int, y: int, offs: seq<(int, int)>)
    ensures forall c :: c in Vacant(rooms, x, y, offs) <==>
              Key(c.0, c.1) !in rooms && exists i | 0 <= i < |offs| :: c == Shift(x, y, offs[i])
    decreases offs
  {
    if offs != [] {
      VacantCells(rooms, x, y, offs[1..]);
      assert forall i | 1 <= i < |offs| :: offs[i] == offs[1..][i - 1];
    }
  }

  lemma {:induction false} VacantDistinct(rooms: map<string, Room>, x: int, y: int, offs: seq<(int, int)>)
    requires NoDuplicates(offs)
    ensures NoDuplicates(Vacant(rooms, x, y, offs))
    decreases offs
  {
    if offs != [] {
      var rest := offs[1..];
      assert NoDuplicates(rest) by {
        assert forall i | 0 <= i < |rest| :: rest[i] == offs[i + 1];
      }
      VacantDistinct(rooms, x, y, rest);
      var later := Vacant(rooms, x, y, rest);
      var c := Shift(x, y, offs[0]);
      if Key(c.0, c.1) !in rooms {
        VacantCells(rooms, x, y, rest);
        forall c' | c' in later ensures c' != c {
          var i :| 0 <= i < |rest| && c' == Shift(x, y, rest[i]);
          assert rest[i] == offs[i + 1] && offs[i + 1] != offs[0];
          ShiftInjective(x, y, rest[i], offs[0]);
        }
        PrependDistinct(c, later);
      } else {
        assert Vacant(rooms, x, y, offs) == later;
      }
    }
  }

  lemma ShiftInjective(x: int, y: int, o1: (int, int), o2: (int, int))
    requires o1 != o2
    ensures Shift(x, y, o1) != Shift(x, y, o2)
  {
    assert o1.0 != o2.0 || o1.1 != o2.1;
  }

  lemma PrependDistinct(c: (int, int), s: seq<(int, int)>)
    requires NoDuplicates(s) && c !in s
    ensures NoDuplicates([c] + s)
  {
    var t := [c] + s;
    forall i, j | 0 <= i < j < |t| ensures t[i] != t[j] {
      assert t[j] == s[j - 1];
      if i > 0 {
        assert t[i] == s[i - 1];
      }
    }
  }

  /** The four scan offsets are distinct. */
  lemma OffsetsDistinct()
    ensures NoDuplicates(Offsets)
  {
  }

  /**
   * The empty neighbours of (x, y): at most four distinct cells, exactly the
   * cardinal neighbours whose key holds no room.
   */
  lemma EmptyNeighborsSpec(rooms: map<string, Room>, x: int, y: int)
    ensures |EmptyNeighbors(rooms, x, y)| <= 4
    ensures NoDuplicates(EmptyNeighbors(rooms, x, y))
    ensures forall c :: c in EmptyNeighbors(rooms, x, y) <==>
              Adjacent((x, y), c) && Key(c.0, c.1) !in rooms
  {
    VacantLength(rooms, x, y, Offsets);
    VacantCells(rooms, x, y, Offsets);
    OffsetsDistinct();
    VacantDistinct(rooms, x, y, Offsets);
  }

  lemma VacantStep(rooms: map<string, Room>, x: int, y: int, offs: seq<(int, int)>, i: nat, cells: seq<(int, int)>)
    requires i < |offs|
    ensures var c := Shift(x, y, offs[i]);
            (if Key(c.0, c.1) in rooms then cells else cells + [c]) + Vacant(rooms, x, y, offs[i + 1..]) ==
            cells + Vacant(rooms, x, y, offs[i..])
  {
    var c := Shift(x, y, offs[i]);
    var here: seq<(int, int)> := if Key(c.0, c.1) in rooms then [] else [c];
    var later := Vacant(rooms, x, y, offs[i + 1..]);
    assert offs[i..][0] == offs[i] && offs[i..][1..] == offs[i + 1..];
    assert Vacant(rooms, x, y, offs[i..]) == here + later;
    assert (if Key(c.0, c.1) in rooms then cells else cells + [c]) == cells + here;
    assert (cells + here) + later == cells + (here + later);
  }

  /** `neighbors(room, rooms)` (graphToRooms.ts:47-62). */
  method Neighbors(room: Room, rooms: map<string, Room>) returns (cells: seq<(int, int)>)
    ensures cells == EmptyNeighbors(rooms, room.x, room.y)
  {
    cells := [];
    for i := 0 to |Offsets|
      invariant cells + Vacant(rooms, room.x, room.y, Offsets[i..]) == EmptyNeighbors(rooms, room.x, room.y)
    {
      var cell := Shift(room.x, room.y, Offsets[i]);
      VacantStep(rooms, room.x, room.y, Offsets, i, cells);
      var key := Key(cell.0, cell.1);
      if key !in rooms {
        cells := cells + [cell];
      }
    }
  }

  // ---------------------------------------------------------------------------
  // Filling the empty neighbours of one room

  /** Adds rooms one after the other, each under its own key. */
  function PlaceAll(rooms: map<string, Room>, rs: seq<Room>): map<string, Room>
    decreases rs
  {
    if rs == [] then rooms else PlaceAll(rooms[KeyOf(rs[0]) := rs[0]], rs[1..])
  }

  function Domains(rs: seq<Room>): set<string> {
    if rs == [] then {} else {rs[0].domain} + Domains(rs[1..])
  }

  predicate DistinctKeys(rs: seq<Room>) {
    forall i, j | 0 <= i < j < |rs| :: KeyOf(rs[i]) != KeyOf(rs[j])
  }

  predicate DistinctDomains(rs: seq<Room>) {
    forall i, j | 0 <= i < j < |rs| :: rs[i].domain != rs[j].domain
  }

  /** The i-th cell paired with the i-th candidate, as far as both lists go. */
  function Zip(cells: seq<(int, int)>, cands: seq<string>): (r: seq<Room>)
    ensures |r| == if |cells| < |cands| then |cells| else |cands|
    ensures forall i | 0 <= i < |r| :: r[i] == Room(cands[i], cells[i].0, cells[i].1)
  {
    if cells == [] || cands == [] then []
    else [Room(cands[0], cells[0].0, cells[0].1)] + Zip(cells[1..], cands[1..])
  }

  /** What one turn has built so far: the map, the placed set, the rooms it added. */
  datatype TurnState = TurnState(rooms: map<string, Room>, placed: set<string>, added: seq<Room>)

  /**
   * `while (true) { const domain = candidates.shift(); ... }`: skips placed
   * candidates and yields the first unplaced one (None when the list runs out),
   * with what is left of the list.
   */
  function Drain(placed: set<string>, cands: seq<string>): (Option<string>, seq<string>) {
    if cands == [] then (None, [])
    else if cands[0] in placed then Drain(placed, cands[1..])
    else (Some(cands[0]), cands[1..])
  }

  /**
   * The loop over the empty neighbours (graphToRooms.ts:64-84), as written: a
   * cell whose key is taken is skipped, and otherwise receives the next
   * unplaced candidate, if any.
   */
  function Fill(st: TurnState, cells: seq<(int, int)>, cands: seq<string>): TurnState
    decreases cells
  {
    if cells == [] then st
    else
      var key := Key(cells[0].0, cells[0].1);
      if key in st.rooms then Fill(st, cells[1..], cands)
      else
        match Drain(st.placed, cands)
        case (None, rest) => Fill(st, cells[1..], rest)
        case (Some(d), rest) =>
          var r := Room(d, cells[0].0, cells[0].1);
          Fill(TurnState(st.rooms[key := r], st.placed + {d}, st.added + [r]), cells[1..], rest)
  }

  /** One step of Fill: the first cell is skipped, left empty, or filled. */
  lemma FillStep(st: TurnState, cells: seq<(int, int)>, cands: seq<string>)
    requires cells != []
    ensures var key := Key(cells[0].0, cells[0].1);
            var (d, rest) := Drain(st.placed, cands);
            && (key in st.rooms ==> Fill(st, cells, cands) == Fill(st, cells[1..], cands))
            && (key !in st.rooms && d.None? ==> Fill(st, cells, cands) == Fill(st, cells[1..], rest))
            && (key !in st.rooms && d.Some? ==>
                  var r := Room(d.value, cells[0].0, cells[0].1);
                  Fill(st, cells, cands) ==
                  Fill(TurnState(st.rooms[key := r], st.placed + {d.value}, st.added + [r]), cells[1..], rest))
  {
  }

  /**
   * When the cells are distinct and empty and the candidates distinct and
   * unplaced, neither skip ever happens: the i-th cell receives the i-th
   * candidate.
   */
  lemma {:induction false} FillIsZip(st: TurnState, cells: seq<(int, int)>, cands: seq<string>)
    requires NoDuplicates(cells) && forall c | c in cells :: Key(c.0, c.1) !in st.rooms
    requires NoDuplicates(cands) && forall d | d in cands :: d !in st.placed
    ensures Fill(st, cells, cands) ==
            TurnState(PlaceAll(st.rooms, Zip(cells, cands)),
                      st.placed + Domains(Zip(cells, cands)),
                      st.added + Zip(cells, cands))
    decreases cells
  {
    if cells == [] {
      assert st.added + [] == st.added;
    } else if cands == [] {
      FillIsZip(st, cells[1..], cands);
      assert st.added + [] == st.added;
    } else {
      var c, d := cells[0], cands[0];
      var r := Room(d, c.0, c.1);
      var st' := TurnState(st.rooms[Key(c.0, c.1) := r], st.placed + {d}, st.added + [r]);
      TailDistinct(cells);
      TailDistinct(cands);
      forall c' | c' in cells[1..] ensures Key(c'.0, c'.1) !in st'.rooms {
        assert c' != c && c' in cells;
        KeysDiffer(c'.0, c'.1, c.0, c.1);
      }
      forall d' | d' in cands[1..] ensures d' !in st'.placed {
        assert d' != d && d' in cands;
      }
      FillIsZip(st', cells[1..], cands[1..]);
      var z := Zip(cells[1..], cands[1..]);
      assert Zip(cells, cands) == [r] + z;
      assert ([r] + z)[0] == r && ([r] + z)[1..] == z;
      assert PlaceAll(st.rooms, [r] + z) == PlaceAll(st'.rooms, z);
      assert Domains([r] + z) == {d} + Domains(z);
      assert st.added + [r] + z == st.added + ([r] + z);
    }
  }

  /** The tail of a list without duplicates has none, and lacks the head. */
  lemma TailDistinct<T>(s: seq<T>)
    requires NoDuplicates(s) && s != []
    ensures NoDuplicates(s[1..]) && s[0] !in s[1..]
    ensures forall x | x in s[1..] :: x in s
  {
    forall i, j | 0 <= i < j < |s| - 1 ensures s[1..][i] != s[1..][j] {
      assert s[1..][i] == s[i + 1] && s[1..][j] == s[j + 1];
    }
    forall x | x in s[1..] ensures x != s[0] {
      var i :| 0 <= i < |s| - 1 && s[1..][i] == x;
      assert s[i + 1] == x;
    }
  }

  lemma {:induction false} PlaceAllAppend(rooms: map<string, Room>, a: seq<Room>, b: seq<Room>)
    ensures PlaceAll(rooms, a + b) == PlaceAll(PlaceAll(rooms, a), b)
    decreases a
  {
    if a == [] {
      assert a + b == b;
    } else {
      assert (a + b)[0] == a[0] && (a + b)[1..] == a[1..] + b;
      PlaceAllAppend(rooms[KeyOf(a[0]) := a[0]], a[1..], b);
    }
  }

  /** The keys of the cells of a list of rooms. */
  function KeysOf(rs: seq<Room>): set<string> {
    if rs == [] then {} else {KeyOf(rs[0])} + KeysOf(rs[1..])
  }

  lemma {:induction false} KeysOfContents(rs: seq<Room>)
    ensures forall k :: k in KeysOf(rs) <==> exists i | 0 <= i < |rs| :: KeyOf(rs[i]) == k
    decreases rs
  {
    if rs != [] {
      KeysOfContents(rs[1..]);
      assert forall i | 1 <= i < |rs| :: rs[i] == rs[1..][i - 1];
    }
  }

  /** The keys of the rooms placed are added to the map, and no other key. */
  lemma {:induction false} PlaceAllKeys(rooms: map<string, Room>, rs: seq<Room>)
    ensures PlaceAll(rooms, rs).Keys == rooms.Keys + KeysOf(rs)
    decreases rs
  {
    if rs != [] {
      PlaceAllKeys(rooms[KeyOf(rs[0]) := rs[0]], rs[1..]);
    }
  }

  /** With distinct keys no placed room is overwritten by a later one. */
  lemma {:induction false} PlaceAllValues(rooms: map<string, Room>, rs: seq<Room>)
    requires DistinctKeys(rs)
    ensures forall i | 0 <= i < |rs| :: KeyOf(rs[i]) in PlaceAll(rooms, rs) && PlaceAll(rooms, rs)[KeyOf(rs[i])] == rs[i]
    decreases rs
  {
    if rs != [] {
      var m := rooms[KeyOf(rs[0]) := rs[0]];
      var rest := rs[1..];
      assert forall i | 0 <= i < |rest| :: rest[i] == rs[i + 1];
      PlaceAllValues(m, rest);
      PlaceAllKeys(m, rest);
      PlaceAllUntouched(m, rest, KeyOf(rs[0]));
    }
  }

  /** A key that no placed room uses keeps its entry. */
  lemma {:induction false} PlaceAllUntouched(rooms: map<string, Room>, rs: seq<Room>, k: string)
    requires k in rooms && forall i | 0 <= i < |rs| :: KeyOf(rs[i]) != k
    ensures k in PlaceAll(rooms, rs) && PlaceAll(rooms, rs)[k] == rooms[k]
    decreases rs
  {
    if rs != [] {
      assert forall i | 1 <= i < |rs| :: rs[1..][i - 1] == rs[i];
      PlaceAllUntouched(rooms[KeyOf(rs[0]) := rs[0]], rs[1..], k);
    }
  }

  /** Rooms with distinct fresh keys each add one entry. */
  lemma {:induction false} PlaceAllSize(rooms: map<string, Room>, rs: seq<Room>)
    requires DistinctKeys(rs) && forall i | 0 <= i < |rs| :: KeyOf(rs[i]) !in rooms
    ensures |PlaceAll(rooms, rs)| == |rooms| + |rs|
    decreases rs
  {
    if rs != [] {
      var m := rooms[KeyOf(rs[0]) := rs[0]];
      var rest := rs[1..];
      assert forall i | 0 <= i < |rest| :: rest[i] == rs[i + 1];
      PlaceAllSize(m, rest);
    }
  }

  lemma {:induction false} DomainsAppend(a: seq<Room>, b: seq<Room>)
    ensures Domains(a + b) == Domains(a) + Domains(b)
    decreases a
  {
    if a == [] {
      assert a + b == b;
    } else {
      assert (a + b)[0] == a[0] && (a + b)[1..] == a[1..] + b;
      DomainsAppend(a[1..], b);
    }
  }

  lemma {:induction false} DomainsContents(rs: seq<Room>)
    ensures forall d :: d in Domains(rs) <==> exists i | 0 <= i < |rs| :: rs[i].domain == d
    decreases rs
  {
    if rs != [] {
      DomainsContents(rs[1..]);
      assert forall i | 1 <= i < |rs| :: rs[i] == rs[1..][i - 1];
    }
  }

  /** Distinct domains: as many placed domains as rooms (`rooms.size == placed.size`). */
  lemma {:induction false} DomainsSize(rs: seq<Room>)
    requires DistinctDomains(rs)
    ensures |Domains(rs)| == |rs|
    decreases rs
  {
    if rs != [] {
      DomainsContents(rs[1..]);
      assert forall i | 0 <= i < |rs[1..]| :: rs[1..][i] == rs[i + 1];
      DomainsSize(rs[1..]);
    }
  }

  /**
   * What one turn adds: at most four rooms, on distinct empty cells adjacent to
   * the current room, holding distinct unplaced domains taken from its links;
   * nothing at all when the current domain has no linksTo entry.
   */
  lemma TurnAdds(g: Graph, rooms: map<string, Room>, placed: set<string>, current: Room)
    ensures var added := Zip(EmptyNeighbors(rooms, current.x, current.y), Candidates(g, placed, current.domain));
            && |added| <= 4
            && DistinctKeys(added) && DistinctDomains(added)
            && (forall j | 0 <= j < |added| ::
                  && KeyOf(added[j]) !in rooms
                  && added[j].domain !in placed
                  && Adjacent((current.x, current.y), CellOf(added[j]))
                  && added[j].domain in Neighborhood(g, current.domain))
            && (current.domain !in g.linksTo ==> added == [])
  {
    var cells := EmptyNeighbors(rooms, current.x, current.y);
    var cands := Candidates(g, placed, current.domain);
    var added := Zip(cells, cands);
    EmptyNeighborsSpec(rooms, current.x, current.y);
    forall i, j | 0 <= i < j < |added| ensures KeyOf(added[i]) != KeyOf(added[j]) {
      KeysDiffer(cells[i].0, cells[i].1, cells[j].0, cells[j].1);
    }
    forall j | 0 <= j < |added| ensures Adjacent((current.x, current.y), CellOf(added[j])) {
      assert cells[j] in cells;
    }
  }

  /**
   * The `while (true)` loop of graphToRooms.ts:67-82 up to the placement it
   * ends with: shift candidates, skipping placed ones, until an unplaced one
   * turns up or the list runs out.
   */
  method NextCandidate(placed: set<string>, candidates: seq<string>) returns (next: Option<string>, rest: seq<string>)
    ensures (next, rest) == Drain(placed, candidates)
  {
    next, rest := None, candidates;
    while true
      invariant Drain(placed, rest) == Drain(placed, candidates)
      decreases |rest|
    {
      if rest == [] {
        break;
      }
      var domain := rest[0];
      rest := rest[1..];
      if domain in placed {
        continue;
      }
      next := Some(domain);
      break;
    }
  }

  /**
   * One turn of the queue loop (graphToRooms.ts:35-84) for the room `current`:
   * the i-th empty neighbour in the fixed scan order receives the i-th
   * candidate, for as long as both last.
   */
  method Turn(g: Graph, rooms: map<string, Room>, placed: set<string>, current: Room)
    returns (rooms': map<string, Room>, placed': set<string>, added: seq<Room>)
    ensures added == Zip(EmptyNeighbors(rooms, current.x, current.y), Candidates(g, placed, current.domain))
    ensures rooms' == PlaceAll(rooms, added)
    ensures placed' == placed + Domains(added)
  {
    var candidates := Candidates(g, placed, current.domain);
    ghost var allCandidates := candidates;
    var cells := Neighbors(current, rooms);
    rooms', placed', added := rooms, placed, [];
    for i := 0 to |cells|
      invariant Fill(TurnState(rooms', placed', added), cells[i..], candidates) ==
                Fill(TurnState(rooms, placed, []), cells, allCandidates)
    {
      var x, y := cells[i].0, cells[i].1;
      var key := Key(x, y);
      assert cells[i..][0] == cells[i] && cells[i..][1..] == cells[i + 1..];
      FillStep(TurnState(rooms', placed', added), cells[i..], candidates);
      if key !in rooms' {
        var next;
        next, candidates := NextCandidate(placed', candidates);
        if next.Some? {
          var neighbor := Room(next.value, x, y);
          rooms' := rooms'[key := neighbor];
          added := added + [neighbor];
          placed' := placed' + {next.value};
        }
      }
    }
    EmptyNeighborsSpec(rooms, current.x, current.y);
    FillIsZip(TurnState(rooms, placed, []), cells, allCandidates);
  }

  // ---------------------------------------------------------------------------
  // The whole layout

  /** Every entry sits under the key of the cell its room names. */
  predicate KeysMatch(rooms: map<string, Room>) {
    forall k | k in rooms :: k == KeyOf(rooms[k])
  }

  /** No domain occupies two cells. */
  predicate UniqueDomains(rooms: map<string, Room>) {
    forall k1, k2 | k1 in rooms && k2 in rooms && rooms[k1].domain == rooms[k2].domain :: k1 == k2
  }

  /** A 4-connected walk over occupied cells that starts at the origin. */
  ghost predicate IsWalk(rooms: map<string, Room>, path: seq<(int, int)>) {
    && |path| >= 1
    && path[0] == (0, 0)
    && (forall i | 0 <= i < |path| :: Key(path[i].0, path[i].1) in rooms)
    && (forall i | 0 <= i < |path| - 1 :: Adjacent(path[i], path[i + 1]))
  }

  ghost predicate Reachable(rooms: map<string, Room>, c: (int, int)) {
    exists path :: IsWalk(rooms, path) && path[|path| - 1] == c
  }

  /** Every occupied cell is 4-connected to (0, 0) through occupied cells. */
  ghost predicate Connected(rooms: map<string, Room>) {
    forall k | k in rooms :: Reachable(rooms, CellOf(rooms[k]))
  }

  /** n copies of t: the parent index of every room one turn adds. */
  function Repeat(t: nat, n: nat): (r: seq<nat>)
    ensures |r| == n && forall i | 0 <= i < n :: r[i] == t
  {
    seq(n, _ => t)
  }

  /** Every non-seed room sits next to an earlier room, its parent. */
  ghost predicate ParentsAdjacent(order: seq<Room>, parent: seq<nat>) {
    && |parent| == |order|
    && forall i | 1 <= i < |order| :: parent[i] < i && Adjacent(CellOf(order[parent[i]]), CellOf(order[i]))
  }

  /** Every non-seed room holds a domain linked with its parent's domain. */
  ghost predicate ParentsLinked(g: Graph, order: seq<Room>, parent: seq<nat>) {
    && |parent| == |order|
    && forall i | 1 <= i < |order| :: parent[i] < i && order[i].domain in Neighborhood(g, order[parent[i]].domain)
  }

  /**
   * The rooms in the order they were placed, each non-seed room with the index
   * of the room whose turn placed it: the seed first, distinct cells, distinct
   * domains, and every later room next to its parent and linked with it.
   */
  ghost predicate PlacementOrder(g: Graph, order: seq<Room>, parent: seq<nat>) {
    && |order| >= 1 && order[0] == Start
    && DistinctKeys(order) && DistinctDomains(order)
    && ParentsAdjacent(order, parent)
    && ParentsLinked(g, order, parent)
  }

  /** A walk extended by an occupied neighbour of its last cell is a walk. */
  lemma WalkExtend(rooms: map<string, Room>, p: seq<(int, int)>, c: (int, int))
    requires IsWalk(rooms, p) && Key(c.0, c.1) in rooms && Adjacent(p[|p| - 1], c)
    ensures IsWalk(rooms, p + [c])
  {
    var path := p + [c];
    assert forall n | 0 <= n < |p| :: path[n] == p[n];
    forall n | 0 <= n < |path| - 1 ensures Adjacent(path[n], path[n + 1]) {
      if n < |p| - 1 {
        assert path[n] == p[n] && path[n + 1] == p[n + 1];
      }
    }
  }

  /** Following parents leads from any placed room back to the origin. */
  lemma {:induction false} ReachableInOrder(rooms: map<string, Room>, order: seq<Room>, parent: seq<nat>, i: nat)
    requires |order| >= 1 && CellOf(order[0]) == (0, 0) && ParentsAdjacent(order, parent)
    requires forall j | 0 <= j < |order| :: KeyOf(order[j]) in rooms
    requires i < |order|
    ensures Reachable(rooms, CellOf(order[i]))
    decreases i
  {
    if i == 0 {
      assert IsWalk(rooms, [(0, 0)]);
    } else {
      var j := parent[i];
      ReachableInOrder(rooms, order, parent, j);
      var p :| IsWalk(rooms, p) && p[|p| - 1] == CellOf(order[j]);
      WalkExtend(rooms, p, CellOf(order[i]));
      assert (p + [CellOf(order[i])])[|p|] == CellOf(order[i]);
    }
  }

  /**
   * A map built from a placement order has the layout's invariants: breq.dev at
   * "0,0", every key the key of its room's cell, one cell per domain, one entry
   * per placed room, all cells connected to the origin.
   */
  lemma {:induction false} LayoutFacts(g: Graph, order: seq<Room>, parent: seq<nat>)
    requires PlacementOrder(g, order, parent)
    ensures var rooms := PlaceAll(map[], order);
            && "0,0" in rooms && rooms["0,0"] == Start
            && KeysMatch(rooms)
            && UniqueDomains(rooms)
            && |rooms| == |order|
            && Connected(rooms)
  {
    var rooms := PlaceAll(map[], order);
    MapFromOrder(order);
    OriginKey();
    assert KeyOf(order[0]) == "0,0";
    UniqueFromOrder(order, rooms);
    forall k | k in rooms ensures Reachable(rooms, CellOf(rooms[k])) {
      var i :| 0 <= i < |order| && KeyOf(order[i]) == k && rooms[k] == order[i];
      ReachableInOrder(rooms, order, parent, i);
    }
  }

  /** The map built from rooms with distinct cells holds exactly those rooms, each under its key. */
  lemma {:induction false} MapFromOrder(order: seq<Room>)
    requires DistinctKeys(order)
    ensures forall k | k in PlaceAll(map[], order) ::
              exists i | 0 <= i < |order| :: KeyOf(order[i]) == k && PlaceAll(map[], order)[k] == order[i]
    ensures forall i | 0 <= i < |order| :: KeyOf(order[i]) in PlaceAll(map[], order)
    ensures forall i | 0 <= i < |order| :: PlaceAll(map[], order)[KeyOf(order[i])] == order[i]
    ensures |PlaceAll(map[], order)| == |order|
  {
    PlaceAllKeys(map[], order);
    KeysOfContents(order);
    PlaceAllValues(map[], order);
    PlaceAllSize(map[], order);
    forall k | k in PlaceAll(map[], order)
      ensures exists i | 0 <= i < |order| :: KeyOf(order[i]) == k && PlaceAll(map[], order)[k] == order[i]
    {
      var i :| 0 <= i < |order| && KeyOf(order[i]) == k;
    }
  }

  /** Distinct domains carry over from the order to the map. */
  lemma {:induction false} UniqueFromOrder(order: seq<Room>, rooms: map<string, Room>)
    requires DistinctDomains(order)
    requires forall k | k in rooms :: exists i | 0 <= i < |order| :: KeyOf(order[i]) == k && rooms[k] == order[i]
    ensures UniqueDomains(rooms)
  {
    forall k1, k2 | k1 in rooms && k2 in rooms && rooms[k1].domain == rooms[k2].domain ensures k1 == k2 {
      var i :| 0 <= i < |order| && KeyOf(order[i]) == k1 && rooms[k1] == order[i];
      var j :| 0 <= j < |order| && KeyOf(order[j]) == k2 && rooms[k2] == order[j];
      assert i == j;
    }
  }

  /** Two lists of rooms that share no cell and no domain concatenate without clashes. */
  lemma AppendDistinct(a: seq<Room>, b: seq<Room>)
    requires DistinctKeys(a) && DistinctDomains(a) && DistinctKeys(b) && DistinctDomains(b)
    requires forall i, j | 0 <= i < |a| && 0 <= j < |b| :: KeyOf(a[i]) != KeyOf(b[j]) && a[i].domain != b[j].domain
    ensures DistinctKeys(a + b) && DistinctDomains(a + b)
  {
    var ab := a + b;
    forall i, j | 0 <= i < j < |ab| ensures KeyOf(ab[i]) != KeyOf(ab[j]) && ab[i].domain != ab[j].domain {
      if j < |a| {
        assert ab[i] == a[i] && ab[j] == a[j];
      } else if i < |a| {
        assert ab[i] == a[i] && ab[j] == b[j - |a|];
      } else {
        assert ab[i] == b[i - |a|] && ab[j] == b[j - |a|];
      }
    }
  }

  /** Appending children of room t keeps every room next to, and linked with, its parent. */
  lemma AppendParents(g: Graph, order: seq<Room>, parent: seq<nat>, t: nat, added: seq<Room>)
    requires ParentsAdjacent(order, parent) && ParentsLinked(g, order, parent) && t < |order|
    requires forall j | 0 <= j < |added| ::
               Adjacent(CellOf(order[t]), CellOf(added[j])) && added[j].domain in Neighborhood(g, order[t].domain)
    ensures ParentsAdjacent(order + added, parent + Repeat(t, |added|))
    ensures ParentsLinked(g, order + added, parent + Repeat(t, |added|))
  {
    var order', parent' := order + added, parent + Repeat(t, |added|);
    forall i | 1 <= i < |order'|
      ensures && parent'[i] < i
              && Adjacent(CellOf(order'[parent'[i]]), CellOf(order'[i]))
              && order'[i].domain in Neighborhood(g, order'[parent'[i]].domain)
    {
      if i >= |order| {
        assert parent'[i] == t && order'[t] == order[t] && order'[i] == added[i - |order|];
      } else {
        assert parent'[i] == parent[i] && order'[i] == order[i] && order'[parent[i]] == order[parent[i]];
      }
    }
  }

  /**
   * The state of the queue loop after `turns` turns: the rooms placed so far
   * form a placement order, the map and the placed set are built from it, and
   * the queue holds the rooms whose turn has not come yet, in placement order.
   */
  ghost predicate QueueState(g: Graph, rooms: map<string, Room>, placed: set<string>, queue: seq<Room>,
                             order: seq<Room>, parent: seq<nat>, turns: nat) {
    && PlacementOrder(g, order, parent)
    && rooms == PlaceAll(map[], order)
    && placed == Domains(order)
    && placed <= Universe(g)
    && turns <= |order| && queue == order[turns..]
  }

  /**
   * One turn of the queue loop for the room at the head of the queue: the
   * rooms it adds extend the order (with that room as their parent) and join
   * the tail of the queue; a turn that adds rooms shrinks the set of domains
   * still unplaced, and one that adds none shortens the queue.
   */
  lemma {:induction false} TurnStep(g: Graph, rooms: map<string, Room>, placed: set<string>, queue: seq<Room>,
                                    order: seq<Room>, parent: seq<nat>, t: nat, added: seq<Room>)
    requires QueueState(g, rooms, placed, queue, order, parent, t) && queue != []
    requires added == Zip(EmptyNeighbors(rooms, queue[0].x, queue[0].y), Candidates(g, placed, queue[0].domain))
    ensures QueueState(g, PlaceAll(rooms, added), placed + Domains(added), queue[1..] + added,
                       order + added, parent + Repeat(t, |added|), t + 1)
    ensures added != [] ==> |Universe(g) - (placed + Domains(added))| < |Universe(g) - placed|
    ensures added == [] ==> placed + Domains(added) == placed
  {
    assert queue[0] == order[t] && queue[1..] == order[t + 1..];
    ExtendOrder(g, order, parent, t, rooms, placed, added);
    PlaceAllAppend(map[], order, added);
    DomainsAppend(order, added);
    GrowthWithinUniverse(g, order[t].domain, placed, added);
    SliceAppend(order, added, t + 1);
  }

  /** The rooms the turn of room t adds extend a placement order, with t as their parent. */
  lemma {:induction false} ExtendOrder(g: Graph, order: seq<Room>, parent: seq<nat>, t: nat,
                                       rooms: map<string, Room>, placed: set<string>, added: seq<Room>)
    requires PlacementOrder(g, order, parent) && t < |order|
    requires rooms == PlaceAll(map[], order) && placed == Domains(order)
    requires added == Zip(EmptyNeighbors(rooms, order[t].x, order[t].y), Candidates(g, placed, order[t].domain))
    ensures PlacementOrder(g, order + added, parent + Repeat(t, |added|))
    ensures forall j | 0 <= j < |added| :: added[j].domain in Neighborhood(g, order[t].domain) && added[j].domain !in placed
  {
    TurnAdds(g, rooms, placed, order[t]);
    PlaceAllValues(map[], order);
    DomainsContents(order);
    forall i, j | 0 <= i < |order| && 0 <= j < |added|
      ensures KeyOf(order[i]) != KeyOf(added[j]) && order[i].domain != added[j].domain
    {
      assert KeyOf(order[i]) in rooms && order[i].domain in placed;
    }
    AppendDistinct(order, added);
    AppendParents(g, order, parent, t, added);
  }

  lemma SliceAppend(a: seq<Room>, b: seq<Room>, k: nat)
    requires k <= |a|
    ensures a[k..] + b == (a + b)[k..]
  {
  }

  /** A turn puts only linked domains down, and a turn that adds rooms shrinks the unplaced rest. */
  lemma {:induction false} GrowthWithinUniverse(g: Graph, d: string, placed: set<string>, added: seq<Room>)
    requires placed <= Universe(g)
    requires forall j | 0 <= j < |added| :: added[j].domain in Neighborhood(g, d) && added[j].domain !in placed
    ensures placed + Domains(added) <= Universe(g)
    ensures added != [] ==> |Universe(g) - (placed + Domains(added))| < |Universe(g) - placed|
  {
    DomainsContents(added);
    forall x | x in Domains(added) ensures x in Universe(g) {
      var j :| 0 <= j < |added| && added[j].domain == x;
      NeighborhoodMentioned(g, d, x);
    }
    if added != [] {
      var x := added[0].domain;
      assert x in Universe(g) - placed && x !in Universe(g) - (placed + Domains(added));
      assert Universe(g) - (placed + Domains(added)) < Universe(g) - placed;
    }
  }

  // ---------------------------------------------------------------------------
  // What the queue loop computes

  /**
   * Turn t of a run that placed `order`: the rooms placed before it are
   * order[..sizes[t]], and the turn of room order[t] appended exactly the rooms
   * order[sizes[t]..sizes[t + 1]], the zip of that room's empty neighbours at
   * the time with its candidates at the time.
   */
  ghost predicate TurnRecorded(g: Graph, order: seq<Room>, sizes: seq<nat>, t: nat) {
    t + 1 < |sizes| && t < |order| && sizes[t] <= sizes[t + 1] <= |order| &&
    (var before := order[..sizes[t]];
     order[sizes[t]..sizes[t + 1]] ==
     Zip(EmptyNeighbors(PlaceAll(map[], before), order[t].x, order[t].y),
         Candidates(g, Domains(before), order[t].domain)))
  }

  /**
   * A replay of the queue loop: the seed is placed alone, then the rooms take
   * their turns first-in first-out, turn t being recorded by sizes[t], sizes[t + 1].
   */
  ghost predicate Replay(g: Graph, order: seq<Room>, sizes: seq<nat>) {
    && |sizes| >= 1 && sizes[0] == 1 && sizes[|sizes| - 1] == |order|
    && forall t | 0 <= t < |sizes| - 1 :: TurnRecorded(g, order, sizes, t)
  }

  /** Pushing rooms at the back leaves the record of an earlier turn as it was. */
  lemma TurnRecordedKept(g: Graph, order: seq<Room>, sizes: seq<nat>, added: seq<Room>, v: nat, u: nat)
    requires TurnRecorded(g, order, sizes, u)
    ensures TurnRecorded(g, order + added, sizes + [v], u)
  {
    var order', sizes' := order + added, sizes + [v];
    assert sizes'[u] == sizes[u] && sizes'[u + 1] == sizes[u + 1];
    assert order'[..sizes[u]] == order[..sizes[u]];
    assert order'[sizes[u]..sizes[u + 1]] == order[sizes[u]..sizes[u + 1]];
    assert order'[u] == order[u];
  }

  /** The turn of room t, run on everything placed so far, is recorded by the rooms it pushes. */
  lemma TurnRecordedNew(g: Graph, order: seq<Room>, sizes: seq<nat>, added: seq<Room>, t: nat)
    requires |sizes| == t + 1 && sizes[t] == |order| && t < |order|
    requires added == Zip(EmptyNeighbors(PlaceAll(map[], order), order[t].x, order[t].y),
                          Candidates(g, Domains(order), order[t].domain))
    ensures TurnRecorded(g, order + added, sizes + [|order + added|], t)
  {
    var order', sizes' := order + added, sizes + [|order + added|];
    assert sizes'[t] == |order| && sizes'[t + 1] == |order'|;
    assert order'[..|order|] == order;
    assert order'[|order|..|order'|] == added;
    assert order'[t] == order[t];
  }

  /** A queue iteration records its turn: the replay extends by the rooms it adds. */
  lemma {:induction false} ReplayStep(g: Graph, order: seq<Room>, sizes: seq<nat>, t: nat, added: seq<Room>)
    requires Replay(g, order, sizes) && |sizes| == t + 1 && t < |order|
    requires added == Zip(EmptyNeighbors(PlaceAll(map[], order), order[t].x, order[t].y),
                          Candidates(g, Domains(order), order[t].domain))
    ensures Replay(g, order + added, sizes + [|order + added|])
  {
    var order', sizes' := order + added, sizes + [|order + added|];
    forall u | 0 <= u < |sizes'| - 1 ensures TurnRecorded(g, order', sizes', u) {
      if u < t {
        TurnRecordedKept(g, order, sizes, added, |order + added|, u);
      } else {
        TurnRecordedNew(g, order, sizes, added, t);
      }
    }
  }

  /** Every cardinal neighbour cell of (x, y) holds a room. */
  predicate Surrounded(rooms: map<string, Room>, x: int, y: int) {
    forall i | 0 <= i < |Offsets| :: Key(Shift(x, y, Offsets[i]).0, Shift(x, y, Offsets[i]).1) in rooms
  }

  /**
   * A room whose turn has run has nothing left to do: when its domain has a
   * linksTo entry, either its four neighbour cells are all occupied or every
   * domain it is linked with is placed.
   */
  predicate Settled(g: Graph, rooms: map<string, Room>, placed: set<string>, r: Room) {
    r.domain in g.linksTo ==>
      Surrounded(rooms, r.x, r.y) || forall x | x in Neighborhood(g, r.domain) :: x in placed
  }

  /** When there are candidates enough, a turn fills every empty neighbour cell. */
  lemma {:induction false} TurnSurrounds(rooms: map<string, Room>, x: int, y: int, cands: seq<string>)
    requires |EmptyNeighbors(rooms, x, y)| <= |cands|
    ensures Surrounded(PlaceAll(rooms, Zip(EmptyNeighbors(rooms, x, y), cands)), x, y)
  {
    var cells := EmptyNeighbors(rooms, x, y);
    var added := Zip(cells, cands);
    PlaceAllKeys(rooms, added);
    KeysOfContents(added);
    EmptyNeighborsSpec(rooms, x, y);
    forall i | 0 <= i < |Offsets|
      ensures Key(Shift(x, y, Offsets[i]).0, Shift(x, y, Offsets[i]).1) in PlaceAll(rooms, added)
    {
      var c := Shift(x, y, Offsets[i]);
      if Key(c.0, c.1) !in rooms {
        assert Adjacent((x, y), c);
        var j :| 0 <= j < |cells| && cells[j] == c;
        assert KeyOf(added[j]) == Key(c.0, c.1);
      }
    }
  }

  /** When candidates run out first, a turn places every one of them. */
  lemma {:induction false} TurnExhausts(g: Graph, placed: set<string>, d: string, cells: seq<(int, int)>)
    requires d in g.linksTo && |Candidates(g, placed, d)| < |cells|
    ensures forall x | x in Neighborhood(g, d) :: x in placed + Domains(Zip(cells, Candidates(g, placed, d)))
  {
    var cands := Candidates(g, placed, d);
    var added := Zip(cells, cands);
    DomainsContents(added);
    forall x | x in Neighborhood(g, d) ensures x in placed + Domains(added) {
      if x !in placed {
        var j :| 0 <= j < |cands| && cands[j] == x;
        assert added[j].domain == x;
      }
    }
  }

  /** A turn settles its room: it fills every empty neighbour or runs out of candidates. */
  lemma TurnSettles(g: Graph, rooms: map<string, Room>, placed: set<string>, current: Room)
    ensures var added := Zip(EmptyNeighbors(rooms, current.x, current.y), Candidates(g, placed, current.domain));
            Settled(g, PlaceAll(rooms, added), placed + Domains(added), current)
  {
    var cells := EmptyNeighbors(rooms, current.x, current.y);
    var cands := Candidates(g, placed, current.domain);
    if current.domain in g.linksTo {
      if |cells| <= |cands| {
        TurnSurrounds(rooms, current.x, current.y, cands);
      } else {
        TurnExhausts(g, placed, current.domain, cells);
      }
    }
  }

  /** Placing more rooms and domains keeps a settled room settled. */
  lemma SettledGrows(g: Graph, rooms: map<string, Room>, placed: set<string>,
                     rooms': map<string, Room>, placed': set<string>, r: Room)
    requires rooms.Keys <= rooms'.Keys && placed <= placed' && Settled(g, rooms, placed, r)
    ensures Settled(g, rooms', placed', r)
  {
  }

  /** After a queue iteration, every room whose turn has run, the head included, is settled. */
  lemma {:induction false} SettledStep(g: Graph, rooms: map<string, Room>, placed: set<string>, queue: seq<Room>,
                                       order: seq<Room>, parent: seq<nat>, t: nat, added: seq<Room>)
    requires QueueState(g, rooms, placed, queue, order, parent, t) && queue != []
    requires forall i | 0 <= i < t :: Settled(g, rooms, placed, order[i])
    requires added == Zip(EmptyNeighbors(rooms, queue[0].x, queue[0].y), Candidates(g, placed, queue[0].domain))
    ensures forall i | 0 <= i < t + 1 ::
              Settled(g, PlaceAll(rooms, added), placed + Domains(added), (order + added)[i])
  {
    assert queue[0] == order[t];
    PlaceAllKeys(rooms, added);
    TurnSettles(g, rooms, placed, order[t]);
    forall i | 0 <= i < t + 1
      ensures Settled(g, PlaceAll(rooms, added), placed + Domains(added), (order + added)[i])
    {
      assert (order + added)[i] == order[i];
      if i < t {
        SettledGrows(g, rooms, placed, PlaceAll(rooms, added), placed + Domains(added), order[i]);
      }
    }
  }

  /**
   * The state of the queue loop after `turns` turns, with what those turns
   * did: the queue invariant, the replay of every turn so far, and every room
   * whose turn has run settled.
   */
  ghost predicate Progress(g: Graph, rooms: map<string, Room>, placed: set<string>, queue: seq<Room>,
                           order: seq<Room>, parent: seq<nat>, sizes: seq<nat>, turns: nat) {
    && QueueState(g, rooms, placed, queue, order, parent, turns)
    && Replay(g, order, sizes) && |sizes| == turns + 1
    && forall i | 0 <= i < turns :: Settled(g, rooms, placed, order[i])
  }

  /** A queue iteration keeps Progress, recording its turn, and decreases the loop measure. */
  lemma {:induction false} ProgressStep(g: Graph, rooms: map<string, Room>, placed: set<string>, queue: seq<Room>,
                                        order: seq<Room>, parent: seq<nat>, sizes: seq<nat>, turns: nat)
    requires Progress(g, rooms, placed, queue, order, parent, sizes, turns) && queue != []
    ensures var added := Zip(EmptyNeighbors(rooms, queue[0].x, queue[0].y), Candidates(g, placed, queue[0].domain));
            && Progress(g, PlaceAll(rooms, added), placed + Domains(added), queue[1..] + added,
                        order + added, parent + Repeat(turns, |added|), sizes + [|order + added|], turns + 1)
            && (|Universe(g) - (placed + Domains(added))| < |Universe(g) - placed| ||
                (placed + Domains(added) == placed && |queue[1..] + added| < |queue|))
  {
    var added := Zip(EmptyNeighbors(rooms, queue[0].x, queue[0].y), Candidates(g, placed, queue[0].domain));
    assert queue[0] == order[turns];
    TurnStep(g, rooms, placed, queue, order, parent, turns, added);
    ReplayStep(g, order, sizes, turns, added);
    SettledStep(g, rooms, placed, queue, order, parent, turns, added);
  }

  /** When the queue is empty every placed room has had its turn, and all are settled. */
  lemma {:induction false} ProgressDone(g: Graph, rooms: map<string, Room>, placed: set<string>,
                                        order: seq<Room>, parent: seq<nat>, sizes: seq<nat>, turns: nat)
    requires Progress(g, rooms, placed, [], order, parent, sizes, turns)
    ensures |sizes| == |order| + 1
    ensures forall i | 0 <= i < |order| :: Settled(g, rooms, Domains(order), order[i])
  {
    assert order[turns..] == [];
  }

  /**
   * One pass of the queue loop (graphToRooms.ts:29-85): shift the head of the
   * queue, run its turn, and push the rooms it placed at the back. Progress is
   * kept, with this turn recorded, and the pair (domains still unplaced, queue
   * length) strictly decreases.
   */
  method Visit(g: Graph, rooms: map<string, Room>, placed: set<string>, queue: seq<Room>,
               ghost order: seq<Room>, ghost parent: seq<nat>, ghost sizes: seq<nat>, ghost turns: nat)
    returns (rooms': map<string, Room>, placed': set<string>, queue': seq<Room>,
             ghost order': seq<Room>, ghost parent': seq<nat>, ghost sizes': seq<nat>)
    requires Progress(g, rooms, placed, queue, order, parent, sizes, turns) && queue != []
    ensures var added := Zip(EmptyNeighbors(rooms, queue[0].x, queue[0].y), Candidates(g, placed, queue[0].domain));
            && rooms' == PlaceAll(rooms, added)
            && placed' == placed + Domains(added)
            && queue' == queue[1..] + added
            && order' == order + added
            && parent' == parent + Repeat(turns, |added|)
            && sizes' == sizes + [|order + added|]
    ensures Progress(g, rooms', placed', queue', order', parent', sizes', turns + 1)
    ensures |Universe(g) - placed'| < |Universe(g) - placed| || (placed' == placed && |queue'| < |queue|)
  {
    var current := queue[0];
    queue' := queue[1..];
    var added;
    rooms', placed', added := Turn(g, rooms, placed, current);
    queue' := queue' + added;
    order', parent', sizes' := order + added, parent + Repeat(turns, |added|), sizes + [|order + added|];
    ProgressStep(g, rooms, placed, queue, order, parent, sizes, turns);
  }

  /**
   * createRooms (graphToRooms.ts:20-88). Besides the map it returns, as ghost
   * values, the order in which rooms were placed, the parent of each, and the
   * replay record of the turns.
   */
  method CreateRooms(g: Graph)
    returns (rooms: map<string, Room>, ghost order: seq<Room>, ghost parent: seq<nat>, ghost sizes: seq<nat>)
    ensures PlacementOrder(g, order, parent) && rooms == PlaceAll(map[], order)
    ensures Replay(g, order, sizes) && |sizes| == |order| + 1
    ensures forall i | 0 <= i < |order| :: Settled(g, rooms, Domains(order), order[i])
    ensures "0,0" in rooms && rooms["0,0"] == Room("breq.dev", 0, 0)
    ensures KeysMatch(rooms)
    ensures UniqueDomains(rooms)
    ensures Connected(rooms)
    ensures |rooms| <= |Universe(g)|
  {
    var start := Room("breq.dev", 0, 0);
    var placed := {"breq.dev"};
    var queue := [start];
    rooms := map["0,0" := start];
    order, parent, sizes := [start], [0], [1];
    ghost var turns := 0;
    OriginKey();
    assert rooms == PlaceAll(map[], order);
    while |queue| > 0
      invariant Progress(g, rooms, placed, queue, order, parent, sizes, turns)
      decreases |Universe(g) - placed|, |queue|
    {
      rooms, placed, queue, order, parent, sizes := Visit(g, rooms, placed, queue, order, parent, sizes, turns);
      turns := turns + 1;
    }
    ProgressDone(g, rooms, placed, order, parent, sizes, turns);
    LayoutFacts(g, order, parent);
    DomainsSize(order);
    SubsetSize(Domains(order), Universe(g));
  }

  lemma {:induction false} SubsetSize(a: set<string>, b: set<string>)
    requires a <= b
    ensures |a| <= |b|
  {
    assert b == a + (b - a);
  }
}
