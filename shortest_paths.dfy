/** ShortestPaths (app/src/main/java/graph/ShortestPaths.java): compute's settle loop
    over a frontier heap, and the queries over the records it leaves. */
module Paths {
  import opened Outcomes
  import opened HeapOrder
  import opened Heaps
  import opened PathSpec

  class ShortestPaths<Node(==)> {
    /** The PathData record of every node compute has met. */
    var paths: map<Node, PathData<Node>>
    /** The frontier: nodes met but not yet taken out, by recorded distance. */
    var frontier: Heap<Node>
    /** Frontier membership; compute only ever puts the origin here. */
    var frontierh: map<Node, int>
    /** Settled nodes, with their distance when they were settled. */
    var settledh: map<Node, int>
    /** The list traversal builds. */
    var answer: seq<Node>

    /** The graph of the last compute. */
    ghost var graph: Graph<Node>
    /** The order in which compute settled the nodes. */
    ghost var rank: map<Node, nat>
    /** The origin of the last compute; None before the first. */
    ghost var source: Option<Node>

    /** The records the queries rely on: those compute leaves, or none at all. */
    ghost predicate Valid()
      reads this
    {
      Ranked(graph, paths, rank) && Rooted(graph, source, paths)
    }

    /** ShortestPaths(): no records yet. */
    constructor ()
      ensures Valid() && paths == map[] && answer == [] && source == None
    {
      paths := map[];
      frontier := new Heap();
      frontierh := map[];
      settledh := map[];
      answer := [];
      graph := map[];
      rank := map[];
      source := None;
    }

    /** What holds at the head of compute's loop: the frontier is a heap and ScanState
        holds of the records and the frontier's entries. */
    ghost predicate Scanning(g: Graph<Node>, origin: Node)
      reads this, frontier.c, frontier.c.a
    {
      frontier.Valid() &&
      ScanState(g, origin, paths, settledh, frontierh, rank, multiset(frontier.Entries()))
    }

    /** The first part of the measure compute's loop decreases: the nodes of N that
        are not settled. */
    ghost function Unsettled(N: set<Node>): nat
      reads this
    {
      |N - settledh.Keys|
    }

    /** The second part: frontier entries of settled nodes. */
    ghost function SettledEntries(): nat
      reads this, frontier.c, frontier.c.a
      requires frontier.Complete()
    {
      CountIn(frontier.Entries(), settledh.Keys)
    }

    /** compute(origin): start from a fresh frontier holding the origin with priority 0
        and the record PathData(0, null), then settle nodes until the frontier is empty.
        Afterwards every recorded node is settled; every record but the origin's
        points back through an edge to a recorded node, with its distance that node's
        plus the edge's weight; and the recorded nodes are exactly those reachable
        from the origin. */
    method Compute(g: Graph<Node>, origin: Node)
      modifies this
      ensures Valid() && graph == g && source == Some(origin)
      ensures frontier.Complete() && frontier.Size() == 0 && frontierh == map[]
      ensures origin in paths && paths[origin] == PathData(0, None)
      ensures paths.Keys == settledh.Keys
      ensures forall s :: s in settledh ==> settledh[s] == paths[s].distance
      ensures forall w :: w in paths && w != origin ==> BackLink(g, paths, settledh, rank, w)
      ensures forall s :: s in paths ==> Neighbors(g, s).Keys <= paths.Keys
      ensures forall d :: d in paths <==> Reachable(g, origin, d)
    {
      Start(g, origin);
      SettleAll(g, origin);
      ScanDone(g, origin, paths, settledh, frontierh, rank);
      forall d
        ensures d in paths <==> Reachable(g, origin, d)
      {
        RecordedIffReachable(g, paths, rank, source, d);
      }
    }

    /** compute's set-up: empty records and a fresh frontier, then the origin seeded. */
    method Start(g: Graph<Node>, origin: Node)
      modifies this
      ensures Scanning(g, origin) && graph == g && source == Some(origin)
      ensures fresh(frontier.c) && fresh(frontier.c.a)
      ensures frontier.Entries() == [Entry(origin, 0)]
      ensures paths == map[origin := PathData(0, None)] && frontierh == map[origin := 0]
      ensures settledh == map[] && rank == map[]
    {
      paths := map[];
      frontier := new Heap();
      frontierh := map[];
      settledh := map[];
      rank := map[];
      graph := g;
      source := Some(origin);
      Seed(g, origin);
    }

    /** The origin added to the empty frontier with priority 0, put in frontierh and
        recorded as PathData(0, null). */
    method Seed(g: Graph<Node>, origin: Node)
      requires frontier.Valid() && frontier.Entries() == []
      requires paths == map[] && frontierh == map[] && settledh == map[] && rank == map[]
      modifies this`paths, this`frontierh, frontier.c, frontier.c.a
      ensures Scanning(g, origin)
      ensures frontier.c.a == old(frontier.c.a) || fresh(frontier.c.a)
      ensures frontier.Entries() == [Entry(origin, 0)]
      ensures paths == map[origin := PathData(0, None)] && frontierh == map[origin := 0]
    {
      frontier.Add(origin, 0);
      frontierh := frontierh[origin := 0];
      paths := paths[origin := PathData(0, None)];
      ScanStart(g, origin);
      assert multiset(frontier.Entries()) == multiset{Entry(origin, 0)};
    }

    /** compute's loop: settle nodes until the frontier is empty. Each settled node's
        neighbours all have records. */
    method SettleAll(g: Graph<Node>, ghost origin: Node)
      requires Scanning(g, origin) && Closed(g, paths, settledh.Keys)
      modifies this`paths, this`frontierh, this`settledh, this`rank, frontier.c, frontier.c.a
      ensures frontier.Valid() && frontier.Size() == 0
      ensures ScanState(g, origin, paths, settledh, frontierh, rank, multiset{})
      ensures Closed(g, paths, settledh.Keys)
    {
      ghost var N := CoveringNodes(g, origin);
      while frontier.Size() > 0
        invariant Scanning(g, origin) && Closed(g, paths, settledh.Keys)
        invariant frontier.c.a == old(frontier.c.a) || fresh(frontier.c.a)
        decreases Unsettled(N), SettledEntries()
      {
        var f := SettleNext(g, origin, N);
      }
      assert multiset(frontier.Entries()) == multiset{};
    }

    /** One turn of compute's loop: settle the frontier's first entry, then scan its
        neighbours, so that it too has records for all its neighbours. */
    method SettleNext(g: Graph<Node>, ghost origin: Node, ghost N: set<Node>) returns (f: Node)
      requires Covers(g, origin, N) && Scanning(g, origin) && frontier.Size() > 0
      requires Closed(g, paths, settledh.Keys)
      modifies this`paths, this`frontierh, this`settledh, this`rank, frontier.c, frontier.c.a
      ensures Scanning(g, origin) && Closed(g, paths, settledh.Keys)
      ensures frontier.c.a == old(frontier.c.a) || fresh(frontier.c.a)
      ensures f == old(frontier.Entries())[0].value
      ensures forall e :: e in old(multiset(frontier.Entries())) ==>
                old(frontier.Entries())[0].priority <= e.priority
      ensures f in old(paths) && settledh == old(settledh)[f := old(paths)[f].distance]
      ensures frontierh == map[]
      ensures paths == ScanRecords(old(paths), g, f, settledh.Keys, Neighbors(g, f).Keys)
      ensures Unsettled(N) < old(Unsettled(N)) ||
              (Unsettled(N) == old(Unsettled(N)) && SettledEntries() < old(SettledEntries()))
    {
      ghost var S := settledh;
      f := TakeFirst(g, origin, N);
      ScanSettled(g, origin, f, S, paths[f].distance);
    }

    /** Take the frontier's first entry out (one of minimum priority), take its node f
        out of frontierh and settle it at its recorded distance. */
    method TakeFirst(g: Graph<Node>, ghost origin: Node, ghost N: set<Node>) returns (f: Node)
      requires Covers(g, origin, N) && Scanning(g, origin) && frontier.Size() > 0
      modifies this`frontierh, this`settledh, this`rank, frontier.c, frontier.c.a
      ensures Scanning(g, origin) && frontier.c.a == old(frontier.c.a)
      ensures f == old(frontier.Entries())[0].value
      ensures forall e :: e in old(multiset(frontier.Entries())) ==>
                old(frontier.Entries())[0].priority <= e.priority
      ensures f in paths && settledh == old(settledh)[f := paths[f].distance]
      ensures frontierh == map[]
      ensures Unsettled(N) < old(Unsettled(N)) ||
              (Unsettled(N) == old(Unsettled(N)) && SettledEntries() < old(SettledEntries()))
    {
      ghost var E0 := frontier.Entries();
      ghost var S := settledh;
      ghost var F := frontierh;
      ghost var R := rank;
      var top := frontier.Peek();
      f := top.value;
      var polled := frontier.Poll();
      frontierh := frontierh - {f};
      settledh := settledh[f := paths[f].distance];
      rank := Settle(rank, f);
      ScanTaken(g, origin, paths, S, F, R, N, E0, frontier.Entries());
      TakenProgress(N, S, paths[f].distance, E0, frontier.Entries());
    }

    /** The scan of the neighbours of f, just settled at distance d on top of the
        settled nodes S: afterwards every settled node has a record for each of its
        neighbours. */
    method ScanSettled(g: Graph<Node>, ghost origin: Node, f: Node, ghost S: map<Node, int>, ghost d: int)
      requires Scanning(g, origin) && f in paths && frontierh == map[]
      requires settledh == S[f := d] && Closed(g, paths, S.Keys)
      modifies this`paths, frontier.c, frontier.c.a
      ensures Scanning(g, origin) && Closed(g, paths, settledh.Keys)
      ensures frontier.c.a == old(frontier.c.a) || fresh(frontier.c.a)
      ensures paths == ScanRecords(old(paths), g, f, settledh.Keys, Neighbors(g, f).Keys)
      ensures SettledEntries() == old(SettledEntries())
    {
      ghost var P := paths;
      ScanNeighbors(g, origin, f);
      ScanCloses(P, g, f, S, d);
    }

    /** The scan of f's neighbours, in some order: every neighbour that is neither in
        frontierh nor settled gets the record (distance of f + edge weight, f) and a
        frontier entry; every other record stays as it was. */
    method ScanNeighbors(g: Graph<Node>, ghost origin: Node, f: Node)
      requires Scanning(g, origin) && f in settledh && frontierh == map[]
      modifies this`paths, frontier.c, frontier.c.a
      ensures Scanning(g, origin)
      ensures frontier.c.a == old(frontier.c.a) || fresh(frontier.c.a)
      ensures paths == ScanRecords(old(paths), g, f, settledh.Keys, Neighbors(g, f).Keys)
      ensures SettledEntries() == old(SettledEntries())
    {
      ghost var p0 := paths;
      var keys := Neighbors(g, f).Keys;
      ghost var done: set<Node> := {};
      ScanRecordsNone(p0, g, f, settledh.Keys);
      while keys != {}
        invariant keys == Neighbors(g, f).Keys - done && done <= Neighbors(g, f).Keys
        invariant Scanning(g, origin) && frontierh == map[]
        invariant frontier.c.a == old(frontier.c.a) || fresh(frontier.c.a)
        invariant paths == ScanRecords(p0, g, f, settledh.Keys, done)
        invariant SettledEntries() == old(SettledEntries())
        decreases keys
      {
        var w :| w in keys;
        keys := keys - {w};
        ScanNeighbor(g, origin, f, w, p0, done);
        done := done + {w};
      }
      ScanRecordsAll(p0, g, f, settledh.Keys, done);
    }

    /** The scan of one neighbour w of f: when w is neither in frontierh nor settled
        it is discovered; otherwise its record is relaxed when its distance plus the
        edge's weight is smaller than its distance, which compares a distance plus a
        non-negative weight with itself and so never holds. */
    method ScanNeighbor(g: Graph<Node>, ghost origin: Node, f: Node, w: Node,
                        ghost p0: map<Node, PathData<Node>>, ghost done: set<Node>)
      requires Scanning(g, origin) && f in settledh && frontierh == map[] && w in Neighbors(g, f)
      requires f in p0 && paths == ScanRecords(p0, g, f, settledh.Keys, done)
      modifies this`paths, frontier.c, frontier.c.a
      ensures Scanning(g, origin)
      ensures frontier.c.a == old(frontier.c.a) || fresh(frontier.c.a)
      ensures paths == ScanRecords(p0, g, f, settledh.Keys, done + {w})
      ensures SettledEntries() == old(SettledEntries())
    {
      ScanRecordsStep(p0, g, f, settledh.Keys, done, w);
      var e := Neighbors(g, f)[w];
      if w !in frontierh && w !in settledh {
        Discover(g, origin, f, w);
      } else if paths[w].distance + e < paths[w].distance {
        // A distance plus a weight of at least 0 is never below that distance, so the
        // source's update here is never reached.
        assert false;
      }
    }

    /** A neighbour w of f that is neither in frontierh nor settled gets the record
        (distance of f + edge weight, f) and a frontier entry with that distance. */
    method Discover(g: Graph<Node>, ghost origin: Node, f: Node, w: Node)
      requires Scanning(g, origin) && frontierh == map[]
      requires f in settledh && w in Neighbors(g, f) && w !in settledh
      modifies this`paths, frontier.c, frontier.c.a
      ensures Scanning(g, origin)
      ensures frontier.c.a == old(frontier.c.a) || fresh(frontier.c.a)
      ensures paths == old(paths)[w := PathData(old(paths)[f].distance + Neighbors(g, f)[w], Some(f))]
      ensures SettledEntries() == old(SettledEntries())
    {
      ghost var E := frontier.Entries();
      ghost var P := paths;
      paths := paths[w := PathData(paths[f].distance + Neighbors(g, f)[w], Some(f))];
      frontier.Add(w, paths[w].distance);
      ScanDiscovered(g, origin, P, settledh, frontierh, rank, E, frontier.Entries(), f, w);
    }

    /** shortestPathLength(destination): the recorded distance, or infinity when there
        is no record, which after a compute is when no path leads from the origin to
        destination. The distance is the total weight of the path shortestPath
        returns. */
    function ShortestPathLength(destination: Node): (r: Length)
      reads this
      requires Valid()
      ensures r == Infinite <==> destination !in paths
      ensures source.Some? ==> (r == Infinite <==> !Reachable(graph, source.value, destination))
      ensures r.Finite? ==>
                r.value == paths[destination].distance && r.value >= 0 &&
                IsWalk(graph, Trace(graph, paths, rank, destination)) &&
                r.value == Weight(graph, Trace(graph, paths, rank, destination))
    {
      RecordedIffReachable(graph, paths, rank, source, destination);
      if destination in paths then
        TraceWeight(graph, paths, rank, destination);
        Finite(paths[destination].distance)
      else
        Infinite
    }

    /** shortestPath(destination): null when there is no record, which after a compute
        is when no path leads from the origin to destination; otherwise the list
        traversal builds from an empty answer, which answer then holds. That list is a
        walk of the graph ending at destination, of weight its recorded distance; it
        starts at the origin when every edge weight is positive. */
    method ShortestPath(destination: Node) returns (r: Option<seq<Node>>)
      requires Valid()
      modifies this`answer
      ensures r == None <==> destination !in paths
      ensures source.Some? ==> (r == None <==> !Reachable(graph, source.value, destination))
      ensures r == None ==> answer == old(answer)
      ensures r.Some? ==> r.value == Trace(graph, paths, rank, destination) && answer == r.value
      ensures r.Some? ==>
                |r.value| > 0 && r.value[|r.value| - 1] == destination && IsWalk(graph, r.value) &&
                Weight(graph, r.value) == paths[destination].distance
      ensures r.Some? && PositiveWeights(graph) ==> source.Some? && r.value[0] == source.value
    {
      RecordedIffReachable(graph, paths, rank, source, destination);
      if destination !in paths {
        return None;
      }
      TraceShape(graph, paths, rank, destination);
      TraceWeight(graph, paths, rank, destination);
      if PositiveWeights(graph) {
        TraceFromOrigin(graph, paths, rank, source.value, destination);
      }
      answer := [];
      var path := Traversal(destination);
      return Some(path);
    }

    /** traversal(travel): put travel in front of answer, and stop at distance 0 or go
        on with travel's predecessor. */
    method Traversal(travel: Node) returns (r: seq<Node>)
      requires Valid() && travel in paths
      modifies this`answer
      ensures answer == Trace(graph, paths, rank, travel) + old(answer) && r == answer
      decreases rank[travel]
    {
      answer := [travel] + answer;
      assert Linked(graph, paths, rank, travel);
      if paths[travel].distance == 0 {
        return answer;
      }
      r := Traversal(paths[travel].previous.value);
    }
  }
}
