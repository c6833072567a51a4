/** The `HNSW` class of src/index.ts: an index of vectors by id, searched by
    walking a layered neighbour graph. Node objects live in an arena
    (`store`); the distance function and the random draws are supplied from
    outside. */
module Hnsw {
  import opened Outcomes
  import opened Graph
  import opened Bytes
  import opened Codec
  import opened Links

  class HNSW {
    const metric: Metric
    const numDimensions: nat
    const M: nat
    const ef: nat
    /** `computeDistance(a, b)` for this index's metric. */
    const distance: (Vector, Vector) -> nat
    var maxLevel: nat
    var entryPoint: Option<Handle>
    var nodes: map<int, Handle>
    var order: seq<int>
    var store: seq<Node>

    function State(): Index
      reads this
    {
      Index(metric, numDimensions, M, ef, maxLevel, entryPoint, nodes, order, store)
    }

    ghost predicate Valid()
      reads this
    {
      Graph.Valid(State())
    }

    /** Every registered node is at a level no higher than `maxLevel`. */
    ghost predicate LevelsCapped()
      reads this
    {
      Capped(nodes, store, maxLevel)
    }

    /** `new HNSW(similarityMetric, numDimensions, M, ef)`
        (src/index.ts:31-39). */
    constructor (metric: Metric, numDimensions: nat, M: nat, ef: nat, distance: (Vector, Vector) -> nat)
      ensures Valid() && LevelsCapped()
      ensures this.metric == metric && this.numDimensions == numDimensions
      ensures this.M == M && this.ef == ef && this.distance == distance
      ensures maxLevel == 0 && entryPoint == None && nodes == map[] && order == [] && store == []
    {
      this.metric := metric;
      this.numDimensions := numDimensions;
      this.M := M;
      this.ef := ef;
      this.distance := distance;
      maxLevel := 0;
      entryPoint := None;
      nodes := map[];
      order := [];
      store := [];
    }

    /** Distance from the query to a node object's vector. */
    function Dist(query: Vector, h: Handle): nat
      reads this
      requires h < |store|
    {
      distance(query, store[h].vector)
    }

    /** `randomLevel` (src/index.ts:41-47). Draw `j` of this call is `coin(j)`
        ("`Math.random() < 1 / Math.E`"). The draw is capped at `maxLevel`. */
    method RandomLevel(coin: nat -> bool) returns (level: nat)
      ensures level <= maxLevel
      ensures forall j :: 0 <= j < level ==> coin(j)
      ensures level < maxLevel ==> !coin(level)
    {
      level := 0;
      while coin(level) && level < maxLevel
        invariant level <= maxLevel
        invariant forall j :: 0 <= j < level ==> coin(j)
        decreases maxLevel - level
      {
        level := level + 1;
      }
    }

    /** No node among the leading filled slots of `h`'s row at `level` is
        strictly closer to the query than `h`. */
    ghost predicate LocalMin(query: Vector, h: Handle, level: nat)
      reads this
      requires Valid() && h < |store|
    {
      && level < |store[h].neighbors|
      && var row := store[h].neighbors[level];
         forall i :: 0 <= i < LinkRun(row) ==> row[i].target < |store| && Dist(query, row[i].target) >= Dist(query, h)
    }

    /** `searchLevel` (src/index.ts:71-92): greedy descent at one level. A row
        is scanned up to its first empty or vacated slot; the walk moves to
        any strictly closer node and rescans until a pass changes nothing.
        Reaching a node that has no row at `level` throws. */
    method SearchLevel(query: Vector, ep: Handle, level: nat) returns (r: Result<Handle>)
      requires Valid() && ep < |store|
      ensures r.Fail? ==> r.error == TypeError
      ensures level == 0 ==> r.Ok?
      ensures r.Ok? ==> r.value < |store| && Dist(query, r.value) <= Dist(query, ep)
      ensures r.Ok? ==> LocalMin(query, r.value, level)
      ensures r.Ok? ==> r.value == ep || LinkedAt(store, r.value, level)
    {
      var current: Handle := ep;
      var bestDistance := Dist(query, current);
      var changed := true;
      while changed
        invariant current < |store|
        invariant bestDistance == Dist(query, current) <= Dist(query, ep)
        invariant !changed ==> LocalMin(query, current, level)
        invariant current == ep || LinkedAt(store, current, level)
        decreases if changed then bestDistance + 1 else 0
      {
        changed := false;
        assert NodeOk(store[current], |store|, M);
        // `for (const neighbor of current.neighbors[level])` iterates the row
        // of the node that was current when the pass began.
        var row :- Row(store[current], level);
        ghost var start := current;
        var j := 0;
        while j < |row|
          invariant 0 <= j <= |row|
          invariant current < |store| && bestDistance == Dist(query, current) <= Dist(query, ep)
          invariant changed ==> bestDistance < Dist(query, start)
          invariant !changed ==> current == start
          invariant current == ep || LinkedAt(store, current, level)
          invariant forall i :: 0 <= i < j ==> row[i].Link? && row[i].target < |store| && Dist(query, row[i].target) >= bestDistance
        {
          if !row[j].Link? {
            break;
          }
          var neighbor: Handle := row[j].target;
          var d := Dist(query, neighbor);
          if d < bestDistance {
            assert Link(neighbor) in store[start].neighbors[level] by { assert row[j] == Link(neighbor); }
            bestDistance := d;
            current := neighbor;
            changed := true;
          }
          j := j + 1;
        }
      }
      r := Ok(current);
    }

    /** The `reduce` that picks `closest` in `_searchKNN`
        (src/index.ts:141-145): the first candidate, in insertion order, at
        the least distance. The `null` seed at distance `Infinity` is always
        replaced by the first candidate, so a non-empty set yields a node. */
    method Closest(query: Vector, cands: seq<Handle>) returns (best: nat)
      requires |cands| > 0 && forall i :: 0 <= i < |cands| ==> cands[i] < |store|
      ensures best < |cands|
      ensures forall i :: 0 <= i < |cands| ==> Dist(query, cands[best]) <= Dist(query, cands[i])
      ensures forall i :: 0 <= i < best ==> Dist(query, cands[best]) < Dist(query, cands[i])
    {
      best := 0;
      var bestDist := Dist(query, cands[0]);
      var i := 1;
      while i < |cands|
        invariant 1 <= i <= |cands| && best < i
        invariant bestDist == Dist(query, cands[best])
        invariant forall j :: 0 <= j < i ==> bestDist <= Dist(query, cands[j])
        invariant forall j :: 0 <= j < best ==> bestDist < Dist(query, cands[j])
      {
        var currDist := Dist(query, cands[i]);
        if currDist < bestDist {
          best, bestDist := i, currDist;
        }
        i := i + 1;
      }
    }

    /** The `reduce` that picks `furthestResult` (src/index.ts:157-161): the
        first result at the greatest distance, or nothing for an empty
        result. */
    method Furthest(query: Vector, res: seq<Handle>) returns (f: Option<nat>)
      requires forall i :: 0 <= i < |res| ==> res[i] < |store|
      ensures f.None? <==> res == []
      ensures f.Some? ==> f.value < |res|
      ensures f.Some? ==> forall i :: 0 <= i < |res| ==> Dist(query, res[i]) <= Dist(query, res[f.value])
      ensures f.Some? ==> forall i :: 0 <= i < f.value ==> Dist(query, res[i]) < Dist(query, res[f.value])
    {
      if res == [] {
        return None;
      }
      var far := 0;
      var farDist := Dist(query, res[0]);
      var i := 1;
      while i < |res|
        invariant 1 <= i <= |res| && far < i
        invariant farDist == Dist(query, res[far])
        invariant forall j :: 0 <= j < i ==> Dist(query, res[j]) <= farDist
        invariant forall j :: 0 <= j < far ==> Dist(query, res[j]) < farDist
      {
        var currDist := Dist(query, res[i]);
        if currDist > farDist {
          far, farDist := i, currDist;
        }
        i := i + 1;
      }
      f := Some(far);
    }

    /** The neighbour scan of `_searchKNN` (src/index.ts:177-182): every node
        in the row whose id is not visited joins the candidates, unless it is
        one already; empty and vacated slots are skipped. Nodes whose id is
        visited are popped ones; the others stay in `unpopped`. */
    method AddCandidates(row: seq<Slot>, visited: set<int>, candidates: seq<Handle>, ghost unpopped: set<Handle>)
      returns (cands: seq<Handle>)
      requires LinksIn(row, |store|) && Frontier(candidates, visited, unpopped)
      ensures |candidates| <= |cands| && cands[..|candidates|] == candidates
      ensures Frontier(cands, visited, unpopped)
      ensures forall i :: |candidates| <= i < |cands| ==>
        Link(cands[i]) in row && store[cands[i]].id !in visited
      ensures forall j :: 0 <= j < |row| && row[j].Link? && store[row[j].target].id !in visited ==>
        row[j].target in cands
    {
      cands := candidates;
      var j := 0;
      while j < |row|
        invariant 0 <= j <= |row|
        invariant |candidates| <= |cands| && Distinct(cands) && cands[..|candidates|] == candidates
        invariant forall i :: 0 <= i < |cands| ==> cands[i] < |store| && cands[i] in unpopped
        invariant forall i :: |candidates| <= i < |cands| ==>
          Link(cands[i]) in row && store[cands[i]].id !in visited
        invariant forall i :: 0 <= i < j && row[i].Link? && store[row[i].target].id !in visited ==>
          row[i].target in cands
      {
        var neighbor := row[j];
        if !neighbor.Link? || store[neighbor.target].id in visited {
          j := j + 1;
          continue;
        }
        if neighbor.target !in cands {
          cands := cands + [neighbor.target];
        }
        j := j + 1;
      }
    }

    /** The search state of `_searchKNN`: distinct candidates, none of them
        popped yet, and every popped node's id visited. */
    ghost predicate Frontier(cands: seq<Handle>, visited: set<int>, unpopped: set<Handle>)
      reads this
    {
      && Distinct(cands)
      && (forall i :: 0 <= i < |cands| ==> cands[i] < |store| && cands[i] in unpopped)
      && (forall h :: 0 <= h < |store| && h !in unpopped ==> store[h].id in visited)
    }

    /** Results are node objects already popped. */
    ghost predicate Popped(result: seq<Handle>, unpopped: set<Handle>)
      reads this
    {
      forall i :: 0 <= i < |result| ==> result[i] < |store| && result[i] !in unpopped
    }

    /** The pop step of `_searchKNN` (src/index.ts:141-152): the first
        closest candidate leaves the candidate list and its id is visited. */
    method PopClosest(query: Vector, cands: seq<Handle>, visited: set<int>, ghost unpopped: set<Handle>)
      returns (closest: Handle, rest: seq<Handle>, seen: set<int>, ghost left: set<Handle>)
      requires |cands| > 0 && Frontier(cands, visited, unpopped)
      ensures exists ci ::
        && 0 <= ci < |cands| && closest == cands[ci] && rest == cands[..ci] + cands[ci + 1..]
        && (forall i :: 0 <= i < |cands| ==> Dist(query, closest) <= Dist(query, cands[i]))
        && (forall i :: 0 <= i < ci ==> Dist(query, closest) < Dist(query, cands[i]))
      ensures seen == visited + {store[closest].id}
      ensures closest in unpopped && left == unpopped - {closest}
      ensures Frontier(rest, seen, left)
      ensures closest in cands && forall i :: 0 <= i < |rest| ==> rest[i] in cands
    {
      var ci := Closest(query, cands);
      closest := cands[ci];
      rest := cands[..ci] + cands[ci + 1..];
      seen := visited + {store[closest].id};
      left := unpopped - {closest};
      forall i | 0 <= i < |rest|
        ensures rest[i] != closest && rest[i] in cands
      {
        assert rest[i] == if i < ci then cands[i] else cands[i + 1];
      }
      forall i, j | 0 <= i < j < |rest|
        ensures rest[i] != rest[j]
      {
        assert rest[i] == if i < ci then cands[i] else cands[i + 1];
        assert rest[j] == if j < ci then cands[j] else cands[j + 1];
      }
    }

    /** The full-result branch of `_searchKNN` (src/index.ts:156-175): the
        popped node replaces the first furthest result if strictly closer than
        it; otherwise, or with no result at all, the search stops. */
    method Replace(query: Vector, closest: Handle, result: seq<Handle>) returns (res: seq<Handle>, stop: bool)
      requires closest < |store| && forall i :: 0 <= i < |result| ==> result[i] < |store|
      requires Distinct(result) && closest !in result
      ensures !stop <==> exists i :: 0 <= i < |result| && Dist(query, closest) < Dist(query, result[i])
      ensures !stop ==> exists f ::
        && 0 <= f < |result| && res == result[f := closest]
        && (forall i :: 0 <= i < |result| ==> Dist(query, result[i]) <= Dist(query, result[f]))
        && (forall i :: 0 <= i < f ==> Dist(query, result[i]) < Dist(query, result[f]))
      ensures stop ==> res == result
      ensures Distinct(res) && |res| == |result|
      ensures forall i :: 0 <= i < |res| ==> res[i] == closest || res[i] in result
      ensures !stop ==> closest in res
      ensures forall w :: w in result && w !in res ==> Dist(query, closest) < Dist(query, w)
    {
      var fi := Furthest(query, result);
      if fi.None? {
        return result, true;
      }
      var furthestResult := result[fi.value];
      var closestDist := Dist(query, closest);
      var furthestResultDist := Dist(query, furthestResult);
      if closestDist < furthestResultDist {
        assert furthestResult in result;
        var at := IndexOf(result, furthestResult);
        assert result[at] == result[fi.value];
        res := result[at := closest];
        stop := false;
        forall w | w in result && w !in res
          ensures Dist(query, closest) < Dist(query, w)
        {
          var i :| 0 <= i < |result| && result[i] == w;
          assert res[i] == if i == at then closest else w;
        }
        assert res[at] == closest;
      } else {
        res, stop := result, true;
      }
    }

    /** The result update of `_searchKNN` (src/index.ts:154-175): below `k`
        results the popped node is appended; otherwise it replaces the first
        furthest result if strictly closer than it, and else the search stops.
        With no result to compare against (`k` at most 0) it stops too. */
    method Admit(query: Vector, closest: Handle, result: seq<Handle>, k: int) returns (res: seq<Handle>, stop: bool)
      requires closest < |store| && forall i :: 0 <= i < |result| ==> result[i] < |store|
      requires Distinct(result) && closest !in result && |result| <= (if k < 0 then 0 else k)
      ensures |result| < k ==> !stop && res == result + [closest]
      ensures |result| >= k ==> (!stop <==> exists i :: 0 <= i < |result| && Dist(query, closest) < Dist(query, result[i]))
      ensures |result| >= k && !stop ==> exists f ::
        && 0 <= f < |result| && res == result[f := closest]
        && (forall i :: 0 <= i < |result| ==> Dist(query, result[i]) <= Dist(query, result[f]))
        && (forall i :: 0 <= i < f ==> Dist(query, result[i]) < Dist(query, result[f]))
      ensures stop ==> res == result
      ensures Distinct(res) && |res| <= (if k < 0 then 0 else k)
      ensures forall i :: 0 <= i < |res| ==> res[i] == closest || res[i] in result
      ensures !stop ==> closest in res
      ensures forall w :: w in result && w !in res ==> Dist(query, closest) < Dist(query, w)
    {
      if |result| < k {
        DistinctSnoc(result, closest);
        return result + [closest], false;
      }
      res, stop := Replace(query, closest, result);
    }

    /** `_searchKNN` (src/index.ts:135-186): best-first search at one level.
        The candidate set is kept in insertion order; a popped node's id is
        marked visited. Until `k` results are held the closest candidate is
        appended; after that it replaces the furthest result when strictly
        closer, and otherwise the search stops. The popped node's row is then
        scanned, skipping empty and vacated slots and visited ids. A popped
        node without a row at `level` throws. */
    method SearchLayer(entry: Handle, query: Vector, k: int, level: nat) returns (r: Result<seq<Handle>>)
      requires StoreOk(store, M) && entry < |store|
      ensures r.Fail? ==> r.error == TypeError
      ensures level == 0 ==> r.Ok?
      ensures r.Ok? ==> |r.value| <= (if k < 0 then 0 else k)
      ensures r.Ok? ==> Distinct(r.value) && forall i :: 0 <= i < |r.value| ==> r.value[i] < |store|
      ensures r.Ok? && k >= 1 ==>
        exists i :: 0 <= i < |r.value| && Dist(query, r.value[i]) <= Dist(query, entry)
      ensures r.Ok? ==> Reached(store, entry, level, r.value)
    {
      var visited: set<int> := {};
      var candidates: seq<Handle> := [entry];
      var result: seq<Handle> := [];
      // The node objects not yet popped: each pass pops one, and a popped
      // node is never a candidate again since its id is visited.
      ghost var unpopped: set<Handle> := HandlesBelow(|store|);
      ghost var started := false;
      ghost var near: Handle := entry;
      while |candidates| > 0
        invariant Frontier(candidates, visited, unpopped)
        invariant Distinct(result) && Popped(result, unpopped)
        invariant |result| <= (if k < 0 then 0 else k)
        invariant !started ==> candidates == [entry] && result == []
        invariant started && k >= 1 ==> near in result && Dist(query, near) <= Dist(query, entry)
        invariant Reached(store, entry, level, candidates) && Reached(store, entry, level, result)
        decreases unpopped
      {
        var closest;
        ghost var popped := candidates;
        closest, candidates, visited, unpopped := PopClosest(query, candidates, visited, unpopped);
        ReachedSub(store, entry, level, popped, candidates);
        ReachedSub(store, entry, level, popped, [closest]);

        var stop;
        ghost var before := result;
        result, stop := Admit(query, closest, result, k);
        forall i | 0 <= i < |result|
          ensures result[i] < |store| && result[i] !in unpopped
          ensures result[i] == entry || LinkedAt(store, result[i], level)
        {
          if result[i] == closest {
            assert [closest][0] == closest;
          } else {
            assert result[i] in before;
          }
        }
        if stop {
          break;
        }
        if !started || near !in result {
          near := closest;
        }
        started := true;

        var row :- Row(store[closest], level);
        RowLinksIn(store[closest], |store|, M, level);
        ghost var held := candidates;
        candidates := AddCandidates(row, visited, candidates, unpopped);
        ReachedExtend(store, entry, level, held, candidates, closest);
      }
      r := Ok(result);
    }

    /** `searchKNN` (src/index.ts:188-194): descend greedily from the entry
        point at `maxLevel`, then search level 0. An index with no entry
        point answers with no nodes. */
    method SearchKNN(query: Vector, k: int) returns (r: Result<seq<Handle>>)
      requires Valid()
      ensures entryPoint.None? ==> r == Ok([])
      ensures r.Fail? ==> r.error == TypeError
      ensures maxLevel == 0 ==> r.Ok?
      ensures r.Ok? ==> |r.value| <= (if k < 0 then 0 else k)
      ensures r.Ok? ==> Distinct(r.value) && forall i :: 0 <= i < |r.value| ==> r.value[i] < |store|
      ensures r.Ok? && k >= 1 && entryPoint.Some? ==>
        exists i :: 0 <= i < |r.value| && Dist(query, r.value[i]) <= Dist(query, entryPoint.value)
    {
      if entryPoint.None? {
        return Ok([]);
      }
      var ep :- SearchLevel(query, entryPoint.value, maxLevel);
      r := SearchLayer(ep, query, k, 0);
    }

    /** `node.neighbors[l] = row`. */
    method SetRow(h: Handle, l: nat, row: seq<Slot>)
      requires Valid() && h < |store| && l < |store[h].neighbors|
      requires |row| <= M && LinksIn(row, |store|)
      modifies this
      ensures Valid()
      ensures store == WithRow(old(store), h, l, row)
      ensures maxLevel == old(maxLevel) && entryPoint == old(entryPoint)
      ensures nodes == old(nodes) && order == old(order)
    {
      WithRowKeepsValid(State(), h, l, row);
      store := WithRow(store, h, l, row);
    }

    /** The back-link step of `addNode` for one neighbour `nb` at level `i`
        (src/index.ts:116-123): the new node is spliced in before the first
        slot of `nb`'s row that is empty or holds a node further from `nb`
        than the new node is, and the row is trimmed back to `M`. No such
        slot leaves the row alone; a vacated slot reached first, or a missing
        row, throws. */
    method LinkBack(nb: Handle, newH: Handle, vector: Vector, i: nat) returns (r: Result<()>)
      requires Valid() && nb < |store| && newH < |store|
      modifies this
      ensures Valid() && SameNodes(old(store), store)
      ensures maxLevel == old(maxLevel) && entryPoint == old(entryPoint)
      ensures nodes == old(nodes) && order == old(order)
      ensures r.Fail? ==> r.error == TypeError && store == old(store)
      ensures i >= |old(store)[nb].neighbors| ==> r.Fail?
      ensures i < |old(store)[nb].neighbors| ==>
        var row := old(store)[nb].neighbors[i];
        var nv := old(store)[nb].vector;
        var f := FindFree(distance, old(store), row, nv, distance(nv, vector), 0);
        && (f.Fail? ==> r.Fail?)
        && (f.Ok? && f.value < 0 ==> r.Ok? && store == old(store))
        && (f.Ok? && f.value >= 0 ==>
              r.Ok? && store == WithRow(old(store), nb, i, InsertSlot(row, f.value, Link(newH), M)))
      ensures var step := LinkBackStep(distance, old(store), M, nb, newH, vector, i);
        (r.Ok? <==> step.Ok?) && (r.Ok? ==> store == step.value)
    {
      assert NodeOk(store[nb], |store|, M);
      var row :- Row(store[nb], i);
      var nDist := distance(store[nb].vector, vector);
      var furthestNeighborIndex :- FindFree(distance, store, row, store[nb].vector, nDist, 0);
      if furthestNeighborIndex != -1 {
        SetRow(nb, i, InsertSlot(row, furthestNeighborIndex, Link(newH), M));
      }
      r := Ok(());
    }

    /** The back-link loop of `addNode` at level `i` (src/index.ts:115-124),
        one `LinkBack` per neighbour found. */
    method LinkBackAll(neighbors: seq<Handle>, newH: Handle, vector: Vector, i: nat) returns (r: Result<()>)
      requires Valid() && newH < |store|
      requires forall n :: 0 <= n < |neighbors| ==> neighbors[n] < |store|
      modifies this
      ensures Valid() && SameNodes(old(store), store)
      ensures maxLevel == old(maxLevel) && entryPoint == old(entryPoint)
      ensures nodes == old(nodes) && order == old(order)
      ensures r.Fail? ==> r.error == TypeError
      ensures var all := LinkBacks(distance, old(store), M, neighbors, newH, vector, i);
        (r.Ok? <==> all.Ok?) && (r.Ok? ==> store == all.value)
    {
      var n := 0;
      while n < |neighbors|
        invariant n <= |neighbors|
        invariant Valid() && SameNodes(old(store), store)
        invariant maxLevel == old(maxLevel) && entryPoint == old(entryPoint)
        invariant nodes == old(nodes) && order == old(order)
        invariant LinkBacks(distance, old(store), M, neighbors, newH, vector, i)
          == LinkBacks(distance, store, M, neighbors[n..], newH, vector, i)
      {
        assert neighbors[n..][0] == neighbors[n] && neighbors[n..][1..] == neighbors[n + 1..];
        var _ :- LinkBack(neighbors[n], newH, vector, i);
        n := n + 1;
      }
      r := Ok(());
    }

    /** One level of `addNode` (src/index.ts:112-124): the new node's row at
        `i` becomes the nodes `_searchKNN` finds from `currentNode`, and each
        of them is linked back to it. */
    method LinkAtLevel(currentNode: Handle, newH: Handle, vector: Vector, i: nat)
      returns (r: Result<()>, ghost found: seq<Handle>)
      requires Valid() && currentNode < |store| && newH < |store| && i < |store[newH].neighbors|
      modifies this
      ensures Valid() && SameNodes(old(store), store)
      ensures maxLevel == old(maxLevel) && entryPoint == old(entryPoint)
      ensures nodes == old(nodes) && order == old(order)
      ensures r.Fail? ==> r.error == TypeError
      ensures r.Ok? ==>
        && |found| <= M && Distinct(found)
        && (forall k :: 0 <= k < |found| ==> found[k] < |old(store)|)
        && Reached(old(store), currentNode, i, found)
        && LinkLevel(distance, old(store), M, newH, vector, found, i) == Ok(store)
      ensures r.Ok? && M >= 1 ==>
        && found != []
        && exists j :: 0 <= j < |found| &&
             distance(vector, old(store)[found[j]].vector) <= distance(vector, old(store)[currentNode].vector)
    {
      found := [];
      var neighbors :- SearchLayer(currentNode, vector, M, i);
      found := neighbors;
      SetRow(newH, i, AsSlots(Cut(neighbors, M)));
      r := LinkBackAll(neighbors, newH, vector, i);
    }

    /** One pass of the loop in `addNode` (src/index.ts:110-129) at level
        `i`: at a level the new node has, link it there, below the levels
        `fs` already linked (from `lo` up) starting from the store `s`; then,
        above level 0, descend to the level below. */
    method LevelPass(currentNode: Handle, newH: Handle, vector: Vector, i: nat, level: nat,
                     ghost s: seq<Node>, ghost fs: seq<seq<Handle>>, ghost lo: nat)
      returns (r: Result<Handle>, ghost fs': seq<seq<Handle>>, ghost lo': nat)
      requires Valid() && currentNode < |store| && currentNode != newH
      requires StoreOk(s, M) && newH < |s| && level < |s[newH].neighbors|
      requires lo == (if i >= level then level + 1 else i + 1) && lo + |fs| == level + 1
      requires FoundLists(fs, |s|, M, newH)
      requires LinkDown(distance, s, M, newH, vector, fs, lo) == Ok(store)
      requires NoLinksBelow(store, newH, i + 1)
      modifies this
      ensures Valid() && SameNodes(s, store)
      ensures maxLevel == old(maxLevel) && entryPoint == old(entryPoint)
      ensures nodes == old(nodes) && order == old(order)
      ensures r.Fail? ==> r.error == TypeError
      ensures r.Ok? ==>
        && r.value < |store| && r.value != newH
        && lo' == (if i > level then level + 1 else i) && lo' + |fs'| == level + 1
        && FoundLists(fs', |s|, M, newH)
        && LinkDown(distance, s, M, newH, vector, fs', lo') == Ok(store)
        && NoLinksBelow(store, newH, i)
    {
      fs', lo' := fs, lo;
      if i <= level {
        ghost var before := store;
        var _, found :- LinkAtLevel(currentNode, newH, vector, i);
        LinkDownBelow(distance, s, M, newH, vector, fs, found, i, currentNode, before, store);
        fs', lo' := [found] + fs, i;
      } else {
        NoLinksFewer(store, newH, i + 1, i);
      }
      r := Ok(currentNode);
      if i > 0 {
        r := Descend(vector, currentNode, i - 1, newH);
      }
    }

    /** The linking part of `addNode` (src/index.ts:108-130) for a node
        allocated at `newH` with level `level`: descend from the entry point,
        and at every level from `level` down give the new node the neighbours
        found there and link it back from them. */
    method LinkLevels(newH: Handle, level: nat, vector: Vector) returns (r: Result<()>, ghost fs: seq<seq<Handle>>)
      requires Valid() && newH < |store| && entryPoint.Some? && level <= maxLevel
      requires level < |store[newH].neighbors|
      requires entryPoint.value != newH && NoLinksBelow(store, newH, maxLevel + 1)
      modifies this
      ensures Valid() && SameNodes(old(store), store)
      ensures maxLevel == old(maxLevel) && entryPoint == old(entryPoint)
      ensures nodes == old(nodes) && order == old(order)
      ensures r.Fail? ==> r.error == TypeError
      ensures r.Ok? ==>
        && |fs| == level + 1 && FoundLists(fs, |old(store)|, M, newH)
        && LinkDown(distance, old(store), M, newH, vector, fs, 0) == Ok(store)
    {
      fs := [];
      var currentNode: Handle :- Descend(vector, entryPoint.value, maxLevel, newH);
      var i: int := maxLevel;
      // The lowest level linked so far.
      ghost var lo: nat := level + 1;
      while i >= 0
        invariant -1 <= i <= maxLevel
        invariant Valid() && currentNode < |store| && currentNode != newH
        invariant maxLevel == old(maxLevel) && entryPoint == old(entryPoint)
        invariant nodes == old(nodes) && order == old(order)
        invariant NoLinksBelow(store, newH, i + 1)
        invariant lo == (if i >= level then level + 1 else i + 1) && lo + |fs| == level + 1
        invariant FoundLists(fs, |old(store)|, M, newH)
        invariant LinkDown(distance, old(store), M, newH, vector, fs, lo) == Ok(store)
        decreases i
      {
        var next, fs', lo' :- LevelPass(currentNode, newH, vector, i, level, old(store), fs, lo);
        currentNode, fs, lo := next, fs', lo';
        i := i - 1;
      }
      r := Ok(());
    }

    /** The greedy descents of `addNode`, `this.searchLevel(vector,
        this.entryPoint, this.maxLevel)` and `this.searchLevel(vector,
        currentNode, i - 1)` (src/index.ts:109 and 126-128). While no row at
        `level` or below links to the node `newH` being added, a descent from
        another node does not reach it. */
    method Descend(vector: Vector, currentNode: Handle, level: nat, newH: Handle) returns (r: Result<Handle>)
      requires Valid() && currentNode < |store| && currentNode != newH && NoLinksBelow(store, newH, level + 1)
      ensures r.Fail? ==> r.error == TypeError
      ensures r.Ok? ==> r.value < |store| && r.value != newH
      ensures r.Ok? ==> Dist(vector, r.value) <= Dist(vector, currentNode) && LocalMin(vector, r.value, level)
    {
      r := SearchLevel(vector, currentNode, level);
      if r.Ok? {
        NotReached(store, currentNode, level, r.value, newH, level + 1);
      }
    }

    /** `new HNSWNode(...)` in `addNode` (src/index.ts:96): a node object is
        allocated; no key names it yet. */
    method Allocate(n: Node)
      requires Valid() && NodeOk(n, |store| + 1, M)
      modifies this
      ensures Valid() && store == old(store) + [n]
      ensures maxLevel == old(maxLevel) && entryPoint == old(entryPoint)
      ensures nodes == old(nodes) && order == old(order)
      ensures old(LevelsCapped()) ==> LevelsCapped()
    {
      AppendKeepsValid(State(), n);
      store := store + [n];
    }

    /** `this.nodes.set(id, node)` (src/index.ts:100 and 132): the key `id` names the
        node object `h`, replacing the object it named before. */
    method Enroll(id: int, h: Handle)
      requires Valid() && h < |store| && store[h].id == id
      modifies this
      ensures Valid() && (nodes, order) == Register(old(nodes), old(order), id, h)
      ensures maxLevel == old(maxLevel) && entryPoint == old(entryPoint) && store == old(store)
      ensures old(LevelsCapped()) && store[h].level <= maxLevel ==> LevelsCapped()
    {
      RegisterKeepsValid(State(), id, h);
      nodes, order := Register(nodes, order, id, h).0, Register(nodes, order, id, h).1;
    }

    /** `addNode` (src/index.ts:94-133). The level is drawn with `coin`
        supplying the random draws. The first node of an empty index becomes
        its entry point with no links. Otherwise the node is linked level by
        level from the top, and finally registered under `id`, replacing any
        node registered under it. A throw on the way leaves the new node
        unregistered, with the links made before it in place. */
    method AddNode(id: int, vector: Vector, coin: nat -> bool) returns (r: Result<()>, ghost fs: seq<seq<Handle>>)
      requires Valid()
      modifies this
      ensures Valid()
      ensures maxLevel == old(maxLevel)
      ensures old(LevelsCapped()) ==> LevelsCapped()
      ensures |store| == old(|store|) + 1 && SameNodes(old(store), store[..old(|store|)])
      ensures store[old(|store|)].id == id && store[old(|store|)].vector == vector
      ensures store[old(|store|)].level <= maxLevel
      ensures var level := store[old(|store|)].level;
        && (forall j :: 0 <= j < level ==> coin(j))
        && (level < maxLevel ==> !coin(level))
      ensures r.Ok? ==> (nodes, order) == Register(old(nodes), old(order), id, old(|store|))
      ensures r.Fail? ==> r.error == TypeError && nodes == old(nodes) && order == old(order)
      ensures old(entryPoint).None? ==>
        r.Ok? && entryPoint == Some(old(|store|)) && store == old(store) + [NewNode(id, vector, 0, M)]
      ensures old(entryPoint).Some? ==> entryPoint == old(entryPoint)
      ensures old(entryPoint).Some? && r.Ok? ==>
        Inserted(distance, old(store), M, NewNode(id, vector, store[old(|store|)].level, M), fs, store)
    {
      var level := RandomLevel(coin);
      var newH := |store|;
      Allocate(NewNode(id, vector, level, M));

      if entryPoint.None? {
        entryPoint := Some(newH);
        Enroll(id, newH);
        SameNodesGrown(old(store), NewNode(id, vector, level, M), store);
        return Ok(()), [];
      }

      // Never raises `maxLevel`: the draw is capped at it.
      maxLevel := Max(maxLevel, level);

      r, fs := Insert(id, level, vector, old(store));
      SameNodesGrown(old(store), NewNode(id, vector, level, M), store);
    }

    /** `addNode` once an entry point exists (src/index.ts:108-132), for the
        node of level `level` just allocated after the node objects `s0`:
        link it level by level, then register it under `id`. */
    method Insert(id: int, level: nat, vector: Vector, ghost s0: seq<Node>) returns (r: Result<()>, ghost fs: seq<seq<Handle>>)
      requires Valid() && entryPoint.Some? && entryPoint.value < |s0| && level <= maxLevel
      requires StoreOk(s0, M) && store == s0 + [NewNode(id, vector, level, M)]
      modifies this
      ensures Valid() && SameNodes(old(store), store)
      ensures maxLevel == old(maxLevel) && entryPoint == old(entryPoint)
      ensures old(LevelsCapped()) ==> LevelsCapped()
      ensures r.Ok? ==> (nodes, order) == Register(old(nodes), old(order), id, |s0|)
      ensures r.Fail? ==> r.error == TypeError && nodes == old(nodes) && order == old(order)
      ensures r.Ok? ==> Inserted(distance, s0, M, NewNode(id, vector, level, M), fs, store)
    {
      var newH := |store| - 1;
      FreshNotLinked(s0, M, NewNode(id, vector, level, M), maxLevel + 1);
      var res;
      res, fs := LinkLevels(newH, level, vector);
      if res.Ok? {
        LinkDownNewRows(distance, old(store), M, newH, vector, fs, 0, store);
      }
      SameNodesCapped(nodes, old(store), store, maxLevel);
      if res.Fail? {
        return Fail(res.error), fs;
      }
      Enroll(id, newH);
      r := Ok(());
    }

    /** The removal of a reference to `id` from node `n`'s row at `level`
        (src/index.ts:209-212): the first slot referencing it is removed and
        a vacated slot appended; a missing row throws. */
    method UnlinkFrom(n: Handle, level: nat, id: int) returns (r: Result<()>)
      requires Valid() && n < |store|
      modifies this
      ensures Valid() && OnlyUnlinked(old(store), store, id)
      ensures maxLevel == old(maxLevel) && entryPoint == old(entryPoint)
      ensures nodes == old(nodes) && order == old(order)
      ensures r.Fail? ==> r.error == TypeError && store == old(store)
      ensures level >= |old(store)[n].neighbors| ==> r.Fail?
      ensures level < |old(store)[n].neighbors| ==>
        var row := old(store)[n].neighbors[level];
        var index := FindRef(Ids(old(store)), row, id);
        && r.Ok?
        && (index == -1 ==> store == old(store))
        && (index != -1 ==> store == WithRow(old(store), n, level, VacateSlot(row, index)))
      ensures r.Ok? ==> Ok(store) == Unlink(old(store), M, n, level, id)
    {
      assert NodeOk(store[n], |store|, M);
      var row :- Row(store[n], level);
      var index := FindRef(Ids(store), row, id);
      if index != -1 {
        VacateIsUnlink(store, n, level, id);
        VacateSlotMembers(row, index);
        SetRow(n, level, VacateSlot(row, index));
      } else {
        assert store[n].neighbors[level := row] == store[n].neighbors;
        assert WithRow(store, n, level, row) == store;
      }
      r := Ok(());
    }

    /** One level of `deleteNode`'s link removal (src/index.ts:205-214): for
        each node listed in the deleted node's row at `level` (read live, as
        the array iterator does), the first reference to `id` in that node's
        row is removed. Rows of nodes the deleted node does not list at
        `level` are untouched. */
    method UnlinkLevel(d: Handle, level: nat, id: int) returns (r: Result<()>)
      requires Valid() && d < |store| && level < |store[d].neighbors|
      modifies this
      ensures Valid() && OnlyUnlinked(old(store), store, id)
      ensures UnlinkedFrom(old(store), store, d, level)
      ensures maxLevel == old(maxLevel) && entryPoint == old(entryPoint)
      ensures nodes == old(nodes) && order == old(order)
      ensures r.Fail? ==> r.error == TypeError
      ensures var u := UnlinkSlots(old(store), M, d, level, id, 0);
        (r.Ok? <==> u.Ok?) && (r.Ok? ==> store == u.value)
    {
      var j := 0;
      while j < |store[d].neighbors[level]|
        invariant Valid() && OnlyUnlinked(old(store), store, id)
        invariant UnlinkedFrom(old(store), store, d, level)
        invariant UnlinkSlots(old(store), M, d, level, id, 0) == UnlinkSlots(store, M, d, level, id, j)
        invariant maxLevel == old(maxLevel) && entryPoint == old(entryPoint)
        invariant nodes == old(nodes) && order == old(order)
      {
        UnlinkSlotsUnfold(store, M, d, level, id, j);
        var neighbor := store[d].neighbors[level][j];
        if neighbor.Link? {
          assert NodeOk(store[d], |store|, M);
          ghost var before := store;
          assert neighbor in store[d].neighbors[level];
          var _ :- UnlinkFrom(neighbor.target, level, id);
          if store != before {
            UnlinkedFromStep(old(store), before, d, level, neighbor.target, id);
          }
          OnlyUnlinkedTrans(old(store), before, store, id);
        }
        j := j + 1;
      }
      r := Ok(());
    }

    /** The link removal of `deleteNode` (src/index.ts:203-215), for each
        level of the deleted node `d` from 0 up. */
    method UnlinkAll(d: Handle, id: int) returns (r: Result<()>)
      requires Valid() && d < |store|
      modifies this
      ensures Valid() && OnlyUnlinked(old(store), store, id)
      ensures maxLevel == old(maxLevel) && entryPoint == old(entryPoint)
      ensures nodes == old(nodes) && order == old(order)
      ensures r.Fail? ==> r.error == TypeError
      ensures ChangedOnlyListed(old(store), store, d, |old(store)[d].neighbors|)
      ensures var u := UnlinkLevels(old(store), M, d, id, 0);
        (r.Ok? <==> u.Ok?) && (r.Ok? ==> store == u.value)
    {
      assert NodeOk(store[d], |store|, M);
      ghost var top := store[d].level;
      var level := 0;
      while level <= store[d].level
        invariant level <= top + 1 && |old(store)[d].neighbors| == top + 1
        invariant Valid() && |store| == |old(store)| && store[d].level == top
        invariant OnlyUnlinked(old(store), store, id)
        invariant maxLevel == old(maxLevel) && entryPoint == old(entryPoint)
        invariant nodes == old(nodes) && order == old(order)
        invariant ChangedOnlyListed(old(store), store, d, level)
        invariant UnlinkLevels(old(store), M, d, id, 0) == UnlinkLevels(store, M, d, id, level)
        decreases top - level
      {
        ghost var before := store;
        assert NodeOk(store[d], |store|, M);
        UnlinkLevelsUnfold(store, M, d, id, level);
        var res := UnlinkLevel(d, level, id);
        OnlyUnlinkedTrans(old(store), before, store, id);
        ChangedOnlyListedStep(old(store), before, store, d, level);
        if res.Fail? {
          return Fail(res.error);
        }
        level := level + 1;
      }
      r := Ok(());
    }

    /** The loop of `deleteNode`'s entry-point rescan (src/index.ts:218-225):
        from no entry point and `maxLevel` 0, walk the registered nodes in
        iteration order and take each one whose level is strictly above the
        running `maxLevel`. */
    method ScanLevels() returns (e: Option<Handle>, m: nat)
      requires MapOk(nodes, order, store)
      ensures (e, m) == RescanResult(nodes, order, store)
      ensures EntryOk(e, m, store)
    {
      ghost var levels := LevelsInOrder(nodes, order, store);
      MapOkAt(nodes, order, store);
      e, m := None, 0;
      // The position in `order` of the node taken last.
      ghost var pos: Option<nat> := None;
      var i := 0;
      while i < |order|
        invariant 0 <= i <= |order|
        invariant (pos, m) == Rescan(levels[..i])
        invariant pos.Some? ==> pos.value < i && e == Some(nodes[order[pos.value]])
        invariant pos.None? ==> e.None?
        invariant EntryOk(e, m, store)
      {
        var node := nodes[order[i]];
        RescanStep(levels, i);
        if store[node].level > m {
          e := Some(node);
          m := store[node].level;
          pos := Some(i);
        }
        i := i + 1;
      }
      assert levels[..|order|] == levels;
    }

    /** The entry-point rescan of `deleteNode` (src/index.ts:218-225). */
    method RescanEntryPoint()
      requires Valid()
      modifies this
      ensures Valid()
      ensures store == old(store) && nodes == old(nodes) && order == old(order)
      ensures (entryPoint, maxLevel) == RescanResult(nodes, order, store)
    {
      entryPoint, maxLevel := ScanLevels();
    }

    /** `this.nodes.delete(id)` (src/index.ts:228). */
    method Forget(id: int)
      requires Valid() && id in nodes
      modifies this
      ensures Valid()
      ensures nodes == old(nodes) - {id} && order == RemoveKey(old(order), id)
      ensures |nodes| == |old(nodes)| - 1
      ensures store == old(store) && entryPoint == old(entryPoint) && maxLevel == old(maxLevel)
      ensures old(LevelsCapped()) ==> LevelsCapped()
    {
      RemoveKeepsValid(State(), id);
      nodes := nodes - {id};
      order := RemoveKey(order, id);
    }

    /** The end of `deleteNode` (src/index.ts:217-228): the entry-point
        rescan, run only when the entry point carries `id`, and then the
        removal of `id` from the map. */
    method DropEntry(id: int)
      requires Valid() && id in nodes
      modifies this
      ensures Valid() && store == old(store)
      ensures nodes == old(nodes) - {id} && order == RemoveKey(old(order), id)
      ensures |nodes| == |old(nodes)| - 1
      ensures if old(entryPoint).Some? && store[old(entryPoint).value].id == id then
          (entryPoint, maxLevel) == RescanResult(old(nodes), old(order), store)
        else
          entryPoint == old(entryPoint) && maxLevel == old(maxLevel)
      ensures old(LevelsCapped()) ==> LevelsCapped() && maxLevel <= old(maxLevel)
    {
      if entryPoint.Some? && store[entryPoint.value].id == id {
        if LevelsCapped() {
          RescanCaps(nodes, order, store, maxLevel);
        }
        RescanEntryPoint();
      }
      Forget(id);
    }

    /** `deleteNode` (src/index.ts:196-229). An unknown id changes nothing.
        Otherwise the first reference to `id` is removed from the rows of the
        nodes the deleted node lists, level by level; when the entry point
        carries `id` it is chosen again by a rescan of the nodes, the deleted
        one still among them; and the id is removed from the map. Links to
        the deleted node from nodes it does not list remain. */
    method DeleteNode(id: int) returns (r: Result<()>)
      requires Valid()
      modifies this
      ensures Valid() && OnlyUnlinked(old(store), store, id)
      ensures id !in old(nodes) ==>
        && r.Ok? && store == old(store) && nodes == old(nodes) && order == old(order)
        && entryPoint == old(entryPoint) && maxLevel == old(maxLevel)
      ensures id in old(nodes) ==>
        old(nodes)[id] < |old(store)| &&
        ChangedOnlyListed(old(store), store, old(nodes)[id], |old(store)[old(nodes)[id]].neighbors|)
      ensures id in old(nodes) ==>
        old(nodes)[id] < |old(store)| &&
        var u := UnlinkLevels(old(store), M, old(nodes)[id], id, 0);
        (r.Ok? <==> u.Ok?) && (r.Ok? ==> store == u.value)
      ensures r.Fail? ==> r.error == TypeError
      ensures r.Fail? ==>
        nodes == old(nodes) && order == old(order) && entryPoint == old(entryPoint) && maxLevel == old(maxLevel)
      ensures r.Ok? && id in old(nodes) ==>
        && nodes == old(nodes) - {id} && order == RemoveKey(old(order), id)
        && |nodes| == |old(nodes)| - 1
      ensures r.Ok? && id in old(nodes) ==>
        if old(entryPoint).Some? && old(store)[old(entryPoint).value].id == id then
          (entryPoint, maxLevel) == RescanResult(old(nodes), old(order), old(store))
        else
          entryPoint == old(entryPoint) && maxLevel == old(maxLevel)
      ensures old(LevelsCapped()) ==> LevelsCapped() && maxLevel <= old(maxLevel)
    {
      if id !in nodes {
        // `console.warn` only.
        return Ok(());
      }
      var d := nodes[id];
      var res := UnlinkAll(d, id);
      assert Capped(old(nodes), old(store), old(maxLevel)) ==> Capped(nodes, store, maxLevel);
      if res.Fail? {
        return Fail(res.error);
      }

      RescanResultSameNodes(nodes, order, old(store), store);
      DropEntry(id);
      r := Ok(());
    }

    /** `serialize` (src/index.ts:231-279): a buffer of the computed size is
        filled with the header and then one record per registered node, in
        iteration order. */
    method Serialize() returns (r: Result<array<Byte>>)
      requires Valid()
      ensures r.Ok? <==> Encode(State()).Ok?
      ensures r.Fail? ==> r.error == TypeError
      ensures r.Ok? ==> fresh(r.value) && r.value[..] == Encode(State()).value
    {
      MapSize(nodes, order, store);
      var nodeCount := |nodes|;
      var headerSize := 1 + 4 * 4;
      var nodeSize := 4 + numDimensions * 4 + 4 + M * 4 * (maxLevel + 1);
      BufferSize(nodeCount, nodeSize, numDimensions, M, maxLevel);
      var bufferSize := headerSize + nodeCount * nodeSize;
      var buffer := new Byte[bufferSize](_ => 0);
      ghost var head := PutHeader(buffer);
      var offset := headerSize;
      var ns := InOrder(nodes, order, store);
      var res := PutBody(buffer, offset, store, ns, numDimensions, M, maxLevel, head);
      if res.Fail? {
        return Fail(res.error);
      }
      LeExtend([MetricTag(metric)], HeaderWords(State()), BodyWords(store, ns, numDimensions, M, maxLevel));
      assert res.value == buffer.Length;
      assert buffer[..] == buffer[..res.value];
      r := Ok(buffer);
    }

    /** The header writes of `serialize` (src/index.ts:242-255). */
    method PutHeader(buffer: array<Byte>) returns (ghost head: seq<Byte>)
      requires Valid() && HeaderSize <= buffer.Length
      modifies buffer
      ensures head == [MetricTag(metric)] + Le(HeaderWords(State()))
      ensures buffer[..HeaderSize] == head
    {
      ghost var w := HeaderWords(State());
      ghost var tag := [MetricTag(metric)];
      var offset := 0;
      buffer[offset] := if metric == Cosine then 0 else 1;
      offset := offset + 1;
      PutU32(buffer, offset, ToUint32(numDimensions), tag + Le(w[..0]));
      LePrefixStep(tag, w, 0);
      offset := offset + 4;
      PutU32(buffer, offset, ToUint32(M), tag + Le(w[..1]));
      LePrefixStep(tag, w, 1);
      offset := offset + 4;
      PutU32(buffer, offset, ToUint32(ef), tag + Le(w[..2]));
      LePrefixStep(tag, w, 2);
      offset := offset + 4;
      PutU32(buffer, offset, if entryPoint.Some? then ToUint32(store[entryPoint.value].id) else ToUint32(-1), tag + Le(w[..3]));
      LePrefixStep(tag, w, 3);
      assert w[..4] == w;
      head := tag + Le(w);
    }

    /** Taking one record in during the first pass of `deserialize`
        (src/index.ts:319 and 333-337): a new node object with empty rows
        is registered under the record's id; the record carrying the
        header's entry id becomes the entry point and sets `maxLevel`. */
    method Load(rec: Record, entryId: Word)
      requires Valid() && Width(store, M)
      modifies this
      ensures Valid() && Width(store, M)
      ensures store == old(store) + [NewNode(rec.id, rec.vector, rec.level, M)]
      ensures (nodes, order) == Register(old(nodes), old(order), rec.id, |old(store)|)
      ensures entryPoint == if rec.id == entryId then Some(|old(store)|) else old(entryPoint)
      ensures maxLevel == if rec.id == entryId then rec.level else old(maxLevel)
    {
      var node := NewNode(rec.id, rec.vector, rec.level, M);
      var hd := |store|;
      Allocate(node);
      Enroll(rec.id, hd);
      if rec.id == entryId {
        entryPoint := Some(hd);
        maxLevel := rec.level;
      }
    }

    /** The slot loop of the second pass for row `l` of the node object `h`
        (src/index.ts:346-348): a slot whose id is registered is set to the
        node object registered under it. The `id !== -1` test always holds,
        since ids were read as unsigned words. Setting a slot of a row the
        node does not have throws. */
    method LinkRow(h: Handle, l: nat, ids: seq<Word>) returns (r: Result<()>)
      requires h < |store| && (l < |store[h].neighbors| ==> |ids| == |store[h].neighbors[l]|)
      modifies this
      ensures nodes == old(nodes) && order == old(order)
      ensures entryPoint == old(entryPoint) && maxLevel == old(maxLevel)
      ensures l < |old(store[h]).neighbors| ==> r.Ok? && store == old(store)[h := old(store[h]).(neighbors :=
        old(store[h]).neighbors[l := ResolveRow(old(store[h]).neighbors[l], ids, nodes)])]
      ensures |old(store[h]).neighbors| <= l ==> (r.Fail? <==> Resolves(ids, nodes)) && store == old(store)
      ensures r.Fail? ==> r.error == TypeError
    {
      ghost var n := store[h];
      if l < |n.neighbors| {
        assert ids[..0] == [];
        ResolveRowNone(n.neighbors[l], nodes);
        assert n.neighbors[l := n.neighbors[l]] == n.neighbors;
        assert store[h := n] == store;
      }
      var j := 0;
      while j < |ids|
        invariant 0 <= j <= |ids|
        invariant nodes == old(nodes) && order == old(order)
        invariant entryPoint == old(entryPoint) && maxLevel == old(maxLevel)
        invariant l < |n.neighbors| ==>
          store == old(store)[h := n.(neighbors := n.neighbors[l := ResolveRow(n.neighbors[l], ids[..j], nodes)])]
        invariant |n.neighbors| <= l ==> store == old(store) && !Resolves(ids[..j], nodes)
      {
        var id := ids[j];
        ResolvesStep(ids, j, nodes);
        if l < |n.neighbors| {
          ResolveRowStep(n.neighbors[l], ids, j, nodes);
        }
        if id as int != -1 && id in nodes {
          if |store[h].neighbors| <= l {
            return Fail(TypeError);
          }
          var node := store[h];
          ghost var done := ResolveRow(n.neighbors[l], ids[..j], nodes);
          assert node.neighbors[l] == done;
          assert node.neighbors[l := done[j := Link(nodes[id])]] == n.neighbors[l := done[j := Link(nodes[id])]];
          store := store[h := node.(neighbors := node.neighbors[l := node.neighbors[l][j := Link(nodes[id])]])];
        }
        j := j + 1;
      }
      assert ids[..|ids|] == ids;
      r := Ok(());
    }

    /** The second pass on the node object `h` (src/index.ts:344-350): its
        rows of ids, level by level. */
    method LinkRows(h: Handle, rowIds: seq<seq<Word>>) returns (r: Result<()>)
      requires h < |store|
      requires forall l :: 0 <= l < |rowIds| && l < |store[h].neighbors| ==> |rowIds[l]| == |store[h].neighbors[l]|
      modifies this
      ensures nodes == old(nodes) && order == old(order)
      ensures entryPoint == old(entryPoint) && maxLevel == old(maxLevel)
      ensures r.Ok? <==> ResolveLevels(old(store[h]), rowIds, nodes).Ok?
      ensures r.Fail? ==> r.error == TypeError
      ensures r.Ok? ==> store == old(store)[h := ResolveLevels(old(store[h]), rowIds, nodes).value]
    {
      ghost var n := store[h];
      var l := 0;
      while l < |rowIds|
        invariant 0 <= l <= |rowIds|
        invariant nodes == old(nodes) && order == old(order)
        invariant entryPoint == old(entryPoint) && maxLevel == old(maxLevel)
        invariant |store| == |old(store)|
        invariant ResolveLevels(n, rowIds[..l], nodes) == Ok(store[h])
        invariant store == old(store)[h := store[h]]
      {
        assert rowIds[..l + 1][..l] == rowIds[..l];
        r := LinkRow(h, l, rowIds[l]);
        if r.Fail? {
          ResolveLevelsFails(n, rowIds, l + 1, nodes);
          return;
        }
        l := l + 1;
      }
      assert rowIds[..|rowIds|] == rowIds;
      r := Ok(());
    }

    /** One turn of the first pass of `deserialize` (src/index.ts:307-337):
        the record at `offset`, with one row per level up to the current
        `maxLevel`, is read and taken in. `cur` is the state so far. A
        record with the largest level word throws when its node object is
        made (src/index.ts:17, 319). */
    method TakeRecord(data: seq<Byte>, offset: nat, h: Header, rowIds: map<int, seq<seq<Word>>>, ghost cur: Loaded)
      returns (rec: Result<Record>, next: nat, ids: map<int, seq<seq<Word>>>)
      requires Valid() && Width(store, M) && IdWidth(rowIds, M) && rowIds.Keys == nodes.Keys
      requires cur == Loaded(store, nodes, order, rowIds, entryPoint, maxLevel)
      requires h.dim == numDimensions && h.M == M && offset < |data|
      modifies this
      ensures var read := ReadRecord(data, offset, h.dim, h.M, cur.maxLevel + 1);
        && (rec.Ok? <==> read.Ok? && read.value.level < MaxArrayLength)
        && (rec.Ok? ==> rec == read)
      ensures next >= offset + 8
      ensures rec.Fail? ==> rec.error == RangeError && ReadRecords(data, offset, h, cur) == Fail(RangeError)
      ensures rec.Ok? ==> Valid() && Width(store, M) && IdWidth(ids, M) && ids.Keys == nodes.Keys
      ensures rec.Ok? ==> Take(cur, rec.value, h) == Loaded(store, nodes, order, ids, entryPoint, maxLevel)
      ensures rec.Ok? ==> ReadRecords(data, offset, h, cur) == ReadRecords(data, next, h, Take(cur, rec.value, h))
    {
      rec, next := LoadRecord(data, offset, numDimensions, M, maxLevel + 1);
      ids := rowIds;
      if rec.Fail? {
        return;
      }
      if rec.value.level + 1 > MaxArrayLength {
        rec := Fail(RangeError);
        return;
      }
      ReadRecordsStep(data, offset, h, cur, rec.value, next);
      ids := rowIds[rec.value.id := rec.value.rows];
      Load(rec.value, h.entryId);
    }

    /** The first pass of `deserialize` (src/index.ts:306-338) on a new
        index: records are read until the data ends, each with
        `maxLevel + 1` rows of neighbour ids for the `maxLevel` reached so
        far. The kept ids (`tempNeighborIds`) are returned; their keys were
        first set in the order the ids were first registered, so `order`
        is also their iteration order. */
    method LoadRecords(data: seq<Byte>, h: Header) returns (r: Result<map<int, seq<seq<Word>>>>)
      requires Valid() && store == [] && nodes == map[] && order == [] && entryPoint == None && maxLevel == 0
      requires h.dim == numDimensions && h.M == M
      modifies this
      ensures var res := ReadRecords(data, HeaderSize, h, Loaded([], map[], [], map[], None, 0));
        && (r.Ok? <==> res.Ok?)
        && (r.Fail? ==> r.error == res.error)
        && (r.Ok? ==> res.value == Loaded(store, nodes, order, r.value, entryPoint, maxLevel))
      ensures r.Ok? ==> Valid() && Width(store, M) && IdWidth(r.value, M)
      ensures r.Ok? ==> r.value.Keys == nodes.Keys
    {
      var rowIds: map<int, seq<seq<Word>>> := map[];
      var offset := HeaderSize;
      ghost var start := Loaded([], map[], [], map[], None, 0);
      ghost var cur := start;
      while offset < |data|
        invariant Valid() && Width(store, M) && IdWidth(rowIds, M)
        invariant rowIds.Keys == nodes.Keys
        invariant cur == Loaded(store, nodes, order, rowIds, entryPoint, maxLevel)
        invariant ReadRecords(data, HeaderSize, h, start) == ReadRecords(data, offset, h, cur)
        decreases |data| - offset
      {
        var rec, next, ids := TakeRecord(data, offset, h, rowIds, cur);
        if rec.Fail? {
          return Fail(rec.error);
        }
        cur := Take(cur, rec.value, h);
        rowIds := ids;
        offset := next;
      }
      r := Ok(rowIds);
    }

    /** One turn of the second pass of `deserialize` (src/index.ts:342-351):
        the id at position `idx` of the iteration order. `s0` is the store
        before the pass. */
    method LinkNext(ghost s0: seq<Node>, rowIds: map<int, seq<seq<Word>>>, idx: nat) returns (r: Result<()>)
      requires MapOk(nodes, order, s0) && Width(s0, M) && IdWidth(rowIds, M) && rowIds.Keys == nodes.Keys
      requires idx < |order| && ResolveAll(s0, nodes, rowIds, order[..idx]) == Ok(store)
      modifies this
      ensures nodes == old(nodes) && order == old(order)
      ensures entryPoint == old(entryPoint) && maxLevel == old(maxLevel)
      ensures r.Fail? ==> r.error == TypeError && ResolveAll(s0, nodes, rowIds, order[..idx + 1]).Fail?
      ensures r.Ok? ==> ResolveAll(s0, nodes, rowIds, order[..idx + 1]) == Ok(store)
    {
      var nodeId := order[idx];
      assert order[..idx + 1][..idx] == order[..idx];
      var neighborIds := rowIds[nodeId];
      r := Ok(());
      if nodeId in nodes {
        var hd := nodes[nodeId];
        r := LinkRows(hd, neighborIds);
      }
    }

    /** The second pass of `deserialize` (src/index.ts:341-352): for each
        kept id in order, the node object registered under it gets links
        for the registered ids of its rows. */
    method LinkAll(rowIds: map<int, seq<seq<Word>>>) returns (r: Result<()>)
      requires Valid() && Width(store, M) && IdWidth(rowIds, M)
      requires rowIds.Keys == nodes.Keys
      modifies this
      ensures nodes == old(nodes) && order == old(order)
      ensures entryPoint == old(entryPoint) && maxLevel == old(maxLevel)
      ensures var res := ResolveAll(old(store), nodes, rowIds, order);
        && (r.Ok? <==> res.Ok?)
        && (r.Fail? ==> r.error == TypeError)
        && (r.Ok? ==> store == res.value)
    {
      ghost var s0 := store;
      var idx := 0;
      while idx < |order|
        invariant 0 <= idx <= |order|
        invariant nodes == old(nodes) && order == old(order)
        invariant entryPoint == old(entryPoint) && maxLevel == old(maxLevel)
        invariant ResolveAll(s0, nodes, rowIds, order[..idx]) == Ok(store)
      {
        r := LinkNext(s0, rowIds, idx);
        if r.Fail? {
          ResolveAllFails(s0, nodes, rowIds, order, idx + 1);
          return;
        }
        idx := idx + 1;
      }
      assert order[..|order|] == order;
      r := Ok(());
    }

    /** `HNSW.deserialize` (src/index.ts:281-355): the header, then the two
        passes. `distanceFor` gives `computeDistance` for the metric read. */
    static method Deserialize(data: seq<Byte>, distanceFor: Metric -> ((Vector, Vector) -> nat)) returns (r: Result<HNSW>)
      ensures r.Ok? <==> Decode(data).Ok?
      ensures r.Fail? ==> r.error == Decode(data).error
      ensures r.Ok? ==> fresh(r.value) && r.value.State() == Decode(data).value
      ensures r.Ok? ==> r.value.Valid()
      ensures r.Ok? ==> r.value.distance == distanceFor(r.value.metric)
    {
      var h :- LoadHeader(data);
      var hnsw := new HNSW(h.metric, h.dim, h.M, h.ef, distanceFor(h.metric));
      var rowIds := hnsw.LoadRecords(data, h);
      if rowIds.Fail? {
        return Fail(rowIds.error);
      }
      var linked := hnsw.LinkAll(rowIds.value);
      if linked.Fail? {
        return Fail(linked.error);
      }
      r := Ok(hnsw);
    }

    /** `getNodeById` (src/index.ts:357-359): the node object registered
        under `id`, if any. */
    function GetNodeById(id: int): (r: Option<Handle>)
      requires Valid()
      reads this
      ensures r.Some? <==> id in nodes
      ensures r.Some? ==> r.value < |store| && store[r.value].id == id
    {
      if id in nodes then Some(nodes[id]) else None
    }

    /** `getSize` (src/index.ts:361-363): the number of registered ids, one
        per entry of the iteration order. */
    function GetSize(): (r: nat)
      requires Valid()
      reads this
      ensures r == |order|
      ensures forall id :: id in nodes ==> GetNodeById(id).Some?
    {
      MapSize(nodes, order, store);
      |nodes|
    }

    /** `getEntryPoint` (src/index.ts:365-367): absent exactly when
        `maxLevel` is 0 without a node at the top, and otherwise a node object
        at level `maxLevel`. */
    function GetEntryPoint(): (r: Option<Handle>)
      requires Valid()
      reads this
      ensures r.None? ==> GetMaxLevel() == 0
      ensures r.Some? ==> r.value < |store| && store[r.value].level == GetMaxLevel()
    {
      entryPoint
    }

    /** `getMaxLevel` (src/index.ts:369-371): with the levels capped, no
        registered node is above it. */
    function GetMaxLevel(): (r: nat)
      reads this
      ensures LevelsCapped() ==> forall id :: id in nodes && nodes[id] < |store| ==> store[nodes[id]].level <= r
    {
      maxLevel
    }

    /** `clear` (src/index.ts:373-377): no node is registered and there is no
        entry point. The node objects stay allocated, unreachable. */
    method Clear()
      requires Valid()
      modifies this
      ensures Valid() && LevelsCapped()
      ensures nodes == map[] && order == [] && entryPoint == None && maxLevel == 0
      ensures store == old(store)
    {
      nodes, order := map[], [];
      entryPoint := None;
      maxLevel := 0;
    }
  }
}
