/** The data model of the HNSW index of src/index.ts and the pure parts of
    its algorithms: neighbour rows and the edits made to them, and the
    entry-point rescan of `deleteNode`. */
module Graph {
  import opened Outcomes

  /** A reference to an `HNSWNode` object: its position in the arena of every
      node object the index has allocated. Object identity is handle
      equality. */
  type Handle = nat

  /** A 32-bit pattern: a float32 vector component taken as its raw bits. */
  type Word = w: int | 0 <= w < 0x1_0000_0000

  type Vector = seq<Word>

  /** A neighbour slot. A fresh slot holds `null` (`Empty`); a slot vacated by
      `deleteNode` holds `undefined` (`Hole`); otherwise it references a node
      object. Only `Link` is truthy. */
  datatype Slot = Empty | Hole | Link(target: Handle)

  /** An `HNSWNode`: one row of neighbour slots per level `0..level`. */
  datatype Node = Node(id: int, vector: Vector, level: nat, neighbors: seq<seq<Slot>>)

  datatype Metric = Cosine | Euclidean

  /** The `HNSWNode` constructor (src/index.ts:13-18). */
  function NewNode(id: int, vector: Vector, level: nat, M: nat): (n: Node)
    ensures n.id == id && n.vector == vector && n.level == level
    ensures |n.neighbors| == level + 1
    ensures forall l :: 0 <= l < |n.neighbors| ==> |n.neighbors[l]| == M
    ensures forall l, j :: 0 <= l < |n.neighbors| && 0 <= j < |n.neighbors[l]| ==> n.neighbors[l][j] == Empty
  {
    Node(id, vector, level, seq(level + 1, _ => seq(M, _ => Empty)))
  }

  /** The state of an `HNSW` object, together with the arena of node objects.
      `nodes` is the id-keyed `Map`, `order` its keys in insertion order (the
      order in which `Map.values()` visits them). */
  datatype Index = Index(
    metric: Metric, numDimensions: nat, M: nat, ef: nat,
    maxLevel: nat, entryPoint: Option<Handle>,
    nodes: map<int, Handle>, order: seq<int>,
    store: seq<Node>)

  ghost predicate Distinct<T>(s: seq<T>)
  {
    forall i, j :: 0 <= i < j < |s| ==> s[i] != s[j]
  }

  /** Every link held by `n` refers to an allocated node object, `n` has one
      row per level, and no row is longer than `M`. */
  ghost predicate NodeOk(n: Node, size: nat, M: nat)
  {
    && |n.neighbors| == n.level + 1
    && (forall l :: 0 <= l < |n.neighbors| ==> |n.neighbors[l]| <= M)
    && (forall l, j :: 0 <= l < |n.neighbors| && 0 <= j < |n.neighbors[l]| && n.neighbors[l][j].Link? ==>
          n.neighbors[l][j].target < size)
  }

  ghost predicate StoreOk(store: seq<Node>, M: nat)
  {
    forall h :: 0 <= h < |store| ==> NodeOk(store[h], |store|, M)
  }

  /** The id-keyed map lists each key once in `order`, and maps each id to an
      allocated node object carrying that id. */
  ghost predicate MapOk(nodes: map<int, Handle>, order: seq<int>, store: seq<Node>)
  {
    && Distinct(order)
    && (forall i :: 0 <= i < |order| ==> order[i] in nodes && nodes[order[i]] < |store|)
    && (forall k :: k in nodes ==> k in order)
    && (forall k :: k in nodes ==> nodes[k] < |store| && store[nodes[k]].id == k)
  }

  /** The entry point, when set, is an allocated node at level `maxLevel`;
      when it is not set, `maxLevel` is 0. */
  ghost predicate EntryOk(entryPoint: Option<Handle>, maxLevel: nat, store: seq<Node>)
  {
    match entryPoint
    case None => maxLevel == 0
    case Some(e) => e < |store| && store[e].level == maxLevel
  }

  ghost predicate Valid(ix: Index)
  {
    && StoreOk(ix.store, ix.M)
    && MapOk(ix.nodes, ix.order, ix.store)
    && EntryOk(ix.entryPoint, ix.maxLevel, ix.store)
  }

  /** Keys listed once each: the map has as many entries as `order`. */
  lemma {:induction false} MapSize(nodes: map<int, Handle>, order: seq<int>, store: seq<Node>)
    requires MapOk(nodes, order, store)
    ensures |nodes| == |order|
  {
    DistinctCard(order);
    assert nodes.Keys == set k | k in order by {
      forall k ensures k in nodes.Keys <==> k in order {
      }
    }
  }

  /** A value not yet listed keeps a list distinct when appended. */
  lemma DistinctSnoc<T>(s: seq<T>, x: T)
    requires Distinct(s) && x !in s
    ensures Distinct(s + [x])
    ensures forall i :: 0 <= i < |s + [x]| ==> (s + [x])[i] == x || (s + [x])[i] in s
  {
  }

  lemma {:induction false} DistinctCard(s: seq<int>)
    requires Distinct(s)
    ensures |set k | k in s| == |s|
  {
    if s != [] {
      var t := s[..|s| - 1];
      var x := s[|s| - 1];
      DistinctCard(t);
      assert (set k | k in s) == (set k | k in t) + {x} by {
        assert s == t + [x];
      }
      assert x !in t;
    }
  }

  /** `neighbors[level]` of a node: a row that does not exist is `undefined`,
      and iterating it or reading its elements throws. */
  function Row(n: Node, level: nat): (r: Result<seq<Slot>>)
    ensures r.Ok? <==> level < |n.neighbors|
    ensures r.Ok? ==> r.value == n.neighbors[level]
    ensures r.Fail? ==> r.error == TypeError
  {
    if level < |n.neighbors| then Ok(n.neighbors[level]) else Fail(TypeError)
  }

  /** All links of a row name allocated node objects. */
  ghost predicate LinksIn(row: seq<Slot>, size: nat)
  {
    forall j :: 0 <= j < |row| && row[j].Link? ==> row[j].target < size
  }

  lemma RowLinksIn(n: Node, size: nat, M: nat, l: nat)
    requires NodeOk(n, size, M) && l < |n.neighbors|
    ensures LinksIn(n.neighbors[l], size) && |n.neighbors[l]| <= M
  {
  }

  /** The test of `addNode`'s back-link `findIndex` (src/index.ts:117) on a
      slot that holds a node: the new node, at distance `nDist` from the
      neighbour, is strictly closer than the node in the slot. */
  predicate Closer(distance: (Vector, Vector) -> nat, nv: Vector, nDist: nat, slotNode: Node)
  {
    nDist < distance(nv, slotNode.vector)
  }

  /** `row.findIndex(n => n === null || nDist < distance(nv, n.vector))`
      scanned from position `from`. The first `null` slot or the first
      further node is found; `-1` means none; reaching a vacated slot first
      reads `.vector` of `undefined` and throws. */
  function FindFree(distance: (Vector, Vector) -> nat, store: seq<Node>, row: seq<Slot>,
                    nv: Vector, nDist: nat, from: nat): (r: Result<int>)
    requires from <= |row| && LinksIn(row, |store|)
    ensures r.Ok? && r.value >= 0 ==>
      && from <= r.value < |row|
      && (row[r.value].Empty? || (row[r.value].Link? && Closer(distance, nv, nDist, store[row[r.value].target])))
    ensures r.Ok? ==> r.value >= -1
    ensures r.Ok? ==> forall j :: from <= j < (if r.value < 0 then |row| else r.value) ==>
      row[j].Link? && !Closer(distance, nv, nDist, store[row[j].target])
    ensures r.Fail? ==>
      && r.error == TypeError
      && exists j :: from <= j < |row| && row[j].Hole? &&
           forall i :: from <= i < j ==> row[i].Link? && !Closer(distance, nv, nDist, store[row[i].target])
    decreases |row| - from
  {
    if from == |row| then Ok(-1)
    else match row[from]
      case Empty => Ok(from)
      case Hole => Fail(TypeError)
      case Link(t) =>
        if Closer(distance, nv, nDist, store[t]) then Ok(from)
        else FindFree(distance, store, row, nv, nDist, from + 1)
  }

  /** `row.splice(idx, 0, x)` followed by `row.pop()` when the row then
      exceeds `M` (src/index.ts:119-122). */
  function InsertSlot(row: seq<Slot>, idx: nat, x: Slot, M: nat): (r: seq<Slot>)
    requires idx < |row|
    ensures |row| <= M ==> |r| <= M
    ensures |r| == if |row| + 1 > M then |row| else |row| + 1
    ensures r[..idx] == row[..idx] && r[idx] == x
    ensures forall j :: idx < j < |r| ==> r[j] == row[j - 1]
  {
    var spliced := row[..idx] + [x] + row[idx..];
    if |spliced| > M then spliced[..|spliced| - 1] else spliced
  }

  /** Whether a slot references a node object that carries `id`
      (`n && n.id === id`, src/index.ts:209); `ids[h]` is the id of the node
      object `h`. */
  predicate RefersTo(ids: seq<int>, s: Slot, id: int)
  {
    s.Link? && s.target < |ids| && ids[s.target] == id
  }

  /** `row.findIndex(n => n && n.id === id)`: the first slot referencing a
      node with this id, or -1. */
  function FindRef(ids: seq<int>, row: seq<Slot>, id: int): (r: int)
    ensures -1 <= r < |row|
    ensures r >= 0 ==> RefersTo(ids, row[r], id)
    ensures forall j :: 0 <= j < (if r < 0 then |row| else r) ==> !RefersTo(ids, row[j], id)
  {
    if row == [] then -1
    else if RefersTo(ids, row[0], id) then 0
    else
      var r := FindRef(ids, row[1..], id);
      if r < 0 then -1 else r + 1
  }

  /** `row.splice(idx, 1)` followed by `row.push(undefined)`
      (src/index.ts:211-212). */
  function VacateSlot(row: seq<Slot>, idx: nat): (r: seq<Slot>)
    requires idx < |row|
    ensures |r| == |row| && r[|row| - 1] == Hole
  {
    row[..idx] + row[idx + 1..] + [Hole]
  }

  /** The splice keeps the slots before `idx`, moves every later slot down
      one place, and trades the removed slot for a vacated one. */
  lemma VacateSlotShifts(row: seq<Slot>, idx: nat)
    requires idx < |row|
    ensures var r := VacateSlot(row, idx);
      && (forall j :: 0 <= j < idx ==> r[j] == row[j])
      && (forall j :: idx <= j < |row| - 1 ==> r[j] == row[j + 1])
      && multiset(r) == multiset(row) - multiset{row[idx]} + multiset{Hole}
  {
    assert row == row[..idx] + [row[idx]] + row[idx + 1..];
  }

  /** Number of slots of `row` that reference a node with this id. */
  function Refs(ids: seq<int>, row: seq<Slot>, id: int): nat
  {
    if row == [] then 0
    else (if RefersTo(ids, row[0], id) then 1 else 0) + Refs(ids, row[1..], id)
  }

  /** The targets of the links of `row` to nodes that do not carry `id`, in
      row order. */
  function Others(ids: seq<int>, row: seq<Slot>, id: int): seq<Handle>
  {
    if row == [] then []
    else (if row[0].Link? && !RefersTo(ids, row[0], id) then [row[0].target] else [])
         + Others(ids, row[1..], id)
  }

  lemma {:induction false} OthersAppend(ids: seq<int>, a: seq<Slot>, b: seq<Slot>, id: int)
    ensures Others(ids, a + b, id) == Others(ids, a, id) + Others(ids, b, id)
    ensures Refs(ids, a + b, id) == Refs(ids, a, id) + Refs(ids, b, id)
  {
    if a != [] {
      assert (a + b)[1..] == a[1..] + b;
      OthersAppend(ids, a[1..], b, id);
    } else {
      assert a + b == b;
    }
  }

  /** Removing the first reference to `id` and appending a vacated slot keeps
      the row's length, removes exactly one reference to `id`, and keeps every
      link to another node, in order. */
  lemma VacateFirstRef(ids: seq<int>, row: seq<Slot>, id: int)
    requires FindRef(ids, row, id) >= 0
    ensures var r := VacateSlot(row, FindRef(ids, row, id));
      && |r| == |row|
      && Refs(ids, r, id) == Refs(ids, row, id) - 1
      && Others(ids, r, id) == Others(ids, row, id)
      && r[|r| - 1] == Hole
  {
    var idx := FindRef(ids, row, id);
    var r := VacateSlot(row, idx);
    assert row == row[..idx] + [row[idx]] + row[idx + 1..];
    OthersAppend(ids, row[..idx] + [row[idx]], row[idx + 1..], id);
    OthersAppend(ids, row[..idx], [row[idx]], id);
    OthersAppend(ids, row[..idx] + row[idx + 1..], [Hole], id);
    OthersAppend(ids, row[..idx], row[idx + 1..], id);
    assert Others(ids, [row[idx]], id) == [] by {
      assert [row[idx]][1..] == [];
    }
    assert Refs(ids, [row[idx]], id) == 1 by {
      assert [row[idx]][1..] == [];
    }
    assert Others(ids, [Hole], id) == [] && Refs(ids, [Hole], id) == 0 by {
      assert [Hole][1..] == [];
    }
  }

  /** The levels of the nodes of the map, in iteration order. */
  function LevelsInOrder(nodes: map<int, Handle>, order: seq<int>, store: seq<Node>): (r: seq<nat>)
    ensures |r| == |order|
    ensures forall i :: 0 <= i < |order| && order[i] in nodes && nodes[order[i]] < |store| ==>
      r[i] == store[nodes[order[i]]].level
  {
    if order == [] then []
    else
      var k := order[|order| - 1];
      LevelsInOrder(nodes, order[..|order| - 1], store)
        + [if k in nodes && nodes[k] < |store| then store[nodes[k]].level else 0]
  }

  /** The entry-point rescan of `deleteNode` (src/index.ts:218-225) over the
      levels of the nodes in iteration order: starting from no entry point
      and `maxLevel` 0, a node becomes the entry point when its level is
      strictly greater than the running `maxLevel`. The result is the
      position of the chosen node and the new `maxLevel`. */
  function Rescan(levels: seq<nat>): (r: (Option<nat>, nat))
    ensures r.0.Some? ==> r.0.value < |levels|
  {
    if levels == [] then (None, 0)
    else
      var (e, m) := Rescan(levels[..|levels| - 1]);
      if levels[|levels| - 1] > m then (Some(|levels| - 1), levels[|levels| - 1]) else (e, m)
  }

  /** One step of the rescan: the level at position `i` is taken when it is
      strictly above the `maxLevel` found before it. */
  lemma RescanStep(levels: seq<nat>, i: nat)
    requires i < |levels|
    ensures Rescan(levels[..i + 1]) ==
      var (e, m) := Rescan(levels[..i]);
      if levels[i] > m then (Some(i), levels[i]) else (e, m)
  {
    assert levels[..i + 1][..i] == levels[..i];
  }

  /** The rescan finds the highest level, but only when it is above 0: the
      entry point becomes the first node at that level, and is left unset
      when every level is 0. */
  lemma {:induction false} RescanChoosesFirstHighest(levels: seq<nat>)
    ensures var (e, m) := Rescan(levels);
      && (forall i :: 0 <= i < |levels| ==> levels[i] <= m)
      && (e.None? <==> m == 0)
      && (e.Some? ==> e.value < |levels| && levels[e.value] == m &&
                      forall i :: 0 <= i < e.value ==> levels[i] < m)
  {
    if levels != [] {
      var t := levels[..|levels| - 1];
      RescanChoosesFirstHighest(t);
      assert forall i :: 0 <= i < |t| ==> t[i] == levels[i];
    }
  }

  /** With every level 0, the rescan leaves no entry point, however many
      nodes remain. */
  lemma RescanAllZero(levels: seq<nat>)
    requires forall i :: 0 <= i < |levels| ==> levels[i] == 0
    ensures Rescan(levels) == (None, 0)
  {
    RescanChoosesFirstHighest(levels);
  }

  /** With no other level above 0, a node at a level above 0 is chosen,
      whatever its position. */
  lemma RescanPicksStrictMax(levels: seq<nat>, p: nat)
    requires p < |levels| && levels[p] > 0
    requires forall i :: 0 <= i < |levels| && i != p ==> levels[i] < levels[p]
    ensures Rescan(levels) == (Some(p), levels[p])
  {
    RescanChoosesFirstHighest(levels);
  }

  /** The id of every node object, by handle. */
  function Ids(store: seq<Node>): (ids: seq<int>)
    ensures |ids| == |store|
    ensures forall h :: 0 <= h < |store| ==> ids[h] == store[h].id
  {
    seq(|store|, h requires 0 <= h < |store| => store[h].id)
  }

  /** `s2` holds the same node objects as `s1`, with the same ids, vectors
      and levels and as many rows: only the rows' contents may differ. */
  ghost predicate SameNodes(s1: seq<Node>, s2: seq<Node>)
  {
    && |s1| == |s2|
    && forall h :: 0 <= h < |s1| ==>
         && s2[h].id == s1[h].id && s2[h].vector == s1[h].vector && s2[h].level == s1[h].level
         && |s2[h].neighbors| == |s1[h].neighbors|
  }

  /** As `SameNodes`, and every row keeps its length. */
  ghost predicate SameShape(s1: seq<Node>, s2: seq<Node>)
  {
    && SameNodes(s1, s2)
    && forall h, l :: 0 <= h < |s1| && 0 <= l < |s1[h].neighbors| ==>
         |s2[h].neighbors[l]| == |s1[h].neighbors[l]|
  }

  lemma SameNodesIds(s1: seq<Node>, s2: seq<Node>)
    requires SameNodes(s1, s2)
    ensures Ids(s1) == Ids(s2)
  {
  }

  /** Allocating a well-formed node object keeps the index well formed. */
  lemma AppendKeepsValid(ix: Index, n: Node)
    requires Valid(ix) && NodeOk(n, |ix.store| + 1, ix.M)
    ensures Valid(ix.(store := ix.store + [n]))
  {
    var s := ix.store + [n];
    forall g | 0 <= g < |s|
      ensures NodeOk(s[g], |s|, ix.M)
    {
      if g < |ix.store| {
        assert NodeOk(ix.store[g], |ix.store|, ix.M);
      }
    }
  }

  /** The slots of an array of node objects. */
  function AsSlots(hs: seq<Handle>): (r: seq<Slot>)
    ensures |r| == |hs|
    ensures forall j :: 0 <= j < |hs| ==> r[j] == Link(hs[j])
  {
    seq(|hs|, j requires 0 <= j < |hs| => Link(hs[j]))
  }

  /** The arena after `store[h].neighbors[l] = row`. */
  function WithRow(store: seq<Node>, h: Handle, l: nat, row: seq<Slot>): (r: seq<Node>)
    requires h < |store| && l < |store[h].neighbors|
    ensures |r| == |store|
    ensures forall g :: 0 <= g < |store| ==>
      && r[g].id == store[g].id && r[g].vector == store[g].vector && r[g].level == store[g].level
      && |r[g].neighbors| == |store[g].neighbors|
    ensures r[h].neighbors[l] == row
    ensures forall g, m :: 0 <= g < |store| && 0 <= m < |store[g].neighbors| && (g != h || m != l) ==>
      r[g].neighbors[m] == store[g].neighbors[m]
  {
    store[h := store[h].(neighbors := store[h].neighbors[l := row])]
  }

  /** Replacing a row by one of at most `M` slots whose links name allocated
      node objects keeps the index well formed. */
  lemma WithRowKeepsValid(ix: Index, h: Handle, l: nat, row: seq<Slot>)
    requires Valid(ix) && h < |ix.store| && l < |ix.store[h].neighbors|
    requires |row| <= ix.M && LinksIn(row, |ix.store|)
    ensures Valid(ix.(store := WithRow(ix.store, h, l, row)))
  {
    var s := WithRow(ix.store, h, l, row);
    forall g | 0 <= g < |s|
      ensures NodeOk(s[g], |s|, ix.M)
    {
      assert NodeOk(ix.store[g], |s|, ix.M);
    }
  }

  /** How many leading slots of a row hold nodes: the part of the row that
      `searchLevel` scans before it stops at the first empty or vacated
      slot. */
  function LinkRun(row: seq<Slot>): (n: nat)
    ensures n <= |row|
    ensures forall i :: 0 <= i < n ==> row[i].Link?
    ensures n < |row| ==> !row[n].Link?
  {
    if row == [] || !row[0].Link? then 0 else 1 + LinkRun(row[1..])
  }

  /** `Array.prototype.indexOf` on handles: the first position holding `x`,
      or -1. */
  function IndexOf(s: seq<Handle>, x: Handle): (i: int)
    ensures -1 <= i < |s|
    ensures i < 0 <==> x !in s
    ensures i >= 0 ==> s[i] == x && x !in s[..i]
  {
    if s == [] then -1
    else if s[0] == x then 0
    else
      var i := IndexOf(s[1..], x);
      assert s[1..][..(if i < 0 then 0 else i)] == s[1..(if i < 0 then 1 else i + 1)];
      if i < 0 then -1 else i + 1
  }

  /** The key order of a `Map` after `delete(k)`: the other keys, in their
      order. */
  function RemoveKey(order: seq<int>, k: int): (r: seq<int>)
    ensures forall x :: x in r <==> x in order && x != k
  {
    if order == [] then []
    else (if order[0] == k then [] else [order[0]]) + RemoveKey(order[1..], k)
  }

  lemma {:induction false} RemoveKeyDistinct(order: seq<int>, k: int)
    requires Distinct(order)
    ensures Distinct(RemoveKey(order, k))
    ensures |RemoveKey(order, k)| == if k in order then |order| - 1 else |order|
  {
    if order != [] {
      assert Distinct(order[1..]);
      RemoveKeyDistinct(order[1..], k);
      assert order[0] !in order[1..];
      assert order == [order[0]] + order[1..];
    }
  }

  /** Every slot of a row after `VacateSlot` was in the row before, or is
      the vacated slot. */
  lemma VacateSlotMembers(row: seq<Slot>, idx: nat)
    requires idx < |row|
    ensures forall j :: 0 <= j < |row| ==> VacateSlot(row, idx)[j] in row || VacateSlot(row, idx)[j] == Hole
  {
    var r := VacateSlot(row, idx);
    forall j | 0 <= j < |row|
      ensures r[j] in row || r[j] == Hole
    {
      if j < idx {
        assert r[j] == row[j];
      } else if j < |row| - 1 {
        assert r[j] == row[j + 1];
      }
    }
  }

  /** The handles of an arena of `n` node objects. */
  function HandlesBelow(n: nat): (s: set<Handle>)
    ensures forall h: Handle :: h in s <==> h < n
  {
    if n == 0 then {} else HandlesBelow(n - 1) + {n - 1}
  }

  /** `nodes.set(id, node)` for an allocated node carrying `id`: the key is
      appended to the iteration order only when it is new. */
  function Register(nodes: map<int, Handle>, order: seq<int>, id: int, h: Handle): (r: (map<int, Handle>, seq<int>))
    ensures r.0 == nodes[id := h]
    ensures |order| <= |r.1| <= |order| + 1 && r.1[..|order|] == order
  {
    (nodes[id := h], if id in nodes then order else order + [id])
  }

  /** When the iteration order lists exactly the keys, without repeats,
      it still does after a registration: a new id goes last, a known id
      keeps its place (src/index.ts:132). */
  lemma RegisterOrder(nodes: map<int, Handle>, order: seq<int>, id: int, h: Handle)
    requires Distinct(order) && forall k :: k in order <==> k in nodes
    ensures var (n, o) := Register(nodes, order, id, h);
      Distinct(o) && (forall k :: k in o <==> k in n)
      && (id in nodes ==> o == order) && (id !in nodes ==> o == order + [id])
  {
  }

  lemma RegisterKeepsValid(ix: Index, id: int, h: Handle)
    requires Valid(ix) && h < |ix.store| && ix.store[h].id == id
    ensures var (n, o) := Register(ix.nodes, ix.order, id, h);
      Valid(ix.(nodes := n, order := o))
  {
    var (n, o) := Register(ix.nodes, ix.order, id, h);
    if id !in ix.nodes {
      assert Distinct(o);
    }
  }

  /** `if (level > maxLevel) maxLevel = level`. */
  function Max(a: nat, b: nat): (m: nat)
    ensures m >= a && m >= b && (m == a || m == b)
  {
    if b > a then b else a
  }

  /** `s2` is `s1` with references to `id` removed from rows and vacated
      slots in their place: every row keeps its length and its links to
      other nodes, in order, and holds no more references to `id`. */
  ghost predicate OnlyUnlinked(s1: seq<Node>, s2: seq<Node>, id: int)
  {
    && SameShape(s1, s2)
    && forall h, l :: 0 <= h < |s1| && 0 <= l < |s1[h].neighbors| ==>
         && Others(Ids(s1), s2[h].neighbors[l], id) == Others(Ids(s1), s1[h].neighbors[l], id)
         && Refs(Ids(s1), s2[h].neighbors[l], id) <= Refs(Ids(s1), s1[h].neighbors[l], id)
  }

  lemma OnlyUnlinkedTrans(s1: seq<Node>, s2: seq<Node>, s3: seq<Node>, id: int)
    requires OnlyUnlinked(s1, s2, id) && OnlyUnlinked(s2, s3, id)
    ensures OnlyUnlinked(s1, s3, id)
  {
    SameNodesIds(s1, s2);
  }

  /** Vacating the first reference to `id` in one row is such a removal. */
  lemma VacateIsUnlink(store: seq<Node>, h: Handle, l: nat, id: int)
    requires h < |store| && l < |store[h].neighbors|
    requires FindRef(Ids(store), store[h].neighbors[l], id) >= 0
    ensures var row := store[h].neighbors[l];
      OnlyUnlinked(store, WithRow(store, h, l, VacateSlot(row, FindRef(Ids(store), row, id))), id)
  {
    VacateFirstRef(Ids(store), store[h].neighbors[l], id);
  }

  /** Between `s1` and `s2` only rows at `level` changed, only of nodes that
      `s1[d]` lists at `level`, and `d`'s own row there holds nothing but
      slots it held in `s1` and vacated slots. */
  ghost predicate UnlinkedFrom(s1: seq<Node>, s2: seq<Node>, d: Handle, level: nat)
    requires d < |s1| && level < |s1[d].neighbors|
  {
    && SameNodes(s1, s2)
    && (forall h, l :: 0 <= h < |s1| && 0 <= l < |s1[h].neighbors| && (l != level || Link(h) !in s1[d].neighbors[level]) ==>
          s2[h].neighbors[l] == s1[h].neighbors[l])
    && (forall x :: x in s2[d].neighbors[level] ==> x in s1[d].neighbors[level] || x == Hole)
  }

  lemma UnlinkedFromStep(s0: seq<Node>, s1: seq<Node>, d: Handle, level: nat, n: Handle, id: int)
    requires d < |s0| && level < |s0[d].neighbors| && UnlinkedFrom(s0, s1, d, level)
    requires Link(n) in s1[d].neighbors[level] && n < |s1| && level < |s1[n].neighbors|
    requires FindRef(Ids(s1), s1[n].neighbors[level], id) >= 0
    ensures var row := s1[n].neighbors[level];
      UnlinkedFrom(s0, WithRow(s1, n, level, VacateSlot(row, FindRef(Ids(s1), row, id))), d, level)
  {
    var row := s1[n].neighbors[level];
    VacateSlotMembers(row, FindRef(Ids(s1), row, id));
  }

  lemma LevelsInOrderSameNodes(nodes: map<int, Handle>, order: seq<int>, s1: seq<Node>, s2: seq<Node>)
    requires forall i :: 0 <= i < |order| ==> order[i] in nodes
    requires SameNodes(s1, s2)
    ensures LevelsInOrder(nodes, order, s1) == LevelsInOrder(nodes, order, s2)
  {
  }

  /** Each key listed in the order is registered, at an allocated node
      carrying it. */
  lemma MapOkAt(nodes: map<int, Handle>, order: seq<int>, store: seq<Node>)
    requires MapOk(nodes, order, store)
    ensures forall i :: 0 <= i < |order| ==>
      order[i] in nodes && nodes[order[i]] < |store| && store[nodes[order[i]]].id == order[i]
  {
  }

  /** Between `s0` and `s` only rows below level `upto` changed, and only of
      nodes that `s0[d]` lists at that level. */
  ghost predicate ChangedOnlyListed(s0: seq<Node>, s: seq<Node>, d: Handle, upto: nat)
    requires d < |s0|
  {
    && SameNodes(s0, s)
    && forall h, l {:trigger s[h].neighbors[l]} ::
         0 <= h < |s0| && 0 <= l < |s0[h].neighbors| && s[h].neighbors[l] != s0[h].neighbors[l] ==>
         l < upto && l < |s0[d].neighbors| && Link(h) in s0[d].neighbors[l]
  }

  lemma ChangedOnlyListedStep(s0: seq<Node>, s1: seq<Node>, s2: seq<Node>, d: Handle, level: nat)
    requires d < |s0| && level < |s0[d].neighbors|
    requires ChangedOnlyListed(s0, s1, d, level) && UnlinkedFrom(s1, s2, d, level)
    ensures ChangedOnlyListed(s0, s2, d, level + 1)
  {
    assert s1[d].neighbors[level] == s0[d].neighbors[level];
    forall h, l | 0 <= h < |s0| && 0 <= l < |s0[h].neighbors| && s2[h].neighbors[l] != s0[h].neighbors[l]
      ensures l < level + 1 && l < |s0[d].neighbors| && Link(h) in s0[d].neighbors[l]
    {
      assert h < |s1| && l < |s1[h].neighbors|;
      if s1[h].neighbors[l] == s0[h].neighbors[l] {
        assert s2[h].neighbors[l] != s1[h].neighbors[l];
        assert l == level && Link(h) in s1[d].neighbors[level];
      } else {
        assert l < level && Link(h) in s0[d].neighbors[l];
      }
    }
  }

  /** A row that lists no node object twice. */
  ghost predicate LinksOnce(row: seq<Slot>)
  {
    forall a, b :: 0 <= a < b < |row| && row[a].Link? ==> row[a] != row[b]
  }

  /** A row holds a reference to `id` exactly when `FindRef` finds one. */
  lemma {:induction false} FindRefRefs(ids: seq<int>, row: seq<Slot>, id: int)
    ensures FindRef(ids, row, id) >= 0 <==> Refs(ids, row, id) > 0
  {
    if row != [] {
      FindRefRefs(ids, row[1..], id);
    }
  }

  /** A row after `deleteNode`'s removal step (src/index.ts:209-212): the
      first slot referencing `id` is taken out and a vacated slot appended.
      Exactly one reference goes, when there is one; the links to other
      nodes stay, in order; no slot is new but the vacated one. */
  function UnlinkRow(ids: seq<int>, row: seq<Slot>, id: int): (r: seq<Slot>)
    ensures |r| == |row|
    ensures Refs(ids, r, id) == if Refs(ids, row, id) == 0 then 0 else Refs(ids, row, id) - 1
    ensures Others(ids, r, id) == Others(ids, row, id)
    ensures Refs(ids, row, id) == 0 ==> r == row
    ensures forall j :: 0 <= j < |r| ==> r[j] == Hole || r[j] in row
  {
    FindRefRefs(ids, row, id);
    var index := FindRef(ids, row, id);
    if index == -1 then row
    else
      VacateFirstRef(ids, row, id);
      VacateSlotMembers(row, index);
      VacateSlot(row, index)
  }

  /** Replacing a row by one of at most `M` slots whose links name allocated
      node objects keeps every node object well formed. */
  lemma WithRowStoreOk(store: seq<Node>, M: nat, h: Handle, l: nat, row: seq<Slot>)
    requires StoreOk(store, M) && h < |store| && l < |store[h].neighbors|
    requires |row| <= M && LinksIn(row, |store|)
    ensures StoreOk(WithRow(store, h, l, row), M)
  {
    var s := WithRow(store, h, l, row);
    forall g | 0 <= g < |s|
      ensures NodeOk(s[g], |s|, M)
    {
      assert NodeOk(store[g], |s|, M);
    }
  }

  /** The removal step of `deleteNode` on node `n`'s row at `level`
      (src/index.ts:209-212): the row loses its first reference to `id`,
      and every other row is kept. A missing row throws. */
  function Unlink(store: seq<Node>, M: nat, n: Handle, level: nat, id: int): (r: Result<seq<Node>>)
    requires StoreOk(store, M) && n < |store|
    ensures r.Ok? <==> level < |store[n].neighbors|
    ensures r.Fail? ==> r.error == TypeError
    ensures r.Ok? ==> StoreOk(r.value, M) && OnlyUnlinked(store, r.value, id)
  {
    if level < |store[n].neighbors| then
      var row := store[n].neighbors[level];
      var row' := UnlinkRow(Ids(store), row, id);
      assert NodeOk(store[n], |store|, M);
      WithRowStoreOk(store, M, n, level, row');
      Ok(WithRow(store, n, level, row'))
    else
      Fail(TypeError)
  }

  /** The removal loop of `deleteNode` at `level` (src/index.ts:205-214),
      from slot `j` of node `d`'s row on. The row is read afresh at each
      step, as the array iterator does, and each slot holding a node has
      that node's row at `level` lose its first reference to `id`. */
  function UnlinkSlots(store: seq<Node>, M: nat, d: Handle, level: nat, id: int, j: nat): (r: Result<seq<Node>>)
    requires StoreOk(store, M) && d < |store| && level < |store[d].neighbors|
    ensures r.Fail? ==> r.error == TypeError
    ensures r.Ok? ==> StoreOk(r.value, M) && SameShape(store, r.value)
    decreases |store[d].neighbors[level]| - j
  {
    if j >= |store[d].neighbors[level]| then Ok(store)
    else
      var slot := store[d].neighbors[level][j];
      if slot.Link? then
        assert NodeOk(store[d], |store|, M);
        var next :- Unlink(store, M, slot.target, level, id);
        UnlinkSlots(next, M, d, level, id, j + 1)
      else
        UnlinkSlots(store, M, d, level, id, j + 1)
  }

  /** The link removal of `deleteNode` (src/index.ts:203-215): the loop of
      `UnlinkSlots` for each level of node `d`, from `level` up to its own
      level; the first throw ends it. */
  function UnlinkLevels(store: seq<Node>, M: nat, d: Handle, id: int, level: nat): (r: Result<seq<Node>>)
    requires StoreOk(store, M) && d < |store|
    ensures r.Fail? ==> r.error == TypeError
    ensures r.Ok? ==> StoreOk(r.value, M) && SameShape(store, r.value)
    decreases store[d].level + 1 - level
  {
    if level > store[d].level then Ok(store)
    else
      assert NodeOk(store[d], |store|, M);
      var next :- UnlinkSlots(store, M, d, level, id, 0);
      UnlinkLevels(next, M, d, id, level + 1)
  }

  /** Every node listed in `row` has a row at `level`. */
  ghost predicate ListedHaveLevel(store: seq<Node>, row: seq<Slot>, level: nat)
  {
    forall k :: 0 <= k < |row| && row[k].Link? ==> row[k].target < |store| && level < |store[row[k].target].neighbors|
  }

  /** `r` is `s` with the row at `level` of every node listed in `row` put
      through `UnlinkRow`, and every other row kept. */
  ghost predicate UnlinkedListed(s: seq<Node>, r: seq<Node>, row: seq<Slot>, level: nat, id: int)
  {
    && SameShape(s, r)
    && forall h, l :: 0 <= h < |s| && 0 <= l < |s[h].neighbors| ==>
         r[h].neighbors[l] == if l == level && Link(h) in row then UnlinkRow(Ids(s), s[h].neighbors[l], id)
                              else s[h].neighbors[l]
  }

  /** One removal step on node `t`, listed at slot `j` of `row`, followed
      by removals from the nodes listed after it, which do not include `t`,
      is a removal from the nodes listed from slot `j` on. */
  lemma UnlinkedListedStep(s: seq<Node>, M: nat, next: seq<Node>, r: seq<Node>, row: seq<Slot>, j: nat, level: nat, id: int)
    requires StoreOk(s, M) && j < |row| && row[j].Link? && row[j].target < |s|
    requires level < |s[row[j].target].neighbors|
    requires next == Unlink(s, M, row[j].target, level, id).value
    requires UnlinkedListed(next, r, row[j + 1..], level, id) && row[j] !in row[j + 1..]
    ensures UnlinkedListed(s, r, row[j..], level, id)
  {
    var t := row[j].target;
    assert next == WithRow(s, t, level, UnlinkRow(Ids(s), s[t].neighbors[level], id));
    assert Ids(next) == Ids(s);
    LinksCons(row, j);
  }

  lemma ListedHaveLevelSame(s1: seq<Node>, s2: seq<Node>, row: seq<Slot>, level: nat)
    requires SameNodes(s1, s2)
    ensures ListedHaveLevel(s1, row, level) <==> ListedHaveLevel(s2, row, level)
  {
  }

  /** Which nodes a row lists and whether they have a row at `level`, read
      slot by slot from the front. */
  lemma ListedCons(store: seq<Node>, row: seq<Slot>, j: nat, level: nat)
    requires j < |row|
    ensures ListedHaveLevel(store, row[j..], level) <==>
      (row[j].Link? ==> row[j].target < |store| && level < |store[row[j].target].neighbors|)
      && ListedHaveLevel(store, row[j + 1..], level)
  {
    assert row[j..] == [row[j]] + row[j + 1..];
  }

  lemma LinksCons(row: seq<Slot>, j: nat)
    requires j < |row|
    ensures forall h :: Link(h) in row[j..] <==> row[j] == Link(h) || Link(h) in row[j + 1..]
  {
    assert row[j..] == [row[j]] + row[j + 1..];
  }

  /** A row that lists each node once does not list the node of slot `j`
      again after it. */
  lemma LinksOnceAfter(row: seq<Slot>, j: nat)
    requires LinksOnce(row) && j < |row| && row[j].Link?
    ensures row[j] !in row[j + 1..]
  {
  }

  /** `UnlinkedListed` depends only on which nodes the row lists. */
  lemma UnlinkedListedSameLinks(s: seq<Node>, r: seq<Node>, row1: seq<Slot>, row2: seq<Slot>, level: nat, id: int)
    requires UnlinkedListed(s, r, row1, level, id)
    requires forall h :: Link(h) in row1 <==> Link(h) in row2
    ensures UnlinkedListed(s, r, row2, level, id)
  {
  }

  /** A removal step on a node listed in node `d`'s row at `level`, which
      lists none carrying `id`, leaves that row and the ids as they were. */
  lemma UnlinkKeepsRow(store: seq<Node>, M: nat, t: Handle, d: Handle, level: nat, id: int)
    requires StoreOk(store, M) && t < |store| && d < |store|
    requires level < |store[t].neighbors| && level < |store[d].neighbors|
    requires Refs(Ids(store), store[d].neighbors[level], id) == 0
    ensures var next := Unlink(store, M, t, level, id).value;
      && next[d].neighbors[level] == store[d].neighbors[level]
      && Ids(next) == Ids(store)
  {
    SameNodesIds(store, Unlink(store, M, t, level, id).value);
  }

  /** One step of the removal loop at slot `j`. */
  lemma UnlinkSlotsUnfold(store: seq<Node>, M: nat, d: Handle, level: nat, id: int, j: nat)
    requires StoreOk(store, M) && d < |store| && level < |store[d].neighbors|
    requires j < |store[d].neighbors[level]|
    ensures var slot := store[d].neighbors[level][j];
      && (slot.Link? ==> slot.target < |store|)
      && (!slot.Link? ==> UnlinkSlots(store, M, d, level, id, j) == UnlinkSlots(store, M, d, level, id, j + 1))
      && (slot.Link? && level >= |store[slot.target].neighbors| ==> UnlinkSlots(store, M, d, level, id, j) == Fail(TypeError))
      && (slot.Link? && level < |store[slot.target].neighbors| ==>
            UnlinkSlots(store, M, d, level, id, j) == UnlinkSlots(Unlink(store, M, slot.target, level, id).value, M, d, level, id, j + 1))
  {
    assert NodeOk(store[d], |store|, M);
  }

  /** The removal loop from slot `j` on: it fails exactly when a node
      listed from there has no row at `level`, and otherwise unlinks the
      nodes listed from there. */
  ghost predicate UnlinksFrom(store: seq<Node>, M: nat, d: Handle, level: nat, id: int, j: nat)
    requires StoreOk(store, M) && d < |store| && level < |store[d].neighbors|
    requires j <= |store[d].neighbors[level]|
  {
    var r := UnlinkSlots(store, M, d, level, id, j);
    && (r.Ok? <==> ListedHaveLevel(store, store[d].neighbors[level][j..], level))
    && (r.Ok? ==> UnlinkedListed(store, r.value, store[d].neighbors[level][j..], level, id))
  }

  /** The link case of `UnlinkSlotsRows`. */
  lemma {:induction false} UnlinkSlotsRowsLink(store: seq<Node>, M: nat, d: Handle, level: nat, id: int, j: nat)
    requires StoreOk(store, M) && d < |store| && level < |store[d].neighbors|
    requires LinksOnce(store[d].neighbors[level]) && Refs(Ids(store), store[d].neighbors[level], id) == 0
    requires j < |store[d].neighbors[level]| && store[d].neighbors[level][j].Link?
    ensures UnlinksFrom(store, M, d, level, id, j)
    decreases |store[d].neighbors[level]| - j, 0
  {
    var row := store[d].neighbors[level];
    var rest := row[j + 1..];
    var t := row[j].target;
    UnlinkSlotsUnfold(store, M, d, level, id, j);
    ListedCons(store, row, j, level);
    if level < |store[t].neighbors| {
      var next := Unlink(store, M, t, level, id).value;
      UnlinkKeepsRow(store, M, t, d, level, id);
      UnlinkSlotsRows(next, M, d, level, id, j + 1);
      LinksOnceAfter(row, j);
      ListedHaveLevelSame(store, next, rest, level);
      var r := UnlinkSlots(next, M, d, level, id, j + 1);
      if r.Ok? {
        UnlinkedListedStep(store, M, next, r.value, row, j, level, id);
      }
    }
  }

  /** The case of `UnlinkSlotsRows` where slot `j` holds no node. */
  lemma {:induction false} UnlinkSlotsRowsSkip(store: seq<Node>, M: nat, d: Handle, level: nat, id: int, j: nat)
    requires StoreOk(store, M) && d < |store| && level < |store[d].neighbors|
    requires LinksOnce(store[d].neighbors[level]) && Refs(Ids(store), store[d].neighbors[level], id) == 0
    requires j < |store[d].neighbors[level]| && !store[d].neighbors[level][j].Link?
    ensures UnlinksFrom(store, M, d, level, id, j)
    decreases |store[d].neighbors[level]| - j, 0
  {
    var row := store[d].neighbors[level];
    UnlinkSlotsUnfold(store, M, d, level, id, j);
    ListedCons(store, row, j, level);
    UnlinkSlotsRows(store, M, d, level, id, j + 1);
    var r := UnlinkSlots(store, M, d, level, id, j);
    if r.Ok? {
      LinksCons(row, j);
      UnlinkedListedSameLinks(store, r.value, row[j + 1..], row[j..], level, id);
    }
  }

  /** When node `d`'s row at `level` lists each node once and none carrying
      `id`, the removal loop from slot `j` on fails exactly when a node
      listed from there has no row at `level`; otherwise the row at `level`
      of each node listed from there loses its first reference to `id`, and
      every other row is kept. */
  lemma {:induction false} UnlinkSlotsRows(store: seq<Node>, M: nat, d: Handle, level: nat, id: int, j: nat)
    requires StoreOk(store, M) && d < |store| && level < |store[d].neighbors|
    requires LinksOnce(store[d].neighbors[level]) && Refs(Ids(store), store[d].neighbors[level], id) == 0
    requires j <= |store[d].neighbors[level]|
    ensures var r := UnlinkSlots(store, M, d, level, id, j);
      && (r.Ok? <==> ListedHaveLevel(store, store[d].neighbors[level][j..], level))
      && (r.Ok? ==> UnlinkedListed(store, r.value, store[d].neighbors[level][j..], level, id))
    decreases |store[d].neighbors[level]| - j, 1
  {
    if j < |store[d].neighbors[level]| {
      if store[d].neighbors[level][j].Link? {
        UnlinkSlotsRowsLink(store, M, d, level, id, j);
      } else {
        UnlinkSlotsRowsSkip(store, M, d, level, id, j);
      }
    }
  }

  /** Every node listed by node `d` at a level from `from` up has a row at
      that level. */
  ghost predicate LevelsListedHave(store: seq<Node>, d: Handle, from: nat)
    requires d < |store|
  {
    forall l :: from <= l < |store[d].neighbors| ==> ListedHaveLevel(store, store[d].neighbors[l], l)
  }

  /** `r` is `s` with, at every level from `from` up, the row of every node
      that node `d` lists there put through `UnlinkRow`, and every other row
      kept. */
  ghost predicate UnlinkedAtLevels(s: seq<Node>, r: seq<Node>, d: Handle, id: int, from: nat)
    requires d < |s|
  {
    && SameShape(s, r)
    && forall h, l :: 0 <= h < |s| && 0 <= l < |s[h].neighbors| ==>
         r[h].neighbors[l] ==
           if from <= l < |s[d].neighbors| && Link(h) in s[d].neighbors[l] then UnlinkRow(Ids(s), s[h].neighbors[l], id)
           else s[h].neighbors[l]
  }

  /** The removals at `level` followed by those above it are the removals
      from `level` up, when node `d`'s own rows are left as they were. */
  lemma UnlinkedAtLevelsStep(s: seq<Node>, next: seq<Node>, r: seq<Node>, d: Handle, id: int, level: nat)
    requires d < |s| && level < |s[d].neighbors|
    requires UnlinkedListed(s, next, s[d].neighbors[level], level, id)
    requires forall l :: 0 <= l < |s[d].neighbors| ==> next[d].neighbors[l] == s[d].neighbors[l]
    requires UnlinkedAtLevels(next, r, d, id, level + 1)
    ensures UnlinkedAtLevels(s, r, d, id, level)
  {
    assert Ids(next) == Ids(s);
  }

  /** Removals from the nodes node `d` lists at `level`, where `d` lists
      none carrying `id`, leave the ids and `d`'s own rows as they were. */
  lemma OwnRowsKept(s: seq<Node>, next: seq<Node>, d: Handle, level: nat, id: int)
    requires d < |s| && level < |s[d].neighbors|
    requires UnlinkedListed(s, next, s[d].neighbors[level], level, id)
    requires Refs(Ids(s), s[d].neighbors[level], id) == 0
    ensures Ids(next) == Ids(s)
    ensures forall l :: 0 <= l < |s[d].neighbors| ==> next[d].neighbors[l] == s[d].neighbors[l]
  {
    SameNodesIds(s, next);
  }

  lemma LevelsListedHaveSame(s1: seq<Node>, s2: seq<Node>, d: Handle, from: nat)
    requires SameNodes(s1, s2) && d < |s1|
    requires forall l :: 0 <= l < |s1[d].neighbors| ==> s2[d].neighbors[l] == s1[d].neighbors[l]
    ensures LevelsListedHave(s1, d, from) <==> LevelsListedHave(s2, d, from)
  {
  }

  /** Removals at no level leave every row as it was. */
  lemma UnlinkedAtNoLevels(s: seq<Node>, d: Handle, id: int, from: nat)
    requires d < |s| && |s[d].neighbors| <= from
    ensures UnlinkedAtLevels(s, s, d, id, from) && LevelsListedHave(s, d, from)
  {
  }

  /** One level of the removal: the removal from `level` up is the removal
      at `level` followed by the removal from `level + 1` up. */
  lemma UnlinkLevelsUnfold(store: seq<Node>, M: nat, d: Handle, id: int, level: nat)
    requires StoreOk(store, M) && d < |store| && level <= store[d].level
    ensures var step := UnlinkSlots(store, M, d, level, id, 0);
      UnlinkLevels(store, M, d, id, level) == if step.Ok? then UnlinkLevels(step.value, M, d, id, level + 1) else Fail(TypeError)
  {
    assert NodeOk(store[d], |store|, M);
  }

  lemma LevelsListedHaveCons(store: seq<Node>, d: Handle, level: nat)
    requires d < |store| && level < |store[d].neighbors|
    ensures LevelsListedHave(store, d, level) <==>
      ListedHaveLevel(store, store[d].neighbors[level], level) && LevelsListedHave(store, d, level + 1)
  {
  }

  /** When each row of node `d` from `level` up lists each node once and
      none carrying `id`, the link removal fails exactly when a node listed
      in one of them has no row at that level; otherwise, at each of those
      levels, the row of each node listed there loses its first reference
      to `id`, and every other row is kept. */
  lemma {:induction false} UnlinkLevelsRows(store: seq<Node>, M: nat, d: Handle, id: int, level: nat)
    requires StoreOk(store, M) && d < |store|
    requires forall l :: level <= l < |store[d].neighbors| ==>
      LinksOnce(store[d].neighbors[l]) && Refs(Ids(store), store[d].neighbors[l], id) == 0
    ensures var r := UnlinkLevels(store, M, d, id, level);
      && (r.Ok? <==> LevelsListedHave(store, d, level))
      && (r.Ok? ==> UnlinkedAtLevels(store, r.value, d, id, level))
    decreases store[d].level + 1 - level, 2
  {
    if level <= store[d].level {
      UnlinkLevelsRowsStep(store, M, d, id, level);
    } else {
      assert NodeOk(store[d], |store|, M);
      assert UnlinkLevels(store, M, d, id, level) == Ok(store);
      UnlinkedAtNoLevels(store, d, id, level);
    }
  }

  /** `UnlinkLevelsRows` at a level node `d` has. */
  lemma {:induction false} UnlinkLevelsRowsStep(store: seq<Node>, M: nat, d: Handle, id: int, level: nat)
    requires StoreOk(store, M) && d < |store| && level <= store[d].level
    requires forall l :: level <= l < |store[d].neighbors| ==>
      LinksOnce(store[d].neighbors[l]) && Refs(Ids(store), store[d].neighbors[l], id) == 0
    ensures var r := UnlinkLevels(store, M, d, id, level);
      && (r.Ok? <==> LevelsListedHave(store, d, level))
      && (r.Ok? ==> UnlinkedAtLevels(store, r.value, d, id, level))
    decreases store[d].level + 1 - level, 1
  {
    assert NodeOk(store[d], |store|, M);
    var row := store[d].neighbors[level];
    UnlinkSlotsRows(store, M, d, level, id, 0);
    assert row[0..] == row;
    UnlinkLevelsUnfold(store, M, d, id, level);
    LevelsListedHaveCons(store, d, level);
    var step := UnlinkSlots(store, M, d, level, id, 0);
    if step.Ok? {
      UnlinkLevelsRowsNext(store, M, d, id, level, step.value);
    } else {
      assert !ListedHaveLevel(store, row, level);
      assert UnlinkLevels(store, M, d, id, level) == Fail(TypeError);
    }
  }

  /** `UnlinkLevelsRowsStep` once the removal at `level` has given `next`. */
  lemma {:induction false} UnlinkLevelsRowsNext(store: seq<Node>, M: nat, d: Handle, id: int, level: nat, next: seq<Node>)
    requires StoreOk(store, M) && d < |store| && level < |store[d].neighbors|
    requires forall l :: level <= l < |store[d].neighbors| ==>
      LinksOnce(store[d].neighbors[l]) && Refs(Ids(store), store[d].neighbors[l], id) == 0
    requires UnlinkSlots(store, M, d, level, id, 0) == Ok(next)
    requires UnlinkLevels(store, M, d, id, level) == UnlinkLevels(next, M, d, id, level + 1)
    requires LevelsListedHave(store, d, level) <==>
      ListedHaveLevel(store, store[d].neighbors[level], level) && LevelsListedHave(store, d, level + 1)
    requires ListedHaveLevel(store, store[d].neighbors[level], level)
    requires UnlinkedListed(store, next, store[d].neighbors[level], level, id)
    ensures var r := UnlinkLevels(store, M, d, id, level);
      && (r.Ok? <==> LevelsListedHave(store, d, level))
      && (r.Ok? ==> UnlinkedAtLevels(store, r.value, d, id, level))
    decreases store[d].level + 1 - level, 0
  {
    OwnRowsKept(store, next, d, level, id);
    assert StoreOk(next, M) && next[d].level == store[d].level;
    UnlinkLevelsRows(next, M, d, id, level + 1);
    LevelsListedHaveSame(store, next, d, level + 1);
    var r := UnlinkLevels(next, M, d, id, level + 1);
    if r.Ok? {
      UnlinkedAtLevelsStep(store, next, r.value, d, id, level);
    }
  }

  /** At level 0 the removal loop never throws, since every node object
      has a row 0; so removing the links of a node at level 0 never throws,
      whatever its rows hold. */
  lemma {:induction false} UnlinkSlotsLevelZero(store: seq<Node>, M: nat, d: Handle, id: int, j: nat)
    requires StoreOk(store, M) && d < |store| && 0 < |store[d].neighbors|
    ensures UnlinkSlots(store, M, d, 0, id, j).Ok?
    decreases |store[d].neighbors[0]| - j
  {
    if j < |store[d].neighbors[0]| {
      var slot := store[d].neighbors[0][j];
      assert NodeOk(store[d], |store|, M);
      if slot.Link? {
        assert NodeOk(store[slot.target], |store|, M);
        var next := Unlink(store, M, slot.target, 0, id).value;
        UnlinkSlotsLevelZero(next, M, d, id, j + 1);
      } else {
        UnlinkSlotsLevelZero(store, M, d, id, j + 1);
      }
    }
  }

  lemma UnlinkLevelsLevelZero(store: seq<Node>, M: nat, d: Handle, id: int)
    requires StoreOk(store, M) && d < |store| && store[d].level == 0
    ensures UnlinkLevels(store, M, d, id, 0).Ok?
  {
    assert NodeOk(store[d], |store|, M);
    UnlinkSlotsLevelZero(store, M, d, id, 0);
  }

  /** Every registered node is at a level no higher than `maxLevel`. */
  ghost predicate Capped(nodes: map<int, Handle>, store: seq<Node>, maxLevel: nat)
  {
    forall k :: k in nodes && nodes[k] < |store| ==> store[nodes[k]].level <= maxLevel
  }

  lemma SameNodesGrown(s0: seq<Node>, n: Node, s: seq<Node>)
    requires SameNodes(s0 + [n], s)
    ensures SameNodes(s0, s[..|s0|])
    ensures s[|s0|].id == n.id && s[|s0|].vector == n.vector && s[|s0|].level == n.level
  {
    assert (s0 + [n])[|s0|] == n;
  }

  lemma SameNodesCapped(nodes: map<int, Handle>, s1: seq<Node>, s2: seq<Node>, maxLevel: nat)
    requires SameNodes(s1, s2)
    ensures Capped(nodes, s1, maxLevel) ==> Capped(nodes, s2, maxLevel)
  {
  }

  /** The rescan's `maxLevel` bounds every registered node's level, and does
      not exceed a bound they all respected before. */
  lemma RescanCaps(nodes: map<int, Handle>, order: seq<int>, store: seq<Node>, bound: nat)
    requires MapOk(nodes, order, store) && Capped(nodes, store, bound)
    ensures var (e, m) := Rescan(LevelsInOrder(nodes, order, store));
      m <= bound && Capped(nodes, store, m)
  {
    var levels := LevelsInOrder(nodes, order, store);
    RescanChoosesFirstHighest(levels);
    MapOkAt(nodes, order, store);
    forall k | k in nodes && nodes[k] < |store|
      ensures store[nodes[k]].level <= Rescan(levels).1
    {
      var i :| 0 <= i < |order| && order[i] == k;
      assert levels[i] == store[nodes[k]].level;
    }
  }

  /** `nodes.delete(id)` keeps the map well formed and shrinks it by one. */
  lemma RemoveKeepsValid(ix: Index, id: int)
    requires Valid(ix) && id in ix.nodes
    ensures Valid(ix.(nodes := ix.nodes - {id}, order := RemoveKey(ix.order, id)))
    ensures |ix.nodes - {id}| == |ix.nodes| - 1
  {
    var o := RemoveKey(ix.order, id);
    RemoveKeyDistinct(ix.order, id);
    forall i | 0 <= i < |o|
      ensures o[i] in ix.nodes - {id}
    {
      assert o[i] in o;
    }
    MapSize(ix.nodes, ix.order, ix.store);
    MapSize(ix.nodes - {id}, o, ix.store);
  }

  /** The entry point and `maxLevel` chosen by the rescan of `deleteNode`
      over the registered nodes in iteration order. */
  function RescanResult(nodes: map<int, Handle>, order: seq<int>, store: seq<Node>): (r: (Option<Handle>, nat))
    ensures r.0.Some? ==> r.0.value in nodes.Values
  {
    var (e, m) := Rescan(LevelsInOrder(nodes, order, store));
    (if e.Some? && order[e.value] in nodes then Some(nodes[order[e.value]]) else None, m)
  }

  /** The rescan picks the first registered node, in iteration order, at the
      highest level when that level is above 0, and no node otherwise. */
  lemma RescanResultMeaning(nodes: map<int, Handle>, order: seq<int>, store: seq<Node>)
    requires MapOk(nodes, order, store)
    ensures var (e, m) := RescanResult(nodes, order, store);
      && (forall k :: k in nodes ==> store[nodes[k]].level <= m)
      && (e.None? <==> m == 0)
      && (e.Some? ==> exists i :: 0 <= i < |order| && e.value == nodes[order[i]] && store[e.value].level == m &&
                        forall j :: 0 <= j < i ==> store[nodes[order[j]]].level < m)
  {
    var levels := LevelsInOrder(nodes, order, store);
    RescanChoosesFirstHighest(levels);
    MapOkAt(nodes, order, store);
    var (e, m) := Rescan(levels);
    forall k | k in nodes
      ensures store[nodes[k]].level <= m
    {
      var i :| 0 <= i < |order| && order[i] == k;
      assert levels[i] == store[nodes[k]].level;
    }
    if e.Some? {
      var i := e.value;
      assert forall j :: 0 <= j < i ==> store[nodes[order[j]]].level == levels[j];
    }
  }

  lemma RescanResultSameNodes(nodes: map<int, Handle>, order: seq<int>, s1: seq<Node>, s2: seq<Node>)
    requires forall i :: 0 <= i < |order| ==> order[i] in nodes
    requires SameNodes(s1, s2)
    ensures RescanResult(nodes, order, s1) == RescanResult(nodes, order, s2)
  {
    LevelsInOrderSameNodes(nodes, order, s1, s2);
  }
}
