/** The edits `addNode` makes to neighbour rows (src/index.ts:108-130), on
    values: the back-link step for one neighbour, its fold over the
    neighbours found at one level, and the fold over the levels. */
module Links {
  import opened Outcomes
  import opened Graph

  /** A neighbour's row after the back-link step of `addNode`
      (src/index.ts:116-123) for the new node `newH` with vector `vector`;
      `nv` is the neighbour's own vector. The new node goes in before the
      first slot that is empty or holds a node further from the neighbour,
      and the row is trimmed back to `M`; no such slot keeps the row; a
      vacated slot reached first throws. */
  function BackRow(distance: (Vector, Vector) -> nat, store: seq<Node>, row: seq<Slot>, nv: Vector,
                   newH: Handle, vector: Vector, M: nat): (r: Result<seq<Slot>>)
    requires LinksIn(row, |store|)
    ensures r.Fail? ==> r.error == TypeError
    ensures r.Ok? && |row| <= M ==> |r.value| <= M
    ensures r.Ok? && newH < |store| ==> LinksIn(r.value, |store|)
  {
    var f :- FindFree(distance, store, row, nv, distance(nv, vector), 0);
    Ok(if f < 0 then row else InsertSlot(row, f, Link(newH), M))
  }

  /** Every neighbour listed in `nbs` has a row at level `i`, and its
      back-link step does not throw. */
  ghost predicate CanLinkBack(distance: (Vector, Vector) -> nat, s: seq<Node>, M: nat, nbs: seq<Handle>,
                              newH: Handle, vector: Vector, i: nat)
    requires StoreOk(s, M)
  {
    forall k :: 0 <= k < |nbs| ==>
      && nbs[k] < |s| && i < |s[nbs[k]].neighbors|
      && BackRow(distance, s, s[nbs[k]].neighbors[i], s[nbs[k]].vector, newH, vector, M).Ok?
  }

  /** `r` is `s` with the row at level `i` of every node listed in `nbs`
      replaced by its `BackRow`, and every other row kept. */
  ghost predicate LinkedBack(distance: (Vector, Vector) -> nat, s: seq<Node>, r: seq<Node>, M: nat,
                             nbs: seq<Handle>, newH: Handle, vector: Vector, i: nat)
    requires StoreOk(s, M)
  {
    && SameNodes(s, r)
    && forall h, l :: 0 <= h < |s| && 0 <= l < |s[h].neighbors| ==>
         if l == i && h in nbs then
           BackRow(distance, s, s[h].neighbors[l], s[h].vector, newH, vector, M) == Ok(r[h].neighbors[l])
         else r[h].neighbors[l] == s[h].neighbors[l]
  }

  /** The back-link step for neighbour `nb` at level `i` on the arena; a
      missing row throws. */
  function LinkBackStep(distance: (Vector, Vector) -> nat, store: seq<Node>, M: nat, nb: Handle,
                        newH: Handle, vector: Vector, i: nat): (r: Result<seq<Node>>)
    requires StoreOk(store, M) && nb < |store| && newH < |store|
    ensures r.Fail? ==> r.error == TypeError
    ensures r.Ok? ==> StoreOk(r.value, M) && SameNodes(store, r.value)
  {
    assert NodeOk(store[nb], |store|, M);
    var row :- Row(store[nb], i);
    var nv := store[nb].vector;
    var f :- FindFree(distance, store, row, nv, distance(nv, vector), 0);
    if f < 0 then Ok(store)
    else
      var back := InsertSlot(row, f, Link(newH), M);
      WithRowStoreOk(store, M, nb, i, back);
      Ok(WithRow(store, nb, i, back))
  }

  /** The step for `nb` throws exactly when `nb` has no row at `i` or a
      vacated slot is reached first; otherwise it replaces that row by its
      `BackRow` and keeps every other row. */
  lemma LinkBackStepRows(distance: (Vector, Vector) -> nat, store: seq<Node>, M: nat, nb: Handle,
                         newH: Handle, vector: Vector, i: nat)
    requires StoreOk(store, M) && nb < |store| && newH < |store|
    ensures var r := LinkBackStep(distance, store, M, nb, newH, vector, i);
      && (r.Ok? <==> CanLinkBack(distance, store, M, [nb], newH, vector, i))
      && (r.Ok? ==> LinkedBack(distance, store, r.value, M, [nb], newH, vector, i))
  {
    var r := LinkBackStep(distance, store, M, nb, newH, vector, i);
    assert [nb][0] == nb;
    assert forall h :: h in [nb] <==> h == nb;
    if i < |store[nb].neighbors| {
      assert NodeOk(store[nb], |store|, M);
      var row := store[nb].neighbors[i];
      var nv := store[nb].vector;
      var f := FindFree(distance, store, row, nv, distance(nv, vector), 0);
      if f.Ok? && f.value >= 0 {
        assert r == Ok(WithRow(store, nb, i, InsertSlot(row, f.value, Link(newH), M)));
      }
    }
  }

  /** The back-link loop at level `i` (src/index.ts:115-124): one step per
      neighbour found, in order; the first throw ends it. */
  function LinkBacks(distance: (Vector, Vector) -> nat, store: seq<Node>, M: nat, nbs: seq<Handle>,
                     newH: Handle, vector: Vector, i: nat): (r: Result<seq<Node>>)
    requires StoreOk(store, M) && newH < |store|
    requires forall k :: 0 <= k < |nbs| ==> nbs[k] < |store|
    ensures r.Fail? ==> r.error == TypeError
    ensures r.Ok? ==> StoreOk(r.value, M) && SameNodes(store, r.value)
    decreases |nbs|
  {
    if nbs == [] then Ok(store)
    else
      var next :- LinkBackStep(distance, store, M, nbs[0], newH, vector, i);
      LinkBacks(distance, next, M, nbs[1..], newH, vector, i)
  }

  /** `FindFree` reads only the vectors of the nodes a row links to. */
  lemma {:induction false} FindFreeSameNodes(distance: (Vector, Vector) -> nat, s1: seq<Node>, s2: seq<Node>,
                                             row: seq<Slot>, nv: Vector, nDist: nat, from: nat)
    requires SameNodes(s1, s2) && from <= |row| && LinksIn(row, |s1|)
    ensures FindFree(distance, s1, row, nv, nDist, from) == FindFree(distance, s2, row, nv, nDist, from)
    decreases |row| - from
  {
    if from < |row| && row[from].Link? {
      FindFreeSameNodes(distance, s1, s2, row, nv, nDist, from + 1);
    }
  }

  lemma BackRowSameNodes(distance: (Vector, Vector) -> nat, s1: seq<Node>, s2: seq<Node>, row: seq<Slot>,
                         nv: Vector, newH: Handle, vector: Vector, M: nat)
    requires SameNodes(s1, s2) && LinksIn(row, |s1|)
    ensures BackRow(distance, s1, row, nv, newH, vector, M) == BackRow(distance, s2, row, nv, newH, vector, M)
  {
    FindFreeSameNodes(distance, s1, s2, row, nv, distance(nv, vector), 0);
  }

  /** A step for `nb` followed by the steps for `rest`, which does not list
      `nb`, can link back from every node of `nb :: rest` exactly when the
      original arena can. */
  lemma CanLinkBackCons(distance: (Vector, Vector) -> nat, s: seq<Node>, next: seq<Node>, M: nat,
                        nbs: seq<Handle>, newH: Handle, vector: Vector, i: nat)
    requires StoreOk(s, M) && StoreOk(next, M) && nbs != [] && nbs[0] !in nbs[1..]
    requires LinkedBack(distance, s, next, M, [nbs[0]], newH, vector, i)
    requires CanLinkBack(distance, s, M, [nbs[0]], newH, vector, i)
    ensures CanLinkBack(distance, next, M, nbs[1..], newH, vector, i) <==> CanLinkBack(distance, s, M, nbs, newH, vector, i)
  {
    var rest := nbs[1..];
    forall k | 0 <= k < |rest| && rest[k] < |s| && i < |s[rest[k]].neighbors|
      ensures BackRow(distance, next, next[rest[k]].neighbors[i], next[rest[k]].vector, newH, vector, M)
           == BackRow(distance, s, s[rest[k]].neighbors[i], s[rest[k]].vector, newH, vector, M)
    {
      assert rest[k] in nbs[1..];
      assert rest[k] !in [nbs[0]];
      assert NodeOk(s[rest[k]], |s|, M);
      BackRowSameNodes(distance, next, s, s[rest[k]].neighbors[i], s[rest[k]].vector, newH, vector, M);
    }
    assert [nbs[0]][0] == nbs[0];
    if CanLinkBack(distance, next, M, rest, newH, vector, i) {
      forall k | 0 <= k < |nbs|
        ensures nbs[k] < |s| && i < |s[nbs[k]].neighbors|
        ensures BackRow(distance, s, s[nbs[k]].neighbors[i], s[nbs[k]].vector, newH, vector, M).Ok?
      {
        if k > 0 {
          assert nbs[k] == rest[k - 1];
        }
      }
    }
    if CanLinkBack(distance, s, M, nbs, newH, vector, i) {
      forall k | 0 <= k < |rest|
        ensures rest[k] < |next| && i < |next[rest[k]].neighbors|
        ensures BackRow(distance, next, next[rest[k]].neighbors[i], next[rest[k]].vector, newH, vector, M).Ok?
      {
        assert rest[k] == nbs[k + 1];
      }
    }
  }

  /** The rows after a step for `nb` followed by the steps for `rest`,
      which does not list `nb`, are those of `LinkedBack` for `nb :: rest`. */
  lemma LinkedBackCons(distance: (Vector, Vector) -> nat, s: seq<Node>, next: seq<Node>, r: seq<Node>, M: nat,
                       nbs: seq<Handle>, newH: Handle, vector: Vector, i: nat)
    requires StoreOk(s, M) && StoreOk(next, M) && nbs != [] && nbs[0] !in nbs[1..]
    requires LinkedBack(distance, s, next, M, [nbs[0]], newH, vector, i)
    requires LinkedBack(distance, next, r, M, nbs[1..], newH, vector, i)
    ensures LinkedBack(distance, s, r, M, nbs, newH, vector, i)
  {
    forall h, l | 0 <= h < |s| && 0 <= l < |s[h].neighbors|
      ensures if l == i && h in nbs then
                BackRow(distance, s, s[h].neighbors[l], s[h].vector, newH, vector, M) == Ok(r[h].neighbors[l])
              else r[h].neighbors[l] == s[h].neighbors[l]
    {
      assert h in nbs <==> h == nbs[0] || h in nbs[1..] by {
        assert nbs == [nbs[0]] + nbs[1..];
      }
      if l == i && h in nbs[1..] {
        assert h !in [nbs[0]];
        assert NodeOk(s[h], |s|, M);
        BackRowSameNodes(distance, next, s, s[h].neighbors[l], s[h].vector, newH, vector, M);
      }
    }
  }

  /** When the neighbours found are listed once each, the back-link loop
      throws exactly when one of them has no row at `i` or its step
      throws; otherwise each of them has its row at `i` replaced by its
      `BackRow`, computed on the arena before the loop, and every other
      row is kept. */
  lemma {:induction false} LinkBacksRows(distance: (Vector, Vector) -> nat, s: seq<Node>, M: nat, nbs: seq<Handle>,
                                         newH: Handle, vector: Vector, i: nat)
    requires StoreOk(s, M) && newH < |s| && Distinct(nbs)
    requires forall k :: 0 <= k < |nbs| ==> nbs[k] < |s|
    ensures var r := LinkBacks(distance, s, M, nbs, newH, vector, i);
      && (r.Ok? <==> CanLinkBack(distance, s, M, nbs, newH, vector, i))
      && (r.Ok? ==> LinkedBack(distance, s, r.value, M, nbs, newH, vector, i))
    decreases |nbs|
  {
    if nbs == [] {
      assert LinkedBack(distance, s, s, M, nbs, newH, vector, i);
    } else {
      var step := LinkBackStep(distance, s, M, nbs[0], newH, vector, i);
      LinkBackStepRows(distance, s, M, nbs[0], newH, vector, i);
      if step.Ok? {
        var next := step.value;
        assert nbs[0] !in nbs[1..];
        LinkBacksRows(distance, next, M, nbs[1..], newH, vector, i);
        CanLinkBackCons(distance, s, next, M, nbs, newH, vector, i);
        var r := LinkBacks(distance, next, M, nbs[1..], newH, vector, i);
        if r.Ok? {
          LinkedBackCons(distance, s, next, r.value, M, nbs, newH, vector, i);
        }
      } else {
        assert !CanLinkBack(distance, s, M, [nbs[0]], newH, vector, i);
      }
    }
  }

  /** The back-link loop changes no row of a node it was not given, and no
      row at another level. */
  lemma {:induction false} LinkBacksFrame(distance: (Vector, Vector) -> nat, s: seq<Node>, M: nat, nbs: seq<Handle>,
                                          newH: Handle, vector: Vector, i: nat)
    requires StoreOk(s, M) && newH < |s|
    requires forall k :: 0 <= k < |nbs| ==> nbs[k] < |s|
    ensures var r := LinkBacks(distance, s, M, nbs, newH, vector, i);
      r.Ok? ==> forall h, l :: 0 <= h < |s| && 0 <= l < |s[h].neighbors| && (l != i || h !in nbs) ==>
        r.value[h].neighbors[l] == s[h].neighbors[l]
    decreases |nbs|
  {
    if nbs != [] {
      var step := LinkBackStep(distance, s, M, nbs[0], newH, vector, i);
      LinkBackStepRows(distance, s, M, nbs[0], newH, vector, i);
      if step.Ok? {
        var next := step.value;
        LinkBacksFrame(distance, next, M, nbs[1..], newH, vector, i);
        forall h | h !in nbs
          ensures h !in [nbs[0]] && h !in nbs[1..]
        {
          assert nbs == [nbs[0]] + nbs[1..];
        }
      }
    }
  }

  /** `neighbors.slice(0, M)` (src/index.ts:114): the first `M` neighbours
      found, or all of them when there are fewer. */
  function Cut(found: seq<Handle>, M: nat): (r: seq<Handle>)
    ensures |r| == if |found| < M then |found| else M
    ensures r == found[..|r|]
  {
    if |found| < M then found else found[..M]
  }

  /** One level of `addNode` (src/index.ts:112-124) on the arena: the new
      node's row at `i` becomes the first `M` neighbours found there, and
      the back-link loop runs over all of them. */
  function LinkLevel(distance: (Vector, Vector) -> nat, s: seq<Node>, M: nat, newH: Handle, vector: Vector,
                     found: seq<Handle>, i: nat): (r: Result<seq<Node>>)
    requires StoreOk(s, M) && newH < |s| && i < |s[newH].neighbors|
    requires forall k :: 0 <= k < |found| ==> found[k] < |s|
    ensures r.Fail? ==> r.error == TypeError
    ensures r.Ok? ==> StoreOk(r.value, M) && SameNodes(s, r.value)
  {
    var row := AsSlots(Cut(found, M));
    WithRowStoreOk(s, M, newH, i, row);
    LinkBacks(distance, WithRow(s, newH, i, row), M, found, newH, vector, i)
  }

  /** A level's edits leave every row at another level as it was, and,
      unless the new node is among the neighbours found, leave the new
      node's row at `i` listing the first `M` of them. */
  lemma LinkLevelRows(distance: (Vector, Vector) -> nat, s: seq<Node>, M: nat, newH: Handle, vector: Vector,
                      found: seq<Handle>, i: nat)
    requires StoreOk(s, M) && newH < |s| && i < |s[newH].neighbors|
    requires forall k :: 0 <= k < |found| ==> found[k] < |s|
    ensures var r := LinkLevel(distance, s, M, newH, vector, found, i);
      && (r.Ok? && newH !in found ==> r.value[newH].neighbors[i] == AsSlots(Cut(found, M)))
      && (r.Ok? ==> forall h, l :: 0 <= h < |s| && 0 <= l < |s[h].neighbors| && l != i ==>
            r.value[h].neighbors[l] == s[h].neighbors[l])
  {
    var row := AsSlots(Cut(found, M));
    WithRowStoreOk(s, M, newH, i, row);
    LinkBacksFrame(distance, WithRow(s, newH, i, row), M, found, newH, vector, i);
  }

  /** The levels of `addNode`'s loop (src/index.ts:111-129) from the top
      down to `lo`, for the lists of neighbours found there: `fs[j]` is the
      list found at level `lo + j`. The levels above `lo` are linked first,
      then level `lo`. */
  function LinkDown(distance: (Vector, Vector) -> nat, s: seq<Node>, M: nat, newH: Handle, vector: Vector,
                    fs: seq<seq<Handle>>, lo: nat): (r: Result<seq<Node>>)
    requires StoreOk(s, M) && newH < |s| && lo + |fs| <= |s[newH].neighbors|
    requires forall j, k :: 0 <= j < |fs| && 0 <= k < |fs[j]| ==> fs[j][k] < |s|
    ensures r.Fail? ==> r.error == TypeError
    ensures r.Ok? ==> StoreOk(r.value, M) && SameNodes(s, r.value)
    decreases |fs|
  {
    if fs == [] then Ok(s)
    else
      var upper :- LinkDown(distance, s, M, newH, vector, fs[1..], lo + 1);
      LinkLevel(distance, upper, M, newH, vector, fs[0], lo)
  }

  /** One more level below those linked so far: `LinkDown` with the list
      found there put in front is that level's `LinkLevel` after them. */
  lemma LinkDownCons(distance: (Vector, Vector) -> nat, s: seq<Node>, M: nat, newH: Handle, vector: Vector,
                     f: seq<Handle>, fs: seq<seq<Handle>>, lo: nat, upper: seq<Node>)
    requires StoreOk(s, M) && newH < |s| && lo + 1 + |fs| <= |s[newH].neighbors|
    requires forall j, k :: 0 <= j < |fs| && 0 <= k < |fs[j]| ==> fs[j][k] < |s|
    requires forall k :: 0 <= k < |f| ==> f[k] < |s|
    requires LinkDown(distance, s, M, newH, vector, fs, lo + 1) == Ok(upper)
    ensures LinkDown(distance, s, M, newH, vector, [f] + fs, lo) == LinkLevel(distance, upper, M, newH, vector, f, lo)
  {
    assert ([f] + fs)[1..] == fs;
  }

  lemma LinkDownConsFail(distance: (Vector, Vector) -> nat, s: seq<Node>, M: nat, newH: Handle, vector: Vector,
                         f: seq<Handle>, fs: seq<seq<Handle>>, lo: nat)
    requires StoreOk(s, M) && newH < |s| && lo + 1 + |fs| <= |s[newH].neighbors|
    requires forall j, k :: 0 <= j < |fs| && 0 <= k < |fs[j]| ==> fs[j][k] < |s|
    requires forall k :: 0 <= k < |f| ==> f[k] < |s|
    requires LinkDown(distance, s, M, newH, vector, fs, lo + 1).Fail?
    ensures LinkDown(distance, s, M, newH, vector, [f] + fs, lo).Fail?
  {
    assert ([f] + fs)[1..] == fs;
  }

  /** The new node's rows at levels `lo .. lo + |fs| - 1` list the first
      `M` of the neighbours found at each. */
  ghost predicate NewRowsListed(r: seq<Node>, newH: Handle, fs: seq<seq<Handle>>, lo: nat, M: nat)
  {
    && newH < |r| && lo + |fs| <= |r[newH].neighbors|
    && forall j :: 0 <= j < |fs| ==> r[newH].neighbors[lo + j] == AsSlots(Cut(fs[j], M))
  }

  /** `r` has the nodes of `s`, and every row of a level outside
      `lo .. lo + n - 1` is kept. */
  ghost predicate RowsKeptOutside(s: seq<Node>, r: seq<Node>, lo: nat, n: nat)
  {
    && SameNodes(s, r)
    && forall h, l :: 0 <= h < |s| && 0 <= l < |s[h].neighbors| && !(lo <= l < lo + n) ==>
         r[h].neighbors[l] == s[h].neighbors[l]
  }

  /** When the new node is not among the neighbours found at any level
      linked, its row at each of those levels ends up listing the first `M`
      neighbours found there, and every row at any other level is kept. */
  lemma {:induction false} LinkDownNewRows(distance: (Vector, Vector) -> nat, s: seq<Node>, M: nat, newH: Handle,
                                           vector: Vector, fs: seq<seq<Handle>>, lo: nat, r: seq<Node>)
    requires StoreOk(s, M) && newH < |s| && lo + |fs| <= |s[newH].neighbors|
    requires forall j, k :: 0 <= j < |fs| && 0 <= k < |fs[j]| ==> fs[j][k] < |s|
    requires forall j :: 0 <= j < |fs| ==> newH !in fs[j]
    requires LinkDown(distance, s, M, newH, vector, fs, lo) == Ok(r)
    ensures NewRowsListed(r, newH, fs, lo, M) && RowsKeptOutside(s, r, lo, |fs|)
    decreases |fs|, 1
  {
    if fs != [] {
      var f := fs[0];
      var rest := fs[1..];
      assert fs == [f] + rest;
      match LinkDown(distance, s, M, newH, vector, rest, lo + 1)
      case Ok(upper) =>
        LinkDownCons(distance, s, M, newH, vector, f, rest, lo, upper);
        NewRowsAbove(distance, s, M, newH, vector, f, rest, lo, upper, r);
      case Fail(_) =>
        LinkDownConsFail(distance, s, M, newH, vector, f, rest, lo);
        assert false;
    }
  }

  /** `LinkDownNewRows` once the levels above `lo` have given `upper`. */
  lemma {:induction false} NewRowsAbove(distance: (Vector, Vector) -> nat, s: seq<Node>, M: nat, newH: Handle,
                                        vector: Vector, f: seq<Handle>, rest: seq<seq<Handle>>, lo: nat,
                                        upper: seq<Node>, r: seq<Node>)
    requires StoreOk(s, M) && newH < |s| && lo + 1 + |rest| <= |s[newH].neighbors|
    requires forall j, k :: 0 <= j < |rest| && 0 <= k < |rest[j]| ==> rest[j][k] < |s|
    requires forall k :: 0 <= k < |f| ==> f[k] < |s|
    requires newH !in f && forall j :: 0 <= j < |rest| ==> newH !in rest[j]
    requires LinkDown(distance, s, M, newH, vector, rest, lo + 1) == Ok(upper)
    requires LinkLevel(distance, upper, M, newH, vector, f, lo) == Ok(r)
    ensures NewRowsListed(r, newH, [f] + rest, lo, M) && RowsKeptOutside(s, r, lo, |[f] + rest|)
    decreases |rest| + 1, 0
  {
    LinkDownNewRows(distance, s, M, newH, vector, rest, lo + 1, upper);
    LinkLevelRows(distance, upper, M, newH, vector, f, lo);
    NewRowsStep(s, upper, r, M, newH, f, rest, lo);
  }

  /** `LinkDownNewRows` for level `lo`, given what it states for the
      levels above and what `LinkLevelRows` states for level `lo`. */
  lemma NewRowsStep(s: seq<Node>, upper: seq<Node>, r: seq<Node>, M: nat, newH: Handle,
                    f: seq<Handle>, rest: seq<seq<Handle>>, lo: nat)
    requires NewRowsListed(upper, newH, rest, lo + 1, M) && RowsKeptOutside(s, upper, lo + 1, |rest|)
    requires newH < |s| && SameNodes(upper, r)
    requires r[newH].neighbors[lo] == AsSlots(Cut(f, M))
    requires forall h, l :: 0 <= h < |upper| && 0 <= l < |upper[h].neighbors| && l != lo ==>
      r[h].neighbors[l] == upper[h].neighbors[l]
    ensures NewRowsListed(r, newH, [f] + rest, lo, M) && RowsKeptOutside(s, r, lo, |[f] + rest|)
  {
    forall j | 0 <= j < |[f] + rest|
      ensures r[newH].neighbors[lo + j] == AsSlots(Cut(([f] + rest)[j], M))
    {
      if j > 0 {
        assert ([f] + rest)[j] == rest[j - 1];
        assert upper[newH].neighbors[lo + 1 + (j - 1)] == AsSlots(Cut(rest[j - 1], M));
      }
    }
  }

  /** Some node object's row at `level` holds a link to `t`. Apart from its
      entry, a search at `level` only ever reaches such nodes. */
  ghost predicate LinkedAt(store: seq<Node>, t: Handle, level: nat)
  {
    exists h :: 0 <= h < |store| && level < |store[h].neighbors| && Link(t) in store[h].neighbors[level]
  }

  /** Each of `xs` is the entry of a search at `level` or is linked to there. */
  ghost predicate Reached(store: seq<Node>, entry: Handle, level: nat, xs: seq<Handle>)
  {
    forall i :: 0 <= i < |xs| ==> xs[i] == entry || LinkedAt(store, xs[i], level)
  }

  lemma ReachedSub(store: seq<Node>, entry: Handle, level: nat, xs: seq<Handle>, ys: seq<Handle>)
    requires Reached(store, entry, level, xs)
    requires forall i :: 0 <= i < |ys| ==> ys[i] in xs
    ensures Reached(store, entry, level, ys)
  {
    forall i | 0 <= i < |ys|
      ensures ys[i] == entry || LinkedAt(store, ys[i], level)
    {
      var k :| 0 <= k < |xs| && xs[k] == ys[i];
    }
  }

  /** Candidates appended from the row at `level` of node object `h` are
      reached. */
  lemma ReachedExtend(store: seq<Node>, entry: Handle, level: nat, xs: seq<Handle>, more: seq<Handle>, h: Handle)
    requires h < |store| && level < |store[h].neighbors|
    requires Reached(store, entry, level, xs)
    requires |xs| <= |more| && more[..|xs|] == xs
    requires forall i :: |xs| <= i < |more| ==> Link(more[i]) in store[h].neighbors[level]
    ensures Reached(store, entry, level, more)
  {
    forall i | 0 <= i < |more|
      ensures more[i] == entry || LinkedAt(store, more[i], level)
    {
      if i < |xs| {
        assert more[i] == xs[i];
      }
    }
  }

  /** No row at a level below `n` links to `t`. */
  ghost predicate NoLinksBelow(store: seq<Node>, t: Handle, n: nat)
  {
    forall h, l :: 0 <= h < |store| && 0 <= l < |store[h].neighbors| && l < n ==>
      Link(t) !in store[h].neighbors[l]
  }

  /** A node object just appended is linked from no row: the older rows name
      only older objects, and the new node's rows are empty. */
  lemma FreshNotLinked(s: seq<Node>, M: nat, n: Node, bound: nat)
    requires StoreOk(s, M)
    requires forall l, j :: 0 <= l < |n.neighbors| && 0 <= j < |n.neighbors[l]| ==> n.neighbors[l][j] == Empty
    ensures NoLinksBelow(s + [n], |s|, bound)
  {
    var s2 := s + [n];
    forall h, l | 0 <= h < |s2| && 0 <= l < |s2[h].neighbors| && l < bound
      ensures Link(|s|) !in s2[h].neighbors[l]
    {
      if h < |s| {
        assert s2[h] == s[h];
        assert NodeOk(s[h], |s|, M);
      } else {
        assert s2[h] == n;
      }
    }
  }

  /** Linking level `i` touches only rows at `i`, so no row below it comes to
      link to `t`. */
  lemma LinkLevelNoLinks(distance: (Vector, Vector) -> nat, s: seq<Node>, M: nat, newH: Handle, vector: Vector,
                         found: seq<Handle>, i: nat, r: seq<Node>, t: Handle)
    requires StoreOk(s, M) && newH < |s| && i < |s[newH].neighbors|
    requires forall k :: 0 <= k < |found| ==> found[k] < |s|
    requires NoLinksBelow(s, t, i + 1)
    requires LinkLevel(distance, s, M, newH, vector, found, i) == Ok(r)
    ensures NoLinksBelow(r, t, i)
  {
    LinkLevelRows(distance, s, M, newH, vector, found, i);
  }

  /** The neighbour lists found level by level: each names allocated node
      objects, at most `M` of them, distinct, never the new node, and at
      least one when `M` is at least 1. */
  ghost predicate FoundLists(fs: seq<seq<Handle>>, size: nat, M: nat, newH: Handle)
  {
    forall j :: 0 <= j < |fs| ==>
      && |fs[j]| <= M && Distinct(fs[j]) && newH !in fs[j]
      && (M >= 1 ==> fs[j] != [])
      && forall k :: 0 <= k < |fs[j]| ==> fs[j][k] < size
  }

  /** The node `n` added after the node objects `s0` has been linked at each
      of its levels: the lists `fs` found there, from level 0 up, take the
      store `s0 + [n]` to `s` by `LinkDown`; so the new node's row at each
      level lists the first `M` found there and every row at a level it does
      not have is kept. */
  ghost predicate Inserted(distance: (Vector, Vector) -> nat, s0: seq<Node>, M: nat, n: Node,
                           fs: seq<seq<Handle>>, s: seq<Node>)
  {
    && |fs| == n.level + 1 && StoreOk(s0 + [n], M)
    && FoundLists(fs, |s0| + 1, M, |s0|)
    && LinkDown(distance, s0 + [n], M, |s0|, n.vector, fs, 0) == Ok(s)
    && NewRowsListed(s, |s0|, fs, 0, M)
    && RowsKeptOutside(s0 + [n], s, 0, |fs|)
  }

  /** One more level linked below the levels already linked: the fold over
      the levels extends by that level, the new node is not among the
      neighbours found there (a search at a level no row links the new node
      from cannot reach it), and the rows below stay free of links to it. */
  lemma LinkDownBelow(distance: (Vector, Vector) -> nat, s: seq<Node>, M: nat, newH: Handle, vector: Vector,
                      fs: seq<seq<Handle>>, found: seq<Handle>, lo: nat, entry: Handle,
                      upper: seq<Node>, r: seq<Node>)
    requires StoreOk(s, M) && newH < |s| && lo + 1 + |fs| <= |s[newH].neighbors|
    requires FoundLists(fs, |s|, M, newH)
    requires |found| <= M && Distinct(found) && forall k :: 0 <= k < |found| ==> found[k] < |s|
    requires M >= 1 ==> found != []
    requires LinkDown(distance, s, M, newH, vector, fs, lo + 1) == Ok(upper)
    requires entry != newH && Reached(upper, entry, lo, found) && NoLinksBelow(upper, newH, lo + 1)
    requires LinkLevel(distance, upper, M, newH, vector, found, lo) == Ok(r)
    ensures FoundLists([found] + fs, |s|, M, newH)
    ensures LinkDown(distance, s, M, newH, vector, [found] + fs, lo) == Ok(r)
    ensures NoLinksBelow(r, newH, lo)
  {
    assert !LinkedAt(upper, newH, lo);
    assert newH !in found;
    forall j | 0 <= j < |[found] + fs|
      ensures ([found] + fs)[j] == if j == 0 then found else fs[j - 1]
    {
    }
    LinkDownCons(distance, s, M, newH, vector, found, fs, lo, upper);
    LinkLevelNoLinks(distance, upper, M, newH, vector, found, lo, r, newH);
  }

  /** A node a search at `level` reaches from an entry other than `t` is not
      `t` when no row at that level links to `t`. */
  lemma NotReached(store: seq<Node>, entry: Handle, level: nat, x: Handle, t: Handle, n: nat)
    requires x == entry || LinkedAt(store, x, level)
    requires entry != t && level < n && NoLinksBelow(store, t, n)
    ensures x != t
  {
    if x != entry {
      var h :| 0 <= h < |store| && level < |store[h].neighbors| && Link(x) in store[h].neighbors[level];
    }
  }

  lemma NoLinksFewer(store: seq<Node>, t: Handle, n: nat, m: nat)
    requires m <= n && NoLinksBelow(store, t, n)
    ensures NoLinksBelow(store, t, m)
  {
  }
}
