/** The binary layout of `serialize` and `deserialize` (src/index.ts:231-355):
    a one-byte metric tag, four little-endian 32-bit header words
    (`numDimensions`, `M`, `ef`, the entry point's id), then one record per
    registered node: its id, its vector as float32 words, its level, and
    `M` neighbour ids for each of a number of levels. */
module Codec {
  import opened Outcomes
  import opened Graph
  import opened Bytes

  /** The bit pattern `setFloat32` writes for NaN, which is what reading a
      vector component past the vector's end gives. */
  const NaN32: Word := 0x7FC0_0000
  /** -1 written as an unsigned word. */
  const NoId: Word := 0xFFFF_FFFF
  /** `1 + 4 * 4` bytes of header. */
  const HeaderSize: nat := 17

  function MetricTag(metric: Metric): Byte
  {
    if metric == Cosine then 0 else 1
  }

  /** The node objects of the registered ids, in iteration order
      (`this.nodes.values()`). */
  function InOrder(nodes: map<int, Handle>, order: seq<int>, store: seq<Node>): (r: seq<Node>)
    requires MapOk(nodes, order, store)
    ensures |r| == |order| && forall i :: 0 <= i < |order| ==> r[i] == store[nodes[order[i]]]
  {
    seq(|order|, i requires 0 <= i < |order| => store[nodes[order[i]]])
  }

  // ---------------------------------------------------------------------
  // Encoding (src/index.ts:231-278)
  // ---------------------------------------------------------------------

  /** What `serialize` writes for slot `j` of a row (src/index.ts:271-272):
      the id of a linked node object, and -1 for an empty or vacated slot or
      one past the row's end. */
  function SlotWord(store: seq<Node>, row: seq<Slot>, j: nat): Word
  {
    if j < |row| && row[j].Link? && row[j].target < |store| then ToUint32(store[row[j].target].id) else NoId
  }

  function RowWords(store: seq<Node>, row: seq<Slot>, M: nat): (r: seq<Word>)
    ensures |r| == M
  {
    seq(M, j requires 0 <= j < M => SlotWord(store, row, j))
  }

  /** The vector as written (src/index.ts:261-264): `numDimensions`
      components, NaN where the vector is shorter. */
  function VectorWords(v: Vector, dim: nat): (r: seq<Word>)
    ensures |r| == dim
  {
    seq(dim, i requires 0 <= i < dim => if i < |v| then v[i] else NaN32)
  }

  /** `count * size`, as repeated addition. */
  function Repeat(count: nat, size: nat): nat
  {
    if count == 0 then 0 else Repeat(count - 1, size) + size
  }

  lemma {:induction false} RepeatIsProduct(count: nat, size: nat)
    ensures Repeat(count, size) == count * size
  {
    if count > 0 {
      RepeatIsProduct(count - 1, size);
    }
  }

  lemma {:induction false} RepeatStep(i: nat, count: nat, size: nat)
    requires i < count
    ensures Repeat(i + 1, size) == Repeat(i, size) + size && Repeat(i + 1, size) <= Repeat(count, size)
    decreases count
  {
    if i + 1 < count {
      RepeatStep(i, count - 1, size);
    }
  }

  /** Writing rows `0 .. count - 1` of `n` does not throw: with `M` 0 no
      slot is read, otherwise reading a slot of a row the node does not
      have throws a `TypeError` (src/index.ts:271). */
  predicate HasRows(n: Node, M: nat, count: nat)
  {
    M == 0 || count <= |n.neighbors|
  }

  /** The `M` slot words of row `i` of node `n`; only used where the row
      exists or `M` is 0. */
  function RowOf(store: seq<Node>, n: Node, i: nat, M: nat): (r: seq<Word>)
    ensures |r| == M
  {
    RowWords(store, if i < |n.neighbors| then n.neighbors[i] else [], M)
  }

  /** Rows `0 .. count - 1` of node `n` (src/index.ts:269-275). */
  function RowsWords(store: seq<Node>, n: Node, M: nat, count: nat): (r: seq<Word>)
    ensures |r| == Repeat(count, M)
  {
    if count == 0 then [] else RowsWords(store, n, M, count - 1) + RowOf(store, n, count - 1, M)
  }

  /** The number of words in one record. */
  function RecordLength(dim: nat, M: nat, maxLevel: nat): nat
  {
    2 + dim + Repeat(maxLevel + 1, M)
  }

  /** The id, vector and level words of a record. */
  function HeadWords(n: Node, dim: nat): (r: seq<Word>)
    ensures |r| == 2 + dim
  {
    [ToUint32(n.id)] + VectorWords(n.vector, dim) + [ToUint32(n.level)]
  }

  /** One node's record (src/index.ts:257-275). */
  function RecordWords(store: seq<Node>, n: Node, dim: nat, M: nat, maxLevel: nat): (r: seq<Word>)
    ensures |r| == RecordLength(dim, M, maxLevel)
  {
    HeadWords(n, dim) + RowsWords(store, n, M, maxLevel + 1)
  }

  /** The records of the nodes `ns`, in order. */
  function BodyWords(store: seq<Node>, ns: seq<Node>, dim: nat, M: nat, maxLevel: nat): (r: seq<Word>)
    ensures |r| == Repeat(|ns|, RecordLength(dim, M, maxLevel))
  {
    if ns == [] then []
    else BodyWords(store, ns[..|ns| - 1], dim, M, maxLevel) + RecordWords(store, ns[|ns| - 1], dim, M, maxLevel)
  }

  /** No record of `ns` throws: every node has rows `0 .. maxLevel`, or
      rows have no slots. */
  predicate Writable(ns: seq<Node>, M: nat, maxLevel: nat)
  {
    ns == [] || (Writable(ns[..|ns| - 1], M, maxLevel) && HasRows(ns[|ns| - 1], M, maxLevel + 1))
  }

  lemma {:induction false} WritableAll(ns: seq<Node>, M: nat, maxLevel: nat)
    ensures Writable(ns, M, maxLevel) <==> forall i :: 0 <= i < |ns| ==> HasRows(ns[i], M, maxLevel + 1)
  {
    if ns != [] {
      var init := ns[..|ns| - 1];
      WritableAll(init, M, maxLevel);
      assert forall i :: 0 <= i < |init| ==> init[i] == ns[i];
    }
  }

  /** Every prefix of a writable run of nodes is writable. */
  lemma {:induction false} WritablePrefix(ns: seq<Node>, i: nat, M: nat, maxLevel: nat)
    requires i <= |ns| && Writable(ns, M, maxLevel)
    ensures Writable(ns[..i], M, maxLevel)
    decreases |ns|
  {
    if i < |ns| {
      var init := ns[..|ns| - 1];
      assert init[..i] == ns[..i];
      WritablePrefix(init, i, M, maxLevel);
    } else {
      assert ns[..i] == ns;
    }
  }

  /** The header's entry word (src/index.ts:254): the entry point's id, or
      -1 without one. */
  function EntryWord(ix: Index): Word
  {
    if ix.entryPoint.Some? && ix.entryPoint.value < |ix.store| then ToUint32(ix.store[ix.entryPoint.value].id) else NoId
  }

  function HeaderWords(ix: Index): seq<Word>
  {
    [ToUint32(ix.numDimensions), ToUint32(ix.M), ToUint32(ix.ef), EntryWord(ix)]
  }

  /** The bytes `serialize` returns, or the exception it throws. */
  function Encode(ix: Index): (r: Result<seq<Byte>>)
    requires MapOk(ix.nodes, ix.order, ix.store)
    ensures r.Fail? ==> r.error == TypeError
    ensures r.Ok? <==> forall i :: 0 <= i < |ix.order| ==> HasRows(ix.store[ix.nodes[ix.order[i]]], ix.M, ix.maxLevel + 1)
    ensures r.Ok? ==> |r.value| >= HeaderSize && r.value[0] == MetricTag(ix.metric)
  {
    var ns := InOrder(ix.nodes, ix.order, ix.store);
    WritableAll(ns, ix.M, ix.maxLevel);
    if Writable(ns, ix.M, ix.maxLevel) then
      Ok([MetricTag(ix.metric)] + Le(HeaderWords(ix) + BodyWords(ix.store, ns, ix.numDimensions, ix.M, ix.maxLevel)))
    else
      Fail(TypeError)
  }

  /** `serialize` fills the buffer it allocates exactly
      (src/index.ts:232-235): one header and `nodes.size` records. */
  lemma EncodeLength(ix: Index)
    requires MapOk(ix.nodes, ix.order, ix.store)
    ensures var r := Encode(ix);
      r.Ok? ==> |r.value| == HeaderSize + |ix.order| * (4 + ix.numDimensions * 4 + 4 + ix.M * 4 * (ix.maxLevel + 1))
  {
    var n := RecordLength(ix.numDimensions, ix.M, ix.maxLevel);
    RepeatIsProduct(|ix.order|, n);
    ScaleRecord(|ix.order|, ix.numDimensions, ix.M, ix.maxLevel);
  }

  lemma ScaleRecord(count: nat, dim: nat, M: nat, maxLevel: nat)
    ensures 1 + 4 * (4 + count * RecordLength(dim, M, maxLevel))
      == HeaderSize + count * (4 + dim * 4 + 4 + M * 4 * (maxLevel + 1))
  {
    var n := RecordLength(dim, M, maxLevel);
    RecordBytes(dim, M, maxLevel);
    assert 4 * (count * n) == count * (4 * n);
  }

  /** `serialize` throws exactly when `M` is positive and some registered
      node sits below `maxLevel`, so has fewer rows than are written. */
  lemma EncodeFails(ix: Index)
    requires Valid(ix)
    ensures var r := Encode(ix);
      && (r.Fail? <==> ix.M > 0 && exists k :: k in ix.nodes && ix.store[ix.nodes[k]].level < ix.maxLevel)
      && (r.Fail? ==> r.error == TypeError)
  {
    var ns := InOrder(ix.nodes, ix.order, ix.store);
    WritableAll(ns, ix.M, ix.maxLevel);
    if ix.M > 0 && exists k :: k in ix.nodes && ix.store[ix.nodes[k]].level < ix.maxLevel {
      var k :| k in ix.nodes && ix.store[ix.nodes[k]].level < ix.maxLevel;
      var i :| 0 <= i < |ix.order| && ix.order[i] == k;
      assert !HasRows(ns[i], ix.M, ix.maxLevel + 1);
    }
    if !Writable(ns, ix.M, ix.maxLevel) {
      var i :| 0 <= i < |ns| && !HasRows(ns[i], ix.M, ix.maxLevel + 1);
      assert ix.order[i] in ix.nodes && ix.store[ix.nodes[ix.order[i]]].level < ix.maxLevel;
    }
  }

  // ---------------------------------------------------------------------
  // The writes of `serialize` into its buffer
  // ---------------------------------------------------------------------

  /** The vector loop of `serialize` (src/index.ts:261-264). */
  method PutVector(buf: array<Byte>, off: nat, v: Vector, dim: nat, ghost pre: seq<Byte>) returns (next: nat)
    requires off + 4 * dim <= buf.Length && buf[..off] == pre
    modifies buf
    ensures next == off + 4 * dim
    ensures buf[..next] == pre + Le(VectorWords(v, dim))
  {
    ghost var words := VectorWords(v, dim);
    next := off;
    var i := 0;
    while i < dim
      invariant 0 <= i <= dim && next == off + 4 * i
      invariant buf[..next] == pre + Le(words[..i])
    {
      var w := if i < |v| then v[i] else NaN32;
      PutU32(buf, next, w, pre + Le(words[..i]));
      LePrefixStep(pre, words, i);
      next := next + 4;
      i := i + 1;
    }
    assert words[..dim] == words;
  }

  /** The slot loop of `serialize` for row `i` (src/index.ts:270-274): each
      slot's node id, or -1. A node without row `i` throws at the first
      slot; with `M` 0 nothing is read. */
  method PutRow(buf: array<Byte>, off: nat, store: seq<Node>, n: Node, i: nat, M: nat, ghost pre: seq<Byte>)
    returns (r: Result<nat>)
    requires off + 4 * M <= buf.Length && buf[..off] == pre
    modifies buf
    ensures r.Ok? <==> HasRows(n, M, i + 1)
    ensures r.Fail? ==> r.error == TypeError
    ensures r.Ok? ==> r.value == off + 4 * M
    ensures r.Ok? ==> buf[..r.value] == pre + Le(RowOf(store, n, i, M))
  {
    if M == 0 {
      return Ok(off);
    }
    var row :- Row(n, i);
    ghost var words := RowWords(store, row, M);
    var next := off;
    var j := 0;
    while j < M
      invariant 0 <= j <= M && next == off + 4 * j
      invariant buf[..next] == pre + Le(words[..j])
    {
      PutU32(buf, next, SlotWord(store, row, j), pre + Le(words[..j]));
      LePrefixStep(pre, words, j);
      next := next + 4;
      j := j + 1;
    }
    assert words[..M] == words;
    r := Ok(next);
  }

  /** The source's record size in bytes. */
  lemma RecordBytes(dim: nat, M: nat, maxLevel: nat)
    ensures 4 * RecordLength(dim, M, maxLevel) == 4 + dim * 4 + 4 + M * 4 * (maxLevel + 1)
  {
    RepeatIsProduct(maxLevel + 1, M);
    assert M * 4 * (maxLevel + 1) == 4 * ((maxLevel + 1) * M);
  }

  /** The buffer size `serialize` computes (src/index.ts:233-235) is one
      header and `count` records. */
  lemma BufferSize(count: nat, nodeSize: int, dim: nat, M: nat, maxLevel: nat)
    requires nodeSize == 4 + dim * 4 + 4 + M * 4 * (maxLevel + 1)
    ensures nodeSize == 4 * RecordLength(dim, M, maxLevel)
    ensures 1 + 4 * 4 + count * nodeSize == HeaderSize + Repeat(count, 4 * RecordLength(dim, M, maxLevel))
  {
    RecordBytes(dim, M, maxLevel);
    RepeatIsProduct(count, 4 * RecordLength(dim, M, maxLevel));
  }

  /** One turn of the row loop of `serialize` (src/index.ts:270-274): row
      `i` follows the rows before it. */
  method PutNextRow(buf: array<Byte>, off: nat, store: seq<Node>, n: Node, M: nat, i: nat, ghost pre: seq<Byte>)
    returns (r: Result<nat>)
    requires off + 4 * M <= buf.Length && buf[..off] == pre + Le(RowsWords(store, n, M, i))
    modifies buf
    ensures r.Ok? <==> HasRows(n, M, i + 1)
    ensures r.Fail? ==> r.error == TypeError
    ensures r.Ok? ==> r.value == off + 4 * M
    ensures r.Ok? ==> buf[..r.value] == pre + Le(RowsWords(store, n, M, i + 1))
  {
    ghost var done := RowsWords(store, n, M, i);
    r := PutRow(buf, off, store, n, i, M, pre + Le(done));
    if r.Ok? {
      LeExtend(pre, done, RowOf(store, n, i, M));
    }
  }

  /** The row loop of `serialize` (src/index.ts:269-275): rows
      `0 .. count - 1`. */
  method PutRows(buf: array<Byte>, off: nat, store: seq<Node>, n: Node, M: nat, count: nat, ghost pre: seq<Byte>)
    returns (r: Result<nat>)
    requires off + 4 * Repeat(count, M) <= buf.Length && buf[..off] == pre
    modifies buf
    ensures r.Ok? <==> HasRows(n, M, count)
    ensures r.Fail? ==> r.error == TypeError
    ensures r.Ok? ==> r.value == off + 4 * Repeat(count, M)
    ensures r.Ok? ==> buf[..r.value] == pre + Le(RowsWords(store, n, M, count))
  {
    var next := off;
    var i := 0;
    while i < count
      invariant 0 <= i <= count && next == off + 4 * Repeat(i, M)
      invariant Repeat(i, M) <= Repeat(count, M) && HasRows(n, M, i)
      invariant buf[..next] == pre + Le(RowsWords(store, n, M, i))
    {
      RepeatStep(i, count, M);
      var res := PutNextRow(buf, next, store, n, M, i, pre);
      if res.Fail? {
        return Fail(res.error);
      }
      next := res.value;
      i := i + 1;
    }
    r := Ok(next);
  }

  /** The writes of a record's id, vector and level (src/index.ts:258-267). */
  method PutHead(buf: array<Byte>, off: nat, n: Node, dim: nat, ghost pre: seq<Byte>) returns (next: nat)
    requires off + 4 * (2 + dim) <= buf.Length && buf[..off] == pre
    modifies buf
    ensures next == off + 4 * (2 + dim)
    ensures buf[..next] == pre + Le(HeadWords(n, dim))
  {
    ghost var head := HeadWords(n, dim);
    ghost var vec := VectorWords(n.vector, dim);
    PutU32(buf, off, ToUint32(n.id), pre + Le(head[..0]));
    LePrefixStep(pre, head, 0);
    next := PutVector(buf, off + 4, n.vector, dim, pre + Le(head[..1]));
    assert head[..1 + dim] == head[..1] + vec;
    LeExtend(pre, head[..1], vec);
    PutU32(buf, next, ToUint32(n.level), pre + Le(head[..1 + dim]));
    LePrefixStep(pre, head, 1 + dim);
    next := next + 4;
    assert head[..2 + dim] == head;
  }

  /** One node's record in `serialize` (src/index.ts:257-275). */
  method PutRecord(buf: array<Byte>, off: nat, store: seq<Node>, n: Node, dim: nat, M: nat, maxLevel: nat, ghost pre: seq<Byte>)
    returns (r: Result<nat>)
    requires off + 4 * RecordLength(dim, M, maxLevel) <= buf.Length && buf[..off] == pre
    modifies buf
    ensures r.Ok? <==> HasRows(n, M, maxLevel + 1)
    ensures r.Fail? ==> r.error == TypeError
    ensures r.Ok? ==> r.value == off + 4 * RecordLength(dim, M, maxLevel)
    ensures r.Ok? ==> buf[..r.value] == pre + Le(RecordWords(store, n, dim, M, maxLevel))
  {
    var next := PutHead(buf, off, n, dim, pre);
    var end :- PutRows(buf, next, store, n, M, maxLevel + 1, pre + Le(HeadWords(n, dim)));
    LeExtend(pre, HeadWords(n, dim), RowsWords(store, n, M, maxLevel + 1));
    r := Ok(end);
  }

  /** One more node: one more record, and one more node that must have
      its rows. */
  lemma BodyStep(store: seq<Node>, ns: seq<Node>, i: nat, dim: nat, M: nat, maxLevel: nat)
    requires i < |ns|
    ensures BodyWords(store, ns[..i + 1], dim, M, maxLevel) == BodyWords(store, ns[..i], dim, M, maxLevel) + RecordWords(store, ns[i], dim, M, maxLevel)
    ensures Writable(ns[..i + 1], M, maxLevel) <==> Writable(ns[..i], M, maxLevel) && HasRows(ns[i], M, maxLevel + 1)
  {
    assert ns[..i + 1][..i] == ns[..i];
  }

  /** One turn of the node loop of `serialize` (src/index.ts:257-276):
      the record of `ns[i]` follows those of the nodes before it. */
  method PutNext(buf: array<Byte>, off: nat, store: seq<Node>, ns: seq<Node>, i: nat, dim: nat, M: nat, maxLevel: nat, ghost pre: seq<Byte>)
    returns (r: Result<nat>)
    requires i < |ns| && off + 4 * RecordLength(dim, M, maxLevel) <= buf.Length
    requires buf[..off] == pre + Le(BodyWords(store, ns[..i], dim, M, maxLevel)) && Writable(ns[..i], M, maxLevel)
    modifies buf
    ensures r.Ok? <==> Writable(ns[..i + 1], M, maxLevel)
    ensures r.Fail? ==> r.error == TypeError && !Writable(ns, M, maxLevel)
    ensures r.Ok? ==> r.value == off + 4 * RecordLength(dim, M, maxLevel)
    ensures r.Ok? ==> buf[..r.value] == pre + Le(BodyWords(store, ns[..i + 1], dim, M, maxLevel))
  {
    ghost var done := BodyWords(store, ns[..i], dim, M, maxLevel);
    r := PutRecord(buf, off, store, ns[i], dim, M, maxLevel, pre + Le(done));
    BodyStep(store, ns, i, dim, M, maxLevel);
    if r.Ok? {
      LeExtend(pre, done, RecordWords(store, ns[i], dim, M, maxLevel));
    } else if Writable(ns, M, maxLevel) {
      WritablePrefix(ns, i + 1, M, maxLevel);
    }
  }

  /** The node loop of `serialize` (src/index.ts:257-276): the records of
      the nodes `ns`, one after another. */
  method PutBody(buf: array<Byte>, off: nat, store: seq<Node>, ns: seq<Node>, dim: nat, M: nat, maxLevel: nat, ghost pre: seq<Byte>)
    returns (r: Result<nat>)
    requires off + Repeat(|ns|, 4 * RecordLength(dim, M, maxLevel)) <= buf.Length && buf[..off] == pre
    modifies buf
    ensures r.Ok? <==> Writable(ns, M, maxLevel)
    ensures r.Fail? ==> r.error == TypeError
    ensures r.Ok? ==> r.value == off + Repeat(|ns|, 4 * RecordLength(dim, M, maxLevel))
    ensures r.Ok? ==> buf[..r.value] == pre + Le(BodyWords(store, ns, dim, M, maxLevel))
  {
    var size := 4 * RecordLength(dim, M, maxLevel);
    var next := off;
    var i := 0;
    while i < |ns|
      invariant 0 <= i <= |ns| && next == off + Repeat(i, size)
      invariant Repeat(i, size) <= Repeat(|ns|, size)
      invariant Writable(ns[..i], M, maxLevel)
      invariant buf[..next] == pre + Le(BodyWords(store, ns[..i], dim, M, maxLevel))
    {
      RepeatStep(i, |ns|, size);
      var res := PutNext(buf, next, store, ns, i, dim, M, maxLevel, pre);
      if res.Fail? {
        return Fail(res.error);
      }
      next := res.value;
      i := i + 1;
    }
    assert ns[..|ns|] == ns;
    r := Ok(next);
  }

  // ---------------------------------------------------------------------
  // Decoding (src/index.ts:281-355)
  // ---------------------------------------------------------------------

  datatype Header = Header(metric: Metric, dim: Word, M: Word, ef: Word, entryId: Word)

  /** The header (src/index.ts:284-299): a tag of 0 means cosine and any
      other byte Euclidean. Data too short for it throws a `RangeError`. */
  function ReadHeader(data: seq<Byte>): (r: Result<Header>)
    ensures r.Ok? <==> HeaderSize <= |data|
    ensures r.Fail? ==> r.error == RangeError
  {
    if |data| < 1 then Fail(RangeError)
    else
      var dim :- ReadU32(data, 1);
      var M :- ReadU32(data, 5);
      var ef :- ReadU32(data, 9);
      var entryId :- ReadU32(data, 13);
      Ok(Header(if data[0] == 0 then Cosine else Euclidean, dim, M, ef, entryId))
  }

  /** `count` consecutive words from `off`, as the loops of `deserialize`
      read them. */
  function ReadWords(data: seq<Byte>, off: nat, count: nat): (r: Result<seq<Word>>)
    ensures r.Ok? <==> count == 0 || off + 4 * count <= |data|
    ensures r.Fail? ==> r.error == RangeError
    ensures r.Ok? ==> |r.value| == count && forall i :: 0 <= i < count ==> ReadU32(data, off + 4 * i) == Ok(r.value[i])
  {
    if count == 0 then Ok([])
    else
      var prev :- ReadWords(data, off, count - 1);
      var w :- ReadU32(data, off + 4 * (count - 1));
      Ok(prev + [w])
  }

  /** `count` rows of `M` neighbour ids each (src/index.ts:321-329). */
  function ReadRows(data: seq<Byte>, off: nat, M: nat, count: nat): (r: Result<seq<seq<Word>>>)
    ensures r.Ok? <==> M == 0 || count == 0 || off + 4 * Repeat(count, M) <= |data|
    ensures r.Fail? ==> r.error == RangeError
    ensures r.Ok? ==> |r.value| == count && forall l :: 0 <= l < count ==> |r.value[l]| == M
  {
    if count == 0 then Ok([])
    else
      var prev :- ReadRows(data, off, M, count - 1);
      var row :- ReadWords(data, off + 4 * Repeat(count - 1, M), M);
      Ok(prev + [row])
  }

  /** The largest length of a JavaScript array: `new Array(n)` throws a
      `RangeError` for any larger `n`. */
  const MaxArrayLength: nat := 0xFFFF_FFFF

  /** One record as read: id, vector words, level and neighbour id rows. */
  datatype Record = Record(id: Word, vector: seq<Word>, level: Word, rows: seq<seq<Word>>)

  /** The record at `off` (src/index.ts:307-329), with `rowCount` rows of
      neighbour ids: it is read exactly when all its words lie inside the
      data, and a truncated record throws a `RangeError`. */
  function ReadRecord(data: seq<Byte>, off: nat, dim: nat, M: nat, rowCount: nat): (r: Result<Record>)
    ensures r.Ok? <==> off + 4 * (2 + dim + Repeat(rowCount, M)) <= |data|
    ensures r.Fail? ==> r.error == RangeError
    ensures r.Ok? ==> |r.value.vector| == dim && |r.value.rows| == rowCount
    ensures r.Ok? ==> forall l :: 0 <= l < rowCount ==> |r.value.rows[l]| == M
  {
    RepeatIsProduct(rowCount, M);
    var id :- ReadU32(data, off);
    var vector :- ReadWords(data, off + 4, dim);
    var level :- ReadU32(data, off + 4 + 4 * dim);
    var rows :- ReadRows(data, off + 8 + 4 * dim, M, rowCount);
    Ok(Record(id, vector, level, rows))
  }

  /** The header reads of `deserialize` (src/index.ts:284-299). */
  method LoadHeader(data: seq<Byte>) returns (r: Result<Header>)
    ensures r == ReadHeader(data)
  {
    if |data| < 1 {
      return Fail(RangeError);
    }
    var offset := 0;
    var similarityMetric := if data[offset] == 0 then Cosine else Euclidean;
    offset := offset + 1;
    var numDimensions :- ReadU32(data, offset);
    offset := offset + 4;
    var M :- ReadU32(data, offset);
    offset := offset + 4;
    var ef :- ReadU32(data, offset);
    offset := offset + 4;
    var entryPointId :- ReadU32(data, offset);
    r := Ok(Header(similarityMetric, numDimensions, M, ef, entryPointId));
  }

  /** A row that cannot be read makes every longer run of rows unreadable. */
  lemma {:induction false} ReadRowsFails(data: seq<Byte>, off: nat, M: nat, i: nat, count: nat)
    requires i <= count && ReadRows(data, off, M, i).Fail?
    ensures ReadRows(data, off, M, count) == Fail(RangeError)
    decreases count
  {
    if i < count {
      ReadRowsFails(data, off, M, i, count - 1);
    }
  }

  /** `count` `getUint32` reads from `off` on (src/index.ts:311-314 and
      324-328). */
  method LoadWords(data: seq<Byte>, off: nat, count: nat) returns (r: Result<seq<Word>>)
    ensures r == ReadWords(data, off, count)
  {
    var words := [];
    var offset := off;
    var i := 0;
    while i < count
      invariant 0 <= i <= count && offset == off + 4 * i
      invariant ReadWords(data, off, i) == Ok(words)
    {
      var w :- ReadU32(data, offset);
      words := words + [w];
      offset := offset + 4;
      i := i + 1;
    }
    r := Ok(words);
  }

  /** The neighbour id loops of `deserialize` (src/index.ts:321-329):
      `count` rows of `M` ids. */
  method LoadRows(data: seq<Byte>, off: nat, M: nat, count: nat) returns (r: Result<seq<seq<Word>>>)
    ensures r == ReadRows(data, off, M, count)
  {
    var rows := [];
    var offset := off;
    var i := 0;
    while i < count
      invariant 0 <= i <= count && offset == off + 4 * Repeat(i, M)
      invariant ReadRows(data, off, M, i) == Ok(rows)
    {
      var row := LoadWords(data, offset, M);
      if row.Fail? {
        ReadRowsFails(data, off, M, i + 1, count);
        return Fail(row.error);
      }
      rows := rows + [row.value];
      offset := offset + 4 * M;
      i := i + 1;
    }
    r := Ok(rows);
  }

  /** One record of the first pass of `deserialize` (src/index.ts:307-329),
      with `rowCount` rows of ids; `next` is the offset after it. */
  method LoadRecord(data: seq<Byte>, off: nat, dim: nat, M: nat, rowCount: nat) returns (r: Result<Record>, next: nat)
    ensures r == ReadRecord(data, off, dim, M, rowCount)
    ensures next == off + 4 * (2 + dim + Repeat(rowCount, M))
  {
    next := off + 4 * (2 + dim + Repeat(rowCount, M));
    var id :- ReadU32(data, off);
    var vector :- LoadWords(data, off + 4, dim);
    var level :- ReadU32(data, off + 4 + 4 * dim);
    var rows :- LoadRows(data, off + 8 + 4 * dim, M, rowCount);
    r := Ok(Record(id, vector, level, rows));
  }

  /** The index under construction after the first pass: the node objects in
      record order, the id map with its iteration order, the neighbour ids
      kept per id, the entry point and `maxLevel`. */
  datatype Loaded = Loaded(
    store: seq<Node>, nodes: map<int, Handle>, order: seq<int>,
    rowIds: map<int, seq<seq<Word>>>, entryPoint: Option<Handle>, maxLevel: nat)

  /** Taking one record in (src/index.ts:319-337): a fresh node object with
      empty rows is registered under its id, replacing any earlier one; the
      record whose id is the header's entry id becomes the entry point and
      sets `maxLevel` to its level. */
  function Take(st: Loaded, rec: Record, h: Header): Loaded
  {
    var hd := |st.store|;
    var (nodes, order) := Register(st.nodes, st.order, rec.id, hd);
    Loaded(
      st.store + [NewNode(rec.id, rec.vector, rec.level, h.M)], nodes, order,
      st.rowIds[rec.id := rec.rows],
      if rec.id == h.entryId then Some(hd) else st.entryPoint,
      if rec.id == h.entryId then rec.level else st.maxLevel)
  }

  /** Taking a record in appends a new node object with empty rows, maps
      the id to it, keeps the id rows, and makes it the entry point at its
      level exactly when its id is the entry id (src/index.ts:319-337). */
  lemma TakeShape(st: Loaded, rec: Record, h: Header)
    ensures var r := Take(st, rec, h);
      && |r.store| == |st.store| + 1 && r.store[..|st.store|] == st.store
      && r.store[|st.store|] == NewNode(rec.id, rec.vector, rec.level, h.M)
      && rec.id in r.nodes && r.nodes[rec.id] == |st.store| && r.rowIds == st.rowIds[rec.id := rec.rows]
      && (rec.id == h.entryId ==> r.entryPoint == Some(|st.store|) && r.maxLevel == rec.level)
      && (rec.id != h.entryId ==> r.entryPoint == st.entryPoint && r.maxLevel == st.maxLevel)
  {
  }

  /** Taking a record in keeps the node objects, the id map and the entry
      point well formed (src/index.ts:319-337): the new node object has
      `level + 1` rows of `M` empty slots. */
  lemma TakeConsistent(st: Loaded, rec: Record, h: Header)
    requires StoreOk(st.store, h.M)
    requires MapOk(st.nodes, st.order, st.store) && EntryOk(st.entryPoint, st.maxLevel, st.store)
    ensures var r := Take(st, rec, h);
      && StoreOk(r.store, h.M)
      && MapOk(r.nodes, r.order, r.store) && EntryOk(r.entryPoint, r.maxLevel, r.store)
  {
    var r := Take(st, rec, h);
    forall g | 0 <= g < |r.store|
      ensures NodeOk(r.store[g], |r.store|, h.M)
    {
      if g < |st.store| {
        assert r.store[g] == st.store[g];
      }
    }
  }

  /** The first pass (src/index.ts:306-338): records are read until the data
      ends, each with `maxLevel + 1` rows for the `maxLevel` reached so far.
      A record whose level word is the largest word throws a `RangeError`
      when its node object is made, as `new Array(level + 1)` is then longer
      than any array (src/index.ts:17, 319). */
  function ReadRecords(data: seq<Byte>, off: nat, h: Header, st: Loaded): (r: Result<Loaded>)
    ensures r.Fail? ==> r.error == RangeError
    decreases |data| - off
  {
    if off >= |data| then Ok(st)
    else
      var step :- ReadStep(data, off, h, st);
      ReadRecords(data, step.1, h, step.0)
  }

  /** One record of the first pass: its read, the `RangeError` of a level
      word too large for `new Array(level + 1)`, the state with the record
      taken in, and the offset after it. */
  function ReadStep(data: seq<Byte>, off: nat, h: Header, st: Loaded): (r: Result<(Loaded, nat)>)
    ensures r.Ok? ==> r.value.1 > off
  {
    var rec :- ReadRecord(data, off, h.dim, h.M, st.maxLevel + 1);
    if rec.level >= MaxArrayLength then Fail(RangeError)
    else Ok((Take(st, rec, h), off + 4 * RecordLength(h.dim, h.M, st.maxLevel)))
  }

  /** Data that ends inside a record throws a `RangeError`: the first pass
      never stops on a partial record. */
  lemma ReadRecordsTruncated(data: seq<Byte>, off: nat, h: Header, st: Loaded)
    requires off < |data| < off + 4 * RecordLength(h.dim, h.M, st.maxLevel)
    ensures ReadRecords(data, off, h, st) == Fail(RangeError)
  {
    assert ReadRecord(data, off, h.dim, h.M, st.maxLevel + 1).Fail?;
  }

  /** A record with level word `0xFFFFFFFF` makes the whole of `deserialize`
      throw a `RangeError`: here the 25 bytes of a cosine header with no
      dimensions, `M` and `ef` 0 and entry id 0, followed by a record with id
      0 and that level. */
  lemma LevelTooLarge()
    ensures Decode([0] + [0, 0, 0, 0] + [0, 0, 0, 0] + [0, 0, 0, 0] + [0, 0, 0, 0]
      + [0, 0, 0, 0] + [0xFF, 0xFF, 0xFF, 0xFF]) == Fail(RangeError)
  {
    var data: seq<Byte> := [0, 0, 0, 0, 0, 0, 0, 0, 0, 0, 0, 0, 0, 0, 0, 0, 0, 0, 0, 0, 0, 0xFF, 0xFF, 0xFF, 0xFF];
    assert data == [0] + [0, 0, 0, 0] + [0, 0, 0, 0] + [0, 0, 0, 0] + [0, 0, 0, 0]
      + [0, 0, 0, 0] + [0xFF, 0xFF, 0xFF, 0xFF];
    var h := Header(Cosine, 0, 0, 0, 0);
    assert ReadHeader(data) == Ok(h);
    assert ReadU32(data, 17) == Ok(0);
    assert ReadU32(data, 21) == Ok(0xFFFF_FFFF);
    assert ReadWords(data, 21, 0) == Ok([]);
    assert ReadRows(data, 25, 0, 0) == Ok([]);
    assert ReadWords(data, 25, 0) == Ok([]);
    var rows: seq<seq<Word>> := [[]];
    assert [] + rows == rows;
    assert ReadRows(data, 25, 0, 1) == Ok(rows);
    var rec := Record(0, [], 0xFFFF_FFFF, rows);
    assert ReadRecord(data, HeaderSize, 0, 0, 1) == Ok(rec);
    assert ReadRecords(data, HeaderSize, h, Loaded([], map[], [], map[], None, 0)) == Fail(RangeError);
  }

  /** The first pass keeps the node objects made so far well formed, and
      the id map and the entry point consistent with them. */
  lemma {:induction false} ReadRecordsConsistent(data: seq<Byte>, off: nat, h: Header, st: Loaded)
    requires StoreOk(st.store, h.M)
    requires MapOk(st.nodes, st.order, st.store) && EntryOk(st.entryPoint, st.maxLevel, st.store)
    ensures var r := ReadRecords(data, off, h, st);
      r.Ok? ==>
        && StoreOk(r.value.store, h.M)
        && MapOk(r.value.nodes, r.value.order, r.value.store) && EntryOk(r.value.entryPoint, r.value.maxLevel, r.value.store)
    decreases |data| - off
  {
    if off < |data| {
      match ReadRecord(data, off, h.dim, h.M, st.maxLevel + 1)
      case Ok(rec) =>
        if rec.level < MaxArrayLength {
          var next := off + 4 * (2 + h.dim + Repeat(st.maxLevel + 1, h.M));
          ReadRecordsStep(data, off, h, st, rec, next);
          TakeConsistent(st, rec, h);
          ReadRecordsConsistent(data, next, h, Take(st, rec, h));
        }
      case Fail(_) =>
    }
  }

  /** Resolving the rows keeps every node object's id and level, so the id
      map and entry point stay consistent. */
  lemma ConsistentSameNodes(st: Loaded, store: seq<Node>)
    requires MapOk(st.nodes, st.order, st.store) && EntryOk(st.entryPoint, st.maxLevel, st.store)
    requires SameNodes(st.store, store)
    ensures MapOk(st.nodes, st.order, store) && EntryOk(st.entryPoint, st.maxLevel, store)
  {
  }

  /** One step of the first pass: the record at `off` is read and taken
      in, and the pass goes on after it. */
  lemma ReadRecordsStep(data: seq<Byte>, off: nat, h: Header, st: Loaded, rec: Record, next: nat)
    requires off < |data| && ReadRecord(data, off, h.dim, h.M, st.maxLevel + 1) == Ok(rec)
    requires rec.level < MaxArrayLength
    requires next == off + 4 * (2 + h.dim + Repeat(st.maxLevel + 1, h.M))
    ensures ReadRecords(data, off, h, st) == ReadRecords(data, next, h, Take(st, rec, h))
  {
    assert ReadStep(data, off, h, st) == Ok((Take(st, rec, h), next));
  }

  /** Some id of the row is registered. */
  predicate Resolves(ids: seq<Word>, nodes: map<int, Handle>)
  {
    exists j :: 0 <= j < |ids| && ids[j] in nodes
  }

  /** One row after the second pass (src/index.ts:345-349): a slot whose id
      is registered links to the node object registered under it; the
      others keep their value. The `id !== -1` test never fails, since the
      id was read as an unsigned word. */
  function ResolveRow(row: seq<Slot>, ids: seq<Word>, nodes: map<int, Handle>): (r: seq<Slot>)
    ensures |r| == |row|
  {
    seq(|row|, j requires 0 <= j < |row| => if j < |ids| && ids[j] in nodes then Link(nodes[ids[j]]) else row[j])
  }

  /** The second pass on one node object (src/index.ts:344-350): row by row,
      registered ids become links. A row with a registered id that the node
      does not have throws. */
  function ResolveLevels(n: Node, rowIds: seq<seq<Word>>, nodes: map<int, Handle>): (r: Result<Node>)
    ensures r.Fail? ==> r.error == TypeError
    ensures r.Ok? ==> r.value.id == n.id && r.value.vector == n.vector && r.value.level == n.level
    ensures r.Ok? ==> |r.value.neighbors| == |n.neighbors|
    ensures r.Ok? ==> forall l :: 0 <= l < |n.neighbors| ==> |r.value.neighbors[l]| == |n.neighbors[l]|
  {
    if rowIds == [] then Ok(n)
    else
      var prev :- ResolveLevels(n, rowIds[..|rowIds| - 1], nodes);
      var l := |rowIds| - 1;
      if l < |prev.neighbors| then
        Ok(prev.(neighbors := prev.neighbors[l := ResolveRow(prev.neighbors[l], rowIds[l], nodes)]))
      else if Resolves(rowIds[l], nodes) then Fail(TypeError)
      else Ok(prev)
  }

  /** The second pass (src/index.ts:341-352): for each id in iteration order,
      the node object registered under it gets its links. */
  function ResolveAll(store: seq<Node>, nodes: map<int, Handle>, rowIds: map<int, seq<seq<Word>>>, keys: seq<int>): (r: Result<seq<Node>>)
    ensures r.Fail? ==> r.error == TypeError
    ensures r.Ok? ==> SameShape(store, r.value)
  {
    if keys == [] then Ok(store)
    else
      var prev :- ResolveAll(store, nodes, rowIds, keys[..|keys| - 1]);
      var k := keys[|keys| - 1];
      if k in nodes && nodes[k] < |prev| && k in rowIds then
        var n :- ResolveLevels(prev[nodes[k]], rowIds[k], nodes);
        Ok(prev[nodes[k] := n])
      else Ok(prev)
  }

  /** Every row of every node object has `M` slots. */
  ghost predicate Width(store: seq<Node>, M: nat)
  {
    forall h, l :: 0 <= h < |store| && 0 <= l < |store[h].neighbors| ==> |store[h].neighbors[l]| == M
  }

  /** Every kept row of neighbour ids has `M` ids. */
  ghost predicate IdWidth(rowIds: map<int, seq<seq<Word>>>, M: nat)
  {
    forall k, l :: k in rowIds && 0 <= l < |rowIds[k]| ==> |rowIds[k][l]| == M
  }

  lemma ResolveRowNone(row: seq<Slot>, nodes: map<int, Handle>)
    ensures ResolveRow(row, [], nodes) == row
  {
  }

  /** Resolving one more slot of a row. */
  lemma ResolveRowStep(row: seq<Slot>, ids: seq<Word>, j: nat, nodes: map<int, Handle>)
    requires j < |ids| == |row|
    ensures ResolveRow(row, ids[..j + 1], nodes) ==
      if ids[j] in nodes then ResolveRow(row, ids[..j], nodes)[j := Link(nodes[ids[j]])] else ResolveRow(row, ids[..j], nodes)
  {
  }

  /** Some id of a row one longer is registered. */
  lemma ResolvesStep(ids: seq<Word>, j: nat, nodes: map<int, Handle>)
    requires j < |ids|
    ensures Resolves(ids[..j + 1], nodes) <==> Resolves(ids[..j], nodes) || ids[j] in nodes
  {
    if Resolves(ids[..j + 1], nodes) {
      var i :| 0 <= i < j + 1 && ids[..j + 1][i] in nodes;
      if i < j {
        assert ids[..j][i] in nodes;
      }
    }
    if Resolves(ids[..j], nodes) {
      var i :| 0 <= i < j && ids[..j][i] in nodes;
      assert ids[..j + 1][i] in nodes;
    }
    if ids[j] in nodes {
      assert ids[..j + 1][j] in nodes;
    }
  }

  /** A level that throws makes the whole second pass on the node throw. */
  lemma {:induction false} ResolveLevelsFails(n: Node, rowIds: seq<seq<Word>>, i: nat, nodes: map<int, Handle>)
    requires i <= |rowIds| && ResolveLevels(n, rowIds[..i], nodes).Fail?
    ensures ResolveLevels(n, rowIds, nodes).Fail?
    decreases |rowIds|
  {
    if i < |rowIds| {
      assert rowIds[..|rowIds| - 1][..i] == rowIds[..i];
      ResolveLevelsFails(n, rowIds[..|rowIds| - 1], i, nodes);
    } else {
      assert rowIds[..i] == rowIds;
    }
  }

  /** A node object that throws makes the whole second pass throw. */
  lemma {:induction false} ResolveAllFails(store: seq<Node>, nodes: map<int, Handle>, rowIds: map<int, seq<seq<Word>>>, keys: seq<int>, i: nat)
    requires i <= |keys| && ResolveAll(store, nodes, rowIds, keys[..i]).Fail?
    ensures ResolveAll(store, nodes, rowIds, keys).Fail?
    decreases |keys|
  {
    if i < |keys| {
      assert keys[..|keys| - 1][..i] == keys[..i];
      ResolveAllFails(store, nodes, rowIds, keys[..|keys| - 1], i);
    } else {
      assert keys[..i] == keys;
    }
  }

  /** The second pass on one node object keeps it well formed when every
      registered id names an allocated node object: a slot it fills links
      to one of those. */
  lemma {:induction false} ResolveLevelsOk(n: Node, rowIds: seq<seq<Word>>, nodes: map<int, Handle>, size: nat, M: nat)
    requires NodeOk(n, size, M) && forall k :: k in nodes ==> nodes[k] < size
    ensures ResolveLevels(n, rowIds, nodes).Ok? ==> NodeOk(ResolveLevels(n, rowIds, nodes).value, size, M)
    decreases |rowIds|
  {
    if rowIds != [] {
      ResolveLevelsOk(n, rowIds[..|rowIds| - 1], nodes, size, M);
    }
  }

  /** The second pass keeps every node object well formed when every
      registered id names an allocated node object (src/index.ts:341-352). */
  lemma {:induction false} ResolveAllOk(store: seq<Node>, nodes: map<int, Handle>, rowIds: map<int, seq<seq<Word>>>,
                                        keys: seq<int>, M: nat)
    requires StoreOk(store, M) && forall k :: k in nodes ==> nodes[k] < |store|
    ensures ResolveAll(store, nodes, rowIds, keys).Ok? ==> StoreOk(ResolveAll(store, nodes, rowIds, keys).value, M)
    decreases |keys|
  {
    if keys != [] {
      ResolveAllOk(store, nodes, rowIds, keys[..|keys| - 1], M);
      match ResolveAll(store, nodes, rowIds, keys[..|keys| - 1])
      case Ok(prev) =>
        var k := keys[|keys| - 1];
        if k in nodes && nodes[k] < |prev| && k in rowIds {
          ResolveLevelsOk(prev[nodes[k]], rowIds[k], nodes, |prev|, M);
        }
      case Fail(_) =>
    }
  }

  /** What `deserialize` returns, or the exception it throws. */
  function Decode(data: seq<Byte>): (r: Result<Index>)
    ensures |data| < HeaderSize ==> r == Fail(RangeError)
    ensures r.Ok? ==> Valid(r.value)
  {
    var h :- ReadHeader(data);
    var st :- ReadRecords(data, HeaderSize, h, Loaded([], map[], [], map[], None, 0));
    ReadRecordsConsistent(data, HeaderSize, h, Loaded([], map[], [], map[], None, 0));
    ResolveAllOk(st.store, st.nodes, st.rowIds, st.order, h.M);
    var store :- ResolveAll(st.store, st.nodes, st.rowIds, st.order);
    ConsistentSameNodes(st, store);
    Ok(Index(h.metric, h.dim, h.M, h.ef, st.maxLevel, st.entryPoint, st.nodes, st.order, store))
  }
}
