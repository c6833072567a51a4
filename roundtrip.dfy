/** `deserialize` after `serialize` (src/index.ts:231-355). The writer puts
    `maxLevel + 1` rows in every record, while the reader takes as many rows
    as the `maxLevel` it has reached so far, which starts at 0 and only
    changes at the entry point's record. The two agree when `maxLevel` is 0,
    and this module proves what comes back then: the same parameters and
    ids in the same order, fresh node objects numbered by position, each
    vector as `numDimensions` words, and row 0 rebuilt by id. */
module RoundTrip {
  import opened Outcomes
  import opened Graph
  import opened Bytes
  import opened Codec

  /** An index the format carries over: valid, all of it at level 0, with
      parameters and ids that fit a 32-bit word and no id equal to -1 read
      back as unsigned. */
  ghost predicate Portable(ix: Index)
  {
    && Valid(ix) && ix.maxLevel == 0 && Capped(ix.nodes, ix.store, 0) && Fits(ix)
    && forall k :: k in ix.nodes ==> 0 <= k < NoId
  }

  /** The parameters fit a 32-bit word. */
  ghost predicate Fits(ix: Index)
  {
    ix.numDimensions < 0x1_0000_0000 && ix.M < 0x1_0000_0000 && ix.ef < 0x1_0000_0000
  }

  /** The node object of the `i`-th registered id. */
  function NodeAt(ix: Index, i: nat): Node
    requires MapOk(ix.nodes, ix.order, ix.store) && i < |ix.order|
  {
    ix.store[ix.nodes[ix.order[i]]]
  }

  /** The header `serialize` writes for a portable index. */
  function Head(ix: Index): Header
    requires Fits(ix)
  {
    Header(ix.metric, ix.numDimensions, ix.M, ix.ef, EntryWord(ix))
  }

  /** The record `serialize` writes for the `i`-th registered id, read back
      with one row. */
  function RecordAt(ix: Index, i: nat): Record
    requires MapOk(ix.nodes, ix.order, ix.store) && i < |ix.order|
  {
    var n := NodeAt(ix, i);
    Record(ToUint32(n.id), VectorWords(n.vector, ix.numDimensions), ToUint32(n.level), [RowOf(ix.store, n, 0, ix.M)])
  }

  /** The words `serialize` writes after the tag byte of a portable index. */
  function Words(ix: Index): seq<Word>
    requires MapOk(ix.nodes, ix.order, ix.store)
  {
    HeaderWords(ix) + BodyWords(ix.store, InOrder(ix.nodes, ix.order, ix.store), ix.numDimensions, ix.M, 0)
  }

  /** The records `serialize` writes for a portable index, in order. */
  function Records(ix: Index): seq<seq<Word>>
    requires MapOk(ix.nodes, ix.order, ix.store)
  {
    RecordsOf(ix.store, InOrder(ix.nodes, ix.order, ix.store), ix.numDimensions, ix.M)
  }

  /** The words after the tag byte are the header words and then the
      records. */
  lemma WordsFlat(ix: Index)
    requires MapOk(ix.nodes, ix.order, ix.store)
    ensures Words(ix) == HeaderWords(ix) + Flatten(Records(ix))
  {
    BodyFlat(ix.store, InOrder(ix.nodes, ix.order, ix.store), ix.numDimensions, ix.M);
  }

  // ---------------------------------------------------------------------
  // Reading back the words written
  // ---------------------------------------------------------------------

  /** The read of word `i` from byte `off` on. */
  function At(data: seq<Byte>, off: nat, i: nat): Result<Word>
  {
    ReadU32(data, off + 4 * i)
  }

  /** Word `i` of `words` reads back at byte `off + 4 * i` of `data`. The
      trigger keeps the fact from firing on every index into `words`. */
  ghost predicate WordsAt(data: seq<Byte>, off: nat, words: seq<Word>)
  {
    forall i {:trigger At(data, off, i)} :: 0 <= i < |words| ==> At(data, off, i) == Ok(words[i])
  }

  /** Words written after `pre` read back where they were written, whatever
      follows them. */
  lemma WordsAtLe(pre: seq<Byte>, words: seq<Word>, post: seq<Byte>)
    ensures WordsAt(pre + Le(words) + post, |pre|, words)
  {
    forall i | 0 <= i < |words|
      ensures At(pre + Le(words) + post, |pre|, i) == Ok(words[i])
    {
      ReadLe(pre, words, post, i, |pre| + 4 * i);
    }
  }

  /** A run of the words read back from word `k` on. */
  lemma WordsAtSub(data: seq<Byte>, off: nat, words: seq<Word>, k: nat, sub: seq<Word>, off': nat)
    requires WordsAt(data, off, words) && k + |sub| <= |words| && words[k..k + |sub|] == sub && off' == off + 4 * k
    ensures WordsAt(data, off', sub)
  {
    forall i | 0 <= i < |sub|
      ensures At(data, off', i) == Ok(sub[i])
    {
      assert off' + 4 * i == off + 4 * (k + i);
      assert At(data, off, k + i) == Ok(words[k + i]);
      assert sub[i] == words[k + i];
    }
  }

  /** `count` words read in a row from word `k` on. */
  lemma ReadWordsAt(data: seq<Byte>, off: nat, words: seq<Word>, k: nat, count: nat, off': nat)
    requires WordsAt(data, off, words) && k + count <= |words| && off' == off + 4 * k
    ensures ReadWords(data, off', count) == Ok(words[k..k + count])
  {
    if count > 0 {
      assert At(data, off, k + count - 1) == Ok(words[k + count - 1]);
    }
    var r := ReadWords(data, off', count);
    assert r.Ok? && |r.value| == count;
    forall i | 0 <= i < count
      ensures r.value[i] == words[k..k + count][i]
    {
      assert off' + 4 * i == off + 4 * (k + i);
      assert At(data, off, k + i) == Ok(words[k + i]);
    }
    assert r.value == words[k..k + count];
  }

  /** Four words after a tag byte read back as a header. */
  lemma HeaderAt(data: seq<Byte>, words: seq<Word>)
    requires 4 <= |words| && 1 <= |data| && WordsAt(data, 1, words)
    ensures ReadHeader(data) == Ok(Header(if data[0] == 0 then Cosine else Euclidean, words[0], words[1], words[2], words[3]))
  {
    assert At(data, 1, 0) == Ok(words[0]);
    assert At(data, 1, 1) == Ok(words[1]);
    assert At(data, 1, 2) == Ok(words[2]);
    assert At(data, 1, 3) == Ok(words[3]);
  }

  /** The words of a record with one row read back as that record. */
  lemma RecordAtWords(data: seq<Byte>, off: nat, words: seq<Word>, dim: nat, M: nat)
    requires |words| == RecordLength(dim, M, 0) && WordsAt(data, off, words)
    ensures ReadRecord(data, off, dim, M, 1) == Ok(Parse(words, dim, M))
  {
    assert Repeat(1, M) == M;
    ReadWordsAt(data, off, words, 1, dim, off + 4);
    ReadWordsAt(data, off, words, 2 + dim, M, off + 8 + 4 * dim);
    assert At(data, off, 0) == Ok(words[0]);
    assert At(data, off, 1 + dim) == Ok(words[1 + dim]);
    assert ReadRows(data, off + 8 + 4 * dim, M, 0) == Ok([]);
    assert [] + [words[2 + dim..2 + dim + M]] == [words[2 + dim..2 + dim + M]];
  }

  /** The record the words of one record with one row read as. */
  function Parse(w: seq<Word>, dim: nat, M: nat): Record
    requires |w| == RecordLength(dim, M, 0)
  {
    assert Repeat(1, M) == M;
    Record(w[0], w[1..1 + dim], w[1 + dim], [w[2 + dim..2 + dim + M]])
  }

  /** Records laid end to end. */
  function Flatten(rs: seq<seq<Word>>): seq<Word>
  {
    if rs == [] then [] else rs[0] + Flatten(rs[1..])
  }

  lemma {:induction false} FlattenSnoc(rs: seq<seq<Word>>, r: seq<Word>)
    ensures Flatten(rs + [r]) == Flatten(rs) + r
    decreases |rs|
  {
    if rs == [] {
      assert rs + [r] == [r] && [r][1..] == [];
    } else {
      assert (rs + [r])[1..] == rs[1..] + [r];
      FlattenSnoc(rs[1..], r);
      assert rs[0] + Flatten(rs[1..]) + r == rs[0] + (Flatten(rs[1..]) + r);
    }
  }

  lemma FlattenCons(rs: seq<seq<Word>>)
    requires rs != []
    ensures Flatten(rs) == rs[0] + Flatten(rs[1..])
    ensures |Flatten(rs)| == |rs[0]| + |Flatten(rs[1..])|
  {
  }

  /** Every record is `size` words long. */
  ghost predicate Uniform(rs: seq<seq<Word>>, size: nat)
  {
    forall j :: 0 <= j < |rs| ==> |rs[j]| == size
  }

  /** The records of `ns`, one per node. */
  function RecordsOf(store: seq<Node>, ns: seq<Node>, dim: nat, M: nat): (rs: seq<seq<Word>>)
    ensures |rs| == |ns| && Uniform(rs, RecordLength(dim, M, 0))
  {
    seq(|ns|, i requires 0 <= i < |ns| => RecordWords(store, ns[i], dim, M, 0))
  }

  lemma RecordsOfSnoc(store: seq<Node>, ns: seq<Node>, dim: nat, M: nat)
    requires ns != []
    ensures RecordsOf(store, ns, dim, M)
         == RecordsOf(store, ns[..|ns| - 1], dim, M) + [RecordWords(store, ns[|ns| - 1], dim, M, 0)]
  {
    var rs := RecordsOf(store, ns, dim, M);
    var init := RecordsOf(store, ns[..|ns| - 1], dim, M);
    forall j | 0 <= j < |init|
      ensures rs[j] == init[j]
    {
      assert ns[..|ns| - 1][j] == ns[j];
    }
  }

  /** The body is the records laid end to end. */
  lemma {:induction false} BodyFlat(store: seq<Node>, ns: seq<Node>, dim: nat, M: nat)
    ensures BodyWords(store, ns, dim, M, 0) == Flatten(RecordsOf(store, ns, dim, M))
    decreases |ns|
  {
    if ns != [] {
      var init := ns[..|ns| - 1];
      var last := RecordWords(store, ns[|ns| - 1], dim, M, 0);
      BodyFlat(store, init, dim, M);
      RecordsOfSnoc(store, ns, dim, M);
      FlattenSnoc(RecordsOf(store, init, dim, M), last);
    }
  }

  /** Words read back as two runs, one after the other. */
  lemma WordsAtSplit(data: seq<Byte>, off: nat, a: seq<Word>, b: seq<Word>)
    requires WordsAt(data, off, a + b)
    ensures WordsAt(data, off, a) && WordsAt(data, off + 4 * |a|, b)
  {
    assert (a + b)[0..|a|] == a && (a + b)[|a|..|a| + |b|] == b;
    WordsAtSub(data, off, a + b, 0, a, off);
    WordsAtSub(data, off, a + b, |a|, b, off + 4 * |a|);
  }

  /** Where the parts of a record with one row sit among its words. */
  lemma RecordParts(store: seq<Node>, n: Node, dim: nat, M: nat)
    ensures var words := RecordWords(store, n, dim, M, 0);
      && |words| == 2 + dim + M
      && Record(words[0], words[1..1 + dim], words[1 + dim], [words[2 + dim..2 + dim + M]])
        == Record(ToUint32(n.id), VectorWords(n.vector, dim), ToUint32(n.level), [RowOf(store, n, 0, M)])
  {
    var row := RowOf(store, n, 0, M);
    assert RowsWords(store, n, M, 1) == [] + row;
    var words := RecordWords(store, n, dim, M, 0);
    assert words == [ToUint32(n.id)] + VectorWords(n.vector, dim) + [ToUint32(n.level)] + row;
    assert words[1..1 + dim] == VectorWords(n.vector, dim);
    assert words[2 + dim..2 + dim + M] == row;
  }

  // ---------------------------------------------------------------------
  // The first pass
  // ---------------------------------------------------------------------

  /** Every record has level word 0. */
  ghost predicate Flat(rs: seq<seq<Word>>, dim: nat)
  {
    forall j :: 0 <= j < |rs| && 1 + dim < |rs[j]| ==> rs[j][1 + dim] == 0
  }

  lemma Tail(rs: seq<seq<Word>>, size: nat, dim: nat)
    requires rs != [] && Uniform(rs, size) && Flat(rs, dim)
    ensures Uniform(rs[1..], size) && Flat(rs[1..], dim)
  {
    assert forall j :: 0 <= j < |rs| - 1 ==> rs[1..][j] == rs[j + 1];
  }

  /** The first pass's state after taking in the records `rs`, from `st`. */
  function FoldRecs(h: Header, st: Loaded, rs: seq<seq<Word>>): Loaded
    requires Uniform(rs, RecordLength(h.dim, h.M, 0))
    decreases |rs|
  {
    if rs == [] then st
    else
      assert forall j :: 0 <= j < |rs| - 1 ==> rs[1..][j] == rs[j + 1];
      FoldRecs(h, Take(st, Parse(rs[0], h.dim, h.M), h), rs[1..])
  }

  /** One turn of the first pass at level 0: a record read at `off` is
      taken in and the pass goes on one record later. */
  lemma OneRecord(data: seq<Byte>, off: nat, h: Header, st: Loaded, rec: Record, st': Loaded, next: nat)
    requires off < |data| && st.maxLevel == 0 && ReadRecord(data, off, h.dim, h.M, 1) == Ok(rec)
    requires rec.level == 0
    requires next == off + 4 * RecordLength(h.dim, h.M, 0) && st' == Take(st, rec, h)
    ensures ReadRecords(data, off, h, st) == ReadRecords(data, next, h, st')
  {
    ReadRecordsStep(data, off, h, st, rec, next);
  }

  /** The first pass from `off` on takes in the records `rs` one by one
      and stops at the end of the data. */
  lemma {:induction false} ReadAll(data: seq<Byte>, off: nat, h: Header, st: Loaded, rs: seq<seq<Word>>)
    requires Uniform(rs, RecordLength(h.dim, h.M, 0)) && Flat(rs, h.dim) && st.maxLevel == 0
    requires WordsAt(data, off, Flatten(rs)) && |data| == off + 4 * |Flatten(rs)|
    ensures ReadRecords(data, off, h, st) == Ok(FoldRecs(h, st, rs))
    decreases |rs|
  {
    if rs != [] {
      var rec := Parse(rs[0], h.dim, h.M);
      var next := off + 4 * |rs[0]|;
      FirstWritten(data, off, h, rs, next);
      OneRecord(data, off, h, st, rec, Take(st, rec, h), next);
      ReadAll(data, next, h, Take(st, rec, h), rs[1..]);
    }
  }

  /** The first of the written records `rs` reads back at level 0, and
      the rest of the data holds the remaining records. */
  lemma FirstWritten(data: seq<Byte>, off: nat, h: Header, rs: seq<seq<Word>>, next: nat)
    requires rs != [] && Uniform(rs, RecordLength(h.dim, h.M, 0)) && Flat(rs, h.dim)
    requires WordsAt(data, off, Flatten(rs)) && |data| == off + 4 * |Flatten(rs)|
    requires next == off + 4 * |rs[0]|
    ensures off < |data| && |rs[0]| == RecordLength(h.dim, h.M, 0)
    ensures ReadRecord(data, off, h.dim, h.M, 1) == Ok(Parse(rs[0], h.dim, h.M))
    ensures Parse(rs[0], h.dim, h.M).level == 0
    ensures Uniform(rs[1..], RecordLength(h.dim, h.M, 0)) && Flat(rs[1..], h.dim)
    ensures WordsAt(data, next, Flatten(rs[1..])) && |data| == next + 4 * |Flatten(rs[1..])|
  {
    FlattenCons(rs);
    WordsAtSplit(data, off, rs[0], Flatten(rs[1..]));
    RecordAtWords(data, off, rs[0], h.dim, h.M);
    Tail(rs, RecordLength(h.dim, h.M, 0), h.dim);
  }

  // ---------------------------------------------------------------------
  // The index read back
  // ---------------------------------------------------------------------

  /** Where `k` first appears in `order`. */
  function Position(order: seq<int>, k: int): (p: nat)
    requires k in order
    ensures p < |order| && order[p] == k
    ensures forall q :: 0 <= q < p ==> order[q] != k
  {
    if order[0] == k then 0
    else
      var p := 1 + Position(order[1..], k);
      assert forall q :: 1 <= q < p ==> order[q] == order[1..][q - 1];
      p
  }

  lemma PositionOf(order: seq<int>, p: nat)
    requires Distinct(order) && p < |order|
    ensures Position(order, order[p]) == p
  {
  }

  /** Each registered id, mapped to its place in iteration order: the
      handle of its node object once read back. */
  function Positions(ix: Index): (pos: map<int, Handle>)
    requires MapOk(ix.nodes, ix.order, ix.store)
    ensures pos.Keys == ix.nodes.Keys
  {
    map k | k in ix.nodes :: Position(ix.order, k)
  }

  /** A written slot word read back: a link to the node object registered
      under it, or an empty slot. */
  function Relink(pos: map<int, Handle>, w: Word): (s: Slot)
    ensures s.Link? <==> w in pos
  {
    if w in pos then Link(pos[w]) else Empty
  }

  function RelinkRow(pos: map<int, Handle>, row: seq<Word>): (r: seq<Slot>)
    ensures |r| == |row| && forall j :: 0 <= j < |row| ==> r[j] == Relink(pos, row[j])
  {
    seq(|row|, j requires 0 <= j < |row| => Relink(pos, row[j]))
  }

  /** The node object the first pass makes for the `p`-th record. */
  function FreshNode(ix: Index, p: nat): Node
    requires MapOk(ix.nodes, ix.order, ix.store) && p < |ix.order|
  {
    NewNode(ix.order[p], VectorWords(NodeAt(ix, p).vector, ix.numDimensions), 0, ix.M)
  }

  /** The same node object after the second pass. */
  function Relinked(ix: Index, pos: map<int, Handle>, p: nat): Node
    requires MapOk(ix.nodes, ix.order, ix.store) && p < |ix.order|
  {
    Node(ix.order[p], VectorWords(NodeAt(ix, p).vector, ix.numDimensions), 0,
      [RelinkRow(pos, RowOf(ix.store, NodeAt(ix, p), 0, ix.M))])
  }

  /** The index `deserialize` rebuilds from what `serialize` wrote. */
  function Reloaded(ix: Index): Index
    requires MapOk(ix.nodes, ix.order, ix.store)
  {
    var pos := Positions(ix);
    var e := EntryWord(ix);
    Index(ix.metric, ix.numDimensions, ix.M, ix.ef, 0, if e in pos then Some(pos[e]) else None,
      pos, ix.order, seq(|ix.order|, p requires 0 <= p < |ix.order| => Relinked(ix, pos, p)))
  }

  // ---------------------------------------------------------------------
  // The shape of the first pass
  // ---------------------------------------------------------------------

  lemma {:induction false} FoldRecsSnoc(h: Header, st: Loaded, rs: seq<seq<Word>>, r: seq<Word>)
    requires Uniform(rs, RecordLength(h.dim, h.M, 0)) && |r| == RecordLength(h.dim, h.M, 0)
    ensures Uniform(rs + [r], RecordLength(h.dim, h.M, 0))
    ensures FoldRecs(h, st, rs + [r]) == Take(FoldRecs(h, st, rs), Parse(r, h.dim, h.M), h)
    decreases |rs|
  {
    var L := RecordLength(h.dim, h.M, 0);
    assert forall j :: 0 <= j < |rs| ==> (rs + [r])[j] == rs[j];
    if rs == [] {
      assert [r][1..] == [];
    } else {
      assert (rs + [r])[1..] == rs[1..] + [r];
      assert forall j :: 0 <= j < |rs| - 1 ==> rs[1..][j] == rs[j + 1];
      FoldRecsSnoc(h, Take(st, Parse(rs[0], h.dim, h.M), h), rs[1..], r);
    }
  }

  /** The `p`-th record carries the `p`-th registered id, at level 0. */
  lemma RecordAtFacts(ix: Index, p: nat)
    requires Portable(ix) && p < |ix.order|
    ensures RecordAt(ix, p).id == ix.order[p] && RecordAt(ix, p).level == 0
  {
    var k := ix.order[p];
    assert ix.store[ix.nodes[k]].id == k;
    assert ix.store[ix.nodes[k]].level <= 0;
  }

  /** The `p`-th record read back is the `p`-th record written. */
  lemma ParseRecord(ix: Index, p: nat)
    requires MapOk(ix.nodes, ix.order, ix.store) && p < |ix.order|
    ensures |Records(ix)[p]| == RecordLength(ix.numDimensions, ix.M, 0)
    ensures Parse(Records(ix)[p], ix.numDimensions, ix.M) == RecordAt(ix, p)
  {
    RecordParts(ix.store, NodeAt(ix, p), ix.numDimensions, ix.M);
  }

  /** The first pass after `i` records: node objects numbered by position,
      the first `i` ids registered in order, their row-0 ids kept, and the
      entry point set once the entry id has been seen. */
  ghost predicate Shaped(st: Loaded, ix: Index, i: nat)
    requires MapOk(ix.nodes, ix.order, ix.store) && i <= |ix.order|
  {
    StoreShaped(st, ix, i) && NodesShaped(st, ix, i) && RowsShaped(st, ix, i) && EntryShaped(st, ix)
  }

  ghost predicate StoreShaped(st: Loaded, ix: Index, i: nat)
    requires MapOk(ix.nodes, ix.order, ix.store) && i <= |ix.order|
  {
    && |st.store| == i && st.order == ix.order[..i] && st.maxLevel == 0
    && (forall p :: 0 <= p < i ==> st.store[p] == FreshNode(ix, p))
  }

  ghost predicate NodesShaped(st: Loaded, ix: Index, i: nat)
    requires MapOk(ix.nodes, ix.order, ix.store) && i <= |ix.order|
  {
    && (forall k :: k in st.nodes <==> k in ix.order[..i])
    && (forall p :: 0 <= p < i ==> ix.order[p] in st.nodes && st.nodes[ix.order[p]] == p)
  }

  ghost predicate RowsShaped(st: Loaded, ix: Index, i: nat)
    requires MapOk(ix.nodes, ix.order, ix.store) && i <= |ix.order|
  {
    forall p :: 0 <= p < i ==> ix.order[p] in st.rowIds && st.rowIds[ix.order[p]] == [RowOf(ix.store, NodeAt(ix, p), 0, ix.M)]
  }

  ghost predicate EntryShaped(st: Loaded, ix: Index)
  {
    st.entryPoint == if EntryWord(ix) in st.nodes then Some(st.nodes[EntryWord(ix)]) else None
  }

  lemma TakeStore(ix: Index, i: nat, st: Loaded)
    requires Portable(ix) && i < |ix.order| && StoreShaped(st, ix, i) && NodesShaped(st, ix, i)
    ensures StoreShaped(Take(st, RecordAt(ix, i), Head(ix)), ix, i + 1)
  {
    RecordAtFacts(ix, i);
    assert ix.order[..i + 1] == ix.order[..i] + [ix.order[i]];
    assert ix.order[i] !in ix.order[..i];
  }

  lemma TakeNodes(ix: Index, i: nat, st: Loaded)
    requires Portable(ix) && i < |ix.order| && StoreShaped(st, ix, i) && NodesShaped(st, ix, i)
    ensures NodesShaped(Take(st, RecordAt(ix, i), Head(ix)), ix, i + 1)
  {
    RecordAtFacts(ix, i);
    assert ix.order[..i + 1] == ix.order[..i] + [ix.order[i]];
  }

  lemma TakeRows(ix: Index, i: nat, st: Loaded)
    requires Portable(ix) && i < |ix.order| && RowsShaped(st, ix, i)
    ensures RowsShaped(Take(st, RecordAt(ix, i), Head(ix)), ix, i + 1)
  {
    RecordAtFacts(ix, i);
  }

  lemma TakeEntry(ix: Index, i: nat, st: Loaded)
    requires Portable(ix) && i < |ix.order| && StoreShaped(st, ix, i) && EntryShaped(st, ix)
    ensures EntryShaped(Take(st, RecordAt(ix, i), Head(ix)), ix)
  {
    RecordAtFacts(ix, i);
  }

  /** Taking in record `i` extends the shape by one. */
  lemma TakeShaped(ix: Index, i: nat, st: Loaded)
    requires Portable(ix) && i < |ix.order| && Shaped(st, ix, i)
    ensures Shaped(Take(st, RecordAt(ix, i), Head(ix)), ix, i + 1)
  {
    TakeStore(ix, i, st);
    TakeNodes(ix, i, st);
    TakeRows(ix, i, st);
    TakeEntry(ix, i, st);
  }

  /** The state the first pass starts from. */
  function Start(): Loaded
  {
    Loaded([], map[], [], map[], None, 0)
  }

  lemma StartShaped(ix: Index)
    requires MapOk(ix.nodes, ix.order, ix.store)
    ensures Shaped(Start(), ix, 0)
  {
  }

  /** Taking in one more record extends the fold by one `Take`. */
  lemma FoldStep(ix: Index, i: nat)
    requires Portable(ix) && i < |ix.order| && Uniform(Records(ix)[..i], RecordLength(ix.numDimensions, ix.M, 0))
    ensures Uniform(Records(ix)[..i + 1], RecordLength(ix.numDimensions, ix.M, 0))
    ensures FoldRecs(Head(ix), Start(), Records(ix)[..i + 1])
         == Take(FoldRecs(Head(ix), Start(), Records(ix)[..i]), RecordAt(ix, i), Head(ix))
  {
    var rs := Records(ix);
    ParseRecord(ix, i);
    assert rs[..i + 1] == rs[..i] + [rs[i]];
    FoldRecsSnoc(Head(ix), Start(), rs[..i], rs[i]);
  }

  /** The first pass after the first `i` records has the shape above. */
  lemma {:induction false} FoldShape(ix: Index, i: nat)
    requires Portable(ix) && i <= |ix.order|
    ensures Uniform(Records(ix)[..i], RecordLength(ix.numDimensions, ix.M, 0))
    ensures Shaped(FoldRecs(Head(ix), Start(), Records(ix)[..i]), ix, i)
  {
    if i == 0 {
      StartShaped(ix);
      assert Records(ix)[..0] == [];
    } else {
      FoldShape(ix, i - 1);
      FoldStep(ix, i - 1);
      TakeShaped(ix, i - 1, FoldRecs(Head(ix), Start(), Records(ix)[..i - 1]));
    }
  }

  /** Every record written for a portable index has level word 0. */
  lemma RecordsFlat(ix: Index)
    requires Portable(ix)
    ensures Flat(Records(ix), ix.numDimensions)
  {
    forall p | 0 <= p < |Records(ix)|
      ensures Records(ix)[p][1 + ix.numDimensions] == 0
    {
      ParseRecord(ix, p);
      RecordAtFacts(ix, p);
    }
  }

  /** The first pass over the records of a portable index. */
  lemma FirstPass(ix: Index, data: seq<Byte>)
    requires Portable(ix)
    requires WordsAt(data, HeaderSize, Flatten(Records(ix))) && |data| == HeaderSize + 4 * |Flatten(Records(ix))|
    ensures ReadRecords(data, HeaderSize, Head(ix), Start()) == Ok(FoldRecs(Head(ix), Start(), Records(ix)))
    ensures Shaped(FoldRecs(Head(ix), Start(), Records(ix)), ix, |ix.order|)
  {
    var rs := Records(ix);
    FoldShape(ix, |ix.order|);
    assert rs[..|ix.order|] == rs;
    RecordsFlat(ix);
    ReadAll(data, HeaderSize, Head(ix), Start(), rs);
  }

  // ---------------------------------------------------------------------
  // The second pass
  // ---------------------------------------------------------------------

  /** After the first pass the id map sends each id to its position. */
  lemma NodesArePositions(ix: Index, st: Loaded)
    requires Portable(ix) && NodesShaped(st, ix, |ix.order|)
    ensures st.nodes == Positions(ix)
  {
    var pos := Positions(ix);
    assert ix.order[..|ix.order|] == ix.order;
    forall k | k in st.nodes
      ensures st.nodes[k] == pos[k]
    {
      var p := Position(ix.order, k);
      PositionOf(ix.order, p);
    }
  }

  /** A fresh node object at level 0 with its one row of ids resolved. */
  lemma ResolveNew(id: int, v: Vector, M: nat, row: seq<Word>, nodes: map<int, Handle>)
    requires |row| == M
    ensures ResolveLevels(NewNode(id, v, 0, M), [row], nodes) == Ok(Node(id, v, 0, [RelinkRow(nodes, row)]))
  {
    var n := NewNode(id, v, 0, M);
    assert [row][..0] == [];
    var r := ResolveRow(n.neighbors[0], row, nodes);
    assert r == RelinkRow(nodes, row);
    assert n.(neighbors := n.neighbors[0 := r]) == Node(id, v, 0, [r]);
  }

  /** The node objects once the first `i` ids have been resolved. */
  function Partly(ix: Index, pos: map<int, Handle>, i: nat): seq<Node>
    requires MapOk(ix.nodes, ix.order, ix.store)
  {
    seq(|ix.order|, p requires 0 <= p < |ix.order| => if p < i then Relinked(ix, pos, p) else FreshNode(ix, p))
  }

  /** Before the second pass no id is resolved. */
  lemma NoneResolved(ix: Index, st: Loaded)
    requires MapOk(ix.nodes, ix.order, ix.store) && StoreShaped(st, ix, |ix.order|)
    ensures st.store == Partly(ix, st.nodes, 0)
  {
  }

  /** One step of the second pass: the last key's node object is resolved. */
  lemma ResolveAllStep(store: seq<Node>, nodes: map<int, Handle>, rowIds: map<int, seq<seq<Word>>>, keys: seq<int>, prev: seq<Node>, n: Node)
    requires keys != [] && ResolveAll(store, nodes, rowIds, keys[..|keys| - 1]) == Ok(prev)
    requires keys[|keys| - 1] in nodes && nodes[keys[|keys| - 1]] < |prev| && keys[|keys| - 1] in rowIds
    requires ResolveLevels(prev[nodes[keys[|keys| - 1]]], rowIds[keys[|keys| - 1]], nodes) == Ok(n)
    ensures ResolveAll(store, nodes, rowIds, keys) == Ok(prev[nodes[keys[|keys| - 1]] := n])
  {
  }

  /** One more id resolved. */
  lemma ResolveOne(ix: Index, st: Loaded, i: nat)
    requires MapOk(ix.nodes, ix.order, ix.store) && i < |ix.order|
    requires NodesShaped(st, ix, |ix.order|) && RowsShaped(st, ix, |ix.order|)
    ensures ix.order[i] in st.nodes && st.nodes[ix.order[i]] == i && ix.order[i] in st.rowIds
    ensures |Partly(ix, st.nodes, i)| == |ix.order|
    ensures ResolveLevels(Partly(ix, st.nodes, i)[i], st.rowIds[ix.order[i]], st.nodes) == Ok(Relinked(ix, st.nodes, i))
    ensures Partly(ix, st.nodes, i)[i := Relinked(ix, st.nodes, i)] == Partly(ix, st.nodes, i + 1)
  {
    ResolveNew(ix.order[i], VectorWords(NodeAt(ix, i).vector, ix.numDimensions), ix.M, RowOf(ix.store, NodeAt(ix, i), 0, ix.M), st.nodes);
  }

  /** The second pass over the first `i` ids. */
  lemma {:induction false} ResolvePrefix(ix: Index, st: Loaded, i: nat)
    requires MapOk(ix.nodes, ix.order, ix.store) && i <= |ix.order| && st.store == Partly(ix, st.nodes, 0)
    requires NodesShaped(st, ix, |ix.order|) && RowsShaped(st, ix, |ix.order|)
    ensures ResolveAll(st.store, st.nodes, st.rowIds, ix.order[..i]) == Ok(Partly(ix, st.nodes, i))
  {
    if i == 0 {
      assert ix.order[..0] == [];
    } else {
      ResolvePrefix(ix, st, i - 1);
      assert ix.order[..i][..i - 1] == ix.order[..i - 1];
      ResolveOne(ix, st, i - 1);
      ResolveAllStep(st.store, st.nodes, st.rowIds, ix.order[..i], Partly(ix, st.nodes, i - 1), Relinked(ix, st.nodes, i - 1));
    }
  }

  // ---------------------------------------------------------------------
  // The round trip
  // ---------------------------------------------------------------------

  /** The header words of a portable index read back as its header. */
  lemma HeaderBack(ix: Index, data: seq<Byte>)
    requires Fits(ix) && 1 <= |data| && data[0] == MetricTag(ix.metric) && WordsAt(data, 1, HeaderWords(ix))
    ensures ReadHeader(data) == Ok(Head(ix))
  {
    HeaderAt(data, HeaderWords(ix));
  }

  lemma AllResolved(ix: Index)
    requires MapOk(ix.nodes, ix.order, ix.store)
    ensures Partly(ix, Positions(ix), |ix.order|) == Reloaded(ix).store
  {
  }

  /** What `deserialize` returns once each of its steps has succeeded. */
  lemma DecodeOk(data: seq<Byte>, h: Header, st: Loaded, store: seq<Node>)
    requires ReadHeader(data) == Ok(h) && ReadRecords(data, HeaderSize, h, Start()) == Ok(st)
    requires ResolveAll(st.store, st.nodes, st.rowIds, st.order) == Ok(store)
    ensures Decode(data) == Ok(Index(h.metric, h.dim, h.M, h.ef, st.maxLevel, st.entryPoint, st.nodes, st.order, store))
  {
  }

  /** The second pass over the state the first pass leaves. */
  lemma SecondPass(ix: Index, st: Loaded)
    requires Portable(ix) && Shaped(st, ix, |ix.order|)
    ensures ResolveAll(st.store, st.nodes, st.rowIds, st.order) == Ok(Reloaded(ix).store)
    ensures st.nodes == Reloaded(ix).nodes && st.entryPoint == Reloaded(ix).entryPoint
    ensures st.order == ix.order && st.maxLevel == 0
  {
    var n := |ix.order|;
    NodesArePositions(ix, st);
    NoneResolved(ix, st);
    ResolvePrefix(ix, st, n);
    assert ix.order[..n] == ix.order;
    AllResolved(ix);
  }

  /** Four header words after the tag byte, then the body up to the end
      of the data. */
  lemma WordsAtHeader(data: seq<Byte>, hw: seq<Word>, body: seq<Word>)
    requires |hw| == 4 && WordsAt(data, 1, hw + body) && |data| == 1 + 4 * |hw + body|
    ensures WordsAt(data, 1, hw) && WordsAt(data, HeaderSize, body) && |data| == HeaderSize + 4 * |body|
  {
    WordsAtSplit(data, 1, hw, body);
  }

  /** The header words, then the records from byte `HeaderSize` on to the
      end of the data. */
  lemma SplitWords(ix: Index, data: seq<Byte>)
    requires MapOk(ix.nodes, ix.order, ix.store) && Fits(ix)
    requires |data| == 1 + 4 * |Words(ix)| && data[0] == MetricTag(ix.metric) && WordsAt(data, 1, Words(ix))
    ensures ReadHeader(data) == Ok(Head(ix))
    ensures WordsAt(data, HeaderSize, Flatten(Records(ix))) && |data| == HeaderSize + 4 * |Flatten(Records(ix))|
  {
    WordsFlat(ix);
    WordsAtHeader(data, HeaderWords(ix), Flatten(Records(ix)));
    HeaderBack(ix, data);
  }

  /** The header and the first pass over the tag byte and the words
      `serialize` writes. */
  lemma ReadBack(ix: Index, data: seq<Byte>)
    requires Portable(ix)
    requires |data| == 1 + 4 * |Words(ix)| && data[0] == MetricTag(ix.metric) && WordsAt(data, 1, Words(ix))
    ensures ReadHeader(data) == Ok(Head(ix))
    ensures ReadRecords(data, HeaderSize, Head(ix), Start()) == Ok(FoldRecs(Head(ix), Start(), Records(ix)))
    ensures Shaped(FoldRecs(Head(ix), Start(), Records(ix)), ix, |ix.order|)
  {
    SplitWords(ix, data);
    FirstPass(ix, data);
  }

  /** Data holding the tag byte and the words `serialize` writes decodes to
      the index read back. */
  lemma DecodeWords(ix: Index, data: seq<Byte>)
    requires Portable(ix)
    requires |data| == 1 + 4 * |Words(ix)| && data[0] == MetricTag(ix.metric) && WordsAt(data, 1, Words(ix))
    ensures Decode(data) == Ok(Reloaded(ix))
  {
    ReadBack(ix, data);
    var st := FoldRecs(Head(ix), Start(), Records(ix));
    SecondPass(ix, st);
    DecodeOk(data, Head(ix), st, Reloaded(ix).store);
  }

  /** Every node object of a valid index has row 0, so `serialize` does not
      throw at level 0. */
  lemma WritableAtZero(ix: Index)
    requires Valid(ix)
    ensures Writable(InOrder(ix.nodes, ix.order, ix.store), ix.M, 0)
  {
    var ns := InOrder(ix.nodes, ix.order, ix.store);
    WritableAll(ns, ix.M, 0);
    forall i | 0 <= i < |ns|
      ensures HasRows(ns[i], ix.M, 1)
    {
      assert NodeOk(ix.store[ix.nodes[ix.order[i]]], |ix.store|, ix.M);
    }
  }

  /** `deserialize(serialize())` on a portable index: `serialize` does not
      throw, and `deserialize` gives back the index read back: the same
      metric, parameters and ids in the same order, and each node object's
      vector and row 0 rebuilt by id. */
  lemma RoundTrip(ix: Index)
    requires Portable(ix)
    ensures Encode(ix).Ok? && Decode(Encode(ix).value) == Ok(Reloaded(ix))
  {
    WritableAtZero(ix);
    var tag := [MetricTag(ix.metric)];
    var data := tag + Le(Words(ix));
    assert Encode(ix) == Ok(data);
    WordsAtLe(tag, Words(ix), []);
    assert tag + Le(Words(ix)) + [] == data;
    DecodeWords(ix, data);
  }

  // ---------------------------------------------------------------------
  // What the index read back keeps
  // ---------------------------------------------------------------------

  /** The id map read back sends the `p`-th id to handle `p`. */
  lemma PositionsAt(ix: Index, p: nat)
    requires MapOk(ix.nodes, ix.order, ix.store) && p < |ix.order|
    ensures ix.order[p] in Positions(ix) && Positions(ix)[ix.order[p]] == p
  {
    PositionOf(ix.order, p);
  }

  /** The node object read back for the `p`-th id. */
  lemma ReloadedNode(ix: Index, p: nat)
    requires MapOk(ix.nodes, ix.order, ix.store) && p < |ix.order|
    ensures var n := Reloaded(ix).store[p];
      && n.id == ix.order[p] && n.level == 0 && n.vector == VectorWords(NodeAt(ix, p).vector, ix.numDimensions)
      && |n.neighbors| == 1 && |n.neighbors[0]| == ix.M
      && forall j :: 0 <= j < ix.M ==> n.neighbors[0][j] == Relink(Positions(ix), RowOf(ix.store, NodeAt(ix, p), 0, ix.M)[j])
  {
  }

  /** The id map read back is well formed over the node objects read back. */
  lemma ReloadedMapOk(ix: Index)
    requires MapOk(ix.nodes, ix.order, ix.store)
    ensures MapOk(Reloaded(ix).nodes, Reloaded(ix).order, Reloaded(ix).store)
  {
    var r := Reloaded(ix);
    forall k | k in r.nodes
      ensures r.nodes[k] < |r.store| && r.store[r.nodes[k]].id == k
    {
      ReloadedNode(ix, Position(ix.order, k));
    }
  }

  /** Every node object read back holds one row of `M` slots whose links
      are handles of node objects read back. */
  lemma ReloadedStoreOk(ix: Index)
    requires MapOk(ix.nodes, ix.order, ix.store)
    ensures StoreOk(Reloaded(ix).store, ix.M)
  {
    var r := Reloaded(ix);
    forall p | 0 <= p < |r.store|
      ensures NodeOk(r.store[p], |r.store|, ix.M)
    {
      ReloadedNode(ix, p);
    }
  }

  /** A portable index reads back as a portable index. */
  lemma ReloadedPortable(ix: Index)
    requires Portable(ix)
    ensures Portable(Reloaded(ix))
  {
    var r := Reloaded(ix);
    ReloadedMapOk(ix);
    ReloadedStoreOk(ix);
    if r.entryPoint.Some? {
      ReloadedNode(ix, r.entryPoint.value);
    }
    forall k | k in r.nodes
      ensures r.store[r.nodes[k]].level <= 0
    {
      ReloadedNode(ix, Position(ix.order, k));
    }
  }

  /** Slot `j` of row 0 read back links exactly when the id written for it
      is registered, and then to the node object read back for that id. */
  lemma ReloadedLink(ix: Index, p: nat, j: nat)
    requires MapOk(ix.nodes, ix.order, ix.store) && p < |ix.order| && j < ix.M
    ensures var s := Reloaded(ix).store[p].neighbors[0][j];
      var w := SlotWord(ix.store, if 0 < |NodeAt(ix, p).neighbors| then NodeAt(ix, p).neighbors[0] else [], j);
      && (s.Link? <==> w in ix.nodes)
      && (s.Link? ==> s.target < |ix.order| && Reloaded(ix).store[s.target].id == w)
  {
    ReloadedNode(ix, p);
    ReloadedMapOk(ix);
  }

  /** A link in row 0 to a node object registered under its id reads back
      as a link to the node object read back for that id; an empty or
      vacated slot reads back as an empty one. */
  lemma ReloadedLinkById(ix: Index, p: nat, j: nat)
    requires Portable(ix) && p < |ix.order| && j < ix.M && j < |NodeAt(ix, p).neighbors[0]|
    ensures var s := Reloaded(ix).store[p].neighbors[0][j];
      var was := NodeAt(ix, p).neighbors[0][j];
      && (was.Link? && ix.store[was.target].id in ix.nodes ==>
            s.Link? && Reloaded(ix).store[s.target].id == ix.store[was.target].id)
      && (!was.Link? ==> s == Empty)
  {
    ReloadedLink(ix, p, j);
    var was := NodeAt(ix, p).neighbors[0][j];
    assert NodeOk(NodeAt(ix, p), |ix.store|, ix.M);
    if was.Link? && ix.store[was.target].id in ix.nodes {
      assert ToUint32(ix.store[was.target].id) == ix.store[was.target].id;
    }
    if !was.Link? {
      assert NoId !in Positions(ix);
    }
  }

  /** Writing a vector that has already been written changes nothing. */
  lemma VectorWordsTwice(v: Vector, dim: nat)
    ensures VectorWords(VectorWords(v, dim), dim) == VectorWords(v, dim)
  {
  }

  /** The ids read back map to the same positions again. */
  lemma PositionsTwice(ix: Index)
    requires MapOk(ix.nodes, ix.order, ix.store)
    ensures MapOk(Reloaded(ix).nodes, Reloaded(ix).order, Reloaded(ix).store)
    ensures Positions(Reloaded(ix)) == Positions(ix)
  {
    ReloadedMapOk(ix);
  }

  /** Row 0 of a node object read back, written and read back once more. */
  lemma RowTwice(ix: Index, p: nat)
    requires Portable(ix) && p < |ix.order|
    ensures var r := Reloaded(ix);
      RelinkRow(Positions(ix), RowOf(r.store, r.store[p], 0, ix.M))
        == RelinkRow(Positions(ix), RowOf(ix.store, NodeAt(ix, p), 0, ix.M))
  {
    var r := Reloaded(ix);
    var pos := Positions(ix);
    var w := RowOf(ix.store, NodeAt(ix, p), 0, ix.M);
    var w2 := RowOf(r.store, r.store[p], 0, ix.M);
    ReloadedNode(ix, p);
    ReloadedMapOk(ix);
    forall j | 0 <= j < ix.M
      ensures Relink(pos, w2[j]) == Relink(pos, w[j])
    {
      if w[j] !in pos {
        assert NoId !in pos;
      }
    }
  }

  /** The entry point read back, read back once more. */
  lemma EntryTwice(ix: Index)
    requires Portable(ix)
    ensures var r := Reloaded(ix);
      var e := EntryWord(r);
      (if e in Positions(ix) then Some(Positions(ix)[e]) else None) == r.entryPoint
  {
    var r := Reloaded(ix);
    ReloadedMapOk(ix);
    assert NoId !in Positions(ix);
    if r.entryPoint.Some? {
      ReloadedNode(ix, r.entryPoint.value);
    }
  }

  /** A node object read back reads back as itself. */
  lemma NodeTwice(ix: Index, p: nat)
    requires Portable(ix) && p < |ix.order|
    ensures MapOk(Reloaded(ix).nodes, Reloaded(ix).order, Reloaded(ix).store)
    ensures Relinked(Reloaded(ix), Positions(Reloaded(ix)), p) == Reloaded(ix).store[p]
  {
    PositionsTwice(ix);
    ReloadedNode(ix, p);
    PositionsAt(ix, p);
    VectorWordsTwice(NodeAt(ix, p).vector, ix.numDimensions);
    RowTwice(ix, p);
  }

  /** A second round trip changes nothing: the index read back reads back
      as itself. */
  lemma ReloadedFixed(ix: Index)
    requires Portable(ix)
    ensures Portable(Reloaded(ix)) && Reloaded(Reloaded(ix)) == Reloaded(ix)
  {
    var r := Reloaded(ix);
    ReloadedPortable(ix);
    PositionsTwice(ix);
    EntryTwice(ix);
    forall p | 0 <= p < |ix.order|
      ensures Reloaded(r).store[p] == r.store[p]
    {
      NodeTwice(ix, p);
    }
  }

  /** What `getSize`, `getEntryPoint` and `getMaxLevel` report is kept: as
      many registered ids, no entry point read back from none, the entry
      point read back under the id of a registered entry point, and level 0. */
  lemma ReloadedObservables(ix: Index)
    requires Portable(ix)
    ensures |Reloaded(ix).nodes| == |ix.nodes| && Reloaded(ix).maxLevel == ix.maxLevel
    ensures ix.entryPoint.None? ==> Reloaded(ix).entryPoint.None?
    ensures ix.entryPoint.Some? && ix.store[ix.entryPoint.value].id in ix.nodes ==>
      && Reloaded(ix).entryPoint.Some? && Reloaded(ix).entryPoint.value < |Reloaded(ix).store|
      && Reloaded(ix).store[Reloaded(ix).entryPoint.value].id == ix.store[ix.entryPoint.value].id
  {
    ReloadedMapOk(ix);
    MapSize(ix.nodes, ix.order, ix.store);
    MapSize(Reloaded(ix).nodes, Reloaded(ix).order, Reloaded(ix).store);
    if ix.entryPoint.Some? && ix.store[ix.entryPoint.value].id in ix.nodes {
      var k := ix.store[ix.entryPoint.value].id;
      assert EntryWord(ix) == k;
      ReloadedNode(ix, Position(ix.order, k));
    }
  }
}
