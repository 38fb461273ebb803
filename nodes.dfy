/**
 * The change feed as the workspace readers see it: the nodes a window of
 * transactions changed, the order they are processed in, which of them are
 * skipped, how metadata is paired with them and the audit record built from
 * each pair (AlfrescoWorkspaceRestReader, both copies).
 */
module Nodes {
  import opened Wrappers
  import opened Text
  import opened Values

  /** AlfrescoNode: a node changed by a transaction; status "d" marks a deletion. */
  datatype Node = Node(id: int, txnId: int, nodeRef: string, status: Option<string>)

  /** AlfrescoNodeMetadata: the details the metadata query returns for a node (null fields are None). */
  datatype NodeMetadata = NodeMetadata(
    id: int,
    txnId: int,
    nodeRef: Option<string>,
    nodeType: Option<string>,
    properties: Option<map<string, Value>>,
    aspects: Option<seq<string>>)

  // ------------------------------------------------------------ ordering

  /** The current reader's comparator on transaction ids (value equality first). */
  function CompareTxn(a: int, b: int): int
  {
    if a == b then 0 else if a > b then 1 else -1
  }

  /** The comparator is a total order: antisymmetric, and it agrees with <=. */
  lemma CompareTxnIsOrder(a: int, b: int)
    ensures CompareTxn(a, b) == -CompareTxn(b, a)
    ensures CompareTxn(a, b) <= 0 <==> a <= b
    ensures CompareTxn(a, b) == 0 <==> a == b
  {
  }

  /**
   * `==` on two boxed Longs: Long.valueOf shares the objects of -128..127
   * only, so equal values outside that range are different objects.
   */
  predicate SameBoxedLong(a: int, b: int)
  {
    a == b && -128 <= a <= 127
  }

  /** The older reader's comparator as written: `==` on the boxed transaction ids. */
  function CompareTxnAsWritten(a: int, b: int): int
  {
    if SameBoxedLong(a, b) then 0 else if a > b then 1 else -1
  }

  /** Two nodes of transaction 1000 each compare below the other: the comparator breaks its contract. */
  lemma CompareTxnAsWrittenNotAntisymmetric()
    ensures CompareTxnAsWritten(1000, 1000) == -1
    ensures CompareTxnAsWritten(1000, 1000) != -CompareTxnAsWritten(1000, 1000)
    ensures CompareTxn(1000, 1000) == 0
  {
  }

  /** Inside the cached range the two comparators agree. */
  lemma CompareTxnAsWrittenInCache(a: int, b: int)
    requires -128 <= a <= 127
    ensures CompareTxnAsWritten(a, b) == CompareTxn(a, b)
  {
  }

  /** Places x before the first node whose transaction does not precede x's. */
  function InsertByTxn(x: Node, s: seq<Node>): (r: seq<Node>)
    ensures |r| == |s| + 1
  {
    if s == [] || CompareTxn(x.txnId, s[0].txnId) <= 0 then [x] + s
    else [s[0]] + InsertByTxn(x, s[1..])
  }

  /** List.sort with the transaction comparator (a stable sort), as an insertion sort. */
  function SortByTxn(s: seq<Node>): (r: seq<Node>)
    ensures |r| == |s|
  {
    if s == [] then [] else InsertByTxn(s[0], SortByTxn(s[1..]))
  }

  predicate SortedByTxn(s: seq<Node>)
  {
    forall i, j :: 0 <= i < j < |s| ==> s[i].txnId <= s[j].txnId
  }

  /** The nodes of one transaction, in list order. */
  function WithTxn(s: seq<Node>, t: int): seq<Node>
  {
    if s == [] then [] else (if s[0].txnId == t then [s[0]] else []) + WithTxn(s[1..], t)
  }

  lemma WithTxnCons(x: Node, s: seq<Node>, t: int)
    ensures WithTxn([x] + s, t) == (if x.txnId == t then [x] else []) + WithTxn(s, t)
  {
    assert ([x] + s)[1..] == s;
  }

  /** A non-empty list has nodes with its first node's transaction. */
  lemma WithTxnOfHead(s: seq<Node>)
    ensures s != [] ==> WithTxn(s, s[0].txnId) != [] && WithTxn([], s[0].txnId) == []
  {
  }

  lemma {:induction false} InsertByTxnPermutes(x: Node, s: seq<Node>)
    ensures multiset(InsertByTxn(x, s)) == multiset(s) + multiset{x}
    decreases |s|
  {
    if s != [] && CompareTxn(x.txnId, s[0].txnId) > 0 {
      InsertByTxnPermutes(x, s[1..]);
      assert s == [s[0]] + s[1..];
    }
  }

  lemma {:induction false} InsertByTxnStable(x: Node, s: seq<Node>, t: int)
    ensures WithTxn(InsertByTxn(x, s), t) == (if x.txnId == t then [x] else []) + WithTxn(s, t)
    decreases |s|
  {
    if s == [] || CompareTxn(x.txnId, s[0].txnId) <= 0 {
      WithTxnCons(x, s, t);
    } else {
      var rest := InsertByTxn(x, s[1..]);
      InsertByTxnStable(x, s[1..], t);
      assert s == [s[0]] + s[1..];
      WithTxnCons(s[0], rest, t);
      WithTxnCons(s[0], s[1..], t);
      if x.txnId == t {
        assert s[0].txnId != t;
      }
    }
  }

  lemma {:induction false} InsertByTxnSorted(x: Node, s: seq<Node>)
    requires SortedByTxn(s)
    ensures SortedByTxn(InsertByTxn(x, s))
    ensures InsertByTxn(x, s)[0] == (if s == [] || x.txnId <= s[0].txnId then x else s[0])
    decreases |s|
  {
    if s != [] && CompareTxn(x.txnId, s[0].txnId) > 0 {
      SortedTail(s);
      InsertByTxnSorted(x, s[1..]);
      var rest := InsertByTxn(x, s[1..]);
      assert s[0].txnId <= rest[0].txnId;
      var r := [s[0]] + rest;
      forall i, j | 0 <= i < j < |r| ensures r[i].txnId <= r[j].txnId {
        assert r[j] == rest[j - 1];
        if i > 0 {
          assert r[i] == rest[i - 1];
        } else if j > 1 {
          assert rest[0].txnId <= rest[j - 1].txnId;
        }
      }
    }
  }

  /**
   * The model of the sort: ordered by transaction, a permutation of the
   * input, and the nodes of each transaction keep their relative order.
   */
  lemma SortByTxnSpec(s: seq<Node>)
    ensures SortedByTxn(SortByTxn(s))
    ensures multiset(SortByTxn(s)) == multiset(s)
    ensures forall t :: WithTxn(SortByTxn(s), t) == WithTxn(s, t)
  {
    SortByTxnSorted(s);
    SortByTxnPermutes(s);
    forall t ensures WithTxn(SortByTxn(s), t) == WithTxn(s, t) {
      SortByTxnStable(s, t);
    }
  }

  lemma {:induction false} SortByTxnSorted(s: seq<Node>)
    ensures SortedByTxn(SortByTxn(s))
    decreases |s|
  {
    if s != [] {
      SortByTxnSorted(s[1..]);
      InsertByTxnSorted(s[0], SortByTxn(s[1..]));
    }
  }

  lemma {:induction false} SortByTxnPermutes(s: seq<Node>)
    ensures multiset(SortByTxn(s)) == multiset(s)
    decreases |s|
  {
    if s != [] {
      SortByTxnPermutes(s[1..]);
      InsertByTxnPermutes(s[0], SortByTxn(s[1..]));
      assert s == [s[0]] + s[1..];
    }
  }

  lemma {:induction false} SortByTxnStable(s: seq<Node>, t: int)
    ensures WithTxn(SortByTxn(s), t) == WithTxn(s, t)
    decreases |s|
  {
    if s != [] {
      SortByTxnStable(s[1..], t);
      InsertByTxnStable(s[0], SortByTxn(s[1..]), t);
      assert s == [s[0]] + s[1..];
      WithTxnCons(s[0], s[1..], t);
    }
  }

  /** In an ordered list, a transaction below the first one has no nodes. */
  lemma {:induction false} WithTxnBelowHead(u: seq<Node>, t: int)
    requires SortedByTxn(u) && u != [] && t < u[0].txnId
    ensures WithTxn(u, t) == []
    decreases |u|
  {
    if |u| > 1 {
      assert SortedByTxn(u[1..]) by {
        forall i, j | 0 <= i < j < |u[1..]| ensures u[1..][i].txnId <= u[1..][j].txnId {
          assert u[1..][i] == u[i + 1] && u[1..][j] == u[j + 1];
        }
      }
      WithTxnBelowHead(u[1..], t);
    }
  }

  lemma SortedTail(u: seq<Node>)
    requires SortedByTxn(u) && u != []
    ensures SortedByTxn(u[1..])
  {
    forall i, j | 0 <= i < j < |u[1..]| ensures u[1..][i].txnId <= u[1..][j].txnId {
      assert u[1..][i] == u[i + 1] && u[1..][j] == u[j + 1];
    }
  }

  /** Two ordered lists with the same nodes per transaction, in the same order, are equal. */
  lemma {:induction false} StableOrderIsUnique(u: seq<Node>, v: seq<Node>)
    requires SortedByTxn(u) && SortedByTxn(v)
    requires forall t :: WithTxn(u, t) == WithTxn(v, t)
    ensures u == v
    decreases |u| + |v|
  {
    if u == [] && v == [] {
    } else if u == [] {
      WithTxnOfHead(v);
      assert false;
    } else if v == [] {
      WithTxnOfHead(u);
      assert false;
    } else {
      assert u == [u[0]] + u[1..];
      assert v == [v[0]] + v[1..];
      WithTxnCons(u[0], u[1..], u[0].txnId);
      WithTxnCons(v[0], v[1..], v[0].txnId);
      if u[0].txnId < v[0].txnId {
        WithTxnBelowHead(v, u[0].txnId);
        assert false;
      } else if v[0].txnId < u[0].txnId {
        WithTxnBelowHead(u, v[0].txnId);
        assert false;
      }
      assert u[0] == WithTxn(u, u[0].txnId)[0] == WithTxn(v, u[0].txnId)[0] == v[0];
      SortedTail(u);
      SortedTail(v);
      forall t ensures WithTxn(u[1..], t) == WithTxn(v[1..], t) {
        WithTxnCons(u[0], u[1..], t);
        WithTxnCons(v[0], v[1..], t);
        var head := if u[0].txnId == t then [u[0]] else [];
        assert (head + WithTxn(u[1..], t))[|head|..] == WithTxn(u[1..], t);
        assert (head + WithTxn(v[1..], t))[|head|..] == WithTxn(v[1..], t);
      }
      StableOrderIsUnique(u[1..], v[1..]);
    }
  }

  /** Any stable sort by transaction gives exactly SortByTxn's result. */
  lemma StableSortIsSortByTxn(s: seq<Node>, sorted: seq<Node>)
    requires SortedByTxn(sorted)
    requires forall t :: WithTxn(sorted, t) == WithTxn(s, t)
    ensures sorted == SortByTxn(s)
  {
    SortByTxnSpec(s);
    StableOrderIsUnique(sorted, SortByTxn(s));
  }

  // ------------------------------------------------------------- skipping

  /** Only nodes of this store are read. */
  const WORKSPACE_STORE: string := "workspace://SpacesStore/"

  /**
   * shouldSkipLivedataNode: nodes of other stores, of transactions before
   * the watermark, and of the watermark's transaction up to its node id.
   */
  predicate ShouldSkip(n: Node, skipToTxId: Option<int>, skipToNodeId: Option<int>)
  {
    !StartsWith(n.nodeRef, WORKSPACE_STORE)
    || (skipToTxId.Some? && skipToTxId.value > n.txnId)
    || (skipToTxId.Some? && skipToNodeId.Some? && skipToTxId.value == n.txnId && skipToNodeId.value >= n.id)
  }

  /** The older reader's filter as written: the same-transaction test is `==` on boxed Longs. */
  predicate ShouldSkipAsWritten(n: Node, skipToTxId: Option<int>, skipToNodeId: Option<int>)
  {
    !StartsWith(n.nodeRef, WORKSPACE_STORE)
    || (skipToTxId.Some? && skipToTxId.value > n.txnId)
    || (skipToTxId.Some? && skipToNodeId.Some? && SameBoxedLong(skipToTxId.value, n.txnId) && skipToNodeId.value >= n.id)
  }

  /** A node survives exactly when it is in the store and strictly after the watermark (txn, node). */
  lemma SurvivesIffAfterWatermark(n: Node, t: int, id: int)
    ensures !ShouldSkip(n, Some(t), Some(id)) <==>
      (StartsWith(n.nodeRef, WORKSPACE_STORE) && (n.txnId > t || (n.txnId == t && n.id > id)))
    ensures !ShouldSkip(n, None, None) <==> StartsWith(n.nodeRef, WORKSPACE_STORE)
  {
  }

  /** With the watermark at transaction 1000, node 3 of that transaction, already read, is read again. */
  lemma SkipAsWrittenRereadsWatermark()
    ensures var n := Node(3, 1000, WORKSPACE_STORE + "a", None);
      !ShouldSkipAsWritten(n, Some(1000), Some(5)) && ShouldSkip(n, Some(1000), Some(5))
  {
    var n := Node(3, 1000, WORKSPACE_STORE + "a", None);
    assert n.nodeRef[..|WORKSPACE_STORE|] == WORKSPACE_STORE;
  }

  /** Inside the cached range the written filter is the intended one. */
  lemma SkipAsWrittenInCache(n: Node, skipToTxId: Option<int>, skipToNodeId: Option<int>)
    requires -128 <= n.txnId <= 127
    ensures ShouldSkipAsWritten(n, skipToTxId, skipToNodeId) == ShouldSkip(n, skipToTxId, skipToNodeId)
  {
  }

  /**
   * The node part of the watermark that the written filter applies: `==` on
   * the boxed ids matches the watermark transaction only inside the Long
   * cache, so outside it the node id is never consulted.
   */
  function BoxedNodeWatermark(skipToTxId: Option<int>, skipToNodeId: Option<int>): Option<int>
  {
    if skipToTxId.Some? && -128 <= skipToTxId.value <= 127 then skipToNodeId else None
  }

  /** The written filter is the intended one with the node watermark dropped outside the Long cache. */
  lemma SkipAsWrittenIsShouldSkip(n: Node, skipToTxId: Option<int>, skipToNodeId: Option<int>)
    ensures ShouldSkipAsWritten(n, skipToTxId, skipToNodeId) ==
      ShouldSkip(n, skipToTxId, BoxedNodeWatermark(skipToTxId, skipToNodeId))
  {
  }

  /** The nodes that are not skipped, in list order. */
  function Survivors(nodes: seq<Node>, skipToTxId: Option<int>, skipToNodeId: Option<int>): (r: seq<Node>)
    ensures |r| <= |nodes|
    ensures forall n :: n in r ==> n in nodes && !ShouldSkip(n, skipToTxId, skipToNodeId)
  {
    if nodes == [] then []
    else
      var front := Survivors(nodes[..|nodes| - 1], skipToTxId, skipToNodeId);
      var last := nodes[|nodes| - 1];
      if ShouldSkip(last, skipToTxId, skipToNodeId) then front else front + [last]
  }

  /** Every node that is not skipped survives. */
  lemma {:induction false} SurvivorsComplete(nodes: seq<Node>, skipToTxId: Option<int>, skipToNodeId: Option<int>, n: Node)
    requires n in nodes && !ShouldSkip(n, skipToTxId, skipToNodeId)
    ensures n in Survivors(nodes, skipToTxId, skipToNodeId)
    decreases |nodes|
  {
    var front := nodes[..|nodes| - 1];
    assert nodes == front + [nodes[|nodes| - 1]];
    if n != nodes[|nodes| - 1] {
      SurvivorsComplete(front, skipToTxId, skipToNodeId, n);
    }
  }

  /** The metadata standing in for a deleted node: its ref, id and transaction only. */
  function DeletedStub(n: Node): NodeMetadata
  {
    NodeMetadata(n.id, n.txnId, Some(n.nodeRef), None, None, None)
  }

  /** fetchDeletedNodesMetadata: a stub for each surviving node whose status is "d", in list order. */
  function DeletedMetadata(nodes: seq<Node>, skipToTxId: Option<int>, skipToNodeId: Option<int>): (r: seq<NodeMetadata>)
  {
    if nodes == [] then []
    else
      var front := DeletedMetadata(nodes[..|nodes| - 1], skipToTxId, skipToNodeId);
      var last := nodes[|nodes| - 1];
      if !ShouldSkip(last, skipToTxId, skipToNodeId) && last.status == Some("d") then front + [DeletedStub(last)] else front
  }

  /** The stubs of the surviving deleted nodes, in their order. */
  function StubsOfDeleted(survivors: seq<Node>): seq<NodeMetadata>
  {
    if survivors == [] then []
    else
      var front := StubsOfDeleted(survivors[..|survivors| - 1]);
      var last := survivors[|survivors| - 1];
      if last.status == Some("d") then front + [DeletedStub(last)] else front
  }

  /** The deleted-node stubs are exactly those of the surviving nodes marked deleted. */
  lemma {:induction false} DeletedMetadataOfSurvivors(nodes: seq<Node>, skipToTxId: Option<int>, skipToNodeId: Option<int>)
    ensures DeletedMetadata(nodes, skipToTxId, skipToNodeId) == StubsOfDeleted(Survivors(nodes, skipToTxId, skipToNodeId))
    decreases |nodes|
  {
    if nodes != [] {
      var front := nodes[..|nodes| - 1];
      DeletedMetadataOfSurvivors(front, skipToTxId, skipToNodeId);
      var s := Survivors(front, skipToTxId, skipToNodeId);
      var last := nodes[|nodes| - 1];
      if !ShouldSkip(last, skipToTxId, skipToNodeId) {
        assert (s + [last])[..|s + [last]| - 1] == s;
      }
    }
  }

  // -------------------------------------------------------------- pairing

  /** The ids of the surviving nodes, in order (the metadata query's nodeIds). */
  function Ids(ns: seq<Node>): (r: seq<int>)
    ensures |r| == |ns| && forall i :: 0 <= i < |ns| ==> r[i] == ns[i].id
  {
    seq(|ns|, i requires 0 <= i < |ns| => ns[i].id)
  }

  /** The nodes with one id, in list order. */
  function WithId(ns: seq<Node>, id: int): seq<Node>
  {
    if ns == [] then []
    else
      var front := WithId(ns[..|ns| - 1], id);
      if ns[|ns| - 1].id == id then front + [ns[|ns| - 1]] else front
  }

  /** nodesMap: each id's nodes appended in list order (LinkedMultiValueMap.add). */
  function Queues(ns: seq<Node>): map<int, seq<Node>>
  {
    if ns == [] then map[]
    else
      var q := Queues(ns[..|ns| - 1]);
      var last := ns[|ns| - 1];
      q[last.id := (if last.id in q then q[last.id] else []) + [last]]
  }

  /** The queue of an id holds that id's nodes in order; ids without nodes have no queue. */
  lemma {:induction false} QueuesSpec(ns: seq<Node>, id: int)
    ensures id in Queues(ns) <==> WithId(ns, id) != []
    ensures id in Queues(ns) ==> Queues(ns)[id] == WithId(ns, id)
    decreases |ns|
  {
    if ns != [] {
      QueuesSpec(ns[..|ns| - 1], id);
    }
  }

  /** Survivors of one more node: the node is appended unless it is skipped. */
  lemma SurvivorsSnoc(nodes: seq<Node>, skipToTxId: Option<int>, skipToNodeId: Option<int>, i: nat)
    requires i < |nodes|
    ensures Survivors(nodes[..i + 1], skipToTxId, skipToNodeId) ==
      if ShouldSkip(nodes[i], skipToTxId, skipToNodeId) then Survivors(nodes[..i], skipToTxId, skipToNodeId)
      else Survivors(nodes[..i], skipToTxId, skipToNodeId) + [nodes[i]]
  {
    assert nodes[..i + 1][..i] == nodes[..i];
  }

  /** Deleted-node stubs of one more node: its stub is appended when it survives and is deleted. */
  lemma DeletedMetadataSnoc(nodes: seq<Node>, skipToTxId: Option<int>, skipToNodeId: Option<int>, i: nat)
    requires i < |nodes|
    ensures DeletedMetadata(nodes[..i + 1], skipToTxId, skipToNodeId) ==
      if !ShouldSkip(nodes[i], skipToTxId, skipToNodeId) && nodes[i].status == Some("d")
      then DeletedMetadata(nodes[..i], skipToTxId, skipToNodeId) + [DeletedStub(nodes[i])]
      else DeletedMetadata(nodes[..i], skipToTxId, skipToNodeId)
  {
    assert nodes[..i + 1][..i] == nodes[..i];
  }

  /** One more node adds its id to the id list and its node to the end of its id's queue. */
  lemma IdsQueuesSnoc(ns: seq<Node>, n: Node)
    ensures Ids(ns + [n]) == Ids(ns) + [n.id]
    ensures Queues(ns + [n]) == Queues(ns)[n.id := (if n.id in Queues(ns) then Queues(ns)[n.id] else []) + [n]]
  {
    assert (ns + [n])[..|ns|] == ns;
  }

  /** How many of the metadata records carry this id. */
  function Occurrences(metas: seq<NodeMetadata>, id: int): nat
  {
    if metas == [] then 0
    else Occurrences(metas[..|metas| - 1], id) + (if metas[|metas| - 1].id == id then 1 else 0)
  }

  /** The conversion the reader applies to each pair of metadata record and node. */
  function Converter(application: Option<string>, now: int): (NodeMetadata, Node) -> Result<Entry>
  {
    (m: NodeMetadata, n: Node) => ConvertToAudit(m, n, application, now)
  }

  /**
   * The pairing is stated for any conversion; the reader uses Converter.
   * The records built so far and what is left of each id's queue.
   */
  datatype Pairing = Pairing(entries: seq<Entry>, queues: map<int, seq<Node>>)

  /**
   * One metadata record takes the head of its id's queue: no queue is a
   * NullPointerException, an empty one an IndexOutOfBoundsException.
   */
  function PairStep(p: Result<Pairing>, m: NodeMetadata, convert: (NodeMetadata, Node) -> Result<Entry>): Result<Pairing>
  {
    match p
    case Err(e) => Err(e)
    case Ok(st) =>
      if m.id !in st.queues then Err(NullPointer)
      else if st.queues[m.id] == [] then Err(IndexOutOfBounds)
      else
        match convert(m, st.queues[m.id][0])
        case Err(e) => Err(e)
        case Ok(entry) => Ok(Pairing(st.entries + [entry], st.queues[m.id := st.queues[m.id][1..]]))
  }

  /** The pairing loop over all metadata records, from the initial queues. */
  function PairAll(metas: seq<NodeMetadata>, queues: map<int, seq<Node>>, convert: (NodeMetadata, Node) -> Result<Entry>): Result<Pairing>
  {
    if metas == [] then Ok(Pairing([], queues))
    else PairStep(PairAll(metas[..|metas| - 1], queues, convert), metas[|metas| - 1], convert)
  }

  /** Record i can be built: its id has a node left for it, and the conversion succeeds. */
  predicate PairableAt(metas: seq<NodeMetadata>, queues: map<int, seq<Node>>, convert: (NodeMetadata, Node) -> Result<Entry>, i: nat)
    requires i < |metas|
  {
    var id := metas[i].id;
    var k := Occurrences(metas[..i], id);
    id in queues && k < |queues[id]| && convert(metas[i], queues[id][k]).Ok?
  }

  /** What is left of the queues after the first n records, when all of them were paired. */
  ghost predicate Consumed(metas: seq<NodeMetadata>, start: map<int, seq<Node>>, now: map<int, seq<Node>>)
  {
    (forall id :: id in now <==> id in start)
    && (forall id :: id in start ==> Occurrences(metas, id) <= |start[id]| && now[id] == start[id][Occurrences(metas, id)..])
  }

  lemma OccurrencesStep(metas: seq<NodeMetadata>, id: int)
    requires metas != []
    ensures Occurrences(metas, id) == Occurrences(metas[..|metas| - 1], id) + (if metas[|metas| - 1].id == id then 1 else 0)
  {
  }

  /** After a successful pairing each id's queue has lost exactly as many nodes as records carried the id. */
  lemma {:induction false} PairAllConsumed(metas: seq<NodeMetadata>, queues: map<int, seq<Node>>, convert: (NodeMetadata, Node) -> Result<Entry>)
    ensures PairAll(metas, queues, convert).Ok? ==>
      |PairAll(metas, queues, convert).value.entries| == |metas| &&
      Consumed(metas, queues, PairAll(metas, queues, convert).value.queues)
    decreases |metas|
  {
    if metas != [] {
      var n := |metas| - 1;
      var front := metas[..n];
      var m := metas[n];
      PairAllConsumed(front, queues, convert);
      var prev := PairAll(front, queues, convert);
      var r := PairAll(metas, queues, convert);
      if r.Ok? {
        var st := prev.value;
        var st' := r.value;
        assert m.id in st.queues && st.queues[m.id] != [];
        assert st'.queues == st.queues[m.id := st.queues[m.id][1..]];
        forall id | id in queues
          ensures Occurrences(metas, id) <= |queues[id]| && st'.queues[id] == queues[id][Occurrences(metas, id)..]
        {
          OccurrencesStep(metas, id);
          var k := Occurrences(front, id);
          if id == m.id {
            assert st.queues[id] == queues[id][k..];
            assert queues[id][k..][1..] == queues[id][k + 1..];
          }
        }
      }
    }
  }

  lemma PairableAtFront(metas: seq<NodeMetadata>, queues: map<int, seq<Node>>, convert: (NodeMetadata, Node) -> Result<Entry>, i: nat)
    requires i < |metas| - 1
    ensures PairableAt(metas, queues, convert, i) == PairableAt(metas[..|metas| - 1], queues, convert, i)
  {
    assert metas[..i] == metas[..|metas| - 1][..i];
  }

  /** One more record pairs exactly when a node is left for its id and the conversion succeeds. */
  lemma PairStepOkIff(metas: seq<NodeMetadata>, st: Pairing, queues: map<int, seq<Node>>, convert: (NodeMetadata, Node) -> Result<Entry>)
    requires metas != []
    requires Consumed(metas[..|metas| - 1], queues, st.queues)
    ensures PairStep(Ok(st), metas[|metas| - 1], convert).Ok? <==> PairableAt(metas, queues, convert, |metas| - 1)
  {
    var n := |metas| - 1;
    var m := metas[n];
    var k := Occurrences(metas[..n], m.id);
    if m.id in queues {
      assert st.queues[m.id] == queues[m.id][k..];
      if k < |queues[m.id]| {
        assert st.queues[m.id][0] == queues[m.id][k];
      }
    }
  }

  /** The pairing succeeds exactly when every record finds a node left for its id and converts. */
  lemma {:induction false} PairAllSucceedsIff(metas: seq<NodeMetadata>, queues: map<int, seq<Node>>, convert: (NodeMetadata, Node) -> Result<Entry>)
    ensures PairAll(metas, queues, convert).Ok? <==>
      (forall i :: 0 <= i < |metas| ==> PairableAt(metas, queues, convert, i))
    decreases |metas|
  {
    if metas != [] {
      var n := |metas| - 1;
      var front := metas[..n];
      PairAllSucceedsIff(front, queues, convert);
      PairAllConsumed(front, queues, convert);
      var prev := PairAll(front, queues, convert);
      var r := PairAll(metas, queues, convert);
      assert r == PairStep(prev, metas[n], convert);
      if prev.Ok? {
        PairStepOkIff(metas, prev.value, queues, convert);
        if r.Ok? {
          forall i | 0 <= i < |metas| ensures PairableAt(metas, queues, convert, i) {
            if i < n {
              PairableAtFront(metas, queues, convert, i);
            }
          }
        }
      } else {
        var i :| 0 <= i < n && !PairableAt(front, queues, convert, i);
        PairableAtFront(metas, queues, convert, i);
      }
    }
  }

  /** Record i is the conversion of the k-th node with its id, k being how many earlier records had it. */
  predicate FifoAt(metas: seq<NodeMetadata>, queues: map<int, seq<Node>>, convert: (NodeMetadata, Node) -> Result<Entry>, entries: seq<Entry>, i: nat)
    requires i < |metas| && i < |entries|
  {
    var id := metas[i].id;
    var k := Occurrences(metas[..i], id);
    id in queues && k < |queues[id]| && Ok(entries[i]) == convert(metas[i], queues[id][k])
  }

  lemma FifoAtFront(metas: seq<NodeMetadata>, queues: map<int, seq<Node>>, convert: (NodeMetadata, Node) -> Result<Entry>, entries: seq<Entry>, i: nat)
    requires i < |metas| - 1 && |entries| == |metas|
    ensures FifoAt(metas, queues, convert, entries, i) == FifoAt(metas[..|metas| - 1], queues, convert, entries[..|metas| - 1], i)
  {
    assert metas[..i] == metas[..|metas| - 1][..i];
  }

  /**
   * First in, first out: the record built for the i-th metadata record comes
   * from the k-th node with its id, k being how many earlier records had it.
   */
  lemma {:induction false} PairAllFifo(metas: seq<NodeMetadata>, queues: map<int, seq<Node>>, convert: (NodeMetadata, Node) -> Result<Entry>)
    requires PairAll(metas, queues, convert).Ok?
    ensures |PairAll(metas, queues, convert).value.entries| == |metas|
    ensures forall i :: 0 <= i < |metas| ==> FifoAt(metas, queues, convert, PairAll(metas, queues, convert).value.entries, i)
    decreases |metas|
  {
    PairAllConsumed(metas, queues, convert);
    if metas != [] {
      var n := |metas| - 1;
      var front := metas[..n];
      PairAllFifo(front, queues, convert);
      PairAllConsumed(front, queues, convert);
      var st := PairAll(front, queues, convert).value;
      var entries := PairAll(metas, queues, convert).value.entries;
      assert entries[..n] == st.entries;
      forall i | 0 <= i < |metas| ensures FifoAt(metas, queues, convert, entries, i) {
        if i < n {
          FifoAtFront(metas, queues, convert, entries, i);
        } else {
          FifoAtLast(metas, st, queues, convert);
        }
      }
    }
  }

  lemma FifoAtLast(metas: seq<NodeMetadata>, st: Pairing, queues: map<int, seq<Node>>, convert: (NodeMetadata, Node) -> Result<Entry>)
    requires metas != [] && |st.entries| == |metas| - 1
    requires Consumed(metas[..|metas| - 1], queues, st.queues)
    requires PairStep(Ok(st), metas[|metas| - 1], convert).Ok?
    ensures |PairStep(Ok(st), metas[|metas| - 1], convert).value.entries| == |metas|
    ensures FifoAt(metas, queues, convert, PairStep(Ok(st), metas[|metas| - 1], convert).value.entries, |metas| - 1)
  {
    var m := metas[|metas| - 1];
    var k := Occurrences(metas[..|metas| - 1], m.id);
    assert st.queues[m.id] == queues[m.id][k..];
  }

  /** Once a record fails to pair, the pairing of the whole list fails the same way. */
  lemma {:induction false} PairAllErrPersists(metas: seq<NodeMetadata>, queues: map<int, seq<Node>>, convert: (NodeMetadata, Node) -> Result<Entry>, k: nat)
    requires k <= |metas| && PairAll(metas[..k], queues, convert).Err?
    ensures PairAll(metas, queues, convert) == PairAll(metas[..k], queues, convert)
    decreases |metas| - k
  {
    if k < |metas| {
      var front := metas[..|metas| - 1];
      assert front[..k] == metas[..k];
      PairAllErrPersists(front, queues, convert, k);
    } else {
      assert metas[..k] == metas;
    }
  }

  /**
   * The audit records the reader builds: there is one per metadata record
   * exactly when every record finds a node of its id left and converts, and
   * then record i is built from the k-th node of its id, k being how many
   * earlier records had that id.
   */
  function PairedEntries(metas: seq<NodeMetadata>, queues: map<int, seq<Node>>, application: Option<string>, now: int): (r: Result<seq<Entry>>)
    ensures r.Ok? <==> forall i :: 0 <= i < |metas| ==> PairableAt(metas, queues, Converter(application, now), i)
    ensures r.Ok? ==> |r.value| == |metas|
    ensures r.Ok? ==> forall i :: 0 <= i < |metas| ==> FifoAt(metas, queues, Converter(application, now), r.value, i)
  {
    var convert := Converter(application, now);
    PairAllSucceedsIff(metas, queues, convert);
    match PairAll(metas, queues, convert)
    case Ok(st) => PairAllFifo(metas, queues, convert); Ok(st.entries)
    case Err(e) => Err(e)
  }

  // ----------------------------------------------------------- conversion

  const PROPERTIES_KEY: string := "/alfresco-workspace/transaction/properties/add"
  const ASPECTS_KEY: string := "/alfresco-workspace/transaction/aspects/add"
  const TYPE_KEY: string := "/alfresco-workspace/transaction/type"
  const ACTION_KEY: string := "/alfresco-workspace/transaction/action"
  const PATH_KEY: string := "/alfresco-workspace/transaction/path"
  const NODE_REF_KEY: string := "/alfresco-workspace/transaction/nodeRef"
  const NODE_ID_KEY: string := "/alfresco-workspace/transaction/nodeId"
  /** The user of every record built from the change feed. */
  const UNKNOWN_USER: string := "UNKNOWN"

  /**
   * An aspect "prefix:local" as the map {prefixString, localName}, cut at the
   * first colon; an aspect without a colon has no second piece.
   */
  function AspectEntry(aspect: string): (r: Result<Value>)
    ensures r.Ok? <==> ':' in aspect
    ensures r.Err? ==> r.error == IndexOutOfBounds
  {
    var parts := SplitOnce(aspect, ':');
    if |parts| < 2 then Err(IndexOutOfBounds)
    else Ok(AspectMap(parts[0], parts[1]))
  }

  function AspectMap(prefix: string, local: string): Value
  {
    MapV(map["prefixString" := Str(prefix), "localName" := Str(local)])
  }

  /** An aspect is cut at its first colon: the prefix before it, everything after it the local name. */
  lemma AspectEntryOfQName(prefix: string, local: string)
    requires ':' !in prefix
    ensures AspectEntry(prefix + ":" + local) == Ok(AspectMap(prefix, local))
  {
    var aspect := prefix + ":" + local;
    var parts := SplitOnce(aspect, ':');
    IndexOfChar(prefix, ':', local);
    assert aspect[..|prefix|] == prefix;
    assert aspect[|prefix| + 1..] == local;
  }

  /** Converts each element in order; the first failure is the result. */
  function MapAll<A, B>(xs: seq<A>, f: A -> Result<B>): Result<seq<B>>
  {
    if xs == [] then Ok([])
    else
      match MapAll(xs[..|xs| - 1], f)
      case Err(e) => Err(e)
      case Ok(vs) =>
        match f(xs[|xs| - 1])
        case Err(e) => Err(e)
        case Ok(v) => Ok(vs + [v])
  }

  /** MapAll succeeds exactly when every element converts, and then yields each element's conversion. */
  lemma {:induction false} MapAllOk<A, B>(xs: seq<A>, f: A -> Result<B>)
    ensures MapAll(xs, f).Ok? <==> forall i :: 0 <= i < |xs| ==> f(xs[i]).Ok?
    ensures MapAll(xs, f).Ok? ==>
      |MapAll(xs, f).value| == |xs| && forall i :: 0 <= i < |xs| ==> f(xs[i]) == Ok(MapAll(xs, f).value[i])
    decreases |xs|
  {
    if xs != [] {
      var n := |xs| - 1;
      var front := xs[..n];
      MapAllOk(front, f);
      assert forall i :: 0 <= i < n ==> front[i] == xs[i];
    }
  }

  /** A failure of MapAll is the failure of the first element that does not convert. */
  lemma {:induction false} MapAllFirstError<A, B>(xs: seq<A>, f: A -> Result<B>)
    ensures MapAll(xs, f).Err? ==>
      exists i :: 0 <= i < |xs| && f(xs[i]) == Err(MapAll(xs, f).error) && forall j :: 0 <= j < i ==> f(xs[j]).Ok?
    decreases |xs|
  {
    if xs != [] {
      var n := |xs| - 1;
      var front := xs[..n];
      MapAllFirstError(front, f);
      MapAllOk(front, f);
      assert forall i :: 0 <= i < n ==> front[i] == xs[i];
    }
  }

  /** The aspect maps in order; the first aspect without a colon fails the record. */
  function AspectEntries(aspects: seq<string>): (r: Result<seq<Value>>)
    ensures r.Err? ==> r.error == IndexOutOfBounds
  {
    MapAllFirstError(aspects, AspectEntry);
    MapAll(aspects, AspectEntry)
  }

  /** All aspects convert exactly when each has a colon, and then each map is its own aspect's. */
  lemma AspectEntriesSpec(aspects: seq<string>)
    ensures AspectEntries(aspects).Ok? <==> forall i :: 0 <= i < |aspects| ==> ':' in aspects[i]
    ensures AspectEntries(aspects).Ok? ==>
      |AspectEntries(aspects).value| == |aspects| &&
      forall i :: 0 <= i < |aspects| ==> AspectEntry(aspects[i]) == Ok(AspectEntries(aspects).value[i])
  {
    MapAllOk(aspects, AspectEntry);
  }

  /** The action word: a deletion for status "d", an update for any other status, unknown without one. */
  function Action(status: Option<string>): string
  {
    if status.None? then "UNKNOWN" else if status.value == "d" then "DELETED" else "UPDATED"
  }

  /** The record id: the transaction and the node id, separated by ';'. */
  function AuditId(txnId: int, id: int): string
  {
    IntToString(txnId) + ";" + IntToString(id)
  }

  /** The node id of a node ref: the text after its last '/', when it has one. */
  function NodeIdOf(nodeRef: string): (r: Option<string>)
    ensures r.Some? ==> '/' !in r.value
  {
    match LastIndexOf(nodeRef, '/')
    case None => None
    case Some(k) =>
      var segment := nodeRef[k + 1..];
      assert '/' !in segment by {
        forall j | 0 <= j < |segment| ensures segment[j] != '/' {
          assert segment[j] == nodeRef[k + 1 + j];
        }
      }
      Some(segment)
  }

  /** A ref that ends in "/" and a segment free of '/' yields that segment. */
  lemma {:induction false} NodeIdOfSegment(prefix: string, segment: string)
    requires '/' !in segment
    ensures NodeIdOf(prefix + "/" + segment) == Some(segment)
    decreases |segment|
  {
    var s := prefix + "/" + segment;
    var k := |prefix|;
    assert s[k] == '/';
    assert forall j :: k < j < |s| ==> s[j] == segment[j - k - 1];
    var found := LastIndexOf(s, '/');
    assert found.Some?;
    assert found.value == k;
    assert s[k + 1..] == segment;
  }

  /** The record's values: everything the metadata and the node's status say, under fixed keys. */
  function AuditValues(meta: NodeMetadata, status: Option<string>, aspects: seq<Value>): map<string, Value>
  {
    var withProperties := if meta.properties.Some? then map[PROPERTIES_KEY := MapV(meta.properties.value)] else map[];
    var withAspects := withProperties[ASPECTS_KEY := ListV(aspects)];
    var withType := if meta.nodeType.Some? then withAspects[TYPE_KEY := Str(meta.nodeType.value)] else withAspects;
    var withAction := withType[ACTION_KEY := Str("NODE-" + Action(status))];
    if meta.nodeRef.None? then withAction
    else
      var ref := meta.nodeRef.value;
      var withRef := withAction[PATH_KEY := Str(ref)][NODE_REF_KEY := Str(ref)];
      match NodeIdOf(ref)
      case None => withRef
      case Some(nodeId) => withRef[NODE_ID_KEY := Str(nodeId)]
  }

  /**
   * convertToAudit: the record of one metadata/node pair, stamped with the
   * clock's time; it fails when an aspect has no colon.
   */
  function ConvertToAudit(meta: NodeMetadata, node: Node, application: Option<string>, now: int): (r: Result<Entry>)
    ensures r.Err? ==> r.error == IndexOutOfBounds
    ensures r.Ok? ==>
      r.value.id == Some(AuditId(meta.txnId, meta.id)) && r.value.application == application &&
      r.value.user == Some(UNKNOWN_USER) && r.value.time == Some(now)
  {
    var aspects := if meta.aspects.None? then Ok([]) else AspectEntries(meta.aspects.value);
    match aspects
    case Err(e) => Err(e)
    case Ok(vs) => Ok(Entry(Some(AuditId(meta.txnId, meta.id)), application, Some(now), Some(UNKNOWN_USER), AuditValues(meta, node.status, vs)))
  }

  /** The record's keys are seven different strings. */
  lemma AuditKeysDistinct()
    ensures |{PROPERTIES_KEY, ASPECTS_KEY, TYPE_KEY, ACTION_KEY, PATH_KEY, NODE_REF_KEY, NODE_ID_KEY}| == 7
  {
    assert |PROPERTIES_KEY| == 46 && |ASPECTS_KEY| == 43 && |TYPE_KEY| == 36 && |ACTION_KEY| == 38;
    assert |PATH_KEY| == 36 && |NODE_REF_KEY| == 39 && |NODE_ID_KEY| == 38;
    assert TYPE_KEY[32] == 't' && PATH_KEY[32] == 'p';
    assert ACTION_KEY[32] == 'a' && NODE_ID_KEY[32] == 'n';
  }

  /** What the record says: the action from the node's status, the ref, its last segment and the aspects. */
  lemma AuditValuesSpec(meta: NodeMetadata, status: Option<string>, aspects: seq<Value>)
    ensures var vs := AuditValues(meta, status, aspects);
      ACTION_KEY in vs && vs[ACTION_KEY] == Str("NODE-" + Action(status)) &&
      ASPECTS_KEY in vs && vs[ASPECTS_KEY] == ListV(aspects) &&
      (PROPERTIES_KEY in vs <==> meta.properties.Some?) &&
      (meta.properties.Some? ==> vs[PROPERTIES_KEY] == MapV(meta.properties.value)) &&
      (TYPE_KEY in vs <==> meta.nodeType.Some?) &&
      (meta.nodeType.Some? ==> vs[TYPE_KEY] == Str(meta.nodeType.value)) &&
      (NODE_REF_KEY in vs <==> meta.nodeRef.Some?) && (PATH_KEY in vs <==> meta.nodeRef.Some?) &&
      (meta.nodeRef.Some? ==> vs[NODE_REF_KEY] == Str(meta.nodeRef.value) && vs[PATH_KEY] == Str(meta.nodeRef.value)) &&
      (NODE_ID_KEY in vs <==> meta.nodeRef.Some? && NodeIdOf(meta.nodeRef.value).Some?) &&
      (NODE_ID_KEY in vs ==> vs[NODE_ID_KEY] == Str(NodeIdOf(meta.nodeRef.value).value))
  {
    AuditKeysDistinct();
  }

  /** The action word names the deletion exactly for status "d". */
  lemma ActionCases(status: Option<string>)
    ensures Action(status) == "DELETED" <==> status == Some("d")
    ensures Action(status) == "UNKNOWN" <==> status.None?
    ensures Action(status) == "UPDATED" <==> (status.Some? && status.value != "d")
  {
  }
}
