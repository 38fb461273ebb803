/**
 * The workspace readers (AlfrescoWorkspaceRestReader, both copies): a window
 * of six transaction ids moved over the repository, a cursor read at start,
 * the fetch of one window turned into audit records, and read/doRetryRead,
 * which fetch the next window whenever the buffer runs dry.
 */
module WorkspaceReader {
  import opened Wrappers
  import opened Values
  import opened Nodes
  import opened Cursor
  import opened ItemReader

  /** The two copies of the reader: io.peltas.alfresco (Current) and io.peltas.core.alfresco.workspace (Legacy). */
  datatype ReaderVariant = Current | Legacy

  /**
   * The repository as one read call sees it: the nodes changed by the
   * transactions from..to, the metadata of a list of node ids, and the
   * answer of the max-transaction query (None when that query fails).
   */
  datatype Remote = Remote(
    nodes: (int, int) -> seq<Node>,
    metadata: seq<int> -> seq<NodeMetadata>,
    maxTxnId: Option<int>)

  /**
   * The repository answers within what was asked: the nodes of the window
   * from..to have transactions from `from` on and none beyond the max.
   */
  ghost predicate Consistent(remote: Remote)
  {
    forall f, t, n :: n in remote.nodes(f, t) ==>
      f <= n.txnId && (remote.maxTxnId.Some? ==> n.txnId <= remote.maxTxnId.value)
  }

  /** getCurrentMaxTxnId of the current reader: the answer, or when the query fails the last known max, or 1. */
  function MaxOrFallback(answer: Option<int>, last: Option<int>): int
  {
    if answer.Some? then answer.value else if last.Some? then last.value else 1
  }

  /**
   * onResponseReceived: lists of two or more nodes are sorted by transaction,
   * with List.sort, which is stable.
   */
  function OnResponseReceived(nodes: seq<Node>): (r: seq<Node>)
    ensures SortedByTxn(r)
    ensures multiset(r) == multiset(nodes)
    ensures forall t :: WithTxn(r, t) == WithTxn(nodes, t)
  {
    SortByTxnSpec(nodes);
    if |nodes| > 1 then SortByTxn(nodes) else nodes
  }

  /**
   * shouldSkipLivedataNode of each copy: the current one compares the
   * transaction ids with equals, the older one with `==` on the boxed Longs.
   */
  predicate Skips(variant: ReaderVariant, n: Node, skipToTxId: Option<int>, skipToNodeId: Option<int>)
  {
    if variant == Legacy then ShouldSkipAsWritten(n, skipToTxId, skipToNodeId)
    else ShouldSkip(n, skipToTxId, skipToNodeId)
  }

  /** The node watermark each copy's filter applies in effect. */
  function NodeWatermark(variant: ReaderVariant, skipToTxId: Option<int>, skipToNodeId: Option<int>): Option<int>
  {
    if variant == Legacy then BoxedNodeWatermark(skipToTxId, skipToNodeId) else skipToNodeId
  }

  /** Each copy's filter is ShouldSkip with the node watermark it applies. */
  lemma SkipsWithWatermark(variant: ReaderVariant, n: Node, skipToTxId: Option<int>, skipToNodeId: Option<int>)
    ensures Skips(variant, n, skipToTxId, skipToNodeId) ==
      ShouldSkip(n, skipToTxId, NodeWatermark(variant, skipToTxId, skipToNodeId))
  {
    SkipAsWrittenIsShouldSkip(n, skipToTxId, skipToNodeId);
  }

  /**
   * The older reader reads again a node of the watermark transaction that
   * was already read, when that transaction lies outside the Long cache.
   */
  lemma LegacyRereadsWatermark()
    ensures var n := Node(3, 1000, WORKSPACE_STORE + "a", None);
      !Skips(Legacy, n, Some(1000), Some(5)) && Skips(Current, n, Some(1000), Some(5))
  {
    SkipAsWrittenRereadsWatermark();
  }

  /** What a fetch does to the window: move it on, refresh the max, keep it, or stop retrying. */
  datatype Move = Advance | Refresh | Hold | Stop

  /**
   * After a fetch that yields nothing: move on while the max is past the
   * window start; otherwise the current reader refreshes the max and the
   * older one stops.
   */
  function EmptyFetchMove(variant: ReaderVariant, currentMax: int, lastFrom: int): Move
  {
    if currentMax > lastFrom then Advance
    else if variant == Current then Refresh
    else Stop
  }

  /**
   * The records of a fetch with surviving nodes: the metadata of the
   * surviving ids, then the stubs of the surviving deleted nodes, each paired
   * with the earliest unused surviving node of its id.
   */
  function Records(nodes: seq<Node>, skipToTxId: Option<int>, skipToNodeId: Option<int>,
                   metadata: seq<int> -> seq<NodeMetadata>, application: Option<string>, now: int): Result<seq<Entry>>
  {
    var survivors := Survivors(nodes, skipToTxId, skipToNodeId);
    PairedEntries(metadata(Ids(survivors)) + DeletedMetadata(nodes, skipToTxId, skipToNodeId), Queues(survivors), application, now)
  }

  /** The outcome of retreiveCollection: the records (or the exception) and what happens to the window. */
  datatype Retrieval = Retrieval(records: Result<seq<Entry>>, move: Move)

  /**
   * retreiveCollection on the sorted nodes of the window: an empty fetch and
   * a fetch whose nodes are all skipped give no records and decide the
   * window's move (the max being null is a NullPointerException); otherwise
   * the window stays and the records are built.
   */
  function Retrieve(variant: ReaderVariant, nodes: seq<Node>, skipToTxId: Option<int>, skipToNodeId: Option<int>,
                    metadata: seq<int> -> seq<NodeMetadata>, currentMax: Option<int>, lastFrom: int,
                    application: Option<string>, now: int): (r: Retrieval)
    ensures r.move == Advance ==> r.records == Ok([])
    ensures r.records.Ok? && r.records.value != [] ==>
      r.move == Hold && Survivors(nodes, skipToTxId, skipToNodeId) != []
    ensures variant == Current && r.records.Ok? ==> r.move != Stop
    ensures r.records.Err? ==> r.move in {Hold, Stop}
  {
    if nodes == [] then
      if currentMax.None? then Retrieval(Err(NullPointer), Stop)
      else Retrieval(Ok([]), EmptyFetchMove(variant, currentMax.value, lastFrom))
    else if Survivors(nodes, skipToTxId, skipToNodeId) == [] then
      if variant == Legacy then Retrieval(Ok([]), Advance)
      else if currentMax.None? then Retrieval(Err(NullPointer), Hold)
      else Retrieval(Ok([]), EmptyFetchMove(variant, currentMax.value, lastFrom))
    else Retrieval(Records(nodes, skipToTxId, skipToNodeId, metadata, application, now), Hold)
  }

  /**
   * Whenever a fetch with surviving nodes builds records, there is one per
   * metadata record, each carrying the audit id "txnId;id" of its record.
   */
  lemma RetrievedRecordIds(nodes: seq<Node>, skipToTxId: Option<int>, skipToNodeId: Option<int>,
                           metadata: seq<int> -> seq<NodeMetadata>, application: Option<string>, now: int)
    requires Records(nodes, skipToTxId, skipToNodeId, metadata, application, now).Ok?
    ensures var survivors := Survivors(nodes, skipToTxId, skipToNodeId);
      var metas := metadata(Ids(survivors)) + DeletedMetadata(nodes, skipToTxId, skipToNodeId);
      var records := Records(nodes, skipToTxId, skipToNodeId, metadata, application, now).value;
      |records| == |metas| &&
      forall i :: 0 <= i < |metas| ==>
        records[i].id == Some(AuditId(metas[i].txnId, metas[i].id)) && records[i].application == application
  {
    var survivors := Survivors(nodes, skipToTxId, skipToNodeId);
    var metas := metadata(Ids(survivors)) + DeletedMetadata(nodes, skipToTxId, skipToNodeId);
    var queues := Queues(survivors);
    var records := Records(nodes, skipToTxId, skipToNodeId, metadata, application, now).value;
    forall i | 0 <= i < |metas|
      ensures records[i].id == Some(AuditId(metas[i].txnId, metas[i].id)) && records[i].application == application
    {
      assert FifoAt(metas, queues, Converter(application, now), records, i);
      var k := Occurrences(metas[..i], metas[i].id);
      assert Ok(records[i]) == ConvertToAudit(metas[i], queues[metas[i].id][k], application, now);
    }
  }

  /**
   * The largest transaction a window can reach during one read: the max the
   * older reader asks for at each open, or for the current reader the larger
   * of the answer and the max it knows.
   */
  function WindowBound(variant: ReaderVariant, answer: Option<int>, currentMax: Option<int>): int
  {
    if variant == Legacy then (if answer.Some? then answer.value else 0)
    else if answer.Some? && currentMax.Some? then (if answer.value >= currentMax.value then answer.value else currentMax.value)
    else if answer.Some? then answer.value
    else if currentMax.Some? then currentMax.value
    else 0
  }

  /** How many transactions lie from the window start to the bound. */
  function Gap(bound: int, from: Option<int>): nat
  {
    if from.Some? && bound >= from.value then bound - from.value + 1 else 0
  }

  /** A refresh of the current reader's max never raises the bound; the max it knows is within it. */
  lemma RefreshWithinBound(answer: Option<int>, currentMax: Option<int>)
    requires currentMax.Some?
    ensures WindowBound(Current, answer, Some(MaxOrFallback(answer, currentMax))) <= WindowBound(Current, answer, currentMax)
    ensures currentMax.value <= WindowBound(Current, answer, currentMax)
  {
  }

  /** Keeping the window start, or moving it on by six from within the bound, never widens the gap; moving narrows it. */
  lemma GapShrinks(b0: int, b1: int, f0: int, f1: Option<int>)
    requires b1 <= b0
    requires f1 == Some(f0) || (f1 == Some(f0 + 6) && f0 <= b0)
    ensures Gap(b1, f1) <= Gap(b0, Some(f0))
    ensures f1 != Some(f0) ==> Gap(b1, f1) < Gap(b0, Some(f0))
  {
  }

  /**
   * A window only moves on from a start within the bound, and a refresh
   * never raises the bound: the older reader moves past a fully skipped
   * window only when the repository is consistent.
   */
  lemma RetrieveWithinBound(variant: ReaderVariant, remote: Remote, from: int, to: int, skipToTxId: Option<int>,
                            skipToNodeId: Option<int>, currentMax: Option<int>, application: Option<string>, now: int)
    requires variant == Legacy ==> Consistent(remote) && currentMax == remote.maxTxnId && currentMax.Some?
    ensures var out := Retrieve(variant, OnResponseReceived(remote.nodes(from, to)), skipToTxId, skipToNodeId,
                                remote.metadata, currentMax, from, application, now);
      && (out.move == Advance ==> from <= WindowBound(variant, remote.maxTxnId, currentMax))
      && (out.move == Refresh ==>
            currentMax.Some? &&
            WindowBound(variant, remote.maxTxnId, Some(MaxOrFallback(remote.maxTxnId, currentMax))) <=
            WindowBound(variant, remote.maxTxnId, currentMax))
  {
    var fetched := remote.nodes(from, to);
    var nodes := OnResponseReceived(fetched);
    var out := Retrieve(variant, nodes, skipToTxId, skipToNodeId, remote.metadata, currentMax, from, application, now);
    if out.move == Refresh || (out.move == Advance && (nodes == [] || variant == Current)) {
      RefreshWithinBound(remote.maxTxnId, currentMax);
    } else if out.move == Advance {
      assert |fetched| == |nodes|;
      assert fetched[0] in remote.nodes(from, to);
    }
  }

  /**
   * The reader: its buffer (the PeltasItemReader base), the transaction
   * counter, the window fromTxId..toTxId, the window start of the last open,
   * the known max, the retry flag, the skip watermark and the cursor record.
   */
  class WorkspaceReader {
    const variant: ReaderVariant
    const application: Option<string>
    const buffer: ItemBuffer
    var txId: int
    var fromTxId: Option<int>
    var toTxId: Option<int>
    var lastFromTxId: Option<int>
    var currentMaxTxId: Option<int>
    var retry: bool
    var skipToTxId: Option<int>
    var skipToNodeId: Option<int>
    var auditTimeStamp: PeltasTimestamp?

    /** The window spans six transactions and ends at the counter; the buffer is consistent. */
    ghost predicate Valid()
      reads this, buffer
    {
      && (fromTxId.Some? <==> toTxId.Some?)
      && (fromTxId.Some? ==> toTxId.value == fromTxId.value + 5 && txId == toTxId.value)
      && buffer.Valid()
    }

    constructor (variant: ReaderVariant, application: Option<string>)
      ensures Valid()
      ensures this.variant == variant && this.application == application
      ensures fresh(buffer) && buffer.list == [] && buffer.delivered == []
      ensures txId == 0 && fromTxId.None? && toTxId.None? && lastFromTxId.None? && currentMaxTxId.None?
      ensures retry && skipToTxId.None? && skipToNodeId.None? && auditTimeStamp == null
    {
      this.variant := variant;
      this.application := application;
      buffer := new ItemBuffer(application);
      txId := 0;
      fromTxId := None;
      toTxId := None;
      lastFromTxId := None;
      currentMaxTxId := None;
      retry := true;
      skipToTxId := None;
      skipToNodeId := None;
      auditTimeStamp := null;
    }

    /** incrementAndGet then addAndGet(5): the next window of six transactions after the counter. */
    method NextWindow()
      modifies this
      ensures txId == old(txId) + 6 && fromTxId == Some(old(txId) + 1) && toTxId == Some(old(txId) + 6)
      ensures lastFromTxId == old(lastFromTxId) && currentMaxTxId == old(currentMaxTxId) && retry == old(retry)
      ensures skipToTxId == old(skipToTxId) && skipToNodeId == old(skipToNodeId) && auditTimeStamp == old(auditTimeStamp)
    {
      txId := txId + 1;
      fromTxId := Some(txId);
      txId := txId + 5;
      toTxId := Some(txId);
    }

    /**
     * afterPropertiesSet: the stored cursor "T;N___c" sets the watermark
     * (T, N) and the window T..T+5; without one the window follows the
     * counter (1..6 after the constructor). The current reader then asks for
     * the max. A malformed ref throws, leaving what was set before the failure.
     */
    method AfterPropertiesSet(stored: PeltasTimestamp?, remote: Remote) returns (r: Result<()>)
      requires Valid()
      modifies this
      ensures auditTimeStamp == stored
      ensures r.Ok? || old(fromTxId).None? ==> Valid()
      ensures stored == null ==> r.Ok? && skipToTxId == old(skipToTxId) && skipToNodeId == old(skipToNodeId)
      ensures stored == null ==> fromTxId == Some(old(txId) + 1) && toTxId == Some(old(txId) + 6)
      ensures stored != null && ParseCursor(stored.ref).Ok? ==>
        var (t, n) := ParseCursor(stored.ref).value;
        r.Ok? && skipToTxId == Some(t) && skipToNodeId == Some(n) && fromTxId == Some(t) && toTxId == Some(t + 5)
      ensures stored != null && ParseCursor(stored.ref).Err? ==>
        r == Err(ParseCursor(stored.ref).error) && fromTxId == old(fromTxId) && toTxId == old(toTxId)
      ensures r.Ok? && variant == Current ==> currentMaxTxId == Some(MaxOrFallback(remote.maxTxnId, old(currentMaxTxId)))
      ensures r.Err? || variant == Legacy ==> currentMaxTxId == old(currentMaxTxId)
      ensures lastFromTxId == old(lastFromTxId) && retry == old(retry)
    {
      auditTimeStamp := stored;
      if stored != null {
        ghost var cursor := ParseCursor(stored.ref);
        var read := ReadCursor(stored.ref);
        if read.Err? {
          return read;
        }
        assert cursor.Ok? && txId == cursor.value.0 - 1;
      }
      NextWindow();
      if variant == Current {
        currentMaxTxId := Some(MaxOrFallback(remote.maxTxnId, currentMaxTxId));
      }
      return Ok(());
    }

    /**
     * The cursor part of afterPropertiesSet: the counter is set just before
     * the ref's transaction T, which becomes the watermark transaction, and
     * then the ref's node id N the watermark node.
     */
    method ReadCursor(ref: string) returns (r: Result<()>)
      modifies this
      ensures CursorTxn(ref).Err? ==> r == Err(CursorTxn(ref).error) && txId == old(txId) && skipToTxId == old(skipToTxId)
      ensures CursorTxn(ref).Ok? ==> txId == CursorTxn(ref).value - 1 && skipToTxId == Some(CursorTxn(ref).value)
      ensures ParseCursor(ref).Ok? ==> r.Ok? && skipToNodeId == Some(ParseCursor(ref).value.1)
      ensures ParseCursor(ref).Err? ==> r == Err(ParseCursor(ref).error) && skipToNodeId == old(skipToNodeId)
      ensures fromTxId == old(fromTxId) && toTxId == old(toTxId) && lastFromTxId == old(lastFromTxId)
      ensures currentMaxTxId == old(currentMaxTxId) && retry == old(retry) && auditTimeStamp == old(auditTimeStamp)
    {
      var current := CursorTxn(ref);
      if current.Err? {
        return Err(current.error);
      }
      txId := current.value - 1;
      skipToTxId := Some(current.value);
      var cursor := ParseCursor(ref);
      if cursor.Err? {
        return Err(cursor.error);
      }
      skipToNodeId := Some(cursor.value.1);
      return Ok(());
    }

    /** beforeChunk: the cursor record goes into the chunk context. */
    method BeforeChunk(context: ChunkContext)
      modifies context
      ensures context.peltasTimestamp == auditTimeStamp
    {
      context.peltasTimestamp := auditTimeStamp;
    }

    /**
     * afterChunk: the record comes back from the chunk context and the
     * window restarts after its committed transaction T, at T+1..T+6. With
     * no record the current reader changes nothing more; the older one has
     * no guard and throws.
     */
    method AfterChunk(context: ChunkContext) returns (r: Result<()>)
      requires Valid()
      modifies this
      ensures Valid()
      ensures auditTimeStamp == context.peltasTimestamp
      ensures context.peltasTimestamp == null ==>
        (r.Ok? <==> variant == Current) && (r.Err? ==> r.error == NullPointer)
      ensures context.peltasTimestamp != null && CommittedTxn(context.peltasTimestamp.ref).Ok? ==>
        var t := CommittedTxn(context.peltasTimestamp.ref).value;
        r.Ok? && fromTxId == Some(t + 1) && toTxId == Some(t + 6)
      ensures context.peltasTimestamp != null && CommittedTxn(context.peltasTimestamp.ref).Err? ==>
        r == Err(CommittedTxn(context.peltasTimestamp.ref).error)
      ensures r.Err? || context.peltasTimestamp == null ==> txId == old(txId) && fromTxId == old(fromTxId) && toTxId == old(toTxId)
      ensures lastFromTxId == old(lastFromTxId) && currentMaxTxId == old(currentMaxTxId) && retry == old(retry)
      ensures skipToTxId == old(skipToTxId) && skipToNodeId == old(skipToNodeId)
    {
      auditTimeStamp := context.peltasTimestamp;
      if auditTimeStamp == null {
        if variant == Current {
          return Ok(());
        }
        return Err(NullPointer);
      }
      var committed := CommittedTxn(auditTimeStamp.ref);
      if committed.Err? {
        return Err(committed.error);
      }
      txId := committed.value;
      NextWindow();
      return Ok(());
    }

    /** fetchDeletedNodesMetadata: a stub for each surviving node marked deleted, in list order. */
    method FetchDeletedNodesMetadata(nodes: seq<Node>) returns (result: seq<NodeMetadata>)
      ensures result == DeletedMetadata(nodes, skipToTxId, NodeWatermark(variant, skipToTxId, skipToNodeId))
    {
      ghost var watermark := NodeWatermark(variant, skipToTxId, skipToNodeId);
      result := [];
      for i := 0 to |nodes|
        invariant result == DeletedMetadata(nodes[..i], skipToTxId, watermark)
      {
        DeletedMetadataSnoc(nodes, skipToTxId, watermark, i);
        var node := nodes[i];
        SkipsWithWatermark(variant, node, skipToTxId, skipToNodeId);
        if !Skips(variant, node, skipToTxId, skipToNodeId) && node.status == Some("d") {
          result := result + [DeletedStub(node)];
        }
      }
      assert nodes[..|nodes|] == nodes;
    }

    /** The loop that collects the surviving ids and files each surviving node under its id. */
    method IndexSurvivors(nodes: seq<Node>) returns (ids: seq<int>, queues: map<int, seq<Node>>)
      ensures ids == Ids(Survivors(nodes, skipToTxId, NodeWatermark(variant, skipToTxId, skipToNodeId)))
      ensures queues == Queues(Survivors(nodes, skipToTxId, NodeWatermark(variant, skipToTxId, skipToNodeId)))
    {
      ghost var watermark := NodeWatermark(variant, skipToTxId, skipToNodeId);
      ids := [];
      queues := map[];
      ghost var kept: seq<Node> := [];
      for i := 0 to |nodes|
        invariant kept == Survivors(nodes[..i], skipToTxId, watermark)
        invariant ids == Ids(kept) && queues == Queues(kept)
      {
        SurvivorsSnoc(nodes, skipToTxId, watermark, i);
        var node := nodes[i];
        SkipsWithWatermark(variant, node, skipToTxId, skipToNodeId);
        if !Skips(variant, node, skipToTxId, skipToNodeId) {
          IdsQueuesSnoc(kept, node);
          ids := ids + [node.id];
          queues := queues[node.id := (if node.id in queues then queues[node.id] else []) + [node]];
          kept := kept + [node];
        }
      }
      assert nodes[..|nodes|] == nodes;
    }

    /** The loop that takes, for each metadata record, the first node left in its id's queue and converts the pair. */
    method PairWithNodes(metas: seq<NodeMetadata>, queues: map<int, seq<Node>>, now: int) returns (r: Result<seq<Entry>>)
      ensures r == PairedEntries(metas, queues, application, now)
    {
      var convert := Converter(application, now);
      var entries: seq<Entry> := [];
      var left := queues;
      for i := 0 to |metas|
        invariant PairAll(metas[..i], queues, convert) == Ok(Pairing(entries, left))
      {
        assert metas[..i + 1][..i] == metas[..i];
        var meta := metas[i];
        if meta.id !in left {
          PairAllErrPersists(metas, queues, convert, i + 1);
          return Err(NullPointer);
        }
        if left[meta.id] == [] {
          PairAllErrPersists(metas, queues, convert, i + 1);
          return Err(IndexOutOfBounds);
        }
        var node := left[meta.id][0];
        left := left[meta.id := left[meta.id][1..]];
        var entry := ConvertToAudit(meta, node, application, now);
        assert convert(meta, node) == entry;
        if entry.Err? {
          PairAllErrPersists(metas, queues, convert, i + 1);
          return Err(entry.error);
        }
        entries := entries + [entry.value];
      }
      assert metas[..|metas|] == metas;
      return Ok(entries);
    }

    /** retreiveCollection on the sorted nodes of the window opened at lastFromTxId. */
    method RetreiveCollection(nodes: seq<Node>, remote: Remote, now: int) returns (r: Result<seq<Entry>>)
      requires Valid() && fromTxId.Some? && lastFromTxId.Some?
      modifies this
      ensures Valid()
      ensures var out := Retrieve(variant, nodes, skipToTxId, NodeWatermark(variant, skipToTxId, skipToNodeId),
                                  remote.metadata, old(currentMaxTxId),
                                  old(lastFromTxId).value, application, now);
        && r == out.records
        && retry == (out.move != Stop)
        && (out.move == Advance ==> fromTxId == Some(old(txId) + 1) && toTxId == Some(old(txId) + 6))
        && (out.move != Advance ==> txId == old(txId) && fromTxId == old(fromTxId) && toTxId == old(toTxId))
        && currentMaxTxId == (if out.move == Refresh then Some(MaxOrFallback(remote.maxTxnId, old(currentMaxTxId)))
                              else old(currentMaxTxId))
      ensures lastFromTxId == old(lastFromTxId) && auditTimeStamp == old(auditTimeStamp)
      ensures skipToTxId == old(skipToTxId) && skipToNodeId == old(skipToNodeId)
    {
      var lastFrom := lastFromTxId.value;
      if nodes == [] {
        retry := false;
        if currentMaxTxId.None? {
          return Err(NullPointer);
        }
        if currentMaxTxId.value > lastFrom {
          retry := true;
          NextWindow();
        } else if variant == Current {
          currentMaxTxId := Some(MaxOrFallback(remote.maxTxnId, currentMaxTxId));
          retry := true;
        }
        return Ok([]);
      }
      retry := true;
      var deleted := FetchDeletedNodesMetadata(nodes);
      var ids, queues := IndexSurvivors(nodes);
      if ids == [] {
        if variant == Legacy {
          NextWindow();
        } else if currentMaxTxId.None? {
          return Err(NullPointer);
        } else if currentMaxTxId.value > lastFrom {
          NextWindow();
        } else {
          currentMaxTxId := Some(MaxOrFallback(remote.maxTxnId, currentMaxTxId));
        }
        return Ok([]);
      }
      var metas := remote.metadata(ids) + deleted;
      if metas == [] {
        return Ok([]);
      }
      r := PairWithNodes(metas, queues, now);
    }

    /** How far the window start is from the bound of this read. */
    ghost function Distance(remote: Remote): nat
      reads this
    {
      Gap(WindowBound(variant, remote.maxTxnId, currentMaxTxId), fromTxId)
    }

    /** 1 while the window has moved since it was last opened. */
    ghost function Pending(): nat
      reads this
    {
      if lastFromTxId == fromTxId then 0 else 1
    }

    /**
     * onOpen: the older reader first asks for the max (a failed query
     * throws); then the window is opened.
     */
    method DoOpen(remote: Remote, now: int) returns (r: Result<()>)
      requires Valid()
      requires variant == Legacy ==> Consistent(remote)
      modifies this, buffer
      ensures Valid()
      ensures buffer.delivered == old(buffer.delivered)
      ensures r.Ok? ==> Distance(remote) <= old(Distance(remote))
      ensures r.Ok? && lastFromTxId != fromTxId ==> Distance(remote) < old(Distance(remote))
      ensures old(fromTxId).Some? ==>
        fromTxId == old(fromTxId) || fromTxId == Some(old(fromTxId).value + 6)
      ensures variant == Legacy && remote.maxTxnId.None? ==> r == Err(Runtime) && unchanged(this, buffer)
      ensures (variant == Current || remote.maxTxnId.Some?) && old(fromTxId).None? ==>
        r == Err(NullPointer) && unchanged(buffer) && fromTxId.None? && lastFromTxId == old(lastFromTxId)
      ensures (variant == Current || remote.maxTxnId.Some?) && old(fromTxId).Some? ==>
        var max := if variant == Legacy then remote.maxTxnId else old(currentMaxTxId);
        var out := Retrieve(variant, OnResponseReceived(remote.nodes(old(fromTxId).value, old(toTxId).value)),
                            skipToTxId, NodeWatermark(variant, skipToTxId, skipToNodeId), remote.metadata, max,
                            old(fromTxId).value, application, now);
        && lastFromTxId == old(fromTxId)
        && r == (if out.records.Ok? then Ok(()) else Err(out.records.error))
        && (out.records.Ok? ==> buffer.list == out.records.value && buffer.currentItemCount == 0)
        && (out.records.Err? ==> unchanged(buffer))
        && retry == (out.move != Stop)
        && (out.move == Advance ==> fromTxId == Some(old(fromTxId).value + 6) && toTxId == Some(old(toTxId).value + 6))
        && (out.move != Advance ==> fromTxId == old(fromTxId) && toTxId == old(toTxId))
        && currentMaxTxId == (if out.move == Refresh then Some(MaxOrFallback(remote.maxTxnId, max)) else max)
      ensures skipToTxId == old(skipToTxId) && skipToNodeId == old(skipToNodeId) && auditTimeStamp == old(auditTimeStamp)
    {
      if variant == Legacy {
        if remote.maxTxnId.None? {
          return Err(Runtime);
        }
        currentMaxTxId := remote.maxTxnId;
      }
      if fromTxId.None? {
        return Err(NullPointer);
      }
      r := OpenWindow(remote, now);
    }

    /**
     * The rest of onOpen: the window start is recorded, the window's nodes
     * fetched and sorted (onResponseReceived), retreiveCollection run and the
     * buffer set to its records. The window start only ever moves on from
     * within the bound, so the distance to it shrinks.
     */
    method OpenWindow(remote: Remote, now: int) returns (r: Result<()>)
      requires Valid() && fromTxId.Some?
      requires variant == Legacy ==> Consistent(remote) && currentMaxTxId == remote.maxTxnId && currentMaxTxId.Some?
      modifies this, buffer
      ensures Valid()
      ensures buffer.delivered == old(buffer.delivered)
      ensures r.Ok? ==> Distance(remote) <= old(Distance(remote))
      ensures r.Ok? && lastFromTxId != fromTxId ==> Distance(remote) < old(Distance(remote))
      ensures fromTxId == old(fromTxId) || fromTxId == Some(old(fromTxId).value + 6)
      ensures var out := Retrieve(variant, OnResponseReceived(remote.nodes(old(fromTxId).value, old(toTxId).value)),
                                  skipToTxId, NodeWatermark(variant, skipToTxId, skipToNodeId), remote.metadata,
                                  old(currentMaxTxId), old(fromTxId).value, application, now);
        && lastFromTxId == old(fromTxId)
        && r == (if out.records.Ok? then Ok(()) else Err(out.records.error))
        && (out.records.Ok? ==> buffer.list == out.records.value && buffer.currentItemCount == 0)
        && (out.records.Err? ==> unchanged(buffer))
        && retry == (out.move != Stop)
        && (out.move == Advance ==> fromTxId == Some(old(fromTxId).value + 6) && toTxId == Some(old(toTxId).value + 6))
        && (out.move != Advance ==> fromTxId == old(fromTxId) && toTxId == old(toTxId))
        && currentMaxTxId == (if out.move == Refresh then Some(MaxOrFallback(remote.maxTxnId, old(currentMaxTxId)))
                              else old(currentMaxTxId))
      ensures skipToTxId == old(skipToTxId) && skipToNodeId == old(skipToNodeId) && auditTimeStamp == old(auditTimeStamp)
    {
      var from := fromTxId.value;
      var to := toTxId.value;
      lastFromTxId := fromTxId;
      var nodes := OnResponseReceived(remote.nodes(from, to));
      ghost var max := currentMaxTxId;
      ghost var bound := WindowBound(variant, remote.maxTxnId, max);
      var records := RetreiveCollection(nodes, remote, now);
      if records.Err? {
        return Err(records.error);
      }
      buffer.SetList(Some(records.value));
      RetrieveWithinBound(variant, remote, from, to, skipToTxId, NodeWatermark(variant, skipToTxId, skipToNodeId),
                          max, application, now);
      GapShrinks(bound, WindowBound(variant, remote.maxTxnId, currentMaxTxId), from, fromTxId);
      return Ok(());
    }

    /**
     * read: the next buffered record; when the buffer is empty, whatever
     * doRetryRead gives. A record in the buffer is returned without any
     * fetch; nothing is returned only when no window is left to retry.
     */
    method Read(remote: Remote, now: int) returns (r: Result<Option<Entry>>)
      requires Valid()
      requires variant == Legacy ==> Consistent(remote)
      modifies this, buffer
      decreases Distance(remote), Pending(), 1
      ensures Valid()
      ensures old(buffer.list) != [] ==>
        r == Ok(Some(old(buffer.list)[0])) && buffer.list == old(buffer.list)[1..] && unchanged(this)
      ensures r == Ok(None) ==> !retry || lastFromTxId == fromTxId
      ensures buffer.delivered == old(buffer.delivered) + (if r.Ok? && r.value.Some? then [r.value.value] else [])
      ensures old(fromTxId).Some? ==> fromTxId.Some? && fromTxId.value >= old(fromTxId).value
    {
      var entry := buffer.Read();
      if entry.Some? {
        return Ok(entry);
      }
      r := DoRetryRead(remote, now);
    }

    /**
     * doRetryRead: nothing unless retry is set and the window has moved since
     * it was opened; then the next window is opened and read. The older
     * reader compares with the unboxed start and throws when none was recorded.
     */
    method DoRetryRead(remote: Remote, now: int) returns (r: Result<Option<Entry>>)
      requires Valid()
      requires variant == Legacy ==> Consistent(remote)
      modifies this, buffer
      decreases Distance(remote), Pending(), 0
      ensures Valid()
      ensures !old(retry) ==> r == Ok(None) && unchanged(this, buffer)
      ensures old(fromTxId).Some? && old(lastFromTxId) == old(fromTxId) ==> r == Ok(None) && unchanged(this, buffer)
      ensures r == Ok(None) ==> !retry || lastFromTxId == fromTxId
      ensures buffer.delivered == old(buffer.delivered) + (if r.Ok? && r.value.Some? then [r.value.value] else [])
      ensures old(fromTxId).Some? ==> fromTxId.Some? && fromTxId.value >= old(fromTxId).value
    {
      if !retry {
        return Ok(None);
      }
      if variant == Current {
        if lastFromTxId.Some? {
          if fromTxId.None? {
            return Err(NullPointer);
          }
          if lastFromTxId == fromTxId {
            return Ok(None);
          }
        }
      } else {
        if fromTxId.None? || lastFromTxId.None? {
          return Err(NullPointer);
        }
        if lastFromTxId == fromTxId {
          return Ok(None);
        }
      }
      var open := DoOpen(remote, now);
      if open.Err? {
        return Err(open.error);
      }
      r := Read(remote, now);
    }
  }
}
