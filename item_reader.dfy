/**
 * The list-buffer readers: PeltasItemReader (a buffer of audit records read
 * from the head, under Spring's item-counting read) and the defaults of
 * AbstractPeltasRestReader (fetch, transform, buffer; no retry).
 */
module ItemReader {
  import opened Wrappers
  import opened Values

  /**
   * PeltasItemReader with the counters of its Spring base class
   * (AbstractItemCountingItemStreamItemReader): the buffer, its size when
   * last set, the items read since then and the most that may be read.
   * `delivered` records the onRead callbacks, one per returned record.
   */
  class ItemBuffer {
    const applicationName: Option<string>
    var list: seq<Entry>
    var lastCount: int
    var currentItemCount: int
    var maxItemCount: int
    ghost var delivered: seq<Entry>

    /** The counters agree with the buffer: each read took one record off its head. */
    ghost predicate Valid()
      reads this
    {
      && 0 <= lastCount
      && maxItemCount == (if lastCount > 0 then lastCount else 1)
      && 0 <= currentItemCount <= maxItemCount
      && (lastCount > 0 ==> |list| + currentItemCount == lastCount)
      && (lastCount == 0 ==> list == [])
    }

    /** The one-argument constructor: an empty buffer. */
    constructor (applicationName: Option<string>)
      ensures Valid()
      ensures this.applicationName == applicationName
      ensures list == [] && lastCount == 0 && currentItemCount == 0 && maxItemCount == 1
      ensures delivered == []
    {
      this.applicationName := applicationName;
      list := [];
      lastCount := 0;
      currentItemCount := 0;
      maxItemCount := 1;
      delivered := [];
    }

    /**
     * setList: the buffer becomes a copy of the records (none for null);
     * nothing has been read from it and at most its size (at least one) may be.
     */
    method SetList(records: Option<seq<Entry>>)
      modifies this
      ensures Valid()
      ensures list == (if records.Some? then records.value else [])
      ensures lastCount == |list| && currentItemCount == 0
      ensures maxItemCount == (if |list| > 0 then |list| else 1)
      ensures delivered == old(delivered)
    {
      list := if records.Some? then records.value else [];
      lastCount := |list|;
      currentItemCount := 0;
      maxItemCount := if lastCount > 0 then lastCount else 1;
    }

    /** doRead: removes and returns the head of the buffer, or nothing when it is empty. */
    method DoRead() returns (r: Option<Entry>)
      modifies this
      ensures old(list) == [] ==> r.None? && list == [] && delivered == old(delivered)
      ensures old(list) != [] ==> r == Some(old(list)[0]) && list == old(list)[1..]
      ensures r.Some? ==> delivered == old(delivered) + [r.value]
      ensures lastCount == old(lastCount) && currentItemCount == old(currentItemCount)
      ensures maxItemCount == old(maxItemCount)
    {
      if list != [] {
        var entry := list[0];
        list := list[1..];
        delivered := delivered + [entry];
        return Some(entry);
      }
      return None;
    }

    /**
     * The inherited read: nothing once the item count has reached the
     * maximum, otherwise the count goes up and doRead answers. On a valid
     * buffer the count never hides a record: read returns the head exactly
     * when there is one.
     */
    method Read() returns (r: Option<Entry>)
      requires Valid()
      modifies this
      ensures Valid()
      ensures r.Some? <==> old(list) != []
      ensures old(list) != [] ==> r == Some(old(list)[0]) && list == old(list)[1..]
      ensures old(list) == [] ==> list == []
      ensures delivered == old(delivered) + (if r.Some? then [r.value] else [])
      ensures lastCount == old(lastCount)
    {
      if currentItemCount >= maxItemCount {
        assert |list| == 0;
        return None;
      }
      currentItemCount := currentItemCount + 1;
      r := DoRead();
    }
  }

  /** The HTTP method of the records request. */
  datatype HttpMethod = GET | POST

  /** The request a REST reader sends: its method and entity body (the entity as a value). */
  datatype Request = Request(httpMethod: HttpMethod, entity: Value)

  /** The defaults of AbstractPeltasRestReader: GET with the entity "". */
  function DefaultRequest(): (r: Request)
    ensures r.httpMethod == GET && r.entity == Str("")
  {
    Request(GET, Str(""))
  }

  /**
   * AbstractPeltasRestReader with its default hooks: onResponseReceived is
   * the identity and doRetryRead answers nothing. The subclass's
   * retreiveCollection is a parameter of onOpen.
   */
  class RestReader {
    const buffer: ItemBuffer

    constructor (applicationName: Option<string>)
      ensures fresh(buffer) && buffer.Valid() && buffer.list == [] && buffer.delivered == []
      ensures buffer.applicationName == applicationName
    {
      buffer := new ItemBuffer(applicationName);
    }

    /** onOpen: the response body goes unchanged to retreiveCollection, whose records replace the buffer. */
    method OnOpen<R>(response: R, retreiveCollection: R -> Option<seq<Entry>>)
      modifies buffer
      ensures buffer.Valid()
      ensures buffer.list == (var c := retreiveCollection(response); if c.Some? then c.value else [])
      ensures buffer.currentItemCount == 0 && buffer.delivered == old(buffer.delivered)
    {
      var entries := retreiveCollection(response);
      buffer.SetList(entries);
    }

    /** read: the next buffered record; with the default doRetryRead an empty buffer ends reading. */
    method Read() returns (r: Option<Entry>)
      requires buffer.Valid()
      modifies buffer
      ensures buffer.Valid()
      ensures old(buffer.list) != [] ==> r == Some(old(buffer.list)[0]) && buffer.list == old(buffer.list)[1..]
      ensures old(buffer.list) == [] ==> r.None? && buffer.list == []
    {
      r := buffer.Read();
      if r.None? {
        r := DoRetryRead();
      }
    }

    /** The default doRetryRead: nothing. */
    method DoRetryRead() returns (r: Option<Entry>)
      ensures r.None?
    {
      return None;
    }
  }

  /** Reading a valid buffer until it answers nothing yields all its records in order, each delivered once. */
  method DrainBuffer(b: ItemBuffer) returns (read: seq<Entry>)
    requires b.Valid()
    modifies b
    ensures read == old(b.list) && b.list == []
    ensures b.delivered == old(b.delivered) + read
  {
    read := [];
    while true
      invariant b.Valid()
      invariant read + b.list == old(b.list)
      invariant b.delivered == old(b.delivered) + read
      decreases |b.list|
    {
      var r := b.Read();
      if r.None? {
        assert read == old(b.list);
        return;
      }
      read := read + [r.value];
    }
  }
}
