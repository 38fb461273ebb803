/**
 * PeltasProcessor: counts the processed audit records, remembers the last one
 * and, after every written chunk, rewrites the cursor ref of the chunk's
 * timestamp to "<last audit id>___<stored count + counter>".
 */
module Processor {
  import opened Wrappers
  import opened Text
  import opened Values
  import opened Cursor

  /** The ref of the timestamp created when the chunk context holds none: "1___0". */
  const PLACEHOLDER_REF: string := "1" + ID_SEPARATOR + IntToString(0)

  /** getCurrentRef: the last entry's id, as string concatenation prints it ("null" for a missing id). */
  function IdText(e: Entry): string
  {
    if e.id.Some? then e.id.value else "null"
  }

  /**
   * The ref onAfterWrite writes over `ref`: the count after "___" is read
   * (Integer.valueOf), the counter is added in Integer arithmetic, and the
   * last entry's id goes in front. Reading the count fails first; a missing
   * last entry fails next.
   */
  function NextRef(ref: string, last: Option<Entry>, counter: int): (r: Result<string>)
    ensures StoredCount(ref).Err? ==> r == Err(StoredCount(ref).error)
    ensures StoredCount(ref).Ok? && last.None? ==> r == Err(NullPointer)
    ensures r.Ok? ==> last.Some? && StoredCount(ref).Ok?
    ensures r.Ok? ==> r.value == CursorRef(IdText(last.value), Wrap32(StoredCount(ref).value + counter))
  {
    match StoredCount(ref)
    case Err(e) => Err(e)
    case Ok(stored) =>
      if last.None? then Err(NullPointer)
      else Ok(CursorRef(IdText(last.value), Wrap32(stored + counter)))
  }

  // ------------------------------------------------------------ round trips

  /** A ref written for an id without '_' splits back into that id and the count. */
  lemma CursorRefOfId(id: string, c: int)
    requires '_' !in id
    ensures JavaSplit(CursorRef(id, c), ID_SEPARATOR) == [id, IntToString(c)]
  {
    IntToStringChars(c, '_');
    IntToStringNotEmpty(c);
    SplitTwo(id, ID_SEPARATOR, IntToString(c));
  }

  /** The next chunk reads back the count that was written, so onBeforeChunk accepts the ref. */
  lemma NextRefCountReadBack(ref: string, e: Entry, counter: int)
    requires StoredCount(ref).Ok? && '_' !in IdText(e)
    ensures NextRef(ref, Some(e), counter).Ok?
    ensures StoredCount(NextRef(ref, Some(e), counter).value) == Ok(Wrap32(StoredCount(ref).value + counter))
  {
    var c := Wrap32(StoredCount(ref).value + counter);
    CursorRefOfId(IdText(e), c);
    ParseIntOfIntToString(c);
  }

  /**
   * After a chunk whose last record is the audit record of node (T, N), the
   * reader reopens after exactly (T, N) and afterChunk commits T.
   */
  lemma NextRefResumesAfterLastEntry(ref: string, e: Entry, counter: int, t: int, n: int)
    requires StoredCount(ref).Ok?
    requires e.id == Some(Nodes.AuditId(t, n))
    requires LONG_MIN <= t <= LONG_MAX && LONG_MIN <= n <= LONG_MAX
    ensures NextRef(ref, Some(e), counter).Ok?
    ensures ParseCursor(NextRef(ref, Some(e), counter).value) == Ok((t, n))
    ensures CommittedTxn(NextRef(ref, Some(e), counter).value) == Ok(t)
    ensures StoredCount(NextRef(ref, Some(e), counter).value) == Ok(Wrap32(StoredCount(ref).value + counter))
  {
    var c := Wrap32(StoredCount(ref).value + counter);
    ParseCursorOfCursorRef(t, n, c);
    CommittedTxnOfCursorRef(t, n, c);
    StoredCountOfCursorRef(t, n, c);
  }

  /** The first chunk starts from the placeholder's count 0: the stored count is the counter. */
  lemma FirstChunkCount(e: Entry, counter: int)
    requires INT_MIN <= counter <= INT_MAX
    ensures NextRef(PLACEHOLDER_REF, Some(e), counter) == Ok(CursorRef(IdText(e), counter))
  {
    PlaceholderRef();
  }

  // ------------------------------------------------------------ runs of chunks

  /*
   * A run of chunks is given by the number of records each chunk processed.
   * By NextRefCountReadBack, every onAfterWrite stores the count it read plus
   * the counter, so the stored count after the run is a fold over the chunks.
   */

  /** The records of all the chunks. */
  function Total(records: seq<nat>): nat
  {
    if records == [] then 0 else Total(records[..|records| - 1]) + records[|records| - 1]
  }

  /**
   * The counter onAfterWrite adds for the last chunk: the running total when
   * onBeforeChunk leaves the counter alone (as written), the chunk's own
   * records when onBeforeChunk resets it to 0.
   */
  function CounterAt(records: seq<nat>, reset: bool): nat
    requires records != []
  {
    if reset then records[|records| - 1] else Total(records)
  }

  /** The count stored after the run, starting from `stored`, in Integer arithmetic. */
  function StoredAfter(stored: int, records: seq<nat>, reset: bool): int
  {
    if records == [] then stored
    else Wrap32(StoredAfter(stored, records[..|records| - 1], reset) + CounterAt(records, reset))
  }

  /** The sum of the running totals after each chunk. */
  function CumulativeTotal(records: seq<nat>): nat
  {
    if records == [] then 0 else CumulativeTotal(records[..|records| - 1]) + Total(records)
  }

  /**
   * As written, onBeforeChunk never resets the counter (its guard only sets
   * 0 when the counter already is 0), so every chunk adds the records of all
   * the chunks so far: without overflow the stored count grows by the sum of
   * the running totals, more than the records processed as soon as a second
   * chunk follows a non-empty first one.
   */
  lemma {:induction false} CountIsCumulative(stored: int, records: seq<nat>)
    requires INT_MIN <= stored && stored + CumulativeTotal(records) <= INT_MAX
    ensures StoredAfter(stored, records, false) == stored + CumulativeTotal(records)
    ensures |records| >= 2 && records[0] > 0 ==> CumulativeTotal(records) > Total(records)
  {
    if records != [] {
      CountIsCumulative(stored, records[..|records| - 1]);
    }
    if |records| >= 2 && records[0] > 0 {
      CumulativeExceedsTotal(records);
    }
  }

  /** With a non-empty first chunk and a second chunk, the running totals sum to more than the total. */
  lemma {:induction false} CumulativeExceedsTotal(records: seq<nat>)
    requires |records| >= 2 && records[0] > 0
    ensures CumulativeTotal(records) > Total(records)
  {
    var front := records[..|records| - 1];
    assert front[0] == records[0];
    if |records| == 2 {
      assert front[..0] == [];
    } else {
      CumulativeExceedsTotal(front);
    }
  }

  /**
   * Corrected: when onBeforeChunk resets the counter to 0 (the evident intent
   * of its guard), the stored count grows by exactly the records processed.
   */
  lemma {:induction false} CountWithResetIsTotal(stored: int, records: seq<nat>)
    requires INT_MIN <= stored && stored + Total(records) <= INT_MAX
    ensures StoredAfter(stored, records, true) == stored + Total(records)
  {
    if records != [] {
      CountWithResetIsTotal(stored, records[..|records| - 1]);
    }
  }

  /** NextRefCountReadBack with the counts named. */
  lemma NextRefStoredCount(ref: string, e: Entry, counter: int, c: int, w: int)
    requires StoredCount(ref) == Ok(c) && '_' !in IdText(e)
    requires INT_MIN <= c + counter <= INT_MAX && w == c + counter
    ensures NextRef(ref, Some(e), counter).Ok?
    ensures StoredCount(NextRef(ref, Some(e), counter).value) == Ok(w)
  {
    assert Wrap32(c + counter) == w;
    assert NextRef(ref, Some(e), counter).Ok? &&
      StoredCount(NextRef(ref, Some(e), counter).value) == Ok(Wrap32(c + counter)) by {
      assert StoredCount(ref).value == c;
      NextRefCountReadBack(ref, e, counter);
    }
  }

  // ------------------------------------------------------------ the processor

  class PeltasProcessor {
    /** getCurrentApplicationName: the application name with the listener's suffix. */
    const applicationName: string
    /** The AtomicInteger counter of processed records. */
    var counter: int
    /** The record last passed to onBeforeProcess; null before the first. */
    var lastAuditEntry: Option<Entry>

    ghost predicate Valid()
      reads this
    {
      INT_MIN <= counter <= INT_MAX
    }

    constructor (applicationName: string)
      ensures this.applicationName == applicationName
      ensures counter == 0 && lastAuditEntry == None
      ensures Valid()
    {
      this.applicationName := applicationName;
      counter := 0;
      lastAuditEntry := None;
    }

    /** onItemProcessed: one more record processed (incrementAndGet wraps at the int range). */
    method OnItemProcessed(item: Entry)
      modifies this
      ensures counter == Wrap32(old(counter) + 1)
      ensures lastAuditEntry == old(lastAuditEntry)
      ensures Valid()
    {
      counter := Wrap32(counter + 1);
    }

    /** onBeforeProcess: the record becomes the last audit entry. */
    method OnBeforeProcess(item: Entry)
      modifies this
      ensures lastAuditEntry == Some(item)
      ensures counter == old(counter)
    {
      lastAuditEntry := Some(item);
    }

    /**
     * onBeforeChunk: the stored timestamp's count must be a number (the
     * answer of readTx is the parameter); the counter is left as it is.
     */
    method OnBeforeChunk(stored: PeltasTimestamp?) returns (r: Result<()>)
      ensures r.Err? <==> stored != null && StoredCount(stored.ref).Err?
      ensures r.Err? ==> r.error == StoredCount(stored.ref).error
    {
      if stored != null {
        var count := StoredCount(stored.ref);
        if count.Err? {
          return Err(count.error);
        }
      }
      if counter == 0 {
        // counter.set(0): the counter is already 0, so nothing changes.
      }
      return Ok(());
    }

    /**
     * onAfterWrite: the chunk's timestamp (a new one holding "1___0" when the
     * context has none) gets the ref NextRef computes; the context then holds
     * what writeTx answered, or that timestamp when the answer is null.
     */
    method OnAfterWrite(context: ChunkContext, now: int, written: PeltasTimestamp?)
      returns (r: Result<()>, ts: PeltasTimestamp)
      modifies context, context.peltasTimestamp
      ensures var before := old(context.peltasTimestamp);
        var ref0 := if before == null then PLACEHOLDER_REF else old(before.ref);
        r == (if NextRef(ref0, lastAuditEntry, counter).Ok? then Ok(()) else Err(NextRef(ref0, lastAuditEntry, counter).error))
      ensures old(context.peltasTimestamp) != null ==> ts == old(context.peltasTimestamp)
      ensures old(context.peltasTimestamp) == null ==>
        fresh(ts) && ts.applicationName == Some(applicationName) && ts.access == now
      ensures r.Err? ==> context.peltasTimestamp == old(context.peltasTimestamp)
      ensures r.Err? && old(context.peltasTimestamp) != null ==> ts.ref == old(context.peltasTimestamp.ref)
      ensures var ref0 := if old(context.peltasTimestamp) == null then PLACEHOLDER_REF else old(context.peltasTimestamp.ref);
        r.Ok? ==> ts.ref == NextRef(ref0, lastAuditEntry, counter).value
      ensures old(context.peltasTimestamp) != null ==>
        ts.applicationName == old(context.peltasTimestamp.applicationName) && ts.access == old(context.peltasTimestamp.access)
      ensures r.Ok? ==> context.peltasTimestamp == (if written != null then written else ts)
      ensures counter == old(counter) && lastAuditEntry == old(lastAuditEntry)
    {
      var current := context.peltasTimestamp;
      if current == null {
        current := new PeltasTimestamp(Some(applicationName), Some(PLACEHOLDER_REF), now);
      }
      ts := current;
      var next := NextRef(ts.ref, lastAuditEntry, counter);
      if next.Err? {
        return Err(next.error), ts;
      }
      ts.SetRef(next.value);
      context.peltasTimestamp := if written != null then written else ts;
      r := Ok(());
    }
  }
}
