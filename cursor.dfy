/**
 * The stored cursor: the PeltasTimestamp record, the chunk context that
 * carries it between the reader and the processor, and the three ways its
 * ref "T;N___count" is read back.
 */
module Cursor {
  import opened Wrappers
  import opened Text
  import Nodes

  /** Separator between the audit id and the processed count in a cursor ref. */
  const ID_SEPARATOR: string := "___"

  /** PeltasTimestamp: the application (its identity), the access time and the cursor ref. */
  class PeltasTimestamp {
    var applicationName: Option<string>
    var access: int
    var ref: string

    /** A missing ref is stored as "-"; a given one verbatim. */
    constructor (applicationName: Option<string>, ref: Option<string>, access: int)
      ensures this.applicationName == applicationName && this.access == access
      ensures ref.Some? ==> this.ref == ref.value
      ensures ref.None? ==> this.ref == "-"
    {
      this.applicationName := applicationName;
      this.access := access;
      this.ref := if ref.Some? then ref.value else "-";
    }

    /** setRef replaces the ref and nothing else. */
    method SetRef(ref: string)
      modifies this
      ensures this.ref == ref
      ensures applicationName == old(applicationName) && access == old(access)
    {
      this.ref := ref;
    }
  }

  /** The chunk context's "peltasTimestamp" attribute. */
  class ChunkContext {
    var peltasTimestamp: PeltasTimestamp?

    constructor (timestamp: PeltasTimestamp?)
      ensures peltasTimestamp == timestamp
    {
      peltasTimestamp := timestamp;
    }
  }

  /**
   * The transaction part of a cursor ref as the reader opens it: the text
   * before the first "___", cut at ";", the first piece as a Long.
   */
  function CursorTxn(ref: string): (r: Result<int>)
    ensures r.Err? ==> r.error in {IndexOutOfBounds, NumberFormat}
  {
    var split := JavaSplit(ref, ID_SEPARATOR);
    if |split| == 0 then Err(IndexOutOfBounds)
    else
      var tx := JavaSplit(split[0], ";");
      if |tx| == 0 then Err(IndexOutOfBounds) else ParseLong(tx[0])
  }

  /**
   * The skip watermark (T, N) of a cursor ref: the transaction as in
   * CursorTxn, then the second ";" piece as a Long.
   */
  function ParseCursor(ref: string): (r: Result<(int, int)>)
    ensures r.Ok? ==> CursorTxn(ref) == Ok(r.value.0)
    ensures CursorTxn(ref).Err? ==> r == Err(CursorTxn(ref).error)
    ensures r.Err? ==> r.error in {IndexOutOfBounds, NumberFormat}
  {
    match CursorTxn(ref)
    case Err(e) => Err(e)
    case Ok(t) =>
      var tx := JavaSplit(JavaSplit(ref, ID_SEPARATOR)[0], ";");
      if |tx| < 2 then Err(IndexOutOfBounds)
      else
        match ParseLong(tx[1])
        case Err(e) => Err(e)
        case Ok(n) => Ok((t, n))
  }

  /** The committed transaction as afterChunk reads it: the ref cut at ";", the first piece as a Long. */
  function CommittedTxn(ref: string): (r: Result<int>)
    ensures r.Err? ==> r.error in {IndexOutOfBounds, NumberFormat}
  {
    var tx := JavaSplit(ref, ";");
    if |tx| == 0 then Err(IndexOutOfBounds) else ParseLong(tx[0])
  }

  /** The processed count as the processor reads it: the piece after "___" as an Integer. */
  function StoredCount(ref: string): (r: Result<int>)
    ensures r.Ok? ==> INT_MIN <= r.value <= INT_MAX
    ensures r.Err? ==> r.error in {IndexOutOfBounds, NumberFormat}
  {
    var split := JavaSplit(ref, ID_SEPARATOR);
    if |split| < 2 then Err(IndexOutOfBounds) else ParseInt(split[1])
  }

  /** The ref the processor writes: the audit id, "___", the count. */
  function CursorRef(auditId: string, count: int): string
  {
    auditId + ID_SEPARATOR + IntToString(count)
  }

  // ------------------------------------------------------------ round trips

  /** Splitting "a d b" at d gives [a, b] when neither side holds d's first char and b is not empty. */
  lemma SplitTwo(a: string, d: string, b: string)
    requires |d| > 0 && d[0] !in a && d[0] !in b && b != []
    ensures JavaSplit(a + d + b, d) == [a, b]
  {
    var s := a + d + b;
    IndexOfLeading(a, d, b);
    IndexOfLeadingAbsent(b, d);
    assert s[..|a|] == a;
    assert s[|a| + |d|..] == b;
    assert SplitAll(b, d) == [b];
    assert SplitAll(s, d) == [a, b];
  }

  lemma IntToStringNotEmpty(i: int)
    ensures IntToString(i) != []
  {
  }

  /** The audit id "T;N" splits back into its two numbers' texts. */
  lemma AuditIdSplits(t: int, n: int, rest: string)
    requires ';' !in rest
    ensures JavaSplit(Nodes.AuditId(t, n) + rest, ";") == [IntToString(t), IntToString(n) + rest]
  {
    IntToStringChars(t, ';');
    IntToStringChars(n, ';');
    IntToStringNotEmpty(n);
    assert Nodes.AuditId(t, n) + rest == IntToString(t) + ";" + (IntToString(n) + rest);
    SplitTwo(IntToString(t), ";", IntToString(n) + rest);
  }

  /** The cursor ref splits at "___" into the audit id and the count. */
  lemma CursorRefSplits(t: int, n: int, c: int)
    ensures JavaSplit(CursorRef(Nodes.AuditId(t, n), c), ID_SEPARATOR) == [Nodes.AuditId(t, n), IntToString(c)]
  {
    var id := Nodes.AuditId(t, n);
    IntToStringChars(t, '_');
    IntToStringChars(n, '_');
    IntToStringChars(c, '_');
    IntToStringNotEmpty(c);
    assert id == IntToString(t) + ";" + IntToString(n);
    assert '_' !in id;
    SplitTwo(id, ID_SEPARATOR, IntToString(c));
  }

  /** The reader opening from a ref the processor wrote resumes after exactly (T, N). */
  lemma ParseCursorOfCursorRef(t: int, n: int, c: int)
    requires LONG_MIN <= t <= LONG_MAX && LONG_MIN <= n <= LONG_MAX
    ensures ParseCursor(CursorRef(Nodes.AuditId(t, n), c)) == Ok((t, n))
  {
    var ref := CursorRef(Nodes.AuditId(t, n), c);
    CursorRefSplits(t, n, c);
    AuditIdSplits(t, n, []);
    assert Nodes.AuditId(t, n) + [] == Nodes.AuditId(t, n);
    assert IntToString(n) + [] == IntToString(n);
    var tx := JavaSplit(JavaSplit(ref, ID_SEPARATOR)[0], ";");
    assert tx == [IntToString(t), IntToString(n)];
    ParseLongOfIntToString(t);
    ParseLongOfIntToString(n);
    assert CursorTxn(ref) == Ok(t);
  }

  /** afterChunk reads the transaction T back from a ref the processor wrote. */
  lemma CommittedTxnOfCursorRef(t: int, n: int, c: int)
    requires LONG_MIN <= t <= LONG_MAX
    ensures CommittedTxn(CursorRef(Nodes.AuditId(t, n), c)) == Ok(t)
  {
    var rest := ID_SEPARATOR + IntToString(c);
    IntToStringChars(c, ';');
    assert ';' !in rest;
    AuditIdSplits(t, n, rest);
    assert CursorRef(Nodes.AuditId(t, n), c) == Nodes.AuditId(t, n) + rest;
    ParseLongOfIntToString(t);
  }

  /** The processor reads back the count it wrote. */
  lemma StoredCountOfCursorRef(t: int, n: int, c: int)
    requires INT_MIN <= c <= INT_MAX
    ensures StoredCount(CursorRef(Nodes.AuditId(t, n), c)) == Ok(c)
  {
    CursorRefSplits(t, n, c);
    ParseIntOfIntToString(c);
  }

  /** The placeholder "1___0" of a first chunk holds count 0 but no node id, so it is no resumable cursor. */
  lemma PlaceholderRef()
    ensures StoredCount("1" + ID_SEPARATOR + IntToString(0)) == Ok(0)
    ensures ParseCursor("1" + ID_SEPARATOR + IntToString(0)) == Err(IndexOutOfBounds)
  {
    assert IntToString(0) == "0";
    SplitTwo("1", ID_SEPARATOR, "0");
    IndexOfCharAbsent("1", ';');
    assert JavaSplit("1", ";") == ["1"];
    assert ParseInteger("0") == Some(0);
    assert ParseInteger("1") == Some(1);
  }

  /** The "-" a missing ref is stored as is no number. */
  lemma DashRef()
    ensures ParseCursor("-") == Err(NumberFormat)
    ensures CommittedTxn("-") == Err(NumberFormat)
  {
    IndexOfLeadingAbsent("-", ID_SEPARATOR);
    IndexOfCharAbsent("-", ';');
    assert JavaSplit("-", ID_SEPARATOR) == ["-"];
    assert JavaSplit("-", ";") == ["-"];
  }
}
