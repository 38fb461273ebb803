/**
 * Reading a field of an audit record by an expression: "field" reads the
 * field, "field@sub" reads an entry of a map-valued field
 * (PeltasHandler.getMappedSingleValueProperty / getMappedMultiValueProperty).
 */
module PropertyLookup {
  import opened Wrappers
  import opened Text
  import opened Values
  import StringToMapUtil

  const SUB_KEY: string := "@"

  lemma SplitAtSeparator(s: string, d: string)
    requires |d| > 0 && Contains(s, d)
    ensures |DelimitedList(s, d)| >= 2
  {
    var i := IndexOf(s, d).value;
    assert |SplitAll(s[i + |d|..], d)| >= 1;
  }

  /** The field name in front of the first '@'. */
  lemma FieldOfPath(k: string, sub: string)
    requires '@' !in k
    ensures Contains(k + SUB_KEY + sub, SUB_KEY)
    ensures DelimitedList(k + SUB_KEY + sub, SUB_KEY)[0] == k
  {
    IndexOfChar(k, '@', sub);
    var s := k + SUB_KEY + sub;
    assert s == k + ['@'] + sub;
    assert s[..|k|] == k;
  }

  /**
   * getMappedSingleValueProperty: "k@s" reads entry s of the map in field k,
   * fails when field k holds a String, and gives the empty String for any
   * other content of field k (null included); "k" reads field k.
   */
  function SingleValue(expr: string, entry: Entry): (r: Result<Value>)
    ensures !Contains(expr, SUB_KEY) ==> r == Ok(Get(entry.values, expr))
    ensures r.Err? ==> r.error == Runtime
  {
    if Contains(expr, SUB_KEY) then
      SplitAtSeparator(expr, SUB_KEY);
      var path := DelimitedList(expr, SUB_KEY);
      match Get(entry.values, path[0])
      case MapV(m) => Ok(Get(m, path[1]))
      case Str(_) => Err(Runtime)
      case _ => Ok(Str(""))
    else Ok(Get(entry.values, expr))
  }

  /**
   * getMappedMultiValueProperty: the field named in front of any '@' is read
   * as a list (valueAsList with a comma); a missing field gives no elements.
   */
  function MultiValue(expr: string, entry: Entry): (r: Result<seq<Value>>)
    ensures r.Err? ==> r.error == IndexOutOfBounds || r.error == IllegalArgument
  {
    if Contains(expr, SUB_KEY) then
      SplitAtSeparator(expr, SUB_KEY);
      var path := DelimitedList(expr, SUB_KEY);
      var field := Get(entry.values, path[0]);
      if field != Null then StringToMapUtil.ListOf(field, ',') else Ok([])
    else StringToMapUtil.ListOf(Get(entry.values, expr), ',')
  }

  /** A sub-key path whose field is absent or null reads as the empty String, never as null. */
  lemma MissingContainerReadsEmpty(k: string, sub: string, entry: Entry)
    requires '@' !in k
    requires Get(entry.values, k) == Null
    ensures SingleValue(k + SUB_KEY + sub, entry) == Ok(Str(""))
  {
    FieldOfPath(k, sub);
  }

  /** A sub-key path reads entry sub of a map-valued field. */
  lemma SubKeyReadsMapEntry(k: string, sub: string, entry: Entry)
    requires '@' !in k && '@' !in sub
    requires Get(entry.values, k).MapV?
    ensures SingleValue(k + SUB_KEY + sub, entry) == Ok(Get(Get(entry.values, k).m, sub))
  {
    FieldOfPath(k, sub);
    var s := k + SUB_KEY + sub;
    IndexOfChar(k, '@', sub);
    assert s[|k| + 1..] == sub;
    IndexOfCharAbsent(sub, '@');
    assert SplitAll(sub, SUB_KEY) == [sub];
    assert SplitAll(s, SUB_KEY) == [k] + SplitAll(sub, SUB_KEY);
  }

  /** The multi-value read ignores what follows the '@': it lists the whole field. */
  lemma MultiValueIgnoresSubKey(k: string, sub: string, entry: Entry)
    requires '@' !in k
    ensures MultiValue(k + SUB_KEY + sub, entry) == MultiValue(k, entry)
  {
    FieldOfPath(k, sub);
    IndexOfCharAbsent(k, '@');
    IndexOfCharSpec(k, '@');
  }
}
