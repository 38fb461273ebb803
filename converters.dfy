/**
 * The converters the conversion service is given (DefaultConvertersConfiguration
 * in its two copies, AlfrescoDefaultConvertersConfiguration, and the same
 * converters registered by PeltasHandler): the String->Date fallback chain,
 * Date->String, Map->Collection, the formatted-key list and the
 * `{namespace}local` -> `prefix:local` key rename.
 *
 * Date parsing and formatting, String.format and the flattening of nested
 * maps are not part of this model; they are the parameters below.
 */
module Converters {
  import opened Wrappers
  import opened Text
  import opened Values

  // ------------------------------------------------------------ String -> Date

  /** The pattern of the old audit format, tried first (with the English locale). */
  const LEGACY_DATE_FORMAT: string := "EEE MMM dd HH:mm:ss zzz yyyy"
  /** ISO with a zone offset, tried second. */
  const ISO_OFFSET_DATE_FORMAT: string := "yyyy-MM-dd'T'HH:mm:ss.SSSZ"
  /** ISO without an offset, tried last. */
  const ISO_DATE_FORMAT: string := "yyyy-MM-dd'T'HH:mm:ss.SSS"

  /** What SimpleDateFormat.parse does with one source: a date, a ParseException, or a pattern it rejects. */
  datatype DateParse = Parsed(millis: int) | ParseFailed | InvalidPattern

  /** SimpleDateFormat(pattern[, Locale.ENGLISH]).parse(source), as (pattern, english, source). */
  type DateParser = (string, bool, string) -> DateParse

  /** A format is used as given only when it has text. */
  predicate Explicit(format: Option<string>)
  {
    format.Some? && HasText(format.value)
  }

  /**
   * The String->Date converter: an explicit format is the only one tried;
   * otherwise the legacy format, then ISO with offset, then plain ISO. A
   * rejected pattern is an IllegalArgumentException; a source no attempt
   * parses is a PeltasConversionException.
   */
  function StringToDate(source: string, format: Option<string>, parse: DateParser): (r: Result<int>)
    ensures Explicit(format) && parse(format.value, true, source) == ParseFailed ==> r == Err(ConversionFailure)
    ensures !Explicit(format) && parse(LEGACY_DATE_FORMAT, true, source).Parsed? ==>
      r == Ok(parse(LEGACY_DATE_FORMAT, true, source).millis)
  {
    var explicit := Explicit(format);
    var first := if explicit then format.value else LEGACY_DATE_FORMAT;
    match parse(first, true, source)
    case Parsed(d) => Ok(d)
    case InvalidPattern => Err(IllegalArgument)
    case ParseFailed =>
      if explicit then Err(ConversionFailure)
      else
        match parse(ISO_OFFSET_DATE_FORMAT, false, source)
        case Parsed(d) => Ok(d)
        case InvalidPattern => Err(IllegalArgument)
        case ParseFailed =>
          match parse(ISO_DATE_FORMAT, false, source)
          case Parsed(d) => Ok(d)
          case InvalidPattern => Err(IllegalArgument)
          case ParseFailed => Err(ConversionFailure)
  }

  /** The (pattern, english) attempts of the String->Date converter, in order. */
  function Attempts(format: Option<string>): (r: seq<(string, bool)>)
    ensures Explicit(format) ==> r == [(format.value, true)]
    ensures !Explicit(format) ==> |r| == 3 && r[0] == (LEGACY_DATE_FORMAT, true)
  {
    if Explicit(format) then [(format.value, true)]
    else [(LEGACY_DATE_FORMAT, true), (ISO_OFFSET_DATE_FORMAT, false), (ISO_DATE_FORMAT, false)]
  }

  /** Reference reading of a fallback chain: the first attempt that does not fail to parse decides. */
  function FirstParsed(attempts: seq<(string, bool)>, source: string, parse: DateParser): Result<int>
  {
    if attempts == [] then Err(ConversionFailure)
    else
      match parse(attempts[0].0, attempts[0].1, source)
      case Parsed(d) => Ok(d)
      case InvalidPattern => Err(IllegalArgument)
      case ParseFailed => FirstParsed(attempts[1..], source, parse)
  }

  /** The converter is the fallback chain over its attempts. */
  lemma StringToDateIsChain(source: string, format: Option<string>, parse: DateParser)
    ensures StringToDate(source, format, parse) == FirstParsed(Attempts(format), source, parse)
  {
    var a := Attempts(format);
    if Explicit(format) {
      assert FirstParsed(a[1..], source, parse) == Err(ConversionFailure);
    } else {
      var b, c := a[1..], a[2..];
      assert c == [(ISO_DATE_FORMAT, false)] && c[1..] == [];
      assert b == [(ISO_OFFSET_DATE_FORMAT, false)] + c && b[1..] == c;
      assert FirstParsed(c[1..], source, parse) == Err(ConversionFailure);
      assert FirstParsed(c, source, parse) == (
        match parse(ISO_DATE_FORMAT, false, source)
        case Parsed(d) => Ok(d)
        case InvalidPattern => Err(IllegalArgument)
        case ParseFailed => Err(ConversionFailure));
    }
  }

  /** A date comes from an attempt whose predecessors all failed to parse. */
  lemma {:induction false} FirstParsedSpec(attempts: seq<(string, bool)>, source: string, parse: DateParser, d: int)
    ensures FirstParsed(attempts, source, parse) == Ok(d) <==>
      exists i :: 0 <= i < |attempts| && parse(attempts[i].0, attempts[i].1, source) == Parsed(d) &&
        forall j :: 0 <= j < i ==> parse(attempts[j].0, attempts[j].1, source) == ParseFailed
  {
    if attempts != [] {
      FirstParsedSpec(attempts[1..], source, parse, d);
      var p := parse(attempts[0].0, attempts[0].1, source);
      if p == ParseFailed {
        if FirstParsed(attempts, source, parse) == Ok(d) {
          var i :| 0 <= i < |attempts[1..]| && parse(attempts[1..][i].0, attempts[1..][i].1, source) == Parsed(d) &&
            forall j :: 0 <= j < i ==> parse(attempts[1..][j].0, attempts[1..][j].1, source) == ParseFailed;
          assert parse(attempts[i + 1].0, attempts[i + 1].1, source) == Parsed(d);
          forall j | 0 <= j < i + 1
            ensures parse(attempts[j].0, attempts[j].1, source) == ParseFailed
          {
            if j > 0 {
              assert attempts[j] == attempts[1..][j - 1];
            }
          }
        }
        if exists i :: 0 <= i < |attempts| && parse(attempts[i].0, attempts[i].1, source) == Parsed(d) &&
            forall j :: 0 <= j < i ==> parse(attempts[j].0, attempts[j].1, source) == ParseFailed {
          var i :| 0 <= i < |attempts| && parse(attempts[i].0, attempts[i].1, source) == Parsed(d) &&
            forall j :: 0 <= j < i ==> parse(attempts[j].0, attempts[j].1, source) == ParseFailed;
          assert i > 0;
          assert attempts[1..][i - 1] == attempts[i];
          forall j | 0 <= j < i - 1
            ensures parse(attempts[1..][j].0, attempts[1..][j].1, source) == ParseFailed
          {
            assert attempts[1..][j] == attempts[j + 1];
          }
        }
      }
    }
  }

  // ------------------------------------------------------------ Date -> String

  /**
   * The Date->String converter: the current format, which must be set
   * (SimpleDateFormat rejects a null pattern) and valid.
   */
  function DateToString(millis: int, format: Option<string>, formatDate: (string, int) -> Option<string>): (r: Result<string>)
    ensures r.Ok? <==> format.Some? && formatDate(format.value, millis).Some?
    ensures r.Ok? ==> r.value == formatDate(format.value, millis).value
    ensures format.None? ==> r == Err(NullPointer)
  {
    if format.None? then Err(NullPointer)
    else match formatDate(format.value, millis)
      case Some(s) => Ok(s)
      case None => Err(IllegalArgument)
  }

  // ------------------------------------------------------- Map -> Collection

  /** One {key, value} map of the Map->Collection converter; a null value becomes "". */
  function KeyValueMap(key: string, value: Value): Value
  {
    MapV(map["key" := Str(key), "value" := if value == Null then Str("") else value])
  }

  /** The collection made of the flattened entries, one {key, value} map per entry, in order. */
  function KeyValueList(flat: seq<(string, Value)>): (r: seq<Value>)
  {
    seq(|flat|, i requires 0 <= i < |flat| => KeyValueMap(flat[i].0, flat[i].1))
  }

  /**
   * The Map->Collection converter over the flattened entries of the source
   * map, in iteration order: one {key, value} map per entry.
   */
  method MapToCollection(flat: seq<(string, Value)>) returns (r: seq<Value>)
    ensures |r| == |flat|
    ensures forall i :: 0 <= i < |r| ==> r[i] == KeyValueMap(flat[i].0, flat[i].1)
    ensures r == KeyValueList(flat)
  {
    r := [];
    var i := 0;
    while i < |flat|
      invariant 0 <= i <= |flat| && |r| == i
      invariant forall m :: 0 <= m < i ==> r[m] == KeyValueMap(flat[m].0, flat[m].1)
    {
      r := r + [KeyValueMap(flat[i].0, flat[i].1)];
      i := i + 1;
    }
  }

  /** Every element of the collection names its entry's key and never holds a null value. */
  lemma KeyValueMapSpec(key: string, value: Value)
    ensures KeyValueMap(key, value).MapV? && KeyValueMap(key, value).m.Keys == {"key", "value"}
    ensures KeyValueMap(key, value).m["key"] == Str(key)
    ensures KeyValueMap(key, value).m["value"] != Null
    ensures value != Null ==> KeyValueMap(key, value).m["value"] == value
  {
  }

  // ------------------------------------------------------ formatted-key list

  /** The format arguments of one element: its values at the format keys, in order (null when missing). */
  function FormatArgs(m: map<string, Value>, formatKeys: Option<seq<string>>): (r: seq<Value>)
    ensures formatKeys.None? ==> r == []
    ensures formatKeys.Some? ==> (|r| == |formatKeys.value| &&
      forall j :: 0 <= j < |r| ==> r[j] == Get(m, formatKeys.value[j]))
  {
    if formatKeys.None? then []
    else seq(|formatKeys.value|, j requires 0 <= j < |formatKeys.value| => Get(m, formatKeys.value[j]))
  }

  /**
   * The formatted-key converter: each element of the source collection is
   * formatted from its values at the format keys; the list keeps the
   * source's length and order. A null format fails on the first element, as
   * does a format String.format rejects (`format` returns None).
   */
  method FormattedKeys(source: seq<map<string, Value>>, format: Option<string>, formatKeys: Option<seq<string>>,
                       formatter: (string, seq<Value>) -> Option<string>)
    returns (r: Result<seq<string>>)
    ensures r.Ok? <==> (|source| == 0 ||
      (format.Some? && forall i :: 0 <= i < |source| ==> formatter(format.value, FormatArgs(source[i], formatKeys)).Some?))
    ensures r.Ok? ==> (|r.value| == |source| &&
      forall i :: 0 <= i < |source| ==> Some(r.value[i]) == formatter(format.value, FormatArgs(source[i], formatKeys)))
    ensures |source| > 0 && format.None? ==> r == Err(NullPointer)
  {
    var list: seq<string> := [];
    var i := 0;
    while i < |source|
      invariant 0 <= i <= |source| && |list| == i
      invariant i > 0 ==> format.Some?
      invariant forall m :: 0 <= m < i ==> Some(list[m]) == formatter(format.value, FormatArgs(source[m], formatKeys))
    {
      if format.None? {
        return Err(NullPointer);
      }
      var formatted := formatter(format.value, FormatArgs(source[i], formatKeys));
      if formatted.None? {
        return Err(IllegalArgument);
      }
      list := list + [formatted.value];
      i := i + 1;
    }
    return Ok(list);
  }

  // ------------------------------------------------ {namespace}local -> prefix:local

  /** The characters `.` does not match in a Java regex without DOTALL. */
  predicate LineTerminator(c: char)
  {
    c == '\n' || c == '\r' || c == '\U{85}' || c == '\U{2028}' || c == '\U{2029}'
  }

  /** The first line terminator at or after j, or the end. */
  function LineEnd(s: string, j: nat): (e: nat)
    requires j <= |s|
    ensures j <= e <= |s|
    ensures forall k :: j <= k < e ==> !LineTerminator(s[k])
    ensures e < |s| ==> LineTerminator(s[e])
    decreases |s| - j
  {
    if j == |s| || LineTerminator(s[j]) then j else LineEnd(s, j + 1)
  }

  /** The last '}' in s[j..e], if any. */
  function LastClose(s: string, j: nat, e: nat): (q: Option<nat>)
    requires j <= e <= |s|
    ensures q.Some? ==> j <= q.value < e && s[q.value] == '}' && forall k :: q.value < k < e ==> s[k] != '}'
    ensures q.None? ==> forall k :: j <= k < e ==> s[k] != '}'
    decreases e
  {
    if e == j then None
    else if s[e - 1] == '}' then Some(e - 1)
    else LastClose(s, j, e - 1)
  }

  /** The last '}' of a range is found wherever it is. */
  lemma {:induction false} LastCloseAt(s: string, j: nat, e: nat, q: nat)
    requires j <= q < e <= |s| && s[q] == '}'
    requires forall k :: q < k < e ==> s[k] != '}'
    ensures LastClose(s, j, e) == Some(q)
    decreases e
  {
    if q < e - 1 {
      LastCloseAt(s, j, e - 1, q);
    }
  }

  /**
   * Matcher.find for `(\{.*\})(.*)` from position p: the first '{' that a
   * '}' follows on the same line, with the last such '}' (the greedy match).
   * The result is the positions of the two braces.
   */
  function BraceGroupFrom(s: string, p: nat): (r: Option<(nat, nat)>)
    requires p <= |s|
    ensures r.Some? ==> p <= r.value.0 < r.value.1 < |s|
    decreases |s| - p
  {
    if p == |s| then None
    else if s[p] == '{' && LastClose(s, p + 1, LineEnd(s, p + 1)).Some? then
      Some((p, LastClose(s, p + 1, LineEnd(s, p + 1)).value))
    else BraceGroupFrom(s, p + 1)
  }

  /** String.format("%s:%s", prefix, local), where a missing prefix prints as "null". */
  function PrefixedName(prefix: Option<string>, local: string): string
  {
    (if prefix.Some? then prefix.value else "null") + ":" + local
  }

  /**
   * The new name of one key: the namespace is the brace group without its
   * braces, the local name what follows the closing brace up to the end of
   * the line; a key without a brace group has no new name.
   */
  function Renamed(key: string, prefixOf: string -> Option<string>): Option<string>
  {
    match BraceGroupFrom(key, 0)
    case None => None
    case Some((p, q)) =>
      LineEndAfterClose(key, p, q);
      Some(PrefixedName(prefixOf(key[p + 1..q]), key[q + 1..LineEnd(key, p + 1)]))
  }

  lemma LineEndAfterClose(s: string, p: nat, q: nat)
    requires BraceGroupFrom(s, 0) == Some((p, q))
    ensures q < LineEnd(s, p + 1)
  {
    BraceGroupAt(s, 0);
  }

  lemma {:induction false} BraceGroupAt(s: string, p: nat)
    requires p <= |s| && BraceGroupFrom(s, p).Some?
    ensures var (a, b) := BraceGroupFrom(s, p).value;
      s[a] == '{' && LastClose(s, a + 1, LineEnd(s, a + 1)) == Some(b)
    decreases |s| - p
  {
    if !(s[p] == '{' && LastClose(s, p + 1, LineEnd(s, p + 1)).Some?) {
      BraceGroupAt(s, p + 1);
    }
  }

  /** No brace group starts before the first '{' of a key. */
  lemma {:induction false} BraceGroupSkips(s: string, p: nat, pre: nat)
    requires p <= pre <= |s|
    requires forall k :: p <= k < pre ==> s[k] != '{'
    ensures BraceGroupFrom(s, p) == BraceGroupFrom(s, pre)
    decreases pre - p
  {
    if p < pre {
      BraceGroupSkips(s, p + 1, pre);
    }
  }

  /**
   * On a one-line key `pre{ns}local`, where pre has no '{' and local no '}',
   * the namespace is ns (which may itself hold braces) and the local name is local.
   */
  lemma RenamedKey(pre: string, ns: string, local: string, prefixOf: string -> Option<string>)
    requires '{' !in pre && '}' !in local
    requires forall k :: 0 <= k < |pre + "{" + ns + "}" + local| ==> !LineTerminator((pre + "{" + ns + "}" + local)[k])
    ensures Renamed(pre + "{" + ns + "}" + local, prefixOf) == Some(PrefixedName(prefixOf(ns), local))
  {
    var s := pre + "{" + ns + "}" + local;
    var p, q := |pre|, |pre| + 1 + |ns|;
    BraceGroupOfKey(s, pre, ns, local);
    KeyPieces(s, pre, ns, local);
    assert s[p + 1..q] == ns && s[q + 1..LineEnd(s, p + 1)] == local;
  }

  /** In `pre{ns}local` on one line, the brace group runs from the '{' after pre to the '}' before local. */
  lemma BraceGroupOfKey(s: string, pre: string, ns: string, local: string)
    requires s == pre + "{" + ns + "}" + local
    requires '{' !in pre && '}' !in local
    requires forall k :: 0 <= k < |s| ==> !LineTerminator(s[k])
    ensures BraceGroupFrom(s, 0) == Some((|pre|, |pre| + 1 + |ns|))
    ensures LineEnd(s, |pre| + 1) == |s|
  {
    var p := |pre|;
    var q := |pre| + 1 + |ns|;
    forall k | 0 <= k < p ensures s[k] != '{' {
      assert s[k] == pre[k];
    }
    BraceGroupSkips(s, 0, p);
    assert LineEnd(s, p + 1) == |s|;
    forall k | q < k < |s| ensures s[k] != '}' {
      assert s[k] == local[k - q - 1];
    }
    LastCloseAt(s, p + 1, |s|, q);
  }

  /** The text between the braces of `pre{ns}local` is ns, and the text after them is local. */
  lemma KeyPieces(s: string, pre: string, ns: string, local: string)
    requires s == pre + "{" + ns + "}" + local
    ensures s[|pre| + 1..|pre| + 1 + |ns|] == ns
    ensures s[|pre| + 1 + |ns| + 1..|s|] == local
  {
  }

  /** A key with no '{' is dropped. */
  lemma {:induction false} NoBraceNoName(key: string, prefixOf: string -> Option<string>)
    requires '{' !in key
    ensures Renamed(key, prefixOf) == None
  {
    BraceGroupSkips(key, 0, |key|);
  }

  /** The renamed map: each entry, in iteration order, is put under its new name, if it has one. */
  function PrefixedMap(entries: seq<(string, Value)>, prefixOf: string -> Option<string>): map<string, Value>
  {
    if entries == [] then map[]
    else
      var rest := PrefixedMap(entries[..|entries| - 1], prefixOf);
      var last := entries[|entries| - 1];
      match Renamed(last.0, prefixOf)
      case None => rest
      case Some(name) => rest[name := last.1]
  }

  /** mapToPrefixedMapConverter over the source map's entries in iteration order. */
  method ToPrefixedMap(entries: seq<(string, Value)>, prefixOf: string -> Option<string>) returns (r: map<string, Value>)
    ensures r == PrefixedMap(entries, prefixOf)
  {
    r := map[];
    var i := 0;
    while i < |entries|
      invariant 0 <= i <= |entries|
      invariant r == PrefixedMap(entries[..i], prefixOf)
    {
      assert entries[..i + 1][..i] == entries[..i];
      var name := Renamed(entries[i].0, prefixOf);
      if name.Some? {
        r := r[name.value := entries[i].1];
      }
      i := i + 1;
    }
    assert entries[..i] == entries;
  }

  /** Some key, from position i on, renames to name and no later one does. */
  predicate LastRenamedTo(entries: seq<(string, Value)>, i: nat, name: string, prefixOf: string -> Option<string>)
  {
    i < |entries| && Renamed(entries[i].0, prefixOf) == Some(name) &&
    forall j :: i < j < |entries| ==> Renamed(entries[j].0, prefixOf) != Some(name)
  }

  /** Some key renames to name. */
  predicate RenamedFrom(entries: seq<(string, Value)>, name: string, prefixOf: string -> Option<string>)
  {
    exists i :: 0 <= i < |entries| && Renamed(entries[i].0, prefixOf) == Some(name)
  }

  /** A name is in the renamed map exactly when some key renames to it. */
  lemma {:induction false} PrefixedMapKeys(entries: seq<(string, Value)>, prefixOf: string -> Option<string>, name: string)
    ensures name in PrefixedMap(entries, prefixOf) <==> RenamedFrom(entries, name, prefixOf)
  {
    if entries != [] {
      var n := |entries| - 1;
      var front := entries[..n];
      PrefixedMapKeys(front, prefixOf, name);
      if RenamedFrom(front, name, prefixOf) {
        var i :| 0 <= i < |front| && Renamed(front[i].0, prefixOf) == Some(name);
        assert entries[i] == front[i];
      }
      if RenamedFrom(entries, name, prefixOf) {
        var i :| 0 <= i < |entries| && Renamed(entries[i].0, prefixOf) == Some(name);
        if i < n {
          assert front[i] == entries[i];
        }
      }
    }
  }

  /** A renamed name holds the value of the last key renamed to it: later keys overwrite earlier ones. */
  lemma {:induction false} PrefixedMapLast(entries: seq<(string, Value)>, prefixOf: string -> Option<string>, name: string, i: nat)
    requires LastRenamedTo(entries, i, name, prefixOf)
    ensures name in PrefixedMap(entries, prefixOf)
    ensures PrefixedMap(entries, prefixOf)[name] == entries[i].1
  {
    var n := |entries| - 1;
    var front := entries[..n];
    if i < n {
      assert LastRenamedTo(front, i, name, prefixOf);
      PrefixedMapLast(front, prefixOf, name, i);
    }
  }
}
