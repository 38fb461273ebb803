/**
 * StringToMapUtil: parsing the text form of a Java map ("{k=v, k2={...}}")
 * into a map, and the text form of a list ("[a, b]") into a list.
 */
module StringToMapUtil {
  import opened Wrappers
  import opened Text
  import opened Values

  const MAP_BEGIN: char := '{'
  const MAP_END: char := '}'
  const ARRAY_BEGIN: char := '['
  const ARRAY_END: char := ']'
  const WHITESPACE: char := ' '

  // ------------------------------------------------------------ findMapValue

  /**
   * The scan of findMapValue from position i with the running counter found:
   * an opening char (when first is not a blank) counts up, a closing char
   * counts down, and the scan stops where the counter drops below one.
   */
  function EndFrom(s: string, i: nat, first: char, last: char, found: int): (r: nat)
    requires i <= |s|
    ensures i <= r <= |s|
    decreases |s| - i
  {
    if i == |s| then i
    else
      var up := if first != WHITESPACE && s[i] == first then found + 1 else found;
      var down := if s[i] == last then up - 1 else up;
      if down < 1 then i else EndFrom(s, i + 1, first, last, down)
  }

  /** Where the value starting at i ends: the closing char, or |s| when there is none. */
  function ValueEnd(s: string, i: nat, first: char, last: char): (r: nat)
    requires i <= |s|
    ensures i <= r <= |s|
  {
    EndFrom(s, i, first, last, if first == WHITESPACE then 1 else 0)
  }

  method FindMapValue(s: string, start: nat, first: char, last: char) returns (i: nat)
    requires start <= |s|
    ensures i == ValueEnd(s, start, first, last)
  {
    var found := if first == WHITESPACE then 1 else 0;
    i := start;
    while i < |s|
      invariant start <= i <= |s|
      invariant EndFrom(s, i, first, last, found) == ValueEnd(s, start, first, last)
      decreases |s| - i
    {
      if first != WHITESPACE && s[i] == first {
        found := found + 1;
      }
      if s[i] == last {
        found := found - 1;
      }
      if found < 1 {
        return;
      }
      i := i + 1;
    }
  }

  /** A scalar value scanned with a blank as first char ends at the first delimiter. */
  lemma {:induction false} ScalarEnd(s: string, i: nat, last: char, found: int, m: nat)
    requires i <= m <= |s| && found == 1
    requires forall q :: i <= q < m ==> s[q] != last
    requires m == |s| || s[m] == last
    ensures EndFrom(s, i, WHITESPACE, last, found) == m
    decreases m - i
  {
    if i < m {
      ScalarEnd(s, i + 1, last, found, m);
    }
  }

  /** Scanning a bracketed value embedded at offset j gives the same end as scanning it alone. */
  lemma {:induction false} EndFromShift(f: string, t: string, j: nat, x: nat, first: char, last: char, found: int)
    requires j + |t| <= |f| && forall q :: 0 <= q < |t| ==> f[j + q] == t[q]
    requires x <= |t| && EndFrom(t, x, first, last, found) < |t|
    ensures EndFrom(f, j + x, first, last, found) == j + EndFrom(t, x, first, last, found)
    decreases |t| - x
  {
    assert f[j + x] == t[x];
    var up := if first != WHITESPACE && t[x] == first then found + 1 else found;
    var down := if t[x] == last then up - 1 else up;
    if down >= 1 {
      EndFromShift(f, t, j, x + 1, first, last, down);
    }
  }

  // -------------------------------------------------------------- stringToMap

  /** A trimmed value text: the literal null becomes Java null, anything else stays a String. */
  function TextValue(t: string): (v: Value)
    ensures v == Null <==> t == "null"
    ensures v != Null ==> v == Str(t)
  {
    if t == "null" then Null else Str(t)
  }

  /** The first position at or after i that is not a blank, or |f|. */
  function SkipBlanks(f: string, i: nat): (r: nat)
    requires i <= |f|
    ensures i <= r <= |f|
    ensures r < |f| ==> f[r] != WHITESPACE
    ensures forall q :: i <= q < r ==> f[q] == WHITESPACE
    decreases |f| - i
  {
    if i == |f| || f[i] != WHITESPACE then i else SkipBlanks(f, i + 1)
  }

  /**
   * The value that starts at j (a non-blank char): a nested map or list runs
   * to its matching closing bracket, which must exist; a scalar runs to the
   * next delimiter or the end. Returns the value and the index of the char
   * that ended it (the closing bracket, or the delimiter / |f|), plus one.
   */
  function ReadValue(f: string, delimiter: char, j: nat): (r: Result<(Value, nat)>)
    requires j < |f|
    ensures r.Ok? ==> j < r.value.1 <= |f| + 1
    ensures r.Err? ==> r.error == IndexOutOfBounds
  {
    if f[j] == MAP_BEGIN || f[j] == ARRAY_BEGIN then
      var close := if f[j] == MAP_BEGIN then MAP_END else ARRAY_END;
      var end := ValueEnd(f, j, f[j], close);
      if end == |f| then Err(IndexOutOfBounds)
      else Ok((TextValue(Trim(f[j..end + 1])), end + 1))
    else
      var end := ValueEnd(f, j, WHITESPACE, delimiter);
      Ok((TextValue(Trim(f[j..end])), end + 1))
  }

  /**
   * The main loop of stringToMap from position i, with the current key start
   * and the map built so far. A blank moves the key start; an '=' takes the
   * text since the key start as key, reads the value after the blanks and
   * continues past it.
   */
  function Scan(f: string, delimiter: char, i: nat, keyStart: nat, acc: map<string, Value>): Result<map<string, Value>>
    requires keyStart <= i
    decreases |f| + 2 - i
  {
    if i >= |f| then Ok(acc)
    else
      var ks := if f[i] == WHITESPACE then i else keyStart;
      if f[i] != '=' then Scan(f, delimiter, i + 1, ks, acc)
      else
        var key := f[ks..i];
        var j := SkipBlanks(f, i + 1);
        if j == |f| then Scan(f, delimiter, j + 1, j, acc)
        else
          match ReadValue(f, delimiter, j)
          case Err(e) => Err(e)
          case Ok((value, next)) => Scan(f, delimiter, next + 1, next, acc[Trim(key) := value])
  }

  /** The body of the inner loop of stringToMap once it has found the first non-blank char of a value. */
  method ReadEntryValue(formated: string, delimiter: char, i: nat) returns (r: Result<(Value, nat)>)
    requires i < |formated|
    ensures r == ReadValue(formated, delimiter, i)
  {
    if formated[i] == MAP_BEGIN || formated[i] == ARRAY_BEGIN {
      var close := if formated[i] == MAP_BEGIN then MAP_END else ARRAY_END;
      var end := FindMapValue(formated, i, formated[i], close);
      if end == |formated| {
        return Err(IndexOutOfBounds);
      }
      r := Ok((TextValue(Trim(formated[i..end + 1])), end + 1));
    } else {
      var end := FindMapValue(formated, i, WHITESPACE, delimiter);
      r := Ok((TextValue(Trim(formated[i..end])), end + 1));
    }
  }

  lemma ScanOther(f: string, delimiter: char, i: nat, keyStart: nat, acc: map<string, Value>)
    requires keyStart <= i < |f| && f[i] != '='
    ensures Scan(f, delimiter, i, keyStart, acc)
         == Scan(f, delimiter, i + 1, if f[i] == WHITESPACE then i else keyStart, acc)
  {
  }

  lemma ScanPastEnd(f: string, delimiter: char, i: nat, keyStart: nat, acc: map<string, Value>)
    requires keyStart <= i && i >= |f|
    ensures Scan(f, delimiter, i, keyStart, acc) == Ok(acc)
  {
  }

  lemma ScanAssign(f: string, delimiter: char, i: nat, keyStart: nat, acc: map<string, Value>)
    requires keyStart <= i < |f| && f[i] == '='
    ensures SkipBlanks(f, i + 1) == |f| ==>
      Scan(f, delimiter, i, keyStart, acc) == Scan(f, delimiter, |f| + 1, |f|, acc)
    ensures SkipBlanks(f, i + 1) < |f| ==>
      var r := ReadValue(f, delimiter, SkipBlanks(f, i + 1));
      Scan(f, delimiter, i, keyStart, acc)
        == if r.Err? then Err(r.error)
           else Scan(f, delimiter, r.value.1 + 1, r.value.1, acc[Trim(f[keyStart..i]) := r.value.0])
  {
  }

  /**
   * stringToMap: blank input and input that neither starts with '{' nor ends
   * with '}' are rejected; otherwise the first and last chars are dropped and
   * the rest is scanned.
   */
  function ParsedMap(input: string, delimiter: char): Result<map<string, Value>>
  {
    if !HasText(input) then Err(IllegalArgument)
    else if !StartsWith(input, "{") && !EndsWith(input, "}") then Err(IllegalArgument)
    else if |input| < 2 then Err(IndexOutOfBounds)
    else Scan(input[1..|input| - 1], delimiter, 0, 0, map[])
  }

  method StringToMap(input: string, delimiter: char) returns (r: Result<map<string, Value>>)
    ensures r == ParsedMap(input, delimiter)
    ensures !HasText(input) ==> r == Err(IllegalArgument)
    ensures HasText(input) && !StartsWith(input, "{") && !EndsWith(input, "}") ==> r == Err(IllegalArgument)
    ensures r.Err? ==> r.error == IllegalArgument || r.error == IndexOutOfBounds
  {
    if !HasText(input) {
      return Err(IllegalArgument);
    }
    if !StartsWith(input, "{") && !EndsWith(input, "}") {
      return Err(IllegalArgument);
    }
    if |input| < 2 {
      return Err(IndexOutOfBounds);
    }
    var formated := input[1..|input| - 1];
    var m: map<string, Value> := map[];
    var keyStart: nat := 0;
    var i: nat := 0;
    while i < |formated|
      invariant keyStart <= i <= |formated| + 2
      invariant Scan(formated, delimiter, i, keyStart, m) == ParsedMap(input, delimiter)
      decreases |formated| + 2 - i
    {
      var c := formated[i];
      if c == '=' {
        var step := AssignEntry(formated, delimiter, i, keyStart, m);
        if step.Err? {
          return Err(step.error);
        }
        i, m := step.value.0, step.value.1;
        keyStart := i;
      } else {
        ScanOther(formated, delimiter, i, keyStart, m);
        if c == WHITESPACE {
          keyStart := i;
        }
      }
      i := i + 1;
    }
    return Ok(m);
  }

  /**
   * The branch of the stringToMap loop at an '=': the key runs from the key
   * start to the '=', the blanks after it are skipped and, when something
   * follows, the value is read and put under the trimmed key. Answers where
   * the value ended (the new key start) and the map.
   */
  method AssignEntry(formated: string, delimiter: char, at: nat, keyStart: nat, m: map<string, Value>)
    returns (r: Result<(nat, map<string, Value>)>)
    requires keyStart <= at < |formated| && formated[at] == '='
    ensures r.Err? ==> r.error == IndexOutOfBounds && Scan(formated, delimiter, at, keyStart, m) == Err(r.error)
    ensures r.Ok? ==> at < r.value.0 <= |formated| + 1
    ensures r.Ok? ==>
      Scan(formated, delimiter, at, keyStart, m) == Scan(formated, delimiter, r.value.0 + 1, r.value.0, r.value.1)
  {
    ScanAssign(formated, delimiter, at, keyStart, m);
    var key := formated[keyStart..at];
    var i := at + 1;
    while i < |formated| && formated[i] == WHITESPACE
      invariant at + 1 <= i <= |formated|
      invariant SkipBlanks(formated, i) == SkipBlanks(formated, at + 1)
      decreases |formated| - i
    {
      i := i + 1;
    }
    if i < |formated| {
      var read := ReadEntryValue(formated, delimiter, i);
      if read.Err? {
        return Err(read.error);
      }
      return Ok((read.value.1, m[Trim(key) := read.value.0]));
    }
    return Ok((i, m));
  }

  // ------------------------------------------ the text form of a map, and back

  /** How a value is written in the text form of a map. */
  datatype Written = Scalar(text: string) | NullText | Nested(text: string)

  function WrittenText(w: Written): string
  {
    match w
    case Scalar(t) => t
    case NullText => "null"
    case Nested(t) => t
  }

  /** The value stringToMap is meant to produce for a written value. */
  function WrittenValue(w: Written): Value
  {
    match w
    case Scalar(t) => Str(t)
    case NullText => Null
    case Nested(t) => Str(t)
  }

  function Closer(open: char): char
  {
    if open == MAP_BEGIN then MAP_END else ARRAY_END
  }

  /** A key holds no blank, no control char and no '='. */
  predicate KeyOk(k: string)
  {
    forall q :: 0 <= q < |k| ==> k[q] > ' ' && k[q] != '='
  }

  /** A nested map or list: its opening bracket is matched exactly by its last char. */
  predicate Balanced(t: string)
  {
    |t| >= 2 && (t[0] == MAP_BEGIN || t[0] == ARRAY_BEGIN)
    && t[|t| - 1] == Closer(t[0])
    && ValueEnd(t, 0, t[0], Closer(t[0])) == |t| - 1
  }

  /**
   * A scalar is trimmed, non-empty, not the word null, does not open a
   * bracket and holds no delimiter (it may hold blanks and '=').
   */
  predicate WrittenOk(w: Written, delimiter: char)
  {
    match w
    case Scalar(t) =>
      t != [] && IsTrimmed(t) && t[0] != MAP_BEGIN && t[0] != ARRAY_BEGIN
      && delimiter !in t && t != "null"
    case NullText => delimiter !in "null"
    case Nested(t) => Balanced(t)
  }

  predicate EntriesOk(es: seq<(string, Written)>, delimiter: char)
  {
    forall n :: 0 <= n < |es| ==> KeyOk(es[n].0) && WrittenOk(es[n].1, delimiter)
  }

  function EntryText(e: (string, Written)): string
  {
    e.0 + "=" + WrittenText(e.1)
  }

  /** The entries written as Java's AbstractMap.toString does: "k=v" joined by the delimiter and a blank. */
  function Body(es: seq<(string, Written)>, delimiter: char): string
  {
    if |es| == 0 then []
    else if |es| == 1 then EntryText(es[0])
    else EntryText(es[0]) + [delimiter, ' '] + Body(es[1..], delimiter)
  }

  function Render(es: seq<(string, Written)>, delimiter: char): string
  {
    "{" + Body(es, delimiter) + "}"
  }

  /** The map obtained by putting the entries in order (a later key overwrites an earlier one). */
  function Assigned(acc: map<string, Value>, es: seq<(string, Written)>): map<string, Value>
    decreases |es|
  {
    if es == [] then acc else Assigned(acc[es[0].0 := WrittenValue(es[0].1)], es[1..])
  }

  /** Text x occurs in f at position p. */
  predicate At(f: string, p: nat, x: string)
  {
    p + |x| <= |f| && forall q :: 0 <= q < |x| ==> f[p + q] == x[q]
  }

  lemma AtConcat(f: string, p: nat, x: string, y: string)
    requires At(f, p, x + y)
    ensures At(f, p, x) && At(f, p + |x|, y)
  {
    forall q | 0 <= q < |x| ensures f[p + q] == x[q] {
      assert (x + y)[q] == x[q];
    }
    forall q | 0 <= q < |y| ensures f[p + |x| + q] == y[q] {
      assert (x + y)[|x| + q] == y[q];
    }
  }

  lemma AtSlice(f: string, p: nat, x: string)
    requires At(f, p, x)
    ensures f[p..p + |x|] == x
  {
  }

  /** The chars of a key move the scan along without touching the key start. */
  lemma {:induction false} ScanKey(f: string, delimiter: char, p: nat, ks: nat, acc: map<string, Value>, k: string)
    requires ks <= p && At(f, p, k) && KeyOk(k)
    ensures Scan(f, delimiter, p, ks, acc) == Scan(f, delimiter, p + |k|, ks, acc)
    decreases |k|
  {
    if k != [] {
      assert f[p] == k[0];
      ScanOther(f, delimiter, p, ks, acc);
      assert At(f, p + 1, k[1..]) by {
        forall q | 0 <= q < |k[1..]| ensures f[p + 1 + q] == k[1..][q] {
          assert f[p + (q + 1)] == k[q + 1];
        }
      }
      ScanKey(f, delimiter, p + 1, ks, acc, k[1..]);
    }
  }

  lemma ScanAssignOk(f: string, delimiter: char, i: nat, keyStart: nat, acc: map<string, Value>, j: nat, v: Value, next: nat)
    requires keyStart <= i < |f| && f[i] == '='
    requires SkipBlanks(f, i + 1) == j && j < |f|
    requires ReadValue(f, delimiter, j) == Ok((v, next))
    ensures Scan(f, delimiter, i, keyStart, acc) == Scan(f, delimiter, next + 1, next, acc[Trim(f[keyStart..i]) := v])
  {
    ScanAssign(f, delimiter, i, keyStart, acc);
  }

  /** Reading a written value found at j: its value, and where the scan goes on. */
  lemma ReadWritten(f: string, delimiter: char, j: nat, w: Written)
    requires WrittenOk(w, delimiter) && At(f, j, WrittenText(w))
    requires var m := j + |WrittenText(w)|; m == |f| || f[m] == delimiter
    ensures j < |f|
    ensures ReadValue(f, delimiter, j)
         == Ok((WrittenValue(w), j + |WrittenText(w)| + (if w.Nested? then 0 else 1)))
  {
    var t := WrittenText(w);
    var m := j + |t|;
    AtSlice(f, j, t);
    assert f[j] == t[0];
    if w.Nested? {
      EndFromShift(f, t, j, 0, t[0], Closer(t[0]), 0);
      assert ValueEnd(f, j, f[j], Closer(f[j])) == m - 1;
      TrimOfTrimmed(t);
    } else {
      forall q | j <= q < m ensures f[q] != delimiter {
        assert f[j + (q - j)] == t[q - j];
      }
      ScalarEnd(f, j, delimiter, 1, m);
      TrimOfTrimmed(t);
    }
  }

  /** The key text, after the blanks that precede it, trims to the key. */
  lemma KeyTrimmed(f: string, ks: nat, p: nat, k: string)
    requires At(f, p, k) && KeyOk(k)
    requires ks <= p && forall q :: ks <= q < p ==> f[q] == ' '
    ensures Trim(f[ks..p + |k|]) == k
  {
    AtSlice(f, p, k);
    assert f[ks..p + |k|] == f[ks..p] + k;
    var blanks := f[ks..p];
    assert forall q :: 0 <= q < |blanks| ==> blanks[q] <= ' ' by {
      forall q | 0 <= q < |blanks| ensures blanks[q] <= ' ' {
        assert blanks[q] == f[ks + q];
      }
    }
    TrimAfterBlanks(blanks, k);
  }

  /** After the '=' of an entry the value starts at once and reads as the written value. */
  lemma ReadAfterEq(f: string, delimiter: char, eq: nat, w: Written)
    requires WrittenOk(w, delimiter) && At(f, eq, "=" + WrittenText(w))
    requires var m := eq + 1 + |WrittenText(w)|; m == |f| || f[m] == delimiter
    ensures eq + 1 < |f| && f[eq] == '=' && SkipBlanks(f, eq + 1) == eq + 1
    ensures ReadValue(f, delimiter, eq + 1)
         == Ok((WrittenValue(w), eq + 1 + |WrittenText(w)| + (if w.Nested? then 0 else 1)))
  {
    var t := WrittenText(w);
    AtConcat(f, eq, "=", t);
    ReadWritten(f, delimiter, eq + 1, w);
    assert f[eq + 0] == ("=" + t)[0] == '=';
    assert f[eq + 1] == t[0];
    assert t[0] != ' ' by {
      if w.NullText? {
        assert t == "null";
      }
    }
  }

  /** From the '=' of an entry: the value is read and put under the key, and the scan goes on past it. */
  lemma ScanValue(f: string, delimiter: char, eq: nat, ks: nat, acc: map<string, Value>, k: string, w: Written)
    requires WrittenOk(w, delimiter) && At(f, eq, "=" + WrittenText(w))
    requires ks <= eq && Trim(f[ks..eq]) == k
    requires var m := eq + 1 + |WrittenText(w)|;
      m == |f| || (m + 1 < |f| && f[m] == delimiter && f[m + 1] == ' ')
    ensures var m := eq + 1 + |WrittenText(w)|;
      Scan(f, delimiter, eq, ks, acc) == Scan(f, delimiter, m + 2, m + 1, acc[k := WrittenValue(w)])
  {
    var m := eq + 1 + |WrittenText(w)|;
    ReadAfterEq(f, delimiter, eq, w);
    var v := WrittenValue(w);
    var next := m + (if w.Nested? then 0 else 1);
    var acc' := acc[k := v];
    ScanAssignOk(f, delimiter, eq, ks, acc, eq + 1, v, next);
    if w.Nested? {
      if m < |f| {
        ScanOther(f, delimiter, m + 1, m, acc');
      } else {
        ScanPastEnd(f, delimiter, m + 1, m, acc');
        ScanPastEnd(f, delimiter, m + 2, m + 1, acc');
      }
    }
  }

  /**
   * One written entry at p, after blanks that start at the key start: the
   * scan puts the entry and continues two chars past it (past the delimiter
   * and the blank that follow it, or past the end).
   */
  lemma ScanEntry(f: string, delimiter: char, p: nat, ks: nat, acc: map<string, Value>, e: (string, Written))
    requires KeyOk(e.0) && WrittenOk(e.1, delimiter) && At(f, p, EntryText(e))
    requires ks <= p && forall q :: ks <= q < p ==> f[q] == ' '
    requires var m := p + |EntryText(e)|;
      m == |f| || (m + 1 < |f| && f[m] == delimiter && f[m + 1] == ' ')
    ensures var m := p + |EntryText(e)|;
      Scan(f, delimiter, p, ks, acc) == Scan(f, delimiter, m + 2, m + 1, acc[e.0 := WrittenValue(e.1)])
  {
    var k, w := e.0, e.1;
    assert EntryText(e) == k + ("=" + WrittenText(w));
    AtConcat(f, p, k, "=" + WrittenText(w));
    ScanKey(f, delimiter, p, ks, acc, k);
    KeyTrimmed(f, ks, p, k);
    ScanValue(f, delimiter, p + |k|, ks, acc, k, w);
  }

  /** A written body at p is scanned into the map of its entries. */
  lemma {:induction false} ScanBody(f: string, delimiter: char, p: nat, ks: nat, acc: map<string, Value>, es: seq<(string, Written)>)
    requires |es| >= 1 && EntriesOk(es, delimiter)
    requires At(f, p, Body(es, delimiter)) && p + |Body(es, delimiter)| == |f|
    requires ks <= p && forall q :: ks <= q < p ==> f[q] == ' '
    ensures Scan(f, delimiter, p, ks, acc) == Ok(Assigned(acc, es))
    decreases |es|
  {
    var e := es[0];
    var m := p + |EntryText(e)|;
    var acc' := acc[e.0 := WrittenValue(e.1)];
    if |es| == 1 {
      ScanEntry(f, delimiter, p, ks, acc, e);
      assert Assigned(acc, es) == Assigned(acc', []);
    } else {
      BodySplit(f, delimiter, p, es);
      ScanEntry(f, delimiter, p, ks, acc, e);
      ScanBody(f, delimiter, m + 2, m + 1, acc', es[1..]);
    }
  }

  /** A body of two or more entries at p: the first entry, the delimiter and a blank, then the body of the rest. */
  lemma BodySplit(f: string, delimiter: char, p: nat, es: seq<(string, Written)>)
    requires |es| >= 2 && EntriesOk(es, delimiter)
    requires At(f, p, Body(es, delimiter)) && p + |Body(es, delimiter)| == |f|
    ensures var m := p + |EntryText(es[0])|;
      At(f, p, EntryText(es[0])) && m + 1 < |f| && f[m] == delimiter && f[m + 1] == ' ' &&
      At(f, m + 2, Body(es[1..], delimiter)) && m + 2 + |Body(es[1..], delimiter)| == |f|
    ensures EntriesOk(es[1..], delimiter)
  {
    var e := es[0];
    var m := p + |EntryText(e)|;
    var rest := Body(es[1..], delimiter);
    assert Body(es, delimiter) == EntryText(e) + ([delimiter, ' '] + rest);
    AtConcat(f, p, EntryText(e), [delimiter, ' '] + rest);
    AtConcat(f, m, [delimiter, ' '], rest);
    assert f[m + 0] == ([delimiter, ' '] + rest)[0] == delimiter;
    assert f[m + 1] == ([delimiter, ' '] + rest)[1] == ' ';
    forall n | 0 <= n < |es[1..]| ensures KeyOk(es[1..][n].0) && WrittenOk(es[1..][n].1, delimiter) {
      assert es[1..][n] == es[n + 1];
    }
  }

  /**
   * Round trip: the text form of well-formed entries parses back into the
   * map those entries make, nested maps and lists kept as their text and
   * the word null read as Java null.
   */
  lemma ParsedMapOfRender(es: seq<(string, Written)>, delimiter: char)
    requires EntriesOk(es, delimiter)
    ensures ParsedMap(Render(es, delimiter), delimiter) == Ok(Assigned(map[], es))
  {
    var input := Render(es, delimiter);
    var f := Body(es, delimiter);
    assert !IsWhitespace(input[0]);
    assert StartsWith(input, "{");
    assert input[1..|input| - 1] == f;
    if es != [] {
      ScanBody(f, delimiter, 0, 0, map[], es);
    }
  }

  // ------------------------------------------------------- the error paths

  /** With a counter at one or more and no closing char ahead, the scan runs to the end. */
  lemma {:induction false} NoCloserRunsToEnd(s: string, i: nat, first: char, last: char, found: int)
    requires i <= |s| && found >= 1 && first != last
    requires forall q :: i <= q < |s| ==> s[q] != last
    ensures EndFrom(s, i, first, last, found) == |s|
    decreases |s| - i
  {
    if i < |s| {
      var up := if first != WHITESPACE && s[i] == first then found + 1 else found;
      NoCloserRunsToEnd(s, i + 1, first, last, up);
    }
  }

  /**
   * The outer closing brace is dropped before scanning, so a nested map
   * whose own brace is the last char of the input is unclosed and the
   * substring call fails.
   */
  lemma UnclosedNestedFails(k: string, body: string, delimiter: char)
    requires KeyOk(k)
    requires MAP_END !in body
    ensures ParsedMap("{" + k + "={" + body + "}", delimiter) == Err(IndexOutOfBounds)
  {
    var f := k + "={" + body;
    assert "{" + k + "={" + body + "}" == "{" + f + "}";
    ParsedMapOfBraces(f, delimiter);
    UnclosedScan(k, body, f, delimiter);
  }

  /** Input wrapped in braces is parsed by scanning what lies between them. */
  lemma ParsedMapOfBraces(f: string, delimiter: char)
    ensures ParsedMap("{" + f + "}", delimiter) == Scan(f, delimiter, 0, 0, map[])
  {
    var input := "{" + f + "}";
    assert !IsWhitespace(input[0]);
    assert StartsWith(input, "{");
    assert input[1..|input| - 1] == f;
  }

  /** The scan of "key={body" with no closing brace in body fails at the substring call. */
  lemma UnclosedScan(k: string, body: string, f: string, delimiter: char)
    requires KeyOk(k) && MAP_END !in body
    requires f == k + "={" + body
    ensures Scan(f, delimiter, 0, 0, map[]) == Err(IndexOutOfBounds)
  {
    var eq := |k|;
    assert At(f, 0, k) by {
      forall q | 0 <= q < |k| ensures f[0 + q] == k[q] {
        assert f[q] == k[q];
      }
    }
    ScanKey(f, delimiter, 0, 0, map[], k);
    assert f[eq] == '=' && f[eq + 1] == MAP_BEGIN;
    assert SkipBlanks(f, eq + 1) == eq + 1;
    UnclosedRead(k, body, f, delimiter);
    ScanAssign(f, delimiter, eq, 0, map[]);
  }

  /** Reading the value "{body" with no closing brace in body fails. */
  lemma UnclosedRead(k: string, body: string, f: string, delimiter: char)
    requires MAP_END !in body
    requires f == k + "={" + body
    ensures |k| + 1 < |f| && ReadValue(f, delimiter, |k| + 1) == Err(IndexOutOfBounds)
  {
    var eq := |k|;
    assert f[eq + 1] == MAP_BEGIN;
    assert forall q :: eq + 2 <= q < |f| ==> f[q] != MAP_END by {
      forall q | eq + 2 <= q < |f| ensures f[q] != MAP_END {
        assert f[q] == body[q - eq - 2];
      }
    }
    NoCloserRunsToEnd(f, eq + 2, MAP_BEGIN, MAP_END, 1);
    assert ValueEnd(f, eq + 1, MAP_BEGIN, MAP_END) == |f|;
  }

  // -------------------------------------------------------------- valueAsList

  function TrimmedPieces(parts: seq<string>): (r: seq<Value>)
    ensures |r| == |parts|
    ensures forall n :: 0 <= n < |parts| ==> r[n] == Str(Trim(parts[n]))
  {
    seq(|parts|, n requires 0 <= n < |parts| => Str(Trim(parts[n])))
  }

  /**
   * valueAsList: null and the word null give no elements; a String is
   * trimmed, loses its first and last chars and is cut at every delimiter,
   * each piece trimmed; a collection is copied; anything else is refused.
   */
  function ListOf(value: Value, delimiter: char): Result<seq<Value>>
  {
    match value
    case Null => Ok([])
    case Str(s) =>
      if s == "null" then Ok([])
      else
        var tmp := Trim(s);
        if |tmp| < 2 then Err(IndexOutOfBounds)
        else Ok(TrimmedPieces(DelimitedList(tmp[1..|tmp| - 1], [delimiter])))
    case ListV(items) => Ok(items)
    case _ => Err(IllegalArgument)
  }

  method ValueAsList(value: Value, delimiter: char) returns (r: Result<seq<Value>>)
    ensures r == ListOf(value, delimiter)
    ensures value == Null || value == Str("null") ==> r == Ok([])
    ensures r.Err? ==> r.error == IndexOutOfBounds || r.error == IllegalArgument
  {
    if value == Null || value == Str("null") {
      return Ok([]);
    }
    var values: seq<Value> := [];
    if value.Str? {
      var tmp := Trim(value.s);
      if |tmp| < 2 {
        return Err(IndexOutOfBounds);
      }
      var pieces := DelimitedList(tmp[1..|tmp| - 1], [delimiter]);
      var i := 0;
      while i < |pieces|
        invariant 0 <= i <= |pieces|
        invariant values == TrimmedPieces(pieces[..i])
      {
        values := values + [Str(Trim(pieces[i]))];
        i := i + 1;
      }
      assert pieces[..i] == pieces;
    } else if value.ListV? {
      values := values + value.items;
      assert values == value.items;
    } else {
      return Err(IllegalArgument);
    }
    return Ok(values);
  }

  /** The text form of a list as AbstractCollection.toString writes it: "[a, b]" with the delimiter for the comma. */
  function ListText(xs: seq<string>, delimiter: char): string
  {
    "[" + Join(xs, [delimiter, ' ']) + "]"
  }

  function Strs(xs: seq<string>): (r: seq<Value>)
    ensures |r| == |xs| && forall n :: 0 <= n < |xs| ==> r[n] == Str(xs[n])
  {
    seq(|xs|, n requires 0 <= n < |xs| => Str(xs[n]))
  }

  /** The pieces after the first carry the blank that follows each delimiter. */
  function Blanked(xs: seq<string>): (r: seq<string>)
    requires |xs| >= 1
    ensures |r| == |xs| && r[0] == xs[0]
    ensures forall n :: 1 <= n < |xs| ==> r[n] == " " + xs[n]
  {
    [xs[0]] + seq(|xs| - 1, n requires 0 <= n < |xs| - 1 => " " + xs[n + 1])
  }

  lemma {:induction false} JoinBlanked(xs: seq<string>, c: char)
    requires |xs| >= 1
    ensures Join(xs, [c, ' ']) == Join(Blanked(xs), [c])
    decreases |xs|
  {
    if |xs| >= 2 {
      JoinBlanked(xs[1..], c);
      var b := Blanked(xs);
      var b1 := Blanked(xs[1..]);
      assert b[1..] == [" " + b1[0]] + b1[1..];
      assert |b1| >= 2 ==> b1[0] + [c] + Join(b1[1..], [c]) == Join(b1, [c]);
      if |xs| == 2 {
        assert Join(b[1..], [c]) == " " + xs[1];
      } else {
        JoinCons(" " + b1[0], b1[1..], [c]);
        assert Join(b[1..], [c]) == " " + Join(b1, [c]);
      }
      assert Join(xs, [c, ' ']) == xs[0] + [c, ' '] + Join(xs[1..], [c, ' ']);
      assert Join(b, [c]) == b[0] + [c] + Join(b[1..], [c]);
    }
  }

  lemma PiecesOfJoin(xs: seq<string>, delimiter: char)
    requires |xs| >= 1 && xs[0] != [] && delimiter > ' '
    requires forall n :: 0 <= n < |xs| ==> delimiter !in xs[n]
    ensures DelimitedList(Join(xs, [delimiter, ' ']), [delimiter]) == Blanked(xs)
  {
    var b := Blanked(xs);
    var s := Join(xs, [delimiter, ' ']);
    assert s == Join(b, [delimiter]) by {
      JoinBlanked(xs, delimiter);
    }
    assert SplitAll(s, [delimiter]) == b by {
      assert forall n :: 0 <= n < |b| ==> delimiter !in b[n] by {
        forall n | 0 <= n < |b| ensures delimiter !in b[n] {
          if n >= 1 {
            assert b[n] == " " + xs[n];
          }
        }
      }
      SplitAllJoinChar(b, delimiter);
    }
    assert s != [] by {
      JoinLength(b, [delimiter]);
    }
  }

  lemma TrimBlanked(xs: seq<string>)
    requires |xs| >= 1
    requires forall n :: 0 <= n < |xs| ==> IsTrimmed(xs[n])
    ensures TrimmedPieces(Blanked(xs)) == Strs(xs)
  {
    var b := Blanked(xs);
    forall n | 0 <= n < |xs| ensures Trim(b[n]) == xs[n] {
      if n == 0 {
        TrimOfTrimmed(xs[0]);
      } else {
        TrimAfterBlanks(" ", xs[n]);
      }
    }
  }

  /**
   * Round trip: the text form of a list of trimmed, non-empty elements free
   * of the delimiter reads back as those elements.
   */
  lemma ListOfListText(xs: seq<string>, delimiter: char)
    requires delimiter > ' '
    requires forall n :: 0 <= n < |xs| ==> xs[n] != [] && IsTrimmed(xs[n]) && delimiter !in xs[n]
    ensures ListOf(Str(ListText(xs, delimiter)), delimiter) == Ok(Strs(xs))
  {
    var text := ListText(xs, delimiter);
    var inner := Join(xs, [delimiter, ' ']);
    assert text != "null";
    TrimOfTrimmed(text);
    assert text[1..|text| - 1] == inner;
    if xs != [] {
      PiecesOfJoin(xs, delimiter);
      TrimBlanked(xs);
    }
  }
}
