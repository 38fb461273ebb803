/**
 * The Java and Spring string primitives the core relies on: String.trim,
 * StringUtils.hasText, indexOf, the literal forms of String.split and
 * replaceFirst, StringUtils.delimitedListToStringArray, and the decimal
 * conversions of Long.valueOf / Integer.valueOf / Long.toString, together
 * with Java's 32-bit int wrap-around.
 */
module Text {
  import opened Wrappers

  // ---------------------------------------------------------------- trimming

  /** String.trim removes every leading and trailing char at or below U+0020. */
  function TrimStart(s: string): string
  {
    if s == [] || s[0] > ' ' then s else TrimStart(s[1..])
  }

  function TrimEnd(s: string): string
  {
    if s == [] || s[|s| - 1] > ' ' then s else TrimEnd(s[..|s| - 1])
  }

  function Trim(s: string): string
  {
    TrimEnd(TrimStart(s))
  }

  lemma {:induction false} TrimStartSpec(s: string)
    ensures var r := TrimStart(s);
      |r| <= |s| && r == s[|s| - |r|..] && (r != [] ==> r[0] > ' ')
  {
    if s != [] && s[0] <= ' ' {
      TrimStartSpec(s[1..]);
    }
  }

  lemma {:induction false} TrimEndSpec(s: string)
    ensures var r := TrimEnd(s);
      |r| <= |s| && r == s[..|r|] && (r != [] ==> r[|r| - 1] > ' ')
  {
    if s != [] && s[|s| - 1] > ' ' {
    } else if s != [] {
      TrimEndSpec(s[..|s| - 1]);
    }
  }

  lemma TrimEnds(s: string)
    ensures Trim(s) != [] ==> Trim(s)[0] > ' ' && Trim(s)[|Trim(s)| - 1] > ' '
  {
    TrimStartSpec(s);
    TrimEndSpec(TrimStart(s));
  }

  /** A string whose ends are both above U+0020 (or that is empty) is left alone by trim. */
  predicate IsTrimmed(s: string)
  {
    s == [] || (s[0] > ' ' && s[|s| - 1] > ' ')
  }

  lemma TrimOfTrimmed(s: string)
    requires IsTrimmed(s)
    ensures Trim(s) == s
  {
    if s != [] {
      assert TrimStart(s) == s;
      assert TrimEnd(s) == s;
    }
  }

  lemma TrimIsTrimmed(s: string)
    ensures IsTrimmed(Trim(s))
  {
    TrimEnds(s);
  }

  /** trim is idempotent. */
  lemma TrimIdempotent(s: string)
    ensures Trim(Trim(s)) == Trim(s)
  {
    TrimIsTrimmed(s);
    TrimOfTrimmed(Trim(s));
  }

  /** Leading blanks in front of a trimmed word disappear under trim. */
  lemma {:induction false} TrimAfterBlanks(blanks: string, w: string)
    requires forall k :: 0 <= k < |blanks| ==> blanks[k] <= ' '
    requires IsTrimmed(w)
    ensures Trim(blanks + w) == w
    decreases |blanks|
  {
    if blanks == [] {
      assert blanks + w == w;
      TrimOfTrimmed(w);
    } else {
      assert (blanks + w)[1..] == blanks[1..] + w;
      assert TrimStart(blanks + w) == TrimStart(blanks[1..] + w);
      TrimAfterBlanks(blanks[1..], w);
    }
  }

  // ------------------------------------------------------ whitespace, hasText

  /** Character.isWhitespace: the Unicode space separators except the no-break spaces, and the ASCII controls U+0009..U+000D, U+001C..U+001F. */
  predicate IsWhitespace(c: char)
  {
    c == ' ' || ('\t' <= c <= '\r') || ('\U{1C}' <= c <= '\U{1F}')
    || c == '\U{1680}' || ('\U{2000}' <= c <= '\U{2006}') || ('\U{2008}' <= c <= '\U{200A}')
    || c == '\U{2028}' || c == '\U{2029}' || c == '\U{205F}' || c == '\U{3000}'
  }

  /** StringUtils.hasText: some character is not whitespace (so the string is non-null and non-empty). */
  predicate HasText(s: string)
  {
    exists k :: 0 <= k < |s| && !IsWhitespace(s[k])
  }

  // ------------------------------------------------------------- searching

  predicate StartsWith(s: string, p: string)
  {
    |p| <= |s| && s[..|p|] == p
  }

  predicate EndsWith(s: string, p: string)
  {
    |p| <= |s| && s[|s| - |p|..] == p
  }

  predicate OccursAt(s: string, d: string, k: nat)
  {
    k + |d| <= |s| && s[k..k + |d|] == d
  }

  /** String.indexOf(d, i): the first position at or after i at which d occurs in s. */
  function IndexFrom(s: string, d: string, i: nat): (r: Option<nat>)
    ensures r.Some? ==> i <= r.value && OccursAt(s, d, r.value)
    ensures r.Some? ==> forall k :: i <= k < r.value ==> !OccursAt(s, d, k)
    ensures r.None? ==> forall k :: i <= k ==> !OccursAt(s, d, k)
    decreases |s| - i
  {
    if i + |d| > |s| then None
    else if OccursAt(s, d, i) then Some(i)
    else IndexFrom(s, d, i + 1)
  }

  /** String.indexOf: the first position at which d occurs in s. */
  function IndexOf(s: string, d: string): (r: Option<nat>)
    ensures r.Some? ==> OccursAt(s, d, r.value)
    ensures r.Some? ==> forall k :: 0 <= k < r.value ==> !OccursAt(s, d, k)
    ensures r.None? ==> forall k :: 0 <= k ==> !OccursAt(s, d, k)
  {
    IndexFrom(s, d, 0)
  }

  /** For a one-char pattern, indexOf finds the first position holding that char. */
  lemma IndexOfCharSpec(s: string, c: char)
    ensures IndexOf(s, [c]).Some? <==> c in s
    ensures IndexOf(s, [c]).Some? ==> s[IndexOf(s, [c]).value] == c
    ensures IndexOf(s, [c]).Some? ==> forall k :: 0 <= k < IndexOf(s, [c]).value ==> s[k] != c
  {
    forall k | 0 <= k < |s| ensures OccursAt(s, [c], k) <==> s[k] == c {
      assert s[k..k + 1] == [s[k]];
    }
  }

  predicate Contains(s: string, d: string)
  {
    IndexOf(s, d).Some?
  }

  /** String.lastIndexOf(char). */
  function LastIndexOf(s: string, c: char): (r: Option<nat>)
    ensures r.Some? ==> r.value < |s| && s[r.value] == c
    ensures r.Some? ==> forall k :: r.value < k < |s| ==> s[k] != c
    ensures r.None? ==> forall k :: 0 <= k < |s| ==> s[k] != c
  {
    if s == [] then None
    else if s[|s| - 1] == c then Some(|s| - 1)
    else LastIndexOf(s[..|s| - 1], c)
  }

  /** The first occurrence of a single char: no earlier char equals it. */
  lemma IndexOfChar(a: string, c: char, b: string)
    requires forall k :: 0 <= k < |a| ==> a[k] != c
    ensures IndexOf(a + [c] + b, [c]) == Some(|a|)
  {
    var s := a + [c] + b;
    assert OccursAt(s, [c], |a|);
    forall k | 0 <= k < |a| ensures !OccursAt(s, [c], k) {
      assert s[k] == a[k];
    }
  }

  lemma IndexOfCharAbsent(a: string, c: char)
    requires forall k :: 0 <= k < |a| ==> a[k] != c
    ensures IndexOf(a, [c]) == None
  {
    forall k | 0 <= k ensures !OccursAt(a, [c], k) {
      if k + 1 <= |a| {
        assert a[k..k + 1] == [a[k]];
      }
    }
  }

  /** The first occurrence of d, when d's first char does not occur earlier. */
  lemma IndexOfLeading(a: string, d: string, b: string)
    requires |d| > 0 && d[0] !in a
    ensures IndexOf(a + d + b, d) == Some(|a|)
  {
    var s := a + d + b;
    assert s[|a|..|a| + |d|] == d;
    assert OccursAt(s, d, |a|);
    forall k | 0 <= k < |a| ensures !OccursAt(s, d, k) {
      assert s[k] == a[k];
    }
  }

  /** d does not occur where its first char does not. */
  lemma IndexOfLeadingAbsent(a: string, d: string)
    requires |d| > 0 && d[0] !in a
    ensures IndexOf(a, d) == None
  {
    forall k | 0 <= k ensures !OccursAt(a, d, k) {
      if k + |d| <= |a| {
        assert a[k..k + |d|][0] == a[k];
      }
    }
  }

  /** An occurrence at the very start is the first one. */
  lemma IndexOfAtStart(s: string, d: string)
    requires OccursAt(s, d, 0)
    ensures IndexOf(s, d) == Some(0)
  {
  }

  // ------------------------------------------------------------- splitting

  /** Cut s at every occurrence of d, scanning left to right; empty pieces are kept. */
  function SplitAll(s: string, d: string): (r: seq<string>)
    requires |d| > 0
    ensures |r| >= 1
    decreases |s|
  {
    match IndexOf(s, d)
    case None => [s]
    case Some(i) => [s[..i]] + SplitAll(s[i + |d|..], d)
  }

  /** The pieces joined back with the separator between each two. */
  function Join(parts: seq<string>, sep: string): string
  {
    if |parts| == 0 then []
    else if |parts| == 1 then parts[0]
    else parts[0] + sep + Join(parts[1..], sep)
  }

  lemma JoinCons(p: string, tail: seq<string>, sep: string)
    requires |tail| >= 1
    ensures Join([p] + tail, sep) == p + sep + Join(tail, sep)
  {
    assert ([p] + tail)[1..] == tail;
  }

  lemma JoinAtOccurrence(s: string, d: string, i: nat, tail: seq<string>)
    requires OccursAt(s, d, i)
    requires |tail| >= 1 && Join(tail, d) == s[i + |d|..]
    ensures Join([s[..i]] + tail, d) == s
  {
    JoinCons(s[..i], tail, d);
    Reassemble(s, d, i, Join(tail, d));
  }

  /** The text before an occurrence, the delimiter and the text after it make up the whole string. */
  lemma Reassemble(s: string, d: string, i: nat, rest: string)
    requires OccursAt(s, d, i) && rest == s[i + |d|..]
    ensures s[..i] + d + rest == s
  {
    var j := i + |d|;
    assert s[..j] == s[..i] + s[i..j];
    assert s == s[..j] + s[j..];
  }

  lemma JoinLength(parts: seq<string>, sep: string)
    requires |parts| >= 1
    ensures |Join(parts, sep)| >= |parts[0]|
  {
  }

  /** Splitting never loses text: joining the pieces with the delimiter gives the input back. */
  lemma {:induction false} JoinSplitAll(s: string, d: string)
    requires |d| > 0
    ensures Join(SplitAll(s, d), d) == s
    decreases |s|
  {
    match IndexOf(s, d)
    case None =>
    case Some(i) =>
      JoinSplitAll(s[i + |d|..], d);
      JoinAtOccurrence(s, d, i, SplitAll(s[i + |d|..], d));
  }

  /** No piece of a split contains the delimiter. */
  lemma {:induction false} SplitAllPiecesFree(s: string, d: string)
    requires |d| > 0
    ensures forall p :: p in SplitAll(s, d) ==> !Contains(p, d)
    decreases |s|
  {
    match IndexOf(s, d)
    case None =>
    case Some(i) =>
      SplitAllPiecesFree(s[i + |d|..], d);
      var head := s[..i];
      forall k | 0 <= k ensures !OccursAt(head, d, k) {
        if OccursAt(head, d, k) {
          assert s[k..k + |d|] == head[k..k + |d|];
          assert OccursAt(s, d, k);
        }
      }
  }

  /** Splitting at a one-char delimiter inverts joining with it, when no piece holds that char. */
  lemma {:induction false} SplitAllJoinChar(parts: seq<string>, c: char)
    requires |parts| >= 1
    requires forall j :: 0 <= j < |parts| ==> c !in parts[j]
    ensures SplitAll(Join(parts, [c]), [c]) == parts
    decreases |parts|
  {
    if |parts| == 1 {
      IndexOfCharAbsent(parts[0], c);
    } else {
      var rest := Join(parts[1..], [c]);
      IndexOfChar(parts[0], c, rest);
      var s := parts[0] + [c] + rest;
      assert s[..|parts[0]|] == parts[0];
      assert s[|parts[0]| + 1..] == rest;
      SplitAllJoinChar(parts[1..], c);
      assert [parts[0]] + parts[1..] == parts;
    }
  }

  /** StringUtils.delimitedListToStringArray: an empty input gives no pieces; otherwise SplitAll. */
  function DelimitedList(s: string, d: string): (r: seq<string>)
    requires |d| > 0
    ensures s == [] <==> r == []
  {
    if s == [] then [] else SplitAll(s, d)
  }

  function StripTrailingEmpty(parts: seq<string>): (r: seq<string>)
    ensures |r| <= |parts| && r == parts[..|r|]
    ensures r != [] ==> r[|r| - 1] != []
    ensures forall k :: |r| <= k < |parts| ==> parts[k] == []
  {
    if parts == [] || parts[|parts| - 1] != [] then parts
    else StripTrailingEmpty(parts[..|parts| - 1])
  }

  /**
   * String.split with a pattern free of regex metacharacters: no occurrence
   * gives the input itself; otherwise the pieces without the trailing empty ones.
   */
  function JavaSplit(s: string, d: string): (r: seq<string>)
    requires |d| > 0
  {
    if !Contains(s, d) then [s] else StripTrailingEmpty(SplitAll(s, d))
  }

  /** String.split(":", 2) for a one-char pattern: at most two pieces, cut at the first occurrence. */
  function SplitOnce(s: string, c: char): (r: seq<string>)
    ensures 1 <= |r| <= 2
    ensures |r| == 2 <==> c in s
    ensures |r| == 2 ==> r[0] + [c] + r[1] == s && c !in r[0]
    ensures |r| == 1 ==> r[0] == s
  {
    IndexOfCharSpec(s, c);
    match IndexOf(s, [c])
    case None => [s]
    case Some(i) =>
      assert s == s[..i] + [c] + s[i + 1..];
      [s[..i], s[i + 1..]]
  }

  /** String.replaceFirst with a pattern free of regex metacharacters. */
  function ReplaceFirst(s: string, target: string, replacement: string): (r: string)
    requires |target| > 0
    ensures !Contains(s, target) ==> r == s
  {
    match IndexOf(s, target)
    case None => s
    case Some(i) => s[..i] + replacement + s[i + |target|..]
  }

  // -------------------------------------------------------------- numbers

  const LONG_MIN: int := -0x8000_0000_0000_0000
  const LONG_MAX: int := 0x7FFF_FFFF_FFFF_FFFF
  const INT_MIN: int := -0x8000_0000
  const INT_MAX: int := 0x7FFF_FFFF

  predicate IsDigit(c: char) { '0' <= c <= '9' }

  /** Every char is a decimal digit (defined by recursion on the last char). */
  predicate AllDigits(s: string)
  {
    s == [] || (IsDigit(s[|s| - 1]) && AllDigits(s[..|s| - 1]))
  }

  /** AllDigits holds exactly when every char is a digit. */
  lemma {:induction false} AllDigitsEvery(s: string)
    ensures AllDigits(s) <==> forall k :: 0 <= k < |s| ==> IsDigit(s[k])
  {
    if s != [] {
      var front := s[..|s| - 1];
      AllDigitsEvery(front);
      assert forall k :: 0 <= k < |front| ==> front[k] == s[k];
    }
  }

  function DigitsValue(s: string): nat
    requires AllDigits(s)
  {
    if s == [] then 0 else DigitsValue(s[..|s| - 1]) * 10 + (s[|s| - 1] as int - '0' as int)
  }

  /** Long.parseLong / Integer.parseInt before the range check: an optional sign and at least one digit. */
  function ParseInteger(s: string): Option<int>
  {
    if s == [] then None
    else
      var signed := s[0] == '-' || s[0] == '+';
      var digits := if signed then s[1..] else s;
      if digits == [] || !AllDigits(digits) then None
      else
        var v: int := DigitsValue(digits);
        Some(if s[0] == '-' then -v else v)
  }

  /** Long.valueOf(String). */
  function ParseLong(s: string): (r: Result<int>)
    ensures r.Ok? ==> LONG_MIN <= r.value <= LONG_MAX
    ensures r.Err? ==> r.error == NumberFormat
  {
    match ParseInteger(s)
    case Some(v) => if LONG_MIN <= v <= LONG_MAX then Ok(v) else Err(NumberFormat)
    case None => Err(NumberFormat)
  }

  /** Integer.valueOf(String). */
  function ParseInt(s: string): (r: Result<int>)
    ensures r.Ok? ==> INT_MIN <= r.value <= INT_MAX
    ensures r.Err? ==> r.error == NumberFormat
  {
    match ParseInteger(s)
    case Some(v) => if INT_MIN <= v <= INT_MAX then Ok(v) else Err(NumberFormat)
    case None => Err(NumberFormat)
  }

  function DigitChar(d: nat): char
    requires d < 10
  {
    ('0' as int + d) as char
  }

  function NatToString(n: nat): (r: string)
    ensures r != [] && AllDigits(r)
  {
    if n < 10 then [DigitChar(n)]
    else
      var front := NatToString(n / 10);
      assert (front + [DigitChar(n % 10)])[..|front|] == front;
      front + [DigitChar(n % 10)]
  }

  /** Long.toString / Integer.toString: a minus sign for negatives, then the decimal digits. */
  function IntToString(i: int): (r: string)
  {
    if i < 0 then "-" + NatToString(-i) else NatToString(i)
  }

  lemma {:induction false} NatToStringValue(n: nat)
    ensures DigitsValue(NatToString(n)) == n
  {
    if n >= 10 {
      NatToStringValue(n / 10);
      var s := NatToString(n);
      assert s[..|s| - 1] == NatToString(n / 10);
    }
  }

  /** Parsing the decimal text of a number gives the number back. */
  lemma ParseIntegerOfIntToString(i: int)
    ensures ParseInteger(IntToString(i)) == Some(i)
  {
    NatToStringValue(if i < 0 then -i else i);
    AllDigitsEvery(NatToString(if i < 0 then -i else i));
    var s := IntToString(i);
    if i < 0 {
      assert s[1..] == NatToString(-i);
    }
  }

  lemma ParseLongOfIntToString(i: int)
    requires LONG_MIN <= i <= LONG_MAX
    ensures ParseLong(IntToString(i)) == Ok(i)
  {
    ParseIntegerOfIntToString(i);
  }

  lemma ParseIntOfIntToString(i: int)
    requires INT_MIN <= i <= INT_MAX
    ensures ParseInt(IntToString(i)) == Ok(i)
  {
    ParseIntegerOfIntToString(i);
  }

  /** The text of a number never holds a delimiter char other than '-' and digits. */
  lemma IntToStringChars(i: int, c: char)
    requires c != '-' && !IsDigit(c)
    ensures c !in IntToString(i)
  {
    var s := IntToString(i);
    var digits := NatToString(if i < 0 then -i else i);
    if i < 0 {
      assert s == "-" + digits;
    }
    AllDigitsEvery(digits);
    forall k | 0 <= k < |s| ensures s[k] != c {
      if i < 0 && k > 0 {
        assert s[k] == digits[k - 1];
      }
    }
  }

  /** Java int addition: the exact sum folded into the 32-bit two's-complement range. */
  function Wrap32(x: int): (r: int)
    ensures INT_MIN <= r <= INT_MAX
    ensures INT_MIN <= x <= INT_MAX ==> r == x
    ensures (r - x) % 0x1_0000_0000 == 0
  {
    (x - INT_MIN) % 0x1_0000_0000 + INT_MIN
  }
}
