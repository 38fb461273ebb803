/**
 * Rule classification, as a specification: how a rule's evaluator splits into
 * alternatives, how one alternative is decided, how matches are counted, which
 * rule wins, and when a rule set is ambiguous
 * (PeltasHandlerConfigurationProperties.findFirstBestMatchHandler and
 * getEvaluatorConfigurationOccurencies, in both copies of the class).
 */
module Classification {
  import SeqFacts
  import opened Wrappers
  import opened Text
  import opened Values
  import opened Evaluators
  import PropertyLookup

  const OR: string := "|"
  const ASSIGN: string := "="
  const NAMED: string := "<>"

  /** A rule: the handler name and its evaluator expression (None when the handler has none). */
  type Rule = (string, Option<string>)

  /**
   * What an alternative is decided with: the registry's contents, its default
   * evaluator, and the decisions of the evaluators this model does not contain.
   */
  datatype Env = Env(
    registered: map<string, Evaluator>,
    default: Evaluator,
    external: (string, string, string, Entry) -> bool)

  // ------------------------------------------------------------ alternatives

  /** The alternatives of an evaluator: its '|'-separated pieces, or itself. */
  function Alternatives(evaluator: string): (r: seq<string>)
    ensures |r| >= 1
    ensures Join(r, OR) == evaluator
    ensures forall j :: 0 <= j < |r| ==> !Contains(r[j], OR)
  {
    if Contains(evaluator, OR) then
      JoinSplitAll(evaluator, OR);
      SplitAllPiecesFree(evaluator, OR);
      DelimitedList(evaluator, OR)
    else [evaluator]
  }

  /**
   * One alternative: "k=NAME<>v" asks the evaluator registered as NAME
   * (trimmed) about key k and the trimmed v; "k=v" asks the default evaluator
   * about k and v as written; a bare "k" holds when reading k gives non-null.
   */
  function AlternativeMatches(eval: string, entry: Entry, env: Env): Result<bool>
  {
    if Contains(eval, ASSIGN) then
      PropertyLookup.SplitAtSeparator(eval, ASSIGN);
      var keyValue := DelimitedList(eval, ASSIGN);
      var right := keyValue[1];
      var named := DelimitedList(right, NAMED);
      if |named| > 1 then
        var expression := Trim(named[0]);
        IsValueMapped(Resolve(env.registered, env.default, Some(expression)), keyValue[0],
                      Trim(ReplaceFirst(right, expression + NAMED, "")), entry, env.external)
      else
        IsValueMapped(Resolve(env.registered, env.default, None), keyValue[0], right, entry, env.external)
    else
      match PropertyLookup.SingleValue(eval, entry)
      case Ok(v) => Ok(v != Null)
      case Err(e) => Err(e)
  }

  lemma SplitKeyValue(k: string, rest: string)
    requires '=' !in k && '=' !in rest
    ensures Contains(k + ASSIGN + rest, ASSIGN)
    ensures DelimitedList(k + ASSIGN + rest, ASSIGN) == [k, rest]
  {
    var s := k + ASSIGN + rest;
    IndexOfLeading(k, ASSIGN, rest);
    IndexOfLeadingAbsent(rest, ASSIGN);
    assert s[..|k|] == k;
    assert s[|k| + 1..] == rest;
    assert SplitAll(rest, ASSIGN) == [rest];
    assert SplitAll(s, ASSIGN) == [k] + SplitAll(rest, ASSIGN);
  }

  /** "k=NAME<>v" is decided by the evaluator registered as NAME, about k and v. */
  lemma NamedDispatch(k: string, name: string, v: string, entry: Entry, env: Env)
    requires '=' !in k && '=' !in name && '=' !in v
    requires '<' !in name && '<' !in v
    requires IsTrimmed(name) && IsTrimmed(v)
    ensures AlternativeMatches(k + ASSIGN + name + NAMED + v, entry, env)
         == IsValueMapped(Resolve(env.registered, env.default, Some(name)), k, v, entry, env.external)
  {
    var rest := name + NAMED + v;
    assert k + ASSIGN + name + NAMED + v == k + ASSIGN + rest;
    SplitKeyValue(k, rest);
    IndexOfLeading(name, NAMED, v);
    IndexOfLeadingAbsent(v, NAMED);
    assert rest[..|name|] == name;
    assert rest[|name| + 2..] == v;
    assert SplitAll(v, NAMED) == [v];
    assert SplitAll(rest, NAMED) == [name] + SplitAll(v, NAMED);
    assert DelimitedList(rest, NAMED) == [name, v];
    TrimOfTrimmed(name);
    assert rest[0..|name + NAMED|] == name + NAMED;
    IndexOfAtStart(rest, name + NAMED);
    assert ReplaceFirst(rest, name + NAMED, "") == v;
    TrimOfTrimmed(v);
  }

  /** "k=v" without a name is decided by the default evaluator, about k and v untrimmed. */
  lemma DefaultDispatch(k: string, v: string, entry: Entry, env: Env)
    requires '=' !in k && '=' !in v && '<' !in v
    ensures AlternativeMatches(k + ASSIGN + v, entry, env)
         == IsValueMapped(env.default, k, v, entry, env.external)
  {
    SplitKeyValue(k, v);
    if v != [] {
      IndexOfLeadingAbsent(v, NAMED);
    }
  }

  /** A bare key holds exactly when the record has a non-null value for it. */
  lemma BareKey(k: string, entry: Entry, env: Env)
    requires '=' !in k && '@' !in k
    ensures AlternativeMatches(k, entry, env) == Ok(Get(entry.values, k) != Null)
  {
    IndexOfCharAbsent(k, '=');
    IndexOfCharAbsent(k, '@');
  }

  // ----------------------------------------------------------------- counting

  /** How each alternative evaluates against one record. */
  function Matcher(entry: Entry, env: Env): string -> Result<bool>
  {
    eval => AlternativeMatches(eval, entry, env)
  }

  /** The alternatives from j on that hold, added to acc; the first failure ends the count. */
  function CountFrom(alts: seq<string>, j: nat, acc: nat, matches: string -> Result<bool>): Result<nat>
    requires j <= |alts|
    decreases |alts| - j
  {
    if j == |alts| then Ok(acc)
    else
      match matches(alts[j])
      case Err(e) => Err(e)
      case Ok(b) => CountFrom(alts, j + 1, if b then acc + 1 else acc, matches)
  }

  /** The number of a rule's alternatives that hold, evaluated left to right. */
  function Count(alts: seq<string>, entry: Entry, env: Env): Result<nat>
  {
    CountFrom(alts, 0, 0, Matcher(entry, env))
  }

  /** An alternative holds: it evaluates without failure to true. */
  predicate Holds(eval: string, entry: Entry, env: Env)
  {
    AlternativeMatches(eval, entry, env) == Ok(true)
  }

  lemma {:induction false} CountFromBounds(alts: seq<string>, j: nat, acc: nat, matches: string -> Result<bool>)
    requires j <= |alts|
    requires CountFrom(alts, j, acc, matches).Ok?
    ensures acc <= CountFrom(alts, j, acc, matches).value <= acc + |alts| - j
    ensures CountFrom(alts, j, acc, matches).value == acc + |alts| - j ==>
      forall m :: j <= m < |alts| ==> matches(alts[m]) == Ok(true)
    ensures CountFrom(alts, j, acc, matches).value == acc ==>
      forall m :: j <= m < |alts| ==> matches(alts[m]) != Ok(true)
    decreases |alts| - j
  {
    if j < |alts| {
      var b := matches(alts[j]).value;
      CountFromBounds(alts, j + 1, if b then acc + 1 else acc, matches);
    }
  }

  /** A count is at most the number of alternatives; it reaches it only when all hold, and is 0 only when none does. */
  lemma CountBounds(alts: seq<string>, entry: Entry, env: Env)
    requires Count(alts, entry, env).Ok?
    ensures Count(alts, entry, env).value <= |alts|
    ensures Count(alts, entry, env).value == |alts| <==> forall m :: 0 <= m < |alts| ==> Holds(alts[m], entry, env)
    ensures Count(alts, entry, env).value == 0 <==> forall m :: 0 <= m < |alts| ==> !Holds(alts[m], entry, env)
  {
    var matches := Matcher(entry, env);
    assert forall m :: 0 <= m < |alts| ==> (Holds(alts[m], entry, env) <==> matches(alts[m]) == Ok(true));
    CountFromBounds(alts, 0, 0, matches);
    if forall m :: 0 <= m < |alts| ==> matches(alts[m]) == Ok(true) {
      AllHold(alts, 0, 0, matches);
    }
    if forall m :: 0 <= m < |alts| ==> matches(alts[m]) != Ok(true) {
      NoneHolds(alts, 0, 0, matches);
    }
  }

  lemma {:induction false} AllHold(alts: seq<string>, j: nat, acc: nat, matches: string -> Result<bool>)
    requires j <= |alts|
    requires forall m :: j <= m < |alts| ==> matches(alts[m]) == Ok(true)
    ensures CountFrom(alts, j, acc, matches) == Ok(acc + |alts| - j)
    decreases |alts| - j
  {
    if j < |alts| {
      AllHold(alts, j + 1, acc + 1, matches);
    }
  }

  lemma {:induction false} NoneHolds(alts: seq<string>, j: nat, acc: nat, matches: string -> Result<bool>)
    requires j <= |alts|
    requires CountFrom(alts, j, acc, matches).Ok?
    requires forall m :: j <= m < |alts| ==> matches(alts[m]) != Ok(true)
    ensures CountFrom(alts, j, acc, matches) == Ok(acc)
    decreases |alts| - j
  {
    if j < |alts| {
      NoneHolds(alts, j + 1, acc, matches);
    }
  }

  /** The match counts of rules i.. appended to acc, in rule order; a rule without evaluator fails. */
  function ScoresFrom(rules: seq<Rule>, i: nat, acc: seq<nat>, entry: Entry, env: Env): Result<seq<nat>>
    requires i <= |rules|
    decreases |rules| - i
  {
    if i == |rules| then Ok(acc)
    else
      match rules[i].1
      case None => Err(NullPointer)
      case Some(ev) =>
        match Count(Alternatives(ev), entry, env)
        case Err(e) => Err(e)
        case Ok(c) => ScoresFrom(rules, i + 1, acc + [c], entry, env)
  }

  /** The match count of every rule, in rule order. */
  function Scores(rules: seq<Rule>, entry: Entry, env: Env): Result<seq<nat>>
  {
    ScoresFrom(rules, 0, [], entry, env)
  }

  /** Rank: the number of alternatives of a rule that has an evaluator. */
  function Rank(rule: Rule): nat
    requires rule.1.Some?
  {
    |Alternatives(rule.1.value)|
  }

  lemma {:induction false} ScoresFromSpec(rules: seq<Rule>, i: nat, acc: seq<nat>, entry: Entry, env: Env)
    requires i <= |rules| && |acc| == i
    requires ScoresFrom(rules, i, acc, entry, env).Ok?
    ensures |ScoresFrom(rules, i, acc, entry, env).value| == |rules|
    ensures ScoresFrom(rules, i, acc, entry, env).value[..i] == acc
    ensures forall m :: i <= m < |rules| ==> (rules[m].1.Some? &&
      Count(Alternatives(rules[m].1.value), entry, env) == Ok(ScoresFrom(rules, i, acc, entry, env).value[m]))
    decreases |rules| - i
  {
    if i < |rules| {
      var c := Count(Alternatives(rules[i].1.value), entry, env).value;
      ScoresFromSpec(rules, i + 1, acc + [c], entry, env);
      assert (acc + [c])[..i] == acc;
      var cs := ScoresFrom(rules, i, acc, entry, env).value;
      assert cs[..i + 1][i] == c;
    }
  }

  /** When scoring succeeds, every rule has an evaluator and its count is the count of its alternatives. */
  lemma ScoresSpec(rules: seq<Rule>, entry: Entry, env: Env)
    requires Scores(rules, entry, env).Ok?
    ensures |Scores(rules, entry, env).value| == |rules|
    ensures forall m :: 0 <= m < |rules| ==> (rules[m].1.Some? &&
      Count(Alternatives(rules[m].1.value), entry, env) == Ok(Scores(rules, entry, env).value[m]))
    ensures forall m :: 0 <= m < |rules| ==> Scores(rules, entry, env).value[m] <= Rank(rules[m])
  {
    ScoresFromSpec(rules, 0, [], entry, env);
    forall m | 0 <= m < |rules| ensures Scores(rules, entry, env).value[m] <= Rank(rules[m]) {
      CountBounds(Alternatives(rules[m].1.value), entry, env);
    }
  }

  /** Scoring succeeds when every rule has an evaluator and every alternative evaluates. */
  lemma {:induction false} ScoresFromOk(rules: seq<Rule>, i: nat, acc: seq<nat>, entry: Entry, env: Env, counts: seq<nat>)
    requires i <= |rules| && |counts| == |rules| && |acc| == i && acc == counts[..i]
    requires forall m :: i <= m < |rules| ==> (rules[m].1.Some? &&
      Count(Alternatives(rules[m].1.value), entry, env) == Ok(counts[m]))
    ensures ScoresFrom(rules, i, acc, entry, env) == Ok(counts)
    decreases |rules| - i
  {
    if i < |rules| {
      assert acc + [counts[i]] == counts[..i + 1];
      ScoresFromOk(rules, i + 1, acc + [counts[i]], entry, env, counts);
    } else {
      assert counts[..i] == counts;
    }
  }

  // --------------------------------------------------------------- the leader

  /**
   * The leader: a rule with a positive count, strictly above every earlier
   * rule and at least every later one (the first with the strictly highest count).
   */
  predicate IsLeader(counts: seq<nat>, i: nat)
  {
    i < |counts| && counts[i] > 0 &&
    (forall j :: 0 <= j < i ==> counts[j] < counts[i]) &&
    (forall j :: i < j < |counts| ==> counts[j] <= counts[i])
  }

  /** The running best from position j on, starting from best (the loop over the match table). */
  function LeaderFrom(counts: seq<nat>, j: nat, best: Option<nat>): (r: Option<nat>)
    requires j <= |counts|
    requires best.Some? ==> best.value < j
    ensures r.Some? ==> r.value < |counts|
    decreases |counts| - j
  {
    if j == |counts| then best
    else
      var bestSize := if best.Some? then counts[best.value] else 0;
      if counts[j] > bestSize then LeaderFrom(counts, j + 1, Some(j))
      else LeaderFrom(counts, j + 1, best)
  }

  function Leader(counts: seq<nat>): Option<nat>
  {
    LeaderFrom(counts, 0, None)
  }

  lemma {:induction false} LeaderFromSpec(counts: seq<nat>, j: nat, best: Option<nat>)
    requires j <= |counts|
    requires best.Some? ==> best.value < j && IsLeader(counts[..j], best.value)
    requires best.None? ==> forall m :: 0 <= m < j ==> counts[m] == 0
    ensures LeaderFrom(counts, j, best).Some? ==> IsLeader(counts, LeaderFrom(counts, j, best).value)
    ensures LeaderFrom(counts, j, best).None? ==> forall m :: 0 <= m < |counts| ==> counts[m] == 0
    decreases |counts| - j
  {
    if j == |counts| {
      assert counts[..j] == counts;
    } else {
      var bestSize := if best.Some? then counts[best.value] else 0;
      if counts[j] > bestSize {
        forall m | 0 <= m < j ensures counts[m] < counts[j] {
          if best.Some? {
            assert counts[..j][m] == counts[m];
            assert counts[..j][best.value] == counts[best.value];
          }
        }
        LeaderFromSpec(counts, j + 1, Some(j));
      } else {
        if best.Some? {
          var b := best.value;
          var prefix := counts[..j + 1];
          assert forall m :: 0 <= m < j ==> prefix[m] == counts[..j][m];
          assert prefix[j] <= prefix[b];
        }
        LeaderFromSpec(counts, j + 1, best);
      }
    }
  }

  /** There is at most one leader. */
  lemma LeaderUnique(counts: seq<nat>, i: nat, k: nat)
    requires IsLeader(counts, i) && IsLeader(counts, k)
    ensures i == k
  {
  }

  /** Leader finds the leader, and finds none exactly when no count is positive. */
  lemma LeaderSpec(counts: seq<nat>)
    ensures forall i: nat :: Leader(counts) == Some(i) <==> IsLeader(counts, i)
    ensures Leader(counts).None? <==> forall m :: 0 <= m < |counts| ==> counts[m] == 0
  {
    LeaderFromSpec(counts, 0, None);
    forall i: nat | IsLeader(counts, i) ensures Leader(counts) == Some(i) {
      if Leader(counts).Some? {
        LeaderUnique(counts, i, Leader(counts).value);
      }
    }
  }

  /** Zero counts never change the running best: the loop over positive counts only is the same. */
  lemma {:induction false} LeaderSkipsZeros(counts: seq<nat>, j: nat, k: nat, best: Option<nat>)
    requires j <= k <= |counts|
    requires best.Some? ==> best.value < j
    requires forall m :: j <= m < k ==> counts[m] == 0
    ensures LeaderFrom(counts, j, best) == LeaderFrom(counts, k, best)
    decreases k - j
  {
    if j < k {
      LeaderSkipsZeros(counts, j + 1, k, best);
    }
  }

  // ------------------------------------------------------------- best match

  /**
   * findFirstBestMatchHandler: the leader's name when the leader matched all
   * its alternatives; otherwise no handler. A failure while scoring is the result.
   */
  function BestMatch(rules: seq<Rule>, entry: Entry, env: Env): Result<Option<string>>
  {
    match Scores(rules, entry, env)
    case Err(e) => Err(e)
    case Ok(counts) =>
      ScoresSpec(rules, entry, env);
      match Leader(counts)
      case None => Ok(None)
      case Some(i) =>
        if counts[i] == Rank(rules[i]) then Ok(Some(rules[i].0)) else Ok(None)
  }

  /** A rule matches fully: it has an evaluator and every alternative holds. */
  predicate FullyMatched(rule: Rule, entry: Entry, env: Env)
  {
    rule.1.Some? &&
    forall m :: 0 <= m < |Alternatives(rule.1.value)| ==> Holds(Alternatives(rule.1.value)[m], entry, env)
  }

  /** A chosen handler is a rule that matched all of its alternatives, and is the leader. */
  lemma BestMatchIsFull(rules: seq<Rule>, entry: Entry, env: Env)
    requires BestMatch(rules, entry, env).Ok? && BestMatch(rules, entry, env).value.Some?
    ensures exists i :: (0 <= i < |rules| && rules[i].0 == BestMatch(rules, entry, env).value.value &&
      FullyMatched(rules[i], entry, env) && IsLeader(Scores(rules, entry, env).value, i))
  {
    var counts := Scores(rules, entry, env).value;
    ScoresSpec(rules, entry, env);
    LeaderSpec(counts);
    var i := Leader(counts).value;
    CountBounds(Alternatives(rules[i].1.value), entry, env);
    assert FullyMatched(rules[i], entry, env);
  }

  /** When no alternative of any rule holds, there is no handler. */
  lemma NothingMatches(rules: seq<Rule>, entry: Entry, env: Env)
    requires Scores(rules, entry, env).Ok?
    requires forall i :: 0 <= i < |rules| ==> (rules[i].1.Some? &&
      forall m :: 0 <= m < |Alternatives(rules[i].1.value)| ==> !Holds(Alternatives(rules[i].1.value)[m], entry, env))
    ensures BestMatch(rules, entry, env) == Ok(None)
  {
    var counts := Scores(rules, entry, env).value;
    ScoresSpec(rules, entry, env);
    forall m | 0 <= m < |counts| ensures counts[m] == 0 {
      CountBounds(Alternatives(rules[m].1.value), entry, env);
    }
    LeaderSpec(counts);
  }

  /** A fully matched rule whose count beats every other rule's is chosen. */
  lemma StrictlyBestFullMatchWins(rules: seq<Rule>, entry: Entry, env: Env, counts: seq<nat>, i: nat)
    requires Scores(rules, entry, env) == Ok(counts)
    requires i < |rules| && i < |counts| && FullyMatched(rules[i], entry, env)
    requires forall j :: 0 <= j < |counts| && j != i ==> counts[j] < counts[i]
    ensures BestMatch(rules, entry, env) == Ok(Some(rules[i].0))
  {
    ScoresSpec(rules, entry, env);
    CountBounds(Alternatives(rules[i].1.value), entry, env);
    assert IsLeader(counts, i);
    LeaderSpec(counts);
  }

  /** A leader that matched only some of its alternatives hides every other rule, fully matched or not. */
  lemma PartialLeaderMasks(rules: seq<Rule>, entry: Entry, env: Env, p: nat)
    requires Scores(rules, entry, env).Ok?
    requires IsLeader(Scores(rules, entry, env).value, p)
    requires p < |rules| && !FullyMatched(rules[p], entry, env)
    ensures BestMatch(rules, entry, env) == Ok(None)
  {
    var counts := Scores(rules, entry, env).value;
    ScoresSpec(rules, entry, env);
    LeaderSpec(counts);
    CountBounds(Alternatives(rules[p].1.value), entry, env);
  }

  /** The record and the two rules of the masking instances: "a" holds, "b" does not. */
  lemma MaskingCounts(env: Env)
    ensures var entry := Entry(None, None, None, None, map["a" := Str("x")]);
      Alternatives("a|b") == ["a", "b"] && Alternatives("a") == ["a"] &&
      Holds("a", entry, env) && Count(["a", "b"], entry, env) == Ok(1) && Count(["a"], entry, env) == Ok(1)
  {
    var entry := Entry(None, None, None, None, map["a" := Str("x")]);
    IndexOfCharAbsent("a", '|');
    IndexOfChar("a", '|', "b");
    IndexOfCharAbsent("b", '|');
    assert "a|b" == "a" + ['|'] + "b";
    BareKey("a", entry, env);
    BareKey("b", entry, env);
  }

  /** Both rules of the masking instances match once, in either order. */
  lemma MaskingScores(env: Env, swapped: bool)
    ensures var entry := Entry(None, None, None, None, map["a" := Str("x")]);
      var rules: seq<Rule> := if swapped then [("full", Some("a")), ("partial", Some("a|b"))]
                              else [("partial", Some("a|b")), ("full", Some("a"))];
      Scores(rules, entry, env) == Ok([1, 1])
  {
    var entry := Entry(None, None, None, None, map["a" := Str("x")]);
    var rules: seq<Rule> := if swapped then [("full", Some("a")), ("partial", Some("a|b"))]
                            else [("partial", Some("a|b")), ("full", Some("a"))];
    MaskingCounts(env);
    assert rules[0].1.Some? && Count(Alternatives(rules[0].1.value), entry, env) == Ok(1);
    assert rules[1].1.Some? && Count(Alternatives(rules[1].1.value), entry, env) == Ok(1);
    ScoresFromOk(rules, 0, [], entry, env, [1, 1]);
  }

  /**
   * An instance of the masking: rule "partial" ("a|b") matches one of two
   * alternatives and leads, so rule "full" ("a"), which matched fully, is not chosen.
   */
  lemma MaskingExample(env: Env)
    ensures var entry := Entry(None, None, None, None, map["a" := Str("x")]);
            var rules: seq<Rule> := [("partial", Some("a|b")), ("full", Some("a"))];
            FullyMatched(rules[1], entry, env) && BestMatch(rules, entry, env) == Ok(None)
  {
    var entry := Entry(None, None, None, None, map["a" := Str("x")]);
    var rules: seq<Rule> := [("partial", Some("a|b")), ("full", Some("a"))];
    MaskingCounts(env);
    MaskingScores(env, false);
    assert IsLeader([1, 1], 0);
    assert FullyMatched(rules[1], entry, env);
    PartialLeaderMasks(rules, entry, env, 0);
  }

  /**
   * The order of the rules decides ties: the same two rules in the other
   * order choose "full", since the first of equal counts leads.
   */
  lemma OrderDecidesTies(env: Env)
    ensures var entry := Entry(None, None, None, None, map["a" := Str("x")]);
            var rules: seq<Rule> := [("full", Some("a")), ("partial", Some("a|b"))];
            BestMatch(rules, entry, env) == Ok(Some("full"))
  {
    var entry := Entry(None, None, None, None, map["a" := Str("x")]);
    var rules: seq<Rule> := [("full", Some("a")), ("partial", Some("a|b"))];
    MaskingCounts(env);
    MaskingScores(env, true);
    assert IsLeader([1, 1], 0);
    LeaderSpec([1, 1]);
  }

  // ------------------------------------------------- the best full match

  /** The count a rule keeps in the corrected selection: its count when that is its rank, and 0 otherwise. */
  function FullCount(rule: Rule, count: nat): nat
  {
    if rule.1.Some? && count == Rank(rule) then count else 0
  }

  /** The counts with every rule that did not match all its alternatives set to zero. */
  function FullCounts(rules: seq<Rule>, counts: seq<nat>): seq<nat>
  {
    seq(|counts|, m requires 0 <= m < |counts| => if m < |rules| then FullCount(rules[m], counts[m]) else 0)
  }

  /**
   * The selection the masking suggests was meant: among the rules that
   * matched all their alternatives, the first of those with the most.
   */
  function BestFullMatch(rules: seq<Rule>, entry: Entry, env: Env): Result<Option<string>>
  {
    match Scores(rules, entry, env)
    case Err(e) => Err(e)
    case Ok(counts) =>
      match Leader(FullCounts(rules, counts))
      case None => Ok(None)
      case Some(i) => if i < |rules| then Ok(Some(rules[i].0)) else Ok(None)
  }

  /** For scored rules, the kept count is the rank of a fully matched rule and 0 for any other. */
  lemma FullCountsOfScores(rules: seq<Rule>, entry: Entry, env: Env)
    requires Scores(rules, entry, env).Ok?
    ensures |FullCounts(rules, Scores(rules, entry, env).value)| == |rules|
    ensures forall j :: 0 <= j < |rules| ==>
              FullCounts(rules, Scores(rules, entry, env).value)[j] ==
              (if FullyMatched(rules[j], entry, env) then Rank(rules[j]) else 0)
  {
    var counts := Scores(rules, entry, env).value;
    ScoresSpec(rules, entry, env);
    forall j | 0 <= j < |rules|
      ensures FullCounts(rules, counts)[j] == if FullyMatched(rules[j], entry, env) then Rank(rules[j]) else 0
    {
      CountBounds(Alternatives(rules[j].1.value), entry, env);
    }
  }

  /**
   * Rule i matched all of its alternatives, has some, has more than every
   * earlier fully matched rule and at least as many as every later one.
   */
  predicate BestAmongFull(rules: seq<Rule>, entry: Entry, env: Env, i: nat)
  {
    i < |rules| && FullyMatched(rules[i], entry, env) && Rank(rules[i]) > 0 &&
    (forall j :: 0 <= j < i && FullyMatched(rules[j], entry, env) ==> Rank(rules[j]) < Rank(rules[i])) &&
    (forall j :: i < j < |rules| && FullyMatched(rules[j], entry, env) ==> Rank(rules[j]) <= Rank(rules[i]))
  }

  /**
   * The best full match is the fully matched rule with the most alternatives,
   * the first of them on a tie; there is none exactly when every fully
   * matched rule has no alternatives at all.
   */
  lemma BestFullMatchSpec(rules: seq<Rule>, entry: Entry, env: Env)
    requires Scores(rules, entry, env).Ok?
    ensures BestFullMatch(rules, entry, env).Ok?
    ensures BestFullMatch(rules, entry, env).value.None? <==>
      forall j :: 0 <= j < |rules| && FullyMatched(rules[j], entry, env) ==> Rank(rules[j]) == 0
    ensures BestFullMatch(rules, entry, env).value.Some? ==>
      exists i :: 0 <= i < |rules| && rules[i].0 == BestFullMatch(rules, entry, env).value.value &&
        BestAmongFull(rules, entry, env, i)
  {
    var fc := FullCounts(rules, Scores(rules, entry, env).value);
    FullCountsOfScores(rules, entry, env);
    LeaderSpec(fc);
    if Leader(fc).Some? {
      var i := Leader(fc).value;
      assert IsLeader(fc, i);
      assert BestAmongFull(rules, entry, env, i);
    }
  }

  /** Wherever the source's selection chooses a handler, the best full match chooses the same. */
  lemma BestMatchAgreesWithFull(rules: seq<Rule>, entry: Entry, env: Env)
    requires BestMatch(rules, entry, env).Ok? && BestMatch(rules, entry, env).value.Some?
    ensures BestFullMatch(rules, entry, env) == BestMatch(rules, entry, env)
  {
    var counts := Scores(rules, entry, env).value;
    ScoresSpec(rules, entry, env);
    LeaderSpec(counts);
    var i := Leader(counts).value;
    var fc := FullCounts(rules, counts);
    assert forall j :: 0 <= j < |fc| ==> fc[j] <= counts[j];
    assert fc[i] == counts[i];
    assert IsLeader(fc, i);
    LeaderSpec(fc);
  }

  /** On the masking instance, the best full match chooses the fully matched rule. */
  lemma MaskingCorrected(env: Env)
    ensures var entry := Entry(None, None, None, None, map["a" := Str("x")]);
            var rules: seq<Rule> := [("partial", Some("a|b")), ("full", Some("a"))];
            BestFullMatch(rules, entry, env) == Ok(Some("full"))
  {
    var entry := Entry(None, None, None, None, map["a" := Str("x")]);
    var rules: seq<Rule> := [("partial", Some("a|b")), ("full", Some("a"))];
    MaskingCounts(env);
    MaskingScores(env, false);
    var fc := FullCounts(rules, [1, 1]);
    assert fc[0] == 0 && fc[1] == 1;
    assert IsLeader(fc, 1);
    LeaderSpec(fc);
  }

  // ------------------------------------------------------------ ambiguity

  /** LinkedMultiValueMap: keys in insertion order, each with its list of values. */
  datatype MultiMap = MultiMap(keys: seq<string>, lists: map<string, seq<string>>)

  const EMPTY_MULTI_MAP: MultiMap := MultiMap([], map[])

  /** The keys are distinct and are exactly the keys that have a list. */
  ghost predicate WellFormed(mm: MultiMap)
  {
    (forall a, b :: 0 <= a < b < |mm.keys| ==> mm.keys[a] != mm.keys[b]) &&
    (forall k :: k in mm.lists <==> k in mm.keys)
  }

  /** add(k, v): v is appended to k's list; a new key goes last. */
  function Add(mm: MultiMap, k: string, v: string): (r: MultiMap)
    ensures r.lists.Keys == mm.lists.Keys + {k}
    ensures r.lists[k] == (if k in mm.lists then mm.lists[k] else []) + [v]
    ensures forall k' :: k' in mm.lists && k' != k ==> r.lists[k'] == mm.lists[k']
    ensures WellFormed(mm) ==> WellFormed(r)
  {
    if k in mm.lists then MultiMap(mm.keys, mm.lists[k := mm.lists[k] + [v]])
    else MultiMap(mm.keys + [k], mm.lists[k := [v]])
  }

  predicate ContainsAll(xs: seq<string>, ys: seq<string>)
  {
    forall y :: y in ys ==> y in xs
  }

  /**
   * The recorded lists overlap: some rule's list contains every element of
   * another key's list.
   */
  predicate Overlaps(rules: seq<Rule>, sha: MultiMap)
  {
    exists i, j :: 0 <= i < |rules| && 0 <= j < |sha.keys| && OverlapAt(rules, sha, i, j)
  }

  /** Rule i's list contains every entry of the list of sha key j, another key. */
  predicate OverlapAt(rules: seq<Rule>, sha: MultiMap, i: int, j: int)
  {
    0 <= i < |rules| && 0 <= j < |sha.keys| &&
    rules[i].0 != sha.keys[j] && rules[i].0 in sha.lists && sha.keys[j] in sha.lists &&
    ContainsAll(sha.lists[rules[i].0], sha.lists[sha.keys[j]])
  }

  /** Record one rule's alternatives from m on: each into `all` under the rule and into `sha` for the rule. */
  function RecordAlternatives(name: string, alts: seq<string>, m: nat, all: MultiMap, sha: MultiMap): (MultiMap, MultiMap)
    requires m <= |alts|
    decreases |alts| - m
  {
    if m == |alts| then (all, sha)
    else RecordAlternatives(name, alts, m + 1, Add(all, alts[m], name), Add(sha, name, alts[m]))
  }

  /**
   * Record rules i.. (the loop of getEvaluatorConfigurationOccurencies): the
   * occurrence map, or the failure at a rule without evaluator, and the new sha map.
   */
  function RecordFrom(rules: seq<Rule>, i: nat, all: MultiMap, sha: MultiMap): (Result<MultiMap>, MultiMap)
    requires i <= |rules|
    decreases |rules| - i
  {
    if i == |rules| then (Ok(all), sha)
    else
      match rules[i].1
      case None => (Err(NullPointer), sha)
      case Some(ev) =>
        var next := RecordAlternatives(rules[i].0, Alternatives(ev), 0, all, sha);
        RecordFrom(rules, i + 1, next.0, next.1)
  }

  /**
   * getEvaluatorConfigurationOccurencies: record every rule, then fail when
   * the recorded lists overlap; the result is the occurrence map and the new sha map.
   */
  function Occurrences(rules: seq<Rule>, sha: MultiMap): (Result<MultiMap>, MultiMap)
  {
    var recorded := RecordFrom(rules, 0, EMPTY_MULTI_MAP, sha);
    if recorded.0.Ok? && Overlaps(rules, recorded.1) then (Err(PeltasFailure), recorded.1)
    else recorded
  }

  // The meaning of the check, in terms of the rules.

  predicate DistinctNames(rules: seq<Rule>)
  {
    forall a, b :: 0 <= a < b < |rules| ==> rules[a].0 != rules[b].0
  }

  /** Rule j's alternatives are all alternatives of rule i. */
  predicate Subsumes(rules: seq<Rule>, i: nat, j: nat)
    requires i < |rules| && j < |rules| && rules[i].1.Some? && rules[j].1.Some?
  {
    forall a :: a in Alternatives(rules[j].1.value) ==> a in Alternatives(rules[i].1.value)
  }

  /** Two different rules answer to the same alternatives: one's set contains the other's. */
  predicate Ambiguous(rules: seq<Rule>)
    requires forall i :: 0 <= i < |rules| ==> rules[i].1.Some?
  {
    exists i, j :: 0 <= i < |rules| && 0 <= j < |rules| && i != j && Subsumes(rules, i, j)
  }

  /**
   * The sha map is consistent with the rules: every key is a rule with an
   * evaluator, and its list holds only alternatives of that rule.
   */
  ghost predicate Consistent(rules: seq<Rule>, sha: MultiMap)
  {
    WellFormed(sha) &&
    forall k :: k in sha.lists ==> exists i :: (0 <= i < |rules| && rules[i].0 == k && rules[i].1.Some? &&
      forall x :: x in sha.lists[k] ==> x in Alternatives(rules[i].1.value))
  }

  /** Appending xs to key name's list in one step. */
  function AddAllTo(mm: MultiMap, name: string, xs: seq<string>): MultiMap
  {
    if xs == [] then mm
    else MultiMap(if name in mm.lists then mm.keys else mm.keys + [name],
                  mm.lists[name := (if name in mm.lists then mm.lists[name] else []) + xs])
  }

  lemma AddThenAddAll(mm: MultiMap, name: string, x: string, xs: seq<string>)
    ensures AddAllTo(Add(mm, name, x), name, xs) == AddAllTo(mm, name, [x] + xs)
  {
    if xs != [] {
      var before := if name in mm.lists then mm.lists[name] else [];
      assert (before + [x]) + xs == before + ([x] + xs);
      if name in mm.lists {
        assert AddAllTo(Add(mm, name, x), name, xs).lists == AddAllTo(mm, name, [x] + xs).lists;
      } else {
        assert AddAllTo(Add(mm, name, x), name, xs).lists == AddAllTo(mm, name, [x] + xs).lists;
      }
    } else {
      assert [x] + xs == [x];
      var none: seq<string> := [];
      assert none + [x] == [x];
    }
  }

  lemma {:induction false} RecordAlternativesShaClosed(name: string, alts: seq<string>, m: nat, all: MultiMap, sha: MultiMap)
    requires m <= |alts|
    ensures RecordAlternatives(name, alts, m, all, sha).1 == AddAllTo(sha, name, alts[m..])
    decreases |alts| - m
  {
    if m < |alts| {
      RecordAlternativesShaClosed(name, alts, m + 1, Add(all, alts[m], name), Add(sha, name, alts[m]));
      AddThenAddAll(sha, name, alts[m], alts[m + 1..]);
      SeqFacts.DropCons(alts, m);
    }
  }

  /** The sha map after a rule is recorded: the rule's list now holds all its alternatives. */
  lemma RecordAlternativesSha(name: string, alts: seq<string>, m: nat, all: MultiMap, sha: MultiMap)
    requires m <= |alts|
    ensures var r := RecordAlternatives(name, alts, m, all, sha).1;
      r.lists.Keys == sha.lists.Keys + (if m < |alts| then {name} else {}) &&
      (forall k :: k in sha.lists && k != name ==> r.lists[k] == sha.lists[k]) &&
      (name in r.lists ==> forall x :: x in r.lists[name] <==> x in alts[m..] || (name in sha.lists && x in sha.lists[name])) &&
      (WellFormed(sha) ==> WellFormed(r))
  {
    RecordAlternativesShaClosed(name, alts, m, all, sha);
  }

  /** The occurrence map after a rule is recorded: each of its alternatives now lists the rule. */
  lemma {:induction false} RecordAlternativesAll(name: string, alts: seq<string>, m: nat, all: MultiMap, sha: MultiMap, a: string, n: string)
    requires m <= |alts|
    ensures var r := RecordAlternatives(name, alts, m, all, sha).0;
      (a in r.lists && n in r.lists[a]) <==> ((a in all.lists && n in all.lists[a]) || (n == name && a in alts[m..]))
    decreases |alts| - m
  {
    if m < |alts| {
      var all' := Add(all, alts[m], name);
      RecordAlternativesAll(name, alts, m + 1, all', Add(sha, name, alts[m]), a, n);
      AddMember(all, alts[m], name, a, n);
      SeqFacts.DropCons(alts, m);
    }
  }

  lemma AddMember(mm: MultiMap, k: string, v: string, a: string, n: string)
    ensures (a in Add(mm, k, v).lists && n in Add(mm, k, v).lists[a]) <==>
      ((a in mm.lists && n in mm.lists[a]) || (a == k && n == v))
  {
  }

  /**
   * Recording rules i.. from a consistent sha map, when all have evaluators:
   * every later rule is a key whose list holds exactly its alternatives, and
   * the map stays consistent.
   */
  lemma {:induction false} RecordFromSha(rules: seq<Rule>, i: nat, all: MultiMap, sha: MultiMap)
    requires i <= |rules| && DistinctNames(rules)
    requires forall m :: 0 <= m < |rules| ==> rules[m].1.Some?
    requires Consistent(rules, sha)
    ensures RecordFrom(rules, i, all, sha).0.Ok?
    ensures var r := RecordFrom(rules, i, all, sha).1;
      forall m :: i <= m < |rules| ==> (rules[m].0 in r.lists &&
        forall x :: x in r.lists[rules[m].0] <==> x in Alternatives(rules[m].1.value))
    decreases |rules| - i
  {
    if i < |rules| {
      var next := RecordAlternatives(rules[i].0, Alternatives(rules[i].1.value), 0, all, sha);
      RecordRuleConsistent(rules, i, all, sha);
      RecordFromSha(rules, i + 1, next.0, next.1);
      RecordOwnList(rules, i, all, sha);
    }
  }

  /** After recording rules i.., rule i's list holds exactly its alternatives. */
  lemma RecordOwnList(rules: seq<Rule>, i: nat, all: MultiMap, sha: MultiMap)
    requires i < |rules| && DistinctNames(rules) && rules[i].1.Some?
    requires Consistent(rules, sha)
    ensures var r := RecordFrom(rules, i, all, sha).1;
      rules[i].0 in r.lists && forall x :: x in r.lists[rules[i].0] <==> x in Alternatives(rules[i].1.value)
  {
    var name := rules[i].0;
    var alts := Alternatives(rules[i].1.value);
    var next := RecordAlternatives(name, alts, 0, all, sha);
    RecordAlternativesSha(name, alts, 0, all, sha);
    assert alts[0..] == alts;
    // later rules only add to their own lists
    assert forall m :: i + 1 <= m < |rules| ==> rules[m].0 != name;
    RecordFromKeeps(rules, i + 1, next.0, next.1, name);
    OwnListOnly(rules, i, sha);
  }

  /** In a consistent sha map, a rule's list holds only that rule's alternatives. */
  lemma OwnListOnly(rules: seq<Rule>, i: nat, sha: MultiMap)
    requires i < |rules| && DistinctNames(rules) && rules[i].1.Some?
    requires Consistent(rules, sha)
    ensures rules[i].0 in sha.lists ==> forall x :: x in sha.lists[rules[i].0] ==> x in Alternatives(rules[i].1.value)
  {
    var name := rules[i].0;
    if name in sha.lists {
      var i' :| 0 <= i' < |rules| && rules[i'].0 == name && rules[i'].1.Some? &&
        forall x :: x in sha.lists[name] ==> x in Alternatives(rules[i'].1.value);
      assert i' == i;
    }
  }

  /** Recording rules i.. keeps a consistent sha map consistent, whether or not it fails. */
  lemma {:induction false} RecordFromConsistent(rules: seq<Rule>, i: nat, all: MultiMap, sha: MultiMap)
    requires i <= |rules| && DistinctNames(rules)
    requires Consistent(rules, sha)
    ensures Consistent(rules, RecordFrom(rules, i, all, sha).1)
    decreases |rules| - i
  {
    if i < |rules| && rules[i].1.Some? {
      var next := RecordAlternatives(rules[i].0, Alternatives(rules[i].1.value), 0, all, sha);
      RecordRuleConsistent(rules, i, all, sha);
      RecordFromConsistent(rules, i + 1, next.0, next.1);
    }
  }

  /** Recording one rule's alternatives keeps the sha map consistent. */
  lemma RecordRuleConsistent(rules: seq<Rule>, i: nat, all: MultiMap, sha: MultiMap)
    requires i < |rules| && DistinctNames(rules) && rules[i].1.Some?
    requires Consistent(rules, sha)
    ensures Consistent(rules, RecordAlternatives(rules[i].0, Alternatives(rules[i].1.value), 0, all, sha).1)
  {
    var name := rules[i].0;
    var alts := Alternatives(rules[i].1.value);
    var next := RecordAlternatives(name, alts, 0, all, sha);
    RecordAlternativesSha(name, alts, 0, all, sha);
    assert alts[0..] == alts;
    forall k | k in next.1.lists
      ensures exists i' :: (0 <= i' < |rules| && rules[i'].0 == k && rules[i'].1.Some? &&
        forall x :: x in next.1.lists[k] ==> x in Alternatives(rules[i'].1.value))
    {
      if k == name {
        if k in sha.lists {
          var i' :| 0 <= i' < |rules| && rules[i'].0 == k && rules[i'].1.Some? &&
            forall x :: x in sha.lists[k] ==> x in Alternatives(rules[i'].1.value);
          assert i' == i;
        }
        assert forall x :: x in next.1.lists[k] ==> x in alts;
      } else {
        assert next.1.lists[k] == sha.lists[k];
      }
    }
  }

  /** Recording rules i.. leaves the list of a rule before i untouched. */
  lemma {:induction false} RecordFromKeeps(rules: seq<Rule>, i: nat, all: MultiMap, sha: MultiMap, name: string)
    requires i <= |rules| && name in sha.lists
    requires forall m :: i <= m < |rules| ==> rules[m].0 != name
    ensures var r := RecordFrom(rules, i, all, sha).1;
      name in r.lists && r.lists[name] == sha.lists[name]
    decreases |rules| - i
  {
    if i < |rules| && rules[i].1.Some? {
      var alts := Alternatives(rules[i].1.value);
      var next := RecordAlternatives(rules[i].0, alts, 0, all, sha);
      RecordAlternativesSha(rules[i].0, alts, 0, all, sha);
      RecordFromKeeps(rules, i + 1, next.0, next.1, name);
    }
  }

  /**
   * The check fails exactly when the rule set is ambiguous: one rule's
   * alternatives include all of another's (compared as exact strings).
   */
  lemma OccurrencesFailIffAmbiguous(rules: seq<Rule>, sha: MultiMap)
    requires DistinctNames(rules)
    requires forall m :: 0 <= m < |rules| ==> rules[m].1.Some?
    requires Consistent(rules, sha)
    ensures Occurrences(rules, sha).0.Err? <==> Ambiguous(rules)
    ensures Occurrences(rules, sha).0.Err? ==> Occurrences(rules, sha).0.error == PeltasFailure
  {
    RecordFromSha(rules, 0, EMPTY_MULTI_MAP, sha);
    RecordFromConsistent(rules, 0, EMPTY_MULTI_MAP, sha);
    var r := RecordFrom(rules, 0, EMPTY_MULTI_MAP, sha).1;
    if Overlaps(rules, r) {
      OverlapIsAmbiguous(rules, r);
    }
    if Ambiguous(rules) {
      AmbiguousOverlaps(rules, r);
    }
  }

  /** A rule list containing another key's list: that key's rule is subsumed. */
  lemma OverlapIsAmbiguous(rules: seq<Rule>, r: MultiMap)
    requires DistinctNames(rules)
    requires forall m :: 0 <= m < |rules| ==> rules[m].1.Some?
    requires Consistent(rules, r)
    requires forall m :: 0 <= m < |rules| ==> (rules[m].0 in r.lists &&
      forall x :: x in r.lists[rules[m].0] <==> x in Alternatives(rules[m].1.value))
    requires Overlaps(rules, r)
    ensures Ambiguous(rules)
  {
    var i, j :| 0 <= i < |rules| && 0 <= j < |r.keys| && OverlapAt(rules, r, i, j);
    var k := r.keys[j];
    var j' :| 0 <= j' < |rules| && rules[j'].0 == k && rules[j'].1.Some? &&
      forall x :: x in r.lists[k] ==> x in Alternatives(rules[j'].1.value);
    assert Subsumes(rules, i, j');
  }

  /** A subsumed rule's list is contained in the subsuming rule's list. */
  lemma AmbiguousOverlaps(rules: seq<Rule>, r: MultiMap)
    requires DistinctNames(rules)
    requires forall m :: 0 <= m < |rules| ==> rules[m].1.Some?
    requires WellFormed(r)
    requires forall m :: 0 <= m < |rules| ==> (rules[m].0 in r.lists &&
      forall x :: x in r.lists[rules[m].0] <==> x in Alternatives(rules[m].1.value))
    requires Ambiguous(rules)
    ensures Overlaps(rules, r)
  {
    var i, j :| 0 <= i < |rules| && 0 <= j < |rules| && i != j && Subsumes(rules, i, j);
    var k := rules[j].0;
    assert k in r.keys;
    var jk :| 0 <= jk < |r.keys| && r.keys[jk] == k;
    if i < j { assert rules[i].0 != rules[j].0; } else { assert rules[j].0 != rules[i].0; }
    assert OverlapAt(rules, r, i, jk);
  }


  /** The occurrence map lists, for each alternative, exactly the rules that have it. */
  lemma {:induction false} RecordFromAll(rules: seq<Rule>, i: nat, all: MultiMap, sha: MultiMap, a: string, n: string)
    requires i <= |rules|
    requires forall m :: 0 <= m < |rules| ==> rules[m].1.Some?
    ensures RecordFrom(rules, i, all, sha).0.Ok?
    ensures var r := RecordFrom(rules, i, all, sha).0.value;
      (a in r.lists && n in r.lists[a]) <==>
        ((a in all.lists && n in all.lists[a]) ||
         exists m :: i <= m < |rules| && rules[m].0 == n && a in Alternatives(rules[m].1.value))
    decreases |rules| - i
  {
    if i < |rules| {
      var alts := Alternatives(rules[i].1.value);
      var next := RecordAlternatives(rules[i].0, alts, 0, all, sha);
      RecordAlternativesAll(rules[i].0, alts, 0, all, sha, a, n);
      assert alts[0..] == alts;
      assert RecordFrom(rules, i, all, sha) == RecordFrom(rules, i + 1, next.0, next.1);
      RecordFromAll(rules, i + 1, next.0, next.1, a, n);
      UsersSplit(rules, i, a, n);
    }
  }

  /** The rules from i on that list a under name n: rule i, or one after it. */
  lemma UsersSplit(rules: seq<Rule>, i: nat, a: string, n: string)
    requires i < |rules|
    requires forall m :: 0 <= m < |rules| ==> rules[m].1.Some?
    ensures (exists m :: i <= m < |rules| && rules[m].0 == n && a in Alternatives(rules[m].1.value)) <==>
      (rules[i].0 == n && a in Alternatives(rules[i].1.value)) ||
      (exists m :: i + 1 <= m < |rules| && rules[m].0 == n && a in Alternatives(rules[m].1.value))
  {
    if exists m :: i <= m < |rules| && rules[m].0 == n && a in Alternatives(rules[m].1.value) {
      var m :| i <= m < |rules| && rules[m].0 == n && a in Alternatives(rules[m].1.value);
      if m > i {
        assert exists m' :: i + 1 <= m' < |rules| && rules[m'].0 == n && a in Alternatives(rules[m'].1.value);
      }
    }
  }

  /** A successful check returns, for each alternative string, the rules that use it. */
  lemma OccurrencesListRules(rules: seq<Rule>, sha: MultiMap, a: string, n: string)
    requires forall m :: 0 <= m < |rules| ==> rules[m].1.Some?
    requires Occurrences(rules, sha).0.Ok?
    ensures var all := Occurrences(rules, sha).0.value;
      (a in all.lists && n in all.lists[a]) <==>
      exists m :: 0 <= m < |rules| && rules[m].0 == n && a in Alternatives(rules[m].1.value)
  {
    RecordFromAll(rules, 0, EMPTY_MULTI_MAP, sha, a, n);
  }
}
