/**
 * PeltasHandlerConfigurationProperties: the handlers by name, their
 * evaluators in registration order, the sha map kept by the ambiguity check
 * and, in the older copy (core.alfresco.config), the pipeline executions and
 * the execution configurations read from resource files.
 */
module HandlerConfiguration {
  import SeqFacts
  import opened Wrappers
  import opened Text
  import opened Values
  import opened Evaluators
  import opened Classification
  import opened HandlerModel

  /** Which copy of the class: the boot one, or the older core.alfresco.config one. */
  datatype Variant = BootCopy | LegacyCopy

  // ------------------------------------------------------- resource files

  /** A resource: its file name, when it has one, and its text. */
  datatype Resource = Resource(filename: Option<string>, content: string)

  /**
   * StringUtils.getFilenameExtension: the text after the last '.', unless a
   * '/' comes after that '.'.
   */
  function FilenameExtension(path: string): (r: Option<string>)
    ensures r.Some? ==> |r.value| < |path| && path == path[..|path| - |r.value| - 1] + "." + r.value
    ensures r.Some? ==> '.' !in r.value && '/' !in r.value
  {
    match LastIndexOf(path, '.')
    case None => None
    case Some(e) =>
      var ext := path[e + 1..];
      assert path == path[..e] + "." + ext;
      match LastIndexOf(path, '/')
      case Some(f) => if f > e then None else Some(ext)
      case None => Some(ext)
  }

  /** A name made of a base, a '.' and an extension free of '.' and '/' has that extension. */
  lemma ExtensionOfName(base: string, ext: string)
    requires '.' !in ext && '/' !in ext
    ensures FilenameExtension(base + "." + ext) == Some(ext)
  {
    var path := base + "." + ext;
    assert path[|base|] == '.';
    assert forall k :: |base| < k < |path| ==> path[k] == ext[k - |base| - 1];
  }

  /** A name without '.' has no extension. */
  lemma NoDotNoExtension(path: string)
    requires '.' !in path
    ensures FilenameExtension(path) == None
  {
  }

  /**
   * The configuration key and the extension of a resource: none when it has
   * no file name or the extension has no text; otherwise the name before the
   * last '.' and the extension.
   */
  function ResourceKey(filename: Option<string>): (r: Option<(string, string)>)
    ensures r.Some? ==> filename.Some? && filename.value == r.value.0 + "." + r.value.1
    ensures r.Some? ==> HasText(r.value.1) && '.' !in r.value.1
  {
    match filename
    case None => None
    case Some(name) =>
      match FilenameExtension(name)
      case None => None
      case Some(ext) =>
        if HasText(ext) then Some((name[..|name| - |ext| - 1], ext)) else None
  }

  /** The configurations read from the resources in order: a later file with the same key replaces an earlier one. */
  function ResourceConfigs(resources: seq<Resource>): map<string, map<string, string>>
  {
    if resources == [] then map[]
    else
      var before := ResourceConfigs(resources[..|resources| - 1]);
      var last := resources[|resources| - 1];
      match ResourceKey(last.filename)
      case None => before
      case Some(kx) => before[kx.0 := map[kx.1 := last.content]]
  }

  /** The resource's file name yields the key `key`. */
  predicate KeyIs(resource: Resource, key: string)
  {
    ResourceKey(resource.filename).Some? && ResourceKey(resource.filename).value.0 == key
  }

  /** Resource i is the last one whose key is `key`. */
  predicate LastWithKey(resources: seq<Resource>, i: nat, key: string)
  {
    i < |resources| && KeyIs(resources[i], key) &&
    forall m :: i < m < |resources| ==> !KeyIs(resources[m], key)
  }

  /** Some resource has the key. */
  predicate HasKey(resources: seq<Resource>, key: string)
  {
    exists i :: 0 <= i < |resources| && KeyIs(resources[i], key)
  }

  lemma HasKeySnoc(resources: seq<Resource>, key: string)
    requires resources != []
    ensures HasKey(resources, key) <==>
      HasKey(resources[..|resources| - 1], key) || KeyIs(resources[|resources| - 1], key)
  {
    var n := |resources| - 1;
    var front := resources[..n];
    SeqFacts.ExistsSnoc(resources, front, r => KeyIs(r, key));
    assert HasKey(resources, key) <==> exists i :: 0 <= i < |resources| && (r => KeyIs(r, key))(resources[i]);
    assert HasKey(front, key) <==> exists i :: 0 <= i < |front| && (r => KeyIs(r, key))(front[i]);
  }

  /** A key is configured exactly when some resource has it. */
  lemma {:induction false} ResourceConfigsKeys(resources: seq<Resource>, key: string)
    ensures key in ResourceConfigs(resources) <==> HasKey(resources, key)
  {
    if resources != [] {
      ResourceConfigsKeys(resources[..|resources| - 1], key);
      HasKeySnoc(resources, key);
    }
  }

  /** A configured key maps the extension of the last resource with that key to the resource's text. */
  lemma {:induction false} ResourceConfigsLast(resources: seq<Resource>, key: string, i: nat)
    requires LastWithKey(resources, i, key)
    ensures key in ResourceConfigs(resources)
    ensures ResourceConfigs(resources)[key] == map[ResourceKey(resources[i].filename).value.1 := resources[i].content]
  {
    var n := |resources| - 1;
    var front := resources[..n];
    if i < n {
      assert LastWithKey(front, i, key);
      ResourceConfigsLast(front, key, i);
    }
  }

  /** The constructor's loop over the resource files. */
  method ReadConfigs(files: seq<Resource>) returns (configs: map<string, map<string, string>>)
    ensures configs == ResourceConfigs(files)
  {
    configs := map[];
    var i := 0;
    while i < |files|
      invariant 0 <= i <= |files|
      invariant configs == ResourceConfigs(files[..i])
    {
      var key := ResourceKey(files[i].filename);
      if key.Some? {
        configs := configs[key.value.0 := map[key.value.1 := files[i].content]];
      }
      assert files[..i + 1][..i] == files[..i];
      i := i + 1;
    }
    assert files[..i] == files;
  }

  // ------------------------------------------------------------ helpers

  lemma SliceStep<T>(s: seq<T>, i: nat)
    requires i < |s|
    ensures s[..i + 1] == s[..i] + [s[i]]
  {
  }

  /** Some rule has the name (evaluatorsMap.containsKey). */
  predicate Known(rules: seq<Rule>, name: string)
  {
    exists m :: 0 <= m < |rules| && rules[m].0 == name
  }

  /** Map.putAll of entries with distinct keys. */
  function AsMap<V>(entries: seq<(string, V)>): (r: map<string, V>)
    ensures forall m :: 0 <= m < |entries| ==> entries[m].0 in r
    ensures (forall a, b :: 0 <= a < b < |entries| ==> entries[a].0 != entries[b].0) ==>
      forall m :: 0 <= m < |entries| ==> r[entries[m].0] == entries[m].1
  {
    if entries == [] then map[]
    else
      var front := entries[..|entries| - 1];
      var last := entries[|entries| - 1];
      var r := AsMap(front)[last.0 := last.1];
      assert forall m :: 0 <= m < |front| ==> front[m] == entries[m];
      r
  }

  /** Only the entries' names become keys. */
  lemma {:induction false} AsMapKeys<V>(entries: seq<(string, V)>, k: string)
    requires k in AsMap(entries)
    ensures exists m :: 0 <= m < |entries| && entries[m].0 == k
  {
    var front := entries[..|entries| - 1];
    if k != entries[|entries| - 1].0 {
      AsMapKeys(front, k);
      var m :| 0 <= m < |front| && front[m].0 == k;
      assert entries[m] == front[m];
    }
  }

  /** The position of the first entry whose name is already known (|entries| when there is none). */
  function FirstKnown<V>(known: seq<Rule>, entries: seq<(string, V)>): (k: nat)
    ensures k <= |entries|
    ensures forall m :: 0 <= m < k ==> !Known(known, entries[m].0)
    ensures k < |entries| ==> Known(known, entries[k].0)
  {
    if entries == [] then 0
    else if Known(known, entries[0].0) then 0
    else 1 + FirstKnown(known, entries[1..])
  }

  /** Adding a rule keeps the sha map consistent: every recorded key keeps its rule. */
  lemma ConsistentAppend(rules: seq<Rule>, x: Rule, sha: MultiMap)
    requires Consistent(rules, sha)
    ensures Consistent(rules + [x], sha)
  {
    var rs := rules + [x];
    forall k | k in sha.lists
      ensures exists i :: (0 <= i < |rs| && rs[i].0 == k && rs[i].1.Some? &&
        forall y :: y in sha.lists[k] ==> y in Alternatives(rs[i].1.value))
    {
      var i :| 0 <= i < |rules| && rules[i].0 == k && rules[i].1.Some? &&
        forall y :: y in sha.lists[k] ==> y in Alternatives(rules[i].1.value);
      assert rs[i] == rules[i];
    }
  }

  /** The class invariant on the configuration's state. */
  ghost predicate ValidState(rules: seq<Rule>, sha: MultiMap, handlers: map<string, HandlerProperties>)
  {
    DistinctNames(rules) && Consistent(rules, sha) &&
    forall m :: 0 <= m < |rules| ==> rules[m].0 in handlers
  }

  /** The first known entry is at i when none before it is known and i is known or the end. */
  lemma {:induction false} FirstKnownAt<V>(known: seq<Rule>, entries: seq<(string, V)>, i: nat)
    requires i <= |entries|
    requires forall m :: 0 <= m < i ==> !Known(known, entries[m].0)
    requires i < |entries| ==> Known(known, entries[i].0)
    ensures FirstKnown(known, entries) == i
  {
    if i > 0 {
      FirstKnownAt(known, entries[1..], i - 1);
    }
  }

  /** Registering a new name that has a handler keeps the invariant. */
  lemma AppendKeepsValid(rules: seq<Rule>, sha: MultiMap, handlers: map<string, HandlerProperties>, x: Rule)
    requires ValidState(rules, sha, handlers)
    requires !Known(rules, x.0) && x.0 in handlers
    ensures ValidState(rules + [x], sha, handlers)
  {
    ConsistentAppend(rules, x, sha);
  }

  /** The rules a batch of handlers registers, in order. */
  function RulesOf(entries: seq<(string, HandlerProperties)>): (r: seq<Rule>)
    reads set m | 0 <= m < |entries| :: entries[m].1
    ensures |r| == |entries| && forall m :: 0 <= m < |entries| ==> r[m] == (entries[m].0, entries[m].1.evaluator)
  {
    if entries == [] then [] else [(entries[0].0, entries[0].1.evaluator)] + RulesOf(entries[1..])
  }

  /** addEvaluator on values: a name already registered is a failure; otherwise the rule goes last. */
  function AddRule(rules: seq<Rule>, x: Rule): (r: Result<seq<Rule>>)
    ensures r.Err? <==> Known(rules, x.0)
    ensures r.Err? ==> r.error == PeltasFailure
    ensures r.Ok? ==> r.value == rules + [x] && r.value[..|rules|] == rules && r.value[|rules|] == x
  {
    if Known(rules, x.0) then Err(PeltasFailure) else Ok(rules + [x])
  }

  /** Where the first known name stands depends only on the names. */
  lemma {:induction false} FirstKnownSameNames<U, V>(known: seq<Rule>, a: seq<(string, U)>, b: seq<(string, V)>)
    requires |a| == |b| && forall m :: 0 <= m < |a| ==> a[m].0 == b[m].0
    ensures FirstKnown(known, a) == FirstKnown(known, b)
  {
    if a != [] {
      FirstKnownSameNames(known, a[1..], b[1..]);
    }
  }

  /**
   * The loop of setHandler over the incoming rules: each is added in turn
   * (as addEvaluator does) until one is already registered.
   */
  method AddAll(before: seq<Rule>, incoming: seq<Rule>, sha: MultiMap, handlers: map<string, HandlerProperties>)
    returns (r: Result<()>, rules: seq<Rule>)
    requires ValidState(before, sha, handlers)
    requires forall a, b :: 0 <= a < b < |incoming| ==> incoming[a].0 != incoming[b].0
    requires forall m :: 0 <= m < |incoming| ==> incoming[m].0 in handlers
    ensures var k := FirstKnown(before, incoming);
      (r.Err? <==> k < |incoming|) && (r.Err? ==> r.error == PeltasFailure) &&
      rules == before + incoming[..k]
    ensures ValidState(rules, sha, handlers)
  {
    rules := before;
    var i := 0;
    while i < |incoming|
      invariant 0 <= i <= |incoming|
      invariant forall m :: 0 <= m < i ==> !Known(before, incoming[m].0)
      invariant rules == before + incoming[..i]
      invariant ValidState(rules, sha, handlers)
    {
      KnownAmongAdded(before, incoming, incoming, i);
      var added := AddRule(rules, incoming[i]);
      if added.Err? {
        FirstKnownAt(before, incoming, i);
        return Err(added.error), rules;
      }
      AppendKeepsValid(rules, sha, handlers, incoming[i]);
      AppendNext(before, incoming, rules, i);
      rules := added.value;
      i := i + 1;
    }
    FirstKnownAt(before, incoming, i);
    r := Ok(());
  }

  /** Appending the next incoming rule extends the registered prefix by one. */
  lemma AppendNext(before: seq<Rule>, incoming: seq<Rule>, current: seq<Rule>, i: nat)
    requires i < |incoming| && current == before + incoming[..i]
    ensures current + [incoming[i]] == before + incoming[..i + 1]
  {
    assert incoming[..i + 1] == incoming[..i] + [incoming[i]];
  }

  /** The names added so far are other entries' names, so entry i is known now exactly when it was known before. */
  lemma KnownAmongAdded<V>(before: seq<Rule>, incoming: seq<Rule>, entries: seq<(string, V)>, i: nat)
    requires i < |entries| == |incoming|
    requires forall a, b :: 0 <= a < b < |entries| ==> entries[a].0 != entries[b].0
    requires forall m :: 0 <= m < |entries| ==> incoming[m].0 == entries[m].0
    ensures Known(before + incoming[..i], entries[i].0) <==> Known(before, entries[i].0)
  {
    var rules := before + incoming[..i];
    var name := entries[i].0;
    forall m | |before| <= m < |rules| ensures rules[m].0 != name {
      assert rules[m].0 == entries[m - |before|].0;
    }
    if Known(rules, name) {
      var m :| 0 <= m < |rules| && rules[m].0 == name;
      if m < |before| {
        assert rules[m] == before[m];
      }
    }
    if Known(before, name) {
      var m :| 0 <= m < |before| && before[m].0 == name;
      assert rules[m] == before[m];
    }
  }

  /** The best match found so far in the match table: positions of matched rules, in rule order. */
  ghost predicate MatchTable(keys: seq<string>, sizes: map<string, nat>, rules: seq<Rule>, counts: seq<nat>, pos: seq<nat>)
  {
    |counts| <= |rules| && |pos| == |keys| && Positions(counts, pos) &&
    (forall k :: 0 <= k < |pos| ==> (pos[k] < |counts| && rules[pos[k]].0 == keys[k] &&
      keys[k] in sizes && sizes[keys[k]] == counts[pos[k]])) &&
    (forall name :: name in sizes ==> name in keys)
  }

  /** Scoring a rule without matches leaves the table as it is. */
  lemma TableExtendZero(keys: seq<string>, sizes: map<string, nat>, rules: seq<Rule>, counts: seq<nat>, pos: seq<nat>)
    requires |counts| < |rules|
    requires MatchTable(keys, sizes, rules, counts, pos)
    ensures MatchTable(keys, sizes, rules, counts + [0], pos)
  {
    var counts' := counts + [0];
    forall k | 0 <= k < |pos| ensures counts'[pos[k]] == counts[pos[k]] {
    }
    forall m | 0 <= m < |counts'| && counts'[m] > 0 ensures m in pos {
      assert counts'[m] == counts[m];
    }
  }

  /** Scoring a rule with c matches adds it at the end of the table. */
  lemma TableExtendMatch(keys: seq<string>, sizes: map<string, nat>, rules: seq<Rule>, counts: seq<nat>, pos: seq<nat>, c: nat)
    requires DistinctNames(rules) && |counts| < |rules| && c > 0
    requires MatchTable(keys, sizes, rules, counts, pos)
    ensures MatchTable(keys + [rules[|counts|].0], sizes[rules[|counts|].0 := c], rules, counts + [c], pos + [|counts|])
  {
    var i := |counts|;
    var name := rules[i].0;
    var keys', sizes', counts', pos' := keys + [name], sizes[name := c], counts + [c], pos + [i];
    forall k | 0 <= k < |pos|
      ensures keys[k] != name && pos'[k] == pos[k] && keys'[k] == keys[k] && counts'[pos[k]] == counts[pos[k]]
    {
      assert pos[k] < i;
    }
    forall k | 0 <= k < |pos'|
      ensures pos'[k] < |counts'| && rules[pos'[k]].0 == keys'[k] && keys'[k] in sizes' && sizes'[keys'[k]] == counts'[pos'[k]]
    {
    }
    forall m | 0 <= m < |counts'| && counts'[m] > 0 ensures m in pos' {
      if m < i {
        assert counts'[m] == counts[m];
        assert m in pos;
      } else {
        assert pos'[|pos|] == m;
      }
    }
  }

  /** Between two consecutive matched positions every count is zero. */
  lemma GapIsZero(counts: seq<nat>, pos: seq<nat>, k: int, m: nat)
    requires forall k1, k2 :: 0 <= k1 < k2 < |pos| ==> pos[k1] < pos[k2]
    requires forall m' :: 0 <= m' < |counts| && counts[m'] > 0 ==> m' in pos
    requires -1 <= k < |pos|
    requires k >= 0 ==> pos[k] < m
    requires m < (if k + 1 < |pos| then pos[k + 1] else |counts|)
    requires m < |counts|
    ensures counts[m] == 0
  {
    forall k' | 0 <= k' < |pos| ensures pos[k'] != m {
      if k' <= k {
        assert k' == k || pos[k'] < pos[k];
      } else {
        assert k' == k + 1 || pos[k + 1] < pos[k'];
      }
    }
  }

  /** The rule about to be scored is not in the table yet: its name differs from every earlier rule's. */
  lemma NewRuleNotInTable(keys: seq<string>, sizes: map<string, nat>, rules: seq<Rule>, counts: seq<nat>, pos: seq<nat>)
    requires DistinctNames(rules) && |counts| < |rules|
    requires MatchTable(keys, sizes, rules, counts, pos)
    ensures rules[|counts|].0 !in sizes
  {
    var name := rules[|counts|].0;
    forall k | 0 <= k < |keys| ensures keys[k] != name {
      assert keys[k] == rules[pos[k]].0 && pos[k] < |counts|;
    }
  }

  /**
   * The inner loop of findFirstBestMatchHandler over one rule's alternatives:
   * every alternative that holds adds one to the rule's entry in the match
   * table (a new entry goes last); a failing alternative ends the scoring.
   */
  method ScoreRule(name: string, alts: seq<string>, matches: string -> Result<bool>, keys: seq<string>, sizes: map<string, nat>)
    returns (r: Result<nat>, keys': seq<string>, sizes': map<string, nat>)
    requires name !in sizes
    ensures r == CountFrom(alts, 0, 0, matches)
    ensures r.Ok? && r.value == 0 ==> keys' == keys && sizes' == sizes
    ensures r.Ok? && r.value > 0 ==> keys' == keys + [name] && sizes' == sizes[name := r.value]
  {
    keys', sizes' := keys, sizes;
    var j := 0;
    var c: nat := 0;
    while j < |alts|
      invariant 0 <= j <= |alts| && c <= j
      invariant CountFrom(alts, j, c, matches) == CountFrom(alts, 0, 0, matches)
      invariant c == 0 ==> keys' == keys && sizes' == sizes
      invariant c > 0 ==> keys' == keys + [name] && sizes' == sizes[name := c]
    {
      var matched := matches(alts[j]);
      if matched.Err? {
        return Err(matched.error), keys', sizes';
      }
      keys', sizes', c := Tally(name, matched.value, keys, sizes, keys', sizes', c);
      j := j + 1;
    }
    r := Ok(c);
  }

  /** One alternative's outcome in the match table: a hit adds one to the rule's size, a new entry going last. */
  method Tally(name: string, hit: bool, keys: seq<string>, sizes: map<string, nat>, keys': seq<string>, sizes': map<string, nat>, c: nat)
    returns (keys'': seq<string>, sizes'': map<string, nat>, c': nat)
    requires name !in sizes
    requires c == 0 ==> keys' == keys && sizes' == sizes
    requires c > 0 ==> keys' == keys + [name] && sizes' == sizes[name := c]
    ensures c' == if hit then c + 1 else c
    ensures c' == 0 ==> keys'' == keys && sizes'' == sizes
    ensures c' > 0 ==> keys'' == keys + [name] && sizes'' == sizes[name := c']
  {
    keys'', sizes'', c' := keys', sizes', c;
    if hit {
      if name in sizes' {
        sizes'' := sizes'[name := sizes'[name] + 1];
      } else {
        keys'' := keys' + [name];
        sizes'' := sizes'[name := 1];
      }
      c' := c + 1;
    }
  }

  /**
   * The second loop of findFirstBestMatchHandler: the first table entry with
   * the strictly largest size, which is the rule chosen by Leader.
   */
  method PickLeader(keys: seq<string>, sizes: map<string, nat>, ghost rules: seq<Rule>, ghost counts: seq<nat>, ghost pos: seq<nat>)
    returns (bestKey: Option<string>, ghost best: Option<nat>)
    requires MatchTable(keys, sizes, rules, counts, pos) && |counts| == |rules|
    ensures best == Leader(counts)
    ensures bestKey == (if best.Some? then Some(rules[best.value].0) else None)
  {
    bestKey, best := None, None;
    var bestSize: nat := 0;
    var k := 0;
    PickStart(counts, pos);
    while k < |keys|
      invariant 0 <= k <= |keys|
      invariant best.Some? ==> best.value < NextPos(pos, k, |counts|)
      invariant LeaderFrom(counts, NextPos(pos, k, |counts|), best) == Leader(counts)
      invariant bestKey == (if best.Some? then Some(rules[best.value].0) else None)
      invariant bestSize == (if best.Some? then counts[best.value] else 0)
    {
      var size := sizes[keys[k]];
      PickStep(counts, pos, k, best);
      if size > bestSize {
        bestSize := size;
        bestKey := Some(keys[k]);
        best := Some(pos[k]);
      }
      k := k + 1;
    }
  }

  /** The position of the table entry k, or the end when there is none. */
  function NextPos(pos: seq<nat>, k: nat, n: nat): nat
  {
    if k < |pos| then pos[k] else n
  }

  /** The matched positions: increasing, within the counts, and including every positive count. */
  ghost predicate Positions(counts: seq<nat>, pos: seq<nat>)
  {
    (forall k :: 0 <= k < |pos| ==> pos[k] < |counts|) &&
    (forall k1, k2 :: 0 <= k1 < k2 < |pos| ==> pos[k1] < pos[k2]) &&
    (forall m :: 0 <= m < |counts| && counts[m] > 0 ==> m in pos)
  }

  /** Before the first matched position every count is zero. */
  lemma PickStart(counts: seq<nat>, pos: seq<nat>)
    requires Positions(counts, pos)
    ensures NextPos(pos, 0, |counts|) <= |counts|
    ensures LeaderFrom(counts, NextPos(pos, 0, |counts|), None) == Leader(counts)
  {
    forall m | 0 <= m < NextPos(pos, 0, |counts|) ensures counts[m] == 0 {
      GapIsZero(counts, pos, -1, m);
    }
    LeaderSkipsZeros(counts, 0, NextPos(pos, 0, |counts|), None);
  }

  /** One step of the running best over the table: from entry k to entry k + 1, skipping zero counts. */
  lemma PickStep(counts: seq<nat>, pos: seq<nat>, k: nat, best: Option<nat>)
    requires Positions(counts, pos) && k < |pos|
    requires best.Some? ==> best.value < pos[k]
    ensures var best' := if counts[pos[k]] > (if best.Some? then counts[best.value] else 0) then Some(pos[k]) else best;
      pos[k] < NextPos(pos, k + 1, |counts|) <= |counts| &&
      LeaderFrom(counts, pos[k], best) == LeaderFrom(counts, NextPos(pos, k + 1, |counts|), best')
  {
    var p := pos[k];
    var best' := if counts[p] > (if best.Some? then counts[best.value] else 0) then Some(p) else best;
    var next := NextPos(pos, k + 1, |counts|);
    assert LeaderFrom(counts, p, best) == LeaderFrom(counts, p + 1, best');
    forall m | p < m < next ensures counts[m] == 0 {
      GapIsZero(counts, pos, k, m);
    }
    LeaderSkipsZeros(counts, p + 1, next, best');
  }

  /** Recording a rule with alternatives adds its name to the sha map's keys and no other. */
  lemma RecordRuleKeys(name: string, alts: seq<string>, all: MultiMap, sha: MultiMap)
    requires |alts| >= 1
    ensures RecordAlternatives(name, alts, 0, all, sha).1.lists.Keys == sha.lists.Keys + {name}
  {
    RecordAlternativesSha(name, alts, 0, all, sha);
  }

  /** Recording one rule keeps the configuration valid and adds the rule's name to the sha map. */
  lemma RecordKeepsValid(rules: seq<Rule>, i: nat, all: MultiMap, sha: MultiMap, handlers: map<string, HandlerProperties>)
    requires i < |rules| && rules[i].1.Some?
    requires ValidState(rules, sha, handlers)
    ensures var sha' := RecordAlternatives(rules[i].0, Alternatives(rules[i].1.value), 0, all, sha).1;
      ValidState(rules, sha', handlers) && sha'.lists.Keys == sha.lists.Keys + {rules[i].0}
  {
    RecordRuleConsistent(rules, i, all, sha);
    RecordRuleKeys(rules[i].0, Alternatives(rules[i].1.value), all, sha);
  }

  /** The loop of getEvaluatorConfigurationOccurencies over one rule's alternatives. */
  method RecordRule(name: string, alts: seq<string>, all: MultiMap, sha: MultiMap) returns (all': MultiMap, sha': MultiMap)
    ensures all' == RecordAlternatives(name, alts, 0, all, sha).0
    ensures sha' == RecordAlternatives(name, alts, 0, all, sha).1
  {
    all', sha' := all, sha;
    var j := 0;
    while j < |alts|
      invariant 0 <= j <= |alts|
      invariant RecordAlternatives(name, alts, j, all', sha') == RecordAlternatives(name, alts, 0, all, sha)
    {
      all' := Add(all', alts[j], name);
      sha' := Add(sha', name, alts[j]);
      j := j + 1;
    }
  }

  lemma RecordedNamesGrow(rules: seq<Rule>, i: nat, before: MultiMap, after: MultiMap)
    requires i < |rules|
    requires forall m :: 0 <= m < i ==> rules[m].0 in before.lists
    requires after.lists.Keys == before.lists.Keys + {rules[i].0}
    ensures forall m :: 0 <= m <= i ==> rules[m].0 in after.lists
  {
  }

  /**
   * checkEvaluatorConfigurationOccurencies: fails when some handler's
   * recorded list contains every entry of another key's list.
   */
  method CheckOccurrences(rules: seq<Rule>, sha: MultiMap) returns (r: Result<()>)
    requires Consistent(rules, sha)
    requires forall m :: 0 <= m < |rules| ==> rules[m].0 in sha.lists
    ensures r.Err? <==> Overlaps(rules, sha)
    ensures r.Err? ==> r.error == PeltasFailure
  {
    var i := 0;
    while i < |rules|
      invariant 0 <= i <= |rules|
      invariant forall i', j :: 0 <= i' < i && 0 <= j < |sha.keys| ==> !OverlapAt(rules, sha, i', j)
    {
      var list := sha.lists[rules[i].0];
      var j := 0;
      while j < |sha.keys|
        invariant 0 <= j <= |sha.keys|
        invariant forall j' :: 0 <= j' < j ==> !OverlapAt(rules, sha, i, j')
      {
        var other := sha.keys[j];
        assert other in sha.lists;
        if rules[i].0 != other && ContainsAll(list, sha.lists[other]) {
          assert OverlapAt(rules, sha, i, j);
          return Err(PeltasFailure);
        }
        j := j + 1;
      }
      i := i + 1;
    }
    return Ok(());
  }

  /** The loop of getEvaluatorConfigurationOccurencies over the rules. */
  method RecordAll(rules: seq<Rule>, sha: MultiMap, handlers: map<string, HandlerProperties>)
    returns (recorded: (Result<MultiMap>, MultiMap))
    requires ValidState(rules, sha, handlers)
    ensures recorded == RecordFrom(rules, 0, EMPTY_MULTI_MAP, sha)
    ensures ValidState(rules, recorded.1, handlers)
    ensures recorded.0.Ok? ==> forall m :: 0 <= m < |rules| ==> rules[m].0 in recorded.1.lists
  {
    var all, sha' := EMPTY_MULTI_MAP, sha;
    var i := 0;
    while i < |rules|
      invariant 0 <= i <= |rules|
      invariant RecordFrom(rules, i, all, sha') == RecordFrom(rules, 0, EMPTY_MULTI_MAP, sha)
      invariant ValidState(rules, sha', handlers)
      invariant forall m :: 0 <= m < i ==> rules[m].0 in sha'.lists
    {
      if rules[i].1.None? {
        return (Err(NullPointer), sha');
      }
      ghost var before := sha';
      RecordKeepsValid(rules, i, all, sha', handlers);
      all, sha' := RecordRule(rules[i].0, Alternatives(rules[i].1.value), all, sha');
      RecordedNamesGrow(rules, i, before, sha');
      i := i + 1;
    }
    return (Ok(all), sha');
  }

  /** getEvaluatorConfigurationOccurencies on the configuration's values: record every rule, then check. */
  method RecordAndCheck(rules: seq<Rule>, sha: MultiMap, handlers: map<string, HandlerProperties>)
    returns (r: Result<MultiMap>, sha': MultiMap)
    requires ValidState(rules, sha, handlers)
    ensures (r, sha') == Occurrences(rules, sha)
    ensures ValidState(rules, sha', handlers)
  {
    var recorded := RecordAll(rules, sha, handlers);
    sha' := recorded.1;
    if recorded.0.Err? {
      return recorded.0, sha';
    }
    var checked := CheckOccurrences(rules, sha');
    if checked.Err? {
      return Err(checked.error), sha';
    }
    return recorded.0, sha';
  }

  /**
   * findFirstBestMatchHandler over a list of rules: every rule is scored into
   * a match table and a rank table; the largest count wins (the first among
   * equals), and the winner is returned only when it matched all of its
   * alternatives.
   */
  method BestMatchHandler(rs: seq<Rule>, entry: Entry, env: Env) returns (r: Result<Option<string>>)
    requires DistinctNames(rs)
    ensures r == BestMatch(rs, entry, env)
  {
    var matchKeys: seq<string> := [];
    var matchSizes: map<string, nat> := map[];
    var rank: map<string, nat> := map[];
    ghost var counts: seq<nat> := [];
    ghost var pos: seq<nat> := [];
    var i := 0;
    while i < |rs|
      invariant 0 <= i <= |rs| && |counts| == i
      invariant ScoresFrom(rs, i, counts, entry, env) == Scores(rs, entry, env)
      invariant MatchTable(matchKeys, matchSizes, rs, counts, pos)
      invariant forall m :: 0 <= m < i ==> (rs[m].1.Some? && rs[m].0 in rank && rank[rs[m].0] == Rank(rs[m]))
    {
      if rs[i].1.None? {
        return Err(NullPointer);
      }
      var alts := Alternatives(rs[i].1.value);
      NewRuleNotInTable(matchKeys, matchSizes, rs, counts, pos);
      var count, keys', sizes' := ScoreRule(rs[i].0, alts, Matcher(entry, env), matchKeys, matchSizes);
      if count.Err? {
        return Err(count.error);
      }
      var c := count.value;
      if c > 0 {
        TableExtendMatch(matchKeys, matchSizes, rs, counts, pos, c);
        pos := pos + [i];
      } else {
        TableExtendZero(matchKeys, matchSizes, rs, counts, pos);
      }
      matchKeys, matchSizes := keys', sizes';
      rank := rank[rs[i].0 := |alts|];
      counts := counts + [c];
      i := i + 1;
    }
    assert Scores(rs, entry, env) == Ok(counts);
    ScoresSpec(rs, entry, env);
    ghost var best;
    var bestKey;
    bestKey, best := PickLeader(matchKeys, matchSizes, rs, counts, pos);
    if bestKey.Some? {
      var key := bestKey.value;
      LeaderSpec(counts);
      assert IsLeader(counts, best.value);
      assert best.value in pos;
      if key in matchSizes {
        var evaluatorSize := rank[key];
        if evaluatorSize == matchSizes[key] {
          return Ok(Some(key));
        }
      }
    }
    return Ok(None);
  }

  // ----------------------------------------------------- the configuration

  class HandlerConfiguration {
    const variant: Variant
    const registry: EvaluatorRegistry
    /** evaluatorsMap in its iteration order: each handler name with its evaluator. */
    var rules: seq<Rule>
    /** shaMap: per handler, the alternatives recorded by every ambiguity check so far. */
    var sha: MultiMap
    var handlers: map<string, HandlerProperties>
    /** executionConfigurationMap (older copy only). */
    var executions: map<string, PipelineExecution>
    /** mappedExecutionsConfigResources (older copy only). */
    const resources: map<string, map<string, string>>

    /** Names are unique, the sha map only records known rules' alternatives, and every rule has its handler. */
    ghost predicate Valid()
      reads this
    {
      ValidState(rules, sha, handlers)
    }

    /** The evaluators of the registry, as classification sees them. */
    function EnvOf(external: (string, string, string, Entry) -> bool): Env
      reads registry
    {
      Env(registry.evaluators, registry.defaultEvaluator, external)
    }

    /** The boot copy: no handlers yet. */
    constructor Boot(registry: EvaluatorRegistry)
      ensures variant == BootCopy && this.registry == registry
      ensures rules == [] && sha == EMPTY_MULTI_MAP && handlers == map[] && executions == map[] && resources == map[]
      ensures Valid()
    {
      variant := BootCopy;
      this.registry := registry;
      rules, sha, handlers, executions := [], EMPTY_MULTI_MAP, map[], map[];
      resources := map[];
    }

    /** The older copy: also reads one configuration per resource file, keyed by the name before the extension. */
    constructor Legacy(registry: EvaluatorRegistry, files: seq<Resource>)
      ensures variant == LegacyCopy && this.registry == registry
      ensures rules == [] && sha == EMPTY_MULTI_MAP && handlers == map[] && executions == map[]
      ensures resources == ResourceConfigs(files)
      ensures Valid()
    {
      variant := LegacyCopy;
      this.registry := registry;
      rules, sha, handlers, executions := [], EMPTY_MULTI_MAP, map[], map[];
      var configs := ReadConfigs(files);
      resources := configs;
    }

    /** addEvaluator: a name already registered is a failure; otherwise the rule goes last. */
    method AddEvaluator(evaluator: Option<string>, key: string) returns (r: Result<()>)
      modifies this
      ensures Known(old(rules), key) ==> r == Err(PeltasFailure) && rules == old(rules)
      ensures !Known(old(rules), key) ==> r == Ok(()) && rules == old(rules) + [(key, evaluator)]
      ensures sha == old(sha) && handlers == old(handlers) && executions == old(executions)
    {
      var next := AddRule(rules, (key, evaluator));
      if next.Err? {
        return Err(next.error);
      }
      rules := next.value;
      return Ok(());
    }

    /**
     * setHandler: every handler is stored first (replacing one of the same
     * name); then their evaluators are added in order, and the first name
     * that is already registered ends the call with a failure.
     */
    method SetHandler(handler: seq<(string, HandlerProperties)>) returns (r: Result<()>)
      requires Valid()
      requires forall a, b :: 0 <= a < b < |handler| ==> handler[a].0 != handler[b].0
      modifies this
      ensures handlers == old(handlers) + AsMap(handler)
      ensures sha == old(sha) && executions == old(executions)
      ensures var k := FirstKnown(old(rules), handler);
        (r.Err? <==> k < |handler|) && (r.Err? ==> r.error == PeltasFailure) &&
        rules == old(rules) + old(RulesOf(handler))[..k]
      ensures Valid()
    {
      var incoming := RulesOf(handler);
      FirstKnownSameNames(rules, incoming, handler);
      handlers := handlers + AsMap(handler);
      r, rules := AddAll(rules, incoming, sha, handlers);
    }

    /** findFirstBestMatchHandler over the rules registered so far. */
    method FindFirstBestMatchHandler(entry: Entry, external: (string, string, string, Entry) -> bool)
      returns (r: Result<Option<string>>)
      requires Valid()
      ensures r == BestMatch(rules, entry, EnvOf(external))
    {
      r := BestMatchHandler(rules, entry, EnvOf(external));
    }

    /**
     * getForHandler: the handler stored under the name, or null; the boot
     * copy also gives a handler without a name the name it is stored under.
     */
    method GetForHandler(name: string) returns (r: HandlerProperties?)
      modifies if variant == BootCopy && name in handlers then {handlers[name]} else {}
      ensures r == (if name in handlers then handlers[name] else null)
      ensures r != null && variant == BootCopy && old(r.handlerName).None? ==> r.handlerName == Some(name)
      ensures r != null && (variant == LegacyCopy || old(r.handlerName).Some?) ==> r.handlerName == old(r.handlerName)
      ensures r != null ==> r.evaluator == old(r.evaluator) && r.mapper == old(r.mapper) && r.pipeline == old(r.pipeline)
    {
      if name !in handlers {
        return null;
      }
      r := handlers[name];
      if variant == BootCopy && r.handlerName.None? {
        r.SetHandlerName(Some(name));
      }
    }

    /**
     * getEvaluatorConfigurationOccurencies: records every rule's alternatives
     * (into the returned map and the sha map), then runs the check.
     */
    method GetEvaluatorConfigurationOccurencies() returns (r: Result<MultiMap>)
      requires Valid()
      modifies this
      ensures (r, sha) == Occurrences(old(rules), old(sha))
      ensures rules == old(rules) && handlers == old(handlers) && executions == old(executions)
      ensures Valid()
    {
      r, sha := RecordAndCheck(rules, sha, handlers);
    }

    /** setExecution (older copy): the given executions replace those of the same name. */
    method SetExecution(given: map<string, PipelineExecution>)
      modifies this
      ensures executions == old(executions) + given
      ensures rules == old(rules) && sha == old(sha) && handlers == old(handlers)
    {
      executions := executions + given;
    }

    /**
     * getPipelineExecution (older copy): a known execution as stored;
     * otherwise a new one configured from the resource of that name (or with
     * no configuration), stored for the next call.
     */
    method GetPipelineExecution(key: string) returns (p: PipelineExecution)
      modifies this
      ensures key in old(executions) ==> p == old(executions)[key] && executions == old(executions)
      ensures key !in old(executions) ==> fresh(p) && executions == old(executions)[key := p]
      ensures key !in old(executions) ==> p.config == (if key in resources then Some(resources[key]) else None)
      ensures rules == old(rules) && sha == old(sha) && handlers == old(handlers)
    {
      if key in executions {
        return executions[key];
      }
      p := new PipelineExecution(if key in resources then Some(resources[key]) else None);
      executions := executions[key := p];
    }

    /**
     * asPipelineExecutions (older copy): each key of the pipeline once, in
     * first-occurrence order, with its (possibly new) stored execution.
     */
    method AsPipelineExecutions(pipeline: seq<string>) returns (order: seq<string>, result: map<string, PipelineExecution>)
      modifies this
      ensures order == Dedup(pipeline)
      ensures forall x :: x in result <==> x in pipeline
      ensures forall x :: x in pipeline ==> x in executions && result[x] == executions[x]
      ensures forall x :: x in old(executions) ==> x in executions && executions[x] == old(executions)[x]
      ensures forall x :: x in executions ==> x in old(executions) || x in pipeline
      ensures forall x :: x in pipeline && x !in old(executions) ==>
        fresh(result[x]) && result[x].config == (if x in resources then Some(resources[x]) else None)
      ensures rules == old(rules) && sha == old(sha) && handlers == old(handlers)
    {
      order, result := [], map[];
      ghost var done: seq<string> := [];
      var i := 0;
      while i < |pipeline|
        invariant 0 <= i <= |pipeline| && done == pipeline[..i]
        invariant order == Dedup(done)
        invariant forall x :: x in result <==> x in done
        invariant forall x :: x in done ==> x in executions && result[x] == executions[x]
        invariant forall x :: x in old(executions) ==> x in executions && executions[x] == old(executions)[x]
        invariant forall x :: x in executions ==> x in old(executions) || x in done
        invariant forall x :: x in done && x !in old(executions) ==>
          fresh(result[x]) && result[x].config == (if x in resources then Some(resources[x]) else None)
        invariant rules == old(rules) && sha == old(sha) && handlers == old(handlers)
      {
        var key := pipeline[i];
        DedupSnoc(done, key);
        var p := GetPipelineExecution(key);
        if key !in result {
          order := order + [key];
        }
        result := result[key := p];
        SliceStep(pipeline, i);
        done := done + [key];
        i := i + 1;
      }
      assert pipeline[..i] == pipeline;
    }
  }

  /** LinkedHashMap key order: each element once, at its first occurrence. */
  function Dedup(xs: seq<string>): seq<string>
  {
    if xs == [] then []
    else
      var d := Dedup(xs[..|xs| - 1]);
      if xs[|xs| - 1] in d then d else d + [xs[|xs| - 1]]
  }
  /** One more element: it is added at the end exactly when it is new. */
  lemma DedupSnoc(xs: seq<string>, x: string)
    ensures Dedup(xs + [x]) == if x in xs then Dedup(xs) else Dedup(xs) + [x]
  {
    assert (xs + [x])[..|xs|] == xs;
    DedupMembers(xs);
  }


  /** The deduplicated keys are the elements of the list, each once. */
  lemma {:induction false} DedupMembers(xs: seq<string>)
    ensures forall x :: x in Dedup(xs) <==> x in xs
    ensures forall a, b :: 0 <= a < b < |Dedup(xs)| ==> Dedup(xs)[a] != Dedup(xs)[b]
  {
    if xs != [] {
      var front := xs[..|xs| - 1];
      DedupMembers(front);
      assert xs == front + [xs[|xs| - 1]];
    }
  }

  /** A list without repeats keeps its order. */
  lemma {:induction false} DedupOfDistinct(xs: seq<string>)
    requires forall a, b :: 0 <= a < b < |xs| ==> xs[a] != xs[b]
    ensures Dedup(xs) == xs
  {
    if xs != [] {
      var front := xs[..|xs| - 1];
      DedupOfDistinct(front);
      DedupMembers(front);
      assert xs == front + [xs[|xs| - 1]];
    }
  }
}
