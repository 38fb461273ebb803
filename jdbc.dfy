/**
 * What the two JDBC writers (PeltasJdbcWriter and PeltasJdbcBatchWriter) do
 * to the SQL parameters of one item: the parameters start as the built
 * values plus the audit keys; each execution's query sees the parameters as
 * they are, and its result columns are added back as "<execution>.<column>";
 * every collection element gets parameters of its own, copied from the
 * item's. The queries the writers send are recorded as a run.
 */
module Jdbc {
  import opened Wrappers
  import opened Values
  import opened HandlerModel
  import opened Writers
  import HandlerConfiguration
  import SeqFacts

  // ------------------------------------------------------------ parameters

  const AUDIT_ID: string := "audit.id"
  const AUDIT_USER: string := "audit.user"
  const AUDIT_TIME: string := "audit.time"

  /**
   * createSqlParameterSource: the built values, then the audit id, user and
   * time on top of them. The immutable map holding the audit keys refuses a
   * null, so a record without one of them fails.
   */
  function ItemParameters(item: Item): (r: Result<map<string, Value>>)
    ensures r.Err? <==> item.audit.id.None? || item.audit.user.None? || item.audit.time.None?
    ensures r.Err? ==> r.error == NullPointer
    ensures r.Ok? ==> r.value.Keys == item.builder.Keys + {AUDIT_ID, AUDIT_USER, AUDIT_TIME}
    ensures r.Ok? ==> r.value[AUDIT_ID] == Str(item.audit.id.value) && r.value[AUDIT_USER] == Str(item.audit.user.value)
    ensures r.Ok? ==> r.value[AUDIT_TIME] == DateV(item.audit.time.value)
    ensures r.Ok? ==> forall k :: k in item.builder && k != AUDIT_ID && k != AUDIT_USER && k != AUDIT_TIME ==>
      r.value[k] == item.builder[k]
  {
    var a := item.audit;
    if a.id.None? || a.user.None? || a.time.None? then Err(NullPointer)
    else Ok(item.builder + map[AUDIT_ID := Str(a.id.value), AUDIT_USER := Str(a.user.value), AUDIT_TIME := DateV(a.time.value)])
  }

  /** Two columns of one execution give the same qualified name only if they are the same column. */
  lemma QualifiedInjective(key: string, c: string, d: string)
    requires key + "." + c == key + "." + d
    ensures c == d
  {
    assert c == (key + "." + c)[|key| + 1..];
    assert d == (key + "." + d)[|key| + 1..];
  }

  /** The key map of addSources: each result column c as "<key>.c". */
  function Qualified(key: string, result: map<string, Value>): (r: map<string, Value>)
    ensures forall c :: c in result ==> key + "." + c in r && r[key + "." + c] == result[c]
    ensures forall q :: q in r ==> exists c :: c in result && q == key + "." + c
  {
    assert forall c, d :: c in result && d in result && key + "." + c == key + "." + d ==> c == d by {
      forall c, d | c in result && d in result && key + "." + c == key + "." + d {
        QualifiedInjective(key, c, d);
      }
    }
    map c | c in result :: key + "." + c := result[c]
  }

  /**
   * addSources: the result columns are added to the parameters under their
   * qualified names, replacing what was there; everything else stays. An
   * empty result leaves the parameters as they are.
   */
  function AddSources(key: string, params: map<string, Value>, result: map<string, Value>): (r: map<string, Value>)
    ensures forall c :: c in result ==> key + "." + c in r && r[key + "." + c] == result[c]
    ensures forall k :: k in r <==> k in params || exists c :: c in result && k == key + "." + c
    ensures forall k :: k in params && (forall c :: c in result ==> k != key + "." + c) ==> r[k] == params[k]
    ensures result == map[] ==> r == params
  {
    var keyMap := Qualified(key, result);
    if |keyMap| > 0 then params + keyMap else params
  }

  /**
   * ObjectToMapTransformer with flattened keys applied to the one-entry map
   * {collection key: element}: the flattened entries. It is not part of
   * this model, so it is a parameter.
   */
  type FlattenFn = (string, map<string, Value>) -> map<string, Value>

  /**
   * One element put into a collection's parameters: a map element is
   * flattened under the collection key; any other element is stored under
   * the collection key itself.
   */
  function AddElement(params: map<string, Value>, c: string, v: Value, flatten: FlattenFn): (r: map<string, Value>)
    ensures params.Keys <= r.Keys
    ensures !v.MapV? ==> c in r && r[c] == v && forall k :: k in params && k != c ==> r[k] == params[k]
    ensures v.MapV? ==> forall k :: k in flatten(c, v.m) ==> k in r && r[k] == flatten(c, v.m)[k]
    ensures v.MapV? ==> forall k :: k in params && k !in flatten(c, v.m) ==> r[k] == params[k]
    ensures v.MapV? ==> r.Keys == params.Keys + flatten(c, v.m).Keys
  {
    if v.MapV? then params + flatten(c, v.m) else params[c := v]
  }

  // ------------------------------------------------------------ the queries

  /**
   * queryForMap(sql, parameters): the columns of the one row, or the
   * exception the database (or a null sql) causes. The database is not part
   * of this model, so it is a parameter.
   */
  type QueryFn = (Option<string>, map<string, Value>) -> Result<map<string, Value>>

  /**
   * A writer as the runs see it: where the sql of an execution comes from,
   * the database, the flattening, and whether it is the batch writer (which
   * runs each item execution once and keeps one parameter copy per
   * collection) or the template writer (a fresh copy per element).
   */
  datatype Writer = Writer(sqlOf: string -> Option<string>, query: QueryFn, flatten: FlattenFn, batch: bool)

  /** One query sent: the execution key, its sql and the parameters it saw. */
  datatype Query = Query(key: string, sql: Option<string>, params: map<string, Value>)

  /** The queries sent, the parameters at the end, and whether an exception ended the run. */
  datatype Run = Run(queries: seq<Query>, params: map<string, Value>, status: Result<()>)

  /** What the database answers to a query. */
  function Answer(w: Writer, q: Query): Result<map<string, Value>>
  {
    w.query(q.sql, q.params)
  }

  /**
   * The executions run in order on one parameter map: each query sees the
   * results of the earlier ones; a failed query ends the run.
   */
  function ExecutionsRun(w: Writer, keys: seq<string>, start: map<string, Value>): Run
  {
    if keys == [] then Run([], start, Ok(()))
    else
      var front := ExecutionsRun(w, keys[..|keys| - 1], start);
      if front.status.Err? then front
      else
        var key := keys[|keys| - 1];
        var q := Query(key, w.sqlOf(key), front.params);
        match Answer(w, q)
        case Err(e) => Run(front.queries + [q], front.params, Err(e))
        case Ok(result) => Run(front.queries + [q], AddSources(key, front.params, result), Ok(()))
  }

  /**
   * The elements of one collection in order. The template writer gives each
   * element a fresh copy of the item parameters; the batch writer adds each
   * element (and its results) to one copy shared by the whole collection.
   * The item parameters themselves never change.
   */
  function ElementsRun(w: Writer, c: string, vs: seq<Value>, keys: seq<string>, start: map<string, Value>): Run
  {
    if vs == [] then Run([], start, Ok(()))
    else
      var front := ElementsRun(w, c, vs[..|vs| - 1], keys, start);
      if front.status.Err? then front
      else
        var base := if w.batch then front.params else start;
        var r := ExecutionsRun(w, keys, AddElement(base, c, vs[|vs| - 1], w.flatten));
        Run(front.queries + r.queries, if w.batch then r.params else start, r.status)
  }

  /** The collections of an item in map order, each from the item parameters; a value that is not a collection fails the cast. */
  function CollectionsRun(w: Writer, colls: seq<(string, PipelineCollection)>, builder: map<string, Value>,
                          params: map<string, Value>): Run
  {
    if colls == [] then Run([], params, Ok(()))
    else
      var front := CollectionsRun(w, colls[..|colls| - 1], builder, params);
      var c := colls[|colls| - 1];
      if front.status.Err? then front
      else
        match CollectionValues(builder, c.0)
        case Err(e) => Run(front.queries, params, Err(e))
        case Ok(vs) =>
          var r := ElementsRun(w, c.0, vs, c.1.executions, params);
          Run(front.queries + r.queries, params, r.status)
  }

  /** The item executions a writer runs: the list as given, or (batch writer) each key once, at its first place. */
  function ItemKeys(w: Writer, item: Item): (r: Result<seq<string>>)
    ensures r.Err? <==> ItemExecutions(item).Err?
    ensures r.Ok? && !w.batch ==> r.value == ItemExecutions(item).value
    ensures r.Ok? && w.batch ==> r.value == HandlerConfiguration.Dedup(ItemExecutions(item).value)
  {
    match ItemExecutions(item)
    case Err(e) => Err(e)
    case Ok(keys) => Ok(if w.batch then HandlerConfiguration.Dedup(keys) else keys)
  }

  /** One item: its parameters, its executions on them, then its collections. */
  function ItemRun(w: Writer, item: Item): Run
  {
    match ItemParameters(item)
    case Err(e) => Run([], map[], Err(e))
    case Ok(params) =>
      match ItemKeys(w, item)
      case Err(e) => Run([], params, Err(e))
      case Ok(keys) =>
        var r := ExecutionsRun(w, keys, params);
        if r.status.Err? || item.pipeline.value.collections.None? then r
        else
          var cr := CollectionsRun(w, item.pipeline.value.collections.value, item.builder, r.params);
          Run(r.queries + cr.queries, r.params, cr.status)
  }

  /** write: the items in order; an exception ends the write. */
  function ItemsRun(w: Writer, items: seq<Item>): Run
  {
    if items == [] then Run([], map[], Ok(()))
    else
      var front := ItemsRun(w, items[..|items| - 1]);
      if front.status.Err? then front
      else
        var r := ItemRun(w, items[|items| - 1]);
        Run(front.queries + r.queries, r.params, r.status)
  }

  // ------------------------------------------------------------ properties

  /**
   * The queries of a run are the executions in order, with their sql; the
   * first sees the starting parameters and each later one sees the
   * parameters its predecessor's result was added to.
   */
  predicate Chained(w: Writer, keys: seq<string>, start: map<string, Value>, qs: seq<Query>)
  {
    |qs| <= |keys| &&
    (forall n :: 0 <= n < |qs| ==> qs[n].key == keys[n] && qs[n].sql == w.sqlOf(keys[n])) &&
    (|qs| > 0 ==> qs[0].params == start) &&
    (forall n :: 0 <= n < |qs| - 1 ==>
      Answer(w, qs[n]).Ok? && qs[n + 1].params == AddSources(qs[n].key, qs[n].params, Answer(w, qs[n]).value))
  }

  /** The parameters after the last query of a chain. */
  function After(w: Writer, start: map<string, Value>, qs: seq<Query>): map<string, Value>
  {
    if qs == [] then start
    else
      var q := qs[|qs| - 1];
      match Answer(w, q)
      case Ok(result) => AddSources(q.key, q.params, result)
      case Err(_) => q.params
  }

  /** A run with queries qs over keys: chained, and ended as its status says. */
  predicate RunShape(w: Writer, keys: seq<string>, start: map<string, Value>, r: Run)
  {
    Chained(w, keys, start, r.queries) && start.Keys <= r.params.Keys &&
    (r.status.Ok? ==>
      |r.queries| == |keys| && (r.queries != [] ==> Answer(w, r.queries[|r.queries| - 1]).Ok?) &&
      r.params == After(w, start, r.queries)) &&
    (r.status.Err? ==>
      r.queries != [] && Answer(w, r.queries[|r.queries| - 1]).Err? &&
      r.status.error == Answer(w, r.queries[|r.queries| - 1]).error)
  }

  /** A chain that went through, extended by the next execution on the parameters it ended with. */
  lemma ChainedStep(w: Writer, keys: seq<string>, start: map<string, Value>, qs: seq<Query>)
    requires keys != [] && Chained(w, keys[..|keys| - 1], start, qs) && |qs| == |keys| - 1
    requires qs != [] ==> Answer(w, qs[|qs| - 1]).Ok?
    ensures Chained(w, keys, start, qs + [Query(keys[|keys| - 1], w.sqlOf(keys[|keys| - 1]), After(w, start, qs))])
  {
    var q := Query(keys[|keys| - 1], w.sqlOf(keys[|keys| - 1]), After(w, start, qs));
    var qs' := qs + [q];
    forall n | 0 <= n < |qs'| ensures qs'[n].key == keys[n] && qs'[n].sql == w.sqlOf(keys[n]) {
      if n < |qs| {
        assert qs'[n] == qs[n] && keys[..|keys| - 1][n] == keys[n];
      }
    }
    if qs != [] {
      assert qs'[0] == qs[0];
    }
    forall n | 0 <= n < |qs'| - 1
      ensures Answer(w, qs'[n]).Ok? && qs'[n + 1].params == AddSources(qs'[n].key, qs'[n].params, Answer(w, qs'[n]).value)
    {
      assert qs'[n] == qs[n];
      if n + 1 < |qs| {
        assert qs'[n + 1] == qs[n + 1];
      }
    }
  }

  /**
   * Each execution's result columns reach every later execution of the same
   * parameters; a run that goes through sends one query per execution and
   * ends with the last result added; a run that fails stops at the query
   * that failed. No parameter is ever removed.
   */
  lemma {:induction false} ExecutionsRunChained(w: Writer, keys: seq<string>, start: map<string, Value>)
    ensures RunShape(w, keys, start, ExecutionsRun(w, keys, start))
    decreases |keys|
  {
    if keys != [] {
      var front := keys[..|keys| - 1];
      ExecutionsRunChained(w, front, start);
      var fr := ExecutionsRun(w, front, start);
      if fr.status.Err? {
        assert ExecutionsRun(w, keys, start) == fr;
        ChainedLonger(w, keys, start, fr.queries);
      } else {
        var key := keys[|keys| - 1];
        var q := Query(key, w.sqlOf(key), fr.params);
        var r := ExecutionsRun(w, keys, start);
        assert r.queries == fr.queries + [q] && r.queries[|r.queries| - 1] == q;
        ChainedStep(w, keys, start, fr.queries);
        assert r.status.Ok? ==> r.params == AddSources(key, fr.params, Answer(w, q).value);
      }
    }
  }

  /** A chain over some keys is a chain over those keys followed by more. */
  lemma ChainedLonger(w: Writer, keys: seq<string>, start: map<string, Value>, qs: seq<Query>)
    requires keys != [] && Chained(w, keys[..|keys| - 1], start, qs)
    ensures Chained(w, keys, start, qs)
  {
    assert forall n :: 0 <= n < |keys| - 1 ==> keys[..|keys| - 1][n] == keys[n];
  }

  lemma ElementsProduct(n: nat, k: nat)
    ensures (n + 1) * k == n * k + k
  {
  }

  /** A collection run that goes through sends, per element, one query per collection execution. */
  lemma {:induction false} ElementsRunCount(w: Writer, c: string, vs: seq<Value>, keys: seq<string>, start: map<string, Value>)
    requires ElementsRun(w, c, vs, keys, start).status.Ok?
    ensures |ElementsRun(w, c, vs, keys, start).queries| == |vs| * |keys|
    decreases |vs|
  {
    if vs != [] {
      var front := vs[..|vs| - 1];
      ElementsRunCount(w, c, front, keys, start);
      var fr := ElementsRun(w, c, front, keys, start);
      var base := if w.batch then fr.params else start;
      ExecutionsRunChained(w, keys, AddElement(base, c, vs[|vs| - 1], w.flatten));
      ElementsProduct(|front|, |keys|);
    }
  }

  /** The template writer leaves the item parameters as they are; the batch writer's shared copy only grows. */
  lemma {:induction false} ElementsRunParams(w: Writer, c: string, vs: seq<Value>, keys: seq<string>, start: map<string, Value>)
    ensures !w.batch ==> ElementsRun(w, c, vs, keys, start).params == start
    ensures start.Keys <= ElementsRun(w, c, vs, keys, start).params.Keys
    decreases |vs|
  {
    if vs != [] {
      var front := vs[..|vs| - 1];
      ElementsRunParams(w, c, front, keys, start);
      var fr := ElementsRun(w, c, front, keys, start);
      var base := if w.batch then fr.params else start;
      ExecutionsRunChained(w, keys, AddElement(base, c, vs[|vs| - 1], w.flatten));
    }
  }

  /** A run that goes through went through on every prefix, whose queries come first. */
  lemma {:induction false} ElementsRunPrefix(w: Writer, c: string, vs: seq<Value>, keys: seq<string>, start: map<string, Value>, j: nat)
    requires j <= |vs| && ElementsRun(w, c, vs, keys, start).status.Ok?
    ensures ElementsRun(w, c, vs[..j], keys, start).status.Ok?
    ensures ElementsRun(w, c, vs[..j], keys, start).queries <= ElementsRun(w, c, vs, keys, start).queries
    decreases |vs|
  {
    if j < |vs| {
      var front := vs[..|vs| - 1];
      assert front[..j] == vs[..j];
      ElementsRunPrefix(w, c, front, keys, start, j);
    } else {
      assert vs[..j] == vs;
    }
  }

  /**
   * Where element j's queries start, the parameters are the item parameters
   * plus element j alone (template writer), or the shared copy as the
   * earlier elements left it plus element j (batch writer); either way every
   * parameter set before is still there.
   */
  lemma ElementStart(w: Writer, c: string, vs: seq<Value>, keys: seq<string>, start: map<string, Value>, j: nat)
    requires j < |vs| && keys != [] && ElementsRun(w, c, vs, keys, start).status.Ok?
    ensures |ElementsRun(w, c, vs[..j], keys, start).queries| < |ElementsRun(w, c, vs, keys, start).queries|
    ensures ElementsRun(w, c, vs, keys, start).queries[|ElementsRun(w, c, vs[..j], keys, start).queries|].params ==
      AddElement(if w.batch then ElementsRun(w, c, vs[..j], keys, start).params else start, c, vs[j], w.flatten)
    ensures ElementsRun(w, c, vs[..j], keys, start).params.Keys <=
      ElementsRun(w, c, vs, keys, start).queries[|ElementsRun(w, c, vs[..j], keys, start).queries|].params.Keys
  {
    ElementsRunPrefix(w, c, vs, keys, start, j + 1);
    var fr := ElementsRun(w, c, vs[..j], keys, start);
    assert vs[..j + 1][..j] == vs[..j];
    var base := if w.batch then fr.params else start;
    var r := ExecutionsRun(w, keys, AddElement(base, c, vs[j], w.flatten));
    ExecutionsRunChained(w, keys, AddElement(base, c, vs[j], w.flatten));
    ElementsRunParams(w, c, vs[..j], keys, start);
    var all := ElementsRun(w, c, vs, keys, start).queries;
    assert ElementsRun(w, c, vs[..j + 1], keys, start).queries == fr.queries + r.queries;
    assert all[|fr.queries|] == r.queries[0];
  }

  /** A collection run that goes through went through on every prefix, whose queries come first. */
  lemma {:induction false} CollectionsRunPrefix(w: Writer, colls: seq<(string, PipelineCollection)>, builder: map<string, Value>,
                                               params: map<string, Value>, m: nat)
    requires m <= |colls| && CollectionsRun(w, colls, builder, params).status.Ok?
    ensures CollectionsRun(w, colls[..m], builder, params).status.Ok?
    ensures CollectionsRun(w, colls[..m], builder, params).queries <= CollectionsRun(w, colls, builder, params).queries
    decreases |colls|
  {
    if m < |colls| {
      var front := colls[..|colls| - 1];
      assert front[..m] == colls[..m];
      CollectionsRunPrefix(w, front, builder, params, m);
    } else {
      assert colls[..m] == colls;
    }
  }

  /**
   * Every collection starts from the item parameters: the queries of
   * collection m are those of its elements run from the item parameters,
   * whatever the collections before it added to their own copies.
   */
  lemma CollectionStart(w: Writer, colls: seq<(string, PipelineCollection)>, builder: map<string, Value>,
                        params: map<string, Value>, m: nat)
    requires m < |colls| && CollectionsRun(w, colls, builder, params).status.Ok?
    ensures CollectionValues(builder, colls[m].0).Ok?
    ensures var off := |CollectionsRun(w, colls[..m], builder, params).queries|;
      var e := ElementsRun(w, colls[m].0, CollectionValues(builder, colls[m].0).value, colls[m].1.executions, params);
      off + |e.queries| <= |CollectionsRun(w, colls, builder, params).queries| &&
      CollectionsRun(w, colls, builder, params).queries[off..off + |e.queries|] == e.queries
  {
    CollectionsRunPrefix(w, colls, builder, params, m + 1);
    assert colls[..m + 1][..m] == colls[..m];
    var fr := CollectionsRun(w, colls[..m], builder, params);
    var e := ElementsRun(w, colls[m].0, CollectionValues(builder, colls[m].0).value, colls[m].1.executions, params);
    var all := CollectionsRun(w, colls, builder, params).queries;
    assert CollectionsRun(w, colls[..m + 1], builder, params).queries == fr.queries + e.queries;
    assert all[..|fr.queries| + |e.queries|] == fr.queries + e.queries;
  }

  /** A run of collections that goes through sends, per collection, elements times executions queries. */
  lemma {:induction false} CollectionsRunCount(w: Writer, colls: seq<(string, PipelineCollection)>, builder: map<string, Value>,
                                              params: map<string, Value>)
    requires CollectionsRun(w, colls, builder, params).status.Ok?
    ensures |CollectionsRun(w, colls, builder, params).queries| == Fanout(colls, builder)
    decreases |colls|
  {
    if colls != [] {
      var front := colls[..|colls| - 1];
      var c := colls[|colls| - 1];
      CollectionsRunCount(w, front, builder, params);
      ElementsRunCount(w, c.0, CollectionValues(builder, c.0).value, c.1.executions, params);
    }
  }

  /**
   * An item that goes through sends one query per item execution (each key
   * once for the batch writer) and, per collection, elements times
   * collection executions; the item executions come first, each seeing the
   * results of the ones before it.
   */
  lemma ItemQueryCount(w: Writer, item: Item)
    requires ItemRun(w, item).status.Ok?
    ensures ItemParameters(item).Ok? && ItemKeys(w, item).Ok?
    ensures |ItemRun(w, item).queries| == |ItemKeys(w, item).value| +
      (if item.pipeline.value.collections.None? then 0 else Fanout(item.pipeline.value.collections.value, item.builder))
    ensures Chained(w, ItemKeys(w, item).value, ItemParameters(item).value,
      ItemRun(w, item).queries[..|ItemKeys(w, item).value|])
  {
    var params := ItemParameters(item).value;
    var keys := ItemKeys(w, item).value;
    var r := ExecutionsRun(w, keys, params);
    ExecutionsRunChained(w, keys, params);
    if item.pipeline.value.collections.Some? {
      CollectionsRunCount(w, item.pipeline.value.collections.value, item.builder, r.params);
      assert ItemRun(w, item).queries[..|keys|] == r.queries;
    } else {
      assert ItemRun(w, item).queries[..|keys|] == r.queries;
    }
  }

  /** The batch writer runs each item execution once even when the pipeline lists it twice. */
  lemma BatchKeysOnce(w: Writer, item: Item)
    requires w.batch && ItemKeys(w, item).Ok?
    ensures forall a, b :: 0 <= a < b < |ItemKeys(w, item).value| ==> ItemKeys(w, item).value[a] != ItemKeys(w, item).value[b]
    ensures forall k :: k in ItemKeys(w, item).value <==> k in ItemExecutions(item).value
  {
    HandlerConfiguration.DedupMembers(ItemExecutions(item).value);
  }

  /** Once an item has failed, the later items send nothing. */
  lemma {:induction false} ItemsRunStops(w: Writer, items: seq<Item>, n: nat)
    requires n <= |items| && ItemsRun(w, items[..n]).status.Err?
    ensures ItemsRun(w, items) == ItemsRun(w, items[..n])
    decreases |items|
  {
    if n < |items| {
      var front := items[..|items| - 1];
      assert front[..n] == items[..n];
      ItemsRunStops(w, front, n);
    } else {
      assert items[..n] == items;
    }
  }

  /** Once a collection has failed, the later collections send nothing. */
  lemma {:induction false} CollectionsRunStops(w: Writer, colls: seq<(string, PipelineCollection)>, builder: map<string, Value>,
                                              params: map<string, Value>, n: nat)
    requires n <= |colls| && CollectionsRun(w, colls[..n], builder, params).status.Err?
    ensures CollectionsRun(w, colls, builder, params) == CollectionsRun(w, colls[..n], builder, params)
    decreases |colls|
  {
    if n < |colls| {
      var front := colls[..|colls| - 1];
      assert front[..n] == colls[..n];
      CollectionsRunStops(w, front, builder, params, n);
    } else {
      assert colls[..n] == colls;
    }
  }

  /** Once an element has failed, the later elements send nothing. */
  lemma {:induction false} ElementsRunStops(w: Writer, c: string, vs: seq<Value>, keys: seq<string>, start: map<string, Value>, n: nat)
    requires n <= |vs| && ElementsRun(w, c, vs[..n], keys, start).status.Err?
    ensures ElementsRun(w, c, vs, keys, start) == ElementsRun(w, c, vs[..n], keys, start)
    decreases |vs|
  {
    if n < |vs| {
      var front := vs[..|vs| - 1];
      assert front[..n] == vs[..n];
      ElementsRunStops(w, c, front, keys, start, n);
    } else {
      assert vs[..n] == vs;
    }
  }

  /** Once a query has failed, the later executions send nothing. */
  lemma {:induction false} ExecutionsRunStops(w: Writer, keys: seq<string>, start: map<string, Value>, n: nat)
    requires n <= |keys| && ExecutionsRun(w, keys[..n], start).status.Err?
    ensures ExecutionsRun(w, keys, start) == ExecutionsRun(w, keys[..n], start)
    decreases |keys|
  {
    if n < |keys| {
      var front := keys[..|keys| - 1];
      assert front[..n] == keys[..n];
      ExecutionsRunStops(w, front, start, n);
    } else {
      assert keys[..n] == keys;
    }
  }

  // ------------------------------------------------------------ sql resources

  /**
   * The key of a resource PeltasJdbcWriter loads: the file name without
   * ".sql", for ".sql" files only. SqlKeyIsExtension shows these are exactly
   * the files whose extension, as StringUtils.getFilenameExtension reads it,
   * is "sql".
   */
  function SqlKey(filename: Option<string>): (r: Option<string>)
    ensures r.Some? ==> filename == Some(r.value + ".sql")
  {
    if filename.Some? && |filename.value| >= 4 && filename.value[|filename.value| - 4..] == ".sql" then
      var name := filename.value;
      assert name == name[..|name| - 4] + name[|name| - 4..];
      Some(name[..|name| - 4])
    else None
  }

  /** A file is loaded exactly when its extension is "sql". */
  lemma SqlKeyIsExtension(name: string)
    ensures SqlKey(Some(name)).Some? <==> HandlerConfiguration.FilenameExtension(name) == Some("sql")
  {
    if HandlerConfiguration.FilenameExtension(name) == Some("sql") {
      ExtensionIsSuffix(name);
    }
    if SqlKey(Some(name)).Some? {
      var base := name[..|name| - 4];
      HandlerConfiguration.ExtensionOfName(base, "sql");
      assert base + "." + "sql" == name by {
        assert base + "." + "sql" == base + ".sql";
        assert name == base + name[|name| - 4..];
      }
    }
  }

  /** A name whose extension is "sql" ends in ".sql". */
  lemma ExtensionIsSuffix(name: string)
    requires HandlerConfiguration.FilenameExtension(name) == Some("sql")
    ensures |name| >= 4 && name[|name| - 4..] == ".sql"
  {
    var base := name[..|name| - 4];
    assert name == base + "." + "sql";
    assert name[|name| - 4..] == ("." + "sql");
  }

  /** Any name ending in ".sql" is loaded, under the name before it. */
  lemma SqlKeyOfName(key: string)
    ensures SqlKey(Some(key + ".sql")) == Some(key)
  {
    var name := key + ".sql";
    assert name[|name| - 4..] == ".sql";
    assert name[..|name| - 4] == key;
  }

  /** The sql by execution key, read from the resources in order: a later file of the same name replaces an earlier one. */
  function SqlResources(resources: seq<HandlerConfiguration.Resource>): map<string, string>
  {
    if resources == [] then map[]
    else Load(SqlResources(resources[..|resources| - 1]), resources[|resources| - 1])
  }

  /** One resource read: a ".sql" file sets its key's sql, any other file is skipped. */
  function Load(sql: map<string, string>, r: HandlerConfiguration.Resource): map<string, string>
  {
    match SqlKey(r.filename)
    case None => sql
    case Some(key) => sql[key := r.content]
  }

  /** The resource is loaded under key: it is the file "<key>.sql" (NamedSqlIsName). */
  predicate NamedSql(r: HandlerConfiguration.Resource, key: string)
  {
    SqlKey(r.filename) == Some(key)
  }

  /** The resources loaded under key are exactly the files named "<key>.sql". */
  lemma NamedSqlIsName(r: HandlerConfiguration.Resource, key: string)
    ensures NamedSql(r, key) <==> r.filename == Some(key + ".sql")
  {
    SqlKeyOfName(key);
  }

  /** Some resource is the file "<key>.sql". */
  predicate HasSql(resources: seq<HandlerConfiguration.Resource>, key: string)
  {
    exists i :: 0 <= i < |resources| && NamedSql(resources[i], key)
  }

  /** An execution key has sql exactly when some resource is named "<key>.sql". */
  lemma {:induction false} SqlResourcesKeys(resources: seq<HandlerConfiguration.Resource>, key: string)
    ensures key in SqlResources(resources) <==> HasSql(resources, key)
    decreases |resources|
  {
    if resources != [] {
      var front := resources[..|resources| - 1];
      SqlResourcesKeys(front, key);
      SeqFacts.ExistsSnoc(resources, front, r => NamedSql(r, key));
      assert HasSql(resources, key) <==> exists i :: 0 <= i < |resources| && (r => NamedSql(r, key))(resources[i]);
      assert HasSql(front, key) <==> exists i :: 0 <= i < |front| && (r => NamedSql(r, key))(front[i]);
    }
  }

  /** What one resource does to one key's sql. */
  lemma LoadKey(sql: map<string, string>, r: HandlerConfiguration.Resource, key: string)
    ensures NamedSql(r, key) ==> key in Load(sql, r) && Load(sql, r)[key] == r.content
    ensures !NamedSql(r, key) ==> (key in Load(sql, r) <==> key in sql) && (key in sql ==> Load(sql, r)[key] == sql[key])
  {
  }

  /** The sql of a key is the content of the last resource named "<key>.sql". */
  lemma {:induction false} SqlResourcesLast(resources: seq<HandlerConfiguration.Resource>, key: string, i: nat)
    requires i < |resources| && NamedSql(resources[i], key)
    requires forall m :: i < m < |resources| ==> !NamedSql(resources[m], key)
    ensures key in SqlResources(resources) && SqlResources(resources)[key] == resources[i].content
    decreases |resources|
  {
    var n := |resources| - 1;
    var front := resources[..n];
    assert SqlResources(resources) == Load(SqlResources(front), resources[n]);
    LoadKey(SqlResources(front), resources[n], key);
    if i < n {
      assert forall m :: i < m < |front| ==> front[m] == resources[m];
      assert front[i] == resources[i];
      SqlResourcesLast(front, key, i);
      assert !NamedSql(resources[n], key);
    }
  }
}
