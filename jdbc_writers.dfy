/**
 * The two JDBC writers. PeltasJdbcWriter fills in the write template: it
 * loads one sql text per ".sql" resource, builds the item parameters, runs
 * each execution's query on them and gives every collection element a
 * fresh copy. PeltasJdbcBatchWriter has its own loop: it looks the sql up
 * through the handler configuration's execution cache, runs each item
 * execution once, and keeps one parameter copy per collection.
 */
module JdbcWriters {
  import opened Wrappers
  import opened Values
  import opened HandlerModel
  import opened Writers
  import opened Jdbc
  import HandlerConfiguration

  /** MapSqlParameterSource: the named parameters, changed in place. */
  class ParameterSource {
    var values: map<string, Value>

    constructor (values: map<string, Value>)
      ensures this.values == values
    {
      this.values := values;
    }
  }

  /**
   * queryForMap on the parameters, then addSources: the result columns go
   * back into the same parameters; a failed query leaves them as they were.
   */
  method Execute(query: QueryFn, key: string, sql: Option<string>, params: ParameterSource) returns (q: Query, r: Result<()>)
    modifies params
    ensures q == Query(key, sql, old(params.values))
    ensures r.Err? <==> query(sql, old(params.values)).Err?
    ensures r.Err? ==> r.error == query(sql, old(params.values)).error && params.values == old(params.values)
    ensures r.Ok? ==> params.values == AddSources(key, old(params.values), query(sql, old(params.values)).value)
  {
    q := Query(key, sql, params.values);
    var answer := query(sql, params.values);
    if answer.Err? {
      return q, Err(answer.error);
    }
    params.values := AddSources(key, params.values, answer.value);
    r := Ok(());
  }

  /** One more execution after a prefix that went through: its query and what it leaves, as a run of its own. */
  lemma ExecutionsRunNext(w: Writer, keys: seq<string>, start: map<string, Value>, n: nat,
                          before: map<string, Value>, q: Query, after: map<string, Value>, st: Result<()>)
    requires n < |keys| && ExecutionsRun(w, keys[..n], start).status.Ok?
    requires ExecutionsRun(w, keys[..n], start).params == before
    requires ExecutionsRun(w, [keys[n]], before) == Run([q], after, st)
    ensures ExecutionsRun(w, keys[..n + 1], start) == Run(ExecutionsRun(w, keys[..n], start).queries + [q], after, st)
  {
    assert keys[..n + 1][..n] == keys[..n];
    assert [keys[n]][..0] == [];
  }

  /** One more element after a prefix that went through. */
  lemma ElementsRunStep(w: Writer, c: string, vs: seq<Value>, keys: seq<string>, start: map<string, Value>, j: nat)
    requires j < |vs| && ElementsRun(w, c, vs[..j], keys, start).status.Ok?
    ensures var front := ElementsRun(w, c, vs[..j], keys, start);
      var r := ExecutionsRun(w, keys, AddElement(if w.batch then front.params else start, c, vs[j], w.flatten));
      ElementsRun(w, c, vs[..j + 1], keys, start) == Run(front.queries + r.queries, if w.batch then r.params else start, r.status)
  {
    assert vs[..j + 1][..j] == vs[..j];
  }

  /** One more collection after a prefix that went through. */
  lemma CollectionsRunStep(w: Writer, colls: seq<(string, PipelineCollection)>, builder: map<string, Value>,
                           params: map<string, Value>, m: nat)
    requires m < |colls| && CollectionsRun(w, colls[..m], builder, params).status.Ok?
    ensures var front := CollectionsRun(w, colls[..m], builder, params);
      var vs := CollectionValues(builder, colls[m].0);
      CollectionsRun(w, colls[..m + 1], builder, params) ==
        if vs.Err? then Run(front.queries, params, Err(vs.error))
        else
          var r := ElementsRun(w, colls[m].0, vs.value, colls[m].1.executions, params);
          Run(front.queries + r.queries, params, r.status)
  {
    assert colls[..m + 1][..m] == colls[..m];
  }

  /** One more collection after a prefix that went through, given what that collection does. */
  lemma CollectionsRunNext(w: Writer, colls: seq<(string, PipelineCollection)>, builder: map<string, Value>,
                           params: map<string, Value>, m: nat, qs: seq<Query>, st: Result<()>)
    requires m < |colls| && CollectionsRun(w, colls[..m], builder, params).status.Ok?
    requires CollectionValues(builder, colls[m].0).Err? ==> qs == [] && st == Err(CollectionValues(builder, colls[m].0).error)
    requires CollectionValues(builder, colls[m].0).Ok? ==>
      var run := ElementsRun(w, colls[m].0, CollectionValues(builder, colls[m].0).value, colls[m].1.executions, params);
      qs == run.queries && st == run.status
    ensures CollectionsRun(w, colls[..m + 1], builder, params) ==
      Run(CollectionsRun(w, colls[..m], builder, params).queries + qs, params, st)
  {
    CollectionsRunStep(w, colls, builder, params, m);
  }

  /** One more item after a prefix that went through. */
  lemma ItemsRunStep(w: Writer, items: seq<Item>, i: nat)
    requires i < |items| && ItemsRun(w, items[..i]).status.Ok?
    ensures ItemsRun(w, items[..i + 1]) ==
      Run(ItemsRun(w, items[..i]).queries + ItemRun(w, items[i]).queries, ItemRun(w, items[i]).params, ItemRun(w, items[i]).status)
  {
    assert items[..i + 1][..i] == items[..i];
  }

  // ------------------------------------------------------------ PeltasJdbcWriter

  class JdbcWriter {
    /** mappedExecutionsConfigResources: the sql text by execution key. */
    const sqlByKey: map<string, string>
    const query: QueryFn
    const flatten: FlattenFn

    /** Loads every ".sql" resource under its name without the extension; the other resources are skipped. */
    constructor (resources: seq<HandlerConfiguration.Resource>, query: QueryFn, flatten: FlattenFn)
      ensures sqlByKey == SqlResources(resources)
      ensures this.query == query && this.flatten == flatten
    {
      var loaded: map<string, string> := map[];
      var i := 0;
      while i < |resources|
        invariant 0 <= i <= |resources|
        invariant loaded == SqlResources(resources[..i])
      {
        assert resources[..i + 1][..i] == resources[..i];
        var key := SqlKey(resources[i].filename);
        if key.Some? {
          loaded := loaded[key.value := resources[i].content];
        }
        i := i + 1;
      }
      assert resources[..i] == resources;
      sqlByKey := loaded;
      this.query := query;
      this.flatten := flatten;
    }

    /** mappedExecutionsConfigResources.get(key): null for an execution without a resource. */
    function SqlOf(key: string): (r: Option<string>)
      ensures r.Some? <==> key in sqlByKey
      ensures r.Some? ==> r.value == sqlByKey[key]
    {
      if key in sqlByKey then Some(sqlByKey[key]) else None
    }

    /** The writer as the runs see it: sql from the resources, a fresh copy per element. */
    function AsWriter(): (w: Writer)
      ensures !w.batch && w.query == query && w.flatten == flatten
      ensures forall key :: w.sqlOf(key) == SqlOf(key)
    {
      Writer(key => if key in sqlByKey then Some(sqlByKey[key]) else None, query, flatten, false)
    }

    /** createItemInputParameters: new parameters from the item (createSqlParameterSource). */
    method CreateItemInputParameters(item: Item) returns (r: Result<ParameterSource>)
      ensures r.Err? <==> ItemParameters(item).Err?
      ensures r.Err? ==> r.error == ItemParameters(item).error
      ensures r.Ok? ==> fresh(r.value) && r.value.values == ItemParameters(item).value
    {
      var params := ItemParameters(item);
      if params.Err? {
        return Err(params.error);
      }
      var source := new ParameterSource(params.value);
      r := Ok(source);
    }

    /** itemExecution: the execution's query on the item parameters, whose result columns go back into them. */
    method ItemExecution(key: string, params: ParameterSource) returns (q: Query, r: Result<()>)
      modifies params
      ensures q == Query(key, SqlOf(key), old(params.values))
      ensures r.Err? <==> query(SqlOf(key), old(params.values)).Err?
      ensures r.Err? ==> r.error == query(SqlOf(key), old(params.values)).error && params.values == old(params.values)
      ensures r.Ok? ==> params.values == AddSources(key, old(params.values), query(SqlOf(key), old(params.values)).value)
    {
      q, r := Execute(query, key, SqlOf(key), params);
    }

    /**
     * createCollectionItemInputParameters: a new copy of the item parameters
     * with the element added; the item parameters are left as they are.
     */
    method CreateCollectionItemInputParameters(params: ParameterSource, c: string, v: Value) returns (p: ParameterSource)
      ensures fresh(p) && p.values == AddElement(params.values, c, v, flatten)
    {
      p := new ParameterSource(params.values);
      if v.MapV? {
        p.values := p.values + flatten(c, v.m);
      } else {
        p.values := p.values[c := v];
      }
    }

    /** collectionExecution: the execution's query on the element's parameters, whose result columns go back into them. */
    method CollectionExecution(key: string, params: ParameterSource) returns (q: Query, r: Result<()>)
      modifies params
      ensures q == Query(key, SqlOf(key), old(params.values))
      ensures r.Err? <==> query(SqlOf(key), old(params.values)).Err?
      ensures r.Err? ==> r.error == query(SqlOf(key), old(params.values)).error && params.values == old(params.values)
      ensures r.Ok? ==> params.values == AddSources(key, old(params.values), query(SqlOf(key), old(params.values)).value)
    {
      q, r := Execute(query, key, SqlOf(key), params);
    }

    /** The template's call for one execution: itemExecution, or collectionExecution for a collection element. */
    method ExecutionHook(key: string, params: ParameterSource, collection: bool) returns (q: Query, r: Result<()>)
      modifies params
      ensures ExecutionsRun(AsWriter(), [key], old(params.values)) == Run([q], params.values, r)
    {
      ghost var w := AsWriter();
      assert w.sqlOf(key) == SqlOf(key) && w.query == query;
      if collection {
        q, r := CollectionExecution(key, params);
      } else {
        q, r := ItemExecution(key, params);
      }
      assert [key][..0] == [];
      if r.Ok? {
        OkUnit(r);
      }
    }

    /** The template's loop over the executions of the item (collection = false) or of a collection element. */
    method RunExecutions(keys: seq<string>, params: ParameterSource, collection: bool) returns (qs: seq<Query>, r: Result<()>)
      modifies params
      ensures Run(qs, params.values, r) == ExecutionsRun(AsWriter(), keys, old(params.values))
    {
      ghost var w, start := AsWriter(), params.values;
      qs := [];
      var n := 0;
      while n < |keys|
        invariant 0 <= n <= |keys|
        invariant ExecutionsRun(w, keys[..n], start) == Run(qs, params.values, Ok(()))
      {
        ghost var before := params.values;
        var q, st := ExecutionHook(keys[n], params, collection);
        ExecutionsRunNext(w, keys, start, n, before, q, params.values, st);
        qs := qs + [q];
        if st.Err? {
          ExecutionsRunStops(w, keys, start, n + 1);
          return qs, st;
        }
        n := n + 1;
      }
      assert keys[..n] == keys;
      r := Ok(());
    }

    /** The template's loop over the elements of one collection. */
    method WriteElements(params: ParameterSource, c: string, vs: seq<Value>, keys: seq<string>) returns (qs: seq<Query>, r: Result<()>)
      ensures Run(qs, params.values, r) == ElementsRun(AsWriter(), c, vs, keys, params.values)
    {
      ghost var w := AsWriter();
      qs := [];
      var j := 0;
      while j < |vs|
        invariant 0 <= j <= |vs|
        invariant ElementsRun(w, c, vs[..j], keys, params.values) == Run(qs, params.values, Ok(()))
      {
        ElementsRunStep(w, c, vs, keys, params.values, j);
        var element := CreateCollectionItemInputParameters(params, c, vs[j]);
        var eqs, st := RunExecutions(keys, element, true);
        qs := qs + eqs;
        if st.Err? {
          ElementsRunStops(w, c, vs, keys, params.values, j + 1);
          return qs, st;
        }
        j := j + 1;
      }
      assert vs[..j] == vs;
      r := Ok(());
    }

    /** The template's loop over the collections of one item. */
    method WriteCollections(params: ParameterSource, colls: seq<(string, PipelineCollection)>, builder: map<string, Value>)
      returns (qs: seq<Query>, r: Result<()>)
      ensures Run(qs, params.values, r) == CollectionsRun(AsWriter(), colls, builder, params.values)
    {
      qs := [];
      var m := 0;
      while m < |colls|
        invariant 0 <= m <= |colls|
        invariant CollectionsRun(AsWriter(), colls[..m], builder, params.values) == Run(qs, params.values, Ok(()))
      {
        CollectionsRunStep(AsWriter(), colls, builder, params.values, m);
        var values := CollectionValues(builder, colls[m].0);
        if values.Err? {
          CollectionsRunStops(AsWriter(), colls, builder, params.values, m + 1);
          return qs, Err(values.error);
        }
        var eqs, st := WriteElements(params, colls[m].0, values.value, colls[m].1.executions);
        qs := qs + eqs;
        if st.Err? {
          CollectionsRunStops(AsWriter(), colls, builder, params.values, m + 1);
          return qs, st;
        }
        m := m + 1;
      }
      assert colls[..m] == colls;
      r := Ok(());
    }

    /** The template's body for one item. */
    method WriteItem(item: Item) returns (qs: seq<Query>, r: Result<()>)
      ensures qs == ItemRun(AsWriter(), item).queries && r == ItemRun(AsWriter(), item).status
    {
      var created := CreateItemInputParameters(item);
      if created.Err? {
        return [], Err(created.error);
      }
      var params := created.value;
      var executions := ItemExecutions(item);
      if executions.Err? {
        return [], Err(executions.error);
      }
      qs, r := RunExecutions(executions.value, params, false);
      if r.Err? || item.pipeline.value.collections.None? {
        return;
      }
      var cqs;
      cqs, r := WriteCollections(params, item.pipeline.value.collections.value, item.builder);
      qs := qs + cqs;
    }

    /** write: the template over the items, with the queries sent recorded. */
    method Write(items: seq<Item>) returns (qs: seq<Query>, r: Result<()>)
      ensures qs == ItemsRun(AsWriter(), items).queries && r == ItemsRun(AsWriter(), items).status
    {
      ghost var w := AsWriter();
      qs := [];
      var i := 0;
      while i < |items|
        invariant 0 <= i <= |items|
        invariant ItemsRun(w, items[..i]).queries == qs && ItemsRun(w, items[..i]).status == Ok(())
      {
        ItemsRunStep(w, items, i);
        var iqs, st := WriteItem(items[i]);
        qs := qs + iqs;
        if st.Err? {
          ItemsRunStops(w, items, i + 1);
          return qs, st;
        }
        OkUnit(st);
        i := i + 1;
      }
      assert items[..i] == items;
      r := Ok(());
    }
  }

  // ------------------------------------------------------------ PeltasJdbcBatchWriter

  /** getConfigValue("sql"): the "sql" entry of an execution's configuration, or null. */
  function ConfigSql(config: Option<map<string, string>>): Option<string>
  {
    if config.Some? && "sql" in config.value then Some(config.value["sql"]) else None
  }

  /** The configuration a new PipelineExecution gets: the execution's resource, if there is one. */
  function ResourceConfig(resources: map<string, map<string, string>>, key: string): Option<map<string, string>>
  {
    if key in resources then Some(resources[key]) else None
  }

  /** getPipelineExecution(key).config: the cached execution's, or a new one's from the resources. */
  function ExecutionConfig(cached: map<string, PipelineExecution>, resources: map<string, map<string, string>>,
                           key: string): Option<map<string, string>>
  {
    if key in cached then cached[key].config else ResourceConfig(resources, key)
  }

  /**
   * The execution cache only grows: what was cached stays, and every entry
   * added since holds the configuration of its resource.
   */
  ghost predicate Extends(executions: map<string, PipelineExecution>, cached: map<string, PipelineExecution>,
                          resources: map<string, map<string, string>>)
  {
    (forall key :: key in cached ==> key in executions && executions[key] == cached[key]) &&
    (forall key :: key in executions && key !in cached ==> executions[key].config == ResourceConfig(resources, key))
  }

  /** Every execution the cache holds has the configuration the cache at the start gives it. */
  lemma ExtendsConfig(executions: map<string, PipelineExecution>, cached: map<string, PipelineExecution>,
                      resources: map<string, map<string, string>>, key: string)
    requires Extends(executions, cached, resources) && key in executions
    ensures executions[key].config == ExecutionConfig(cached, resources, key)
  {
  }

  /** Growing the cache twice grows it once. */
  lemma ExtendsTrans(e2: map<string, PipelineExecution>, e1: map<string, PipelineExecution>,
                     e0: map<string, PipelineExecution>, resources: map<string, map<string, string>>)
    requires Extends(e1, e0, resources) && Extends(e2, e1, resources)
    ensures Extends(e2, e0, resources)
  {
  }

  class JdbcBatchWriter {
    const properties: HandlerConfiguration.HandlerConfiguration
    const query: QueryFn
    const flatten: FlattenFn

    constructor (properties: HandlerConfiguration.HandlerConfiguration, query: QueryFn, flatten: FlattenFn)
      ensures this.properties == properties && this.query == query && this.flatten == flatten
    {
      this.properties := properties;
      this.query := query;
      this.flatten := flatten;
    }

    /**
     * The writer as the runs see it, given the execution cache when the write
     * began: sql from the cached configuration or from the resources, each
     * item execution once, one parameter copy per collection.
     */
    function AsWriter(cached: map<string, PipelineExecution>): (w: Writer)
      ensures w.batch && w.query == query && w.flatten == flatten
      ensures forall key :: w.sqlOf(key) == ConfigSql(ExecutionConfig(cached, properties.resources, key))
    {
      Writer(key => ConfigSql(ExecutionConfig(cached, properties.resources, key)), query, flatten, true)
    }

    /** One execution's query, with the sql of the execution looked up. */
    method BatchExecution(ghost cached: map<string, PipelineExecution>, key: string, execution: PipelineExecution,
                          params: ParameterSource) returns (q: Query, r: Result<()>)
      requires execution.config == ExecutionConfig(cached, properties.resources, key)
      modifies params
      ensures ExecutionsRun(AsWriter(cached), [key], old(params.values)) == Run([q], params.values, r)
    {
      var sql := ConfigSql(execution.config);
      q, r := Execute(query, key, sql, params);
      assert [key][..0] == [];
      if r.Ok? {
        OkUnit(r);
      }
    }

    /** The item's executions, in the order of the map asPipelineExecutions built. */
    method RunItemExecutions(ghost cached: map<string, PipelineExecution>, order: seq<string>,
                             result: map<string, PipelineExecution>, params: ParameterSource)
      returns (qs: seq<Query>, r: Result<()>)
      requires forall key :: key in order ==> key in result && result[key].config == ExecutionConfig(cached, properties.resources, key)
      modifies params
      ensures Run(qs, params.values, r) == ExecutionsRun(AsWriter(cached), order, old(params.values))
    {
      ghost var w, start := AsWriter(cached), params.values;
      qs := [];
      var n := 0;
      while n < |order|
        invariant 0 <= n <= |order|
        invariant ExecutionsRun(w, order[..n], start) == Run(qs, params.values, Ok(()))
      {
        ghost var before := params.values;
        var q, st := BatchExecution(cached, order[n], result[order[n]], params);
        ExecutionsRunNext(w, order, start, n, before, q, params.values, st);
        qs := qs + [q];
        if st.Err? {
          ExecutionsRunStops(w, order, start, n + 1);
          return qs, st;
        }
        n := n + 1;
      }
      assert order[..n] == order;
      r := Ok(());
    }

    /** One execution for a collection element, looked up through getPipelineExecution. */
    method CollectionExecution(ghost cached: map<string, PipelineExecution>, key: string, params: ParameterSource)
      returns (q: Query, r: Result<()>)
      requires Extends(properties.executions, cached, properties.resources)
      modifies properties, params
      ensures ExecutionsRun(AsWriter(cached), [key], old(params.values)) == Run([q], params.values, r)
      ensures Extends(properties.executions, cached, properties.resources)
      ensures properties.rules == old(properties.rules) && properties.sha == old(properties.sha)
      ensures properties.handlers == old(properties.handlers)
    {
      ghost var known := properties.executions;
      var execution := properties.GetPipelineExecution(key);
      ExtendsTrans(properties.executions, known, cached, properties.resources);
      ExtendsConfig(properties.executions, cached, properties.resources, key);
      q, r := BatchExecution(cached, key, execution, params);
    }

    /** A collection's executions for one element, each looked up through getPipelineExecution. */
    method RunCollectionExecutions(ghost cached: map<string, PipelineExecution>, keys: seq<string>, params: ParameterSource)
      returns (qs: seq<Query>, r: Result<()>)
      requires Extends(properties.executions, cached, properties.resources)
      modifies properties, params
      ensures Run(qs, params.values, r) == ExecutionsRun(AsWriter(cached), keys, old(params.values))
      ensures Extends(properties.executions, cached, properties.resources)
      ensures properties.rules == old(properties.rules) && properties.sha == old(properties.sha)
      ensures properties.handlers == old(properties.handlers)
    {
      ghost var w, start := AsWriter(cached), params.values;
      qs := [];
      var n := 0;
      while n < |keys|
        invariant 0 <= n <= |keys|
        invariant ExecutionsRun(w, keys[..n], start) == Run(qs, params.values, Ok(()))
        invariant Extends(properties.executions, cached, properties.resources)
        invariant properties.rules == old(properties.rules) && properties.sha == old(properties.sha)
        invariant properties.handlers == old(properties.handlers)
      {
        ghost var before := params.values;
        var q, st := CollectionExecution(cached, keys[n], params);
        ExecutionsRunNext(w, keys, start, n, before, q, params.values, st);
        qs := qs + [q];
        if st.Err? {
          ExecutionsRunStops(w, keys, start, n + 1);
          return qs, st;
        }
        n := n + 1;
      }
      assert keys[..n] == keys;
      r := Ok(());
    }

    /** The elements of one collection, each added to the collection's one parameter copy. */
    method WriteElements(ghost cached: map<string, PipelineExecution>, params: ParameterSource, c: string,
                         vs: seq<Value>, keys: seq<string>) returns (qs: seq<Query>, r: Result<()>)
      requires Extends(properties.executions, cached, properties.resources)
      modifies properties, params
      ensures Run(qs, params.values, r) == ElementsRun(AsWriter(cached), c, vs, keys, old(params.values))
      ensures Extends(properties.executions, cached, properties.resources)
      ensures properties.rules == old(properties.rules) && properties.sha == old(properties.sha)
      ensures properties.handlers == old(properties.handlers)
    {
      ghost var w, start := AsWriter(cached), params.values;
      qs := [];
      var j := 0;
      while j < |vs|
        invariant 0 <= j <= |vs|
        invariant ElementsRun(w, c, vs[..j], keys, start) == Run(qs, params.values, Ok(()))
        invariant Extends(properties.executions, cached, properties.resources)
        invariant properties.rules == old(properties.rules) && properties.sha == old(properties.sha)
        invariant properties.handlers == old(properties.handlers)
      {
        ElementsRunStep(w, c, vs, keys, start, j);
        params.values := AddElement(params.values, c, vs[j], flatten);
        var eqs, st := RunCollectionExecutions(cached, keys, params);
        qs := qs + eqs;
        if st.Err? {
          ElementsRunStops(w, c, vs, keys, start, j + 1);
          return qs, st;
        }
        j := j + 1;
      }
      assert vs[..j] == vs;
      r := Ok(());
    }

    /** One collection of an item, on its own copy of the item parameters, made only when it has elements. */
    method WriteCollection(ghost cached: map<string, PipelineExecution>, params: ParameterSource,
                           c: (string, PipelineCollection), builder: map<string, Value>)
      returns (qs: seq<Query>, r: Result<()>)
      requires Extends(properties.executions, cached, properties.resources)
      modifies properties
      ensures CollectionValues(builder, c.0).Err? ==> qs == [] && r == Err(CollectionValues(builder, c.0).error)
      ensures CollectionValues(builder, c.0).Ok? ==>
        var run := ElementsRun(AsWriter(cached), c.0, CollectionValues(builder, c.0).value, c.1.executions, params.values);
        qs == run.queries && r == run.status
      ensures Extends(properties.executions, cached, properties.resources)
      ensures properties.rules == old(properties.rules) && properties.sha == old(properties.sha)
      ensures properties.handlers == old(properties.handlers)
    {
      var values := CollectionValues(builder, c.0);
      if values.Err? {
        return [], Err(values.error);
      }
      qs, r := [], Ok(());
      if |values.value| > 0 {
        var copy := new ParameterSource(params.values);
        qs, r := WriteElements(cached, copy, c.0, values.value, c.1.executions);
      }
    }

    /** The collections of one item in map order. */
    method WriteCollections(ghost cached: map<string, PipelineExecution>, params: ParameterSource,
                            colls: seq<(string, PipelineCollection)>, builder: map<string, Value>)
      returns (qs: seq<Query>, r: Result<()>)
      requires Extends(properties.executions, cached, properties.resources)
      modifies properties
      ensures Run(qs, params.values, r) == CollectionsRun(AsWriter(cached), colls, builder, params.values)
      ensures Extends(properties.executions, cached, properties.resources)
      ensures properties.rules == old(properties.rules) && properties.sha == old(properties.sha)
      ensures properties.handlers == old(properties.handlers)
    {
      ghost var w := AsWriter(cached);
      qs := [];
      var m := 0;
      while m < |colls|
        invariant 0 <= m <= |colls|
        invariant CollectionsRun(w, colls[..m], builder, params.values) == Run(qs, params.values, Ok(()))
        invariant Extends(properties.executions, cached, properties.resources)
        invariant properties.rules == old(properties.rules) && properties.sha == old(properties.sha)
        invariant properties.handlers == old(properties.handlers)
      {
        var eqs, st := WriteCollection(cached, params, colls[m], builder);
        CollectionsRunNext(w, colls, builder, params.values, m, eqs, st);
        qs := qs + eqs;
        if st.Err? {
          CollectionsRunStops(w, colls, builder, params.values, m + 1);
          return qs, st;
        }
        OkUnit(st);
        m := m + 1;
      }
      assert colls[..m] == colls;
      r := Ok(());
    }

    /**
     * asPipelineExecutions for one item's executions: each key once, in
     * first-occurrence order, with the configuration the cache (or the
     * resources, for a key first seen now) gives it.
     */
    method PipelineExecutions(ghost cached: map<string, PipelineExecution>, keys: seq<string>)
      returns (order: seq<string>, result: map<string, PipelineExecution>)
      requires Extends(properties.executions, cached, properties.resources)
      modifies properties
      ensures order == HandlerConfiguration.Dedup(keys)
      ensures forall key :: key in order ==> key in result && result[key].config == ExecutionConfig(cached, properties.resources, key)
      ensures Extends(properties.executions, cached, properties.resources)
      ensures properties.rules == old(properties.rules) && properties.sha == old(properties.sha)
      ensures properties.handlers == old(properties.handlers)
    {
      ghost var known := properties.executions;
      order, result := properties.AsPipelineExecutions(keys);
      HandlerConfiguration.DedupMembers(keys);
      assert Extends(properties.executions, known, properties.resources);
      ExtendsTrans(properties.executions, known, cached, properties.resources);
      forall key | key in order
        ensures key in result && result[key].config == ExecutionConfig(cached, properties.resources, key)
      {
        ExtendsConfig(properties.executions, cached, properties.resources, key);
      }
    }

    /** One item: its parameters, its executions once each, then its collections. */
    method WriteItem(ghost cached: map<string, PipelineExecution>, item: Item) returns (qs: seq<Query>, r: Result<()>)
      requires Extends(properties.executions, cached, properties.resources)
      modifies properties
      ensures qs == ItemRun(AsWriter(cached), item).queries && r == ItemRun(AsWriter(cached), item).status
      ensures Extends(properties.executions, cached, properties.resources)
      ensures properties.rules == old(properties.rules) && properties.sha == old(properties.sha)
      ensures properties.handlers == old(properties.handlers)
    {
      var created := ItemParameters(item);
      if created.Err? {
        return [], Err(created.error);
      }
      var params := new ParameterSource(created.value);
      var executions := ItemExecutions(item);
      if executions.Err? {
        return [], Err(executions.error);
      }
      var order, result := PipelineExecutions(cached, executions.value);
      qs, r := RunItemExecutions(cached, order, result, params);
      if r.Err? || item.pipeline.value.collections.None? {
        return;
      }
      var cqs;
      cqs, r := WriteCollections(cached, params, item.pipeline.value.collections.value, item.builder);
      qs := qs + cqs;
    }

    /**
     * write: the items in order, the first exception ending the chunk. The
     * runs see the execution cache as it was when the write began; the cache
     * only grows.
     */
    method Write(items: seq<Item>) returns (qs: seq<Query>, r: Result<()>)
      modifies properties
      ensures qs == ItemsRun(AsWriter(old(properties.executions)), items).queries
      ensures r == ItemsRun(AsWriter(old(properties.executions)), items).status
      ensures Extends(properties.executions, old(properties.executions), properties.resources)
      ensures properties.rules == old(properties.rules) && properties.sha == old(properties.sha)
      ensures properties.handlers == old(properties.handlers)
    {
      ghost var cached := properties.executions;
      ghost var w := AsWriter(cached);
      qs := [];
      var i := 0;
      while i < |items|
        invariant 0 <= i <= |items|
        invariant ItemsRun(w, items[..i]).queries == qs && ItemsRun(w, items[..i]).status == Ok(())
        invariant Extends(properties.executions, cached, properties.resources)
        invariant properties.rules == old(properties.rules) && properties.sha == old(properties.sha)
        invariant properties.handlers == old(properties.handlers)
      {
        ItemsRunStep(w, items, i);
        var iqs, st := WriteItem(cached, items[i]);
        qs := qs + iqs;
        if st.Err? {
          ItemsRunStops(w, items, i + 1);
          return qs, st;
        }
        OkUnit(st);
        i := i + 1;
      }
      assert items[..i] == items;
      r := Ok(());
    }
  }
}
