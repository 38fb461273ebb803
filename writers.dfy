/**
 * The write template of PeltasExecutionItemWriter and of the older
 * PeltasItemWriter. For each item, in order: its parameters are created once,
 * its executions run in list order, then for every collection (in map order)
 * whose value in the built map is a non-empty collection, each element gets
 * its own parameters and the collection's executions run. The newer template
 * also calls beforeExecution first and afterExecution last. The calls the
 * template makes are recorded as a trace.
 */
module Writers {
  import opened Wrappers
  import opened Values
  import opened HandlerModel

  /**
   * What a writer reads from a PeltasDataHolder: the audit record, the built
   * values and the pipeline of its handler (None when the handler or its
   * pipeline is null).
   */
  datatype Item = Item(audit: Entry, builder: map<string, Value>, pipeline: Option<Pipeline>)

  /** getConfig().getPipeline().getExecutions(): a null handler, pipeline or list fails when it is used. */
  function ItemExecutions(item: Item): Result<seq<string>>
  {
    if item.pipeline.None? || item.pipeline.value.executions.None? then Err(NullPointer)
    else Ok(item.pipeline.value.executions.value)
  }

  /**
   * (Collection<Object>) builder.get(key): null gives no elements, a
   * collection its elements, and any other value fails the cast.
   */
  function CollectionValues(builder: map<string, Value>, key: string): (r: Result<seq<Value>>)
    ensures r.Err? <==> Get(builder, key) != Null && !Get(builder, key).ListV?
    ensures r.Err? ==> r.error == ClassCast
    ensures r.Ok? && Get(builder, key).ListV? ==> r.value == Get(builder, key).items
    ensures r.Ok? && Get(builder, key) == Null ==> r.value == []
  {
    match Get(builder, key)
    case Null => Ok([])
    case ListV(vs) => Ok(vs)
    case _ => Err(ClassCast)
  }

  /** How many executions the collections of an item call for: per collection, elements times executions. */
  function Fanout(colls: seq<(string, PipelineCollection)>, builder: map<string, Value>): nat
  {
    if colls == [] then 0
    else
      var c := colls[|colls| - 1];
      Fanout(colls[..|colls| - 1], builder) +
        (match CollectionValues(builder, c.0)
         case Ok(vs) => |vs| * |c.1.executions|
         case Err(_) => 0)
  }

  // ------------------------------------------------------------ the trace

  /** One call the template makes. */
  datatype Call =
    | BeforeExecution
    | AfterExecution
    | CreateItemParameters(item: nat)
    | ExecuteItem(item: nat, key: string)
    | CreateElementParameters(item: nat, collection: string, element: Value)
    | ExecuteCollection(item: nat, collection: string, key: string)

  /** The calls made, and whether the write ended normally or with an exception. */
  datatype Trace = Trace(calls: seq<Call>, status: Result<()>)

  predicate IsItemCall(c: Call)
  {
    !c.BeforeExecution? && !c.AfterExecution?
  }

  /** The calls that belong to the item itself rather than to one of its collection elements. */
  predicate IsItemLevel(c: Call)
  {
    c.CreateItemParameters? || c.ExecuteItem?
  }

  predicate IsExecution(c: Call)
  {
    c.ExecuteItem? || c.ExecuteCollection?
  }

  /** The number of execution calls in a trace. */
  function Executions(calls: seq<Call>): nat
  {
    if calls == [] then 0
    else Executions(calls[..|calls| - 1]) + (if IsExecution(calls[|calls| - 1]) then 1 else 0)
  }

  /** itemExecution for each key, in order. */
  function ItemCalls(i: nat, keys: seq<string>): (r: seq<Call>)
    ensures |r| == |keys|
    ensures forall n :: 0 <= n < |keys| ==> r[n] == ExecuteItem(i, keys[n])
  {
    if keys == [] then [] else ItemCalls(i, keys[..|keys| - 1]) + [ExecuteItem(i, keys[|keys| - 1])]
  }

  /** collectionExecution for each key, in order. */
  function CollectionCalls(i: nat, c: string, keys: seq<string>): (r: seq<Call>)
    ensures |r| == |keys|
    ensures forall n :: 0 <= n < |keys| ==> r[n] == ExecuteCollection(i, c, keys[n])
  {
    if keys == [] then [] else CollectionCalls(i, c, keys[..|keys| - 1]) + [ExecuteCollection(i, c, keys[|keys| - 1])]
  }

  /** Per element of a collection: its parameters, then the collection's executions. */
  function ElementsCalls(i: nat, c: string, vs: seq<Value>, keys: seq<string>): seq<Call>
  {
    if vs == [] then []
    else ElementsCalls(i, c, vs[..|vs| - 1], keys) + [CreateElementParameters(i, c, vs[|vs| - 1])] + CollectionCalls(i, c, keys)
  }

  /** The collections of item i in map order; a value that is not a collection ends the write. */
  function CollectionsTrace(i: nat, colls: seq<(string, PipelineCollection)>, builder: map<string, Value>): Trace
  {
    if colls == [] then Trace([], Ok(()))
    else
      var front := CollectionsTrace(i, colls[..|colls| - 1], builder);
      var c := colls[|colls| - 1];
      if front.status.Err? then front
      else
        match CollectionValues(builder, c.0)
        case Err(e) => Trace(front.calls, Err(e))
        case Ok(vs) => Trace(front.calls + ElementsCalls(i, c.0, vs, c.1.executions), Ok(()))
  }

  /** The calls for item i: its parameters, its executions, then its collections. */
  function ItemTrace(i: nat, item: Item): Trace
  {
    match ItemExecutions(item)
    case Err(e) => Trace([CreateItemParameters(i)], Err(e))
    case Ok(keys) =>
      var calls := [CreateItemParameters(i)] + ItemCalls(i, keys);
      if item.pipeline.value.collections.None? then Trace(calls, Ok(()))
      else
        var t := CollectionsTrace(i, item.pipeline.value.collections.value, item.builder);
        Trace(calls + t.calls, t.status)
  }

  /** The items in list order, each completely before the next; an exception ends the write. */
  function ItemsTrace(items: seq<Item>): Trace
  {
    if items == [] then Trace([], Ok(()))
    else
      var front := ItemsTrace(items[..|items| - 1]);
      if front.status.Err? then front
      else
        var t := ItemTrace(|items| - 1, items[|items| - 1]);
        Trace(front.calls + t.calls, t.status)
  }

  /** write: with the hooks of the newer template, beforeExecution first and afterExecution after the last item. */
  function WriteTrace(items: seq<Item>, hooks: bool): Trace
  {
    var t := ItemsTrace(items);
    if !hooks then t
    else Trace([BeforeExecution] + t.calls + (if t.status.Ok? then [AfterExecution] else []), t.status)
  }

  // ------------------------------------------------------------ the template

  /**
   * write: PeltasExecutionItemWriter (hooks) or PeltasItemWriter (no hooks),
   * with every call recorded.
   */
  method Write(items: seq<Item>, hooks: bool) returns (calls: seq<Call>, r: Result<()>)
    ensures Trace(calls, r) == WriteTrace(items, hooks)
  {
    calls := if hooks then [BeforeExecution] else [];
    var itemCalls;
    itemCalls, r := WriteItems(items);
    calls := calls + itemCalls;
    if hooks && r.Ok? {
      calls := calls + [AfterExecution];
    }
  }

  /** The item loop of write: each item in turn, stopping at the first exception. */
  method WriteItems(items: seq<Item>) returns (calls: seq<Call>, r: Result<()>)
    ensures Trace(calls, r) == ItemsTrace(items)
  {
    calls := [];
    var i := 0;
    while i < |items|
      invariant 0 <= i <= |items|
      invariant ItemsTrace(items[..i]) == Trace(calls, Ok(()))
    {
      var itemCalls, status := WriteItem(i, items[i]);
      ItemsTraceStep(items, i);
      calls := calls + itemCalls;
      if status.Err? {
        ItemsTraceStops(items, i + 1);
        return calls, status;
      }
      i := i + 1;
    }
    assert items[..i] == items;
    r := Ok(());
  }

  /** The body of the item loop of write, for item i. */
  method WriteItem(i: nat, item: Item) returns (calls: seq<Call>, r: Result<()>)
    ensures Trace(calls, r) == ItemTrace(i, item)
  {
    calls := [CreateItemParameters(i)];
    var executions := ItemExecutions(item);
    if executions.Err? {
      return calls, Err(executions.error);
    }
    var keys := executions.value;
    var n := 0;
    while n < |keys|
      invariant 0 <= n <= |keys|
      invariant calls == [CreateItemParameters(i)] + ItemCalls(i, keys[..n])
    {
      assert keys[..n + 1][..n] == keys[..n];
      calls := calls + [ExecuteItem(i, keys[n])];
      n := n + 1;
    }
    assert keys[..n] == keys;
    if item.pipeline.value.collections.None? {
      return calls, Ok(());
    }
    var collCalls;
    collCalls, r := WriteCollections(i, item.pipeline.value.collections.value, item.builder);
    calls := calls + collCalls;
  }

  /** The loop over an item's collections; a failed cast ends it. */
  method WriteCollections(i: nat, colls: seq<(string, PipelineCollection)>, builder: map<string, Value>)
    returns (calls: seq<Call>, r: Result<()>)
    ensures Trace(calls, r) == CollectionsTrace(i, colls, builder)
  {
    calls := [];
    var m := 0;
    while m < |colls|
      invariant 0 <= m <= |colls|
      invariant CollectionsTrace(i, colls[..m], builder) == Trace(calls, Ok(()))
    {
      assert colls[..m + 1][..m] == colls[..m];
      var values := CollectionValues(builder, colls[m].0);
      if values.Err? {
        CollectionsTraceStops(i, colls, builder, m + 1);
        return calls, Err(values.error);
      }
      var elementCalls := WriteCollection(i, colls[m].0, values.value, colls[m].1.executions);
      calls := calls + elementCalls;
      m := m + 1;
    }
    assert colls[..m] == colls;
    r := Ok(());
  }

  /** The loop over the elements of one collection. */
  method WriteCollection(i: nat, c: string, vs: seq<Value>, keys: seq<string>) returns (calls: seq<Call>)
    ensures calls == ElementsCalls(i, c, vs, keys)
  {
    calls := [];
    var j := 0;
    while j < |vs|
      invariant 0 <= j <= |vs|
      invariant calls == ElementsCalls(i, c, vs[..j], keys)
    {
      assert vs[..j + 1][..j] == vs[..j];
      var before := calls + [CreateElementParameters(i, c, vs[j])];
      calls := before;
      var n := 0;
      while n < |keys|
        invariant 0 <= n <= |keys|
        invariant calls == before + CollectionCalls(i, c, keys[..n])
      {
        assert keys[..n + 1][..n] == keys[..n];
        calls := calls + [ExecuteCollection(i, c, keys[n])];
        n := n + 1;
      }
      assert keys[..n] == keys;
      j := j + 1;
    }
    assert vs[..j] == vs;
  }

  /** One more item after a prefix that went through. */
  lemma ItemsTraceStep(items: seq<Item>, i: nat)
    requires i < |items| && ItemsTrace(items[..i]).status.Ok?
    ensures ItemsTrace(items[..i + 1]) ==
      Trace(ItemsTrace(items[..i]).calls + ItemTrace(i, items[i]).calls, ItemTrace(i, items[i]).status)
  {
    assert items[..i + 1][..i] == items[..i];
  }

  /** Once an item has thrown, the later items add nothing. */
  lemma {:induction false} ItemsTraceStops(items: seq<Item>, n: nat)
    requires n <= |items| && ItemsTrace(items[..n]).status.Err?
    ensures ItemsTrace(items) == ItemsTrace(items[..n])
    decreases |items|
  {
    if n < |items| {
      var front := items[..|items| - 1];
      assert front[..n] == items[..n];
      ItemsTraceStops(front, n);
    } else {
      assert items[..n] == items;
    }
  }

  /** Once a collection has failed the cast, the later collections add nothing. */
  lemma {:induction false} CollectionsTraceStops(i: nat, colls: seq<(string, PipelineCollection)>, builder: map<string, Value>, n: nat)
    requires n <= |colls| && CollectionsTrace(i, colls[..n], builder).status.Err?
    ensures CollectionsTrace(i, colls, builder) == CollectionsTrace(i, colls[..n], builder)
    decreases |colls|
  {
    if n < |colls| {
      var front := colls[..|colls| - 1];
      assert front[..n] == colls[..n];
      CollectionsTraceStops(i, front, builder, n);
    } else {
      assert colls[..n] == colls;
    }
  }

  // ------------------------------------------------------------ properties

  lemma {:induction false} ExecutionsAppend(a: seq<Call>, b: seq<Call>)
    ensures Executions(a + b) == Executions(a) + Executions(b)
    decreases |b|
  {
    if b != [] {
      var b' := b[..|b| - 1];
      assert (a + b)[..|a + b| - 1] == a + b';
      assert (a + b)[|a + b| - 1] == b[|b| - 1];
      ExecutionsAppend(a, b');
    } else {
      assert a + b == a;
    }
  }

  lemma {:induction false} ExecutionsOfItemCalls(i: nat, keys: seq<string>)
    ensures Executions(ItemCalls(i, keys)) == |keys|
    decreases |keys|
  {
    if keys != [] {
      var front := keys[..|keys| - 1];
      ExecutionsOfItemCalls(i, front);
      ExecutionsAppend(ItemCalls(i, front), [ExecuteItem(i, keys[|keys| - 1])]);
      assert Executions([ExecuteItem(i, keys[|keys| - 1])]) == 1;
    }
  }

  lemma {:induction false} ExecutionsOfCollectionCalls(i: nat, c: string, keys: seq<string>)
    ensures Executions(CollectionCalls(i, c, keys)) == |keys|
    decreases |keys|
  {
    if keys != [] {
      var front := keys[..|keys| - 1];
      ExecutionsOfCollectionCalls(i, c, front);
      ExecutionsAppend(CollectionCalls(i, c, front), [ExecuteCollection(i, c, keys[|keys| - 1])]);
      assert Executions([ExecuteCollection(i, c, keys[|keys| - 1])]) == 1;
    }
  }

  lemma ElementsProduct(n: nat, k: nat)
    ensures (n + 1) * k == n * k + k
  {
  }

  /** Each element runs every execution of its collection once. */
  lemma {:induction false} ExecutionsOfElements(i: nat, c: string, vs: seq<Value>, keys: seq<string>)
    ensures Executions(ElementsCalls(i, c, vs, keys)) == |vs| * |keys|
    decreases |vs|
  {
    if vs != [] {
      var front := vs[..|vs| - 1];
      var last := [CreateElementParameters(i, c, vs[|vs| - 1])];
      var ef := ElementsCalls(i, c, front, keys);
      var cc := CollectionCalls(i, c, keys);
      assert ElementsCalls(i, c, vs, keys) == ef + last + cc;
      ExecutionsOfElements(i, c, front, keys);
      ExecutionsAppend(ef, last);
      assert Executions(last) == 0 by {
        assert last[..0] == [];
      }
      ExecutionsAppend(ef + last, cc);
      ExecutionsOfCollectionCalls(i, c, keys);
      ElementsProduct(|front|, |keys|);
    }
  }

  lemma {:induction false} ExecutionsOfCollections(i: nat, colls: seq<(string, PipelineCollection)>, builder: map<string, Value>)
    requires CollectionsTrace(i, colls, builder).status.Ok?
    ensures Executions(CollectionsTrace(i, colls, builder).calls) == Fanout(colls, builder)
    decreases |colls|
  {
    if colls != [] {
      var front := colls[..|colls| - 1];
      var c := colls[|colls| - 1];
      ExecutionsOfCollections(i, front, builder);
      var vs := CollectionValues(builder, c.0).value;
      ExecutionsAppend(CollectionsTrace(i, front, builder).calls, ElementsCalls(i, c.0, vs, c.1.executions));
      ExecutionsOfElements(i, c.0, vs, c.1.executions);
    }
  }

  /**
   * The executions one item calls when the write goes through: its own
   * executions plus, per collection, elements times collection executions
   * (a null collection map, a null value and an empty collection add none).
   */
  lemma ItemExecutionCount(i: nat, item: Item)
    requires ItemTrace(i, item).status.Ok?
    ensures Executions(ItemTrace(i, item).calls) ==
      |ItemExecutions(item).value| +
      (if item.pipeline.value.collections.None? then 0 else Fanout(item.pipeline.value.collections.value, item.builder))
  {
    var keys := ItemExecutions(item).value;
    var calls := [CreateItemParameters(i)] + ItemCalls(i, keys);
    ExecutionsAppend([CreateItemParameters(i)], ItemCalls(i, keys));
    assert Executions([CreateItemParameters(i)]) == 0 by {
      assert [CreateItemParameters(i)][..0] == [];
    }
    ExecutionsOfItemCalls(i, keys);
    if item.pipeline.value.collections.Some? {
      var colls := item.pipeline.value.collections.value;
      ExecutionsAppend(calls, CollectionsTrace(i, colls, item.builder).calls);
      ExecutionsOfCollections(i, colls, item.builder);
    }
  }

  /** Every call of a collection's elements is a collection-level call of item i. */
  lemma {:induction false} ElementsCallsShape(i: nat, c: string, vs: seq<Value>, keys: seq<string>)
    ensures forall a :: 0 <= a < |ElementsCalls(i, c, vs, keys)| ==>
      IsItemCall(ElementsCalls(i, c, vs, keys)[a]) && !IsItemLevel(ElementsCalls(i, c, vs, keys)[a]) &&
      ElementsCalls(i, c, vs, keys)[a].item == i
    decreases |vs|
  {
    if vs != [] {
      ElementsCallsShape(i, c, vs[..|vs| - 1], keys);
    }
  }

  lemma {:induction false} CollectionsTraceShape(i: nat, colls: seq<(string, PipelineCollection)>, builder: map<string, Value>)
    ensures forall a :: 0 <= a < |CollectionsTrace(i, colls, builder).calls| ==>
      IsItemCall(CollectionsTrace(i, colls, builder).calls[a]) &&
      !IsItemLevel(CollectionsTrace(i, colls, builder).calls[a]) &&
      CollectionsTrace(i, colls, builder).calls[a].item == i
    decreases |colls|
  {
    if colls != [] {
      var front := colls[..|colls| - 1];
      var c := colls[|colls| - 1];
      CollectionsTraceShape(i, front, builder);
      var vs := CollectionValues(builder, c.0);
      if vs.Ok? {
        ElementsCallsShape(i, c.0, vs.value, c.1.executions);
      }
    }
  }

  /**
   * The calls for one item: its parameters first and only once, then its
   * own executions, and only after all of them the collection calls; every
   * call belongs to that item.
   */
  lemma ItemTraceShape(i: nat, item: Item)
    ensures var calls := ItemTrace(i, item).calls;
      |calls| >= 1 && calls[0] == CreateItemParameters(i) &&
      (forall a :: 0 < a < |calls| ==> !calls[a].CreateItemParameters?) &&
      (forall a, b :: 0 <= a < b < |calls| && IsItemLevel(calls[b]) ==> IsItemLevel(calls[a])) &&
      (forall a :: 0 <= a < |calls| ==> IsItemCall(calls[a]) && calls[a].item == i)
  {
    if ItemExecutions(item).Ok? && item.pipeline.value.collections.Some? {
      CollectionsTraceShape(i, item.pipeline.value.collections.value, item.builder);
    }
  }

  /** Every call belongs to one of the first n items, and the item numbers never go down. */
  predicate InItemOrder(calls: seq<Call>, n: nat)
  {
    (forall a :: 0 <= a < |calls| ==> IsItemCall(calls[a]) && calls[a].item < n) &&
    (forall a, b :: 0 <= a < b < |calls| ==> calls[a].item <= calls[b].item)
  }

  /** The calls of one more item, all for that item, keep the order. */
  lemma InItemOrderAppend(before: seq<Call>, next: seq<Call>, n: nat)
    requires InItemOrder(before, n)
    requires forall a :: 0 <= a < |next| ==> IsItemCall(next[a]) && next[a].item == n
    ensures InItemOrder(before + next, n + 1)
  {
    var calls := before + next;
    forall a | 0 <= a < |calls| ensures IsItemCall(calls[a]) && calls[a].item < n + 1 {
      if a >= |before| {
        assert calls[a] == next[a - |before|];
      } else {
        assert calls[a] == before[a];
      }
    }
    forall a, b | 0 <= a < b < |calls| ensures calls[a].item <= calls[b].item {
      if b >= |before| {
        assert calls[b] == next[b - |before|];
        if a >= |before| {
          assert calls[a] == next[a - |before|];
        } else {
          assert calls[a] == before[a];
        }
      } else {
        assert calls[a] == before[a] && calls[b] == before[b];
      }
    }
  }

  /** Items are written in list order, each completely before the next: the item numbers never go down. */
  lemma {:induction false} ItemsInOrder(items: seq<Item>)
    ensures InItemOrder(ItemsTrace(items).calls, |items|)
    decreases |items|
  {
    if items != [] {
      var front := items[..|items| - 1];
      ItemsInOrder(front);
      var ft := ItemsTrace(front);
      if ft.status.Ok? {
        var t := ItemTrace(|items| - 1, items[|items| - 1]);
        ItemTraceShape(|items| - 1, items[|items| - 1]);
        assert ItemsTrace(items).calls == ft.calls + t.calls;
        InItemOrderAppend(ft.calls, t.calls, |front|);
      } else {
        assert ItemsTrace(items) == ft;
      }
    }
  }

  /**
   * With the hooks, beforeExecution is the first call and the only one;
   * afterExecution is the last call when the write goes through, and is not
   * called when it throws. Without the hooks neither is called.
   */
  lemma WriteHooks(items: seq<Item>, hooks: bool)
    ensures var t := WriteTrace(items, hooks);
      (hooks ==> |t.calls| >= 1 && t.calls[0] == BeforeExecution) &&
      (forall a :: 0 < a < |t.calls| ==> !t.calls[a].BeforeExecution?) &&
      (!hooks ==> forall a :: 0 <= a < |t.calls| ==> IsItemCall(t.calls[a])) &&
      (hooks && t.status.Ok? ==> t.calls[|t.calls| - 1] == AfterExecution) &&
      (forall a :: 0 <= a < |t.calls| && t.calls[a].AfterExecution? ==> hooks && t.status.Ok? && a == |t.calls| - 1)
  {
    ItemsInOrder(items);
    var inner := ItemsTrace(items).calls;
    assert forall a :: 0 <= a < |inner| ==> IsItemCall(inner[a]);
    if hooks {
      var calls := WriteTrace(items, hooks).calls;
      var tail: seq<Call> := if ItemsTrace(items).status.Ok? then [AfterExecution] else [];
      assert calls == [BeforeExecution] + inner + tail;
      forall a | 0 < a < |calls|
        ensures !calls[a].BeforeExecution?
        ensures calls[a].AfterExecution? ==> tail != [] && a == |calls| - 1
      {
        if a <= |inner| {
          assert calls[a] == inner[a - 1];
          assert IsItemCall(inner[a - 1]);
        } else {
          assert calls[a] == tail[a - 1 - |inner|];
        }
      }
    } else {
      assert WriteTrace(items, hooks).calls == inner;
    }
  }
}
