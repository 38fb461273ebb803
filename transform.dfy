/**
 * PeltasHandler: turns one audit record into the values of its handler's
 * properties. Pass 1 resolves every data item that is a quoted literal or a
 * field lookup, combines the values of a property (through its format when
 * it has one) and converts the result to the property's type; properties
 * that refer to other properties ("prop:" items) are resolved in pass 2
 * against the values pass 1 built.
 */
module Transform {
  import SeqFacts
  import opened Wrappers
  import opened Text
  import opened Values
  import opened HandlerModel
  import opened Converters
  import PropertyLookup
  import StringToMapUtil

  /** A data item that refers to another property's value. */
  const DEFERRED_PREFIX: string := "prop:"

  /** The parts of the conversion service this model does not interpret. */
  datatype Services = Services(
    parse: DateParser,                                  // SimpleDateFormat.parse
    formatDate: (string, int) -> Option<string>,        // SimpleDateFormat.format; None: a rejected pattern
    formatter: (string, seq<Value>) -> Option<string>,  // String.format; None: an IllegalFormatException
    flatten: map<string, Value> -> seq<(string, Value)>, // ObjectToMapTransformer with flattened keys
    other: (Value, TargetType) -> Result<Value>)        // every conversion not listed in Convert

  /**
   * conversionService.convert(value, type) with the handler's converters
   * (String->HashMap, String->Date, Date->String, HashMap->Collection);
   * a value of the requested type is kept; a converter's failure surfaces as
   * a ConversionFailedException.
   */
  function Convert(value: Value, target: TargetType, format: Option<string>, svc: Services): (r: Result<Value>)
    requires value != Null
    ensures r.Err? ==> r.error == ConversionFailure
    ensures value.Str? && target == DateType ==> (r.Ok? <==> StringToDate(value.s, format, svc.parse).Ok?)
    ensures value.Str? && target == MapType && !HasText(value.s) ==> r == Ok(MapV(map[]))
    ensures value.MapV? && target == CollectionType ==> r == Ok(ListV(KeyValueList(svc.flatten(value.m))))
  {
    match (value, target)
    case (Str(s), MapType) =>
      if !HasText(s) then Ok(MapV(map[]))
      else (match StringToMapUtil.ParsedMap(s, ',')
            case Ok(m) => Ok(MapV(m))
            case Err(_) => Err(ConversionFailure))
    case (Str(s), DateType) =>
      (match StringToDate(s, format, svc.parse)
       case Ok(d) => Ok(DateV(d))
       case Err(_) => Err(ConversionFailure))
    case (DateV(d), StringType) =>
      (match DateToString(d, format, svc.formatDate)
       case Ok(t) => Ok(Str(t))
       case Err(_) => Err(ConversionFailure))
    case (MapV(m), CollectionType) => Ok(ListV(KeyValueList(svc.flatten(m))))
    case (Str(_), StringType) => Ok(value)
    case (DateV(_), DateType) => Ok(value)
    case (MapV(_), MapType) => Ok(value)
    case (ListV(_), CollectionType) => Ok(value)
    case _ =>
      (match svc.other(value, target)
       case Ok(v) => Ok(v)
       case Err(_) => Err(ConversionFailure))
  }

  /**
   * convertValue: a null value is stored as a present key holding null; any
   * other value is converted when the property has a type, and stored only
   * when the conversion gives a value. No other key changes.
   */
  function StoreValue(builder: map<string, Value>, key: string, value: Value, prop: ExpressionProperty, svc: Services)
    : (r: Result<map<string, Value>>)
    ensures value == Null ==> r == Ok(builder[key := Null])
    ensures value != Null && prop.target.None? ==> r == Ok(builder[key := value])
    ensures value != Null && r.Ok? ==> r.value == builder || (key in r.value && r.value[key] != Null)
    ensures r.Ok? ==> r.value.Keys <= builder.Keys + {key}
    ensures r.Ok? ==> forall k :: k in builder && k != key ==> k in r.value && r.value[k] == builder[k]
  {
    if value == Null then Ok(builder[key := Null])
    else if prop.target.None? then Ok(builder[key := value])
    else
      match Convert(value, prop.target.value, prop.format, svc)
      case Err(e) => Err(e)
      case Ok(v) => if v != Null then Ok(builder[key := v]) else Ok(builder)
  }

  /** The property's format has text. */
  predicate HasFormat(prop: ExpressionProperty)
  {
    prop.format.Some? && HasText(prop.format.value)
  }

  /**
   * The value convertStringValues hands to convertValue: with a format and
   * the String type, all values formatted together (even a single one);
   * otherwise exactly one value as it is; two or more values without a
   * String format are refused; no values give null.
   */
  function Combined(values: seq<Value>, prop: ExpressionProperty, svc: Services): (r: Result<Value>)
    ensures values == [] ==> r == Ok(Null)
    ensures values != [] && HasFormat(prop) && prop.target == Some(StringType) ==>
      r == (match svc.formatter(prop.format.value, values)
            case Some(t) => Ok(Str(t))
            case None => Err(IllegalArgument))
    ensures values != [] && (!HasFormat(prop) || (prop.target.Some? && prop.target != Some(StringType))) ==>
      r == (if |values| == 1 then Ok(values[0]) else Err(IllegalArgument))
    ensures values != [] && HasFormat(prop) && prop.target.None? ==> r == Err(NullPointer)
  {
    if values == [] then Ok(Null)
    else if HasFormat(prop) && prop.target.None? then Err(NullPointer)
    else if HasFormat(prop) && prop.target == Some(StringType) then
      (match svc.formatter(prop.format.value, values)
       case Some(t) => Ok(Str(t))
       case None => Err(IllegalArgument))
    else if |values| == 1 then Ok(values[0])
    else Err(IllegalArgument)
  }

  // ------------------------------------------------------------------ pass 1

  /** A quoted literal: '..' or "..", a lone quote char counting as both ends. */
  predicate Quoted(d: string)
  {
    (StartsWith(d, "\"") && EndsWith(d, "\"")) || (StartsWith(d, "'") && EndsWith(d, "'"))
  }

  /**
   * The value of one (trimmed) data item in pass 1: the trimmed text inside
   * the quotes of a literal, otherwise the record's field (getMappedSingleValueProperty).
   */
  function ItemValue(d: string, entry: Entry): (r: Result<Value>)
    ensures !Quoted(d) ==> r == PropertyLookup.SingleValue(d, entry)
    ensures Quoted(d) ==> (r.Ok? <==> |d| >= 2)
  {
    if Quoted(d) then
      if |d| < 2 then Err(IndexOutOfBounds) else Ok(Str(Trim(d[1..|d| - 1])))
    else PropertyLookup.SingleValue(d, entry)
  }

  /** A quoted literal gives its inner text, trimmed. */
  lemma LiteralItem(q: char, t: string, entry: Entry)
    requires q == '\'' || q == '"'
    ensures ItemValue([q] + t + [q], entry) == Ok(Str(Trim(t)))
  {
    var d := [q] + t + [q];
    assert d[..1] == [q] && d[|d| - 1..] == [q];
    assert d[1..|d| - 1] == t;
  }

  /** What pass 1 gathers for one property: its non-null values, and whether it refers to other properties. */
  datatype Gathered = Gathered(values: seq<Value>, deferred: bool)

  /** The item, once trimmed, refers to another property. */
  predicate IsReference(d: string)
  {
    StartsWith(Trim(d), DEFERRED_PREFIX)
  }

  /** One data item of pass 1: a reference marks the property, a non-null value is kept. */
  function GatherStep(g: Gathered, item: string, entry: Entry): (r: Result<Gathered>)
    ensures r.Ok? && Null !in g.values ==> Null !in r.value.values
    ensures r.Ok? ==> |r.value.values| <= |g.values| + 1
    ensures r.Ok? ==> (r.value.deferred <==> g.deferred || IsReference(item))
  {
    if IsReference(item) then Ok(Gathered(g.values, true))
    else
      match ItemValue(Trim(item), entry)
      case Err(e) => Err(e)
      case Ok(v) => Ok(if v == Null then g else Gathered(g.values + [v], g.deferred))
  }

  /** The inner loop of processProperties over one property's data items, in order. */
  function DataValues(data: seq<string>, entry: Entry): (r: Result<Gathered>)
    ensures r.Ok? ==> Null !in r.value.values && |r.value.values| <= |data|
  {
    if data == [] then Ok(Gathered([], false))
    else
      match DataValues(data[..|data| - 1], entry)
      case Err(e) => Err(e)
      case Ok(g) => GatherStep(g, data[|data| - 1], entry)
  }

  /** A property is deferred exactly when one of its items is a reference. */
  lemma {:induction false} DataValuesDeferred(data: seq<string>, entry: Entry)
    requires DataValues(data, entry).Ok?
    ensures DataValues(data, entry).value.deferred <==> exists i :: 0 <= i < |data| && IsReference(data[i])
  {
    if data != [] {
      var front := data[..|data| - 1];
      DataValuesDeferred(front, entry);
      SeqFacts.ExistsSnoc(data, front, d => IsReference(d));
      assert (exists i :: 0 <= i < |data| && IsReference(data[i])) <==>
        exists i :: 0 <= i < |data| && (d => IsReference(d))(data[i]);
      assert (exists i :: 0 <= i < |front| && IsReference(front[i])) <==>
        exists i :: 0 <= i < |front| && (d => IsReference(d))(front[i]);
    }
  }

  /** The loop of processProperties over one property's data items. */
  method CollectDataValues(data: seq<string>, entry: Entry) returns (r: Result<Gathered>)
    ensures r == DataValues(data, entry)
  {
    var g := Gathered([], false);
    var i := 0;
    while i < |data|
      invariant 0 <= i <= |data|
      invariant DataValues(data[..i], entry) == Ok(g)
    {
      assert data[..i + 1][..i] == data[..i];
      var next := GatherStep(g, data[i], entry);
      if next.Err? {
        DataValuesPrefixErr(data, i + 1, entry);
        return next;
      }
      g := next.value;
      i := i + 1;
    }
    assert data[..i] == data;
    return Ok(g);
  }

  /** A failure on a prefix of the items is the failure of all of them. */
  lemma {:induction false} DataValuesPrefixErr(data: seq<string>, n: nat, entry: Entry)
    requires n <= |data| && DataValues(data[..n], entry).Err?
    ensures DataValues(data, entry) == DataValues(data[..n], entry)
    decreases |data| - n
  {
    if n < |data| {
      assert data[..n + 1][..n] == data[..n];
      DataValuesPrefixErr(data, n + 1, entry);
    } else {
      assert data[..n] == data;
    }
  }

  /** Properties with their names, in the iteration order of the mapper's map. */
  type Properties = seq<(string, ExpressionProperty)>

  function Names(props: Properties): set<string>
  {
    set m | 0 <= m < |props| :: props[m].0
  }

  /** The outcome of pass 1: the values built and the properties left for pass 2, in order. */
  datatype FirstPass = FirstPass(builder: map<string, Value>, deferred: Properties)

  /** Pass 1 of one property: its values are combined and stored; a reference marks it for pass 2. */
  function FirstPassStep(acc: FirstPass, key: string, prop: ExpressionProperty, entry: Entry, svc: Services)
    : (r: Result<FirstPass>)
    ensures r.Ok? ==> r.value.builder.Keys <= acc.builder.Keys + {key}
    ensures r.Ok? ==> r.value.deferred == acc.deferred || r.value.deferred == acc.deferred + [(key, prop)]
  {
    if prop.data.None? then Err(NullPointer)
    else
      match DataValues(prop.data.value, entry)
      case Err(e) => Err(e)
      case Ok(g) =>
        match Combined(g.values, prop, svc)
        case Err(e) => Err(e)
        case Ok(v) =>
          match StoreValue(acc.builder, key, v, prop, svc)
          case Err(e) => Err(e)
          case Ok(b) => Ok(FirstPass(b, if g.deferred then acc.deferred + [(key, prop)] else acc.deferred))
  }

  /** Pass 1 over the properties in order, from an empty builder. */
  function Pass1(props: Properties, entry: Entry, svc: Services): (r: Result<FirstPass>)
  {
    if props == [] then Ok(FirstPass(map[], []))
    else
      match Pass1(props[..|props| - 1], entry, svc)
      case Err(e) => Err(e)
      case Ok(acc) => FirstPassStep(acc, props[|props| - 1].0, props[|props| - 1].1, entry, svc)
  }

  /**
   * Pass 1 writes only the properties' own names, and leaves for pass 2
   * only properties of the mapper.
   */
  lemma {:induction false} Pass1Bounds(props: Properties, entry: Entry, svc: Services)
    requires Pass1(props, entry, svc).Ok?
    ensures Pass1(props, entry, svc).value.builder.Keys <= Names(props)
    ensures forall m :: 0 <= m < |Pass1(props, entry, svc).value.deferred| ==>
      Pass1(props, entry, svc).value.deferred[m] in props
  {
    if props != [] {
      var front := props[..|props| - 1];
      Pass1Bounds(front, entry, svc);
      assert Names(front) <= Names(props) by {
        forall x | x in Names(front) ensures x in Names(props) {
          var m :| 0 <= m < |front| && front[m].0 == x;
          assert props[m] == front[m];
        }
      }
      assert props[|props| - 1].0 in Names(props);
      forall p | p in front ensures p in props {
        var m :| 0 <= m < |front| && front[m] == p;
        assert props[m] == p;
      }
    }
  }

  // ------------------------------------------------------------------ pass 2

  /** The name a reference item points at: the item with its first "prop:" removed. */
  function Referenced(d: string): string
  {
    ReplaceFirst(d, DEFERRED_PREFIX, "")
  }

  /**
   * The value of a property's only reference: "k@s" reads entry s of the
   * map built for k (which must be a map); otherwise the value built for the name.
   */
  function Reference(builder: map<string, Value>, d: string): (r: Result<Value>)
    ensures !Contains(Referenced(d), PropertyLookup.SUB_KEY) ==> r == Ok(Get(builder, Referenced(d)))
  {
    var name := Referenced(d);
    var path := DelimitedList(name, PropertyLookup.SUB_KEY);
    if |path| > 1 then
      match Get(builder, path[0])
      case MapV(m) => Ok(Get(m, path[1]))
      case Null => Err(NullPointer)
      case _ => Err(ClassCast)
    else Ok(Get(builder, name))
  }

  /**
   * One of several references: it must read "k@s" from the map built for k
   * (the cast, then the index, then the null map are checked in that order);
   * a missing entry gives null, which is kept.
   */
  function MemberValue(builder: map<string, Value>, d: string): (r: Result<Value>)
  {
    var path := DelimitedList(Referenced(d), PropertyLookup.SUB_KEY);
    if |path| == 0 then Err(IndexOutOfBounds)
    else
      match Get(builder, path[0])
      case MapV(m) => if |path| < 2 then Err(IndexOutOfBounds) else Ok(Get(m, path[1]))
      case Null => if |path| < 2 then Err(IndexOutOfBounds) else Err(NullPointer)
      case _ => Err(ClassCast)
  }

  /** The values of several references, one per item and in order, nulls included. */
  function MemberValues(builder: map<string, Value>, data: seq<string>): (r: Result<seq<Value>>)
    ensures r.Ok? ==> |r.value| == |data|
    ensures r.Ok? ==> forall m :: 0 <= m < |data| ==> MemberValue(builder, data[m]) == Ok(r.value[m])
  {
    if data == [] then Ok([])
    else
      match MemberValues(builder, data[..|data| - 1])
      case Err(e) => Err(e)
      case Ok(vs) =>
        match MemberValue(builder, data[|data| - 1])
        case Err(e) => Err(e)
        case Ok(v) => Ok(vs + [v])
  }

  /**
   * Pass 2 of one property: no items is an error; a single reference that
   * reads a value overwrites the property when it has a type and changes
   * nothing otherwise; several references are combined as in pass 1.
   */
  function Resolve(builder: map<string, Value>, key: string, prop: ExpressionProperty, svc: Services)
    : (r: Result<map<string, Value>>)
    ensures prop.data == Some([]) ==> r == Err(Runtime)
    ensures prop.data.Some? && |prop.data.value| == 1 && Reference(builder, prop.data.value[0]) == Ok(Null) ==>
      r == Ok(builder)
    ensures prop.data.Some? && |prop.data.value| == 1 && prop.target.None? && Reference(builder, prop.data.value[0]).Ok? ==>
      r == Ok(builder)
    ensures r.Ok? ==> r.value.Keys <= builder.Keys + {key}
    ensures r.Ok? ==> forall k :: k in builder && k != key ==> k in r.value && r.value[k] == builder[k]
  {
    if prop.data.None? then Err(NullPointer)
    else if |prop.data.value| == 0 then Err(Runtime)
    else if |prop.data.value| == 1 then
      match Reference(builder, prop.data.value[0])
      case Err(e) => Err(e)
      case Ok(v) => if v != Null && prop.target.Some? then StoreValue(builder, key, v, prop, svc) else Ok(builder)
    else
      match MemberValues(builder, prop.data.value)
      case Err(e) => Err(e)
      case Ok(vs) =>
        match Combined(vs, prop, svc)
        case Err(e) => Err(e)
        case Ok(v) => StoreValue(builder, key, v, prop, svc)
  }

  /** Pass 2 over the deferred properties in order, each seeing what the earlier ones stored. */
  function Pass2(deferred: Properties, builder: map<string, Value>, svc: Services): (r: Result<map<string, Value>>)
    ensures r.Ok? ==> r.value.Keys <= builder.Keys + Names(deferred)
  {
    if deferred == [] then Ok(builder)
    else
      var front := deferred[..|deferred| - 1];
      assert Names(front) <= Names(deferred) by {
        forall x | x in Names(front) ensures x in Names(deferred) {
          var m :| 0 <= m < |front| && front[m].0 == x;
          assert deferred[m] == front[m];
        }
      }
      assert deferred[|deferred| - 1].0 in Names(deferred);
      match Pass2(front, builder, svc)
      case Err(e) => Err(e)
      case Ok(b) => Resolve(b, deferred[|deferred| - 1].0, deferred[|deferred| - 1].1, svc)
  }

  /** processProperties: pass 1, then pass 2 when some property was deferred. */
  function Process(props: Properties, entry: Entry, svc: Services): Result<map<string, Value>>
  {
    match Pass1(props, entry, svc)
    case Err(e) => Err(e)
    case Ok(p) => if p.deferred == [] then Ok(p.builder) else Pass2(p.deferred, p.builder, svc)
  }

  /** Only the mapper's property names are ever written. */
  lemma ProcessWritesProperties(props: Properties, entry: Entry, svc: Services)
    requires Process(props, entry, svc).Ok?
    ensures Process(props, entry, svc).value.Keys <= Names(props)
  {
    var p := Pass1(props, entry, svc).value;
    Pass1Bounds(props, entry, svc);
    forall x | x in Names(p.deferred) ensures x in Names(props) {
      var m :| 0 <= m < |p.deferred| && p.deferred[m].0 == x;
      var n :| 0 <= n < |props| && props[n] == p.deferred[m];
    }
  }

  /**
   * A property made of one quoted literal, with no format and no type,
   * holds the literal's trimmed text.
   */
  lemma LiteralProperty(key: string, q: char, t: string, entry: Entry, svc: Services)
    requires q == '\'' || q == '"'
    requires Trim([q] + t + [q]) == [q] + t + [q]
    ensures var prop := ExpressionProperty(None, None, Some([[q] + t + [q]]), None);
      Process([(key, prop)], entry, svc) == Ok(map[key := Str(Trim(t))])
  {
    var d := [q] + t + [q];
    var prop := ExpressionProperty(None, None, Some([d]), None);
    LiteralItem(q, t, entry);
    var ds: seq<string> := [d];
    assert ds[..0] == [];
    assert !IsReference(d) by {
      assert d[0] == q;
    }
    assert Trim(d) == d;
    assert ItemValue(Trim(d), entry) == Ok(Str(Trim(t)));
    var e: seq<Value> := [];
    assert e + [Str(Trim(t))] == [Str(Trim(t))];
    assert GatherStep(Gathered([], false), d, entry) == Ok(Gathered([Str(Trim(t))], false));
    assert DataValues(ds, entry) == Ok(Gathered([Str(Trim(t))], false));
    var ps: Properties := [(key, prop)];
    assert ps[..0] == [];
    var v := Str(Trim(t));
    assert Combined([v], prop, svc) == Ok(v);
    assert StoreValue(map[], key, v, prop, svc) == Ok(map[key := v]);
    assert FirstPassStep(FirstPass(map[], []), key, prop, entry, svc) == Ok(FirstPass(map[key := v], []));
    assert Pass1(ps, entry, svc) == Ok(FirstPass(map[key := v], []));
  }

  // ------------------------------------------------ what each property ends with

  /** The properties' names are distinct, as the keys of the mapper's map are. */
  predicate DistinctNames(props: Properties)
  {
    forall i, j :: 0 <= i < j < |props| ==> props[i].0 != props[j].0
  }

  /** The two value maps agree on the name: both hold it with the same value, or neither holds it. */
  predicate AgreeAt(a: map<string, Value>, b: map<string, Value>, key: string)
  {
    (key in a <==> key in b) && (key in a ==> a[key] == b[key])
  }

  /** Some data item of the property is a reference. */
  predicate HasReference(prop: ExpressionProperty)
    requires prop.data.Some?
  {
    exists i :: 0 <= i < |prop.data.value| && IsReference(prop.data.value[i])
  }

  /**
   * Pass 1 of a property whose name holds nothing yet leaves under that name
   * what the property stores on its own.
   */
  lemma FirstPassStepOwn(acc: FirstPass, key: string, prop: ExpressionProperty, entry: Entry, svc: Services)
    requires key !in acc.builder && FirstPassStep(acc, key, prop, entry, svc).Ok?
    ensures prop.data.Some? && DataValues(prop.data.value, entry).Ok?
    ensures var g := DataValues(prop.data.value, entry).value;
      Combined(g.values, prop, svc).Ok? &&
      StoreValue(map[], key, Combined(g.values, prop, svc).value, prop, svc).Ok? &&
      AgreeAt(FirstPassStep(acc, key, prop, entry, svc).value.builder,
        StoreValue(map[], key, Combined(g.values, prop, svc).value, prop, svc).value, key)
  {
  }

  /** Pass 1 of a property defers it exactly when gathering its items met a reference. */
  lemma FirstPassStepDeferral(acc: FirstPass, key: string, prop: ExpressionProperty, entry: Entry, svc: Services)
    requires FirstPassStep(acc, key, prop, entry, svc).Ok?
    ensures prop.data.Some? && DataValues(prop.data.value, entry).Ok?
    ensures FirstPassStep(acc, key, prop, entry, svc).value.deferred ==
      if DataValues(prop.data.value, entry).value.deferred then acc.deferred + [(key, prop)] else acc.deferred
  {
  }

  /** Pass 1 of a property leaves every other name alone. */
  lemma FirstPassStepOther(acc: FirstPass, k: string, prop: ExpressionProperty, entry: Entry, svc: Services, key: string)
    requires k != key && FirstPassStep(acc, k, prop, entry, svc).Ok?
    ensures AgreeAt(FirstPassStep(acc, k, prop, entry, svc).value.builder, acc.builder, key)
  {
  }

  /** Pass 1 after the first n properties leaves alone a name none of the rest has. */
  lemma {:induction false} Pass1KeepsAfter(props: Properties, n: nat, entry: Entry, svc: Services, key: string)
    requires n <= |props| && Pass1(props, entry, svc).Ok?
    requires forall i :: n <= i < |props| ==> props[i].0 != key
    ensures Pass1(props[..n], entry, svc).Ok?
    ensures AgreeAt(Pass1(props, entry, svc).value.builder, Pass1(props[..n], entry, svc).value.builder, key)
    decreases |props|
  {
    if n == |props| {
      assert props[..n] == props;
    } else {
      var last := |props| - 1;
      var front := props[..last];
      assert front[..n] == props[..n];
      Pass1KeepsAfter(front, n, entry, svc, key);
      var x := props[last];
      assert Pass1(props, entry, svc) == FirstPassStep(Pass1(front, entry, svc).value, x.0, x.1, entry, svc);
      FirstPassStepOther(Pass1(front, entry, svc).value, x.0, x.1, entry, svc, key);
    }
  }

  /**
   * With distinct names, what pass 1 leaves under a property's name is what
   * that property stores on its own: the values of its items, combined and
   * converted.
   */
  lemma Pass1Stores(props: Properties, entry: Entry, svc: Services, m: nat)
    requires DistinctNames(props) && m < |props| && Pass1(props, entry, svc).Ok?
    ensures props[m].1.data.Some? && DataValues(props[m].1.data.value, entry).Ok?
    ensures var key := props[m].0; var prop := props[m].1;
      var g := DataValues(prop.data.value, entry).value;
      Combined(g.values, prop, svc).Ok? &&
      StoreValue(map[], key, Combined(g.values, prop, svc).value, prop, svc).Ok? &&
      AgreeAt(Pass1(props, entry, svc).value.builder,
        StoreValue(map[], key, Combined(g.values, prop, svc).value, prop, svc).value, key)
  {
    var key := props[m].0;
    var upTo := props[..m + 1];
    var front := props[..m];
    Pass1KeepsAfter(props, m + 1, entry, svc, key);
    assert upTo[..m] == front;
    var acc := Pass1(front, entry, svc).value;
    assert Pass1(upTo, entry, svc) == FirstPassStep(acc, key, props[m].1, entry, svc);
    Pass1Bounds(front, entry, svc);
    forall n | 0 <= n < |front| ensures front[n].0 != key {
      assert props[n] == front[n];
    }
    FirstPassStepOwn(acc, key, props[m].1, entry, svc);
  }

  /** Pass 1 defers only properties whose gathering met a reference. */
  lemma {:induction false} Pass1DefersReferences(props: Properties, entry: Entry, svc: Services)
    requires Pass1(props, entry, svc).Ok?
    ensures forall i :: 0 <= i < |Pass1(props, entry, svc).value.deferred| ==>
      var d := Pass1(props, entry, svc).value.deferred[i];
      d.1.data.Some? && DataValues(d.1.data.value, entry).Ok? && DataValues(d.1.data.value, entry).value.deferred
  {
    if props != [] {
      var last := |props| - 1;
      var front := props[..last];
      var acc := Pass1(front, entry, svc).value;
      var x := props[last];
      assert Pass1(props, entry, svc) == FirstPassStep(acc, x.0, x.1, entry, svc);
      Pass1DefersReferences(front, entry, svc);
      FirstPassStepDeferral(acc, x.0, x.1, entry, svc);
    }
  }

  /** Pass 2 leaves alone every name that no deferred property has. */
  lemma {:induction false} Pass2Keeps(deferred: Properties, builder: map<string, Value>, svc: Services, key: string)
    requires Pass2(deferred, builder, svc).Ok? && key !in Names(deferred)
    ensures AgreeAt(Pass2(deferred, builder, svc).value, builder, key)
  {
    if deferred != [] {
      var front := deferred[..|deferred| - 1];
      forall n | 0 <= n < |front| ensures front[n].0 != key {
        assert deferred[n] == front[n];
      }
      Pass2Keeps(front, builder, svc, key);
      assert deferred[|deferred| - 1].0 in Names(deferred);
    }
  }

  /** Pass 2 after the first n deferred properties leaves alone a name none of the rest has. */
  lemma {:induction false} Pass2KeepsAfter(deferred: Properties, n: nat, builder: map<string, Value>, svc: Services, key: string)
    requires n <= |deferred| && Pass2(deferred, builder, svc).Ok?
    requires forall i :: n <= i < |deferred| ==> deferred[i].0 != key
    ensures Pass2(deferred[..n], builder, svc).Ok?
    ensures AgreeAt(Pass2(deferred, builder, svc).value, Pass2(deferred[..n], builder, svc).value, key)
    decreases |deferred|
  {
    if n == |deferred| {
      assert deferred[..n] == deferred;
    } else {
      var front := deferred[..|deferred| - 1];
      assert front[..n] == deferred[..n];
      Pass2KeepsAfter(front, n, builder, svc, key);
    }
  }

  /** The deferred properties of pass 1 keep the distinct names of the mapper. */
  lemma {:induction false} Pass1DeferredDistinct(props: Properties, entry: Entry, svc: Services)
    requires DistinctNames(props) && Pass1(props, entry, svc).Ok?
    ensures DistinctNames(Pass1(props, entry, svc).value.deferred)
  {
    if props != [] {
      var last := |props| - 1;
      var front := props[..last];
      var acc := Pass1(front, entry, svc).value;
      Pass1DeferredDistinct(front, entry, svc);
      Pass1Bounds(front, entry, svc);
      forall i | 0 <= i < |acc.deferred| ensures acc.deferred[i].0 != props[last].0 {
        var n :| 0 <= n < |front| && front[n] == acc.deferred[i];
        assert props[n] == front[n];
      }
    }
  }

  /**
   * A property none of whose items is a reference ends with the value pass 1
   * gave it (its items' values combined and converted): pass 2 leaves it alone.
   */
  lemma ProcessPlainProperty(props: Properties, entry: Entry, svc: Services, m: nat)
    requires DistinctNames(props) && m < |props| && Process(props, entry, svc).Ok?
    requires props[m].1.data.Some? && !HasReference(props[m].1)
    ensures DataValues(props[m].1.data.value, entry).Ok?
    ensures var key := props[m].0; var prop := props[m].1;
      var g := DataValues(prop.data.value, entry).value;
      Combined(g.values, prop, svc).Ok? &&
      StoreValue(map[], key, Combined(g.values, prop, svc).value, prop, svc).Ok? &&
      AgreeAt(Process(props, entry, svc).value,
        StoreValue(map[], key, Combined(g.values, prop, svc).value, prop, svc).value, key)
  {
    var p := Pass1(props, entry, svc).value;
    var key := props[m].0;
    Pass1Stores(props, entry, svc, m);
    DataValuesDeferred(props[m].1.data.value, entry);
    if p.deferred != [] {
      Pass1Bounds(props, entry, svc);
      Pass1DefersReferences(props, entry, svc);
      forall i | 0 <= i < |p.deferred| ensures p.deferred[i].0 != key {
        var n :| 0 <= n < |props| && props[n] == p.deferred[i];
        assert n != m;
      }
      Pass2Keeps(p.deferred, p.builder, svc, key);
    }
  }

  /**
   * A deferred property ends with what Resolve gives it against the values
   * of pass 1 as the deferred properties before it left them; the first
   * deferred property resolves against the values of pass 1 themselves.
   */
  lemma ProcessDeferredProperty(props: Properties, entry: Entry, svc: Services, j: nat)
    requires DistinctNames(props) && Process(props, entry, svc).Ok?
    requires Pass1(props, entry, svc).Ok? && j < |Pass1(props, entry, svc).value.deferred|
    ensures var p := Pass1(props, entry, svc).value; var d := p.deferred[j];
      Pass2(p.deferred[..j], p.builder, svc).Ok? &&
      Resolve(Pass2(p.deferred[..j], p.builder, svc).value, d.0, d.1, svc).Ok? &&
      AgreeAt(Process(props, entry, svc).value,
        Resolve(Pass2(p.deferred[..j], p.builder, svc).value, d.0, d.1, svc).value, d.0)
    ensures var p := Pass1(props, entry, svc).value; var d := p.deferred[j];
      j == 0 ==> (Resolve(p.builder, d.0, d.1, svc).Ok? &&
        AgreeAt(Process(props, entry, svc).value, Resolve(p.builder, d.0, d.1, svc).value, d.0))
  {
    var p := Pass1(props, entry, svc).value;
    assert Process(props, entry, svc) == Pass2(p.deferred, p.builder, svc);
    Pass1DeferredDistinct(props, entry, svc);
    Pass2Resolves(p.deferred, p.builder, svc, j);
    assert p.deferred[..0] == [];
  }

  /**
   * With distinct names, pass 2 leaves under a deferred property's name what
   * Resolve gives it after the deferred properties before it.
   */
  lemma Pass2Resolves(deferred: Properties, builder: map<string, Value>, svc: Services, j: nat)
    requires DistinctNames(deferred) && Pass2(deferred, builder, svc).Ok? && j < |deferred|
    ensures Pass2(deferred[..j], builder, svc).Ok?
    ensures Resolve(Pass2(deferred[..j], builder, svc).value, deferred[j].0, deferred[j].1, svc).Ok?
    ensures AgreeAt(Pass2(deferred, builder, svc).value,
      Resolve(Pass2(deferred[..j], builder, svc).value, deferred[j].0, deferred[j].1, svc).value, deferred[j].0)
  {
    var key := deferred[j].0;
    Pass2KeepsAfter(deferred, j + 1, builder, svc, key);
    assert deferred[..j + 1][..j] == deferred[..j];
    Pass2Snoc(deferred, j, builder, svc, Pass2(deferred[..j], builder, svc).value);
  }

  // ---------------------------------------------------------------- methods

  /** The loop of postProcessProperties collecting several references. */
  method CollectMemberValues(builder: map<string, Value>, data: seq<string>) returns (r: Result<seq<Value>>)
    ensures r == MemberValues(builder, data)
  {
    var vs: seq<Value> := [];
    var i := 0;
    while i < |data|
      invariant 0 <= i <= |data|
      invariant MemberValues(builder, data[..i]) == Ok(vs)
    {
      var v := MemberValue(builder, data[i]);
      MemberValuesSnoc(builder, data, i, vs, v);
      if v.Err? {
        MemberValuesPrefixErr(builder, data, i + 1);
        return Err(v.error);
      }
      vs := vs + [v.value];
      i := i + 1;
    }
    assert data[..i] == data;
    return Ok(vs);
  }

  lemma MemberValuesSnoc(builder: map<string, Value>, data: seq<string>, i: nat, vs: seq<Value>, v: Result<Value>)
    requires i < |data| && MemberValues(builder, data[..i]) == Ok(vs) && v == MemberValue(builder, data[i])
    ensures MemberValues(builder, data[..i + 1]) == if v.Err? then Err(v.error) else Ok(vs + [v.value])
  {
    assert data[..i + 1][..i] == data[..i];
  }

  lemma {:induction false} MemberValuesPrefixErr(builder: map<string, Value>, data: seq<string>, n: nat)
    requires n <= |data| && MemberValues(builder, data[..n]).Err?
    ensures MemberValues(builder, data) == MemberValues(builder, data[..n])
    decreases |data| - n
  {
    if n < |data| {
      assert data[..n + 1][..n] == data[..n];
      MemberValuesPrefixErr(builder, data, n + 1);
    } else {
      assert data[..n] == data;
    }
  }

  lemma {:induction false} Pass1PrefixErr(props: Properties, n: nat, entry: Entry, svc: Services)
    requires n <= |props| && Pass1(props[..n], entry, svc).Err?
    ensures Pass1(props, entry, svc) == Pass1(props[..n], entry, svc)
    decreases |props| - n
  {
    if n < |props| {
      assert props[..n + 1][..n] == props[..n];
      Pass1PrefixErr(props, n + 1, entry, svc);
    } else {
      assert props[..n] == props;
    }
  }

  lemma {:induction false} Pass2PrefixErr(deferred: Properties, n: nat, builder: map<string, Value>, svc: Services)
    requires n <= |deferred| && Pass2(deferred[..n], builder, svc).Err?
    ensures Pass2(deferred, builder, svc) == Pass2(deferred[..n], builder, svc)
    decreases |deferred| - n
  {
    if n < |deferred| {
      assert deferred[..n + 1][..n] == deferred[..n];
      Pass2PrefixErr(deferred, n + 1, builder, svc);
    } else {
      assert deferred[..n] == deferred;
    }
  }

  /** postProcessProperties: the deferred properties in order, against the values built so far. */
  method PostProcessProperties(deferred: Properties, builder: map<string, Value>, svc: Services)
    returns (r: Result<map<string, Value>>)
    ensures r == Pass2(deferred, builder, svc)
  {
    var b := builder;
    var i := 0;
    while i < |deferred|
      invariant 0 <= i <= |deferred|
      invariant Pass2(deferred[..i], builder, svc) == Ok(b)
    {
      var next := ResolveDeferred(b, deferred[i].0, deferred[i].1, svc);
      Pass2Snoc(deferred, i, builder, svc, b);
      if next.Err? {
        Pass2PrefixErr(deferred, i + 1, builder, svc);
        return next;
      }
      b := next.value;
      i := i + 1;
    }
    assert deferred[..i] == deferred;
    return Ok(b);
  }

  lemma Pass2Snoc(deferred: Properties, i: nat, builder: map<string, Value>, svc: Services, b: map<string, Value>)
    requires i < |deferred| && Pass2(deferred[..i], builder, svc) == Ok(b)
    ensures Pass2(deferred[..i + 1], builder, svc) == Resolve(b, deferred[i].0, deferred[i].1, svc)
  {
    assert deferred[..i + 1][..i] == deferred[..i];
  }

  /** The body of postProcessProperties' loop for one deferred property. */
  method ResolveDeferred(b: map<string, Value>, key: string, prop: ExpressionProperty, svc: Services)
    returns (next: Result<map<string, Value>>)
    ensures next == Resolve(b, key, prop, svc)
  {
    if prop.data.None? {
      next := Err(NullPointer);
    } else if |prop.data.value| == 0 {
      next := Err(Runtime);
    } else if |prop.data.value| == 1 {
      var v := Reference(b, prop.data.value[0]);
      if v.Err? {
        next := Err(v.error);
      } else if v.value != Null && prop.target.Some? {
        next := StoreValue(b, key, v.value, prop, svc);
      } else {
        next := Ok(b);
      }
    } else {
      var vs := CollectMemberValues(b, prop.data.value);
      if vs.Err? {
        next := Err(vs.error);
      } else {
        var v := Combined(vs.value, prop, svc);
        next := if v.Err? then Err(v.error) else StoreValue(b, key, v.value, prop, svc);
      }
    }
  }

  /** The body of processProperties' loop for one property. */
  method FirstPassOf(acc: FirstPass, key: string, prop: ExpressionProperty, entry: Entry, svc: Services)
    returns (next: Result<FirstPass>)
    ensures next == FirstPassStep(acc, key, prop, entry, svc)
  {
    if prop.data.None? {
      return Err(NullPointer);
    }
    var g := CollectDataValues(prop.data.value, entry);
    if g.Err? {
      return Err(g.error);
    }
    var v := Combined(g.value.values, prop, svc);
    if v.Err? {
      return Err(v.error);
    }
    var b := StoreValue(acc.builder, key, v.value, prop, svc);
    if b.Err? {
      return Err(b.error);
    }
    return Ok(FirstPass(b.value, if g.value.deferred then acc.deferred + [(key, prop)] else acc.deferred));
  }

  /** processProperties: pass 1 over the mapper's properties, then pass 2 over those it deferred. */
  method ProcessProperties(props: Properties, entry: Entry, svc: Services) returns (r: Result<map<string, Value>>)
    ensures r == Process(props, entry, svc)
  {
    var acc := FirstPass(map[], []);
    var i := 0;
    while i < |props|
      invariant 0 <= i <= |props|
      invariant Pass1(props[..i], entry, svc) == Ok(acc)
    {
      assert props[..i + 1][..i] == props[..i];
      var next := FirstPassOf(acc, props[i].0, props[i].1, entry, svc);
      if next.Err? {
        Pass1PrefixErr(props, i + 1, entry, svc);
        return Err(next.error);
      }
      acc := next.value;
      i := i + 1;
    }
    assert props[..i] == props;
    if acc.deferred == [] {
      return Ok(acc.builder);
    }
    r := PostProcessProperties(acc.deferred, acc.builder, svc);
  }

  /** The properties as the data holder keeps them (a map: a later name replaces an earlier one). */
  function PropertyMap(props: Properties): (r: map<string, ExpressionProperty>)
    ensures r.Keys == Names(props)
  {
    if props == [] then map[]
    else
      var front := props[..|props| - 1];
      assert Names(props) == Names(front) + {props[|props| - 1].0} by {
        forall x | x in Names(props) ensures x in Names(front) + {props[|props| - 1].0} {
          var m :| 0 <= m < |props| && props[m].0 == x;
          if m < |front| {
            assert front[m] == props[m];
          }
        }
        forall x | x in Names(front) ensures x in Names(props) {
          var m :| 0 <= m < |front| && front[m].0 == x;
          assert props[m] == front[m];
        }
      }
      PropertyMap(front)[props[|props| - 1].0 := props[|props| - 1].1]
  }

  class PeltasHandler {
    const services: Services

    constructor (services: Services)
      ensures this.services == services
    {
      this.services := services;
    }

    /**
     * handle: the record's property values for the handler in the message
     * header, packed with the record, the property definitions and the
     * handler; a missing handler fails before the conversion starts, and
     * any failure during it is a PeltasConversionException.
     */
    method Handle(entry: Entry, config: HandlerProperties?) returns (r: Result<DataHolder>)
      ensures config == null ==> r == Err(NullPointer)
      ensures config != null ==> (r.Err? <==> Process(config.mapper, entry, services).Err?)
      ensures config != null && r.Err? ==> r.error == ConversionFailure
      ensures r.Ok? ==> (fresh(r.value) && r.value.auditEntry == entry && r.value.config == config &&
        r.value.properties == PropertyMap(config.mapper) &&
        r.value.builder == Process(config.mapper, entry, services).value &&
        r.value.AdditionalData() == map[])
    {
      if config == null {
        return Err(NullPointer);
      }
      var props := config.mapper;
      var mapped := ProcessProperties(props, entry, services);
      if mapped.Err? {
        return Err(ConversionFailure);
      }
      var holder := new DataHolder(entry, PropertyMap(props), mapped.value, config);
      return Ok(holder);
    }
  }
}
