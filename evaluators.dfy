/**
 * Named evaluators a classification rule can dispatch to, and the registry
 * that finds them by name with a default fallback
 * (EvaluatorExpressionRegistry, ContainsExpressionEvaluator).
 */
module Evaluators {
  import opened Wrappers
  import opened Text
  import opened Values
  import PropertyLookup
  import StringToMapUtil

  /**
   * An evaluator: the list-contains evaluator, or one whose decision is not
   * part of this model (it is decided by the `external` parameter of IsValueMapped).
   */
  datatype Evaluator = ContainsEvaluator | External(expression: string)

  const CONTAINS: string := "contains"

  /** The name an evaluator is registered under (getExpression). */
  function Expression(e: Evaluator): string
  {
    match e
    case ContainsEvaluator => CONTAINS
    case External(x) => x
  }

  /**
   * isValueMapped: the contains evaluator holds when the multi-value reading
   * of the key lists the right-hand String; an external evaluator decides by itself.
   */
  function IsValueMapped(e: Evaluator, key: string, value: string, entry: Entry,
                         external: (string, string, string, Entry) -> bool): (r: Result<bool>)
    ensures e.ContainsEvaluator? ==>
      (r == Ok(true) <==> exists l :: PropertyLookup.MultiValue(key, entry) == Ok(l) && Str(value) in l)
    ensures e.External? ==> r == Ok(external(e.expression, key, value, entry))
  {
    match e
    case ContainsEvaluator =>
      (match PropertyLookup.MultiValue(key, entry)
       case Ok(l) => Ok(Str(value) in l)
       case Err(x) => Err(x))
    case External(x) => Ok(external(x, key, value, entry))
  }

  /** A key whose field is absent never contains anything. */
  lemma ContainsAbsentKey(key: string, value: string, entry: Entry,
                          external: (string, string, string, Entry) -> bool)
    requires '@' !in key
    requires key !in entry.values
    ensures IsValueMapped(ContainsEvaluator, key, value, entry, external) == Ok(false)
  {
    IndexOfCharAbsent(key, '@');
    IndexOfCharSpec(key, '@');
  }

  lemma StrsMember(xs: seq<string>, v: string)
    ensures Str(v) in StringToMapUtil.Strs(xs) <==> v in xs
  {
    if Str(v) in StringToMapUtil.Strs(xs) {
      var i :| 0 <= i < |xs| && StringToMapUtil.Strs(xs)[i] == Str(v);
      assert xs[i] == v;
    }
    if v in xs {
      var i :| 0 <= i < |xs| && xs[i] == v;
      assert StringToMapUtil.Strs(xs)[i] == Str(v);
    }
  }

  /**
   * A field holding a comma list "[a, b, ...]" (as Map.toString writes it)
   * contains exactly the listed Strings.
   */
  lemma ContainsListedText(key: string, xs: seq<string>, value: string, entry: Entry,
                           external: (string, string, string, Entry) -> bool)
    requires '@' !in key
    requires forall j :: 0 <= j < |xs| ==> xs[j] != [] && IsTrimmed(xs[j]) && ',' !in xs[j]
    requires Get(entry.values, key) == Str(StringToMapUtil.ListText(xs, ','))
    ensures IsValueMapped(ContainsEvaluator, key, value, entry, external) == Ok(value in xs)
  {
    IndexOfCharAbsent(key, '@');
    IndexOfCharSpec(key, '@');
    StringToMapUtil.ListOfListText(xs, ',');
    StrsMember(xs, value);
  }

  /**
   * getEvaluatorExpression on the registry's contents: no name gives the
   * default, a registered name its evaluator, any other name the default.
   */
  function Resolve(registered: map<string, Evaluator>, default: Evaluator, expression: Option<string>): (r: Evaluator)
    ensures r == default || r in registered.Values
  {
    match expression
    case None => default
    case Some(x) => if x in registered then registered[x] else default
  }

  /** The lookup does not trim: a padded name misses the trimmed registry keys. */
  lemma PaddedNameResolvesToDefault(registered: map<string, Evaluator>, default: Evaluator, x: string)
    requires forall k :: k in registered ==> IsTrimmed(k)
    requires !IsTrimmed(x)
    ensures Resolve(registered, default, Some(x)) == default
  {
  }

  /** EvaluatorExpressionRegistry: evaluators keyed by their trimmed names. */
  class EvaluatorRegistry {
    var evaluators: map<string, Evaluator>
    const defaultEvaluator: Evaluator

    /** Every key is a trimmed name and the default stays reachable by its own name. */
    ghost predicate Valid()
      reads this
    {
      (forall k :: k in evaluators ==> IsTrimmed(k)) &&
      Trim(Expression(defaultEvaluator)) in evaluators
    }

    /** The default evaluator is registered under its own trimmed name. */
    constructor (default: Evaluator)
      ensures Valid()
      ensures defaultEvaluator == default
      ensures evaluators == map[Trim(Expression(default)) := default]
    {
      defaultEvaluator := default;
      evaluators := map[];
      new;
      RegisterEvaluator(default);
    }

    /** registerEvaluator: keyed by the trimmed name, replacing an earlier one. */
    method RegisterEvaluator(e: Evaluator)
      modifies this
      ensures evaluators == old(evaluators)[Trim(Expression(e)) := e]
      ensures old(forall k :: k in evaluators ==> IsTrimmed(k)) ==> forall k :: k in evaluators ==> IsTrimmed(k)
      ensures old(Valid()) ==> Valid()
    {
      TrimIsTrimmed(Expression(e));
      evaluators := evaluators[Trim(Expression(e)) := e];
    }

    /** getEvaluatorExpression: never null, the default where nothing is registered. */
    function GetEvaluatorExpression(expression: Option<string>): (r: Evaluator)
      reads this
      ensures r == Resolve(evaluators, defaultEvaluator, expression)
    {
      match expression
      case None => defaultEvaluator
      case Some(x) => if x in evaluators then evaluators[x] else defaultEvaluator
    }
  }

  /** After registering e, its trimmed name finds exactly e. */
  lemma RegisteredIsFound(registered: map<string, Evaluator>, default: Evaluator, e: Evaluator)
    ensures Resolve(registered[Trim(Expression(e)) := e], default, Some(Trim(Expression(e)))) == e
  {
  }

  /** Registering under another name leaves every other lookup as it was. */
  lemma RegisterKeepsOthers(registered: map<string, Evaluator>, default: Evaluator, e: Evaluator, x: string)
    requires x != Trim(Expression(e))
    ensures Resolve(registered[Trim(Expression(e)) := e], default, Some(x)) == Resolve(registered, default, Some(x))
  {
  }
}
