/**
 * The configuration objects of one handler (PeltasHandlerProperties, Pipeline,
 * PeltasExpressionProperty) and the per-record data holder (PeltasDataHolder).
 */
module HandlerModel {
  import opened Wrappers
  import opened Values

  /** The class a property's value is converted to (PeltasExpressionProperty.type). */
  datatype TargetType = StringType | DateType | MapType | CollectionType | OtherType(name: string)

  /**
   * PeltasExpressionProperty: an optional format, the map keys that feed the
   * format, the data items and the target type; null fields are None.
   */
  datatype ExpressionProperty = ExpressionProperty(
    format: Option<string>,
    formatKeys: Option<seq<string>>,
    data: Option<seq<string>>,
    target: Option<TargetType>)

  /** A freshly created property: no format, format keys [","], no data, type String. */
  const DEFAULT_PROPERTY: ExpressionProperty := ExpressionProperty(None, Some([","]), None, Some(StringType))

  /** The executions run for each element of one collection. */
  datatype PipelineCollection = PipelineCollection(executions: seq<string>)

  /** Pipeline: the execution keys, the writer and the collections (in map order). */
  datatype Pipeline = Pipeline(
    executions: Option<seq<string>>,
    writer: Option<string>,
    collections: Option<seq<(string, PipelineCollection)>>)

  /**
   * PeltasHandlerProperties: the rule's evaluator, the property mapper (in map
   * order), the pipeline and the handler name. The older copy of the class has
   * the same four fields with plain accessors.
   */
  class HandlerProperties {
    var evaluator: Option<string>
    var mapper: seq<(string, ExpressionProperty)>
    var pipeline: Option<Pipeline>
    var handlerName: Option<string>

    constructor (evaluator: Option<string>, mapper: seq<(string, ExpressionProperty)>, pipeline: Option<Pipeline>)
      ensures this.evaluator == evaluator && this.mapper == mapper && this.pipeline == pipeline
      ensures handlerName == None
    {
      this.evaluator := evaluator;
      this.mapper := mapper;
      this.pipeline := pipeline;
      this.handlerName := None;
    }

    /**
     * getPipeline: a configured pipeline as is; without one, a pipeline that
     * runs just the handler's own name, if it has one; otherwise nothing.
     */
    function GetPipeline(): (r: Option<Pipeline>)
      reads this
      ensures pipeline.Some? ==> r == pipeline
      ensures pipeline.None? ==> (r.Some? <==> handlerName.Some?)
      ensures pipeline.None? && handlerName.Some? ==>
        r.value.executions == Some([handlerName.value]) && r.value.writer.None? && r.value.collections.None?
    {
      if pipeline.None? && handlerName.Some? then Some(Pipeline(Some([handlerName.value]), None, None))
      else pipeline
    }

    method SetHandlerName(name: Option<string>)
      modifies this
      ensures handlerName == name
      ensures evaluator == old(evaluator) && mapper == old(mapper) && pipeline == old(pipeline)
    {
      handlerName := name;
    }

    /** BeanUtils.copyProperties(source, this) on the older class: every field is copied. */
    method CopyFrom(source: HandlerProperties)
      modifies this
      ensures evaluator == old(source.evaluator) && mapper == old(source.mapper)
      ensures pipeline == old(source.pipeline) && handlerName == old(source.handlerName)
    {
      evaluator, mapper, pipeline, handlerName := source.evaluator, source.mapper, source.pipeline, source.handlerName;
    }
  }

  /** PipelineExecution: the configuration read from the execution's resource file, if there is one. */
  class PipelineExecution {
    const config: Option<map<string, string>>

    constructor (config: Option<map<string, string>>)
      ensures this.config == config
    {
      this.config := config;
    }
  }

  /** Reading the default pipeline never stores it: the field stays empty. */
  method PipelineOfNamedHandler(h: HandlerProperties, name: string) returns (p: Option<Pipeline>)
    requires h.pipeline.None?
    modifies h
    ensures h.pipeline.None? && h.handlerName == Some(name)
    ensures p == Some(Pipeline(Some([name]), None, None))
  {
    h.SetHandlerName(Some(name));
    p := h.GetPipeline();
  }

  /**
   * PeltasDataHolder: the record, the property definitions, the built values
   * and the handler, all fixed; additional data is created on first use.
   */
  class DataHolder {
    const auditEntry: Entry
    const properties: map<string, ExpressionProperty>
    const builder: map<string, Value>
    const config: HandlerProperties?
    var additionalData: Option<map<string, Value>>

    constructor (auditEntry: Entry, properties: map<string, ExpressionProperty>,
                 builder: map<string, Value>, config: HandlerProperties?)
      ensures this.auditEntry == auditEntry && this.properties == properties
      ensures this.builder == builder && this.config == config
      ensures additionalData.None?
      ensures AdditionalData() == map[]
    {
      this.auditEntry := auditEntry;
      this.properties := properties;
      this.builder := builder;
      this.config := config;
      additionalData := None;
    }

    /** getAdditionalData: the stored entries, or an empty map before any was added. */
    function AdditionalData(): (r: map<string, Value>)
      reads this
      ensures additionalData.None? ==> r == map[]
      ensures additionalData.Some? ==> r == additionalData.value
    {
      if additionalData.Some? then additionalData.value else map[]
    }

    /** addAdditionalData: creates the map on first use; a key added again is overwritten. */
    method AddAdditionalData(key: string, value: Value)
      modifies this
      ensures additionalData.Some?
      ensures AdditionalData() == old(AdditionalData())[key := value]
    {
      additionalData := Some(AdditionalData()[key := value]);
    }
  }
}
