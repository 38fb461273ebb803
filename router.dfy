/**
 * PeltasRouter: sends a record to the audit process when classification
 * finds its handler, and to the no-match handler (or a failure) otherwise.
 */
module Router {
  import opened Wrappers
  import opened Values
  import opened Classification
  import opened HandlerModel
  import opened HandlerConfiguration

  /** The channel a classified record is routed to. */
  const AUDIT_PROCESS: string := "auditprocess"

  class PeltasRouter {
    const pipeline: HandlerConfiguration
    const noMatchHandler: string
    const exceptionOnNoMatch: bool

    constructor (pipeline: HandlerConfiguration, noMatchHandler: string, exceptionOnNoMatch: bool)
      ensures this.pipeline == pipeline && this.noMatchHandler == noMatchHandler
      ensures this.exceptionOnNoMatch == exceptionOnNoMatch
    {
      this.pipeline := pipeline;
      this.noMatchHandler := noMatchHandler;
      this.exceptionOnNoMatch := exceptionOnNoMatch;
    }

    /**
     * handleMessage: classifies the record once. Without a handler it fails
     * when so configured and otherwise names the no-match handler; with one
     * it copies that handler's properties into the message's header object
     * (which must exist) and names the audit process.
     */
    method HandleMessage(entry: Entry, header: HandlerProperties?, external: (string, string, string, Entry) -> bool)
      returns (r: Result<string>)
      requires pipeline.Valid() && pipeline.variant == LegacyCopy
      modifies header
      ensures var best := BestMatch(pipeline.rules, entry, pipeline.EnvOf(external));
        match best
        case Err(e) => r == Err(e)
        case Ok(None) => r == (if exceptionOnNoMatch then Err(PeltasFailure) else Ok(noMatchHandler))
        case Ok(Some(name)) =>
          name in pipeline.handlers &&
          (header == null ==> r == Err(IllegalArgument)) &&
          (header != null ==> (
            var source := pipeline.handlers[name];
            r == Ok(AUDIT_PROCESS) &&
            header.evaluator == old(source.evaluator) && header.mapper == old(source.mapper) &&
            header.pipeline == old(source.pipeline) && header.handlerName == old(source.handlerName)))
      ensures r.Ok? ==> r.value == AUDIT_PROCESS || r.value == noMatchHandler
    {
      var best := pipeline.FindFirstBestMatchHandler(entry, external);
      if best.Err? {
        return Err(best.error);
      }
      if best.value.None? {
        if exceptionOnNoMatch {
          return Err(PeltasFailure);
        }
        return Ok(noMatchHandler);
      }
      var name := best.value.value;
      BestMatchIsFull(pipeline.rules, entry, pipeline.EnvOf(external));
      var configuration := pipeline.GetForHandler(name);
      if header == null {
        return Err(IllegalArgument);
      }
      header.CopyFrom(configuration);
      return Ok(AUDIT_PROCESS);
    }
  }
}
