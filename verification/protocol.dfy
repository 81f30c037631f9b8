/** The events the processing worker posts to the page, as an appended
    trace, and the errors that end a run. */
module Protocol {
  import opened Wrappers
  import opened Text
  import opened Messages

  datatype Stage = Embeddings | Clustering

  datatype WorkerError =
    | ModelNotLoaded
    | InvalidMessages
    | LengthMismatch
    | DimensionMismatch
    | BatchFailure(reason: string)

  /** The `message` of the error each failure throws. */
  function ErrorText(e: WorkerError): string {
    match e
    case ModelNotLoaded => "Model not loaded. Call LOAD_MODEL first."
    case InvalidMessages => "Invalid messages array"
    case LengthMismatch => "Embeddings and messages length mismatch"
    case DimensionMismatch => "Vectors must have same length"
    case BatchFailure(reason) => reason
  }

  datatype Stats = Stats(totalMessages: nat, totalClusters: nat, embeddingDimensions: nat)

  datatype Event =
    | Status(text: string)
    | Progress(step: Stage, current: nat, total: nat)
    | Complete(messages: seq<ClusteredMessage>, stats: Stats)
    | Error(message: string)

  /** What a stage of the worker posted, and what it produced or threw. */
  datatype Outcome<T> = Outcome(events: seq<Event>, result: Result<T, WorkerError>)

  predicate IsTerminal(e: Event) {
    e.Complete? || e.Error?
  }

  function EmbeddingProgress(current: nat, total: nat): Event {
    Progress(Embeddings, current, total)
  }

  function ClusteringProgress(current: nat, total: nat): Event {
    Progress(Clustering, current, total)
  }

  /** The `message` field of a progress payload, which is determined by
      its other fields. */
  function ProgressMessage(step: Stage, current: nat, total: nat): string {
    match step
    case Embeddings => "Processing embeddings: " + NatToString(current) + "/" + NatToString(total)
    case Clustering => "K-means iteration " + NatToString(current) + "/" + NatToString(total)
  }
}
