/** The body of `main` in cmd/main.go: check the mode, resolve the topics,
    build the configuration map, construct the admin client, issue the one
    operation the mode selects and turn its per-topic results into the exit
    status. The admin client is external: a run is given how it behaves,
    and the model records which calls were made to it. */
module Admin {
  import opened Wrappers
  import opened GoStrings
  import opened Failures
  import opened Modes
  import opened Topics
  import opened EnvConfig
  import opened CreateSpecs
  import opened Results

  /** The command-line flags the core reads. */
  datatype Flags = Flags(
    mode: string,               // -mode
    topics: string,             // -topics
    numParts: int,              // -create.partition-count
    replicationFactor: int)     // -create.replication-factor

  /** How the external admin client behaves in a run: whether
      `NewAdminClient` succeeds, whether the single operation call succeeds,
      and the per-topic results a create or delete call returns. */
  datatype AdminClient = AdminClient(constructs: bool, callSucceeds: bool, results: seq<TopicResult>)

  /** A call made to the admin client, in the order made. */
  datatype ClientCall =
    | NewAdminClient(config: map<string, string>)
    | CreateTopics(specs: seq<TopicSpec>)
    | DeleteTopics(topics: seq<string>)
    | GetMetadata

  /** The checks `main` makes before it builds anything: the mode first,
      then the topics file, then the emptiness of the topic list for the
      modes that need one. On success: the mode and the topic list. */
  function CheckArguments(flags: Flags, topicsFile: TopicsFile): (r: Result<(Mode, seq<string>), ConfigError>)
    ensures ParseMode(flags.mode).None? ==> r == Failure(UnknownMode)
    ensures ParseMode(flags.mode).Some? && topicsFile.Unreadable? ==> r == Failure(TopicsFileUnreadable)
    ensures ParseMode(flags.mode).Some? && topicsFile.Malformed? ==> r == Failure(TopicsFileMalformed)
    ensures r.Success? <==>
              && ParseMode(flags.mode).Some?
              && (topicsFile.NoTopicsFile? || topicsFile.Parsed?)
              && !(NeedsTopics(ParseMode(flags.mode).value) && |SelectedTopics(topicsFile, flags.topics)| == 0)
    ensures r.Success? ==> r.value.0 == ParseMode(flags.mode).value
    ensures r.Success? ==> r.value.1 == SelectedTopics(topicsFile, flags.topics)
    ensures r.Success? && NeedsTopics(r.value.0) ==> |r.value.1| >= 1
    ensures r == Failure(NoTopics) <==>
              && ParseMode(flags.mode).Some?
              && NeedsTopics(ParseMode(flags.mode).value)
              && (topicsFile.NoTopicsFile? || topicsFile == Parsed([]))
              && |flags.topics| == 0
  {
    match ParseMode(flags.mode)
    case None => Failure(UnknownMode)
    case Some(mode) =>
      if topicsFile.Unreadable? then Failure(TopicsFileUnreadable)
      else if topicsFile.Malformed? then Failure(TopicsFileMalformed)
      else
        var inputTopics := SelectedTopics(topicsFile, flags.topics);
        if NeedsTopics(mode) && |inputTopics| == 0 then Failure(NoTopics)
        else Success((mode, inputTopics))
  }

  /** A non-empty `-topics` flag always satisfies the topic requirement,
      whatever list the file held. */
  lemma FlagMeetsTopicRequirement(flags: Flags, topicsFile: TopicsFile)
    requires ParseMode(flags.mode).Some?
    requires topicsFile.NoTopicsFile? || topicsFile.Parsed?
    requires |flags.topics| > 0
    ensures CheckArguments(flags, topicsFile).Success?
    ensures CheckArguments(flags, topicsFile).value.1 == Split(flags.topics, TopicSeparator)
  {
  }

  /** Listing topics never fails for want of topics; only an unknown mode
      or a bad topics file stops it. */
  lemma ListTopicsNeedsNoTopics(flags: Flags, topicsFile: TopicsFile)
    requires flags.mode == ModeListTopics
    ensures CheckArguments(flags, topicsFile).Success? <==> !topicsFile.Unreadable? && !topicsFile.Malformed?
  {
  }

  /** The run of `main`. It returns the process exit status, the calls made
      to the admin client, and the severity each per-topic result was
      logged at. */
  method Run(flags: Flags, topicsFile: TopicsFile, environ: seq<string>, client: AdminClient)
    returns (status: int, calls: seq<ClientCall>, severities: seq<Severity>)
    // A configuration error stops the run before the client is touched.
    ensures CheckArguments(flags, topicsFile).Failure? ==>
              status == FatalLogStatus && calls == [] && severities == []
    // Otherwise the client is built from the environment's configuration ...
    ensures CheckArguments(flags, topicsFile).Success? ==>
              |calls| >= 1 && calls[0] == NewAdminClient(ConfigFromEnv(environ))
    ensures CheckArguments(flags, topicsFile).Success? && !client.constructs ==>
              status == FatalLogStatus && |calls| == 1 && severities == []
    // ... and, once constructed, exactly one operation, the one the mode
    // selects, is issued.
    ensures CheckArguments(flags, topicsFile).Success? && client.constructs ==>
              |calls| == 2 &&
              var (mode, inputTopics) := CheckArguments(flags, topicsFile).value;
              match mode
              case Create =>
                && calls[1].CreateTopics?
                && |calls[1].specs| == |inputTopics|
                && forall i :: 0 <= i < |inputTopics| ==>
                     calls[1].specs[i] == TopicSpec(inputTopics[i], flags.numParts,
                                                    if flags.replicationFactor > 0 then flags.replicationFactor else 0)
              case Delete => calls[1] == DeleteTopics(inputTopics)
              case ListTopics => calls[1] == GetMetadata
    // A failed call is fatal as a whole.
    ensures |calls| == 2 && !client.callSucceeds ==> status == FatalLogStatus && severities == []
    // A successful create or delete reports each result once and fails with
    // -1 exactly when some result carries a failure code.
    ensures |calls| == 2 && client.callSucceeds && !calls[1].GetMetadata? ==>
              && |severities| == |client.results|
              && (forall i :: 0 <= i < |severities| ==> severities[i] == SeverityOf(client.results[i].code))
              && (status == TopicFailureStatus <==> exists i :: 0 <= i < |client.results| && IsFailureCode(client.results[i].code))
              && (status == SuccessStatus <==> !exists i :: 0 <= i < |client.results| && IsFailureCode(client.results[i].code))
    // Listing topics yields no per-topic results.
    ensures |calls| == 2 && client.callSucceeds && calls[1].GetMetadata? ==>
              status == SuccessStatus && severities == []
  {
    calls := [];
    severities := [];
    var parsed := ParseMode(flags.mode);
    if parsed.None? {
      return FatalLogStatus, calls, severities;
    }
    var mode := parsed.value;

    var resolved := ResolveTopics(topicsFile, flags.topics);
    if resolved.Failure? {
      return FatalLogStatus, calls, severities;
    }
    var inputTopics := resolved.value;
    if NeedsTopics(mode) && |inputTopics| == 0 {
      return FatalLogStatus, calls, severities;
    }

    var configMap := BuildConfigMap(environ);
    calls := calls + [NewAdminClient(configMap)];
    if !client.constructs {
      return FatalLogStatus, calls, severities;
    }

    var results: seq<TopicResult> := [];
    match mode {
      case Create =>
        var createTopics := BuildCreateSpecs(inputTopics, flags.numParts, flags.replicationFactor);
        calls := calls + [CreateTopics(createTopics)];
        if client.callSucceeds {
          results := client.results;
        }
      case Delete =>
        calls := calls + [DeleteTopics(inputTopics)];
        if client.callSucceeds {
          results := client.results;
        }
      case ListTopics =>
        calls := calls + [GetMetadata];
    }
    if !client.callSucceeds {
      return FatalLogStatus, calls, severities;
    }

    var isFatal;
    isFatal, severities := ClassifyResults(results);
    status := ExitStatus(isFatal);
  }
}
