/** How cmd/main.go ends a run: the configuration errors it reports through
    a fatal log call before any client exists, and the process exit statuses. */
module Failures {

  /** The errors raised while the command line, the topics file and the
      topic list are checked. */
  datatype ConfigError =
    | UnknownMode            // -mode is none of the three literals
    | TopicsFileUnreadable   // -topics-file names a file that cannot be read
    | TopicsFileMalformed    // the file is not YAML of the expected shape
    | NoTopics               // create or delete with an empty topic list

  /** The status of a normal return from `main`. */
  const SuccessStatus: int := 0

  /** The status of logrus' `Fatal`/`Fatalf`, which log and then call
      `os.Exit(1)`: used for configuration, client-construction and
      client-call failures. */
  const FatalLogStatus: int := 1

  /** The status passed to `os.Exit` when some per-topic result is an error. */
  const TopicFailureStatus: int := -1
}
