/** Topic-list resolution in cmd/main.go: the topics named in the YAML file
    given by `-topics-file`, replaced outright by the comma-separated
    `-topics` flag when that flag is not empty. */
module Topics {
  import opened Wrappers
  import opened GoStrings
  import opened Failures

  /** What reading and unmarshalling the `-topics-file` produced. The file
      system and the YAML parser are outside the model; a parsed file
      without a `topics` key yields an empty list. */
  datatype TopicsFile =
    | NoTopicsFile               // -topics-file is empty
    | Unreadable                 // reading the file failed
    | Malformed                  // the YAML did not unmarshal
    | Parsed(topics: seq<string>)

  const TopicSeparator: char := ','

  /** The topic list a readable (or absent) file and the flag select: the
      flag's pieces when the flag is not empty, else the file's list. */
  function SelectedTopics(topicsFile: TopicsFile, topicsFlag: string): seq<string>
  {
    if |topicsFlag| > 0 then Split(topicsFlag, TopicSeparator)
    else if topicsFile.Parsed? then topicsFile.topics
    else []
  }

  /** Resolves the topic list. A file that cannot be read or parsed is an
      error even when the flag would have replaced its list. Otherwise a
      non-empty flag gives exactly its comma-separated pieces, untrimmed and
      with empty pieces kept, so joining them with commas gives the flag
      back; an empty flag leaves the file's list, or no topic at all. */
  method ResolveTopics(topicsFile: TopicsFile, topicsFlag: string)
    returns (r: Result<seq<string>, ConfigError>)
    ensures topicsFile.Unreadable? <==> r == Failure(TopicsFileUnreadable)
    ensures topicsFile.Malformed? <==> r == Failure(TopicsFileMalformed)
    ensures r.Success? <==> topicsFile.NoTopicsFile? || topicsFile.Parsed?
    ensures r.Success? ==> r.value == SelectedTopics(topicsFile, topicsFlag)
    ensures r.Success? && |topicsFlag| > 0 ==>
              && r.value == Split(topicsFlag, TopicSeparator)
              && Join(r.value, TopicSeparator) == topicsFlag
              && |r.value| >= 1
              && forall i :: 0 <= i < |r.value| ==> TopicSeparator !in r.value[i]
    ensures r.Success? && |topicsFlag| == 0 ==>
              r.value == if topicsFile.Parsed? then topicsFile.topics else []
  {
    var inputTopics: seq<string> := [];
    match topicsFile {
      case NoTopicsFile =>
      case Unreadable => return Failure(TopicsFileUnreadable);
      case Malformed => return Failure(TopicsFileMalformed);
      case Parsed(fileTopics) => inputTopics := fileTopics;
    }
    if |topicsFlag| > 0 {
      inputTopics := Split(topicsFlag, TopicSeparator);
      JoinSplit(topicsFlag, TopicSeparator);
      SplitPiecesFree(topicsFlag, TopicSeparator);
    }
    return Success(inputTopics);
  }
}
