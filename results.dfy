/** The last loop of cmd/main.go: each per-topic result of a create or
    delete call is logged at a severity chosen by its error code, and any
    code other than "no error" and "topic already exists" marks the run as
    failed. */
module Results {
  import opened Failures

  /** librdkafka's codes for success and for a topic that already exists. */
  const ErrNoError: int := 0
  const ErrTopicAlreadyExists: int := 36

  /** `kafka.TopicResult`: a topic and the code of its error (0 when none). */
  datatype TopicResult = TopicResult(topic: string, code: int)

  /** The log level a result is reported at. */
  datatype Severity = Info | Warning | Error

  /** The switch on `result.Error.Code()`: info for success, a warning for a
      topic that already exists, an error for every other code. */
  function SeverityOf(code: int): (severity: Severity)
    ensures severity == Info <==> code == ErrNoError
    ensures severity == Warning <==> code == ErrTopicAlreadyExists
    ensures severity == Error <==> IsFailureCode(code)
  {
    if code == ErrNoError then Info
    else if code == ErrTopicAlreadyExists then Warning
    else Error
  }

  /** The code is neither success nor "already exists". */
  predicate IsFailureCode(code: int)
  {
    code != ErrNoError && code != ErrTopicAlreadyExists
  }

  /** The result loop. Every result is visited once, in order, whatever
      came before it: the i-th severity is the i-th result's. `isFatal` ends
      true exactly when some result carries a failure code, so "already
      exists" on its own never makes the run fail. */
  method ClassifyResults(results: seq<TopicResult>) returns (isFatal: bool, severities: seq<Severity>)
    ensures |severities| == |results|
    ensures forall i :: 0 <= i < |results| ==> severities[i] == SeverityOf(results[i].code)
    ensures forall i :: 0 <= i < |results| ==> (severities[i] == Error <==> IsFailureCode(results[i].code))
    ensures isFatal <==> exists i :: 0 <= i < |results| && IsFailureCode(results[i].code)
  {
    isFatal := false;
    severities := [];
    for k := 0 to |results|
      invariant |severities| == k
      invariant forall i :: 0 <= i < k ==> severities[i] == SeverityOf(results[i].code)
      invariant isFatal <==> exists i :: 0 <= i < k && IsFailureCode(results[i].code)
    {
      var severity: Severity;
      var code := results[k].code;
      if code == ErrNoError {
        severity := Info;
      } else if code == ErrTopicAlreadyExists {
        severity := Warning;
      } else {
        isFatal := true;
        severity := Error;
      }
      severities := severities + [severity];
    }
  }

  /** The exit decision: `os.Exit(-1)` when the run is fatal, otherwise a
      normal return from `main`. */
  function ExitStatus(isFatal: bool): (status: int)
    ensures status == TopicFailureStatus <==> isFatal
    ensures status == SuccessStatus <==> !isFatal
  {
    if isFatal then TopicFailureStatus else SuccessStatus
  }
}
