/** The create request of cmd/main.go: one topic specification per resolved
    topic name, sharing the `-create.partition-count` and
    `-create.replication-factor` settings. */
module CreateSpecs {

  /** The fields of `kafka.TopicSpecification` the program sets; a field it
      leaves unset keeps Go's zero value. */
  datatype TopicSpec = TopicSpec(topic: string, numPartitions: int, replicationFactor: int)

  /** The create loop. The list has one specification per topic, in the
      order of the topics; the partition count is forwarded as given, the
      broker-default sentinel -1 included; the replication factor is set
      only when it is positive and otherwise stays at 0, so a negative value
      is never forwarded. */
  method BuildCreateSpecs(inputTopics: seq<string>, numParts: int, replicationFactor: int)
    returns (createTopics: seq<TopicSpec>)
    ensures |createTopics| == |inputTopics|
    ensures forall i :: 0 <= i < |createTopics| ==>
              && createTopics[i].topic == inputTopics[i]
              && createTopics[i].numPartitions == numParts
    ensures forall i :: 0 <= i < |createTopics| ==>
              createTopics[i].replicationFactor == if replicationFactor > 0 then replicationFactor else 0
    ensures forall i :: 0 <= i < |createTopics| ==> createTopics[i].replicationFactor >= 0
  {
    createTopics := [];
    for k := 0 to |inputTopics|
      invariant |createTopics| == k
      invariant forall i :: 0 <= i < k ==>
                  && createTopics[i].topic == inputTopics[i]
                  && createTopics[i].numPartitions == numParts
                  && createTopics[i].replicationFactor == if replicationFactor > 0 then replicationFactor else 0
    {
      var kafkaSpec := TopicSpec(inputTopics[k], numParts, 0);
      if replicationFactor > 0 {
        kafkaSpec := kafkaSpec.(replicationFactor := replicationFactor);
      }
      createTopics := createTopics + [kafkaSpec];
    }
  }
}
