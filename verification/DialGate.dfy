/** The shard test a discovered peer has to pass before it is dialed. */
module DialGate {
  import opened ByteStrings
  import opened InsertionOrder
  import opened ShardCodec
  import opened ShardRoundTrip
  import opened ShardTopics
  import opened Wrappers

  /** topics.some(topic => nodeTopics.includes(topic)) */
  predicate AnyIncluded(topics: seq<string>, nodeTopics: seq<string>) {
    exists i | 0 <= i < |topics| :: topics[i] in nodeTopics
  }

  /** ConnectionManager.isPeerTopicConfigured on the `shardInfo` metadata of the peer; undecodable bytes throw. */
  function IsPeerTopicConfigured(metadata: Option<Bytes>, nodeTopics: seq<string>): Result<bool, string> {
    match metadata
    case None => Ok(true)
    case Some(bytes) =>
      match Decode(bytes)
      case Err(e) => Err(e)
      case Ok(info) => Ok(AnyIncluded(ShardInfoToPubsubTopics(Some(info.clusterId), info.shards), nodeTopics))
  }

  ghost predicate Meet(a: seq<int>, b: seq<int>) {
    exists s: int :: s in a && s in b
  }

  lemma TopicListed(topic: string, clusterId: int, shards: seq<int>)
    ensures topic in ShardInfoToPubsubTopics(Some(clusterId), shards)
       <==> exists i | 0 <= i < |shards| :: topic == Topic(clusterId, shards[i])
  {
    hide Topic;
    var topics := Topics(clusterId, shards);
    DistinctMembers(topics, topic);
    if i :| 0 <= i < |shards| && topic == Topic(clusterId, shards[i]) {
      assert topics[i] == topic;
    }
  }

  /** Two static configurations share a topic exactly when they share the cluster and a shard. */
  lemma TopicsMeet(c1: int, s1: seq<int>, c2: int, s2: seq<int>)
    ensures AnyIncluded(ShardInfoToPubsubTopics(Some(c1), s1), ShardInfoToPubsubTopics(Some(c2), s2))
       <==> c1 == c2 && Meet(s1, s2)
  {
    hide Topic, ShardInfoToPubsubTopics;
    var t1, t2 := ShardInfoToPubsubTopics(Some(c1), s1), ShardInfoToPubsubTopics(Some(c2), s2);
    if k :| 0 <= k < |t1| && t1[k] in t2 {
      TopicListed(t1[k], c1, s1);
      TopicListed(t1[k], c2, s2);
      var i :| 0 <= i < |s1| && t1[k] == Topic(c1, s1[i]);
      var j :| 0 <= j < |s2| && t1[k] == Topic(c2, s2[j]);
      TopicInjective(c1, s1[i], c2, s2[j]);
      assert s1[i] in s1 && s2[j] in s2;
    }
    if c1 == c2 && Meet(s1, s2) {
      var s :| s in s1 && s in s2;
      var topic := Topic(c1, s);
      TopicListed(topic, c1, s1);
      TopicListed(topic, c2, s2);
      assert topic in t1 && topic in t2;
    }
  }

  lemma SameMembersMeet(a: seq<nat>, b: seq<nat>, c: seq<int>)
    requires forall s: nat :: s in a <==> s in b
    ensures Meet(a, c) <==> Meet(b, c)
  {}

  /**
   * The gate on stored bytes: for a peer that published `info` and a node configured statically, the test passes
   * exactly when the clusters agree and a shard is common, in both byte formats. Numbers too large for 16 bits are
   * compared as they were stored.
   */
  lemma GateExact(info: ShardInfo, nodeCluster: int, nodeShards: seq<int>)
    requires Encode(info).Ok?
    ensures var stored := if |info.shards| < RSV_THRESHOLD then Wrapped(info.shards) else info.shards;
            IsPeerTopicConfigured(Some(Encode(info).value), ShardInfoToPubsubTopics(Some(nodeCluster), nodeShards))
            == Ok(nodeCluster == info.clusterId % U16_LIMIT && Meet(stored, nodeShards))
  {
    hide Encode, Decode, ShardInfoToPubsubTopics, AnyIncluded;
    var bytes := Encode(info).value;
    if |info.shards| < RSV_THRESHOLD {
      IndexListDecodes(info);
    } else {
      BitVectorDecodes(info);
      var decoded := Decode(bytes).value.shards;
      assert Meet(decoded, nodeShards) <==> Meet(info.shards, nodeShards) by {
        SameMembersMeet(decoded, info.shards, nodeShards);
      }
    }
    var decoded := Decode(bytes).value;
    TopicsMeet(decoded.clusterId, decoded.shards, nodeCluster, nodeShards);
  }
}
