/** Static-sharding pubsub topics: `/waku/2/rs/<cluster>/<shard>`, printed, parsed and collected. */
module ShardTopics {
  import opened Decimal
  import opened InsertionOrder
  import opened Wrappers

  const DEFAULT_CLUSTER_ID := 1

  const INVALID_TOPIC := "Invalid pubsub topic"
  const INVALID_NUMBERS := "Invalid clusterId or shard"
  const NO_TOPICS := "No valid pubsub topics provided"
  const MIXED_CLUSTERS := "Pubsub topics from multiple cluster IDs are not supported"

  /** A shard of a cluster, as parsed from a topic. */
  datatype SingleShard = SingleShard(clusterId: int, shard: int)

  datatype Shards = Shards(clusterId: int, shards: seq<int>)

  function Topic(clusterId: int, shard: int): string {
    "/waku/2/rs/" + PrintInt(clusterId) + "/" + PrintInt(shard)
  }

  function Topics(clusterId: int, shards: seq<int>): (topics: seq<string>)
    ensures |topics| == |shards|
  {
    seq(|shards|, i requires 0 <= i < |shards| => Topic(clusterId, shards[i]))
  }

  function OrDefault(clusterId: Option<int>): int {
    if clusterId.Some? then clusterId.value else DEFAULT_CLUSTER_ID
  }

  /** The static-sharding branch of shardInfoToPubsubTopics. */
  function ShardInfoToPubsubTopics(clusterId: Option<int>, shards: seq<int>): seq<string> {
    Distinct(Topics(OrDefault(clusterId), shards))
  }

  /** singleShardInfoToPubsubTopic; a missing shard throws. */
  function SingleShardInfoToPubsubTopic(clusterId: Option<int>, shard: Option<int>): Result<string, string> {
    if shard.None? then Err("Invalid shard") else Ok(Topic(OrDefault(clusterId), shard.value))
  }

  /** String.prototype.split by one character. */
  function Split(s: string, separator: char): (parts: seq<string>)
    ensures |parts| >= 1
  {
    if s == [] then [[]]
    else
      var rest := Split(s[1..], separator);
      if s[0] == separator then [[]] + rest else [[s[0]] + rest[0]] + rest[1..]
  }

  /** pubsubTopicToSingleShardInfo. */
  function PubsubTopicToSingleShardInfo(topic: string): Result<SingleShard, string> {
    var parts := Split(topic, '/');
    if |parts| != 6 || parts[1] != "waku" || parts[2] != "2" || parts[3] != "rs" then Err(INVALID_TOPIC)
    else
      var clusterId, shard := ParseInt(parts[4]), ParseInt(parts[5]);
      if clusterId.None? || shard.None? then Err(INVALID_NUMBERS)
      else Ok(SingleShard(clusterId.value, shard.value))
  }

  // ---- Collecting topics ----

  /** The first `n` topics parsed, or the first parse error among them. */
  function ParsedPrefix(topics: seq<string>, n: nat): Result<seq<SingleShard>, string>
    requires n <= |topics|
  {
    if n == 0 then Ok([])
    else
      match ParsedPrefix(topics, n - 1)
      case Err(e) => Err(e)
      case Ok(singles) =>
        match PubsubTopicToSingleShardInfo(topics[n - 1])
        case Err(e) => Err(e)
        case Ok(s) => Ok(singles + [s])
  }

  predicate SameCluster(singles: seq<SingleShard>) {
    forall i, j | 0 <= i < |singles| && 0 <= j < |singles| :: singles[i].clusterId == singles[j].clusterId
  }

  function ShardsOf(singles: seq<SingleShard>): seq<int> {
    seq(|singles|, i requires 0 <= i < |singles| => singles[i].shard)
  }

  function ClustersOf(singles: seq<SingleShard>): seq<int> {
    seq(|singles|, i requires 0 <= i < |singles| => singles[i].clusterId)
  }

  /** What a list of topics amounts to: one cluster and its shards, each at its first occurrence. */
  function Collected(topics: seq<string>): Result<Shards, string> {
    match ParsedPrefix(topics, |topics|)
    case Err(e) => Err(e)
    case Ok(singles) =>
      if singles == [] then Err(NO_TOPICS)
      else if !SameCluster(singles) then Err(MIXED_CLUSTERS)
      else Ok(Shards(singles[0].clusterId, Distinct(ShardsOf(singles))))
  }

  /** The string a shard is remembered by while topics are collected. */
  function Tagged(clusterId: int, shard: int): string { PrintInt(clusterId) + ":" + PrintInt(shard) }

  function TagsOf(singles: seq<SingleShard>): seq<string> {
    seq(|singles|, i requires 0 <= i < |singles| => Tagged(singles[i].clusterId, singles[i].shard))
  }

  function TagAll(clusterId: int, shards: seq<int>): seq<string> {
    seq(|shards|, i requires 0 <= i < |shards| => Tagged(clusterId, shards[i]))
  }

  function ShardOfTag(tag: string): Option<int> {
    var parts := Split(tag, ':');
    if |parts| < 2 then None else ParseInt(parts[1])
  }

  // ---- Splitting ----

  lemma {:induction false} SplitFirst(a: string, separator: char, b: string)
    requires separator !in a
    ensures Split(a + [separator] + b, separator) == [a] + Split(b, separator)
    decreases |a|
  {
    var s := a + [separator] + b;
    if a == [] {
      assert s[1..] == b;
    } else {
      assert s[0] == a[0] && s[1..] == a[1..] + [separator] + b;
      assert a[0] in a;
      SplitFirst(a[1..], separator, b);
      assert [a[0]] + a[1..] == a;
    }
  }

  lemma {:induction false} SplitNone(a: string, separator: char)
    requires separator !in a
    ensures Split(a, separator) == [a]
    decreases |a|
  {
    if a != [] {
      assert a[0] in a;
      SplitNone(a[1..], separator);
      assert [a[0]] + a[1..] == a;
    }
  }

  lemma PrintedHasNo(n: int, c: char)
    requires c == '/' || c == ':'
    ensures c !in PrintInt(n)
  {}

  lemma TagReadsBack(clusterId: int, shard: int)
    ensures ShardOfTag(Tagged(clusterId, shard)) == Some(shard)
  {
    hide PrintInt, ParseInt;
    PrintedHasNo(clusterId, ':');
    PrintedHasNo(shard, ':');
    SplitFirst(PrintInt(clusterId), ':', PrintInt(shard));
    SplitNone(PrintInt(shard), ':');
    ParsePrinted(shard);
  }

  /** A topic made of an arbitrary first part, the fixed parts, and two more. */
  function TopicOf(first: string, cluster: string, shard: string): string {
    first + "/waku/2/rs/" + cluster + "/" + shard
  }

  lemma SplitTopicOf(first: string, cluster: string, shard: string)
    requires '/' !in first && '/' !in cluster && '/' !in shard
    ensures Split(TopicOf(first, cluster, shard), '/') == [first, "waku", "2", "rs", cluster, shard]
  {
    hide Split;
    SplitNone(shard, '/');
    SplitFirst(cluster, '/', shard);
    var t1 := cluster + ['/'] + shard;
    SplitFirst("rs", '/', t1);
    var t2 := "rs" + ['/'] + t1;
    SplitFirst("2", '/', t2);
    var t3 := "2" + ['/'] + t2;
    SplitFirst("waku", '/', t3);
    var t4 := "waku" + ['/'] + t3;
    SplitFirst(first, '/', t4);
    assert TopicOf(first, cluster, shard) == first + ['/'] + t4;
  }

  lemma SplitTopic(clusterId: int, shard: int)
    ensures Split(Topic(clusterId, shard), '/') == ["", "waku", "2", "rs", PrintInt(clusterId), PrintInt(shard)]
  {
    hide PrintInt, Split;
    PrintedHasNo(clusterId, '/');
    PrintedHasNo(shard, '/');
    SplitTopicOf("", PrintInt(clusterId), PrintInt(shard));
    assert Topic(clusterId, shard) == TopicOf("", PrintInt(clusterId), PrintInt(shard));
  }

  /** Parsing undoes printing, for every cluster and shard number. */
  lemma TopicParses(clusterId: int, shard: int)
    ensures PubsubTopicToSingleShardInfo(Topic(clusterId, shard)) == Ok(SingleShard(clusterId, shard))
  {
    hide PrintInt, ParseInt, Split, Topic;
    SplitTopic(clusterId, shard);
    ParsePrinted(clusterId);
    ParsePrinted(shard);
  }

  /** The parts put together again. */
  function Joined(parts: seq<string>, separator: char): string
    requires parts != []
  {
    if |parts| == 1 then parts[0] else parts[0] + [separator] + Joined(parts[1..], separator)
  }

  lemma {:induction false} SplitJoins(s: string, separator: char)
    ensures Joined(Split(s, separator), separator) == s
    ensures forall part | part in Split(s, separator) :: separator !in part
  {
    if s != [] {
      SplitJoins(s[1..], separator);
      var rest := Split(s[1..], separator);
      if s[0] == separator {
        assert ([[]] + rest)[1..] == rest;
      } else {
        var parts := [[s[0]] + rest[0]] + rest[1..];
        assert parts[1..] == rest[1..] && s == [s[0]] + s[1..];
        assert forall part | part in parts :: part == parts[0] || part in rest;
      }
    }
  }

  lemma JoinedOnce(part: string, rest: seq<string>, separator: char)
    ensures Joined([part], separator) == part
    ensures rest != [] ==> Joined([part] + rest, separator) == part + [separator] + Joined(rest, separator)
  {
    assert ([part] + rest)[1..] == rest;
  }

  lemma SixJoined(a: string, b: string, c: string, d: string, e: string, f: string)
    ensures Joined([a, b, c, d, e, f], '/') == a + "/" + (b + "/" + (c + "/" + (d + "/" + (e + "/" + f))))
  {
    hide Joined;
    JoinedOnce(f, [], '/');
    JoinedOnce(e, [f], '/');
    JoinedOnce(d, [e, f], '/');
    JoinedOnce(c, [d, e, f], '/');
    JoinedOnce(b, [c, d, e, f], '/');
    JoinedOnce(a, [b, c, d, e, f], '/');
    assert [e] + [f] == [e, f] && [d] + [e, f] == [d, e, f] && [c] + [d, e, f] == [c, d, e, f];
    assert [b] + [c, d, e, f] == [b, c, d, e, f] && [a] + [b, c, d, e, f] == [a, b, c, d, e, f];
  }

  lemma TopicGrouped(first: string, cluster: string, shard: string)
    ensures TopicOf(first, cluster, shard)
         == first + "/" + ("waku" + "/" + ("2" + "/" + ("rs" + "/" + (cluster + "/" + shard))))
  {
    assert "/waku/2/rs/" == "/" + ("waku" + "/" + ("2" + "/" + ("rs" + "/")));
  }

  lemma SixParts(topic: string)
    requires var parts := Split(topic, '/');
             |parts| == 6 && parts[1] == "waku" && parts[2] == "2" && parts[3] == "rs"
    ensures var parts := Split(topic, '/'); topic == TopicOf(parts[0], parts[4], parts[5])
    ensures var parts := Split(topic, '/'); '/' !in parts[0] && '/' !in parts[4] && '/' !in parts[5]
  {
    hide Split, Joined, TopicOf;
    SplitJoins(topic, '/');
    var parts := Split(topic, '/');
    assert parts[0] in parts && parts[4] in parts && parts[5] in parts;
    assert parts == [parts[0], "waku", "2", "rs", parts[4], parts[5]];
    SixJoined(parts[0], "waku", "2", "rs", parts[4], parts[5]);
    TopicGrouped(parts[0], parts[4], parts[5]);
  }

  /** Exactly these topics parse; whatever precedes the first slash is ignored, `/waku/2/rs/` is not. */
  lemma ParsesExactly(topic: string, info: SingleShard)
    ensures PubsubTopicToSingleShardInfo(topic) == Ok(info)
       <==> exists first: string, cluster: string, shard: string ::
              && '/' !in first && '/' !in cluster && '/' !in shard && topic == TopicOf(first, cluster, shard)
              && ParseInt(cluster) == Some(info.clusterId) && ParseInt(shard) == Some(info.shard)
  {
    hide Split, ParseInt, TopicOf;
    if PubsubTopicToSingleShardInfo(topic) == Ok(info) {
      SixParts(topic);
    }
    if first: string, cluster: string, shard: string :|
      && '/' !in first && '/' !in cluster && '/' !in shard && topic == TopicOf(first, cluster, shard)
      && ParseInt(cluster) == Some(info.clusterId) && ParseInt(shard) == Some(info.shard)
    {
      SplitTopicOf(first, cluster, shard);
    }
  }

  /** A single shard with a number prints to a topic that parses back to it, the default cluster filled in. */
  lemma SingleShardRoundTrips(clusterId: Option<int>, shard: int)
    ensures var topic := SingleShardInfoToPubsubTopic(clusterId, Some(shard));
            && topic.Ok?
            && PubsubTopicToSingleShardInfo(topic.value)
               == Ok(SingleShard(if clusterId.Some? then clusterId.value else 1, shard))
    ensures SingleShardInfoToPubsubTopic(clusterId, None).Err?
  {
    TopicParses(OrDefault(clusterId), shard);
  }

  /** Topic names identify cluster and shard. */
  lemma TopicInjective(c1: int, s1: int, c2: int, s2: int)
    ensures Topic(c1, s1) == Topic(c2, s2) <==> c1 == c2 && s1 == s2
  {
    hide Topic, PubsubTopicToSingleShardInfo;
    TopicParses(c1, s1);
    TopicParses(c2, s2);
  }

  // ---- Tags and repetitions ----

  /** Tags stand for shards one to one, so their set is the set of shards. */
  lemma {:induction false} DistinctTags(clusterId: int, shards: seq<int>)
    ensures Distinct(TagAll(clusterId, shards)) == TagAll(clusterId, Distinct(shards))
    decreases |shards|
  {
    hide Tagged;
    if shards == [] {
      assert TagAll(clusterId, shards) == [];
    } else {
      var rest, x := shards[..|shards| - 1], shards[|shards| - 1];
      assert TagAll(clusterId, shards)[..|shards| - 1] == TagAll(clusterId, rest);
      DistinctTags(clusterId, rest);
      var known := Distinct(rest);
      if Tagged(clusterId, x) in TagAll(clusterId, known) {
        var i :| 0 <= i < |known| && TagAll(clusterId, known)[i] == Tagged(clusterId, x);
        TagReadsBack(clusterId, known[i]);
        TagReadsBack(clusterId, x);
      }
      if x in known {
        var i :| 0 <= i < |known| && known[i] == x;
        assert TagAll(clusterId, known)[i] == Tagged(clusterId, x);
      }
    }
  }

  /** The same for topics. */
  lemma {:induction false} DistinctTopics(clusterId: int, shards: seq<int>)
    ensures Distinct(Topics(clusterId, shards)) == Topics(clusterId, Distinct(shards))
    decreases |shards|
  {
    hide Topic;
    if shards == [] {
      assert Topics(clusterId, shards) == [];
    } else {
      var rest, x := shards[..|shards| - 1], shards[|shards| - 1];
      assert Topics(clusterId, shards)[..|shards| - 1] == Topics(clusterId, rest);
      DistinctTopics(clusterId, rest);
      var known := Distinct(rest);
      if Topic(clusterId, x) in Topics(clusterId, known) {
        var i :| 0 <= i < |known| && Topics(clusterId, known)[i] == Topic(clusterId, x);
        TopicInjective(clusterId, known[i], clusterId, x);
      }
      if x in known {
        var i :| 0 <= i < |known| && known[i] == x;
        assert Topics(clusterId, known)[i] == Topic(clusterId, x);
      }
    }
  }

  lemma {:induction false} UniformClusters(singles: seq<SingleShard>)
    requires singles != [] && SameCluster(singles)
    ensures Distinct(ClustersOf(singles)) == [singles[0].clusterId]
    decreases |singles|
  {
    var clusters := ClustersOf(singles);
    var rest := singles[..|singles| - 1];
    assert clusters[..|clusters| - 1] == ClustersOf(rest);
    if rest == [] {
      assert ClustersOf(rest) == [];
    } else {
      UniformClusters(rest);
    }
  }

  lemma MixedClusters(singles: seq<SingleShard>)
    requires !SameCluster(singles)
    ensures |Distinct(ClustersOf(singles))| > 1
  {
    var i, j :| 0 <= i < |singles| && 0 <= j < |singles| && singles[i].clusterId != singles[j].clusterId;
    var clusters := ClustersOf(singles);
    assert clusters[i] in clusters && clusters[j] in clusters;
    DistinctMembers(clusters, clusters[i]);
    DistinctMembers(clusters, clusters[j]);
  }

  // ---- pubsubTopicsToShardInfo ----

  lemma {:induction false} FirstErrorStays(topics: seq<string>, n: nat, m: nat)
    requires n <= m <= |topics| && ParsedPrefix(topics, n).Err?
    ensures ParsedPrefix(topics, m) == ParsedPrefix(topics, n)
    decreases m
  {
    if n < m {
      FirstErrorStays(topics, n, m - 1);
    }
  }

  /** The two sets the loop builds, from the topics parsed so far. */
  lemma OneMoreTopic(singles: seq<SingleShard>, s: SingleShard)
    ensures Distinct(TagsOf(singles + [s])) == SetAdd(Distinct(TagsOf(singles)), Tagged(s.clusterId, s.shard))
    ensures Distinct(ClustersOf(singles + [s])) == SetAdd(Distinct(ClustersOf(singles)), s.clusterId)
  {
    hide Tagged;
    assert TagsOf(singles + [s]) == TagsOf(singles) + [Tagged(s.clusterId, s.shard)];
    assert ClustersOf(singles + [s]) == ClustersOf(singles) + [s.clusterId];
    DistinctAppend(TagsOf(singles), Tagged(s.clusterId, s.shard));
    DistinctAppend(ClustersOf(singles), s.clusterId);
  }

  lemma SetsEmpty()
    ensures Distinct(TagsOf([])) == [] && Distinct(ClustersOf([])) == []
  {}

  method ParseTopics(topics: seq<string>)
    returns (r: Result<(seq<string>, seq<int>), string>, ghost singles: seq<SingleShard>)
    ensures match ParsedPrefix(topics, |topics|)
            case Err(e) => r == Err(e)
            case Ok(ss) => singles == ss && r == Ok((Distinct(TagsOf(ss)), Distinct(ClustersOf(ss))))
  {
    hide Distinct, TagsOf, ClustersOf, PubsubTopicToSingleShardInfo;
    var shardInfoSet: seq<string>, clusterIds: seq<int> := [], [];
    singles := [];
    SetsEmpty();
    for i := 0 to |topics|
      invariant ParsedPrefix(topics, i) == Ok(singles)
      invariant shardInfoSet == Distinct(TagsOf(singles)) && clusterIds == Distinct(ClustersOf(singles))
    {
      var single := PubsubTopicToSingleShardInfo(topics[i]);
      if single.Err? {
        FirstErrorStays(topics, i + 1, |topics|);
        return Err(single.error), [];
      }
      OneMoreTopic(singles, single.value);
      shardInfoSet := SetAdd(shardInfoSet, Tagged(single.value.clusterId, single.value.shard));
      clusterIds := SetAdd(clusterIds, single.value.clusterId);
      singles := singles + [single.value];
    }
    r := Ok((shardInfoSet, clusterIds));
  }

  lemma EmptySetExactly(singles: seq<SingleShard>)
    ensures Distinct(TagsOf(singles)) == [] <==> singles == []
  {}

  lemma TagsOfUniform(singles: seq<SingleShard>)
    requires singles != [] && SameCluster(singles)
    ensures TagsOf(singles) == TagAll(singles[0].clusterId, ShardsOf(singles))
  {}

  /** pubsubTopicsToShardInfo. It reads back only tags it wrote, so no shard in the result is NaN. */
  method PubsubTopicsToShardInfo(topics: seq<string>) returns (r: Result<Shards, string>)
    ensures r == Collected(topics)
  {
    hide Distinct, TagsOf, ClustersOf, ShardsOf, ParsedPrefix, Tagged, ShardOfTag, SameCluster;
    var parsed, singles := ParseTopics(topics);
    if parsed.Err? {
      return Err(parsed.error);
    }
    var (shardInfoSet, clusterIds) := parsed.value;
    EmptySetExactly(singles);
    if |shardInfoSet| == 0 {
      return Err(NO_TOPICS);
    }
    if |clusterIds| > 1 {
      if SameCluster(singles) {
        UniformClusters(singles);
      }
      return Err(MIXED_CLUSTERS);
    }
    if !SameCluster(singles) {
      MixedClusters(singles);
    }
    UniformClusters(singles);
    TagsOfUniform(singles);
    DistinctTags(singles[0].clusterId, ShardsOf(singles));
    ghost var expected := Distinct(ShardsOf(singles));
    var shards: seq<int> := [];
    for i := 0 to |shardInfoSet|
      invariant shards == expected[..i]
    {
      TagReadsBack(singles[0].clusterId, expected[i]);
      var shard := ShardOfTag(shardInfoSet[i]);
      shards := shards + [shard.value];
    }
    assert expected[..|expected|] == expected;
    r := Ok(Shards(clusterIds[0], shards));
  }

  // ---- Round trip ----

  /** Printed topics parse to what they were printed from. */
  lemma {:induction false} PrintedTopicsParse(singles: seq<SingleShard>, topics: seq<string>, n: nat)
    requires |topics| == |singles| && n <= |topics|
    requires forall i | 0 <= i < |topics| :: topics[i] == Topic(singles[i].clusterId, singles[i].shard)
    ensures ParsedPrefix(topics, n) == Ok(singles[..n])
  {
    hide Topic, PubsubTopicToSingleShardInfo;
    if n > 0 {
      PrintedTopicsParse(singles, topics, n - 1);
      TopicParses(singles[n - 1].clusterId, singles[n - 1].shard);
      assert singles[..n] == singles[..n - 1] + [singles[n - 1]];
    }
  }

  lemma DistinctEmpty(shards: seq<int>)
    ensures Distinct(shards) == [] <==> shards == []
  {}

  /**
   * Collecting the topics printed for a non-empty list of shards gives back the cluster and the list without its
   * repetitions, in order of first occurrence.
   */
  lemma {:induction false} TopicsRoundTrip(clusterId: int, shards: seq<int>)
    ensures Collected(ShardInfoToPubsubTopics(Some(clusterId), shards))
         == if shards == [] then Err(NO_TOPICS) else Ok(Shards(clusterId, Distinct(shards)))
  {
    hide Topic, Distinct;
    var kept := Distinct(shards);
    var topics := Topics(clusterId, kept);
    DistinctTopics(clusterId, shards);
    var singles := seq(|kept|, i requires 0 <= i < |kept| => SingleShard(clusterId, kept[i]));
    PrintedTopicsParse(singles, topics, |topics|);
    assert singles[..|topics|] == singles;
    assert ShardsOf(singles) == kept;
    DistinctIdempotent(shards);
    DistinctEmpty(shards);
  }

  /** Without a cluster the topics are those of cluster 1. */
  lemma DefaultCluster(shards: seq<int>)
    ensures ShardInfoToPubsubTopics(None, shards) == ShardInfoToPubsubTopics(Some(1), shards)
  {}

  // ---- What any list of topics amounts to ----

  lemma {:induction false} PrefixParsed(topics: seq<string>, n: nat)
    requires n <= |topics| && forall i | 0 <= i < n :: PubsubTopicToSingleShardInfo(topics[i]).Ok?
    ensures var r := ParsedPrefix(topics, n);
            r.Ok? && |r.value| == n
            && forall i | 0 <= i < n :: Ok(r.value[i]) == PubsubTopicToSingleShardInfo(topics[i])
  {
    hide PubsubTopicToSingleShardInfo;
    if n > 0 {
      PrefixParsed(topics, n - 1);
    }
  }

  /** The first topic that does not parse decides the error. */
  lemma BadTopicRefused(topics: seq<string>, i: nat)
    requires i < |topics| && PubsubTopicToSingleShardInfo(topics[i]).Err?
    requires forall j | 0 <= j < i :: PubsubTopicToSingleShardInfo(topics[j]).Ok?
    ensures Collected(topics) == Err(PubsubTopicToSingleShardInfo(topics[i]).error)
  {
    hide PubsubTopicToSingleShardInfo;
    PrefixParsed(topics, i);
    assert ParsedPrefix(topics, i + 1) == Err(PubsubTopicToSingleShardInfo(topics[i]).error);
    FirstErrorStays(topics, i + 1, |topics|);
  }

  /** Topics that all parse are refused if there are none or they differ in cluster, and collected otherwise. */
  lemma CollectedExactly(topics: seq<string>, singles: seq<SingleShard>)
    requires |singles| == |topics|
    requires forall i | 0 <= i < |topics| :: PubsubTopicToSingleShardInfo(topics[i]) == Ok(singles[i])
    ensures Collected(topics)
         == if topics == [] then Err("No valid pubsub topics provided")
            else if exists i | 0 <= i < |singles| :: singles[i].clusterId != singles[0].clusterId
            then Err("Pubsub topics from multiple cluster IDs are not supported")
            else Ok(Shards(singles[0].clusterId,
                           Distinct(seq(|singles|, i requires 0 <= i < |singles| => singles[i].shard))))
  {
    hide PubsubTopicToSingleShardInfo, Distinct;
    PrefixParsed(topics, |topics|);
    assert ParsedPrefix(topics, |topics|).value == singles;
    if singles != [] && !SameCluster(singles) {
      var i, j :| 0 <= i < |singles| && 0 <= j < |singles| && singles[i].clusterId != singles[j].clusterId;
      assert singles[i].clusterId != singles[0].clusterId || singles[j].clusterId != singles[0].clusterId;
    }
    assert ShardsOf(singles) == seq(|singles|, i requires 0 <= i < |singles| => singles[i].shard);
  }
}
