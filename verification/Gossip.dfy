/** Epidemic gossip: one node's protocol engine, and networks of them. */
module Gossip {
  import opened Bytes
  import opened Transactions
  import opened Blocks

  type Ttl = x: nat | x < 256

  type PeerId = ByteString

  datatype PeerInfo = PeerInfo(peerId: PeerId, address: ByteString, connectedAt: u64, lastSeen: u64)

  datatype GossipMessage =
    | NewTransaction(transaction: Transaction, ttl: Ttl)
    | NewBlock(block: Block, ttl: Ttl)
    | PeerDiscovery(peer: PeerInfo, knownPeers: seq<PeerInfo>, ttl: Ttl)

  datatype GossipAction =
    | Forward(message: GossipMessage, targets: seq<PeerId>)
    | AddToMempool(added: Transaction)
    | ProcessBlock(received: Block)
    | AddPeers(peers: seq<PeerInfo>)
    | Drop

  datatype GossipConfig = GossipConfig(fanout: nat, maxPeers: nat, seenCacheSize: nat)

  /** Message digest to the time it was first seen. */
  type Seen = map<Digest, u64>

  /** The digest of a message's JSON, time-to-live included. */
  type ContentHash = GossipMessage -> Digest

  function DecrementTtl(m: GossipMessage): Option<GossipMessage> {
    match m
    case NewTransaction(tx, ttl) => if ttl > 1 then Some(NewTransaction(tx, ttl - 1)) else None
    case NewBlock(block, ttl) => if ttl > 1 then Some(NewBlock(block, ttl - 1)) else None
    case PeerDiscovery(peer, known, ttl) => if ttl > 1 then Some(PeerDiscovery(peer, known, ttl - 1)) else None
  }

  function WithTtl(m: GossipMessage, ttl: Ttl): GossipMessage {
    match m
    case NewTransaction(tx, _) => NewTransaction(tx, ttl)
    case NewBlock(block, _) => NewBlock(block, ttl)
    case PeerDiscovery(peer, known, _) => PeerDiscovery(peer, known, ttl)
  }

  /** A message with more than one hop to go is passed on with one hop less, any other is not. */
  lemma HopTaken(m: GossipMessage)
    ensures DecrementTtl(m) == (if m.ttl > 1 then Some(WithTtl(m, m.ttl - 1)) else None)
    ensures WithTtl(m, m.ttl) == m && forall t: Ttl :: WithTtl(m, t).ttl == t
    ensures forall t: Ttl, u: Ttl :: WithTtl(WithTtl(m, t), u) == WithTtl(m, u)
  {}

  function PayloadAction(m: GossipMessage): GossipAction {
    match m
    case NewTransaction(tx, _) => AddToMempool(tx)
    case NewBlock(block, _) => ProcessBlock(block)
    case PeerDiscovery(_, known, _) => AddPeers(known)
  }

  // ---- What handling a message does ----

  /** The ids of the first `fanout` peers other than `sender`. */
  function Targets(peers: seq<PeerInfo>, fanout: nat, sender: Option<PeerId>): seq<PeerId> {
    if peers == [] then []
    else
      var chosen := Targets(peers[..|peers| - 1], fanout, sender);
      var last := peers[|peers| - 1].peerId;
      if sender == Some(last) || |chosen| == fanout then chosen else chosen + [last]
  }

  predicate Rejects(hash: ContentHash, seen: Seen, m: GossipMessage) {
    hash(m) in seen || m.ttl == 0
  }

  function Actions(config: GossipConfig, hash: ContentHash, seen: Seen, peers: seq<PeerInfo>, sender: PeerId,
                   m: GossipMessage): seq<GossipAction> {
    if Rejects(hash, seen, m) then [Drop]
    else
      var forwarded := DecrementTtl(m);
      var targets := Targets(peers, config.fanout, Some(sender));
      [PayloadAction(m)] + (if forwarded.Some? && targets != [] then [Forward(forwarded.value, targets)] else [])
  }

  /** Over capacity, the cache is cut to three quarters and no kept entry is older than a
      removed one; the iteration order of the source's hash map decides among equal times. */
  ghost predicate Evicted(capacity: nat, before: Seen, after: Seen) {
    if |before| <= capacity then after == before
    else
      && |after| == capacity * 3 / 4
      && (forall d :: d in after ==> d in before && after[d] == before[d])
      && (forall d, e :: d in before && d !in after && e in after ==> before[d] <= after[e])
  }

  lemma CutToThreeQuarters(capacity: nat, before: Seen, after: Seen)
    requires Evicted(capacity, before, after) && |before| > capacity
    ensures |after| == capacity * 3 / 4 && forall d :: d in after ==> d in before && after[d] == before[d]
    ensures forall d, e :: d in before && d !in after && e in after ==> before[d] <= after[e]
  {}

  ghost predicate SeenAfter(config: GossipConfig, hash: ContentHash, seen: Seen, m: GossipMessage, now: u64,
                            after: Seen) {
    if Rejects(hash, seen, m) then after == seen
    else Evicted(config.seenCacheSize, seen[hash(m) := now], after)
  }

  ghost predicate DistinctPeers(peers: seq<PeerInfo>) {
    forall i, j :: 0 <= i < j < |peers| ==> peers[i].peerId != peers[j].peerId
  }

  /** At most `fanout` targets, all of them connected and none the sender; with distinct peers
      no target twice; and fewer than `fanout` only when every other peer is a target. */
  lemma {:induction false} TargetsCorrect(peers: seq<PeerInfo>, fanout: nat, sender: Option<PeerId>)
    ensures var t := Targets(peers, fanout, sender);
            && |t| <= fanout
            && (forall id :: id in t ==> sender != Some(id) && exists i :: 0 <= i < |peers| && peers[i].peerId == id)
            && (|t| < fanout ==>
                  forall i :: 0 <= i < |peers| && sender != Some(peers[i].peerId) ==> peers[i].peerId in t)
    ensures DistinctPeers(peers) ==>
              var t := Targets(peers, fanout, sender);
              forall i, j :: 0 <= i < j < |t| ==> t[i] != t[j]
  {
    if peers != [] {
      TargetsCorrect(peers[..|peers| - 1], fanout, sender);
      assert peers[|peers| - 1].peerId == peers[|peers| - 1].peerId;
    }
    if |Targets(peers, fanout, sender)| < fanout {
      FewTargets(peers, fanout, sender);
    }
  }

  lemma {:induction false} FewTargets(peers: seq<PeerInfo>, fanout: nat, sender: Option<PeerId>)
    requires |Targets(peers, fanout, sender)| < fanout
    ensures forall i :: 0 <= i < |peers| && sender != Some(peers[i].peerId) ==>
              peers[i].peerId in Targets(peers, fanout, sender)
  {
    if peers != [] {
      var rest := peers[..|peers| - 1];
      FewTargets(rest, fanout, sender);
      forall i | 0 <= i < |peers| && sender != Some(peers[i].peerId)
        ensures peers[i].peerId in Targets(peers, fanout, sender)
      {
        assert i < |rest| ==> rest[i] == peers[i];
      }
    }
  }

  /** The number of peers before position `i` that are not the sender. */
  function OthersBefore(peers: seq<PeerInfo>, i: nat, sender: Option<PeerId>): nat
    requires i <= |peers|
  {
    if i == 0 then 0
    else OthersBefore(peers, i - 1, sender) + (if sender != Some(peers[i - 1].peerId) then 1 else 0)
  }

  lemma {:induction false} OthersPrefix(peers: seq<PeerInfo>, n: nat, i: nat, sender: Option<PeerId>)
    requires i <= n <= |peers|
    ensures OthersBefore(peers[..n], i, sender) == OthersBefore(peers, i, sender) <= i
  {
    if i > 0 {
      OthersPrefix(peers, n, i - 1, sender);
    }
  }

  lemma {:induction false} TargetsSize(peers: seq<PeerInfo>, fanout: nat, sender: Option<PeerId>)
    ensures var n := OthersBefore(peers, |peers|, sender);
            |Targets(peers, fanout, sender)| == (if n < fanout then n else fanout)
  {
    if peers != [] {
      TargetsSize(peers[..|peers| - 1], fanout, sender);
      OthersPrefix(peers, |peers| - 1, |peers| - 1, sender);
    }
  }

  /** The targets are the first `fanout` peers other than the sender, in order. */
  lemma {:induction false} TargetsExact(peers: seq<PeerInfo>, fanout: nat, sender: Option<PeerId>, i: nat)
    requires i < |peers| && sender != Some(peers[i].peerId) && OthersBefore(peers, i, sender) < fanout
    ensures OthersBefore(peers, i, sender) < |Targets(peers, fanout, sender)|
    ensures Targets(peers, fanout, sender)[OthersBefore(peers, i, sender)] == peers[i].peerId
  {
    var n := |peers| - 1;
    TargetsSize(peers, fanout, sender);
    TargetsSize(peers[..n], fanout, sender);
    OthersPrefix(peers, n, i, sender);
    OthersPrefix(peers, n, n, sender);
    if i < n {
      TargetsExact(peers[..n], fanout, sender, i);
    }
  }

  /** One of the first `fanout` peers is a target whoever the sender is, unless it is the sender. */
  lemma SureTarget(peers: seq<PeerInfo>, fanout: nat, id: PeerId, sender: PeerId)
    requires id in Targets(peers, fanout, None) && id != sender
    ensures id in Targets(peers, fanout, Some(sender))
  {
    var i := FirstPeer(peers, fanout, id);
    OthersPrefix(peers, |peers|, i, Some(sender));
    TargetsExact(peers, fanout, Some(sender), i);
  }

  lemma {:induction false} FirstPeer(peers: seq<PeerInfo>, fanout: nat, id: PeerId) returns (i: nat)
    requires id in Targets(peers, fanout, None)
    ensures i < |peers| && i < fanout && peers[i].peerId == id
  {
    var n := |peers| - 1;
    TargetsSize(peers[..n], fanout, None);
    AllOthers(peers[..n], n);
    if id in Targets(peers[..n], fanout, None) {
      i := FirstPeer(peers[..n], fanout, id);
    } else {
      i := n;
    }
  }

  lemma {:induction false} AllOthers(peers: seq<PeerInfo>, i: nat)
    requires i <= |peers|
    ensures OthersBefore(peers, i, None) == i
  {
    if i > 0 {
      AllOthers(peers, i - 1);
    }
  }

  /** A message just marked survives its own eviction when its time is past all others'. */
  lemma NewestSurvives(config: GossipConfig, hash: ContentHash, seen: Seen, m: GossipMessage, now: u64, after: Seen)
    requires !Rejects(hash, seen, m) && SeenAfter(config, hash, seen, m, now, after)
    requires config.seenCacheSize >= 2 && forall d :: d in seen ==> seen[d] < now
    ensures hash(m) in after
  {}

  // ---- Sorting the cache by age ----

  datatype SeenEntry = SeenEntry(digest: Digest, time: u64)

  ghost predicate ByAge(s: seq<SeenEntry>) {
    forall i, j :: 0 <= i < j < |s| ==> s[i].time <= s[j].time
  }

  /** Stable insertion behind everything at least as old. */
  function InsertByAge(s: seq<SeenEntry>, e: SeenEntry): seq<SeenEntry> {
    if s == [] || s[|s| - 1].time <= e.time then s + [e]
    else InsertByAge(s[..|s| - 1], e) + [s[|s| - 1]]
  }

  lemma {:induction false} InsertByAgeMembers(s: seq<SeenEntry>, e: SeenEntry)
    ensures multiset(InsertByAge(s, e)) == multiset(s) + multiset{e}
    ensures forall x :: x in InsertByAge(s, e) ==> x in s || x == e
  {
    if s != [] {
      assert s == s[..|s| - 1] + [s[|s| - 1]];
      if s[|s| - 1].time > e.time {
        InsertByAgeMembers(s[..|s| - 1], e);
      }
    }
  }

  lemma {:induction false} InsertByAgeSorted(s: seq<SeenEntry>, e: SeenEntry)
    requires ByAge(s)
    ensures ByAge(InsertByAge(s, e))
  {
    if s != [] && s[|s| - 1].time > e.time {
      var rest := InsertByAge(s[..|s| - 1], e);
      InsertByAgeSorted(s[..|s| - 1], e);
      InsertByAgeMembers(s[..|s| - 1], e);
      assert forall i :: 0 <= i < |rest| ==> rest[i] in rest;
    }
  }

  ghost function Digests(s: seq<SeenEntry>): set<Digest> { set i | 0 <= i < |s| :: s[i].digest }

  /** `s` lists the entries of `m`, each once. */
  ghost predicate Lists(s: seq<SeenEntry>, m: Seen) {
    && Digests(s) == m.Keys && |s| == |m|
    && forall i :: 0 <= i < |s| ==> s[i].digest in m && s[i].time == m[s[i].digest]
  }

  lemma DigestsOfMultiset(s: seq<SeenEntry>, t: seq<SeenEntry>, e: SeenEntry)
    requires multiset(t) == multiset(s) + multiset{e}
    ensures Digests(t) == Digests(s) + {e.digest} && |t| == |s| + 1
    ensures forall x :: x in t <==> x in s || x == e
  {
    assert |multiset(t)| == |t|;
    assert forall x :: x in t <==> x in multiset(t);
    assert forall x :: x in s <==> x in multiset(s);
    forall d ensures d in Digests(t) <==> d in Digests(s) + {e.digest} {
      if d in Digests(t) {
        var i :| 0 <= i < |t| && t[i].digest == d;
        assert t[i] in t;
      }
      if d in Digests(s) {
        var i :| 0 <= i < |s| && s[i].digest == d;
        assert s[i] in s && s[i] in t;
      }
      if d == e.digest {
        assert e in t;
      }
    }
  }

  lemma ListsEmpty()
    ensures ByAge([]) && Lists([], map[])
  {}

  lemma EvictedNothing(capacity: nat, seen: Seen)
    requires |seen| <= capacity
    ensures Evicted(capacity, seen, seen)
  {}

  lemma ListsInsert(s: seq<SeenEntry>, m: Seen, d: Digest, time: u64)
    requires ByAge(s) && Lists(s, m) && d !in m
    ensures ByAge(InsertByAge(s, SeenEntry(d, time))) && Lists(InsertByAge(s, SeenEntry(d, time)), m[d := time])
  {
    hide InsertByAge, Digests;
    var e := SeenEntry(d, time);
    var t := InsertByAge(s, e);
    InsertByAgeMembers(s, e);
    InsertByAgeSorted(s, e);
    DigestsOfMultiset(s, t, e);
    assert m[d := time].Keys == m.Keys + {d};
    forall i | 0 <= i < |t|
      ensures t[i].digest in m[d := time] && t[i].time == m[d := time][t[i].digest]
    {
      assert t[i] in t;
    }
  }

  lemma {:induction false} DigestsSize(s: seq<SeenEntry>)
    ensures |Digests(s)| <= |s|
  {
    if s == [] {
      assert Digests(s) == {};
    } else {
      var rest := s[..|s| - 1];
      DigestsSize(rest);
      assert Digests(s) == Digests(rest) + {s[|s| - 1].digest};
    }
  }

  lemma DigestsSplit(s: seq<SeenEntry>, n: nat)
    requires n <= |s| && |Digests(s)| == |s|
    ensures |Digests(s[n..])| == |s| - n && Digests(s[n..]) == Digests(s) - Digests(s[..n])
  {
    var head, tail := Digests(s[..n]), Digests(s[n..]);
    DigestsSize(s[..n]);
    DigestsSize(s[n..]);
    assert Digests(s) == head + tail by {
      assert forall i :: n <= i < |s| ==> s[i] == s[n..][i - n];
    }
    assert |head| + |tail| == |head + tail| + |head * tail|;
    assert head * tail == {};
    assert forall d :: d in head && d in tail ==> d in head * tail;
  }

  lemma RemoveNone(m: Seen, s: seq<SeenEntry>)
    ensures m - Digests(s[..0]) == m
  {
    assert Digests(s[..0]) == {};
  }

  lemma RemoveOneMore(m: Seen, s: seq<SeenEntry>, i: nat)
    requires i < |s|
    ensures m - Digests(s[..i]) - {s[i].digest} == m - Digests(s[..i + 1])
  {
    assert Digests(s[..i + 1]) == Digests(s[..i]) + {s[i].digest};
  }

  lemma OldestFirst(s: seq<SeenEntry>, m: Seen, n: nat, d: Digest, e: Digest)
    requires ByAge(s) && Lists(s, m) && n <= |s| && d in Digests(s[..n]) && e in Digests(s[n..])
    ensures d in m && e in m && m[d] <= m[e]
  {
    var i :| 0 <= i < |s[..n]| && s[..n][i].digest == d;
    var j :| 0 <= j < |s[n..]| && s[n..][j].digest == e;
    assert s[i].digest == d && s[n + j].digest == e;
  }

  /** Dropping the oldest entries is an eviction. */
  lemma DropOldest(capacity: nat, s: seq<SeenEntry>, before: Seen)
    requires ByAge(s) && Lists(s, before) && |before| > capacity
    ensures var n := |s| - capacity * 3 / 4;
            0 <= n <= |s| && Evicted(capacity, before, before - Digests(s[..n]))
  {
    hide ByAge, Digests;
    var n := |s| - capacity * 3 / 4;
    var after := before - Digests(s[..n]);
    assert |before.Keys| == |before| && |after.Keys| == |after|;
    DigestsSplit(s, n);
    assert after.Keys == Digests(s[n..]);
    forall d, e | d in before && d !in after && e in after
      ensures before[d] <= after[e]
    {
      OldestFirst(s, before, n, d, e);
    }
  }

  lemma {:induction false} ListingExists(m: Seen) returns (s: seq<SeenEntry>)
    ensures ByAge(s) && Lists(s, m)
    decreases |m|
  {
    hide ByAge, Lists, InsertByAge;
    ListsEmpty();
    if m == map[] {
      s := [];
    } else {
      var d :| d in m;
      assert |m - {d}| < |m| && m == (m - {d})[d := m[d]];
      s := ListingExists(m - {d});
      ListsInsert(s, m - {d}, d, m[d]);
      s := InsertByAge(s, SeenEntry(d, m[d]));
    }
  }

  // ---- One node ----

  class GossipProtocol {
    const config: GossipConfig
    const hash: ContentHash
    var seen: Seen
    var peers: seq<PeerInfo>

    constructor (config: GossipConfig, hash: ContentHash)
      ensures this.config == config && this.hash == hash && seen == map[] && peers == []
    {
      this.config := config;
      this.hash := hash;
      this.seen := map[];
      this.peers := [];
    }

    ghost predicate Valid()
      reads this
    {
      |peers| <= config.maxPeers && DistinctPeers(peers)
    }

    method SelectTargets(sender: Option<PeerId>) returns (targets: seq<PeerId>)
      ensures targets == Targets(peers, config.fanout, sender)
    {
      targets := [];
      for i := 0 to |peers|
        invariant targets == Targets(peers[..i], config.fanout, sender)
      {
        assert peers[..i + 1][..i] == peers[..i];
        if sender != Some(peers[i].peerId) && |targets| != config.fanout {
          targets := targets + [peers[i].peerId];
        }
      }
      assert peers[..|peers|] == peers;
    }

    /** Marks the message as seen, without evicting, and sends it with its time-to-live as given. */
    method Broadcast(m: GossipMessage, now: u64) returns (actions: seq<GossipAction>)
      requires Valid()
      modifies this`seen
      ensures Valid() && seen == old(seen)[hash(m) := now]
      ensures var targets := Targets(peers, config.fanout, None);
              actions == if targets == [] then [] else [Forward(m, targets)]
    {
      seen := seen[hash(m) := now];
      var targets := SelectTargets(None);
      if targets == [] {
        return [];
      }
      actions := [Forward(m, targets)];
    }

    method HandleMessage(sender: PeerId, m: GossipMessage, now: u64) returns (actions: seq<GossipAction>)
      requires Valid()
      modifies this`seen
      ensures Valid()
      ensures actions == Actions(config, hash, old(seen), peers, sender, m)
      ensures SeenAfter(config, hash, old(seen), m, now, seen)
      ensures actions != [Drop] ==> |seen| <= config.seenCacheSize
      ensures hash(m) in old(seen) || m.ttl == 0 ==> actions == [Drop] && seen == old(seen)
      ensures hash(m) !in old(seen) && m.ttl > 0 ==>
                var targets := Targets(peers, config.fanout, Some(sender));
                actions == [PayloadAction(m)] +
                           (if m.ttl > 1 && targets != [] then [Forward(WithTtl(m, m.ttl - 1), targets)] else [])
    {
      if hash(m) in seen {
        return [Drop];
      }
      if m.ttl == 0 {
        return [Drop];
      }
      seen := seen[hash(m) := now];
      MaybeEvictSeenCache();
      match m {
        case NewTransaction(tx, _) => actions := [AddToMempool(tx)];
        case NewBlock(block, _) => actions := [ProcessBlock(block)];
        case PeerDiscovery(_, known, _) => actions := [AddPeers(known)];
      }
      var forwarded := DecrementTtl(m);
      if forwarded.Some? {
        var targets := SelectTargets(Some(sender));
        if targets != [] {
          actions := actions + [Forward(forwarded.value, targets)];
        }
      }
    }

    /** The cache as a list, oldest first. */
    method EntriesByAge() returns (entries: seq<SeenEntry>)
      ensures ByAge(entries) && Lists(entries, seen)
    {
      hide InsertByAge, ByAge, Lists;
      entries := [];
      var remaining := seen.Keys;
      ghost var listed: Seen := map[];
      ListsEmpty();
      while remaining != {}
        invariant remaining <= seen.Keys && ByAge(entries) && Lists(entries, listed)
        invariant listed.Keys == seen.Keys - remaining && forall d :: d in listed ==> listed[d] == seen[d]
        decreases |remaining|
      {
        var d :| d in remaining;
        ListsInsert(entries, listed, d, seen[d]);
        entries := InsertByAge(entries, SeenEntry(d, seen[d]));
        listed := listed[d := seen[d]];
        remaining := remaining - {d};
      }
      assert listed == seen;
    }

    method MaybeEvictSeenCache()
      modifies this`seen
      ensures Evicted(config.seenCacheSize, old(seen), seen)
      ensures |old(seen)| <= config.seenCacheSize ==> seen == old(seen)
      ensures |old(seen)| > config.seenCacheSize ==>
                && |seen| == config.seenCacheSize * 3 / 4
                && (forall d :: d in seen ==> d in old(seen) && seen[d] == old(seen)[d])
                && (forall d, e :: d in old(seen) && d !in seen && e in seen ==> old(seen)[d] <= seen[e])
    {
      hide ByAge, Lists, Evicted, Digests;
      if |seen| <= config.seenCacheSize {
        EvictedNothing(config.seenCacheSize, seen);
        return;
      }
      var target := config.seenCacheSize * 3 / 4;
      var entries := EntriesByAge();
      DropOldest(config.seenCacheSize, entries, seen);
      var toRemove := |entries| - target;
      RemoveNone(seen, entries);
      for i := 0 to toRemove
        invariant seen == old(seen) - Digests(entries[..i])
      {
        RemoveOneMore(old(seen), entries, i);
        seen := seen - {entries[i].digest};
      }
      CutToThreeQuarters(config.seenCacheSize, old(seen), seen);
    }

    method AddPeer(peer: PeerInfo)
      requires Valid()
      modifies this`peers
      ensures Valid()
      ensures var known := exists i :: 0 <= i < |old(peers)| && old(peers)[i].peerId == peer.peerId;
              peers == if |old(peers)| < config.maxPeers && !known then old(peers) + [peer] else old(peers)
    {
      if |peers| < config.maxPeers && !exists i :: 0 <= i < |peers| && peers[i].peerId == peer.peerId {
        peers := peers + [peer];
      }
    }

    method RemovePeer(id: PeerId)
      requires Valid()
      modifies this`peers
      ensures Valid() && peers == Retained(old(peers), id)
    {
      var kept: seq<PeerInfo> := [];
      for i := 0 to |peers|
        modifies {}
        invariant kept == Retained(peers[..i], id)
      {
        assert peers[..i + 1][..i] == peers[..i];
        if peers[i].peerId != id {
          kept := kept + [peers[i]];
        }
      }
      assert peers[..|peers|] == peers;
      RetainedCorrect(peers, id);
      peers := kept;
    }
  }

  function Retained(peers: seq<PeerInfo>, id: PeerId): seq<PeerInfo> {
    if peers == [] then []
    else
      var rest, last := Retained(peers[..|peers| - 1], id), peers[|peers| - 1];
      if last.peerId != id then rest + [last] else rest
  }

  /** Exactly the peers with another id stay. */
  lemma {:induction false} RetainedCorrect(peers: seq<PeerInfo>, id: PeerId)
    ensures |Retained(peers, id)| <= |peers|
    ensures forall p :: p in Retained(peers, id) <==> p in peers && p.peerId != id
    ensures DistinctPeers(peers) ==> DistinctPeers(Retained(peers, id))
  {
    if peers != [] {
      var n := |peers| - 1;
      RetainedCorrect(peers[..n], id);
      assert peers == peers[..n] + [peers[n]];
      if DistinctPeers(peers) {
        forall i | 0 <= i < |Retained(peers[..n], id)|
          ensures Retained(peers[..n], id)[i].peerId != peers[n].peerId
        {
          assert Retained(peers[..n], id)[i] in peers[..n];
        }
      }
    }
  }

  /** The peers that stay keep their order. */
  lemma {:induction false} RetainedOrder(peers: seq<PeerInfo>, id: PeerId, i: nat)
    requires i < |peers| && peers[i].peerId != id
    ensures |Retained(peers, id)| == OthersBefore(peers, |peers|, Some(id))
    ensures OthersBefore(peers, i, Some(id)) < |Retained(peers, id)|
    ensures Retained(peers, id)[OthersBefore(peers, i, Some(id))] == peers[i]
  {
    var n := |peers| - 1;
    RetainedSize(peers, id);
    RetainedSize(peers[..n], id);
    OthersPrefix(peers, n, i, Some(id));
    OthersPrefix(peers, n, n, Some(id));
    if i < n {
      RetainedOrder(peers[..n], id, i);
    }
  }

  lemma {:induction false} RetainedSize(peers: seq<PeerInfo>, id: PeerId)
    ensures |Retained(peers, id)| == OthersBefore(peers, |peers|, Some(id))
  {
    if peers != [] {
      RetainedSize(peers[..|peers| - 1], id);
      OthersPrefix(peers, |peers| - 1, |peers| - 1, Some(id));
    }
  }

  // ---- Deduplication at one node ----

  /** The digest is the hash of the message's JSON, and the JSON tells messages apart. */
  ghost predicate DigestsContent(hash: ContentHash, h: Hash, json: GossipMessage -> ByteString) {
    && (forall m :: hash(m) == h(json(m)))
    && (forall a, b :: json(a) == json(b) ==> a == b)
  }

  /** A run of one node from an empty cache: the cache before and after each message handled. */
  ghost predicate Handled(config: GossipConfig, hash: ContentHash, caches: seq<Seen>, inputs: seq<GossipMessage>,
                          times: seq<u64>) {
    && |caches| == |inputs| + 1 == |times| + 1 && caches[0] == map[]
    && forall k :: 0 <= k < |inputs| ==> SeenAfter(config, hash, caches[k], inputs[k], times[k], caches[k + 1])
  }

  /** The node acts on message `k`: it passes the payload on. */
  ghost predicate Acts(hash: ContentHash, caches: seq<Seen>, inputs: seq<GossipMessage>, k: nat)
    requires |caches| == |inputs| + 1
  {
    k < |inputs| && !Rejects(hash, caches[k], inputs[k])
  }

  lemma ActsOnPayload(config: GossipConfig, hash: ContentHash, seen: Seen, peers: seq<PeerInfo>, sender: PeerId,
                      m: GossipMessage)
    ensures PayloadAction(m) in Actions(config, hash, seen, peers, sender, m) <==> !Rejects(hash, seen, m)
  {
    assert !Rejects(hash, seen, m) ==> Actions(config, hash, seen, peers, sender, m)[0] == PayloadAction(m);
  }

  /** What is passed on: the transaction to the pool, the block to processing, the known peers
      to the connection set. */
  lemma PayloadByKind(m: GossipMessage)
    ensures m.NewTransaction? ==> PayloadAction(m) == AddToMempool(m.transaction)
    ensures m.NewBlock? ==> PayloadAction(m) == ProcessBlock(m.block)
    ensures m.PeerDiscovery? ==> PayloadAction(m) == AddPeers(m.knownPeers)
  {}

  /** How often the node acted on the digest `d` in the first `n` messages. */
  ghost function Entries(hash: ContentHash, caches: seq<Seen>, inputs: seq<GossipMessage>, d: Digest, n: nat): nat
    requires |caches| == |inputs| + 1 && n <= |inputs|
  {
    if n == 0 then 0
    else
      Entries(hash, caches, inputs, d, n - 1) +
      (if Acts(hash, caches, inputs, n - 1) && hash(inputs[n - 1]) == d then 1 else 0)
  }

  /** Handling message `k` drops the digest `d` from the cache. */
  ghost predicate Dropped(hash: ContentHash, caches: seq<Seen>, inputs: seq<GossipMessage>, d: Digest, k: nat)
    requires |caches| == |inputs| + 1 && k < |inputs|
  {
    (d in caches[k] || (Acts(hash, caches, inputs, k) && hash(inputs[k]) == d)) && d !in caches[k + 1]
  }

  ghost function Evictions(hash: ContentHash, caches: seq<Seen>, inputs: seq<GossipMessage>, d: Digest, n: nat): nat
    requires |caches| == |inputs| + 1 && n <= |inputs|
  {
    if n == 0 then 0
    else
      Evictions(hash, caches, inputs, d, n - 1) + (if Dropped(hash, caches, inputs, d, n - 1) then 1 else 0)
  }

  lemma HandledStep(config: GossipConfig, hash: ContentHash, caches: seq<Seen>, inputs: seq<GossipMessage>,
                    times: seq<u64>, k: nat, d: Digest)
    requires Handled(config, hash, caches, inputs, times) && k < |inputs|
    ensures d in caches[k + 1] ==> d in caches[k] || (Acts(hash, caches, inputs, k) && hash(inputs[k]) == d)
  {
    assert SeenAfter(config, hash, caches[k], inputs[k], times[k], caches[k + 1]);
  }

  /** Conservation: over any run a digest was acted on as often as it was evicted since, and
      once more if it is still cached. */
  lemma {:induction false} EntriesConserved(config: GossipConfig, hash: ContentHash, caches: seq<Seen>,
                                            inputs: seq<GossipMessage>, times: seq<u64>, d: Digest, n: nat)
    requires Handled(config, hash, caches, inputs, times) && n <= |inputs|
    ensures Entries(hash, caches, inputs, d, n) ==
            Evictions(hash, caches, inputs, d, n) + (if d in caches[n] then 1 else 0)
  {
    hide Handled;
    CacheLength(config, hash, caches, inputs, times);
    if n > 0 {
      EntriesConserved(config, hash, caches, inputs, times, d, n - 1);
      HandledStep(config, hash, caches, inputs, times, n - 1, d);
    }
  }

  lemma CacheLength(config: GossipConfig, hash: ContentHash, caches: seq<Seen>, inputs: seq<GossipMessage>,
                    times: seq<u64>)
    requires Handled(config, hash, caches, inputs, times)
    ensures |caches| == |inputs| + 1 && caches[0] == map[]
  {}

  ghost function DigestsOf(hash: ContentHash, inputs: seq<GossipMessage>): set<Digest> {
    set k | 0 <= k < |inputs| :: hash(inputs[k])
  }

  /** With room for every digest that arrives, nothing is evicted. */
  lemma {:induction false} NothingEvicted(config: GossipConfig, hash: ContentHash, caches: seq<Seen>,
                                          inputs: seq<GossipMessage>, times: seq<u64>, d: Digest, n: nat)
    requires Handled(config, hash, caches, inputs, times) && n <= |inputs|
    requires |DigestsOf(hash, inputs)| <= config.seenCacheSize
    ensures caches[n].Keys <= DigestsOf(hash, inputs) && Evictions(hash, caches, inputs, d, n) == 0
  {
    if n > 0 {
      var m := inputs[n - 1];
      NothingEvicted(config, hash, caches, inputs, times, d, n - 1);
      assert SeenAfter(config, hash, caches[n - 1], m, times[n - 1], caches[n]);
      var marked := caches[n - 1][hash(m) := times[n - 1]];
      assert hash(m) in DigestsOf(hash, inputs);
      assert |marked.Keys| == |marked|;
      SubsetSize(marked.Keys, DigestsOf(hash, inputs));
    }
  }

  ghost predicate Arrives(inputs: seq<GossipMessage>, x: GossipMessage, n: nat) {
    exists k :: 0 <= k < n <= |inputs| && inputs[k] == x
  }

  ghost predicate ActedOn(hash: ContentHash, caches: seq<Seen>, inputs: seq<GossipMessage>, x: GossipMessage, n: nat)
    requires |caches| == |inputs| + 1
  {
    exists k :: 0 <= k < n <= |inputs| && Acts(hash, caches, inputs, k) && inputs[k] == x
  }

  ghost function Jsons(json: GossipMessage -> ByteString, inputs: seq<GossipMessage>): set<ByteString> {
    set k | 0 <= k < |inputs| :: json(inputs[k])
  }

  /** The digest covers the hop count. So over any run, whatever the cache evicts, the messages
      a node acts on are exactly the ones that arrive with hops to go, each hop count of a
      payload anew, or two JSON texts collide. */
  lemma {:induction false} EachHopCountActs(config: GossipConfig, hash: ContentHash, h: Hash,
                                            json: GossipMessage -> ByteString, caches: seq<Seen>,
                                            inputs: seq<GossipMessage>, times: seq<u64>, m: GossipMessage,
                                            ttl: Ttl, n: nat)
    requires DigestsContent(hash, h, json) && Handled(config, hash, caches, inputs, times) && n <= |inputs|
    ensures Collision(h, Jsons(json, inputs)) ||
            (ActedOn(hash, caches, inputs, WithTtl(m, ttl), n) <==> ttl > 0 && Arrives(inputs, WithTtl(m, ttl), n))
  {
    hide Handled, Jsons;
    var x := WithTtl(m, ttl);
    if n > 0 {
      EachHopCountActs(config, hash, h, json, caches, inputs, times, m, ttl, n - 1);
      CacheLength(config, hash, caches, inputs, times);
      if inputs[n - 1] == x && ttl > 0 && !Arrives(inputs, x, n - 1) && !Collision(h, Jsons(json, inputs)) {
        FirstArrivalActs(config, hash, h, json, caches, inputs, times, n - 1);
      }
    }
  }

  lemma {:induction false} CachedArrived(config: GossipConfig, hash: ContentHash, caches: seq<Seen>,
                                         inputs: seq<GossipMessage>, times: seq<u64>, d: Digest, n: nat)
    requires Handled(config, hash, caches, inputs, times) && n <= |inputs| && d in caches[n]
    ensures exists k :: 0 <= k < n && hash(inputs[k]) == d
  {
    hide Handled;
    CacheLength(config, hash, caches, inputs, times);
    HandledStep(config, hash, caches, inputs, times, n - 1, d);
    if d in caches[n - 1] {
      CachedArrived(config, hash, caches, inputs, times, d, n - 1);
    }
  }

  lemma FirstArrivalActs(config: GossipConfig, hash: ContentHash, h: Hash, json: GossipMessage -> ByteString,
                         caches: seq<Seen>, inputs: seq<GossipMessage>, times: seq<u64>, k: nat)
    requires DigestsContent(hash, h, json) && Handled(config, hash, caches, inputs, times) && k < |inputs|
    requires inputs[k].ttl > 0 && !Arrives(inputs, inputs[k], k) && !Collision(h, Jsons(json, inputs))
    ensures Acts(hash, caches, inputs, k)
  {
    hide Handled;
    CacheLength(config, hash, caches, inputs, times);
    if hash(inputs[k]) in caches[k] {
      CachedArrived(config, hash, caches, inputs, times, hash(inputs[k]), k);
    }
  }

  /** How often the node acted on the payload of `m` with 1 up to `limit` hops to go. */
  ghost function Repeats(hash: ContentHash, caches: seq<Seen>, inputs: seq<GossipMessage>, m: GossipMessage,
                         limit: Ttl): nat
    requires |caches| == |inputs| + 1
  {
    if limit == 0 then 0
    else
      Repeats(hash, caches, inputs, m, limit - 1) + TimesActed(hash, caches, inputs, WithTtl(m, limit), |inputs|)
  }

  ghost function TimesActed(hash: ContentHash, caches: seq<Seen>, inputs: seq<GossipMessage>, x: GossipMessage,
                            n: nat): nat
    requires |caches| == |inputs| + 1 && n <= |inputs|
  {
    if n == 0 then 0
    else
      TimesActed(hash, caches, inputs, x, n - 1) +
      (if Acts(hash, caches, inputs, n - 1) && inputs[n - 1] == x then 1 else 0)
  }

  lemma {:induction false} ActedAtMostEntered(hash: ContentHash, caches: seq<Seen>, inputs: seq<GossipMessage>,
                                              x: GossipMessage, n: nat)
    requires |caches| == |inputs| + 1 && n <= |inputs|
    ensures TimesActed(hash, caches, inputs, x, n) <= Entries(hash, caches, inputs, hash(x), n)
    ensures x.ttl == 0 ==> TimesActed(hash, caches, inputs, x, n) == 0
  {
    if n > 0 {
      ActedAtMostEntered(hash, caches, inputs, x, n - 1);
    }
  }

  /** The evictions of the digests of that payload. */
  ghost function PayloadEvictions(hash: ContentHash, caches: seq<Seen>, inputs: seq<GossipMessage>, m: GossipMessage,
                                  limit: Ttl): nat
    requires |caches| == |inputs| + 1
  {
    if limit == 0 then 0
    else
      PayloadEvictions(hash, caches, inputs, m, limit - 1) +
      Evictions(hash, caches, inputs, hash(WithTtl(m, limit)), |inputs|)
  }

  /** A payload is acted on at most once per hop count, and once more for each eviction; with
      room for every digest that arrives, at most `limit` times. */
  lemma {:induction false} RepeatsBounded(config: GossipConfig, hash: ContentHash, caches: seq<Seen>,
                                          inputs: seq<GossipMessage>, times: seq<u64>, m: GossipMessage, limit: Ttl)
    requires Handled(config, hash, caches, inputs, times)
    ensures Repeats(hash, caches, inputs, m, limit) <= limit + PayloadEvictions(hash, caches, inputs, m, limit)
    ensures |DigestsOf(hash, inputs)| <= config.seenCacheSize ==> Repeats(hash, caches, inputs, m, limit) <= limit
    decreases limit
  {
    hide Handled, Entries, Evictions, TimesActed, DigestsOf;
    CacheLength(config, hash, caches, inputs, times);
    if limit > 0 {
      var x, n := WithTtl(m, limit), |inputs|;
      RepeatsBounded(config, hash, caches, inputs, times, m, limit - 1);
      ActedAtMostEntered(hash, caches, inputs, x, n);
      EntriesConserved(config, hash, caches, inputs, times, hash(x), n);
      if |DigestsOf(hash, inputs)| <= config.seenCacheSize {
        NothingEvicted(config, hash, caches, inputs, times, hash(x), n);
      }
    }
  }

  // ---- A network ----

  datatype Envelope = Envelope(source: PeerId, destination: PeerId, message: GossipMessage)

  datatype Node = Node(config: GossipConfig, seen: Seen, peers: seq<PeerInfo>)

  datatype Network = Network(nodes: map<PeerId, Node>, inFlight: seq<Envelope>)

  function Mail(source: PeerId, m: GossipMessage, targets: seq<PeerId>): seq<Envelope> {
    if targets == [] then []
    else Mail(source, m, targets[..|targets| - 1]) + [Envelope(source, targets[|targets| - 1], m)]
  }

  function Sent(source: PeerId, actions: seq<GossipAction>): seq<Envelope> {
    if actions == [] then []
    else
      var rest, last := Sent(source, actions[..|actions| - 1]), actions[|actions| - 1];
      if last.Forward? then rest + Mail(source, last.message, last.targets) else rest
  }

  datatype Event = Delivery(index: nat, now: u64) | Elsewhere

  /** Delivering any in-flight envelope; one addressed to nobody is lost. */
  ghost predicate Deliver(hash: ContentHash, a: Network, index: nat, now: u64, b: Network) {
    && index < |a.inFlight|
    && var e := a.inFlight[index];
       var rest := a.inFlight[..index] + a.inFlight[index + 1..];
       if e.destination !in a.nodes then b == Network(a.nodes, rest)
       else
         var node := a.nodes[e.destination];
         exists seen' ::
           && SeenAfter(node.config, hash, node.seen, e.message, now, seen')
           && b == Network(a.nodes[e.destination := node.(seen := seen')],
                           rest + Sent(e.destination,
                                       Actions(node.config, hash, node.seen, node.peers, e.source, e.message)))
  }

  /** Between deliveries peers come and go and caches may change in any way; nothing is sent. */
  ghost predicate Step(hash: ContentHash, a: Network, e: Event, b: Network) {
    match e
    case Delivery(index, now) => Deliver(hash, a, index, now, b)
    case Elsewhere =>
      && b.inFlight == a.inFlight && b.nodes.Keys == a.nodes.Keys
      && forall id :: id in a.nodes ==> b.nodes[id].config == a.nodes[id].config
  }

  ghost predicate Execution(hash: ContentHash, states: seq<Network>, events: seq<Event>) {
    && |states| == |events| + 1
    && forall k :: 0 <= k < |events| ==> Step(hash, states[k], events[k], states[k + 1])
  }

  function Deliveries(events: seq<Event>): nat {
    if events == [] then 0
    else Deliveries(events[..|events| - 1]) + (if events[|events| - 1].Delivery? then 1 else 0)
  }

  // ---- The measure ----

  function Power(base: nat, n: nat): nat { if n == 0 then 1 else base * Power(base, n - 1) }

  /** 1 + f + ... + f^n. */
  function Geometric(f: nat, n: nat): (g: nat)
    ensures g >= 1
  {
    if n == 0 then 1 else Geometric(f, n - 1) + Power(f, n)
  }

  lemma Distribute(f: nat, a: nat, b: nat)
    ensures f * (a + b) == f * a + f * b
  {}

  lemma {:induction false} GeometricUnfold(f: nat, n: nat)
    ensures Geometric(f, n + 1) == 1 + f * Geometric(f, n)
  {
    if n > 0 {
      GeometricUnfold(f, n - 1);
      Distribute(f, Geometric(f, n - 1), Power(f, n));
    } else {
      assert Power(f, 0) == 1 && Power(f, 1) == f * Power(f, 0);
    }
  }

  /** The most deliveries a message with `ttl` hops to go can cause, its own included. */
  function Cost(f: nat, ttl: Ttl): (c: nat)
    ensures c >= 1
  {
    if ttl <= 1 then 1 else Geometric(f, ttl - 1)
  }

  lemma CostUnfold(f: nat, ttl: Ttl)
    requires ttl > 1
    ensures Cost(f, ttl) == 1 + f * Cost(f, ttl - 1)
  {
    GeometricUnfold(f, ttl - 2);
  }

  function Weight(f: nat, mail: seq<Envelope>): nat {
    if mail == [] then 0 else Weight(f, mail[..|mail| - 1]) + Cost(f, mail[|mail| - 1].message.ttl)
  }

  lemma {:induction false} WeightAppend(f: nat, a: seq<Envelope>, b: seq<Envelope>)
    ensures Weight(f, a + b) == Weight(f, a) + Weight(f, b)
  {
    hide Cost;
    if b == [] {
      assert a + b == a;
    } else {
      var n := |b| - 1;
      WeightAppend(f, a, b[..n]);
      assert (a + b)[..|a + b| - 1] == a + b[..n] && (a + b)[|a + b| - 1] == b[n];
    }
  }

  lemma WeightTake(f: nat, mail: seq<Envelope>, i: nat)
    requires i < |mail|
    ensures Weight(f, mail) == Weight(f, mail[..i] + mail[i + 1..]) + Cost(f, mail[i].message.ttl)
  {
    hide Cost;
    WeightAppend(f, mail[..i], mail[i + 1..]);
    WeightAppend(f, mail[..i], [mail[i]]);
    WeightAppend(f, mail[..i] + [mail[i]], mail[i + 1..]);
    assert mail == mail[..i] + [mail[i]] + mail[i + 1..];
    assert [mail[i]][..0] == [];
  }

  lemma {:induction false} WeightAtLeast(f: nat, mail: seq<Envelope>)
    ensures Weight(f, mail) >= |mail|
  {
    hide Cost;
    if mail != [] {
      WeightAtLeast(f, mail[..|mail| - 1]);
    }
  }

  lemma {:induction false} MailWeight(f: nat, source: PeerId, m: GossipMessage, targets: seq<PeerId>)
    ensures Weight(f, Mail(source, m, targets)) == |targets| * Cost(f, m.ttl)
  {
    hide Cost;
    if targets != [] {
      var n := |targets| - 1;
      MailWeight(f, source, m, targets[..n]);
      var mail := Mail(source, m, targets);
      assert mail[..|mail| - 1] == Mail(source, m, targets[..n]);
    }
  }

  lemma MulMonotone(a: nat, b: nat, c: nat)
    requires a <= b
    ensures a * c <= b * c
  {}

  /** Handling a message sends out strictly less weight than was delivered. */
  lemma HandlingLosesWeight(f: nat, config: GossipConfig, hash: ContentHash, seen: Seen, peers: seq<PeerInfo>,
                            sender: PeerId,
                            self: PeerId, m: GossipMessage)
    requires config.fanout <= f
    ensures Weight(f, Sent(self, Actions(config, hash, seen, peers, sender, m))) + 1 <= Cost(f, m.ttl)
  {
    hide Cost, Targets, Mail;
    var actions := Actions(config, hash, seen, peers, sender, m);
    var targets := Targets(peers, config.fanout, Some(sender));
    assert actions[..1][..0] == [] && Sent(self, actions[..1]) == [];
    if |actions| == 2 {
      var forwarded := DecrementTtl(m).value;
      assert Sent(self, actions) == Mail(self, forwarded, targets);
      MailWeight(f, self, forwarded, targets);
      TargetsCorrect(peers, config.fanout, Some(sender));
      MulMonotone(|targets|, f, Cost(f, m.ttl - 1));
      CostUnfold(f, m.ttl);
    } else {
      assert actions[..1] == actions;
    }
  }

  ghost predicate FanoutAtMost(f: nat, net: Network) {
    forall id :: id in net.nodes ==> net.nodes[id].config.fanout <= f
  }

  lemma DeliveryLosesWeight(f: nat, hash: ContentHash, a: Network, index: nat, now: u64, b: Network)
    requires FanoutAtMost(f, a) && Deliver(hash, a, index, now, b)
    ensures FanoutAtMost(f, b) && Weight(f, b.inFlight) + 1 <= Weight(f, a.inFlight)
  {
    hide Cost, Weight, Sent, Actions, SeenAfter;
    var e := a.inFlight[index];
    var rest := a.inFlight[..index] + a.inFlight[index + 1..];
    WeightTake(f, a.inFlight, index);
    if e.destination in a.nodes {
      var node := a.nodes[e.destination];
      var sent := Sent(e.destination, Actions(node.config, hash, node.seen, node.peers, e.source, e.message));
      HandlingLosesWeight(f, node.config, hash, node.seen, node.peers, e.source, e.destination, e.message);
      WeightAppend(f, rest, sent);
    }
  }

  /** Termination of gossip: with no new broadcast, every delivery order, whatever the caches
      hold or evict and however peers change, makes at most the sum over the envelopes first in
      flight of 1 + f + ... + f^(ttl-1) deliveries, less what is still to be delivered. */
  lemma {:induction false} GossipDrains(f: nat, hash: ContentHash, states: seq<Network>, events: seq<Event>)
    requires Execution(hash, states, events) && FanoutAtMost(f, states[0])
    ensures Deliveries(events) + Weight(f, states[|events|].inFlight) <= Weight(f, states[0].inFlight)
    ensures Deliveries(events) + |states[|events|].inFlight| <= Weight(f, states[0].inFlight)
    ensures FanoutAtMost(f, states[|events|])
    decreases |events|
  {
    hide Deliver, Weight;
    WeightAtLeast(f, states[|events|].inFlight);
    if events != [] {
      var n := |events| - 1;
      GossipDrains(f, hash, states[..n + 1], events[..n]);
      assert Step(hash, states[n], events[n], states[n + 1]);
      if events[n].Delivery? {
        DeliveryLosesWeight(f, hash, states[n], events[n].index, events[n].now, states[n + 1]);
      }
    }
  }

  /** As long as anything is in flight, any envelope of it can be delivered. */
  lemma DeliveryEnabled(hash: ContentHash, a: Network, index: nat, now: u64) returns (b: Network)
    requires index < |a.inFlight|
    ensures Deliver(hash, a, index, now, b)
  {
    hide Sent, Actions, Evicted, Lists, ByAge;
    var e := a.inFlight[index];
    var rest := a.inFlight[..index] + a.inFlight[index + 1..];
    if e.destination in a.nodes {
      var node := a.nodes[e.destination];
      var after := AfterMarking(node.config, hash, node.seen, e.message, now);
      b := Network(a.nodes[e.destination := node.(seen := after)],
                   rest + Sent(e.destination, Actions(node.config, hash, node.seen, node.peers, e.source, e.message)));
    } else {
      b := Network(a.nodes, rest);
    }
  }

  lemma AfterMarking(config: GossipConfig, hash: ContentHash, seen: Seen, m: GossipMessage, now: u64)
    returns (after: Seen)
    ensures SeenAfter(config, hash, seen, m, now, after)
  {
    hide Evicted, Lists, ByAge;
    var marked := seen[hash(m) := now];
    if Rejects(hash, seen, m) {
      after := seen;
    } else if |marked| <= config.seenCacheSize {
      EvictedNothing(config.seenCacheSize, marked);
      after := marked;
    } else {
      var s := ListingExists(marked);
      DropOldest(config.seenCacheSize, s, marked);
      after := marked - Digests(s[..|s| - config.seenCacheSize * 3 / 4]);
    }
  }

  /** What one broadcast puts in flight costs at most f + f^2 + ... + f^ttl deliveries. */
  lemma BroadcastCost(f: nat, config: GossipConfig, peers: seq<PeerInfo>, self: PeerId, m: GossipMessage)
    requires config.fanout <= f && m.ttl >= 1
    ensures Weight(f, Mail(self, m, Targets(peers, config.fanout, None))) + 1 <= Geometric(f, m.ttl)
  {
    hide Weight, Targets, Mail;
    var targets := Targets(peers, config.fanout, None);
    MailWeight(f, self, m, targets);
    TargetsCorrect(peers, config.fanout, None);
    MulMonotone(|targets|, f, Cost(f, m.ttl));
    GeometricUnfold(f, m.ttl - 1);
    assert Geometric(f, 0) == 1;
  }
}
