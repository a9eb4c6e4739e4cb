/** Coverage: a broadcast reaches every node within its hop count. */
module GossipCoverage {
  import opened Bytes
  import opened Transactions
  import opened Gossip

  // ---- What one delivery does ----

  lemma {:induction false} MailExact(source: PeerId, m: GossipMessage, targets: seq<PeerId>, e: Envelope)
    ensures e in Mail(source, m, targets) <==> e.source == source && e.message == m && e.destination in targets
  {
    if targets != [] {
      MailExact(source, m, targets[..|targets| - 1], e);
      assert targets == targets[..|targets| - 1] + [targets[|targets| - 1]];
    }
  }

  /** A node sends on exactly what it accepts with more than one hop to go: with one hop less,
      to the first `fanout` peers other than the sender. */
  lemma SentExact(config: GossipConfig, hash: ContentHash, seen: Seen, peers: seq<PeerInfo>, sender: PeerId,
                  self: PeerId, x: GossipMessage, e: Envelope)
    ensures e in Sent(self, Actions(config, hash, seen, peers, sender, x)) <==>
              && !Rejects(hash, seen, x) && x.ttl > 1 && e.source == self
              && e.message == WithTtl(x, x.ttl - 1) && e.destination in Targets(peers, config.fanout, Some(sender))
  {
    hide Targets, Mail;
    var actions := Actions(config, hash, seen, peers, sender, x);
    var targets := Targets(peers, config.fanout, Some(sender));
    HopTaken(x);
    assert actions[..1][..0] == [] && Sent(self, actions[..1]) == [];
    if |actions| == 2 {
      MailExact(self, WithTtl(x, x.ttl - 1), targets, e);
      assert Sent(self, actions) == Mail(self, WithTtl(x, x.ttl - 1), targets);
    } else {
      assert actions[..1] == actions;
    }
  }

  // ---- Runs of deliveries ----

  ghost predicate Run(hash: ContentHash, states: seq<Network>, events: seq<Event>) {
    |states| == |events| + 1 && Execution(hash, states, events) && forall k :: 0 <= k < |events| ==> events[k].Delivery?
  }

  lemma RunStep(hash: ContentHash, states: seq<Network>, events: seq<Event>, k: nat)
    requires Run(hash, states, events) && k < |events|
    ensures |states| == |events| + 1 && events[k].Delivery? && events[k].index < |states[k].inFlight|
    ensures Deliver(hash, states[k], events[k].index, events[k].now, states[k + 1])
  {
    hide Deliver;
    assert Step(hash, states[k], events[k], states[k + 1]);
    DeliverIndex(hash, states[k], events[k].index, events[k].now, states[k + 1]);
  }

  lemma DeliverIndex(hash: ContentHash, a: Network, index: nat, now: u64, b: Network)
    requires Deliver(hash, a, index, now, b)
    ensures index < |a.inFlight|
  {}

  /** The envelope that event `k` delivers. */
  ghost function Delivered(hash: ContentHash, states: seq<Network>, events: seq<Event>, k: nat): Envelope
    requires Run(hash, states, events) && k < |events|
  {
    RunStep(hash, states, events, k);
    states[k].inFlight[events[k].index]
  }

  /** Event `k` delivers `x` to `id`, which accepts it. */
  ghost predicate Accepts(hash: ContentHash, states: seq<Network>, events: seq<Event>, id: PeerId, x: GossipMessage,
                          k: nat)
    requires Run(hash, states, events)
  {
    && k < |events| && Delivered(hash, states, events, k).destination == id
    && Delivered(hash, states, events, k).message == x
    && id in states[k].nodes && !Rejects(hash, states[k].nodes[id].seen, x)
  }

  /** Some event before the n-th delivers `x` to `id`, which accepts it. */
  ghost predicate Acted(hash: ContentHash, states: seq<Network>, events: seq<Event>, id: PeerId, x: GossipMessage,
                        n: nat)
    requires Run(hash, states, events)
  {
    exists k :: 0 <= k < n && Accepts(hash, states, events, id, x, k)
  }

  /** Each cache has room for one more digest per delivery. */
  ghost predicate Roomy(net: Network, deliveries: nat) {
    forall id :: id in net.nodes ==> |net.nodes[id].seen| + deliveries <= net.nodes[id].config.seenCacheSize
  }

  /** `f` is what the receiver of `e` sends on. */
  ghost predicate SentOn(hash: ContentHash, a: Network, e: Envelope, f: Envelope) {
    && e.destination in a.nodes && !Rejects(hash, a.nodes[e.destination].seen, e.message) && e.message.ttl > 1
    && f.source == e.destination && f.message == WithTtl(e.message, e.message.ttl - 1)
    && var node := a.nodes[e.destination];
       f.destination in Targets(node.peers, node.config.fanout, Some(e.source))
  }

  lemma RestMembers(mail: seq<Envelope>, index: nat)
    requires index < |mail|
    ensures var rest := mail[..index] + mail[index + 1..];
            && (forall e :: e in rest ==> e in mail) && (forall e :: e in mail && e != mail[index] ==> e in rest)
  {
    var rest := mail[..index] + mail[index + 1..];
    assert mail == mail[..index] + [mail[index]] + mail[index + 1..];
    forall e | e in mail && e != mail[index]
      ensures e in rest
    {
      var i :| 0 <= i < |mail| && mail[i] == e;
      assert if i < index then rest[i] == e else rest[i - 1] == e;
    }
  }

  /** One delivery takes its envelope out of flight and, when it is accepted with more than one hop to go, puts in
      one with a hop less to each of the receiver's first `fanout` peers other than the sender. */
  lemma DeliveryForwards(hash: ContentHash, a: Network, index: nat, now: u64, b: Network)
    requires Deliver(hash, a, index, now, b)
    ensures index < |a.inFlight|
    ensures forall f :: f in b.inFlight <==>
              f in a.inFlight[..index] + a.inFlight[index + 1..] || SentOn(hash, a, a.inFlight[index], f)
  {
    hide Sent, Actions, Targets, SeenAfter;
    var e := a.inFlight[index];
    if e.destination in a.nodes {
      var node := a.nodes[e.destination];
      forall f
        ensures f in Sent(e.destination, Actions(node.config, hash, node.seen, node.peers, e.source, e.message)) <==>
                SentOn(hash, a, e, f)
      {
        SentExact(node.config, hash, node.seen, node.peers, e.source, e.destination, e.message, f);
      }
    }
  }

  lemma MailKept(hash: ContentHash, a: Network, index: nat, now: u64, b: Network)
    requires Deliver(hash, a, index, now, b)
    ensures index < |a.inFlight|
    ensures forall e :: e in b.inFlight ==> e in a.inFlight || SentOn(hash, a, a.inFlight[index], e)
    ensures forall e :: e in a.inFlight && e != a.inFlight[index] ==> e in b.inFlight
    ensures forall e :: SentOn(hash, a, a.inFlight[index], e) ==> e in b.inFlight
  {
    hide Deliver, SentOn;
    DeliveryForwards(hash, a, index, now, b);
    RestMembers(a.inFlight, index);
  }

  /** One delivery with room: nodes and peers stay, and caches grow by the digest accepted. */
  lemma CachesGrow(hash: ContentHash, a: Network, index: nat, now: u64, b: Network, room: nat)
    requires Deliver(hash, a, index, now, b) && Roomy(a, room + 1)
    ensures index < |a.inFlight| && b.nodes.Keys == a.nodes.Keys && Roomy(b, room)
    ensures forall id :: id in a.nodes ==> Grown(hash, a.nodes[id], a.inFlight[index], id, b.nodes[id])
  {
    hide Sent, Actions, SeenAfter, Grown;
    var e := a.inFlight[index];
    assert b.nodes.Keys == a.nodes.Keys;
    forall id | id in a.nodes
      ensures Grown(hash, a.nodes[id], e, id, b.nodes[id])
      ensures |b.nodes[id].seen| + room <= b.nodes[id].config.seenCacheSize
    {
      if id == e.destination {
        var seen' :| SeenAfter(a.nodes[id].config, hash, a.nodes[id].seen, e.message, now, seen') &&
          b.nodes[id] == a.nodes[id].(seen := seen');
        MarkedRoom(a.nodes[id].config, hash, a.nodes[id].seen, e.message, now, seen');
        NodeGrown(hash, a.nodes[id], e, id, b.nodes[id]);
      } else {
        NodeGrown(hash, a.nodes[id], e, id, b.nodes[id]);
      }
    }
  }

  /** Delivering `e` changes node `id` only by the digest it accepts. */
  ghost predicate Grown(hash: ContentHash, before: Node, e: Envelope, id: PeerId, after: Node) {
    && after.config == before.config && after.peers == before.peers
    && after.seen.Keys == before.seen.Keys +
       (if id == e.destination && !Rejects(hash, before.seen, e.message) then {hash(e.message)} else {})
  }

  lemma NodeGrown(hash: ContentHash, before: Node, e: Envelope, id: PeerId, after: Node)
    requires after.config == before.config && after.peers == before.peers
    requires after.seen.Keys == before.seen.Keys +
             (if id == e.destination && !Rejects(hash, before.seen, e.message) then {hash(e.message)} else {})
    ensures Grown(hash, before, e, id, after)
  {}

  lemma MarkedRoom(config: GossipConfig, hash: ContentHash, seen: Seen, m: GossipMessage, now: u64, after: Seen)
    requires SeenAfter(config, hash, seen, m, now, after) && |seen| + 1 <= config.seenCacheSize
    ensures after.Keys == seen.Keys + (if Rejects(hash, seen, m) then {} else {hash(m)}) && |after| <= |seen| + 1
  {
    assert |seen.Keys| == |seen| && |after.Keys| == |after|;
    var marked := seen[hash(m) := now];
    assert |marked.Keys| == |marked| && marked.Keys == seen.Keys + {hash(m)};
  }

  // ---- Invariants of a run with room ----

  /** Nodes, configurations and peers never change, and room remains for the deliveries to come. */
  lemma {:induction false} SameNetwork(hash: ContentHash, states: seq<Network>, events: seq<Event>, n: nat)
    requires Run(hash, states, events) && n <= |events| && Roomy(states[0], |events|)
    ensures states[n].nodes.Keys == states[0].nodes.Keys && Roomy(states[n], |events| - n)
    ensures forall id :: id in states[0].nodes ==>
              && states[n].nodes[id].config == states[0].nodes[id].config
              && states[n].nodes[id].peers == states[0].nodes[id].peers
  {
    hide Deliver, Roomy, Rejects;
    if n > 0 {
      SameNetwork(hash, states, events, n - 1);
      RunStep(hash, states, events, n - 1);
      CachesGrow(hash, states[n - 1], events[n - 1].index, events[n - 1].now, states[n], |events| - n);
    }
  }

  /** `d` is the digest of something `id` accepted before `n`. */
  ghost predicate Marked(hash: ContentHash, states: seq<Network>, events: seq<Event>, id: PeerId, d: Digest, n: nat)
    requires Run(hash, states, events)
  {
    exists k :: 0 <= k < n && k < |events| && hash(Delivered(hash, states, events, k).message) == d &&
      Accepts(hash, states, events, id, Delivered(hash, states, events, k).message, k)
  }

  /** A digest is cached because it was at the start or because its message was accepted since. */
  lemma {:induction false} CachedAccepted(hash: ContentHash, states: seq<Network>, events: seq<Event>, id: PeerId,
                                          d: Digest, n: nat)
    requires Run(hash, states, events) && n <= |events| && Roomy(states[0], |events|)
    requires id in states[n].nodes && d in states[n].nodes[id].seen
    ensures id in states[0].nodes && (d in states[0].nodes[id].seen || Marked(hash, states, events, id, d, n))
  {
    hide Deliver, Roomy;
    if n > 0 {
      SameNetwork(hash, states, events, n - 1);
      RunStep(hash, states, events, n - 1);
      CachesGrow(hash, states[n - 1], events[n - 1].index, events[n - 1].now, states[n], |events| - n);
      if d in states[n - 1].nodes[id].seen {
        CachedAccepted(hash, states, events, id, d, n - 1);
      } else {
        assert Accepts(hash, states, events, id, Delivered(hash, states, events, n - 1).message, n - 1);
      }
    }
  }

  /** What is in flight was at the start, or its source accepted it with one hop more. */
  lemma {:induction false} SentAfterAccepting(hash: ContentHash, states: seq<Network>, events: seq<Event>, e: Envelope,
                                              n: nat)
    requires Run(hash, states, events) && n <= |events| && Roomy(states[0], |events|) && e in states[n].inFlight
    ensures e in states[0].inFlight ||
            (e.message.ttl < 255 && Acted(hash, states, events, e.source, WithTtl(e.message, e.message.ttl + 1), n))
  {
    hide Deliver, Roomy, Rejects, WithTtl;
    if n > 0 {
      SameNetwork(hash, states, events, n - 1);
      RunStep(hash, states, events, n - 1);
      MailKept(hash, states[n - 1], events[n - 1].index, events[n - 1].now, states[n]);
      if e in states[n - 1].inFlight {
        SentAfterAccepting(hash, states, events, e, n - 1);
      } else {
        var x := Delivered(hash, states, events, n - 1).message;
        HopTaken(x);
        assert Accepts(hash, states, events, e.source, x, n - 1);
      }
    }
  }

  /** What is in flight and gone later was delivered between. */
  lemma {:induction false} GoneDelivered(hash: ContentHash, states: seq<Network>, events: seq<Event>, e: Envelope,
                                         from: nat, n: nat) returns (k: nat)
    requires Run(hash, states, events) && from <= n <= |events| && Roomy(states[0], |events|)
    requires e in states[from].inFlight && e !in states[n].inFlight
    ensures from <= k < n && Delivered(hash, states, events, k) == e
  {
    hide Deliver, Roomy, Rejects;
    SameNetwork(hash, states, events, n - 1);
    RunStep(hash, states, events, n - 1);
    MailKept(hash, states[n - 1], events[n - 1].index, events[n - 1].now, states[n]);
    k := n - 1;
    if e in states[n - 1].inFlight {
    } else {
      k := GoneDelivered(hash, states, events, e, from, n - 1);
    }
  }

  // ---- Edges ----

  /** An id that is neither `id` nor any peer's, being longer. */
  ghost function Stranger(peers: seq<PeerInfo>, id: PeerId): (z: PeerId)
    ensures |z| > |id| && forall i :: 0 <= i < |peers| ==> |z| > |peers[i].peerId|
  {
    if peers == [] then id + [0]
    else
      var rest := Stranger(peers[..|peers| - 1], id);
      rest + peers[|peers| - 1].peerId + [0]
  }

  lemma {:induction false} UnconnectedSender(peers: seq<PeerInfo>, fanout: nat, sender: PeerId)
    requires forall i :: 0 <= i < |peers| ==> peers[i].peerId != sender
    ensures Targets(peers, fanout, Some(sender)) == Targets(peers, fanout, None)
  {
    if peers != [] {
      UnconnectedSender(peers[..|peers| - 1], fanout, sender);
    }
  }

  /** The peers that are targets whoever the sender is are exactly the first `fanout`: the next peer is left out
      when the sender is not connected. */
  lemma SureTargets(peers: seq<PeerInfo>, fanout: nat, id: PeerId)
    ensures (forall sender :: sender != id ==> id in Targets(peers, fanout, Some(sender))) <==>
            id in Targets(peers, fanout, None)
  {
    if id in Targets(peers, fanout, None) {
      forall sender | sender != id
        ensures id in Targets(peers, fanout, Some(sender))
      {
        SureTarget(peers, fanout, id, sender);
      }
    } else {
      UnconnectedSender(peers, fanout, Stranger(peers, id));
    }
  }

  // ---- Coverage ----

  /** The JSON texts of all messages delivered. */
  ghost function DeliveredJsons(hash: ContentHash, json: GossipMessage -> ByteString, states: seq<Network>,
                                events: seq<Event>): set<ByteString>
    requires Run(hash, states, events)
  {
    set k | 0 <= k < |events| :: json(Delivered(hash, states, events, k).message)
  }

  /** Whatever is in flight to a node that has not seen it is acted on there once it is delivered, or before. */
  lemma InFlightActs(hash: ContentHash, h: Hash, json: GossipMessage -> ByteString, states: seq<Network>,
                     events: seq<Event>, e: Envelope, from: nat)
    requires DigestsContent(hash, h, json) && Run(hash, states, events) && Roomy(states[0], |events|)
    requires from <= |events| && e in states[from].inFlight && e !in states[|events|].inFlight
    requires e.destination in states[0].nodes && hash(e.message) !in states[0].nodes[e.destination].seen
    requires e.message.ttl > 0 && !Collision(h, DeliveredJsons(hash, json, states, events))
    ensures Acted(hash, states, events, e.destination, e.message, |events|)
  {
    hide Deliver, Roomy, Collision, Execution;
    var k := GoneDelivered(hash, states, events, e, from, |events|);
    SameNetwork(hash, states, events, k);
    if hash(e.message) in states[k].nodes[e.destination].seen {
      CachedAccepted(hash, states, events, e.destination, hash(e.message), k);
      var j :| 0 <= j < k && hash(Delivered(hash, states, events, j).message) == hash(e.message) &&
        Accepts(hash, states, events, e.destination, Delivered(hash, states, events, j).message, j);
      NoCollision(h, DeliveredJsons(hash, json, states, events), json(e.message),
                  json(Delivered(hash, states, events, j).message));
    } else {
      assert Accepts(hash, states, events, e.destination, e.message, k);
    }
  }

  /** One of the first `fanout` peers of `p`, and itself in the network. */
  ghost predicate Edge(net: Network, p: PeerId, q: PeerId) {
    && p in net.nodes && q in net.nodes && q in Targets(net.nodes[p].peers, net.nodes[p].config.fanout, None)
  }

  ghost predicate Path(net: Network, path: seq<PeerId>) {
    path != [] && forall i :: 0 <= i < |path| - 1 ==> Edge(net, path[i], path[i + 1])
  }

  /** `origin` broadcasts `m`: its cache marks it and its targets are sent it. */
  ghost predicate Broadcasts(hash: ContentHash, a: Network, origin: PeerId, m: GossipMessage, now: u64, b: Network) {
    && origin in a.nodes
    && var node := a.nodes[origin];
       b == Network(a.nodes[origin := node.(seen := node.seen[hash(m) := now])],
                    a.inFlight + Mail(origin, m, Targets(node.peers, node.config.fanout, None)))
  }

  /** No node has cached the payload of `m` and none is in flight, with whatever hop count. */
  ghost predicate Unknown(hash: ContentHash, net: Network, m: GossipMessage) {
    && (forall id, t: Ttl :: id in net.nodes ==> hash(WithTtl(m, t)) !in net.nodes[id].seen)
    && (forall e, t: Ttl :: e in net.inFlight ==> e.message != WithTtl(m, t))
  }

  /** What a broadcast leaves behind: mail to each of the first `fanout` peers, the payload sent by nobody else
      and cached nowhere else. */
  lemma AfterBroadcast(hash: ContentHash, a: Network, origin: PeerId, m: GossipMessage, now: u64, b: Network)
    requires Broadcasts(hash, a, origin, m, now, b) && Unknown(hash, a, m)
    ensures origin in b.nodes
    ensures forall q :: Edge(b, origin, q) ==> Envelope(origin, q, m) in b.inFlight
    ensures forall e, t: Ttl :: e in b.inFlight && e.message == WithTtl(m, t) ==> e.source == origin
    ensures forall id, t: Ttl :: id in b.nodes && id != origin ==> hash(WithTtl(m, t)) !in b.nodes[id].seen
  {
    hide Targets, Mail, WithTtl;
    var node := a.nodes[origin];
    forall e
      ensures e in Mail(origin, m, Targets(node.peers, node.config.fanout, None)) <==>
                && e.source == origin && e.message == m
                && e.destination in Targets(node.peers, node.config.fanout, None)
    {
      MailExact(origin, m, Targets(node.peers, node.config.fanout, None), e);
    }
  }

  /** The origin, or a node that acted on the payload with at least `hops` hops to go. */
  ghost predicate Reached(hash: ContentHash, states: seq<Network>, events: seq<Event>, origin: PeerId, m: GossipMessage,
                          id: PeerId, hops: int)
    requires Run(hash, states, events)
  {
    id == origin || exists t: Ttl :: t >= hops && Acted(hash, states, events, id, WithTtl(m, t), |events|)
  }

  /** The situation of the theorem: the whole run after one broadcast, until nothing is in flight. */
  ghost predicate Drained(hash: ContentHash, a: Network, origin: PeerId, m: GossipMessage, now: u64,
                          states: seq<Network>, events: seq<Event>) {
    && Run(hash, states, events) && Roomy(states[0], |events|) && Unknown(hash, a, m)
    && Broadcasts(hash, a, origin, m, now, states[0]) && states[|events|].inFlight == []
  }

  lemma OriginForwards(hash: ContentHash, h: Hash, json: GossipMessage -> ByteString, a: Network, origin: PeerId,
                       m: GossipMessage, now: u64, states: seq<Network>, events: seq<Event>, q: PeerId)
    requires DigestsContent(hash, h, json) && Drained(hash, a, origin, m, now, states, events)
    requires Edge(states[0], origin, q) && m.ttl > 0 && !Collision(h, DeliveredJsons(hash, json, states, events))
    ensures Reached(hash, states, events, origin, m, q, m.ttl)
  {
    hide Execution, Roomy, Unknown, Broadcasts, WithTtl, Acted, Collision, Rejects;
    AfterBroadcast(hash, a, origin, m, now, states[0]);
    HopTaken(m);
    if q != origin {
      InFlightActs(hash, h, json, states, events, Envelope(origin, q, m), 0);
    }
  }

  lemma WhenActed(hash: ContentHash, states: seq<Network>, events: seq<Event>, id: PeerId, x: GossipMessage, n: nat)
    returns (k: nat)
    requires Run(hash, states, events) && Acted(hash, states, events, id, x, n)
    ensures k < n && Accepts(hash, states, events, id, x, k)
  {
    k :| 0 <= k < n && Accepts(hash, states, events, id, x, k);
  }

  /** Whoever sent the payload is the origin or acted on it with one hop more. */
  lemma SourceReached(hash: ContentHash, a: Network, origin: PeerId, m: GossipMessage, now: u64, states: seq<Network>,
                      events: seq<Event>, t: Ttl, k: nat)
    requires Drained(hash, a, origin, m, now, states, events)
    requires k < |events| && Delivered(hash, states, events, k).message == WithTtl(m, t)
    ensures Reached(hash, states, events, origin, m, Delivered(hash, states, events, k).source, t + 1)
  {
    hide Deliver, Roomy, Unknown, Broadcasts, WithTtl, Rejects, Targets, Execution, Accepts;
    var e := Delivered(hash, states, events, k);
    AfterBroadcast(hash, a, origin, m, now, states[0]);
    RunStep(hash, states, events, k);
    SentAfterAccepting(hash, states, events, e, k);
    HopTaken(m);
    if e !in states[0].inFlight {
      assert Acted(hash, states, events, e.source, WithTtl(m, t + 1), |events|);
    }
  }

  /** Accepting with two or more hops to go puts the payload in flight to each of the first `fanout` peers but the
      sender. */
  lemma PassedOn(hash: ContentHash, states: seq<Network>, events: seq<Event>, p: PeerId, x: GossipMessage, q: PeerId,
                 k: nat)
    requires Run(hash, states, events) && Roomy(states[0], |events|) && Edge(states[0], p, q) && x.ttl > 1
    requires Accepts(hash, states, events, p, x, k) && q != Delivered(hash, states, events, k).source
    ensures Envelope(p, q, WithTtl(x, x.ttl - 1)) in states[k + 1].inFlight
  {
    hide Deliver, Roomy, WithTtl, Rejects, Targets, Execution;
    var e := Delivered(hash, states, events, k);
    RunStep(hash, states, events, k);
    SameNetwork(hash, states, events, k);
    MailKept(hash, states[k], events[k].index, events[k].now, states[k + 1]);
    SureTarget(states[0].nodes[p].peers, states[0].nodes[p].config.fanout, q, e.source);
    assert SentOn(hash, states[k], e, Envelope(p, q, WithTtl(x, x.ttl - 1)));
  }

  /** A node that acted with two or more hops to go passes the payload to each of its first `fanout` peers, or
      has it from that very peer. */
  lemma NodeForwards(hash: ContentHash, h: Hash, json: GossipMessage -> ByteString, a: Network, origin: PeerId,
                     m: GossipMessage, now: u64, states: seq<Network>, events: seq<Event>, p: PeerId, t: Ttl, q: PeerId)
    requires DigestsContent(hash, h, json) && Drained(hash, a, origin, m, now, states, events)
    requires Edge(states[0], p, q) && t > 1 && Acted(hash, states, events, p, WithTtl(m, t), |events|)
    requires !Collision(h, DeliveredJsons(hash, json, states, events))
    ensures Reached(hash, states, events, origin, m, q, t - 1)
  {
    hide Deliver, Roomy, Unknown, Broadcasts, WithTtl, Collision, Rejects, Targets, Execution, Acted;
    AfterBroadcast(hash, a, origin, m, now, states[0]);
    HopTaken(m);
    var k := WhenActed(hash, states, events, p, WithTtl(m, t), |events|);
    var e := Delivered(hash, states, events, k);
    RunStep(hash, states, events, k);
    if q == e.source {
      SourceReached(hash, a, origin, m, now, states, events, t, k);
    } else if q != origin {
      PassedOn(hash, states, events, p, WithTtl(m, t), q, k);
      InFlightActs(hash, h, json, states, events, Envelope(p, q, WithTtl(m, t - 1)), k + 1);
    }
  }

  /** Coverage. A broadcast of a new payload with `ttl` hops, delivered in any order until nothing is in flight and
      with room in the caches, reaches every node on a path of at most `ttl` edges from the origin: each acts on the
      payload, the i-th with at least ttl - i + 1 hops to go. Otherwise two JSON texts delivered collide. */
  lemma {:induction false} BroadcastCovers(hash: ContentHash, h: Hash, json: GossipMessage -> ByteString, a: Network,
                                           origin: PeerId, m: GossipMessage, now: u64, states: seq<Network>,
                                           events: seq<Event>, path: seq<PeerId>, i: nat)
    requires DigestsContent(hash, h, json) && Drained(hash, a, origin, m, now, states, events)
    requires Path(states[0], path) && path[0] == origin && i < |path| && i <= m.ttl
    ensures Collision(h, DeliveredJsons(hash, json, states, events)) ||
            Reached(hash, states, events, origin, m, path[i], m.ttl - i + 1)
  {
    hide Execution, Roomy, Unknown, Broadcasts, WithTtl, Acted, Collision, Rejects, Edge;
    if i > 0 && !Collision(h, DeliveredJsons(hash, json, states, events)) {
      BroadcastCovers(hash, h, json, a, origin, m, now, states, events, path, i - 1);
      assert Edge(states[0], path[i - 1], path[i - 1 + 1]);
      if path[i - 1] == origin {
        OriginForwards(hash, h, json, a, origin, m, now, states, events, path[i]);
      } else {
        var t: Ttl :| t >= m.ttl - i + 2 && Acted(hash, states, events, path[i - 1], WithTtl(m, t), |events|);
        NodeForwards(hash, h, json, a, origin, m, now, states, events, path[i - 1], t, path[i]);
      }
    }
  }
}
