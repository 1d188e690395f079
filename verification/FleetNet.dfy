/**
  A fleet of honest nodes and a network that may reorder, duplicate, drop, rewrite
  and re-wrap everything it has seen. The keyed hash is ideal: a free constructor,
  so equal hashes come from equal keys and messages, and a hash under a key the
  network does not hold can only be one it has seen.
 */
module FleetNet {
  import opened Common
  import opened FleetWire
  import opened Fleet

  datatype Hash = Hashed(key: Key, msg: seq<Octet<Hash>>) | Noise(n: nat)

  function IdealMac(): Mac<Hash> { (key: Key, msg: seq<Octet<Hash>>) => Hashed(key, msg) }

  datatype Event =
    | Issued(a: NodeId, token: Token)
    | Sent(a: NodeId, root: Hash, peer: NodeId)
    | Accepted(b: NodeId, cap: RemoteCap<Hash>)

  /** Honest nodes, the hashes that have been on the network, and what happened so far. */
  datatype World = World(nodes: map<NodeId, Node>, seen: set<Hash>, log: seq<Event>)

  ghost predicate HonestKey(w: World, key: Key) { exists a :: a in w.nodes && w.nodes[a].key == key }

  /** Hashes the network can put in a message: anything seen, anything made up, anything under a key of its own. */
  ghost predicate Derivable(w: World, h: Hash)
  {
    h in w.seen || h.Noise? || !HonestKey(w, h.key)
  }

  ghost predicate ChainDerivable(w: World, c: Chain<Hash>)
  {
    Derivable(w, c.root) && (c.bound.Some? ==> Derivable(w, c.bound.value))
  }

  datatype Step =
    | DoIssue(a: NodeId, objectId: u64, kind: Kind, rights: byte, expiry: Option<u64>)
    | DoSend(a: NodeId, chain: Chain<Hash>, peer: NodeId)
    | DoDeliver(b: NodeId, cap: RemoteCap<Hash>)
    | DoLocal(b: NodeId, op: Op)

  /** Chains to send and capabilities to verify come from the network; an honest peer is registered with its own key. */
  ghost predicate Enabled(w: World, s: Step)
  {
    match s
    case DoIssue(a, _, _, _, _) => a in w.nodes
    case DoSend(a, chain, _) => a in w.nodes && ChainDerivable(w, chain)
    case DoDeliver(b, cap) => b in w.nodes && ChainDerivable(w, cap.chain)
    case DoLocal(b, op) => b in w.nodes && (op.Register? && op.id in w.nodes ==> op.key == w.nodes[op.id].key)
  }

  ghost function Take(w: World, s: Step): World
    requires Enabled(w, s)
  {
    match s
    case DoIssue(a, objectId, kind, rights, expiry) =>
      var c := Mint(IdealMac(), w.nodes[a].key, a, objectId, kind, rights, expiry);
      w.(seen := w.seen + {c.root}, log := w.log + [Issued(a, c.token)])
    case DoSend(a, chain, peer) =>
      (match SendTo(IdealMac(), w.nodes[a], chain, peer)
       case Ok(cap) => w.(seen := w.seen + {cap.chain.bound.value}, log := w.log + [Sent(a, chain.root, peer)])
       case Err(_) => w)
    case DoDeliver(b, cap) =>
      if Verify(IdealMac(), w.nodes[b], cap).Ok? then w.(log := w.log + [Accepted(b, cap)]) else w
    case DoLocal(b, op) =>
      w.(nodes := w.nodes[b := Apply(w.nodes[b], op)])
  }

  // ------------------------------------------------------------------
  // What every step keeps
  // ------------------------------------------------------------------

  /** Identities and keys are fixed and keys distinct; peers hold the right keys. */
  ghost predicate KeysInPlace(w: World)
  {
    && (forall a <- w.nodes :: w.nodes[a].id == a)
    && (forall a <- w.nodes, b <- w.nodes :: w.nodes[a].key == w.nodes[b].key ==> a == b)
    && (forall a <- w.nodes :: PeerKeysRight(w.nodes, w.nodes[a].peers))
  }

  ghost predicate PeerKeysRight(nodes: map<NodeId, Node>, peers: PeerTable)
  {
    forall i | 0 <= i < MAX_PEERS && peers[i].Some? && peers[i].value.id in nodes :: peers[i].value.key == nodes[peers[i].value.id].key
  }

  /** A hash under an honest key is a root that its owner issued or a binding that it sent. */
  ghost predicate Owned(w: World, h: Hash)
  {
    forall a <- w.nodes | h.Hashed? && h.key == w.nodes[a].key :: IssuedRoot(w.log, a, h.msg) || SentBound(w.log, a, h.msg)
  }

  ghost predicate IssuedRoot(log: seq<Event>, a: NodeId, msg: seq<Octet<Hash>>)
  {
    exists i | 0 <= i < |log| :: log[i].Issued? && log[i].a == a && log[i].token.kernelId == a && log[i].token.recipient.None? && msg == RootMessage(log[i].token)
  }

  ghost predicate SentBound(log: seq<Event>, a: NodeId, msg: seq<Octet<Hash>>)
  {
    exists i | 0 <= i < |log| :: log[i].Sent? && log[i].a == a && msg == BoundMessage(log[i].root, log[i].peer)
  }

  /** A send whose root is under the sender's own key came after the issue of that root. */
  ghost predicate SentAfterIssue(w: World, j: nat)
    requires j < |w.log| && w.log[j].Sent?
  {
    var a, root := w.log[j].a, w.log[j].root;
    a in w.nodes && root.Hashed? && root.key == w.nodes[a].key && |root.msg| == 51 ==> IssuedRoot(w.log[..j], a, root.msg)
  }

  /** The issue of a capability's token, a later send of its chain to `b`, both before `k`. */
  ghost predicate IssuedThenSent(log: seq<Event>, k: nat, b: NodeId, cap: RemoteCap<Hash>)
    requires k <= |log|
  {
    exists i, j | 0 <= i < j < k :: log[i] == Issued(cap.issuer, cap.chain.token.(recipient := None)) && log[j] == Sent(cap.issuer, cap.chain.root, b)
  }

  /** The acceptance at position `k` was preceded by the issue of exactly this token and, after that, a send of its chain to the acceptor. */
  ghost predicate Authentic(w: World, k: nat)
    requires k < |w.log| && w.log[k].Accepted?
  {
    var b, cap := w.log[k].b, w.log[k].cap;
    cap.issuer != b && cap.issuer in w.nodes ==>
      && IssuedThenSent(w.log, k, b, cap)
      && cap.chain.token.kernelId == cap.issuer
  }

  ghost predicate Inv(w: World)
  {
    && KeysInPlace(w)
    && (forall h <- w.seen :: Owned(w, h))
    && (forall j | 0 <= j < |w.log| && w.log[j].Sent? :: SentAfterIssue(w, j))
    && (forall k | 0 <= k < |w.log| && w.log[k].Accepted? :: Authentic(w, k))
  }

  /** Nodes start with empty tables and keys of their own. */
  ghost predicate Init(w: World)
  {
    && w.seen == {} && w.log == []
    && (forall a <- w.nodes :: w.nodes[a] == NewNode(a, w.nodes[a].key))
    && (forall a <- w.nodes, b <- w.nodes :: w.nodes[a].key == w.nodes[b].key ==> a == b)
  }

  lemma LogGrows(log: seq<Event>, e: Event, a: NodeId, msg: seq<Octet<Hash>>)
    ensures IssuedRoot(log, a, msg) ==> IssuedRoot(log + [e], a, msg)
    ensures SentBound(log, a, msg) ==> SentBound(log + [e], a, msg)
  {
    var all := log + [e];
    if i :| 0 <= i < |log| && log[i].Issued? && log[i].a == a && log[i].token.kernelId == a && log[i].token.recipient.None? && msg == RootMessage(log[i].token) {
      assert all[i] == log[i];
    }
    if i :| 0 <= i < |log| && log[i].Sent? && log[i].a == a && msg == BoundMessage(log[i].root, log[i].peer) {
      assert all[i] == log[i];
    }
  }

  /** Adding an event keeps what was known about the past. */
  lemma PastKept(w: World, w': World, e: Event)
    requires Inv(w) && w'.nodes == w.nodes && w'.log == w.log + [e]
    ensures forall h <- w.seen :: Owned(w', h)
    ensures forall j | 0 <= j < |w.log| && w'.log[j].Sent? :: SentAfterIssue(w', j)
    ensures forall k | 0 <= k < |w.log| && w'.log[k].Accepted? :: Authentic(w', k)
  {
    hide IssuedRoot, SentBound;
    forall h <- w.seen ensures Owned(w', h) {
      assert Owned(w, h);
      forall a <- w.nodes | h.Hashed? && h.key == w.nodes[a].key
        ensures IssuedRoot(w'.log, a, h.msg) || SentBound(w'.log, a, h.msg)
      {
        LogGrows(w.log, e, a, h.msg);
      }
    }
    forall j | 0 <= j < |w.log| && w'.log[j].Sent? ensures SentAfterIssue(w', j) {
      assert SentAfterIssue(w, j);
      assert w'.log[..j] == w.log[..j];
    }
    forall k | 0 <= k < |w.log| && w'.log[k].Accepted? ensures Authentic(w', k) {
      assert Authentic(w, k);
      OrderKept(w.log, w'.log, k, w.log[k].b, w.log[k].cap);
    }
  }

  lemma OrderKept(log: seq<Event>, log': seq<Event>, k: nat, b: NodeId, cap: RemoteCap<Hash>)
    requires k <= |log| <= |log'| && log'[..|log|] == log
    ensures IssuedThenSent(log, k, b, cap) ==> IssuedThenSent(log', k, b, cap)
  {
    if IssuedThenSent(log, k, b, cap) {
      var i, j :| 0 <= i < j < k && log[i] == Issued(cap.issuer, cap.chain.token.(recipient := None)) && log[j] == Sent(cap.issuer, cap.chain.root, b);
      assert log'[i] == log[i] && log'[j] == log[j];
    }
  }

  lemma IssueKeepsInv(w: World, s: Step)
    requires Inv(w) && Enabled(w, s) && s.DoIssue?
    ensures Inv(Take(w, s))
  {
    var w' := Take(w, s);
    var e := w'.log[|w.log|];
    PastKept(w, w', e);
    var h := Hashed(w.nodes[s.a].key, RootMessage(e.token));
    assert IssuedRoot(w'.log, s.a, h.msg);
    assert Owned(w', h);
  }

  lemma SendKeepsInv(w: World, s: Step)
    requires Inv(w) && Enabled(w, s) && s.DoSend?
    ensures Inv(Take(w, s))
  {
    var w' := Take(w, s);
    if w' != w {
      PastKept(w, w', Sent(s.a, s.chain.root, s.peer));
      var h := Hashed(w.nodes[s.a].key, BoundMessage(s.chain.root, s.peer));
      assert w'.log[|w.log|] == Sent(s.a, s.chain.root, s.peer);
      assert SentBound(w'.log, s.a, h.msg);
      assert Owned(w', h);
      SendFollowsIssue(w, w', s);
    }
  }

  /** A root under the sender's own key can only have come from the sender's issue. */
  lemma SendFollowsIssue(w: World, w': World, s: Step)
    requires Inv(w) && Enabled(w, s) && s.DoSend? && w'.nodes == w.nodes && w'.log == w.log + [Sent(s.a, s.chain.root, s.peer)]
    ensures SentAfterIssue(w', |w.log|)
  {
    hide IssuedRoot;
    var root := s.chain.root;
    assert w'.log[..|w.log|] == w.log;
    if root.Hashed? && root.key == w.nodes[s.a].key && |root.msg| == 51 {
      assert HonestKey(w, root.key);
      assert Owned(w, root);
      assert !SentBound(w.log, s.a, root.msg) by {
        assert forall i | 0 <= i < |w.log| && w.log[i].Sent? :: |BoundMessage(w.log[i].root, w.log[i].peer)| == 65;
      }
    }
  }

  /** The heart: an accepted foreign capability carries two hashes under its issuer's key, so the issuer made both. */
  lemma AcceptedIsAuthentic(w: World, b: NodeId, cap: RemoteCap<Hash>)
    requires Inv(w) && b in w.nodes && ChainDerivable(w, cap.chain)
    requires Verify(IdealMac(), w.nodes[b], cap).Ok? && cap.issuer != b && cap.issuer in w.nodes
    ensures IssuedThenSent(w.log, |w.log|, b, cap) && cap.chain.token.kernelId == cap.issuer
  {
    var a, n, t := cap.issuer, w.nodes[b], cap.chain.token;
    var key := w.nodes[a].key;
    assert PeerKeysRight(w.nodes, n.peers);
    assert IssuerKey(n, a, cap.locality) == Ok(key);
    var root, bound := cap.chain.root, cap.chain.bound.value;
    assert root == Hashed(key, RootMessage(t)) && bound == Hashed(key, BoundMessage(root, b));
    assert HonestKey(w, key);
    assert Owned(w, root) && Owned(w, bound);
    assert SentBound(w.log, a, bound.msg) by {
      assert forall i | 0 <= i < |w.log| && w.log[i].Issued? :: |RootMessage<Hash>(w.log[i].token)| == 51;
    }
    var j :| 0 <= j < |w.log| && w.log[j].Sent? && w.log[j].a == a && bound.msg == BoundMessage(w.log[j].root, w.log[j].peer);
    BoundMessageInjective(root, b, w.log[j].root, w.log[j].peer);
    assert w.log[j] == Sent(a, root, b);
    assert SentAfterIssue(w, j);
    IssueOfRoot(w.log[..j], a, t);
    var i :| 0 <= i < j && w.log[..j][i] == Issued(a, t.(recipient := None));
    assert w.log[i] == w.log[..j][i];
  }

  lemma IssueOfRoot(log: seq<Event>, a: NodeId, t: Token)
    requires IssuedRoot(log, a, RootMessage<Hash>(t))
    ensures t.kernelId == a && exists i | 0 <= i < |log| :: log[i] == Issued(a, t.(recipient := None))
  {
    var i :| 0 <= i < |log| && log[i].Issued? && log[i].a == a && log[i].token.kernelId == a && log[i].token.recipient.None? && RootMessage<Hash>(t) == RootMessage(log[i].token);
    RootMessageInjective<Hash>(t, log[i].token);
    assert log[i] == Issued(a, t.(recipient := None));
  }

  lemma DeliverKeepsInv(w: World, s: Step)
    requires Inv(w) && Enabled(w, s) && s.DoDeliver?
    ensures Inv(Take(w, s))
  {
    hide Owned, Authentic, SentAfterIssue;
    var w' := Take(w, s);
    if w' != w {
      PastKept(w, w', Accepted(s.b, s.cap));
      DeliveredIsAuthentic(w, w', s);
    }
  }

  lemma DeliveredIsAuthentic(w: World, w': World, s: Step)
    requires Inv(w) && Enabled(w, s) && s.DoDeliver? && w' == Take(w, s) && w' != w
    ensures w'.log == w.log + [Accepted(s.b, s.cap)] && Authentic(w', |w.log|)
  {
    hide Owned, Inv;
    if s.cap.issuer != s.b && s.cap.issuer in w.nodes {
      AcceptedIsAuthentic(w, s.b, s.cap);
      OrderKept(w.log, w'.log, |w.log|, s.b, s.cap);
    }
  }

  /** A local operation changes no identity and registers honest peers with their own keys. */
  lemma LocalKeepsKeys(nodes: map<NodeId, Node>, n: Node, op: Op)
    requires PeerKeysRight(nodes, n.peers)
    requires op.Register? && op.id in nodes ==> op.key == nodes[op.id].key
    ensures Apply(n, op).id == n.id && Apply(n, op).key == n.key && PeerKeysRight(nodes, Apply(n, op).peers)
  {}

  lemma SameKeysSameTruth(w: World, w': World)
    requires Inv(w) && w'.seen == w.seen && w'.log == w.log && w'.nodes.Keys == w.nodes.Keys
    requires forall a <- w.nodes :: w'.nodes[a].key == w.nodes[a].key
    ensures forall h <- w'.seen :: Owned(w', h)
    ensures forall j | 0 <= j < |w'.log| && w'.log[j].Sent? :: SentAfterIssue(w', j)
    ensures forall k | 0 <= k < |w'.log| && w'.log[k].Accepted? :: Authentic(w', k)
  {
    forall h <- w'.seen ensures Owned(w', h) { assert Owned(w, h); }
    forall j | 0 <= j < |w'.log| && w'.log[j].Sent? ensures SentAfterIssue(w', j) { assert SentAfterIssue(w, j); }
    forall k | 0 <= k < |w'.log| && w'.log[k].Accepted? ensures Authentic(w', k) { assert Authentic(w, k); }
  }

  lemma LocalKeepsInv(w: World, s: Step)
    requires Inv(w) && Enabled(w, s) && s.DoLocal?
    ensures Inv(Take(w, s))
  {
    hide Apply, Owned, Authentic, SentAfterIssue;
    var w' := Take(w, s);
    LocalKeepsKeys(w.nodes, w.nodes[s.b], s.op);
    SameKeysSameTruth(w, w');
    forall a <- w'.nodes ensures PeerKeysRight(w'.nodes, w'.nodes[a].peers) {
      assert PeerKeysRight(w.nodes, w.nodes[a].peers);
    }
  }

  lemma StepKeepsInv(w: World, s: Step)
    requires Inv(w) && Enabled(w, s)
    ensures Inv(Take(w, s)) && Take(w, s).nodes.Keys == w.nodes.Keys
  {
    match s
    case DoIssue(_, _, _, _, _) => IssueKeepsInv(w, s);
    case DoSend(_, _, _) => SendKeepsInv(w, s);
    case DoDeliver(_, _) => DeliverKeepsInv(w, s);
    case DoLocal(_, _) => LocalKeepsInv(w, s);
  }

  // ------------------------------------------------------------------
  // Runs
  // ------------------------------------------------------------------

  ghost predicate StepsTo(w: World, w': World) { exists s: Step :: Enabled(w, s) && w' == Take(w, s) }

  /** `run` starts in an initial world and each later world is one step from the one before. */
  ghost predicate IsRun(run: seq<World>)
  {
    && |run| > 0
    && if |run| == 1 then Init(run[0]) else IsRun(run[..|run| - 1]) && StepsTo(run[|run| - 2], run[|run| - 1])
  }

  lemma {:induction false} RunKeepsInv(run: seq<World>)
    requires IsRun(run)
    ensures Inv(run[|run| - 1])
  {
    hide Inv, Enabled, Take;
    if |run| == 1 {
      InitHoldsInv(run[0]);
    } else {
      RunKeepsInv(run[..|run| - 1]);
      var w := run[|run| - 2];
      var s: Step :| Enabled(w, s) && run[|run| - 1] == Take(w, s);
      StepKeepsInv(w, s);
    }
  }

  lemma InitHoldsInv(w: World)
    requires Init(w)
    ensures Inv(w)
  {}

  /**
    In every run, whatever the network does: a node that accepted a capability of
    another honest node did so after that node issued exactly this token and sent
    its chain to the acceptor.
   */
  lemma EveryAcceptanceIsAuthentic(run: seq<World>, k: nat)
    requires IsRun(run)
    requires k < |run[|run| - 1].log| && run[|run| - 1].log[k].Accepted?
    ensures Authentic(run[|run| - 1], k)
  {
    RunKeepsInv(run);
  }
}
