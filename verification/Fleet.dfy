/**
  One node of the fleet: keyed-hash token chains, the table of trusted peers, and
  the verification of a received capability. The keyed hash is a parameter, so
  everything here holds for any hash.
 */
module Fleet {
  import opened Common
  import opened FleetWire

  // ------------------------------------------------------------------
  // Token chains
  // ------------------------------------------------------------------

  /** A byte of a hashed message: a literal, or byte `i` of an earlier hash. */
  datatype Octet<+H> = Lit(b: byte) | HashByte(h: H, i: nat)

  type Mac<!H> = (Key, seq<Octet<H>>) -> H

  function Lits<H>(s: seq<byte>): seq<Octet<H>> { seq(|s|, i requires 0 <= i < |s| => Lit(s[i])) }

  function RootMessage<H>(t: Token): (m: seq<Octet<H>>)
    ensures |m| == 51
  {
    Lits(Identifier(t))
  }

  function BoundMessage<H>(root: H, recipient: NodeId): (m: seq<Octet<H>>)
    ensures |m| == 65
  {
    [Lit(0xC0)] + Lits(recipient) + seq(32, i requires 0 <= i => HashByte(root, i))
  }

  lemma RootMessageInjective<H>(t: Token, u: Token)
    requires RootMessage<H>(t) == RootMessage<H>(u)
    ensures t.(recipient := None) == u.(recipient := None)
  {
    LitsInjective<H>(Identifier(t), Identifier(u));
    IdentifierInjective(t, u);
  }

  lemma LitsInjective<H>(a: seq<byte>, b: seq<byte>)
    requires |a| == |b| && Lits<H>(a) == Lits<H>(b)
    ensures a == b
  {
    forall i | 0 <= i < |a| ensures a[i] == b[i] {
      assert Lits<H>(a)[i] == Lits<H>(b)[i];
    }
  }

  lemma BoundMessageInjective<H>(root: H, r: NodeId, root': H, r': NodeId)
    requires BoundMessage(root, r) == BoundMessage(root', r')
    ensures root == root' && r == r'
  {
    var m, m' := BoundMessage(root, r), BoundMessage(root', r');
    assert m[1..33] == Lits<H>(r) && m'[1..33] == Lits<H>(r');
    LitsInjective<H>(r, r');
    assert m[33] == HashByte(root, 0) && m'[33] == HashByte(root', 0);
  }

  function Mint<H>(mac: Mac<H>, key: Key, kernelId: Bytes32, objectId: u64, kind: Kind, rights: byte, expiry: Option<u64>): Chain<H>
  {
    var token := Token(kernelId, objectId, kind, rights, expiry, None);
    Chain(token, mac(key, RootMessage(token)), None)
  }

  function BindRecipient<H>(mac: Mac<H>, key: Key, c: Chain<H>, recipient: NodeId): Chain<H>
  {
    Chain(c.token.(recipient := Some(recipient)), c.root, Some(mac(key, BoundMessage(c.root, recipient))))
  }

  predicate ChainVerifies<H(==)>(mac: Mac<H>, key: Key, c: Chain<H>)
  {
    && c.root == mac(key, RootMessage(c.token))
    && match (c.token.recipient, c.bound)
       case (None, None) => true
       case (Some(r), Some(b)) => b == mac(key, BoundMessage(c.root, r))
       case _ => false
  }

  // ------------------------------------------------------------------
  // A node's state and its updates
  // ------------------------------------------------------------------

  const MAX_PEERS := 4

  datatype Peer = Peer(id: NodeId, key: Key, lastSeen: Option<u64>, unreachable: bool)

  type PeerTable = s: seq<Option<Peer>> | |s| == MAX_PEERS witness seq(MAX_PEERS, _ => None)

  datatype Node = Node(id: NodeId, key: Key, peers: PeerTable, now: u64, staleAfter: u64)

  function NewNode(id: NodeId, key: Key): Node { Node(id, key, seq(MAX_PEERS, _ => None), 0, 100) }

  /** First slot from `i` on that holds `id`, or that is free. */
  function FindFrom(peers: PeerTable, id: NodeId, i: nat): (r: Option<nat>)
    requires i <= MAX_PEERS
    ensures r.Some? ==> i <= r.value < MAX_PEERS && peers[r.value].Some? && peers[r.value].value.id == id
    ensures r.None? ==> forall j | i <= j < MAX_PEERS && peers[j].Some? :: peers[j].value.id != id
    decreases MAX_PEERS - i
  {
    if i == MAX_PEERS then None
    else if peers[i].Some? && peers[i].value.id == id then Some(i)
    else FindFrom(peers, id, i + 1)
  }

  function FreeFrom(peers: PeerTable, i: nat): (r: Option<nat>)
    requires i <= MAX_PEERS
    ensures r.Some? ==> i <= r.value < MAX_PEERS && peers[r.value].None?
    ensures r.None? ==> forall j | i <= j < MAX_PEERS :: peers[j].Some?
    decreases MAX_PEERS - i
  {
    if i == MAX_PEERS then None
    else if peers[i].None? then Some(i)
    else FreeFrom(peers, i + 1)
  }

  function Find(n: Node, id: NodeId): (r: Option<nat>)
    ensures r.Some? ==> r.value < MAX_PEERS && n.peers[r.value].Some? && n.peers[r.value].value.id == id
  {
    FindFrom(n.peers, id, 0)
  }

  function Put(n: Node, i: nat, p: Peer): Node
    requires i < MAX_PEERS
  {
    n.(peers := n.peers[i := Some(p)])
  }

  function Registered(n: Node, id: NodeId, key: Key): Result<Node>
  {
    if Find(n, id).Some? then Err(AlreadyRegistered)
    else match FreeFrom(n.peers, 0)
      case Some(i) => Ok(Put(n, i, Peer(id, key, Some(n.now), false)))
      case None => Err(RegistryFull)
  }

  function HeartbeatFrom(n: Node, id: NodeId): Result<Node>
  {
    match Find(n, id)
    case Some(i) => Ok(Put(n, i, n.peers[i].value.(lastSeen := Some(n.now), unreachable := false)))
    case None => Err(UnknownPeer)
  }

  function MarkedUnreachable(n: Node, id: NodeId): Result<Node>
  {
    match Find(n, id)
    case Some(i) => Ok(Put(n, i, n.peers[i].value.(unreachable := true)))
    case None => Err(UnknownPeer)
  }

  // ------------------------------------------------------------------
  // Sending and verifying
  // ------------------------------------------------------------------

  function Elapsed(now: u64, seen: u64): u64 { if now >= seen then now - seen else 0 }

  predicate IsUnreachable(n: Node, id: NodeId)
  {
    var i := Find(n, id);
    i.Some? && n.peers[i.value].value.unreachable
  }

  predicate IsStale(n: Node, id: NodeId)
  {
    match Find(n, id)
    case Some(i) =>
      var seen := n.peers[i].value.lastSeen;
      seen.None? || Elapsed(n.now, seen.value) > n.staleAfter
    case None => false
  }

  function SendTo<H>(mac: Mac<H>, n: Node, c: Chain<H>, peer: NodeId): Result<RemoteCap<H>>
  {
    if Find(n, peer).None? then Err(UntrustedPeer)
    else Ok(RemoteCap(BindRecipient(mac, n.key, c, peer), n.id, peer, Remote(n.id)))
  }

  function IssuerKey(n: Node, issuer: NodeId, l: Locality): Result<Key>
  {
    if issuer == n.id then Ok(n.key)
    else match l
      case Local => Err(UnknownIssuer)
      case Remote(r) =>
        if r != issuer then Err(UnknownIssuer)
        else match Find(n, issuer)
          case Some(i) => Ok(n.peers[i].value.key)
          case None => Err(UntrustedPeer)
  }

  /** `verify`, check by check in its order. */
  function Verify<H(==)>(mac: Mac<H>, n: Node, cap: RemoteCap<H>): Result<()>
  {
    var key := IssuerKey(n, cap.issuer, cap.locality);
    if key.Err? then Err(key.error)
    else if !ChainVerifies(mac, key.value, cap.chain) then Err(ChainIntegrity)
    else if cap.recipient != n.id then Err(NotRecipient)
    else if cap.chain.token.recipient.Some? && cap.chain.token.recipient.value != n.id then Err(NotRecipient)
    else if cap.chain.token.recipient.None? && cap.issuer != n.id then Err(NotRecipient)
    else if cap.chain.token.expiry.Some? && n.now > cap.chain.token.expiry.value then Err(Expired)
    else if cap.locality.Remote? && IsUnreachable(n, cap.locality.id) then Err(PeerUnreachable)
    else if cap.locality.Remote? && IsStale(n, cap.locality.id) then Err(PeerStale)
    else Ok(())
  }

  // ------------------------------------------------------------------
  // Fail closed, over every run of a node
  // ------------------------------------------------------------------

  datatype Op = Register(id: NodeId, key: Key) | Heartbeat(id: NodeId) | Mark(id: NodeId) | SetTime(now: u64) | SetStale(ticks: u64)

  function OrElse(r: Result<Node>, n: Node): Node { if r.Ok? then r.value else n }

  /** A refused call leaves the node as it was. */
  function Apply(n: Node, op: Op): Node
  {
    match op
    case Register(id, key) => OrElse(Registered(n, id, key), n)
    case Heartbeat(id) => OrElse(HeartbeatFrom(n, id), n)
    case Mark(id) => OrElse(MarkedUnreachable(n, id), n)
    case SetTime(now) => n.(now := now)
    case SetStale(ticks) => n.(staleAfter := ticks)
  }

  function Run(n: Node, ops: seq<Op>): Node
  {
    if ops == [] then n else Apply(Run(n, ops[..|ops| - 1]), ops[|ops| - 1])
  }

  /** The clock during a run, read off the operations alone. */
  function Clock(ops: seq<Op>): u64
  {
    if ops == [] then 0
    else if ops[|ops| - 1].SetTime? then ops[|ops| - 1].now
    else Clock(ops[..|ops| - 1])
  }

  /** The stale window during a run. */
  function Window(ops: seq<Op>): u64
  {
    if ops == [] then 100
    else if ops[|ops| - 1].SetStale? then ops[|ops| - 1].ticks
    else Window(ops[..|ops| - 1])
  }

  /** Operation `r` registered `id` under `key`: the call was made and took effect. */
  ghost predicate RegisteredAt(n0: Node, ops: seq<Op>, id: NodeId, key: Key, r: nat)
  {
    r < |ops| && ops[r] == Register(id, key) && Registered(Run(n0, ops[..r]), id, key).Ok?
  }

  /** Operation `k` is the last sign of life of `id`: its registration at `r`, or a heartbeat after that. */
  ghost predicate LastSign(n0: Node, ops: seq<Op>, id: NodeId, key: Key, r: nat, k: nat)
  {
    && RegisteredAt(n0, ops, id, key, r)
    && r <= k < |ops| && (k == r || ops[k] == Heartbeat(id))
    && forall j | k < j < |ops| :: ops[j] != Heartbeat(id)
  }

  ghost predicate MarkedAfter(ops: seq<Op>, id: NodeId, k: nat) { exists j | k < j < |ops| :: ops[j] == Mark(id) }

  /** The history fixes everything a table entry holds. */
  ghost predicate ExplainedBy(n0: Node, ops: seq<Op>, p: Peer, r: nat, k: nat)
  {
    && LastSign(n0, ops, p.id, p.key, r, k)
    && p.lastSeen == Some(Clock(ops[..k]))
    && (p.unreachable <==> MarkedAfter(ops, p.id, k))
  }

  ghost predicate Explained(n0: Node, ops: seq<Op>, p: Peer) { exists r: nat, k: nat :: ExplainedBy(n0, ops, p, r, k) }

  ghost predicate TableExplained(n0: Node, ops: seq<Op>, peers: PeerTable)
  {
    forall i | 0 <= i < MAX_PEERS && peers[i].Some? :: Explained(n0, ops, peers[i].value)
  }

  lemma RegisteredStays(n0: Node, ops: seq<Op>, op: Op, id: NodeId, key: Key, r: nat)
    requires r < |ops|
    ensures RegisteredAt(n0, ops + [op], id, key, r) <==> RegisteredAt(n0, ops, id, key, r)
  {
    hide Registered, Run;
    assert (ops + [op])[..r] == ops[..r];
  }

  /** An operation that does not concern a peer leaves its explanation standing. */
  lemma ExplainedGrows(n0: Node, ops: seq<Op>, op: Op, p: Peer)
    requires Explained(n0, ops, p) && op != Mark(p.id) && op != Heartbeat(p.id)
    ensures Explained(n0, ops + [op], p)
  {
    hide RegisteredAt, Clock;
    var all := ops + [op];
    var r: nat, k: nat :| ExplainedBy(n0, ops, p, r, k);
    RegisteredStays(n0, ops, op, p.id, p.key, r);
    assert all[..k] == ops[..k];
    MarksSame(ops, op, p.id, k);
    assert ExplainedBy(n0, all, p, r, k);
  }

  lemma MarksSame(ops: seq<Op>, op: Op, id: NodeId, k: nat)
    requires k < |ops|
    ensures MarkedAfter(ops + [op], id, k) <==> MarkedAfter(ops, id, k) || op == Mark(id)
  {
    var all := ops + [op];
    assert all[|ops|] == op;
    forall j | k < j < |ops| ensures all[j] == ops[j] {}
  }

  lemma NewlyRegistered(n0: Node, ops: seq<Op>, id: NodeId, key: Key)
    requires Registered(Run(n0, ops), id, key).Ok?
    ensures Explained(n0, ops + [Register(id, key)], Peer(id, key, Some(Clock(ops)), false))
  {
    hide Registered, Run, Clock;
    var all, k := ops + [Register(id, key)], |ops|;
    assert all[..k] == ops && all[k] == Register(id, key);
    assert ExplainedBy(n0, all, Peer(id, key, Some(Clock(ops)), false), k, k);
  }

  lemma JustSeen(n0: Node, ops: seq<Op>, p: Peer)
    requires Explained(n0, ops, p)
    ensures Explained(n0, ops + [Heartbeat(p.id)], p.(lastSeen := Some(Clock(ops)), unreachable := false))
  {
    hide RegisteredAt, Clock;
    var all, k := ops + [Heartbeat(p.id)], |ops|;
    var r: nat, k0: nat :| ExplainedBy(n0, ops, p, r, k0);
    RegisteredStays(n0, ops, Heartbeat(p.id), p.id, p.key, r);
    assert all[..k] == ops && all[k] == Heartbeat(p.id);
    assert ExplainedBy(n0, all, p.(lastSeen := Some(Clock(ops)), unreachable := false), r, k);
  }

  lemma CutOff(n0: Node, ops: seq<Op>, p: Peer)
    requires Explained(n0, ops, p)
    ensures Explained(n0, ops + [Mark(p.id)], p.(unreachable := true))
  {
    hide RegisteredAt, Clock;
    var all := ops + [Mark(p.id)];
    var r: nat, k: nat :| ExplainedBy(n0, ops, p, r, k);
    RegisteredStays(n0, ops, Mark(p.id), p.id, p.key, r);
    MarksSame(ops, Mark(p.id), p.id, k);
    assert all[..k] == ops[..k];
    assert ExplainedBy(n0, all, p.(unreachable := true), r, k);
  }

  ghost predicate IdsDistinct(peers: PeerTable)
  {
    forall i, j | 0 <= i < j < MAX_PEERS && peers[i].Some? && peers[j].Some? :: peers[i].value.id != peers[j].value.id
  }

  /** A peer, once in the table, keeps its place and its key. */
  ghost predicate Has(peers: PeerTable, id: NodeId, key: Key)
  {
    exists i | 0 <= i < MAX_PEERS :: peers[i].Some? && peers[i].value.id == id && peers[i].value.key == key
  }

  ghost predicate TableComplete(n0: Node, ops: seq<Op>, peers: PeerTable)
  {
    forall id: NodeId, key: Key, r: nat | RegisteredAt(n0, ops, id, key, r) :: Has(peers, id, key)
  }

  lemma StepHas(n: Node, op: Op, id: NodeId, key: Key)
    requires Has(n.peers, id, key)
    ensures Has(Apply(n, op).peers, id, key)
  {
    var i :| 0 <= i < MAX_PEERS && n.peers[i].Some? && n.peers[i].value.id == id && n.peers[i].value.key == key;
    var p := Apply(n, op).peers[i];
    assert p.Some? && p.value.id == id && p.value.key == key;
  }

  lemma RegisterHas(n: Node, id: NodeId, key: Key)
    requires Registered(n, id, key).Ok?
    ensures Has(Apply(n, Register(id, key)).peers, id, key)
  {
    var i := FreeFrom(n.peers, 0).value;
    var p := Apply(n, Register(id, key)).peers[i];
    assert p.Some? && p.value.id == id && p.value.key == key;
  }

  lemma StepComplete(n0: Node, ops: seq<Op>, op: Op)
    requires TableComplete(n0, ops, Run(n0, ops).peers)
    ensures TableComplete(n0, ops + [op], Apply(Run(n0, ops), op).peers)
  {
    hide Has, Apply, Registered, Run;
    var n, all := Run(n0, ops), ops + [op];
    forall id: NodeId, key: Key, r: nat | RegisteredAt(n0, all, id, key, r) ensures Has(Apply(n, op).peers, id, key) {
      if r < |ops| {
        RegisteredStays(n0, ops, op, id, key, r);
        StepHas(n, op, id, key);
      } else {
        assert all[..r] == ops;
        RegisterHas(n, id, key);
      }
    }
  }

  /** One operation keeps every table entry explained by the history. */
  lemma StepExplained(n0: Node, ops: seq<Op>, op: Op)
    requires var n := Run(n0, ops); TableExplained(n0, ops, n.peers) && IdsDistinct(n.peers) && n.now == Clock(ops)
    ensures var n' := Apply(Run(n0, ops), op);
            TableExplained(n0, ops + [op], n'.peers) && IdsDistinct(n'.peers) && n'.now == Clock(ops + [op])
  {
    hide Explained, Run;
    var n := Run(n0, ops);
    var n', all := Apply(n, op), ops + [op];
    StepKeepsTable(n, ops, op);
    forall i | 0 <= i < MAX_PEERS && n'.peers[i].Some? ensures Explained(n0, all, n'.peers[i].value) {
      EntryExplained(n0, n, ops, op, i);
    }
  }

  lemma StepKeepsTable(n: Node, ops: seq<Op>, op: Op)
    requires IdsDistinct(n.peers) && n.now == Clock(ops)
    ensures IdsDistinct(Apply(n, op).peers) && Apply(n, op).now == Clock(ops + [op])
  {
    assert (ops + [op])[..|ops|] == ops;
  }

  lemma EntryExplained(n0: Node, n: Node, ops: seq<Op>, op: Op, i: nat)
    requires n == Run(n0, ops) && TableExplained(n0, ops, n.peers) && IdsDistinct(n.peers) && n.now == Clock(ops)
    requires i < MAX_PEERS && Apply(n, op).peers[i].Some?
    ensures Explained(n0, ops + [op], Apply(n, op).peers[i].value)
  {
    hide Explained, Clock, Run;
    var p := Apply(n, op).peers[i].value;
    if n.peers[i] == Some(p) && op != Mark(p.id) && op != Heartbeat(p.id) {
      ExplainedGrows(n0, ops, op, p);
    } else {
      match op
      case Register(id, key) => NewlyRegistered(n0, ops, id, key);
      case Heartbeat(id) => JustSeen(n0, ops, n.peers[i].value);
      case Mark(id) => CutOff(n0, ops, n.peers[i].value);
      case SetTime(_) =>
      case SetStale(_) =>
    }
  }

  lemma {:induction false} RunExplained(id: NodeId, key: Key, ops: seq<Op>)
    ensures var n0 := NewNode(id, key); var n := Run(n0, ops);
            && TableExplained(n0, ops, n.peers) && IdsDistinct(n.peers) && TableComplete(n0, ops, n.peers)
            && n.now == Clock(ops) && n.staleAfter == Window(ops) && n.id == id && n.key == key
  {
    hide Explained, IdsDistinct, TableComplete;
    if ops != [] {
      var n0, before, op := NewNode(id, key), ops[..|ops| - 1], ops[|ops| - 1];
      RunExplained(id, key, before);
      StepExplained(n0, before, op);
      StepComplete(n0, before, op);
      assert before + [op] == ops;
    } else {
      NothingRegistered(NewNode(id, key));
    }
  }

  lemma NothingRegistered(n0: Node)
    requires forall i | 0 <= i < MAX_PEERS :: n0.peers[i].None?
    ensures TableExplained(n0, [], n0.peers) && IdsDistinct(n0.peers) && TableComplete(n0, [], n0.peers)
  {
  }

  /** A peer is registered once: a second call is refused. */
  lemma RegisteredOnce(id: NodeId, key: Key, ops: seq<Op>, peer: NodeId, k1: Key, r1: nat, k2: Key, r2: nat)
    requires var n0 := NewNode(id, key); RegisteredAt(n0, ops, peer, k1, r1) && RegisteredAt(n0, ops, peer, k2, r2)
    ensures r1 == r2 && k1 == k2
  {
    if r1 < r2 { RefusedAgain(id, key, ops, peer, k1, r1, k2, r2); }
    if r2 < r1 { RefusedAgain(id, key, ops, peer, k2, r2, k1, r1); }
  }

  lemma RefusedAgain(id: NodeId, key: Key, ops: seq<Op>, peer: NodeId, k1: Key, r1: nat, k2: Key, r2: nat)
    requires r1 < r2 < |ops| && RegisteredAt(NewNode(id, key), ops, peer, k1, r1)
    ensures !RegisteredAt(NewNode(id, key), ops, peer, k2, r2)
  {
    hide Run;
    var n0, before := NewNode(id, key), ops[..r2];
    assert before[..r1] == ops[..r1];
    assert RegisteredAt(n0, before, peer, k1, r1);
    RunExplained(id, key, before);
    assert Has(Run(n0, before).peers, peer, k1);
  }

  /**
    What a run must have been for a capability of another node to count: the node
    was registered once, under the key the chain verifies with; its last sign of
    life since lies within the stale window and nothing cut it off after that;
    and the capability is addressed to this node and has not expired.
   */
  ghost predicate Entitled<H(!new)>(mac: Mac<H>, id: NodeId, key: Key, ops: seq<Op>, cap: RemoteCap<H>)
  {
    && cap.locality == Remote(cap.issuer)
    && cap.recipient == id && cap.chain.token.recipient == Some(id)
    && (cap.chain.token.expiry.Some? ==> Clock(ops) <= cap.chain.token.expiry.value)
    && exists peerKey: Key, r: nat, k: nat :: Vouches(mac, id, key, ops, cap, peerKey, r, k)
  }

  ghost predicate Vouches<H(!new)>(mac: Mac<H>, id: NodeId, key: Key, ops: seq<Op>, cap: RemoteCap<H>, peerKey: Key, r: nat, k: nat)
  {
    && LastSign(NewNode(id, key), ops, cap.issuer, peerKey, r, k)
    && !MarkedAfter(ops, cap.issuer, k)
    && Elapsed(Clock(ops), Clock(ops[..k])) <= Window(ops)
    && ChainVerifies(mac, peerKey, cap.chain)
  }

  /** Whatever the run, a capability of another node is accepted exactly when the history entitles it. */
  lemma FailClosed<H(!new)>(mac: Mac<H>, id: NodeId, key: Key, ops: seq<Op>, cap: RemoteCap<H>)
    requires cap.issuer != id
    ensures Verify(mac, Run(NewNode(id, key), ops), cap).Ok? <==> Entitled(mac, id, key, ops, cap)
  {
    if Verify(mac, Run(NewNode(id, key), ops), cap).Ok? { AcceptedIsEntitled(mac, id, key, ops, cap); }
    if Entitled(mac, id, key, ops, cap) { EntitledIsAccepted(mac, id, key, ops, cap); }
  }

  lemma AcceptedIsEntitled<H(!new)>(mac: Mac<H>, id: NodeId, key: Key, ops: seq<Op>, cap: RemoteCap<H>)
    requires cap.issuer != id && Verify(mac, Run(NewNode(id, key), ops), cap).Ok?
    ensures Entitled(mac, id, key, ops, cap)
  {
    hide Run, LastSign, MarkedAfter, ChainVerifies;
    var n0 := NewNode(id, key);
    var n := Run(n0, ops);
    RunExplained(id, key, ops);
    var p := n.peers[Find(n, cap.issuer).value].value;
    assert Explained(n0, ops, p);
    var r: nat, k: nat :| ExplainedBy(n0, ops, p, r, k);
    assert Vouches(mac, id, key, ops, cap, p.key, r, k);
  }

  /** The table entry of a registered peer holds what the history says. */
  lemma EntryIs(id: NodeId, key: Key, ops: seq<Op>, peer: NodeId, peerKey: Key, r: nat, k: nat)
    requires LastSign(NewNode(id, key), ops, peer, peerKey, r, k)
    ensures var n := Run(NewNode(id, key), ops);
            && Find(n, peer).Some?
            && n.peers[Find(n, peer).value].value == Peer(peer, peerKey, Some(Clock(ops[..k])), MarkedAfter(ops, peer, k))
  {
    hide Run, Clock, MarkedAfter;
    var n0 := NewNode(id, key);
    var n := Run(n0, ops);
    RunExplained(id, key, ops);
    assert Has(n.peers, peer, peerKey);
    var p := n.peers[Find(n, peer).value].value;
    assert Explained(n0, ops, p);
    var r': nat, k': nat :| ExplainedBy(n0, ops, p, r', k');
    RegisteredOnce(id, key, ops, peer, peerKey, r, p.key, r');
    assert k == k';
  }

  lemma EntitledIsAccepted<H(!new)>(mac: Mac<H>, id: NodeId, key: Key, ops: seq<Op>, cap: RemoteCap<H>)
    requires cap.issuer != id && Entitled(mac, id, key, ops, cap)
    ensures Verify(mac, Run(NewNode(id, key), ops), cap).Ok?
  {
    hide Run, LastSign, MarkedAfter, ChainVerifies, TableExplained, IdsDistinct, TableComplete;
    var peerKey: Key, r: nat, k: nat :| Vouches(mac, id, key, ops, cap, peerKey, r, k);
    EntryIs(id, key, ops, cap.issuer, peerKey, r, k);
    RunExplained(id, key, ops);
  }

  // ------------------------------------------------------------------
  // The object
  // ------------------------------------------------------------------

  class FleetNode {
    var id: NodeId
    var signingKey: Key
    var peers: PeerTable
    var now: u64
    var staleAfter: u64

    function State(): Node
      reads this
    {
      Node(id, signingKey, peers, now, staleAfter)
    }

    constructor (id: NodeId, signingKey: Key)
      ensures State() == NewNode(id, signingKey)
    {
      this.id, this.signingKey := id, signingKey;
      peers, now, staleAfter := seq(MAX_PEERS, _ => None), 0, 100;
    }

    /** `peers.iter().position(..)`. */
    method PeerIndex(id: NodeId) returns (r: Option<nat>)
      ensures r == Find(State(), id)
    {
      var i := 0;
      while i < MAX_PEERS
        invariant i <= MAX_PEERS && FindFrom(peers, id, i) == Find(State(), id)
      {
        if peers[i].Some? && peers[i].value.id == id { return Some(i); }
        i := i + 1;
      }
      return None;
    }

    method RegisterPeer(id: NodeId, key: Key) returns (r: Result<()>)
      modifies this
      ensures State() == OrElse(Registered(old(State()), id, key), old(State()))
      ensures match old(Registered(State(), id, key)) case Ok(_) => r == Ok(()) case Err(e) => r == Err(e)
    {
      var found := PeerIndex(id);
      if found.Some? { return Err(AlreadyRegistered); }
      var i := 0;
      while i < MAX_PEERS
        invariant i <= MAX_PEERS && State() == old(State()) && FreeFrom(peers, i) == FreeFrom(peers, 0)
      {
        if peers[i].None? {
          peers := peers[i := Some(Peer(id, key, Some(now), false))];
          return Ok(());
        }
        i := i + 1;
      }
      return Err(RegistryFull);
    }

    method Beat(peer: NodeId) returns (r: Result<()>)
      modifies this
      ensures State() == OrElse(HeartbeatFrom(old(State()), peer), old(State()))
      ensures r.Ok? <==> old(Find(State(), peer)).Some?
    {
      var found := PeerIndex(peer);
      if found.None? { return Err(UnknownPeer); }
      var i := found.value;
      peers := peers[i := Some(peers[i].value.(lastSeen := Some(now), unreachable := false))];
      return Ok(());
    }

    method MarkUnreachable(peer: NodeId) returns (r: Result<()>)
      modifies this
      ensures State() == OrElse(MarkedUnreachable(old(State()), peer), old(State()))
      ensures r.Ok? <==> old(Find(State(), peer)).Some?
    {
      var found := PeerIndex(peer);
      if found.None? { return Err(UnknownPeer); }
      var i := found.value;
      peers := peers[i := Some(peers[i].value.(unreachable := true))];
      return Ok(());
    }
  }
}
