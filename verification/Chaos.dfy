/**
  The randomized partition scenario of the chaos harness, for every seed.
 */
module Chaos {
  import opened Common
  import opened FleetWire
  import opened Fleet

  function Left13(x: bv64): bv64 { x ^ (x << 13) }

  function Right7(x: bv64): bv64 { x ^ (x >> 7) }

  function Left17(x: bv64): bv64 { x ^ (x << 17) }

  /** One xorshift64 step. */
  function Scramble(x: bv64): bv64 { Left17(Right7(Left13(x))) }

  lemma Left13NonZero(x: bv64)
    requires x != 0
    ensures Left13(x) != 0
  {}

  lemma Right7NonZero(x: bv64)
    requires x != 0
    ensures Right7(x) != 0
  {}

  lemma Left17NonZero(x: bv64)
    requires x != 0
    ensures Left17(x) != 0
  {}

  /** Each of the three steps maps only zero to zero, so the generator never gets stuck there. */
  lemma ScrambleNonZero(x: bv64)
    requires x != 0
    ensures Scramble(x) != 0
  {
    hide Left13, Right7, Left17;
    Left13NonZero(x);
    Right7NonZero(Left13(x));
    Left17NonZero(Right7(Left13(x)));
  }

  class Rng {
    var state: bv64

    constructor (seed: bv64)
      ensures state != 0
    {
      state := if seed == 0 then 0x9E37_79B9_7F4A_7C15 else seed;
    }

    method Next() returns (x: u64)
      requires state != 0
      modifies this
      ensures state == Scramble(old(state)) && x == state as int && state != 0
    {
      hide Scramble;
      ScrambleNonZero(state);
      state := Scramble(state);
      x := state as int;
    }

    method Below(n: u64) returns (r: u64)
      requires state != 0 && n != 0
      modifies this
      ensures state != 0 && r < n
    {
      var x := Next();
      r := x % n;
    }
  }

  function Fill(b: byte): Bytes32 { seq(32, _ => b) }

  /** Node B of the scenario: it trusts A alone, at time 0, cut off or not. */
  function NodeB(cut: bool): Node
  {
    NewNode(Fill(0x22), Fill(0xBB)).(peers := [Some(Peer(Fill(0x11), Fill(0xAA), Some(0), cut)), None, None, None])
  }

  /** What A sends to B in the scenario. */
  function Offer<H>(mac: Mac<H>, objectId: u64): RemoteCap<H>
  {
    var c := Mint(mac, Fill(0xAA), Fill(0x11), objectId, Task, 1, None);
    RemoteCap(BindRecipient(mac, Fill(0xAA), c, Fill(0x22)), Fill(0x11), Fill(0x22), Remote(Fill(0x11)))
  }

  lemma FillsDiffer()
    ensures Fill(0x11) != Fill(0x22)
  {
    assert Fill(0x11)[0] != Fill(0x22)[0];
  }

  lemma FindA(cut: bool)
    ensures Find(NodeB(cut), Fill(0x11)) == Some(0)
  {}

  /** B accepts the offer exactly while A is not cut off, and then names the reason. */
  lemma OfferVerdict<H>(mac: Mac<H>, objectId: u64, cut: bool)
    ensures Verify(mac, NodeB(cut), Offer(mac, objectId)) == if cut then Err(PeerUnreachable) else Ok(())
  {
    FillsDiffer();
    FindA(cut);
    var c := Mint(mac, Fill(0xAA), Fill(0x11), objectId, Task, 1, None);
    assert Identifier(c.token) == Identifier(c.token.(recipient := Some(Fill(0x22))));
    assert ChainVerifies(mac, Fill(0xAA), Offer(mac, objectId).chain);
  }

  /** Registering on a fresh node takes the first slot. */
  lemma FirstPeer(id: NodeId, key: Key, peer: NodeId, peerKey: Key)
    ensures Registered(NewNode(id, key), peer, peerKey)
            == Ok(NewNode(id, key).(peers := [Some(Peer(peer, peerKey, Some(0), false)), None, None, None]))
  {
    var n := NewNode(id, key);
    assert n.peers == [None, None, None, None];
    assert Find(n, peer).None? && FreeFrom(n.peers, 0) == Some(0);
    var p := Peer(peer, peerKey, Some(0), false);
    assert n.peers[0 := Some(p)] == [Some(p), None, None, None];
  }

  lemma Setup()
    ensures Registered(NewNode(Fill(0x22), Fill(0xBB)), Fill(0x11), Fill(0xAA)) == Ok(NodeB(false))
    ensures var a := Registered(NewNode(Fill(0x11), Fill(0xAA)), Fill(0x22), Fill(0xBB));
            a.Ok? && a.value.id == Fill(0x11) && a.value.key == Fill(0xAA) && Find(a.value, Fill(0x22)).Some?
  {
    FirstPeer(Fill(0x22), Fill(0xBB), Fill(0x11), Fill(0xAA));
    FirstPeer(Fill(0x11), Fill(0xAA), Fill(0x22), Fill(0xBB));
  }

  lemma MovesOfB(cut: bool)
    ensures MarkedUnreachable(NodeB(cut), Fill(0x11)) == Ok(NodeB(true))
    ensures HeartbeatFrom(NodeB(cut), Fill(0x11)) == Ok(NodeB(false))
  {
    FindA(cut);
    var peers := NodeB(cut).peers;
    assert forall p: Peer :: peers[0 := Some(p)] == [Some(p), None, None, None];
  }

  /** The scenario never fails open, whatever the seed and whatever the hash. */
  method NetworkPartition<H(==)>(mac: Mac<H>, rng: Rng) returns (ok: bool)
    requires rng.state != 0
    modifies rng
    ensures ok
  {
    hide Fill, NodeB, Offer, Registered, MarkedUnreachable, HeartbeatFrom, Verify, Mint, BindRecipient, Find;
    var a := new FleetNode(Fill(0x11), Fill(0xAA));
    var b := new FleetNode(Fill(0x22), Fill(0xBB));
    Setup();
    var r := a.RegisterPeer(Fill(0x22), Fill(0xBB));
    if r.Err? { return false; }
    r := b.RegisterPeer(Fill(0x11), Fill(0xAA));
    if r.Err? { return false; }
    var id := rng.Next();
    var objectId := id % 4096;
    var chain := Mint(mac, a.signingKey, a.id, objectId, Task, 1, None);
    var sent := SendTo(mac, a.State(), chain, Fill(0x22));
    if sent.Err? { return false; }
    OfferIsSent(mac, a.State(), objectId);
    var steps := rng.Below(5);
    var partitioned := false;
    var left := 4 + steps;
    while left > 0
      invariant rng.state != 0 && fresh(b)
      invariant b.State() == NodeB(partitioned)
    {
      var move := rng.Below(3);
      MovesOfB(partitioned);
      if move == 0 {
        r := b.MarkUnreachable(Fill(0x11));
        partitioned := true;
      } else if move == 1 {
        r := b.Beat(Fill(0x11));
        partitioned := false;
      } else {
        OfferVerdict(mac, objectId, partitioned);
        var verdict := Verify(mac, b.State(), sent.value);
        if partitioned {
          if verdict == Ok(()) { return false; }
          if verdict != Err(PeerUnreachable) { return false; }
        }
      }
      left := left - 1;
    }
    return true;
  }

  lemma OfferIsSent<H>(mac: Mac<H>, n: Node, objectId: u64)
    requires n.id == Fill(0x11) && n.key == Fill(0xAA) && Find(n, Fill(0x22)).Some?
    ensures SendTo(mac, n, Mint(mac, n.key, n.id, objectId, Task, 1, None), Fill(0x22)) == Ok(Offer(mac, objectId))
  {}
}
