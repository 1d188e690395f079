/**
  Fleet capability tokens and their fixed-width wire format.
 */
module FleetWire {
  import opened Common

  type Bytes32 = s: seq<byte> | |s| == 32 witness seq(32, _ => 0)
  type NodeId = Bytes32
  type Key = Bytes32

  datatype Result<+T> = Ok(value: T) | Err(error: FleetError)
  datatype FleetError = UnknownIssuer | UntrustedPeer | RegistryFull | AlreadyRegistered | ChainIntegrity
    | Expired | BadEnvelope | NotRecipient | PeerUnreachable | PeerStale | UnknownPeer

  datatype Kind = Endpoint | Task | MemRegion | Channel | NetEndpoint | Object

  datatype Token = Token(kernelId: Bytes32, objectId: u64, kind: Kind, rights: byte, expiry: Option<u64>, recipient: Option<NodeId>)

  /** A token with its keyed hash and, once a recipient is bound, a second one over the first. */
  datatype Chain<+H> = Chain(token: Token, root: H, bound: Option<H>)

  datatype Locality = Local | Remote(id: NodeId)

  datatype RemoteCap<+H> = RemoteCap(chain: Chain<H>, issuer: NodeId, recipient: NodeId, locality: Locality)

  function KindTag(k: Kind): byte
  {
    match k
    case Endpoint => 0
    case Task => 1
    case MemRegion => 2
    case Channel => 3
    case NetEndpoint => 4
    case Object => 5
  }

  function KindFromTag(t: byte): Option<Kind>
  {
    if t == 0 then Some(Endpoint) else if t == 1 then Some(Task) else if t == 2 then Some(MemRegion)
    else if t == 3 then Some(Channel) else if t == 4 then Some(NetEndpoint) else if t == 5 then Some(Object) else None
  }

  // ------------------------------------------------------------------
  // The identifier that the root hash covers
  // ------------------------------------------------------------------

  /** Everything but the recipient: kernel id, object id, kind, rights, expiry flag and value. */
  function Identifier(t: Token): (s: seq<byte>)
    ensures |s| == 51
  {
    t.kernelId + Le64(t.objectId) + [KindTag(t.kind), t.rights] + OptionalU64(t.expiry)
  }

  function OptionalU64(e: Option<u64>): (s: seq<byte>)
    ensures |s| == 9
  {
    match e
    case Some(n) => [1] + Le64(n)
    case None => [0] + Zeros(8)
  }

  function Optional32(e: Option<Bytes32>): (s: seq<byte>)
    ensures |s| == 33
  {
    match e
    case Some(b) => [1] + b
    case None => [0] + Zeros(32)
  }

  /** Tokens with the same identifier differ at most in their recipient. */
  lemma IdentifierInjective(t: Token, u: Token)
    requires Identifier(t) == Identifier(u)
    ensures t.(recipient := None) == u.(recipient := None)
  {
    SplitIdentifier(t);
    SplitIdentifier(u);
  }

  lemma SplitIdentifier(t: Token)
    ensures var s := Identifier(t);
            && s[..32] == t.kernelId
            && FromLe64(s[32..40]) == t.objectId
            && KindFromTag(s[40]) == Some(t.kind)
            && s[41] == t.rights
            && t.expiry == if s[42] == 1 then Some(FromLe64(s[43..51])) else None
  {
    hide Le64, FromLe64;
    var s := Identifier(t);
    Le64RoundTrip(t.objectId);
    assert s[32..40] == Le64(t.objectId);
    if t.expiry.Some? {
      Le64RoundTrip(t.expiry.value);
      assert s[43..51] == Le64(t.expiry.value);
    }
  }

  // ------------------------------------------------------------------
  // The envelope
  // ------------------------------------------------------------------

  const TOKEN_FIXED_LEN := 149
  const ENVELOPE_MAX := 246

  type WireChain = Chain<Bytes32>
  type WireCap = RemoteCap<Bytes32>

  function ChainBytes(c: WireChain): (s: seq<byte>)
    ensures |s| == TOKEN_FIXED_LEN
  {
    Identifier(c.token) + Optional32(c.token.recipient) + c.root + Optional32(c.bound)
  }

  function LocalityBytes(l: Locality): (s: seq<byte>)
    ensures 1 <= |s| <= 33
  {
    match l
    case Local => [0]
    case Remote(id) => [1] + id
  }

  function Wire(c: WireCap): (s: seq<byte>)
    ensures |s| <= ENVELOPE_MAX
  {
    c.issuer + c.recipient + LocalityBytes(c.locality) + ChainBytes(c.chain)
  }

  /** An optional field: any flag other than one reads as absent. */
  function ReadOptional32(s: seq<byte>): Option<Bytes32>
    requires |s| == 33
  {
    if s[0] == 1 then Some(s[1..]) else None
  }

  function DeserializeChain(d: seq<byte>): Result<WireChain>
  {
    if |d| < TOKEN_FIXED_LEN then Err(BadEnvelope) else
    var kind := KindFromTag(d[40]);
    if kind.None? then Err(BadEnvelope) else
    var expiry := if d[42] == 1 then Some(FromLe64(d[43..51])) else None;
    var token := Token(d[..32], FromLe64(d[32..40]), kind.value, d[41], expiry, ReadOptional32(d[51..84]));
    Ok(Chain(token, d[84..116], ReadOptional32(d[116..149])))
  }

  function Deserialize(d: seq<byte>): Result<WireCap>
  {
    if |d| < 65 then Err(BadEnvelope)
    else if d[64] != 0 && d[64] != 1 then Err(BadEnvelope)
    else if d[64] == 1 && |d| < 97 then Err(BadEnvelope) else
    var (locality, off) := if d[64] == 0 then (Local, 65) else (Remote(d[65..97]), 97);
    if |d| < off + TOKEN_FIXED_LEN then Err(BadEnvelope) else
    match DeserializeChain(d[off..off + TOKEN_FIXED_LEN])
    case Ok(chain) => Ok(RemoteCap(chain, d[..32], d[32..64], locality))
    case Err(e) => Err(e)
  }

  lemma ChainRoundTrip(c: WireChain)
    ensures DeserializeChain(ChainBytes(c)) == Ok(c)
  {
    hide Le64, FromLe64;
    var d, id := ChainBytes(c), Identifier(c.token);
    SplitIdentifier(c.token);
    assert d[..51] == id;
    assert d[..32] == id[..32] && d[32..40] == id[32..40] && d[43..51] == id[43..51];
    assert d[51..84] == Optional32(c.token.recipient);
    assert d[84..116] == c.root;
    assert d[116..149] == Optional32(c.bound);
    Optional32RoundTrip(c.token.recipient);
    Optional32RoundTrip(c.bound);
  }

  lemma Optional32RoundTrip(e: Option<Bytes32>)
    ensures ReadOptional32(Optional32(e)) == e
  {
    if e.Some? { assert ([1] + e.value)[1..] == e.value; }
  }

  /** Decoding inverts encoding, whatever follows on the wire, and the length never exceeds the buffer. */
  lemma WireRoundTrip(c: WireCap, rest: seq<byte>)
    ensures Deserialize(Wire(c) + rest) == Ok(c)
  {
    hide ChainBytes, DeserializeChain;
    var d, l := Wire(c) + rest, LocalityBytes(c.locality);
    assert d == c.issuer + (c.recipient + (l + (ChainBytes(c.chain) + rest)));
    assert d[..32] == c.issuer && d[32..64] == c.recipient;
    assert d[64] == l[0];
    assert c.locality.Remote? ==> d[65..97] == c.locality.id;
    var off := 64 + |l|;
    assert d[off..off + TOKEN_FIXED_LEN] == ChainBytes(c.chain);
    ChainRoundTrip(c.chain);
  }

  // ------------------------------------------------------------------
  // Filling the send buffer
  // ------------------------------------------------------------------

  method SerializeChain(c: WireChain, out: array<byte>, pos: nat) returns (n: nat)
    requires pos + TOKEN_FIXED_LEN <= out.Length
    modifies out
    ensures n == pos + TOKEN_FIXED_LEN
    ensures out[..n] == old(out[..pos]) + ChainBytes(c) && forall k | n <= k < out.Length :: out[k] == old(out[k])
  {
    hide Identifier, Optional32;
    n := CopyInto(out, pos, Identifier(c.token));
    n := CopyInto(out, n, Optional32(c.token.recipient));
    n := CopyInto(out, n, c.root);
    n := CopyInto(out, n, Optional32(c.bound));
  }

  /** The bytes written are exactly the envelope; the rest of the buffer is untouched. */
  method Serialize(c: WireCap, out: array<byte>) returns (n: nat)
    requires out.Length == ENVELOPE_MAX
    modifies out
    ensures n == |Wire(c)| && out[..n] == Wire(c) && forall k | n <= k < out.Length :: out[k] == old(out[k])
  {
    hide ChainBytes, LocalityBytes;
    n := CopyInto(out, 0, c.issuer);
    n := CopyInto(out, n, c.recipient);
    n := CopyInto(out, n, LocalityBytes(c.locality));
    n := SerializeChain(c.chain, out, n);
  }
}
