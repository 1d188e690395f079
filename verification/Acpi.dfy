/**
  ACPI tables: the checksummed header, the MADT's variable-length entries (section 5.2.12 of
  the ACPI specification) and the RSDP, each with its encoder.
 */
module Acpi {
  import opened Common

  const MAX_CPUS := 8
  const MAX_OVERRIDES := 8
  const FIXED := 44
  const BUFFER := 256

  // ------------------------------------------------------------------
  // Checksums
  // ------------------------------------------------------------------

  function Sum(s: seq<byte>): nat { if s == [] then 0 else Sum(s[..|s| - 1]) + s[|s| - 1] }

  lemma {:induction false} SumUpdate(s: seq<byte>, i: nat, v: byte)
    requires i < |s|
    ensures Sum(s[i := v]) == Sum(s) - s[i] + v
  {
    var n := |s| - 1;
    if i < n {
      SumUpdate(s[..n], i, v);
      assert s[i := v][..n] == s[..n][i := v];
    } else {
      assert s[i := v][..n] == s[..n];
    }
  }

  function Complement(n: nat): byte { (256 - n % 256) % 256 }

  lemma ComplementCancels(n: nat)
    ensures (n + Complement(n)) % 256 == 0
  {
  }

  /** The wrapping byte sum. */
  method Checksum(bytes: seq<byte>) returns (sum: byte)
    ensures sum == Sum(bytes) % 256
  {
    sum := 0;
    for i := 0 to |bytes|
      invariant sum == Sum(bytes[..i]) % 256
    {
      assert bytes[..i + 1][..i] == bytes[..i];
      sum := (sum + bytes[i]) % 256;
    }
    assert bytes[..|bytes|] == bytes;
  }

  /** Storing the complement in a zero byte makes a region sum to zero. */
  lemma Sealed(s: seq<byte>, i: nat)
    requires i < |s| && s[i] == 0
    ensures Sum(s[i := Complement(Sum(s))]) % 256 == 0
  {
    SumUpdate(s, i, Complement(Sum(s)));
    ComplementCancels(Sum(s));
  }

  // ------------------------------------------------------------------
  // The MADT
  // ------------------------------------------------------------------

  datatype LapicEntry = LapicEntry(processor: byte, apic: byte, enabled: bool)
  datatype IoApic = IoApic(id: byte, address: u32, gsiBase: u32)
  datatype IrqOverride = IrqOverride(source: byte, gsi: u32, flags: u16)

  datatype Madt = Madt(lapicAddress: u32, flags: u32, cpus: seq<LapicEntry>, cpuCount: nat,
                       ioapic: Option<IoApic>, overrides: seq<IrqOverride>, overrideCount: nat)
  {
    predicate Valid() { |cpus| == MAX_CPUS && |overrides| == MAX_OVERRIDES }
  }

  const NO_CPU := LapicEntry(0, 0, false)
  const NO_OVERRIDE := IrqOverride(0, 0, 0)

  datatype Entry = Cpu(cpu: LapicEntry) | Io(io: IoApic) | Override(over: IrqOverride) | Other

  /** An entry's meaning; anything unknown or too short means nothing. */
  function Decode(ty: byte, body: seq<byte>): Entry
  {
    if ty == 0 && |body| >= 6 then Cpu(LapicEntry(body[0], body[1], body[2] % 2 == 1))
    else if ty == 1 && |body| >= 10 then Io(IoApic(body[0], Read32(body, 2), Read32(body, 6)))
    else if ty == 2 && |body| >= 8 then Override(IrqOverride(body[1], Read32(body, 2), Read16(body, 6)))
    else Other
  }

  function Encode(e: Entry): (s: seq<byte>)
    requires e != Other
    ensures 8 <= |s| <= 12 && s[1] == |s|
  {
    match e
    case Cpu(c) => [0, 8, c.processor, c.apic, if c.enabled then 1 else 0, 0, 0, 0]
    case Io(i) => [1, 12, i.id, 0] + Le32(i.address) + Le32(i.gsiBase)
    case Override(o) => [2, 10, 0, o.source] + Le32(o.gsi) + Le16(o.flags)
  }

  lemma DecodeEncode(e: Entry)
    requires e != Other
    ensures var s := Encode(e); Decode(s[0], s[2..]) == e
  {
    hide Le32, Le16, Read32, Read16;
    var b := Encode(e)[2..];
    match e
    case Cpu(c) =>
    case Io(i) =>
      assert b == [i.id, 0] + Le32(i.address) + Le32(i.gsiBase);
      assert b[2..6] == Le32(i.address) && b[6..10] == Le32(i.gsiBase);
      Le32Reads(b, 2, i.address);
      Le32Reads(b, 6, i.gsiBase);
    case Override(o) =>
      assert b == [0, o.source] + Le32(o.gsi) + Le16(o.flags);
      assert b[2..6] == Le32(o.gsi) && b[6..8] == Le16(o.flags);
      Le32Reads(b, 2, o.gsi);
      Le16Reads(b, 6, o.flags);
  }

  /** The entries of the table from `pos` on, up to its end or the first malformed length. */
  function Walk(buf: seq<byte>, pos: nat, length: nat): seq<Entry>
    requires length <= |buf|
    decreases length - pos
  {
    if pos + 2 > length || buf[pos + 1] < 2 || pos + buf[pos + 1] > length then []
    else [Decode(buf[pos], buf[pos + 2..pos + buf[pos + 1]])] + Walk(buf, pos + buf[pos + 1], length)
  }

  function Cpus(es: seq<Entry>): seq<LapicEntry>
  {
    if es == [] then [] else
    var e := es[|es| - 1];
    Cpus(es[..|es| - 1]) + if e.Cpu? then [e.cpu] else []
  }

  function IoApics(es: seq<Entry>): seq<IoApic>
  {
    if es == [] then [] else
    var e := es[|es| - 1];
    IoApics(es[..|es| - 1]) + if e.Io? then [e.io] else []
  }

  function Overrides(es: seq<Entry>): seq<IrqOverride>
  {
    if es == [] then [] else
    var e := es[|es| - 1];
    Overrides(es[..|es| - 1]) + if e.Override? then [e.over] else []
  }

  /** The first eight elements, filled up with a default. */
  function FirstEight<T>(s: seq<T>, d: T): (r: seq<T>)
    ensures |r| == 8
  {
    seq(8, i requires 0 <= i => if i < |s| then s[i] else d)
  }

  /** The parsed view of a list of entries: the first of each kind, up to the caps. */
  function Kept(address: u32, flags: u32, es: seq<Entry>): (m: Madt)
    ensures m.Valid()
  {
    Madt(address, flags, FirstEight(Cpus(es), NO_CPU), Min(|Cpus(es)|, MAX_CPUS),
         if IoApics(es) == [] then None else Some(IoApics(es)[0]),
         FirstEight(Overrides(es), NO_OVERRIDE), Min(|Overrides(es)|, MAX_OVERRIDES))
  }

  datatype Parsed<+T> = Panics | Rejected | Table(table: T)

  /** The header's own checks: its declared length, a signature, the checksum over the whole table. */
  predicate HeaderOk(buf: seq<byte>)
  {
    && |buf| >= 36 && 36 <= Read32(buf, 4) <= |buf|
    && buf[..4] != [0, 0, 0, 0] && Sum(buf[..Read32(buf, 4)]) % 256 == 0
  }

  const APIC: seq<byte> := [65, 80, 73, 67]

  /** What a MADT parse must give. */
  function Meaning(buf: seq<byte>): Parsed<Madt>
  {
    if !HeaderOk(buf) || buf[..4] != APIC then Rejected
    else if |buf| < FIXED then Panics
    else Table(Kept(Read32(buf, 36), Read32(buf, 40), Walk(buf, FIXED, Read32(buf, 4))))
  }

  /** One arm of the walk's match. */
  function Keep(m: Madt, e: Entry): Madt
    requires m.Valid()
  {
    match e
    case Cpu(c) => if m.cpuCount < MAX_CPUS then m.(cpus := m.cpus[m.cpuCount := c], cpuCount := m.cpuCount + 1) else m
    case Io(i) => if m.ioapic.None? then m.(ioapic := Some(i)) else m
    case Override(o) =>
      if m.overrideCount < MAX_OVERRIDES then m.(overrides := m.overrides[m.overrideCount := o], overrideCount := m.overrideCount + 1) else m
    case Other => m
  }

  lemma KeptStep(a: u32, f: u32, es: seq<Entry>, e: Entry)
    ensures Kept(a, f, es + [e]) == Keep(Kept(a, f, es), e)
  {
    assert (es + [e])[..|es|] == es;
  }

  predicate Ends(buf: seq<byte>, pos: nat, length: nat)
    requires length <= |buf|
  {
    pos + 2 > length || buf[pos + 1] < 2 || pos + buf[pos + 1] > length
  }

  lemma WalkStep(buf: seq<byte>, pos: nat, length: nat)
    requires length <= |buf|
    ensures if Ends(buf, pos, length) then Walk(buf, pos, length) == []
            else Walk(buf, pos, length) == [Decode(buf[pos], buf[pos + 2..pos + buf[pos + 1]])] + Walk(buf, pos + buf[pos + 1], length)
  {
    hide Decode;
  }

  lemma KeptNothing(a: u32, f: u32)
    ensures Kept(a, f, []) == Madt(a, f, seq(MAX_CPUS, _ => NO_CPU), 0, None, seq(MAX_OVERRIDES, _ => NO_OVERRIDE), 0)
  {
  }

  /** The walk over the entries. It survives exactly the tables that are not well-formed MADTs in fewer than 44 bytes. */
  method ParseMadt(buf: seq<byte>) returns (r: Parsed<Madt>)
    ensures r == Meaning(buf)
    ensures r == Panics <==> HeaderOk(buf) && buf[..4] == APIC && |buf| < FIXED
  {
    hide Walk, Kept, Keep, Decode, Sum, Read32;
    var header := ParseSdtHeader(buf);
    if header.None? || header.value.signature != APIC { return Rejected; }
    var length := header.value.length;
    if |buf| < FIXED { return Panics; }
    var address, flags := Read32(buf, 36), Read32(buf, 40);
    KeptNothing(address, flags);
    var m := Madt(address, flags, seq(MAX_CPUS, _ => NO_CPU), 0, None, seq(MAX_OVERRIDES, _ => NO_OVERRIDE), 0);
    ghost var all := Walk(buf, FIXED, length);
    ghost var es: seq<Entry> := [];
    var pos: nat := FIXED;
    while pos < length
      invariant es + Walk(buf, pos, length) == all && m == Kept(address, flags, es)
    {
      WalkStep(buf, pos, length);
      if length - pos < 2 { break; }
      var elen := buf[pos + 1];
      if elen < 2 || pos + elen > length { break; }
      var e := Decode(buf[pos], buf[pos + 2..pos + elen]);
      KeptStep(address, flags, es, e);
      m := Keep(m, e);
      es := es + [e];
      pos := pos + elen;
    }
    WalkStep(buf, pos, length);
    assert all == es;
    r := Table(m);
  }

  datatype SdtHeader = SdtHeader(signature: seq<byte>, length: nat, revision: byte, checksum: byte, oemId: seq<byte>,
                                 oemTableId: seq<byte>, oemRevision: nat, creatorId: nat, creatorRevision: nat)

  /** The fields of the first 36 bytes. */
  function HeaderOf(buf: seq<byte>): SdtHeader
    requires |buf| >= 36
  {
    SdtHeader(buf[..4], Read32(buf, 4), buf[9], buf[8], buf[10..16], buf[16..24], Read32(buf, 24), Read32(buf, 28), Read32(buf, 32))
  }

  method ParseSdtHeader(buf: seq<byte>) returns (r: Option<SdtHeader>)
    ensures r == if HeaderOk(buf) then Some(HeaderOf(buf)) else None
  {
    if |buf| < 36 { return None; }
    var length := Read32(buf, 4);
    if length < 36 || length > |buf| || buf[..4] == [0, 0, 0, 0] { return None; }
    var sum := Checksum(buf[..length]);
    if sum != 0 { return None; }
    r := Some(HeaderOf(buf));
  }

  // ------------------------------------------------------------------
  // The MADT encoder
  // ------------------------------------------------------------------

  function EncodeAll(es: seq<Entry>): seq<byte>
    requires Other !in es
  {
    if es == [] then [] else Encode(es[0]) + EncodeAll(es[1..])
  }

  lemma EncodeCons(e: Entry, es: seq<Entry>)
    requires e != Other && Other !in es
    ensures EncodeAll([e] + es) == Encode(e) + EncodeAll(es)
  {
    hide Encode;
    assert ([e] + es)[1..] == es;
  }

  lemma {:induction false} EncodeConcat(a: seq<Entry>, b: seq<Entry>)
    requires Other !in a && Other !in b
    ensures EncodeAll(a + b) == EncodeAll(a) + EncodeAll(b)
  {
    hide Encode, EncodeAll;
    if a == [] {
      EncodeNothing();
      assert a + b == b;
    } else {
      var e, rest := a[0], a[1..];
      EncodeConcat(rest, b);
      EncodeCons(e, rest);
      EncodeCons(e, rest + b);
      assert a == [e] + rest && a + b == [e] + (rest + b);
    }
  }

  lemma EncodeNothing()
    ensures EncodeAll([]) == []
  {
  }

  /** Walking encoded entries gives the entries back. */
  lemma {:induction false} WalkEncoded(buf: seq<byte>, pos: nat, length: nat, es: seq<Entry>)
    requires Other !in es && pos <= length <= |buf| && buf[pos..length] == EncodeAll(es)
    ensures Walk(buf, pos, length) == es
    decreases |es|
  {
    hide Walk, Encode, Decode;
    WalkStep(buf, pos, length);
    if es != [] {
      var s, rest := Encode(es[0]), EncodeAll(es[1..]);
      FrontIs(buf, pos, length, s, rest);
      DecodeEncode(es[0]);
      WalkEncoded(buf, pos + |s|, length, es[1..]);
    }
  }

  lemma FrontIs(buf: seq<byte>, pos: nat, length: nat, s: seq<byte>, rest: seq<byte>)
    requires pos <= length <= |buf| && buf[pos..length] == s + rest && |s| >= 2
    ensures pos + |s| <= length && buf[pos] == s[0] && buf[pos + 1] == s[1]
    ensures buf[pos + 2..pos + |s|] == s[2..] && buf[pos + |s|..length] == rest
  {
    var all := buf[pos..length];
    assert buf[pos] == all[0] && buf[pos + 1] == all[1];
    assert forall j | pos <= j < length :: buf[j] == all[j - pos];
    assert buf[pos + 2..pos + |s|] == s[2..];
    assert buf[pos + |s|..length] == all[|s|..] == rest;
  }

  function CpuEntries(s: seq<LapicEntry>): seq<Entry> { seq(|s|, i requires 0 <= i < |s| => Cpu(s[i])) }

  function OverrideEntries(s: seq<IrqOverride>): seq<Entry> { seq(|s|, i requires 0 <= i < |s| => Override(s[i])) }

  /** The entries the encoder writes. */
  function Listed(m: Madt): (es: seq<Entry>)
    requires m.Valid()
    ensures Other !in es && |es| <= MAX_CPUS + 1 + MAX_OVERRIDES
  {
    CpuEntries(m.cpus[..Min(m.cpuCount, MAX_CPUS)]) + (if m.ioapic.Some? then [Io(m.ioapic.value)] else [])
    + OverrideEntries(m.overrides[..Min(m.overrideCount, MAX_OVERRIDES)])
  }

  lemma FiltersNothing()
    ensures Cpus([]) == [] && IoApics([]) == [] && Overrides([]) == []
  {
  }

  lemma FiltersSnoc(es: seq<Entry>, e: Entry)
    ensures Cpus(es + [e]) == Cpus(es) + if e.Cpu? then [e.cpu] else []
    ensures IoApics(es + [e]) == IoApics(es) + if e.Io? then [e.io] else []
    ensures Overrides(es + [e]) == Overrides(es) + if e.Override? then [e.over] else []
  {
    assert (es + [e])[..|es|] == es;
  }

  lemma {:induction false} FiltersConcat(a: seq<Entry>, b: seq<Entry>)
    ensures Cpus(a + b) == Cpus(a) + Cpus(b) && IoApics(a + b) == IoApics(a) + IoApics(b) && Overrides(a + b) == Overrides(a) + Overrides(b)
  {
    hide Cpus, IoApics, Overrides;
    if b == [] {
      FiltersNothing();
      assert a + b == a;
    } else {
      var c, e := b[..|b| - 1], b[|b| - 1];
      FiltersConcat(a, c);
      assert a + b == a + c + [e] && b == c + [e];
      FiltersSnoc(a + c, e);
      FiltersSnoc(c, e);
    }
  }

  lemma {:induction false} OnlyCpus(s: seq<LapicEntry>)
    ensures var es := CpuEntries(s); Cpus(es) == s && IoApics(es) == [] && Overrides(es) == []
  {
    if s != [] {
      OnlyCpus(s[..|s| - 1]);
      assert CpuEntries(s)[..|s| - 1] == CpuEntries(s[..|s| - 1]);
    }
  }

  lemma {:induction false} OnlyOverrides(s: seq<IrqOverride>)
    ensures var es := OverrideEntries(s); Overrides(es) == s && IoApics(es) == [] && Cpus(es) == []
  {
    if s != [] {
      OnlyOverrides(s[..|s| - 1]);
      assert OverrideEntries(s)[..|s| - 1] == OverrideEntries(s[..|s| - 1]);
    }
  }

  lemma ListedFilters(m: Madt)
    requires m.Valid()
    ensures var es := Listed(m);
            && Cpus(es) == m.cpus[..Min(m.cpuCount, MAX_CPUS)]
            && IoApics(es) == (if m.ioapic.Some? then [m.ioapic.value] else [])
            && Overrides(es) == m.overrides[..Min(m.overrideCount, MAX_OVERRIDES)]
  {
    var a, c := CpuEntries(m.cpus[..Min(m.cpuCount, MAX_CPUS)]), OverrideEntries(m.overrides[..Min(m.overrideCount, MAX_OVERRIDES)]);
    var b := if m.ioapic.Some? then [Io(m.ioapic.value)] else [];
    OnlyCpus(m.cpus[..Min(m.cpuCount, MAX_CPUS)]);
    OnlyOverrides(m.overrides[..Min(m.overrideCount, MAX_OVERRIDES)]);
    FiltersConcat(a + b, c);
    FiltersConcat(a, b);
  }

  /** Counts within the caps, unused slots at their defaults. */
  predicate Canonical(m: Madt)
    requires m.Valid()
  {
    && m.cpuCount <= MAX_CPUS && m.overrideCount <= MAX_OVERRIDES
    && (forall i | m.cpuCount <= i < MAX_CPUS :: m.cpus[i] == NO_CPU)
    && (forall i | m.overrideCount <= i < MAX_OVERRIDES :: m.overrides[i] == NO_OVERRIDE)
  }

  /** What survives encoding: everything, exactly when the structure is canonical. */
  lemma KeptListed(m: Madt)
    requires m.Valid()
    ensures Kept(m.lapicAddress, m.flags, Listed(m)) == m <==> Canonical(m)
  {
    hide Listed, Cpus, IoApics, Overrides;
    ListedFilters(m);
    var k := Kept(m.lapicAddress, m.flags, Listed(m));
    if Canonical(m) {
      assert k.cpus == m.cpus && k.overrides == m.overrides;
    }
    if k == m {
      assert forall i | m.cpuCount <= i < MAX_CPUS :: m.cpus[i] == k.cpus[i];
      assert forall i | m.overrideCount <= i < MAX_OVERRIDES :: m.overrides[i] == k.overrides[i];
    }
  }

  /** The fixed part before its checksum is filled in. */
  function FixedPart(length: u32, address: u32, flags: u32): (s: seq<byte>)
    ensures |s| == FIXED && s[8] == 0
  {
    APIC + Le32(length) + [0, 1] + Zeros(26) + Le32(address) + Le32(flags)
  }

  lemma {:induction false} EncodedLength(es: seq<Entry>)
    requires Other !in es
    ensures |EncodeAll(es)| <= 12 * |es|
  {
    hide Encode;
    if es != [] { EncodedLength(es[1..]); }
  }

  /** The bytes of a MADT. */
  ghost function TableOf(m: Madt): (s: seq<byte>)
    requires m.Valid()
  {
    var body := EncodeAll(Listed(m));
    EncodedLength(Listed(m));
    Seal(FixedPart(FIXED + |body|, m.lapicAddress, m.flags) + body, 8)
  }

  function Seal(s: seq<byte>, i: nat): (r: seq<byte>)
    requires i < |s| && s[i] == 0
    ensures |r| == |s| && Sum(r) % 256 == 0
  {
    Sealed(s, i);
    s[i := Complement(Sum(s))]
  }

  lemma FixedFields(length: u32, address: u32, flags: u32)
    ensures var s := FixedPart(length, address, flags);
            s[..4] == APIC && s[4..8] == Le32(length) && s[36..40] == Le32(address) && s[40..44] == Le32(flags)
  {
    hide Le32;
  }

  lemma SealKeeps(s: seq<byte>, i: nat, a: nat, b: nat)
    requires i < |s| && s[i] == 0 && a <= b <= |s| && !(a <= i < b)
    ensures Seal(s, i)[a..b] == s[a..b]
  {
  }

  /** Any buffer beginning with a built table parses to the entries that were listed. */
  lemma ParseBuilt(m: Madt, buf: seq<byte>)
    requires m.Valid() && |TableOf(m)| <= |buf| && buf[..|TableOf(m)|] == TableOf(m)
    ensures Meaning(buf) == Table(Kept(m.lapicAddress, m.flags, Listed(m)))
  {
    hide Listed, EncodeAll, Kept, Le32, Read32, Sum, Seal, FixedPart, Walk;
    var es := Listed(m);
    var body := EncodeAll(es);
    EncodedLength(es);
    var length := FIXED + |body|;
    var fixed := FixedPart(length, m.lapicAddress, m.flags);
    FixedFields(length, m.lapicAddress, m.flags);
    var s := fixed + body;
    TableFields(buf, s, fixed, body);
    Le32Reads(buf, 4, length);
    Le32Reads(buf, 36, m.lapicAddress);
    Le32Reads(buf, 40, m.flags);
    WalkEncoded(buf, FIXED, length, es);
  }

  lemma TableFields(buf: seq<byte>, s: seq<byte>, fixed: seq<byte>, body: seq<byte>)
    requires |fixed| == FIXED && fixed[8] == 0 && s == fixed + body && |s| <= |buf| && buf[..|s|] == Seal(s, 8)
    ensures buf[..4] == fixed[..4] && buf[4..8] == fixed[4..8] && buf[36..40] == fixed[36..40] && buf[40..44] == fixed[40..44]
    ensures buf[FIXED..|s|] == body
  {
    SealKeeps(s, 8, 0, 4);
    SealKeeps(s, 8, 4, 8);
    SealKeeps(s, 8, 36, 40);
    SealKeeps(s, 8, 40, 44);
    SealKeeps(s, 8, FIXED, |s|);
    hide Seal;
    var t := Seal(s, 8);
    assert buf[..4] == buf[..|s|][..4] && buf[4..8] == t[4..8] && buf[36..40] == t[36..40] && buf[40..44] == t[40..44] && buf[FIXED..|s|] == t[FIXED..];
  }

  /** The round trip: exactly the canonical structures come back unchanged. */
  lemma RoundTripIffCanonical(m: Madt, buf: seq<byte>)
    requires m.Valid() && |TableOf(m)| <= |buf| && buf[..|TableOf(m)|] == TableOf(m)
    ensures Meaning(buf) == Table(m) <==> Canonical(m)
  {
    ParseBuilt(m, buf);
    KeptListed(m);
  }

  /** `prefix` and zeros after it. */
  ghost predicate Filled(b: seq<byte>, prefix: seq<byte>)
  {
    |prefix| <= BUFFER && b == prefix + Zeros(BUFFER - |prefix|)
  }

  /** A buffer holding the fixed part and these entries, `len` bytes in all. */
  ghost predicate Written(b: seq<byte>, fixed: seq<byte>, es: seq<Entry>, len: nat)
  {
    Other !in es && len == |fixed| + |EncodeAll(es)| && Filled(b, fixed + EncodeAll(es))
  }

  lemma FilledGrows(b: seq<byte>, prefix: seq<byte>, data: seq<byte>)
    requires Filled(b, prefix) && |prefix| + |data| <= BUFFER
    ensures Filled(b[..|prefix|] + data + b[|prefix| + |data|..], prefix + data)
  {
  }

  lemma WrittenGrows(b: seq<byte>, fixed: seq<byte>, es: seq<Entry>, len: nat, e: Entry)
    requires e != Other && Written(b, fixed, es, len) && len + |Encode(e)| <= BUFFER && |b| == BUFFER
    ensures Written(b[..len] + Encode(e) + b[len + |Encode(e)|..], fixed, es + [e], len + |Encode(e)|)
  {
    hide Filled, Encode;
    EncodeConcat(es, [e]);
    assert [e][1..] == [];
    assert EncodeAll([e]) == Encode(e);
    FilledGrows(b, fixed + EncodeAll(es), Encode(e));
    assert fixed + EncodeAll(es) + Encode(e) == fixed + EncodeAll(es + [e]);
  }

  method WriteEntry(buf: array<byte>, len: nat, e: Entry, ghost fixed: seq<byte>, ghost es: seq<Entry>) returns (next: nat)
    requires buf.Length == BUFFER && e != Other && Written(buf[..], fixed, es, len) && len + |Encode(e)| <= BUFFER
    modifies buf
    ensures next == len + |Encode(e)| && Written(buf[..], fixed, es + [e], next)
  {
    hide Written, Encode;
    WrittenGrows(buf[..], fixed, es, len, e);
    ghost var was := buf[..];
    next := CopyInto(buf, len, Encode(e));
    assert buf[..] == buf[..next] + buf[next..] == was[..len] + Encode(e) + was[next..];
  }

  lemma CpusSnoc(s: seq<LapicEntry>, i: nat)
    requires i < |s|
    ensures CpuEntries(s[..i + 1]) == CpuEntries(s[..i]) + [Cpu(s[i])]
  {
  }

  lemma OverridesSnoc(s: seq<IrqOverride>, i: nat)
    requires i < |s|
    ensures OverrideEntries(s[..i + 1]) == OverrideEntries(s[..i]) + [Override(s[i])]
  {
  }

  method WriteCpus(buf: array<byte>, m: Madt, ghost fixed: seq<byte>) returns (len: nat)
    requires m.Valid() && buf.Length == BUFFER && Written(buf[..], fixed, [], FIXED)
    modifies buf
    ensures len <= FIXED + 64 && Written(buf[..], fixed, CpuEntries(m.cpus[..Min(m.cpuCount, MAX_CPUS)]), len)
  {
    hide Written, CpuEntries;
    len := FIXED;
    EmptyLists();
    assert m.cpus[..0] == [];
    for i := 0 to Min(m.cpuCount, MAX_CPUS)
      invariant len == FIXED + 8 * i && Written(buf[..], fixed, CpuEntries(m.cpus[..i]), len)
    {
      CpusSnoc(m.cpus, i);
      len := WriteEntry(buf, len, Cpu(m.cpus[i]), fixed, CpuEntries(m.cpus[..i]));
    }
  }

  lemma EmptyLists()
    ensures CpuEntries([]) == [] && OverrideEntries([]) == []
  {
  }

  method WriteOverrides(buf: array<byte>, m: Madt, start: nat, ghost fixed: seq<byte>, ghost es: seq<Entry>) returns (len: nat)
    requires m.Valid() && buf.Length == BUFFER && start <= FIXED + 76 && Written(buf[..], fixed, es, start)
    modifies buf
    ensures Written(buf[..], fixed, es + OverrideEntries(m.overrides[..Min(m.overrideCount, MAX_OVERRIDES)]), len)
  {
    hide Written, OverrideEntries;
    len := start;
    EmptyLists();
    assert m.overrides[..0] == [] && es + [] == es;
    for i := 0 to Min(m.overrideCount, MAX_OVERRIDES)
      invariant len == start + 10 * i && Written(buf[..], fixed, es + OverrideEntries(m.overrides[..i]), len)
    {
      OverridesSnoc(m.overrides, i);
      var e := Override(m.overrides[i]);
      assert es + (OverrideEntries(m.overrides[..i]) + [e]) == es + OverrideEntries(m.overrides[..i]) + [e];
      len := WriteEntry(buf, len, e, fixed, es + OverrideEntries(m.overrides[..i]));
    }
  }

  lemma ZeroLength()
    ensures Le32(0) == [0, 0, 0, 0]
  {
  }

  /** The fixed part with the length still zero. */
  method WriteFixed(buf: array<byte>, m: Madt)
    requires buf.Length == BUFFER && forall k | 0 <= k < BUFFER :: buf[k] == 0
    modifies buf
    ensures Written(buf[..], FixedPart(0, m.lapicAddress, m.flags), [], FIXED)
  {
    hide Le32;
    ZeroLength();
    var next := CopyInto(buf, 0, APIC);
    assert buf[..] == APIC + Zeros(252);
    buf[9] := 1;
    ghost var head := APIC + Zeros(5) + [1] + Zeros(26);
    assert buf[..] == head + Zeros(220);
    next := CopyInto(buf, 36, Le32(m.lapicAddress));
    assert buf[..] == head + Le32(m.lapicAddress) + Zeros(216);
    next := CopyInto(buf, next, Le32(m.flags));
    assert buf[..] == head + Le32(m.lapicAddress) + Le32(m.flags) + Zeros(212);
    assert head == APIC + Le32(0) + [0, 1] + Zeros(26);
  }

  lemma LengthStored(b: seq<byte>, address: u32, flags: u32, body: seq<byte>, n: u32)
    requires Filled(b, FixedPart(0, address, flags) + body)
    ensures Filled(b[..4] + Le32(n) + b[8..], FixedPart(n, address, flags) + body)
  {
    var z, f := FixedPart(0, address, flags), FixedPart(n, address, flags);
    FixedLength(n, address, flags);
    hide FixedPart, Le32;
    assert b[..4] == z[..4];
    assert b[8..] == z[8..] + body + Zeros(BUFFER - |z + body|);
  }

  lemma FixedLength(n: u32, address: u32, flags: u32)
    ensures var z := FixedPart(0, address, flags); FixedPart(n, address, flags) == z[..4] + Le32(n) + z[8..]
  {
    hide Le32;
  }

  lemma ChecksumStored(b: seq<byte>, s: seq<byte>, sum: byte)
    requires Filled(b, s) && |s| > 8 && s[8] == 0 && sum == Sum(s) % 256
    ensures Filled(b[8 := Complement(sum)], Seal(s, 8))
  {
    hide Sum;
    assert Complement(sum) == Complement(Sum(s));
  }

  lemma TableIs(m: Madt)
    requires m.Valid()
    ensures var body := EncodeAll(Listed(m)); var n := FIXED + |body|;
            |TableOf(m)| == n < BUFFER && TableOf(m) == Seal(FixedPart(n, m.lapicAddress, m.flags) + body, 8)
  {
    hide EncodeAll, Listed, Seal, FixedPart;
    EncodedLength(Listed(m));
  }

  /** Length and checksum, last. */
  method Finish(buf: array<byte>, len: nat, m: Madt)
    requires m.Valid() && buf.Length == BUFFER && Written(buf[..], FixedPart(0, m.lapicAddress, m.flags), Listed(m), len)
    modifies buf
    ensures len == |TableOf(m)| && Filled(buf[..], TableOf(m))
  {
    hide EncodeAll, Listed, Seal, FixedPart, TableOf, Le32, Sum, Complement;
    ghost var body := EncodeAll(Listed(m));
    TableIs(m);
    LengthStored(buf[..], m.lapicAddress, m.flags, body, len);
    ghost var was := buf[..];
    var next := CopyInto(buf, 4, Le32(len));
    assert buf[..] == buf[..next] + buf[next..] == was[..4] + Le32(len) + was[8..];
    ghost var s := FixedPart(len, m.lapicAddress, m.flags) + body;
    assert buf[..len] == s;
    var sum := Checksum(buf[..len]);
    ChecksumStored(buf[..], s, sum);
    ghost var before := buf[..];
    buf[8] := Complement(sum);
    assert buf[..] == before[8 := Complement(sum)];
  }

  method BuildMadt(m: Madt) returns (buf: array<byte>, len: nat)
    requires m.Valid()
    ensures fresh(buf) && len == |TableOf(m)| && Filled(buf[..], TableOf(m))
  {
    hide Written, Filled, FixedPart, CpuEntries, OverrideEntries, TableOf;
    buf := new byte[BUFFER](_ => 0);
    ghost var fixed := FixedPart(0, m.lapicAddress, m.flags);
    WriteFixed(buf, m);
    len := WriteCpus(buf, m, fixed);
    ghost var es := CpuEntries(m.cpus[..Min(m.cpuCount, MAX_CPUS)]);
    if m.ioapic.Some? {
      len := WriteEntry(buf, len, Io(m.ioapic.value), fixed, es);
      es := es + [Io(m.ioapic.value)];
    }
    len := WriteOverrides(buf, m, len, fixed, es);
    assert es + OverrideEntries(m.overrides[..Min(m.overrideCount, MAX_OVERRIDES)]) == Listed(m);
    Finish(buf, len, m);
  }

  /** Build and parse back, as the kernel's own round trip does. */
  method Rebuild(m: Madt) returns (r: Parsed<Madt>)
    requires m.Valid()
    ensures r == Table(Kept(m.lapicAddress, m.flags, Listed(m)))
    ensures r == Table(m) <==> Canonical(m)
  {
    hide TableOf, Meaning, Kept, Listed, Canonical;
    var buf, len := BuildMadt(m);
    assert buf[..][..len] == TableOf(m);
    ParseBuilt(m, buf[..]);
    KeptListed(m);
    r := ParseMadt(buf[..]);
  }

  /** A checksummed header and nothing else is a MADT the parser does not survive. */
  lemma ShortMadtPanics()
    ensures Meaning(Seal(APIC + Le32(36) + Zeros(28), 8)) == Panics
  {
    hide Seal, Le32, Read32, Sum;
    var s := APIC + Le32(36) + Zeros(28);
    SealKeeps(s, 8, 0, 4);
    SealKeeps(s, 8, 4, 8);
    var t := Seal(s, 8);
    assert t[..4] == t[0..4] == APIC && t[4..8] == Le32(36);
    Le32Reads(t, 4, 36);
    assert t[..36] == t;
  }

  // ------------------------------------------------------------------
  // The RSDP
  // ------------------------------------------------------------------

  datatype Rsdp = Rsdp(revision: byte, rsdt: u32, xsdt: u64)

  const RSD_PTR: seq<byte> := [82, 83, 68, 32, 80, 84, 82, 32]
  const OEM: seq<byte> := [65, 69, 71, 73, 83, 32]

  function ParseRsdp(buf: seq<byte>): Option<Rsdp>
  {
    if |buf| < 36 || buf[..8] != RSD_PTR || Sum(buf[..20]) % 256 != 0 || buf[15] > 2 || Read32(buf, 16) == 0 then None
    else if buf[15] >= 2 && Sum(buf[..36]) % 256 != 0 then None
    else Some(Rsdp(buf[15], Read32(buf, 16), if buf[15] >= 2 then FromLe64(buf[24..32]) else 0))
  }

  /** The first 20 bytes carry their own checksum; revision 2 adds one over all 36. */
  function BuildRsdp(rev: byte, rsdt: u32, xsdt: u64): (s: seq<byte>)
    ensures |s| == 36
  {
    var first := Seal(RSD_PTR + [0] + OEM + [rev] + Le32(rsdt), 8);
    if rev >= 2 then Seal(first + Le32(36) + Le64(xsdt) + Zeros(4), 32) else first + Zeros(16)
  }

  lemma RsdpHead(rev: byte, rsdt: u32)
    ensures var s := RSD_PTR + [0] + OEM + [rev] + Le32(rsdt); var t := Seal(s, 8);
            |t| == 20 && t[..8] == RSD_PTR && t[15] == rev && t[16..20] == Le32(rsdt) && Sum(t) % 256 == 0
  {
    hide Le32, Sum, Seal;
    var s := RSD_PTR + [0] + OEM + [rev] + Le32(rsdt);
    SealKeeps(s, 8, 0, 8);
    SealKeeps(s, 8, 15, 16);
    SealKeeps(s, 8, 16, 20);
    var t := Seal(s, 8);
    assert t[..8] == t[0..8] && t[15] == t[15..16][0] && s[15] == s[15..16][0];
  }

  lemma RsdpTail(first: seq<byte>, xsdt: u64)
    requires |first| == 20
    ensures var t := Seal(first + Le32(36) + Le64(xsdt) + Zeros(4), 32);
            |t| == 36 && t[..20] == first && t[24..32] == Le64(xsdt) && Sum(t) % 256 == 0
  {
    hide Le32, Le64, Sum, Seal;
    var s := first + Le32(36) + Le64(xsdt) + Zeros(4);
    SealKeeps(s, 32, 0, 20);
    SealKeeps(s, 32, 24, 32);
    var t := Seal(s, 32);
    assert t[..20] == t[0..20] && s[0..20] == first && s[24..32] == Le64(xsdt);
  }

  /** A built RSDP parses back, unless its revision is unknown or it has no RSDT; before revision 2 the XSDT is dropped. */
  lemma RsdpRoundTrip(rev: byte, rsdt: u32, xsdt: u64)
    ensures ParseRsdp(BuildRsdp(rev, rsdt, xsdt))
            == if rev > 2 || rsdt == 0 then None else Some(Rsdp(rev, rsdt, if rev == 2 then xsdt else 0))
  {
    hide Le32, Le64, Read32, FromLe64, Sum, Seal;
    var first := Seal(RSD_PTR + [0] + OEM + [rev] + Le32(rsdt), 8);
    var b := BuildRsdp(rev, rsdt, xsdt);
    RsdpHead(rev, rsdt);
    RsdpTail(first, xsdt);
    assert b[..20] == first && b[..36] == b;
    assert b[..8] == b[..20][..8] && b[15] == b[..20][15] && b[16..20] == b[..20][16..];
    Le32Reads(b, 16, rsdt);
    if rev >= 2 { Le64RoundTrip(xsdt); }
  }
}
