/**
  Reading a finished image: the build script's own chain walk, and the kernel's
  independent FAT16 reader.
 */
module FatReader {
  import opened Common
  import opened FatImage

  // ------------------------------------------------------------------
  // Directory entries in place
  // ------------------------------------------------------------------

  lemma EntryReads(disk: seq<byte>, off: nat, name: Name11, attr: byte, cluster: nat, size: nat)
    requires At(disk, off, Entry(name, attr, cluster, size)) && cluster < 65536 && size < 0x1_0000_0000
    ensures off + 32 <= |disk| && disk[off..off + 11] == name && disk[off + 11] == attr && disk[off] == name[0]
    ensures Read16(disk, off + 26) == cluster && Read32(disk, off + 28) == size
  {
    var e := Entry(name, attr, cluster, size);
    assert e[..11] == name && e[11] == attr && e[26..28] == Le16(cluster) && e[28..32] == Le32(size);
    hide Le16, Le32, Entry;
    AtInside(disk, off, e, 0, name);
    AtInside(disk, off, e, 26, Le16(cluster));
    AtInside(disk, off, e, 28, Le32(size));
    assert disk[off + 11] == disk[off..off + |e|][11];
    assert disk[off] == disk[off..off + 11][0];
    Le16Reads(disk, off + 26, cluster);
    Le32Reads(disk, off + 28, size);
  }

  const ROOT_AT := VOLUME_OFF + ROOT_OFF
  const FAT_AT := VOLUME_OFF + FAT_OFF
  const DATA_AT := VOLUME_OFF + DATA_OFF

  /** Every directory entry of an image, at the offset both readers look for it. */
  lemma EntriesInPlace(disk: seq<byte>, efi: seq<byte>, cfg: seq<byte>)
    requires IsImage(disk, efi, cfg)
    ensures At(disk, ROOT_AT, Entry(Text("EFI        "), 0x10, 2, 0))
    ensures At(disk, ROOT_AT + 64, if cfg == [] then Zeros(32) else Entry(Text("FLEET   CFG"), 0x20, CfgFirst(efi), |cfg|))
    ensures At(disk, DATA_AT, Entry(Text(".          "), 0x10, 2, 0))
    ensures At(disk, DATA_AT + 32, Entry(Text("..         "), 0x10, 0, 0))
    ensures At(disk, DATA_AT + 64, Entry(Text("BOOT       "), 0x10, 3, 0))
    ensures At(disk, DATA_AT + CLUSTER, Entry(Text(".          "), 0x10, 3, 0))
    ensures At(disk, DATA_AT + CLUSTER + 32, Entry(Text("..         "), 0x10, 2, 0))
    ensures At(disk, DATA_AT + CLUSTER + 64, Entry(Text("BOOTX64 EFI"), 0x20, 4, |efi|))
  {
    hide Text, Entry;
    ImagePieces(disk, efi, cfg);
    RootInPlace(disk, efi, cfg);
    SubdirInPlace(disk, DATA_AT, 2, 0, Entry(Text("BOOT       "), 0x10, 3, 0));
    SubdirInPlace(disk, DATA_AT + CLUSTER, 3, 2, Entry(Text("BOOTX64 EFI"), 0x20, 4, |efi|));
  }

  lemma RootInPlace(disk: seq<byte>, efi: seq<byte>, cfg: seq<byte>)
    requires At(disk, ROOT_AT, PadTo(RootDir(efi, cfg), CLUSTER))
    ensures At(disk, ROOT_AT, Entry(Text("EFI        "), 0x10, 2, 0))
    ensures At(disk, ROOT_AT + 64, if cfg == [] then Zeros(32) else Entry(Text("FLEET   CFG"), 0x20, CfgFirst(efi), |cfg|))
  {
    var e, l, f := Entry(Text("EFI        "), 0x10, 2, 0), Entry(Text("AEGIS BOOT "), 0x08, 0, 0), Entry(Text("FLEET   CFG"), 0x20, CfgFirst(efi), |cfg|);
    hide Text, Entry;
    var rest := if cfg == [] then Zeros(32) else f;
    assert PadTo(RootDir(efi, cfg), CLUSTER) == e + l + rest + Zeros(CLUSTER - 96);
    Behind(disk, ROOT_AT, e + l + rest, Zeros(CLUSTER - 96));
    Behind(disk, ROOT_AT, e + l, rest);
    Behind(disk, ROOT_AT, e, l);
  }

  lemma SubdirInPlace(disk: seq<byte>, off: nat, self: nat, parent: nat, entry: seq<byte>)
    requires |entry| == 32 && At(disk, off, PadTo(DotEntries(self, parent) + entry, CLUSTER))
    ensures At(disk, off, Entry(Text(".          "), 0x10, self, 0))
    ensures At(disk, off + 32, Entry(Text("..         "), 0x10, parent, 0)) && At(disk, off + 64, entry)
  {
    var a, b := Entry(Text(".          "), 0x10, self, 0), Entry(Text("..         "), 0x10, parent, 0);
    hide Text, Entry;
    assert PadTo(DotEntries(self, parent) + entry, CLUSTER) == a + b + entry + Zeros(CLUSTER - 96);
    Behind(disk, off, a + b + entry, Zeros(CLUSTER - 96));
    Behind(disk, off, a + b, entry);
    Behind(disk, off, a, b);
  }

  // ------------------------------------------------------------------
  // The chain walk
  // ------------------------------------------------------------------

  predicate InChain(c: nat) { 2 <= c < 0xFFF8 }

  type Cluster = c: nat | c >= 2 witness 2

  function FatAt(disk: seq<byte>, c: nat): nat
    requires FAT_AT + 2 * c + 2 <= |disk|
  {
    Read16(disk, FAT_AT + 2 * c)
  }

  /** Following the table from `c` visits exactly `chain` and stops. */
  predicate IsChain(disk: seq<byte>, c: nat, chain: seq<Cluster>)
    decreases |chain|
  {
    if chain == [] then !InChain(c)
    else c == chain[0] && InChain(c) && FAT_AT + 2 * c + 2 <= |disk| && IsChain(disk, FatAt(disk, c), chain[1..])
  }

  function ClusterAt(disk: seq<byte>, c: Cluster): seq<byte>
  {
    var off := DATA_AT + (c - 2) * CLUSTER;
    disk[Min(off, |disk|)..Min(off + CLUSTER, |disk|)]
  }

  function ChainBytes(disk: seq<byte>, chain: seq<Cluster>): seq<byte>
  {
    if chain == [] then [] else ClusterAt(disk, chain[0]) + ChainBytes(disk, chain[1..])
  }

  /** The loop that reads a file back. */
  method WalkChain(disk: seq<byte>, first: nat, size: nat, ghost chain: seq<Cluster>) returns (out: seq<byte>)
    requires IsChain(disk, first, chain)
    ensures var all := ChainBytes(disk, chain); out == all[..Min(size, |all|)]
  {
    hide FatAt, ClusterAt;
    out := [];
    var cluster := first;
    ghost var rest := chain;
    while InChain(cluster)
      invariant IsChain(disk, cluster, rest)
      invariant out + ChainBytes(disk, rest) == ChainBytes(disk, chain)
      decreases |rest|
    {
      out := out + ClusterAt(disk, cluster);
      cluster := FatAt(disk, cluster);
      rest := rest[1..];
    }
    assert out == ChainBytes(disk, chain);
    out := out[..Min(size, |out|)];
  }

  function Range(first: Cluster, last: nat): seq<Cluster>
    requires first <= last
  {
    seq(last - first + 1, i requires 0 <= i => first + i)
  }

  /** Consecutive clusters ending in an end marker form a chain. */
  lemma {:induction false} RangeIsChain(disk: seq<byte>, first: Cluster, last: nat)
    requires 2 <= first <= last < FAT_ENTRIES && FAT_AT + FAT_BYTES <= |disk|
    requires forall c: nat | first <= c < last :: FatAt(disk, c) == c + 1
    requires FatAt(disk, last) == END_OF_CHAIN
    ensures IsChain(disk, first, Range(first, last))
    decreases last - first
  {
    if first < last {
      RangeIsChain(disk, first + 1, last);
      assert Range(first, last)[1..] == Range(first + 1, last);
    } else {
      assert Range(first, last)[1..] == [];
    }
  }

  lemma RangeStep(disk: seq<byte>, first: Cluster, last: nat)
    requires first <= last
    ensures var rest := if first < last then ChainBytes(disk, Range(first + 1, last)) else [];
            ChainBytes(disk, Range(first, last)) == ClusterAt(disk, first) + rest
  {
    hide ClusterAt;
    assert first < last ==> Range(first, last)[1..] == Range(first + 1, last);
    assert first == last ==> Range(first, last)[1..] == [];
  }

  lemma ClusterHolds(disk: seq<byte>, c: Cluster, a: seq<byte>)
    requires At(disk, DATA_AT + (c - 2) * CLUSTER, a) && |a| <= CLUSTER
    ensures |a| <= |ClusterAt(disk, c)| <= CLUSTER && ClusterAt(disk, c)[..|a|] == a
  {
    var off := DATA_AT + (c - 2) * CLUSTER;
    assert ClusterAt(disk, c)[..|a|] == disk[off..off + |a|];
  }

  lemma Joined(x: seq<byte>, rest: seq<byte>, a: seq<byte>, b: seq<byte>)
    requires |a| <= |x| && x[..|a|] == a && |b| <= |rest| && rest[..|b|] == b && (|a| == |x| || b == [])
    ensures |a + b| <= |x + rest| && (x + rest)[..|a + b|] == a + b
  {
  }

  /** Data laid out from the first cluster on is what the chain reads back. */
  lemma {:induction false} RangeReads(disk: seq<byte>, first: Cluster, last: nat, data: seq<byte>)
    requires first <= last && At(disk, DATA_AT + (first - 2) * CLUSTER, data)
    requires CLUSTER * (last - first) <= |data| <= CLUSTER * (last - first + 1)
    ensures var all := ChainBytes(disk, Range(first, last)); |data| <= |all| && all[..|data|] == data
    decreases last - first
  {
    hide ClusterAt, ChainBytes, Range, At;
    RangeStep(disk, first, last);
    var a := data[..Min(CLUSTER, |data|)];
    var b := data[|a|..];
    assert data == a + b;
    Behind(disk, DATA_AT + (first - 2) * CLUSTER, a, b);
    ClusterHolds(disk, first, a);
    if first < last {
      assert DATA_AT + (first + 1 - 2) * CLUSTER == DATA_AT + (first - 2) * CLUSTER + |a|;
      RangeReads(disk, first + 1, last, b);
      Joined(ClusterAt(disk, first), ChainBytes(disk, Range(first + 1, last)), a, b);
    } else {
      Joined(ClusterAt(disk, first), [], a, b);
    }
  }

  lemma TableInPlace(disk: seq<byte>, efi: seq<byte>, cfg: seq<byte>, c: nat)
    requires At(disk, FAT_AT, FatTable(efi, cfg)) && c < FAT_ENTRIES
    ensures FAT_AT + FAT_BYTES <= |disk| && FatAt(disk, c) == FatEntry(efi, cfg, c)
  {
    TableReads(efi, cfg, c);
    var t := FatTable(efi, cfg);
    hide FatTable, FatEntry;
    assert disk[FAT_AT + 2 * c] == disk[FAT_AT..FAT_AT + |t|][2 * c];
    assert disk[FAT_AT + 2 * c + 1] == disk[FAT_AT..FAT_AT + |t|][2 * c + 1];
  }

  lemma FileChains(disk: seq<byte>, efi: seq<byte>, cfg: seq<byte>)
    requires At(disk, FAT_AT, FatTable(efi, cfg)) && FitsFat(efi, cfg)
    ensures IsChain(disk, 4, Range(4, FileLast(efi)))
    ensures cfg != [] ==> IsChain(disk, CfgFirst(efi), Range(CfgFirst(efi), CfgLast(efi, cfg)))
  {
    forall c: nat | c < FAT_ENTRIES
      ensures FAT_AT + FAT_BYTES <= |disk| && FatAt(disk, c) == FatEntry(efi, cfg, c)
    {
      TableInPlace(disk, efi, cfg, c);
    }
    hide FatTable, IsChain, Range, At, FatAt;
    RangeIsChain(disk, 4, FileLast(efi));
    if cfg != [] { RangeIsChain(disk, CfgFirst(efi), CfgLast(efi, cfg)); }
  }

  /** What the build script's check does to a finished image: resolve both files and read them back. */
  method ReadBack(disk: seq<byte>, ghost efi: seq<byte>, ghost cfg: seq<byte>) returns (efiOut: seq<byte>, cfgOut: seq<byte>)
    requires IsImage(disk, efi, cfg) && FitsFat(efi, cfg)
    ensures efiOut == efi && cfgOut == cfg
  {
    hide Read16, Read32, Text, At, IsImage, Entry, PadTo, IsChain, Range, ChainBytes, FatTable, RootDir, EfiDir, BootDir;
    ImagePieces(disk, efi, cfg);
    EntriesInPlace(disk, efi, cfg);
    FileChains(disk, efi, cfg);
    EntryReads(disk, ROOT_AT, Text("EFI        "), 0x10, 2, 0);
    EntryReads(disk, DATA_AT + 64, Text("BOOT       "), 0x10, 3, 0);
    ClustersCover(|efi|);
    EntryReads(disk, DATA_AT + CLUSTER + 64, Text("BOOTX64 EFI"), 0x20, 4, |efi|);
    var efiDir := DATA_AT + (Read16(disk, ROOT_AT + 26) - 2) * CLUSTER;
    var bootDir := DATA_AT + (Read16(disk, efiDir + 64 + 26) - 2) * CLUSTER;
    efiOut := ReadFile(disk, bootDir + 64, 4, FileLast(efi), efi, PadTo(efi, CLUSTER * Clusters(|efi|)));
    cfgOut := ReadConfig(disk, efi, cfg);
  }

  method ReadFile(disk: seq<byte>, entry: nat, ghost first: Cluster, ghost last: nat, ghost file: seq<byte>, ghost padded: seq<byte>) returns (out: seq<byte>)
    requires entry + 32 <= |disk| && Read16(disk, entry + 26) == first && Read32(disk, entry + 28) == |file|
    requires first <= last && IsChain(disk, first, Range(first, last))
    requires |file| <= |padded| && padded[..|file|] == file && At(disk, DATA_AT + (first - 2) * CLUSTER, padded)
    requires CLUSTER * (last - first) <= |padded| <= CLUSTER * (last - first + 1)
    ensures out == file
  {
    RangeReads(disk, first, last, padded);
    hide Read16, Read32, IsChain, Range, ChainBytes, At;
    out := WalkChain(disk, Read16(disk, entry + 26), Read32(disk, entry + 28), Range(first, last));
  }

  /** `FLEET.CFG` is optional: with no entry the same reads find cluster 0 and size 0. */
  method ReadConfig(disk: seq<byte>, ghost efi: seq<byte>, ghost cfg: seq<byte>) returns (out: seq<byte>)
    requires At(disk, ROOT_AT + 64, if cfg == [] then Zeros(32) else Entry(Text("FLEET   CFG"), 0x20, CfgFirst(efi), |cfg|))
    requires FitsFat(efi, cfg) && At(disk, DATA_AT + CLUSTER * (CfgFirst(efi) - 2), cfg)
    requires cfg != [] ==> IsChain(disk, CfgFirst(efi), Range(CfgFirst(efi), CfgLast(efi, cfg)))
    ensures out == cfg
  {
    var entry := ROOT_AT + 64;
    ghost var chain: seq<Cluster> := [];
    if cfg == [] {
      ZeroEntry(disk, entry);
    } else {
      ClustersCover(|cfg|);
      EntryReads(disk, entry, Text("FLEET   CFG"), 0x20, CfgFirst(efi), |cfg|);
      chain := Range(CfgFirst(efi), CfgLast(efi, cfg));
      RangeReads(disk, CfgFirst(efi), CfgLast(efi, cfg), cfg);
    }
    hide Read16, Read32, Range, At, Entry, Text;
    out := WalkChain(disk, Read16(disk, entry + 26), Read32(disk, entry + 28), chain);
  }

  lemma ZeroEntry(disk: seq<byte>, off: nat)
    requires At(disk, off, Zeros(32))
    ensures off + 32 <= |disk| && Read16(disk, off + 26) == 0 && Read32(disk, off + 28) == 0
  {
    var e := disk[off..off + 32];
    assert e[26] == e[27] == e[28] == e[29] == e[30] == e[31] == 0;
  }

  // ------------------------------------------------------------------
  // The kernel's reader
  // ------------------------------------------------------------------

  function CheckedAdd(a: nat, b: nat): Option<nat> { if a + b < U64 then Some(a + b) else None }

  /** A sector of the disk, absent past its end. */
  function ReadLba(disk: seq<byte>, lba: nat): (r: Option<seq<byte>>)
    ensures r.Some? ==> |r.value| == SECTOR
  {
    if SECTOR * (lba + 1) <= |disk| then Some(disk[SECTOR * lba..SECTOR * (lba + 1)]) else None
  }

  datatype Fat16Info = Fat16Info(partStart: nat, secPerClus: nat, reserved: nat, numFats: nat, rootEntries: nat, fatSize: nat)
  {
    function RootLba(): Option<nat> { CheckedAdd(partStart, reserved + numFats * fatSize) }

    function RootSectors(): nat { (rootEntries * 32 + SECTOR - 1) / SECTOR }

    function DataLba(): Option<nat> { if RootLba().None? then None else CheckedAdd(RootLba().value, RootSectors()) }

    function ClusterLba(c: nat): Option<nat>
    {
      if c < 2 || DataLba().None? then None else CheckedAdd(DataLba().value, (c - 2) * secPerClus)
    }
  }

  datatype DirEntry = DirEntry(cluster: nat, size: nat)

  function Mount(disk: seq<byte>, lba: nat): Option<Fat16Info>
  {
    var s := ReadLba(disk, lba);
    if s.None? then None else
    var bpb := s.value;
    if bpb[510..512] != [0x55, 0xAA] || Read16(bpb, 11) != SECTOR then None
    else if bpb[13] == 0 || bpb[16] == 0 || Read16(bpb, 22) == 0 || Read16(bpb, 17) == 0 then None
    else Some(Fat16Info(lba, bpb[13], Read16(bpb, 14), bpb[16], Read16(bpb, 17), Read16(bpb, 22)))
  }

  /** Byte offset of directory entry `e` of a directory that starts at sector `start`. */
  function EntryOff(start: nat, e: nat): nat { SECTOR * start + 32 * e }

  predicate Readable(disk: seq<byte>, start: nat, e: nat): (ok: bool)
    ensures ok ==> EntryOff(start, e) + 32 <= |disk|
  {
    start + e / 16 < U64 && SECTOR * (start + e / 16 + 1) <= |disk|
  }

  /** A live short-name entry with exactly this name. */
  predicate Matches(disk: seq<byte>, off: nat, name: Name11)
    requires off + 32 <= |disk|
  {
    disk[off] != 0 && disk[off] != 0xE5 && disk[off + 11] != 0x0F && disk[off..off + 11] == name
  }

  /** The scan ends at entry `e`: its sector is out of reach, it is the end marker, or it is the one sought. */
  predicate Stops(disk: seq<byte>, start: nat, name: Name11, e: nat)
  {
    Readable(disk, start, e) ==> disk[EntryOff(start, e)] == 0 || Matches(disk, EntryOff(start, e), name)
  }

  /** `stop` is the first of `16 * count` entries at which the scan ends, or all of them were passed. */
  ghost predicate FirstStop(disk: seq<byte>, start: nat, count: nat, name: Name11, stop: nat)
  {
    stop <= 16 * count && (forall k: nat | k < stop :: !Stops(disk, start, name, k)) && (stop < 16 * count ==> Stops(disk, start, name, stop))
  }

  function Outcome(disk: seq<byte>, start: nat, count: nat, name: Name11, stop: nat): Option<DirEntry>
  {
    if stop < 16 * count && Readable(disk, start, stop) then
      var off := EntryOff(start, stop);
      if Matches(disk, off, name) then Some(DirEntry(Read16(disk, off + 26), Read32(disk, off + 28))) else None
    else None
  }

  lemma FirstStopUnique(disk: seq<byte>, start: nat, count: nat, name: Name11, a: nat, b: nat)
    requires FirstStop(disk, start, count, name, a) && FirstStop(disk, start, count, name, b)
    ensures a == b
  {
    assert a < b ==> !Stops(disk, start, name, a);
    assert b < a ==> !Stops(disk, start, name, b);
  }

  method ScanDirSectors(disk: seq<byte>, start: nat, count: nat, name: Name11) returns (r: Option<DirEntry>, ghost stop: nat)
    ensures FirstStop(disk, start, count, name, stop) && r == Outcome(disk, start, count, name, stop)
  {
    stop := 0;
    for i := 0 to count
      invariant stop == 16 * i && forall k: nat | k < stop :: !Stops(disk, start, name, k)
    {
      if CheckedAdd(start, i).None? { return None, stop; }
      var sector := ReadLba(disk, start + i);
      if sector.None? { return None, stop; }
      for j := 0 to 16
        invariant stop == 16 * i + j && forall k: nat | k < stop :: !Stops(disk, start, name, k)
      {
        var entry := sector.value[32 * j..32 * (j + 1)];
        EntryOfSector(disk, start, i, j);
        if entry[0] == 0 { return None, stop; }
        if entry[0] != 0xE5 && entry[11] != 0x0F && entry[..11] == name {
          return Some(DirEntry(Read16(entry, 26), Read32(entry, 28))), stop;
        }
        stop := stop + 1;
      }
    }
    r := None;
  }

  lemma EntryOfSector(disk: seq<byte>, start: nat, i: nat, j: nat)
    requires start + i < U64 && SECTOR * (start + i + 1) <= |disk| && j < 16
    ensures var e := 16 * i + j; var off := EntryOff(start, e);
            var entry := disk[SECTOR * (start + i)..SECTOR * (start + i + 1)][32 * j..32 * (j + 1)];
            && Readable(disk, start, e) && off + 32 <= |disk|
            && entry == disk[off..off + 32] && entry[..11] == disk[off..off + 11] && entry[0] == disk[off] && entry[11] == disk[off + 11]
            && Read16(entry, 26) == Read16(disk, off + 26) && Read32(entry, 28) == Read32(disk, off + 28)
  {
    assert (16 * i + j) / 16 == i;
  }

  method FindInRoot(disk: seq<byte>, fs: Fat16Info, name: Name11) returns (r: Option<DirEntry>, ghost stop: nat)
    ensures match fs.RootLba()
            case None => r == None
            case Some(lba) => FirstStop(disk, lba, fs.RootSectors(), name, stop) && r == Outcome(disk, lba, fs.RootSectors(), name, stop)
  {
    if fs.RootLba().None? { return None, 0; }
    r, stop := ScanDirSectors(disk, fs.RootLba().value, fs.RootSectors(), name);
  }

  method FindInSubdir(disk: seq<byte>, fs: Fat16Info, cluster: nat, name: Name11) returns (r: Option<DirEntry>, ghost stop: nat)
    ensures match fs.ClusterLba(cluster)
            case None => r == None
            case Some(lba) => FirstStop(disk, lba, fs.secPerClus, name, stop) && r == Outcome(disk, lba, fs.secPerClus, name, stop)
  {
    if fs.ClusterLba(cluster).None? { return None, 0; }
    r, stop := ScanDirSectors(disk, fs.ClusterLba(cluster).value, fs.secPerClus, name);
  }

  function ReadFirstSector(disk: seq<byte>, fs: Fat16Info, entry: DirEntry): Option<seq<byte>>
  {
    var lba := fs.ClusterLba(entry.cluster);
    if lba.None? then None else ReadLba(disk, lba.value)
  }

  const IMAGE_FS := Fat16Info(PART_START, 4, 1, 1, 64, 128)

  lemma ImageMounts(disk: seq<byte>, part: nat)
    requires At(disk, VOLUME_OFF, BootSector(part))
    ensures Mount(disk, PART_START) == Some(IMAGE_FS)
  {
    var bpb := BootSector(part);
    assert disk[SECTOR * PART_START..SECTOR * (PART_START + 1)] == bpb;
    BpbFields(part);
    hide BootSector;
  }

  lemma BpbFields(part: nat)
    ensures var bpb := BootSector(part);
            && bpb[510..512] == [0x55, 0xAA] && bpb[13] == 4 && bpb[16] == 1
            && Read16(bpb, 11) == 512 && Read16(bpb, 14) == 1 && Read16(bpb, 17) == 64 && Read16(bpb, 22) == 128
  {
  }

  /** A directory whose entries before `e` are live under other names, found at `e`. */
  lemma FoundAt(disk: seq<byte>, lba: nat, count: nat, name: Name11, e: nat, stop: nat)
    requires count > 0 && e < 16 && lba < U64 && SECTOR * (lba + 1) <= |disk|
    requires forall k: nat | k < e :: !Stops(disk, lba, name, k)
    requires EntryOff(lba, e) + 32 <= |disk| && Matches(disk, EntryOff(lba, e), name)
    requires FirstStop(disk, lba, count, name, stop)
    ensures var off := EntryOff(lba, e); Outcome(disk, lba, count, name, stop) == Some(DirEntry(Read16(disk, off + 26), Read32(disk, off + 28)))
  {
    assert Readable(disk, lba, e);
    assert FirstStop(disk, lba, count, name, e);
    FirstStopUnique(disk, lba, count, name, e, stop);
  }

  lemma PassedOver(disk: seq<byte>, lba: nat, e: nat, other: Name11, attr: byte, cluster: nat, name: Name11)
    requires e < 16 && lba < U64 && SECTOR * (lba + 1) <= |disk|
    requires cluster < 65536 && At(disk, EntryOff(lba, e), Entry(other, attr, cluster, 0)) && other[0] != 0 && other != name
    ensures !Stops(disk, lba, name, e)
  {
    EntryReads(disk, EntryOff(lba, e), other, attr, cluster, 0);
    assert Readable(disk, lba, e);
  }

  lemma DotNames()
    ensures Text(".          ")[0] == Text("..         ")[0] == 0x2E
  {
  }

  /** A directory of `.`, `..` and one file. */
  lemma ThirdEntryFound(disk: seq<byte>, lba: nat, self: nat, parent: nat, name: Name11, attr: byte, cluster: nat, size: nat, stop: nat)
    requires lba < U64 && SECTOR * (lba + 1) <= |disk| && self < 65536 && parent < 65536 && cluster < 65536 && size < 0x1_0000_0000
    requires At(disk, SECTOR * lba, Entry(Text(".          "), 0x10, self, 0))
    requires At(disk, SECTOR * lba + 32, Entry(Text("..         "), 0x10, parent, 0))
    requires At(disk, SECTOR * lba + 64, Entry(name, attr, cluster, size))
    requires name[0] !in {0, 0xE5, 0x2E} && attr != 0x0F && FirstStop(disk, lba, 4, name, stop)
    ensures Outcome(disk, lba, 4, name, stop) == Some(DirEntry(cluster, size))
  {
    hide Text, Entry, At, Stops, Outcome, FirstStop;
    DotNames();
    PassedOver(disk, lba, 0, Text(".          "), 0x10, self, name);
    PassedOver(disk, lba, 1, Text("..         "), 0x10, parent, name);
    EntryReads(disk, SECTOR * lba + 64, name, attr, cluster, size);
    FoundAt(disk, lba, 4, name, 2, stop);
  }

  /** Every scan of this directory for this name ends with this entry. */
  ghost predicate Finds(disk: seq<byte>, lba: nat, count: nat, name: Name11, entry: DirEntry)
  {
    forall stop: nat | FirstStop(disk, lba, count, name, stop) :: Outcome(disk, lba, count, name, stop) == Some(entry)
  }

  const ROOT_LBA := PART_START + 129
  const DATA_LBA := PART_START + 133

  lemma ImageGeometry()
    ensures IMAGE_FS.RootLba() == Some(ROOT_LBA) && IMAGE_FS.RootSectors() == 4
    ensures IMAGE_FS.ClusterLba(2) == Some(DATA_LBA) && IMAGE_FS.ClusterLba(3) == Some(DATA_LBA + 4) && IMAGE_FS.ClusterLba(4) == Some(DATA_LBA + 8)
  {
  }

  lemma RootFinds(disk: seq<byte>)
    requires SECTOR * (ROOT_LBA + 1) <= |disk| && At(disk, ROOT_AT, Entry(Text("EFI        "), 0x10, 2, 0))
    ensures Finds(disk, ROOT_LBA, 4, Text("EFI        "), DirEntry(2, 0))
  {
    var name := Text("EFI        ");
    assert name[0] == 0x45;
    hide Text, Entry, At;
    EntryReads(disk, ROOT_AT, name, 0x10, 2, 0);
    forall stop: nat | FirstStop(disk, ROOT_LBA, 4, name, stop) ensures Outcome(disk, ROOT_LBA, 4, name, stop) == Some(DirEntry(2, 0)) {
      FoundAt(disk, ROOT_LBA, 4, name, 0, stop);
    }
  }

  lemma SubdirFinds(disk: seq<byte>, lba: nat, self: nat, parent: nat, name: Name11, attr: byte, cluster: nat, size: nat)
    requires lba < U64 && SECTOR * (lba + 1) <= |disk| && self < 65536 && parent < 65536 && cluster < 65536 && size < 0x1_0000_0000
    requires At(disk, SECTOR * lba, Entry(Text(".          "), 0x10, self, 0))
    requires At(disk, SECTOR * lba + 32, Entry(Text("..         "), 0x10, parent, 0))
    requires At(disk, SECTOR * lba + 64, Entry(name, attr, cluster, size))
    requires name[0] !in {0, 0xE5, 0x2E} && attr != 0x0F
    ensures Finds(disk, lba, 4, name, DirEntry(cluster, size))
  {
    hide Text, Entry, At, FirstStop, Outcome;
    forall stop: nat | FirstStop(disk, lba, 4, name, stop) ensures Outcome(disk, lba, 4, name, stop) == Some(DirEntry(cluster, size)) {
      ThirdEntryFound(disk, lba, self, parent, name, attr, cluster, size, stop);
    }
  }

  lemma FirstSectorOfFile(disk: seq<byte>, efi: seq<byte>)
    requires At(disk, DATA_AT + 2 * CLUSTER, PadTo(efi, CLUSTER * Clusters(|efi|))) && efi != []
    ensures ReadLba(disk, DATA_LBA + 8) == Some(PadTo(efi, SECTOR)[..SECTOR])
  {
    ClustersCover(|efi|);
    var off, padded := DATA_AT + 2 * CLUSTER, PadTo(efi, CLUSTER * Clusters(|efi|));
    assert padded[..SECTOR] == PadTo(efi, SECTOR)[..SECTOR];
    assert disk[off..off + SECTOR] == disk[off..off + |padded|][..SECTOR];
  }

  /** On an image every lookup of the kernel's walk succeeds. */
  lemma ImageLookups(disk: seq<byte>, efi: seq<byte>, cfg: seq<byte>)
    requires FitsFat(efi, cfg) && IsImage(disk, efi, cfg)
    ensures Mount(disk, PART_START) == Some(IMAGE_FS)
    ensures Finds(disk, ROOT_LBA, 4, Text("EFI        "), DirEntry(2, 0))
    ensures Finds(disk, DATA_LBA, 4, Text("BOOT       "), DirEntry(3, 0))
    ensures Finds(disk, DATA_LBA + 4, 4, Text("BOOTX64 EFI"), DirEntry(4, |efi|))
    ensures ReadLba(disk, DATA_LBA + 8) == Some(PadTo(efi, SECTOR)[..SECTOR])
  {
    assert Text("BOOT       ")[0] == Text("BOOTX64 EFI")[0] == 0x42;
    ClustersCover(|efi|);
    ImagePieces(disk, efi, cfg);
    EntriesInPlace(disk, efi, cfg);
    FirstSectorOfFile(disk, efi);
    hide Text, Entry, At, Finds, Mount, BootSector, FatTable, PadTo, RootDir, EfiDir, BootDir, IsImage;
    ImageMounts(disk, PartSectors(efi, cfg));
    RootFinds(disk);
    SubdirFinds(disk, DATA_LBA, 2, 0, Text("BOOT       "), 0x10, 3, 0);
    SubdirFinds(disk, DATA_LBA + 4, 3, 2, Text("BOOTX64 EFI"), 0x20, 4, |efi|);
  }

  /** The kernel's boot-time walk: mount, `EFI`, `BOOT`, `BOOTX64.EFI`, first sector. */
  method LocateBootFile(disk: seq<byte>, ghost efi: seq<byte>, ghost cfg: seq<byte>) returns (r: Option<(DirEntry, seq<byte>)>)
    ensures FitsFat(efi, cfg) && IsImage(disk, efi, cfg) ==> r == Some((DirEntry(4, |efi|), PadTo(efi, SECTOR)[..SECTOR]))
  {
    ghost var image := FitsFat(efi, cfg) && IsImage(disk, efi, cfg);
    if image { ImageLookups(disk, efi, cfg); }
    ImageGeometry();
    hide FitsFat, IsImage, PadTo, Mount, Outcome, FirstStop, Text, ReadLba, Fat16Info.RootLba, Fat16Info.ClusterLba, Fat16Info.RootSectors;
    var fs := Mount(disk, PART_START);
    if fs.None? { return None; }
    var efiDir, stop := FindInRoot(disk, fs.value, Text("EFI        "));
    if efiDir.None? { return None; }
    assert image ==> efiDir.value == DirEntry(2, 0);
    var bootDir, stop' := FindInSubdir(disk, fs.value, efiDir.value.cluster, Text("BOOT       "));
    if bootDir.None? { return None; }
    assert image ==> bootDir.value == DirEntry(3, 0);
    var file, stop'' := FindInSubdir(disk, fs.value, bootDir.value.cluster, Text("BOOTX64 EFI"));
    if file.None? { return None; }
    var sector := ReadFirstSector(disk, fs.value, file.value);
    if sector.None? { return None; }
    r := Some((file.value, sector.value));
  }
}
