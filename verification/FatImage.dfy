/**
  The FAT16 volume and disk image the build script writes, byte by byte, in the
  order it writes them, and the chain walk that reads a file back.
 */
module FatImage {
  import opened Common

  const SECTOR := 512
  const CLUSTER := 2048
  const PART_START := 2048          // LBA
  const FAT_BYTES := 65536          // 128 sectors, 32768 entries
  const FAT_ENTRIES := 32768
  const FAT_OFF := 512
  const ROOT_OFF := 66048
  const DATA_OFF := 68096           // cluster 2
  const END_OF_CHAIN := 0xFFFF

  // ------------------------------------------------------------------
  // Slice assignment, which may change the length of its target
  // ------------------------------------------------------------------

  /** `buf[a:b] = data`. */
  function Assign(buf: seq<byte>, a: nat, b: nat, data: seq<byte>): seq<byte>
    requires a <= b
  {
    buf[..Min(a, |buf|)] + data + buf[Min(b, |buf|)..]
  }

  /** A buffer whose bytes from |done| on are all still zero. */
  ghost predicate Begun(buf: seq<byte>, done: seq<byte>, size: nat)
  {
    |done| <= size && buf == done + Zeros(size - |done|)
  }

  /** Writing into the untouched part: zeros up to the offset, then the data. */
  lemma AssignBegun(buf: seq<byte>, done: seq<byte>, size: nat, a: nat, b: nat, data: seq<byte>)
    requires Begun(buf, done, size) && |done| <= a <= b <= size
    ensures Begun(Assign(buf, a, b, data), done + Zeros(a - |done|) + data, size - (b - a) + |data|)
  {
    assert buf[..a] == done + Zeros(a - |done|);
    assert buf[b..] == Zeros(size - b);
  }

  // ------------------------------------------------------------------
  // The layout
  // ------------------------------------------------------------------

  function Clusters(n: nat): nat { (n + CLUSTER - 1) / CLUSTER }

  function FileLast(efi: seq<byte>): int { 4 + Clusters(|efi|) - 1 }

  function CfgFirst(efi: seq<byte>): nat { 4 + Clusters(|efi|) }

  function CfgLast(efi: seq<byte>, cfg: seq<byte>): nat { CfgFirst(efi) + (if Clusters(|cfg|) > 1 then Clusters(|cfg|) else 1) - 1 }

  /** Both files' chains lie inside the table, which `pack_into` demands. */
  predicate FitsFat(efi: seq<byte>, cfg: seq<byte>)
  {
    |efi| > 0 && FileLast(efi) < FAT_ENTRIES && (cfg != [] ==> CfgLast(efi, cfg) < FAT_ENTRIES)
  }

  /** The value of FAT entry `c`. */
  function FatEntry(efi: seq<byte>, cfg: seq<byte>, c: nat): (v: nat)
    requires c < FAT_ENTRIES
    ensures v < 65536
  {
    if c == 0 then 0xFFF8
    else if c < 4 then END_OF_CHAIN
    else if c < FileLast(efi) then c + 1
    else if c == FileLast(efi) then END_OF_CHAIN
    else if cfg == [] then 0
    else if c < CfgLast(efi, cfg) then c + 1
    else if c == CfgLast(efi, cfg) then END_OF_CHAIN
    else 0
  }

  function FatTable(efi: seq<byte>, cfg: seq<byte>): (s: seq<byte>)
    ensures |s| == FAT_BYTES
  {
    seq(FAT_BYTES, i requires 0 <= i < FAT_BYTES => Le16(FatEntry(efi, cfg, i / 2))[i % 2])
  }

  type Name11 = s: seq<byte> | |s| == 11 witness seq(11, _ => 0x20)

  function Text(s: string): (b: seq<byte>)
    ensures |b| == |s|
  {
    seq(|s|, i requires 0 <= i < |s| => (s[i] as int) % 256)
  }

  function Entry(name: Name11, attr: byte, cluster: nat, size: nat): (e: seq<byte>)
    ensures |e| == 32
  {
    name + [attr] + Zeros(14) + Le16(cluster) + Le32(size)
  }

  function DotEntries(self: nat, parent: nat): (e: seq<byte>)
    ensures |e| == 64
  {
    Entry(Text(".          "), 0x10, self, 0) + Entry(Text("..         "), 0x10, parent, 0)
  }

  function BootSector(partSectors: nat): (s: seq<byte>)
    ensures |s| == SECTOR
  {
    [0xEB, 0x58, 0x90] + Text("MSDOS5.0") + Le16(512) + [4] + Le16(1) + [1] + Le16(64) + Le16(0) + [0xF8]
    + Le16(128) + Le16(32) + Le16(64) + Le32(PART_START) + Le32(partSectors)
    + [0x80, 0, 0x29, 0, 0x78, 0x56, 0x34] + Text("AEGIS BOOT ") + [0] + Text("FAT16   ") + Zeros(447) + [0x55, 0xAA]
  }

  function RootDir(efi: seq<byte>, cfg: seq<byte>): seq<byte>
  {
    Entry(Text("EFI        "), 0x10, 2, 0) + Entry(Text("AEGIS BOOT "), 0x08, 0, 0)
    + (if cfg == [] then [] else Entry(Text("FLEET   CFG"), 0x20, CfgFirst(efi), |cfg|))
  }

  function EfiDir(): seq<byte> { DotEntries(2, 0) + Entry(Text("BOOT       "), 0x10, 3, 0) }

  function BootDir(efi: seq<byte>): seq<byte> { DotEntries(3, 2) + Entry(Text("BOOTX64 EFI"), 0x20, 4, |efi|) }

  /** `s` with zeros up to `n` bytes. */
  function PadTo(s: seq<byte>, n: nat): (r: seq<byte>)
    ensures |r| == if |s| < n then n else |s|
    ensures r[..|s|] == s
  {
    if |s| < n then s + Zeros(n - |s|) else s
  }

  /** The used part of the volume, structure after structure, each at its sector. */
  function Used(efi: seq<byte>, cfg: seq<byte>, partSectors: nat): seq<byte>
  {
    Front(efi, cfg, partSectors) + PadTo(EfiDir(), CLUSTER) + PadTo(BootDir(efi), CLUSTER)
    + PadTo(efi, CLUSTER * Clusters(|efi|)) + cfg
  }

  /** Boot sector, file allocation table and root directory. */
  function Front(efi: seq<byte>, cfg: seq<byte>, partSectors: nat): (s: seq<byte>)
    ensures |s| == DATA_OFF
  {
    BootSector(partSectors) + FatTable(efi, cfg) + PadTo(RootDir(efi, cfg), CLUSTER)
  }

  // ------------------------------------------------------------------
  // Sizing
  // ------------------------------------------------------------------

  function TotalSectors(efi: seq<byte>, cfg: seq<byte>): nat
  {
    var needed := 133 + (CfgLast(efi, cfg) - 1) * 4;
    var rounded := (needed + 3) / 4 * 4;
    var total := PART_START + rounded + 34;
    if total > 32 * 1024 then total else 32 * 1024
  }

  function PartSectors(efi: seq<byte>, cfg: seq<byte>): nat
  {
    if TotalSectors(efi, cfg) < PART_START + 34 then 0 else TotalSectors(efi, cfg) - PART_START - 34
  }

  /** The volume is always large enough for everything written to it. */
  lemma VolumeFits(efi: seq<byte>, cfg: seq<byte>)
    ensures PART_START + PartSectors(efi, cfg) + 34 == TotalSectors(efi, cfg)
    ensures DATA_OFF + CLUSTER * (CfgLast(efi, cfg) - 1) <= SECTOR * PartSectors(efi, cfg)
    ensures |Used(efi, cfg, PartSectors(efi, cfg))| <= SECTOR * PartSectors(efi, cfg)
  {
    var needed := 133 + (CfgLast(efi, cfg) - 1) * 4;
    assert (needed + 3) / 4 * 4 >= needed;
    UsedLength(efi, cfg, PartSectors(efi, cfg));
    ClustersCover(|cfg|);
  }

  lemma ClustersCover(n: nat)
    ensures n <= CLUSTER * Clusters(n) < n + CLUSTER
  {}

  lemma UsedLength(efi: seq<byte>, cfg: seq<byte>, partSectors: nat)
    ensures |Used(efi, cfg, partSectors)| == DATA_OFF + CLUSTER * (CfgFirst(efi) - 2) + |cfg|
  {
    ClustersCover(|efi|);
  }

  // ------------------------------------------------------------------
  // Writing the volume
  // ------------------------------------------------------------------

  /** Entry `c` of the table as it stands. */
  function TableEntry(fat: seq<byte>, c: nat): nat
    requires |fat| == FAT_BYTES && c < FAT_ENTRIES
  {
    Read16(fat, 2 * c)
  }

  /** `struct.pack_into("<H", fat, 2 * c, v)`. */
  method PackEntry(fat: array<byte>, c: nat, v: nat)
    requires fat.Length == FAT_BYTES && c < FAT_ENTRIES && v < 65536
    modifies fat
    ensures forall d: nat | d < FAT_ENTRIES :: TableEntry(fat[..], d) == if d == c then v else old(TableEntry(fat[..], d))
  {
    fat[2 * c] := v % 256;
    fat[2 * c + 1] := v / 256;
  }

  lemma TableExt(fat: seq<byte>, efi: seq<byte>, cfg: seq<byte>)
    requires |fat| == FAT_BYTES && forall c: nat | c < FAT_ENTRIES :: TableEntry(fat, c) == FatEntry(efi, cfg, c)
    ensures fat == FatTable(efi, cfg)
  {
    hide FatEntry, Le16;
    forall i | 0 <= i < FAT_BYTES ensures fat[i] == FatTable(efi, cfg)[i] {
      var c := i / 2;
      assert TableEntry(fat, c) == FatEntry(efi, cfg, c);
      TwoDigits(fat[2 * c], fat[2 * c + 1], FatEntry(efi, cfg, c));
      assert i == 2 * c || i == 2 * c + 1;
    }
  }

  lemma TwoDigits(lo: byte, hi: byte, v: nat)
    requires (lo as int) + 256 * (hi as int) == v
    ensures Le16(v) == [lo, hi]
  {}

  lemma TableReads(efi: seq<byte>, cfg: seq<byte>, c: nat)
    requires c < FAT_ENTRIES
    ensures Read16(FatTable(efi, cfg), 2 * c) == FatEntry(efi, cfg, c)
  {
    hide FatEntry;
    var t, v := FatTable(efi, cfg), FatEntry(efi, cfg, c);
    assert t[2 * c] == Le16(v)[0] && t[2 * c + 1] == Le16(v)[1];
    assert v == v % 256 + 256 * (v / 256 % 256);
  }

  /** Chain clusters `first` to `last` together. */
  method PackChain(fat: array<byte>, first: nat, last: nat)
    requires fat.Length == FAT_BYTES && first <= last < FAT_ENTRIES
    modifies fat
    ensures forall d: nat | d < FAT_ENTRIES :: TableEntry(fat[..], d) ==
              if first <= d < last then d + 1 else if d == last then END_OF_CHAIN else old(TableEntry(fat[..], d))
  {
    hide TableEntry;
    var c := first;
    while c < last
      invariant first <= c <= last
      invariant forall d: nat | d < FAT_ENTRIES :: TableEntry(fat[..], d) == if first <= d < c then d + 1 else old(TableEntry(fat[..], d))
    {
      PackEntry(fat, c, c + 1);
      c := c + 1;
    }
    PackEntry(fat, last, END_OF_CHAIN);
  }

  method BuildTable(efi: seq<byte>, cfg: seq<byte>) returns (table: seq<byte>)
    requires FitsFat(efi, cfg)
    ensures table == FatTable(efi, cfg)
  {
    var fat := new byte[FAT_BYTES](_ => 0);
    assert forall d: nat | d < FAT_ENTRIES :: TableEntry(fat[..], d) == 0;
    hide TableEntry;
    PackEntry(fat, 0, 0xFFF8);
    PackEntry(fat, 1, END_OF_CHAIN);
    PackEntry(fat, 2, END_OF_CHAIN);
    PackEntry(fat, 3, END_OF_CHAIN);
    PackChain(fat, 4, FileLast(efi));
    if cfg != [] {
      PackChain(fat, CfgFirst(efi), CfgLast(efi, cfg));
    }
    TableExt(fat[..], efi, cfg);
    table := fat[..];
  }

  function Head(efi: seq<byte>, cfg: seq<byte>, partSectors: nat): seq<byte>
  {
    BootSector(partSectors) + FatTable(efi, cfg) + RootDir(efi, cfg)
  }

  /** Boot sector, file allocation table and root directory. */
  method WriteHead(efi: seq<byte>, cfg: seq<byte>, partSectors: nat) returns (fs: seq<byte>)
    requires FitsFat(efi, cfg) && SECTOR * partSectors >= DATA_OFF
    ensures Begun(fs, Head(efi, cfg, partSectors), SECTOR * partSectors)
  {
    hide BootSector, FatTable, Entry, Text, Assign;
    var size := SECTOR * partSectors;
    ghost var done: seq<byte> := [];
    fs := Zeros(size);
    assert Begun(fs, done, size);
    fs, done := Write(fs, done, size, 0, SECTOR, BootSector(partSectors));
    var fat := BuildTable(efi, cfg);
    fs, done := Write(fs, done, size, FAT_OFF, FAT_OFF + |fat|, fat);
    fs, done := Write(fs, done, size, ROOT_OFF, ROOT_OFF + 32, Entry(Text("EFI        "), 0x10, 2, 0));
    fs, done := Write(fs, done, size, ROOT_OFF + 32, ROOT_OFF + 64, Entry(Text("AEGIS BOOT "), 0x08, 0, 0));
    if cfg != [] {
      fs, done := Write(fs, done, size, ROOT_OFF + 64, ROOT_OFF + 96, Entry(Text("FLEET   CFG"), 0x20, CfgFirst(efi), |cfg|));
    }
    assert done == Head(efi, cfg, partSectors);
  }

  /** A subdirectory: 64 bytes of dot entries assigned to a 32-byte slice, then one entry. */
  method WriteDirectory(fs: seq<byte>, ghost done: seq<byte>, ghost size: nat, off: nat, self: nat, parent: nat, entry: seq<byte>)
    returns (r: seq<byte>, ghost done': seq<byte>)
    requires Begun(fs, done, size) && |done| <= off && off + 96 <= size && |entry| == 32
    ensures done' == PadTo(done, off) + (DotEntries(self, parent) + entry) && Begun(r, done', size + 32)
  {
    hide Assign, DotEntries;
    r, done' := Write(fs, done, size, off, off + 32, DotEntries(self, parent));
    r, done' := Write(r, done', size + 32, off + 64, off + 96, entry);
  }

  /** Every write of the build script in turn; the two directories grow the volume by 64 bytes. */
  method BuildFat16(efi: seq<byte>, cfg: seq<byte>, partSectors: nat) returns (fs: seq<byte>)
    requires FitsFat(efi, cfg) && |Used(efi, cfg, partSectors)| <= SECTOR * partSectors
    ensures |fs| == SECTOR * partSectors + 64
    ensures fs == PadTo(Used(efi, cfg, partSectors), SECTOR * partSectors + 64)
  {
    UsedLength(efi, cfg, partSectors);
    ClustersCover(|efi|);
    HeadLength(efi, cfg, partSectors);
    ghost var size := SECTOR * partSectors;
    fs := WriteHead(efi, cfg, partSectors);
    hide Entry, DotEntries, Text, Assign, Head;
    ghost var done := Head(efi, cfg, partSectors);
    fs, done := WriteDirectory(fs, done, size, DATA_OFF, 2, 0, Entry(Text("BOOT       "), 0x10, 3, 0));
    fs, done := WriteDirectory(fs, done, size + 32, DATA_OFF + CLUSTER, 3, 2, Entry(Text("BOOTX64 EFI"), 0x20, 4, |efi|));
    fs, done := Write(fs, done, size + 64, DATA_OFF + 2 * CLUSTER, DATA_OFF + 2 * CLUSTER + |efi|, efi);
    if cfg != [] {
      var cfgOff := DATA_OFF + (CfgFirst(efi) - 2) * CLUSTER;
      fs, done := Write(fs, done, size + 64, cfgOff, cfgOff + |cfg|, cfg);
    }
    WritesAreUsed(efi, cfg, partSectors, done, size + 64);
  }

  lemma HeadLength(efi: seq<byte>, cfg: seq<byte>, partSectors: nat)
    ensures |Head(efi, cfg, partSectors)| <= ROOT_OFF + 96
  {}

  /** What was written, gaps included, is the layout. */
  lemma WritesAreUsed(efi: seq<byte>, cfg: seq<byte>, partSectors: nat, done: seq<byte>, size: nat)
    requires |efi| > 0 && |Used(efi, cfg, partSectors)| <= size && |done| <= size
    requires var dirs := PadTo(PadTo(Head(efi, cfg, partSectors), DATA_OFF) + EfiDir(), DATA_OFF + CLUSTER) + BootDir(efi);
             var file := PadTo(dirs, DATA_OFF + 2 * CLUSTER) + efi;
             done == if cfg == [] then file else PadTo(file, DATA_OFF + (CfgFirst(efi) - 2) * CLUSTER) + cfg
    ensures PadTo(done, size) == PadTo(Used(efi, cfg, partSectors), size)
  {
    hide Front, Head, RootDir, EfiDir, BootDir, PadTo, Clusters, CfgFirst;
    UsedLength(efi, cfg, partSectors);
    ClustersCover(|efi|);
    CfgOffset(efi);
    DirLengths(efi, cfg);
    HeadPadded(efi, cfg, partSectors);
    Stacked(Front(efi, cfg, partSectors), EfiDir(), BootDir(efi), efi, CLUSTER * Clusters(|efi|), cfg, size);
  }

  lemma HeadPadded(efi: seq<byte>, cfg: seq<byte>, partSectors: nat)
    ensures PadTo(Head(efi, cfg, partSectors), DATA_OFF) == Front(efi, cfg, partSectors)
  {
    var front := BootSector(partSectors) + FatTable(efi, cfg);
    assert |front| == ROOT_OFF;
    hide BootSector, FatTable, RootDir, PadTo;
    PadTail(front, RootDir(efi, cfg), CLUSTER);
  }

  lemma CfgOffset(efi: seq<byte>)
    ensures (CfgFirst(efi) - 2) * CLUSTER == 2 * CLUSTER + CLUSTER * Clusters(|efi|) == CLUSTER * (CfgFirst(efi) - 2)
  {}

  lemma DirLengths(efi: seq<byte>, cfg: seq<byte>)
    ensures |RootDir(efi, cfg)| <= 96 && |EfiDir()| == 96 && |BootDir(efi)| == 96
  {}

  /** Writing three pieces one after the other, zeros between them. */
  lemma Stacked(a: seq<byte>, d: seq<byte>, e: seq<byte>, f: seq<byte>, n: nat, g: seq<byte>, size: nat)
    requires |d| <= CLUSTER && |e| <= CLUSTER && |f| <= n && |a| + 2 * CLUSTER + n + |g| <= size
    ensures var file := PadTo(PadTo(a + d, |a| + CLUSTER) + e, |a| + 2 * CLUSTER) + f;
            var all := if g == [] then file else PadTo(file, |a| + 2 * CLUSTER + n) + g;
            PadTo(all, size) == PadTo(a + PadTo(d, CLUSTER) + PadTo(e, CLUSTER) + PadTo(f, n) + g, size)
  {
    hide PadTo;
    var b := a + PadTo(d, CLUSTER);
    var c := b + PadTo(e, CLUSTER);
    PadTail(a, d, CLUSTER);
    PadTail(b, e, CLUSTER);
    PadTail(c, f, n);
    if g == [] {
      var x := c + PadTo(f, n);
      assert x + g == x;
      PadTwice(c + f, |x|, size);
    }
  }

  lemma PadTail(x: seq<byte>, y: seq<byte>, n: nat)
    ensures PadTo(x + y, |x| + n) == x + PadTo(y, n)
  {}

  lemma PadTwice(x: seq<byte>, m: nat, n: nat)
    requires |x| <= m <= n
    ensures PadTo(PadTo(x, m), n) == PadTo(x, n)
  {}

  /** One slice assignment past everything written so far. */
  method Write(buf: seq<byte>, ghost done: seq<byte>, ghost size: nat, a: nat, b: nat, data: seq<byte>) returns (r: seq<byte>, ghost done': seq<byte>)
    requires Begun(buf, done, size) && |done| <= a <= b <= size
    ensures r == Assign(buf, a, b, data) && done' == PadTo(done, a) + data && Begun(r, done', size - (b - a) + |data|)
  {
    AssignBegun(buf, done, size, a, b, data);
    r, done' := Assign(buf, a, b, data), PadTo(done, a) + data;
    assert done + Zeros(a - |done|) == PadTo(done, a);
  }

  // ------------------------------------------------------------------
  // The disk around the volume
  // ------------------------------------------------------------------

  const VOLUME_OFF := 1048576     // PART_START sectors

  /** `data` is found at offset `off`. */
  ghost predicate At(buf: seq<byte>, off: nat, data: seq<byte>)
  {
    off + |data| <= |buf| && buf[off..off + |data|] == data
  }

  lemma AtInside(buf: seq<byte>, off: nat, data: seq<byte>, o: nat, part: seq<byte>)
    requires At(buf, off, data) && At(data, o, part)
    ensures At(buf, off + o, part)
  {
    forall i | 0 <= i < |part| ensures buf[off + o + i] == part[i] {
      assert buf[off..off + |data|][o + i] == data[o..o + |part|][i];
    }
  }

  /** Overwriting in place keeps the length and everything beside it. */
  lemma AssignInPlace(buf: seq<byte>, a: nat, data: seq<byte>)
    requires a + |data| <= |buf|
    ensures var r := Assign(buf, a, a + |data|, data);
            && |r| == |buf| && At(r, a, data)
            && forall o: nat, d: seq<byte> | At(buf, o, d) && (o + |d| <= a || a + |data| <= o) :: At(r, o, d)
  {
    var r := Assign(buf, a, a + |data|, data);
    forall o: nat, d: seq<byte> | At(buf, o, d) && (o + |d| <= a || a + |data| <= o) ensures At(r, o, d) {
      assert r[o..o + |d|] == buf[o..o + |d|];
    }
  }

  /**
    Partition table, headers and volume. The volume is 64 bytes longer than the
    partition; the spare sector before the backup table absorbs them.
   */
  method BuildGpt(fs: seq<byte>, total: nat, mbr: seq<byte>, header: seq<byte>, entries: seq<byte>, backup: seq<byte>) returns (disk: seq<byte>)
    requires total >= PART_START + 34 && |fs| == SECTOR * (total - PART_START - 34) + 64
    requires |mbr| == |header| == |backup| == SECTOR && |entries| == 32 * SECTOR
    ensures |disk| == SECTOR * total
    ensures At(disk, 0, mbr) && At(disk, SECTOR, header) && At(disk, 2 * SECTOR, entries)
    ensures At(disk, VOLUME_OFF, fs)
    ensures At(disk, SECTOR * (total - 33), entries) && At(disk, SECTOR * (total - 1), backup)
    ensures VOLUME_OFF + |fs| < SECTOR * (total - 33)
  {
    hide At, Assign;
    disk := Zeros(SECTOR * total);
    AssignInPlace(disk, 0, mbr);
    disk := Assign(disk, 0, SECTOR, mbr);
    AssignInPlace(disk, 2 * SECTOR, entries);
    disk := Assign(disk, 2 * SECTOR, 2 * SECTOR + |entries|, entries);
    AssignInPlace(disk, SECTOR, header);
    disk := Assign(disk, SECTOR, 2 * SECTOR, header);
    AssignInPlace(disk, SECTOR * (total - 33), entries);
    disk := Assign(disk, SECTOR * (total - 33), SECTOR * (total - 33) + |entries|, entries);
    AssignInPlace(disk, SECTOR * (total - 1), backup);
    disk := Assign(disk, SECTOR * (total - 1), |disk|, backup);
    AssignInPlace(disk, VOLUME_OFF, fs);
    disk := Assign(disk, VOLUME_OFF, VOLUME_OFF + |fs|, fs);
  }

  /** The finished image of two files. */
  ghost predicate IsImage(disk: seq<byte>, efi: seq<byte>, cfg: seq<byte>)
  {
    At(disk, VOLUME_OFF, Used(efi, cfg, PartSectors(efi, cfg)))
  }

  /** `create_disk_image` for any files that fit the table. */
  method CreateDiskImage(efi: seq<byte>, cfg: seq<byte>, mbr: seq<byte>, header: seq<byte>, entries: seq<byte>, backup: seq<byte>) returns (disk: seq<byte>)
    requires FitsFat(efi, cfg)
    requires |mbr| == |header| == |backup| == SECTOR && |entries| == 32 * SECTOR
    ensures IsImage(disk, efi, cfg)
    ensures var total := TotalSectors(efi, cfg);
            && |disk| == SECTOR * total
            && At(disk, 0, mbr) && At(disk, SECTOR, header) && At(disk, 2 * SECTOR, entries)
            && At(disk, SECTOR * (total - 33), entries) && At(disk, SECTOR * (total - 1), backup)
  {
    VolumeFits(efi, cfg);
    hide Used, At;
    var fs := BuildFat16(efi, cfg, PartSectors(efi, cfg));
    disk := BuildGpt(fs, TotalSectors(efi, cfg), mbr, header, entries, backup);
    PaddedHolds(Used(efi, cfg, PartSectors(efi, cfg)), |fs|);
    AtInside(disk, VOLUME_OFF, fs, 0, Used(efi, cfg, PartSectors(efi, cfg)));
  }

  lemma PaddedHolds(x: seq<byte>, n: nat)
    ensures At(PadTo(x, n), 0, x)
  {}

  // ------------------------------------------------------------------
  // Where things are in an image
  // ------------------------------------------------------------------

  lemma ImagePieces(disk: seq<byte>, efi: seq<byte>, cfg: seq<byte>)
    requires IsImage(disk, efi, cfg)
    ensures At(disk, VOLUME_OFF, BootSector(PartSectors(efi, cfg)))
    ensures At(disk, VOLUME_OFF + FAT_OFF, FatTable(efi, cfg))
    ensures At(disk, VOLUME_OFF + ROOT_OFF, PadTo(RootDir(efi, cfg), CLUSTER))
    ensures At(disk, VOLUME_OFF + DATA_OFF, PadTo(EfiDir(), CLUSTER))
    ensures At(disk, VOLUME_OFF + DATA_OFF + CLUSTER, PadTo(BootDir(efi), CLUSTER))
    ensures At(disk, VOLUME_OFF + DATA_OFF + 2 * CLUSTER, PadTo(efi, CLUSTER * Clusters(|efi|)))
    ensures At(disk, VOLUME_OFF + DATA_OFF + CLUSTER * (CfgFirst(efi) - 2), cfg)
  {
    var part := PartSectors(efi, cfg);
    var b, c, d, e, f := FatTable(efi, cfg), PadTo(RootDir(efi, cfg), CLUSTER), PadTo(EfiDir(), CLUSTER), PadTo(BootDir(efi), CLUSTER), PadTo(efi, CLUSTER * Clusters(|efi|));
    ClustersCover(|efi|);
    assert |BootSector(part)| == FAT_OFF && |b| == FAT_BYTES && |c| == |d| == |e| == CLUSTER && |f| == CLUSTER * Clusters(|efi|);
    assert Used(efi, cfg, part) == BootSector(part) + b + c + d + e + f + cfg;
    hide BootSector, FatTable, RootDir, EfiDir, BootDir, PadTo, At, Used;
    Pieces(disk, VOLUME_OFF, BootSector(part), b, c, d, e, f, cfg);
  }

  lemma Pieces(buf: seq<byte>, off: nat, a: seq<byte>, b: seq<byte>, c: seq<byte>, d: seq<byte>, e: seq<byte>, f: seq<byte>, g: seq<byte>)
    requires At(buf, off, a + b + c + d + e + f + g)
    ensures At(buf, off, a) && At(buf, off + |a|, b) && At(buf, off + |a| + |b|, c) && At(buf, off + |a| + |b| + |c|, d)
    ensures At(buf, off + |a| + |b| + |c| + |d|, e) && At(buf, off + |a| + |b| + |c| + |d| + |e|, f)
    ensures At(buf, off + |a| + |b| + |c| + |d| + |e| + |f|, g)
  {
    hide At;
    Behind(buf, off, a + b + c + d + e + f, g);
    Behind(buf, off, a + b + c + d + e, f);
    Behind(buf, off, a + b + c + d, e);
    Behind(buf, off, a + b + c, d);
    Behind(buf, off, a + b, c);
    Behind(buf, off, a, b);
  }

  /** Two pieces found together are each found. */
  lemma Behind(buf: seq<byte>, off: nat, x: seq<byte>, y: seq<byte>)
    requires At(buf, off, x + y)
    ensures At(buf, off, x) && At(buf, off + |x|, y)
  {
    assert (x + y)[..|x|] == x && (x + y)[|x|..] == y;
    AtInside(buf, off, x + y, 0, x);
    AtInside(buf, off, x + y, |x|, y);
  }
}
