/**
 A FAT32 volume on its disk: entries of the allocation table are changed by reading a sector, patching it and writing
 it back; files are read, truncated and deleted along their chains.
 */
module FatVolumes {
  import opened FatChains
  import opened FatBytes
  import opened FatDirectories
  import opened Modular
  import opened Options

  class FatVolume {
    const disk: array<Byte>
    const sectorSize: nat
    const clusterSize: nat
    const fatPointer: nat
    const dataPointer: nat
    /** One past the number of the last cluster. */
    const clusters: nat
    /** The clusters of every file, by the first one. */
    ghost var chains: map<nat, seq<nat>>

    /** What mounting finds; no file has been opened yet. */
    constructor (disk: array<Byte>, sectorSize: nat, clusterSize: nat, fatPointer: nat, dataPointer: nat, clusters: nat)
      ensures this.disk == disk && this.sectorSize == sectorSize && this.clusterSize == clusterSize
      ensures this.fatPointer == fatPointer && this.dataPointer == dataPointer && this.clusters == clusters
      ensures chains == map[]
    {
      this.disk, this.sectorSize, this.clusterSize := disk, sectorSize, clusterSize;
      this.fatPointer, this.dataPointer, this.clusters := fatPointer, dataPointer, clusters;
      chains := map[];
    }

    function ClusterBytes(): nat {
      clusterSize * sectorSize
    }

    function ClusterStart(c: nat): nat
      requires c >= 2
    {
      dataPointer * sectorSize + U32((c - 2) * ClusterBytes())
    }

    /** The table has room for all clusters, the disk for all their bytes, and 32-bit offsets reach them all. */
    ghost predicate Shaped() {
      sectorSize > 0 && sectorSize % 4 == 0 && clusterSize > 0 && 2 <= clusters <= BAD_CLUSTER &&
      fatPointer <= dataPointer && 4 * clusters <= (dataPointer - fatPointer) * sectorSize &&
      dataPointer * sectorSize <= 0x1_0000_0000 &&
      dataPointer * sectorSize + (clusters - 2) * ClusterBytes() <= disk.Length &&
      (clusters - 2) * ClusterBytes() <= 0x1_0000_0000
    }

    lemma {:induction false} TableFits()
      requires Shaped()
      ensures fatPointer * sectorSize + 4 * clusters <= dataPointer * sectorSize <= disk.Length
      ensures ClusterBytes() > 0 && sectorSize > 0 && dataPointer * sectorSize <= 0x1_0000_0000
    {
      assert fatPointer * sectorSize + (dataPointer - fatPointer) * sectorSize == dataPointer * sectorSize;
      Product(0, clusters - 2, ClusterBytes());
      Product(1, clusterSize, sectorSize);
    }

    /** The sectors of the table have room for n entries. */
    predicate Holds(n: nat) {
      fatPointer <= dataPointer && 4 * n <= (dataPointer - fatPointer) * sectorSize
    }

    lemma {:induction false} HoldsFits(n: nat)
      requires Shaped() && Holds(n)
      ensures fatPointer * sectorSize + 4 * n <= dataPointer * sectorSize <= disk.Length
    {
      TableFits();
      assert fatPointer * sectorSize + (dataPointer - fatPointer) * sectorSize == dataPointer * sectorSize;
    }

    /** The first n entries of the table, whether there are clusters for them or not. */
    ghost function TableTo(n: nat): (t: Table)
      requires Shaped() && Holds(n)
      reads disk
      ensures |t| == n
    {
      HoldsFits(n);
      TableAt(disk[..], fatPointer * sectorSize, n)
    }

    ghost function FatTable(): (t: Table)
      requires Shaped()
      reads disk
    {
      TableFits();
      TableAt(disk[..], fatPointer * sectorSize, clusters)
    }

    ghost function View(): Volume
      requires Shaped()
      reads this, disk
    {
      Volume(FatTable(), chains)
    }

    ghost predicate Valid()
      reads this, disk
    {
      Shaped() && Inv(View())
    }

    /** The bytes of every cluster; there are none for numbers 0 and 1. */
    ghost function Data(): (r: seq<seq<Byte>>)
      reads disk
      ensures |r| == clusters
    {
      DataIn(disk[..])
    }

    ghost function DataIn(d: seq<Byte>): (r: seq<seq<Byte>>)
      ensures |r| == clusters
    {
      seq(clusters, c => if c < 2 then [] else Slice(d, ClusterStart(c), ClusterBytes()))
    }

    lemma {:induction false} ClusterInside(c: nat)
      requires Shaped() && 2 <= c < clusters
      ensures dataPointer * sectorSize <= ClusterStart(c) && ClusterStart(c) + ClusterBytes() <= disk.Length &&
        ClusterBytes() > 0
      ensures Data()[c] == disk[ClusterStart(c)..ClusterStart(c) + ClusterBytes()]
      ensures ClusterStart(c) == dataPointer * sectorSize + (c - 2) * ClusterBytes()
    {
      TableFits();
      Product(0, c - 2, ClusterBytes());
      Product(c - 1, clusters - 2, ClusterBytes());
      assert (c - 1) * ClusterBytes() == (c - 2) * ClusterBytes() + ClusterBytes();
    }

    lemma {:induction false} ClustersApart(c: nat, e: nat)
      requires Shaped() && 2 <= c < e < clusters
      ensures ClusterStart(c) + ClusterBytes() <= ClusterStart(e)
    {
      ClusterInside(c);
      ClusterInside(e);
      Product(c - 1, e - 2, ClusterBytes());
      assert (c - 1) * ClusterBytes() == (c - 2) * ClusterBytes() + ClusterBytes();
    }

    method ReadDevice(at: nat, size: nat) returns (buffer: array<Byte>)
      requires at + size <= disk.Length
      ensures fresh(buffer) && buffer[..] == disk[at..at + size]
    {
      buffer := new Byte[size](_ => 0);
      for i := 0 to size
        invariant forall k | 0 <= k < i :: buffer[k] == disk[at + k]
      {
        buffer[i] := disk[at + i];
      }
    }

    method WriteDevice(at: nat, buffer: array<Byte>)
      requires at + buffer.Length <= disk.Length && buffer != disk
      modifies disk
      ensures disk[..] == Patched(old(disk[..]), at, buffer[..])
    {
      for i := 0 to buffer.Length
        invariant forall k | 0 <= k < disk.Length ::
          disk[k] == if at <= k < at + i then buffer[k - at] else old(disk[k])
      {
        disk[at + i] := buffer[i];
      }
    }

    /** Where the sector with an entry of the table begins, and where in it the entry is. */
    function SectorAddress(c: nat): nat
      requires sectorSize > 0
    {
      (fatPointer + c * 4 / sectorSize) * sectorSize
    }

    function EntryOffset(c: nat): nat
      requires sectorSize > 0
    {
      c * 4 % sectorSize
    }

    lemma {:induction false} EntryAddress(c: nat)
      requires Shaped() && Holds(c + 1)
      ensures SectorAddress(c) + EntryOffset(c) == fatPointer * sectorSize + 4 * c
      ensures SectorAddress(c) + sectorSize <= dataPointer * sectorSize <= disk.Length
      ensures U32(SectorAddress(c)) == SectorAddress(c)
      ensures EntryOffset(c) / 4 * 4 == EntryOffset(c) && EntryOffset(c) + 4 <= sectorSize
    {
      TableFits();
      BlockAddress(4 * c, sectorSize, fatPointer, dataPointer);
      WordAligned(c, sectorSize);
    }

    /** fat_get_next_cluster. */
    method GetNextCluster(cluster: nat) returns (value: nat)
      requires Shaped() && cluster < clusters
      ensures value == Link(FatTable(), cluster)
    {
      hide Shaped, FatTable, TableTo, WordAt, U32, Holds, SectorAddress, EntryOffset;
      TableFits();
      TableLength();
      EntryAddress(cluster);
      var entryOffset := EntryOffset(cluster);
      var sector := ReadDevice(U32(SectorAddress(cluster)), sectorSize);
      EntryOfSector(SectorAddress(cluster), sector[..], entryOffset, cluster, clusters);
      value := WordAt(sector[..], entryOffset / 4 * 4) % LINK_LIMIT;
    }

    lemma {:induction false} EntryOfSector(at: nat, sector: seq<Byte>, k: nat, c: nat, n: nat)
      requires Shaped() && Holds(n) && c < n && at + |sector| <= disk.Length && sector == disk[at..at + |sector|]
      requires k + 4 <= |sector| && at + k == fatPointer * sectorSize + 4 * c
      ensures TableTo(n)[c] == WordAt(sector, k)
      ensures n == clusters ==> FatTable()[c] == WordAt(sector, k)
    {
    }

    /** fat_update_fat: the entry changes, and nothing else on the disk.  It may be an entry past the last cluster. */
    method UpdateFat(cluster: nat, value: Word)
      requires Shaped() && Holds(cluster + 1)
      modifies disk
      ensures FatTable() == (if cluster < clusters then old(FatTable())[cluster := value] else old(FatTable()))
      ensures Data() == old(Data())
    {
      hide Shaped, FatTable, Data, U32, Holds, SectorAddress, EntryOffset;
      TableFits();
      EntryAddress(cluster);
      UpdateSector(U32(SectorAddress(cluster)), EntryOffset(cluster), cluster, value);
    }

    /** The sector is read, its entry changed, and the sector written. */
    method UpdateSector(at: nat, entryOffset: nat, ghost c: nat, value: Word)
      requires Shaped() && at + sectorSize <= dataPointer * sectorSize <= disk.Length
      requires entryOffset / 4 * 4 == entryOffset && entryOffset + 4 <= sectorSize
      requires at + entryOffset == fatPointer * sectorSize + 4 * c
      modifies disk
      ensures FatTable() == (if c < clusters then old(FatTable())[c := value] else old(FatTable()))
      ensures Data() == old(Data())
    {
      hide Shaped, FatTable, Data, Patched, WordBytes;
      TableNow();
      TableLength();
      ghost var before := disk[..];
      var sector := ReadDevice(at, sectorSize);
      Store(sector, entryOffset / 4 * 4, WordBytes(value));
      WriteDevice(at, sector);
      PatchSector(before, at, sectorSize, entryOffset, WordBytes(value));
      EntryWrite(before, c, value);
      TableWrite(before, at + entryOffset, WordBytes(value));
    }

    /** A write of one entry is a point update of the table, if it has the entry. */
    lemma {:induction false} EntryWrite(d: seq<Byte>, c: nat, w: Word)
      requires Shaped() && fatPointer * sectorSize + 4 * c + 4 <= |d|
      requires fatPointer * sectorSize + 4 * clusters <= |d| && |d| == disk.Length
      requires disk[..] == Patched(d, fatPointer * sectorSize + 4 * c, WordBytes(w))
      ensures var t := TableAt(d, fatPointer * sectorSize, clusters);
        FatTable() == if c < clusters then t[c := w] else t
    {
      hide TableAt, Patched, WordBytes;
      var base := fatPointer * sectorSize;
      if c < clusters {
        PatchEntry(d, base, clusters, c, w);
      } else {
        PatchKeepsTable(d, base, clusters, base + 4 * c, WordBytes(w));
      }
    }

    /** A write to the table leaves the clusters alone. */
    lemma {:induction false} TableWrite(d: seq<Byte>, at: nat, b: seq<Byte>)
      requires Shaped() && |d| == disk.Length && at + |b| <= dataPointer * sectorSize <= |d| &&
        disk[..] == Patched(d, at, b)
      ensures Data() == DataIn(d)
    {
      hide Patched;
      forall c | 2 <= c < clusters
        ensures Slice(disk[..], ClusterStart(c), ClusterBytes()) == Slice(d, ClusterStart(c), ClusterBytes())
      {
        ClusterInside(c);
        PatchBefore(d, at, b, ClusterStart(c), ClusterBytes());
      }
    }

    static method Store(buffer: array<Byte>, at: nat, b: seq<Byte>)
      requires at + |b| <= buffer.Length
      modifies buffer
      ensures buffer[..] == Patched(old(buffer[..]), at, b)
    {
      for i := 0 to |b|
        invariant forall k | 0 <= k < buffer.Length ::
          buffer[k] == if at <= k < at + i then b[k - at] else old(buffer[k])
      {
        buffer[at + i] := b[i];
      }
    }

    // ---- Clusters ----

    method ReadCluster(c: nat) returns (buffer: array<Byte>)
      requires Shaped() && 2 <= c < clusters
      ensures fresh(buffer) && buffer[..] == Data()[c] && buffer.Length == ClusterBytes()
    {
      ClusterInside(c);
      buffer := ReadDevice(ClusterStart(c), ClusterBytes());
    }

    method WriteCluster(c: nat, buffer: array<Byte>)
      requires Shaped() && 2 <= c < clusters && buffer.Length == ClusterBytes() && buffer != disk
      modifies disk
      ensures FatTable() == old(FatTable()) && Data() == old(Data())[c := buffer[..]]
    {
      hide Shaped, TableAt, DataIn, Patched, ClusterStart, ClusterBytes;
      TableFits();
      ClusterInside(c);
      ghost var before := disk[..];
      WriteDevice(ClusterStart(c), buffer);
      ClusterWrite(before, c, buffer[..]);
    }

    // ---- The entries of a directory ----

    /** fat_create_dir_entry: the first vacant entry is taken. */
    method CreateDirEntry(dir: nat, name: seq<Byte>, cluster: Word, size: Word, attributes: Byte) returns (ok: bool)
      requires Shaped() && 2 <= dir < clusters
      modifies disk
      ensures ok <==> FirstVacant(Entries(old(Data())[dir])).Some?
      ensures FatTable() == old(FatTable())
      ensures Data() ==
        old(Data())[dir := WithEntry(old(Data())[dir], NewEntry(name, cluster, size, attributes))]
    {
      hide Shaped, FatTable, Data, ClusterBytes, WordBytes, Patched, EntryAt, EntryBytes, NewEntry;
      var buffer := ReadCluster(dir);
      ghost var b := buffer[..];
      for i := 0 to buffer.Length / ENTRY_SIZE
        invariant buffer[..] == b && FatTable() == old(FatTable()) && Data() == old(Data())
        invariant forall k | 0 <= k < i :: !Vacant(Entries(b)[k])
      {
        FirstByte(b, i);
        if buffer[ENTRY_SIZE * i] == 0 || buffer[ENTRY_SIZE * i] == DELETED {
          Store(buffer, ENTRY_SIZE * i, EntryBytes(NewEntry(name, cluster, size, attributes)));
          WriteCluster(dir, buffer);
          return true;
        }
      }
      ok := false;
    }

    /** fat_update_dir_entry_size.  `parent` is the directory's cluster, none when the file is not in the tree. */
    method UpdateDirEntrySize(parent: Option<nat>, name: seq<Byte>, size: Word) returns (ok: bool)
      requires Shaped() && (parent.Some? ==> 2 <= parent.value < clusters)
      modifies disk
      ensures ok <==> parent.Some? && FindEntry(Entries(old(Data())[parent.value]), name).Some?
      ensures FatTable() == old(FatTable())
      ensures Data() == match parent
        case None => old(Data())
        case Some(d) => old(Data())[d := WithSize(old(Data())[d], name, size)]
    {
      hide Shaped, FatTable, Data, ClusterBytes, WordBytes, Patched, SameName;
      if parent.None? {
        return false;
      }
      var buffer := ReadCluster(parent.value);
      ghost var b := buffer[..];
      for i := 0 to buffer.Length / ENTRY_SIZE
        invariant buffer[..] == b && FatTable() == old(FatTable()) && Data() == old(Data())
        invariant forall k | 0 <= k < i :: !SameName(Entries(b)[k].filename, Field(name), 0)
      {
        FirstByte(b, i);
        if SameName(buffer[ENTRY_SIZE * i..ENTRY_SIZE * i + NAME_LENGTH], Field(name), 0) {
          Store(buffer, ENTRY_SIZE * i + 28, WordBytes(size));
          WriteCluster(parent.value, buffer);
          return true;
        }
      }
      ok := false;
    }

    /** fat_remove_dir_entry: it looks for the file's entry, and blanks the first one. */
    method RemoveDirEntry(parent: Option<nat>, name: seq<Byte>) returns (ok: bool)
      requires Shaped() && (parent.Some? ==> 2 <= parent.value < clusters)
      modifies disk
      ensures ok <==> parent.Some? && FindEntry(Entries(old(Data())[parent.value]), name).Some?
      ensures FatTable() == old(FatTable())
      ensures Data() == match parent
        case None => old(Data())
        case Some(d) => old(Data())[d := Struck(old(Data())[d], name)]
    {
      hide Shaped, FatTable, Data, ClusterBytes, Patched, SameName;
      if parent.None? {
        return false;
      }
      var buffer := ReadCluster(parent.value);
      ghost var b := buffer[..];
      for i := 0 to buffer.Length / ENTRY_SIZE
        invariant buffer[..] == b && FatTable() == old(FatTable()) && Data() == old(Data())
        invariant forall k | 0 <= k < i :: !SameName(Entries(b)[k].filename, Field(name), 0)
      {
        FirstByte(b, i);
        if SameName(buffer[ENTRY_SIZE * i..ENTRY_SIZE * i + NAME_LENGTH], Field(name), 0) {
          Store(buffer, 0, Zeros(ENTRY_SIZE));
          WriteCluster(parent.value, buffer);
          return true;
        }
      }
      ok := false;
    }

    /** Where fat_find_dir starts to read: for a directory that is no mount point the sector size is left out. */
    function SearchStart(c: nat, mountPoint: bool): nat
      requires c >= 2
    {
      if mountPoint then ClusterStart(c) else dataPointer + U32((c - 2) * ClusterBytes())
    }

    /** On a volume with a table and sectors of four bytes or more that is never where the directory's cluster is. */
    lemma {:induction false} SearchStartsWrong(c: nat)
      requires Shaped() && c >= 2
      ensures SearchStart(c, false) < ClusterStart(c)
      ensures SearchStart(c, false) + ClusterBytes() <= ClusterStart(c) <==>
              ClusterBytes() <= dataPointer * (sectorSize - 1)
    {
      TablePresent();
      Product(2, sectorSize, dataPointer);
    }

    lemma {:induction false} TablePresent()
      requires Shaped()
      ensures dataPointer > 0 && sectorSize >= 4
    {
      assert dataPointer == fatPointer ==> (dataPointer - fatPointer) * sectorSize == 0;
    }

    /** fat_find_dir on the cluster of a directory: the entry, and the name of the node made for it. */
    method FindDir(c: nat, mountPoint: bool, name: seq<Byte>) returns (r: Search, node: seq<Byte>)
      requires Shaped() && 2 <= c < clusters
      ensures SearchStart(c, mountPoint) + ClusterBytes() <= disk.Length
      ensures r == SearchDir(Entries(Slice(disk[..], SearchStart(c, mountPoint), ClusterBytes())), name)
      ensures mountPoint ==> r == SearchDir(Entries(Data()[c]), name)
      ensures r.Hit? ==> node == NodeName(Slice(disk[..], SearchStart(c, mountPoint), ClusterBytes()), mountPoint)
    {
      hide Shaped, Data, Clean, SearchDir, Entries, SearchStart, ClusterBytes;
      SearchFits(c, mountPoint);
      var buffer := ReadDevice(SearchStart(c, mountPoint), ClusterBytes());
      var at;
      r, at := SearchEntries(buffer, name);
      node := if r.Hit? && !mountPoint then Text(buffer[..][ENTRY_SIZE * at..]) else [];
    }

    lemma {:induction false} SearchFits(c: nat, mountPoint: bool)
      requires Shaped() && 2 <= c < clusters
      ensures SearchStart(c, mountPoint) + ClusterBytes() <= disk.Length
      ensures mountPoint ==> Data()[c] == Slice(disk[..], SearchStart(c, mountPoint), ClusterBytes())
    {
      ClusterInside(c);
      SearchStartsWrong(c);
    }

    /** The loop of the search. */
    static method SearchEntries(buffer: array<Byte>, name: seq<Byte>) returns (r: Search, at: nat)
      ensures r == SearchDir(Entries(buffer[..]), name) && at <= buffer.Length / ENTRY_SIZE
      ensures r.Hit? ==> at == FirstSeen(Entries(buffer[..]))
    {
      hide Clean, EntryAt;
      var i := 0;
      while i < buffer.Length / ENTRY_SIZE
        invariant 0 <= i <= buffer.Length / ENTRY_SIZE
        invariant SearchDir(Entries(buffer[..]), name) == SearchDir(Entries(buffer[..])[i..], name)
        invariant FirstSeen(Entries(buffer[..])) == i + FirstSeen(Entries(buffer[..])[i..])
      {
        ghost var dir := Entries(buffer[..]);
        FirstByte(buffer[..], i);
        assert dir[i..][1..] == dir[i + 1..];
        var entry := EntryAt(buffer[..], ENTRY_SIZE * i);
        if entry.filename[0] == 0 {
          return Miss, i;
        }
        if entry.filename[0] == DELETED || entry.attributes == LONG_NAME {
          i := i + 1;
          continue;
        }
        var cleaned := CleanFilename(entry.filename);
        if cleaned == name {
          return Hit(entry), i;
        }
        return Endless, i;
      }
      return Beyond, i;
    }

    /** clean_fat_filename. */
    static method CleanFilename(input: Name) returns (output: seq<Byte>)
      ensures output == Clean(input)
    {
      var name := CopyStretch(input[..8]);
      var extension := CopyStretch(input[8..]);
      if extension != [] {
        output := name + [DOT] + extension;
        if |output| > 11 {
          output := output[..11];
        }
      } else {
        output := name;
      }
      ghost var full := output;
      for i := 0 to |output|
        invariant |output| == |full|
        invariant forall k | 0 <= k < |output| :: output[k] == if k < i then Lower(full[k]) else full[k]
      {
        if 0x41 <= output[i] <= 0x5A {
          output := output[i := output[i] + 32];
        }
      }
    }

    static method CopyStretch(part: seq<Byte>) returns (copied: seq<Byte>)
      ensures copied == Stretch(part)
    {
      var i := 0;
      copied := [];
      hide Stretch;
      assert part[0..] == part;
      while i < |part| && part[i] != 0 && part[i] != SPACE
        invariant 0 <= i <= |part| && copied == part[..i] && Stretch(part) == copied + Stretch(part[i..])
      {
        StretchGoesOn(part, i);
        copied := copied + [part[i]];
        i := i + 1;
      }
      StretchEnds(part, i);
    }

    // ---- Files ----

    /** The loop of fat_delete and of the truncating fat_open: from the entry after s[..k] to the end of the chain,
        every entry is cleared after its link has been read. */
    method FreeFrom(first: nat, ghost s: seq<nat>, ghost k: nat)
      requires Shaped() && Chain(FatTable(), s) && k <= |s|
      requires if k < |s| then first == s[k] else first == Link(FatTable(), s[|s| - 1])
      modifies disk
      ensures FatTable() == Zeroed(old(FatTable()), s[k..]) && Data() == old(Data())
    {
      hide Shaped, FatTable, Data, Chain, Zeroed, Link;
      ghost var t := FatTable();
      ghost var i := k;
      var current := first;
      ChainBounds(t, s);
      TableLength();
      ZeroedNone(t, s, k);
      while current < BAD_CLUSTER
        invariant k <= i <= |s| && FatTable() == Zeroed(t, s[k..i]) && Data() == old(Data())
        invariant current == if i < |s| then s[i] else Link(t, s[|s| - 1])
        decreases |s| - i
      {
        ChainStep(t, s, k, i);
        var next := GetNextCluster(current);
        UpdateFat(current, 0);
        i := i + 1;
        current := next;
      }
      assert s[k..] == s[k..i];
    }

    lemma {:induction false} TableNow()
      requires Shaped()
      ensures fatPointer * sectorSize + 4 * clusters <= |disk[..]|
      ensures FatTable() == TableAt(disk[..], fatPointer * sectorSize, clusters) && Data() == DataIn(disk[..])
    {
      TableFits();
    }

    lemma {:induction false} TableLength()
      requires Shaped()
      ensures 2 <= |FatTable()| == clusters <= BAD_CLUSTER
      ensures forall n: nat {:trigger Holds(n)} | n <= clusters :: Holds(n)
    {
    }

    /** fat_delete of a file: its chain, the size in its entry, and the entry.  `parent` is the directory's cluster. */
    method DeleteFile(f: nat, parent: Option<nat>, name: seq<Byte>, size: Word)
      requires Valid() && f in chains && (parent.Some? ==> 2 <= parent.value < clusters)
      modifies this, disk
      ensures Valid() && View() == After(old(View()), Delete(f))
      ensures Data() == match parent
        case None => old(Data())
        case Some(d) => old(Data())[d := Struck(WithSize(old(Data())[d], name, size), name)]
    {
      hide Shaped, FatTable, Data, Inv, Zeroed, Struck, WithSize, FindEntry, Entries;
      StepKeeps(View(), Delete(f));
      FileChain(View(), f);
      FreeFrom(f, chains[f], 0);
      assert chains[f][0..] == chains[f];
      chains := chains - {f};
      var sized := UpdateDirEntrySize(parent, name, size);
      var removed := RemoveDirEntry(parent, name);
    }

    /** The one write fat_write_file_data does for a buffer of one cluster, and the end mark after it. */
    method WriteOneCluster(cluster: nat, data: array<Byte>)
      requires Shaped() && 2 <= cluster < clusters && data.Length == ClusterBytes() && data != disk
      modifies disk
      ensures FatTable() == old(FatTable())[cluster := LAST] && Data() == old(Data())[cluster := data[..]]
    {
      hide Shaped, FatTable, Data, ClusterBytes;
      TableLength();
      WriteCluster(cluster, data);
      UpdateFat(cluster, LAST);
    }

    /** A write to a cluster leaves the table and the other clusters alone. */
    lemma {:induction false} ClusterWrite(d: seq<Byte>, c: nat, b: seq<Byte>)
      requires Shaped() && 2 <= c < clusters && |d| == disk.Length && |b| == ClusterBytes() &&
        ClusterStart(c) + |b| <= |d|
      requires disk[..] == Patched(d, ClusterStart(c), b)
      ensures fatPointer * sectorSize + 4 * clusters <= |d| &&
        FatTable() == TableAt(d, fatPointer * sectorSize, clusters)
      ensures Data() == DataIn(d)[c := b]
    {
      hide Patched, ClusterBytes, ClusterStart;
      TableFits();
      ClusterInside(c);
      PatchKeepsTable(d, fatPointer * sectorSize, clusters, ClusterStart(c), b);
      forall e | 2 <= e < clusters
        ensures Slice(disk[..], ClusterStart(e), ClusterBytes()) ==
          if e == c then b else Slice(d, ClusterStart(e), ClusterBytes())
      {
        ClusterInside(e);
        if e == c {
          PatchThere(d, ClusterStart(c), b);
        } else if e < c {
          ClustersApart(e, c);
          PatchBehind(d, ClusterStart(c), b, ClusterStart(e), ClusterBytes());
        } else {
          ClustersApart(c, e);
          PatchBefore(d, ClusterStart(c), b, ClusterStart(e), ClusterBytes());
        }
      }
    }

    /** fat_open for truncation: all clusters but the first are freed, that one is filled with zeros, and the size in
        the file's entry becomes 0. */
    method Truncate(f: nat, parent: Option<nat>, name: seq<Byte>)
      requires Valid() && Enabled(View(), FatChains.Truncate(f)) && (parent.Some? ==> 2 <= parent.value < clusters)
      modifies disk, this
      ensures Valid() && View() == After(old(View()), FatChains.Truncate(f)) && f < clusters
      ensures Data() ==
        var zeroed := old(Data())[f := seq(ClusterBytes(), _ => 0)];
        match parent
        case None => zeroed
        case Some(d) => zeroed[d := WithSize(zeroed[d], name, 0)]
    {
      hide Shaped, FatTable, Data, Inv, Zeroed, Patched, ClusterBytes, Free, WithSize, FindEntry, Entries;
      StepKeeps(View(), FatChains.Truncate(f));
      FileChain(View(), f);
      ghost var s := chains[f];
      TableLength();
      ChainBounds(FatTable(), s);
      var next := GetNextCluster(f);
      FreeFrom(next, s, 1);
      ClusterInside(f);
      var zeros := new Byte[ClusterBytes()](_ => 0);
      assert zeros[..] == seq(ClusterBytes(), _ => 0);
      WriteOneCluster(f, zeros);
      chains := chains[f := [f]];
      var sized := UpdateDirEntrySize(parent, name, 0);
    }

    /** Entries in a sector of the table, and the sector and the place in it of an entry. */
    function Words(): nat {
      sectorSize / 4
    }

    function Block(i: nat): nat
      requires Words() > 0
    {
      i / Words()
    }

    function Place(i: nat): (k: nat)
      requires Words() > 0
      ensures k < Words()
    {
      i % Words()
    }

    /** Where a sector of the table begins. */
    function SectorOf(k: nat): nat {
      (fatPointer + k) * sectorSize
    }

    lemma {:induction false} SectorInside(i: nat)
      requires Shaped() && Holds(i + 1)
      ensures Words() > 0 && 4 * Place(i) + 4 <= sectorSize && U32(SectorOf(Block(i))) == SectorOf(Block(i))
      ensures SectorOf(Block(i)) + sectorSize <= disk.Length
      ensures SectorOf(Block(i)) + 4 * Place(i) == fatPointer * sectorSize + 4 * i
    {
      assert sectorSize % 4 == 0 && sectorSize >= 4;
      TableFits();
      EntryAddress(i);
      WordBlock(i, sectorSize);
      NoWrap(SectorOf(Block(i)));
    }

    /** fat_find_free_cluster.  `limit` is the capacity in clusters, which counts reserved sectors and the table too and
        so may go past the last cluster; `junk` is what the buffer holds before the first sector of the table is read
        into it: entries of the first sector are looked up there. */
    method FindFreeCluster(limit: nat, junk: array<Byte>) returns (cluster: nat)
      requires Shaped() && Holds(limit) && junk.Length == sectorSize
      ensures cluster == FreeChoice(TableTo(limit), junk[..], 2, limit)
    {
      hide Shaped, TableTo, WordAt, U32, Words, SectorOf, Block, Place, FreeChoice;
      TableLength();
      SectorInside(0);
      var buffer, i := junk, 2;
      while i < limit
        invariant 2 <= i && buffer.Length == sectorSize && SectorFor(buffer[..], junk[..], i)
        invariant FreeChoice(TableTo(limit), junk[..], 2, limit) == FreeChoice(TableTo(limit), junk[..], i, limit)
      {
        SectorInside(i);
        SectorWord(buffer[..], junk[..], i, limit);
        ChoiceStep(junk[..], i, limit);
        if Place(i) == 0 {
          buffer := ReadDevice(U32(SectorOf(Block(i))), sectorSize);
        }
        if WordAt(buffer[..], 4 * Place(i)) == 0 {
          return i;
        }
        i := i + 1;
      }
      ChoiceStep(junk[..], i, limit);
      cluster := 0;
    }

    lemma {:induction false} ChoiceStep(junk: seq<Byte>, i: nat, limit: nat)
      requires Shaped() && Holds(limit) && |junk| == sectorSize
      ensures i < limit && i < Words() ==> 4 * i + 4 <= |junk|
      ensures FreeChoice(TableTo(limit), junk, i, limit) ==
        if i >= limit then 0
        else if (if i < Words() then WordAt(junk, 4 * i) else TableTo(limit)[i]) == 0 then i
        else FreeChoice(TableTo(limit), junk, i + 1, limit)
    {
    }

    /** The buffer as the search meets cluster i: the sector of the cluster before it, once one has been read. */
    ghost predicate SectorFor(buffer: seq<Byte>, junk: seq<Byte>, i: nat)
      requires Words() > 0 && i >= 2
      reads disk
    {
      buffer ==
        if i == 2 || Block(i - 1) == 0 then junk else Slice(disk[..], SectorOf(Block(i - 1)), sectorSize)
    }

    /** The buffer once the sector has been read that begins with the entry, if one does. */
    ghost function SectorRead(buffer: seq<Byte>, i: nat): seq<Byte>
      requires Words() > 0
      reads disk
    {
      if Place(i) == 0 then Slice(disk[..], SectorOf(Block(i)), sectorSize) else buffer
    }

    lemma {:induction false} SectorWord(buffer: seq<Byte>, junk: seq<Byte>, i: nat, limit: nat)
      requires Shaped() && Holds(limit) && 2 <= i < limit && |buffer| == |junk| == sectorSize && Words() > 0
      requires SectorFor(buffer, junk, i)
      ensures SectorFor(SectorRead(buffer, i), junk, i + 1) && |SectorRead(buffer, i)| == sectorSize
      ensures 4 * Place(i) + 4 <= sectorSize && (i < Words() ==> 4 * i + 4 <= |junk|)
      ensures WordAt(SectorRead(buffer, i), 4 * Place(i)) ==
        if i < Words() then WordAt(junk, 4 * i) else TableTo(limit)[i]
    {
      hide Shaped, TableTo, WordAt, U32, SectorOf;
      TableLength();
      SectorInside(i);
      SectorWalk(i);
      if i >= Words() {
        EntryOfSector(SectorOf(Block(i)), SectorRead(buffer, i), 4 * Place(i), i, limit);
      }
    }

    lemma {:induction false} SectorWalk(i: nat)
      requires Words() > 0 && i >= 2
      ensures i < Words() ==> Block(i) == 0 && Place(i) == i && Block(i - 1) == 0
      ensures i >= Words() ==> Block(i) > 0 && (i == 2 ==> Place(i) == 0)
      ensures Place(i) != 0 ==> Block(i - 1) == Block(i)
    {
      BlockNumber(i, Words());
      BlockNumber(i - 1, Words());
      if Place(i) != 0 {
        SameBlock(i, Words());
      }
    }

    /** What the search for a free cluster comes up with. */
    ghost function Choice(limit: nat, junk: seq<Byte>): nat
      requires Shaped() && Holds(limit)
      reads disk
    {
      FreeChoice(TableTo(limit), junk, 2, limit)
    }

    /** fat_create_file, and fat_mkdir with another attribute: a cluster, a directory entry, and the end mark. */
    method CreateFile(dir: nat, name: seq<Byte>, attributes: Byte, limit: nat, junk: array<Byte>)
        returns (ok: bool, ghost c: nat)
      requires Valid() && 2 <= dir < clusters && Holds(limit) && junk.Length == sectorSize
      modifies this, disk
      ensures Shaped() && c == old(Choice(limit, junk[..])) < 0x1_0000_0000
      ensures ok == (c != 0 && FirstVacant(Entries(old(Data())[dir])).Some?)
      ensures FatTable() == if ok && c < clusters then old(FatTable())[c := LAST] else old(FatTable())
      ensures chains == if ok then old(chains)[c := [c]] else old(chains)
      ensures Data() ==
        if c == 0 then old(Data())
        else old(Data())[dir := WithEntry(old(Data())[dir], NewEntry(name, c, 0, attributes))]
      ensures c in Free(old(FatTable())) && ok ==> View() == After(old(View()), Create(c))
      // The volume stays well formed exactly when the cluster found is one of the volume and not in the middle of a
      // file.
      ensures Valid() <==> ok ==> c < clusters && forall f | f in old(chains) && c in old(chains)[f] :: f == c
    {
      hide Shaped, FatTable, Data, Inv, FirstVacant, Entries, NewEntry, WithEntry, TableTo, FreeChoice;
      TableLength();
      FreeChoiceRange(TableTo(limit), junk[..], 2, limit);
      ChoiceSmall(limit);
      c := Choice(limit, junk[..]);
      var cluster := FindFreeCluster(limit, junk);
      if cluster == 0 {
        return false, c;
      }
      ok := CreateDirEntry(dir, name, cluster, 0, attributes);
      if !ok {
        return;
      }
      if cluster < clusters {
        CreatedOn(View(), cluster);
      } else {
        CreatedOutside(View(), cluster);
      }
      UpdateFat(cluster, LAST);
      chains := chains[cluster := [cluster]];
    }

    lemma {:induction false} ChoiceSmall(limit: nat)
      requires Shaped() && Holds(limit)
      ensures limit < 0x1_0000_0000
      ensures forall n: nat {:trigger Holds(n)} | n <= limit :: Holds(n)
    {
      HoldsFits(limit);
    }

    // ---- Reading ----

    lemma {:induction false} ClustersFull(s: seq<nat>)
      requires Shaped() && forall i | 0 <= i < |s| :: 2 <= s[i] < clusters
      ensures forall c <- s :: c < |Data()| && |Data()[c]| == ClusterBytes()
    {
      forall c | c in s
        ensures c < |Data()| && |Data()[c]| == ClusterBytes()
      {
        var i :| 0 <= i < |s| && s[i] == c;
        ClusterInside(c);
      }
    }

    /** fat_read_file_data from the k-th cluster of a chain: the contents from there on, cut to `size`. */
    method ReadFileData(start: nat, size: nat, ghost s: seq<nat>, ghost k: nat) returns (data: seq<Byte>)
      requires Shaped() && Chain(FatTable(), s) && k < |s| && s[k] == start
      ensures data <= Contents(Data(), s[k..])
      ensures |data| == if size < |Contents(Data(), s[k..])| then size else |Contents(Data(), s[k..])|
    {
      hide Shaped, FatTable, Chain, Contents, Data, ClusterBytes, ClusterStart;
      ghost var i := k;
      var current := start;
      data := [];
      TableLength();
      ChainBounds(FatTable(), s);
      NoContents(Data());
      assert s[k..k] == [];
      while |data| < size
        invariant k <= i <= |s| && |data| <= size && data <= Contents(Data(), s[k..])
        invariant |data| < size ==> i < |s| && current == s[i] && data == Contents(Data(), s[k..i])
        decreases size - |data|
      {
        ClusterInside(current);
        var chunk := if size - |data| < ClusterBytes() then size - |data| else ClusterBytes();
        ContentsSplit(Data(), s, k, i);
        ghost var before := data;
        data := data + disk[ClusterStart(current)..ClusterStart(current) + chunk];
        assert data <= before + Data()[current];
        i := i + 1;
        if |data| < size {
          ChainLinks(FatTable(), s, i - 1);
          var next := GetNextCluster(current);
          if next >= END_OF_CHAIN {
            assert s[k..i] == s[k..];
            return;
          }
          current := next;
        }
      }
    }

    /** fat_read: whole clusters before `offset` are skipped, the rest of the offset is not looked at.  Reading
        starts at the k-th cluster; nothing is read when the chain ends before.  So what is read starts at the
        offset exactly when that is a whole number of clusters. */
    method Read(start: nat, size: nat, offset: nat, ghost s: seq<nat>) returns (data: Option<seq<Byte>>, ghost k: nat)
      requires Shaped() && Chain(FatTable(), s) && s[0] == start
      ensures data.None? <==> offset >= |Contents(Data(), s)|
      ensures data.Some? ==>
        k < |s| && |Contents(Data(), s[..k])| <= offset < |Contents(Data(), s[..k])| + ClusterBytes()
      ensures data.Some? ==> data.value <= Contents(Data(), s[k..])
      ensures data.Some? ==>
        |data.value| == if size < |Contents(Data(), s[k..])| then size else |Contents(Data(), s[k..])|
      ensures data.Some? ==> offset < |Contents(Data(), s)| && ClusterBytes() > 0
      ensures data.Some? ==>
        (Contents(Data(), s[k..]) == Contents(Data(), s)[offset..] <==> offset % ClusterBytes() == 0)
    {
      hide Shaped, FatTable, Chain, Contents, Data, ClusterBytes, ClusterStart;
      var left, current := offset, start;
      k := 0;
      TableLength();
      ChainBounds(FatTable(), s);
      NoContents(Data());
      assert s[..0] == [];
      while left >= ClusterBytes()
        invariant k < |s| && current == s[k] && left >= 0 && left + |Contents(Data(), s[..k])| == offset
        decreases |s| - k
      {
        ClusterInside(current);
        ContentsSplit(Data(), s, 0, k);
        assert s[0..k] == s[..k] && s[0..k + 1] == s[..k + 1];
        ChainLinks(FatTable(), s, k);
        current := GetNextCluster(current);
        if current >= END_OF_CHAIN {
          assert s[..k + 1] == s;
          return None, k;
        }
        left := left - ClusterBytes();
        k := k + 1;
      }
      ClusterInside(current);
      ContentsSplit(Data(), s, 0, k);
      assert s[0..] == s && s[0..k] == s[..k];
      ClustersFull(s);
      AlignedRest(Data(), s, k, offset, ClusterBytes());
      var read := ReadFileData(current, size, s, k);
      data := Some(read);
    }
  }

  /** The cluster the search for a free one comes up with from cluster i on, 0 when there is none. */
  function FreeChoice(t: Table, junk: seq<Byte>, i: nat, limit: nat): nat
    requires limit <= |t|
    decreases limit - i
  {
    if i >= limit then 0
    else if (if i < |junk| / 4 then WordAt(junk, 4 * i) else t[i]) == 0 then i
    else FreeChoice(t, junk, i + 1, limit)
  }

  lemma {:induction false} FreeChoiceRange(t: Table, junk: seq<Byte>, i: nat, limit: nat)
    requires limit <= |t|
    ensures var c := FreeChoice(t, junk, i, limit);
      c == 0 || (i <= c < limit && (if c < |junk| / 4 then WordAt(junk, 4 * c) else t[c]) == 0)
    decreases limit - i
  {
    if i < limit {
      FreeChoiceRange(t, junk, i + 1, limit);
    }
  }

  lemma {:induction false} FreeChoiceLeast(t: Table, junk: seq<Byte>, i: nat, c: nat, limit: nat)
    requires i <= c < limit <= |t| && c < |junk| / 4 && WordAt(junk, 4 * c) == 0
    requires forall j | i <= j < c :: WordAt(junk, 4 * j) != 0
    ensures FreeChoice(t, junk, i, limit) == c
    decreases c - i
  {
    if i < c {
      FreeChoiceLeast(t, junk, i + 1, c, limit);
    }
  }

  /** Whatever the buffer holds, the search finds no cluster in use: exactly when no cluster that the first sector of
      the table stands for is in use. */
  lemma {:induction false} SearchSound(t: Table, n: nat, limit: nat)
    requires limit <= |t| && n % 4 == 0
    ensures (forall junk: seq<Byte> | |junk| == n :: FreeChoice(t, junk, 2, limit) in Free(t) + {0}) <==>
            forall c | 2 <= c < n / 4 && c < limit :: t[c] == 0
  {
    if forall c | 2 <= c < n / 4 && c < limit :: t[c] == 0 {
      forall junk: seq<Byte> | |junk| == n
        ensures FreeChoice(t, junk, 2, limit) in Free(t) + {0}
      {
        FreeChoiceRange(t, junk, 2, limit);
      }
    }
    if c :| 2 <= c < n / 4 && c < limit && t[c] != 0 {
      var junk := BadLuck(n, c);
      FreeChoiceLeast(t, junk, 2, c, limit);
      assert FreeChoice(t, junk, 2, limit) !in Free(t) + {0};
    }
  }

  /** A buffer of n bytes whose only zero word is the c-th. */
  lemma {:induction false} BadLuck(n: nat, c: nat) returns (junk: seq<Byte>)
    requires c < n / 4
    ensures |junk| == n && WordAt(junk, 4 * c) == 0 && forall j | 0 <= j < c :: WordAt(junk, 4 * j) != 0
  {
    junk := seq(n, k => if 4 * c <= k < 4 * c + 4 then 0 else 1);
  }

  /** The search stays within the volume's clusters, for a capacity that counts more, exactly when it finds one there or
      nothing at all. */
  lemma {:induction false} SearchInside(t: Table, junk: seq<Byte>, clusters: nat, limit: nat)
    requires 2 <= clusters <= limit <= |t|
    ensures FreeChoice(t, junk, 2, limit) < clusters <==>
            FreeChoice(t, junk, 2, clusters) != 0 || FreeChoice(t, junk, clusters, limit) == 0
  {
    FreeChoiceSplit(t, junk, 2, clusters, limit);
    FreeChoiceRange(t, junk, 2, clusters);
    FreeChoiceRange(t, junk, clusters, limit);
  }

  lemma {:induction false} FreeChoiceSplit(t: Table, junk: seq<Byte>, i: nat, k: nat, limit: nat)
    requires 2 <= i <= k <= limit <= |t|
    ensures FreeChoice(t, junk, i, limit) ==
      if FreeChoice(t, junk, i, k) != 0 then FreeChoice(t, junk, i, k) else FreeChoice(t, junk, k, limit)
    decreases k - i
  {
    if i < k {
      FreeChoiceSplit(t, junk, i + 1, k, limit);
    }
  }

  /** Where 32-bit offsets put a cluster. */
  function StartOf(first: nat, clusterBytes: nat, c: nat): nat
    requires c >= 2
  {
    first + U32((c - 2) * clusterBytes)
  }

  /** All clusters have places of their own exactly when the data region is at most 4 GiB: past that the offsets wrap
      around to the first clusters. */
  lemma {:induction false} OwnPlaces(first: nat, clusterBytes: nat, perWrap: nat, clusters: nat)
    requires clusters >= 2 && clusterBytes > 0 && perWrap * clusterBytes == 0x1_0000_0000
    ensures (forall c, e {:trigger StartOf(first, clusterBytes, c), StartOf(first, clusterBytes, e)} |
               2 <= c < e < clusters :: StartOf(first, clusterBytes, c) != StartOf(first, clusterBytes, e)) <==>
            (clusters - 2) * clusterBytes <= 0x1_0000_0000
  {
    hide StartOf;
    if clusters - 2 <= perWrap {
      Product(clusters - 2, perWrap, clusterBytes);
      forall c, e | 2 <= c < e < clusters
        ensures StartOf(first, clusterBytes, c) != StartOf(first, clusterBytes, e)
      {
        InOrder(first, clusterBytes, perWrap, c, e);
      }
    } else {
      Product(perWrap + 1, clusters - 2, clusterBytes);
      assert (perWrap + 1) * clusterBytes == 0x1_0000_0000 + clusterBytes;
      AroundTo2(first, clusterBytes, perWrap);
    }
  }

  lemma {:induction false} InOrder(first: nat, clusterBytes: nat, perWrap: nat, c: nat, e: nat)
    requires clusterBytes > 0 && perWrap * clusterBytes == 0x1_0000_0000 && 2 <= c < e < perWrap + 2
    ensures StartOf(first, clusterBytes, c) < StartOf(first, clusterBytes, e)
  {
    Product(e - 1, perWrap, clusterBytes);
    Product(c - 1, e - 2, clusterBytes);
    var a, b := (c - 2) * clusterBytes, (e - 2) * clusterBytes;
    assert (e - 1) * clusterBytes == b + clusterBytes;
    assert (c - 1) * clusterBytes == a + clusterBytes;
    NoWrap(a);
    NoWrap(b);
  }

  lemma {:induction false} AroundTo2(first: nat, clusterBytes: nat, perWrap: nat)
    requires perWrap * clusterBytes == 0x1_0000_0000
    ensures perWrap > 0 && StartOf(first, clusterBytes, perWrap + 2) == StartOf(first, clusterBytes, 2)
  {
  }

  /** The bytes of the clusters of a chain, one after the other. */
  ghost function Contents(data: seq<seq<Byte>>, s: seq<nat>): seq<Byte> {
    if s == [] then [] else (if s[0] < |data| then data[s[0]] else []) + Contents(data, s[1..])
  }

  lemma {:induction false} NoContents(data: seq<seq<Byte>>)
    ensures Contents(data, []) == []
  {
  }

  lemma {:induction false} ContentsAppend(data: seq<seq<Byte>>, a: seq<nat>, b: seq<nat>)
    ensures Contents(data, a + b) == Contents(data, a) + Contents(data, b)
    decreases |a|
  {
    if a == [] {
      assert a + b == b;
    } else {
      assert (a + b)[1..] == a[1..] + b;
      ContentsAppend(data, a[1..], b);
    }
  }

  lemma {:induction false} FirstAndRest(data: seq<seq<Byte>>, s: seq<nat>)
    requires s != [] && s[0] < |data|
    ensures |Contents(data, s)| == |data[s[0]]| + |Contents(data, s[1..])|
  {
  }

  lemma {:induction false} ContentsLength(data: seq<seq<Byte>>, s: seq<nat>, clusterBytes: nat)
    requires forall c <- s :: c < |data| && |data[c]| == clusterBytes
    ensures |Contents(data, s)| == |s| * clusterBytes
    decreases |s|
  {
    if s == [] {
      NoContents(data);
    } else {
      assert s[0] in s && forall c <- s[1..] :: c in s;
      ContentsLength(data, s[1..], clusterBytes);
      FirstAndRest(data, s);
      hide Contents;
      Successor(|s| - 1, clusterBytes);
    }
  }

  /** What follows the last cluster boundary at or before an offset is what follows the offset exactly when the offset
      is a whole number of clusters. */
  lemma {:induction false} AlignedRest(data: seq<seq<Byte>>, s: seq<nat>, k: nat, offset: nat, clusterBytes: nat)
    requires k < |s| && forall c <- s :: c < |data| && |data[c]| == clusterBytes
    requires |Contents(data, s[..k])| <= offset < |Contents(data, s[..k])| + clusterBytes
    ensures offset < |Contents(data, s)|
    ensures Contents(data, s[k..]) == Contents(data, s)[offset..] <==> offset % clusterBytes == 0
  {
    var front, rest := Contents(data, s[..k]), Contents(data, s[k..]);
    assert s == s[..k] + s[k..];
    ContentsAppend(data, s[..k], s[k..]);
    ContentsLength(data, s[..k], clusterBytes);
    ContentsLength(data, s[k..], clusterBytes);
    Product(1, |s| - k, clusterBytes);
    Quotient(offset, clusterBytes, k, offset - |front|);
    if offset == |front| {
      assert (front + rest)[offset..] == rest;
    }
  }

  /** An offset inside a cluster, for which the bytes read are those before it. */
  lemma {:induction false} UnalignedRest() returns (data: seq<seq<Byte>>, s: seq<nat>, offset: nat)
    ensures s == [2] && |data| == 3 && |data[2]| == 2 && 0 < offset < |data[2]|
    ensures Contents(data, s) == [7, 8] && Contents(data, s)[offset..] == [8]
  {
    data, s, offset := [[], [], [7, 8]], [2], 1;
    assert s[1..] == [];
    NoContents(data);
  }

  /** Up to the i-th cluster, that cluster, and what follows it. */
  lemma {:induction false} ContentsSplit(data: seq<seq<Byte>>, s: seq<nat>, k: nat, i: nat)
    requires k <= i < |s| && s[i] < |data|
    ensures Contents(data, s[k..i + 1]) == Contents(data, s[k..i]) + data[s[i]]
    ensures Contents(data, s[k..i]) + data[s[i]] <= Contents(data, s[k..])
  {
    assert s[k..i + 1] == s[k..i] + [s[i]] && s[k..] == s[k..i + 1] + s[i + 1..];
    ContentsAppend(data, s[k..i], [s[i]]);
    ContentsAppend(data, s[k..i + 1], s[i + 1..]);
    NoContents(data);
    assert [s[i]][1..] == [];
  }

  lemma {:induction false} FileChain(v: Volume, f: nat)
    requires Inv(v) && f in v.chains
    ensures Chain(v.table, v.chains[f]) && v.chains[f][0] == f
  {
  }

  lemma {:induction false} ChainBounds(t: Table, s: seq<nat>)
    requires Chain(t, s)
    ensures |s| > 0 && (forall i | 0 <= i < |s| :: 2 <= s[i] < |t|) && Link(t, s[|s| - 1]) >= END_OF_CHAIN
    ensures |s| > 1 ==> Link(t, s[0]) == s[1]
  {
  }

  lemma {:induction false} ChainLinks(t: Table, s: seq<nat>, i: nat)
    requires Chain(t, s) && i < |s|
    ensures if i + 1 < |s| then Link(t, s[i]) == s[i + 1] < |t| else Link(t, s[i]) >= END_OF_CHAIN
  {
  }

  lemma {:induction false} ZeroedNone(t: Table, s: seq<nat>, k: nat)
    requires k <= |s|
    ensures Zeroed(t, s[k..k]) == t
  {
  }

  /** Clearing one more entry, whose link is still what it was. */
  lemma {:induction false} ChainStep(t: Table, s: seq<nat>, k: nat, i: nat)
    requires Chain(t, s) && k <= i <= |s|
    ensures i == |s| ==> Link(t, s[|s| - 1]) >= END_OF_CHAIN
    ensures i < |s| ==>
      2 <= s[i] < |t| && Link(Zeroed(t, s[k..i]), s[i]) == (if i + 1 < |s| then s[i + 1] else Link(t, s[|s| - 1]))
    ensures i < |s| ==> Zeroed(t, s[k..i])[s[i] := 0] == Zeroed(t, s[k..i + 1])
  {
    if i < |s| {
      assert s[k..i + 1] == s[k..i] + [s[i]];
    }
  }
}
