/**
 Creating a file in a directory and looking it up there, on the disk: directories in which files can be created are
 those that are searched at the wrong place.
 */
module FatLookups {
  import opened Options
  import opened Modular
  import opened FatChains
  import opened FatBytes
  import opened FatDirectories
  import opened FatVolumes

  /** The bytes fat_find_dir reads for a directory that is no mount point. */
  ghost function BytesRead(v: FatVolume, d: seq<Byte>, dir: nat): seq<Byte>
    requires dir >= 2
  {
    Slice(d, v.SearchStart(dir, false), v.ClusterBytes())
  }

  /** A byte of the data region before a cluster lies in another one. */
  lemma {:induction false} ClusterOfByte(v: FatVolume, dir: nat, x: nat) returns (c: nat, k: nat)
    requires v.Shaped() && 2 <= dir < v.clusters && v.dataPointer * v.sectorSize <= x < v.ClusterStart(dir)
    ensures 2 <= c < dir && k < v.ClusterBytes() && x == v.ClusterStart(c) + k
  {
    hide FatVolume.Shaped, FatVolume.ClusterStart, FatVolume.ClusterBytes, FatVolume.Data;
    v.ClusterInside(dir);
    Within(x - v.dataPointer * v.sectorSize, v.ClusterBytes(), dir - 2);
    c := 2 + (x - v.dataPointer * v.sectorSize) / v.ClusterBytes();
    k := (x - v.dataPointer * v.sectorSize) % v.ClusterBytes();
    v.ClusterInside(c);
  }

  lemma {:induction false} Within(y: nat, d: nat, m: nat)
    requires d > 0 && y < m * d
    ensures y / d < m && y == y / d * d + y % d && y % d < d
  {
    if y / d >= m {
      Product(m, y / d, d);
    }
  }

  /** It is what it was if only that cluster's bytes changed. */
  lemma {:induction false} OtherBytes(v: FatVolume, d: seq<Byte>, e: seq<Byte>, dir: nat, b: seq<Byte>, x: nat)
    requires v.Shaped() && 2 <= dir < v.clusters && |d| == |e| == v.disk.Length
    requires v.DataIn(e) == v.DataIn(d)[dir := b]
    requires v.dataPointer * v.sectorSize <= x < v.ClusterStart(dir)
    ensures x < |d| && e[x] == d[x]
  {
    hide FatVolume.ClusterStart, FatVolume.ClusterBytes, FatVolume.Data;
    var c, k := ClusterOfByte(v, dir, x);
    v.ClusterInside(c);
    hide FatVolume.Shaped;
    assert v.DataIn(e)[c] == v.DataIn(d)[c];
    assert Slice(e, v.ClusterStart(c), v.ClusterBytes())[k] == e[x];
    assert Slice(d, v.ClusterStart(c), v.ClusterBytes())[k] == d[x];
  }

  /** The bytes read for the directory lie behind the table and before its cluster. */
  ghost predicate ReadsBetween(v: FatVolume, dir: nat)
    requires dir >= 2
  {
    v.dataPointer * v.sectorSize <= v.SearchStart(dir, false) &&
    v.ClusterBytes() <= v.dataPointer * (v.sectorSize - 1)
  }

  /** Then creating a file leaves them as they are. */
  lemma {:induction false} ReadKept(v: FatVolume, d: seq<Byte>, e: seq<Byte>, dir: nat, b: seq<Byte>)
    requires v.Shaped() && 2 <= dir < v.clusters && |d| == |e| == v.disk.Length
    requires v.DataIn(e) == v.DataIn(d)[dir := b]
    requires ReadsBetween(v, dir)
    ensures BytesRead(v, e, dir) == BytesRead(v, d, dir)
  {
    v.SearchStartsWrong(dir);
    v.SearchFits(dir, false);
    hide FatVolume.Shaped, FatVolume.ClusterStart, FatVolume.ClusterBytes, FatVolume.SearchStart, FatVolume.DataIn;
    var at, n := v.SearchStart(dir, false), v.ClusterBytes();
    forall x | at <= x < at + n
      ensures e[x] == d[x]
    {
      OtherBytes(v, d, e, dir, b, x);
    }
  }

  /** A search ends with an entry that was just created exactly when that is the first file listed in the bytes read,
      and its name is one that reads back as itself. */
  lemma {:induction false} HitExactly(dir: seq<DirEntry>, name: seq<Byte>, cluster: Word, attributes: Byte)
    requires forall i | 0 <= i < |name| :: name[i] != 0
    ensures var e := NewEntry(name, cluster, 0, attributes);
      SearchDir(dir, name) == Hit(e) <==> KeepsItsName(name) && Listing(dir) != [] && Listing(dir)[0] == e
  {
    CleanField(name);
    SearchMeetsFirst(dir, name);
    hide SearchDir, Listing, Clean, KeepsItsName;
  }

  /** fat_create_file in a directory that is no mount point, and only those have the operation, and then
      fat_find_dir. */
  method CreateThenFind(v: FatVolume, dir: nat, name: seq<Byte>, attributes: Byte, limit: nat, junk: array<Byte>)
      returns (ok: bool, found: Search, ghost c: nat)
    requires v.Valid() && 2 <= dir < v.clusters && v.Holds(limit) && junk.Length == v.sectorSize
    requires forall i | 0 <= i < |name| :: name[i] != 0
    modifies v, v.disk
    ensures v.Shaped() && c == old(v.Choice(limit, junk[..])) < 0x1_0000_0000
    ensures ok == (c != 0 && FirstVacant(Entries(old(v.Data())[dir])).Some?)
    ensures v.Data() ==
      if c == 0 then old(v.Data())
      else old(v.Data())[dir := WithEntry(old(v.Data())[dir], NewEntry(name, c, 0, attributes))]
    // The new file is found exactly when the bytes read happen to list it first.
    ensures var listing := Listing(Entries(BytesRead(v, v.disk[..], dir)));
      var e := NewEntry(name, c, 0, attributes);
      found == Hit(e) <==> KeepsItsName(name) && listing != [] && listing[0] == e
    // Where they lie behind the table and before the directory, they are what they were, and so is what is found.
    ensures ReadsBetween(v, dir) ==> found == SearchDir(Entries(old(BytesRead(v, v.disk[..], dir))), name)
  {
    hide FatVolume.Shaped, FatVolume.FatTable, FatVolume.ClusterBytes, FatVolume.SearchStart, FatVolume.ClusterStart,
      FatVolume.TableTo, FatVolume.Choice, Inv, Entries, SearchDir, Listing, NewEntry, WithEntry, FirstVacant,
      KeepsItsName;
    ghost var before := v.disk[..];
    ok, c := v.CreateFile(dir, name, attributes, limit, junk);
    var node;
    found, node := v.FindDir(dir, false, name);
    HitExactly(Entries(BytesRead(v, v.disk[..], dir)), name, c, attributes);
    ghost var b := if c == 0 then v.DataIn(before)[dir]
      else WithEntry(v.DataIn(before)[dir], NewEntry(name, c, 0, attributes));
    if ReadsBetween(v, dir) {
      ReadKept(v, before, v.disk[..], dir, b);
    }
  }

  // ---- A file that is created and not found ----

  /** A volume of 32-byte sectors and clusters with nothing on it. */
  method EmptyVolume() returns (v: FatVolume)
    ensures fresh(v) && fresh(v.disk) && v.Valid() && v.sectorSize == 32 && v.clusterSize == 1 && v.dataPointer == 2
    ensures v.clusters == 6 && v.fatPointer == 0 && v.disk.Length == 192 && forall x | 0 <= x < 192 :: v.disk[x] == 0
  {
    var disk := new Byte[192](_ => 0);
    v := new FatVolume(disk, 32, 1, 0, 2, 6);
  }

  /** On it, a file "a" created in the directory of cluster 5 is entered there, and a search of the directory says that
      there is no such file. */
  method CreatedNotFound() returns (ok: bool, found: Search, there: Search)
    ensures ok && found == Miss && there == Hit(NewEntry([0x61], 2, 0, 0))
  {
    var v := EmptyVolume();
    var junk := new Byte[32](_ => 0);
    var name: seq<Byte> := [0x61];
    assert junk[..] == Zeros(32);
    hide *;
    ZeroVolume(v, junk[..]);
    ZeroDirectory(name);
    ghost var c;
    ok, found, c := CreateThenFind(v, 5, name, 0, 6, junk);
    var node;
    there, node := v.FindDir(5, true, name);
  }

  lemma {:induction false} ZeroDirectory(name: seq<Byte>)
    requires name == [0x61]
    ensures var b, e := Zeros(32), NewEntry(name, 2, 0, 0);
      FirstVacant(Entries(b)).Some? && SearchDir(Entries(b), name) == Miss &&
      SearchDir(Entries(WithEntry(b, e)), name) == Hit(e)
  {
    var b := Zeros(32);
    FirstByte(b, 0);
    SearchMeetsFirst(Entries(b), name);
    CreatedIsFound(b, name, 2, 0);
  }

  lemma {:induction false} ZeroVolume(v: FatVolume, junk: seq<Byte>)
    requires v.Shaped() && v.sectorSize == 32 && v.clusterSize == 1 && v.dataPointer == 2 && v.clusters == 6
    requires v.fatPointer == 0 && v.disk.Length == 192 && (forall x | 0 <= x < 192 :: v.disk[x] == 0)
    requires junk == Zeros(32)
    ensures v.Holds(6) && v.Choice(6, junk) == 2 && v.Data()[5] == Zeros(32) && ReadsBetween(v, 5)
    ensures BytesRead(v, v.disk[..], 5) == Zeros(32)
  {
  }
}
