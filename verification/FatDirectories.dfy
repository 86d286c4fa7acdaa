/**
 The directory cluster of a FAT32 volume, as bytes and as the entries they spell: entering a file, looking one up, and
 what taking an entry out really does.
 */
module FatDirectories {
  import opened Options
  import opened FatChains
  import opened FatBytes

  const NAME_LENGTH: nat := 11
  const DELETED: Byte := 0xE5
  const LONG_NAME: Byte := 0x0F
  const ENTRY_SIZE: nat := 32
  const SPACE: Byte := 0x20
  const DOT: Byte := 0x2E

  type Name = s: seq<Byte> | |s| == NAME_LENGTH witness seq(NAME_LENGTH, _ => 0)

  type Half = h: int | 0 <= h < 0x1_0000

  datatype DirEntry = DirEntry(filename: Name, attributes: Byte, clusterLow: Half, clusterHigh: Half, size: Word)

  const BLANK := DirEntry(Field([]), 0, 0, 0, 0)

  // ---- Entries and their bytes ----

  function HalfAt(b: seq<Byte>, at: nat): Half
    requires at + 2 <= |b|
  {
    var b0: int, b1: int := b[at], b[at + 1];
    b0 + 0x100 * b1
  }

  function HalfBytes(h: Half): (b: seq<Byte>)
    ensures |b| == 2 && HalfAt(b, 0) == h
  {
    [h % 0x100, h / 0x100]
  }

  function EntryAt(b: seq<Byte>, at: nat): DirEntry
    requires at + ENTRY_SIZE <= |b|
  {
    DirEntry(b[at..at + NAME_LENGTH], b[at + 11], HalfAt(b, at + 26), HalfAt(b, at + 20), WordAt(b, at + 28))
  }

  function Zeros(n: nat): (b: seq<Byte>)
    ensures |b| == n
  {
    seq(n, _ => 0)
  }

  /** An entry as fat_create_dir_entry lays it out: what it does not set is zero. */
  function EntryBytes(e: DirEntry): (b: seq<Byte>)
    ensures |b| == ENTRY_SIZE
  {
    e.filename + [e.attributes] + Zeros(8) + HalfBytes(e.clusterHigh) + Zeros(4) + HalfBytes(e.clusterLow) +
      WordBytes(e.size)
  }

  /** The entries that the bytes of a cluster spell. */
  function Entries(b: seq<Byte>): (dir: seq<DirEntry>)
    ensures |dir| == |b| / ENTRY_SIZE
  {
    seq(|b| / ENTRY_SIZE, i requires 0 <= i < |b| / ENTRY_SIZE => EntryAt(b, ENTRY_SIZE * i))
  }

  lemma {:induction false} FirstByte(b: seq<Byte>, i: nat)
    requires i < |b| / ENTRY_SIZE
    ensures Entries(b)[i] == EntryAt(b, ENTRY_SIZE * i) && Entries(b)[i].filename[0] == b[ENTRY_SIZE * i]
    ensures Entries(b)[i].filename == b[ENTRY_SIZE * i..ENTRY_SIZE * i + NAME_LENGTH]
  {
  }

  lemma {:induction false} EntryRoundTrip(e: DirEntry)
    ensures EntryAt(EntryBytes(e), 0) == e
  {
    hide WordAt, WordBytes, HalfAt, HalfBytes;
    var b := EntryBytes(e);
    assert b[0..11] == e.filename && b[11] == e.attributes;
    assert b[20..22] == HalfBytes(e.clusterHigh) && b[26..28] == HalfBytes(e.clusterLow);
    assert b[28..32] == WordBytes(e.size);
    SubHalf(b, 20);
    SubHalf(b, 26);
    SubWord(b, 28);
  }

  lemma {:induction false} SubHalf(b: seq<Byte>, at: nat)
    requires at + 2 <= |b|
    ensures HalfAt(b, at) == HalfAt(b[at..at + 2], 0)
  {
  }

  lemma {:induction false} SubWord(b: seq<Byte>, at: nat)
    requires at + 4 <= |b|
    ensures WordAt(b, at) == WordAt(b[at..at + 4], 0)
  {
  }

  /** An entry depends on its own bytes. */
  lemma {:induction false} SubEntry(b: seq<Byte>, at: nat)
    requires at + ENTRY_SIZE <= |b|
    ensures EntryAt(b, at) == EntryAt(Slice(b, at, ENTRY_SIZE), 0)
  {
    hide WordAt, HalfAt;
    var c := Slice(b, at, ENTRY_SIZE);
    assert c == b[at..at + ENTRY_SIZE] && b[at..at + NAME_LENGTH] == c[0..NAME_LENGTH];
    assert b[at + 20..at + 22] == c[20..22] && b[at + 26..at + 28] == c[26..28] && b[at + 28..at + 32] == c[28..32];
    SubHalf(b, at + 20);
    SubHalf(b, at + 26);
    SubWord(b, at + 28);
    SubHalf(c, 20);
    SubHalf(c, 26);
    SubWord(c, 28);
  }

  /** The bytes with entry i replaced. */
  function Entered(b: seq<Byte>, i: nat, e: DirEntry): (r: seq<Byte>)
    requires i < |b| / ENTRY_SIZE
    ensures |r| == |b|
  {
    Patched(b, ENTRY_SIZE * i, EntryBytes(e))
  }

  lemma {:induction false} EnteredEntries(b: seq<Byte>, i: nat, e: DirEntry)
    requires i < |b| / ENTRY_SIZE
    ensures Entries(Entered(b, i, e)) == Entries(b)[i := e]
  {
    hide Patched, EntryAt, EntryBytes;
    var c := Entered(b, i, e);
    forall k | 0 <= k < |b| / ENTRY_SIZE
      ensures EntryAt(c, ENTRY_SIZE * k) == if k == i then e else EntryAt(b, ENTRY_SIZE * k)
    {
      SubEntry(c, ENTRY_SIZE * k);
      if k == i {
        PatchThere(b, ENTRY_SIZE * i, EntryBytes(e));
        EntryRoundTrip(e);
      } else {
        SubEntry(b, ENTRY_SIZE * k);
        if k < i {
          PatchBehind(b, ENTRY_SIZE * i, EntryBytes(e), ENTRY_SIZE * k, ENTRY_SIZE);
        } else {
          PatchBefore(b, ENTRY_SIZE * i, EntryBytes(e), ENTRY_SIZE * k, ENTRY_SIZE);
        }
      }
    }
  }

  /** The bytes with the size field of entry i replaced. */
  function Sized(b: seq<Byte>, i: nat, size: Word): (r: seq<Byte>)
    requires i < |b| / ENTRY_SIZE
    ensures |r| == |b|
  {
    Patched(b, ENTRY_SIZE * i + 28, WordBytes(size))
  }

  lemma {:induction false} SizedEntries(b: seq<Byte>, i: nat, size: Word)
    requires i < |b| / ENTRY_SIZE
    ensures Entries(Sized(b, i, size)) == Entries(b)[i := Entries(b)[i].(size := size)]
  {
    hide Patched, EntryAt;
    forall k | 0 <= k < |b| / ENTRY_SIZE
      ensures EntryAt(Sized(b, i, size), ENTRY_SIZE * k) ==
        if k == i then EntryAt(b, ENTRY_SIZE * k).(size := size) else EntryAt(b, ENTRY_SIZE * k)
    {
      SizedEntry(b, i, size, k);
    }
  }

  lemma {:induction false} SizedEntry(b: seq<Byte>, i: nat, size: Word, k: nat)
    requires i < |b| / ENTRY_SIZE && k < |b| / ENTRY_SIZE
    ensures EntryAt(Sized(b, i, size), ENTRY_SIZE * k) ==
      if k == i then EntryAt(b, ENTRY_SIZE * k).(size := size) else EntryAt(b, ENTRY_SIZE * k)
  {
    hide Patched, WordAt, WordBytes;
    var c, at := Sized(b, i, size), ENTRY_SIZE * k;
    forall j | at <= j < at + ENTRY_SIZE && (k != i || j < at + 28)
      ensures c[j] == b[j]
    {
      PatchedAt(b, ENTRY_SIZE * i + 28, WordBytes(size), j);
    }
    assert c[at..at + NAME_LENGTH] == b[at..at + NAME_LENGTH];
    if k == i {
      WordPatched(b, at + 28, size);
    } else {
      WordAway(b, ENTRY_SIZE * i + 28, WordBytes(size), at + 28);
    }
  }

  // ---- Names ----

  /** A name field as strncpy fills it: cut to its length, padded with zeros. */
  function Field(name: seq<Byte>): Name {
    seq(NAME_LENGTH, i => if 0 <= i < |name| then name[i] else 0)
  }

  /** strncmp over the field: alike up to the first zero of both. */
  predicate SameName(a: Name, b: Name, from: nat)
    decreases NAME_LENGTH - from
  {
    from >= NAME_LENGTH || (a[from] == b[from] && (a[from] == 0 || SameName(a, b, from + 1)))
  }

  /** What a reader takes of a part of the field: up to a zero or a space. */
  function Stretch(s: seq<Byte>): (r: seq<Byte>)
    ensures |r| <= |s| && r <= s && forall c <- r :: c != 0 && c != SPACE
    ensures |r| < |s| ==> s[|r|] == 0 || s[|r|] == SPACE
  {
    if s == [] || s[0] == 0 || s[0] == SPACE then []
    else
      var r := Stretch(s[1..]);
      assert forall c <- [s[0]] + r :: c == s[0] || c in r;
      [s[0]] + r
  }

  lemma {:induction false} StretchGoesOn(s: seq<Byte>, i: nat)
    requires i < |s| && s[i] != 0 && s[i] != SPACE
    ensures Stretch(s[i..]) == [s[i]] + Stretch(s[i + 1..]) && s[..i + 1] == s[..i] + [s[i]]
  {
    assert s[i..][1..] == s[i + 1..];
  }

  lemma {:induction false} StretchEnds(s: seq<Byte>, i: nat)
    requires i <= |s| && (i == |s| || s[i] == 0 || s[i] == SPACE)
    ensures Stretch(s[i..]) == []
  {
  }

  predicate Upper(c: Byte) {
    0x41 <= c <= 0x5A
  }

  function Lower(c: Byte): (r: Byte)
    ensures !Upper(r) && (r == SPACE <==> c == SPACE) && (r == DOT <==> c == DOT)
  {
    if Upper(c) then c + 32 else c
  }

  function Lowered(s: seq<Byte>): (r: seq<Byte>)
    ensures |r| == |s|
  {
    seq(|s|, i requires 0 <= i < |s| => Lower(s[i]))
  }

  /** The name clean_fat_filename makes of a field.  With an extension it goes through a buffer of twelve bytes, the
      last of them the terminator. */
  function Clean(f: Name): seq<Byte> {
    var name, extension := Stretch(f[..8]), Stretch(f[8..]);
    if extension == [] then Lowered(name)
    else
      var full := name + [DOT] + extension;
      Lowered(if |full| > 11 then full[..11] else full)
  }

  /** A name that has lower-case letters and no spaces, and is short, is its field's name; and so is one of eight
      characters and three dots. */
  predicate KeepsItsName(name: seq<Byte>) {
    (forall i | 0 <= i < |name| :: name[i] != SPACE && !Upper(name[i])) &&
    (|name| <= 8 || (|name| == 11 && name[8..] == [DOT, DOT, DOT]))
  }

  lemma {:induction false} StretchWhole(s: seq<Byte>, n: nat)
    requires n <= |s| && (forall i | 0 <= i < n :: s[i] != 0 && s[i] != SPACE) && (n < |s| ==> s[n] == 0)
    ensures Stretch(s) == s[..n]
  {
    if n > 0 {
      StretchWhole(s[1..], n - 1);
      assert s[..n] == [s[0]] + s[1..][..n - 1];
    }
  }

  /** The name written at creation reads back as itself exactly for such names. */
  lemma {:induction false} CleanField(name: seq<Byte>)
    requires forall i | 0 <= i < |name| :: name[i] != 0
    ensures Clean(Field(name)) == name <==> KeepsItsName(name)
  {
    if KeepsItsName(name) {
      CleanKeeps(name);
    }
    if Clean(Field(name)) == name {
      CleanKept(name);
    }
  }

  lemma {:induction false} CleanKeeps(name: seq<Byte>)
    requires (forall i | 0 <= i < |name| :: name[i] != 0) && KeepsItsName(name)
    ensures Clean(Field(name)) == name
  {
    var f := Field(name);
    StretchWhole(f[..8], if |name| <= 8 then |name| else 8);
    StretchWhole(f[8..], if |name| <= 8 then 0 else 3);
    if |name| == 11 {
      assert f == name;
      assert (name[..8] + [DOT] + name[8..])[..11] == name;
    }
    assert Lowered(name) == name;
  }

  lemma {:induction false} CleanKept(name: seq<Byte>)
    requires (forall i | 0 <= i < |name| :: name[i] != 0) && Clean(Field(name)) == name
    ensures KeepsItsName(name)
  {
    var f := Field(name);
    var first, rest := Stretch(f[..8]), Stretch(f[8..]);
    StretchPart(f[..8]);
    StretchPart(f[8..]);
    if rest == [] {
      ShortKept(name, first);
    } else {
      LongKept(name, first, rest);
    }
  }

  lemma {:induction false} StretchPart(s: seq<Byte>)
    ensures forall i | 0 <= i < |Stretch(s)| :: Stretch(s)[i] == s[i] && s[i] != 0 && s[i] != SPACE
  {
    assert forall i | 0 <= i < |Stretch(s)| :: Stretch(s)[i] in Stretch(s);
  }

  lemma {:induction false} ShortKept(name: seq<Byte>, first: seq<Byte>)
    requires |first| <= 8 && name == Lowered(first) && forall i | 0 <= i < |first| :: first[i] != SPACE
    ensures KeepsItsName(name)
  {
    assert forall i | 0 <= i < |name| :: name[i] == Lower(first[i]);
  }

  /** What is read of a name with an extension is one longer, unless the buffer cuts it. */
  lemma {:induction false} LongKept(name: seq<Byte>, first: seq<Byte>, rest: seq<Byte>)
    requires |first| <= 8 && 1 <= |rest| <= 3 && forall i | 0 <= i < |name| :: name[i] != 0
    requires forall i | 0 <= i < |first| :: first[i] == Field(name)[i] && first[i] != SPACE
    requires forall i | 0 <= i < |rest| :: rest[i] == Field(name)[8 + i] && rest[i] != SPACE && rest[i] != 0
    requires |first| < 8 ==> Field(name)[|first|] == 0 || Field(name)[|first|] == SPACE
    requires |rest| < 3 ==> Field(name)[8 + |rest|] == 0 || Field(name)[8 + |rest|] == SPACE
    requires var full := first + [DOT] + rest; name == Lowered(if |full| > 11 then full[..11] else full)
    ensures KeepsItsName(name)
  {
    var full := first + [DOT] + rest;
    hide Lowered, Field;
    FieldAt(name);
    LoweredAt(full, name);
    assert name[|first|] == DOT;
    assert |rest| >= 1 && rest[0] == Field(name)[8];
    if |first| == 8 && |rest| == 3 {
      assert full[9] == rest[0] && full[10] == rest[1];
    }
  }

  lemma {:induction false} FieldAt(name: seq<Byte>)
    ensures forall i | 0 <= i < NAME_LENGTH :: Field(name)[i] == if i < |name| then name[i] else 0
  {
  }

  lemma {:induction false} LoweredAt(full: seq<Byte>, name: seq<Byte>)
    requires name == Lowered(if |full| > 11 then full[..11] else full)
    ensures |name| == if |full| > 11 then 11 else |full|
    ensures forall i | 0 <= i < |name| :: name[i] == Lower(full[i])
  {
  }

  // ---- Directories ----

  predicate Vacant(e: DirEntry) {
    e.filename[0] == 0 || e.filename[0] == DELETED
  }

  /** What the readers of a directory see: nothing from the first zero entry on. */
  function Listing(dir: seq<DirEntry>): seq<DirEntry> {
    if dir == [] || dir[0].filename[0] == 0 then []
    else if dir[0].filename[0] == DELETED || dir[0].attributes == LONG_NAME then Listing(dir[1..])
    else [dir[0]] + Listing(dir[1..])
  }

  function NewEntry(name: seq<Byte>, cluster: Word, size: Word, attributes: Byte): DirEntry {
    DirEntry(Field(name), attributes, cluster % 0x1_0000, cluster / 0x1_0000, size)
  }

  /** The cluster fat_find_dir puts together from the two halves. */
  function ClusterOf(e: DirEntry): nat {
    e.clusterHigh * 0x1_0000 + e.clusterLow
  }

  function FirstVacant(dir: seq<DirEntry>): (r: Option<nat>)
    ensures r.Some? ==> r.value < |dir| && Vacant(dir[r.value]) && forall i | 0 <= i < r.value :: !Vacant(dir[i])
    ensures r.None? ==> forall i | 0 <= i < |dir| :: !Vacant(dir[i])
  {
    if dir == [] then None
    else if Vacant(dir[0]) then Some(0)
    else match FirstVacant(dir[1..])
      case None => None
      case Some(i) => Some(i + 1)
  }

  /** The first entry of a name. */
  function FindEntry(dir: seq<DirEntry>, name: seq<Byte>): (r: Option<nat>)
    ensures r.Some? ==> r.value < |dir| && SameName(dir[r.value].filename, Field(name), 0)
    ensures r.Some? ==> forall i | 0 <= i < r.value :: !SameName(dir[i].filename, Field(name), 0)
    ensures r.None? ==> forall i | 0 <= i < |dir| :: !SameName(dir[i].filename, Field(name), 0)
  {
    if dir == [] then None
    else if SameName(dir[0].filename, Field(name), 0) then Some(0)
    else match FindEntry(dir[1..], name)
      case None => None
      case Some(i) => Some(i + 1)
  }

  // ---- What the volume's operations make of the bytes of a directory cluster ----

  /** fat_create_dir_entry: the first vacant entry is taken. */
  function WithEntry(b: seq<Byte>, e: DirEntry): (r: seq<Byte>)
    ensures |r| == |b|
  {
    match FirstVacant(Entries(b))
    case None => b
    case Some(i) => Entered(b, i, e)
  }

  /** fat_update_dir_entry_size. */
  function WithSize(b: seq<Byte>, name: seq<Byte>, size: Word): (r: seq<Byte>)
    ensures |r| == |b|
  {
    match FindEntry(Entries(b), name)
    case None => b
    case Some(i) => Sized(b, i, size)
  }

  /** fat_remove_dir_entry: the entry of the name is looked for, and the first of the directory blanked. */
  function Struck(b: seq<Byte>, name: seq<Byte>): (r: seq<Byte>)
    ensures |r| == |b|
  {
    match FindEntry(Entries(b), name)
    case None => b
    case Some(_) => Patched(b, 0, Zeros(ENTRY_SIZE))
  }

  lemma {:induction false} BlankBytes()
    ensures EntryBytes(BLANK) == Zeros(ENTRY_SIZE)
  {
  }

  lemma {:induction false} StruckEntries(b: seq<Byte>, name: seq<Byte>)
    requires FindEntry(Entries(b), name).Some?
    ensures Entries(b) != [] && Entries(Struck(b, name)) == Entries(b)[0 := BLANK]
  {
    BlankBytes();
    EnteredEntries(b, 0, BLANK);
  }

  /** A size update leaves the name where it is. */
  lemma {:induction false} WithSizeFinds(b: seq<Byte>, name: seq<Byte>, size: Word)
    ensures FindEntry(Entries(WithSize(b, name, size)), name) == FindEntry(Entries(b), name)
    ensures |Entries(WithSize(b, name, size))| == |Entries(b)|
    ensures forall i | 0 <= i < |Entries(b)| :: Entries(WithSize(b, name, size))[i] ==
              if FindEntry(Entries(b), name) == Some(i) then Entries(b)[i].(size := size) else Entries(b)[i]
  {
    if FindEntry(Entries(b), name).Some? {
      SizedEntries(b, FindEntry(Entries(b), name).value, size);
      SameNamesFind(Entries(b), Entries(WithSize(b, name, size)), name);
    }
  }

  lemma {:induction false} SameNamesFind(dir: seq<DirEntry>, other: seq<DirEntry>, name: seq<Byte>)
    requires |dir| == |other| && forall i | 0 <= i < |dir| :: dir[i].filename == other[i].filename
    ensures FindEntry(dir, name) == FindEntry(other, name)
    decreases |dir|
  {
    if dir != [] {
      SameNamesFind(dir[1..], other[1..], name);
    }
  }

  lemma {:induction false} ListingAppend(a: seq<DirEntry>, b: seq<DirEntry>)
    requires forall i | 0 <= i < |a| :: a[i].filename[0] != 0
    ensures Listing(a + b) == Listing(a) + Listing(b)
    decreases |a|
  {
    if a == [] {
      assert a + b == b;
    } else {
      assert (a + b)[1..] == a[1..] + b;
      ListingAppend(a[1..], b);
    }
  }

  /** The listing around entry i. */
  lemma {:induction false} SplitAt(dir: seq<DirEntry>, i: nat, e: DirEntry)
    requires i < |dir| && e.filename[0] != 0 && forall k | 0 <= k < i :: dir[k].filename[0] != 0
    ensures Listing(dir[i := e]) ==
      Listing(dir[..i]) + (if e.filename[0] == DELETED || e.attributes == LONG_NAME then [] else [e]) +
        Listing(dir[i + 1..])
  {
    assert dir[i := e] == dir[..i] + ([e] + dir[i + 1..]);
    ListingAppend(dir[..i], [e] + dir[i + 1..]);
    assert ([e] + dir[i + 1..])[1..] == dir[i + 1..];
  }

  /** A file entered is seen, with its cluster, and every file seen before is still seen.  Where the entry taken was the
      end of the directory, whatever stands behind it comes to light too. */
  lemma {:induction false} EnteredIsListed(b: seq<Byte>, name: seq<Byte>, cluster: Word, size: Word, attributes: Byte)
    requires FirstVacant(Entries(b)).Some?
    requires name != [] && name[0] != 0 && name[0] != DELETED && attributes != LONG_NAME
    ensures var e, dir, slot := NewEntry(name, cluster, size, attributes), Entries(b), FirstVacant(Entries(b)).value;
      ClusterOf(e) == cluster && e.size == size && e.attributes == attributes &&
      Entries(WithEntry(b, e)) == dir[slot := e] &&
      Listing(Entries(WithEntry(b, e))) == Listing(dir[..slot]) + [e] + Listing(dir[slot + 1..]) &&
      Listing(dir) == Listing(dir[..slot]) + (if dir[slot].filename[0] == DELETED then Listing(dir[slot + 1..]) else [])
  {
    var e, dir, slot := NewEntry(name, cluster, size, attributes), Entries(b), FirstVacant(Entries(b)).value;
    EnteredEntries(b, slot, e);
    SplitAt(dir, slot, e);
    assert dir == dir[..slot] + dir[slot..] && dir[slot..][1..] == dir[slot + 1..];
    ListingAppend(dir[..slot], dir[slot..]);
  }

  /** The entry blanked is the one found exactly when that is the first. */
  lemma {:induction false} RemovesFoundEntry(b: seq<Byte>, name: seq<Byte>)
    requires FindEntry(Entries(b), name).Some? && Entries(b)[FindEntry(Entries(b), name).value] != BLANK
    ensures Entries(Struck(b, name)) == Entries(b)[FindEntry(Entries(b), name).value := BLANK] <==>
            FindEntry(Entries(b), name).value == 0
  {
    StruckEntries(b, name);
    var dir, i := Entries(b), FindEntry(Entries(b), name).value;
    if i != 0 {
      assert dir[0 := BLANK][i] != dir[i := BLANK][i];
    }
  }

  function Marked(dir: seq<DirEntry>, i: nat): seq<DirEntry>
    requires i < |dir|
  {
    dir[i := dir[i].(filename := dir[i].filename[0 := DELETED])]
  }

  /** And a blank first entry reads as the end of the directory: no file is seen any more.  For a file that was seen,
      that is what marking its entry as deleted would show exactly when it was the only one. */
  lemma {:induction false} RemovalHidesAll(b: seq<Byte>, name: seq<Byte>)
    requires FindEntry(Entries(b), name).Some?
    ensures Listing(Entries(Struck(b, name))) == []
    ensures var dir, i := Entries(b), FindEntry(Entries(b), name).value;
      (forall k | 0 <= k < i :: dir[k].filename[0] != 0) && !Vacant(dir[i]) && dir[i].attributes != LONG_NAME ==>
      (Listing(Entries(Struck(b, name))) == Listing(Marked(dir, i)) <==> Listing(dir) == [dir[i]])
  {
    StruckEntries(b, name);
    var dir, i := Entries(b), FindEntry(Entries(b), name).value;
    if (forall k | 0 <= k < i :: dir[k].filename[0] != 0) && !Vacant(dir[i]) && dir[i].attributes != LONG_NAME {
      SplitAt(dir, i, dir[i]);
      SplitAt(dir, i, dir[i].(filename := dir[i].filename[0 := DELETED]));
      assert dir[i := dir[i]] == dir;
      OnlyOne(Listing(dir[..i]), dir[i], Listing(dir[i + 1..]));
    }
  }

  lemma {:induction false} OnlyOne(before: seq<DirEntry>, e: DirEntry, after: seq<DirEntry>)
    ensures before + [] + after == [] <==> before + [e] + after == [e]
  {
    assert |before + [e] + after| == |before| + |after| + 1 && |before + [] + after| == |before| + |after|;
    if |before| + |after| == 0 {
      assert before == [] && after == [];
    }
  }

  /** What deletion makes of the directory: nothing, or one that lists nothing. */
  lemma {:induction false} DeletedListing(b: seq<Byte>, name: seq<Byte>, size: Word)
    ensures FindEntry(Entries(b), name).None? ==> Struck(WithSize(b, name, size), name) == b
    ensures FindEntry(Entries(b), name).Some? ==> Listing(Entries(Struck(WithSize(b, name, size), name))) == []
  {
    if FindEntry(Entries(b), name).Some? {
      WithSizeFinds(b, name, size);
      RemovalHidesAll(WithSize(b, name, size), name);
    }
  }

  // ---- Looking a file up ----

  /** How the search of a directory ends: with an entry, at the end of the directory, never, or past the cluster. */
  datatype Search = Hit(entry: DirEntry) | Miss | Endless | Beyond

  /** fat_find_dir: the walk does not go on from an entry of another name. */
  function SearchDir(dir: seq<DirEntry>, name: seq<Byte>): Search {
    if dir == [] then Beyond
    else if dir[0].filename[0] == 0 then Miss
    else if dir[0].filename[0] == DELETED || dir[0].attributes == LONG_NAME then SearchDir(dir[1..], name)
    else if Clean(dir[0].filename) == name then Hit(dir[0])
    else Endless
  }

  /** The entry the walk stops at. */
  function FirstSeen(dir: seq<DirEntry>): (i: nat)
    ensures i <= |dir|
  {
    if dir != [] && dir[0].filename[0] != 0 && (dir[0].filename[0] == DELETED || dir[0].attributes == LONG_NAME)
    then 1 + FirstSeen(dir[1..])
    else 0
  }

  /** Bytes as a C string. */
  function Text(b: seq<Byte>): seq<Byte> {
    if b == [] || b[0] == 0 then [] else [b[0]] + Text(b[1..])
  }

  /** The name of the node fat_find_dir makes for the entry it finds.  At a mount point the clean-up gets its arguments
      the wrong way round, and the name stays empty; elsewhere the raw field is copied, and what follows it up to a
      zero. */
  function NodeName(b: seq<Byte>, mountPoint: bool): seq<Byte> {
    if mountPoint then [] else Text(b[ENTRY_SIZE * FirstSeen(Entries(b))..])
  }

  lemma {:induction false} TextOf(b: seq<Byte>, n: nat)
    requires n < |b| && (forall i | 0 <= i < n :: b[i] != 0) && b[n] == 0
    ensures Text(b) == b[..n]
  {
    if n > 0 {
      TextOf(b[1..], n - 1);
      assert b[..n] == [b[0]] + b[1..][..n - 1];
    }
  }

  /** In a directory that is no mount point, the node of a file created there bears the file's name exactly when that
      leaves room for a zero in the field, or the attributes are zero. */
  lemma {:induction false} CreatedNodeName(b: seq<Byte>, name: seq<Byte>, cluster: Word, attributes: Byte)
    requires |b| >= ENTRY_SIZE && name != [] && |name| <= NAME_LENGTH && name[0] != DELETED && attributes != LONG_NAME
    requires forall i | 0 <= i < |name| :: name[i] != 0
    ensures var c := Entered(b, 0, NewEntry(name, cluster, 0, attributes));
      NodeName(c, false) == name <==> |name| < NAME_LENGTH || attributes == 0
  {
    var e := NewEntry(name, cluster, 0, attributes);
    var c := Entered(b, 0, e);
    EnteredEntries(b, 0, e);
    assert FirstSeen(Entries(c)) == 0 && c[0..] == c;
    forall i | 0 <= i < ENTRY_SIZE
      ensures c[i] == EntryBytes(e)[i]
    {
      PatchedAt(b, 0, EntryBytes(e), i);
    }
    FieldText(c, name, e);
  }

  lemma {:induction false} FieldText(c: seq<Byte>, name: seq<Byte>, e: DirEntry)
    requires |c| >= ENTRY_SIZE && |name| <= NAME_LENGTH && forall i | 0 <= i < |name| :: name[i] != 0
    requires e.filename == Field(name) && forall i | 0 <= i < ENTRY_SIZE :: c[i] == EntryBytes(e)[i]
    ensures Text(c) == name <==> |name| < NAME_LENGTH || e.attributes == 0
  {
    hide WordBytes, HalfBytes, Text;
    assert forall i | 0 <= i < NAME_LENGTH :: c[i] == if i < |name| then name[i] else 0;
    assert c[NAME_LENGTH] == e.attributes;
    hide EntryBytes, Field;
    if |name| < NAME_LENGTH {
      TextOf(c, |name|);
      assert c[..|name|] == name;
    } else if e.attributes == 0 {
      TextOf(c, NAME_LENGTH);
      assert c[..NAME_LENGTH] == name;
    } else {
      LongText(c, NAME_LENGTH + 1);
    }
  }

  lemma {:induction false} LongText(b: seq<Byte>, n: nat)
    requires n <= |b| && forall i | 0 <= i < n :: b[i] != 0
    ensures |Text(b)| >= n
  {
    if n > 0 {
      LongText(b[1..], n - 1);
    }
  }

  /** What it is for: the first file listed under the name. */
  function Lookup(listing: seq<DirEntry>, name: seq<Byte>): Option<DirEntry> {
    if listing == [] then None
    else if Clean(listing[0].filename) == name then Some(listing[0])
    else Lookup(listing[1..], name)
  }

  ghost predicate Ended(dir: seq<DirEntry>) {
    exists i :: 0 <= i < |dir| && dir[i].filename[0] == 0
  }

  /** The search meets the first file listed, and no other. */
  lemma {:induction false} SearchMeetsFirst(dir: seq<DirEntry>, name: seq<Byte>)
    ensures Listing(dir) == [] ==> SearchDir(dir, name) == if Ended(dir) then Miss else Beyond
    ensures Listing(dir) != [] ==>
      SearchDir(dir, name) == if Clean(Listing(dir)[0].filename) == name then Hit(Listing(dir)[0]) else Endless
    decreases |dir|
  {
    if dir != [] {
      SearchMeetsFirst(dir[1..], name);
      if dir[0].filename[0] != 0 {
        if i :| 0 <= i < |dir| && dir[i].filename[0] == 0 {
          assert dir[1..][i - 1].filename[0] == 0;
        }
        if i :| 0 <= i < |dir[1..]| && dir[1..][i].filename[0] == 0 {
          assert dir[i + 1].filename[0] == 0;
        }
      }
    }
  }

  /** So in a directory that ends, the search gives the file looked for, or says that there is none, exactly when
      nothing is listed or the first file listed is the one: else it never returns. */
  lemma {:induction false} SearchIsLookup(dir: seq<DirEntry>, name: seq<Byte>)
    requires Ended(dir)
    ensures SearchDir(dir, name) == (match Lookup(Listing(dir), name) case None => Miss case Some(e) => Hit(e)) <==>
            Listing(dir) == [] || Clean(Listing(dir)[0].filename) == name
  {
    SearchMeetsFirst(dir, name);
  }

  /** Two files, and the second is never found. */
  lemma {:induction false} SecondIsNeverFound() returns (dir: seq<DirEntry>, name: seq<Byte>)
    ensures Ended(dir) && Lookup(Listing(dir), name) == Some(NewEntry(name, 3, 0, 0)) && SearchDir(dir, name) == Endless
  {
    name := [0x62];
    var a, b := NewEntry([0x61], 2, 0, 0), NewEntry(name, 3, 0, 0);
    dir := [a, b, BLANK];
    CleanField([0x61]);
    CleanField(name);
    assert dir[2].filename[0] == 0;
    assert dir[1..] == [b, BLANK] && dir[1..][1..] == [BLANK] && Listing([BLANK]) == [];
    assert Listing(dir[1..]) == [b] && Listing(dir) == [a, b];
    assert [a, b][1..] == [b];
    SearchMeetsFirst(dir, name);
  }

  /** A file just created is found again under its name, with its cluster, exactly when no other file is listed before
      it and its name is one that reads back as itself. */
  lemma {:induction false} CreatedIsFound(b: seq<Byte>, name: seq<Byte>, cluster: Word, attributes: Byte)
    requires FirstVacant(Entries(b)).Some? && attributes != LONG_NAME
    requires name != [] && name[0] != DELETED && forall i | 0 <= i < |name| :: name[i] != 0
    ensures var e := NewEntry(name, cluster, 0, attributes);
      SearchDir(Entries(WithEntry(b, e)), name) == Hit(e) <==>
      KeepsItsName(name) && (Listing(Entries(b)[..FirstVacant(Entries(b)).value]) + [e])[0] == e
  {
    EnteredIsListed(b, name, cluster, 0, attributes);
    CleanField(name);
    SearchMeetsFirst(Entries(WithEntry(b, NewEntry(name, cluster, 0, attributes))), name);
    hide SearchDir, Listing, Clean, KeepsItsName, Entries, WithEntry, FirstVacant;
  }
}
