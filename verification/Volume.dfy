/**
  The FAT16 program itself: a class over the mutable byte image, with the loops of
  the source.  Each method is specified by its effect on the abstract disk D().
 */
module Volumes {
  import opened Bytes
  import opened Layout
  import opened Chains
  import opened Names
  import opened Directory
  import opened Writes

  function Low16(x: int): word { x % 0x1_0000 }

  /** c modulo 0x8000, which is what survives when c is doubled in 16 bits. */
  function Wrap(c: word): nat { if c < 0x8000 then c else c - 0x8000 }

  lemma Doubled(c: word)
    ensures Low16(c * 2) == 2 * Wrap(c)
  {
  }

  function Signed32(x: nat): int
  {
    var r := x % 0x1_0000_0000;
    if r < 0x8000_0000 then r else r - 0x1_0000_0000
  }

  /** How many chunks the program counts when nothing is left: the size less one wraps around in 64 bits. */
  function WrappedChunks(bytes: nat): int
    requires bytes > 0
  {
    Signed32(0xffff_ffff_ffff_ffff / bytes + 1)
  }

  lemma NoWrappedChunks(spc: byte)
    requires PowerOfTwo(spc * SECTOR)
    ensures WrappedChunks(spc * SECTOR) <= 0
  {
    HalvedToPower(spc, 9);
    SmallPower(spc);
    WrappedOf(spc);
  }

  lemma WrappedOf(spc: byte)
    requires spc in {1, 2, 4, 8, 16, 32, 64, 128}
    ensures WrappedChunks(spc * SECTOR) == 0
  {
    assert WrappedChunks(512) == 0 && WrappedChunks(1024) == 0 && WrappedChunks(2048) == 0 && WrappedChunks(4096) == 0;
    assert WrappedChunks(8192) == 0 && WrappedChunks(16384) == 0 && WrappedChunks(32768) == 0;
    assert WrappedChunks(65536) == 0;
  }

  lemma {:induction false} HalvedToPower(n: nat, k: nat)
    requires n > 0 && PowerOfTwo(n * Doublings(k))
    ensures PowerOfTwo(n)
    decreases k
  {
    if k > 0 {
      Twice(n, Doublings(k - 1));
      HalvedToPower(n, k - 1);
    }
  }

  lemma Twice(n: nat, m: nat)
    requires n > 0 && m > 0
    ensures n * (2 * m) == 2 * (n * m) && n * m > 0
  {
  }

  function Doublings(k: nat): (r: nat)
    ensures r > 0
  {
    if k == 0 then 1 else 2 * Doublings(k - 1)
  }

  lemma SmallPower(spc: byte)
    requires PowerOfTwo(spc)
    ensures spc in {1, 2, 4, 8, 16, 32, 64, 128}
  {
    assert spc > 1 ==> PowerOfTwo(spc / 2);
    assert spc > 3 ==> PowerOfTwo(spc / 4);
  }

  lemma EndSector(spc: byte, data: nat)
    requires 0 < spc && data <= 0xffff
    ensures Low16((END - 2) * spc + data) == data - 3 * spc + if 3 * spc <= data then 0 else 0x1_0000
  {
    assert (END - 2) * spc + data == 0x1_0000 * spc + (data - 3 * spc);
  }

  /** The layout fields at their offsets in the boot sector. */
  function ParseBpb(s: seq<byte>): Bpb
    requires |s| >= SECTOR
  {
    Bpb(Word(s, 11), s[13], Word(s, 14), s[16], Word(s, 17), Word(s, 19), Word(s, 22))
  }

  /** The image begins with a boot sector that has these fields: words take two bytes, the low one first. */
  predicate Describes(s: seq<byte>, b: Bpb)
    requires |s| >= SECTOR
  {
    && s[11] == b.bytesPerSector % 0x100 && s[12] == b.bytesPerSector / 0x100
    && s[13] == b.sectorsPerCluster
    && s[14] == b.reserved % 0x100 && s[15] == b.reserved / 0x100
    && s[16] == b.fats
    && s[17] == b.rootEntries % 0x100 && s[18] == b.rootEntries / 0x100
    && s[19] == b.totalSectors % 0x100 && s[20] == b.totalSectors / 0x100
    && s[22] == b.fatSectors % 0x100 && s[23] == b.fatSectors / 0x100
  }

  /** Reading the boot sector recovers exactly the fields it was made from. */
  lemma ParseIff(s: seq<byte>, b: Bpb)
    requires |s| >= SECTOR
    ensures ParseBpb(s) == b <==> Describes(s, b)
  {
    WordIff(s, 11, b.bytesPerSector);
    WordIff(s, 14, b.reserved);
    WordIff(s, 17, b.rootEntries);
    WordIff(s, 19, b.totalSectors);
    WordIff(s, 22, b.fatSectors);
  }

  // ----- what creation and removal do to the disk

  lemma EncodeSingle(n: seq<byte>)
    ensures Separable([n])
    ensures EncodePath([n]) == if Encode(n).Some? then Some([Encode(n).value]) else None
  {
    assert [n][..0] == [];
    if Encode(n).Some? {
      assert [] + [Encode(n).value] == [Encode(n).value];
    }
  }

  /** A new empty file n: one entry in the first free slot, and one cluster, whose table entry is marked as the last. */
  ghost function CreatedAt(d: Disk, n: seq<byte>, time: word, date: word, c: nat): Disk
  {
    var slot := FreeSlot(d.root);
    if slot == |d.root| || Encode(n).None? || c >= |d.fat1| || c >= 0x8000 then d
    else d.(root := d.root[slot := NewEntry(Encode(n).value, ATTR_ARCHIVE, time, date, c, 0)],
            fat1 := d.fat1[c := END])
  }

  /** The cluster is the first free one. */
  ghost function Created(d: Disk, n: seq<byte>, time: word, date: word): Disk
    requires Sound(d)
  {
    CreatedAt(d, n, time, date, NextFree(d.fat1, 2, Hi(d)))
  }

  /** The file n with chain cs removed. */
  ghost function Removed(d: Disk, n: seq<byte>, cs: seq<nat>): Disk
    requires Sound(d) && Within(cs, |d.fat1|)
  {
    d.(root := Struck(d.root, n), fat1 := Freed(d.fat1, cs), fat2 := Freed(d.fat2, cs))
  }

  /** Both the lookup by encoded name and the search by decoded name lead from n to slot. */
  ghost predicate Finds(root: seq<Entry>, n: seq<byte>, slot: nat)
  {
    && Encode(n).Some? && Encode(n).value[0] != 0
    && ShowsFirst(root, n, slot) && FirstHit(root, Encode(n).value, true, true) == Some(root[slot])
  }

  // ----- the progress of a sequential read of a chain

  /** One of the two is a prefix of the other. */
  ghost predicate Overlaps(buffer: seq<byte>, all: seq<byte>) { buffer <= all || all <= buffer }

  /** Sector j of the ci-th cluster comes next; once ci reaches |cs| the chain has been read. */
  ghost predicate Reading(d: Disk, bytes: nat, cs: seq<nat>, ci: nat, clusterN: word, fatVal: word,
                          j: nat, buffer: seq<byte>)
    requires Sound(d) && Readable(d.data, cs)
  {
    && Uniform(d.data, bytes) && IsChain(d.fat1, Hi(d), cs) && ci <= |cs|
    && (ci < |cs| ==> clusterN == cs[ci] && fatVal == d.fat1[clusterN] &&
                      |buffer| == Span(ci, bytes) + j * SECTOR && buffer <= Gather(d.data, cs))
    && (ci == |cs| ==> Gather(d.data, cs) <= buffer)
  }

  lemma StartReading(d: Disk, bytes: nat, cs: seq<nat>, v: word)
    requires Sound(d) && Readable(d.data, cs) && Uniform(d.data, bytes) && IsChain(d.fat1, Hi(d), cs)
    requires cs[0] < |d.fat1| && v == d.fat1[cs[0]]
    ensures Reading(d, bytes, cs, 0, cs[0], v, 0, [])
  {
  }

  lemma AfterSector(d: Disk, bytes: nat, cs: seq<nat>, ci: nat, clusterN: word, fatVal: word,
                    j: nat, buffer: seq<byte>, sector: seq<byte>)
    requires Sound(d) && Readable(d.data, cs) && Reading(d, bytes, cs, ci, clusterN, fatVal, j, buffer)
    requires (j + 1) * SECTOR <= bytes
    requires ci < |cs| ==> sector == d.data[cs[ci] - 2][j * SECTOR..(j + 1) * SECTOR]
    ensures Reading(d, bytes, cs, ci, clusterN, fatVal, j + 1, buffer + sector)
  {
    if ci < |cs| {
      var all := Gather(d.data, cs);
      GatherPiece(d.data, bytes, cs, ci, j * SECTOR, SECTOR);
      assert sector == all[|buffer|..|buffer| + SECTOR];
      assert buffer + sector == all[..|buffer| + SECTOR];
    }
  }

  lemma AfterCluster(d: Disk, bytes: nat, cs: seq<nat>, ci: nat, clusterN: word, fatVal: word,
                     j: nat, buffer: seq<byte>, v: word)
    requires Sound(d) && Readable(d.data, cs) && Reading(d, bytes, cs, ci, clusterN, fatVal, j + 1, buffer)
    requires (j + 1) * SECTOR == bytes && (2 <= fatVal < Hi(d) ==> v == d.fat1[fatVal])
    ensures ci + 1 < |cs| ==> fatVal == cs[ci + 1] && 2 <= fatVal < Hi(d)
    ensures Reading(d, bytes, cs, if ci < |cs| then ci + 1 else ci, fatVal, v, 0, buffer)
  {
    if ci < |cs| {
      ChainAt(d.fat1, Hi(d), cs, ci);
      GatherLength(d.data, bytes, cs);
      if ci + 1 == |cs| {
        assert buffer == Gather(d.data, cs);
      }
    }
  }

  lemma LastSectorOfCluster(j: nat, spc: nat)
    requires j < spc
    ensures (j + 1) % spc == 0 <==> j + 1 == spc
  {
    if j + 1 < spc {
      assert (j + 1) % spc == j + 1;
    }
  }

  class Volume {
    var img: seq<byte>
    const g: Geometry

    ghost predicate Valid()
      reads `img
    {
      g.Supported() && g.endSector * SECTOR <= |img|
    }

    /** The disk that the image stands for. */
    ghost function D(): (d: Disk)
      requires Valid()
      reads `img
      ensures WellShaped(g, d) && Sound(d)
    {
      Abs(g, img)
    }

    /** pre_init_fat16: the layout is computed from the boot sector. */
    constructor (image: seq<byte>)
      requires |image| >= SECTOR && ParseBpb(image).Usable() && ParseBpb(image).totalSectors * SECTOR <= |image|
      ensures img == image && Valid() && g == ParseBpb(image).Layout()
      ensures forall b: Bpb :: Describes(image, b) ==> b.Usable() && g == b.Layout()
    {
      forall b: Bpb | Describes(image, b)
        ensures b == ParseBpb(image)
      {
        ParseIff(image, b);
      }
      var b := ParseBpb(image[..SECTOR]);
      assert b == ParseBpb(image);
      UsableIsSupported(b);
      img, g := image, b.Layout();
    }

    // ----- sectors

    /** A sector beyond the image leaves the caller's buffer with unknown contents. */
    method SectorRead(sec: nat) returns (b: seq<byte>)
      ensures |b| == SECTOR
      ensures InImage(img, sec) ==> b == SectorOf(img, sec)
    {
      if (sec + 1) * SECTOR <= |img| {
        b := img[sec * SECTOR..(sec + 1) * SECTOR];
      } else {
        b := seq(SECTOR, _ => 0);
      }
    }

    /** fseek followed by fwrite; past the end of the image the file grows. */
    method WriteAt(p: nat, b: seq<byte>)
      requires p <= |img|
      modifies `img
      ensures img == Overlay(old(img), p, b)
    {
      img := img[..p] + b + if p + |b| <= |img| then img[p + |b|..] else [];
    }

    // ----- the allocation table

    ghost predicate InTable(c: int)
    {
      0 <= c < g.TableLength() && c < 0x8000
    }

    /** The sector and the offset within it at which the program looks for the entry of c. */
    function EntrySector(c: word): nat { Low16(g.reserved + Low16(c * 2) / SECTOR) }

    function MirrorSector(c: word): nat { Low16(g.reserved + g.fatSectors + Low16(c * 2) / SECTOR) }

    function EntryOffset(c: word): (o: nat)
      ensures o + 2 <= SECTOR
    {
      Doubled(c);
      PackedPos(0, 2, Wrap(c), 0x8000);
      Low16(c * 2) % SECTOR
    }

    /** The doubled cluster number is kept in 16 bits, so the place is that of entry Wrap(c). */
    lemma EntryPlace(c: word)
      requires Valid() && Wrap(c) < g.TableLength()
      ensures EntrySector(c) == g.reserved + 2 * Wrap(c) / SECTOR
      ensures MirrorSector(c) == g.reserved + g.fatSectors + 2 * Wrap(c) / SECTOR
      ensures EntryOffset(c) == 2 * Wrap(c) % SECTOR
    {
      Doubled(c);
      TableSectorPos(g, Wrap(c));
    }

    /** So the program looks at the entry's own place exactly for the clusters below 0x8000. */
    lemma EntryPlaceIff(c: word)
      requires Valid() && Wrap(c) < g.TableLength()
      ensures EntrySector(c) * SECTOR + EntryOffset(c) == g.FatPos(0, Wrap(c))
      ensures EntrySector(c) * SECTOR + EntryOffset(c) == g.FatPos(0, c) <==> c < 0x8000
    {
      EntryPlace(c);
      TableSectorPos(g, Wrap(c));
    }

    /** For instance, the entry of cluster 0x8000 is taken to be entry 0. */
    lemma EntryWraps()
      requires Valid() && g.TableLength() > 0
      ensures EntrySector(0x8000) * SECTOR + EntryOffset(0x8000) == g.FatPos(0, 0) != g.FatPos(0, 0x8000)
    {
      EntryPlaceIff(0x8000);
    }

    lemma EntryRead(c: word)
      requires Valid() && Wrap(c) < g.TableLength()
      ensures InImage(img, EntrySector(c))
      ensures Word(SectorOf(img, EntrySector(c)), EntryOffset(c)) == D().fat1[Wrap(c)]
    {
      EntryPlace(c);
      TableSector(g, img, Wrap(c), EntrySector(c), EntryOffset(c));
    }

    method FatEntryByCluster(c: word) returns (v: word)
      requires Valid()
      ensures Wrap(c) < |D().fat1| ==> v == D().fat1[Wrap(c)]
    {
      var buffer := SectorRead(EntrySector(c));
      v := Word(buffer, EntryOffset(c));
      if Wrap(c) < g.TableLength() {
        EntryRead(c);
      }
    }

    /** The same for a cluster of the volume. */
    method NextOf(c: word) returns (v: word)
      requires Valid()
      ensures 2 <= c < Hi(D()) ==> v == D().fat1[c]
    {
      v := FatEntryByCluster(c);
    }

    /** Where a write to the entry of c goes, in each table. */
    method TableEntryPos(c: word) returns (p1: nat, p2: nat)
      requires Valid() && InTable(c)
      ensures p1 == g.FatPos(0, c) && p2 == g.FatPos(1, c)
    {
      EntryPlace(c);
      TableSectorPos(g, c);
      p1 := EntrySector(c) * SECTOR + EntryOffset(c);
      p2 := MirrorSector(c) * SECTOR + EntryOffset(c);
    }

    /** Link c to v unless v is in use; returns 1 if it is. */
    method ClusterIsEmpty(c: word, v: word) returns (r: nat)
      requires Valid() && InTable(c) && (v != END ==> InTable(v))
      modifies `img
      ensures Valid() && r == if v != END && old(D()).fat1[v] != 0 then 1 else 0
      ensures r == 1 ==> D() == old(D())
      ensures r == 0 ==> D() == old(D()).(fat1 := old(D()).fat1[c := v])
    {
      var next: word := 0;
      if v != END {
        next := FatEntryByCluster(v);
      }
      if next != 0 {
        return 1;
      }
      var p, _ := TableEntryPos(c);
      WriteFirstTable(g, img, c, v);
      WriteAt(p, WordBytes(v));
      r := 0;
    }

    /** How far the 16-bit arithmetic reaches into the table. */
    ghost function Scanned(): nat { if g.TableLength() < 0x8000 then g.TableLength() else 0x8000 }

    /**
      The first free entry of the table.  On a full volume that can be an entry beyond the last cluster: the cluster
      exists
      exactly if the volume is not full.
     */
    method FindEmptyCluster() returns (c: word)
      requires Valid() && NextFree(D().fat1, 2, Scanned()) < Scanned()
      ensures c == NextFree(D().fat1, 2, Scanned())
      ensures c < Hi(D()) <==> NextFree(D().fat1, 2, Hi(D())) < Hi(D())
      ensures c < Hi(D()) ==> c == NextFree(D().fat1, 2, Hi(D()))
    {
      c := 2;
      var v := FatEntryByCluster(c);
      while v != 0
        invariant 2 <= c < Scanned() && v == D().fat1[c]
        invariant NextFree(D().fat1, c, Scanned()) == NextFree(D().fat1, 2, Scanned())
        decreases Scanned() - c
      {
        c := c + 1;
        v := FatEntryByCluster(c);
      }
      NextFreeFarther(D().fat1, 2, Hi(D()), Scanned());
    }

    /** The sector number is kept in 16 bits. */
    function FirstSector(c: word): word
    {
      Low16((c - 2) * g.sectorsPerCluster + g.dataSector)
    }

    lemma FirstSectorIs(c: word)
      requires Valid() && g.IsCluster(c)
      ensures FirstSector(c) == g.ClusterSector(c)
    {
      DataSectorPos(g, c, 0);
      SpanIsProduct(c - 2, g.sectorsPerCluster);
    }

    /** Zero the entry of c in both tables; returns what the first one held. */
    method FreeCluster(c: word) returns (v: word)
      requires Valid() && InTable(c)
      modifies `img
      ensures Valid() && v == old(D()).fat1[c]
      ensures D() == old(D()).(fat1 := old(D()).fat1[c := 0], fat2 := old(D()).fat2[c := 0])
    {
      v := FatEntryByCluster(c);
      var p1, p2 := TableEntryPos(c);
      WriteFirstTable(g, img, c, 0);
      WriteAt(p1, WordBytes(0));
      WriteSecondTable(g, img, c, 0);
      WriteAt(p2, WordBytes(0));
    }

    /** The freeing loop of unlink zeroes exactly the chain, in both tables. */
    method FreeChain(c: word, ghost cs: seq<nat>)
      requires Valid() && IsChain(D().fat1, Hi(D()), cs) && cs[0] == c
      modifies `img
      ensures Valid() && Within(cs, |old(D()).fat1|)
      ensures D() == old(D()).(fat1 := Freed(old(D()).fat1, cs), fat2 := Freed(old(D()).fat2, cs))
    {
      ghost var d := D();
      ChainWithin(d.fat1, Hi(d), cs);
      FreeNext(d.fat1, d.fat2, Hi(d), cs, 0);
      var cur := FreeCluster(c);
      ghost var i := 1;
      while 1 < cur < 0xfff8
        invariant Valid() && 1 <= i <= |cs| && cur == d.fat1[cs[i - 1]]
        invariant D() == d.(fat1 := Freed(d.fat1, cs[..i]), fat2 := Freed(d.fat2, cs[..i]))
        decreases |cs| - i
      {
        ChainAt(d.fat1, Hi(d), cs, i - 1);
        FreeNext(d.fat1, d.fat2, Hi(d), cs, i);
        cur := FreeCluster(cur);
        i := i + 1;
      }
      ChainAt(d.fat1, Hi(d), cs, i - 1);
      assert cs[..|cs|] == cs;
    }

    // ----- scanning the root directory

    method OpenRoot() returns (cnt: nat, buffer: seq<byte>)
      requires Valid()
      ensures Cursor(D().root, 0, cnt, buffer)
    {
      buffer := SectorRead(g.rootSector);
      cnt := 1;
      if 0 < g.rootEntries {
        RootCursor(g, img, 0);
      }
    }

    /** After the i-th entry: read the next sector if a sector has been used up. */
    method NextRoot(i: nat, cnt: nat, buffer: seq<byte>) returns (cnt': nat, buffer': seq<byte>)
      requires Valid() && 1 <= i <= g.rootEntries && Cursor(D().root, i - 1, cnt, buffer)
      ensures Cursor(D().root, i, cnt', buffer')
    {
      cnt', buffer' := cnt, buffer;
      if i % 16 == 0 && i != g.rootEntries {
        SectorUsedUp(i, cnt);
        buffer' := SectorRead(g.rootSector + cnt);
        cnt' := cnt + 1;
        RootCursor(g, img, cnt);
      } else {
        CursorOn(D().root, i, cnt, buffer);
      }
    }

    // ----- path lookup

    /** The loop of find_root over the root directory. */
    method ScanRoot(name: seq<byte>, last: bool) returns (r: Option<Entry>)
      requires Valid()
      ensures r == FirstHit(D().root, name, last, true)
    {
      ghost var root := D().root;
      var cnt, buffer := OpenRoot();
      var i := 1;
      while i <= g.rootEntries
        invariant D().root == root && 1 <= i <= g.rootEntries + 1 && Cursor(root, i - 1, cnt, buffer)
        invariant FirstHit(root, name, last, true) == FirstHit(root, name, last, true, i - 1)
      {
        var e := Cut(buffer, i - 1);
        assert e == root[i - 1];
        if e[0] == 0 {
          return None;
        }
        var isEq := Name(e) == name;
        if isEq && (Attr(e) == ATTR_ARCHIVE || Attr(e) == ATTR_DIRECTORY) {
          return Some(e);
        }
        cnt, buffer := NextRoot(i, cnt, buffer);
        i := i + 1;
      }
      r := None;
    }

    /** What fat16_readdir does with one entry. */
    method Report(e: Entry, names: seq<seq<byte>>) returns (names': seq<seq<byte>>)
      ensures names' == if Listable(e) then names + [Decode(Name(e))] else names
    {
      names' := names;
      if (Attr(e) == ATTR_ARCHIVE || Attr(e) == ATTR_DIRECTORY) && e[0] != DELETED {
        var filename := PathDecode(Name(e));
        names' := names' + [filename];
      }
    }

    /** fat16_readdir on the root directory. */
    method ReaddirRoot() returns (names: seq<seq<byte>>)
      requires Valid()
      ensures names == Listed(D().root) && ReportsNames(D().root, names)
    {
      ghost var root := D().root;
      ListedIff(root, Listed(root));
      names := [];
      var cnt, buffer := OpenRoot();
      var i := 1;
      while i <= g.rootEntries
        invariant D().root == root && 1 <= i <= g.rootEntries + 1 && Cursor(root, i - 1, cnt, buffer)
        invariant names + Listed(root, i - 1) == Listed(root)
      {
        var e := Cut(buffer, i - 1);
        assert e == root[i - 1];
        if e[0] == 0 {
          return;
        }
        ListedStep(names, root, i - 1);
        names := Report(e, names);
        cnt, buffer := NextRoot(i, cnt, buffer);
        i := i + 1;
      }
    }

    /** find_root: a plain file found in the root ends the search whatever components remain. */
    method FindRoot(names: seq<seq<byte>>) returns (r: Option<Entry>)
      requires Valid() && RootWalkable(D(), names)
      requires forall k :: 0 <= k < |names| ==> |names[k]| == 11 && names[k][0] != 0
      ensures r == Resolve(D(), names)
      ensures forall e: Entry :: r == Some(e) <==> Leads(D(), names, e)
    {
      r := ScanRoot(names[0], |names| == 1);
      if r.Some? && Attr(r.value) != ATTR_ARCHIVE && |names| != 1 {
        RootHitIff(D().root, names[0], false, r.value);
        r := FindSubdir(FirstCluster(r.value), names, 1);
      }
      forall e: Entry
        ensures Resolve(D(), names) == Some(e) <==> Leads(D(), names, e)
      {
        ResolveIff(D(), names, e);
      }
    }

    method ClusterSectorRead(c: word, m: nat) returns (b: seq<byte>)
      requires Valid() && g.IsCluster(c) && m < g.sectorsPerCluster
      ensures |b| == SECTOR && (m + 1) * SECTOR <= |D().data[c - 2]|
      ensures b == D().data[c - 2][m * SECTOR..(m + 1) * SECTOR]
      ensures |Slices(D().data[c - 2])| == 16 * g.sectorsPerCluster
      ensures Cursor(Slices(D().data[c - 2]), 16 * m, m + 1, b)
    {
      SectorIs(c, m);
      b := SectorRead(FirstSector(c) + m);
      ClusterCursor(D().data[c - 2], m, b);
    }

    /** Enter the ci-th cluster of a directory. */
    method EnterCluster(clusterN: word, ghost cs: seq<nat>, ghost ci: nat)
      returns (fatVal: word, buffer: seq<byte>)
      requires Valid() && IsDirectory(D(), cs) && ci < |cs| && clusterN == cs[ci]
      ensures Readable(D().data, cs) && Walking(D(), g.sectorsPerCluster, cs, ci, clusterN, fatVal, 1, 1, buffer)
    {
      ghost var d := D();
      ChainAt(d.fat1, Hi(d), cs, ci);
      ChainReadable(d.fat1, Hi(d), cs, d.data);
      fatVal := FatEntryByCluster(clusterN);
      buffer := ClusterSectorRead(clusterN, 0);
    }

    /** The end of the walk's loop body: on to the next entry, sector or cluster, unless the directory ends. */
    method NextEntry(clusterN: word, fatVal: word, i: nat, cnt: nat, buffer: seq<byte>,
                     ghost d: Disk, ghost cs: seq<nat>, ghost ci: nat)
      returns (more: bool, clusterN': word, fatVal': word, i': nat, cnt': nat, buffer': seq<byte>, ghost ci': nat)
      requires Valid() && D() == d && IsDirectory(d, cs) && Readable(d.data, cs)
      requires Walking(d, g.sectorsPerCluster, cs, ci, clusterN, fatVal, i, cnt, buffer)
      ensures more ==> Walking(d, g.sectorsPerCluster, cs, ci', clusterN', fatVal', i', cnt', buffer')
      ensures more <==> i < 16 * g.sectorsPerCluster || ci + 1 < |cs|
      ensures more ==> if i < 16 * g.sectorsPerCluster then ci' == ci && i' == i + 1 else ci' == ci + 1 && i' == 1
    {
      more, clusterN', fatVal', i', cnt', buffer', ci' := true, clusterN, fatVal, i + 1, cnt, buffer, ci;
      if i % 16 != 0 {
        WalkOn(d, g.sectorsPerCluster, cs, ci, clusterN, fatVal, i, cnt, buffer);
        return;
      }
      SectorUsedUp(i, cnt);
      ChainAt(d.fat1, Hi(d), cs, ci);
      if cnt < g.sectorsPerCluster {
        buffer' := ClusterSectorRead(clusterN, cnt);
        cnt' := cnt + 1;
        WalkToSector(d, g.sectorsPerCluster, cs, ci, clusterN, fatVal, i, cnt, buffer, buffer');
      } else {
        if fatVal == END {
          more := false;
        } else {
          ci', clusterN', i', cnt' := ci + 1, fatVal, 1, 1;
          fatVal', buffer' := EnterCluster(clusterN', cs, ci');
        }
      }
    }

    /** What that means for a search by name. */
    method NextHit(clusterN: word, fatVal: word, i: nat, cnt: nat, buffer: seq<byte>,
                   ghost d: Disk, ghost cs: seq<nat>, ghost ci: nat, ghost name: seq<byte>, ghost last: bool)
      returns (more: bool, clusterN': word, fatVal': word, i': nat, cnt': nat, buffer': seq<byte>, ghost ci': nat)
      requires Valid() && D() == d && IsDirectory(d, cs) && Readable(d.data, cs)
      requires Walking(d, g.sectorsPerCluster, cs, ci, clusterN, fatVal, i, cnt, buffer)
      ensures !more ==> HitFrom(d, cs, ci, i, name, last) == None
      ensures more ==> Walking(d, g.sectorsPerCluster, cs, ci', clusterN', fatVal', i', cnt', buffer')
      ensures more ==> HitFrom(d, cs, ci', i' - 1, name, last) == HitFrom(d, cs, ci, i, name, last)
      ensures more ==> ci <= ci' < |cs| && (ci == ci' ==> i < i')
    {
      more, clusterN', fatVal', i', cnt', buffer', ci' := NextEntry(clusterN, fatVal, i, cnt, buffer, d, cs, ci);
    }

    /** And for the search for a free slot. */
    method NextSlot(clusterN: word, fatVal: word, i: nat, cnt: nat, buffer: seq<byte>,
                    ghost d: Disk, ghost cs: seq<nat>, ghost ci: nat)
      returns (more: bool, clusterN': word, fatVal': word, i': nat, cnt': nat, buffer': seq<byte>, ghost ci': nat)
      requires Valid() && D() == d && IsDirectory(d, cs) && Readable(d.data, cs)
      requires Walking(d, g.sectorsPerCluster, cs, ci, clusterN, fatVal, i, cnt, buffer)
      ensures !more ==> FreeFrom(d, cs, ci, i) == None && LastOfAll(g, cs, Spot(ci, i - 1))
      ensures more ==> Walking(d, g.sectorsPerCluster, cs, ci', clusterN', fatVal', i', cnt', buffer')
      ensures more ==>
                FreeFrom(d, cs, ci', i' - 1) == FreeFrom(d, cs, ci, i) && StandsAfter(g, cs, Spot(ci, i - 1), ci', i')
      ensures more ==> ci <= ci' < |cs| && (ci == ci' ==> i < i')
    {
      more, clusterN', fatVal', i', cnt', buffer', ci' := NextEntry(clusterN, fatVal, i, cnt, buffer, d, cs, ci);
    }

    /**
      The loop of fat16_mknod below the root, which looks for a slot in the directory whose first cluster is c: where
      the program
      then puts the new entry, and whether it puts it anywhere.
     */
    method LocateFreeBelow(c: word) returns (found: bool, p: int)
      requires Valid() && HasDirectory(D(), c)
      ensures var d := D(); var cs := DirectoryAt(d, c); var spot := FreeFrom(d, cs, 0, 0);
              && (found <==> spot.Some? && !LastOfAll(g, cs, spot.value))
              && (found ==> p == PlaceBelow(g, cs, spot.value))
    {
      ghost var d := D();
      ghost var cs := DirectoryAt(d, c);
      ghost var ci := 0;
      var clusterN := c;
      var fatVal, buffer := EnterCluster(clusterN, cs, 0);
      var i, cnt, more, free := 1, 1, true, false;
      ghost var spot := FreeFrom(d, cs, 0, 0);
      while !free
        invariant D() == d && Walking(d, g.sectorsPerCluster, cs, ci, clusterN, fatVal, i, cnt, buffer)
        invariant if free then spot.Some? && StandsAfter(g, cs, spot.value, ci, i)
                  else spot == FreeFrom(d, cs, ci, i - 1)
        decreases !free, |cs| - ci, 16 * g.sectorsPerCluster - i
      {
        var e := Cut(buffer, i - 1);
        free := e[0] == 0 || e[0] == DELETED;
        more, clusterN, fatVal, i, cnt, buffer, ci := NextSlot(clusterN, fatVal, i, cnt, buffer, d, cs, ci);
        if !more {
          return false, 0;
        }
      }
      ChainAt(d.fat1, Hi(d), cs, ci);
      p := PlaceOf(clusterN, i, cnt);
      PlaceAfter(g, cs, spot.value, ci, i);
      found := true;
    }

    /** The place the program computes when the entry after the free one is the i-th of its cluster, counted from 1. */
    method PlaceOf(clusterN: word, i: nat, cnt: nat) returns (p: int)
      requires Valid() && g.IsCluster(clusterN) && 1 <= i && 1 <= cnt <= g.sectorsPerCluster
      requires 16 * (cnt - 1) <= i - 1 < 16 * cnt
      ensures p == PlaceBefore(g, clusterN, i)
    {
      var sectorNum := cnt - 1 + (clusterN - 2) * g.sectorsPerCluster + g.dataSector;
      var offset := if i == 1 then -DIR_BYTES else (i - 2) * DIR_BYTES % SECTOR;
      SpanIsProduct(clusterN - 2, g.sectorsPerCluster);
      DataSectorPos(g, clusterN, cnt - 1);
      PlaceParts(i, cnt);
      p := sectorNum * SECTOR + offset;
    }

    /** The loop of find_subdir over the entries of one directory. */
    method ScanSubdir(c: word, name: seq<byte>, last: bool) returns (r: Option<Entry>)
      requires Valid() && HasDirectory(D(), c) && |name| == 11 && name[0] != 0
      ensures r == FirstHit(Entries(D(), c), name, last, false)
    {
      ghost var d := D();
      ghost var cs := DirectoryAt(d, c);
      HitFromIs(d, cs, 0, 0, name, last);
      assert cs[0..] == cs;
      ghost var ci := 0;
      var clusterN := c;
      var fatVal, buffer := EnterCluster(clusterN, cs, 0);
      var i, cnt, more := 1, 1, true;
      var ended := false;
      while !ended
        invariant D() == d && Walking(d, g.sectorsPerCluster, cs, ci, clusterN, fatVal, i, cnt, buffer)
        invariant FirstHit(Entries(d, c), name, last, false)
               == if ended then None else HitFrom(d, cs, ci, i - 1, name, last)
        decreases !ended, |cs| - ci, 16 * g.sectorsPerCluster - i
      {
        var e := Cut(buffer, i - 1);
        ended := e[0] == 0;
        var same := Name(e) == name && Ascii(name);
        if same && (Attr(e) == ATTR_ARCHIVE || Attr(e) == ATTR_DIRECTORY) && last {
          return Some(e);
        }
        if same && Attr(e) == ATTR_DIRECTORY {
          return Some(e);
        }
        more, clusterN, fatVal, i, cnt, buffer, ci := NextHit(clusterN, fatVal, i, cnt, buffer, d, cs, ci, name, last);
        if !more {
          return None;
        }
      }
      r := None;
    }

    /** find_subdir, from the directory whose first cluster is c. */
    method FindSubdir(c: word, names: seq<seq<byte>>, cur: nat) returns (r: Option<Entry>)
      requires Valid() && cur < |names| && Walkable(D(), c, names[cur..])
      requires forall k :: 0 <= k < |names| ==> |names[k]| == 11 && names[k][0] != 0
      ensures r == ResolveIn(D(), c, names[cur..])
      ensures forall e: Entry :: r == Some(e) <==> LeadsFrom(D(), c, names[cur..], e)
      decreases |names| - cur
    {
      ghost var ns := names[cur..];
      assert ns[0] == names[cur] && ns[1..] == names[cur + 1..];
      forall e: Entry
        ensures ResolveIn(D(), c, ns) == Some(e) <==> LeadsFrom(D(), c, ns, e)
      {
        ResolveInIff(D(), c, ns, e);
      }
      r := ScanSubdir(c, names[cur], cur + 1 == |names|);
      if r.Some? && cur + 1 < |names| {
        SubdirHitIff(Entries(D(), c), names[cur], false, r.value);
        r := FindSubdir(FirstCluster(r.value), names, cur + 1);
      }
    }

    // ----- reading

    /**
      read_path after the lookup: sectors are read from the start of the file up to the end of the
      requested range.  Past the end of the chain the sectors read are unknown.
     */
    method ReadFrom(e: Entry, size: nat, offset: nat, ghost cs: seq<nat>) returns (n: nat, out: seq<byte>)
      requires Valid() && IsChain(D().fat1, Hi(D()), cs) && cs[0] == FirstCluster(e)
      ensures n == |out| == if offset < FileSize(e) then size else 0
      ensures Readable(D().data, cs)
      ensures offset < FileSize(e) && offset + size <= |Gather(D().data, cs)| ==>
                out == Gather(D().data, cs)[offset..offset + size]
    {
      ghost var d := D();
      ChainReadable(d.fat1, Hi(d), cs, d.data);
      var buffer := ReadSectors(FirstCluster(e), size + offset, cs);
      if offset < FileSize(e) {
        n, out := size, buffer[offset..offset + size];
      } else {
        n, out := 0, [];
      }
    }

    /** Whole sectors of the chain, at least total bytes of it. */
    method ReadSectors(c: word, total: nat, ghost cs: seq<nat>) returns (buffer: seq<byte>)
      requires Valid() && IsChain(D().fat1, Hi(D()), cs) && cs[0] == c && Readable(D().data, cs)
      ensures |buffer| >= total && Overlaps(buffer, Gather(D().data, cs))
    {
      ghost var d, ci := D(), 0;
      ghost var bytes := g.ClusterBytes();
      ChainAt(d.fat1, Hi(d), cs, 0);
      StartReading(d, bytes, cs, d.fat1[c]);
      var clusterN := c;
      var fatVal := FatEntryByCluster(clusterN);
      var j := 0;
      buffer := [];
      while |buffer| < total
        invariant D() == d && 0 <= j < g.sectorsPerCluster
        invariant Reading(d, bytes, cs, ci, clusterN, fatVal, j, buffer)
        decreases total - |buffer|
      {
        var sector := ReadNext(clusterN, j, d, cs, ci, fatVal, buffer);
        buffer := buffer + sector;
        LastSectorOfCluster(j, g.sectorsPerCluster);
        if (j + 1) % g.sectorsPerCluster == 0 {
          var next := NextOf(fatVal);
          AfterCluster(d, bytes, cs, ci, clusterN, fatVal, j, buffer, next);
          ci := if ci < |cs| then ci + 1 else ci;
          clusterN, fatVal := fatVal, next;
          j := -1;
        }
        j := j + 1;
      }
    }

    /** The next sector of the chain. */
    method ReadNext(clusterN: word, j: nat, ghost d: Disk, ghost cs: seq<nat>, ghost ci: nat, ghost fatVal: word,
                    ghost buffer: seq<byte>) returns (sector: seq<byte>)
      requires Valid() && D() == d && Readable(d.data, cs) && j < g.sectorsPerCluster
      requires Reading(d, g.ClusterBytes(), cs, ci, clusterN, fatVal, j, buffer)
      ensures |sector| == SECTOR && Reading(d, g.ClusterBytes(), cs, ci, clusterN, fatVal, j + 1, buffer + sector)
    {
      sector := SectorRead(FirstSector(clusterN) + j);
      if ci < |cs| {
        ChainAt(d.fat1, Hi(d), cs, ci);
        SectorIs(clusterN, j);
      }
      AfterSector(d, g.ClusterBytes(), cs, ci, clusterN, fatVal, j, buffer, sector);
    }

    lemma SectorIs(c: word, j: nat)
      requires Valid() && g.IsCluster(c) && j < g.sectorsPerCluster
      ensures InImage(img, FirstSector(c) + j) && (j + 1) * SECTOR <= |D().data[c - 2]|
      ensures SectorOf(img, FirstSector(c) + j) == D().data[c - 2][j * SECTOR..(j + 1) * SECTOR]
    {
      FirstSectorIs(c);
      DataSector(g, img, c, j);
    }

    // ----- editing the root directory

    /** Where the i-th root entry, counted from 1, is in the image. */
    method EntryPosition(i: nat, cnt: nat) returns (p: nat)
      requires Valid() && 1 <= i <= g.rootEntries && 16 * (cnt - 1) <= i - 1 < 16 * cnt
      ensures p == g.RootPos(i - 1)
    {
      var sectorNum := cnt - 1 + g.rootSector;
      var offset := ((i - 1) * DIR_BYTES) % SECTOR;
      RootSectorPos(g, i - 1);
      assert (i - 1) / 16 == cnt - 1;
      p := sectorNum * SECTOR + offset;
    }

    /** Find the root entry whose decoded name is n; the scan does not stop at a terminator. */
    method LocateShown(n: seq<byte>) returns (found: bool, p: nat)
      requires Valid()
      ensures found <==> ShownSlot(D().root, n) < |D().root|
      ensures found ==> p == g.RootPos(ShownSlot(D().root, n))
    {
      ghost var root := D().root;
      p := 0;
      var cnt, buffer := OpenRoot();
      var i := 1;
      while i <= g.rootEntries
        invariant D().root == root && 1 <= i <= g.rootEntries + 1 && Cursor(root, i - 1, cnt, buffer)
        invariant ShownSlot(root, n) == ShownSlot(root, n, i - 1)
      {
        var e := Cut(buffer, i - 1);
        assert e == root[i - 1];
        var shown := PathDecode(Name(e));
        if CString(shown) == n {
          p := EntryPosition(i, cnt);
          return true, p;
        }
        cnt, buffer := NextRoot(i, cnt, buffer);
        i := i + 1;
      }
      found := false;
    }

    method PatchShown(n: seq<byte>, o: nat, b: seq<byte>)
      requires Valid() && o + |b| <= DIR_BYTES
      modifies `img
      ensures Valid() && D() == old(D()).(root := Patched(old(D()).root, n, o, b))
    {
      var found, p := LocateShown(n);
      if found {
        WriteRoot(g, img, ShownSlot(D().root, n), o, b);
        WriteAt(p + o, b);
      }
    }

    /** edit_size, for a file of the root directory. */
    method EditSize(n: seq<byte>, size: dword)
      requires Valid()
      modifies `img
      ensures Valid() && D() == old(D()).(root := Resized(old(D()).root, n, size))
    {
      PatchShown(n, 28, DWordBytes(size));
    }

    /** The end of unlink: strike out the entry whose decoded name is n. */
    method StrikeOut(n: seq<byte>)
      requires Valid()
      modifies `img
      ensures Valid() && D() == old(D()).(root := Struck(old(D()).root, n))
    {
      PatchShown(n, 0, [DELETED]);
    }

    /** The first root slot that is a terminator or a deleted entry. */
    method LocateFree() returns (found: bool, p: nat)
      requires Valid()
      ensures found <==> FreeSlot(D().root) < |D().root|
      ensures found ==> p == g.RootPos(FreeSlot(D().root))
    {
      ghost var root := D().root;
      p := 0;
      var cnt, buffer := OpenRoot();
      var i := 1;
      while i <= g.rootEntries
        invariant D().root == root && 1 <= i <= g.rootEntries + 1 && Cursor(root, i - 1, cnt, buffer)
        invariant FreeSlot(root) == FreeSlot(root, i - 1)
      {
        var e := Cut(buffer, i - 1);
        assert e == root[i - 1];
        if e[0] == 0 || e[0] == DELETED {
          p := EntryPosition(i, cnt);
          return true, p;
        }
        cnt, buffer := NextRoot(i, cnt, buffer);
        i := i + 1;
      }
      found := false;
    }

    // ----- creating and removing root files

    /** dir_entry_create, for slot i of the root directory. */
    method DirEntryCreate(p: nat, ghost i: nat, e: Entry)
      requires Valid() && i < g.rootEntries && p == g.RootPos(i)
      modifies `img
      ensures Valid() && D() == old(D()).(root := old(D()).root[i := e])
    {
      WriteRoot(g, img, i, 0, e);
      SpliceAll(D().root[i], e);
      WriteAt(p, e);
    }

    /** fat16_mknod for a root-level path; ok is false where the program exits on a bad name. */
    method Mknod(n: seq<byte>, time: word, date: word) returns (ok: bool)
      requires Valid()
      requires FreeSlot(D().root) < |D().root| && Encode(n).Some? ==> NextFree(D().fat1, 2, Scanned()) < Scanned()
      modifies `img
      ensures Valid() && ok == (FreeSlot(old(D()).root) < |old(D()).root| ==> Encode(n).Some?)
      ensures D() == CreatedAt(old(D()), n, time, date, NextFree(old(D()).fat1, 2, Scanned()))
      ensures NextFree(old(D()).fat1, 2, Hi(old(D()))) < Hi(old(D())) ==> D() == Created(old(D()), n, time, date)
    {
      NextFreeFarther(D().fat1, 2, Hi(D()), Scanned());
      var found, p := LocateFree();
      if !found {
        return true;
      }
      var names, _ := SplitPath([n]);
      EncodeSingle(n);
      if names.None? {
        return false;
      }
      var c := FindEmptyCluster();
      DirEntryCreate(p, FreeSlot(D().root), NewEntry(names.value[0], ATTR_ARCHIVE, time, date, c, 0));
      var _ := ClusterIsEmpty(c, END);
      ok := true;
    }

    /** fat16_unlink for a root-level path; 1 if the file is missing. */
    method Unlink(n: seq<byte>, ghost cs: seq<nat>) returns (r: nat)
      requires Valid() && Encode(n).Some? && Encode(n).value[0] != 0
      requires var hit := FirstHit(D().root, Encode(n).value, true, true);
               hit.Some? ==> IsChain(D().fat1, Hi(D()), cs) && cs[0] == FirstCluster(hit.value)
      modifies `img
      ensures Valid() && r == if FirstHit(old(D()).root, Encode(n).value, true, true).None? then 1 else 0
      ensures r == 1 ==> D() == old(D())
      ensures r == 0 ==> Within(cs, |old(D()).fat1|) && D() == Removed(old(D()), n, cs)
    {
      var hit := FindFile(n);
      if hit.None? {
        return 1;
      }
      FreeChain(FirstCluster(hit.value), cs);
      StrikeOut(n);
      r := 0;
    }

    // ----- writing

    /** The counting loop of write_path: the length of a chain and its last cluster. */
    method CountClusters(c: word, ghost cs: seq<nat>) returns (count: nat, last: word)
      requires Valid() && IsChain(D().fat1, Hi(D()), cs) && cs[0] == c
      ensures count == |cs| && last == cs[|cs| - 1]
    {
      ghost var d := D();
      ChainAt(d.fat1, Hi(d), cs, 0);
      count, last := 0, c;
      var cur := c;
      while 1 < cur < 0xfff8
        invariant D() == d && count <= |cs|
        invariant count < |cs| ==> cur == cs[count]
        invariant count == |cs| ==> cur >= 0xfff8 && last == cs[|cs| - 1]
        decreases |cs| - count
      {
        ChainAt(d.fat1, Hi(d), cs, count);
        count := count + 1;
        var next := FatEntryByCluster(cur);
        if next <= 1 || next >= 0xfff8 {
          last := cur;
        }
        cur := next;
      }
      if count < |cs| {
        ChainAt(d.fat1, Hi(d), cs, count);
      }
    }

    /** The inner search of the extension loop: link c to the first free cluster above it. */
    method LinkNext(c: word) returns (next: word)
      requires Valid() && 2 <= c < Hi(D()) && FreeCount(D().fat1, c + 1, Hi(D())) > 0
      modifies `img
      ensures Valid() && next == NextFree(old(D()).fat1, c + 1, Hi(old(D())))
      ensures D() == old(D()).(fat1 := old(D()).fat1[c := next])
    {
      ghost var d := D();
      NextFreeCount(d.fat1, c + 1, Hi(d));
      var b := 1;
      var r := ClusterIsEmpty(c, c + b);
      while r != 0
        invariant Valid() && 1 <= b && c + b < Hi(d)
        invariant r == if d.fat1[c + b] != 0 then 1 else 0
        invariant NextFree(d.fat1, c + b, Hi(d)) == NextFree(d.fat1, c + 1, Hi(d))
        invariant D() == if r == 0 then d.(fat1 := d.fat1[c := c + b]) else d
        decreases Hi(d) - b, r
      {
        b := b + 1;
        r := ClusterIsEmpty(c, c + b);
      }
      next := FatEntryByCluster(c);
    }

    /** One pass of the extension loop; the last one marks the end of the chain. */
    method LinkNth(cur: word, isLast: bool, ghost left: nat, ghost target: seq<word>) returns (next: word)
      requires Valid() && left > 0 && isLast == (left == 1) && Unfinished(D().fat1, Hi(D()), cur, left, target)
      modifies `img
      ensures Valid() && D() == old(D()).(fat1 := D().fat1)
      ensures if isLast then D().fat1 == target else Unfinished(D().fat1, Hi(old(D())), next, left - 1, target)
    {
      UnfinishedStep(D().fat1, Hi(D()), cur, left, target);
      next := LinkNext(cur);
      if isLast {
        var _ := ClusterIsEmpty(next, END);
      }
    }

    /** The extension loop of write_path. */
    method ExtendChain(last: word, required: nat, ghost target: seq<word>)
      requires Valid() && required > 0 && Unfinished(D().fat1, Hi(D()), last, required, target)
      modifies `img
      ensures Valid() && D() == old(D()).(fat1 := target)
    {
      ghost var d, hi := D(), Hi(D());
      var cur := last;
      var a := 1;
      ghost var left := required;
      while a <= required
        invariant Valid() && left == required + 1 - a >= 0 && D() == d.(fat1 := D().fat1)
        invariant if left > 0 then Unfinished(D().fat1, hi, cur, left, target) else D().fat1 == target
      {
        cur := LinkNth(cur, a == required, left, target);
        a, left := a + 1, left - 1;
      }
    }

    /** Write a chunk at offset o of cluster c. */
    method WriteChunk(c: word, o: nat, chunk: seq<byte>)
      requires Valid() && g.IsCluster(c) && o + |chunk| <= g.ClusterBytes()
      modifies `img
      ensures Valid() && D() == old(D()).(data := Poked(old(D()).data, c, o, chunk))
    {
      WriteCluster(g, img, c, o, chunk);
      FirstSectorIs(c);
      DataSectorPos(g, c, 0);
      WriteAt(FirstSector(c) * SECTOR + o, chunk);
    }

    /** The offset modulo the cluster size. */
    method InCluster(offset: nat) returns (o: nat)
      requires Valid()
      ensures o == Rest(offset, g.ClusterBytes()) < g.ClusterBytes()
    {
      ghost var _ := RestDivision(offset, g.ClusterBytes());
      RestIs(offset, g.ClusterBytes());
      o := offset % (g.sectorsPerCluster * SECTOR);
    }

    /** Write at offset o of cluster c, and over its end if the buffer is too long. */
    method WriteAcross(c: word, o: nat, buf: seq<byte>)
      requires Valid() && g.IsCluster(c) && o <= g.ClusterBytes()
      modifies `img
      ensures Valid() && D() == old(D()).(data := D().data)
      ensures Spilled(old(D()).data, D().data, g.ClusterBytes(), c, o, buf)
    {
      WriteSpill(g, img, c, o, buf);
      FirstSectorIs(c);
      DataSectorPos(g, c, 0);
      WriteAt(FirstSector(c) * SECTOR + o, buf);
    }

    /** edit_size, which finds the entry in slot again, whether or not its size has been set before. */
    method SetSize(n: seq<byte>, total: dword, ghost root: seq<Entry>, ghost slot: nat, ghost t: dword,
                   ghost begun: bool)
      requires Valid() && ShowsFirst(root, n, slot) && D().root == RootAt(root, slot, t, begun)
      modifies `img
      ensures Valid() && D() == old(D()).(root := RootAt(root, slot, total, true))
    {
      ShowsFirstIs(root, n, slot);
      if begun {
        PatchedAgain(root, n, 28, DWordBytes(t), DWordBytes(total));
      }
      EditSize(n, total);
    }

    /** fwrite of a chunk at the beginning of cluster c, followed by edit_size. */
    method WriteAndSize(c: word, chunk: seq<byte>, n: seq<byte>, total: dword,
                        ghost root: seq<Entry>, ghost slot: nat, ghost t: dword, ghost begun: bool)
      requires Valid() && g.IsCluster(c) && |chunk| <= g.ClusterBytes()
      requires ShowsFirst(root, n, slot) && D().root == RootAt(root, slot, t, begun)
      modifies `img
      ensures Valid()
      ensures D() == old(D()).(data := Poked(old(D()).data, c, 0, chunk), root := RootAt(root, slot, total, true))
    {
      WriteChunk(c, 0, chunk);
      SetSize(n, total, root, slot, t, begun);
    }

    /** One pass of the writing loop: chunk i goes to its cluster. */
    method WriteNth(n: seq<byte>, buf: seq<byte>, offset: nat, i: nat, pos: nat, length: nat, cluster: word,
                    ghost d1: Disk, ghost job: Job, ghost root: seq<Entry>, ghost slot: nat, ghost begun: bool)
      requires Valid() && job.bytes == g.ClusterBytes() && job.buf == buf && job.Fits(d1.data)
      requires ShowsFirst(root, n, slot)
      requires i < job.count && pos == job.Pos(i) && length == ChunkLength(i, job.count, job.tail, job.bytes)
      requires cluster == job.cs[job.k0 + i] && Midway(d1, job, root, slot, offset, begun, i, D())
      modifies `img
      ensures Valid() && pos + length == job.Pos(i + 1) && Midway(d1, job, root, slot, offset, begun, i + 1, D())
    {
      ghost var d := D();
      MidwayReady(d1, job, root, slot, offset, begun, i, d, pos, length);
      var chunk, total := buf[pos..pos + length], offset + pos + length;
      WriteAndSize(cluster, chunk, n, total, root, slot, offset + pos, begun || i > 0);
      MidwayNext(d1, job, root, slot, offset, begun, i, d, pos, length, chunk, total, D());
    }

    /** The loop that writes chunks cluster by cluster, following the chain from cluster c on. */
    method WriteClusters(n: seq<byte>, c: word, buf: seq<byte>, offset: nat, required: nat, tail: nat,
                         ghost job: Job, ghost root: seq<Entry>, ghost slot: nat, ghost begun: bool)
      requires Valid() && job.Fits(D().data) && IsChain(D().fat1, Hi(D()), job.cs) && c == job.cs[job.k0]
      requires job.bytes == g.ClusterBytes() && job.buf == buf && job.count == required && job.tail == tail
      requires ShowsFirst(root, n, slot) && offset + |buf| <= MAX_SIZE && D().root == RootAt(root, slot, offset, begun)
      modifies `img
      ensures Valid() && Midway(old(D()), job, root, slot, offset, begun, required, D())
    {
      ghost var d1 := D();
      MidwayStart(d1, job, root, slot, offset, begun);
      var cluster := c;
      var fatVal := NextOf(cluster);
      job.Begins(d1.fat1, Hi(d1), cluster, fatVal);
      var i, pos := 0, 0;
      while i < required
        invariant Valid() && 0 <= i <= required && pos == job.Pos(i)
        invariant Midway(d1, job, root, slot, offset, begun, i, D())
        invariant job.At(d1.fat1, i, cluster, fatVal)
      {
        var length := if i == required - 1 then tail else g.sectorsPerCluster * SECTOR;
        WriteNth(n, buf, offset, i, pos, length, cluster, d1, job, root, slot, begun);
        var next := NextOf(fatVal);
        job.Along(d1.fat1, Hi(d1), i, cluster, fatVal, next);
        pos, cluster, fatVal, i := pos + length, fatVal, next, i + 1;
      }
    }

    /**
      No new cluster is required: the whole buffer goes into the last cluster, whatever the offset, and over its end.
     */
    method WriteInLast(n: seq<byte>, last: word, offset: nat, buf: seq<byte>, ghost slot: nat, ghost cs: seq<nat>)
      requires Valid() && IsChain(D().fat1, Hi(D()), cs) && last == cs[|cs| - 1] && ShowsFirst(D().root, n, slot)
      requires offset + |buf| <= MAX_SIZE
      modifies `img
      ensures Valid() && WroteInLast(old(D()), D(), slot, g.ClusterBytes(), cs, offset, buf)
    {
      ghost var d := D();
      ChainAt(d.fat1, Hi(d), cs, |cs| - 1);
      var o := InCluster(offset);
      WriteAcross(last, o, buf);
      SetSize(n, offset + |buf|, d.root, slot, 0, false);
    }

    /** How many chunks a multi-cluster write of size bytes has, and the length of the last one. */
    method Chunks(size: nat) returns (required: nat, tail: nat)
      requires Valid() && size > 0
      ensures required == Need(size, g.ClusterBytes()) && tail == size % g.ClusterBytes()
    {
      required := (size - 1) / (g.sectorsPerCluster * SECTOR) + 1;
      NeedIsQuotient(size, g.ClusterBytes());
      tail := size % (g.sectorsPerCluster * SECTOR);
    }

    /** The chain has grown and the write starts on a cluster boundary: in the last old cluster if the file is empty. */
    method WriteAligned(n: seq<byte>, last: word, fileSize: nat, offset: nat, buf: seq<byte>,
                        ghost slot: nat, ghost all: seq<nat>, ghost len: nat)
      requires Valid() && Prepared(D(), slot, g.ClusterBytes(), all, offset, |buf|, len)
      requires Rest(offset, g.ClusterBytes()) == 0
      requires ShowsFirst(D().root, n, slot) && last == all[len - 1] && fileSize == FileSize(D().root[slot])
      modifies `img
      ensures Valid() && Finished(old(D()), D(), slot, g.ClusterBytes(), all, offset, buf, len)
    {
      ghost var d, bytes := D(), g.ClusterBytes();
      var required, tail := Chunks(|buf|);
      ghost var job := Job(bytes, all, if fileSize == 0 then len - 1 else len, buf, required, tail);
      AlignedFits(d, slot, bytes, all, offset, buf, len, job, fileSize == 0);
      var c := last;
      if fileSize != 0 {
        ChainAt(d.fat1, Hi(d), all, len - 1);
        c := FatEntryByCluster(last);
      }
      WriteClusters(n, c, buf, offset, required, tail, job, d.root, slot, false);
      AlignedFinished(d, D(), slot, bytes, all, offset, buf, len, job);
    }

    /** The chain has grown and the write starts inside a cluster: the rest of the old last one is filled first. */
    method WriteUnaligned(n: seq<byte>, last: word, offset: nat, buf: seq<byte>,
                          ghost slot: nat, ghost all: seq<nat>, ghost len: nat)
      requires Valid() && Prepared(D(), slot, g.ClusterBytes(), all, offset, |buf|, len)
      requires Rest(offset, g.ClusterBytes()) > 0
      requires ShowsFirst(D().root, n, slot) && last == all[len - 1]
      modifies `img
      ensures Valid() && Finished(old(D()), D(), slot, g.ClusterBytes(), all, offset, buf, len)
    {
      ghost var d := D();
      var head := FillLast(n, last, offset, buf, slot, all, len);
      if head == |buf| {
        NothingLeft(d, D(), slot, all, offset, buf, len);
      } else {
        WriteBeyond(n, last, offset, buf, head, d, slot, all, len);
      }
    }

    /** The rest of the last cluster has taken it all: the program counts no chunks. */
    lemma NothingLeft(d: Disk, d': Disk, slot: nat, all: seq<nat>, offset: nat, buf: seq<byte>, len: nat)
      requires Valid() && Prepared(d, slot, g.ClusterBytes(), all, offset, |buf|, len)
      requires Rest(offset, g.ClusterBytes()) > 0 && Rest(offset, g.ClusterBytes()) + |buf| == g.ClusterBytes()
      requires 2 <= all[len - 1] < Hi(d)
      requires d' == d.(data := Poked(d.data, all[len - 1], Rest(offset, g.ClusterBytes()), buf[..|buf|]),
                        root := RootAt(d.root, slot, offset + |buf|, true))
      ensures WrappedChunks(g.sectorsPerCluster * SECTOR) <= 0
      ensures Finished(d, d', slot, g.ClusterBytes(), all, offset, buf, len)
    {
      NoWrappedChunks(g.sectorsPerCluster);
      assert buf[..|buf|] == buf;
      HeadFinished(d, d', slot, g.ClusterBytes(), all, offset, buf, len);
    }

    /** The first head bytes have filled the old last cluster; what remains goes to the new ones. */
    method WriteBeyond(n: seq<byte>, last: word, offset: nat, buf: seq<byte>, head: nat,
                       ghost d: Disk, ghost slot: nat, ghost all: seq<nat>, ghost len: nat)
      requires Valid() && Prepared(d, slot, g.ClusterBytes(), all, offset, |buf|, len) && last == all[len - 1]
      requires Rest(offset, g.ClusterBytes()) > 0 && Rest(offset, g.ClusterBytes()) + head == g.ClusterBytes()
      requires head < |buf| && ShowsFirst(d.root, n, slot) && 2 <= last < Hi(d)
      requires D() == d.(data := Poked(d.data, last, Rest(offset, g.ClusterBytes()), buf[..head]),
                         root := RootAt(d.root, slot, offset + head, true))
      modifies `img
      ensures Valid() && Finished(d, D(), slot, g.ClusterBytes(), all, offset, buf, len)
    {
      ghost var d1, bytes := D(), g.ClusterBytes();
      var required, tail := Chunks(|buf| - head);
      ghost var job := Job(bytes, all, len, buf[head..], required, tail);
      UnalignedFits(d, d1.data, slot, bytes, all, offset, buf, len, head, job);
      ChainAt(d.fat1, Hi(d), all, len - 1);
      var c := NextOf(last);
      WriteClusters(n, c, buf[head..], offset + head, required, tail, job, d.root, slot, true);
      UnalignedFinished(d, d1, D(), slot, bytes, all, offset, buf, len, head, job);
    }

    /** Fill the rest of the old last cluster. */
    method FillLast(n: seq<byte>, last: word, offset: nat, buf: seq<byte>,
                    ghost slot: nat, ghost all: seq<nat>, ghost len: nat)
      returns (head: nat)
      requires Valid() && Prepared(D(), slot, g.ClusterBytes(), all, offset, |buf|, len)
      requires Rest(offset, g.ClusterBytes()) > 0
      requires ShowsFirst(D().root, n, slot) && last == all[len - 1]
      modifies `img
      ensures Valid() && Rest(offset, g.ClusterBytes()) + head == g.ClusterBytes() && head <= |buf|
      ensures 2 <= last < Hi(old(D()))
      ensures D() == old(D()).(data := Poked(old(D()).data, last, Rest(offset, g.ClusterBytes()), buf[..head]),
                               root := RootAt(old(D()).root, slot, offset + head, true))
    {
      ghost var d := D();
      ChainAt(d.fat1, Hi(d), all, len - 1);
      var o := InCluster(offset);
      head := g.sectorsPerCluster * SECTOR - o;
      WriteChunk(last, o, buf[..head]);
      SetSize(n, offset + head, d.root, slot, 0, false);
    }

    /** Extend the chain if the write needs it. */
    method GrowChain(last: word, count: nat, total: nat, ghost cs: seq<nat>) returns (required: int)
      requires Valid() && total > 0 && IsChain(D().fat1, Hi(D()), cs) && count == |cs| && last == cs[|cs| - 1]
      requires HasRoom(D(), cs, Extra(total, |cs|, g.ClusterBytes()))
      modifies `img
      ensures Valid() && D() == old(D()).(fat1 := Grown(old(D()), cs, Extra(total, |cs|, g.ClusterBytes())))
      ensures required > 0 <==> Extra(total, |cs|, g.ClusterBytes()) > 0
    {
      ghost var d := D();
      ChainAt(d.fat1, Hi(d), cs, |cs| - 1);
      var clusterCount := (total - 1) / (g.sectorsPerCluster * SECTOR) + 1;
      required := clusterCount - count;
      NeedIsQuotient(total, g.ClusterBytes());
      if required > 0 {
        GrownUnfinished(d, cs, required);
        ExtendChain(last, required, Grown(d, cs, required));
      }
    }

    /** The chain has grown. */
    method WriteGrown(n: seq<byte>, last: word, offset: nat, buf: seq<byte>, ghost slot: nat, ghost all: seq<nat>,
                      ghost len: nat)
      requires Valid() && Prepared(D(), slot, g.ClusterBytes(), all, offset, |buf|, len) && last == all[len - 1]
      requires Finds(D().root, n, slot)
      modifies `img
      ensures Valid() && Finished(old(D()), D(), slot, g.ClusterBytes(), all, offset, buf, len)
    {
      var e := FindFile(n);
      var o := InCluster(offset);
      if o == 0 {
        WriteAligned(n, last, FileSize(e.value), offset, buf, slot, all, len);
      } else {
        WriteUnaligned(n, last, offset, buf, slot, all, len);
      }
    }

    /**
      When the chunks of a write outnumber the clusters of the chain, the next one is for "cluster" 0xffff, whose
      16-bit sector
      number lies three clusters before the data area, or wraps around if there are not that many sectors.
     */
    lemma EndSectorIs()
      requires Valid()
      ensures FirstSector(END) == g.dataSector - 3 * g.sectorsPerCluster
                                  + if 3 * g.sectorsPerCluster <= g.dataSector then 0 else 0x1_0000
    {
      Regions(g);
      EndSector(g.sectorsPerCluster, g.dataSector);
    }

    /**
      If it does not wrap, the chunk goes to no cluster, but over what comes before them: in the root directory, over
      its entries
      from the first one of that sector on.
     */
    lemma OffChain(chunk: seq<byte>)
      requires Valid() && 3 * g.sectorsPerCluster <= g.dataSector && |chunk| <= g.ClusterBytes()
      ensures FirstSector(END) * SECTOR + |chunk| <= g.ClusterPos(2) <= |img|
      ensures Fits(g, Splice(img, FirstSector(END) * SECTOR, chunk))
      ensures var d' := Abs(g, Splice(img, FirstSector(END) * SECTOR, chunk));
              && d'.data == D().data
              && forall i :: 0 <= i < g.rootEntries ==>
                   d'.root[i] == Hit(D().root[i], FirstSector(END) * SECTOR - g.RootPos(i), chunk)
      ensures g.rootSector <= FirstSector(END) ==>
                g.RootPos(16 * (FirstSector(END) - g.rootSector)) == FirstSector(END) * SECTOR
    {
      Regions(g);
      ClusterAreaInside(g);
      EndSectorIs();
      DataFrame(g, img, FirstSector(END) * SECTOR, chunk);
      RootHit(g, img, FirstSector(END) * SECTOR, chunk);
    }

    /** write_path, for a root-level file: a write of any length at any offset whose chunks stay in the file's chain. */
    method WritePath(n: seq<byte>, offset: nat, buf: seq<byte>, ghost slot: nat, ghost cs: seq<nat>) returns (r: nat)
      requires Valid() && Finds(D().root, n, slot) && Writable(D(), g.ClusterBytes(), offset, |buf|, slot, cs)
      modifies `img
      ensures Valid() && r == |buf| && Wrote(old(D()), slot, cs, g.ClusterBytes(), offset, buf, D())
    {
      ghost var d, bytes := D(), g.ClusterBytes();
      var e := FindFile(n);
      var count, last := CountClusters(FirstCluster(e.value), cs);
      var required := GrowChain(last, count, |buf| + offset, cs);
      if required <= 0 {
        WriteInLast(n, last, offset, buf, slot, cs);
        InLastWrote(d, slot, cs, bytes, offset, buf, D());
      } else {
        GrownPrepared(d, slot, cs, bytes, offset, |buf|);
        WriteGrown(n, last, offset, buf, slot, cs + Added(d, cs, Extra(offset + |buf|, |cs|, bytes)), |cs|);
        FinishedWrote(d, slot, cs, bytes, offset, buf, D());
      }
      r := |buf|;
    }

    /** find_root for a root-level path. */
    method FindFile(n: seq<byte>) returns (r: Option<Entry>)
      requires Valid() && Encode(n).Some? && Encode(n).value[0] != 0
      ensures r == FirstHit(D().root, Encode(n).value, true, true)
    {
      var names, _ := SplitPath([n]);
      EncodeSingle(n);
      r := FindRoot(names.value);
    }
  }
}
