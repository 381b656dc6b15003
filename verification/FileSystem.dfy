/**
  What the program is for: a FAT16 volume, seen through its root directory, is a map
  from file names to byte strings.  The invariant of such volumes, the map they
  represent, and what creating, writing and removing a file do to both.
 */
module FileSystem {
  import opened Bytes
  import opened Layout
  import opened Chains
  import opened Names
  import opened Directory
  import opened Writes
  import opened WriteLaws
  import opened Volumes

  // ----- the files of a disk

  /** An entry that stands for a file: in use, not deleted, not a directory or label. */
  predicate Live(e: Entry) { e[0] != 0 && e[0] != DELETED && Attr(e) == ATTR_ARCHIVE }

  /** The entry's name is a lower-case 8.3 name, stored in canonical form. */
  predicate Named(e: Entry) { ValidName(Shown(e)) && Encode(Shown(e)) == Some(Name(e)) }

  ghost predicate Chained(d: Disk, i: nat)
    requires Sound(d) && i < |d.root|
  {
    HasChain(d.fat1, Hi(d), FirstCluster(d.root[i]))
  }

  /** The clusters of the file in slot i. */
  ghost function Chain(d: Disk, i: nat): (cs: seq<nat>)
    requires Sound(d) && i < |d.root| && Chained(d, i)
    ensures IsChain(d.fat1, Hi(d), cs) && cs[0] == FirstCluster(d.root[i])
  {
    ChainOf(d.fat1, Hi(d), FirstCluster(d.root[i]))
  }

  lemma ChainIs(d: Disk, i: nat, cs: seq<nat>)
    requires Sound(d) && i < |d.root| && IsChain(d.fat1, Hi(d), cs) && cs[0] == FirstCluster(d.root[i])
    ensures Chained(d, i) && Chain(d, i) == cs
  {
    ChainOfIs(d.fat1, Hi(d), cs);
  }

  ghost predicate Disjoint(a: seq<nat>, b: seq<nat>) { forall c :: c in a ==> c !in b }

  /** A file has a chain, long enough for its size. */
  ghost predicate FileOk(d: Disk, bytes: nat, i: nat)
    requires Sound(d) && i < |d.root| && bytes > 0
  {
    Chained(d, i) && FileSize(d.root[i]) <= Span(|Chain(d, i)|, bytes)
  }

  /** Terminators are a suffix of the directory. */
  ghost predicate ZeroSuffix(root: seq<Entry>)
  {
    forall i, j :: 0 <= i < j < |root| && root[i][0] == 0 ==> root[j][0] == 0
  }

  /** No other entry shows the name of a live one. */
  ghost predicate UniqueNames(root: seq<Entry>)
  {
    forall i, j {:trigger Live(root[i]), Shown(root[j])} ::
      0 <= i < |root| && 0 <= j < |root| && i != j && Live(root[i]) ==> Shown(root[j]) != Shown(root[i])
  }

  ghost predicate AllNamed(root: seq<Entry>)
  {
    forall i {:trigger Named(root[i])} :: 0 <= i < |root| && Live(root[i]) ==> Named(root[i])
  }

  ghost predicate AllOk(d: Disk, bytes: nat)
    requires Sound(d) && bytes > 0
  {
    forall i {:trigger Live(d.root[i])} :: 0 <= i < |d.root| && Live(d.root[i]) ==> FileOk(d, bytes, i)
  }

  /** Distinct files own distinct clusters. */
  ghost predicate Separate(d: Disk)
    requires Sound(d)
  {
    forall i, j {:trigger Live(d.root[i]), Live(d.root[j])} ::
      (0 <= i < |d.root| && 0 <= j < |d.root| && i != j && Live(d.root[i]) && Live(d.root[j])
       && Chained(d, i) && Chained(d, j)) ==> Disjoint(Chain(d, i), Chain(d, j))
  }

  /** What is free in the first table is free in the second. */
  ghost predicate MirrorFree(d: Disk)
    requires Sound(d)
  {
    forall c :: 0 <= c < |d.fat1| && d.fat1[c] == 0 ==> d.fat2[c] == 0
  }

  ghost predicate Inv(d: Disk, bytes: nat)
  {
    && Sound(d) && 0 < bytes <= 255 * SECTOR && Uniform(d.data, bytes)
    && ZeroSuffix(d.root) && UniqueNames(d.root) && AllNamed(d.root)
    && AllOk(d, bytes) && Separate(d) && MirrorFree(d)
  }

  /** The file in slot i: the bytes of its clusters and its size. */
  ghost function Store(d: Disk, i: nat): File
    requires Sound(d) && i < |d.root| && Chained(d, i)
  {
    ChainReadable(d.fat1, Hi(d), Chain(d, i), d.data);
    File(|Chain(d, i)|, Gather(d.data, Chain(d, i)), FileSize(d.root[i]))
  }

  lemma StoreOk(d: Disk, bytes: nat, i: nat)
    requires Sound(d) && bytes > 0 && Uniform(d.data, bytes) && i < |d.root| && FileOk(d, bytes, i)
    ensures Store(d, i).Ok(bytes)
  {
    ChainReadable(d.fat1, Hi(d), Chain(d, i), d.data);
    GatherLength(d.data, bytes, Chain(d, i));
  }

  // ----- finding a live file

  lemma LiveShownFirst(d: Disk, bytes: nat, i: nat)
    requires Inv(d, bytes) && i < |d.root| && Live(d.root[i])
    ensures ShowsFirst(d.root, Shown(d.root[i]), i) && ShownSlot(d.root, Shown(d.root[i])) == i
  {
    ShowsFirstIs(d.root, Shown(d.root[i]), i);
  }

  /** The lookup by encoded name finds the live file itself. */
  lemma LiveFound(d: Disk, bytes: nat, i: nat)
    requires Inv(d, bytes) && i < |d.root| && Live(d.root[i])
    ensures Encode(Shown(d.root[i])) == Some(Name(d.root[i]))
    ensures FirstHit(d.root, Name(d.root[i]), true, true) == Some(d.root[i])
  {
    assert Named(d.root[i]);
    forall j | 0 <= j < i
      ensures d.root[j][0] != 0 && !Matches(d.root[j], Name(d.root[i]), true, true)
    {
      assert Shown(d.root[j]) != Shown(d.root[i]);
    }
    FirstHitIs(d.root, Name(d.root[i]), true, true, 0, i);
  }

  // ----- the map

  ghost function FileNames(root: seq<Entry>): set<seq<byte>>
  {
    set i | 0 <= i < |root| && Live(root[i]) :: Shown(root[i])
  }

  /** The map from names to files that a disk represents. */
  ghost function Stores(d: Disk, bytes: nat): map<seq<byte>, File>
    requires Inv(d, bytes)
  {
    map n | n in FileNames(d.root) :: NamedStore(d, bytes, n)
  }

  ghost function NamedStore(d: Disk, bytes: nat, n: seq<byte>): File
    requires Inv(d, bytes) && n in FileNames(d.root)
  {
    SlotOfName(d, bytes, n);
    Store(d, ShownSlot(d.root, n))
  }

  /** The contents of the files. */
  function Contents(fs: map<seq<byte>, File>): map<seq<byte>, seq<byte>>
  {
    map n | n in fs :: fs[n].Content()
  }

  /** The numbers of clusters and the sizes of the files. */
  function Shapes(fs: map<seq<byte>, File>): map<seq<byte>, Shape>
  {
    map n | n in fs :: fs[n].Outline()
  }

  lemma ContentsUpdate(fs: map<seq<byte>, File>, n: seq<byte>, f: File)
    ensures Contents(fs[n := f]) == Contents(fs)[n := f.Content()] && Shapes(fs[n := f]) == Shapes(fs)[n := f.Outline()]
  {
  }

  lemma ContentsRemove(fs: map<seq<byte>, File>, n: seq<byte>)
    ensures Contents(fs - {n}) == Contents(fs) - {n} && Shapes(fs - {n}) == Shapes(fs) - {n}
  {
  }

  lemma SlotOfName(d: Disk, bytes: nat, n: seq<byte>)
    requires Inv(d, bytes) && n in FileNames(d.root)
    ensures ShownSlot(d.root, n) < |d.root| && Live(d.root[ShownSlot(d.root, n)])
    ensures Shown(d.root[ShownSlot(d.root, n)]) == n && FileOk(d, bytes, ShownSlot(d.root, n))
  {
    var i :| 0 <= i < |d.root| && Live(d.root[i]) && Shown(d.root[i]) == n;
    LiveShownFirst(d, bytes, i);
  }

  lemma StoresAt(d: Disk, bytes: nat, i: nat)
    requires Inv(d, bytes) && i < |d.root| && Live(d.root[i])
    ensures FileOk(d, bytes, i) && Shown(d.root[i]) in Stores(d, bytes)
    ensures Stores(d, bytes)[Shown(d.root[i])] == Store(d, i) && Store(d, i).Ok(bytes)
  {
    LiveShownFirst(d, bytes, i);
    StoreOk(d, bytes, i);
  }

  // ----- a file that an operation does not touch

  /** The disks agree on the clusters cs in the first table. */
  ghost predicate LinksAgree(d: Disk, d': Disk, cs: seq<nat>)
  {
    && |d'.fat1| == |d.fat1| && |d'.data| == |d.data|
    && forall c :: c in cs && 2 <= c < Hi(d) && c < |d.fat1| ==> d'.fat1[c] == d.fat1[c]
  }

  /** The disks agree on the bytes of the clusters cs. */
  ghost predicate BytesAgree(d: Disk, d': Disk, cs: seq<nat>)
  {
    |d'.data| == |d.data| && forall c :: c in cs && 2 <= c < Hi(d) ==> d'.data[c - 2] == d.data[c - 2]
  }

  lemma UntouchedChain(d: Disk, d': Disk, i: nat)
    requires Sound(d) && Sound(d') && i < |d.root| == |d'.root| && d'.root[i] == d.root[i]
    requires Chained(d, i) && LinksAgree(d, d', Chain(d, i))
    ensures Chained(d', i) && Chain(d', i) == Chain(d, i)
  {
    ChainFrame(d.fat1, d'.fat1, Hi(d), Chain(d, i));
    ChainIs(d', i, Chain(d, i));
  }

  lemma UntouchedBytes(d: Disk, d': Disk, cs: seq<nat>)
    requires Sound(d) && Sound(d') && IsChain(d.fat1, Hi(d), cs) && BytesAgree(d, d', cs)
    ensures Readable(d.data, cs) && Readable(d'.data, cs) && Gather(d'.data, cs) == Gather(d.data, cs)
  {
    ChainReadable(d.fat1, Hi(d), cs, d.data);
    forall i | 0 <= i < |cs|
      ensures d'.data[cs[i] - 2] == d.data[cs[i] - 2]
    {
      assert cs[i] in cs;
    }
    GatherFrame(d.data, d'.data, cs);
  }

  /** Names are unique after the name of one entry has changed to one that no other entry shows. */
  lemma RenamedUnique(root: seq<Entry>, s: nat, e: Entry)
    requires UniqueNames(root) && s < |root|
    requires forall j {:trigger Shown(root[j])} :: 0 <= j < |root| && j != s && (Live(e) || Live(root[j])) ==>
              Shown(root[j]) != Shown(e)
    ensures UniqueNames(root[s := e])
  {
    var root' := root[s := e];
    forall i, j {:trigger Live(root'[i]), Shown(root'[j])} |
      0 <= i < |root| && 0 <= j < |root| && i != j && Live(root'[i])
      ensures Shown(root'[j]) != Shown(root'[i])
    {
      if i == s {
        assert Shown(root[j]) != Shown(e);
      } else if j == s {
        assert Shown(root[i]) != Shown(e);
      } else {
        assert Live(root[i]);
        assert Shown(root[j]) != Shown(root[i]);
      }
    }
  }

  lemma AllNamedAfter(root: seq<Entry>, s: nat, e: Entry)
    requires AllNamed(root) && s < |root| && (Live(e) ==> Named(e))
    ensures AllNamed(root[s := e])
  {
    var root' := root[s := e];
    forall i {:trigger Named(root'[i])} | 0 <= i < |root'| && Live(root'[i])
      ensures Named(root'[i])
    {
      if i != s {
        assert Named(root[i]);
      }
    }
  }

  // ----- an operation on the file in one slot

  /** d' differs from d in slot s, and not in the links of any other file. */
  ghost predicate OnlyAt(d: Disk, d': Disk, bytes: nat, s: nat)
    requires Inv(d, bytes)
  {
    && Sound(d') && |d'.root| == |d.root|
    && (forall j :: 0 <= j < |d.root| && j != s ==> d'.root[j] == d.root[j])
    && forall j {:trigger Live(d.root[j])} :: 0 <= j < |d.root| && j != s && Live(d.root[j]) ==>
         FileOk(d, bytes, j) && LinksAgree(d, d', Chain(d, j))
  }

  /** Nor in its bytes. */
  ghost predicate OthersBytes(d: Disk, d': Disk, bytes: nat, s: nat)
    requires Inv(d, bytes)
  {
    forall j {:trigger Live(d.root[j])} :: 0 <= j < |d.root| && j != s && Live(d.root[j]) ==>
      Chained(d, j) && BytesAgree(d, d', Chain(d, j))
  }

  lemma OthersKept(d: Disk, d': Disk, bytes: nat, s: nat, j: nat)
    requires Inv(d, bytes) && OnlyAt(d, d', bytes, s) && j < |d.root| && j != s && Live(d'.root[j])
    ensures Live(d.root[j]) && FileOk(d, bytes, j) && FileOk(d', bytes, j) && Chain(d', j) == Chain(d, j)
    ensures d'.root[j] == d.root[j]
  {
    assert Live(d.root[j]);
    UntouchedChain(d, d', j);
  }

  lemma OthersStored(d: Disk, d': Disk, bytes: nat, s: nat, j: nat)
    requires Inv(d, bytes) && OnlyAt(d, d', bytes, s) && j < |d.root| && j != s && Live(d'.root[j])
    ensures Live(d.root[j]) && Chained(d, j) && Chained(d', j) && Store(d', j).Outline() == Store(d, j).Outline()
    ensures OthersBytes(d, d', bytes, s) ==> Store(d', j) == Store(d, j)
  {
    OthersKept(d, d', bytes, s, j);
    if OthersBytes(d, d', bytes, s) {
      assert Live(d.root[j]);
      UntouchedBytes(d, d', Chain(d, j));
    }
  }

  /** The clusters of the file in slot s are in no chain of another file of d. */
  ghost predicate Apart(d: Disk, cs: seq<nat>, s: nat)
    requires Sound(d)
  {
    forall j {:trigger Live(d.root[j])} :: 0 <= j < |d.root| && j != s && Live(d.root[j]) ==>
      Chained(d, j) && Disjoint(Chain(d, j), cs) && Disjoint(cs, Chain(d, j))
  }

  /** The invariant after such an operation, from what holds of the slot itself. */
  lemma OnlyAtInv(d: Disk, d': Disk, bytes: nat, s: nat)
    requires Inv(d, bytes) && OnlyAt(d, d', bytes, s) && s < |d.root| && Uniform(d'.data, bytes)
    requires ZeroSuffix(d'.root) && UniqueNames(d'.root) && AllNamed(d'.root) && MirrorFree(d')
    requires Live(d'.root[s]) ==> FileOk(d', bytes, s) && Apart(d, Chain(d', s), s)
    ensures Inv(d', bytes)
  {
    forall i {:trigger Live(d'.root[i])} | 0 <= i < |d'.root| && Live(d'.root[i])
      ensures FileOk(d', bytes, i) && (i != s ==> Live(d.root[i]) && Chain(d', i) == Chain(d, i) && Chained(d, i))
    {
      if i != s {
        OthersKept(d, d', bytes, s, i);
      }
    }
    forall i, j {:trigger Live(d'.root[i]), Live(d'.root[j])} |
      0 <= i < |d'.root| && 0 <= j < |d'.root| && i != j && Live(d'.root[i]) && Live(d'.root[j])
      && Chained(d', i) && Chained(d', j)
      ensures Disjoint(Chain(d', i), Chain(d', j))
    {
      ChainsApart(d, d', bytes, s, i, j);
    }
  }

  lemma ChainsApart(d: Disk, d': Disk, bytes: nat, s: nat, i: nat, j: nat)
    requires Inv(d, bytes) && OnlyAt(d, d', bytes, s) && s < |d.root| && i < |d.root| && j < |d.root| && i != j
    requires Live(d'.root[s]) ==> FileOk(d', bytes, s) && Apart(d, Chain(d', s), s)
    requires Live(d'.root[i]) && Live(d'.root[j]) && Chained(d', i) && Chained(d', j)
    ensures Disjoint(Chain(d', i), Chain(d', j))
  {
    if i != s {
      OthersKept(d, d', bytes, s, i);
    }
    if j != s {
      OthersKept(d, d', bytes, s, j);
    }
  }

  /** The name in slot s, if a file lives there. */
  ghost function NameAt(root: seq<Entry>, s: nat): set<seq<byte>>
    requires s < |root|
  {
    if Live(root[s]) then {Shown(root[s])} else {}
  }

  lemma NameElsewhere(d: Disk, d': Disk, bytes: nat, s: nat, k: seq<byte>)
    requires Inv(d, bytes) && Inv(d', bytes) && OnlyAt(d, d', bytes, s) && s < |d.root|
    requires k in FileNames(d'.root) && k !in NameAt(d'.root, s)
    ensures k in FileNames(d.root) && k !in NameAt(d.root, s)
    ensures NamedStore(d', bytes, k).Outline() == NamedStore(d, bytes, k).Outline()
    ensures OthersBytes(d, d', bytes, s) ==> NamedStore(d', bytes, k) == NamedStore(d, bytes, k)
  {
    SlotOfName(d', bytes, k);
    var i := ShownSlot(d'.root, k);
    OthersStored(d, d', bytes, s, i);
    LiveShownFirst(d, bytes, i);
    if Live(d.root[s]) {
      assert Shown(d.root[i]) != Shown(d.root[s]);
    }
  }

  lemma NameStays(d: Disk, d': Disk, bytes: nat, s: nat, k: seq<byte>)
    requires Inv(d, bytes) && OnlyAt(d, d', bytes, s) && s < |d.root|
    requires k in FileNames(d.root) && k !in NameAt(d.root, s)
    ensures k in FileNames(d'.root)
  {
    var i :| 0 <= i < |d.root| && Live(d.root[i]) && Shown(d.root[i]) == k;
    assert Live(d'.root[i]);
  }

  lemma NameHere(d': Disk, bytes: nat, s: nat)
    requires Inv(d', bytes) && s < |d'.root| && Live(d'.root[s])
    ensures Shown(d'.root[s]) in FileNames(d'.root) && FileOk(d', bytes, s)
    ensures NamedStore(d', bytes, Shown(d'.root[s])) == Store(d', s)
  {
    LiveShownFirst(d', bytes, s);
  }

  lemma MapSplit<K, V>(f: map<K, V>, f': map<K, V>, gone: set<K>, file: map<K, V>)
    requires forall k :: k in f' ==> if k in file then f'[k] == file[k] else k in f && k !in gone && f'[k] == f[k]
    requires forall k :: k in file ==> k in f'
    requires forall k :: k in f && k !in gone ==> k in f'
    ensures f' == (f - gone) + file
  {
  }

  lemma MapAdd<K, V>(f: map<K, V>, gone: set<K>, k: K, v: V)
    requires gone <= {k}
    ensures (f - gone) + map[k := v] == f[k := v]
  {
  }

  /** What such an operation does to the maps: the old file of the slot goes, the new one comes. */
  lemma OnlyAtStores(d: Disk, d': Disk, bytes: nat, s: nat, file: map<seq<byte>, File>)
    requires Inv(d, bytes) && Inv(d', bytes) && OnlyAt(d, d', bytes, s) && s < |d.root| && OthersBytes(d, d', bytes, s)
    requires Live(d'.root[s]) ==> Chained(d', s) && file == map[Shown(d'.root[s]) := Store(d', s)]
    requires !Live(d'.root[s]) ==> file == map[]
    ensures Stores(d', bytes) == (Stores(d, bytes) - NameAt(d.root, s)) + file
  {
    var f, f', gone := Stores(d, bytes), Stores(d', bytes), NameAt(d.root, s);
    if Live(d'.root[s]) {
      NameHere(d', bytes, s);
    }
    forall k | k in f'
      ensures if k in file then f'[k] == file[k] else k in f && k !in gone && f'[k] == f[k]
    {
      if k !in file {
        NameElsewhere(d, d', bytes, s, k);
      }
    }
    forall k | k in f && k !in gone
      ensures k in f'
    {
      NameStays(d, d', bytes, s, k);
    }
    MapSplit(f, f', gone, file);
  }

  /** Whatever becomes of bytes, the shapes of other files stay. */
  lemma OnlyAtShapes(d: Disk, d': Disk, bytes: nat, s: nat, file: map<seq<byte>, Shape>)
    requires Inv(d, bytes) && Inv(d', bytes) && OnlyAt(d, d', bytes, s) && s < |d.root|
    requires Live(d'.root[s]) ==> Chained(d', s) && file == map[Shown(d'.root[s]) := Store(d', s).Outline()]
    requires !Live(d'.root[s]) ==> file == map[]
    ensures Shapes(Stores(d', bytes)) == (Shapes(Stores(d, bytes)) - NameAt(d.root, s)) + file
  {
    var f, f', gone := Shapes(Stores(d, bytes)), Shapes(Stores(d', bytes)), NameAt(d.root, s);
    if Live(d'.root[s]) {
      NameHere(d', bytes, s);
    }
    forall k | k in f'
      ensures if k in file then f'[k] == file[k] else k in f && k !in gone && f'[k] == f[k]
    {
      if k !in file {
        NameElsewhere(d, d', bytes, s, k);
      }
    }
    forall k | k in f && k !in gone
      ensures k in f'
    {
      NameStays(d, d', bytes, s, k);
    }
    MapSplit(f, f', gone, file);
  }

  // ----- creating

  ghost predicate CanCreate(d: Disk, n: seq<byte>)
  {
    && Sound(d) && ValidName(n) && NextFree(d.fat1, 2, Hi(d)) < Hi(d)
    && forall j {:trigger Shown(d.root[j])} :: 0 <= j < |d.root| ==> Shown(d.root[j]) != n
  }

  /** The entry that creation puts into the directory. */
  lemma CreatedEntry(d: Disk, n: seq<byte>, time: word, date: word)
    requires CanCreate(d, n) && FreeSlot(d.root) < |d.root|
    ensures Encode(n).Some?
    ensures var s, c := FreeSlot(d.root), NextFree(d.fat1, 2, Hi(d));
            var e := Created(d, n, time, date).root[s];
            && Live(e) && Named(e) && Shown(e) == n && FirstCluster(e) == c && FileSize(e) == 0
            && Created(d, n, time, date) == d.(root := d.root[s := e], fat1 := d.fat1[c := END])
  {
    EncodedBytes(n);
    ShownOfEncoded(n);
    var s, c := FreeSlot(d.root), NextFree(d.fat1, 2, Hi(d));
    var e := NewEntry(Encode(n).value, ATTR_ARCHIVE, time, date, c, 0);
    assert Name(e) == Encode(n).value && e[0] == Name(e)[0];
  }

  /** The new file has a cluster of the volume exactly if the one taken exists, that is, if the volume was not full. */
  lemma CreatedChainedIff(d: Disk, n: seq<byte>, time: word, date: word, c: nat)
    requires Sound(d) && FreeSlot(d.root) < |d.root| && Encode(n).Some? && 2 <= c < |d.fat1| && c < 0x8000
    ensures var d' := CreatedAt(d, n, time, date, c);
            Sound(d') && FreeSlot(d.root) < |d'.root| && (Chained(d', FreeSlot(d.root)) <==> c < Hi(d))
  {
    var d', s := CreatedAt(d, n, time, date, c), FreeSlot(d.root);
    if c < Hi(d) {
      assert IsChain(d'.fat1, Hi(d'), [c]);
      ChainIs(d', s, [c]);
    }
  }

  lemma CreatedOnlyAt(d: Disk, bytes: nat, d': Disk, s: nat, c: nat, e: Entry)
    requires Inv(d, bytes) && s < |d.root| && 2 <= c < Hi(d) && d.fat1[c] == 0 && !Live(d.root[s])
    requires d' == d.(root := d.root[s := e], fat1 := d.fat1[c := END])
    ensures OnlyAt(d, d', bytes, s) && OthersBytes(d, d', bytes, s) && MirrorFree(d') && Apart(d, [c], s)
  {
    forall j {:trigger Live(d.root[j])} | 0 <= j < |d.root| && Live(d.root[j])
      ensures FileOk(d, bytes, j) && c !in Chain(d, j)
    {
      assert FileOk(d, bytes, j);
      NewsOutside(d.fat1, Hi(d), Chain(d, j), [c]);
    }
  }

  lemma CreatedFile(d: Disk, bytes: nat, d': Disk, s: nat, c: nat, e: Entry)
    requires Inv(d, bytes) && s < |d.root| && 2 <= c < Hi(d)
    requires d' == d.(root := d.root[s := e], fat1 := d.fat1[c := END])
    requires FirstCluster(e) == c && FileSize(e) == 0
    ensures Sound(d') && FileOk(d', bytes, s) && Chain(d', s) == [c] && Store(d', s) == File(1, d.data[c - 2], 0)
  {
    assert IsChain(d'.fat1, Hi(d'), [c]);
    ChainIs(d', s, [c]);
    assert [c][1..] == [];
    assert Gather(d'.data, [c]) == d.data[c - 2] + [];
  }

  lemma CreatedInv(d: Disk, bytes: nat, n: seq<byte>, d': Disk, s: nat, c: nat, e: Entry)
    requires Inv(d, bytes) && CanCreate(d, n) && s == FreeSlot(d.root) < |d.root|
    requires 2 <= c < Hi(d) && d.fat1[c] == 0
    requires d' == d.(root := d.root[s := e], fat1 := d.fat1[c := END])
    requires Live(e) && Named(e) && Shown(e) == n && FirstCluster(e) == c && FileSize(e) == 0
    ensures OnlyAt(d, d', bytes, s) && OthersBytes(d, d', bytes, s) && Inv(d', bytes)
  {
    CreatedOnlyAt(d, bytes, d', s, c, e);
    CreatedFile(d, bytes, d', s, c, e);
    RenamedUnique(d.root, s, e);
    AllNamedAfter(d.root, s, e);
    OnlyAtInv(d, d', bytes, s);
  }

  lemma CreatedParts(d: Disk, bytes: nat, n: seq<byte>, time: word, date: word) returns (d': Disk, s: nat, c: nat)
    requires Inv(d, bytes) && CanCreate(d, n) && FreeSlot(d.root) < |d.root|
    ensures d' == Created(d, n, time, date) && s == FreeSlot(d.root) && c == NextFree(d.fat1, 2, Hi(d))
    ensures 2 <= c < Hi(d)
    ensures OnlyAt(d, d', bytes, s) && OthersBytes(d, d', bytes, s) && Inv(d', bytes)
    ensures !Live(d.root[s]) && Live(d'.root[s]) && Shown(d'.root[s]) == n
    ensures Chained(d', s) && Chain(d', s) == [c] && Store(d', s) == File(1, d.data[c - 2], 0)
    ensures d'.fat1 == d.fat1[c := END] && d'.data == d.data
  {
    d' := Created(d, n, time, date);
    s, c := FreeSlot(d.root), NextFree(d.fat1, 2, Hi(d));
    CreatedEntry(d, n, time, date);
    CreatedInv(d, bytes, n, d', s, c, d'.root[s]);
    CreatedFile(d, bytes, d', s, c, d'.root[s]);
  }

  /** Creating a file keeps the invariant and adds one empty file, with the bytes its cluster had, to the map. */
  lemma CreateRefines(d: Disk, bytes: nat, n: seq<byte>, time: word, date: word, d': Disk, c: nat)
    requires Inv(d, bytes) && CanCreate(d, n) && FreeSlot(d.root) < |d.root|
    requires d' == Created(d, n, time, date) && c == NextFree(d.fat1, 2, Hi(d))
    ensures Inv(d', bytes) && |d.data[c - 2]| == bytes
    ensures Stores(d', bytes) == Stores(d, bytes)[n := File(1, d.data[c - 2], 0)]
  {
    var _, s, _ := CreatedParts(d, bytes, n, time, date);
    CreatedStores(d, bytes, n, d', s, File(1, d.data[c - 2], 0));
  }

  /** Whatever its cluster held. */
  lemma CreateSome(d: Disk, bytes: nat, n: seq<byte>, time: word, date: word, d': Disk) returns (ext: seq<byte>)
    requires Inv(d, bytes) && CanCreate(d, n) && FreeSlot(d.root) < |d.root| && d' == Created(d, n, time, date)
    ensures Inv(d', bytes) && |ext| == bytes && Stores(d', bytes) == Stores(d, bytes)[n := File(1, ext, 0)]
  {
    var c := NextFree(d.fat1, 2, Hi(d));
    CreateRefines(d, bytes, n, time, date, d', c);
    ext := d.data[c - 2];
  }

  /** In contents and shapes. */
  lemma CreateMaps(d: Disk, bytes: nat, n: seq<byte>, time: word, date: word, d': Disk)
    requires Inv(d, bytes) && CanCreate(d, n) && FreeSlot(d.root) < |d.root| && d' == Created(d, n, time, date)
    ensures Inv(d', bytes) && Contents(Stores(d', bytes)) == Contents(Stores(d, bytes))[n := []]
    ensures Shapes(Stores(d', bytes)) == Shapes(Stores(d, bytes))[n := Shape(1, 0)]
  {
    var _, s, c := CreatedParts(d, bytes, n, time, date);
    CreatedMaps(d, bytes, n, d', s, File(1, d.data[c - 2], 0));
  }

  lemma CreatedMaps(d: Disk, bytes: nat, n: seq<byte>, d': Disk, s: nat, f: File)
    requires Inv(d, bytes) && Inv(d', bytes) && OnlyAt(d, d', bytes, s) && OthersBytes(d, d', bytes, s) && s < |d.root|
    requires !Live(d.root[s]) && Live(d'.root[s]) && Shown(d'.root[s]) == n && Chained(d', s) && Store(d', s) == f
    requires f.len == 1 && f.size == 0
    ensures Contents(Stores(d', bytes)) == Contents(Stores(d, bytes))[n := []]
    ensures Shapes(Stores(d', bytes)) == Shapes(Stores(d, bytes))[n := Shape(1, 0)]
  {
    CreatedStores(d, bytes, n, d', s, f);
    ContentsUpdate(Stores(d, bytes), n, f);
  }

  lemma CreatedStores(d: Disk, bytes: nat, n: seq<byte>, d': Disk, s: nat, f: File)
    requires Inv(d, bytes) && Inv(d', bytes) && OnlyAt(d, d', bytes, s) && OthersBytes(d, d', bytes, s) && s < |d.root|
    requires !Live(d.root[s]) && Live(d'.root[s]) && Shown(d'.root[s]) == n && Chained(d', s) && Store(d', s) == f
    ensures Stores(d', bytes) == Stores(d, bytes)[n := f]
  {
    OnlyAtStores(d, d', bytes, s, map[n := f]);
    MapAdd(Stores(d, bytes), NameAt(d.root, s), n, f);
  }

  // ----- removing

  ghost predicate IsFile(d: Disk, bytes: nat, n: seq<byte>, s: nat)
    requires Inv(d, bytes)
  {
    s < |d.root| && Live(d.root[s]) && Shown(d.root[s]) == n && FileOk(d, bytes, s)
  }

  /** Both lookups find the file: by encoded name, for its chain, and by decoded name, for its entry. */
  lemma BothFind(d: Disk, bytes: nat, n: seq<byte>, s: nat)
    requires Inv(d, bytes) && IsFile(d, bytes, n, s)
    ensures ValidName(n) && Finds(d.root, n, s)
  {
    assert Named(d.root[s]);
    LiveFound(d, bytes, s);
    LiveShownFirst(d, bytes, s);
    EncodedBytes(n);
  }

  lemma RemovedShape(d: Disk, bytes: nat, n: seq<byte>, s: nat)
    requires Inv(d, bytes) && IsFile(d, bytes, n, s)
    ensures Within(Chain(d, s), |d.fat1|)
    ensures Removed(d, n, Chain(d, s)) == d.(root := d.root[s := Marked(d.root[s])],
                                             fat1 := Freed(d.fat1, Chain(d, s)), fat2 := Freed(d.fat2, Chain(d, s)))
  {
    LiveShownFirst(d, bytes, s);
    ChainWithin(d.fat1, Hi(d), Chain(d, s));
  }

  lemma RemovedOnlyAt(d: Disk, bytes: nat, n: seq<byte>, s: nat, d': Disk)
    requires Inv(d, bytes) && IsFile(d, bytes, n, s) && Within(Chain(d, s), |d.fat1|)
    requires d' == d.(root := d.root[s := Marked(d.root[s])],
                      fat1 := Freed(d.fat1, Chain(d, s)), fat2 := Freed(d.fat2, Chain(d, s)))
    ensures OnlyAt(d, d', bytes, s) && OthersBytes(d, d', bytes, s) && MirrorFree(d') && !Live(d'.root[s])
  {
    forall j {:trigger Live(d.root[j])} | 0 <= j < |d.root| && j != s && Live(d.root[j])
      ensures FileOk(d, bytes, j) && LinksAgree(d, d', Chain(d, j))
    {
      assert Live(d.root[s]) && FileOk(d, bytes, j) && Disjoint(Chain(d, j), Chain(d, s));
    }
    assert d'.root[s][0] == Name(d'.root[s])[0] == DELETED;
  }

  lemma RemovedRoot(d: Disk, bytes: nat, s: nat)
    requires Inv(d, bytes) && s < |d.root| && Live(d.root[s])
    ensures ZeroSuffix(d.root[s := Marked(d.root[s])]) && UniqueNames(d.root[s := Marked(d.root[s])])
    ensures AllNamed(d.root[s := Marked(d.root[s])])
  {
    var e := Marked(d.root[s]);
    assert e[0] == Name(e)[0] == DELETED;
    forall j {:trigger Shown(d.root[j])} | 0 <= j < |d.root| && j != s && (Live(e) || Live(d.root[j]))
      ensures Shown(d.root[j]) != Shown(e)
    {
      assert Named(d.root[j]);
      ShownOfDeleted(Name(e), Shown(d.root[j]));
    }
    RenamedUnique(d.root, s, e);
    AllNamedAfter(d.root, s, e);
  }

  lemma RemovedInv(d: Disk, bytes: nat, n: seq<byte>, s: nat) returns (d': Disk)
    requires Inv(d, bytes) && IsFile(d, bytes, n, s)
    ensures Within(Chain(d, s), |d.fat1|) && d' == Removed(d, n, Chain(d, s))
    ensures d'.fat1 == Freed(d.fat1, Chain(d, s)) && d'.data == d.data
    ensures Inv(d', bytes) && OnlyAt(d, d', bytes, s) && OthersBytes(d, d', bytes, s) && !Live(d'.root[s])
  {
    RemovedShape(d, bytes, n, s);
    d' := Removed(d, n, Chain(d, s));
    RemovedOnlyAt(d, bytes, n, s, d');
    RemovedRoot(d, bytes, s);
    OnlyAtInv(d, d', bytes, s);
  }

  /** Removing a file keeps the invariant and takes the file out of the map. */
  lemma RemoveRefines(d: Disk, bytes: nat, n: seq<byte>, s: nat)
    requires Inv(d, bytes) && IsFile(d, bytes, n, s)
    ensures Within(Chain(d, s), |d.fat1|) && Inv(Removed(d, n, Chain(d, s)), bytes)
    ensures Stores(Removed(d, n, Chain(d, s)), bytes) == Stores(d, bytes) - {n}
  {
    var d' := RemovedInv(d, bytes, n, s);
    OnlyAtStores(d, d', bytes, s, map[]);
  }

  // ----- writing

  /** Since d, the chain of the live file in slot s has grown by k clusters and its size has been set to total. */
  ghost predicate ReshapedAt(d: Disk, bytes: nat, s: nat, k: nat, total: nat, d': Disk)
    requires Inv(d, bytes)
  {
    && s < |d.root| && Live(d.root[s]) && FileOk(d, bytes, s) && Reshaped(d, s, Chain(d, s), bytes, k, total, d')
    && total <= Span(|Chain(d, s)| + k, bytes)
  }

  /** The clusters of the file in slot s once it has k more. */
  ghost function GrownTo(d: Disk, s: nat, k: nat): (all: seq<nat>)
    requires Sound(d) && s < |d.root| && Chained(d, s) && HasRoom(d, Chain(d, s), k)
    ensures |all| == |Chain(d, s)| + k
  {
    Chain(d, s) + Added(d, Chain(d, s), k)
  }

  lemma GrewChain(d: Disk, bytes: nat, s: nat, k: nat, total: nat, d': Disk)
    requires Inv(d, bytes) && ReshapedAt(d, bytes, s, k, total, d')
    ensures Sound(d') && Hi(d') == Hi(d) && |d'.fat1| == |d.fat1| && d'.fat2 == d.fat2
    ensures IsChain(d'.fat1, Hi(d'), GrownTo(d, s, k))
    ensures forall c :: 0 <= c < |d.fat1| && c !in GrownTo(d, s, k) ==> d'.fat1[c] == d.fat1[c]
    ensures Ended(d.fat1, Chain(d, s)) ==> Ended(d'.fat1, GrownTo(d, s, k))
  {
    var mine := Chain(d, s);
    GrownChain(d, mine, k);
    assert mine[|mine| - 1] in GrownTo(d, s, k);
  }

  lemma GrewMirror(d: Disk, bytes: nat, s: nat, k: nat, total: nat, d': Disk)
    requires Inv(d, bytes) && ReshapedAt(d, bytes, s, k, total, d')
    ensures Sound(d') && MirrorFree(d')
  {
    GrewChain(d, bytes, s, k, total, d');
    var all := GrownTo(d, s, k);
    forall c | 0 <= c < |d'.fat1| && d'.fat1[c] == 0
      ensures d'.fat2[c] == 0
    {
      if c in all {
        ChainMember(d'.fat1, Hi(d), all, c);
      }
    }
  }

  /** A chain apart from the file's own keeps its links, wherever it belongs. */
  lemma GrewOutside(d: Disk, bytes: nat, s: nat, k: nat, total: nat, d': Disk, cs: seq<nat>)
    requires Inv(d, bytes) && ReshapedAt(d, bytes, s, k, total, d')
    requires IsChain(d.fat1, Hi(d), cs) && Disjoint(cs, Chain(d, s))
    ensures LinksAgree(d, d', cs) && Disjoint(cs, GrownTo(d, s, k)) && Disjoint(GrownTo(d, s, k), cs)
  {
    AddedIs(d, Chain(d, s), k);
    NewsOutside(d.fat1, Hi(d), cs, Added(d, Chain(d, s), k));
    GrewChain(d, bytes, s, k, total, d');
  }

  lemma GrewApart(d: Disk, bytes: nat, s: nat, k: nat, total: nat, d': Disk)
    requires Inv(d, bytes) && ReshapedAt(d, bytes, s, k, total, d')
    ensures Apart(d, GrownTo(d, s, k), s)
    ensures forall j {:trigger Live(d.root[j])} :: 0 <= j < |d.root| && j != s && Live(d.root[j]) ==>
              FileOk(d, bytes, j) && LinksAgree(d, d', Chain(d, j))
  {
    forall j {:trigger Live(d.root[j])} | 0 <= j < |d.root| && j != s && Live(d.root[j])
      ensures FileOk(d, bytes, j) && LinksAgree(d, d', Chain(d, j))
      ensures Disjoint(Chain(d, j), GrownTo(d, s, k)) && Disjoint(GrownTo(d, s, k), Chain(d, j))
    {
      assert FileOk(d, bytes, j) && Live(d.root[s]);
      GrewOutside(d, bytes, s, k, total, d', Chain(d, j));
    }
  }

  /** The entry and the chain of the file afterwards. */
  lemma GrewEntry(d: Disk, bytes: nat, s: nat, k: nat, total: nat, d': Disk)
    requires Inv(d, bytes) && ReshapedAt(d, bytes, s, k, total, d')
    ensures Sound(d') && |d'.root| == |d.root| && FileOk(d', bytes, s) && Chain(d', s) == GrownTo(d, s, k)
    ensures d'.root == d.root[s := d'.root[s]] && Live(d'.root[s])
    ensures Name(d'.root[s]) == Name(d.root[s]) && FileSize(d'.root[s]) == total
  {
    GrewChain(d, bytes, s, k, total, d');
    ChainIs(d', s, GrownTo(d, s, k));
  }

  lemma GrewRoot(d: Disk, bytes: nat, s: nat, e: Entry)
    requires Inv(d, bytes) && s < |d.root| && Live(d.root[s]) && Live(e) && Name(e) == Name(d.root[s])
    ensures ZeroSuffix(d.root[s := e]) && UniqueNames(d.root[s := e]) && AllNamed(d.root[s := e])
  {
    assert Shown(e) == Shown(d.root[s]) && Named(d.root[s]);
    RenamedUnique(d.root, s, e);
    AllNamedAfter(d.root, s, e);
  }

  /** Every write keeps the invariant, wherever its bytes go. */
  lemma GrewInv(d: Disk, bytes: nat, s: nat, k: nat, total: nat, d': Disk)
    requires Inv(d, bytes) && ReshapedAt(d, bytes, s, k, total, d')
    ensures Inv(d', bytes) && OnlyAt(d, d', bytes, s)
  {
    GrewApart(d, bytes, s, k, total, d');
    GrewEntry(d, bytes, s, k, total, d');
    GrewMirror(d, bytes, s, k, total, d');
    GrewRoot(d, bytes, s, d'.root[s]);
    OnlyAtInv(d, d', bytes, s);
  }

  /** And it leaves the shapes of all other files alone. */
  lemma GrewShapes(d: Disk, bytes: nat, n: seq<byte>, s: nat, k: nat, total: nat, d': Disk)
    requires Inv(d, bytes) && IsFile(d, bytes, n, s) && ReshapedAt(d, bytes, s, k, total, d')
    ensures Inv(d', bytes)
    ensures Shapes(Stores(d', bytes)) == Shapes(Stores(d, bytes))[n := Shape(|Chain(d, s)| + k, total)]
  {
    GrewInv(d, bytes, s, k, total, d');
    GrewEntry(d, bytes, s, k, total, d');
    var shape := Shape(|Chain(d, s)| + k, total);
    OnlyAtShapes(d, d', bytes, s, map[n := shape]);
    MapAdd(Shapes(Stores(d, bytes)), NameAt(d.root, s), n, shape);
  }

  /** A write that stays in the file's clusters leaves the bytes of the others alone. */
  lemma PutOthers(d: Disk, bytes: nat, s: nat, k: nat, total: nat, p: nat, b: seq<byte>, d': Disk)
    requires Inv(d, bytes) && ReshapedAt(d, bytes, s, k, total, d') && Put(d, d', bytes, GrownTo(d, s, k), p, b)
    ensures OthersBytes(d, d', bytes, s)
  {
    GrewApart(d, bytes, s, k, total, d');
  }

  /** The file after it. */
  lemma PutStore(d: Disk, bytes: nat, s: nat, k: nat, total: nat, p: nat, b: seq<byte>, d': Disk)
    requires Inv(d, bytes) && ReshapedAt(d, bytes, s, k, total, d') && Put(d, d', bytes, GrownTo(d, s, k), p, b)
    ensures Sound(d') && |d'.root| == |d.root| && Chained(d', s)
    ensures Readable(d.data, Added(d, Chain(d, s), k))
    ensures p + |b| <= |Store(d, s).bytes + Gather(d.data, Added(d, Chain(d, s), k))|
    ensures Store(d', s) == File(|Chain(d, s)| + k,
                                 Splice(Store(d, s).bytes + Gather(d.data, Added(d, Chain(d, s), k)), p, b), total)
  {
    var mine := Chain(d, s);
    var news := Added(d, mine, k);
    GrewEntry(d, bytes, s, k, total, d');
    ChainReadable(d.fat1, Hi(d), mine, d.data);
    assert Readable(d.data, news) by {
      assert forall i :: 0 <= i < |news| ==> news[i] == (mine + news)[|mine| + i];
    }
    GatherConcat(d.data, mine, news);
  }

  lemma Replaced(d: Disk, bytes: nat, n: seq<byte>, s: nat, d': Disk, f: File)
    requires Inv(d, bytes) && Inv(d', bytes) && IsFile(d, bytes, n, s) && OnlyAt(d, d', bytes, s)
    requires OthersBytes(d, d', bytes, s)
    requires Live(d'.root[s]) && Name(d'.root[s]) == Name(d.root[s]) && Chained(d', s) && Store(d', s) == f
    ensures Stores(d', bytes) == Stores(d, bytes)[n := f]
  {
    OnlyAtStores(d, d', bytes, s, map[n := f]);
    MapAdd(Stores(d, bytes), NameAt(d.root, s), n, f);
  }

  // ----- the writes of the program

  /** The bytes, before a write of size bytes at offset, of the clusters it adds to the file in slot s. */
  ghost function Fresh(d: Disk, bytes: nat, s: nat, offset: nat, size: nat): seq<byte>
    requires Sound(d) && s < |d.root| && Chained(d, s) && bytes > 0
  {
    var k := Extra(offset + size, |Chain(d, s)|, bytes);
    if HasRoom(d, Chain(d, s), k) && Readable(d.data, Added(d, Chain(d, s), k))
    then Gather(d.data, Added(d, Chain(d, s), k))
    else []
  }

  /** write_path has written buf at offset to the live file in slot s. */
  ghost predicate WroteAt(d: Disk, bytes: nat, s: nat, offset: nat, buf: seq<byte>, d': Disk)
    requires Inv(d, bytes)
  {
    && s < |d.root| && Live(d.root[s]) && FileOk(d, bytes, s) && buf != []
    && Wrote(d, s, Chain(d, s), bytes, offset, buf, d')
  }

  lemma WroteReshaped(d: Disk, bytes: nat, s: nat, offset: nat, buf: seq<byte>, d': Disk) returns (k: nat, total: nat)
    requires Inv(d, bytes) && WroteAt(d, bytes, s, offset, buf, d')
    ensures ReshapedAt(d, bytes, s, k, total, d')
    ensures Reshape(Store(d, s).Outline(), bytes, offset, |buf|) == Shape(|Chain(d, s)| + k, total)
    ensures k == Extra(offset + |buf|, |Chain(d, s)|, bytes)
  {
    TotalFits(offset + |buf|, |Chain(d, s)|, bytes);
    k, total := Extra(offset + |buf|, |Chain(d, s)|, bytes), offset + Kept(offset, |buf|, |Chain(d, s)|, bytes);
  }

  /** Where a contained write has gone. */
  lemma WrotePut(d: Disk, bytes: nat, s: nat, offset: nat, buf: seq<byte>, d': Disk)
    requires Inv(d, bytes) && WroteAt(d, bytes, s, offset, buf, d')
    requires Inside(Store(d, s).Outline(), bytes, offset, |buf|)
    ensures var len := |Chain(d, s)|; var k := Extra(offset + |buf|, len, bytes);
            && HasRoom(d, Chain(d, s), k)
            && Put(d, d', bytes, GrownTo(d, s, k), Start(Store(d, s).Outline(), bytes, offset, |buf|),
                   buf[..Kept(offset, |buf|, len, bytes)])
  {
    if Extra(offset + |buf|, |Chain(d, s)|, bytes) == 0 {
      LastPut(d, bytes, s, Rest(offset, bytes), buf, d');
      assert buf[..|buf|] == buf;
    }
  }

  lemma LastPut(d: Disk, bytes: nat, s: nat, o: nat, buf: seq<byte>, d': Disk)
    requires Inv(d, bytes) && s < |d.root| && Chained(d, s) && o + |buf| <= bytes
    requires Spilled(d.data, d'.data, bytes, Chain(d, s)[|Chain(d, s)| - 1], o, buf)
    ensures HasRoom(d, Chain(d, s), 0) && Put(d, d', bytes, GrownTo(d, s, 0), Span(|Chain(d, s)| - 1, bytes) + o, buf)
  {
    var cs := Chain(d, s);
    ChainAt(d.fat1, Hi(d), cs, |cs| - 1);
    ChainReadable(d.fat1, Hi(d), cs, d.data);
    ChainDistinct(d.fat1, Hi(d), cs);
    assert GrownTo(d, s, 0) == cs;
    SpilledPut(d, d', bytes, cs, o, buf);
  }

  lemma RewrittenIs(f: File, bytes: nat, offset: nat, buf: seq<byte>, ext: seq<byte>) returns (p: nat, b: seq<byte>)
    requires bytes > 0 && f.Ok(bytes) && buf != [] && Inside(f.Outline(), bytes, offset, |buf|)
    requires |ext| == Span(Extra(offset + |buf|, f.len, bytes), bytes)
    ensures p == Start(f.Outline(), bytes, offset, |buf|) && b == buf[..Kept(offset, |buf|, f.len, bytes)]
    ensures p + |b| <= |f.bytes + ext|
    ensures var r := Rewritten(f, bytes, offset, buf, ext); r == File(r.len, Splice(f.bytes + ext, p, b), r.size)
  {
    PlaceFits(offset, |buf|, f.len, bytes, f.size == 0);
    SpanAdd(f.len, Extra(offset + |buf|, f.len, bytes), bytes);
    p, b := Start(f.Outline(), bytes, offset, |buf|), buf[..Kept(offset, |buf|, f.len, bytes)];
  }

  lemma FreshIs(d: Disk, bytes: nat, s: nat, offset: nat, size: nat, k: nat)
    requires Inv(d, bytes) && s < |d.root| && Chained(d, s) && k == Extra(offset + size, |Chain(d, s)|, bytes)
    requires HasRoom(d, Chain(d, s), k)
    ensures Readable(d.data, Added(d, Chain(d, s), k))
    ensures Fresh(d, bytes, s, offset, size) == Gather(d.data, Added(d, Chain(d, s), k))
    ensures |Fresh(d, bytes, s, offset, size)| == Span(k, bytes)
  {
    var cs, news := Chain(d, s), Added(d, Chain(d, s), k);
    ChainAt(d.fat1, Hi(d), cs, |cs| - 1);
    AddedIs(d, cs, k);
    assert Readable(d.data, news);
    GatherLength(d.data, bytes, news);
  }

  /** All that is known of a contained write, in terms of k clusters added, b put at p and the size total. */
  lemma WrotePlaced(d: Disk, bytes: nat, s: nat, offset: nat, buf: seq<byte>, d': Disk)
    returns (k: nat, total: nat, p: nat, b: seq<byte>)
    requires Inv(d, bytes) && WroteAt(d, bytes, s, offset, buf, d')
    requires Inside(Store(d, s).Outline(), bytes, offset, |buf|)
    ensures ReshapedAt(d, bytes, s, k, total, d') && Put(d, d', bytes, GrownTo(d, s, k), p, b)
    ensures Readable(d.data, Added(d, Chain(d, s), k)) && Store(d, s).Ok(bytes)
    ensures Fresh(d, bytes, s, offset, |buf|) == Gather(d.data, Added(d, Chain(d, s), k))
    ensures |Fresh(d, bytes, s, offset, |buf|)| == Span(Extra(offset + |buf|, |Chain(d, s)|, bytes), bytes)
    ensures var f, ext := Store(d, s), Fresh(d, bytes, s, offset, |buf|);
            p + |b| <= |f.bytes + ext|
            && Rewritten(f, bytes, offset, buf, ext) == File(|Chain(d, s)| + k, Splice(f.bytes + ext, p, b), total)
  {
    k, total := WroteReshaped(d, bytes, s, offset, buf, d');
    StoreOk(d, bytes, s);
    FreshIs(d, bytes, s, offset, |buf|, k);
    WrotePut(d, bytes, s, offset, buf, d');
    p, b := RewrittenIs(Store(d, s), bytes, offset, buf, Fresh(d, bytes, s, offset, |buf|));
  }

  /** Every write: the invariant is kept, and the shape of the file is determined by its old one. */
  lemma WriteShapes(d: Disk, bytes: nat, n: seq<byte>, s: nat, offset: nat, buf: seq<byte>, d': Disk)
    requires Inv(d, bytes) && IsFile(d, bytes, n, s) && WroteAt(d, bytes, s, offset, buf, d')
    ensures Inv(d', bytes)
    ensures Shapes(Stores(d', bytes))
         == Shapes(Stores(d, bytes))[n := Reshape(Store(d, s).Outline(), bytes, offset, |buf|)]
  {
    var k, total := WroteReshaped(d, bytes, s, offset, buf, d');
    GrewShapes(d, bytes, n, s, k, total, d');
  }

  /** A contained write: the file is rewritten and every other file stays. */
  lemma WriteRefines(d: Disk, bytes: nat, n: seq<byte>, s: nat, offset: nat, buf: seq<byte>, d': Disk)
    requires Inv(d, bytes) && IsFile(d, bytes, n, s) && WroteAt(d, bytes, s, offset, buf, d')
    requires Inside(Store(d, s).Outline(), bytes, offset, |buf|)
    ensures Inv(d', bytes) && Store(d, s).Ok(bytes)
    ensures |Fresh(d, bytes, s, offset, |buf|)| == Span(Extra(offset + |buf|, |Chain(d, s)|, bytes), bytes)
    ensures Stores(d', bytes)
         == Stores(d, bytes)[n := Rewritten(Store(d, s), bytes, offset, buf, Fresh(d, bytes, s, offset, |buf|))]
  {
    var k, total, p, b := WrotePlaced(d, bytes, s, offset, buf, d');
    PutRefines(d, bytes, n, s, k, total, p, b, d');
  }

  lemma PutRefines(d: Disk, bytes: nat, n: seq<byte>, s: nat, k: nat, total: nat, p: nat, b: seq<byte>, d': Disk)
    requires Inv(d, bytes) && IsFile(d, bytes, n, s) && ReshapedAt(d, bytes, s, k, total, d')
    requires Put(d, d', bytes, GrownTo(d, s, k), p, b)
    ensures Inv(d', bytes) && Readable(d.data, Added(d, Chain(d, s), k))
    ensures p + |b| <= |Store(d, s).bytes + Gather(d.data, Added(d, Chain(d, s), k))|
    ensures Stores(d', bytes) == Stores(d, bytes)[n :=
              File(|Chain(d, s)| + k,
                   Splice(Store(d, s).bytes + Gather(d.data, Added(d, Chain(d, s), k)), p, b), total)]
  {
    GrewInv(d, bytes, s, k, total, d');
    GrewEntry(d, bytes, s, k, total, d');
    PutOthers(d, bytes, s, k, total, p, b, d');
    PutStore(d, bytes, s, k, total, p, b, d');
    Replaced(d, bytes, n, s, d', Store(d', s));
  }
}
