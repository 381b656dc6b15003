/**
  End to end: the operations of the program, on a volume that satisfies the invariant,
  are the operations of a map from names to byte strings.
 */
module Operations {
  import opened Bytes
  import opened Layout
  import opened Chains
  import opened Names
  import opened Directory
  import opened Writes
  import opened WriteLaws
  import opened Volumes
  import opened FileSystem

  ghost predicate Healthy(v: Volume)
    reads v`img
  {
    v.Valid() && Inv(v.D(), v.g.ClusterBytes())
  }

  /** The files a healthy volume holds. */
  ghost function StoresOf(v: Volume): map<seq<byte>, File>
    requires Healthy(v)
    reads v`img
  {
    Stores(v.D(), v.g.ClusterBytes())
  }

  /** Their contents. */
  ghost function FilesOf(v: Volume): map<seq<byte>, seq<byte>>
    requires Healthy(v)
    reads v`img
  {
    Contents(StoresOf(v))
  }

  /** The slot of a file. */
  ghost function SlotOf(v: Volume, n: seq<byte>): (s: nat)
    requires Healthy(v) && n in StoresOf(v)
    reads v`img
    ensures IsFile(v.D(), v.g.ClusterBytes(), n, s)
  {
    SlotOfName(v.D(), v.g.ClusterBytes(), n);
    ShownSlot(v.D().root, n)
  }

  // ----- mknod

  /** Creation adds an empty file, unless the root directory is full: then nothing happens. */
  method CreateFile(v: Volume, n: seq<byte>, time: word, date: word)
    requires Healthy(v) && CanCreate(v.D(), n)
    modifies v`img
    ensures Healthy(v)
    ensures if old(FreeSlot(v.D().root) < |v.D().root|)
            then && Shapes(StoresOf(v)) == Shapes(old(StoresOf(v)))[n := Shape(1, 0)]
                 && FilesOf(v) == old(FilesOf(v))[n := []]
            else StoresOf(v) == old(StoresOf(v))
  {
    ghost var d, bytes := v.D(), v.g.ClusterBytes();
    EncodedBytes(n);
    if FreeSlot(d.root) < |d.root| {
      CreateMaps(d, bytes, n, time, date, Created(d, n, time, date));
    }
    var ok := v.Mknod(n, time, date);
  }

  // ----- unlink

  /** No directory has the encoded name of n: unlink is for files. */
  ghost predicate NoDirectory(d: Disk, n: seq<byte>)
  {
    ValidName(n) && forall j {:trigger d.root[j]} ::
      0 <= j < |d.root| && Encode(n) == Some(Name(d.root[j])) ==> Attr(d.root[j]) != ATTR_DIRECTORY
  }

  lemma MissingNotFound(d: Disk, bytes: nat, n: seq<byte>)
    requires Inv(d, bytes) && NoDirectory(d, n) && n !in Stores(d, bytes)
    ensures Encode(n).Some? && FirstHit(d.root, Encode(n).value, true, true) == None
  {
    EncodedBytes(n);
    ShownOfEncoded(n);
    var name := Encode(n).value;
    forall j | 0 <= j < |d.root|
      ensures !Matches(d.root[j], name, true, true)
    {
      var e := d.root[j];
      assert Name(e) == name ==> Shown(e) == n && e[0] == name[0];
      assert Live(e) ==> Shown(e) in FileNames(d.root);
    }
    FirstHitNone(d.root, name, true, true, 0, |d.root|);
  }

  /** What unlink finds under the name n, and what removing it means for the map. */
  lemma UnlinkReady(d: Disk, bytes: nat, n: seq<byte>) returns (cs: seq<nat>)
    requires Inv(d, bytes) && NoDirectory(d, n)
    ensures Encode(n).Some? && Encode(n).value[0] != 0
    ensures FirstHit(d.root, Encode(n).value, true, true).Some? <==> n in Stores(d, bytes)
    ensures n in Stores(d, bytes) ==>
              && IsChain(d.fat1, Hi(d), cs)
              && cs[0] == FirstCluster(FirstHit(d.root, Encode(n).value, true, true).value)
              && Within(cs, |d.fat1|) && Inv(Removed(d, n, cs), bytes)
              && Stores(Removed(d, n, cs), bytes) == Stores(d, bytes) - {n}
    ensures n !in Stores(d, bytes) ==> Stores(d, bytes) == Stores(d, bytes) - {n}
  {
    EncodedBytes(n);
    cs := [];
    if n in Stores(d, bytes) {
      SlotOfName(d, bytes, n);
      var s := ShownSlot(d.root, n);
      BothFind(d, bytes, n, s);
      RemoveRefines(d, bytes, n, s);
      cs := Chain(d, s);
    } else {
      MissingNotFound(d, bytes, n);
    }
  }

  /** Removal takes the file out of the map; a missing file is reported and nothing changes. */
  method RemoveFile(v: Volume, n: seq<byte>) returns (r: nat)
    requires Healthy(v) && NoDirectory(v.D(), n)
    modifies v`img
    ensures Healthy(v) && StoresOf(v) == old(StoresOf(v)) - {n} && FilesOf(v) == old(FilesOf(v)) - {n}
    ensures r == if n in old(StoresOf(v)) then 0 else 1
  {
    ghost var d := v.D();
    ghost var cs := UnlinkReady(d, v.g.ClusterBytes(), n);
    r := v.Unlink(n, cs);
    assert v.D() == if r == 0 then Removed(d, n, cs) else d;
    ContentsRemove(Stores(d, v.g.ClusterBytes()), n);
  }

  /** After a removal lookup no longer finds n, and still finds the same entry for every other file. */
  lemma RemovedLookup(d: Disk, bytes: nat, n: seq<byte>, s: nat, m: seq<byte>, j: nat)
    requires Inv(d, bytes) && IsFile(d, bytes, n, s) && NoDirectory(d, n) && IsFile(d, bytes, m, j) && m != n
    ensures Within(Chain(d, s), |d.fat1|) && Encode(n).Some? && Encode(m).Some?
    ensures var root := Removed(d, n, Chain(d, s)).root;
            && FirstHit(root, Encode(n).value, true, true) == None
            && FirstHit(root, Encode(m).value, true, true) == Some(d.root[j])
  {
    RemoveRefines(d, bytes, n, s);
    var d' := RemovedInv(d, bytes, n, s);
    RemovedShape(d, bytes, n, s);
    StillNoDirectory(d, d', bytes, n, s);
    MissingNotFound(d', bytes, n);
    OthersKept(d, d', bytes, s, j);
    BothFind(d', bytes, m, j);
  }

  lemma StillNoDirectory(d: Disk, d': Disk, bytes: nat, n: seq<byte>, s: nat)
    requires Inv(d, bytes) && NoDirectory(d, n) && OnlyAt(d, d', bytes, s) && s < |d.root| && !Live(d'.root[s])
    requires d'.root[s] == Marked(d.root[s])
    ensures NoDirectory(d', n)
  {
    EncodedBytes(n);
    assert Name(d'.root[s])[0] == DELETED;
  }

  ghost function FreeClusters(fat: seq<word>, hi: nat): set<nat>
    requires hi <= |fat|
  {
    set c: nat | c < hi && 2 <= c && fat[c] == 0
  }

  function Members(cs: seq<nat>): set<nat> { set c | c in cs }

  lemma FreedConserves(fat: seq<word>, hi: nat, cs: seq<nat>)
    requires hi <= |fat| && Within(cs, |fat|) && forall c :: c in cs ==> 2 <= c < hi
    ensures FreeClusters(Freed(fat, cs), hi) == FreeClusters(fat, hi) + Members(cs)
  {
  }

  /** Unlink gives back exactly the file's clusters, in both tables. */
  lemma RemovedConserves(d: Disk, bytes: nat, n: seq<byte>, s: nat)
    requires Inv(d, bytes) && IsFile(d, bytes, n, s)
    ensures Within(Chain(d, s), |d.fat1|)
    ensures var d', mine := Removed(d, n, Chain(d, s)), Members(Chain(d, s));
            && FreeClusters(d'.fat1, Hi(d)) == FreeClusters(d.fat1, Hi(d)) + mine
            && FreeClusters(d'.fat2, Hi(d)) == FreeClusters(d.fat2, Hi(d)) + mine
            && FreeClusters(d.fat1, Hi(d)) !! mine && |mine| == |Chain(d, s)|
  {
    var cs := Chain(d, s);
    RemovedShape(d, bytes, n, s);
    ChainDistinct(d.fat1, Hi(d), cs);
    forall c | c in cs
      ensures 2 <= c < Hi(d) && d.fat1[c] != 0
    {
      ChainMember(d.fat1, Hi(d), cs, c);
    }
    FreedConserves(d.fat1, Hi(d), cs);
    FreedConserves(d.fat2, Hi(d), cs);
    DistinctSize(cs);
  }

  lemma {:induction false} DistinctSize(cs: seq<nat>)
    requires Distinct(cs)
    ensures |Members(cs)| == |cs|
  {
    if cs == [] {
      assert Members(cs) == {};
    } else {
      var n := |cs| - 1;
      DistinctSize(cs[..n]);
      assert Members(cs) == Members(cs[..n]) + {cs[n]};
    }
  }

  lemma FreedAgain(fat: seq<word>, c: nat, v: word)
    requires c < |fat| && fat[c] == 0
    ensures Within([c], |fat|) && Freed(fat[c := v], [c]) == fat && fat[c := 0] == fat
  {
  }

  /** Creating a file and removing it again restores both tables and the data, and leaves its slot reusable. */
  lemma CreateThenRemove(d: Disk, bytes: nat, n: seq<byte>, time: word, date: word)
    requires Inv(d, bytes) && CanCreate(d, n) && FreeSlot(d.root) < |d.root|
    ensures var c, s := NextFree(d.fat1, 2, Hi(d)), FreeSlot(d.root);
            var made := Created(d, n, time, date);
            && Sound(made) && s < |made.root| && IsChain(made.fat1, Hi(made), [c]) && FirstCluster(made.root[s]) == c
            && Within([c], |made.fat1|)
            && var back := Removed(made, n, [c]);
               && back.fat1 == d.fat1 && back.fat2 == d.fat2 && back.data == d.data && back.boot == d.boot
               && |back.root| == |d.root| && Reusable(back.root[s])
               && forall j :: 0 <= j < |d.root| && j != s ==> back.root[j] == d.root[j]
  {
    var made, s, c := CreatedParts(d, bytes, n, time, date);
    CreatedEntry(d, n, time, date);
    RemovedShape(made, bytes, n, s);
    FreedAgain(d.fat1, c, END);
    FreedAgain(d.fat2, c, 0);
    var e := Marked(made.root[s]);
    assert e[0] == Name(e)[0] == DELETED;
  }

  // ----- readdir

  lemma {:induction false} ListedFrom(es: seq<Entry>, i: nat, n: seq<byte>)
    requires i <= |es| && ZeroSuffix(es)
    ensures n in Listed(es, i) <==>
              exists j {:trigger es[j]} :: i <= j < |es| && es[j][0] != 0 && Listable(es[j]) && Decode(Name(es[j])) == n
    decreases |es| - i
  {
    if i < |es| && es[i][0] != 0 {
      ListedFrom(es, i + 1, n);
    }
  }

  /** Entry j is one that readdir reports as n. */
  predicate ReportedAs(es: seq<Entry>, j: nat, n: seq<byte>)
    requires j < |es|
  {
    Listable(es[j]) && Decode(Name(es[j])) == n
  }

  /** How often n is reported from entry i on. */
  function Reports(es: seq<Entry>, n: seq<byte>, i: nat): nat
    requires i <= |es|
    decreases |es| - i
  {
    if i == |es| || es[i][0] == 0 then 0 else Reports(es, n, i + 1) + if ReportedAs(es, i, n) then 1 else 0
  }

  lemma CountCons(x: seq<byte>, rest: seq<seq<byte>>, n: seq<byte>)
    ensures multiset([x] + rest)[n] == multiset(rest)[n] + if x == n then 1 else 0
  {
  }

  lemma {:induction false} ListedReports(es: seq<Entry>, n: seq<byte>, i: nat)
    requires i <= |es|
    ensures multiset(Listed(es, i))[n] == Reports(es, n, i)
    decreases |es| - i
  {
    if i < |es| && es[i][0] != 0 {
      ListedReports(es, n, i + 1);
      if Listable(es[i]) {
        CountCons(Decode(Name(es[i])), Listed(es, i + 1), n);
      } else {
        assert [] + Listed(es, i + 1) == Listed(es, i + 1);
      }
    }
  }

  /** An entry that alone is reported as n is reported once. */
  lemma {:induction false} ReportedOnce(es: seq<Entry>, n: seq<byte>, s: nat, i: nat)
    requires i <= |es| && ZeroSuffix(es) && s < |es| && es[s][0] != 0
    requires forall j {:trigger ReportedAs(es, j, n)} :: 0 <= j < |es| ==> (ReportedAs(es, j, n) <==> j == s)
    ensures Reports(es, n, i) == if i <= s then 1 else 0
    decreases |es| - i
  {
    if i < |es| && es[i][0] != 0 {
      ReportedOnce(es, n, s, i + 1);
    }
  }

  /** The program's string comparison tells decoded names apart at least as well as equality. */
  lemma LiveDecoded(d: Disk, bytes: nat, i: nat)
    requires Inv(d, bytes) && i < |d.root| && Live(d.root[i])
    ensures Decode(Name(d.root[i])) == Shown(d.root[i]) && ValidName(Shown(d.root[i])) && Listable(d.root[i])
  {
    assert Named(d.root[i]);
    DecodeEncode(Shown(d.root[i]));
  }

  /** A directory that is neither a terminator nor deleted. */
  predicate IsListedDirectory(e: Entry) { e[11] == 0x10 && e[0] != 0 && e[0] != 0xe5 }

  /**
    readdir of the root lists every file of the map, exactly once, and lookup of a listed file's name
    finds that file's own entry; what else it lists are exactly the subdirectories.
   */
  lemma ReaddirFiles(d: Disk, bytes: nat, n: seq<byte>)
    requires Inv(d, bytes)
    ensures n in Stores(d, bytes) ==> multiset(Listed(d.root))[n] == 1
    ensures n in Stores(d, bytes) ==>
              exists i :: 0 <= i < |d.root| && Live(d.root[i]) && Shown(d.root[i]) == n && Finds(d.root, n, i)
    ensures n !in Stores(d, bytes) ==>
              (n in Listed(d.root) <==>
                 exists i :: 0 <= i < |d.root| && IsListedDirectory(d.root[i]) && Decode(Name(d.root[i])) == n)
  {
    ListedFrom(d.root, 0, n);
    if n in Stores(d, bytes) {
      SlotOfName(d, bytes, n);
      var s := ShownSlot(d.root, n);
      LiveDecoded(d, bytes, s);
      BothFind(d, bytes, n, s);
      CStringWhole(n);
      forall j {:trigger ReportedAs(d.root, j, n)} | 0 <= j < |d.root|
        ensures ReportedAs(d.root, j, n) <==> j == s
      {
        assert j != s ==> Shown(d.root[j]) != Shown(d.root[s]);
      }
      ReportedOnce(d.root, n, s, 0);
      ListedReports(d.root, n, 0);
    } else {
      forall i | 0 <= i < |d.root| && IsListedDirectory(d.root[i]) && Decode(Name(d.root[i])) == n
        ensures n in Listed(d.root)
      {
        DirectoryListed(d.root, i);
      }
    }
    if n !in Stores(d, bytes) && n in Listed(d.root) {
      var i :| 0 <= i < |d.root| && d.root[i][0] != 0 && Listable(d.root[i]) && Decode(Name(d.root[i])) == n;
      if Live(d.root[i]) {
        NameHere(d, bytes, i);
        LiveDecoded(d, bytes, i);
      }
    }
  }

  // ----- read

  lemma SliceOfPrefix(all: seq<byte>, len: nat, o: nat, k: nat)
    requires o + k <= len <= |all|
    ensures all[..len][o..o + k] == all[o..o + k]
  {
  }

  /** A file's content has as many bytes as its size says, and is where its clusters begin. */
  lemma ContentLength(d: Disk, bytes: nat, s: nat)
    requires Inv(d, bytes) && s < |d.root| && FileOk(d, bytes, s)
    ensures Readable(d.data, Chain(d, s)) && FileSize(d.root[s]) <= |Gather(d.data, Chain(d, s))|
    ensures Store(d, s).Content() == Gather(d.data, Chain(d, s))[..FileSize(d.root[s])]
  {
    StoreOk(d, bytes, s);
    ChainReadable(d.fat1, Hi(d), Chain(d, s), d.data);
  }

  method ReadSlot(v: Volume, n: seq<byte>, size: nat, offset: nat, ghost s: nat) returns (k: nat, out: seq<byte>)
    requires Healthy(v) && IsFile(v.D(), v.g.ClusterBytes(), n, s)
    ensures k == |out| == if offset < FileSize(v.D().root[s]) then size else 0
    ensures (offset < FileSize(v.D().root[s])
             && offset + size <= FileSize(v.D().root[s]) <= |Store(v.D(), s).Content()|) ==>
              out == Store(v.D(), s).Content()[offset..offset + size]
  {
    ghost var d, bytes := v.D(), v.g.ClusterBytes();
    BothFind(d, bytes, n, s);
    ContentLength(d, bytes, s);
    var e := v.FindFile(n);
    k, out := v.ReadFrom(e.value, size, offset, Chain(d, s));
    if offset + size <= FileSize(d.root[s]) {
      SliceOfPrefix(Gather(d.data, Chain(d, s)), FileSize(d.root[s]), offset, size);
    }
  }

  /** Reading inside a file returns that slice of it; reading at or past the end returns nothing. */
  method ReadFile(v: Volume, n: seq<byte>, size: nat, offset: nat) returns (k: nat, out: seq<byte>)
    requires Healthy(v) && n in StoresOf(v)
    ensures k == |out| == if offset < |FilesOf(v)[n]| then size else 0
    ensures offset < |FilesOf(v)[n]| && offset + size <= |FilesOf(v)[n]| ==> out == FilesOf(v)[n][offset..offset + size]
  {
    ghost var s := SlotOf(v, n);
    StoresAt(v.D(), v.g.ClusterBytes(), s);
    ContentLength(v.D(), v.g.ClusterBytes(), s);
    k, out := ReadSlot(v, n, size, offset, s);
  }

  // ----- write

  /**
    The write finds enough free clusters above the file's last one, and if it takes any its chunks stay in the chain.
   */
  ghost predicate Roomy(d: Disk, bytes: nat, s: nat, offset: nat, size: nat)
  {
    && Inv(d, bytes) && s < |d.root| && Live(d.root[s]) && size > 0 && FileOk(d, bytes, s)
    && HasRoom(d, Chain(d, s), Extra(offset + size, |Chain(d, s)|, bytes))
    && (Extra(offset + size, |Chain(d, s)|, bytes) > 0 ==>
          Stays(offset, size, |Chain(d, s)|, bytes, FileSize(d.root[s]) == 0))
  }

  /** Such a file meets what write_path relies on: with that much room, sizes cannot outgrow the 32-bit size field. */
  lemma RoomyWritable(d: Disk, bytes: nat, s: nat, offset: nat, size: nat)
    requires Roomy(d, bytes, s, offset, size)
    ensures Writable(d, bytes, offset, size, s, Chain(d, s))
  {
    TotalFits(offset + size, |Chain(d, s)|, bytes);
    GrownSmall(d, Chain(d, s), bytes, Extra(offset + size, |Chain(d, s)|, bytes), offset + size);
  }

  /**
    What a write makes of the files: the shapes of all of them are determined by those before, and if the write stays in
    the file's own clusters that file is rewritten, ext being what the added clusters held, and every other is as it
    was.
   */
  ghost predicate FilesWritten(fs: map<seq<byte>, File>, fs': map<seq<byte>, File>, n: seq<byte>, bytes: nat,
                               offset: nat,
                               buf: seq<byte>, ext: seq<byte>)
    requires bytes > 0 && buf != []
  {
    && n in fs && fs[n].Ok(bytes)
    && Shapes(fs') == Shapes(fs)[n := Reshape(fs[n].Outline(), bytes, offset, |buf|)]
    && (Inside(fs[n].Outline(), bytes, offset, |buf|) ==>
          && |ext| == Span(Extra(offset + |buf|, fs[n].len, bytes), bytes)
          && fs' == fs[n := Rewritten(fs[n], bytes, offset, buf, ext)])
  }

  lemma WrittenFiles(d: Disk, bytes: nat, n: seq<byte>, s: nat, offset: nat, buf: seq<byte>, d': Disk)
    requires Inv(d, bytes) && IsFile(d, bytes, n, s) && WroteAt(d, bytes, s, offset, buf, d')
    ensures Inv(d', bytes)
    ensures FilesWritten(Stores(d, bytes), Stores(d', bytes), n, bytes, offset, buf, Fresh(d, bytes, s, offset, |buf|))
  {
    StoresAt(d, bytes, s);
    WriteShapes(d, bytes, n, s, offset, buf, d');
    if Inside(Store(d, s).Outline(), bytes, offset, |buf|) {
      WriteRefines(d, bytes, n, s, offset, buf, d');
    }
  }

  /** If the write is right, the content is what a write should leave. */
  lemma WrittenRight(fs: map<seq<byte>, File>, fs': map<seq<byte>, File>, n: seq<byte>, bytes: nat, offset: nat,
                     buf: seq<byte>, ext: seq<byte>)
    requires bytes > 0 && buf != [] && FilesWritten(fs, fs', n, bytes, offset, buf, ext)
    requires Right(fs[n].Outline(), bytes, offset, |buf|)
    ensures Contents(fs') == Contents(fs)[n := Intended(fs[n].Content(), offset, buf)]
  {
    ContentsUpdate(fs, n, Rewritten(fs[n], bytes, offset, buf, ext));
    RightIsIntended(fs[n], bytes, offset, buf, ext);
  }

  // ----- exactly when a write is right

  /** The content of n on d' is what a write of buf at offset should leave of content. */
  ghost predicate Leaves(d': Disk, bytes: nat, n: seq<byte>, content: seq<byte>, offset: nat, buf: seq<byte>)
    requires offset <= |content|
  {
    Inv(d', bytes) && n in Stores(d', bytes) && Stores(d', bytes)[n].Content() == Intended(content, offset, buf)
  }

  /** Every write that write_path can do has a result. */
  lemma WriteExists(d: Disk, bytes: nat, s: nat, offset: nat, buf: seq<byte>) returns (d': Disk)
    requires Roomy(d, bytes, s, offset, |buf|)
    ensures WroteAt(d, bytes, s, offset, buf, d')
  {
    var cs := Chain(d, s);
    var k, w := Extra(offset + |buf|, |cs|, bytes), Kept(offset, |buf|, |cs|, bytes);
    RoomyWritable(d, bytes, s, offset, |buf|);
    ChainAt(d.fat1, Hi(d), cs, |cs| - 1);
    var data';
    if k == 0 {
      data' := SpillExists(d.data, bytes, cs[|cs| - 1], Rest(offset, bytes), buf);
      SpilledUniform(d.data, data', bytes, cs[|cs| - 1], Rest(offset, bytes), buf);
    } else {
      data' := GrownExists(d, bytes, s, offset, buf, k, w);
    }
    d' := d.(fat1 := Grown(d, cs, k), root := RootAt(d.root, s, offset + w, true), data := data');
  }

  lemma GrownExists(d: Disk, bytes: nat, s: nat, offset: nat, buf: seq<byte>, k: nat,
                    w: nat) returns (data': seq<seq<byte>>)
    requires Roomy(d, bytes, s, offset, |buf|)
    requires k == Extra(offset + |buf|, |Chain(d, s)|, bytes) > 0 && w == Kept(offset, |buf|, |Chain(d, s)|, bytes)
    ensures var all, p := GrownTo(d, s, k), Place(offset, |buf|, |Chain(d, s)|, bytes, FileSize(d.root[s]) == 0);
            && Readable(d.data, all) && p + w <= |Gather(d.data, all)|
            && Spliced(d.data, data', bytes, all, p, buf[..w])
  {
    var cs, all := Chain(d, s), GrownTo(d, s, k);
    var p := Place(offset, |buf|, |cs|, bytes, FileSize(d.root[s]) == 0);
    GrownChain(d, cs, k);
    ChainReadable(Grown(d, cs, k), Hi(d), all, d.data);
    ChainDistinct(Grown(d, cs, k), Hi(d), all);
    GatherLength(d.data, bytes, all);
    PlaceFits(offset, |buf|, |cs|, bytes, FileSize(d.root[s]) == 0);
    data' := SplicedExists(d.data, bytes, all, p, buf[..w]);
  }

  /** A contained write that is not right shows, on every disk. */
  lemma WrongInside(d: Disk, bytes: nat, n: seq<byte>, s: nat, offset: nat, size: nat) returns (buf: seq<byte>,
                    d': Disk)
    requires Roomy(d, bytes, s, offset, size) && IsFile(d, bytes, n, s) && offset <= FileSize(d.root[s])
    requires Inside(Store(d, s).Outline(), bytes, offset, size) && !Right(Store(d, s).Outline(), bytes, offset, size)
    ensures |buf| == size && WroteAt(d, bytes, s, offset, buf, d') && Store(d, s).Ok(bytes)
    ensures !Leaves(d', bytes, n, Store(d, s).Content(), offset, buf)
  {
    StoreOk(d, bytes, s);
    FreshIs(d, bytes, s, offset, size, Extra(offset + size, |Chain(d, s)|, bytes));
    buf := WrongSomehow(Store(d, s), bytes, offset, size, Fresh(d, bytes, s, offset, size));
    d' := WriteExists(d, bytes, s, offset, buf);
    WriteRefines(d, bytes, n, s, offset, buf, d');
  }

  /** A write that runs over the end of the last cluster shows too. */
  lemma WrongOutside(d: Disk, bytes: nat, n: seq<byte>, s: nat, offset: nat, size: nat) returns (buf: seq<byte>,
                     d': Disk)
    requires Roomy(d, bytes, s, offset, size) && IsFile(d, bytes, n, s) && offset <= FileSize(d.root[s])
    requires Extra(offset + size, |Chain(d, s)|, bytes) == 0 && Rest(offset, bytes) + size > bytes
    ensures |buf| == size && WroteAt(d, bytes, s, offset, buf, d') && Store(d, s).Ok(bytes)
    ensures !Leaves(d', bytes, n, Store(d, s).Content(), offset, buf)
  {
    var cs := Chain(d, s);
    StoreOk(d, bytes, s);
    RoomyWritable(d, bytes, s, offset, size);
    ChainReadable(d.fat1, Hi(d), cs, d.data);
    ChainDistinct(d.fat1, Hi(d), cs);
    var data';
    buf, data' := SpillsWrong(d.data, bytes, cs, offset, size);
    d' := d.(root := RootAt(d.root, s, offset + size, true), data := data');
    InLastWrote(d, s, cs, bytes, offset, buf, d');
    WrongFirst(d, bytes, n, s, offset, buf, d');
  }

  lemma WrongFirst(d: Disk, bytes: nat, n: seq<byte>, s: nat, offset: nat, buf: seq<byte>, d': Disk)
    requires Inv(d, bytes) && IsFile(d, bytes, n, s) && WroteAt(d, bytes, s, offset, buf, d')
    requires offset <= FileSize(d.root[s])
    requires Extra(offset + |buf|, |Chain(d, s)|, bytes) == 0 && Readable(d'.data, Chain(d, s))
    requires offset + |buf| <= |Gather(d'.data, Chain(d, s))| && Gather(d'.data, Chain(d, s))[offset] != buf[0]
    ensures Store(d, s).Ok(bytes) && !Leaves(d', bytes, n, Store(d, s).Content(), offset, buf)
  {
    StoreOk(d, bytes, s);
    var k, total := WroteReshaped(d, bytes, s, offset, buf, d');
    GrewInv(d, bytes, s, k, total, d');
    GrewEntry(d, bytes, s, k, total, d');
    assert GrownTo(d, s, 0) == Chain(d, s);
    StoresAt(d', bytes, s);
    WrongByte(Store(d', s), Store(d, s).Content(), offset, buf);
  }

  lemma WrongByte(f: File, content: seq<byte>, offset: nat, buf: seq<byte>)
    requires buf != [] && offset <= |content| && f.size == offset + |buf| <= |f.bytes| && f.bytes[offset] != buf[0]
    ensures f.Content() != Intended(content, offset, buf)
  {
    assert f.Content()[offset] == f.bytes[offset] && Intended(content, offset, buf)[offset] == buf[0];
  }

  /**
    Exactly when write_path is right: for every write inside the file that finds room, the content is what a write
    should
    leave, whatever is written, if and only if the program starts at the offset, keeps everything, stays in the file's
    clusters and reaches the end of the file.
   */
  lemma WriteRightIff(d: Disk, bytes: nat, n: seq<byte>, s: nat, offset: nat, size: nat)
    requires Roomy(d, bytes, s, offset, size) && IsFile(d, bytes, n, s) && offset <= FileSize(d.root[s])
    ensures Store(d, s).Ok(bytes)
    ensures (forall buf: seq<byte>, d': Disk {:trigger WroteAt(d, bytes, s, offset, buf, d')} ::
               |buf| == size && WroteAt(d, bytes, s, offset, buf, d') ==>
                 Leaves(d', bytes, n, Store(d, s).Content(), offset, buf))
       <==> Right(Store(d, s).Outline(), bytes, offset, size)
  {
    StoreOk(d, bytes, s);
    if Right(Store(d, s).Outline(), bytes, offset, size) {
      forall buf: seq<byte>, d': Disk {:trigger WroteAt(d, bytes, s, offset, buf, d')} |
        |buf| == size && WroteAt(d, bytes, s, offset, buf, d')
        ensures Leaves(d', bytes, n, Store(d, s).Content(), offset, buf)
      {
        RightLeaves(d, bytes, n, s, offset, buf, d');
      }
    } else if Inside(Store(d, s).Outline(), bytes, offset, size) {
      var _, _ := WrongInside(d, bytes, n, s, offset, size);
    } else {
      var _, _ := WrongOutside(d, bytes, n, s, offset, size);
    }
  }

  lemma RightLeaves(d: Disk, bytes: nat, n: seq<byte>, s: nat, offset: nat, buf: seq<byte>, d': Disk)
    requires Inv(d, bytes) && IsFile(d, bytes, n, s) && WroteAt(d, bytes, s, offset, buf, d')
    requires Right(Store(d, s).Outline(), bytes, offset, |buf|)
    ensures Store(d, s).Ok(bytes) && Leaves(d', bytes, n, Store(d, s).Content(), offset, buf)
  {
    StoresAt(d, bytes, s);
    WriteRefines(d, bytes, n, s, offset, buf, d');
    RightIsIntended(Store(d, s), bytes, offset, buf, Fresh(d, bytes, s, offset, |buf|));
  }

  /** write_path on a file, at any offset. */
  method WriteFile(v: Volume, n: seq<byte>, offset: nat, buf: seq<byte>) returns (r: nat)
    requires Healthy(v) && n in StoresOf(v) && buf != []
    requires Roomy(v.D(), v.g.ClusterBytes(), SlotOf(v, n), offset, |buf|)
    modifies v`img
    ensures Healthy(v) && r == |buf|
    ensures FilesWritten(old(StoresOf(v)), StoresOf(v), n, v.g.ClusterBytes(), offset, buf,
                         old(FreshOf(v, n, offset, |buf|)))
    ensures Right(old(StoresOf(v))[n].Outline(), v.g.ClusterBytes(), offset, |buf|) ==>
              FilesOf(v) == old(FilesOf(v))[n := Intended(old(StoresOf(v))[n].Content(), offset, buf)]
  {
    ghost var d, s, bytes := v.D(), SlotOf(v, n), v.g.ClusterBytes();
    RoomyWritable(d, bytes, s, offset, |buf|);
    BothFind(d, bytes, n, s);
    r := v.WritePath(n, offset, buf, s, Chain(d, s));
    WrittenFiles(d, bytes, n, s, offset, buf, v.D());
    if Right(Stores(d, bytes)[n].Outline(), bytes, offset, |buf|) {
      WrittenRight(Stores(d, bytes), Stores(v.D(), bytes), n, bytes, offset, buf, Fresh(d, bytes, s, offset, |buf|));
    }
  }

  /** The bytes that the clusters hold which a write to n would add. */
  ghost function FreshOf(v: Volume, n: seq<byte>, offset: nat, size: nat): seq<byte>
    requires Healthy(v) && n in StoresOf(v)
    reads v`img
  {
    Fresh(v.D(), v.g.ClusterBytes(), SlotOf(v, n), offset, size)
  }
}
