/**
  Directory entries and what a path means: a first-match search through each
  directory's flattened entry sequence, cut at the first entry that begins with a
  zero byte.
 */
module Directory {
  import opened Bytes
  import opened Layout
  import opened Chains
  import opened Names

  const ATTR_DIRECTORY: byte := 0x10
  const ATTR_ARCHIVE: byte := 0x20

  function Name(e: Entry): seq<byte> { e[..11] }

  function Attr(e: Entry): byte { e[11] }

  function FirstCluster(e: Entry): word { Word(e, 26) }

  function FileSize(e: Entry): dword { DWord(e, 28) }

  function WriteTime(e: Entry): word { Word(e, 22) }

  function WriteDate(e: Entry): word { Word(e, 24) }

  function NewEntry(name: seq<byte>, attr: byte, time: word, date: word, cluster: word, size: dword): (e: Entry)
    requires |name| == 11
    ensures Name(e) == name && Attr(e) == attr && FirstCluster(e) == cluster && FileSize(e) == size
    ensures WriteTime(e) == time && WriteDate(e) == date && forall i :: 12 <= i < 22 ==> e[i] == 0
  {
    var head := name + [attr] + seq(10, _ => 0) + WordBytes(time) + WordBytes(date);
    var e := head + WordBytes(cluster) + DWordBytes(size);
    assert Word(e, 22) == Word(WordBytes(time), 0) && Word(e, 24) == Word(WordBytes(date), 0);
    assert Word(e, 26) == Word(WordBytes(cluster), 0);
    assert Word(e, 28) == Word(DWordBytes(size), 0) && Word(e, 30) == Word(DWordBytes(size), 2);
    e
  }

  /** Where an entry has its fields: numbers take two or four bytes, the low one first. */
  lemma FieldBytes(e: Entry)
    ensures Name(e) == e[0..11] && Attr(e) == e[11]
    ensures e[22] == WriteTime(e) % 0x100 && e[23] == WriteTime(e) / 0x100
    ensures e[24] == WriteDate(e) % 0x100 && e[25] == WriteDate(e) / 0x100
    ensures e[26] == FirstCluster(e) % 0x100 && e[27] == FirstCluster(e) / 0x100
    ensures e[28] == FileSize(e) % 0x100 && e[29] == FileSize(e) / 0x100 % 0x100
    ensures e[30] == FileSize(e) / 0x1_0000 % 0x100 && e[31] == FileSize(e) / 0x100_0000
  {
    WordIff(e, 22, WriteTime(e));
    WordIff(e, 24, WriteDate(e));
    WordIff(e, 26, FirstCluster(e));
    DWordIff(e, 28, FileSize(e));
  }

  function WithSize(e: Entry, size: dword): (r: Entry)
    ensures Name(r) == Name(e) && Attr(r) == Attr(e) && FirstCluster(r) == FirstCluster(e) && FileSize(r) == size
    ensures r[..28] == e[..28]
  {
    var r := Splice(e, 28, DWordBytes(size));
    assert Word(r, 28) == Word(DWordBytes(size), 0) && Word(r, 30) == Word(DWordBytes(size), 2);
    r
  }

  function Marked(e: Entry): (r: Entry)
    ensures Name(r) == [DELETED] + Name(e)[1..] && r[1..] == e[1..]
  {
    Splice(e, 0, [DELETED])
  }

  /** The name an entry shows to C string comparison. */
  function Shown(e: Entry): seq<byte> { CString(Decode(Name(e))) }

  // ----- searching one directory

  predicate Ascii(name: seq<byte>) { forall i :: 0 <= i < |name| ==> name[i] < 0x80 }

  /**
    Does e answer a search for name?  In the root a plain file answers even when components remain.  Below the root
    unsigned bytes are compared with signed characters, so that a name with a byte from 0x80 on never matches.
   */
  predicate Matches(e: Entry, name: seq<byte>, last: bool, inRoot: bool)
  {
    && Name(e) == name && (inRoot || Ascii(name))
    && (Attr(e) == ATTR_DIRECTORY || (Attr(e) == ATTR_ARCHIVE && (last || inRoot)))
  }

  /** The first match from i on, unless a terminator comes before it. */
  function FirstHit(es: seq<Entry>, name: seq<byte>, last: bool, inRoot: bool, i: nat := 0): (r: Option<Entry>)
    requires i <= |es|
    ensures r.Some? ==> Matches(r.value, name, last, inRoot) && r.value in es
    decreases |es| - i
  {
    if i == |es| || es[i][0] == 0 then None
    else if Matches(es[i], name, last, inRoot) then Some(es[i])
    else FirstHit(es, name, last, inRoot, i + 1)
  }

  /** An entry is found exactly when it is the first match and no terminator comes before it. */
  lemma {:induction false} FirstHitIs(es: seq<Entry>, name: seq<byte>, last: bool, inRoot: bool, i: nat, k: nat)
    requires i <= k < |es| && Matches(es[k], name, last, inRoot) && es[k][0] != 0
    requires forall j :: i <= j < k ==> es[j][0] != 0 && !Matches(es[j], name, last, inRoot)
    ensures FirstHit(es, name, last, inRoot, i) == Some(es[k])
    decreases k - i
  {
    if i < k {
      FirstHitIs(es, name, last, inRoot, i + 1, k);
    }
  }

  lemma {:induction false} FirstHitNone(es: seq<Entry>, name: seq<byte>, last: bool, inRoot: bool, i: nat, n: nat)
    requires i <= n <= |es| && (n < |es| ==> es[n][0] == 0)
    requires forall j :: i <= j < n ==> !Matches(es[j], name, last, inRoot)
    ensures FirstHit(es, name, last, inRoot, i) == None
    decreases n - i
  {
    if i < n {
      FirstHitNone(es, name, last, inRoot, i + 1, n);
    }
  }

  /**
    Of the entries before the first that begins with a zero byte, entry k is the first whose eleven bytes are name and
    whose attribute byte is one of attrs.
   */
  ghost predicate FirstOf(es: seq<Entry>, name: seq<byte>, attrs: set<byte>, k: nat)
  {
    && k < |es| && (forall j :: 0 <= j <= k ==> es[j][0] != 0)
    && es[k][0..11] == name && es[k][11] in attrs
    && forall j :: 0 <= j < k && es[j][0..11] == name ==> es[j][11] !in attrs
  }

  /** e is that entry. */
  ghost predicate Picks(es: seq<Entry>, name: seq<byte>, attrs: set<byte>, e: Entry)
  {
    exists k: nat :: FirstOf(es, name, attrs, k) && es[k] == e
  }

  /** The attributes that a search takes below the root: a plain file is passed over while components remain. */
  function Taken(last: bool): set<byte> { if last then {0x10, 0x20} else {0x10} }

  /** The search in the root takes the first plain file or directory of that name, whatever remains of the path. */
  lemma RootHitIff(es: seq<Entry>, name: seq<byte>, last: bool, e: Entry)
    ensures FirstHit(es, name, last, true) == Some(e) <==> Picks(es, name, {0x10, 0x20}, e)
  {
    HitIff(es, name, last, true, {0x10, 0x20}, e);
  }

  /** Below the root it takes either for the last component, and directories only before; and only ASCII names. */
  lemma SubdirHitIff(es: seq<Entry>, name: seq<byte>, last: bool, e: Entry)
    ensures FirstHit(es, name, last, false) == Some(e) <==>
              (forall i :: 0 <= i < |name| ==> name[i] < 0x80) && Picks(es, name, Taken(last), e)
  {
    if Ascii(name) {
      HitIff(es, name, last, false, Taken(last), e);
    } else {
      NoHit(es, name, last, 0);
    }
  }

  lemma {:induction false} NoHit(es: seq<Entry>, name: seq<byte>, last: bool, i: nat)
    requires i <= |es| && !Ascii(name)
    ensures FirstHit(es, name, last, false, i) == None
    decreases |es| - i
  {
    if i < |es| {
      NoHit(es, name, last, i + 1);
    }
  }

  /** An entry that is searched for is one with the name and one of these attributes. */
  ghost predicate Sought(es: seq<Entry>, name: seq<byte>, last: bool, inRoot: bool, attrs: set<byte>)
  {
    forall j :: 0 <= j < |es| ==> (Matches(es[j], name, last, inRoot) <==> es[j][0..11] == name && es[j][11] in attrs)
  }

  lemma HitIff(es: seq<Entry>, name: seq<byte>, last: bool, inRoot: bool, attrs: set<byte>, e: Entry)
    requires Sought(es, name, last, inRoot, attrs)
    ensures FirstHit(es, name, last, inRoot) == Some(e) <==> Picks(es, name, attrs, e)
  {
    var hit := FirstHit(es, name, last, inRoot);
    if hit.Some? {
      var k := HitSlot(es, name, last, inRoot, attrs, 0);
    }
    forall k: nat | FirstOf(es, name, attrs, k)
      ensures hit == Some(es[k])
    {
      FirstHitIs(es, name, last, inRoot, 0, k);
    }
  }

  lemma {:induction false} HitSlot(es: seq<Entry>, name: seq<byte>, last: bool, inRoot: bool, attrs: set<byte>, i: nat)
    returns (k: nat)
    requires i <= |es| && Sought(es, name, last, inRoot, attrs) && FirstHit(es, name, last, inRoot, i).Some?
    requires forall j :: 0 <= j < i ==> es[j][0] != 0 && (es[j][0..11] == name ==> es[j][11] !in attrs)
    ensures FirstOf(es, name, attrs, k) && FirstHit(es, name, last, inRoot, i) == Some(es[k])
    decreases |es| - i
  {
    if Matches(es[i], name, last, inRoot) {
      k := i;
    } else {
      k := HitSlot(es, name, last, inRoot, attrs, i + 1);
    }
  }

  predicate Reusable(e: Entry) { e[0] == 0 || e[0] == DELETED }

  /** The first slot from i on that creation may take: a terminator or a deleted entry. */
  function FreeSlot(es: seq<Entry>, i: nat := 0): (r: nat)
    requires i <= |es|
    ensures i <= r <= |es| && (r < |es| ==> Reusable(es[r]))
    ensures forall j :: i <= j < r ==> !Reusable(es[j])
    decreases |es| - i
  {
    if i == |es| || Reusable(es[i]) then i else FreeSlot(es, i + 1)
  }

  /** The names that the entries show. */
  function ShownNames(es: seq<Entry>): (r: seq<seq<byte>>)
    ensures |r| == |es|
  {
    seq(|es|, i requires 0 <= i < |es| => Shown(es[i]))
  }

  /** The first position from i on at which names has n. */
  function IndexOf(names: seq<seq<byte>>, n: seq<byte>, i: nat): (r: nat)
    requires i <= |names|
    ensures i <= r <= |names| && (r < |names| ==> names[r] == n)
    ensures forall j :: i <= j < r ==> names[j] != n
    decreases |names| - i
  {
    if i == |names| || names[i] == n then i else IndexOf(names, n, i + 1)
  }

  lemma {:induction false} IndexOfIs(names: seq<seq<byte>>, n: seq<byte>, i: nat, k: nat)
    requires i <= k <= |names| && (k < |names| ==> names[k] == n)
    requires forall j :: i <= j < k ==> names[j] != n
    ensures IndexOf(names, n, i) == k
    decreases k - i
  {
    if i < k {
      IndexOfIs(names, n, i + 1, k);
    }
  }

  /** The first entry from i on that shows the name n, wherever the terminator is. */
  function ShownSlot(es: seq<Entry>, n: seq<byte>, i: nat := 0): (r: nat)
    requires i <= |es|
    ensures i <= r <= |es|
  {
    IndexOf(ShownNames(es), n, i)
  }

  /** The directory after b has been written at offset o of the first entry that shows n. */
  function Patched(es: seq<Entry>, n: seq<byte>, o: nat, b: seq<byte>): (r: seq<Entry>)
    requires o + |b| <= DIR_BYTES
    ensures |r| == |es|
  {
    var i := ShownSlot(es, n);
    if i < |es| then es[i := Splice(es[i], o, b)] else es
  }

  function Resized(es: seq<Entry>, n: seq<byte>, size: dword): seq<Entry>
  {
    Patched(es, n, 28, DWordBytes(size))
  }

  function Struck(es: seq<Entry>, n: seq<byte>): seq<Entry>
  {
    Patched(es, n, 0, [DELETED])
  }

  /** Entry slot is the first one that shows the name n. */
  ghost predicate ShowsFirst(es: seq<Entry>, n: seq<byte>, slot: nat)
  {
    slot < |es| && forall j {:trigger Shown(es[j])} :: 0 <= j <= slot ==> (Shown(es[j]) == n <==> j == slot)
  }

  lemma ShowsFirstIs(es: seq<Entry>, n: seq<byte>, slot: nat)
    requires ShowsFirst(es, n, slot)
    ensures ShownSlot(es, n) == slot
  {
    var names := ShownNames(es);
    forall j | 0 <= j <= slot
      ensures names[j] == n <==> j == slot
    {
      assert names[j] == Shown(es[j]);
    }
    IndexOfIs(names, n, 0, slot);
  }

  lemma SameNames(es: seq<Entry>, r: seq<Entry>, i: nat)
    requires i < |es| == |r| && r == es[i := r[i]] && Name(r[i]) == Name(es[i])
    ensures ShownNames(r) == ShownNames(es)
  {
  }

  /** Only the last of several edits beyond the name matters. */
  lemma PatchedAgain(es: seq<Entry>, n: seq<byte>, o: nat, a: seq<byte>, b: seq<byte>)
    requires 11 <= o && o + |b| <= DIR_BYTES && |a| == |b|
    ensures Patched(Patched(es, n, o, a), n, o, b) == Patched(es, n, o, b)
  {
    var i := ShownSlot(es, n);
    if i < |es| {
      var r := Patched(es, n, o, a);
      assert Name(r[i]) == Name(es[i]);
      SameNames(es, r, i);
      assert Splice(Splice(es[i], o, a), o, b) == Splice(es[i], o, b);
    }
  }

  /** An entry that readdir reports. */
  predicate Listable(e: Entry) { (Attr(e) == ATTR_ARCHIVE || Attr(e) == ATTR_DIRECTORY) && e[0] != DELETED }

  /** The names readdir reports, from entry i up to the first terminator. */
  function Listed(es: seq<Entry>, i: nat := 0): seq<seq<byte>>
    requires i <= |es|
    decreases |es| - i
  {
    if i == |es| || es[i][0] == 0 then []
    else (if Listable(es[i]) then [Decode(Name(es[i]))] else []) + Listed(es, i + 1)
  }

  lemma ListedStep(names: seq<seq<byte>>, es: seq<Entry>, i: nat)
    requires i < |es| && es[i][0] != 0
    ensures names + Listed(es, i)
         == (if Listable(es[i]) then names + [Decode(Name(es[i]))] else names) + Listed(es, i + 1)
  {
    if Listable(es[i]) {
      assert names + ([Decode(Name(es[i]))] + Listed(es, i + 1)) == names + [Decode(Name(es[i]))] + Listed(es, i + 1);
    }
  }

  /**
    Entry i is reported: neither it nor one before it begins with a zero byte, its attribute is that of a plain file
    or of a directory, and it is not deleted.
   */
  ghost predicate ToReport(es: seq<Entry>, i: nat)
  {
    && i < |es| && (forall j :: 0 <= j <= i ==> es[j][0] != 0)
    && (es[i][11] == 0x10 || es[i][11] == 0x20) && es[i][0] != 0xe5
  }

  /** slots are the entries from i on that are reported, in their order. */
  ghost predicate ReportSlots(es: seq<Entry>, slots: seq<nat>, i: nat := 0)
  {
    Increasing(i, |es|, slots) && forall k: nat :: k in slots <==> i <= k && ToReport(es, k)
  }

  /** names are the decoded names of those entries, one for each. */
  ghost predicate ReportsNames(es: seq<Entry>, names: seq<seq<byte>>)
  {
    exists slots :: ReportSlots(es, slots) && NamesAt(es, slots, names)
  }

  ghost predicate NamesAt(es: seq<Entry>, slots: seq<nat>, names: seq<seq<byte>>)
  {
    |names| == |slots| && forall a :: 0 <= a < |slots| ==> slots[a] < |es| && names[a] == Decode(es[slots[a]][0..11])
  }

  lemma {:induction false} ListedSlots(es: seq<Entry>, i: nat) returns (slots: seq<nat>)
    requires i <= |es| && forall j :: 0 <= j < i ==> es[j][0] != 0
    ensures ReportSlots(es, slots, i) && NamesAt(es, slots, Listed(es, i))
    decreases |es| - i
  {
    if i == |es| || es[i][0] == 0 {
      slots := [];
    } else {
      slots := ListedSlots(es, i + 1);
      assert ToReport(es, i) <==> Listable(es[i]);
      if Listable(es[i]) {
        SlotsBefore(es, i, slots, Listed(es, i + 1));
        slots := [i] + slots;
      }
    }
  }

  lemma SlotsBefore(es: seq<Entry>, i: nat, slots: seq<nat>, names: seq<seq<byte>>)
    requires ReportSlots(es, slots, i + 1) && ToReport(es, i) && NamesAt(es, slots, names)
    ensures ReportSlots(es, [i] + slots, i) && NamesAt(es, [i] + slots, [Decode(Name(es[i]))] + names)
  {
    forall a | 0 <= a < |slots|
      ensures i < slots[a]
    {
      assert slots[a] in slots;
    }
  }

  /** readdir reports these names, of files and directories, in the order of their slots, and no others. */
  lemma ListedIff(es: seq<Entry>, names: seq<seq<byte>>)
    ensures names == Listed(es) <==> ReportsNames(es, names)
  {
    var slots := ListedSlots(es, 0);
    forall other | ReportSlots(es, other) && NamesAt(es, other, names)
      ensures names == Listed(es)
    {
      IncreasingUnique(0, |es|, slots, other);
    }
  }

  /** In particular every directory that is not deleted. */
  lemma DirectoryListed(es: seq<Entry>, i: nat)
    requires i < |es| && (forall j :: 0 <= j <= i ==> es[j][0] != 0) && es[i][11] == 0x10 && es[i][0] != 0xe5
    ensures Decode(es[i][0..11]) in Listed(es)
  {
    var slots := ListedSlots(es, 0);
    assert ToReport(es, i);
    var a :| 0 <= a < |slots| && slots[a] == i;
    assert Listed(es)[a] == Decode(es[i][0..11]);
  }

  // ----- reading entries through a sector buffer

  /** The entry that the program copies out of its sector buffer for index j. */
  function Cut(buffer: seq<byte>, j: nat): Entry
    requires |buffer| == SECTOR
  {
    assert j * DIR_BYTES % SECTOR == j % 16 * DIR_BYTES;
    buffer[j * DIR_BYTES % SECTOR..j * DIR_BYTES % SECTOR + DIR_BYTES]
  }

  /** buffer is the cnt-th sector of the entries es and holds entry t, if there is one. */
  ghost predicate Cursor(es: seq<Entry>, t: nat, cnt: nat, buffer: seq<byte>)
  {
    && |buffer| == SECTOR
    && (t < |es| ==>
          && 16 * (cnt - 1) <= t < 16 * cnt
          && forall j {:trigger Cut(buffer, j)} ::
               16 * (cnt - 1) <= j < 16 * cnt && j < |es| ==> Cut(buffer, j) == es[j])
  }

  lemma SectorUsedUp(i: nat, cnt: nat)
    requires i % 16 == 0 && 16 * (cnt - 1) < i <= 16 * cnt
    ensures i == 16 * cnt
  {
  }

  lemma CursorOn(es: seq<Entry>, i: nat, cnt: nat, buffer: seq<byte>)
    requires 1 <= i <= |es| && Cursor(es, i - 1, cnt, buffer) && (i % 16 != 0 || i == |es|)
    ensures Cursor(es, i, cnt, buffer)
  {
    if i % 16 != 0 {
      assert i < 16 * cnt;
    }
  }

  /** Sector m of a cluster holds entries 16m .. 16m + 15 of it. */
  lemma ClusterCursor(b: seq<byte>, m: nat, buffer: seq<byte>)
    requires (m + 1) * SECTOR <= |b| && buffer == b[m * SECTOR..(m + 1) * SECTOR]
    ensures Cursor(Slices(b), 16 * m, m + 1, buffer)
  {
    forall j | 16 * m <= j < 16 * (m + 1) && j < |Slices(b)|
      ensures Cut(buffer, j) == Slices(b)[j]
    {
      var o := j * DIR_BYTES - m * SECTOR;
      assert j * DIR_BYTES % SECTOR == o by {
        assert j * DIR_BYTES == m * SECTOR + (j - 16 * m) * DIR_BYTES;
      }
      SubSlice(b, m * SECTOR, SECTOR, o, DIR_BYTES);
    }
  }

  lemma RootCursor(g: Geometry, s: seq<byte>, m: nat)
    requires Fits(g, s) && 16 * m < g.rootEntries
    ensures InImage(s, g.rootSector + m)
    ensures Cursor(Abs(g, s).root, 16 * m, m + 1, SectorOf(s, g.rootSector + m))
  {
    RootSectorPos(g, 16 * m);
    forall j | 16 * m <= j < 16 * (m + 1) && j < g.rootEntries
      ensures Cut(SectorOf(s, g.rootSector + m), j) == Abs(g, s).root[j]
    {
      assert j / 16 == m;
      RootSector(g, s, j);
    }
  }

  // ----- the entries of a subdirectory

  /** The 32-byte entries that make up b. */
  function Slices(b: seq<byte>): (es: seq<Entry>)
    ensures |es| == |b| / DIR_BYTES
  {
    seq(|b| / DIR_BYTES, i requires 0 <= i < |b| / DIR_BYTES => b[i * DIR_BYTES..(i + 1) * DIR_BYTES])
  }

  ghost function Listing(d: Disk, cs: seq<nat>): seq<Entry>
    requires Readable(d.data, cs)
  {
    if cs == [] then [] else Slices(d.data[cs[0] - 2]) + Listing(d, cs[1..])
  }

  /** The search as the walk performs it, from entry t of the ci-th cluster on. */
  ghost function HitFrom(d: Disk, cs: seq<nat>, ci: nat, t: nat, name: seq<byte>, last: bool): Option<Entry>
    requires Readable(d.data, cs) && ci <= |cs| && (ci < |cs| ==> t <= |Slices(d.data[cs[ci] - 2])|)
    decreases |cs| - ci, if ci < |cs| then |Slices(d.data[cs[ci] - 2])| - t else 0
  {
    if ci == |cs| then None
    else
      var es := Slices(d.data[cs[ci] - 2]);
      if t == |es| then HitFrom(d, cs, ci + 1, 0, name, last)
      else if es[t][0] == 0 then None
      else if Matches(es[t], name, last, false) then Some(es[t])
      else HitFrom(d, cs, ci, t + 1, name, last)
  }

  lemma {:induction false} FirstHitConcat(a: seq<Entry>, b: seq<Entry>, name: seq<byte>, last: bool, inRoot: bool,
                                          i: nat)
    requires i <= |b|
    ensures FirstHit(a + b, name, last, inRoot, |a| + i) == FirstHit(b, name, last, inRoot, i)
    decreases |b| - i
  {
    if i < |b| {
      assert (a + b)[|a| + i] == b[i];
      FirstHitConcat(a, b, name, last, inRoot, i + 1);
    }
  }

  /** Entry by entry over sectors and clusters is the same as a search of the flattened directory. */
  lemma {:induction false} HitFromIs(d: Disk, cs: seq<nat>, ci: nat, t: nat, name: seq<byte>, last: bool)
    requires Readable(d.data, cs) && ci < |cs| && t <= |Slices(d.data[cs[ci] - 2])|
    ensures t <= |Listing(d, cs[ci..])|
    ensures HitFrom(d, cs, ci, t, name, last) == FirstHit(Listing(d, cs[ci..]), name, last, false, t)
    decreases |cs| - ci, |Slices(d.data[cs[ci] - 2])| - t
  {
    var es := Slices(d.data[cs[ci] - 2]);
    var rest := Listing(d, cs[ci + 1..]);
    assert cs[ci..][1..] == cs[ci + 1..];
    assert Listing(d, cs[ci..]) == es + rest;
    if t == |es| {
      FirstHitConcat(es, rest, name, last, false, 0);
      if ci + 1 < |cs| {
        HitFromIs(d, cs, ci + 1, 0, name, last);
      }
    } else {
      assert (es + rest)[t] == es[t];
      HitFromIs(d, cs, ci, t + 1, name, last);
    }
  }

  /** Directory walks recognise only END as the end of a chain. */
  ghost predicate IsDirectory(d: Disk, cs: seq<nat>)
    requires Sound(d)
  {
    IsChain(d.fat1, Hi(d), cs) && (cs[|cs| - 1] < |d.fat1| ==> d.fat1[cs[|cs| - 1]] == END)
  }

  ghost predicate HasDirectory(d: Disk, c: nat)
    requires Sound(d)
  {
    exists cs :: IsDirectory(d, cs) && cs[0] == c
  }

  ghost function DirectoryAt(d: Disk, c: nat): (cs: seq<nat>)
    requires Sound(d) && HasDirectory(d, c)
    ensures IsDirectory(d, cs) && cs[0] == c && Readable(d.data, cs)
  {
    var cs :| IsDirectory(d, cs) && cs[0] == c;
    ChainReadable(d.fat1, Hi(d), cs, d.data);
    cs
  }

  /** The flattened entries of the directory at cluster c. */
  ghost function Entries(d: Disk, c: nat): seq<Entry>
    requires Sound(d) && HasDirectory(d, c)
  {
    Listing(d, DirectoryAt(d, c))
  }

  /** Entry k of a directory is the k-th piece of 32 bytes of its clusters, one after the other. */
  lemma {:induction false} ListingBytes(d: Disk, m: nat, cs: seq<nat>, k: nat)
    requires Readable(d.data, cs) && Uniform(d.data, 32 * m) && k < |Listing(d, cs)|
    ensures 32 * k + 32 <= |Gather(d.data, cs)| && Listing(d, cs)[k] == Gather(d.data, cs)[32 * k..32 * k + 32]
    decreases |cs|
  {
    var b := d.data[cs[0] - 2];
    var all := Gather(d.data, cs);
    assert |Slices(b)| == m;
    if k >= m {
      ListingBytes(d, m, cs[1..], k - m);
      assert all[32 * k..32 * k + 32] == Gather(d.data, cs[1..])[32 * (k - m)..32 * (k - m) + 32];
    } else {
      assert all[32 * k..32 * k + 32] == b[32 * k..32 * k + 32];
    }
  }

  /** A walk through the directory cs stands at entry i, counted from 1, of its ci-th cluster. */
  ghost predicate Walking(d: Disk, spc: nat, cs: seq<nat>, ci: nat, clusterN: word, fatVal: word,
                          i: nat, cnt: nat, buffer: seq<byte>)
    requires Sound(d) && Readable(d.data, cs)
  {
    && ci < |cs| && clusterN == cs[ci] && fatVal == d.fat1[clusterN]
    && 1 <= i <= 16 * spc == |Slices(d.data[clusterN - 2])| && 1 <= cnt <= spc
    && Cursor(Slices(d.data[clusterN - 2]), i - 1, cnt, buffer)
  }

  lemma WalkOn(d: Disk, spc: nat, cs: seq<nat>, ci: nat, clusterN: word, fatVal: word,
               i: nat, cnt: nat, buffer: seq<byte>)
    requires Sound(d) && Readable(d.data, cs) && Walking(d, spc, cs, ci, clusterN, fatVal, i, cnt, buffer)
    requires i % 16 != 0
    ensures Walking(d, spc, cs, ci, clusterN, fatVal, i + 1, cnt, buffer)
  {
    assert i < 16 * cnt;
  }

  lemma WalkToSector(d: Disk, spc: nat, cs: seq<nat>, ci: nat, clusterN: word, fatVal: word,
                     i: nat, cnt: nat, buffer: seq<byte>, buffer': seq<byte>)
    requires Sound(d) && Readable(d.data, cs) && Walking(d, spc, cs, ci, clusterN, fatVal, i, cnt, buffer)
    requires i == 16 * cnt && cnt < spc && Cursor(Slices(d.data[clusterN - 2]), i, cnt + 1, buffer')
    ensures Walking(d, spc, cs, ci, clusterN, fatVal, i + 1, cnt + 1, buffer')
  {
  }

  // ----- the slot of a new entry below the root

  /** Entry t of the ci-th cluster of a directory. */
  datatype Spot = Spot(ci: nat, t: nat)

  /** The first entry from entry t of the ci-th cluster on that a new one may take. */
  ghost function FreeFrom(d: Disk, cs: seq<nat>, ci: nat, t: nat): (r: Option<Spot>)
    requires Readable(d.data, cs) && ci <= |cs| && (ci < |cs| ==> t <= |Slices(d.data[cs[ci] - 2])|)
    ensures r.Some? ==> r.value.ci < |cs|
    decreases |cs| - ci, if ci < |cs| then |Slices(d.data[cs[ci] - 2])| - t else 0
  {
    if ci == |cs| then None
    else
      var es := Slices(d.data[cs[ci] - 2]);
      if t == |es| then FreeFrom(d, cs, ci + 1, 0)
      else if Reusable(es[t]) then Some(Spot(ci, t))
      else FreeFrom(d, cs, ci, t + 1)
  }

  /** Entry t of the ci-th cluster exists and is a terminator or deleted. */
  ghost predicate FreeAt(d: Disk, cs: seq<nat>, spot: Spot)
    requires Readable(d.data, cs)
  {
    && spot.ci < |cs| && spot.t < |Slices(d.data[cs[spot.ci] - 2])|
    && (Slices(d.data[cs[spot.ci] - 2])[spot.t][0] == 0 || Slices(d.data[cs[spot.ci] - 2])[spot.t][0] == 0xe5)
  }

  predicate NotBefore(spot: Spot, ci: nat, t: nat) { spot.ci > ci || (spot.ci == ci && spot.t >= t) }

  /** It is found if there is one, and it is the first. */
  lemma {:induction false} FreeFromFirst(d: Disk, cs: seq<nat>, ci: nat, t: nat, other: Spot)
    requires Readable(d.data, cs) && ci <= |cs| && (ci < |cs| ==> t <= |Slices(d.data[cs[ci] - 2])|)
    ensures var r := FreeFrom(d, cs, ci, t);
            && (r.Some? ==> FreeAt(d, cs, r.value) && NotBefore(r.value, ci, t))
            && (FreeAt(d, cs, other) && NotBefore(other, ci, t) ==>
                  r.Some? && NotBefore(other, r.value.ci, r.value.t))
    decreases |cs| - ci, if ci < |cs| then |Slices(d.data[cs[ci] - 2])| - t else 0
  {
    if ci < |cs| {
      var es := Slices(d.data[cs[ci] - 2]);
      if t == |es| {
        FreeFromFirst(d, cs, ci + 1, 0, other);
      } else if !Reusable(es[t]) {
        FreeFromFirst(d, cs, ci, t + 1, other);
      }
    }
  }

  /** The byte position of an entry. */
  function SpotPos(g: Geometry, cs: seq<nat>, spot: Spot): int
    requires spot.ci < |cs| && cs[spot.ci] >= 2
  {
    g.ClusterPos(cs[spot.ci]) + spot.t * DIR_BYTES
  }

  /** It is the last of the whole directory: the program gives up although it is free. */
  predicate LastOfAll(g: Geometry, cs: seq<nat>, spot: Spot)
  {
    spot.t + 1 == 16 * g.sectorsPerCluster && spot.ci + 1 == |cs|
  }

  /** The walk has gone on to the entry after it, the i-th, counted from 1, of the ci-th cluster. */
  predicate StandsAfter(g: Geometry, cs: seq<nat>, spot: Spot, ci: nat, i: nat)
  {
    && spot.t < 16 * g.sectorsPerCluster
    && if spot.t + 1 < 16 * g.sectorsPerCluster then ci == spot.ci < |cs| && i == spot.t + 2
       else ci == spot.ci + 1 < |cs| && i == 1
  }

  /** Where the program puts an entry: it has gone on to the next one, and steps back within that one's sector only. */
  function PlaceBefore(g: Geometry, c: nat, i: nat): int
    requires c >= 2 && i >= 1
  {
    if i == 1 then g.ClusterPos(c) - DIR_BYTES
    else g.ClusterPos(c) + (i - 2) * DIR_BYTES + if i % 16 == 1 then SECTOR else 0
  }

  /** The same in terms of the free entry. */
  function PlaceBelow(g: Geometry, cs: seq<nat>, spot: Spot): int
    requires spot.ci < |cs| && forall k :: 0 <= k < |cs| ==> cs[k] >= 2
  {
    if (spot.t + 1) % 16 != 0 then SpotPos(g, cs, spot)
    else if spot.t + 1 != 16 * g.sectorsPerCluster then SpotPos(g, cs, spot) + SECTOR
    else if spot.ci + 1 < |cs| then g.ClusterPos(cs[spot.ci + 1]) - DIR_BYTES
    else 0
  }

  lemma PlaceAfter(g: Geometry, cs: seq<nat>, spot: Spot, ci: nat, i: nat)
    requires (forall k :: 0 <= k < |cs| ==> cs[k] >= 2) && StandsAfter(g, cs, spot, ci, i)
    ensures !LastOfAll(g, cs, spot) && PlaceBefore(g, cs[ci], i) == PlaceBelow(g, cs, spot)
  {
  }

  lemma PlaceParts(i: nat, cnt: nat)
    requires 1 <= i && 1 <= cnt && 16 * (cnt - 1) <= i - 1 < 16 * cnt
    ensures i >= 2 ==>
              (cnt - 1) * SECTOR + (i - 2) * DIR_BYTES % SECTOR
              == (i - 2) * DIR_BYTES + if i % 16 == 1 then SECTOR else 0
    ensures i == 1 ==> cnt == 1
  {
    var r := i - 1 - 16 * (cnt - 1);
    if r > 0 {
      InSector(cnt - 1, (r - 1) * DIR_BYTES);
      assert (i - 2) * DIR_BYTES == (cnt - 1) * SECTOR + (r - 1) * DIR_BYTES;
    } else if cnt > 1 {
      InSector(cnt - 2, 15 * DIR_BYTES);
      assert (i - 2) * DIR_BYTES == (cnt - 2) * SECTOR + 15 * DIR_BYTES;
    }
  }

  lemma InSector(k: nat, o: nat)
    requires o < SECTOR
    ensures (k * SECTOR + o) % SECTOR == o
  {
  }

  /**
    The new entry goes to the free slot exactly if that is not the last of its sector; or if it is the last of its
    cluster and
    the next cluster of the directory is also the next on the disk.
   */
  lemma PlaceRightIff(g: Geometry, cs: seq<nat>, spot: Spot)
    requires g.Supported() && spot.ci < |cs| && spot.t < 16 * g.sectorsPerCluster && !LastOfAll(g, cs, spot)
    requires forall k :: 0 <= k < |cs| ==> cs[k] >= 2
    ensures PlaceBelow(g, cs, spot) == SpotPos(g, cs, spot) <==>
              || (spot.t + 1) % 16 != 0
              || (spot.t + 1 == 16 * g.sectorsPerCluster && cs[spot.ci + 1] == cs[spot.ci] + 1)
  {
    if spot.t + 1 == 16 * g.sectorsPerCluster {
      NextOnDisk(g, cs[spot.ci], cs[spot.ci + 1]);
    }
  }

  /** For instance, in clusters of four sectors an entry meant for the sixteenth slot goes to the thirty-second. */
  lemma SixteenthMissed(g: Geometry, cs: seq<nat>)
    requires g.Supported() && g.sectorsPerCluster == 4 && cs != [] && forall k :: 0 <= k < |cs| ==> cs[k] >= 2
    ensures PlaceBelow(g, cs, Spot(0, 15)) == SpotPos(g, cs, Spot(0, 31)) != SpotPos(g, cs, Spot(0, 15))
  {
  }

  lemma NextOnDisk(g: Geometry, c: nat, k: nat)
    requires g.Supported() && c >= 2 && k >= 2
    ensures g.ClusterPos(k) == g.ClusterPos(c) + g.ClusterBytes() <==> k == c + 1
  {
    if k > c + 1 {
      ClusterStep(g, c + 1, k);
      ClusterStep(g, c, c + 1);
    } else if k < c {
      ClusterStep(g, k, c);
    }
  }

  // ----- resolving a path

  /** Below the root a component that is not the last one leads to the directory sub. */
  ghost predicate LeadsOn(d: Disk, c: nat, name: seq<byte>, sub: Entry)
    requires Sound(d) && HasDirectory(d, c)
  {
    (forall i :: 0 <= i < |name| ==> name[i] < 0x80) && Picks(Entries(d, c), name, {0x10}, sub)
  }

  /** Every directory the search enters from cluster c has a chain ended by END. */
  ghost predicate Walkable(d: Disk, c: nat, names: seq<seq<byte>>)
    requires Sound(d)
    decreases |names|
  {
    && names != [] && HasDirectory(d, c)
    && forall sub: Entry ::
         |names| > 1 && LeadsOn(d, c, names[0], sub) ==> Walkable(d, FirstCluster(sub), names[1..])
  }

  /** From the directory at cluster c names lead to e: through directories, to a plain file or a directory. */
  ghost predicate LeadsFrom(d: Disk, c: nat, names: seq<seq<byte>>, e: Entry)
    requires Sound(d)
    decreases |names|
  {
    && names != [] && HasDirectory(d, c)
    && if |names| == 1
       then (forall i :: 0 <= i < |names[0]| ==> names[0][i] < 0x80) && Picks(Entries(d, c), names[0], {0x10, 0x20}, e)
       else exists sub: Entry ::
              LeadsOn(d, c, names[0], sub) && LeadsFrom(d, FirstCluster(sub), names[1..], e)
  }

  /** The entry that names stand for, searched from the directory at cluster c. */
  ghost function ResolveIn(d: Disk, c: nat, names: seq<seq<byte>>): Option<Entry>
    requires Sound(d) && Walkable(d, c, names)
    decreases |names|
  {
    var hit := FirstHit(Entries(d, c), names[0], |names| == 1, false);
    if hit.None? || |names| == 1 then hit
    else
      SubdirHitIff(Entries(d, c), names[0], false, hit.value);
      ResolveIn(d, FirstCluster(hit.value), names[1..])
  }

  /** The search from a directory finds an entry exactly if the path leads to it. */
  lemma {:induction false} ResolveInIff(d: Disk, c: nat, names: seq<seq<byte>>, e: Entry)
    requires Sound(d) && Walkable(d, c, names)
    ensures ResolveIn(d, c, names) == Some(e) <==> LeadsFrom(d, c, names, e)
    decreases |names|
  {
    var es := Entries(d, c);
    if |names| == 1 {
      SubdirHitIff(es, names[0], true, e);
    } else {
      forall sub: Entry
        ensures FirstHit(es, names[0], false, false) == Some(sub) <==> LeadsOn(d, c, names[0], sub)
      {
        SubdirHitIff(es, names[0], false, sub);
      }
      var hit := FirstHit(es, names[0], false, false);
      if hit.Some? {
        ResolveInIff(d, FirstCluster(hit.value), names[1..], e);
      }
    }
  }

  ghost predicate RootWalkable(d: Disk, names: seq<seq<byte>>)
    requires Sound(d)
  {
    && names != []
    && forall hit: Entry ::
         |names| > 1 && Picks(d.root, names[0], {0x10, 0x20}, hit) && hit[11] == 0x10 ==>
           Walkable(d, FirstCluster(hit), names[1..])
  }

  /** From the root names lead to e; a plain file that bears the first of them is the end of the path. */
  ghost predicate Leads(d: Disk, names: seq<seq<byte>>, e: Entry)
    requires Sound(d)
  {
    names != [] && exists hit: Entry ::
      && Picks(d.root, names[0], {0x10, 0x20}, hit)
      && if |names| == 1 || hit[11] == 0x20 then e == hit else LeadsFrom(d, FirstCluster(hit), names[1..], e)
  }

  ghost function Resolve(d: Disk, names: seq<seq<byte>>): Option<Entry>
    requires Sound(d) && RootWalkable(d, names)
  {
    var hit := FirstHit(d.root, names[0], |names| == 1, true);
    if hit.None? || |names| == 1 || Attr(hit.value) == ATTR_ARCHIVE then hit
    else
      RootHitIff(d.root, names[0], false, hit.value);
      ResolveIn(d, FirstCluster(hit.value), names[1..])
  }

  /** Path lookup finds an entry exactly if the path leads to it. */
  lemma ResolveIff(d: Disk, names: seq<seq<byte>>, e: Entry)
    requires Sound(d) && RootWalkable(d, names)
    ensures Resolve(d, names) == Some(e) <==> Leads(d, names, e)
  {
    var hit := FirstHit(d.root, names[0], |names| == 1, true);
    forall x: Entry
      ensures hit == Some(x) <==> Picks(d.root, names[0], {0x10, 0x20}, x)
    {
      RootHitIff(d.root, names[0], |names| == 1, x);
    }
    if hit.Some? && |names| > 1 && hit.value[11] == 0x10 {
      ResolveInIff(d, FirstCluster(hit.value), names[1..], e);
    }
  }
}
