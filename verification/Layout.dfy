/**
  The layout of a FAT16 volume and its abstraction: a byte image is viewed as a
  boot area, two allocation tables, the root directory and the data clusters.
  The commuting lemmas say that a byte write inside one of these parts changes
  exactly that part.
 */
module Layout {
  import opened Bytes

  const SECTOR := 512
  const DIR_BYTES := 32

  /** The BIOS parameter block fields that decide the layout. */
  datatype Bpb = Bpb(bytesPerSector: word, sectorsPerCluster: byte, reserved: word,
                     fats: byte, rootEntries: word, totalSectors: word, fatSectors: word)
  {
    function FirstRootSector(): nat { reserved + fatSectors * fats }

    function RootSectors(): nat
      requires bytesPerSector > 0
    {
      (rootEntries * DIR_BYTES + (bytesPerSector - 1)) / bytesPerSector
    }

    function FirstDataSector(): nat
      requires bytesPerSector > 0
    {
      reserved + fats * fatSectors + RootSectors()
    }

    /** How many data clusters the volume holds. */
    function ClusterCount(): nat
      requires bytesPerSector > 0 && sectorsPerCluster > 0 && FirstDataSector() <= totalSectors
    {
      (totalSectors - FirstDataSector()) / sectorsPerCluster
    }

    /** The volumes the program's 16-bit arithmetic can address. */
    predicate Usable()
    {
      && bytesPerSector == SECTOR && sectorsPerCluster > 0 && reserved > 0 && fats >= 2
      && FirstDataSector() <= totalSectors
      && ClusterCount() + 2 <= 0x8000
      && 2 * (ClusterCount() + 2) <= fatSectors * SECTOR
    }

    function Layout(): Geometry
      requires Usable()
    {
      var n := ClusterCount();
      Geometry(sectorsPerCluster, reserved, fatSectors, FirstRootSector(), rootEntries, FirstDataSector(), n,
               FirstDataSector() + Span(n, sectorsPerCluster))
    }
  }

  datatype Part = FirstTable | SecondTable | RootDirectory | ClusterArea

  /** Where the parts of a volume are, in sectors of 512 bytes; clusters are numbered from 2. */
  datatype Geometry = Geometry(sectorsPerCluster: byte, reserved: word, fatSectors: word,
                               rootSector: nat, rootEntries: word, dataSector: nat, clusters: nat, endSector: nat)
  {
    /** The sector at which a part begins. */
    function Start(part: Part): nat
    {
      match part
      case FirstTable => reserved
      case SecondTable => reserved + fatSectors
      case RootDirectory => rootSector
      case ClusterArea => dataSector
    }

    /** The sector at which the next part may begin. */
    function Limit(part: Part): nat
    {
      match part
      case FirstTable => reserved + fatSectors
      case SecondTable => rootSector
      case RootDirectory => dataSector
      case ClusterArea => endSector
    }

    /** How many bytes a part needs. */
    function Extent(part: Part): nat
    {
      match part
      case FirstTable => 2 * TableLength()
      case SecondTable => 2 * TableLength()
      case RootDirectory => rootEntries * DIR_BYTES
      case ClusterArea => Span(clusters, ClusterBytes())
    }

    /** The parts follow one another, the tables cover the clusters, and 16 bits address it all. */
    ghost predicate Supported()
    {
      && sectorsPerCluster > 0 && reserved > 0 && endSector <= 0xffff
      && clusters + 2 <= 0x8000 && clusters + 2 <= TableLength()
      && forall part {:trigger Start(part)} :: Start(part) * SECTOR + Extent(part) <= Limit(part) * SECTOR
    }

    function ClusterBytes(): nat { sectorsPerCluster * SECTOR }

    function TableLength(): nat { fatSectors * 256 }

    predicate IsCluster(c: int) { 2 <= c < clusters + 2 }

    /** Byte position of entry c of allocation table t. */
    function FatPos(t: nat, c: nat): nat { (if t == 0 then reserved else reserved + fatSectors) * SECTOR + 2 * c }

    function RootPos(i: nat): nat { rootSector * SECTOR + i * DIR_BYTES }

    /** The first sector of cluster c. */
    function ClusterSector(c: nat): nat
      requires c >= 2
    {
      Span(c - 2, sectorsPerCluster) + dataSector
    }

    function ClusterPos(c: nat): nat
      requires c >= 2
    {
      dataSector * SECTOR + Span(c - 2, ClusterBytes())
    }
  }

  /** The layout computed from a usable parameter block keeps the parts apart and inside the volume. */
  lemma UsableIsSupported(b: Bpb)
    requires b.Usable()
    ensures b.Layout().Supported() && b.Layout().endSector <= b.totalSectors
  {
    var g := b.Layout();
    ClustersFit(b.totalSectors - b.FirstDataSector(), b.sectorsPerCluster);
    forall part {:trigger g.Start(part)}
      ensures g.Start(part) * SECTOR + g.Extent(part) <= g.Limit(part) * SECTOR
    {
      PartFits(b, part);
    }
  }

  lemma PartFits(b: Bpb, part: Part)
    requires b.Usable()
    ensures b.Layout().Start(part) * SECTOR + b.Layout().Extent(part) <= b.Layout().Limit(part) * SECTOR
  {
    match part
    case FirstTable =>
    case SecondTable => MulMono(2, b.fats, b.fatSectors);
    case RootDirectory => RootRounding(b);
    case ClusterArea => ClustersFit(b.totalSectors - b.FirstDataSector(), b.sectorsPerCluster);
  }

  /** As many clusters of q sectors as go into n sectors. */
  lemma ClustersFit(n: nat, q: nat)
    requires q > 0
    ensures Span(n / q, q) <= n && Span(n / q, q * SECTOR) == Span(n / q, q) * SECTOR
  {
    SpanDivision(n, q);
    SpanScale(n / q, q, SECTOR);
  }

  /** The data area begins at the first sector after the root directory. */
  lemma RootRounding(b: Bpb)
    requires b.Usable()
    ensures 0 <= b.FirstDataSector() * SECTOR - (b.FirstRootSector() * SECTOR + b.rootEntries * DIR_BYTES) < SECTOR
  {
    assert b.RootSectors() == (b.rootEntries * DIR_BYTES + 511) / 512;
    assert b.fats * b.fatSectors == b.fatSectors * b.fats;
  }

  /**
    The root directory follows all tables, the data area the last sector of the root directory, and there are as many
    clusters as the rest of the volume holds.
   */
  lemma LayoutMeans(b: Bpb)
    requires b.Usable()
    ensures var g := b.Layout();
            && g.sectorsPerCluster == b.sectorsPerCluster && g.reserved == b.reserved
            && g.fatSectors == b.fatSectors && g.rootEntries == b.rootEntries
            && g.rootSector == b.reserved + b.fats * b.fatSectors
            && 0 <= 512 * g.dataSector - (512 * g.rootSector + 32 * g.rootEntries) < 512
            && g.endSector == g.dataSector + Span(g.clusters, b.sectorsPerCluster)
            && 0 <= b.totalSectors - g.endSector < b.sectorsPerCluster
  {
    RootRounding(b);
    SpanDivision(b.totalSectors - b.FirstDataSector(), b.sectorsPerCluster);
    assert b.fats * b.fatSectors == b.fatSectors * b.fats;
  }

  /** For instance the volume of the program's own tests. */
  lemma TestVolume(b: Bpb)
    requires b.Usable() && b.reserved == 4 && b.fats == 2 && b.fatSectors == 60 && b.rootEntries == 512
    ensures b.Layout().rootSector == 124 && b.Layout().dataSector == 156
  {
    assert b.fats * b.fatSectors == 120 && b.fatSectors * b.fats == 120;
  }

  /** A directory entry, as its 32 raw bytes. */
  type Entry = e: seq<byte> | |e| == 32 witness seq(32, _ => 0)

  datatype Disk = Disk(boot: seq<byte>, fat1: seq<word>, fat2: seq<word>,
                       root: seq<Entry>, data: seq<seq<byte>>)

  ghost predicate Fits(g: Geometry, s: seq<byte>)
  {
    g.Supported() && g.endSector * SECTOR <= |s|
  }

  // ----- arithmetic of the layout

  /** The parts follow one another inside the image. */
  lemma Regions(g: Geometry)
    requires g.Supported()
    ensures 0 < g.reserved * SECTOR == g.FatPos(0, 0)
    ensures g.FatPos(0, g.TableLength()) == g.FatPos(1, 0)
    ensures g.FatPos(1, g.TableLength()) <= g.RootPos(0)
    ensures g.RootPos(g.rootEntries) <= g.ClusterPos(2)
    ensures g.ClusterPos(g.clusters + 2) <= g.endSector * SECTOR
  {
    assert g.Start(SecondTable) == g.reserved + g.fatSectors;
    assert g.Start(RootDirectory) == g.rootSector;
    assert g.Start(ClusterArea) == g.dataSector;
  }

  lemma ClusterStep(g: Geometry, c: nat, k: nat)
    requires g.Supported() && 2 <= c < k
    ensures g.ClusterPos(c) + g.ClusterBytes() <= g.ClusterPos(k)
  {
    SpanMono(c - 2, k - 2, g.ClusterBytes());
  }

  lemma MulMono(a: nat, b: nat, m: nat)
    requires a <= b
    ensures a * m <= b * m
  {
  }

  /** Every cluster's bytes lie in the data area. */
  lemma ClusterRange(g: Geometry, c: nat)
    requires g.Supported() && g.IsCluster(c)
    ensures g.ClusterPos(2) <= g.ClusterPos(c)
    ensures g.ClusterPos(c) + g.ClusterBytes() <= g.endSector * SECTOR
  {
    Regions(g);
    ClusterStep(g, c, g.clusters + 2);
    if c > 2 {
      ClusterStep(g, 2, c);
    }
  }

  // ----- the abstraction

  ghost function Table(g: Geometry, s: seq<byte>, t: nat): (r: seq<word>)
    requires Fits(g, s) && t < 2
    ensures |r| == g.TableLength()
  {
    Regions(g);
    seq(g.TableLength(), c requires 0 <= c < g.TableLength() => Word(s, g.FatPos(t, c)))
  }

  ghost function RootDir(g: Geometry, s: seq<byte>): (r: seq<Entry>)
    requires Fits(g, s)
    ensures |r| == g.rootEntries
  {
    Regions(g);
    ClusterAreaInside(g);
    seq(g.rootEntries, i requires 0 <= i < g.rootEntries => s[g.RootPos(i)..g.RootPos(i) + DIR_BYTES])
  }

  ghost function ClusterAt(g: Geometry, s: seq<byte>, c: nat): (r: seq<byte>)
    requires Fits(g, s) && g.IsCluster(c)
    ensures |r| == g.ClusterBytes()
  {
    ClusterRange(g, c);
    s[g.ClusterPos(c)..g.ClusterPos(c) + g.ClusterBytes()]
  }

  ghost function Data(g: Geometry, s: seq<byte>): (r: seq<seq<byte>>)
    requires Fits(g, s)
    ensures |r| == g.clusters
    ensures forall k :: 0 <= k < |r| ==> |r[k]| == g.ClusterBytes()
  {
    seq(g.clusters, k requires 0 <= k < g.clusters => ClusterAt(g, s, k + 2))
  }

  lemma ClusterAreaInside(g: Geometry)
    requires g.Supported()
    ensures g.ClusterPos(2) <= g.endSector * SECTOR
  {
    Regions(g);
  }

  ghost function Abs(g: Geometry, s: seq<byte>): (d: Disk)
    requires Fits(g, s)
    ensures WellShaped(g, d) && Sound(d)
  {
    Regions(g);
    Disk(Boot(g, s), Table(g, s, 0), Table(g, s, 1), RootDir(g, s), Data(g, s))
  }

  ghost function Boot(g: Geometry, s: seq<byte>): seq<byte>
    requires Fits(g, s)
  {
    Regions(g);
    ClusterAreaInside(g);
    s[..g.reserved * SECTOR]
  }

  ghost predicate WellShaped(g: Geometry, d: Disk)
    requires g.Supported()
  {
    && |d.fat1| == |d.fat2| == g.TableLength()
    && |d.root| == g.rootEntries
    && |d.data| == g.clusters
    && (forall k :: 0 <= k < |d.data| ==> |d.data[k]| == g.ClusterBytes())
  }

  /** Entry c of the tables: two bytes each, the low one first, 512 * fatSectors bytes apart. */
  lemma TableBytes(g: Geometry, s: seq<byte>, c: nat)
    requires Fits(g, s) && c < g.TableLength()
    ensures var p := 512 * g.reserved + 2 * c;
            var q := p + 512 * g.fatSectors;
            && q + 2 <= |s|
            && s[p] == Abs(g, s).fat1[c] % 0x100 && s[p + 1] == Abs(g, s).fat1[c] / 0x100
            && s[q] == Abs(g, s).fat2[c] % 0x100 && s[q + 1] == Abs(g, s).fat2[c] / 0x100
  {
    Regions(g);
    WordIff(s, g.FatPos(0, c), Abs(g, s).fat1[c]);
    WordIff(s, g.FatPos(1, c), Abs(g, s).fat2[c]);
  }

  /** Byte j of entry i of the root directory. */
  lemma RootBytes(g: Geometry, s: seq<byte>, i: nat, j: nat)
    requires Fits(g, s) && i < g.rootEntries && j < 32
    ensures 512 * g.rootSector + 32 * i + j < |s|
    ensures Abs(g, s).root[i][j] == s[512 * g.rootSector + 32 * i + j]
  {
    Regions(g);
    ClusterAreaInside(g);
  }

  /** Byte j of cluster c. */
  lemma ClusterBytesAre(g: Geometry, s: seq<byte>, c: nat, j: nat)
    requires Fits(g, s) && g.IsCluster(c) && j < 512 * g.sectorsPerCluster
    ensures var p := 512 * (g.dataSector + (c - 2) * g.sectorsPerCluster) + j;
            0 <= p < |s| && Abs(g, s).data[c - 2][j] == s[p]
  {
    ClusterRange(g, c);
    SpanScale(c - 2, g.sectorsPerCluster, SECTOR);
    SpanIsProduct(c - 2, g.sectorsPerCluster);
    assert Abs(g, s).data[c - 2] == ClusterAt(g, s, c);
  }

  /** One past the last cluster number. */
  function Hi(d: Disk): nat { |d.data| + 2 }

  /** The tables cover the clusters and cluster numbers fit the program's 16-bit arithmetic. */
  ghost predicate Sound(d: Disk)
  {
    Hi(d) <= |d.fat1| == |d.fat2| && Hi(d) <= 0x8000
  }

  // ----- frames: a write that stays clear of a part leaves the part alone

  lemma BootFrame(g: Geometry, s: seq<byte>, p: nat, b: seq<byte>)
    requires Fits(g, s) && g.FatPos(0, 0) <= p && p + |b| <= |s|
    ensures Boot(g, Splice(s, p, b)) == Boot(g, s)
  {
    Regions(g);
    ClusterAreaInside(g);
    SpliceOutside(s, p, b, 0, g.reserved * SECTOR);
  }

  lemma TableFrame(g: Geometry, s: seq<byte>, t: nat, p: nat, b: seq<byte>)
    requires Fits(g, s) && t < 2 && p + |b| <= |s|
    requires p + |b| <= g.FatPos(t, 0) || g.FatPos(t, g.TableLength()) <= p
    ensures Table(g, Splice(s, p, b), t) == Table(g, s, t)
  {
    Regions(g);
    forall c | 0 <= c < g.TableLength()
      ensures Table(g, Splice(s, p, b), t)[c] == Table(g, s, t)[c]
    {
      SpliceAt(s, p, b, g.FatPos(t, c));
      SpliceAt(s, p, b, g.FatPos(t, c) + 1);
    }
  }

  lemma RootFrame(g: Geometry, s: seq<byte>, p: nat, b: seq<byte>)
    requires Fits(g, s) && p + |b| <= |s|
    requires p + |b| <= g.RootPos(0) || g.RootPos(g.rootEntries) <= p
    ensures RootDir(g, Splice(s, p, b)) == RootDir(g, s)
  {
    Regions(g);
    ClusterAreaInside(g);
    forall i | 0 <= i < g.rootEntries
      ensures RootDir(g, Splice(s, p, b))[i] == RootDir(g, s)[i]
    {
      SpliceOutside(s, p, b, g.RootPos(i), DIR_BYTES);
    }
  }

  /** What a write anywhere does to the root entries. */
  lemma RootHit(g: Geometry, s: seq<byte>, p: nat, b: seq<byte>)
    requires Fits(g, s) && p + |b| <= |s|
    ensures forall i :: 0 <= i < g.rootEntries ==>
              RootDir(g, Splice(s, p, b))[i] == Hit(RootDir(g, s)[i], p - g.RootPos(i), b)
  {
    Regions(g);
    ClusterAreaInside(g);
    forall i | 0 <= i < g.rootEntries
      ensures RootDir(g, Splice(s, p, b))[i] == Hit(RootDir(g, s)[i], p - g.RootPos(i), b)
    {
      HitSlice(s, p, b, g.RootPos(i), DIR_BYTES);
    }
  }

  lemma DataFrame(g: Geometry, s: seq<byte>, p: nat, b: seq<byte>)
    requires Fits(g, s) && p + |b| <= |s| && p + |b| <= g.ClusterPos(2)
    ensures Data(g, Splice(s, p, b)) == Data(g, s)
  {
    forall k | 0 <= k < g.clusters
      ensures Data(g, Splice(s, p, b))[k] == Data(g, s)[k]
    {
      ClusterRange(g, k + 2);
      SpliceOutside(s, p, b, g.ClusterPos(k + 2), g.ClusterBytes());
    }
  }

  // ----- the four writes the program makes

  lemma TableUpdate(g: Geometry, s: seq<byte>, t: nat, c: nat, v: word)
    requires Fits(g, s) && t < 2 && c < g.TableLength()
    ensures g.FatPos(t, c) + 2 <= |s|
    ensures Table(g, Splice(s, g.FatPos(t, c), WordBytes(v)), t) == Table(g, s, t)[c := v]
  {
    Regions(g);
    var p, b := g.FatPos(t, c), WordBytes(v);
    forall k | 0 <= k < g.TableLength()
      ensures Table(g, Splice(s, p, b), t)[k] == Table(g, s, t)[c := v][k]
    {
      SpliceAt(s, p, b, g.FatPos(t, k));
      SpliceAt(s, p, b, g.FatPos(t, k) + 1);
    }
  }

  /** Writing entry c of the first table changes that entry of that table and nothing else. */
  lemma WriteFirstTable(g: Geometry, s: seq<byte>, c: nat, v: word)
    requires Fits(g, s) && c < g.TableLength()
    ensures g.FatPos(0, c) + 2 <= |s|
    ensures Abs(g, Splice(s, g.FatPos(0, c), WordBytes(v))) == Abs(g, s).(fat1 := Abs(g, s).fat1[c := v])
  {
    Regions(g);
    TableUpdate(g, s, 0, c, v);
    var p, b := g.FatPos(0, c), WordBytes(v);
    BootFrame(g, s, p, b);
    TableFrame(g, s, 1, p, b);
    RootFrame(g, s, p, b);
    DataFrame(g, s, p, b);
  }

  lemma WriteSecondTable(g: Geometry, s: seq<byte>, c: nat, v: word)
    requires Fits(g, s) && c < g.TableLength()
    ensures g.FatPos(1, c) + 2 <= |s|
    ensures Abs(g, Splice(s, g.FatPos(1, c), WordBytes(v))) == Abs(g, s).(fat2 := Abs(g, s).fat2[c := v])
  {
    Regions(g);
    TableUpdate(g, s, 1, c, v);
    var p, b := g.FatPos(1, c), WordBytes(v);
    BootFrame(g, s, p, b);
    TableFrame(g, s, 0, p, b);
    RootFrame(g, s, p, b);
    DataFrame(g, s, p, b);
  }

  /** Writing bytes b at offset o of root entry i splices that entry and nothing else. */
  lemma WriteRoot(g: Geometry, s: seq<byte>, i: nat, o: nat, b: seq<byte>)
    requires Fits(g, s) && i < g.rootEntries && o + |b| <= DIR_BYTES
    ensures g.RootPos(i) + o + |b| <= |s|
    ensures Abs(g, Splice(s, g.RootPos(i) + o, b))
         == Abs(g, s).(root := Abs(g, s).root[i := Splice(Abs(g, s).root[i], o, b)])
  {
    Regions(g);
    ClusterAreaInside(g);
    var p := g.RootPos(i) + o;
    BootFrame(g, s, p, b);
    TableFrame(g, s, 0, p, b);
    TableFrame(g, s, 1, p, b);
    DataFrame(g, s, p, b);
    RootUpdate(g, s, i, o, b);
  }

  lemma RootUpdate(g: Geometry, s: seq<byte>, i: nat, o: nat, b: seq<byte>)
    requires Fits(g, s) && i < g.rootEntries && o + |b| <= DIR_BYTES
    ensures g.RootPos(i) + o + |b| <= |s|
    ensures RootDir(g, Splice(s, g.RootPos(i) + o, b)) == RootDir(g, s)[i := Splice(RootDir(g, s)[i], o, b)]
  {
    Regions(g);
    ClusterAreaInside(g);
    var p := g.RootPos(i) + o;
    var r, r' := RootDir(g, s), RootDir(g, Splice(s, p, b));
    forall k | 0 <= k < g.rootEntries
      ensures r'[k] == r[i := Splice(r[i], o, b)][k]
    {
      if k == i {
        SpliceInside(s, p, b, g.RootPos(i), DIR_BYTES);
      } else {
        SpliceOutside(s, p, b, g.RootPos(k), DIR_BYTES);
      }
    }
  }

  /** Writing bytes b at offset o of cluster c splices that cluster and nothing else. */
  lemma WriteCluster(g: Geometry, s: seq<byte>, c: nat, o: nat, b: seq<byte>)
    requires Fits(g, s) && g.IsCluster(c) && o + |b| <= g.ClusterBytes()
    ensures g.ClusterPos(c) + o + |b| <= |s|
    ensures Abs(g, Splice(s, g.ClusterPos(c) + o, b))
         == Abs(g, s).(data := Abs(g, s).data[c - 2 := Splice(Abs(g, s).data[c - 2], o, b)])
  {
    Regions(g);
    ClusterRange(g, c);
    var p := g.ClusterPos(c) + o;
    BootFrame(g, s, p, b);
    TableFrame(g, s, 0, p, b);
    TableFrame(g, s, 1, p, b);
    RootFrame(g, s, p, b);
    DataUpdate(g, s, c, o, b);
  }

  lemma ClustersApart(g: Geometry, c: nat, k: nat)
    requires g.Supported() && 2 <= c && 2 <= k && c != k
    ensures || g.ClusterPos(k) + g.ClusterBytes() <= g.ClusterPos(c)
            || g.ClusterPos(c) + g.ClusterBytes() <= g.ClusterPos(k)
  {
    if k < c {
      ClusterStep(g, k, c);
    } else {
      ClusterStep(g, c, k);
    }
  }

  lemma ClusterUpdate(g: Geometry, s: seq<byte>, c: nat, o: nat, b: seq<byte>, k: nat)
    requires Fits(g, s) && g.IsCluster(c) && g.IsCluster(k) && o + |b| <= g.ClusterBytes()
    ensures g.ClusterPos(c) + o + |b| <= |s|
    ensures ClusterAt(g, Splice(s, g.ClusterPos(c) + o, b), k)
         == if k == c then Splice(ClusterAt(g, s, c), o, b) else ClusterAt(g, s, k)
  {
    ClusterRange(g, c);
    if k == c {
      SameCluster(g, s, c, o, b);
    } else {
      OtherCluster(g, s, c, o, b, k);
    }
  }

  lemma SameCluster(g: Geometry, s: seq<byte>, c: nat, o: nat, b: seq<byte>)
    requires Fits(g, s) && g.IsCluster(c) && o + |b| <= g.ClusterBytes() && g.ClusterPos(c) + g.ClusterBytes() <= |s|
    ensures ClusterAt(g, Splice(s, g.ClusterPos(c) + o, b), c) == Splice(ClusterAt(g, s, c), o, b)
  {
    SpliceInside(s, g.ClusterPos(c) + o, b, g.ClusterPos(c), g.ClusterBytes());
  }

  lemma OtherCluster(g: Geometry, s: seq<byte>, c: nat, o: nat, b: seq<byte>, k: nat)
    requires Fits(g, s) && g.IsCluster(c) && g.IsCluster(k) && c != k && o + |b| <= g.ClusterBytes()
    requires g.ClusterPos(c) + o + |b| <= |s|
    ensures ClusterAt(g, Splice(s, g.ClusterPos(c) + o, b), k) == ClusterAt(g, s, k)
  {
    ClusterRange(g, k);
    ClustersApart(g, c, k);
    SpliceOutside(s, g.ClusterPos(c) + o, b, g.ClusterPos(k), g.ClusterBytes());
  }

  lemma DataUpdate(g: Geometry, s: seq<byte>, c: nat, o: nat, b: seq<byte>)
    requires Fits(g, s) && g.IsCluster(c) && o + |b| <= g.ClusterBytes()
    ensures g.ClusterPos(c) + o + |b| <= |s|
    ensures Data(g, Splice(s, g.ClusterPos(c) + o, b))
         == Data(g, s)[c - 2 := Splice(Data(g, s)[c - 2], o, b)]
  {
    ClusterRange(g, c);
    var p := g.ClusterPos(c) + o;
    var r, r' := Data(g, s), Data(g, Splice(s, p, b));
    forall k | 0 <= k < |r|
      ensures r'[k] == if k == c - 2 then Splice(r[k], o, b) else r[k]
    {
      ClusterUpdate(g, s, c, o, b, k + 2);
    }
    OneBlock(r, r', c - 2, o, b);
  }

  lemma OneBlock(r: seq<seq<byte>>, r': seq<seq<byte>>, i: nat, o: nat, b: seq<byte>)
    requires i < |r| == |r'| && o + |b| <= |r[i]|
    requires forall k :: 0 <= k < |r| ==> r'[k] == if k == i then Splice(r[i], o, b) else r[k]
    ensures r' == r[i := Splice(r[i], o, b)]
  {
  }

  // ----- a write that may leave its cluster

  /**
    data' is data after b has been written at offset o of cluster c, and on into the clusters that follow it on the
    disk.
   */
  ghost predicate Spilled(data: seq<seq<byte>>, data': seq<seq<byte>>, bytes: nat, c: nat, o: nat, b: seq<byte>)
  {
    && c >= 2 && |data'| == |data|
    && forall k :: 0 <= k < |data| ==> data'[k] == Hit(data[k], Span(c - 2, bytes) + o - Span(k, bytes), b)
  }

  lemma SpillUpdate(g: Geometry, s: seq<byte>, c: nat, o: nat, b: seq<byte>, k: nat)
    requires Fits(g, s) && g.IsCluster(c) && k < g.clusters && g.ClusterPos(c) + o + |b| <= |s|
    ensures ClusterAt(g, Splice(s, g.ClusterPos(c) + o, b), k + 2)
         == Hit(ClusterAt(g, s, k + 2), Span(c - 2, g.ClusterBytes()) + o - Span(k, g.ClusterBytes()), b)
  {
    var p, q, n := g.ClusterPos(c) + o, g.ClusterPos(k + 2), g.ClusterBytes();
    ClusterRange(g, k + 2);
    var l, r := ClusterAt(g, Splice(s, p, b), k + 2), Hit(ClusterAt(g, s, k + 2), p - q, b);
    forall j | 0 <= j < n
      ensures l[j] == r[j]
    {
      SpliceAt(s, p, b, q + j);
    }
    assert l == r;
  }

  lemma RootExtend(g: Geometry, s: seq<byte>, more: seq<byte>)
    requires Fits(g, s)
    ensures RootDir(g, s + more) == RootDir(g, s)
  {
    Regions(g);
    ClusterAreaInside(g);
    forall i | 0 <= i < g.rootEntries
      ensures RootDir(g, s + more)[i] == RootDir(g, s)[i]
    {
      var p := g.RootPos(i);
      assert (s + more)[p..p + DIR_BYTES] == s[p..p + DIR_BYTES];
    }
  }

  /** Longer images that agree on the volume stand for the same disk. */
  lemma AbsExtend(g: Geometry, s: seq<byte>, more: seq<byte>)
    requires Fits(g, s)
    ensures Fits(g, s + more) && Abs(g, s + more) == Abs(g, s)
  {
    Regions(g);
    ClusterAreaInside(g);
    forall k | 0 <= k < g.clusters
      ensures Data(g, s + more)[k] == Data(g, s)[k]
    {
      ClusterRange(g, k + 2);
    }
    assert Data(g, s + more) == Data(g, s);
    assert Table(g, s + more, 0) == Table(g, s, 0) && Table(g, s + more, 1) == Table(g, s, 1);
    RootExtend(g, s, more);
    assert Boot(g, s + more) == Boot(g, s);
  }

  /** A write that does not start before the clusters leaves everything before them alone. */
  lemma BeforeData(g: Geometry, s: seq<byte>, p: nat, b: seq<byte>)
    requires Fits(g, s) && g.ClusterPos(2) <= p && p + |b| <= |s|
    ensures Abs(g, Splice(s, p, b)) == Abs(g, s).(data := Data(g, Splice(s, p, b)))
  {
    Regions(g);
    BootFrame(g, s, p, b);
    TableFrame(g, s, 0, p, b);
    TableFrame(g, s, 1, p, b);
    RootFrame(g, s, p, b);
  }

  lemma DataSpill(g: Geometry, s: seq<byte>, c: nat, o: nat, b: seq<byte>)
    requires Fits(g, s) && g.IsCluster(c) && g.ClusterPos(c) + o + |b| <= |s|
    ensures Spilled(Data(g, s), Data(g, Splice(s, g.ClusterPos(c) + o, b)), g.ClusterBytes(), c, o, b)
  {
    var r, r', n := Data(g, s), Data(g, Splice(s, g.ClusterPos(c) + o, b)), g.ClusterBytes();
    forall k | 0 <= k < |r|
      ensures r'[k] == Hit(r[k], Span(c - 2, n) + o - Span(k, n), b)
    {
      SpillUpdate(g, s, c, o, b, k);
    }
  }

  lemma WriteSpillInside(g: Geometry, s: seq<byte>, c: nat, o: nat, b: seq<byte>, d: Disk)
    requires Fits(g, s) && g.IsCluster(c) && g.ClusterPos(c) + o + |b| <= |s|
    requires d == Abs(g, Splice(s, g.ClusterPos(c) + o, b))
    ensures d == Abs(g, s).(data := d.data) && Spilled(Abs(g, s).data, d.data, g.ClusterBytes(), c, o, b)
  {
    ClusterRange(g, c);
    BeforeData(g, s, g.ClusterPos(c) + o, b);
    DataSpill(g, s, c, o, b);
  }

  /** A write that starts in cluster c changes clusters only, even if it runs past the end of the image. */
  lemma WriteSpill(g: Geometry, s: seq<byte>, c: nat, o: nat, b: seq<byte>)
    requires Fits(g, s) && g.IsCluster(c) && o <= g.ClusterBytes()
    ensures g.ClusterPos(c) + o <= |s| && Fits(g, Overlay(s, g.ClusterPos(c) + o, b))
    ensures var d := Abs(g, Overlay(s, g.ClusterPos(c) + o, b));
            d == Abs(g, s).(data := d.data) && Spilled(Abs(g, s).data, d.data, g.ClusterBytes(), c, o, b)
  {
    ClusterRange(g, c);
    var p := g.ClusterPos(c) + o;
    var d := Abs(g, Overlay(s, p, b));
    if p + |b| <= |s| {
      WriteSpillInside(g, s, c, o, b, d);
    } else {
      var more := seq(p + |b| - |s|, _ => 0);
      AbsExtend(g, s, more);
      OverlayPast(s, p, b, more);
      WriteSpillInside(g, s + more, c, o, b, d);
    }
  }

  // ----- reading the parts a sector at a time

  ghost predicate InImage(s: seq<byte>, sec: nat) { (sec + 1) * SECTOR <= |s| }

  function SectorOf(s: seq<byte>, sec: nat): (r: seq<byte>)
    requires (sec + 1) * SECTOR <= |s|
    ensures |r| == SECTOR
  {
    s[sec * SECTOR..(sec + 1) * SECTOR]
  }

  lemma SectorSlice(s: seq<byte>, sec: nat, o: nat, n: nat)
    requires InImage(s, sec) && o + n <= SECTOR
    ensures SectorOf(s, sec)[o..o + n] == s[sec * SECTOR + o..sec * SECTOR + o + n]
  {
    SubSlice(s, sec * SECTOR, SECTOR, o, n);
  }

  /** Where the program looks for entry c of the first table: inside one sector, below the root directory. */
  lemma TableSectorPos(g: Geometry, c: nat)
    requires g.Supported() && c < g.TableLength()
    ensures g.reserved + 2 * c / SECTOR < g.endSector && 2 * c % SECTOR + 2 <= SECTOR
    ensures (g.reserved + 2 * c / SECTOR) * SECTOR + 2 * c % SECTOR == g.FatPos(0, c)
    ensures g.reserved + g.fatSectors + 2 * c / SECTOR < g.endSector
    ensures (g.reserved + g.fatSectors + 2 * c / SECTOR) * SECTOR + 2 * c % SECTOR == g.FatPos(1, c)
  {
    Regions(g);
    ClusterAreaInside(g);
    PackedPos(g.reserved, 2, c, g.fatSectors);
    PackedPos(g.reserved + g.fatSectors, 2, c, g.fatSectors);
  }

  /** Items of a size that divides the sector never straddle a sector boundary. */
  lemma PackedPos(first: nat, size: nat, c: nat, n: nat)
    requires size == 2 || size == 32
    requires c * size < n * SECTOR
    ensures size * c / SECTOR < n && size * c % SECTOR + size <= SECTOR
    ensures (first + size * c / SECTOR) * SECTOR + size * c % SECTOR == first * SECTOR + size * c
  {
    if size == 32 {
      assert 32 * c % SECTOR == 32 * (c % 16);
    }
  }

  lemma TableSector(g: Geometry, s: seq<byte>, c: nat, sec: nat, o: nat)
    requires Fits(g, s) && c < g.TableLength() && sec == g.reserved + 2 * c / SECTOR && o == 2 * c % SECTOR
    ensures InImage(s, sec) && o + 2 <= SECTOR && Word(SectorOf(s, sec), o) == Abs(g, s).fat1[c]
  {
    TableSectorPos(g, c);
    SectorSlice(s, sec, o, 2);
    WordOfSlice(SectorOf(s, sec), o);
    Regions(g);
    assert Abs(g, s).fat1[c] == Word(s, g.FatPos(0, c));
    WordOfSlice(s, g.FatPos(0, c));
  }

  /** Root entry i lies inside one sector of the root directory. */
  lemma RootSectorPos(g: Geometry, i: nat)
    requires g.Supported() && i < g.rootEntries
    ensures g.rootSector + i / 16 < g.endSector
    ensures (g.rootSector + i / 16) * SECTOR + i * DIR_BYTES % SECTOR == g.RootPos(i)
    ensures i * DIR_BYTES % SECTOR + DIR_BYTES <= SECTOR
  {
    Regions(g);
    ClusterAreaInside(g);
    PackedPos(g.rootSector, 32, i, g.endSector - g.rootSector);
    assert 32 * i / SECTOR == i / 16;
  }

  lemma RootSector(g: Geometry, s: seq<byte>, i: nat)
    requires Fits(g, s) && i < g.rootEntries
    ensures InImage(s, g.rootSector + i / 16) && i * DIR_BYTES % SECTOR + DIR_BYTES <= SECTOR
    ensures SectorOf(s, g.rootSector + i / 16)[i * DIR_BYTES % SECTOR..i * DIR_BYTES % SECTOR + DIR_BYTES]
         == Abs(g, s).root[i]
  {
    RootSectorPos(g, i);
    SectorSlice(s, g.rootSector + i / 16, i * DIR_BYTES % SECTOR, DIR_BYTES);
    assert Abs(g, s).root[i] == RootDir(g, s)[i];
  }

  /** Sector m of cluster c; its number fits 16 bits. */
  lemma DataSectorPos(g: Geometry, c: nat, m: nat)
    requires g.Supported() && g.IsCluster(c) && m < g.sectorsPerCluster
    ensures g.ClusterSector(c) + m < g.endSector
    ensures g.ClusterSector(c) * SECTOR == g.ClusterPos(c)
    ensures (m + 1) * SECTOR <= g.ClusterBytes()
  {
    ClusterRange(g, c);
    var first := g.ClusterSector(c);
    SpanScale(c - 2, g.sectorsPerCluster, SECTOR);
    assert first * SECTOR == g.ClusterPos(c);
    assert (first + m + 1) * SECTOR <= g.endSector * SECTOR;
  }

  lemma DataSector(g: Geometry, s: seq<byte>, c: nat, m: nat)
    requires Fits(g, s) && g.IsCluster(c) && m < g.sectorsPerCluster
    ensures InImage(s, g.ClusterSector(c) + m)
    ensures (m + 1) * SECTOR <= g.ClusterBytes()
    ensures SectorOf(s, g.ClusterSector(c) + m)
         == Abs(g, s).data[c - 2][m * SECTOR..(m + 1) * SECTOR]
  {
    DataSectorPos(g, c, m);
    ClusterRange(g, c);
    var sec := g.ClusterSector(c) + m;
    var p := g.ClusterPos(c);
    assert sec * SECTOR == p + m * SECTOR;
    assert Abs(g, s).data[c - 2] == s[p..p + g.ClusterBytes()];
    SubSlice(s, p, g.ClusterBytes(), m * SECTOR, SECTOR);
  }
}
