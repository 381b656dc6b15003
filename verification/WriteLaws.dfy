/**
  What a write makes of a file, seen as the bytes of its clusters and a size: exactly when
  the result is what a write should leave, exactly when the chunks of a growing write stay
  in the file's chain, and which clusters a write that leaves its cluster hits.
 */
module WriteLaws {
  import opened Bytes
  import opened Layout
  import opened Chains
  import opened Writes

  /** The bytes of the len clusters of a file, of which the first size are its content. */
  datatype File = File(len: nat, bytes: seq<byte>, size: nat)
  {
    function Content(): seq<byte> { if size <= |bytes| then bytes[..size] else bytes }

    predicate Ok(cluster: nat) { len > 0 && |bytes| == Span(len, cluster) && size <= |bytes| }

    function Outline(): Shape { Shape(len, size) }
  }

  /** What decides where a write goes: the number of clusters and the size. */
  datatype Shape = Shape(len: nat, size: nat)

  /** The shape after a write. */
  function Reshape(f: Shape, cluster: nat, offset: nat, size: nat): Shape
    requires cluster > 0
  {
    Shape(f.len + Extra(offset + size, f.len, cluster), offset + Kept(offset, size, f.len, cluster))
  }

  /** The write stays in clusters of the file's own. */
  predicate Inside(f: Shape, cluster: nat, offset: nat, size: nat)
    requires cluster > 0 && f.len > 0
  {
    Contained(offset, size, f.len, cluster, f.size == 0)
  }

  function Start(f: Shape, cluster: nat, offset: nat, size: nat): nat
    requires cluster > 0 && f.len > 0
  {
    Place(offset, size, f.len, cluster, f.size == 0)
  }

  /** The file after a write that stays in its clusters; ext are the bytes of the clusters it adds. */
  function Rewritten(f: File, cluster: nat, offset: nat, buf: seq<byte>, ext: seq<byte>): (r: File)
    requires cluster > 0 && f.Ok(cluster) && buf != [] && Inside(f.Outline(), cluster, offset, |buf|)
    requires |ext| == Span(Extra(offset + |buf|, f.len, cluster), cluster)
    ensures r.Ok(cluster) && r.Outline() == Reshape(f.Outline(), cluster, offset, |buf|)
  {
    var w := Kept(offset, |buf|, f.len, cluster);
    PlaceFits(offset, |buf|, f.len, cluster, f.size == 0);
    TotalFits(offset + |buf|, f.len, cluster);
    SpanAdd(f.len, Extra(offset + |buf|, f.len, cluster), cluster);
    File(f.len + Extra(offset + |buf|, f.len, cluster),
         Splice(f.bytes + ext, Start(f.Outline(), cluster, offset, |buf|), buf[..w]), offset + w)
  }

  // ----- the content afterwards

  /** The bytes up to the offset followed by those kept, if the write starts at the offset. */
  lemma RewrittenAtOffset(f: File, cluster: nat, offset: nat, buf: seq<byte>, ext: seq<byte>)
    requires cluster > 0 && f.Ok(cluster) && buf != [] && Inside(f.Outline(), cluster, offset, |buf|)
    requires |ext| == Span(Extra(offset + |buf|, f.len, cluster), cluster)
    requires Start(f.Outline(), cluster, offset, |buf|) == offset
    ensures offset <= |f.bytes + ext|
    ensures Rewritten(f, cluster, offset, buf, ext).Content()
         == (f.bytes + ext)[..offset] + buf[..Kept(offset, |buf|, f.len, cluster)]
  {
    var r := Rewritten(f, cluster, offset, buf, ext);
    SplicePrefix(f.bytes + ext, offset, buf[..Kept(offset, |buf|, f.len, cluster)]);
  }

  lemma SplicePrefix(a: seq<byte>, p: nat, x: seq<byte>)
    requires p + |x| <= |a|
    ensures Splice(a, p, x)[..p + |x|] == a[..p] + x
  {
  }

  /** What a write at offset should leave of content. */
  function Intended(content: seq<byte>, offset: nat, buf: seq<byte>): seq<byte>
    requires offset <= |content|
  {
    content[..offset] + buf + if offset + |buf| < |content| then content[offset + |buf|..] else []
  }

  /** The write starts at its offset, is kept whole and reaches the end of the file. */
  predicate Right(f: Shape, cluster: nat, offset: nat, size: nat)
    requires cluster > 0 && f.len > 0
  {
    && offset <= f.size <= offset + size && Inside(f, cluster, offset, size)
    && Start(f, cluster, offset, size) == offset && Kept(offset, size, f.len, cluster) == size
  }

  lemma RightIsIntended(f: File, cluster: nat, offset: nat, buf: seq<byte>, ext: seq<byte>)
    requires cluster > 0 && f.Ok(cluster) && buf != [] && Right(f.Outline(), cluster, offset, |buf|)
    requires |ext| == Span(Extra(offset + |buf|, f.len, cluster), cluster)
    ensures Rewritten(f, cluster, offset, buf, ext).Content() == Intended(f.Content(), offset, buf)
  {
    RewrittenAtOffset(f, cluster, offset, buf, ext);
    assert (f.bytes + ext)[..offset] == f.Content()[..offset];
    assert buf[..|buf|] == buf;
  }

  /** Inside the file a contained write never starts before its offset. */
  lemma StartsNotBefore(f: Shape, cluster: nat, offset: nat, size: nat)
    requires cluster > 0 && f.len > 0 && size > 0 && offset <= f.size <= Span(f.len, cluster)
    requires Inside(f, cluster, offset, size)
    ensures offset <= Start(f, cluster, offset, size)
    ensures offset < Start(f, cluster, offset, size) ==>
              Extra(offset + size, f.len, cluster) == 0 && offset + size <= Start(f, cluster, offset, size)
  {
    var q := RestDivision(offset, cluster);
    NoExtraIff(offset + size, f.len, cluster);
    SpanOrder(q, f.len - 1, cluster);
    SpanOrder(f.len, q, cluster);
    SpanOrder(f.len - 1, q, cluster);
  }

  /** No cluster is needed exactly if the write ends inside the chain. */
  lemma NoExtraIff(total: nat, len: nat, bytes: nat)
    requires bytes > 0 && total > 0 && len > 0
    ensures Extra(total, len, bytes) == 0 <==> total <= Span(len, bytes)
  {
    EndInLast(total, bytes);
    SpanOrder(len, Need(total, bytes) - 1, bytes);
    SpanOrder(Need(total, bytes), len, bytes);
  }

  function Other(b: byte): byte { if b == 0 then 1 else 0 }

  /** A contained write that is not right shows in some buffer, whatever the added clusters held. */
  lemma WrongSomehow(f: File, cluster: nat, offset: nat, size: nat, ext: seq<byte>) returns (buf: seq<byte>)
    requires cluster > 0 && f.Ok(cluster) && size > 0 && offset <= f.size && Inside(f.Outline(), cluster, offset, size)
    requires |ext| == Span(Extra(offset + size, f.len, cluster), cluster)
    requires !Right(f.Outline(), cluster, offset, size)
    ensures |buf| == size
    ensures Rewritten(f, cluster, offset, buf, ext).Content() != Intended(f.Content(), offset, buf)
  {
    var p := Start(f.Outline(), cluster, offset, size);
    StartsNotBefore(f.Outline(), cluster, offset, size);
    var b := if offset < |f.bytes| then Other(f.bytes[offset]) else 0;
    buf := seq(size, _ => b);
    if p == offset {
      RewrittenAtOffset(f, cluster, offset, buf, ext);
    } else {
      WrongPlace(f, cluster, offset, buf, ext, p);
    }
  }

  /**
    A write that needs no new cluster and runs over the end of the last one starts before the last cluster of the
    file, and
    some buffer shows that its first byte is not where it should be.
   */
  lemma SpillsWrong(data: seq<seq<byte>>, bytes: nat, cs: seq<nat>, offset: nat, size: nat)
    returns (buf: seq<byte>, data': seq<seq<byte>>)
    requires Uniform(data, bytes) && bytes > 0 && Readable(data, cs) && Distinct(cs) && cs != [] && size > 0
    requires Extra(offset + size, |cs|, bytes) == 0 && Rest(offset, bytes) + size > bytes
    ensures |buf| == size && Spilled(data, data', bytes, cs[|cs| - 1], Rest(offset, bytes), buf)
    ensures Readable(data', cs) && offset + size <= Span(|cs|, bytes) == |Gather(data', cs)|
    ensures Gather(data', cs)[offset] != buf[0]
  {
    var q := BeforeLast(offset, size, |cs|, bytes);
    var o, last := Rest(offset, bytes), cs[|cs| - 1];
    var was := data[cs[q] - 2][o];
    buf := [Other(was)] + seq(size - 1, _ => was);
    data' := SpillExists(data, bytes, last, o, buf);
    SpilledUniform(data, data', bytes, last, o, buf);
    SameByte(data, data', bytes, last, cs[q], o, buf, was);
    ByteAt(data', bytes, cs, q, o);
  }

  lemma BeforeLast(offset: nat, size: nat, len: nat, bytes: nat) returns (q: nat)
    requires bytes > 0 && size > 0 && len > 0 && Extra(offset + size, len, bytes) == 0
    requires Rest(offset, bytes) + size > bytes
    ensures q < len - 1 && offset == Span(q, bytes) + Rest(offset, bytes) && Rest(offset, bytes) < bytes
    ensures offset + size <= Span(len, bytes)
  {
    q := RestDivision(offset, bytes);
    NoExtraIff(offset + size, len, bytes);
    SpanOrder(len - 1, q, bytes);
    SpanOrder(len, q, bytes);
  }

  /**
    Byte o of a cluster other than last stays as it was if all bytes of the buffer but the first are the same as it.
   */
  lemma SameByte(data: seq<seq<byte>>, data': seq<seq<byte>>, bytes: nat, last: nat, c: nat, o: nat, buf: seq<byte>,
                 was: byte)
    requires Uniform(data, bytes) && Spilled(data, data', bytes, last, o, buf) && 2 <= c < |data| + 2 && c != last
    requires o < bytes
    requires was == data[c - 2][o] && forall j :: 1 <= j < |buf| ==> buf[j] == was
    ensures |data'[c - 2]| == bytes && data'[c - 2][o] == was
  {
    SpanOrder(c - 2, last - 2, bytes);
    SpanOrder(last - 2, c - 2, bytes);
    HitAt(data[c - 2], Span(last - 2, bytes) + o - Span(c - 2, bytes), buf, o);
  }

  lemma ByteAt(data: seq<seq<byte>>, bytes: nat, cs: seq<nat>, q: nat, o: nat)
    requires Readable(data, cs) && Uniform(data, bytes) && q < |cs| && o < bytes
    ensures Span(q, bytes) + o < |Gather(data, cs)| == Span(|cs|, bytes)
    ensures Gather(data, cs)[Span(q, bytes) + o] == data[cs[q] - 2][o]
  {
    GatherPiece(data, bytes, cs, q, o, 1);
    assert Gather(data, cs)[Span(q, bytes) + o..Span(q, bytes) + o + 1][0] == data[cs[q] - 2][o..o + 1][0];
  }

  /** For instance, two clusters' worth of bytes written over the beginning of a file of three clusters. */
  lemma LongOverwrite(bytes: nat)
    requires bytes > 0
    ensures Extra(Span(2, bytes), 3, bytes) == 0 && Rest(0, bytes) + Span(2, bytes) > bytes
    ensures !Inside(Shape(3, Span(3, bytes)), bytes, 0, Span(2, bytes))
  {
    assert Span(2, bytes) == 2 * bytes && Span(3, bytes) == 3 * bytes by {
      assert Span(1, bytes) == bytes;
    }
    NoExtraIff(Span(2, bytes), 3, bytes);
  }

  lemma WrongPlace(f: File, cluster: nat, offset: nat, buf: seq<byte>, ext: seq<byte>, p: nat)
    requires cluster > 0 && f.Ok(cluster) && buf != [] && offset <= f.size
    requires Inside(f.Outline(), cluster, offset, |buf|)
    requires |ext| == Span(Extra(offset + |buf|, f.len, cluster), cluster)
    requires p == Start(f.Outline(), cluster, offset, |buf|) && offset < p && offset < |f.bytes|
    requires buf[0] != f.bytes[offset]
    requires Extra(offset + |buf|, f.len, cluster) == 0
    ensures Rewritten(f, cluster, offset, buf, ext).Content() != Intended(f.Content(), offset, buf)
  {
    var r, i := Rewritten(f, cluster, offset, buf, ext), Intended(f.Content(), offset, buf);
    PlaceFits(offset, |buf|, f.len, cluster, f.size == 0);
    assert f.bytes + ext == f.bytes && buf[..|buf|] == buf;
    SpliceAt(f.bytes, p, buf, offset);
    assert r.Content()[offset] == f.bytes[offset] && i[offset] == buf[0];
  }

  // ----- which shapes a write leaves

  /** The write adds no cluster, or does not end on a cluster boundary, or is less than a cluster. */
  predicate Exact(offset: nat, size: nat, len: nat, bytes: nat)
    requires bytes > 0
  {
    Extra(offset + size, len, bytes) == 0 || !EndsOnBoundary(offset + size, bytes) || size < bytes
  }

  /**
    Everything is kept exactly if the write is exact, and otherwise one cluster less.  Of writes that do not start
    beyond the
    chain, those are exact that add no cluster or do not end on a cluster boundary.
   */
  lemma KeptAllIff(f: Shape, cluster: nat, offset: nat, size: nat)
    requires cluster > 0 && f.len > 0 && size > 0 && Inside(f, cluster, offset, size)
    ensures Kept(offset, size, f.len, cluster) == size <==> Exact(offset, size, f.len, cluster)
    ensures !Exact(offset, size, f.len, cluster) ==> Kept(offset, size, f.len, cluster) == size - cluster
    ensures offset <= Span(f.len, cluster) ==>
              (Exact(offset, size, f.len, cluster) <==>
               Extra(offset + size, f.len, cluster) == 0 || !EndsOnBoundary(offset + size, cluster))
  {
    var total := offset + size;
    if Extra(total, f.len, cluster) > 0 && EndsOnBoundary(total, cluster) && offset <= Span(f.len, cluster) {
      BoundaryIsWhole(f, cluster, offset, size);
    }
  }

  /** From inside the chain a growing write that ends on a cluster boundary has at least a cluster's worth of bytes. */
  lemma BoundaryIsWhole(f: Shape, cluster: nat, offset: nat, size: nat)
    requires cluster > 0 && f.len > 0 && size > 0 && Inside(f, cluster, offset, size) && offset <= Span(f.len, cluster)
    requires Extra(offset + size, f.len, cluster) > 0 && EndsOnBoundary(offset + size, cluster)
    ensures size >= cluster
  {
    BoundaryIff(offset + size, cluster);
    var q := RestDivision(offset, cluster);
    var o := Rest(offset, cluster);
    if o == 0 {
      RestFrom(q, size, cluster);
      WholeClusters(size, cluster);
    } else if cluster < o + size {
      RestFrom(q + 1, size - (cluster - o), cluster);
      WholeClusters(size - (cluster - o), cluster);
    } else {
      ShortHole(offset, size, f.len, cluster);
    }
  }

  /** An append to a file that fits its chain starts at its offset and is right exactly if it is exact. */
  lemma AppendRightIff(f: Shape, cluster: nat, size: nat)
    requires cluster > 0 && size > 0 && ChainFits(f.len, f.size, cluster)
    ensures f.len > 0 && Inside(f, cluster, f.size, size) && Start(f, cluster, f.size, size) == f.size
    ensures Right(f, cluster, f.size, size) <==> Exact(f.size, size, f.len, cluster)
  {
    EndInLast(f.size, cluster);
    NoExtraIff(f.size + size, f.len, cluster);
    var q := RestDivision(f.size, cluster);
    SpanOrder(q, f.len - 1, cluster);
    SpanOrder(f.len, q, cluster);
    SpanOrder(f.len - 1, q, cluster);
    KeptAllIff(f, cluster, f.size, size);
  }

  /** A right write to a file that fits its chain leaves one that does. */
  lemma RightFits(f: Shape, cluster: nat, offset: nat, size: nat)
    requires cluster > 0 && f.len > 0 && size > 0 && ChainFits(f.len, f.size, cluster)
    requires Right(f, cluster, offset, size)
    ensures ChainFits(Reshape(f, cluster, offset, size).len, Reshape(f, cluster, offset, size).size, cluster)
  {
    var total := offset + size;
    NoExtraIff(total, f.len, cluster);
    if f.size < total {
      FitsLast(f.size, total - f.size, f.len, cluster);
      EndInLast(f.size, cluster);
    }
  }

  /** An append to a file that fits leaves one that does exactly if it is exact; otherwise a cluster is spare. */
  lemma AppendFitsIff(f: Shape, cluster: nat, size: nat)
    requires cluster > 0 && size > 0 && ChainFits(f.len, f.size, cluster)
    ensures var r := Reshape(f, cluster, f.size, size);
            if Exact(f.size, size, f.len, cluster) then ChainFits(r.len, r.size, cluster)
            else r.len >= 2 && r.size == Span(r.len - 1, cluster)
  {
    AppendRightIff(f, cluster, size);
    KeptAllIff(f, cluster, f.size, size);
    FitsLast(f.size, size, f.len, cluster);
    EndInLast(f.size, cluster);
    if Exact(f.size, size, f.len, cluster) {
      RightFits(f, cluster, f.size, size);
    }
  }

  /** A file with a spare cluster: an append of at most a cluster goes there, is right, and leaves a file that fits. */
  lemma SpareHeals(f: Shape, cluster: nat, size: nat)
    requires cluster > 0 && f.len >= 2 && f.size == Span(f.len - 1, cluster) && 0 < size <= cluster
    ensures Right(f, cluster, f.size, size)
    ensures ChainFits(Reshape(f, cluster, f.size, size).len, Reshape(f, cluster, f.size, size).size, cluster)
  {
    NoExtraIff(f.size + size, f.len, cluster);
    RestIs(f.size, cluster);
    SpanUnique(f.len - 1, 0, cluster);
    NeedIs(f.size + size, f.len - 1, size, cluster);
  }

  // ----- when the chunks stay in the chain

  /**
    How many chunks a growing write has, beyond the rest of the last cluster, and the number of the first one's
    cluster.
   */
  function Chunks(offset: nat, size: nat, bytes: nat): nat
    requires bytes > 0 && (Rest(offset, bytes) > 0 ==> bytes < Rest(offset, bytes) + size)
  {
    if Rest(offset, bytes) == 0 then Need(size, bytes) else Need(Rest(offset, bytes) + size - bytes, bytes)
  }

  function FirstChunk(offset: nat, len: nat, bytes: nat, empty: bool): nat
    requires bytes > 0 && len > 0
  {
    if Rest(offset, bytes) == 0 && empty then len - 1 else len
  }

  /** They do exactly if the place where the program starts is not beyond the offset. */
  lemma StaysIff(offset: nat, size: nat, len: nat, bytes: nat, empty: bool)
    requires bytes > 0 && len > 0 && size > 0 && Extra(offset + size, len, bytes) > 0
    requires Rest(offset, bytes) > 0 ==> bytes < Rest(offset, bytes) + size
    ensures FirstChunk(offset, len, bytes, empty) + Chunks(offset, size, bytes)
            <= len + Extra(offset + size, len, bytes)
       <==> Stays(offset, size, len, bytes, empty)
    ensures Stays(offset, size, len, bytes, empty) <==>
              Span(if Rest(offset, bytes) == 0 then FirstChunk(offset, len, bytes, empty) else len - 1, bytes) <= offset
  {
    var q := RestDivision(offset, bytes);
    var o := Rest(offset, bytes);
    if o == 0 {
      NeedFrom(q, size, bytes);
      SpanOrder(q, FirstChunk(offset, len, bytes, empty), bytes);
      SpanOrder(FirstChunk(offset, len, bytes, empty), q, bytes);
    } else {
      assert offset + size == Span(q + 1, bytes) + (o + size - bytes);
      NeedFrom(q + 1, o + size - bytes, bytes);
      SpanOrder(q, len - 1, bytes);
      SpanOrder(len - 1, q, bytes);
    }
  }

  /** A growing write that ends in the cluster where it starts, off a boundary, can only start beyond the chain. */
  lemma ShortHole(offset: nat, size: nat, len: nat, bytes: nat)
    requires bytes > 0 && len > 0 && size > 0 && Extra(offset + size, len, bytes) > 0
    requires Rest(offset, bytes) > 0 && Rest(offset, bytes) + size <= bytes
    ensures Span(len, bytes) < offset
  {
    var q := RestDivision(offset, bytes);
    NoExtraIff(offset + size, len, bytes);
    SpanOrder(q, len, bytes);
  }

  /** For instance, 1024 bytes appended to an empty file, in clusters of 512 bytes, leave a file of 512 bytes. */
  lemma BoundaryAppendLoses()
    ensures ChainFits(1, 0, 512) && !Exact(0, 1024, 1, 512) && Reshape(Shape(1, 0), 512, 0, 1024) == Shape(2, 512)
  {
    assert Need(1024, 512) == 2 && Span(2, 512) == 1024;
  }

  /** For instance, one byte written at the beginning of a file of 600 bytes cuts it down to its old first byte. */
  lemma EarlyWriteTruncates(f: File, b: byte)
    requires f.Ok(512) && f.Outline() == Shape(2, 600)
    ensures Inside(f.Outline(), 512, 0, 1) && Rewritten(f, 512, 0, [b], []).Content() == f.Content()[..1]
  {
    assert Need(1, 512) == 1 && Span(1, 512) == 512 && Span(2, 512) == 1024 && Rest(0, 512) == 0;
    assert f.bytes + [] == f.bytes && [b][..1] == [b];
    CutShort(f, Splice(f.bytes, 512, [b]));
  }

  lemma CutShort(f: File, bytes: seq<byte>)
    requires f.len == 2 && f.size == 600 && |f.bytes| == |bytes| == 1024 && bytes[0] == f.bytes[0]
    ensures bytes[..1] == f.Content()[..1]
  {
  }

  /**
    For instance, in clusters of 2048 bytes: 4096 bytes appended to an empty file leave 2048 bytes in two
    clusters, and of 4097 bytes appended next the third chunk has no cluster to go to.
   */
  lemma WalksOff()
    ensures Reshape(Shape(1, 0), 2048, 0, 4096) == Shape(2, 2048)
    ensures Extra(2048 + 4097, 2, 2048) == 2 && !Inside(Shape(2, 2048), 2048, 2048, 4097)
    ensures FirstChunk(2048, 2, 2048, false) == 2 && Chunks(2048, 4097, 2048) == 3
  {
    assert Need(4096, 2048) == 2 && Span(2, 2048) == 4096;
    assert Need(6145, 2048) == 4 && Need(4097, 2048) == 3;
    assert Rest(2048, 2048) == 0;
  }

  // ----- which clusters a write hits that leaves its own

  /** Writing size bytes at offset o of cluster c reaches cluster k, which comes after it. */
  predicate Reaches(bytes: nat, c: nat, o: nat, size: nat, k: nat) { c < k && Span(k - c, bytes) < o + size }

  lemma ReachesIff(bytes: nat, c: nat, o: nat, size: nat, k: nat)
    requires bytes > 0 && size > 0 && c < k
    ensures Reaches(bytes, c, o, size, k) <==> k <= c + (o + size - 1) / bytes
  {
    SpanDivision(o + size - 1, bytes);
    var q := (o + size - 1) / bytes;
    SpanOrder(q, k - c, bytes);
    SpanOrder(k - c, q, bytes);
  }

  /** Clusters out of reach keep their bytes. */
  lemma OutOfReach(data: seq<seq<byte>>, data': seq<seq<byte>>, bytes: nat, c: nat, o: nat, b: seq<byte>, k: nat)
    requires Uniform(data, bytes) && Spilled(data, data', bytes, c, o, b) && 2 <= k < |data| + 2 && k != c
    requires !Reaches(bytes, c, o, |b|, k)
    ensures data'[k - 2] == data[k - 2]
  {
    if k < c {
      SpanOrder(k - 2, c - 2, bytes);
    } else {
      SpanAdd(c - 2, k - c, bytes);
    }
    HitMiss(data[k - 2], Span(c - 2, bytes) + o - Span(k - 2, bytes), b);
  }

  /** A cluster within reach is hit at its first byte. */
  lemma WithinReach(data: seq<seq<byte>>, data': seq<seq<byte>>, bytes: nat, c: nat, o: nat, b: seq<byte>, k: nat)
    requires Uniform(data, bytes) && Spilled(data, data', bytes, c, o, b) && 2 <= k < |data| + 2
    requires Reaches(bytes, c, o, |b|, k) && o < bytes
    ensures 0 <= Span(k - c, bytes) - o < |b| && data'[k - 2] != [] && data'[k - 2][0] == b[Span(k - c, bytes) - o]
  {
    SpanOrder(0, k - c, bytes);
    SpanAdd(c - 2, k - c, bytes);
    HitAt(data[k - 2], Span(c - 2, bytes) + o - Span(k - 2, bytes), b, 0);
  }

  lemma HitAt(block: seq<byte>, at: int, b: seq<byte>, j: nat)
    requires j < |block|
    ensures Hit(block, at, b)[j] == if 0 <= j - at < |b| then b[j - at] else block[j]
  {
  }

  /** There is a result for every write. */
  lemma {:induction false} SpillExists(data: seq<seq<byte>>, bytes: nat, c: nat, o: nat,
                                       b: seq<byte>) returns (data': seq<seq<byte>>)
    requires c >= 2
    ensures Spilled(data, data', bytes, c, o, b)
    decreases |data|
  {
    if data == [] {
      data' := [];
    } else {
      var n := |data| - 1;
      var init := SpillExists(data[..n], bytes, c, o, b);
      data' := init + [Hit(data[n], Span(c - 2, bytes) + o - Span(n, bytes), b)];
      forall k | 0 <= k < |data|
        ensures data'[k] == Hit(data[k], Span(c - 2, bytes) + o - Span(k, bytes), b)
      {
        if k < n {
          assert data'[k] == init[k] && data[..n][k] == data[k];
        }
      }
    }
  }

  /** A cluster other than c keeps its bytes, whatever is written, exactly if it is out of reach. */
  lemma KeptIff(data: seq<seq<byte>>, bytes: nat, c: nat, o: nat, size: nat, k: nat)
    requires Uniform(data, bytes) && 2 <= c < |data| + 2 && 2 <= k < |data| + 2 && k != c && o < bytes
    ensures (forall b: seq<byte>, data': seq<seq<byte>> {:trigger Spilled(data, data', bytes, c, o, b)} ::
               |b| == size && Spilled(data, data', bytes, c, o, b) ==> data'[k - 2] == data[k - 2])
       <==> !Reaches(bytes, c, o, size, k)
  {
    if Reaches(bytes, c, o, size, k) {
      var x := Other(data[k - 2][0]);
      var b := seq(size, _ => x);
      var data' := SpillExists(data, bytes, c, o, b);
      WithinReach(data, data', bytes, c, o, b, k);
    } else {
      forall b: seq<byte>, data': seq<seq<byte>> {:trigger Spilled(data, data', bytes, c, o, b)} |
        |b| == size && Spilled(data, data', bytes, c, o, b)
        ensures data'[k - 2] == data[k - 2]
      {
        OutOfReach(data, data', bytes, c, o, b, k);
      }
    }
  }

  /**
    A chain without cluster c keeps its bytes, whatever is written, exactly if none of its clusters is within reach.
   */
  lemma ChainKeptIff(data: seq<seq<byte>>, bytes: nat, c: nat, o: nat, size: nat, cs: seq<nat>)
    requires Uniform(data, bytes) && 2 <= c < |data| + 2 && o < bytes && Readable(data, cs) && c !in cs
    ensures (forall b: seq<byte>, data': seq<seq<byte>> {:trigger Spilled(data, data', bytes, c, o, b)} ::
               |b| == size && Spilled(data, data', bytes, c, o, b) ==>
                 Readable(data', cs) && Gather(data', cs) == Gather(data, cs))
       <==> forall i :: 0 <= i < |cs| ==> !Reaches(bytes, c, o, size, cs[i])
  {
    if i :| 0 <= i < |cs| && Reaches(bytes, c, o, size, cs[i]) {
      var b, data' := ChainHit(data, bytes, c, o, size, cs, i);
    } else {
      forall b: seq<byte>, data': seq<seq<byte>> {:trigger Spilled(data, data', bytes, c, o, b)} |
        |b| == size && Spilled(data, data', bytes, c, o, b)
        ensures Readable(data', cs) && Gather(data', cs) == Gather(data, cs)
      {
        ChainMissed(data, data', bytes, c, o, b, cs);
      }
    }
  }

  lemma ChainMissed(data: seq<seq<byte>>, data': seq<seq<byte>>, bytes: nat, c: nat, o: nat, b: seq<byte>, cs: seq<nat>)
    requires Uniform(data, bytes) && Readable(data, cs) && c !in cs && Spilled(data, data', bytes, c, o, b)
    requires forall i :: 0 <= i < |cs| ==> !Reaches(bytes, c, o, |b|, cs[i])
    ensures Readable(data', cs) && Gather(data', cs) == Gather(data, cs)
  {
    forall i | 0 <= i < |cs|
      ensures data'[cs[i] - 2] == data[cs[i] - 2]
    {
      OutOfReach(data, data', bytes, c, o, b, cs[i]);
    }
    GatherFrame(data, data', cs);
  }

  /** Some buffer shows in a chain with a cluster within reach. */
  lemma ChainHit(data: seq<seq<byte>>, bytes: nat, c: nat, o: nat, size: nat, cs: seq<nat>, i: nat)
    returns (b: seq<byte>, data': seq<seq<byte>>)
    requires Uniform(data, bytes) && 2 <= c < |data| + 2 && o < bytes && Readable(data, cs) && i < |cs|
    requires Reaches(bytes, c, o, size, cs[i])
    ensures |b| == size && Spilled(data, data', bytes, c, o, b) && Readable(data', cs)
    ensures Gather(data', cs) != Gather(data, cs)
  {
    b := seq(size, _ => Other(data[cs[i] - 2][0]));
    data' := SpillExists(data, bytes, c, o, b);
    WithinReach(data, data', bytes, c, o, b, cs[i]);
    SpilledUniform(data, data', bytes, c, o, b);
    GatherAt(data, bytes, cs, i);
    GatherAt(data', bytes, cs, i);
  }

  /** No other cluster is within reach exactly if the write ends in its cluster or that is the last of the volume. */
  lemma ReachesNoneIff(bytes: nat, clusters: nat, c: nat, o: nat, size: nat)
    requires 2 <= c < clusters + 2
    ensures (forall k :: 2 <= k < clusters + 2 && k != c ==> !Reaches(bytes, c, o, size, k))
       <==> o + size <= bytes || c == clusters + 1
  {
    if c < clusters + 1 {
      assert Span(1, bytes) == bytes;
      assert Reaches(bytes, c, o, size, c + 1) <==> bytes < o + size;
      if o + size <= bytes {
        forall k | 2 <= k < clusters + 2 && k != c
          ensures !Reaches(bytes, c, o, size, k)
        {
          if c < k {
            SpanOrder(0, k - c, bytes);
          }
        }
      }
    }
  }

  /**
    For instance: of a cluster's worth of bytes written at offset 1 of a file of two clusters, the last goes to the
    cluster after it.
   */
  lemma SpillsOver(bytes: nat, c: nat)
    requires bytes > 1
    ensures Extra(1 + bytes, 2, bytes) == 0 && !Inside(Shape(2, Span(2, bytes)), bytes, 1, bytes)
    ensures Rest(1, bytes) == 1 && Reaches(bytes, c, 1, bytes, c + 1)
  {
    NoExtraIff(1 + bytes, 2, bytes);
    assert Span(2, bytes) == Span(1, bytes) + bytes && Span(1, bytes) == bytes;
  }
}
