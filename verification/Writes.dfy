/**
  The arithmetic of a write: how many clusters it needs, into which chunks it is cut,
  where in the file's clusters the program puts it, how much of it is written, and what
  that does to a disk.
 */
module Writes {
  import opened Bytes
  import opened Layout
  import opened Chains
  import opened Directory

  /** How many clusters hold total bytes. */
  function Need(total: nat, bytes: nat): nat
    requires bytes > 0
  {
    if total <= bytes then 1 else 1 + Need(total - bytes, bytes)
  }

  /** The program computes the same number by a division. */
  lemma NeedIsQuotient(total: nat, bytes: nat)
    requires total > 0 && bytes > 0
    ensures Need(total, bytes) == (total - 1) / bytes + 1
  {
    SpanDivision(total - 1, bytes);
    NeedIs(total, (total - 1) / bytes, (total - 1) % bytes + 1, bytes);
  }

  /** Where in its cluster a position falls: x modulo bytes. */
  function Rest(x: nat, bytes: nat): nat
    requires bytes > 0
  {
    if x < bytes then x else Rest(x - bytes, bytes)
  }

  lemma {:induction false} RestIs(x: nat, bytes: nat)
    requires bytes > 0
    ensures Rest(x, bytes) == x % bytes
  {
    if x < bytes {
      SpanUnique(0, x, bytes);
    } else {
      RestIs(x - bytes, bytes);
      SpanDivision(x - bytes, bytes);
      SpanUnique((x - bytes) / bytes + 1, (x - bytes) % bytes, bytes);
    }
  }

  /** A file of the given size owns at least one cluster and otherwise as many as it needs. */
  predicate ChainFits(len: nat, size: nat, bytes: nat)
    requires bytes > 0
  {
    len == Need(size, bytes)
  }

  /** The length of the i-th of count chunks, all whole clusters but the last, which has tail bytes. */
  function ChunkLength(i: nat, count: nat, tail: nat, bytes: nat): nat
  {
    if i == count - 1 then tail else bytes
  }

  /** How many bytes the first i chunks hold. */
  function WrittenBy(i: nat, count: nat, tail: nat, bytes: nat): nat
    requires count > 0
  {
    if i < count then Span(i, bytes) else Span(count - 1, bytes) + tail
  }

  lemma WrittenStep(i: nat, count: nat, tail: nat, bytes: nat)
    requires i < count
    ensures WrittenBy(i + 1, count, tail, bytes) == Span(i, bytes) + ChunkLength(i, count, tail, bytes)
    ensures WrittenBy(i + 1, count, tail, bytes) <= Span(count - 1, bytes) + tail
  {
    if i + 1 < count {
      SpanMono(i, count - 1, bytes);
    }
  }

  /** What is written in all: everything, unless the write ends on a cluster boundary. */
  lemma WrittenAll(size: nat, bytes: nat)
    requires size > 0 && bytes > 0
    ensures WrittenBy(Need(size, bytes), Need(size, bytes), size % bytes, bytes)
         == if size % bytes == 0 then size - bytes else size
  {
    var q := (size - 1) / bytes;
    SpanDivision(size - 1, bytes);
    NeedIsQuotient(size, bytes);
    var r := (size - 1) % bytes;
    if r + 1 == bytes {
      assert size == Span(q + 1, bytes) + 0;
      SpanUnique(q + 1, 0, bytes);
    } else {
      SpanUnique(q, r + 1, bytes);
    }
  }

  lemma {:induction false} NeedIs(total: nat, k: nat, r: nat, bytes: nat)
    requires bytes > 0 && total == Span(k, bytes) + r && (0 < r || k == 0) && r <= bytes
    ensures Need(total, bytes) == k + 1
  {
    if k > 0 {
      NeedIs(total - bytes, k - 1, r, bytes);
    }
  }

  /** A chain that fits its file ends in the cluster where the file ends. */
  lemma EndOfChain(offset: nat, len: nat, bytes: nat)
    requires bytes > 0 && ChainFits(len, offset, bytes)
    ensures len > 0
    ensures offset % bytes != 0 ==> offset == Span(len - 1, bytes) + offset % bytes
    ensures offset % bytes == 0 ==> offset == Span(if offset == 0 then len - 1 else len, bytes)
    ensures offset <= Span(len, bytes)
  {
    SpanDivision(offset, bytes);
    var q, r := offset / bytes, offset % bytes;
    if r != 0 {
      NeedIs(offset, q, r, bytes);
    } else if offset > 0 {
      assert q > 0;
      NeedIs(offset, q - 1, bytes, bytes);
    } else {
      assert offset == Span(0, bytes);
    }
  }

  /** Appending size bytes from a cluster boundary needs size's own clusters beyond it. */
  lemma NeedFrom(k: nat, size: nat, bytes: nat)
    requires size > 0 && bytes > 0
    ensures Need(Span(k, bytes) + size, bytes) == k + Need(size, bytes)
  {
    SpanDivision(size - 1, bytes);
    var q, r := (size - 1) / bytes, (size - 1) % bytes;
    SpanAdd(k, q, bytes);
    NeedIs(Span(k, bytes) + size, k + q, r + 1, bytes);
    NeedIs(size, q, r + 1, bytes);
  }

  lemma RestFrom(k: nat, size: nat, bytes: nat)
    requires bytes > 0
    ensures (Span(k, bytes) + size) % bytes == size % bytes
  {
    SpanDivision(size, bytes);
    var q, r := size / bytes, size % bytes;
    SpanAdd(k, q, bytes);
    SpanUnique(k + q, r, bytes);
    assert Span(k, bytes) + size == Span(k + q, bytes) + r;
  }

  lemma {:induction false} SpanAdd(a: nat, b: nat, size: nat)
    ensures Span(a + b, size) == Span(a, size) + Span(b, size)
  {
    if b > 0 {
      SpanAdd(a, b - 1, size);
    }
  }

  /** No extra cluster is needed exactly when the append fits the rest of the last one. */
  lemma FitsLast(offset: nat, size: nat, len: nat, bytes: nat)
    requires bytes > 0 && size > 0 && ChainFits(len, offset, bytes)
    ensures Need(offset + size, bytes) >= len
    ensures Need(offset + size, bytes) == len <==> Span(len - 1, bytes) <= offset && offset + size <= Span(len, bytes)
  {
    EndOfChain(offset, len, bytes);
    var t := offset + size;
    SpanDivision(t - 1, bytes);
    var k, r := (t - 1) / bytes, (t - 1) % bytes;
    assert t == Span(k, bytes) + (r + 1);
    NeedIs(t, k, r + 1, bytes);
    SpanOrder(k, len - 1, bytes);
    SpanOrder(len - 1, k, bytes);
    if offset % bytes == 0 && offset != 0 {
      SpanMono(len - 1, len, bytes);
    }
  }

  lemma SpanOrder(a: nat, b: nat, size: nat)
    ensures a < b ==> Span(a, size) + size <= Span(b, size)
  {
    if a < b {
      SpanMono(a, b, size);
    }
  }

  // ----- the effect on a chain's bytes

  /** data' differs from data by b written at position p of the chain cs. */
  ghost predicate Spliced(data: seq<seq<byte>>, data': seq<seq<byte>>, bytes: nat, cs: seq<nat>, p: nat, b: seq<byte>)
    requires Readable(data, cs) && p + |b| <= |Gather(data, cs)|
  {
    && |data'| == |data| && Uniform(data', bytes)
    && Gather(data', cs) == Splice(Gather(data, cs), p, b)
    && forall k :: 0 <= k < |data| && k + 2 !in cs ==> data'[k] == data[k]
  }

  /** The data after chunk has been written at offset o of cluster c. */
  ghost function Poked(data: seq<seq<byte>>, c: nat, o: nat, chunk: seq<byte>): (r: seq<seq<byte>>)
    requires 2 <= c < |data| + 2 && o + |chunk| <= |data[c - 2]|
    ensures |r| == |data|
  {
    data[c - 2 := Splice(data[c - 2], o, chunk)]
  }

  lemma SplicedPoke(data: seq<seq<byte>>, data': seq<seq<byte>>, bytes: nat, cs: seq<nat>, i: nat, o: nat, p: nat,
                    chunk: seq<byte>)
    requires Readable(data, cs) && Uniform(data, bytes) && Distinct(cs) && i < |cs| && o + |chunk| <= bytes
    requires p == Span(i, bytes) + o && data' == Poked(data, cs[i], o, chunk)
    ensures p + |chunk| <= |Gather(data, cs)| && Spliced(data, data', bytes, cs, p, chunk)
  {
    GatherWrite(data, bytes, cs, i, o, chunk);
  }

  lemma SplicedNothing(data: seq<seq<byte>>, bytes: nat, cs: seq<nat>, p: nat, b: seq<byte>)
    requires Readable(data, cs) && Uniform(data, bytes) && p <= |Gather(data, cs)| && b == []
    ensures Spliced(data, data, bytes, cs, p, b)
  {
    assert Splice(Gather(data, cs), p, b) == Gather(data, cs);
  }

  /** Two adjacent writes are one longer write. */
  lemma SplicedMore(data: seq<seq<byte>>, data1: seq<seq<byte>>, data2: seq<seq<byte>>, bytes: nat, cs: seq<nat>,
                    p: nat, a: seq<byte>, b: seq<byte>, ab: seq<byte>)
    requires Readable(data, cs) && p + |a| <= |Gather(data, cs)| && Spliced(data, data1, bytes, cs, p, a)
    requires Readable(data1, cs) && p + |a| + |b| <= |Gather(data1, cs)|
    requires Spliced(data1, data2, bytes, cs, p + |a|, b) && ab == a + b
    ensures p + |ab| <= |Gather(data, cs)| && Spliced(data, data2, bytes, cs, p, ab)
  {
    SpliceTwice(Gather(data, cs), p, a, b);
  }

  /** One more piece of buf, at the beginning of the i-th cluster. */
  lemma SplicedNext(data: seq<seq<byte>>, data1: seq<seq<byte>>, data2: seq<seq<byte>>, bytes: nat, cs: seq<nat>,
                    p: nat, buf: seq<byte>, pos: nat, pos': nat, i: nat)
    requires Readable(data, cs) && Distinct(cs) && pos <= pos' <= |buf| && p + pos <= |Gather(data, cs)|
    requires Spliced(data, data1, bytes, cs, p, buf[..pos]) && i < |cs| && Span(i, bytes) == p + pos
    requires pos' - pos <= bytes
    requires 2 <= cs[i] < |data1| + 2 && pos' - pos <= |data1[cs[i] - 2]|
    requires data2 == Poked(data1, cs[i], 0, buf[pos..pos'])
    ensures p + pos' <= |Gather(data, cs)| && Spliced(data, data2, bytes, cs, p, buf[..pos'])
  {
    assert Readable(data1, cs);
    SplicedPoke(data1, data2, bytes, cs, i, 0, p + pos, buf[pos..pos']);
    SplicedMore(data, data1, data2, bytes, cs, p, buf[..pos], buf[pos..pos'], buf[..pos']);
  }

  /** Every write into a chain has a result. */
  lemma {:induction false} SplicedExists(data: seq<seq<byte>>, bytes: nat, cs: seq<nat>, p: nat, b: seq<byte>)
    returns (data': seq<seq<byte>>)
    requires bytes > 0 && Readable(data, cs) && Uniform(data, bytes) && Distinct(cs) && p + |b| <= |Gather(data, cs)|
    ensures Spliced(data, data', bytes, cs, p, b)
    decreases |b|
  {
    if b == [] {
      data' := data;
      SplicedNothing(data, bytes, cs, p, b);
    } else {
      var n := |b| - 1;
      var before := SplicedExists(data, bytes, cs, p, b[..n]);
      assert Readable(before, cs);
      data' := PokeByte(before, bytes, cs, p + n, b[n]);
      assert b == b[..n] + [b[n]];
      SplicedMore(data, before, data', bytes, cs, p, b[..n], [b[n]], b);
    }
  }

  lemma PokeByte(data: seq<seq<byte>>, bytes: nat, cs: seq<nat>, p: nat, b: byte) returns (data': seq<seq<byte>>)
    requires bytes > 0 && Readable(data, cs) && Uniform(data, bytes) && Distinct(cs) && p < |Gather(data, cs)|
    ensures Spliced(data, data', bytes, cs, p, [b])
  {
    GatherLength(data, bytes, cs);
    SpanDivision(p, bytes);
    var i, o := p / bytes, p % bytes;
    SpanOrder(|cs|, i, bytes);
    data' := Poked(data, cs[i], o, [b]);
    SplicedPoke(data, data', bytes, cs, i, o, p, [b]);
  }

  // ----- the loop over chunks

  /** Writing count chunks of buf, the last one of tail bytes, to the clusters of cs from the k0-th on. */
  datatype Job = Job(bytes: nat, cs: seq<nat>, k0: nat, buf: seq<byte>, count: nat, tail: nat)
  {
    /** There is enough of buf for the chunks, and of the chain. */
    ghost predicate Fits(data: seq<seq<byte>>)
    {
      && Uniform(data, bytes) && Readable(data, cs) && Distinct(cs) && k0 + count <= |cs| && Enough()
    }

    predicate Enough() { count > 0 && tail <= bytes && Span(count - 1, bytes) + tail <= |buf| }

    /** How much of buf the first i chunks hold. */
    function Pos(i: nat): nat
      requires count > 0
    {
      WrittenBy(i, count, tail, bytes)
    }

    lemma PosStep(i: nat)
      requires Enough() && i < count
      ensures Pos(i) == Span(i, bytes) && Pos(i + 1) == Pos(i) + ChunkLength(i, count, tail, bytes) <= |buf|
      ensures ChunkLength(i, count, tail, bytes) <= bytes
    {
      WrittenStep(i, count, tail, bytes);
    }

    /** The data after i chunks. */
    ghost function After(data: seq<seq<byte>>, i: nat): (r: seq<seq<byte>>)
      requires Fits(data) && i <= count
      ensures |r| == |data| && Uniform(r, bytes)
      decreases i
    {
      if i == 0 then data
      else
        PosStep(i - 1);
        Poked(After(data, i - 1), cs[k0 + i - 1], 0, buf[Pos(i - 1)..Pos(i)])
    }

    /** The walk along the chain stands at the cluster for chunk i, if there is one. */
    ghost predicate At(fat: seq<word>, i: nat, cluster: word, fatVal: word)
    {
      i < count && k0 + i < |cs| ==> cluster == cs[k0 + i] && cluster < |fat| && fatVal == fat[cluster]
    }

    lemma Begins(fat: seq<word>, hi: nat, cluster: word, fatVal: word)
      requires hi <= |fat| && hi <= 0x8000 && IsChain(fat, hi, cs) && k0 < |cs| && cluster == cs[k0]
      requires 2 <= cluster < hi ==> fatVal == fat[cluster]
      ensures At(fat, 0, cluster, fatVal)
    {
      ChainAt(fat, hi, cs, k0);
    }

    lemma Along(fat: seq<word>, hi: nat, i: nat, cluster: word, fatVal: word, next: word)
      requires hi <= |fat| && hi <= 0x8000 && IsChain(fat, hi, cs) && i < count && k0 + count <= |cs|
      requires At(fat, i, cluster, fatVal)
      requires 2 <= fatVal < hi ==> next == fat[fatVal]
      ensures At(fat, i + 1, fatVal, next)
    {
      ChainAt(fat, hi, cs, k0 + i);
    }

    /** After the last cluster of a chain that is properly ended the walk stands at "cluster" 0xffff. */
    lemma Off(fat: seq<word>, hi: nat, i: nat, cluster: word, fatVal: word)
      requires hi <= |fat| && IsChain(fat, hi, cs) && Ended(fat, cs) && i < count && k0 + i + 1 == |cs|
      requires At(fat, i, cluster, fatVal)
      ensures fatVal == END
    {
    }

    /** The first i chunks are one write at the beginning of the k0-th cluster. */
    ghost predicate Done(data: seq<seq<byte>>, i: nat)
      requires Fits(data) && i <= count
    {
      && Pos(i) <= |buf| && Span(k0, bytes) + Pos(i) <= |Gather(data, cs)|
      && Spliced(data, After(data, i), bytes, cs, Span(k0, bytes), buf[..Pos(i)])
    }

    lemma NoneDone(data: seq<seq<byte>>)
      requires Fits(data)
      ensures Done(data, 0)
    {
      GatherLength(data, bytes, cs);
      SpanMono(k0, |cs|, bytes);
      SplicedNothing(data, bytes, cs, Span(k0, bytes), buf[..Pos(0)]);
    }

    lemma NextDone(data: seq<seq<byte>>, i: nat)
      requires Fits(data) && i < count && Done(data, i)
      ensures Done(data, i + 1)
    {
      PosStep(i);
      SpanAdd(k0, i, bytes);
      SplicedNext(data, After(data, i), After(data, i + 1), bytes, cs, Span(k0, bytes), buf, Pos(i), Pos(i + 1),
                  k0 + i);
    }

    lemma {:induction false} AfterIs(data: seq<seq<byte>>, i: nat)
      requires Fits(data) && i <= count
      ensures Done(data, i)
    {
      if i == 0 {
        NoneDone(data);
      } else {
        AfterIs(data, i - 1);
        NextDone(data, i - 1);
      }
    }
  }

  // ----- the progress of a chain extension

  /** Linking k more free clusters after cur gives target. */
  ghost predicate Unfinished(fat: seq<word>, hi: nat, cur: nat, k: nat, target: seq<word>)
    requires hi <= |fat|
  {
    && 2 <= cur < hi && k <= FreeCount(fat, cur + 1, hi)
    && Within(FreeList(fat, cur + 1, hi, k), hi) && hi <= 0x8000
    && target == Linked(fat, cur, FreeList(fat, cur + 1, hi, k))
  }

  lemma UnfinishedStep(fat: seq<word>, hi: nat, cur: nat, k: nat, target: seq<word>)
    requires hi <= |fat| && k > 0 && Unfinished(fat, hi, cur, k, target)
    ensures FreeCount(fat, cur + 1, hi) > 0 && 2 <= NextFree(fat, cur + 1, hi) < hi
    ensures var f := NextFree(fat, cur + 1, hi);
            if k > 1 then Unfinished(fat[cur := f], hi, f, k - 1, target)
            else fat[cur := f][f := END] == target
  {
    LinkStep(fat, cur, hi, k);
  }

  // ----- where a write goes and how much of it is kept

  /** How many clusters a write ending at total must add to a chain of len clusters. */
  function Extra(total: nat, len: nat, bytes: nat): nat
    requires bytes > 0
  {
    if Need(total, bytes) > len then Need(total, bytes) - len else 0
  }

  /** Does the last of total bytes fill its cluster? */
  predicate EndsOnBoundary(total: nat, bytes: nat)
    requires bytes > 0
  {
    total == Span(Need(total, bytes), bytes)
  }

  lemma BoundaryIff(total: nat, bytes: nat)
    requires total > 0 && bytes > 0
    ensures EndsOnBoundary(total, bytes) <==> total % bytes == 0
  {
    SpanDivision(total - 1, bytes);
    var q, r := (total - 1) / bytes, (total - 1) % bytes;
    NeedIs(total, q, r + 1, bytes);
    if r + 1 == bytes {
      SpanUnique(q + 1, 0, bytes);
    } else {
      SpanUnique(q, r + 1, bytes);
    }
  }

  /** How many of size bytes at offset are written: a growing write that ends on a boundary loses a cluster. */
  function Kept(offset: nat, size: nat, len: nat, bytes: nat): (w: nat)
    requires bytes > 0
    ensures w <= size
  {
    if Extra(offset + size, len, bytes) > 0 && EndsOnBoundary(offset + size, bytes) && size >= bytes then size - bytes
    else size
  }

  /**
    Where in the file's clusters the program starts: from the cluster that was the last one, at the
    offset modulo the cluster size; or from the first new one if the chain has grown, the offset is on a
    cluster boundary and the file was not empty.
   */
  function Place(offset: nat, size: nat, len: nat, bytes: nat, empty: bool): nat
    requires bytes > 0 && len > 0
  {
    if Extra(offset + size, len, bytes) > 0 && Rest(offset, bytes) == 0 && !empty then Span(len, bytes)
    else Span(len - 1, bytes) + Rest(offset, bytes)
  }

  predicate PowerOfTwo(n: nat) { n == 1 || (n > 1 && n % 2 == 0 && PowerOfTwo(n / 2)) }

  /**
    The write grows the chain and its chunks stay in it.  If it starts inside a cluster it goes beyond that one, or just
    fills it: then nothing is left for chunks, provided the cluster size is a power of two.
   */
  predicate Stays(offset: nat, size: nat, len: nat, bytes: nat, empty: bool)
    requires bytes > 0 && len > 0
  {
    && Place(offset, size, len, bytes, empty) <= offset
    && (Rest(offset, bytes) > 0 ==>
          bytes < Rest(offset, bytes) + size || (bytes == Rest(offset, bytes) + size && PowerOfTwo(bytes)))
  }

  /** The write stays in clusters of the file's own. */
  predicate Contained(offset: nat, size: nat, len: nat, bytes: nat, empty: bool)
    requires bytes > 0 && len > 0
  {
    if Extra(offset + size, len, bytes) == 0 then Rest(offset, bytes) + size <= bytes
    else Stays(offset, size, len, bytes, empty)
  }

  /** A file ends in the last of the clusters it needs. */
  lemma EndInLast(size: nat, bytes: nat)
    requires bytes > 0
    ensures Need(size, bytes) > 0 && size <= Span(Need(size, bytes), bytes)
    ensures size == 0 || Span(Need(size, bytes) - 1, bytes) < size
  {
    EndOfChain(size, Need(size, bytes), bytes);
  }

  lemma RestDivision(x: nat, bytes: nat) returns (q: nat)
    requires bytes > 0
    ensures x == Span(q, bytes) + Rest(x, bytes) && Rest(x, bytes) < bytes
  {
    RestIs(x, bytes);
    SpanDivision(x, bytes);
    q := x / bytes;
  }

  /** With the clusters that it adds, a write of total bytes fits. */
  lemma TotalFits(total: nat, len: nat, bytes: nat)
    requires bytes > 0 && total > 0
    ensures total <= Span(len + Extra(total, len, bytes), bytes)
  {
    EndInLast(total, bytes);
    SpanOrder(Need(total, bytes), len, bytes);
  }

  /** What is kept of a contained write fits the clusters. */
  lemma PlaceFits(offset: nat, size: nat, len: nat, bytes: nat, empty: bool)
    requires bytes > 0 && len > 0 && size > 0 && Contained(offset, size, len, bytes, empty)
    ensures Place(offset, size, len, bytes, empty) + Kept(offset, size, len, bytes)
         <= Span(len + Extra(offset + size, len, bytes), bytes)
  {
    TotalFits(offset + size, len, bytes);
  }

  lemma WholeClusters(size: nat, bytes: nat)
    requires size > 0 && bytes > 0
    ensures size % bytes == 0 ==> size >= bytes
  {
    SpanDivision(size, bytes);
  }

  /** The numbers of a growing write from a cluster boundary, the k0-th. */
  lemma AlignedNumbers(offset: nat, size: nat, len: nat, bytes: nat, empty: bool, k0: nat)
    requires bytes > 0 && len > 0 && size > 0 && Extra(offset + size, len, bytes) > 0 && Rest(offset, bytes) == 0
    requires Stays(offset, size, len, bytes, empty) && k0 == if empty then len - 1 else len
    ensures Place(offset, size, len, bytes, empty) == Span(k0, bytes)
    ensures Need(size, bytes) > 0 && k0 + Need(size, bytes) <= len + Extra(offset + size, len, bytes)
    ensures size % bytes <= bytes && Span(Need(size, bytes) - 1, bytes) + size % bytes <= size
    ensures Kept(offset, size, len, bytes) == WrittenBy(Need(size, bytes), Need(size, bytes), size % bytes, bytes)
  {
    var q := RestDivision(offset, bytes);
    SpanOrder(q, k0, bytes);
    NeedFrom(q, size, bytes);
    RestOf(q, size, bytes, offset + size);
  }

  /** The numbers of a growing write from inside a cluster, whose rest takes head bytes. */
  lemma UnalignedNumbers(offset: nat, size: nat, len: nat, bytes: nat, empty: bool, head: nat)
    requires bytes > 0 && len > 0 && size > 0 && Extra(offset + size, len, bytes) > 0 && Rest(offset, bytes) > 0
    requires Stays(offset, size, len, bytes, empty) && head == bytes - Rest(offset, bytes) && head < size
    ensures 0 < head && Place(offset, size, len, bytes, empty) + head == Span(len, bytes)
    ensures Need(size - head, bytes) > 0 && len + Need(size - head, bytes) <= len + Extra(offset + size, len, bytes)
    ensures (size - head) % bytes <= bytes
    ensures Span(Need(size - head, bytes) - 1, bytes) + (size - head) % bytes <= size - head
    ensures Kept(offset, size, len, bytes)
         == head + WrittenBy(Need(size - head, bytes), Need(size - head, bytes), (size - head) % bytes, bytes)
  {
    var q := RestDivision(offset, bytes);
    var rest := size - head;
    SpanOrder(q, len - 1, bytes);
    NeedFrom(q + 1, rest, bytes);
    RestOf(q + 1, rest, bytes, offset + size);
  }

  /** How much the chunks of the rest of a write hold, and whether that ends on a boundary. */
  lemma RestOf(k: nat, rest: nat, bytes: nat, total: nat)
    requires bytes > 0 && rest > 0 && total == Span(k, bytes) + rest
    ensures EndsOnBoundary(total, bytes) <==> rest % bytes == 0
    ensures rest % bytes == 0 ==> rest >= bytes
    ensures rest % bytes <= bytes && Span(Need(rest, bytes) - 1, bytes) + rest % bytes <= rest
    ensures WrittenBy(Need(rest, bytes), Need(rest, bytes), rest % bytes, bytes)
         == if rest % bytes == 0 then rest - bytes else rest
  {
    RestFrom(k, rest, bytes);
    BoundaryIff(total, bytes);
    WrittenAll(rest, bytes);
    WholeClusters(rest, bytes);
  }

  // ----- what a write does to a disk

  /** The largest value of the 32-bit size field. */
  const MAX_SIZE := 0xffff_ffff

  /** The root directory once the size of the entry in slot has been edited, if it has. */
  ghost function RootAt(root: seq<Entry>, slot: nat, total: dword, begun: bool): seq<Entry>
    requires slot < |root|
  {
    if begun then root[slot := WithSize(root[slot], total)] else root
  }

  predicate HasRoom(d: Disk, cs: seq<nat>, k: nat)
    requires Sound(d)
  {
    cs != [] && cs[|cs| - 1] < Hi(d) && k <= FreeCount(d.fat1, cs[|cs| - 1] + 1, Hi(d))
  }

  /** The clusters a write adds: the first free ones above the tail. */
  function Added(d: Disk, cs: seq<nat>, k: nat): seq<nat>
    requires Sound(d) && HasRoom(d, cs, k)
  {
    FreeList(d.fat1, cs[|cs| - 1] + 1, Hi(d), k)
  }

  lemma AddedIs(d: Disk, cs: seq<nat>, k: nat)
    requires Sound(d) && HasRoom(d, cs, k)
    ensures Increasing(cs[|cs| - 1] + 1, Hi(d), Added(d, cs, k)) && AllFree(d.fat1, Added(d, cs, k))
  {
    FreeListIncreasing(d.fat1, cs[|cs| - 1] + 1, Hi(d), k);
  }

  /** They are the least: a free cluster above the tail that is not added is above all that are. */
  lemma AddedLeast(d: Disk, cs: seq<nat>, k: nat, c: nat)
    requires Sound(d) && HasRoom(d, cs, k) && cs[|cs| - 1] < c < Hi(d) && d.fat1[c] == 0 && c !in Added(d, cs, k)
    ensures |Added(d, cs, k)| == k && forall i :: 0 <= i < k ==> Added(d, cs, k)[i] < c
  {
    FreeListLeast(d.fat1, cs[|cs| - 1] + 1, Hi(d), k, c);
  }

  /** The first table after the chain has grown by k clusters. */
  ghost function Grown(d: Disk, cs: seq<nat>, k: nat): seq<word>
    requires Sound(d) && HasRoom(d, cs, k)
  {
    AddedIs(d, cs, k);
    if k == 0 then d.fat1 else Linked(d.fat1, cs[|cs| - 1], Added(d, cs, k))
  }

  lemma GrownChain(d: Disk, cs: seq<nat>, k: nat)
    requires Sound(d) && HasRoom(d, cs, k) && IsChain(d.fat1, Hi(d), cs)
    ensures |Grown(d, cs, k)| == |d.fat1|
    ensures IsChain(Grown(d, cs, k), Hi(d), cs + Added(d, cs, k))
    ensures forall c :: 0 <= c < |d.fat1| && c != cs[|cs| - 1] && c !in Added(d, cs, k) ==>
              Grown(d, cs, k)[c] == d.fat1[c]
    ensures Ended(d.fat1, cs) ==> Ended(Grown(d, cs, k), cs + Added(d, cs, k))
  {
    AddedIs(d, cs, k);
    if k == 0 {
      assert cs + [] == cs;
    } else {
      Extension(d.fat1, Hi(d), cs, Added(d, cs, k));
    }
  }

  /** Extending the chain is what makes Grown out of the old table. */
  lemma GrownUnfinished(d: Disk, cs: seq<nat>, k: nat)
    requires Sound(d) && HasRoom(d, cs, k) && IsChain(d.fat1, Hi(d), cs) && k > 0
    ensures Unfinished(d.fat1, Hi(d), cs[|cs| - 1], k, Grown(d, cs, k))
  {
    ChainAt(d.fat1, Hi(d), cs, |cs| - 1);
    AddedIs(d, cs, k);
  }

  /**
    In the tables and the directory: the chain cs has grown by k clusters and the size of the file in slot is total.
   */
  ghost predicate Reshaped(d: Disk, slot: nat, cs: seq<nat>, bytes: nat, k: nat, total: nat, d': Disk)
    requires Sound(d) && slot < |d.root|
  {
    && HasRoom(d, cs, k) && total <= MAX_SIZE && d'.fat1 == Grown(d, cs, k) && d'.fat2 == d.fat2 && d'.boot == d.boot
    && d'.root == RootAt(d.root, slot, total, true) && |d'.data| == |d.data| && Uniform(d'.data, bytes)
  }

  /** In the clusters: b has been written at position p of the chain all. */
  ghost predicate Put(d: Disk, d': Disk, bytes: nat, all: seq<nat>, p: nat, b: seq<byte>)
  {
    && Readable(d.data, all) && p + |b| <= |Gather(d.data, all)|
    && Spliced(d.data, d'.data, bytes, all, p, b)
  }

  /**
    d' is d after write_path has written buf at offset to the root file in slot with chain cs.  A write
    that needs no new cluster goes into the last one, and runs over its end if it is too long.
   */
  ghost predicate Wrote(d: Disk, slot: nat, cs: seq<nat>, bytes: nat, offset: nat, buf: seq<byte>, d': Disk)
    requires Sound(d) && slot < |d.root| && bytes > 0 && cs != []
  {
    var k, w := Extra(offset + |buf|, |cs|, bytes), Kept(offset, |buf|, |cs|, bytes);
    && Reshaped(d, slot, cs, bytes, k, offset + w, d')
    && if k == 0 then Spilled(d.data, d'.data, bytes, cs[|cs| - 1], Rest(offset, bytes), buf)
       else Put(d, d', bytes, cs + Added(d, cs, k),
                Place(offset, |buf|, |cs|, bytes, FileSize(d.root[slot]) == 0), buf[..w])
  }

  /** What write_path relies on: room for the clusters it adds, and that its chunks stay in the chain. */
  ghost predicate Writable(d: Disk, bytes: nat, offset: nat, size: nat, slot: nat, cs: seq<nat>)
  {
    && Sound(d) && bytes > 0 && size > 0 && slot < |d.root| && offset + size <= MAX_SIZE
    && IsChain(d.fat1, Hi(d), cs) && cs[0] == FirstCluster(d.root[slot]) && Uniform(d.data, bytes)
    && HasRoom(d, cs, Extra(offset + size, |cs|, bytes))
    && (Extra(offset + size, |cs|, bytes) > 0 ==> Stays(offset, size, |cs|, bytes, FileSize(d.root[slot]) == 0))
  }

  // ----- putting it together

  /** The chunks as one write. */
  lemma JobPut(d: Disk, d': Disk, job: Job)
    requires job.Fits(d.data) && d'.data == job.After(d.data, job.count)
    ensures job.Pos(job.count) <= |job.buf|
    ensures Put(d, d', job.bytes, job.cs, Span(job.k0, job.bytes), job.buf[..job.Pos(job.count)])
  {
    job.AfterIs(d.data, job.count);
  }

  lemma PutMore(d: Disk, d1: Disk, d': Disk, bytes: nat, cs: seq<nat>, p: nat, a: seq<byte>, q: nat, b: seq<byte>)
    requires Put(d, d1, bytes, cs, p, a) && Put(d1, d', bytes, cs, q, b) && q == p + |a|
    ensures Put(d, d', bytes, cs, p, a + b)
  {
    SplicedMore(d.data, d1.data, d'.data, bytes, cs, p, a, b, a + b);
  }

  lemma PokePut(d: Disk, d1: Disk, bytes: nat, cs: seq<nat>, i: nat, o: nat, b: seq<byte>)
    requires Readable(d.data, cs) && Uniform(d.data, bytes) && Distinct(cs) && i < |cs| && o + |b| <= bytes
    requires d1.data == Poked(d.data, cs[i], o, b)
    ensures Put(d, d1, bytes, cs, Span(i, bytes) + o, b)
  {
    SplicedPoke(d.data, d1.data, bytes, cs, i, o, Span(i, bytes) + o, b);
  }

  /** A first piece that fills the cluster before them, and the chunks, as one write. */
  lemma HeadAndJobPut(d: Disk, d1: Disk, d': Disk, o: nat, head: seq<byte>, job: Job)
    requires Uniform(d.data, job.bytes) && Readable(d.data, job.cs) && Distinct(job.cs)
    requires 0 < job.k0 <= |job.cs| && o + |head| == job.bytes
    requires d1.data == Poked(d.data, job.cs[job.k0 - 1], o, head)
    requires job.Fits(d1.data) && d'.data == job.After(d1.data, job.count)
    ensures job.Pos(job.count) <= |job.buf|
    ensures Put(d, d', job.bytes, job.cs, Span(job.k0 - 1, job.bytes) + o, head + job.buf[..job.Pos(job.count)])
  {
    PokePut(d, d1, job.bytes, job.cs, job.k0 - 1, o, head);
    JobPut(d1, d', job);
    PutMore(d, d1, d', job.bytes, job.cs, Span(job.k0 - 1, job.bytes) + o, head,
            Span(job.k0, job.bytes), job.buf[..job.Pos(job.count)]);
  }

  /** A write that needs no new cluster and does not run over the end of the last one. */
  lemma SpilledPut(d: Disk, d': Disk, bytes: nat, cs: seq<nat>, o: nat, b: seq<byte>)
    requires Readable(d.data, cs) && Uniform(d.data, bytes) && Distinct(cs) && cs != [] && o + |b| <= bytes
    requires Spilled(d.data, d'.data, bytes, cs[|cs| - 1], o, b)
    ensures Put(d, d', bytes, cs, Span(|cs| - 1, bytes) + o, b)
  {
    SpilledPoke(d.data, d'.data, bytes, cs[|cs| - 1], o, b);
    SplicedPoke(d.data, d'.data, bytes, cs, |cs| - 1, o, Span(|cs| - 1, bytes) + o, b);
  }

  lemma SpilledPoke(data: seq<seq<byte>>, data': seq<seq<byte>>, bytes: nat, c: nat, o: nat, b: seq<byte>)
    requires Uniform(data, bytes) && 2 <= c < |data| + 2 && o + |b| <= bytes && Spilled(data, data', bytes, c, o, b)
    ensures data' == Poked(data, c, o, b)
  {
    forall k | 0 <= k < |data|
      ensures data'[k] == if k == c - 2 then Splice(data[k], o, b) else data[k]
    {
      if k == c - 2 {
        HitInside(data[k], o, b);
      } else {
        SpanOrder(k, c - 2, bytes);
        SpanOrder(c - 2, k, bytes);
        HitMiss(data[k], Span(c - 2, bytes) + o - Span(k, bytes), b);
      }
    }
  }

  lemma SpilledUniform(data: seq<seq<byte>>, data': seq<seq<byte>>, bytes: nat, c: nat, o: nat, b: seq<byte>)
    requires Uniform(data, bytes) && Spilled(data, data', bytes, c, o, b)
    ensures Uniform(data', bytes)
  {
  }

  // ----- the steps of write_path

  /**
    d is d1 after i chunks of the job; offset is the size before the first, and begun tells whether the size was set
    already.
   */
  ghost predicate Midway(d1: Disk, job: Job, root: seq<Entry>, slot: nat, offset: nat, begun: bool, i: nat, d: Disk)
    requires job.Fits(d1.data)
  {
    && i <= job.count && slot < |root| && job.Pos(i) <= |job.buf| && offset + |job.buf| <= MAX_SIZE
    && d == d1.(data := job.After(d1.data, i), root := RootAt(root, slot, offset + job.Pos(i), begun || i > 0))
  }

  lemma MidwayStart(d1: Disk, job: Job, root: seq<Entry>, slot: nat, offset: nat, begun: bool)
    requires job.Fits(d1.data) && slot < |root| && offset + |job.buf| <= MAX_SIZE
    requires d1.root == RootAt(root, slot, offset, begun)
    ensures Midway(d1, job, root, slot, offset, begun, 0, d1)
  {
  }

  /** The next chunk can be written. */
  lemma MidwayReady(d1: Disk, job: Job, root: seq<Entry>, slot: nat, offset: nat, begun: bool, i: nat, d: Disk,
                    pos: nat, length: nat)
    requires job.Fits(d1.data) && Midway(d1, job, root, slot, offset, begun, i, d) && i < job.count
    requires pos == job.Pos(i) && length == ChunkLength(i, job.count, job.tail, job.bytes)
    ensures pos + length <= |job.buf| && length <= job.bytes && d.fat1 == d1.fat1
    ensures offset + pos + length <= MAX_SIZE && d.root == RootAt(root, slot, offset + pos, begun || i > 0)
    ensures |d.data| == |d1.data| && 2 <= job.cs[job.k0 + i] < |d.data| + 2
  {
    job.PosStep(i);
  }

  lemma MidwayNext(d1: Disk, job: Job, root: seq<Entry>, slot: nat, offset: nat, begun: bool, i: nat, d: Disk,
                   pos: nat, length: nat, chunk: seq<byte>, total: dword, d': Disk)
    requires job.Fits(d1.data) && Midway(d1, job, root, slot, offset, begun, i, d) && i < job.count
    requires pos == job.Pos(i) && length == ChunkLength(i, job.count, job.tail, job.bytes) && pos + length <= |job.buf|
    requires 2 <= job.cs[job.k0 + i] < |d.data| + 2 && length <= |d.data[job.cs[job.k0 + i] - 2]|
    requires total == offset + pos + length && chunk == job.buf[pos..pos + length]
    requires d' == d.(data := Poked(d.data, job.cs[job.k0 + i], 0, chunk), root := RootAt(root, slot, total, true))
    ensures pos + length == job.Pos(i + 1) && Midway(d1, job, root, slot, offset, begun, i + 1, d')
  {
    job.PosStep(i);
  }

  /** The chain of the file in slot has grown from len clusters to all, for a growing write that stays in it. */
  ghost predicate Prepared(d: Disk, slot: nat, bytes: nat, all: seq<nat>, offset: nat, size: nat, len: nat)
  {
    && Sound(d) && slot < |d.root| && bytes > 0 && size > 0 && len > 0 && Uniform(d.data, bytes)
    && IsChain(d.fat1, Hi(d), all) && Readable(d.data, all) && Distinct(all)
    && Extra(offset + size, len, bytes) > 0 && |all| == len + Extra(offset + size, len, bytes)
    && offset + size <= MAX_SIZE
    && Stays(offset, size, len, bytes, FileSize(d.root[slot]) == 0)
  }

  /** What is kept of buf is at its place and the size is set; nothing else has changed. */
  ghost predicate Finished(d: Disk, d': Disk, slot: nat, bytes: nat, all: seq<nat>, offset: nat, buf: seq<byte>,
                           len: nat)
    requires slot < |d.root| && bytes > 0 && len > 0
  {
    var w := Kept(offset, |buf|, len, bytes);
    && offset + w <= MAX_SIZE && d' == d.(data := d'.data, root := RootAt(d.root, slot, offset + w, true))
    && Put(d, d', bytes, all, Place(offset, |buf|, len, bytes, FileSize(d.root[slot]) == 0), buf[..w])
  }

  lemma AlignedFits(d: Disk, slot: nat, bytes: nat, all: seq<nat>, offset: nat, buf: seq<byte>, len: nat, job: Job,
                    empty: bool)
    requires Prepared(d, slot, bytes, all, offset, |buf|, len) && Rest(offset, bytes) == 0
    requires empty == (FileSize(d.root[slot]) == 0)
    requires job == Job(bytes, all, if empty then len - 1 else len, buf, Need(|buf|, bytes), |buf| % bytes)
    ensures job.Fits(d.data) && job.k0 < |all| && job.Pos(job.count) == Kept(offset, |buf|, len, bytes)
    ensures Span(job.k0, bytes) == Place(offset, |buf|, len, bytes, empty)
  {
    AlignedNumbers(offset, |buf|, len, bytes, empty, job.k0);
    JobFits(d.data, job);
  }

  lemma JobFits(data: seq<seq<byte>>, job: Job)
    requires Uniform(data, job.bytes) && Readable(data, job.cs) && Distinct(job.cs) && job.k0 + job.count <= |job.cs|
    requires job.count > 0 && job.tail <= job.bytes && Span(job.count - 1, job.bytes) + job.tail <= |job.buf|
    ensures job.Fits(data)
  {
  }

  lemma AlignedFinished(d: Disk, d': Disk, slot: nat, bytes: nat, all: seq<nat>, offset: nat, buf: seq<byte>,
                        len: nat, job: Job)
    requires slot < |d.root| && bytes > 0 && len > 0 && offset + |buf| <= MAX_SIZE
    requires job.bytes == bytes && job.cs == all && job.buf == buf && job.Fits(d.data)
    requires job.Pos(job.count) == Kept(offset, |buf|, len, bytes)
    requires Span(job.k0, bytes) == Place(offset, |buf|, len, bytes, FileSize(d.root[slot]) == 0)
    requires Midway(d, job, d.root, slot, offset, false, job.count, d')
    ensures Finished(d, d', slot, bytes, all, offset, buf, len)
  {
    JobPut(d, d', job);
  }

  lemma UnalignedFits(d: Disk, data1: seq<seq<byte>>, slot: nat, bytes: nat, all: seq<nat>, offset: nat, buf: seq<byte>,
                      len: nat, head: nat, job: Job)
    requires Prepared(d, slot, bytes, all, offset, |buf|, len) && Rest(offset, bytes) > 0
    requires head == bytes - Rest(offset, bytes) && head < |buf|
    requires Uniform(data1, bytes) && |data1| == |d.data|
    requires job == Job(bytes, all, len, buf[head..], Need(|buf| - head, bytes), (|buf| - head) % bytes)
    ensures job.Fits(data1) && len < |all| && head + job.Pos(job.count) == Kept(offset, |buf|, len, bytes)
    ensures Span(len - 1, bytes) + Rest(offset, bytes) == Place(offset, |buf|, len, bytes, FileSize(d.root[slot]) == 0)
  {
    UnalignedNumbers(offset, |buf|, len, bytes, FileSize(d.root[slot]) == 0, head);
  }

  lemma UnalignedFinished(d: Disk, d1: Disk, d': Disk, slot: nat, bytes: nat, all: seq<nat>, offset: nat,
                          buf: seq<byte>,
                          len: nat, head: nat, job: Job)
    requires slot < |d.root| && bytes > 0 && 0 < len < |all| && offset + |buf| <= MAX_SIZE && head <= |buf|
    requires Uniform(d.data, bytes) && Readable(d.data, all) && Distinct(all)
    requires job.bytes == bytes && job.cs == all && job.k0 == len && job.buf == buf[head..] && job.Fits(d1.data)
    requires Rest(offset, bytes) + head == bytes
    requires head + job.Pos(job.count) == Kept(offset, |buf|, len, bytes)
    requires Span(len - 1, bytes) + Rest(offset, bytes) == Place(offset, |buf|, len, bytes, FileSize(d.root[slot]) == 0)
    requires d1 == d.(data := Poked(d.data, all[len - 1], Rest(offset, bytes), buf[..head]),
                      root := RootAt(d.root, slot, offset + head, true))
    requires Midway(d1, job, d.root, slot, offset + head, true, job.count, d')
    ensures Finished(d, d', slot, bytes, all, offset, buf, len)
  {
    HeadAndJobPut(d, d1, d', Rest(offset, bytes), buf[..head], job);
    PrefixJoin(buf, head, job.Pos(job.count));
  }

  /** The write ends with the cluster it starts in. */
  lemma HeadFinished(d: Disk, d': Disk, slot: nat, bytes: nat, all: seq<nat>, offset: nat, buf: seq<byte>, len: nat)
    requires Prepared(d, slot, bytes, all, offset, |buf|, len)
    requires Rest(offset, bytes) > 0 && Rest(offset, bytes) + |buf| == bytes
    requires 2 <= all[len - 1] < Hi(d)
    requires d' == d.(data := Poked(d.data, all[len - 1], Rest(offset, bytes), buf),
                      root := RootAt(d.root, slot, offset + |buf|, true))
    ensures Finished(d, d', slot, bytes, all, offset, buf, len)
  {
    PokePut(d, d', bytes, all, len - 1, Rest(offset, bytes), buf);
    assert buf[..|buf|] == buf;
  }

  lemma GrownPrepared(d: Disk, slot: nat, cs: seq<nat>, bytes: nat, offset: nat, size: nat)
    requires Writable(d, bytes, offset, size, slot, cs) && Extra(offset + size, |cs|, bytes) > 0
    ensures var k := Extra(offset + size, |cs|, bytes);
            Prepared(d.(fat1 := Grown(d, cs, k)), slot, bytes, cs + Added(d, cs, k), offset, size, |cs|)
  {
    var k := Extra(offset + size, |cs|, bytes);
    GrownChain(d, cs, k);
    ChainReadable(Grown(d, cs, k), Hi(d), cs + Added(d, cs, k), d.data);
    ChainDistinct(Grown(d, cs, k), Hi(d), cs + Added(d, cs, k));
  }

  lemma FinishedWrote(d: Disk, slot: nat, cs: seq<nat>, bytes: nat, offset: nat, buf: seq<byte>, d': Disk)
    requires Writable(d, bytes, offset, |buf|, slot, cs) && Extra(offset + |buf|, |cs|, bytes) > 0
    requires var k := Extra(offset + |buf|, |cs|, bytes);
             Finished(d.(fat1 := Grown(d, cs, k)), d', slot, bytes, cs + Added(d, cs, k), offset, buf, |cs|)
    ensures Wrote(d, slot, cs, bytes, offset, buf, d')
  {
  }

  /** buf has been written into the last cluster, and over its end if it is too long, and the size set. */
  ghost predicate WroteInLast(d: Disk, d': Disk, slot: nat, bytes: nat, cs: seq<nat>, offset: nat, buf: seq<byte>)
  {
    && slot < |d.root| && bytes > 0 && cs != [] && offset + |buf| <= MAX_SIZE
    && d' == d.(data := d'.data, root := RootAt(d.root, slot, offset + |buf|, true))
    && Spilled(d.data, d'.data, bytes, cs[|cs| - 1], Rest(offset, bytes), buf)
  }

  lemma InLastWrote(d: Disk, slot: nat, cs: seq<nat>, bytes: nat, offset: nat, buf: seq<byte>, d': Disk)
    requires Writable(d, bytes, offset, |buf|, slot, cs) && Extra(offset + |buf|, |cs|, bytes) == 0
    requires WroteInLast(d, d', slot, bytes, cs, offset, buf)
    ensures Wrote(d, slot, cs, bytes, offset, buf, d')
  {
    SpilledUniform(d.data, d'.data, bytes, cs[|cs| - 1], Rest(offset, bytes), buf);
  }

  /** A file that fits a grown chain fits the 32-bit size field. */
  lemma GrownSmall(d: Disk, cs: seq<nat>, bytes: nat, k: nat, total: nat)
    requires Sound(d) && HasRoom(d, cs, k) && IsChain(d.fat1, Hi(d), cs) && bytes <= 255 * SECTOR
    requires total <= Span(|cs| + k, bytes)
    ensures total <= MAX_SIZE
  {
    GrownChain(d, cs, k);
    ChainLength(Grown(d, cs, k), Hi(d), cs + Added(d, cs, k));
    SpanBound(|cs| + k, bytes);
  }
}
