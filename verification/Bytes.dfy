/** Bytes, little-endian words and the effect of an in-place write on a byte image. */
module Bytes {

  type byte = x: int | 0 <= x < 0x100
  type word = x: int | 0 <= x < 0x1_0000
  type dword = x: int | 0 <= x < 0x1_0000_0000

  datatype Option<+T> = None | Some(value: T)

  /** The little-endian 16-bit value stored at position p. */
  function Word(s: seq<byte>, p: nat): word
    requires p + 2 <= |s|
  {
    (s[p] as int) + 0x100 * (s[p + 1] as int)
  }

  function WordBytes(v: word): (b: seq<byte>)
    ensures |b| == 2 && Word(b, 0) == v
  {
    [v % 0x100, v / 0x100]
  }

  /** The low byte comes first. */
  lemma WordIff(s: seq<byte>, p: nat, v: word)
    requires p + 2 <= |s|
    ensures Word(s, p) == v <==> s[p] == v % 0x100 && s[p + 1] == v / 0x100
  {
  }

  /** The little-endian 32-bit value stored at position p. */
  function DWord(s: seq<byte>, p: nat): dword
    requires p + 4 <= |s|
  {
    (Word(s, p) as int) + 0x1_0000 * (Word(s, p + 2) as int)
  }

  function DWordBytes(v: dword): (b: seq<byte>)
    ensures |b| == 4 && DWord(b, 0) == v
  {
    var r := WordBytes(v % 0x1_0000) + WordBytes(v / 0x1_0000);
    assert Word(r, 0) == Word(WordBytes(v % 0x1_0000), 0);
    assert Word(r, 2) == Word(WordBytes(v / 0x1_0000), 0);
    r
  }

  lemma DWordIff(s: seq<byte>, p: nat, v: dword)
    requires p + 4 <= |s|
    ensures DWord(s, p) == v <==>
              && s[p] == v % 0x100 && s[p + 1] == v / 0x100 % 0x100
              && s[p + 2] == v / 0x1_0000 % 0x100 && s[p + 3] == v / 0x100_0000
  {
    WordIff(s, p, v % 0x1_0000);
    WordIff(s, p + 2, v / 0x1_0000);
    FourBytes(v);
  }

  lemma FourBytes(v: dword)
    ensures v % 0x1_0000 % 0x100 == v % 0x100 && v % 0x1_0000 / 0x100 == v / 0x100 % 0x100
    ensures v / 0x1_0000 / 0x100 == v / 0x100_0000
  {
  }

  /** The image s after the bytes b have been written over it at position p. */
  function Splice(s: seq<byte>, p: nat, b: seq<byte>): (r: seq<byte>)
    requires p + |b| <= |s|
    ensures |r| == |s|
  {
    seq(|s|, k requires 0 <= k < |s| => if p <= k < p + |b| then b[k - p] else s[k])
  }

  /** A write at p that may run past the end, and then makes s longer. */
  function Overlay(s: seq<byte>, p: nat, b: seq<byte>): (r: seq<byte>)
    requires p <= |s|
    ensures p + |b| <= |s| ==> r == Splice(s, p, b)
    ensures |s| <= |r|
  {
    s[..p] + b + if p + |b| <= |s| then s[p + |b|..] else []
  }

  lemma OverlayPast(s: seq<byte>, p: nat, b: seq<byte>, more: seq<byte>)
    requires p <= |s| && p + |b| == |s + more|
    ensures Overlay(s, p, b) == Splice(s + more, p, b)
  {
    if more == [] {
      assert s + more == s;
    } else {
      assert (s + more)[..p] == s[..p] && (s + more)[p + |b|..] == [];
    }
  }

  /**
    The bytes of a block after b has been written at position at relative to its start, as far as that meets the
    block.
   */
  function Hit(block: seq<byte>, at: int, b: seq<byte>): (r: seq<byte>)
    ensures |r| == |block|
  {
    seq(|block|, j requires 0 <= j < |block| => if 0 <= j - at < |b| then b[j - at] else block[j])
  }

  lemma HitInside(block: seq<byte>, at: nat, b: seq<byte>)
    requires at + |b| <= |block|
    ensures Hit(block, at, b) == Splice(block, at, b)
  {
  }

  lemma HitMiss(block: seq<byte>, at: int, b: seq<byte>)
    requires at + |b| <= 0 || |block| <= at
    ensures Hit(block, at, b) == block
  {
  }

  lemma SpliceAt(s: seq<byte>, p: nat, b: seq<byte>, k: nat)
    requires p + |b| <= |s| && k < |s|
    ensures Splice(s, p, b)[k] == if p <= k < p + |b| then b[k - p] else s[k]
  {
  }

  /** A range the write does not meet keeps its bytes. */
  lemma SpliceOutside(s: seq<byte>, p: nat, b: seq<byte>, q: nat, n: nat)
    requires p + |b| <= |s| && q + n <= |s|
    requires q + n <= p || p + |b| <= q
    ensures Splice(s, p, b)[q..q + n] == s[q..q + n]
  {
  }

  /** A range that contains the write is itself spliced. */
  lemma SpliceInside(s: seq<byte>, p: nat, b: seq<byte>, q: nat, n: nat)
    requires q <= p && p + |b| <= q + n <= |s|
    ensures Splice(s, p, b)[q..q + n] == Splice(s[q..q + n], p - q, b)
  {
    var l, r := Splice(s, p, b)[q..q + n], Splice(s[q..q + n], p - q, b);
    forall k | 0 <= k < n
      ensures l[k] == r[k]
    {
      SpliceAt(s, p, b, q + k);
      SpliceAt(s[q..q + n], p - q, b, k);
    }
  }

  lemma SpliceAll(s: seq<byte>, b: seq<byte>)
    requires |s| == |b|
    ensures Splice(s, 0, b) == b
  {
  }

  /** Two adjacent writes are one longer write. */
  lemma SpliceTwice(s: seq<byte>, p: nat, a: seq<byte>, b: seq<byte>)
    requires p + |a| + |b| <= |s|
    ensures Splice(Splice(s, p, a), p + |a|, b) == Splice(s, p, a + b)
  {
    var l, r := Splice(Splice(s, p, a), p + |a|, b), Splice(s, p, a + b);
    forall k | 0 <= k < |s|
      ensures l[k] == r[k]
    {
      SpliceAt(Splice(s, p, a), p + |a|, b, k);
      SpliceAt(s, p, a, k);
      SpliceAt(s, p, a + b, k);
    }
  }

  lemma WordOfSlice(s: seq<byte>, p: nat)
    requires p + 2 <= |s|
    ensures Word(s, p) == Word(s[p..p + 2], 0)
  {
  }

  lemma HitSlice(s: seq<byte>, p: nat, b: seq<byte>, q: nat, n: nat)
    requires p + |b| <= |s| && q + n <= |s|
    ensures Splice(s, p, b)[q..q + n] == Hit(s[q..q + n], p - q, b)
  {
    var l, r := Splice(s, p, b)[q..q + n], Hit(s[q..q + n], p - q, b);
    forall k | 0 <= k < n
      ensures l[k] == r[k]
    {
      SpliceAt(s, p, b, q + k);
    }
  }

  lemma SubSlice(s: seq<byte>, p: nat, n: nat, o: nat, k: nat)
    requires p + n <= |s| && o + k <= n
    ensures s[p..p + n][o..o + k] == s[p + o..p + o + k]
  {
    var l, r := s[p..p + n][o..o + k], s[p + o..p + o + k];
    assert forall i :: 0 <= i < k ==> l[i] == r[i];
  }

  lemma PieceOf(s: seq<byte>, p: nat, block: seq<byte>, o: nat, k: nat)
    requires p + |block| <= |s| && s[p..p + |block|] == block && o + k <= |block|
    ensures s[p + o..p + o + k] == block[o..o + k]
  {
    SubSlice(s, p, |block|, o, k);
  }

  lemma PrefixJoin(buf: seq<byte>, head: nat, w: nat)
    requires head + w <= |buf|
    ensures buf[..head] + buf[head..][..w] == buf[..head + w]
  {
  }

  // ----- n consecutive blocks

  /** The extent of n blocks of the given size. */
  function Span(n: nat, size: nat): nat
  {
    if n == 0 then 0 else Span(n - 1, size) + size
  }

  lemma {:induction false} SpanIsProduct(n: nat, size: nat)
    ensures Span(n, size) == n * size
  {
    if n > 0 {
      SpanIsProduct(n - 1, size);
      assert n * size == (n - 1) * size + size;
    }
  }

  lemma {:induction false} SpanMono(a: nat, b: nat, size: nat)
    requires a < b
    ensures Span(a, size) + size <= Span(b, size)
  {
    if a + 1 < b {
      SpanMono(a, b - 1, size);
    }
  }

  lemma {:induction false} SpanScale(n: nat, size: nat, k: nat)
    ensures Span(n, size * k) == Span(n, size) * k
  {
    if n > 0 {
      SpanScale(n - 1, size, k);
      assert (Span(n - 1, size) + size) * k == Span(n - 1, size) * k + size * k;
    }
  }

  /** Euclidean division in terms of blocks. */
  lemma SpanDivision(x: nat, size: nat)
    requires size > 0
    ensures x == Span(x / size, size) + x % size && x % size < size
  {
    SpanIsProduct(x / size, size);
  }

  /** Which block a position falls into. */
  lemma SpanUnique(q: nat, r: nat, size: nat)
    requires r < size
    ensures (Span(q, size) + r) / size == q && (Span(q, size) + r) % size == r
  {
    var x := Span(q, size) + r;
    SpanDivision(x, size);
    var p := x / size;
    if p < q {
      SpanMono(p, q, size);
    } else if q < p {
      SpanMono(q, p, size);
    }
  }

  // ----- positions in increasing order

  ghost predicate Increasing(lo: nat, hi: nat, cs: seq<nat>)
  {
    && (forall i :: 0 <= i < |cs| ==> lo <= cs[i] < hi)
    && (forall i, j :: 0 <= i < j < |cs| ==> cs[i] < cs[j])
  }

  /** Slots in increasing order are determined by which they are. */
  lemma {:induction false} IncreasingUnique(lo: nat, hi: nat, a: seq<nat>, b: seq<nat>)
    requires Increasing(lo, hi, a) && Increasing(lo, hi, b) && forall k: nat :: k in a <==> k in b
    ensures a == b
    decreases |a|
  {
    if b != [] {
      assert b[0] in a;
    }
    if a != [] {
      assert a[0] in b;
      assert a[0] == b[0];
      forall k: nat
        ensures k in a[1..] <==> k in b[1..]
      {
        assert k in a[1..] <==> k in a && k != a[0];
        assert k in b[1..] <==> k in b && k != b[0];
      }
      IncreasingUnique(lo, hi, a[1..], b[1..]);
      assert a == [a[0]] + a[1..] && b == [b[0]] + b[1..];
    }
  }
}
