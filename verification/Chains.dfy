/**
  Cluster chains of an allocation table: what a chain is, that it is unique and
  acyclic, how it is extended into free clusters, how it is freed, and the bytes
  it holds.  Clusters are the numbers 2 .. hi - 1; hi is below every end mark.
 */
module Chains {
  import opened Bytes

  const END := 0xffff

  predicate EndMark(v: word) { v >= 0xfff8 }

  /** cs follows the links of the table and stops at an end mark. */
  predicate IsChain(fat: seq<word>, hi: nat, cs: seq<nat>)
    requires hi <= |fat|
  {
    && |cs| > 0
    && 2 <= cs[0] < hi
    && if |cs| == 1 then EndMark(fat[cs[0]])
       else fat[cs[0]] == cs[1] && IsChain(fat, hi, cs[1..])
  }

  /** A chain, entry by entry: clusters of the volume, each the entry of the one before, and an end mark at last. */
  lemma {:induction false} ChainIff(fat: seq<word>, hi: nat, cs: seq<nat>)
    requires hi <= |fat|
    ensures IsChain(fat, hi, cs) <==>
              && cs != [] && (forall i :: 0 <= i < |cs| ==> 2 <= cs[i] < hi)
              && (forall i :: 0 <= i < |cs| - 1 ==> fat[cs[i]] == cs[i + 1])
              && fat[cs[|cs| - 1]] >= 0xfff8
    decreases |cs|
  {
    if |cs| > 1 {
      ChainIff(fat, hi, cs[1..]);
      assert forall i :: 0 < i < |cs| ==> cs[i] == cs[1..][i - 1];
    }
  }

  /** The last cluster of cs carries the end mark that the program itself writes. */
  predicate Ended(fat: seq<word>, cs: seq<nat>)
  {
    cs != [] ==> cs[|cs| - 1] < |fat| && fat[cs[|cs| - 1]] == END
  }

  ghost predicate HasChain(fat: seq<word>, hi: nat, c: nat)
    requires hi <= |fat|
  {
    exists cs :: IsChain(fat, hi, cs) && cs[0] == c
  }

  /** The chain that starts at c. */
  ghost function ChainOf(fat: seq<word>, hi: nat, c: nat): (cs: seq<nat>)
    requires hi <= |fat| && HasChain(fat, hi, c)
    ensures IsChain(fat, hi, cs) && cs[0] == c
  {
    var cs :| IsChain(fat, hi, cs) && cs[0] == c;
    cs
  }

  lemma {:induction false} ChainUnique(fat: seq<word>, hi: nat, a: seq<nat>, b: seq<nat>)
    requires hi <= |fat| && hi <= 0xfff8
    requires IsChain(fat, hi, a) && IsChain(fat, hi, b) && a[0] == b[0]
    ensures a == b
  {
    if |a| > 1 {
      ChainSecond(fat, hi, a);
    }
    if |b| > 1 {
      ChainSecond(fat, hi, b);
    }
    if |a| > 1 && |b| > 1 {
      ChainUnique(fat, hi, a[1..], b[1..]);
      assert a == [a[0]] + a[1..] && b == [b[0]] + b[1..];
    }
  }

  lemma ChainSecond(fat: seq<word>, hi: nat, cs: seq<nat>)
    requires hi <= |fat| && IsChain(fat, hi, cs) && |cs| > 1
    ensures 2 <= cs[1] < hi && fat[cs[0]] == cs[1] && IsChain(fat, hi, cs[1..])
  {
  }

  lemma ChainOfIs(fat: seq<word>, hi: nat, cs: seq<nat>)
    requires hi <= |fat| && hi <= 0xfff8 && IsChain(fat, hi, cs)
    ensures HasChain(fat, hi, cs[0]) && ChainOf(fat, hi, cs[0]) == cs
  {
    ChainUnique(fat, hi, ChainOf(fat, hi, cs[0]), cs);
  }

  lemma {:induction false} ChainSuffix(fat: seq<word>, hi: nat, cs: seq<nat>, i: nat)
    requires hi <= |fat| && IsChain(fat, hi, cs) && i < |cs|
    ensures IsChain(fat, hi, cs[i..])
  {
    if i > 0 {
      ChainSuffix(fat, hi, cs[1..], i - 1);
      assert cs[1..][i - 1..] == cs[i..];
    } else {
      assert cs[0..] == cs;
    }
  }

  /** The entry of the i-th cluster is the next cluster, or an end mark for the last one. */
  lemma ChainAt(fat: seq<word>, hi: nat, cs: seq<nat>, i: nat)
    requires hi <= |fat| && IsChain(fat, hi, cs) && i < |cs|
    ensures 2 <= cs[i] < hi && fat[cs[i]] != 0
    ensures if i + 1 < |cs| then fat[cs[i]] == cs[i + 1] && 2 <= cs[i + 1] < hi else EndMark(fat[cs[i]])
  {
    ChainSuffix(fat, hi, cs, i);
    if i + 1 < |cs| {
      ChainSuffix(fat, hi, cs, i + 1);
    }
  }

  lemma ChainMember(fat: seq<word>, hi: nat, cs: seq<nat>, c: nat)
    requires hi <= |fat| && IsChain(fat, hi, cs) && c in cs
    ensures 2 <= c < hi && fat[c] != 0
  {
    var i :| 0 <= i < |cs| && cs[i] == c;
    ChainAt(fat, hi, cs, i);
  }

  /** A chain never visits a cluster twice: a repeated cluster would never reach an end mark. */
  lemma ChainAcyclic(fat: seq<word>, hi: nat, cs: seq<nat>, i: nat, j: nat)
    requires hi <= |fat| && hi <= 0xfff8 && IsChain(fat, hi, cs) && i < j < |cs|
    ensures cs[i] != cs[j]
  {
    if cs[i] == cs[j] {
      ChainSuffix(fat, hi, cs, i);
      ChainSuffix(fat, hi, cs, j);
      ChainUnique(fat, hi, cs[i..], cs[j..]);
    }
  }

  ghost predicate Distinct(cs: seq<nat>)
  {
    forall i, j :: 0 <= i < j < |cs| ==> cs[i] != cs[j]
  }

  lemma ChainDistinct(fat: seq<word>, hi: nat, cs: seq<nat>)
    requires hi <= |fat| && hi <= 0xfff8 && IsChain(fat, hi, cs)
    ensures Distinct(cs)
  {
    forall i, j | 0 <= i < j < |cs|
      ensures cs[i] != cs[j]
    {
      ChainAcyclic(fat, hi, cs, i, j);
    }
  }

  lemma {:induction false} ChainFrame(fat: seq<word>, fat': seq<word>, hi: nat, cs: seq<nat>)
    requires hi <= |fat| == |fat'| && IsChain(fat, hi, cs)
    requires forall i :: 0 <= i < |cs| && 2 <= cs[i] < hi ==> fat'[cs[i]] == fat[cs[i]]
    ensures IsChain(fat', hi, cs)
  {
    assert fat'[cs[0]] == fat[cs[0]];
    if |cs| > 1 {
      forall i | 0 <= i < |cs[1..]| && 2 <= cs[1..][i] < hi
        ensures fat'[cs[1..][i]] == fat[cs[1..][i]]
      {
        assert cs[1..][i] == cs[i + 1];
      }
      ChainFrame(fat, fat', hi, cs[1..]);
    }
  }

  // ----- free clusters

  /** The least free cluster in lo .. hi - 1, or hi if there is none. */
  function NextFree(fat: seq<word>, lo: nat, hi: nat): (c: nat)
    requires lo <= hi <= |fat|
    ensures lo <= c <= hi && (c < hi ==> fat[c] == 0)
    ensures forall k :: lo <= k < c ==> fat[k] != 0
    decreases hi - lo
  {
    if lo == hi || fat[lo] == 0 then lo else NextFree(fat, lo + 1, hi)
  }

  /** A longer table has the same first free entry, if the shorter one has any. */
  lemma {:induction false} NextFreeFarther(fat: seq<word>, lo: nat, hi: nat, hi': nat)
    requires lo <= hi <= hi' <= |fat|
    ensures NextFree(fat, lo, hi) < hi ==> NextFree(fat, lo, hi') == NextFree(fat, lo, hi)
    ensures NextFree(fat, lo, hi') < hi ==> NextFree(fat, lo, hi) == NextFree(fat, lo, hi')
    decreases hi - lo
  {
    if lo < hi && fat[lo] != 0 {
      NextFreeFarther(fat, lo + 1, hi, hi');
    }
  }

  function FreeCount(fat: seq<word>, lo: nat, hi: nat): nat
    requires lo <= hi <= |fat|
    decreases hi - lo
  {
    if lo == hi then 0 else (if fat[lo] == 0 then 1 else 0) + FreeCount(fat, lo + 1, hi)
  }

  lemma {:induction false} NextFreeCount(fat: seq<word>, lo: nat, hi: nat)
    requires lo <= hi <= |fat| && FreeCount(fat, lo, hi) > 0
    ensures NextFree(fat, lo, hi) < hi
    ensures FreeCount(fat, NextFree(fat, lo, hi) + 1, hi) == FreeCount(fat, lo, hi) - 1
    decreases hi - lo
  {
    if fat[lo] != 0 {
      NextFreeCount(fat, lo + 1, hi);
    }
  }

  /** The k least free clusters from lo on, in increasing order. */
  function FreeList(fat: seq<word>, lo: nat, hi: nat, k: nat): (cs: seq<nat>)
    requires lo <= hi <= |fat| && k <= FreeCount(fat, lo, hi)
    ensures |cs| == k
    decreases k
  {
    if k == 0 then []
    else
      NextFreeCount(fat, lo, hi);
      var f := NextFree(fat, lo, hi);
      [f] + FreeList(fat, f + 1, hi, k - 1)
  }

  lemma {:induction false} FreeCountFrame(fat: seq<word>, fat': seq<word>, lo: nat, hi: nat)
    requires lo <= hi <= |fat| == |fat'| && fat[lo..] == fat'[lo..]
    ensures FreeCount(fat, lo, hi) == FreeCount(fat', lo, hi)
    ensures NextFree(fat, lo, hi) == NextFree(fat', lo, hi)
    decreases hi - lo
  {
    if lo < hi {
      assert fat[lo] == fat[lo..][0] == fat'[lo];
      assert fat[lo + 1..] == fat[lo..][1..] && fat'[lo + 1..] == fat'[lo..][1..];
      FreeCountFrame(fat, fat', lo + 1, hi);
    }
  }

  lemma {:induction false} FreeListFrame(fat: seq<word>, fat': seq<word>, lo: nat, hi: nat, k: nat)
    requires lo <= hi <= |fat| == |fat'| && fat[lo..] == fat'[lo..]
    requires k <= FreeCount(fat, lo, hi)
    ensures k <= FreeCount(fat', lo, hi)
    ensures FreeList(fat, lo, hi, k) == FreeList(fat', lo, hi, k)
    decreases k
  {
    FreeCountFrame(fat, fat', lo, hi);
    if k > 0 {
      NextFreeCount(fat, lo, hi);
      var f := NextFree(fat, lo, hi);
      assert fat[f + 1..] == fat[lo..][f + 1 - lo..] && fat'[f + 1..] == fat'[lo..][f + 1 - lo..];
      FreeListFrame(fat, fat', f + 1, hi, k - 1);
    }
  }

  // ----- extending a chain

  /** The table after tail has been linked to the clusters of news, the last of them marked END. */
  function Linked(fat: seq<word>, tail: nat, news: seq<nat>): (r: seq<word>)
    requires tail < |fat| && forall i :: 0 <= i < |news| ==> news[i] < |fat| && news[i] < 0x1_0000
    ensures |r| == |fat|
    decreases |news|
  {
    if news == [] then fat[tail := END]
    else Linked(fat[tail := news[0]], news[0], news[1..])
  }

  lemma {:induction false} FreeListIncreasing(fat: seq<word>, lo: nat, hi: nat, k: nat)
    requires lo <= hi <= |fat| && k <= FreeCount(fat, lo, hi)
    ensures Increasing(lo, hi, FreeList(fat, lo, hi, k))
    ensures AllFree(fat, FreeList(fat, lo, hi, k))
    decreases k
  {
    if k > 0 {
      NextFreeCount(fat, lo, hi);
      var f := NextFree(fat, lo, hi);
      FreeListIncreasing(fat, f + 1, hi, k - 1);
    }
  }

  /** No free cluster is passed over: those that are not taken are above all that are. */
  lemma {:induction false} FreeListLeast(fat: seq<word>, lo: nat, hi: nat, k: nat, c: nat)
    requires lo <= c < hi <= |fat| && k <= FreeCount(fat, lo, hi) && fat[c] == 0 && c !in FreeList(fat, lo, hi, k)
    ensures forall i :: 0 <= i < k ==> FreeList(fat, lo, hi, k)[i] < c
    decreases k
  {
    if k > 0 {
      NextFreeCount(fat, lo, hi);
      var f := NextFree(fat, lo, hi);
      assert f == FreeList(fat, lo, hi, k)[0];
      assert FreeList(fat, lo, hi, k)[1..] == FreeList(fat, f + 1, hi, k - 1);
      FreeListLeast(fat, f + 1, hi, k - 1, c);
    }
  }

  ghost predicate AllFree(fat: seq<word>, cs: seq<nat>)
  {
    forall i :: 0 <= i < |cs| ==> cs[i] < |fat| && fat[cs[i]] == 0
  }

  /** Free clusters belong to no chain. */
  lemma NewsOutside(fat: seq<word>, hi: nat, cs: seq<nat>, news: seq<nat>)
    requires hi <= |fat| && IsChain(fat, hi, cs) && AllFree(fat, news)
    ensures forall c :: c in cs ==> c !in news
  {
    forall c | c in cs
      ensures c !in news
    {
      ChainMember(fat, hi, cs, c);
    }
  }

  /** Linking changes the entries of tail and of the new clusters only. */
  lemma {:induction false} LinkedElsewhere(fat: seq<word>, tail: nat, news: seq<nat>, c: nat)
    requires tail < |fat| && forall i :: 0 <= i < |news| ==> news[i] < |fat| && news[i] < 0x1_0000
    requires c < |fat| && c != tail && c !in news
    ensures Linked(fat, tail, news)[c] == fat[c]
    decreases |news|
  {
    if news != [] {
      LinkedElsewhere(fat[tail := news[0]], news[0], news[1..], c);
    }
  }

  /** The clusters from tail on form a chain that ends with END exactly. */
  lemma {:induction false} LinkedTail(fat: seq<word>, hi: nat, tail: nat, news: seq<nat>)
    requires hi <= |fat| && hi <= 0x8000 && 2 <= tail < hi && Increasing(tail + 1, hi, news)
    ensures IsChain(Linked(fat, tail, news), hi, [tail] + news)
    ensures Linked(fat, tail, news)[if news == [] then tail else news[|news| - 1]] == END
    decreases |news|
  {
    if news != [] {
      var n, rest := news[0], news[1..];
      var fat1 := fat[tail := n];
      assert tail !in rest by {
        assert forall i :: 0 <= i < |rest| ==> rest[i] == news[i + 1];
      }
      LinkedTail(fat1, hi, n, rest);
      LinkedElsewhere(fat1, n, rest, tail);
      assert news == [n] + rest;
      assert ([tail] + news)[1..] == news;
    }
  }

  /** Replacing the tail of a chain by a longer one lengthens the chain. */
  lemma {:induction false} ChainJoin(fat: seq<word>, fat': seq<word>, hi: nat, cs: seq<nat>, news: seq<nat>)
    requires hi <= |fat| == |fat'| && hi <= 0xfff8 && IsChain(fat, hi, cs)
    requires forall c :: 2 <= c < hi && c in cs && c != cs[|cs| - 1] ==> fat'[c] == fat[c]
    requires IsChain(fat', hi, [cs[|cs| - 1]] + news)
    ensures IsChain(fat', hi, cs + news)
  {
    if |cs| == 1 {
      assert cs == [cs[0]];
    } else {
      assert cs[0] != cs[|cs| - 1] by { ChainAcyclic(fat, hi, cs, 0, |cs| - 1); }
      ChainJoin(fat, fat', hi, cs[1..], news);
      assert (cs + news)[1..] == cs[1..] + news;
    }
  }

  /**
    Chain extension is exact: linking free clusters above the tail gives the old chain
    followed by them, ended by END, and leaves every other entry as it was.
   */
  lemma Extension(fat: seq<word>, hi: nat, cs: seq<nat>, news: seq<nat>)
    requires hi <= |fat| && hi <= 0x8000 && IsChain(fat, hi, cs)
    requires Increasing(cs[|cs| - 1] + 1, hi, news) && AllFree(fat, news)
    ensures 2 <= cs[|cs| - 1] < hi
    ensures IsChain(Linked(fat, cs[|cs| - 1], news), hi, cs + news)
    ensures Linked(fat, cs[|cs| - 1], news)[(cs + news)[|cs + news| - 1]] == END
    ensures forall c :: 0 <= c < |fat| && c != cs[|cs| - 1] && c !in news ==>
              Linked(fat, cs[|cs| - 1], news)[c] == fat[c]
  {
    var tail := cs[|cs| - 1];
    ChainAt(fat, hi, cs, |cs| - 1);
    LinkedTail(fat, hi, tail, news);
    var fat' := Linked(fat, tail, news);
    forall c | 0 <= c < |fat| && c != tail && c !in news
      ensures fat'[c] == fat[c]
    {
      LinkedElsewhere(fat, tail, news, c);
    }
    NewsOutside(fat, hi, cs, news);
    ChainJoin(fat, fat', hi, cs, news);
  }

  /** Linking the next free cluster leaves the rest of the extension to be done. */
  lemma LinkStep(fat: seq<word>, cur: nat, hi: nat, k: nat)
    requires cur < hi <= |fat| && hi <= 0x8000 && 0 < k <= FreeCount(fat, cur + 1, hi)
    ensures var f := NextFree(fat, cur + 1, hi);
            && cur < f < hi
            && k - 1 <= FreeCount(fat[cur := f], f + 1, hi)
            && Within(FreeList(fat, cur + 1, hi, k), hi)
            && Within(FreeList(fat[cur := f], f + 1, hi, k - 1), hi)
            && Linked(fat, cur, FreeList(fat, cur + 1, hi, k))
               == Linked(fat[cur := f], f, FreeList(fat[cur := f], f + 1, hi, k - 1))
  {
    var f := NextFree(fat, cur + 1, hi);
    assert f < hi ==> fat[cur := f][f + 1..] == fat[f + 1..];
    NextList(fat, cur + 1, hi, k, f, fat[cur := f]);
    LinkedFirst(fat, cur, hi, f, FreeList(fat[cur := f], f + 1, hi, k - 1));
  }

  /** What the next entry is linked to does not matter for the ones after it. */
  lemma NextList(fat: seq<word>, lo: nat, hi: nat, k: nat, f: nat, fat1: seq<word>)
    requires lo <= hi <= |fat| && 0 < k <= FreeCount(fat, lo, hi) && f == NextFree(fat, lo, hi)
    requires |fat1| == |fat| && (f < hi ==> fat1[f + 1..] == fat[f + 1..])
    ensures lo <= f < hi && k - 1 <= FreeCount(fat1, f + 1, hi)
    ensures FreeList(fat, lo, hi, k) == [f] + FreeList(fat1, f + 1, hi, k - 1)
    ensures Within(FreeList(fat, lo, hi, k), hi) && Within(FreeList(fat1, f + 1, hi, k - 1), hi)
  {
    ListUnfold(fat, lo, hi, k, f);
    FreeListFrame(fat, fat1, f + 1, hi, k - 1);
    FreeListWithin(fat, lo, hi, k);
    FreeListWithin(fat1, f + 1, hi, k - 1);
  }

  lemma ListUnfold(fat: seq<word>, lo: nat, hi: nat, k: nat, f: nat)
    requires lo <= hi <= |fat| && 0 < k <= FreeCount(fat, lo, hi) && f == NextFree(fat, lo, hi)
    ensures lo <= f < hi && k - 1 <= FreeCount(fat, f + 1, hi)
    ensures FreeList(fat, lo, hi, k) == [f] + FreeList(fat, f + 1, hi, k - 1)
  {
    NextFreeCount(fat, lo, hi);
  }

  lemma FreeListWithin(fat: seq<word>, lo: nat, hi: nat, k: nat)
    requires lo <= hi <= |fat| && k <= FreeCount(fat, lo, hi)
    ensures Within(FreeList(fat, lo, hi, k), hi)
  {
    FreeListIncreasing(fat, lo, hi, k);
  }

  lemma LinkedFirst(fat: seq<word>, tail: nat, hi: nat, f: nat, rest: seq<nat>)
    requires tail < hi <= |fat| && hi <= 0x8000 && f < hi && Within(rest, hi) && Within([f] + rest, hi)
    ensures Linked(fat, tail, [f] + rest) == Linked(fat[tail := f], f, rest)
  {
    assert ([f] + rest)[1..] == rest;
  }

  // ----- freeing a chain

  ghost predicate Within(cs: seq<nat>, n: nat) { forall i :: 0 <= i < |cs| ==> cs[i] < n }

  lemma ChainWithin(fat: seq<word>, hi: nat, cs: seq<nat>)
    requires hi <= |fat| && IsChain(fat, hi, cs)
    ensures Within(cs, |fat|)
  {
    forall i | 0 <= i < |cs|
      ensures cs[i] < |fat|
    {
      ChainAt(fat, hi, cs, i);
    }
  }

  /** The table with the entries of cs set to zero. */
  ghost function Freed(fat: seq<word>, cs: seq<nat>): (r: seq<word>)
    requires Within(cs, |fat|)
    ensures |r| == |fat|
  {
    seq(|fat|, c requires 0 <= c < |fat| => if c in cs then 0 else fat[c])
  }

  /** Freeing the i-th cluster after the ones before it. */
  lemma FreeNext(fat: seq<word>, fat2: seq<word>, hi: nat, cs: seq<nat>, i: nat)
    requires hi <= |fat| == |fat2| && hi <= 0xfff8 && IsChain(fat, hi, cs) && i < |cs|
    requires Within(cs, |fat|)
    ensures 2 <= cs[i] < hi && Freed(fat, cs[..i])[cs[i]] == fat[cs[i]]
    ensures Freed(fat, cs[..i + 1]) == Freed(fat, cs[..i])[cs[i] := 0]
    ensures Freed(fat2, cs[..i + 1]) == Freed(fat2, cs[..i])[cs[i] := 0]
    ensures Freed(fat, []) == fat && Freed(fat2, []) == fat2
  {
    ChainAt(fat, hi, cs, i);
    ChainDistinct(fat, hi, cs);
    assert cs[i] !in cs[..i];
    assert cs[..i + 1] == cs[..i] + [cs[i]];
    assert forall c :: c in cs[..i + 1] <==> c in cs[..i] || c == cs[i];
  }

  // ----- the bytes of a chain

  ghost predicate Readable(data: seq<seq<byte>>, cs: seq<nat>)
  {
    forall i :: 0 <= i < |cs| ==> 2 <= cs[i] < |data| + 2
  }

  ghost predicate Uniform(data: seq<seq<byte>>, size: nat)
  {
    forall k :: 0 <= k < |data| ==> |data[k]| == size
  }

  /** The contents of the clusters cs, one after the other. */
  ghost function Gather(data: seq<seq<byte>>, cs: seq<nat>): seq<byte>
    requires Readable(data, cs)
  {
    if cs == [] then [] else data[cs[0] - 2] + Gather(data, cs[1..])
  }

  lemma {:induction false} GatherLength(data: seq<seq<byte>>, size: nat, cs: seq<nat>)
    requires Readable(data, cs) && Uniform(data, size)
    ensures |Gather(data, cs)| == Span(|cs|, size)
  {
    if cs != [] {
      GatherLength(data, size, cs[1..]);
    }
  }

  lemma ChainReadable(fat: seq<word>, hi: nat, cs: seq<nat>, data: seq<seq<byte>>)
    requires hi <= |fat| && IsChain(fat, hi, cs) && hi == |data| + 2
    ensures Readable(data, cs)
  {
    forall i | 0 <= i < |cs|
      ensures 2 <= cs[i] < |data| + 2
    {
      ChainAt(fat, hi, cs, i);
    }
  }

  lemma {:induction false} GatherConcat(data: seq<seq<byte>>, a: seq<nat>, b: seq<nat>)
    requires Readable(data, a) && Readable(data, b)
    ensures Readable(data, a + b)
    ensures Gather(data, a + b) == Gather(data, a) + Gather(data, b)
  {
    if a == [] {
      assert a + b == b;
    } else {
      GatherConcat(data, a[1..], b);
      assert (a + b)[1..] == a[1..] + b;
      Associative(data[a[0] - 2], Gather(data, a[1..]), Gather(data, b));
    }
  }

  lemma Associative(x: seq<byte>, y: seq<byte>, z: seq<byte>)
    ensures x + (y + z) == (x + y) + z
  {
  }

  lemma {:induction false} GatherFrame(data: seq<seq<byte>>, data': seq<seq<byte>>, cs: seq<nat>)
    requires Readable(data, cs) && |data| == |data'|
    requires forall i :: 0 <= i < |cs| ==> data'[cs[i] - 2] == data[cs[i] - 2]
    ensures Readable(data', cs) && Gather(data', cs) == Gather(data, cs)
  {
    if cs != [] {
      forall i | 0 <= i < |cs[1..]|
        ensures data'[cs[1..][i] - 2] == data[cs[1..][i] - 2]
      {
        assert cs[1..][i] == cs[i + 1];
      }
      GatherFrame(data, data', cs[1..]);
      assert data'[cs[0] - 2] == data[cs[0] - 2];
    }
  }

  /** A chain's bytes split around its i-th cluster. */
  lemma GatherSplit(data: seq<seq<byte>>, cs: seq<nat>, i: nat)
    requires Readable(data, cs) && i < |cs|
    ensures Gather(data, cs) == Gather(data, cs[..i]) + data[cs[i] - 2] + Gather(data, cs[i + 1..])
  {
    var x, y, z := cs[..i], [cs[i]], cs[i + 1..];
    assert cs == x + (y + z);
    assert (y + z)[1..] == z;
    GatherConcat(data, x, y + z);
  }

  /** The i-th block of a chain's bytes is the i-th cluster. */
  lemma GatherAt(data: seq<seq<byte>>, size: nat, cs: seq<nat>, i: nat)
    requires Readable(data, cs) && Uniform(data, size) && i < |cs|
    ensures Span(i, size) + size <= |Gather(data, cs)| == Span(|cs|, size)
    ensures Gather(data, cs)[Span(i, size)..Span(i, size) + size] == data[cs[i] - 2]
  {
    SpanMono(i, |cs|, size);
    GatherLength(data, size, cs);
    GatherLength(data, size, cs[..i]);
    GatherSplit(data, cs, i);
  }

  /** Writing inside the i-th cluster of a chain is writing at that place of the chain's bytes. */
  lemma GatherWrite(data: seq<seq<byte>>, size: nat, cs: seq<nat>, i: nat, o: nat, b: seq<byte>)
    requires Readable(data, cs) && Uniform(data, size) && Distinct(cs) && i < |cs| && o + |b| <= size
    ensures Span(i, size) + o + |b| <= |Gather(data, cs)|
    ensures var data' := data[cs[i] - 2 := Splice(data[cs[i] - 2], o, b)];
            && Uniform(data', size)
            && Gather(data', cs) == Splice(Gather(data, cs), Span(i, size) + o, b)
  {
    SpanMono(i, |cs|, size);
    GatherLength(data, size, cs);
    GatherLength(data, size, cs[..i]);
    var data' := data[cs[i] - 2 := Splice(data[cs[i] - 2], o, b)];
    GatherSplit(data, cs, i);
    GatherSplit(data', cs, i);
    GatherFrame(data, data', cs[..i]);
    GatherFrame(data, data', cs[i + 1..]);
    SpliceMiddle(Gather(data, cs[..i]), data[cs[i] - 2], Gather(data, cs[i + 1..]), o, b);
  }

  lemma SpliceMiddle(x: seq<byte>, y: seq<byte>, z: seq<byte>, o: nat, b: seq<byte>)
    requires o + |b| <= |y|
    ensures Splice(x + y + z, |x| + o, b) == x + Splice(y, o, b) + z
  {
  }

  /** A piece of the i-th cluster, as a piece of the chain's bytes. */
  lemma GatherPiece(data: seq<seq<byte>>, size: nat, cs: seq<nat>, i: nat, o: nat, n: nat)
    requires Readable(data, cs) && Uniform(data, size) && i < |cs| && o + n <= size
    ensures Span(i, size) + size <= |Gather(data, cs)| == Span(|cs|, size)
    ensures Gather(data, cs)[Span(i, size) + o..Span(i, size) + o + n] == data[cs[i] - 2][o..o + n]
  {
    GatherAt(data, size, cs, i);
    PieceOf(Gather(data, cs), Span(i, size), data[cs[i] - 2], o, n);
  }

  // ----- how long a chain can be

  lemma {:induction false} DistinctBound(cs: seq<nat>, hi: nat)
    requires Distinct(cs) && hi >= 2 && forall i :: 0 <= i < |cs| ==> 2 <= cs[i] < hi
    ensures |cs| <= hi - 2
    decreases hi
  {
    if cs == [] {
      return;
    }
    assert 2 <= cs[0] < hi;
    if k :| 0 <= k < |cs| && cs[k] == hi - 1 {
      var rest := cs[..k] + cs[k + 1..];
      assert forall i :: 0 <= i < |rest| ==> rest[i] == if i < k then cs[i] else cs[i + 1];
      DistinctBound(rest, hi - 1);
    } else {
      DistinctBound(cs, hi - 1);
    }
  }

  lemma ChainLength(fat: seq<word>, hi: nat, cs: seq<nat>)
    requires hi <= |fat| && hi <= 0xfff8 && IsChain(fat, hi, cs)
    ensures |cs| <= hi - 2
  {
    ChainDistinct(fat, hi, cs);
    forall i | 0 <= i < |cs|
      ensures 2 <= cs[i] < hi
    {
      ChainAt(fat, hi, cs, i);
    }
    DistinctBound(cs, hi);
  }

  /** n clusters of at most 255 sectors. */
  lemma {:induction false} SpanBound(n: nat, size: nat)
    requires size <= 255 * 512
    ensures Span(n, size) <= n * 130560
  {
    if n > 0 {
      SpanBound(n - 1, size);
    }
  }
}
