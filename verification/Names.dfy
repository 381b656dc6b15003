/**
  The 8.3 name codec: the loop that turns a path component into an 11-byte
  directory name, the loop that turns such a name back, what each computes, and
  on which names they are inverse to each other.
 */
module Names {
  import opened Bytes

  const DOT: byte := 46
  const SPACE: byte := 32
  const SLASH: byte := 47
  const DELETED: byte := 0xe5

  function Up(b: byte): byte { if 97 <= b <= 122 then b - 32 else b }

  function Low(b: byte): byte { if 65 <= b <= 90 then b + 32 else b }

  function UpAll(s: seq<byte>): (r: seq<byte>)
    ensures |r| == |s| && forall i :: 0 <= i < |s| ==> r[i] == Up(s[i])
  {
    seq(|s|, i requires 0 <= i < |s| => Up(s[i]))
  }

  function Blanks(n: nat): (r: seq<byte>)
    ensures |r| == n && forall i :: 0 <= i < n ==> r[i] == SPACE
  {
    seq(n, _ => SPACE)
  }

  function Take(s: seq<byte>, n: nat): (r: seq<byte>)
    ensures |r| <= n && r <= s
  {
    if |s| <= n then s else s[..n]
  }

  /** The first n characters in upper case, padded with blanks to n. */
  function Field(s: seq<byte>, n: nat): (r: seq<byte>)
    ensures |r| == n
  {
    UpAll(Take(s, n)) + Blanks(n - |Take(s, n)|)
  }

  function FirstDot(s: seq<byte>): (q: nat)
    ensures q <= |s| && DOT !in s[..q] && (q < |s| ==> s[q] == DOT)
  {
    if s == [] || s[0] == DOT then 0
    else
      var q := 1 + FirstDot(s[1..]);
      assert s[..q] == [s[0]] + s[1..][..q - 1];
      q
  }

  predicate IsDots(p: seq<byte>) { p == [DOT] || p == [DOT, DOT] }

  /** Does encoding p leave the "dot seen" flag set for the components after it? */
  predicate SetsFlag(p: seq<byte>) { !IsDots(p) && DOT in p }

  /**
    What encoding the component p writes into an 11-byte slot holding junk, or None
    where the program gives up.  flag tells that an earlier component had a dot.
   */
  function Encoded(flag: bool, p: seq<byte>, junk: seq<byte>): (r: Option<seq<byte>>)
    requires |junk| == 11
    ensures r.Some? ==> |r.value| == 11
  {
    if IsDots(p) then Some(p + Blanks(11 - |p|))
    else if flag then
      if DOT in Take(p, 4) then None
      else if |p| <= 3 then Some(UpAll(p) + Blanks(11 - |p|))
      else Some(UpAll(p[..3]) + junk[3..])
    else
      var q := FirstDot(p);
      if q == |p| then Some(Field(p, 8) + Blanks(3))
      else if q + 1 == |p| || DOT in Take(p[q + 1..], 4) then None
      else Some(Field(p[..q], 8) + Field(p[q + 1..], 3))
  }

  /** The encoding of a component on its own. */
  function Encode(p: seq<byte>): (r: Option<seq<byte>>)
    ensures r.Some? ==> |r.value| == 11
  {
    Encoded(false, p, Blanks(11))
  }

  lemma EncodeIgnoresJunk(p: seq<byte>, junk: seq<byte>)
    requires |junk| == 11
    ensures Encoded(false, p, junk) == Encode(p)
  {
  }

  predicate LowerCase(b: byte) { 97 <= b <= 122 }

  predicate UpperCase(b: byte) { 65 <= b <= 90 }

  lemma FieldAt(s: seq<byte>, n: nat, i: nat)
    requires i < n
    ensures Field(s, n)[i] == if i >= |s| then 32 else if LowerCase(s[i]) then s[i] - 32 else s[i]
  {
    assert i < |s| ==> Take(s, n)[i] == s[i];
  }

  /**
    Byte i of an encoded component: up to eight characters before the first dot, up to three after it, lower-case
    letters turned into upper-case ones, blanks in the other places.
   */
  lemma EncodeBytes(p: seq<byte>, i: nat)
    requires !IsDots(p) && Encode(p).Some? && i < 11
    ensures var q := FirstDot(p);
            var part := if i < 8 then p[..q] else if q < |p| then p[q + 1..] else [];
            var j := if i < 8 then i else i - 8;
            Encode(p).value[i]
            == if j >= |part| then 32 else if LowerCase(part[j]) then part[j] - 32 else part[j]
  {
    var q := FirstDot(p);
    var base, ext := Field(p[..q], 8), if q < |p| then Field(p[q + 1..], 3) else Blanks(3);
    assert q == |p| ==> p[..q] == p;
    assert Encode(p).value == base + ext;
    if i < 8 {
      FieldAt(p[..q], 8, i);
    } else if q < |p| {
      FieldAt(p[q + 1..], 3, i - 8);
    }
  }

  /** A component is refused exactly if its first dot is its last character or has another one within the next four. */
  lemma RefusedIff(p: seq<byte>)
    ensures Encode(p).None? <==>
              var q := FirstDot(p);
              && p != [46] && p != [46, 46] && q < |p|
              && (q + 1 == |p| || exists j :: q < j < |p| && j <= q + 4 && p[j] == 46)
  {
    var q := FirstDot(p);
    if q < |p| {
      var ext := Take(p[q + 1..], 4);
      assert forall k :: 0 <= k < |ext| ==> ext[k] == p[q + 1 + k];
      forall j | q < j < |p| && j <= q + 4 && p[j] == 46
        ensures DOT in ext
      {
        assert ext[j - q - 1] == DOT;
      }
    }
  }

  /**
    With the flag left set: up to three characters go to the first places; a longer component leaves the places after
    them as they were, a shorter one blanks; a dot among the first four characters is refused.
   */
  lemma StaleBytes(p: seq<byte>, junk: seq<byte>, i: nat)
    requires !IsDots(p) && |junk| == 11 && i < 11
    ensures Encoded(true, p, junk).None? <==> exists j :: 0 <= j < |p| && j < 4 && p[j] == 46
    ensures Encoded(true, p, junk).Some? ==>
              Encoded(true, p, junk).value[i]
              == if i < |p| && i < 3 then (if LowerCase(p[i]) then p[i] - 32 else p[i])
                 else if |p| <= 3 then 32
                 else junk[i]
  {
    var head := Take(p, 4);
    assert |head| == if |p| <= 4 then |p| else 4;
    assert forall j :: 0 <= j < |head| ==> head[j] == p[j];
    if j :| 0 <= j < |p| && j < 4 && p[j] == 46 {
      assert head[j] == DOT;
    }
  }

  /** Can the component be encoded the same way whether or not an earlier one had a dot? */
  predicate Immune(p: seq<byte>)
  {
    IsDots(p) || (DOT !in p && |p| <= 3) || (DOT in Take(p, 4) && Encode(p).None?)
  }

  /**
    The flag is never reset between components.  It does no harm, whatever the slot
    held before, exactly for the components that are immune to it.
   */
  lemma StaleFlagHarmlessIff(p: seq<byte>)
    ensures (forall junk: seq<byte> :: |junk| == 11 ==> Encoded(true, p, junk) == Encode(p)) <==> Immune(p)
  {
    var q := FirstDot(p);
    assert |p| <= 4 ==> Take(p, 4) == p;
    if Immune(p) {
      forall junk: seq<byte> | |junk| == 11
        ensures Encoded(true, p, junk) == Encode(p)
      {
        if !IsDots(p) && DOT !in p && |p| <= 3 {
          assert q == |p| && Take(p, 8) == p;
          assert Field(p, 8) + Blanks(3) == UpAll(p) + Blanks(11 - |p|);
        }
      }
    } else if DOT in Take(p, 4) {
      assert Encoded(true, p, Blanks(11)) != Encode(p);
    } else if |p| > 3 {
      var zeros, ones := seq(11, _ => 0 as byte), seq(11, _ => 1 as byte);
      var a, b := Encoded(true, p, zeros), Encoded(true, p, ones);
      assert a.value[3] == 0 && b.value[3] == 1;
      assert a != Encode(p) || b != Encode(p);
    }
  }

  /** For instance "cdef" after "a.b": the fourth and later positions keep what the slot held. */
  lemma StaleFlagHarms()
    ensures SetsFlag([97, DOT, 98]) && !Immune([99, 100, 101, 102])
    ensures Encoded(true, [99, 100, 101, 102], Blanks(11)) != Encode([99, 100, 101, 102])
  {
    var p: seq<byte> := [99, 100, 101, 102];
    assert Take(p, 4) == p && FirstDot(p) == |p|;
    assert Encoded(true, p, Blanks(11)).value[3] == SPACE && Encode(p).value[3] == 70;
    assert DOT in [97, DOT, 98];
  }

  // ----- the encoding loop

  method FillBlanks(slot: array<byte>, from: nat, to: nat)
    requires from <= to <= slot.Length
    modifies slot
    ensures slot[..] == old(slot[..from]) + Blanks(to - from) + old(slot[to..])
  {
    var k := from;
    while k < to
      invariant from <= k <= to
      invariant slot[..from] == old(slot[..from]) && slot[to..] == old(slot[to..])
      invariant forall i :: from <= i < k ==> slot[i] == SPACE
    {
      slot[k] := SPACE;
      k := k + 1;
    }
    assert slot[..] == slot[..from] + slot[from..to] + slot[to..];
  }

  /** Progress of the loop after j characters, when an earlier component had a dot. */
  ghost predicate Stale(p: seq<byte>, junk: seq<byte>, slot: seq<byte>, j: nat)
    requires j <= |p|
  {
    j <= 3 && |junk| == 11 && DOT !in p[..j] && slot == UpAll(p[..j]) + junk[j..]
  }

  /** Progress before the dot: the first k positions of the base name are filled. */
  ghost predicate InBase(p: seq<byte>, slot: seq<byte>, j: nat, k: nat)
    requires j <= |p|
  {
    && |slot| == 11 && DOT !in p[..j] && k == |Take(p[..j], 8)|
    && slot[..k] == UpAll(Take(p[..j], 8))
  }

  /** Progress after the dot: the base name is complete, extLen extension characters are stored. */
  ghost predicate InExt(p: seq<byte>, slot: seq<byte>, j: nat, extLen: nat)
    requires j <= |p|
  {
    var q := FirstDot(p);
    && |slot| == 11 && q < j && q + 1 < |p| && extLen == j - q - 1 <= 3 && DOT !in p[q + 1..j]
    && slot[..8 + extLen] == Field(p[..q], 8) + UpAll(p[q + 1..j])
  }

  /** The progress of the encoding loop after j characters, k being the next position to fill. */
  ghost predicate Progress(flag: bool, f: bool, p: seq<byte>, junk: seq<byte>, slot: seq<byte>,
                           j: nat, k: nat, nameLen: nat, extLen: nat)
  {
    && |slot| == |junk| == 11 && j <= |p|
    && if flag then f && k == j == extLen && Stale(p, junk, slot, j)
       else if !f then k == nameLen && extLen == 0 && InBase(p, slot, j, k)
       else k == 8 + extLen && InExt(p, slot, j, extLen)
  }

  datatype Turn = Go | Done | Exit

  /** One pass of the loop, at a character that is not the terminator. */
  method EncodeChar(p: seq<byte>, ghost flag: bool, ghost junk: seq<byte>, slot: array<byte>, f: bool,
                    j: nat, k: nat, nameLen: nat, extLen: nat)
    returns (turn: Turn, f': bool, k': nat, nameLen': nat, extLen': nat)
    requires slot.Length == 11 && !IsDots(p) && j < |p|
    requires Progress(flag, f, p, junk, slot[..], j, k, nameLen, extLen)
    modifies slot
    ensures turn.Go? ==> Progress(flag, f', p, junk, slot[..], j + 1, k', nameLen', extLen')
    ensures turn.Done? ==> Encoded(flag, p, junk) == Some(slot[..]) && f' == (flag || SetsFlag(p))
    ensures turn.Exit? ==> Encoded(flag, p, junk) == None
  {
    ghost var before := slot[..];
    turn, f', k', nameLen', extLen' := Go, f, k, nameLen, extLen;
    if p[j] == DOT {
      if f {
        SecondDot(flag, p, junk, before, j, k, nameLen, extLen);
        turn := Exit;
      } else if j + 1 == |p| {
        DotAt(p, j);
        turn := Exit;
      } else {
        FillBlanks(slot, k, 8);
        assert slot[..8] == before[..k] + Blanks(8 - k);
        FirstDotStep(flag, p, junk, before, slot[..], j, k, nameLen, extLen);
        f', k' := true, 7 + 1;
      }
    } else if nameLen == 8 && !f {
      SkipChar(p, before, j);
      k' := 7 + 1;
    } else if extLen == 3 {
      Overlong(flag, p, junk, before, j, k, nameLen);
      turn := Done;
    } else {
      StoreChar(flag, f, p, junk, before, j, k, nameLen, extLen);
      slot[k] := Up(p[j]);
      assert slot[..] == before[k := Up(p[j])];
      k' := k + 1;
      if f {
        extLen' := extLen + 1;
      } else {
        nameLen' := nameLen + 1;
      }
    }
  }

  method EncodeDots(p: seq<byte>, slot: array<byte>)
    requires slot.Length == 11 && IsDots(p)
    modifies slot
    ensures forall flag, junk: seq<byte> :: |junk| == 11 ==> Encoded(flag, p, junk) == Some(slot[..])
  {
    slot[0] := DOT;
    if |p| == 2 {
      slot[1] := DOT;
    }
    assert slot[..|p|] == p;
    FillBlanks(slot, |p|, 11);
    assert slot[..] == p + Blanks(11 - |p|);
  }

  /** One component; slot holds whatever the allocation left in it.  ok is false where the program exits. */
  method EncodeComponent(p: seq<byte>, flag: bool, slot: array<byte>) returns (ok: bool, flag': bool)
    requires slot.Length == 11
    modifies slot
    ensures Encoded(flag, p, old(slot[..])) == if ok then Some(slot[..]) else None
    ensures ok ==> flag' == (flag || SetsFlag(p))
  {
    if IsDots(p) {
      EncodeDots(p, slot);
      return true, flag;
    }
    ok, flag' := EncodeName(p, flag, slot);
  }

  /** A component that is not a dot entry. */
  method EncodeName(p: seq<byte>, flag: bool, slot: array<byte>) returns (ok: bool, flag': bool)
    requires slot.Length == 11 && !IsDots(p)
    modifies slot
    ensures Encoded(flag, p, old(slot[..])) == if ok then Some(slot[..]) else None
    ensures ok ==> flag' == (flag || SetsFlag(p))
  {
    ghost var junk := slot[..];
    var turn, k, nameLen, extLen;
    turn, flag', k, nameLen, extLen := EncodeChars(p, flag, slot);
    if turn.Go? {
      FinishComponent(p, flag, flag', junk, slot, k, nameLen, extLen);
    }
    ok := !turn.Exit?;
  }

  /** The loop over its characters. */
  method EncodeChars(p: seq<byte>, flag: bool, slot: array<byte>) returns (turn: Turn, f: bool, k: nat, nameLen: nat,
                     extLen: nat)
    requires slot.Length == 11 && !IsDots(p)
    modifies slot
    ensures turn.Go? ==> Progress(flag, f, p, old(slot[..]), slot[..], |p|, k, nameLen, extLen)
    ensures turn.Done? ==> Encoded(flag, p, old(slot[..])) == Some(slot[..]) && f == (flag || SetsFlag(p))
    ensures turn.Exit? ==> Encoded(flag, p, old(slot[..])) == None
  {
    ghost var junk := slot[..];
    turn, f, k, nameLen, extLen := Go, flag, 0, 0, 0;
    var j := 0;
    StartProgress(flag, p, junk);
    while j < |p|
      invariant turn.Go? && Progress(flag, f, p, junk, slot[..], j, k, nameLen, extLen)
    {
      turn, f, k, nameLen, extLen := EncodeChar(p, flag, junk, slot, f, j, k, nameLen, extLen);
      if !turn.Go? {
        return;
      }
      j := j + 1;
    }
  }

  /** The terminator: blanks up to the end of the slot. */
  method FinishComponent(p: seq<byte>, ghost flag: bool, ghost f: bool, ghost junk: seq<byte>, slot: array<byte>,
                         k: nat, ghost nameLen: nat, ghost extLen: nat)
    requires slot.Length == 11 && !IsDots(p)
    requires Progress(flag, f, p, junk, slot[..], |p|, k, nameLen, extLen)
    modifies slot
    ensures Encoded(flag, p, junk) == Some(slot[..]) && f == (flag || SetsFlag(p))
  {
    FinishBlank(flag, f, p, junk, slot[..], k, nameLen, extLen);
    ghost var filled := slot[..k];
    FillBlanks(slot, k, 11);
    assert slot[..] == filled + Blanks(11 - k);
  }

  lemma StartProgress(flag: bool, p: seq<byte>, junk: seq<byte>)
    requires |junk| == 11
    ensures Progress(flag, flag, p, junk, junk, 0, 0, 0, 0)
  {
    assert junk == UpAll(p[..0]) + junk[0..];
  }

  lemma SkipChar(p: seq<byte>, slot: seq<byte>, j: nat)
    requires j < |p| && p[j] != DOT && InBase(p, slot, j, 8)
    ensures InBase(p, slot, j + 1, 8)
  {
    assert p[..j + 1] == p[..j] + [p[j]];
    assert Take(p[..j + 1], 8) == Take(p[..j], 8);
  }

  lemma FirstDotStep(flag: bool, p: seq<byte>, junk: seq<byte>, before: seq<byte>, slot: seq<byte>,
                     j: nat, k: nat, nameLen: nat, extLen: nat)
    requires Progress(flag, false, p, junk, before, j, k, nameLen, extLen)
    requires j + 1 < |p| && p[j] == DOT && |slot| == 11 && slot[..8] == before[..k] + Blanks(8 - k)
    ensures Progress(flag, true, p, junk, slot, j + 1, 8, nameLen, extLen)
  {
    DotAt(p, j);
    assert p[j + 1..j + 1] == [];
  }

  lemma DotAt(p: seq<byte>, j: nat)
    requires j < |p| && p[j] == DOT && DOT !in p[..j]
    ensures FirstDot(p) == j
  {
    var q := FirstDot(p);
    assert forall i :: 0 <= i < j ==> p[i] in p[..j];
    assert forall i :: 0 <= i < q ==> p[i] in p[..q];
  }

  lemma StoreStale(p: seq<byte>, junk: seq<byte>, slot: seq<byte>, j: nat)
    requires j < |p| && p[j] != DOT && j < 3 && |slot| == 11 && Stale(p, junk, slot, j)
    ensures Stale(p, junk, slot[j := Up(p[j])], j + 1)
  {
    assert p[..j + 1] == p[..j] + [p[j]];
    assert UpAll(p[..j + 1]) == UpAll(p[..j]) + [Up(p[j])];
  }

  lemma StoreBase(p: seq<byte>, slot: seq<byte>, j: nat, k: nat)
    requires j < |p| && p[j] != DOT && k < 8 && InBase(p, slot, j, k)
    ensures InBase(p, slot[k := Up(p[j])], j + 1, k + 1)
  {
    assert p[..j + 1] == p[..j] + [p[j]];
    assert Take(p[..j], 8) == p[..j] && Take(p[..j + 1], 8) == p[..j + 1];
    assert slot[k := Up(p[j])][..k + 1] == slot[..k] + [Up(p[j])];
  }

  lemma StoreExt(p: seq<byte>, slot: seq<byte>, j: nat, extLen: nat)
    requires j < |p| && p[j] != DOT && extLen < 3 && InExt(p, slot, j, extLen)
    ensures InExt(p, slot[8 + extLen := Up(p[j])], j + 1, extLen + 1)
  {
    var q, k := FirstDot(p), 8 + extLen;
    assert p[q + 1..j + 1] == p[q + 1..j] + [p[j]];
    assert UpAll(p[q + 1..j + 1]) == UpAll(p[q + 1..j]) + [Up(p[j])];
    assert slot[k := Up(p[j])][..k + 1] == slot[..k] + [Up(p[j])];
  }

  lemma StoreChar(flag: bool, f: bool, p: seq<byte>, junk: seq<byte>, slot: seq<byte>,
                  j: nat, k: nat, nameLen: nat, extLen: nat)
    requires Progress(flag, f, p, junk, slot, j, k, nameLen, extLen)
    requires j < |p| && p[j] != DOT && (f || nameLen < 8) && extLen < 3
    ensures k < 11
    ensures Progress(flag, f, p, junk, slot[k := Up(p[j])], j + 1, k + 1,
                     if f then nameLen else nameLen + 1, if f then extLen + 1 else extLen)
  {
    if flag {
      StoreStale(p, junk, slot, j);
    } else if f {
      StoreExt(p, slot, j, extLen);
    } else {
      StoreBase(p, slot, j, k);
    }
  }

  lemma FinishBlank(flag: bool, f: bool, p: seq<byte>, junk: seq<byte>, slot: seq<byte>,
                    k: nat, nameLen: nat, extLen: nat)
    requires Progress(flag, f, p, junk, slot, |p|, k, nameLen, extLen) && !IsDots(p)
    ensures k <= 11 && Encoded(flag, p, junk) == Some(slot[..k] + Blanks(11 - k))
    ensures f == (flag || SetsFlag(p))
  {
    if flag {
      assert p[..|p|] == p;
      assert slot[..k] == UpAll(p);
      assert Take(p, 4) == p;
    } else if !f {
      FinishBase(p, slot, k);
    } else {
      FinishExt(p, slot, extLen);
    }
  }

  lemma FinishBase(p: seq<byte>, slot: seq<byte>, k: nat)
    requires !IsDots(p) && InBase(p, slot, |p|, k)
    ensures k <= 11 && Encode(p) == Some(slot[..k] + Blanks(11 - k)) && DOT !in p
  {
    assert p[..|p|] == p;
    assert forall i :: 0 <= i < |p| ==> p[i] in p;
    assert slot[..k] + Blanks(11 - k) == Field(p, 8) + Blanks(3);
  }

  lemma FinishExt(p: seq<byte>, slot: seq<byte>, extLen: nat)
    requires !IsDots(p) && InExt(p, slot, |p|, extLen)
    ensures Encode(p) == Some(slot[..8 + extLen] + Blanks(3 - extLen)) && DOT in p
  {
    var q := FirstDot(p);
    var e := p[q + 1..];
    assert p[q + 1..|p|] == e && Take(e, 4) == e && Take(e, 3) == e;
    assert slot[..8 + extLen] + Blanks(3 - extLen) == Field(p[..q], 8) + Field(e, 3);
    assert p[q] in p;
  }

  lemma SecondDot(flag: bool, p: seq<byte>, junk: seq<byte>, slot: seq<byte>,
                  j: nat, k: nat, nameLen: nat, extLen: nat)
    requires Progress(flag, true, p, junk, slot, j, k, nameLen, extLen) && !IsDots(p)
    requires j < |p| && p[j] == DOT
    ensures Encoded(flag, p, junk) == None
  {
    if flag {
      assert Take(p, 4)[j] == DOT;
    } else {
      var q := FirstDot(p);
      assert Take(p[q + 1..], 4)[j - q - 1] == DOT;
    }
  }

  lemma Overlong(flag: bool, p: seq<byte>, junk: seq<byte>, slot: seq<byte>, j: nat, k: nat, nameLen: nat)
    requires Progress(flag, true, p, junk, slot, j, k, nameLen, 3) && !IsDots(p)
    requires j < |p| && p[j] != DOT
    ensures Encoded(flag, p, junk) == Some(slot) && (flag || SetsFlag(p))
  {
    if flag {
      assert Take(p, 4) == p[..3] + [p[3]];
    } else {
      var q := FirstDot(p);
      var e := p[q + 1..];
      assert Take(e, 4) == p[q + 1..j] + [p[j]] && Take(e, 3) == p[q + 1..j];
      assert Field(e, 3) == UpAll(p[q + 1..j]);
      assert slot == slot[..k];
      assert p[q] in p;
    }
  }

  // ----- whole paths

  /** Each component encoded on its own. */
  function EncodePath(comps: seq<seq<byte>>): (r: Option<seq<seq<byte>>>)
    ensures r.Some? ==> |r.value| == |comps| && forall i :: 0 <= i < |comps| ==> Encode(comps[i]) == Some(r.value[i])
  {
    if comps == [] then Some([])
    else
      var n := |comps| - 1;
      var (init, last) := (EncodePath(comps[..n]), Encode(comps[n]));
      if init.None? || last.None? then None else Some(init.value + [last.value])
  }

  lemma EncodePathNone(comps: seq<seq<byte>>, i: nat)
    requires i < |comps| && Encode(comps[i]).None?
    ensures EncodePath(comps).None?
  {
  }

  /** No component that the stale flag would spoil comes after a component with a dot. */
  ghost predicate Separable(comps: seq<seq<byte>>)
  {
    forall i, j :: 0 <= i < j < |comps| && SetsFlag(comps[i]) ==> Immune(comps[j])
  }

  /** A component before the i-th has a dot that the flag remembers. */
  ghost predicate Dotted(comps: seq<seq<byte>>, i: nat)
    requires i <= |comps|
  {
    exists k :: 0 <= k < i && SetsFlag(comps[k])
  }

  /** The i-th component as the program encodes it, in a slot that held junks[i]. */
  ghost function EncodedAt(comps: seq<seq<byte>>, junks: seq<seq<byte>>, i: nat): Option<seq<byte>>
    requires i < |comps| == |junks| && |junks[i]| == 11
  {
    Encoded(Dotted(comps, i), comps[i], junks[i])
  }

  /** The outcome of encoding the first n components one after the other. */
  ghost predicate SplitTo(comps: seq<seq<byte>>, junks: seq<seq<byte>>, n: nat, names: seq<seq<byte>>)
  {
    && n == |names| <= |comps| == |junks| && (forall i :: 0 <= i < |junks| ==> |junks[i]| == 11)
    && forall i :: 0 <= i < n ==> EncodedAt(comps, junks, i) == Some(names[i])
  }

  lemma SplitIsPath(comps: seq<seq<byte>>, junks: seq<seq<byte>>, n: nat, names: seq<seq<byte>>)
    requires SplitTo(comps, junks, n, names) && Separable(comps)
    ensures EncodePath(comps[..n]) == Some(names)
  {
    forall i | 0 <= i < n
      ensures Encode(comps[i]) == Some(names[i])
    {
      Harmless(comps, junks, i);
      assert EncodedAt(comps, junks, i) == Some(names[i]);
    }
    PathOf(comps[..n], names);
  }

  lemma {:induction false} PathOf(comps: seq<seq<byte>>, names: seq<seq<byte>>)
    requires |names| == |comps| && forall i :: 0 <= i < |comps| ==> Encode(comps[i]) == Some(names[i])
    ensures EncodePath(comps) == Some(names)
  {
    if comps != [] {
      var n := |comps| - 1;
      PathOf(comps[..n], names[..n]);
      assert names == names[..n] + [names[n]];
    }
  }

  /** In a separable path every component is encoded as on its own. */
  lemma Harmless(comps: seq<seq<byte>>, junks: seq<seq<byte>>, i: nat)
    requires i < |comps| == |junks| && |junks[i]| == 11 && Separable(comps)
    ensures EncodedAt(comps, junks, i) == Encode(comps[i])
  {
    EncodeIgnoresJunk(comps[i], junks[i]);
    StaleFlagHarmlessIff(comps[i]);
  }

  /**
    path_split on the components that strtok yields; junks is what the slots held.  Every component is encoded with
    the flag
    as the ones before it left it, and the program gives up at the first that it refuses.
   */
  method SplitPath(comps: seq<seq<byte>>) returns (r: Option<seq<seq<byte>>>, ghost junks: seq<seq<byte>>)
    ensures |junks| == |comps| && forall i :: 0 <= i < |junks| ==> |junks[i]| == 11
    ensures r.Some? ==> SplitTo(comps, junks, |comps|, r.value)
    ensures r.None? ==> exists i :: 0 <= i < |comps| && EncodedAt(comps, junks, i) == None
    ensures Separable(comps) ==> r == EncodePath(comps)
  {
    var names: seq<seq<byte>> := [];
    var flag := false;
    junks := seq(|comps|, _ => Blanks(11));
    for i := 0 to |comps|
      invariant SplitTo(comps, junks, i, names) && (flag <==> Dotted(comps, i))
    {
      var slot := new byte[11];
      junks := junks[i := slot[..]];
      var ok, flag' := EncodeComponent(comps[i], flag, slot);
      if !ok {
        if Separable(comps) {
          Harmless(comps, junks, i);
          EncodePathNone(comps, i);
        }
        assert EncodedAt(comps, junks, i) == None;
        return None, junks;
      }
      names, flag := names + [slot[..]], flag';
    }
    if Separable(comps) {
      SplitIsPath(comps, junks, |comps|, names);
      assert comps[..|comps|] == comps;
    }
    r := Some(names);
  }

  // ----- decoding

  /** The characters that are not blank, in lower case. */
  function Squeeze(s: seq<byte>): (r: seq<byte>)
    ensures |r| <= |s|
  {
    if s == [] then []
    else
      var n := |s| - 1;
      Squeeze(s[..n]) + if s[n] == SPACE then [] else [Low(s[n])]
  }

  /** The file name that an 11-byte directory name stands for. */
  function Decode(n: seq<byte>): (r: seq<byte>)
    requires |n| == 11
    ensures |r| <= 12
  {
    if n[0] == DOT && n[1] == DOT && n[2] == SPACE then [DOT, DOT]
    else if n[0] == DOT && n[1] == SPACE then [DOT]
    else Squeeze(n[..8]) + (if n[8] != SPACE then [DOT] else []) + Squeeze(n[8..])
  }

  /** r holds what is not blank in s, taken from the positions at, with upper-case letters turned into lower case. */
  ghost predicate NonBlanks(s: seq<byte>, at: seq<nat>, r: seq<byte>)
  {
    && Increasing(0, |s|, at) && (forall k: nat :: k in at <==> k < |s| && s[k] != 32)
    && |r| == |at|
    && forall a :: 0 <= a < |at| ==> r[a] == if UpperCase(s[at[a]]) then s[at[a]] + 32 else s[at[a]]
  }

  lemma {:induction false} SqueezeIs(s: seq<byte>) returns (at: seq<nat>)
    ensures NonBlanks(s, at, Squeeze(s))
  {
    if s == [] {
      at := [];
    } else {
      var n := |s| - 1;
      at := SqueezeIs(s[..n]);
      NonBlanksStep(s, at, Squeeze(s[..n]));
      if s[n] != SPACE {
        at := at + [n];
      } else {
        assert Squeeze(s) == Squeeze(s[..n]);
      }
    }
  }

  lemma NonBlanksStep(s: seq<byte>, at: seq<nat>, r: seq<byte>)
    requires s != [] && NonBlanks(s[..|s| - 1], at, r)
    ensures var n := |s| - 1;
            if s[n] == 32 then NonBlanks(s, at, r) else NonBlanks(s, at + [n], r + [Low(s[n])])
  {
    var n := |s| - 1;
    if s[n] != 32 {
      assert forall k: nat :: k in at + [n] <==> k in at || k == n;
    }
  }

  /**
    A decoded name: what is not blank among the first eight bytes, then, if the ninth is not blank, a dot, then what
    is not blank among the last three; but the two dot entries stand for themselves.
   */
  lemma DecodeMeans(n: seq<byte>) returns (base: seq<nat>, ext: seq<nat>, a: seq<byte>, b: seq<byte>)
    requires |n| == 11
    ensures NonBlanks(n[0..8], base, a) && NonBlanks(n[8..11], ext, b)
    ensures Decode(n) == if n[0] == 46 && n[1] == 46 && n[2] == 32 then [46, 46]
                         else if n[0] == 46 && n[1] == 32 then [46]
                         else if n[8] == 32 then a + b
                         else a + [46] + b
  {
    DecodeSqueezed(n);
    base := SqueezeIs(n[0..8]);
    ext := SqueezeIs(n[8..11]);
    a, b := Squeeze(n[0..8]), Squeeze(n[8..11]);
  }

  lemma DecodeSqueezed(n: seq<byte>)
    requires |n| == 11
    ensures Decode(n) == if n[0] == 46 && n[1] == 46 && n[2] == 32 then [46, 46]
                         else if n[0] == 46 && n[1] == 32 then [46]
                         else if n[8] == 32 then Squeeze(n[0..8]) + Squeeze(n[8..11])
                         else Squeeze(n[0..8]) + [46] + Squeeze(n[8..11])
  {
    assert n[..8] == n[0..8] && n[8..] == n[8..11];
    assert Squeeze(n[0..8]) + [] == Squeeze(n[0..8]);
  }

  method Emit(out: array<byte>, j: nat, b: byte) returns (j': nat)
    requires j < out.Length
    modifies out
    ensures j' == j + 1 && out[..j'] == old(out[..j]) + [b]
  {
    out[j] := b;
    j' := j + 1;
  }

  /** One pass of the decoding loop. */
  method DecodeChar(n: seq<byte>, i: nat, out: array<byte>, j: nat) returns (j': nat)
    requires i < |n| == 11 && out.Length == 13 && j <= i + (if i > 8 then 1 else 0) && out[..j] == DecodePrefix(n, i)
    modifies out
    ensures j' <= i + 1 + (if i + 1 > 8 then 1 else 0) && out[..j'] == DecodePrefix(n, i + 1)
  {
    PrefixStep(n, i);
    j' := j;
    if n[i] != SPACE {
      if i == 8 && n[8] != SPACE {
        j' := Emit(out, j', DOT);
      }
      j' := Emit(out, j', Low(n[i]));
    }
  }

  /** path_decode; its 13-byte buffer is never overrun. */
  method PathDecode(n: seq<byte>) returns (r: seq<byte>)
    requires |n| == 11
    ensures r == Decode(n)
  {
    if n[0] == DOT && n[1] == DOT && n[2] == SPACE {
      return [DOT, DOT];
    }
    if n[0] == DOT && n[1] == SPACE {
      return [DOT];
    }
    var out := new byte[13];
    var j := 0;
    for i := 0 to 11
      invariant 0 <= j <= i + (if i > 8 then 1 else 0) && out[..j] == DecodePrefix(n, i)
    {
      j := DecodeChar(n, i, out, j);
    }
    assert n[..11] == n;
    r := out[..j];
  }

  /** What the decoding loop has produced after i bytes. */
  function DecodePrefix(n: seq<byte>, i: nat): seq<byte>
    requires i <= |n| == 11
  {
    if i <= 8 then Squeeze(n[..i])
    else Squeeze(n[..8]) + (if n[8] != SPACE then [DOT] else []) + Squeeze(n[8..i])
  }

  lemma PrefixStep(n: seq<byte>, i: nat)
    requires i < |n| == 11
    ensures DecodePrefix(n, i + 1) == DecodePrefix(n, i) +
              (if n[i] == SPACE then [] else if i == 8 then [DOT] + [Low(n[i])] else [Low(n[i])])
  {
    if i < 8 {
      assert n[..i + 1][..i] == n[..i];
    } else {
      assert n[8..i + 1][..i - 8] == n[8..i];
    }
  }

  /** The characters before the first zero byte, which is where C string comparison stops. */
  function CString(s: seq<byte>): (r: seq<byte>)
    ensures r <= s && 0 !in r && (|r| < |s| ==> s[|r|] == 0)
  {
    if s == [] || s[0] == 0 then [] else [s[0]] + CString(s[1..])
  }

  // ----- where the two are inverse

  predicate Plain(b: byte) { b != 0 && b != DOT && b != SPACE && b != SLASH && !(65 <= b <= 90) }

  predicate AllPlain(s: seq<byte>) { forall i :: 0 <= i < |s| ==> Plain(s[i]) }

  /** Lower-case 8.3 names; a name must not begin with the deletion mark. */
  predicate ValidName(s: seq<byte>)
  {
    var q := FirstDot(s);
    && 1 <= q <= 8 && s[0] != DELETED && AllPlain(s[..q])
    && (q < |s| ==> 1 <= |s| - q - 1 <= 3 && AllPlain(s[q + 1..]))
  }

  lemma {:induction false} SqueezeField(s: seq<byte>, pad: nat)
    requires AllPlain(s)
    ensures Squeeze(UpAll(s) + Blanks(pad)) == s
    decreases |s| + pad
  {
    if pad > 0 {
      var t := UpAll(s) + Blanks(pad);
      SqueezeField(s, pad - 1);
      assert t[..|t| - 1] == UpAll(s) + Blanks(pad - 1);
    } else {
      SqueezeUp(s);
      assert UpAll(s) + Blanks(0) == UpAll(s);
    }
  }

  lemma SqueezeLast(t: seq<byte>, n: nat)
    requires n + 1 == |t| && t[n] != SPACE
    ensures Squeeze(t) == Squeeze(t[..n]) + [Low(t[n])]
  {
  }

  lemma LowUp(b: byte)
    requires Plain(b)
    ensures Low(Up(b)) == b && Up(b) != SPACE
  {
  }

  lemma {:induction false} SqueezeUp(s: seq<byte>)
    requires AllPlain(s)
    ensures Squeeze(UpAll(s)) == s
  {
    if s != [] {
      var n := |s| - 1;
      SqueezeUp(s[..n]);
      assert UpAll(s)[..n] == UpAll(s[..n]);
      LowUp(s[n]);
      SqueezeLast(UpAll(s), n);
      assert s == s[..n] + [s[n]];
    }
  }

  /** The extension of a name, empty if it has no dot. */
  function ExtensionOf(s: seq<byte>): seq<byte> { if FirstDot(s) < |s| then s[FirstDot(s) + 1..] else [] }

  lemma EncodeFields(s: seq<byte>)
    requires ValidName(s)
    ensures !IsDots(s) && Encode(s) == Some(Field(s[..FirstDot(s)], 8) + Field(ExtensionOf(s), 3))
  {
    var q, e := FirstDot(s), ExtensionOf(s);
    assert Take(e, 4) == e && Take(e, 3) == e;
    if q == |s| {
      assert s[..q] == s;
      assert Field(e, 3) == Blanks(3);
    }
  }

  lemma FieldPlain(b: seq<byte>, n: nat)
    requires AllPlain(b) && |b| <= n && n > 0
    ensures Squeeze(Field(b, n)) == b
    ensures b == [] ==> Field(b, n)[0] == SPACE
    ensures b != [] ==> Field(b, n)[0] !in {SPACE, DOT}
  {
    assert Take(b, n) == b;
    SqueezeField(b, n - |b|);
  }

  lemma DecodeParts(x: seq<byte>, y: seq<byte>)
    requires |x| == 8 && |y| == 3 && x[0] != DOT
    ensures Decode(x + y) == Squeeze(x) + (if y[0] != SPACE then [DOT] else []) + Squeeze(y)
  {
    assert (x + y)[..8] == x && (x + y)[8..] == y;
  }

  lemma DecodeFields(b: seq<byte>, e: seq<byte>)
    requires 1 <= |b| <= 8 && |e| <= 3 && AllPlain(b) && AllPlain(e)
    ensures Decode(Field(b, 8) + Field(e, 3)) == b + (if e == [] then [] else [DOT] + e)
  {
    FieldPlain(b, 8);
    FieldPlain(e, 3);
    DecodeParts(Field(b, 8), Field(e, 3));
  }

  /** Decoding undoes encoding on every lower-case 8.3 name. */
  lemma DecodeEncode(s: seq<byte>)
    requires ValidName(s)
    ensures Encode(s).Some? && Decode(Encode(s).value) == s
  {
    var q, e := FirstDot(s), ExtensionOf(s);
    EncodeFields(s);
    DecodeFields(s[..q], e);
    assert s == s[..q] + (if e == [] then [] else [DOT] + e);
  }

  /** An encoded valid name is neither a terminator, nor a deleted entry, nor a dot entry, and has no zero byte. */
  lemma EncodedBytes(s: seq<byte>)
    requires ValidName(s)
    ensures Encode(s).Some?
    ensures Encode(s).value[0] !in {0, DOT, DELETED} && 0 !in Encode(s).value
  {
    EncodeFields(s);
    assert Plain(s[..FirstDot(s)][0]);
  }

  /** So distinct valid names never share an encoding. */
  lemma EncodeInjective(s: seq<byte>, t: seq<byte>)
    requires ValidName(s) && ValidName(t) && s != t
    ensures Encode(s) != Encode(t)
  {
    DecodeEncode(s);
    DecodeEncode(t);
  }

  lemma {:induction false} CStringWhole(s: seq<byte>)
    requires 0 !in s
    ensures CString(s) == s
  {
    if s != [] {
      CStringWhole(s[1..]);
      assert s == [s[0]] + s[1..];
    }
  }

  lemma ValidNoZero(s: seq<byte>)
    requires ValidName(s)
    ensures 0 !in s
  {
    var q := FirstDot(s);
    forall i | 0 <= i < |s|
      ensures s[i] != 0
    {
      if i < q {
        assert Plain(s[..q][i]);
      } else if i > q {
        assert Plain(s[q + 1..][i - q - 1]);
      }
    }
  }

  /** What an entry with the encoded name of s shows to C string comparison is s itself. */
  lemma ShownOfEncoded(s: seq<byte>)
    requires ValidName(s)
    ensures Encode(s).Some? && CString(Decode(Encode(s).value)) == s
  {
    DecodeEncode(s);
    ValidNoZero(s);
    CStringWhole(s);
  }

  /** A deleted entry never shows a valid name. */
  lemma ShownOfDeleted(name: seq<byte>, s: seq<byte>)
    requires |name| == 11 && name[0] == DELETED && ValidName(s)
    ensures CString(Decode(name)) != s
  {
    SqueezeFirst(name[..8]);
    assert Decode(name)[0] == DELETED;
    assert CString(Decode(name))[0] == DELETED;
  }

  lemma {:induction false} SqueezeFirst(s: seq<byte>)
    requires s != [] && s[0] == DELETED
    ensures Squeeze(s) != [] && Squeeze(s)[0] == DELETED
  {
    var n := |s| - 1;
    if n > 0 {
      SqueezeFirst(s[..n]);
    } else {
      assert s[..0] == [];
    }
  }

  // ----- which directory names come back from a decoding

  /** A character that encoding leaves alone: not blank, not a dot, not lower case. */
  predicate Stored(b: byte) { b != SPACE && b != DOT && !(97 <= b <= 122) }

  /** k stored characters, then blanks. */
  predicate Padded(f: seq<byte>, k: nat)
  {
    k <= |f| && (forall i :: 0 <= i < k ==> Stored(f[i])) && forall i :: k <= i < |f| ==> f[i] == SPACE
  }

  /** A dot entry, or a base name and an extension, each padded with blanks. */
  ghost predicate Canonical(n: seq<byte>)
    requires |n| == 11
  {
    || n == [DOT] + Blanks(10) || n == [DOT, DOT] + Blanks(9)
    || exists i: nat, j: nat :: Padded(n[..8], i) && Padded(n[8..], j)
  }

  function LowAll(s: seq<byte>): (r: seq<byte>)
    ensures |r| == |s| && forall i :: 0 <= i < |s| ==> r[i] == Low(s[i])
  {
    seq(|s|, i requires 0 <= i < |s| => Low(s[i]))
  }

  lemma {:induction false} SqueezePadded(f: seq<byte>, k: nat)
    requires Padded(f, k)
    ensures Squeeze(f) == LowAll(f[..k])
    decreases |f|
  {
    if f != [] {
      var n := |f| - 1;
      SqueezePadded(f[..n], if k == |f| then n else k);
      if k == |f| {
        assert LowAll(f[..k]) == LowAll(f[..n]) + [Low(f[n])];
        assert f[..n][..n] == f[..n];
      } else {
        assert f[..n][..k] == f[..k];
      }
    }
  }

  lemma {:induction false} SqueezeNoBlank(s: seq<byte>)
    ensures SPACE !in Squeeze(s)
  {
    if s != [] {
      SqueezeNoBlank(s[..|s| - 1]);
    }
  }

  lemma DecodeNoBlank(n: seq<byte>)
    requires |n| == 11
    ensures SPACE !in Decode(n)
  {
    SqueezeNoBlank(n[..8]);
    SqueezeNoBlank(n[8..]);
  }

  /** Lower-casing a padded field and encoding it again gives the field back. */
  lemma FieldOfLow(f: seq<byte>, k: nat)
    requires Padded(f, k)
    ensures Field(LowAll(f[..k]), |f|) == f && DOT !in LowAll(f[..k]) && SPACE !in LowAll(f[..k])
  {
    var low := LowAll(f[..k]);
    assert Take(low, |f|) == low;
  }

  lemma FieldPadded(s: seq<byte>, n: nat)
    requires SPACE !in s && DOT !in Take(s, n)
    ensures Padded(Field(s, n), |Take(s, n)|)
  {
    var t := Take(s, n);
    assert forall i :: 0 <= i < |t| ==> t[i] in t && t[i] == s[i] && s[i] in s;
  }

  /** Whatever is encoded from a name without blanks is canonical. */
  lemma EncodedCanonical(p: seq<byte>)
    requires SPACE !in p && Encode(p).Some?
    ensures Canonical(Encode(p).value)
  {
    var n, q := Encode(p).value, FirstDot(p);
    if IsDots(p) {
      assert n == p + Blanks(11 - |p|);
    } else if q == |p| {
      assert p[..q] == p;
      FieldPadded(p, 8);
      assert n[..8] == Field(p, 8) && n[8..] == Blanks(3);
      assert Padded(n[8..], 0);
    } else {
      var b, e := p[..q], p[q + 1..];
      assert forall c :: c in Take(e, 3) ==> c in Take(e, 4);
      FieldPadded(b, 8);
      FieldPadded(e, 3);
      assert n[..8] == Field(b, 8) && n[8..] == Field(e, 3);
    }
  }

  lemma EncodeJoined(b: seq<byte>, e: seq<byte>)
    requires DOT !in b && DOT !in e && |e| <= 3
    ensures var p := b + (if e == [] then [] else [DOT] + e);
            !IsDots(p) && Encode(p) == Some(Field(b, 8) + Field(e, 3))
  {
    var p := b + (if e == [] then [] else [DOT] + e);
    if e == [] {
      assert p == b;
      assert FirstDot(p) == |p|;
      assert Field(e, 3) == Blanks(3);
    } else {
      assert p[|b|] == DOT && p[..|b|] == b && p[|b| + 1..] == e;
      DotAt(p, |b|);
      assert Take(e, 4) == e;
    }
  }

  lemma DecodePadded(n: seq<byte>, i: nat, j: nat)
    requires |n| == 11 && Padded(n[..8], i) && Padded(n[8..], j)
    ensures var b, e := LowAll(n[..i]), LowAll(n[8..8 + j]);
            Decode(n) == b + (if e == [] then [] else [DOT] + e)
  {
    SqueezePadded(n[..8], i);
    SqueezePadded(n[8..], j);
    assert n[..8][..i] == n[..i] && n[8..][..j] == n[8..8 + j];
    assert n[..8][0] == n[0] && n[8..][0] == n[8];
    assert (n[8] == SPACE) == (j == 0);
  }

  lemma EncodeDecodePadded(n: seq<byte>, i: nat, j: nat)
    requires |n| == 11 && Padded(n[..8], i) && Padded(n[8..], j)
    ensures Encode(Decode(n)) == Some(n)
  {
    var b, e := LowAll(n[..i]), LowAll(n[8..8 + j]);
    DecodePadded(n, i, j);
    FieldOfLow(n[..8], i);
    FieldOfLow(n[8..], j);
    assert n[..8][..i] == n[..i] && n[8..][..j] == n[8..8 + j];
    EncodeJoined(b, e);
    assert n == n[..8] + n[8..];
  }

  lemma EncodeDecodeDots(n: seq<byte>)
    requires n == [DOT] + Blanks(10) || n == [DOT, DOT] + Blanks(9)
    ensures Encode(Decode(n)) == Some(n)
  {
    if n == [DOT] + Blanks(10) {
      assert Decode(n) == [DOT];
    } else {
      assert Decode(n) == [DOT, DOT];
    }
  }

  /** Encoding undoes decoding exactly on the canonical directory names. */
  lemma EncodeDecodeIff(n: seq<byte>)
    requires |n| == 11
    ensures Encode(Decode(n)) == Some(n) <==> Canonical(n)
  {
    if Encode(Decode(n)) == Some(n) {
      DecodeNoBlank(n);
      EncodedCanonical(Decode(n));
    } else if n == [DOT] + Blanks(10) || n == [DOT, DOT] + Blanks(9) {
      EncodeDecodeDots(n);
    } else if i: nat, j: nat :| Padded(n[..8], i) && Padded(n[8..], j) {
      EncodeDecodePadded(n, i, j);
    }
  }
}
