/**
  Whole runs of root-level creations, writes and removals.  Every run keeps the
  invariant of the volume, leaks no cluster, keeps the chains of files acyclic and
  disjoint and determines the sizes of all files.  A run whose writes stay in the
  clusters of their files computes on the map from names to files what the operations
  compute on a map, and leaves alone every byte that belongs to no root-level file.
 */
module Runs {
  import opened Bytes
  import opened Layout
  import opened Chains
  import opened Names
  import opened Directory
  import opened Writes
  import opened WriteLaws
  import opened Volumes
  import opened FileSystem
  import opened Operations

  datatype Op =
    | Create(name: seq<byte>, time: word, date: word)
    | Write(name: seq<byte>, offset: nat, data: seq<byte>)
    | Remove(name: seq<byte>)

  // ----- the steps, as the methods of the volume specify them

  /** Creation is possible and leads from d to d'. */
  ghost predicate CreateStep(d: Disk, n: seq<byte>, time: word, date: word, d': Disk)
  {
    CanCreate(d, n) && FreeSlot(d.root) < |d.root| && d' == Created(d, n, time, date)
  }

  /** Both lookups lead from n to the plain file in slot s, with chain cs, which write_path can write. */
  ghost predicate CanWrite(d: Disk, bytes: nat, n: seq<byte>, offset: nat, size: nat, s: nat, cs: seq<nat>)
  {
    && Finds(d.root, n, s) && s < |d.root| && Attr(d.root[s]) == ATTR_ARCHIVE && ValidName(n)
    && Writable(d, bytes, offset, size, s, cs)
  }

  ghost predicate WriteStep(d: Disk, bytes: nat, n: seq<byte>, offset: nat, buf: seq<byte>, s: nat, cs: seq<nat>,
                            d': Disk)
  {
    CanWrite(d, bytes, n, offset, |buf|, s, cs) && Wrote(d, s, cs, bytes, offset, buf, d')
  }

  /** No directory is called n, and cs is the chain of the file that lookup finds, if it finds one. */
  ghost predicate CanRemove(d: Disk, n: seq<byte>, cs: seq<nat>)
  {
    && Sound(d) && NoDirectory(d, n) && Encode(n).Some?
    && var hit := FirstHit(d.root, Encode(n).value, true, true);
       hit.Some? ==> IsChain(d.fat1, Hi(d), cs) && cs[0] == FirstCluster(hit.value)
  }

  /** Removal takes that file away, if there is one. */
  ghost predicate RemoveStep(d: Disk, n: seq<byte>, cs: seq<nat>, d': Disk)
  {
    && CanRemove(d, n, cs)
    && if FirstHit(d.root, Encode(n).value, true, true).None? then d' == d
       else Chains.Within(cs, |d.fat1|) && d' == Removed(d, n, cs)
  }

  ghost predicate Step(d: Disk, bytes: nat, op: Op, d': Disk)
  {
    match op
    case Create(n, time, date) => CreateStep(d, n, time, date, d')
    case Write(n, offset, buf) => exists s, cs :: WriteStep(d, bytes, n, offset, buf, s, cs, d')
    case Remove(n) => exists cs :: RemoveStep(d, n, cs, d')
  }

  /** d' is reached from d by the operations in turn. */
  ghost predicate Run(d: Disk, bytes: nat, ops: seq<Op>, d': Disk)
    decreases |ops|
  {
    if ops == [] then d' == d
    else exists mid :: Step(d, bytes, ops[0], mid) && Run(mid, bytes, ops[1..], d')
  }

  // ----- the methods of the volume take exactly these steps

  method PerformCreate(v: Volume, n: seq<byte>, time: word, date: word)
    requires v.Valid() && CanCreate(v.D(), n) && FreeSlot(v.D().root) < |v.D().root|
    modifies v`img
    ensures v.Valid() && Step(old(v.D()), v.g.ClusterBytes(), Create(n, time, date), v.D())
  {
    var _ := v.Mknod(n, time, date);
  }

  method PerformWrite(v: Volume, n: seq<byte>, offset: nat, buf: seq<byte>, ghost s: nat, ghost cs: seq<nat>)
    requires v.Valid() && CanWrite(v.D(), v.g.ClusterBytes(), n, offset, |buf|, s, cs)
    modifies v`img
    ensures v.Valid() && Step(old(v.D()), v.g.ClusterBytes(), Write(n, offset, buf), v.D())
  {
    ghost var d := v.D();
    var _ := v.WritePath(n, offset, buf, s, cs);
    assert WriteStep(d, v.g.ClusterBytes(), n, offset, buf, s, cs, v.D());
  }

  method PerformRemove(v: Volume, n: seq<byte>, ghost cs: seq<nat>)
    requires v.Valid() && CanRemove(v.D(), n, cs)
    modifies v`img
    ensures v.Valid() && Step(old(v.D()), v.g.ClusterBytes(), Remove(n), v.D())
  {
    ghost var d := v.D();
    EncodedBytes(n);
    var _ := v.Unlink(n, cs);
    assert RemoveStep(d, n, cs, v.D());
  }

  // ----- the slot an operation works on

  /** A plain file that both lookups find is a live one, and the chain is its own. */
  lemma FoundIsFile(d: Disk, bytes: nat, n: seq<byte>, s: nat, cs: seq<nat>)
    requires Inv(d, bytes) && ValidName(n) && Finds(d.root, n, s) && s < |d.root| && Attr(d.root[s]) == ATTR_ARCHIVE
    requires IsChain(d.fat1, Hi(d), cs) && cs[0] == FirstCluster(d.root[s])
    ensures IsFile(d, bytes, n, s) && Chain(d, s) == cs
  {
    EncodedBytes(n);
    assert Matches(d.root[s], Encode(n).value, true, true);
    assert d.root[s][0] == Name(d.root[s])[0];
    assert Live(d.root[s]) && Shown(d.root[s]) == n;
    ChainIs(d, s, cs);
  }

  lemma WriteSlotIs(d: Disk, bytes: nat, n: seq<byte>, offset: nat, buf: seq<byte>, s: nat, cs: seq<nat>, d': Disk)
    requires Inv(d, bytes) && WriteStep(d, bytes, n, offset, buf, s, cs, d')
    ensures IsFile(d, bytes, n, s) && Chain(d, s) == cs && WroteAt(d, bytes, s, offset, buf, d')
  {
    FoundIsFile(d, bytes, n, s, cs);
  }

  /** Removal finds a live file, whose chain it is given, or the name is not in the map. */
  lemma RemoveSlotIs(d: Disk, bytes: nat, n: seq<byte>, cs: seq<nat>, d': Disk) returns (s: nat)
    requires Inv(d, bytes) && RemoveStep(d, n, cs, d')
    ensures n in Stores(d, bytes) ==>
              IsFile(d, bytes, n, s) && Chain(d, s) == cs && Chains.Within(cs, |d.fat1|) && d' == Removed(d, n, cs)
    ensures n !in Stores(d, bytes) ==> d' == d
  {
    s := 0;
    if n in Stores(d, bytes) {
      SlotOfName(d, bytes, n);
      s := ShownSlot(d.root, n);
      BothFind(d, bytes, n, s);
      ChainIs(d, s, cs);
    } else {
      MissingNotFound(d, bytes, n);
    }
  }

  // ----- what the operations do to a map from names to files

  type FileMap = map<seq<byte>, File>
  type ShapeMap = map<seq<byte>, Shape>

  /** One operation; what is in the clusters it takes is not determined. */
  ghost predicate MapStep(fs: FileMap, bytes: nat, op: Op, fs': FileMap)
    requires bytes > 0
  {
    match op
    case Create(n, _, _) => exists ext: seq<byte> :: |ext| == bytes && fs' == fs[n := File(1, ext, 0)]
    case Write(n, offset, buf) => buf != [] && exists ext: seq<byte> :: MapWrite(fs, bytes, n, offset, buf, ext, fs')
    case Remove(n) => fs' == fs - {n}
  }

  ghost predicate MapWrite(fs: FileMap, bytes: nat, n: seq<byte>, offset: nat, buf: seq<byte>, ext: seq<byte>,
                           fs': FileMap)
    requires bytes > 0 && buf != []
  {
    && n in fs && fs[n].Ok(bytes) && Inside(fs[n].Outline(), bytes, offset, |buf|)
    && |ext| == Span(Extra(offset + |buf|, fs[n].len, bytes), bytes)
    && fs' == fs[n := Rewritten(fs[n], bytes, offset, buf, ext)]
  }

  ghost predicate MapRun(fs: FileMap, bytes: nat, ops: seq<Op>, fs': FileMap)
    requires bytes > 0
    decreases |ops|
  {
    if ops == [] then fs' == fs
    else exists mid :: MapStep(fs, bytes, ops[0], mid) && MapRun(mid, bytes, ops[1..], fs')
  }

  /** What an operation does to the numbers of clusters and the sizes. */
  function ShapeStep(shapes: ShapeMap, bytes: nat, op: Op): ShapeMap
    requires bytes > 0
  {
    match op
    case Create(n, _, _) => shapes[n := Shape(1, 0)]
    case Write(n, offset, buf) => if n in shapes then shapes[n := Reshape(shapes[n], bytes, offset, |buf|)] else shapes
    case Remove(n) => shapes - {n}
  }

  function ShapeRun(shapes: ShapeMap, bytes: nat, ops: seq<Op>): ShapeMap
    requires bytes > 0
    decreases |ops|
  {
    if ops == [] then shapes else ShapeRun(ShapeStep(shapes, bytes, ops[0]), bytes, ops[1..])
  }

  /** Writes stay in the clusters of the files, which the shapes before the run decide. */
  predicate InsideOp(shapes: ShapeMap, bytes: nat, op: Op)
    requires bytes > 0
  {
    op.Write? && op.name in shapes && shapes[op.name].len > 0 ==> Inside(shapes[op.name], bytes, op.offset, |op.data|)
  }

  predicate InsideOps(shapes: ShapeMap, bytes: nat, ops: seq<Op>)
    requires bytes > 0
    decreases |ops|
  {
    ops != [] ==> InsideOp(shapes, bytes, ops[0]) && InsideOps(ShapeStep(shapes, bytes, ops[0]), bytes, ops[1..])
  }

  // ----- every run

  /** Every step keeps the invariant, and determines the shapes of all files. */
  lemma StepShapes(d: Disk, bytes: nat, op: Op, d': Disk)
    requires Inv(d, bytes) && Step(d, bytes, op, d')
    ensures Inv(d', bytes) && Shapes(Stores(d', bytes)) == ShapeStep(Shapes(Stores(d, bytes)), bytes, op)
  {
    match op
    case Create(n, time, date) =>
      CreateMaps(d, bytes, n, time, date, d');
    case Write(n, offset, buf) =>
      var s, cs :| WriteStep(d, bytes, n, offset, buf, s, cs, d');
      WriteStepShapes(d, bytes, n, offset, buf, s, cs, d');
    case Remove(n) =>
      var cs :| RemoveStep(d, n, cs, d');
      RemoveStepRefines(d, bytes, n, cs, d');
      ContentsRemove(Stores(d, bytes), n);
  }

  lemma WriteStepShapes(d: Disk, bytes: nat, n: seq<byte>, offset: nat, buf: seq<byte>, s: nat, cs: seq<nat>, d': Disk)
    requires Inv(d, bytes) && WriteStep(d, bytes, n, offset, buf, s, cs, d')
    ensures Inv(d', bytes) && n in Stores(d, bytes)
    ensures Shapes(Stores(d', bytes)) == ShapeStep(Shapes(Stores(d, bytes)), bytes, Write(n, offset, buf))
  {
    WriteSlotIs(d, bytes, n, offset, buf, s, cs, d');
    StoresAt(d, bytes, s);
    WriteShapes(d, bytes, n, s, offset, buf, d');
  }

  lemma RemoveStepRefines(d: Disk, bytes: nat, n: seq<byte>, cs: seq<nat>, d': Disk)
    requires Inv(d, bytes) && RemoveStep(d, n, cs, d')
    ensures Inv(d', bytes) && Stores(d', bytes) == Stores(d, bytes) - {n}
  {
    var s := RemoveSlotIs(d, bytes, n, cs, d');
    if n in Stores(d, bytes) {
      RemoveRefines(d, bytes, n, s);
    } else {
      assert Stores(d, bytes) - {n} == Stores(d, bytes);
    }
  }

  /**
    Every run keeps the invariant; how many clusters and bytes each file has afterwards is determined by the shapes
    before.
   */
  lemma {:induction false} RunShapes(d: Disk, bytes: nat, ops: seq<Op>, d': Disk)
    requires Inv(d, bytes) && Run(d, bytes, ops, d')
    ensures Inv(d', bytes) && Shapes(Stores(d', bytes)) == ShapeRun(Shapes(Stores(d, bytes)), bytes, ops)
    decreases |ops|
  {
    if ops != [] {
      var mid :| Step(d, bytes, ops[0], mid) && Run(mid, bytes, ops[1..], d');
      StepShapes(d, bytes, ops[0], mid);
      RunShapes(mid, bytes, ops[1..], d');
    }
  }

  // ----- runs whose writes stay in their files

  lemma WriteStepRefines(d: Disk, bytes: nat, n: seq<byte>, offset: nat, buf: seq<byte>, s: nat, cs: seq<nat>, d': Disk)
    requires Inv(d, bytes) && WriteStep(d, bytes, n, offset, buf, s, cs, d')
    requires InsideOp(Shapes(Stores(d, bytes)), bytes, Write(n, offset, buf))
    ensures Inv(d', bytes) && MapStep(Stores(d, bytes), bytes, Write(n, offset, buf), Stores(d', bytes))
  {
    WriteSlotIs(d, bytes, n, offset, buf, s, cs, d');
    StoresAt(d, bytes, s);
    WriteRefines(d, bytes, n, s, offset, buf, d');
    assert MapWrite(Stores(d, bytes), bytes, n, offset, buf, Fresh(d, bytes, s, offset, |buf|), Stores(d', bytes));
  }

  lemma CreateStepRefines(d: Disk, bytes: nat, n: seq<byte>, time: word, date: word, d': Disk)
    requires Inv(d, bytes) && CreateStep(d, n, time, date, d')
    ensures Inv(d', bytes) && MapStep(Stores(d, bytes), bytes, Create(n, time, date), Stores(d', bytes))
  {
    var ext := CreateSome(d, bytes, n, time, date, d');
    CreatedMapStep(Stores(d, bytes), bytes, n, time, date, ext, Stores(d', bytes));
  }

  lemma CreatedMapStep(fs: FileMap, bytes: nat, n: seq<byte>, time: word, date: word, ext: seq<byte>, fs': FileMap)
    requires |ext| == bytes > 0 && fs' == fs[n := File(1, ext, 0)]
    ensures MapStep(fs, bytes, Create(n, time, date), fs')
  {
  }

  lemma StepRefines(d: Disk, bytes: nat, op: Op, d': Disk)
    requires Inv(d, bytes) && Step(d, bytes, op, d') && InsideOp(Shapes(Stores(d, bytes)), bytes, op)
    ensures Inv(d', bytes) && MapStep(Stores(d, bytes), bytes, op, Stores(d', bytes))
  {
    match op
    case Create(n, time, date) =>
      CreateStepRefines(d, bytes, n, time, date, d');
    case Write(n, offset, buf) =>
      var s, cs :| WriteStep(d, bytes, n, offset, buf, s, cs, d');
      WriteStepRefines(d, bytes, n, offset, buf, s, cs, d');
    case Remove(n) =>
      var cs :| RemoveStep(d, n, cs, d');
      RemoveStepRefines(d, bytes, n, cs, d');
  }

  /** A run whose writes stay in their files computes what the operations compute on the map from names to files. */
  lemma {:induction false} RunRefines(d: Disk, bytes: nat, ops: seq<Op>, d': Disk)
    requires Inv(d, bytes) && Run(d, bytes, ops, d') && InsideOps(Shapes(Stores(d, bytes)), bytes, ops)
    ensures Inv(d', bytes) && MapRun(Stores(d, bytes), bytes, ops, Stores(d', bytes))
    decreases |ops|
  {
    if ops != [] {
      var mid :| Step(d, bytes, ops[0], mid) && Run(mid, bytes, ops[1..], d');
      StepShapes(d, bytes, ops[0], mid);
      StepRefines(d, bytes, ops[0], mid);
      RunRefines(mid, bytes, ops[1..], d');
      assert MapStep(Stores(d, bytes), bytes, ops[0], Stores(mid, bytes))
          && MapRun(Stores(mid, bytes), bytes, ops[1..], Stores(d', bytes));
    }
  }

  /** A freshly formatted disk: no cluster is in use and every root entry is a terminator. */
  ghost predicate Formatted(d: Disk, bytes: nat)
  {
    && Sound(d) && 0 < bytes <= 255 * SECTOR && Uniform(d.data, bytes)
    && (forall c :: 2 <= c < |d.fat1| ==> d.fat1[c] == 0) && d.fat2 == d.fat1
    && forall i :: 0 <= i < |d.root| ==> d.root[i][0] == 0
  }

  /** It satisfies the invariant and holds no file, so that what a run leaves is what the run made. */
  lemma FormattedRun(d: Disk, bytes: nat, ops: seq<Op>, d': Disk)
    requires Formatted(d, bytes) && Run(d, bytes, ops, d')
    ensures Inv(d, bytes) && AllEnded(d) && Stores(d, bytes) == map[] && Inv(d', bytes)
    ensures InsideOps(map[], bytes, ops) ==> MapRun(map[], bytes, ops, Stores(d', bytes))
  {
    assert forall i :: 0 <= i < |d.root| ==> !Live(d.root[i]);
    assert FileNames(d.root) == {};
    RunShapes(d, bytes, ops, d');
    if InsideOps(map[], bytes, ops) {
      RunRefines(d, bytes, ops, d');
    }
  }

  // ----- runs whose writes are right

  /** What an operation is meant to do to the contents. */
  function Meant(files: map<seq<byte>, seq<byte>>, op: Op): map<seq<byte>, seq<byte>>
  {
    match op
    case Create(n, _, _) => files[n := []]
    case Write(n, offset, buf) =>
      if n in files && offset <= |files[n]| then files[n := Intended(files[n], offset, buf)] else files
    case Remove(n) => files - {n}
  }

  function MeantAll(files: map<seq<byte>, seq<byte>>, ops: seq<Op>): map<seq<byte>, seq<byte>>
    decreases |ops|
  {
    if ops == [] then files else MeantAll(Meant(files, ops[0]), ops[1..])
  }

  predicate RightOp(shapes: ShapeMap, bytes: nat, op: Op)
    requires bytes > 0
  {
    op.Write? && op.name in shapes && shapes[op.name].len > 0 ==> Right(shapes[op.name], bytes, op.offset, |op.data|)
  }

  predicate RightOps(shapes: ShapeMap, bytes: nat, ops: seq<Op>)
    requires bytes > 0
    decreases |ops|
  {
    ops != [] ==> RightOp(shapes, bytes, ops[0]) && RightOps(ShapeStep(shapes, bytes, ops[0]), bytes, ops[1..])
  }

  lemma MapStepMeant(fs: FileMap, bytes: nat, op: Op, fs': FileMap)
    requires bytes > 0 && MapStep(fs, bytes, op, fs') && RightOp(Shapes(fs), bytes, op)
    ensures Contents(fs') == Meant(Contents(fs), op)
  {
    match op
    case Create(n, _, _) =>
      var ext: seq<byte> :| |ext| == bytes && fs' == fs[n := File(1, ext, 0)];
      ContentsUpdate(fs, n, File(1, ext, 0));
    case Write(n, offset, buf) =>
      var ext: seq<byte> :| MapWrite(fs, bytes, n, offset, buf, ext, fs');
      ContentsUpdate(fs, n, Rewritten(fs[n], bytes, offset, buf, ext));
      RightIsIntended(fs[n], bytes, offset, buf, ext);
    case Remove(n) =>
      ContentsRemove(fs, n);
  }

  /** A run whose writes are right does to the contents what it is meant to do. */
  lemma {:induction false} RunExact(d: Disk, bytes: nat, ops: seq<Op>, d': Disk)
    requires Inv(d, bytes) && Run(d, bytes, ops, d') && RightOps(Shapes(Stores(d, bytes)), bytes, ops)
    ensures Inv(d', bytes) && Contents(Stores(d', bytes)) == MeantAll(Contents(Stores(d, bytes)), ops)
    decreases |ops|
  {
    if ops != [] {
      var mid :| Step(d, bytes, ops[0], mid) && Run(mid, bytes, ops[1..], d');
      StepShapes(d, bytes, ops[0], mid);
      StepRefines(d, bytes, ops[0], mid);
      MapStepMeant(Stores(d, bytes), bytes, ops[0], Stores(mid, bytes));
      RunExact(mid, bytes, ops[1..], d');
    }
  }

  /** Every file owns exactly as many clusters as its size calls for. */
  ghost predicate AllFit(shapes: ShapeMap, bytes: nat)
    requires bytes > 0
  {
    forall n :: n in shapes ==> ChainFits(shapes[n].len, shapes[n].size, bytes)
  }

  /** Such a run leaves every chain as long as its file needs, if it found them so. */
  lemma {:induction false} RightRunFits(shapes: ShapeMap, bytes: nat, ops: seq<Op>)
    requires bytes > 0 && AllFit(shapes, bytes) && RightOps(shapes, bytes, ops)
    requires forall i :: 0 <= i < |ops| && ops[i].Write? ==> ops[i].data != []
    ensures AllFit(ShapeRun(shapes, bytes, ops), bytes)
    decreases |ops|
  {
    if ops != [] {
      RightStepFits(shapes, bytes, ops[0]);
      assert forall i :: 0 <= i < |ops[1..]| ==> ops[1..][i] == ops[i + 1];
      RightRunFits(ShapeStep(shapes, bytes, ops[0]), bytes, ops[1..]);
    }
  }

  lemma RightStepFits(shapes: ShapeMap, bytes: nat, op: Op)
    requires bytes > 0 && AllFit(shapes, bytes) && RightOp(shapes, bytes, op) && (op.Write? ==> op.data != [])
    ensures AllFit(ShapeStep(shapes, bytes, op), bytes)
  {
    match op
    case Create(n, _, _) =>
      assert Need(0, bytes) == 1;
    case Write(n, offset, buf) =>
      if n in shapes {
        EndInLast(shapes[n].size, bytes);
        RightFits(shapes[n], bytes, offset, |buf|);
      }
    case Remove(n) =>
  }

  // ----- one operation, seen as a change of one slot and its chain

  /** The clusters of the live file in slot s, none if there is no such file. */
  ghost function OwnChain(d: Disk, s: nat): seq<nat>
    requires Sound(d) && s < |d.root|
  {
    if Live(d.root[s]) && Chained(d, s) then Chain(d, s) else []
  }

  /** Table entries outside both chains are as they were, what left the chain is free and what joined it was free. */
  ghost predicate Exchanged(d: Disk, d': Disk, before: seq<nat>, after: seq<nat>)
    requires Sound(d) && Sound(d')
  {
    && Hi(d') == Hi(d) && |d'.fat1| == |d.fat1|
    && (forall c :: 2 <= c < Hi(d) && c !in before && c !in after ==> d'.fat1[c] == d.fat1[c])
    && (forall c :: c in before && c !in after ==> 2 <= c < Hi(d) && d'.fat1[c] == 0)
    && (forall c :: c in after && c !in before ==> 2 <= c < Hi(d) && d.fat1[c] == 0)
  }

  /**
    d' differs from d in slot s only, whose file owned the clusters before and owns after now; the chain stays properly
    ended.
   */
  ghost predicate Moved(d: Disk, d': Disk, bytes: nat, s: nat, before: seq<nat>, after: seq<nat>)
    requires Inv(d, bytes) && Inv(d', bytes)
  {
    && s < |d.root| && OnlyAt(d, d', bytes, s) && before == OwnChain(d, s) && after == OwnChain(d', s)
    && Exchanged(d, d', before, after) && (Ended(d.fat1, before) ==> Ended(d'.fat1, after))
  }

  /** The bytes of clusters outside both chains are as they were. */
  ghost predicate BytesOutside(d: Disk, d': Disk, before: seq<nat>, after: seq<nat>)
  {
    && |d'.data| == |d.data|
    && forall c :: 2 <= c < Hi(d) && c !in before && c !in after ==> d'.data[c - 2] == d.data[c - 2]
  }

  lemma CreateMoves(d: Disk, bytes: nat, n: seq<byte>, time: word, date: word, d': Disk) returns (s: nat)
    requires Inv(d, bytes) && CreateStep(d, n, time, date, d')
    ensures Inv(d', bytes) && s < |d.root| == |d'.root| && Moved(d, d', bytes, s, OwnChain(d, s), OwnChain(d', s))
    ensures BytesOutside(d, d', OwnChain(d, s), OwnChain(d', s))
  {
    var _, slot, c := CreatedParts(d, bytes, n, time, date);
    s := slot;
    CreatedMoves(d, bytes, d', s, c);
  }

  lemma CreatedMoves(d: Disk, bytes: nat, d': Disk, s: nat, c: nat)
    requires Inv(d, bytes) && Inv(d', bytes) && OnlyAt(d, d', bytes, s) && s < |d.root| && !Live(d.root[s])
    requires Live(d'.root[s]) && Chained(d', s) && Chain(d', s) == [c] && 2 <= c < Hi(d) && d.fat1[c] == 0
    requires d'.fat1 == d.fat1[c := END] && d'.data == d.data
    ensures Moved(d, d', bytes, s, OwnChain(d, s), OwnChain(d', s))
    ensures BytesOutside(d, d', OwnChain(d, s), OwnChain(d', s))
  {
    assert OwnChain(d, s) == [] && OwnChain(d', s) == [c];
  }

  lemma GrownExchanged(d: Disk, bytes: nat, s: nat, k: nat, total: nat, d': Disk)
    requires Inv(d, bytes) && ReshapedAt(d, bytes, s, k, total, d')
    ensures Sound(d') && Exchanged(d, d', Chain(d, s), GrownTo(d, s, k))
  {
    GrewChain(d, bytes, s, k, total, d');
    ChainAt(d.fat1, Hi(d), Chain(d, s), |Chain(d, s)| - 1);
    AddedIs(d, Chain(d, s), k);
  }

  lemma WriteMoves(d: Disk, bytes: nat, s: nat, k: nat, total: nat, d': Disk)
    requires Inv(d, bytes) && ReshapedAt(d, bytes, s, k, total, d')
    ensures Inv(d', bytes) && |d'.root| == |d.root| && Moved(d, d', bytes, s, OwnChain(d, s), OwnChain(d', s))
    ensures OwnChain(d', s) == GrownTo(d, s, k)
  {
    GrewInv(d, bytes, s, k, total, d');
    GrewEntry(d, bytes, s, k, total, d');
    GrewChain(d, bytes, s, k, total, d');
    GrownExchanged(d, bytes, s, k, total, d');
  }

  lemma RemoveMoves(d: Disk, bytes: nat, n: seq<byte>, s: nat, d': Disk)
    requires Inv(d, bytes) && IsFile(d, bytes, n, s) && Chains.Within(Chain(d, s), |d.fat1|)
    requires d' == Removed(d, n, Chain(d, s))
    ensures Inv(d', bytes) && |d'.root| == |d.root| && Moved(d, d', bytes, s, OwnChain(d, s), OwnChain(d', s))
    ensures BytesOutside(d, d', OwnChain(d, s), OwnChain(d', s))
  {
    var _ := RemovedInv(d, bytes, n, s);
    FreedExchanged(d, d', Chain(d, s));
  }

  lemma FreedExchanged(d: Disk, d': Disk, cs: seq<nat>)
    requires Sound(d) && Sound(d') && IsChain(d.fat1, Hi(d), cs) && Chains.Within(cs, |d.fat1|)
    requires d'.fat1 == Freed(d.fat1, cs) && d'.data == d.data
    ensures Exchanged(d, d', cs, [])
  {
    forall c | c in cs
      ensures 2 <= c < Hi(d) && d'.fat1[c] == 0
    {
      ChainMember(d.fat1, Hi(d), cs, c);
    }
  }

  /** Every step but a removal that finds nothing moves clusters in and out of one slot's chain. */
  lemma StepMoves(d: Disk, bytes: nat, op: Op, d': Disk) returns (s: nat)
    requires Inv(d, bytes) && Step(d, bytes, op, d')
    ensures Inv(d', bytes)
    ensures d' == d || (s < |d.root| == |d'.root| && Moved(d, d', bytes, s, OwnChain(d, s), OwnChain(d', s)))
    ensures d' != d && InsideOp(Shapes(Stores(d, bytes)), bytes, op) ==>
              BytesOutside(d, d', OwnChain(d, s), OwnChain(d', s))
  {
    s := 0;
    match op
    case Create(n, time, date) =>
      s := CreateMoves(d, bytes, n, time, date, d');
    case Write(n, offset, buf) =>
      var slot, cs :| WriteStep(d, bytes, n, offset, buf, slot, cs, d');
      s := slot;
      WriteStepMoves(d, bytes, n, offset, buf, s, cs, d');
    case Remove(n) =>
      var cs :| RemoveStep(d, n, cs, d');
      s := RemoveSlotIs(d, bytes, n, cs, d');
      if n in Stores(d, bytes) {
        RemoveMoves(d, bytes, n, s, d');
      }
  }

  lemma WriteStepMoves(d: Disk, bytes: nat, n: seq<byte>, offset: nat, buf: seq<byte>, s: nat, cs: seq<nat>, d': Disk)
    requires Inv(d, bytes) && WriteStep(d, bytes, n, offset, buf, s, cs, d')
    ensures Inv(d', bytes) && s < |d.root| == |d'.root| && Moved(d, d', bytes, s, OwnChain(d, s), OwnChain(d', s))
    ensures InsideOp(Shapes(Stores(d, bytes)), bytes, Write(n, offset, buf)) ==>
              BytesOutside(d, d', OwnChain(d, s), OwnChain(d', s))
  {
    WriteSlotIs(d, bytes, n, offset, buf, s, cs, d');
    StoresAt(d, bytes, s);
    var k, total := WroteReshaped(d, bytes, s, offset, buf, d');
    WriteMoves(d, bytes, s, k, total, d');
    if Inside(Store(d, s).Outline(), bytes, offset, |buf|) {
      InsideMoves(d, bytes, s, offset, buf, d');
    }
  }

  lemma InsideMoves(d: Disk, bytes: nat, s: nat, offset: nat, buf: seq<byte>, d': Disk)
    requires Inv(d, bytes) && WroteAt(d, bytes, s, offset, buf, d')
    requires Inside(Store(d, s).Outline(), bytes, offset, |buf|)
    ensures Inv(d', bytes) && |d'.root| == |d.root| && BytesOutside(d, d', OwnChain(d, s), OwnChain(d', s))
  {
    var k, total, p, b := WrotePlaced(d, bytes, s, offset, buf, d');
    WriteMoves(d, bytes, s, k, total, d');
    PutOutside(d, d', bytes, GrownTo(d, s, k), p, b, OwnChain(d, s));
  }

  lemma PutOutside(d: Disk, d': Disk, bytes: nat, all: seq<nat>, p: nat, b: seq<byte>, before: seq<nat>)
    requires Put(d, d', bytes, all, p, b)
    ensures BytesOutside(d, d', before, all)
  {
    forall c | 2 <= c < Hi(d) && c !in all
      ensures d'.data[c - 2] == d.data[c - 2]
    {
      assert (c - 2) + 2 !in all;
    }
  }

  // ----- no cluster is lost

  /** Cluster c belongs to a root-level file. */
  ghost predicate Owned(d: Disk, c: nat)
    requires Sound(d)
  {
    exists i :: 0 <= i < |d.root| && c in OwnChain(d, i)
  }

  /** The clusters that are free or belong to a root-level file. */
  ghost function Pool(d: Disk): set<nat>
    requires Sound(d)
  {
    set c: nat | c < Hi(d) && 2 <= c && (d.fat1[c] == 0 || Owned(d, c))
  }

  lemma OtherChainsKept(d: Disk, d': Disk, bytes: nat, s: nat, i: nat)
    requires Inv(d, bytes) && Inv(d', bytes) && OnlyAt(d, d', bytes, s) && i < |d.root| && i != s
    ensures |d'.root| == |d.root| && OwnChain(d', i) == OwnChain(d, i)
  {
    if Live(d.root[i]) {
      OthersKept(d, d', bytes, s, i);
    }
  }

  lemma OwnedMoves(d: Disk, d': Disk, bytes: nat, s: nat, before: seq<nat>, after: seq<nat>, c: nat)
    requires Inv(d, bytes) && Inv(d', bytes) && Moved(d, d', bytes, s, before, after) && c !in before && c !in after
    ensures Owned(d', c) <==> Owned(d, c)
  {
    if i :| 0 <= i < |d.root| && c in OwnChain(d, i) {
      OtherChainsKept(d, d', bytes, s, i);
    }
    if i :| 0 <= i < |d'.root| && c in OwnChain(d', i) {
      OtherChainsKept(d, d', bytes, s, i);
    }
  }

  lemma PoolKept(d: Disk, d': Disk, bytes: nat, s: nat, before: seq<nat>, after: seq<nat>)
    requires Inv(d, bytes) && Inv(d', bytes) && Moved(d, d', bytes, s, before, after)
    ensures Pool(d') == Pool(d)
  {
    forall c: nat | 2 <= c < Hi(d)
      ensures c in Pool(d) <==> c in Pool(d')
    {
      if c !in before && c !in after {
        OwnedMoves(d, d', bytes, s, before, after, c);
      }
    }
  }

  /** Over every run the free clusters and those of root-level files stay the same set: nothing leaks. */
  lemma {:induction false} RunConserves(d: Disk, bytes: nat, ops: seq<Op>, d': Disk)
    requires Inv(d, bytes) && Run(d, bytes, ops, d')
    ensures Inv(d', bytes) && Pool(d') == Pool(d)
    decreases |ops|
  {
    if ops != [] {
      var mid :| Step(d, bytes, ops[0], mid) && Run(mid, bytes, ops[1..], d');
      var s := StepMoves(d, bytes, ops[0], mid);
      if mid != d {
        PoolKept(d, mid, bytes, s, OwnChain(d, s), OwnChain(mid, s));
      }
      RunConserves(mid, bytes, ops[1..], d');
    }
  }

  // ----- the chains of files

  /** The chain of every root-level file ends in the mark that directory walks and file walks both stop at. */
  ghost predicate AllEnded(d: Disk)
    requires Sound(d)
  {
    forall i :: 0 <= i < |d.root| ==> Ended(d.fat1, OwnChain(d, i))
  }

  lemma EndedElsewhere(d: Disk, d': Disk, bytes: nat, s: nat, i: nat)
    requires Inv(d, bytes) && Inv(d', bytes) && OnlyAt(d, d', bytes, s) && i < |d.root| && i != s
    requires Ended(d.fat1, OwnChain(d, i))
    ensures |d'.root| == |d.root| && Ended(d'.fat1, OwnChain(d', i))
  {
    OtherChainsKept(d, d', bytes, s, i);
    var cs := OwnChain(d, i);
    if cs != [] {
      ChainAt(d.fat1, Hi(d), cs, |cs| - 1);
      assert Live(d.root[i]) && LinksAgree(d, d', cs) && cs[|cs| - 1] in cs;
    }
  }

  lemma EndedKept(d: Disk, d': Disk, bytes: nat, s: nat, before: seq<nat>, after: seq<nat>)
    requires Inv(d, bytes) && Inv(d', bytes) && Moved(d, d', bytes, s, before, after) && AllEnded(d)
    ensures AllEnded(d')
  {
    forall i | 0 <= i < |d'.root|
      ensures Ended(d'.fat1, OwnChain(d', i))
    {
      assert Ended(d.fat1, OwnChain(d, i));
      if i != s {
        EndedElsewhere(d, d', bytes, s, i);
      }
    }
  }

  /**
    Over every run each root-level file has a chain of distinct clusters, numbered from 2 on and ended
    by 0xffff, and the chains of different files share no cluster.
   */
  lemma {:induction false} RunKeepsChains(d: Disk, bytes: nat, ops: seq<Op>, d': Disk)
    requires Inv(d, bytes) && AllEnded(d) && Run(d, bytes, ops, d')
    ensures Inv(d', bytes) && AllEnded(d')
    ensures forall i {:trigger Live(d'.root[i])} :: 0 <= i < |d'.root| && Live(d'.root[i]) ==>
              Chained(d', i) && Distinct(Chain(d', i)) && forall c :: c in Chain(d', i) ==> 2 <= c < Hi(d')
    ensures forall i, j {:trigger Live(d'.root[i]), Live(d'.root[j])} ::
              0 <= i < j < |d'.root| && Live(d'.root[i]) && Live(d'.root[j]) ==>
              Chained(d', i) && Chained(d', j) && Disjoint(Chain(d', i), Chain(d', j))
    decreases |ops|
  {
    if ops != [] {
      var mid :| Step(d, bytes, ops[0], mid) && Run(mid, bytes, ops[1..], d');
      var s := StepMoves(d, bytes, ops[0], mid);
      if mid != d {
        EndedKept(d, mid, bytes, s, OwnChain(d, s), OwnChain(mid, s));
      }
      RunKeepsChains(mid, bytes, ops[1..], d');
    } else {
      forall i {:trigger Live(d.root[i])} | 0 <= i < |d.root| && Live(d.root[i])
        ensures Chained(d, i) && Distinct(Chain(d, i)) && forall c :: c in Chain(d, i) ==> 2 <= c < Hi(d)
      {
        LiveChain(d, bytes, i);
      }
    }
  }

  lemma LiveChain(d: Disk, bytes: nat, i: nat)
    requires Inv(d, bytes) && i < |d.root| && Live(d.root[i])
    ensures Chained(d, i) && Distinct(Chain(d, i)) && forall c :: c in Chain(d, i) ==> 2 <= c < Hi(d)
  {
    assert FileOk(d, bytes, i);
    ChainDistinct(d.fat1, Hi(d), Chain(d, i));
    forall c | c in Chain(d, i)
      ensures 2 <= c < Hi(d)
    {
      ChainMember(d.fat1, Hi(d), Chain(d, i), c);
    }
  }

  // ----- chains that belong to no root-level file

  /**
    cs is a chain, for instance a subdirectory's or one of its files', that shares no cluster with a root-level file.
   */
  ghost predicate Foreign(d: Disk, cs: seq<nat>)
    requires Sound(d)
  {
    IsChain(d.fat1, Hi(d), cs) && forall i :: 0 <= i < |d.root| ==> Disjoint(cs, OwnChain(d, i))
  }

  lemma ForeignOutside(d: Disk, d': Disk, s: nat, before: seq<nat>, after: seq<nat>, cs: seq<nat>)
    requires Sound(d) && Sound(d') && s < |d.root| && Exchanged(d, d', before, after) && before == OwnChain(d, s)
    requires Foreign(d, cs)
    ensures LinksAgree(d, d', cs) && forall c :: c in cs ==> 2 <= c < Hi(d) && c !in before && c !in after
  {
    assert Disjoint(cs, OwnChain(d, s));
    forall c | c in cs
      ensures 2 <= c < Hi(d) && c !in before && c !in after
    {
      ChainMember(d.fat1, Hi(d), cs, c);
    }
  }

  lemma ForeignKept(d: Disk, d': Disk, bytes: nat, s: nat, before: seq<nat>, after: seq<nat>, cs: seq<nat>)
    requires Inv(d, bytes) && Inv(d', bytes) && Moved(d, d', bytes, s, before, after) && Foreign(d, cs)
    ensures Foreign(d', cs) && (BytesOutside(d, d', before, after) ==> BytesAgree(d, d', cs))
  {
    ForeignOutside(d, d', s, before, after, cs);
    ChainFrame(d.fat1, d'.fat1, Hi(d), cs);
    forall i | 0 <= i < |d'.root|
      ensures Disjoint(cs, OwnChain(d', i))
    {
      if i != s {
        OtherChainsKept(d, d', bytes, s, i);
      }
    }
  }

  /** Over every run such a chain keeps its links; it keeps its bytes too if writes stay in their files. */
  lemma {:induction false} RunKeepsForeign(d: Disk, bytes: nat, ops: seq<Op>, d': Disk, cs: seq<nat>)
    requires Inv(d, bytes) && Run(d, bytes, ops, d') && Foreign(d, cs)
    ensures Inv(d', bytes) && Foreign(d', cs) && Readable(d.data, cs) && Readable(d'.data, cs)
    ensures InsideOps(Shapes(Stores(d, bytes)), bytes, ops) ==> Gather(d'.data, cs) == Gather(d.data, cs)
    decreases |ops|
  {
    ChainReadable(d.fat1, Hi(d), cs, d.data);
    if ops != [] {
      var mid :| Step(d, bytes, ops[0], mid) && Run(mid, bytes, ops[1..], d');
      StepShapes(d, bytes, ops[0], mid);
      var s := StepMoves(d, bytes, ops[0], mid);
      if mid != d {
        ForeignKept(d, mid, bytes, s, OwnChain(d, s), OwnChain(mid, s), cs);
        if InsideOp(Shapes(Stores(d, bytes)), bytes, ops[0]) {
          UntouchedBytes(d, mid, cs);
        }
      }
      RunKeepsForeign(mid, bytes, ops[1..], d', cs);
    }
  }

  /** A write that runs over the end of its cluster leaves alone the chains that it does not reach. */
  lemma SpillKeeps(d: Disk, bytes: nat, n: seq<byte>, offset: nat, buf: seq<byte>, s: nat, cs: seq<nat>, d': Disk,
                   other: seq<nat>)
    requires WriteStep(d, bytes, n, offset, buf, s, cs, d') && Extra(offset + |buf|, |cs|, bytes) == 0
    requires Readable(d.data, other) && cs[|cs| - 1] !in other
    requires forall i :: 0 <= i < |other| ==> !Reaches(bytes, cs[|cs| - 1], Rest(offset, bytes), |buf|, other[i])
    ensures Readable(d'.data, other) && Gather(d'.data, other) == Gather(d.data, other)
  {
    ChainMissed(d.data, d'.data, bytes, cs[|cs| - 1], Rest(offset, bytes), buf, other);
  }
}
