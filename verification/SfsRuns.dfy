/** Whole runs of an SFS volume: writes, crashes and remounts, against a finite map. */
module SfsRuns {
  import opened Bytes
  import opened BlockDevice
  import opened SfsLayout
  import opened SfsVolume

  /** A mounted volume: the disk, and the superblock and table in memory. */
  datatype Volume = Volume(d: Blocks, sb: Super, t: Table) {
    ghost predicate InOrder() {
      VolumeOk(sb, t) && OnDisk(d, sb, t)
    }
  }

  /**
   * A write to its end; a write that fails after `k` sector writes, with the volume still in use; or
   * a write cut by a crash after `k` sector writes and then a remount.
   */
  datatype Op =
    | Put(name: seq<byte>, data: FileData)
    | Fail(name: seq<byte>, data: FileData, k: nat)
    | Crash(name: seq<byte>, data: FileData, k: nat)

  function Remount(d: Blocks): Volume {
    Volume(d, MountedSuper(d), MountedTable(d))
  }

  function JobOf(v: Volume, op: Op): Job {
    Job(v.sb, v.t, op.name, op.data)
  }

  /** On a drive that completes every command it can address, a write that does not fit stops at the last LBA. */
  function Step(v: Volume, op: Op): Volume
    requires VolumeOk(v.sb, v.t)
  {
    var j := JobOf(v, op);
    match op
    case Put(_, _) =>
      if !j.Accepted() then v
      else if j.Fits() then Volume(Apply(v.d, j.Plan()), j.NewSuper(), j.NewTable())
      else v.(d := j.Cut(v.d, LBA28_LIMIT - v.sb.nextFree))
    case Fail(_, _, k) =>
      if !j.Reaches(k) then v
      else if k < j.Count() then v.(d := j.Cut(v.d, k))
      else Volume(j.Cut(v.d, k), j.NewSuper(), j.NewTable())
    case Crash(_, _, k) =>
      if !j.Accepted() || k > |j.Plan()| then Remount(v.d)
      else if j.Reaches(k) then Remount(j.Cut(v.d, k))
      else Remount(j.Cut(v.d, LBA28_LIMIT - v.sb.nextFree))
  }

  /**
   * A crash finds the memory stored on disk, which a failed write may have prevented, and does not
   * fall between the directory switch and the superblock write.
   */
  ghost predicate SafeOp(v: Volume, op: Op) {
    var j := JobOf(v, op);
    op.Crash? ==> OnDisk(v.d, v.sb, v.t) && (j.Fits() ==> op.k <= j.SwitchPoint() || op.k >= |j.Plan()|)
  }

  lemma StepOfPut(v: Volume, j: Job)
    requires VolumeOk(v.sb, v.t) && j.sb == v.sb && j.t == v.t
    ensures Step(v, Put(j.name, j.data)) ==
      if !j.Accepted() then v
      else if j.Fits() then Volume(Apply(v.d, j.Plan()), j.NewSuper(), j.NewTable())
      else v.(d := j.Cut(v.d, LBA28_LIMIT - v.sb.nextFree))
  {
  }

  lemma StepOfFail(v: Volume, j: Job, k: nat)
    requires VolumeOk(v.sb, v.t) && j.sb == v.sb && j.t == v.t
    ensures Step(v, Fail(j.name, j.data, k)) ==
      if !j.Reaches(k) then v
      else if k < j.Count() then v.(d := j.Cut(v.d, k))
      else Volume(j.Cut(v.d, k), j.NewSuper(), j.NewTable())
  {
  }

  // ---- The map ----

  datatype Abstract = Abstract(files: map<seq<byte>, seq<byte>>, nextFree: nat)

  /**
   * The write takes effect on the map: always when finished, when failed once its data was out, and
   * after a crash when all its writes were done.
   */
  predicate Lands(a: Abstract, op: Op) {
    && ValidName(op.name) && (op.name in a.files || |a.files| < 64)
    && a.nextFree + Allocated(|op.data|) <= LBA28_LIMIT
    && (op.Fail? ==> Allocated(|op.data|) <= op.k <= Allocated(|op.data|) + 9)
    && (op.Crash? ==> op.k == Allocated(|op.data|) + 9)
  }

  function AbsStep(a: Abstract, op: Op): Abstract {
    if Lands(a, op)
    then Abstract(a.files[op.name := op.data[..Readable(|op.data|)]], a.nextFree + Allocated(|op.data|))
    else a
  }

  function Abs(v: Volume): Abstract {
    Abstract(View(v.d, v.t), v.sb.nextFree)
  }

  // ---- Room in the table ----

  function NamesUpTo(t: Table, k: nat): set<seq<byte>>
    requires k <= 64
  {
    set i | 0 <= i < k && t[i].used != 0 :: CStr(t[i].name)
  }

  function UsedUpTo(t: Table, k: nat): (n: nat)
    requires k <= 64
    ensures n <= k
    ensures n == k <==> forall i :: 0 <= i < k ==> t[i].used != 0
  {
    if k == 0 then 0 else UsedUpTo(t, k - 1) + (if t[k - 1].used != 0 then 1 else 0)
  }

  lemma {:induction false} NamesCounted(t: Table, nextFree: nat, k: nat)
    requires TableOk(t, nextFree) && k <= 64
    ensures |NamesUpTo(t, k)| == UsedUpTo(t, k)
  {
    if k > 0 {
      NamesCounted(t, nextFree, k - 1);
      NextName(t, nextFree, k - 1);
    }
  }

  lemma NextName(t: Table, nextFree: nat, k: nat)
    requires TableOk(t, nextFree) && k < 64
    ensures t[k].used != 0 ==> CStr(t[k].name) !in NamesUpTo(t, k)
    ensures NamesUpTo(t, k + 1) == NamesUpTo(t, k) + (if t[k].used != 0 then {CStr(t[k].name)} else {})
  {
    hide CStr, EntryOk;
    forall i | 0 <= i < k && t[i].used != 0 && t[k].used != 0
      ensures CStr(t[i].name) != CStr(t[k].name)
    {
      assert Apart(t[i], t[k]);
    }
  }

  /** A slot is left for a name exactly when it has one already or fewer than 64 names are used. */
  lemma SlotIffRoom(t: Table, nextFree: nat, n: seq<byte>)
    requires TableOk(t, nextFree)
    ensures Slot(t, n) < 64 <==> n in Names(t) || |Names(t)| < 64
  {
    NamesCounted(t, nextFree, 64);
    assert NamesUpTo(t, 64) == Names(t);
    NameFound(t, n);
  }

  // ---- Runs ----

  lemma ViewKeys(v: Volume)
    ensures View(v.d, v.t).Keys == Names(v.t)
    ensures |View(v.d, v.t)| == |Names(v.t)|
  {
    var m := View(v.d, v.t);
    assert m.Keys == Names(v.t);
    assert |m| == |m.Keys|;
  }

  /** One operation keeps the volume in order in memory, and on disk unless a write failed half-way. */
  lemma StepRefines(v: Volume, op: Op)
    requires VolumeOk(v.sb, v.t) && SafeOp(v, op)
    ensures VolumeOk(Step(v, op).sb, Step(v, op).t) && Abs(Step(v, op)) == AbsStep(Abs(v), op)
    ensures v.InOrder() && !op.Fail? ==> Step(v, op).InOrder()
    ensures op.Put? && Lands(Abs(v), op) ==> Step(v, op).InOrder()
  {
    hide OnDisk, View, TableOk, Slot, Names, DataSector, TableSector, SuperSector, Readable, MountedTable;
    var j := JobOf(v, op);
    ViewKeys(v);
    SlotIffRoom(v.t, v.sb.nextFree, op.name);
    var room := op.name in Abs(v).files || |Abs(v).files| < 64;
    assert j.Fits() == (ValidName(op.name) && room && v.sb.nextFree + Allocated(|op.data|) <= LBA28_LIMIT);
    match op
    case Put(_, _) => PutRefines(v, j);
    case Fail(_, _, k) =>
      if j.Reaches(k) {
        CutKeepsFiles(v.d, j, k);
      }
    case Crash(_, _, k) => CrashRefines(v, j, k);
  }

  lemma PutRefines(v: Volume, j: Job)
    requires VolumeOk(v.sb, v.t) && j.sb == v.sb && j.t == v.t
    ensures j.Fits() ==> VolumeOk(j.NewSuper(), j.NewTable()) && OnDisk(Apply(v.d, j.Plan()), j.NewSuper(), j.NewTable())
    ensures j.Fits() ==> View(Apply(v.d, j.Plan()), j.NewTable()) == View(v.d, v.t)[j.name := j.Delivered()]
    ensures j.Accepted() && !j.Fits() ==>
      var k := LBA28_LIMIT - v.sb.nextFree;
      && View(j.Cut(v.d, k), v.t) == View(v.d, v.t)
      && (v.InOrder() ==> OnDisk(j.Cut(v.d, k), v.sb, v.t))
  {
    hide OnDisk, View, TableOk, Slot, DataSector, TableSector, SuperSector;
    if j.Fits() {
      FinishedWrite(v.d, j);
    } else if j.Accepted() {
      var k := LBA28_LIMIT - v.sb.nextFree;
      CutKeepsFiles(v.d, j, k);
      if v.InOrder() {
        CutStaysInOrder(v, j, k);
      }
    }
  }

  lemma CrashRefines(v: Volume, j: Job, k: nat)
    requires v.InOrder() && j.sb == v.sb && j.t == v.t
    requires j.Fits() ==> k <= j.SwitchPoint() || k >= |j.Plan()|
    ensures Remount(v.d) == v
    ensures j.Accepted() && k <= |j.Plan()| ==>
      var k' := if j.Reaches(k) then k else LBA28_LIMIT - v.sb.nextFree;
      var r := Remount(j.Cut(v.d, k'));
      && r.InOrder() && r.sb.nextFree == (if k' == |j.Plan()| then v.sb.nextFree + j.Count() else v.sb.nextFree)
      && View(r.d, r.t) == if k' == |j.Plan()| then View(v.d, v.t)[j.name := j.Delivered()] else View(v.d, v.t)
  {
    hide OnDisk, View, TableOk, Slot, DataSector, TableSector, SuperSector, MountedTable;
    StoreLoadRoundTrip(v.d, v.sb, v.t);
    if j.Accepted() && k <= |j.Plan()| {
      var k' := if j.Reaches(k) then k else LBA28_LIMIT - v.sb.nextFree;
      CutTable(v.d, j, k');
      if k' == |j.Plan()| {
        FinishedWrite(v.d, j);
        assert j.Plan()[..|j.Plan()|] == j.Plan();
      } else {
        CutStaysInOrder(v, j, k');
      }
    }
  }

  lemma OtherSectorsSame(j: Job, s: nat)
    requires j.Accepted() && s != Slot(j.t, j.name) / 11
    ensures TableSector(j.NewTable(), s) == TableSector(j.t, s)
  {
    hide EncEntry;
    forall i: nat | i < 512
      ensures TableByte(j.NewTable(), s, i) == TableByte(j.t, s, i)
    {
      assert i < 495 ==> (11 * s + i / 45) / 11 == s;
    }
  }

  /** Before the switch nothing that is in use has changed. */
  lemma CutStaysInOrder(v: Volume, j: Job, k: nat)
    requires v.InOrder() && j.sb == v.sb && j.t == v.t && j.Accepted()
    requires k < |j.Plan()| && k <= j.SwitchPoint()
    requires k < j.Count() || j.Fits()
    ensures View(j.Cut(v.d, k), v.t) == View(v.d, v.t)
    ensures OnDisk(j.Cut(v.d, k), v.sb, v.t)
  {
    hide DataSector, SuperSector, TableSector, TableOk, Slot, View;
    j.CutSectors(v.d, k);
    forall lba | 1 <= lba < 9
      ensures At(j.Cut(v.d, k), lba) == TableSector(v.t, lba - 1)
    {
      if lba - 1 != Slot(v.t, j.name) / 11 {
        OtherSectorsSame(j, lba - 1);
      }
    }
    CutData(v.d, j, k);
    FrameView(v.d, j.Cut(v.d, k), v.t, v.sb.nextFree);
  }

  function Run(v: Volume, ops: seq<Op>): Volume
    requires VolumeOk(v.sb, v.t) && SafeRun(v, ops)
    ensures VolumeOk(Run(v, ops).sb, Run(v, ops).t)
    decreases |ops|
  {
    if ops == [] then v else (StepRefines(v, ops[0]); Run(Step(v, ops[0]), ops[1..]))
  }

  ghost predicate SafeRun(v: Volume, ops: seq<Op>)
    requires VolumeOk(v.sb, v.t)
    decreases |ops|
  {
    ops == [] ||
    (SafeOp(v, ops[0]) && (StepRefines(v, ops[0]); SafeRun(Step(v, ops[0]), ops[1..])))
  }

  function AbsRun(a: Abstract, ops: seq<Op>): Abstract
    decreases |ops|
  {
    if ops == [] then a else AbsRun(AbsStep(a, ops[0]), ops[1..])
  }

  /**
   * Every run of writes, failed writes, crashes and remounts shows exactly the map that the landed
   * writes build, as long as a crash finds the memory stored and does not fall between a directory
   * switch and its superblock write.
   */
  lemma {:induction false} RunRefinesMap(v: Volume, ops: seq<Op>)
    requires VolumeOk(v.sb, v.t) && SafeRun(v, ops)
    ensures Abs(Run(v, ops)) == AbsRun(Abs(v), ops)
    decreases |ops|
  {
    if ops != [] {
      StepRefines(v, ops[0]);
      RunRefinesMap(Step(v, ops[0]), ops[1..]);
    }
  }
}
