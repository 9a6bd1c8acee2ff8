/** Writes that fail half-way: what a crash and a mount show while the disk is behind the memory. */
module SfsFailures {
  import opened Bytes
  import opened BlockDevice
  import opened SfsLayout
  import opened SfsVolume
  import opened SfsRuns

  type Files = map<seq<byte>, seq<byte>>

  /** A table that memory held before `t`: in order, and with no slot that has changed its name since. */
  ghost predicate Past(p: Table, t: Table, nextFree: nat) {
    && TableOk(p, nextFree)
    && forall i :: 0 <= i < 64 && p[i].used != 0 ==> t[i].used != 0 && CStr(t[i].name) == CStr(p[i].name)
  }

  /** For each sector of the table on the disk, which of the past tables it was written from. */
  type Ages = a: seq<nat> | |a| == 8 witness seq(8, _ => 0)

  function Fresh(): Ages { seq(8, _ => 0) }

  /** Entry `i` on the disk is that of the table its sector was written from. */
  ghost predicate FromPast(d: Blocks, past: seq<Table>, ages: Ages, i: nat)
    requires i < 64
  {
    ages[i / 11] < |past| && EntryAt(d, 1, i) == past[ages[i / 11]][i]
  }

  /** Every entry on the disk is one that memory held since the disk was last whole. */
  ghost predicate Behind(v: Volume, past: seq<Table>, ages: Ages) {
    && VolumeOk(v.sb, v.t) && past != [] && past[|past| - 1] == v.t
    && (forall m :: 0 <= m < |past| ==> Past(past[m], v.t, v.sb.nextFree))
    && (forall i: nat :: i < 64 ==> FromPast(v.d, past, ages, i))
  }

  predicate SameFile(a: Files, b: Files, n: seq<byte>) {
    if n in a then n in b && a[n] == b[n] else n !in b
  }

  // ---- A mount of a disk that is behind ----

  lemma HeldOnce(t: Table, nextFree: nat, n: seq<byte>, i: nat, j: nat)
    requires TableOk(t, nextFree) && i < 64 && j < 64 && Holds(t[i], n) && Holds(t[j], n)
    ensures i == j
  {
    assert i < j ==> Apart(t[i], t[j]);
    assert j < i ==> Apart(t[j], t[i]);
  }

  /** A table whose used slots carry the names of `t` finds a name in the slot of `t` or not at all. */
  lemma FoundInSlot(p: Table, t: Table, nextFree: nat, n: seq<byte>)
    requires TableOk(t, nextFree) && forall j :: 0 <= j < 64 && Holds(p[j], n) ==> Holds(t[j], n)
    ensures Find(p, n) == if Find(t, n) < 64 && Holds(p[Find(t, n)], n) then Find(t, n) else 64
  {
    hide TableOk, CStr;
    var i := Find(t, n);
    forall j | 0 <= j < 64 && Holds(p[j], n)
      ensures j == i
    {
      HeldOnce(t, nextFree, n, i, j);
    }
  }

  lemma MountedHolds(v: Volume, past: seq<Table>, ages: Ages, n: seq<byte>)
    requires Behind(v, past, ages)
    ensures forall j :: 0 <= j < 64 && Holds(MountedTable(v.d)[j], n) ==> Holds(v.t[j], n)
  {
    hide EntryAt, CStr, TableOk;
    forall j: nat | j < 64
      ensures Holds(MountedTable(v.d)[j], n) ==> Holds(v.t[j], n)
    {
      assert FromPast(v.d, past, ages, j);
    }
  }

  /** A mount shows the file of slot `i` as the table has it that the slot's sector was written from. */
  lemma EachFileFromPast(v: Volume, past: seq<Table>, ages: Ages, n: seq<byte>)
    requires Behind(v, past, ages)
    ensures Find(v.t, n) == 64 ==> n !in MountedView(v.d)
    ensures var i := Find(v.t, n);
      i < 64 ==> ages[i / 11] < |past| && SameFile(View(v.d, past[ages[i / 11]]), MountedView(v.d), n)
  {
    hide EntryAt, Stored, CStr, TableOk;
    var mt, i := MountedTable(v.d), Find(v.t, n);
    MountedHolds(v, past, ages, n);
    FoundInSlot(mt, v.t, v.sb.nextFree, n);
    NameFound(mt, n);
    NameFound(v.t, n);
    if i < 64 {
      assert FromPast(v.d, past, ages, i);
      var m := ages[i / 11];
      assert mt[i] == past[m][i];
      FoundInSlot(past[m], v.t, v.sb.nextFree, n);
      NameFound(past[m], n);
    }
  }

  // ---- One more write ----

  /** Entry `i` of a disk that `k` writes of a job reached is the old one or that of the new table. */
  lemma CutEntryFrom(d: Blocks, j: Job, k: nat, i: nat)
    requires j.Accepted() && 9 <= j.Start() && k <= |j.Plan()| && i < 64
    ensures EntryAt(j.Cut(d, k), 1, i) ==
      if j.Count() + 1 + i / 11 <= k then j.NewTable()[i] else EntryAt(d, 1, i)
  {
    hide TableSector, DataSector, SuperSector, EncEntry, DecEntry;
    var d', lba := j.Cut(d, k), 1 + i / 11;
    j.CutSectors(d, k);
    assert At(d', lba) == j.SectorAfter(d, k, lba);
    if j.Count() + lba <= k {
      EntryInSector(d', 1, j.NewTable(), i);
    }
  }

  lemma PastGrows(p: Table, t: Table, nextFree: nat, more: nat)
    requires Past(p, t, nextFree) && nextFree <= more
    ensures Past(p, t, more)
  {
    hide Apart, CStr;
    forall i | 0 <= i < 64
      ensures EntryOk(p[i], more)
    {
      assert EntryOk(p[i], nextFree);
    }
  }

  lemma PastOfNew(p: Table, j: Job)
    requires Past(p, j.t, j.sb.nextFree) && VolumeOk(j.sb, j.t) && j.Fits()
    ensures Past(p, j.NewTable(), j.NewSuper().nextFree)
  {
    PastGrows(p, j.t, j.sb.nextFree, j.NewSuper().nextFree);
    var s, t' := Slot(j.t, j.name), j.NewTable();
    forall i | 0 <= i < 64 && p[i].used != 0
      ensures t'[i].used != 0 && CStr(t'[i].name) == CStr(p[i].name)
    {
      assert j.t[i].used != 0;
    }
  }

  /** The tables after a write: a new one once its data is out. */
  function PastAfter(past: seq<Table>, j: Job, k: nat): seq<Table> {
    if j.Reaches(k) && j.Count() <= k then past + [j.NewTable()] else past
  }

  /** A write of `count` data sectors that stops after `k` writes has written the first sectors of the table. */
  function AgesAfter(ages: Ages, count: nat, k: nat, now: nat): Ages {
    seq(8, s requires 0 <= s < 8 => if count + 1 + s <= k then now else ages[s])
  }

  /** A failed write leaves the disk behind the memory, with the contents of all past tables intact. */
  lemma FailStaysBehind(v: Volume, past: seq<Table>, ages: Ages, op: Op)
    requires Behind(v, past, ages) && op.Fail?
    ensures var j, v' := JobOf(v, op), Step(v, op);
      var ages' := if j.Reaches(op.k) then AgesAfter(ages, j.Count(), op.k, |past|) else ages;
      VolumeOk(v'.sb, v'.t) && Behind(v', PastAfter(past, j, op.k), ages')
    ensures forall m :: 0 <= m < |past| ==> View(Step(v, op).d, past[m]) == View(v.d, past[m])
  {
    hide EntryAt, View, TableOk, DataSector, TableSector, SuperSector, CStr;
    var j, k := JobOf(v, op), op.k;
    StepOfFail(v, j, k);
    if j.Reaches(k) {
      var v', past' := Step(v, op), PastAfter(past, j, k);
      var ages' := AgesAfter(ages, j.Count(), k, |past|);
      CutData(v.d, j, k);
      CutKeepsFiles(v.d, j, k);
      forall m | 0 <= m < |past|
        ensures Past(past'[m], v'.t, v'.sb.nextFree) && View(v'.d, past[m]) == View(v.d, past[m])
      {
        FrameView(v.d, v'.d, past[m], v.sb.nextFree);
        if k >= j.Count() {
          PastOfNew(past[m], j);
        }
      }
      forall i: nat | i < 64
        ensures FromPast(v'.d, past', ages', i)
      {
        CutEntryFrom(v.d, j, k, i);
        assert FromPast(v.d, past, ages, i);
        assert past'[ages[i / 11]] == past[ages[i / 11]];
        assert k >= j.Count() ==> past'[|past|] == j.NewTable();
      }
    }
  }

  /** A volume that is stored is behind by nothing. */
  lemma StoredIsBehind(v: Volume)
    requires v.InOrder()
    ensures Behind(v, [v.t], Fresh())
  {
    hide EntryAt, TableOk, OnDisk, CStr;
    StoreLoadRoundTrip(v.d, v.sb, v.t);
    forall i: nat | i < 64
      ensures FromPast(v.d, [v.t], Fresh(), i)
    {
      assert MountedTable(v.d)[i] == EntryAt(v.d, 1, i);
      assert [v.t][0] == v.t;
    }
  }

  /** A write that stops at the last LBA leaves the same disk as one that fails there. */
  lemma FullIsFail(v: Volume, op: Op)
    requires VolumeOk(v.sb, v.t) && op.Put? && !Lands(Abs(v), op)
    ensures var f := Fail(op.name, op.data, LBA28_LIMIT - v.sb.nextFree);
      Step(v, op) == Step(v, f) && !Lands(Abs(v), f)
  {
    hide View, TableOk, Slot, Names, DataSector, TableSector, SuperSector, Readable;
    var j := JobOf(v, op);
    ViewKeys(v);
    SlotIffRoom(v.t, v.sb.nextFree, op.name);
    StepOfPut(v, j);
    StepOfFail(v, j, LBA28_LIMIT - v.sb.nextFree);
  }

  // ---- Runs ----

  /** The maps since the last finished write, the current one last, and which of them each sector of the table is from. */
  datatype History = History(maps: seq<Files>, ages: Ages)

  function Add(a: Abstract, h: History, op: Op): History {
    var files := AbsStep(a, op).files;
    if !Lands(a, op) then h
    else if op.Fail? then History(h.maps + [files], AgesAfter(h.ages, Allocated(|op.data|), op.k, |h.maps|))
    else History([files], Fresh())
  }

  function AddAll(a: Abstract, h: History, ops: seq<Op>): History
    decreases |ops|
  {
    if ops == [] then h else AddAll(AbsStep(a, ops[0]), Add(a, h, ops[0]), ops[1..])
  }

  ghost predicate Shows(d: Blocks, past: seq<Table>, maps: seq<Files>) {
    |maps| == |past| && forall m :: 0 <= m < |past| ==> View(d, past[m]) == maps[m]
  }

  predicate NoCrash(ops: seq<Op>) {
    forall op :: op in ops ==> !op.Crash?
  }

  lemma LandsIsReached(v: Volume, op: Op)
    requires VolumeOk(v.sb, v.t) && op.Fail?
    ensures Lands(Abs(v), op) <==> JobOf(v, op).Reaches(op.k) && JobOf(v, op).Count() <= op.k
  {
    hide View, TableOk, Slot, Names, Readable;
    ViewKeys(v);
    SlotIffRoom(v.t, v.sb.nextFree, op.name);
  }

  lemma FailShows(v: Volume, past: seq<Table>, h: History, op: Op)
    requires Behind(v, past, h.ages) && Shows(v.d, past, h.maps) && op.Fail?
    ensures var v', past', h' := Step(v, op), PastAfter(past, JobOf(v, op), op.k), Add(Abs(v), h, op);
      Behind(v', past', h'.ages) && Shows(v'.d, past', h'.maps)
  {
    hide Behind, Lands, AbsStep, View, Step, AgesAfter;
    BehindIsOk(v, past, h.ages);
    LandsIsReached(v, op);
    FailStaysBehind(v, past, h.ages, op);
    StepRefines(v, op);
    var j := JobOf(v, op);
    if j.Reaches(op.k) {
      if op.k < j.Count() {
        NoneWritten(h.ages, j.Count(), op.k, |past|);
      } else {
        LastIsCurrent(Step(v, op), PastAfter(past, j, op.k), AgesAfter(h.ages, j.Count(), op.k, |past|));
      }
    }
  }

  lemma NoneWritten(ages: Ages, count: nat, k: nat, now: nat)
    requires k <= count
    ensures AgesAfter(ages, count, k, now) == ages
  {
  }

  lemma BehindIsOk(v: Volume, past: seq<Table>, ages: Ages)
    requires Behind(v, past, ages)
    ensures VolumeOk(v.sb, v.t) && v.sb.nextFree <= LBA28_LIMIT
  {
  }

  lemma LastIsCurrent(v: Volume, past: seq<Table>, ages: Ages)
    requires Behind(v, past, ages)
    ensures past != [] && past[|past| - 1] == v.t
  {
  }

  lemma {:induction false} RunShows(v: Volume, past: seq<Table>, h: History, ops: seq<Op>) returns (end: seq<Table>)
    requires Behind(v, past, h.ages) && Shows(v.d, past, h.maps) && NoCrash(ops)
    ensures VolumeOk(v.sb, v.t) && SafeRun(v, ops)
    ensures var r, h' := Run(v, ops), AddAll(Abs(v), h, ops); Behind(r, end, h'.ages) && Shows(r.d, end, h'.maps)
    decreases |ops|
  {
    hide Behind, Shows, Lands, AbsStep, View, Step, VolumeOk, OnDisk, Add;
    BehindIsOk(v, past, h.ages);
    if ops == [] {
      end := past;
    } else {
      var op := ops[0];
      assert op in ops;
      StepRefines(v, op);
      var past' := past;
      if op.Fail? {
        FailShows(v, past, h, op);
        past' := PastAfter(past, JobOf(v, op), op.k);
      } else if Lands(Abs(v), op) {
        past' := [Step(v, op).t];
        PutShows(v, h, op);
      } else {
        past' := FullShows(v, past, h, op);
      }
      end := RunShows(Step(v, op), past', Add(Abs(v), h, op), ops[1..]);
    }
  }

  /** A write that does not land leaves what was shown. */
  lemma FullShows(v: Volume, past: seq<Table>, h: History, op: Op) returns (past': seq<Table>)
    requires Behind(v, past, h.ages) && Shows(v.d, past, h.maps) && VolumeOk(v.sb, v.t) && op.Put? && !Lands(Abs(v), op)
    ensures var h' := Add(Abs(v), h, op); Behind(Step(v, op), past', h'.ages) && Shows(Step(v, op).d, past', h'.maps)
  {
    hide Behind, Shows, Lands, AbsStep, View, Step;
    BehindIsOk(v, past, h.ages);
    var f := Fail(op.name, op.data, LBA28_LIMIT - v.sb.nextFree);
    FullIsFail(v, op);
    FailShows(v, past, h, f);
    past' := PastAfter(past, JobOf(v, f), f.k);
  }

  lemma PutShows(v: Volume, h: History, op: Op)
    requires VolumeOk(v.sb, v.t) && op.Put? && Lands(Abs(v), op)
    ensures Behind(Step(v, op), [Step(v, op).t], Add(Abs(v), h, op).ages)
    ensures Shows(Step(v, op).d, [Step(v, op).t], Add(Abs(v), h, op).maps)
  {
    hide Behind, Lands, AbsStep, View, Step;
    StepRefines(v, op);
    StoredIsBehind(Step(v, op));
  }

  /**
   * However many writes failed since the last finished one, and wherever, a mount of the disk they
   * leave shows every file as it was after the last of them that wrote the sector of the table which
   * holds the file's slot, or after the last finished one; a name without a slot is not shown.
   */
  lemma CrashAfterFailures(v: Volume, ops: seq<Op>, n: seq<byte>)
    requires v.InOrder() && NoCrash(ops)
    ensures SafeRun(v, ops)
    ensures var r, h := Run(v, ops), AddAll(Abs(v), History([View(v.d, v.t)], Fresh()), ops);
      var i := Find(r.t, n);
      && (i == 64 ==> n !in MountedView(r.d))
      && (i < 64 ==> h.ages[i / 11] < |h.maps| && SameFile(h.maps[h.ages[i / 11]], MountedView(r.d), n))
  {
    hide Behind, View, MountedView, Run, SafeRun, AddAll, OnDisk;
    StoredIsBehind(v);
    var h := History([View(v.d, v.t)], Fresh());
    var past := RunShows(v, [v.t], h, ops);
    EachFileFromPast(Run(v, ops), past, AddAll(Abs(v), h, ops).ages, n);
  }
}
