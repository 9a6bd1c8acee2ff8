/** The disk behind the storage code: numbered 512-byte sectors, each command moving one sector whole. */
module BlockDevice {
  import opened Bytes

  const LBA28_LIMIT: nat := 0x1000_0000

  type Sector = s: seq<byte> | |s| == 512 witness Zeros(512)
  type Blocks = map<nat, Sector>

  datatype Write = Write(lba: nat, data: Sector)

  function At(d: Blocks, lba: nat): Sector {
    if lba in d then d[lba] else Zeros(512)
  }

  /** The disk after the writes `ws`, in order. */
  function Apply(d: Blocks, ws: seq<Write>): Blocks {
    if ws == [] then d
    else
      var last := ws[|ws| - 1];
      Apply(d, ws[..|ws| - 1])[last.lba := last.data]
  }

  lemma ApplyOne(d: Blocks, lba: nat, data: Sector)
    ensures Apply(d, [Write(lba, data)]) == d[lba := data]
  {
    assert [Write(lba, data)][..0] == [];
  }

  lemma ApplyNext(d: Blocks, ws: seq<Write>, k: nat)
    requires k < |ws|
    ensures Apply(d, ws[..k + 1]) == Apply(d, ws[..k])[ws[k].lba := ws[k].data]
  {
    assert ws[..k + 1][..k] == ws[..k];
  }

  lemma {:induction false} ApplyConcat(d: Blocks, a: seq<Write>, b: seq<Write>)
    ensures Apply(d, a + b) == Apply(Apply(d, a), b)
  {
    if b == [] {
      assert a + b == a;
    } else {
      var b' := b[..|b| - 1];
      assert (a + b)[..|a + b| - 1] == a + b';
      ApplyConcat(d, a, b');
    }
  }

  /** A sector no write names is untouched. */
  lemma {:induction false} ApplyFrame(d: Blocks, ws: seq<Write>, lba: nat)
    requires forall w :: w in ws ==> w.lba != lba
    ensures At(Apply(d, ws), lba) == At(d, lba)
  {
    if ws != [] {
      var ws' := ws[..|ws| - 1];
      assert ws[|ws| - 1] in ws;
      assert forall w :: w in ws' ==> w in ws;
      ApplyFrame(d, ws', lba);
    }
  }

  /** Writes to distinct sectors all survive. */
  lemma {:induction false} ApplyHit(d: Blocks, ws: seq<Write>, i: nat)
    requires i < |ws|
    requires forall j :: i < j < |ws| ==> ws[j].lba != ws[i].lba
    ensures At(Apply(d, ws), ws[i].lba) == ws[i].data
  {
    if i < |ws| - 1 {
      ApplyHit(d, ws[..|ws| - 1], i);
    }
  }

  /** A read that is refused: the sector cannot be addressed, or the drive fails it and its log says so. */
  predicate Refused(before: seq<nat>, after: seq<nat>, lba: nat) {
    if lba >= LBA28_LIMIT then after == before else after == before + [lba]
  }

  /**
   * The ATA drive. `reliable` says whether it completes every command; when it does not, any
   * command may fail, and a failed write leaves the disk as it was. `refusals` is the log of the
   * reads that failed.
   */
  class Device {
    const reliable: bool
    var blocks: Blocks
    ghost var refusals: seq<nat>

    constructor (blocks: Blocks, reliable: bool)
      ensures this.blocks == blocks && this.reliable == reliable && refusals == []
    {
      this.blocks := blocks;
      this.reliable := reliable;
      refusals := [];
    }

    method ReadSector(lba: u32, buf: array<byte>) returns (ok: bool)
      requires buf.Length == 512
      modifies buf, this`refusals
      ensures ok ==> lba < LBA28_LIMIT && buf[..] == At(blocks, lba) && refusals == old(refusals)
      ensures !ok ==> Refused(old(refusals), refusals, lba)
      ensures reliable ==> refusals == old(refusals) && (lba < LBA28_LIMIT ==> ok)
    {
      if lba >= LBA28_LIMIT {
        return false;
      }
      ok := *;
      ok := ok || reliable;
      if ok {
        var s := At(blocks, lba);
        for i := 0 to 512
          invariant buf[..i] == s[..i]
          invariant refusals == old(refusals)
        {
          buf[i] := s[i];
        }
      } else {
        refusals := refusals + [lba];
      }
    }

    method WriteSector(lba: u32, buf: array<byte>) returns (ok: bool)
      requires buf.Length == 512
      modifies this`blocks
      ensures ok ==> lba < LBA28_LIMIT && blocks == old(blocks)[lba := buf[..]]
      ensures !ok ==> blocks == old(blocks)
      ensures reliable && lba < LBA28_LIMIT ==> ok
    {
      if lba >= LBA28_LIMIT {
        return false;
      }
      ok := *;
      ok := ok || reliable;
      if ok {
        blocks := blocks[lba := buf[..]];
      }
    }
  }
}
