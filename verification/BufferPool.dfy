// buffer/buffer_pool.c: frames pinned by clients, written back when dirty, replaced least recently
// used first.
module BufferPool {
  import opened Storage

  const ULONG_MAX: nat := 0xFFFF_FFFF_FFFF_FFFF

  datatype Frame = Frame(valid: bool, at: Place, dirty: bool, pins: int, lastUsed: nat, page: Image)

  // The frames, the clock, and the disk behind them.  The number of frames is any.
  datatype Pool = Pool(frames: seq<Frame>, clock: nat, disk: Disk)

  // The transfers that do not go through, by frame.
  type Faults = map<nat, Transfer>

  function IoOf(faults: Faults, i: nat): Transfer {
    if i in faults then faults[i] else Whole
  }

  // What the clients of the pool do, with the transfers as the system makes them.  Write is a client
  // storing through the pointer it fetched.
  datatype Op =
    | Fetch(at: Place, write: Transfer, read: Transfer)
    | Write(at: Place, page: Image)
    | Unpin(at: Place, dirty: bool)
    | MarkDirty(at: Place)
    | FlushPage(at: Place, io: Transfer)
    | FlushAll(faults: Faults)
    | Invalidate(fd: int, faults: Faults)

  const Untouched := Frame(false, Place(0, 0), false, 0, 0, EmptyPage(0))

  function Init(size: nat, disk: Disk): Pool {
    Pool(seq(size, i => Untouched), 1, disk)
  }

  // ----- the helpers -----

  predicate Has(f: Frame, at: Place) {
    f.valid && f.at == at
  }

  // unsigned long: the clock wraps.
  function Tick(clock: nat): nat {
    if clock >= ULONG_MAX then 0 else clock + 1
  }

  // find_frame; |fs| for none.
  function Find(fs: seq<Frame>, at: Place): (i: nat)
    ensures i <= |fs| && (i < |fs| ==> Has(fs[i], at))
    ensures forall j :: 0 <= j < i ==> !Has(fs[j], at)
  {
    if fs == [] || Has(fs[0], at) then 0
    else
      var i := Find(fs[1..], at);
      assert forall j :: 1 <= j < i + 1 ==> fs[j] == fs[1..][j - 1];
      1 + i
  }

  function FirstFree(fs: seq<Frame>): (i: nat)
    ensures i <= |fs| && (i < |fs| ==> !fs[i].valid)
    ensures forall j :: 0 <= j < i ==> fs[j].valid
  {
    if fs == [] || !fs[0].valid then 0
    else
      var i := FirstFree(fs[1..]);
      assert forall j :: 1 <= j < i + 1 ==> fs[j] == fs[1..][j - 1];
      1 + i
  }

  // The unpinned frame used longest ago among the first n; -1 for none.
  function Oldest(fs: seq<Frame>, n: nat): (v: int)
    requires n <= |fs|
    ensures -1 <= v < n
    ensures v >= 0 ==> fs[v].pins == 0 && fs[v].lastUsed < ULONG_MAX
    ensures v >= 0 ==> forall j :: 0 <= j < n && fs[j].pins == 0 ==> fs[v].lastUsed <= fs[j].lastUsed
    ensures v == -1 ==> forall j :: 0 <= j < n && fs[j].pins == 0 ==> fs[j].lastUsed >= ULONG_MAX
  {
    if n == 0 then -1
    else
      var v := Oldest(fs, n - 1);
      if fs[n - 1].pins == 0 && fs[n - 1].lastUsed < (if v == -1 then ULONG_MAX else fs[v].lastUsed) then n - 1 else v
  }

  // choose_victim_lru.
  function Victim(fs: seq<Frame>): int {
    if FirstFree(fs) < |fs| then FirstFree(fs) else Oldest(fs, |fs|)
  }

  // ----- the operations: the pool afterwards, and what the call returns -----

  predicate FlushFails(f: Frame, io: Transfer) {
    f.valid && f.dirty && !io.Whole?
  }

  // flush_frame: a frame that could not be written whole stays dirty.
  function Flushed(p: Pool, i: nat, io: Transfer): Pool
    requires i < |p.frames|
  {
    var f := p.frames[i];
    if f.valid && f.dirty
    then p.(frames := p.frames[i := f.(dirty := !io.Whole?)], disk := Written(p.disk, f.at, f.page, io))
    else p
  }

  // A read that does not go through, into frame v.
  function Spoilt(p: Pool, v: nat, at: Place, io: Transfer): Pool
    requires v < |p.frames|
  {
    p.(frames := p.frames[v := p.frames[v].(page := Arrived(io, OnDisk(p.disk, at), p.frames[v].page))])
  }

  function Loaded(p: Pool, v: nat, at: Place): Pool
    requires v < |p.frames|
  {
    Pool(p.frames[v := Frame(true, at, false, 1, p.clock, OnDisk(p.disk, at))], Tick(p.clock), p.disk)
  }

  function Used(p: Pool, i: nat, f: Frame): Pool
    requires i < |p.frames|
  {
    Pool(p.frames[i := f.(lastUsed := p.clock)], Tick(p.clock), p.disk)
  }

  // The index of the frame whose page the caller gets, or -1 for NULL.
  function DoFetch(p: Pool, at: Place, write: Transfer, read: Transfer): (Pool, int) {
    var i := Find(p.frames, at);
    if i < |p.frames| then (Used(p, i, p.frames[i].(pins := p.frames[i].pins + 1)), i)
    else
      var v := Victim(p.frames);
      if v == -1 then (p, -1)
      else
        var q := Flushed(p, v, write);
        if FlushFails(p.frames[v], write) then (q, -1)
        else if !read.Whole? then (Spoilt(q, v, at, read), -1)
        else (Loaded(q, v, at), v)
  }

  function DoUnpin(p: Pool, at: Place, dirty: bool): (Pool, int) {
    var i := Find(p.frames, at);
    if i == |p.frames| || p.frames[i].pins <= 0 then (p, -1)
    else (Used(p, i, p.frames[i].(pins := p.frames[i].pins - 1, dirty := p.frames[i].dirty || dirty)), 0)
  }

  function DoMarkDirty(p: Pool, at: Place): (Pool, int) {
    var i := Find(p.frames, at);
    if i == |p.frames| then (p, -1) else (Used(p, i, p.frames[i].(dirty := true)), 0)
  }

  function DoFlushPage(p: Pool, at: Place, io: Transfer): (Pool, int) {
    var i := Find(p.frames, at);
    if i == |p.frames| then (p, 0) else (Flushed(p, i, io), if FlushFails(p.frames[i], io) then -1 else 0)
  }

  // buffer_flush_all from frame i on; it stops at the first failure.
  function FlushFrom(p: Pool, i: nat, faults: Faults): (Pool, int)
    requires i <= |p.frames|
    decreases |p.frames| - i
  {
    if i == |p.frames| then (p, 0)
    else
      var q := Flushed(p, i, IoOf(faults, i));
      if FlushFails(p.frames[i], IoOf(faults, i)) then (q, -1) else FlushFrom(q, i + 1, faults)
  }

  const Dropped := Place(-1, -1)

  // One turn of buffer_invalidate_fd, which ignores a faults write.
  function Drop(p: Pool, i: nat, fd: int, faults: Faults): Pool
    requires i < |p.frames|
  {
    var f := p.frames[i];
    if !(f.valid && f.at.fd == fd) then p
    else Pool(p.frames[i := f.(valid := false, dirty := false, pins := 0, at := Dropped)], p.clock,
              if f.dirty then Written(p.disk, f.at, f.page, IoOf(faults, i)) else p.disk)
  }

  function DropBelow(p: Pool, n: nat, fd: int, faults: Faults): (q: Pool)
    requires n <= |p.frames|
    ensures |q.frames| == |p.frames|
  {
    if n == 0 then p else Drop(DropBelow(p, n - 1, fd, faults), n - 1, fd, faults)
  }

  function DoWrite(p: Pool, at: Place, page: Image): Pool {
    var i := Find(p.frames, at);
    if i == |p.frames| then p else p.(frames := p.frames[i := p.frames[i].(page := page)])
  }

  function Step(p: Pool, op: Op): (Pool, int) {
    match op
    case Fetch(at, write, read) => DoFetch(p, at, write, read)
    case Write(at, page) => (DoWrite(p, at, page), 0)
    case Unpin(at, dirty) => DoUnpin(p, at, dirty)
    case MarkDirty(at) => DoMarkDirty(p, at)
    case FlushPage(at, io) => DoFlushPage(p, at, io)
    case FlushAll(faults) => FlushFrom(p, 0, faults)
    case Invalidate(fd, faults) => (DropBelow(p, |p.frames|, fd, faults), 0)
  }

  // ----- the code -----

  class Buffer {
    const frames: array<Frame>
    var clock: nat
    const files: Files

    ghost function State(): Pool
      reads this, frames, files
    {
      Pool(frames[..], clock, files.pages)
    }

    // buffer_init.
    constructor (size: nat, files: Files)
      ensures fresh(frames) && this.files == files
      ensures State() == Init(size, files.pages)
    {
      var empty := new Frame[size](i => Untouched);
      frames, clock, this.files := empty, 1, files;
      new;
      assert frames[..] == Init(size, files.pages).frames;
    }

    method FindFrame(at: Place) returns (i: int)
      ensures i == if Find(frames[..], at) < frames.Length then Find(frames[..], at) else -1
    {
      for k := 0 to frames.Length
        invariant forall j :: 0 <= j < k ==> !Has(frames[j], at)
      {
        if frames[k].valid && frames[k].at == at { return k; }
      }
      return -1;
    }

    method ChooseVictim() returns (victim: int)
      ensures victim == Victim(frames[..])
    {
      for i := 0 to frames.Length
        invariant forall j :: 0 <= j < i ==> frames[j].valid
      {
        if !frames[i].valid { return i; }
      }
      var oldest := ULONG_MAX;
      victim := -1;
      for i := 0 to frames.Length
        invariant victim == Oldest(frames[..], i)
        invariant oldest == if victim == -1 then ULONG_MAX else frames[victim].lastUsed
      {
        if frames[i].pins == 0 && frames[i].lastUsed < oldest {
          oldest := frames[i].lastUsed;
          victim := i;
        }
      }
    }

    method FlushFrame(i: nat, io: Transfer) returns (rc: int)
      requires i < frames.Length
      modifies frames, files
      ensures rc == if FlushFails(old(frames[i]), io) then -1 else 0
      ensures State() == Flushed(old(State()), i, io)
    {
      if !frames[i].valid { return 0; }
      if frames[i].dirty {
        var w := files.WritePage(frames[i].at, frames[i].page, io);
        if w != 0 {
          assert frames[..][i := frames[i]] == frames[..];
          return -1;
        }
        frames[i] := frames[i].(dirty := false);
      }
      return 0;
    }

    method TakeTime() returns (now: nat)
      modifies this`clock
      ensures now == old(clock) && clock == Tick(now)
    {
      now := clock;
      clock := if clock >= ULONG_MAX then 0 else clock + 1;
    }

    // buffer_fetch_page.
    method FetchPage(at: Place, write: Transfer, read: Transfer) returns (frame: int)
      modifies this`clock, frames, files
      ensures (State(), frame) == DoFetch(old(State()), at, write, read)
    {
      frame := FindFrame(at);
      if frame != -1 {
        var now := TakeTime();
        frames[frame] := frames[frame].(pins := frames[frame].pins + 1, lastUsed := now);
        return;
      }
      var victim := ChooseVictim();
      if victim == -1 { return -1; }
      var w := FlushFrame(victim, write);
      if w != 0 { return -1; }
      var r, image := files.ReadPage(at, read, frames[victim].page);
      if r != 0 {
        frames[victim] := frames[victim].(page := image);
        return -1;
      }
      var now := TakeTime();
      frames[victim] := Frame(true, at, false, 1, now, image);
      return victim;
    }

    // buffer_unpin_page.
    method UnpinPage(at: Place, dirty: bool) returns (rc: int)
      modifies this`clock, frames
      ensures (State(), rc) == DoUnpin(old(State()), at, dirty)
    {
      var i := FindFrame(at);
      if i == -1 { return -1; }
      if frames[i].pins <= 0 { return -1; }
      frames[i] := frames[i].(pins := frames[i].pins - 1);
      if dirty { frames[i] := frames[i].(dirty := true); }
      var now := TakeTime();
      frames[i] := frames[i].(lastUsed := now);
      assert frames[..] == DoUnpin(old(State()), at, dirty).0.frames;
      return 0;
    }

    // buffer_mark_dirty.
    method MarkPageDirty(at: Place) returns (rc: int)
      modifies this`clock, frames
      ensures (State(), rc) == DoMarkDirty(old(State()), at)
    {
      var i := FindFrame(at);
      if i == -1 { return -1; }
      var now := TakeTime();
      frames[i] := frames[i].(dirty := true, lastUsed := now);
      return 0;
    }

    // buffer_flush_page.
    method FlushOne(at: Place, io: Transfer) returns (rc: int)
      modifies frames, files
      ensures (State(), rc) == DoFlushPage(old(State()), at, io)
    {
      var i := FindFrame(at);
      if i == -1 { return 0; }
      rc := FlushFrame(i, io);
    }

    // buffer_flush_all.
    method FlushEvery(faults: Faults) returns (rc: int)
      modifies frames, files
      ensures (State(), rc) == FlushFrom(old(State()), 0, faults)
    {
      for i := 0 to frames.Length
        invariant FlushFrom(State(), i, faults) == FlushFrom(old(State()), 0, faults)
      {
        if frames[i].valid {
          var w := FlushFrame(i, IoOf(faults, i));
          if w != 0 { return -1; }
        }
      }
      return 0;
    }

    // buffer_invalidate_fd.
    method InvalidateFile(fd: int, faults: Faults) returns (rc: int)
      modifies frames, files
      ensures State() == DropBelow(old(State()), frames.Length, fd, faults) && rc == 0
    {
      for i := 0 to frames.Length
        invariant State() == DropBelow(old(State()), i, fd, faults)
      {
        if frames[i].valid && frames[i].at.fd == fd {
          if frames[i].dirty {
            var _ := files.WritePage(frames[i].at, frames[i].page, IoOf(faults, i));
          }
          frames[i] := frames[i].(valid := false, dirty := false, pins := 0, at := Dropped);
        }
      }
      return 0;
    }

    // A client writes through the page pointer it got.
    method StorePage(frame: nat, page: Image)
      requires frame < frames.Length && Find(frames[..], frames[frame].at) == frame
      modifies frames
      ensures State() == DoWrite(old(State()), old(frames[frame]).at, page)
    {
      frames[frame] := frames[frame].(page := page);
    }
  }
}
