// Over every run the buffer pool is invisible to its clients except through failures, and a pinned
// page stays where it is.
module BufferProperties {
  import opened Storage
  import opened BufferPool

  // No two valid frames hold the same page.
  ghost predicate Distinct(fs: seq<Frame>) {
    forall i, j :: 0 <= i < j < |fs| && fs[i].valid && fs[j].valid ==> fs[i].at != fs[j].at
  }

  // What the pool keeps by itself, whatever its clients do.
  ghost predicate Sane(fs: seq<Frame>) {
    Distinct(fs) && forall i :: 0 <= i < |fs| && fs[i].valid ==> fs[i].pins >= 0
  }

  // The page a client would get: its frame if resident, the disk otherwise.
  function Content(p: Pool, at: Place): Image {
    var i := Find(p.frames, at);
    if i < |p.frames| then p.frames[i].page else OnDisk(p.disk, at)
  }

  function PinsAt(p: Pool, at: Place): int {
    var i := Find(p.frames, at);
    if i < |p.frames| then p.frames[i].pins else 0
  }

  lemma FindOnly(fs: seq<Frame>, i: nat)
    requires Distinct(fs) && i < |fs| && fs[i].valid
    ensures Find(fs, fs[i].at) == i
  {
  }

  // Replacing a frame by one for the same page moves nothing.
  lemma FindSame(fs: seq<Frame>, i: nat, f: Frame, at: Place)
    requires Distinct(fs) && i < |fs| && fs[i].valid == f.valid && fs[i].at == f.at
    ensures Distinct(fs[i := f]) && Find(fs[i := f], at) == Find(fs, at)
  {
    var gs := fs[i := f];
    assert forall k :: 0 <= k < |fs| ==> fs[k].valid == gs[k].valid && fs[k].at == gs[k].at;
    assert forall k :: 0 <= k < |fs| ==> Has(gs[k], at) == Has(fs[k], at);
  }

  // ----- where pages are, and how often pinned -----

  // Every page is in the frame it was in, with its pins.
  ghost predicate SamePlaces(fs: seq<Frame>, gs: seq<Frame>, at: Place) {
    && |gs| == |fs| && Find(gs, at) == Find(fs, at)
    && (Find(fs, at) < |fs| ==> gs[Find(fs, at)].pins == fs[Find(fs, at)].pins)
  }

  lemma FlushedPlaces(p: Pool, i: nat, io: Transfer, at: Place)
    requires Sane(p.frames) && i < |p.frames|
    ensures Sane(Flushed(p, i, io).frames) && SamePlaces(p.frames, Flushed(p, i, io).frames, at)
  {
    FindSame(p.frames, i, p.frames[i].(dirty := !io.Whole?), at);
  }

  lemma SpoiltPlaces(p: Pool, v: nat, from: Place, io: Transfer, at: Place)
    requires Sane(p.frames) && v < |p.frames|
    ensures Sane(Spoilt(p, v, from, io).frames) && SamePlaces(p.frames, Spoilt(p, v, from, io).frames, at)
  {
    FindSame(p.frames, v, Spoilt(p, v, from, io).frames[v], at);
  }

  lemma UsedPlaces(p: Pool, i: nat, f: Frame, at: Place)
    requires Sane(p.frames) && i < |p.frames| && p.frames[i].valid && f.valid && f.at == p.frames[i].at && f.pins >= 0
    ensures var q := Used(p, i, f);
      && Sane(q.frames) && Find(q.frames, at) == Find(p.frames, at)
      && PinsAt(q, at) == if at == f.at then f.pins else PinsAt(p, at)
  {
    FindSame(p.frames, i, f.(lastUsed := p.clock), at);
    FindOnly(p.frames, i);
  }

  // A free or unpinned frame may take another page.
  lemma LoadedPlaces(p: Pool, v: nat, at: Place, other: Place)
    requires Sane(p.frames) && v < |p.frames| && Find(p.frames, at) == |p.frames|
    requires p.frames[v].valid ==> p.frames[v].pins == 0
    ensures var q := Loaded(p, v, at);
      && Sane(q.frames) && Find(q.frames, at) == v && PinsAt(q, at) == 1 && PinsAt(p, at) == 0
      && (other != at ==> PinsAt(q, other) == PinsAt(p, other))
      && (PinsAt(p, other) > 0 ==> Find(q.frames, other) == Find(p.frames, other))
  {
    var q := Loaded(p, v, at);
    assert Distinct(q.frames);
    FindOnly(q.frames, v);
    var i := Find(p.frames, other);
    if i < |p.frames| && i != v { assert q.frames[i] == p.frames[i]; FindOnly(q.frames, i); }
    var j := Find(q.frames, other);
    if j < |q.frames| && j != v { assert q.frames[j] == p.frames[j]; FindOnly(p.frames, j); }
  }

  lemma VictimIsFree(p: Pool, v: int)
    requires v == Victim(p.frames) && v != -1
    ensures 0 <= v < |p.frames| && (p.frames[v].valid ==> p.frames[v].pins == 0)
  {
  }

  // What a fetch that found frame r, or none, leaves behind, seen from any page.
  ghost predicate FetchPlaces(p: Pool, at: Place, q: Pool, r: int, other: Place) {
    && Sane(q.frames)
    && PinsAt(q, other) == PinsAt(p, other) + (if r != -1 && other == at then 1 else 0)
    && (PinsAt(p, other) > 0 ==> Find(q.frames, other) == Find(p.frames, other))
    && (r != -1 ==> 0 <= r < |q.frames| && Find(q.frames, at) == r)
  }

  lemma MissPlaces(p: Pool, v: nat, at: Place, write: Transfer, read: Transfer, other: Place)
    requires Sane(p.frames) && Find(p.frames, at) == |p.frames| && v < |p.frames|
    requires p.frames[v].valid ==> p.frames[v].pins == 0
    ensures var q := Flushed(p, v, write);
      && FetchPlaces(p, at, q, -1, other)
      && FetchPlaces(p, at, Spoilt(q, v, at, read), -1, other)
      && FetchPlaces(p, at, Loaded(q, v, at), v, other)
  {
    var q := Flushed(p, v, write);
    FlushedPlaces(p, v, write, other);
    FlushedPlaces(p, v, write, at);
    SpoiltPlaces(q, v, at, read, other);
    LoadedPlaces(q, v, at, other);
  }

  // However its transfers turn out, a fetch moves no pinned page and changes only the pins it should.
  lemma FetchMoves(p: Pool, at: Place, write: Transfer, read: Transfer, other: Place)
    requires Sane(p.frames)
    ensures var (q, r) := DoFetch(p, at, write, read); FetchPlaces(p, at, q, r, other)
  {
    var i := Find(p.frames, at);
    if i < |p.frames| {
      UsedPlaces(p, i, p.frames[i].(pins := p.frames[i].pins + 1), other);
      UsedPlaces(p, i, p.frames[i].(pins := p.frames[i].pins + 1), at);
    } else {
      var v := Victim(p.frames);
      if v != -1 {
        VictimIsFree(p, v);
        MissPlaces(p, v, at, write, read, other);
      }
    }
  }

  lemma {:induction false} FlushFromPlaces(p: Pool, i: nat, faults: Faults, at: Place)
    requires Sane(p.frames) && i <= |p.frames|
    ensures var q := FlushFrom(p, i, faults).0; Sane(q.frames) && SamePlaces(p.frames, q.frames, at)
    decreases |p.frames| - i
  {
    if i < |p.frames| {
      FlushedPlaces(p, i, IoOf(faults, i), at);
      if !FlushFails(p.frames[i], IoOf(faults, i)) { FlushFromPlaces(Flushed(p, i, IoOf(faults, i)), i + 1, faults, at); }
    }
  }

  // ----- what one page holds -----

  // The page is in one frame at most, and unless that frame is dirty, or excused, it equals the disk.
  ghost predicate Tied(p: Pool, at: Place, excused: bool) {
    && Sane(p.frames)
    && var i := Find(p.frames, at);
    && (i < |p.frames| && !p.frames[i].dirty && !excused ==> p.frames[i].page == OnDisk(p.disk, at))
  }

  // A frame is excused while it is pinned.
  ghost predicate Coherent(p: Pool, at: Place) {
    Tied(p, at, PinsAt(p, at) > 0)
  }

  lemma FlushedKeeps(p: Pool, i: nat, io: Transfer, at: Place, excused: bool)
    requires Tied(p, at, excused) && i < |p.frames|
    ensures var q := Flushed(p, i, io);
      Tied(q, at, excused) && Content(q, at) == Content(p, at) && SamePlaces(p.frames, q.frames, at)
  {
    FlushedPlaces(p, i, io, at);
    if p.frames[i].valid { FindOnly(p.frames, i); }
  }

  lemma LoadedKeeps(p: Pool, v: nat, at: Place, other: Place, excused: bool)
    requires Tied(p, other, excused) && (excused ==> PinsAt(p, other) > 0)
    requires v < |p.frames| && Find(p.frames, at) == |p.frames|
    requires p.frames[v].valid ==> p.frames[v].pins == 0 && !p.frames[v].dirty
    ensures var q := Loaded(p, v, at); Tied(q, other, excused) && Content(q, other) == Content(p, other)
  {
    var q := Loaded(p, v, at);
    LoadedPlaces(p, v, at, other);
    var i := Find(p.frames, other);
    if i < |p.frames| && i != v { assert q.frames[i] == p.frames[i]; FindOnly(q.frames, i); }
  }

  // The same page in the same frame, at another time of last use.
  lemma UsedKeeps(p: Pool, i: nat, f: Frame, at: Place, excused: bool)
    requires Sane(p.frames) && i < |p.frames| && p.frames[i].valid && f.valid && f.at == p.frames[i].at && f.pins >= 0
    requires f.page == p.frames[i].page
    requires if at == f.at then !f.dirty && !excused ==> f.page == OnDisk(p.disk, at) else Tied(p, at, excused)
    ensures Tied(Used(p, i, f), at, excused) && Content(Used(p, i, f), at) == Content(p, at)
  {
    UsedPlaces(p, i, f, at);
    FindOnly(p.frames, i);
  }

  lemma SpoiltKeeps(p: Pool, v: nat, at: Place, io: Transfer, other: Place, excused: bool)
    requires Tied(p, other, excused) && v < |p.frames| && !io.Whole?
    requires Has(p.frames[v], other) && io.Short? ==> io.left == p.frames[v].page
    ensures var q := Spoilt(p, v, at, io); Tied(q, other, excused) && Content(q, other) == Content(p, other)
  {
    SpoiltPlaces(p, v, at, io, other);
  }

  // A fetch that misses reads a part of its page over the clean frame in which other stays.
  predicate Spoils(p: Pool, at: Place, write: Transfer, read: Transfer, other: Place) {
    var v := Victim(p.frames);
    && Find(p.frames, at) == |p.frames| && v != -1 && Has(p.frames[v], other) && !FlushFails(p.frames[v], write)
    && read.Short? && read.left != p.frames[v].page
  }

  lemma MissKeeps(p: Pool, v: nat, at: Place, write: Transfer, read: Transfer, other: Place, excused: bool)
    requires Tied(p, other, excused) && (excused ==> PinsAt(p, other) > 0)
    requires Find(p.frames, at) == |p.frames| && v == Victim(p.frames) && !Spoils(p, at, write, read, other)
    ensures var q := DoFetch(p, at, write, read).0; Tied(q, other, excused) && Content(q, other) == Content(p, other)
  {
    var q := Flushed(p, v, write);
    VictimIsFree(p, v);
    FlushedKeeps(p, v, write, other, excused);
    FlushedPlaces(p, v, write, at);
    if !FlushFails(p.frames[v], write) {
      if read.Whole? { LoadedKeeps(q, v, at, other, excused); } else { SpoiltKeeps(q, v, at, read, other, excused); }
    }
  }

  lemma HitKeeps(p: Pool, i: nat, other: Place, excused: bool)
    requires Tied(p, other, excused) && i < |p.frames| && p.frames[i].valid
    ensures var q := Used(p, i, p.frames[i].(pins := p.frames[i].pins + 1));
      Tied(q, other, excused) && Content(q, other) == Content(p, other)
  {
    FindOnly(p.frames, i);
    UsedKeeps(p, i, p.frames[i].(pins := p.frames[i].pins + 1), other, excused);
  }

  lemma FetchTies(p: Pool, at: Place, write: Transfer, read: Transfer, other: Place, excused: bool)
    requires Tied(p, other, excused) && (excused ==> PinsAt(p, other) > 0) && !Spoils(p, at, write, read, other)
    ensures var q := DoFetch(p, at, write, read).0; Tied(q, other, excused) && Content(q, other) == Content(p, other)
  {
    var i, q := Find(p.frames, at), DoFetch(p, at, write, read).0;
    if i < |p.frames| {
      HitKeeps(p, i, other, excused);
      assert q == Used(p, i, p.frames[i].(pins := p.frames[i].pins + 1));
    } else if Victim(p.frames) == -1 {
      assert q == p;
    } else {
      MissKeeps(p, Victim(p.frames), at, write, read, other, excused);
    }
  }

  // Whatever it evicts, a fetch hands out the right page.
  lemma FetchReturns(p: Pool, at: Place, write: Transfer, read: Transfer)
    requires Sane(p.frames)
    ensures var (q, r) := DoFetch(p, at, write, read);
      r != -1 ==> 0 <= r < |q.frames| && Has(q.frames[r], at) && q.frames[r].page == Content(p, at)
  {
    var v := Victim(p.frames);
    if Find(p.frames, at) == |p.frames| && v != -1 {
      VictimIsFree(p, v);
      FlushedKeeps(p, v, write, at, true);
    }
  }

  // And unless it spoils a page, it does not change it.
  lemma FetchKeeps(p: Pool, at: Place, write: Transfer, read: Transfer, other: Place)
    requires Coherent(p, other) && !Spoils(p, at, write, read, other)
    ensures var (q, r) := DoFetch(p, at, write, read);
      Coherent(q, other) && Content(q, other) == Content(p, other) && FetchPlaces(p, at, q, r, other)
  {
    FetchMoves(p, at, write, read, other);
    FetchTies(p, at, write, read, other, PinsAt(p, other) > 0);
  }

  // And if it spoils one, that page is not what it was.
  lemma FetchKeepsExactly(p: Pool, at: Place, write: Transfer, read: Transfer, other: Place)
    requires Coherent(p, other)
    ensures var q := DoFetch(p, at, write, read).0;
      && (Coherent(q, other) <==> !Spoils(p, at, write, read, other))
      && (Content(q, other) == Content(p, other) <==> !Spoils(p, at, write, read, other))
  {
    if Spoils(p, at, write, read, other) {
      VictimIsFree(p, Victim(p.frames));
      SpoiltPage(p, Victim(p.frames), at, write, read.left);
    } else {
      FetchKeeps(p, at, write, read, other);
    }
  }

  lemma SpoiltPage(p: Pool, v: nat, at: Place, write: Transfer, left: Image)
    requires v < |p.frames| && p.frames[v].valid && p.frames[v].pins == 0 && Coherent(p, p.frames[v].at)
    requires !FlushFails(p.frames[v], write) && left != p.frames[v].page
    ensures var q := Spoilt(Flushed(p, v, write), v, at, Short(left));
      !Coherent(q, p.frames[v].at) && Content(q, p.frames[v].at) == left && Content(p, p.frames[v].at) == p.frames[v].page
  {
    var other, r := p.frames[v].at, Flushed(p, v, write);
    FindOnly(p.frames, v);
    FlushedKeeps(p, v, write, other, false);
    SpoiltPlaces(r, v, at, Short(left), other);
  }

  lemma {:induction false} FlushFromKeeps(p: Pool, i: nat, faults: Faults, at: Place, excused: bool)
    requires Tied(p, at, excused) && i <= |p.frames|
    ensures var q := FlushFrom(p, i, faults).0;
      Tied(q, at, excused) && Content(q, at) == Content(p, at) && SamePlaces(p.frames, q.frames, at)
    decreases |p.frames| - i
  {
    if i < |p.frames| {
      FlushedKeeps(p, i, IoOf(faults, i), at, excused);
      if !FlushFails(p.frames[i], IoOf(faults, i)) {
        FlushFromKeeps(Flushed(p, i, IoOf(faults, i)), i + 1, faults, at, excused);
      }
    }
  }

  predicate Blocked(p: Pool, i: nat, faults: Faults)
    requires i < |p.frames|
  {
    FlushFails(p.frames[i], IoOf(faults, i))
  }

  // flush_all stops at the first dirty frame whose write fails, and reports that; the frames before
  // it are clean, and it and those after it are as they were.
  lemma {:induction false} FlushStopsAt(p: Pool, i: nat, faults: Faults, stop: nat)
    requires i <= stop <= |p.frames| && (forall j :: i <= j < stop ==> !Blocked(p, j, faults))
    requires stop < |p.frames| ==> Blocked(p, stop, faults)
    ensures var (q, rc) := FlushFrom(p, i, faults);
      && |q.frames| == |p.frames| && rc == (if stop == |p.frames| then 0 else -1)
      && (forall j :: i <= j < stop ==> q.frames[j] == if p.frames[j].valid then p.frames[j].(dirty := false) else p.frames[j])
      && (forall j :: 0 <= j < i || stop <= j < |p.frames| ==> q.frames[j] == p.frames[j])
    decreases stop - i
  {
    if i < stop {
      var r := Flushed(p, i, IoOf(faults, i));
      assert !Blocked(p, i, faults);
      assert |r.frames| == |p.frames| && forall j :: 0 <= j < |p.frames| && j != i ==> r.frames[j] == p.frames[j];
      forall j | i + 1 <= j < stop ensures !Blocked(r, j, faults) { assert !Blocked(p, j, faults); }
      FlushStopsAt(r, i + 1, faults, stop);
    } else if stop < |p.frames| {
      assert Blocked(p, stop, faults);
    }
  }

  // ----- buffer_invalidate_fd -----

  predicate OfFile(f: Frame, fd: int) {
    f.valid && f.at.fd == fd
  }

  // Frame i can be dropped without losing its page: it is clean and on disk, or its writing goes
  // through, or leaves on disk what it holds.
  predicate Expendable(p: Pool, i: nat, faults: Faults)
    requires i < |p.frames|
  {
    var f, io := p.frames[i], IoOf(faults, i);
    if f.dirty && io.Whole? then true
    else if f.dirty && io.Short? then io.left == f.page
    else f.page == OnDisk(p.disk, f.at)
  }

  function DroppedFrame(f: Frame, fd: int): Frame {
    if OfFile(f, fd) then f.(valid := false, dirty := false, pins := 0, at := Dropped) else f
  }

  lemma {:induction false} DropFrames(p: Pool, n: nat, fd: int, faults: Faults)
    requires n <= |p.frames|
    ensures forall k :: 0 <= k < |p.frames| ==>
      DropBelow(p, n, fd, faults).frames[k] == if k < n then DroppedFrame(p.frames[k], fd) else p.frames[k]
  {
    if n > 0 { DropFrames(p, n - 1, fd, faults); }
  }

  lemma DropDiskNext(p: Pool, i: nat, fd: int, faults: Faults, at: Place)
    requires i < |p.frames|
    ensures OnDisk(Drop(p, i, fd, faults).disk, at) ==
      if OfFile(p.frames[i], fd) && p.frames[i].at == at && p.frames[i].dirty
      then Arrived(IoOf(faults, i), p.frames[i].page, OnDisk(p.disk, at)) else OnDisk(p.disk, at)
  {
  }

  lemma {:induction false} DropDisk(p: Pool, n: nat, fd: int, faults: Faults, at: Place)
    requires Distinct(p.frames) && n <= |p.frames|
    ensures var i := Find(p.frames, at);
      OnDisk(DropBelow(p, n, fd, faults).disk, at) ==
      if i < n && at.fd == fd && p.frames[i].dirty
      then Arrived(IoOf(faults, i), p.frames[i].page, OnDisk(p.disk, at)) else OnDisk(p.disk, at)
  {
    if n > 0 {
      DropDisk(p, n - 1, fd, faults, at);
      DropFrames(p, n - 1, fd, faults);
      DropDiskNext(DropBelow(p, n - 1, fd, faults), n - 1, fd, faults, at);
      if OfFile(p.frames[n - 1], fd) && p.frames[n - 1].at == at { FindOnly(p.frames, n - 1); }
    }
  }

  lemma DropMeaning(p: Pool, n: nat, fd: int, faults: Faults, at: Place)
    requires Distinct(p.frames) && n <= |p.frames|
    ensures var q, i := DropBelow(p, n, fd, faults), Find(p.frames, at);
      && (forall k :: 0 <= k < |p.frames| ==> q.frames[k] == if k < n then DroppedFrame(p.frames[k], fd) else p.frames[k])
      && OnDisk(q.disk, at) == if i < n && at.fd == fd && p.frames[i].dirty
                               then Arrived(IoOf(faults, i), p.frames[i].page, OnDisk(p.disk, at)) else OnDisk(p.disk, at)
  {
    DropFrames(p, n, fd, faults);
    DropDisk(p, n, fd, faults, at);
  }

  // Closing a file leaves every page as it was exactly when no frame of the file holds something
  // that is neither on disk nor written back now.
  lemma InvalidateKeepsExactly(p: Pool, fd: int, faults: Faults)
    requires Distinct(p.frames)
    ensures (forall at :: Content(DropBelow(p, |p.frames|, fd, faults), at) == Content(p, at)) <==>
            (forall i :: 0 <= i < |p.frames| && OfFile(p.frames[i], fd) ==> Expendable(p, i, faults))
  {
    var q := DropBelow(p, |p.frames|, fd, faults);
    forall at
      ensures var i := Find(p.frames, at);
        Content(q, at) == Content(p, at) || (i < |p.frames| && OfFile(p.frames[i], fd) && !Expendable(p, i, faults))
    {
      DropContent(p, fd, faults, at);
    }
    forall i | 0 <= i < |p.frames| && OfFile(p.frames[i], fd) && !Expendable(p, i, faults)
      ensures Content(q, p.frames[i].at) != Content(p, p.frames[i].at)
    {
      FindOnly(p.frames, i);
      DropContent(p, fd, faults, p.frames[i].at);
    }
  }

  lemma DroppedPlaces(fs: seq<Frame>, gs: seq<Frame>, fd: int, at: Place)
    requires Distinct(fs) && |gs| == |fs| && forall k :: 0 <= k < |fs| ==> gs[k] == DroppedFrame(fs[k], fd)
    ensures Distinct(gs) && Find(gs, at) == if at.fd == fd then |fs| else Find(fs, at)
  {
    assert forall k :: 0 <= k < |fs| ==> (Has(gs[k], at) <==> Has(fs[k], at) && at.fd != fd);
  }

  lemma DropPlaces(p: Pool, fd: int, faults: Faults, at: Place)
    requires Distinct(p.frames)
    ensures var q, i := DropBelow(p, |p.frames|, fd, faults), Find(p.frames, at);
      Distinct(q.frames) && Find(q.frames, at) == if at.fd == fd then |p.frames| else i
  {
    DropFrames(p, |p.frames|, fd, faults);
    DroppedPlaces(p.frames, DropBelow(p, |p.frames|, fd, faults).frames, fd, at);
  }

  lemma DropContent(p: Pool, fd: int, faults: Faults, at: Place)
    requires Distinct(p.frames)
    ensures var q, i := DropBelow(p, |p.frames|, fd, faults), Find(p.frames, at);
      Content(q, at) == Content(p, at) <==> i == |p.frames| || at.fd != fd || Expendable(p, i, faults)
  {
    DropPlaces(p, fd, faults, at);
    DropMeaning(p, |p.frames|, fd, faults, at);
  }

  lemma InvalidateTies(p: Pool, fd: int, faults: Faults, at: Place, excused: bool)
    requires Tied(p, at, excused)
    ensures Tied(DropBelow(p, |p.frames|, fd, faults), at, excused)
  {
    DropPins(p, fd, faults, at);
    DropMeaning(p, |p.frames|, fd, faults, at);
  }

  lemma DropPins(p: Pool, fd: int, faults: Faults, at: Place)
    requires Sane(p.frames)
    ensures var q := DropBelow(p, |p.frames|, fd, faults);
      && Sane(q.frames) && PinsAt(q, at) == (if at.fd == fd then 0 else PinsAt(p, at))
      && Find(q.frames, at) == (if at.fd == fd then |p.frames| else Find(p.frames, at))
  {
    DropMeaning(p, |p.frames|, fd, faults, at);
    DropPlaces(p, fd, faults, at);
  }

  // ----- the discipline of the clients -----

  // What a step asks for one page to stay right: no reading over its frame; write it only while pinned,
  // give up the last pin of a clean frame only if it still holds what is on disk, close its file only
  // when the frame is expendable.  What clients do with other pages does not matter.
  predicate Allowed(p: Pool, op: Op, at: Place) {
    var i := Find(p.frames, at);
    match op
    case Fetch(a, write, read) => !Spoils(p, a, write, read, at)
    case Write(a, _) => a == at ==> PinsAt(p, at) > 0
    case Unpin(a, dirty) =>
      a == at && i < |p.frames| && p.frames[i].pins == 1 && !p.frames[i].dirty && !dirty ==>
        p.frames[i].page == OnDisk(p.disk, at)
    case Invalidate(fd, faults) => fd == at.fd && i < |p.frames| ==> Expendable(p, i, faults)
    case _ => true
  }

  lemma WriteKeeps(p: Pool, a: Place, page: Image, at: Place, excused: bool)
    requires Tied(p, at, excused) && (a == at ==> PinsAt(p, at) > 0)
    ensures var q := DoWrite(p, a, page);
      && Tied(q, at, excused || a == at) && SamePlaces(p.frames, q.frames, at)
      && Content(q, at) == if a == at then page else Content(p, at)
  {
    var i := Find(p.frames, a);
    if i < |p.frames| { FindSame(p.frames, i, p.frames[i].(page := page), at); }
  }

  lemma UnpinKeeps(p: Pool, a: Place, dirty: bool, at: Place)
    requires Coherent(p, at) && Allowed(p, Unpin(a, dirty), at)
    ensures var q := DoUnpin(p, a, dirty).0; Coherent(q, at) && Content(q, at) == Content(p, at)
  {
    var i := Find(p.frames, a);
    if i < |p.frames| && p.frames[i].pins > 0 {
      var f := p.frames[i].(pins := p.frames[i].pins - 1, dirty := p.frames[i].dirty || dirty);
      UsedKeeps(p, i, f, at, if a == at then f.pins > 0 else PinsAt(p, at) > 0);
      UsedPlaces(p, i, f, at);
    }
  }

  lemma MarkKeeps(p: Pool, a: Place, at: Place, excused: bool)
    requires Tied(p, at, excused)
    ensures var q := DoMarkDirty(p, a).0;
      && Tied(q, at, excused && a != at) && Content(q, at) == Content(p, at) && SamePlaces(p.frames, q.frames, at)
  {
    var i := Find(p.frames, a);
    if i < |p.frames| {
      UsedKeeps(p, i, p.frames[i].(dirty := true), at, excused && a != at);
      UsedPlaces(p, i, p.frames[i].(dirty := true), at);
    }
  }

  lemma CloseKeeps(p: Pool, fd: int, faults: Faults, at: Place)
    requires Coherent(p, at) && Allowed(p, Invalidate(fd, faults), at)
    ensures var q := DropBelow(p, |p.frames|, fd, faults); Coherent(q, at) && Content(q, at) == Content(p, at)
  {
    InvalidateTies(p, fd, faults, at, PinsAt(p, at) > 0);
    DropPins(p, fd, faults, at);
    DropContent(p, fd, faults, at);
  }

  // Every step that is allowed for a page keeps it coherent, and changes it only by a client's own write.
  lemma StepKeeps(p: Pool, op: Op, at: Place)
    requires Coherent(p, at) && Allowed(p, op, at)
    ensures var q := Step(p, op).0;
      Coherent(q, at) && Content(q, at) == if op.Write? && op.at == at then op.page else Content(p, at)
  {
    match op {
      case Fetch(a, write, read) => FetchKeeps(p, a, write, read, at);
      case Write(a, page) => WriteKeeps(p, a, page, at, PinsAt(p, at) > 0);
      case Unpin(a, dirty) => UnpinKeeps(p, a, dirty, at);
      case MarkDirty(a) => MarkKeeps(p, a, at, PinsAt(p, at) > 0);
      case FlushPage(a, io) =>
        if Find(p.frames, a) < |p.frames| { FlushedKeeps(p, Find(p.frames, a), io, at, PinsAt(p, at) > 0); }
      case FlushAll(faults) => FlushFromKeeps(p, 0, faults, at, PinsAt(p, at) > 0);
      case Invalidate(fd, faults) => CloseKeeps(p, fd, faults, at);
    }
  }

  // An unpin keeps the page coherent exactly when the discipline allows it.
  lemma UnpinKeepsExactly(p: Pool, a: Place, dirty: bool, at: Place)
    requires Coherent(p, at)
    ensures Coherent(DoUnpin(p, a, dirty).0, at) <==> Allowed(p, Unpin(a, dirty), at)
  {
    if Allowed(p, Unpin(a, dirty), at) {
      UnpinKeeps(p, a, dirty, at);
    } else {
      UsedPlaces(p, Find(p.frames, at), p.frames[Find(p.frames, at)].(pins := 0), at);
    }
  }

  // ----- runs -----

  function After(p: Pool, ops: seq<Op>): Pool
    decreases |ops|
  {
    if ops == [] then p else Step(After(p, ops[..|ops| - 1]), ops[|ops| - 1]).0
  }

  predicate AllAllowed(p: Pool, ops: seq<Op>, at: Place)
    decreases |ops|
  {
    ops == [] || (AllAllowed(p, ops[..|ops| - 1], at) && Allowed(After(p, ops[..|ops| - 1]), ops[|ops| - 1], at))
  }

  // A memory without any pool: the last page written.
  function LastWritten(ops: seq<Op>, at: Place, start: Image): Image
    decreases |ops|
  {
    if ops == [] then start
    else
      var op := ops[|ops| - 1];
      if op.Write? && op.at == at then op.page else LastWritten(ops[..|ops| - 1], at, start)
  }

  lemma {:induction false} RunIsMemory(p: Pool, ops: seq<Op>, at: Place)
    requires Coherent(p, at) && AllAllowed(p, ops, at)
    ensures Coherent(After(p, ops), at) && Content(After(p, ops), at) == LastWritten(ops, at, Content(p, at))
    decreases |ops|
  {
    if ops != [] {
      RunIsMemory(p, ops[..|ops| - 1], at);
      StepKeeps(After(p, ops[..|ops| - 1]), ops[|ops| - 1], at);
    }
  }

  // A fetch after any such run hands out the last page written, wherever it has been meanwhile.
  lemma FetchReadsLastWritten(p: Pool, ops: seq<Op>, at: Place, write: Transfer, read: Transfer)
    requires Coherent(p, at) && AllAllowed(p, ops, at)
    ensures var (q, r) := DoFetch(After(p, ops), at, write, read);
      r != -1 ==> 0 <= r < |q.frames| && Has(q.frames[r], at) && q.frames[r].page == LastWritten(ops, at, Content(p, at))
  {
    RunIsMemory(p, ops, at);
    FetchReturns(After(p, ops), at, write, read);
  }

  // ----- the cycle of a statement -----

  // What the executor does with the one page of a table: fetch, store, unpin as dirty, flush, and
  // invalidate before the file is closed.
  function Cycle(at: Place, page: Image): seq<Op> {
    [Fetch(at, Whole, Whole), Write(at, page), Unpin(at, true), FlushPage(at, Whole), Invalidate(at.fd, map[])]
  }

  ghost predicate NoFrameOf(p: Pool, fd: int) {
    forall i :: 0 <= i < |p.frames| ==> !OfFile(p.frames[i], fd)
  }

  lemma NoFrameLeft(p: Pool, fd: int, faults: Faults)
    requires Sane(p.frames) && fd != Dropped.fd
    ensures NoFrameOf(DropBelow(p, |p.frames|, fd, faults), fd)
  {
    DropMeaning(p, |p.frames|, fd, faults, Dropped);
  }

  // The pool before the file is closed.
  function BeforeClose(p: Pool, at: Place, page: Image): Pool {
    DoFlushPage(DoUnpin(DoWrite(DoFetch(p, at, Whole, Whole).0, at, page), at, true).0, at, Whole).0
  }

  // The pool once the page is stored in frame v, before it is unpinned.
  function Stored(p: Pool, v: nat, at: Place, page: Image): Pool
    requires v < |p.frames|
  {
    var q := Loaded(Flushed(p, v, Whole), v, at);
    q.(frames := q.frames[v := q.frames[v].(page := page)])
  }

  lemma StoredIs(p: Pool, v: nat, at: Place, page: Image)
    requires Sane(p.frames) && Find(p.frames, at) == |p.frames| && v == Victim(p.frames)
    ensures DoWrite(DoFetch(p, at, Whole, Whole).0, at, page) == Stored(p, v, at, page)
    ensures var q := Stored(p, v, at, page);
      Sane(q.frames) && Find(q.frames, at) == v && forall j :: 0 <= j < |p.frames| && j != v ==> q.frames[j] == p.frames[j]
  {
    VictimIsFree(p, v);
    MissPlaces(p, v, at, Whole, Whole, at);
    var q := Loaded(Flushed(p, v, Whole), v, at);
    FindSame(q.frames, v, q.frames[v].(page := page), at);
  }

  // By then the victim frame holds the page, unpinned and clean, and the others are as they were.
  lemma CycleFrames(p: Pool, at: Place, page: Image)
    requires Sane(p.frames) && Find(p.frames, at) == |p.frames| && Victim(p.frames) != -1
    ensures var q, v := BeforeClose(p, at, page), Victim(p.frames);
      && 0 <= v < |p.frames| == |q.frames| && Find(q.frames, at) == v
      && !q.frames[v].dirty && q.frames[v].pins == 0 && q.frames[v].page == page && OnDisk(q.disk, at) == page
      && (forall j :: 0 <= j < |p.frames| && j != v ==> q.frames[j] == p.frames[j])
  {
    var v := Victim(p.frames);
    StoredIs(p, v, at, page);
    var p2 := Stored(p, v, at, page);
    FindSame(p2.frames, v, p2.frames[v].(pins := 0, dirty := true, lastUsed := p2.clock), at);
    var p3 := DoUnpin(p2, at, true).0;
    FindSame(p3.frames, v, p3.frames[v].(dirty := false), at);
  }

  lemma CycleAllowed(p: Pool, at: Place, page: Image, other: Place)
    requires Coherent(p, other) && Find(p.frames, at) == |p.frames| && Victim(p.frames) != -1
    ensures var q := BeforeClose(p, at, page);
      Coherent(q, other) && Content(q, other) == if other == at then page else Content(p, other)
  {
    FetchKeeps(p, at, Whole, Whole, other);
    var p1 := DoFetch(p, at, Whole, Whole).0;
    StepKeeps(p1, Write(at, page), other);
    var p2 := DoWrite(p1, at, page);
    StepKeeps(p2, Unpin(at, true), other);
    StepKeeps(DoUnpin(p2, at, true).0, FlushPage(at, Whole), other);
  }

  // After the cycle the page is on disk, no frame is left that a later file with the same
  // descriptor could meet, and no other page has changed.
  lemma CycleReachesDisk(p: Pool, at: Place, page: Image, other: Place)
    requires Coherent(p, other) && NoFrameOf(p, at.fd) && at.fd != Dropped.fd && Victim(p.frames) != -1
    ensures var q := After(p, Cycle(at, page));
      && Coherent(q, other) && NoFrameOf(q, at.fd) && OnDisk(q.disk, at) == page
      && (other != at ==> Content(q, other) == Content(p, other))
  {
    var q := BeforeClose(p, at, page);
    CycleFrames(p, at, page);
    CycleAllowed(p, at, page, other);
    var i := Find(q.frames, other);
    if i < |q.frames| && other.fd == at.fd { assert i == Victim(p.frames); }
    StepKeeps(q, Invalidate(at.fd, map[]), other);
    DropMeaning(q, |q.frames|, at.fd, map[], at);
    NoFrameLeft(q, at.fd, map[]);
    CycleIs(p, at, page);
  }

  lemma AfterOne(p: Pool, ops: seq<Op>, op: Op)
    ensures After(p, ops + [op]) == Step(After(p, ops), op).0
  {
    assert (ops + [op])[..|ops + [op]| - 1] == ops;
  }

  lemma AfterFive(p: Pool, a: Op, b: Op, c: Op, d: Op, e: Op)
    ensures After(p, [a, b, c, d, e]) == Step(Step(Step(Step(Step(p, a).0, b).0, c).0, d).0, e).0
  {
    AfterOne(p, [], a);
    AfterOne(p, [a], b);
    AfterOne(p, [a, b], c);
    AfterOne(p, [a, b, c], d);
    AfterOne(p, [a, b, c, d], e);
    assert [] + [a] == [a] && [a] + [b] == [a, b] && [a, b] + [c] == [a, b, c];
    assert [a, b, c] + [d] == [a, b, c, d] && [a, b, c, d] + [e] == [a, b, c, d, e];
  }

  lemma CycleIs(p: Pool, at: Place, page: Image)
    ensures var q := BeforeClose(p, at, page); After(p, Cycle(at, page)) == DropBelow(q, |q.frames|, at.fd, map[])
  {
    AfterFive(p, Fetch(at, Whole, Whole), Write(at, page), Unpin(at, true), FlushPage(at, Whole), Invalidate(at.fd, map[]));
  }

  // ----- pins -----

  // The pins of a page after a call that had this result: a fetch adds one, an unpin takes one off,
  // closing the file takes all.
  function PinsNext(pins: int, op: Op, result: int, at: Place): int {
    match op
    case Fetch(a, _, _) => if a == at && result != -1 then pins + 1 else pins
    case Unpin(a, _) => if a == at && result == 0 then pins - 1 else pins
    case Invalidate(fd, _) => if at.fd == fd then 0 else pins
    case _ => pins
  }

  lemma UnpinPins(p: Pool, a: Place, dirty: bool, at: Place)
    requires Sane(p.frames)
    ensures var (q, r) := DoUnpin(p, a, dirty);
      && Sane(q.frames) && PinsAt(q, at) == PinsAt(p, at) - (if a == at && r == 0 then 1 else 0)
      && Find(q.frames, at) == Find(p.frames, at)
  {
    var i := Find(p.frames, a);
    if i < |p.frames| && p.frames[i].pins > 0 {
      UsedPlaces(p, i, p.frames[i].(pins := p.frames[i].pins - 1, dirty := p.frames[i].dirty || dirty), at);
    }
  }

  lemma QuietPins(p: Pool, op: Op, at: Place)
    requires Sane(p.frames) && (op.Write? || op.MarkDirty? || op.FlushPage? || op.FlushAll?)
    ensures var q := Step(p, op).0; Sane(q.frames) && PinsAt(q, at) == PinsAt(p, at) && Find(q.frames, at) == Find(p.frames, at)
  {
    if op.FlushAll? {
      FlushFromPlaces(p, 0, op.faults, at);
    } else {
      var i := Find(p.frames, op.at);
      if i < |p.frames| {
        if op.Write? { FindSame(p.frames, i, p.frames[i].(page := op.page), at); }
        else if op.MarkDirty? { UsedPlaces(p, i, p.frames[i].(dirty := true), at); }
        else { FlushedPlaces(p, i, op.io, at); }
      }
    }
  }

  // Every step, whatever its client ought not to have done, keeps a page in one frame at most, with
  // the pins the calls make, and moves no pinned page but those of a file that is closed.
  lemma StepPins(p: Pool, op: Op, at: Place)
    requires Sane(p.frames)
    ensures var (q, r) := Step(p, op);
      && Sane(q.frames) && PinsAt(q, at) == PinsNext(PinsAt(p, at), op, r, at)
      && (PinsAt(p, at) > 0 && !(op.Invalidate? && op.fd == at.fd) ==> Find(q.frames, at) == Find(p.frames, at))
  {
    match op {
      case Fetch(a, write, read) => FetchMoves(p, a, write, read, at);
      case Unpin(a, dirty) => UnpinPins(p, a, dirty, at);
      case Invalidate(fd, faults) => DropPins(p, fd, faults, at);
      case _ => QuietPins(p, op, at);
    }
  }

  // The pins the calls of a run leave a page: fetches that succeeded less unpins that did, since its
  // file was last closed.
  function Pinned(p: Pool, ops: seq<Op>, at: Place): int
    decreases |ops|
  {
    if ops == [] then PinsAt(p, at)
    else
      var ops', op := ops[..|ops| - 1], ops[|ops| - 1];
      PinsNext(Pinned(p, ops', at), op, Step(After(p, ops'), op).1, at)
  }

  // The page was pinned before every step of the run, and its file was not closed.
  ghost predicate HeldThroughout(p: Pool, ops: seq<Op>, at: Place)
    decreases |ops|
  {
    ops == [] ||
    (var ops', op := ops[..|ops| - 1], ops[|ops| - 1];
     HeldThroughout(p, ops', at) && Pinned(p, ops', at) > 0 && !(op.Invalidate? && op.fd == at.fd))
  }

  // In every run of any clients, pin counts are what the calls make them, and while they leave a page
  // pinned it keeps its frame, whatever else the run fetches, flushes and closes.
  lemma {:induction false} PinsAreTheClients(p: Pool, ops: seq<Op>, at: Place)
    requires Sane(p.frames)
    ensures Sane(After(p, ops).frames) && PinsAt(After(p, ops), at) == Pinned(p, ops, at)
    ensures HeldThroughout(p, ops, at) ==> Find(After(p, ops).frames, at) == Find(p.frames, at)
    decreases |ops|
  {
    if ops != [] {
      var ops', op := ops[..|ops| - 1], ops[|ops| - 1];
      PinsAreTheClients(p, ops', at);
      StepPins(After(p, ops'), op, at);
    }
  }

  // ----- the discipline as a client can see it -----

  // Whether the page has been written since it was last unpinned as dirty or marked.
  function Owes(owed: bool, op: Op, at: Place): bool {
    match op
    case Write(a, _) => owed || a == at
    case Unpin(a, dirty) => owed && !(a == at && dirty)
    case MarkDirty(a) => owed && a != at
    case _ => owed
  }

  function Owed(ops: seq<Op>, at: Place): bool
    decreases |ops|
  {
    ops != [] && Owes(Owed(ops[..|ops| - 1], at), ops[|ops| - 1], at)
  }

  // Write the page while pinned; unpin as dirty, or mark, what was written before the last pin goes
  // and before the file is closed; the write of the closing succeeds.
  predicate Polite(p: Pool, owed: bool, op: Op, at: Place) {
    match op
    case Fetch(a, write, read) => !Spoils(p, a, write, read, at)
    case Write(a, _) => a == at ==> PinsAt(p, at) > 0
    case Unpin(a, dirty) => a == at && owed && !dirty ==> PinsAt(p, at) != 1
    case Invalidate(fd, faults) =>
      fd == at.fd && Find(p.frames, at) < |p.frames| ==> !owed && IoOf(faults, Find(p.frames, at)).Whole?
    case _ => true
  }

  predicate AllPolite(p: Pool, ops: seq<Op>, at: Place)
    decreases |ops|
  {
    ops == [] || (AllPolite(p, ops[..|ops| - 1], at) &&
                  Polite(After(p, ops[..|ops| - 1]), Owed(ops[..|ops| - 1], at), ops[|ops| - 1], at))
  }

  // A clean frame differs from the disk only if its page is owed, and then it is pinned.
  ghost predicate Accounted(p: Pool, owed: bool, at: Place) {
    Tied(p, at, owed) && (owed ==> PinsAt(p, at) > 0)
  }

  lemma PoliteIsAllowed(p: Pool, owed: bool, op: Op, at: Place)
    requires Accounted(p, owed, at) && Polite(p, owed, op, at)
    ensures Coherent(p, at) && Allowed(p, op, at)
  {
  }

  lemma PoliteUnpin(p: Pool, owed: bool, a: Place, dirty: bool, at: Place)
    requires Accounted(p, owed, at)
    ensures Tied(DoUnpin(p, a, dirty).0, at, Owes(owed, Unpin(a, dirty), at))
  {
    var i := Find(p.frames, a);
    if i < |p.frames| && p.frames[i].pins > 0 {
      var f := p.frames[i].(pins := p.frames[i].pins - 1, dirty := p.frames[i].dirty || dirty);
      UsedKeeps(p, i, f, at, Owes(owed, Unpin(a, dirty), at));
    }
  }

  lemma StepTies(p: Pool, owed: bool, op: Op, at: Place)
    requires Accounted(p, owed, at) && Polite(p, owed, op, at)
    ensures Tied(Step(p, op).0, at, Owes(owed, op, at))
  {
    match op {
      case Fetch(a, write, read) => FetchTies(p, a, write, read, at, owed);
      case Write(a, page) => WriteKeeps(p, a, page, at, owed);
      case Unpin(a, dirty) => PoliteUnpin(p, owed, a, dirty, at);
      case MarkDirty(a) => MarkKeeps(p, a, at, owed);
      case FlushPage(a, io) =>
        if Find(p.frames, a) < |p.frames| { FlushedKeeps(p, Find(p.frames, a), io, at, owed); }
      case FlushAll(faults) => FlushFromKeeps(p, 0, faults, at, owed);
      case Invalidate(fd, faults) => InvalidateTies(p, fd, faults, at, owed);
    }
  }

  lemma PoliteStep(p: Pool, owed: bool, op: Op, at: Place)
    requires Accounted(p, owed, at) && Polite(p, owed, op, at)
    ensures Accounted(Step(p, op).0, Owes(owed, op, at), at)
  {
    StepTies(p, owed, op, at);
    StepPins(p, op, at);
  }

  // Clients that write a page while pinned and unpin it as dirty meet the discipline of every step.
  lemma {:induction false} PoliteRun(p: Pool, ops: seq<Op>, at: Place)
    requires Accounted(p, false, at) && AllPolite(p, ops, at)
    ensures AllAllowed(p, ops, at) && Accounted(After(p, ops), Owed(ops, at), at)
    decreases |ops|
  {
    if ops != [] {
      var ops', op := ops[..|ops| - 1], ops[|ops| - 1];
      PoliteRun(p, ops', at);
      PoliteIsAllowed(After(p, ops'), Owed(ops', at), op, at);
      PoliteStep(After(p, ops'), Owed(ops', at), op, at);
    }
  }

  // From buffer_init on: where clients treat a page so, it cannot be told from a memory that starts as
  // the disk, whatever they do to other pages; and once it is not owed, flushing puts it on disk.
  lemma PoliteClientsSeeAMemory(size: nat, disk: Disk, ops: seq<Op>, at: Place)
    requires AllPolite(Init(size, disk), ops, at)
    ensures Content(After(Init(size, disk), ops), at) == LastWritten(ops, at, OnDisk(disk, at))
    ensures var (q, rc) := FlushFrom(After(Init(size, disk), ops), 0, map[]);
      rc == 0 && (!Owed(ops, at) ==> OnDisk(q.disk, at) == LastWritten(ops, at, OnDisk(disk, at)))
  {
    var p := Init(size, disk);
    PoliteRun(p, ops, at);
    PoliteIsAllowed(p, false, FlushAll(map[]), at);
    RunIsMemory(p, ops, at);
    FlushFromKeeps(After(p, ops), 0, map[], at, Owed(ops, at));
    FlushFromCleans(After(p, ops), 0);
  }

  lemma {:induction false} FlushFromCleans(p: Pool, i: nat)
    requires i <= |p.frames|
    requires forall j :: 0 <= j < i ==> !(p.frames[j].valid && p.frames[j].dirty)
    ensures var (q, rc) := FlushFrom(p, i, map[]); rc == 0 && forall j :: 0 <= j < |q.frames| ==> !(q.frames[j].valid && q.frames[j].dirty)
    decreases |p.frames| - i
  {
    if i < |p.frames| { FlushFromCleans(Flushed(p, i, Whole), i + 1); }
  }
}
