// Which pages the buffer pool holds: the meaning of its clock over whole traces of accesses.
module BufferRecency {
  import opened Storage
  import opened BufferPool
  import opened BufferProperties

  // ----- times of last use -----

  ghost predicate Stamped(p: Pool) {
    && (forall i :: 0 <= i < |p.frames| && p.frames[i].valid ==> p.frames[i].lastUsed < p.clock)
    && (forall i, j :: 0 <= i < j < |p.frames| && p.frames[i].valid && p.frames[j].valid ==>
          p.frames[i].lastUsed != p.frames[j].lastUsed)
  }

  lemma {:induction false} FlushFromStamped(p: Pool, i: nat, faults: Faults)
    requires Stamped(p) && i <= |p.frames|
    ensures var q := FlushFrom(p, i, faults).0; Stamped(q) && q.clock == p.clock
    decreases |p.frames| - i
  {
    if i < |p.frames| && !FlushFails(p.frames[i], IoOf(faults, i)) {
      FlushFromStamped(Flushed(p, i, IoOf(faults, i)), i + 1, faults);
    }
  }

  lemma {:induction false} DropStamped(p: Pool, n: nat, fd: int, faults: Faults)
    requires Stamped(p) && n <= |p.frames|
    ensures var q := DropBelow(p, n, fd, faults); Stamped(q) && q.clock == p.clock
  {
    if n > 0 { DropStamped(p, n - 1, fd, faults); }
  }

  lemma StepStamped(p: Pool, op: Op)
    requires Stamped(p) && p.clock < ULONG_MAX
    ensures var q := Step(p, op).0; Stamped(q) && p.clock <= q.clock <= p.clock + 1 && |q.frames| == |p.frames|
  {
    match op {
      case FlushAll(faults) => FlushFromStamped(p, 0, faults); FlushFromSize(p, 0, faults);
      case Invalidate(fd, faults) => DropStamped(p, |p.frames|, fd, faults);
      case Fetch(at, write, read) => FetchStamped(p, at, write, read);
      case _ => OneFrameStamped(p, op);
    }
  }

  lemma OneFrameStamped(p: Pool, op: Op)
    requires Stamped(p) && p.clock < ULONG_MAX && (op.Write? || op.Unpin? || op.MarkDirty? || op.FlushPage?)
    ensures var q := Step(p, op).0; Stamped(q) && p.clock <= q.clock <= p.clock + 1 && |q.frames| == |p.frames|
  {
    var q, i := Step(p, op).0, Find(p.frames, op.at);
    if q.clock > p.clock { StampedNow(p, q, i); }
  }

  // One frame changes, and if it is valid it was used just now.
  lemma StampedNow(p: Pool, q: Pool, i: nat)
    requires Stamped(p) && i < |p.frames| == |q.frames| && p.clock < q.clock
    requires q.frames == p.frames[i := q.frames[i]] && q.frames[i].lastUsed == p.clock
    ensures Stamped(q)
  {
  }

  lemma FlushedStamped(p: Pool, i: nat, io: Transfer)
    requires Stamped(p) && i < |p.frames|
    ensures var q := Flushed(p, i, io); Stamped(q) && q.clock == p.clock && |q.frames| == |p.frames|
  {
  }

  lemma ReadStamped(p: Pool, v: nat, at: Place, read: Transfer)
    requires Stamped(p) && v < |p.frames| && p.clock < ULONG_MAX
    ensures Stamped(Loaded(p, v, at)) && Stamped(Spoilt(p, v, at, read))
  {
    StampedNow(p, Loaded(p, v, at), v);
  }

  lemma FetchStamped(p: Pool, at: Place, write: Transfer, read: Transfer)
    requires Stamped(p) && p.clock < ULONG_MAX
    ensures var q := DoFetch(p, at, write, read).0;
      Stamped(q) && p.clock <= q.clock <= p.clock + 1 && |q.frames| == |p.frames|
  {
    var i, v := Find(p.frames, at), Victim(p.frames);
    if i < |p.frames| {
      StampedNow(p, DoFetch(p, at, write, read).0, i);
    } else if v != -1 {
      FlushedStamped(p, v, write);
      ReadStamped(Flushed(p, v, write), v, at, read);
    }
  }

  lemma {:induction false} FlushFromSize(p: Pool, i: nat, faults: Faults)
    requires i <= |p.frames|
    ensures |FlushFrom(p, i, faults).0.frames| == |p.frames|
    decreases |p.frames| - i
  {
    if i < |p.frames| && !FlushFails(p.frames[i], IoOf(faults, i)) {
      FlushFromSize(Flushed(p, i, IoOf(faults, i)), i + 1, faults);
    }
  }

  // Until the clock has run its whole range, times of last use are past and distinct.
  lemma {:induction false} RunStamped(p: Pool, ops: seq<Op>)
    requires Stamped(p) && p.clock + |ops| <= 18446744073709551615
    ensures var q := After(p, ops); Stamped(q) && q.clock <= p.clock + |ops| && |q.frames| == |p.frames|
    decreases |ops|
  {
    if ops != [] {
      RunStamped(p, ops[..|ops| - 1]);
      StepStamped(After(p, ops[..|ops| - 1]), ops[|ops| - 1]);
    }
  }

  // A hit counts the clock on, and the clock of sixty-four bits begins again after its last value.
  lemma ClockTurns(p: Pool, at: Place, write: Transfer, read: Transfer)
    requires Find(p.frames, at) < |p.frames| && p.clock <= 18446744073709551615
    ensures DoFetch(p, at, write, read).0.clock == if p.clock == 18446744073709551615 then 0 else p.clock + 1
  {
  }

  // In every run of any clients from buffer_init a fetch of a page that is not resident finds no frame
  // exactly when every frame is pinned.
  lemma NoVictimExactly(size: nat, disk: Disk, ops: seq<Op>)
    requires 1 + |ops| <= 18446744073709551615
    ensures var fs := After(Init(size, disk), ops).frames;
      Victim(fs) == -1 <==> forall i :: 0 <= i < |fs| ==> fs[i].valid && fs[i].pins > 0
  {
    var p := Init(size, disk);
    RunStamped(p, ops);
    PinsAreTheClients(p, ops, Dropped);
  }

  // ----- accesses -----

  datatype Visit = Visit(at: Place, dirty: bool)

  // A fetch and its unpin, with the disk working.
  function Access(p: Pool, v: Visit): Pool {
    DoUnpin(DoFetch(p, v.at, Whole, Whole).0, v.at, v.dirty).0
  }

  function Trace(p: Pool, t: seq<Visit>): Pool
    decreases |t|
  {
    if t == [] then p else Access(Trace(p, t[..|t| - 1]), t[|t| - 1])
  }

  function Position(s: seq<Place>, x: Place): (k: nat)
    ensures k <= |s| && (k < |s| ==> s[k] == x)
    ensures forall j :: 0 <= j < k ==> s[j] != x
  {
    if s == [] || s[0] == x then 0
    else
      var k := Position(s[1..], x);
      assert forall j :: 1 <= j < k + 1 ==> s[j] == s[1..][j - 1];
      1 + k
  }

  // x moves, or comes, to the front.
  function ToFront(s: seq<Place>, x: Place): seq<Place> {
    var k := Position(s, x);
    [x] + s[..k] + (if k < |s| then s[k + 1..] else [])
  }

  // The places of a trace, most recently used first.
  function Recent(t: seq<Visit>): seq<Place>
    decreases |t|
  {
    if t == [] then [] else ToFront(Recent(t[..|t| - 1]), t[|t| - 1].at)
  }

  ghost predicate NoRepeat(s: seq<Place>) {
    forall i, j :: 0 <= i < j < |s| ==> s[i] != s[j]
  }

  // Where the place k of the list with x at its front was before.
  function Source(s: seq<Place>, x: Place, k: nat): int {
    if k <= Position(s, x) then k - 1 else k
  }

  // Every place between the front and the old place of x moves back by one.
  ghost predicate Fronted(s: seq<Place>, x: Place, r: seq<Place>) {
    && NoRepeat(r) && |r| == (if Position(s, x) < |s| then |s| else |s| + 1) && r[0] == x
    && forall j {:trigger r[j]} {:trigger Source(s, x, j)} :: 1 <= j < |r| ==> 0 <= Source(s, x, j) < |s| && r[j] == s[Source(s, x, j)]
  }

  lemma ToFrontMeaning(s: seq<Place>, x: Place)
    requires NoRepeat(s)
    ensures Fronted(s, x, ToFront(s, x))
  {
    var r, k := ToFront(s, x), Position(s, x);
    forall j | 1 <= j < |r| ensures r[j] == (if j <= k then s[j - 1] else s[j]) && r[j] != x {
    }
  }

  lemma ToFrontMembers(s: seq<Place>, x: Place, y: Place)
    requires NoRepeat(s)
    ensures y in ToFront(s, x) <==> y == x || y in s
  {
    var r, k := ToFront(s, x), Position(s, x);
    if k < |s| { assert s == s[..k] + [x] + s[k + 1..]; }
  }

  // ----- least recently used -----

  function Min(a: nat, b: nat): nat { if a < b then a else b }

  // Every valid frame is unpinned and holds one of the first places of a list that fit.
  ghost predicate Listed(p: Pool, recent: seq<Place>) {
    forall i :: 0 <= i < |p.frames| && p.frames[i].valid ==>
      p.frames[i].pins == 0 && p.frames[i].at in recent[..Min(|p.frames|, |recent|)]
  }

  // The first places that fit are resident.
  ghost predicate Placed(p: Pool, recent: seq<Place>) {
    forall k :: 0 <= k < Min(|p.frames|, |recent|) ==> Find(p.frames, recent[k]) < |p.frames|
  }

  // Times of last use follow the list.
  ghost predicate InOrder(p: Pool, recent: seq<Place>)
    requires Placed(p, recent)
  {
    forall j, k :: 0 <= j < k < Min(|p.frames|, |recent|) ==>
      p.frames[Find(p.frames, recent[j])].lastUsed > p.frames[Find(p.frames, recent[k])].lastUsed
  }

  ghost predicate Follows(p: Pool, recent: seq<Place>) {
    && Distinct(p.frames) && Stamped(p) && NoRepeat(recent)
    && Listed(p, recent) && Placed(p, recent) && InOrder(p, recent)
  }

  function Numbers(n: nat): (s: set<nat>)
    ensures |s| == n && forall x: nat :: x in s <==> x < n
  {
    if n == 0 then {} else Numbers(n - 1) + {n - 1}
  }

  // Different numbers below n: n of them are all of them, and fewer are not.
  lemma Pigeonhole(s: seq<nat>, n: nat)
    requires forall i :: 0 <= i < |s| ==> s[i] < n
    requires forall i, j :: 0 <= i < j < |s| ==> s[i] != s[j]
    ensures |s| <= n
    ensures |s| == n <==> forall x: nat :: x < n ==> x in s
  {
    var those := set x | x in s;
    Members(s);
    var rest := Numbers(n) - those;
    assert Numbers(n) == those + rest;
    if rest == {} {
      assert those == Numbers(n);
      forall x: nat | x < n ensures x in s { assert x in those; }
    } else {
      var x: nat :| x in rest;
      assert x < n && x !in s;
    }
  }

  lemma {:induction false} Members<T>(s: seq<T>)
    requires forall i, j :: 0 <= i < j < |s| ==> s[i] != s[j]
    ensures |set x | x in s| == |s|
    decreases |s|
  {
    if s != [] {
      var r := s[..|s| - 1];
      Members(r);
      assert (set x | x in s) == (set x | x in r) + {s[|s| - 1]};
    }
  }

  lemma FindOnlyIfValid(fs: seq<Frame>, i: nat)
    requires Distinct(fs) && i < |fs|
    ensures fs[i].valid ==> Find(fs, fs[i].at) == i
  {
  }

  // All frames are valid exactly when the list fills them.
  lemma FullExactly(p: Pool, recent: seq<Place>)
    requires Follows(p, recent)
    ensures FirstFree(p.frames) == |p.frames| <==> |recent| >= |p.frames|
  {
    var n, m := |p.frames|, Min(|p.frames|, |recent|);
    var held := seq(m, k requires 0 <= k < m => Find(p.frames, recent[k]));
    Pigeonhole(held, n);
    forall i | 0 <= i < n && p.frames[i].valid ensures i in held {
      FindOnly(p.frames, i);
      var k :| 0 <= k < m && recent[k] == p.frames[i].at;
      assert held[k] == i;
    }
    if m == n {
      forall i | 0 <= i < n ensures p.frames[i].valid { assert i in held; }
    }
  }

  // The victim of a full pool is the last place of the list that fits.
  lemma VictimIsLast(p: Pool, recent: seq<Place>)
    requires Follows(p, recent) && 0 < |p.frames| <= |recent| && p.clock <= ULONG_MAX
    ensures Victim(p.frames) == Find(p.frames, recent[|p.frames| - 1])
  {
    var n, fs := |p.frames|, p.frames;
    FullExactly(p, recent);
    var last := Find(fs, recent[n - 1]);
    forall i | 0 <= i < n && i != last ensures fs[i].lastUsed > fs[last].lastUsed {
      FindOnly(fs, i);
      var k :| 0 <= k < n && recent[k] == fs[i].at;
      assert k != n - 1;
    }
    OldestIsLeast(fs, last);
  }

  lemma OldestIsLeast(fs: seq<Frame>, last: nat)
    requires last < |fs| && fs[last].pins == 0 && fs[last].lastUsed < ULONG_MAX
    requires forall i :: 0 <= i < |fs| && i != last ==> fs[i].lastUsed > fs[last].lastUsed
    ensures Oldest(fs, |fs|) == last
  {
  }

  // Where an access puts its page, and that it touches no other frame.
  lemma AccessMeaning(p: Pool, v: Visit)
    requires Distinct(p.frames) && p.clock + 2 <= ULONG_MAX
    requires forall i :: 0 <= i < |p.frames| && p.frames[i].valid ==> p.frames[i].pins == 0
    ensures var n, q := |p.frames|, Access(p, v);
      var r := if Find(p.frames, v.at) < n then Find(p.frames, v.at) else Victim(p.frames);
      && |q.frames| == n
      && (r != -1 ==>
          && q.clock == p.clock + 2
          && (forall j :: 0 <= j < n && j != r ==> q.frames[j] == p.frames[j])
          && var f := q.frames[r]; f.valid && f.at == v.at && f.pins == 0 && f.lastUsed == p.clock + 1)
  {
    var n := |p.frames|;
    var (f, r) := DoFetch(p, v.at, Whole, Whole);
    if r != -1 {
      assert f.frames[r].valid && f.frames[r].at == v.at && f.frames[r].pins == 1;
      assert forall j :: 0 <= j < n && j != r ==> f.frames[j] == p.frames[j];
      FetchedHere(p, f, r, v.at);
    }
  }

  lemma FetchedHere(p: Pool, f: Pool, r: nat, at: Place)
    requires Distinct(p.frames) && |f.frames| == |p.frames| && r < |f.frames| && Has(f.frames[r], at)
    requires forall j :: 0 <= j < |p.frames| && j != r ==> f.frames[j] == p.frames[j]
    requires Find(p.frames, at) == r || Find(p.frames, at) == |p.frames|
    ensures Find(f.frames, at) == r && Distinct(f.frames)
  {
    if Find(p.frames, at) == r { FindOnly(p.frames, r); }
    forall j | 0 <= j < |p.frames| && j != r ensures !Has(f.frames[j], at) {
      FindOnlyIfValid(p.frames, j);
    }
  }

  // The frames after an access, put between the places of the lists before and after.
  lemma AccessPlaces(p: Pool, q: Pool, r: nat, at: Place, other: Place)
    requires Distinct(p.frames) && |q.frames| == |p.frames| && r < |p.frames| && Has(q.frames[r], at)
    requires Find(p.frames, at) == r || Find(p.frames, at) == |p.frames|
    requires forall j :: 0 <= j < |p.frames| && j != r ==> q.frames[j] == p.frames[j]
    requires other != at
    ensures Find(q.frames, at) == r && Distinct(q.frames)
    ensures Find(q.frames, other) == if Find(p.frames, other) == r then |p.frames| else Find(p.frames, other)
  {
    FetchedHere(p, q, r, at);
    var i := Find(p.frames, other);
    if i < |p.frames| && i != r { FindOnly(q.frames, i); }
    var j := Find(q.frames, other);
    if j < |p.frames| { FindOnly(p.frames, j); }
    if i == r { FindOnly(p.frames, r); }
  }

  // Frame r holds the place, or is free while the list does not fill the frames, or holds the last
  // place of the list that fits.
  ghost predicate Admits(p: Pool, recent: seq<Place>, at: Place, r: nat) {
    var n, i := |p.frames|, Find(p.frames, at);
    && r < n
    && (i == r || (i == n && (if p.frames[r].valid then |recent| >= n && p.frames[r].at == recent[n - 1] else |recent| < n)))
  }

  lemma Admitted(p: Pool, recent: seq<Place>, at: Place)
    requires Follows(p, recent) && |p.frames| > 0 && p.clock <= ULONG_MAX
    ensures var i := Find(p.frames, at); var r := if i < |p.frames| then i else Victim(p.frames);
      r >= 0 && Admits(p, recent, at, r)
  {
    FullExactly(p, recent);
    if Find(p.frames, at) == |p.frames| && |recent| >= |p.frames| { VictimIsLast(p, recent); }
  }

  // How many places of the list fit once at is at its front, and that at was not among those that
  // fit unless it was resident.
  lemma Fitting(p: Pool, recent: seq<Place>, at: Place, r: nat, list: seq<Place>)
    requires Follows(p, recent) && Admits(p, recent, at, r) && Fronted(recent, at, list)
    ensures var n, m, pos := |p.frames|, Min(|p.frames|, |recent|), Position(recent, at);
      var m' := Min(n, |list|);
      && (Find(p.frames, at) == r ==> pos < m && m' == m)
      && (Find(p.frames, at) != r ==> pos >= m && m' == if p.frames[r].valid then n else m + 1)
  {
    var m := Min(|p.frames|, |recent|);
    if Find(p.frames, at) == r {
      var k :| 0 <= k < m && recent[k] == p.frames[r].at;
    } else {
      assert forall k :: 0 <= k < m ==> recent[k] != at;
    }
  }

  // A place after the front keeps its frame.
  lemma KeepsItsFrame(p: Pool, recent: seq<Place>, at: Place, r: nat, list: seq<Place>, k: nat)
    requires Follows(p, recent) && Admits(p, recent, at, r) && Fronted(recent, at, list)
    requires 1 <= k < Min(|p.frames|, |list|)
    ensures var source := Source(recent, at, k);
      && 0 <= source < Min(|p.frames|, |recent|) && list[k] == recent[source] && list[k] != at
      && Find(p.frames, list[k]) < |p.frames| && Find(p.frames, list[k]) != r
  {
    var source := Source(recent, at, k);
    Fitting(p, recent, at, r, list);
    assert list[k] == recent[source] && list[k] != list[0];
    var i := Find(p.frames, recent[source]);
    assert Has(p.frames[i], recent[source]);
  }

  // A place that fitted and keeps its frame is still among those that fit.
  lemma MovesTo(recent: seq<Place>, at: Place, list: seq<Place>, k: nat)
    requires Fronted(recent, at, list) && k < |recent| && k != Position(recent, at)
    ensures var j := if k < Position(recent, at) then k + 1 else k; j < |list| && list[j] == recent[k]
  {
    var j := if k < Position(recent, at) then k + 1 else k;
    assert Source(recent, at, j) == k;
  }

  lemma StaysListed(p: Pool, recent: seq<Place>, at: Place, r: nat, list: seq<Place>, k: nat) returns (j: nat)
    requires Follows(p, recent) && Admits(p, recent, at, r) && Fronted(recent, at, list)
    requires k < Min(|p.frames|, |recent|) && Find(p.frames, recent[k]) != r
    ensures j < Min(|p.frames|, |list|) && list[j] == recent[k]
  {
    Fitting(p, recent, at, r, list);
    var n, m, pos := |p.frames|, Min(|p.frames|, |recent|), Position(recent, at);
    j := if k < pos then k + 1 else k;
    if pos < m {
      assert Find(p.frames, at) == r;
    } else if p.frames[r].valid {
      LastIsNot(p, recent, r, k);
    }
    MovesTo(recent, at, list, k);
  }

  lemma LastIsNot(p: Pool, recent: seq<Place>, r: nat, k: nat)
    requires Distinct(p.frames) && r < |p.frames| && p.frames[r].valid && 0 < |p.frames| <= |recent|
    requires p.frames[r].at == recent[|p.frames| - 1]
    requires k < |p.frames| && Find(p.frames, recent[k]) != r
    ensures k < |p.frames| - 1
  {
    FindOnly(p.frames, r);
  }

  ghost predicate Puts(p: Pool, q: Pool, r: nat, at: Place) {
    && |q.frames| == |p.frames| && r < |p.frames| && q.clock == p.clock + 2
    && (forall j :: 0 <= j < |p.frames| && j != r ==> q.frames[j] == p.frames[j])
    && var f := q.frames[r]; f.valid && f.at == at && f.pins == 0 && f.lastUsed == p.clock + 1
  }

  // Where the places after the front are now, and that they were used before.
  lemma PlaceAfter(p: Pool, recent: seq<Place>, q: Pool, r: nat, at: Place, list: seq<Place>, k: nat)
    requires Follows(p, recent) && Admits(p, recent, at, r) && Puts(p, q, r, at) && Fronted(recent, at, list)
    requires 1 <= k < Min(|p.frames|, |list|)
    ensures var source := Source(recent, at, k);
      && 0 <= source < Min(|p.frames|, |recent|)
      && Find(q.frames, list[k]) == Find(p.frames, recent[source]) < |p.frames|
      && q.frames[Find(q.frames, list[k])].lastUsed == p.frames[Find(p.frames, recent[source])].lastUsed < p.clock
  {
    KeepsItsFrame(p, recent, at, r, list, k);
    AccessPlaces(p, q, r, at, list[k]);
  }

  lemma StampsFollow(p: Pool, recent: seq<Place>, q: Pool, r: nat, at: Place, list: seq<Place>, j: nat, k: nat)
    requires Follows(p, recent) && Admits(p, recent, at, r) && Puts(p, q, r, at) && Fronted(recent, at, list)
    requires Find(q.frames, at) == r
    requires j < k < Min(|p.frames|, |list|)
    ensures var a, b := Find(q.frames, list[j]), Find(q.frames, list[k]);
      a < |q.frames| && b < |q.frames| && q.frames[a].lastUsed > q.frames[b].lastUsed
  {
    PlaceAfter(p, recent, q, r, at, list, k);
    if j > 0 {
      PlaceAfter(p, recent, q, r, at, list, j);
      assert Source(recent, at, j) < Source(recent, at, k);
    }
  }

  lemma FramesListed(p: Pool, recent: seq<Place>, q: Pool, r: nat, at: Place, list: seq<Place>, i: nat)
    requires Follows(p, recent) && Admits(p, recent, at, r) && Puts(p, q, r, at) && Fronted(recent, at, list)
    requires i < |q.frames| && q.frames[i].valid
    ensures q.frames[i].pins == 0 && q.frames[i].at in list[..Min(|q.frames|, |list|)]
  {
    var fitting := list[..Min(|q.frames|, |list|)];
    if i == r { assert fitting[0] == at; }
    else {
      FindOnly(p.frames, i);
      var k :| 0 <= k < Min(|p.frames|, |recent|) && recent[k] == p.frames[i].at;
      var j := StaysListed(p, recent, at, r, list, k);
      assert fitting[j] == p.frames[i].at;
    }
  }

  lemma PutsPlaced(p: Pool, recent: seq<Place>, q: Pool, r: nat, at: Place, list: seq<Place>)
    requires Follows(p, recent) && Admits(p, recent, at, r) && Puts(p, q, r, at) && Fronted(recent, at, list)
    requires Find(q.frames, at) == r
    ensures Placed(q, list) && InOrder(q, list)
  {
    var m := Min(|q.frames|, |list|);
    forall k | 0 <= k < m ensures Find(q.frames, list[k]) < |q.frames| {
      if k > 0 { PlaceAfter(p, recent, q, r, at, list, k); }
    }
    forall j, k | 0 <= j < k < m
      ensures q.frames[Find(q.frames, list[j])].lastUsed > q.frames[Find(q.frames, list[k])].lastUsed
    {
      StampsFollow(p, recent, q, r, at, list, j, k);
    }
  }

  // An access moves its page to the front of the list the pool follows.
  lemma PutsFollows(p: Pool, recent: seq<Place>, q: Pool, r: nat, at: Place, list: seq<Place>)
    requires Follows(p, recent) && Admits(p, recent, at, r) && Puts(p, q, r, at) && Fronted(recent, at, list)
    ensures Follows(q, list)
  {
    FetchedHere(p, q, r, at);
    PutsStamped(p, q, r, at);
    PutsPlaced(p, recent, q, r, at, list);
    assert Listed(q, list) by {
      forall i | 0 <= i < |q.frames| && q.frames[i].valid
        ensures q.frames[i].pins == 0 && q.frames[i].at in list[..Min(|q.frames|, |list|)]
      {
        FramesListed(p, recent, q, r, at, list, i);
      }
    }
  }

  lemma PutsStamped(p: Pool, q: Pool, r: nat, at: Place)
    requires Stamped(p) && Puts(p, q, r, at)
    ensures Stamped(q)
  {
  }

  // After any trace from buffer_init the pool holds the most recently used places that fit, with
  // times of last use in that order.
  lemma {:induction false} TraceFollows(size: nat, disk: Disk, t: seq<Visit>)
    requires size > 0 && 2 * |t| + 1 <= ULONG_MAX
    ensures var p := Trace(Init(size, disk), t);
      Follows(p, Recent(t)) && |p.frames| == size && p.clock == 1 + 2 * |t|
    decreases |t|
  {
    if t != [] {
      var t', v := t[..|t| - 1], t[|t| - 1];
      TraceFollows(size, disk, t');
      var p := Trace(Init(size, disk), t');
      Admitted(p, Recent(t'), v.at);
      AccessMeaning(p, v);
      var i := Find(p.frames, v.at);
      ToFrontMeaning(Recent(t'), v.at);
      PutsFollows(p, Recent(t'), Access(p, v), if i < size then i else Victim(p.frames), v.at, Recent(t));
    }
  }

  predicate Resident(p: Pool, at: Place) {
    Find(p.frames, at) < |p.frames|
  }

  // The resident pages are exactly the most recently used ones.
  lemma ResidentExactly(size: nat, disk: Disk, t: seq<Visit>, at: Place)
    requires size > 0 && 2 * |t| + 1 <= ULONG_MAX
    ensures Resident(Trace(Init(size, disk), t), at) <==> at in Recent(t)[..Min(size, |Recent(t)|)]
  {
    TraceFollows(size, disk, t);
    var p, recent := Trace(Init(size, disk), t), Recent(t);
    if at in recent[..Min(size, |recent|)] {
      var k :| 0 <= k < Min(size, |recent|) && recent[k] == at;
    }
  }

  // A larger pool holds everything a smaller one does.
  lemma LargerHoldsMore(size: nat, larger: nat, disk: Disk, other: Disk, t: seq<Visit>, at: Place)
    requires 0 < size <= larger && 2 * |t| + 1 <= ULONG_MAX
    requires Resident(Trace(Init(size, disk), t), at)
    ensures Resident(Trace(Init(larger, other), t), at)
  {
    ResidentExactly(size, disk, t, at);
    ResidentExactly(larger, other, t, at);
    assert Recent(t)[..Min(size, |Recent(t)|)] <= Recent(t)[..Min(larger, |Recent(t)|)];
  }

  // ----- hits, from the trace alone -----

  predicate Visited(t: seq<Visit>, x: Place) {
    exists i :: 0 <= i < |t| && t[i].at == x
  }

  // The other places visited since the last visit to x.
  function Since(t: seq<Visit>, x: Place): set<Place>
    decreases |t|
  {
    if t == [] || t[|t| - 1].at == x then {} else Since(t[..|t| - 1], x) + {t[|t| - 1].at}
  }

  lemma VisitedGrows(t: seq<Visit>, x: Place)
    requires t != []
    ensures Visited(t, x) <==> Visited(t[..|t| - 1], x) || x == t[|t| - 1].at
  {
    if i :| 0 <= i < |t| && t[i].at == x && i < |t| - 1 { assert t[..|t| - 1][i].at == x; }
  }

  lemma {:induction false} RecentMeaning(t: seq<Visit>, x: Place)
    ensures NoRepeat(Recent(t))
    ensures x in Recent(t) <==> Visited(t, x)
    decreases |t|
  {
    if t != [] {
      var t', at := t[..|t| - 1], t[|t| - 1].at;
      var s := Recent(t');
      assert Recent(t) == ToFront(s, at);
      RecentMeaning(t', x);
      VisitedGrows(t, x);
      ToFrontMembers(s, at, x);
      ToFrontMeaning(s, at);
    }
  }

  // The places before x in the list are those visited since x.
  lemma {:induction false} SinceIsPrefix(t: seq<Visit>, x: Place, y: Place)
    ensures y in Recent(t)[..Position(Recent(t), x)] <==> y in Since(t, x)
    decreases |t|
  {
    if t != [] {
      var t', at := t[..|t| - 1], t[|t| - 1].at;
      var s := Recent(t');
      assert Recent(t) == ToFront(s, at);
      RecentMeaning(t', at);
      if x != at {
        SinceIsPrefix(t', x, y);
        PrefixMoves(s, at, x, y);
      } else {
        assert Position(ToFront(s, at), at) == 0;
      }
    }
  }

  // What comes before x in the list, when another place moves to the front.
  lemma PrefixMoves(s: seq<Place>, at: Place, x: Place, y: Place)
    requires NoRepeat(s) && x != at
    ensures var r := ToFront(s, at); y in r[..Position(r, x)] <==> y == at || y in s[..Position(s, x)]
  {
    var r, k, pos := ToFront(s, at), Position(s, at), Position(s, x);
    ToFrontMeaning(s, at);
    PositionMoves(s, at, x, r);
    if y in s[..pos] { MovedIn(s, at, r, pos, y); }
    if y in r[..Position(r, x)] && y != at {
      var j :| 0 <= j < Position(r, x) && r[j] == y;
      assert s[..pos][Source(s, at, j)] == y;
    }
    assert r[..Position(r, x)][0] == at;
  }

  lemma MovedIn(s: seq<Place>, at: Place, r: seq<Place>, pos: nat, y: Place)
    requires NoRepeat(s) && Fronted(s, at, r) && pos <= |s| && y in s[..pos]
    ensures y == at || y in r[..if pos <= Position(s, at) then pos + 1 else pos]
  {
    var k, q := Position(s, at), if pos <= Position(s, at) then pos + 1 else pos;
    var j :| 0 <= j < pos && s[j] == y;
    if j != k {
      var j' := if j < k then j + 1 else j;
      assert Source(s, at, j') == j;
      assert r[..q][j'] == y;
    }
  }

  lemma PositionMoves(s: seq<Place>, at: Place, x: Place, r: seq<Place>)
    requires NoRepeat(s) && x != at && Fronted(s, at, r)
    ensures Position(r, x) == if Position(s, x) <= Position(s, at) then Position(s, x) + 1 else Position(s, x)
  {
    var pos, k := Position(s, x), Position(s, at);
    var q := if pos <= k then pos + 1 else pos;
    assert forall j :: 1 <= j < |r| && r[j] == x ==> Source(s, at, j) == pos;
    if q < |r| { assert Source(s, at, q) == pos; }
  }

  // An access hits exactly when the place was visited before and fewer places than there are
  // frames were visited since.
  lemma HitExactly(size: nat, disk: Disk, t: seq<Visit>, at: Place)
    requires size > 0 && 2 * |t| + 1 <= ULONG_MAX
    ensures Resident(Trace(Init(size, disk), t), at) <==> Visited(t, at) && |Since(t, at)| < size
  {
    ResidentExactly(size, disk, t, at);
    var recent := Recent(t);
    var k := Position(recent, at);
    RecentMeaning(t, at);
    forall y ensures y in recent[..k] <==> y in Since(t, at) { SinceIsPrefix(t, at, y); }
    Members(recent[..k]);
    assert (set y | y in recent[..k]) == Since(t, at);
  }
}
