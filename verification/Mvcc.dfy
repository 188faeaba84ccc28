// transaction/mvcc.c: the transaction status table, snapshots and the visibility rule.
module Mvcc {

  const MAX_TX := 100
  const MAX_ACTIVE := 100

  datatype Status = Free | Active | Committed | Aborted

  datatype TxEntry = TxEntry(txId: int, status: Status)

  datatype Header = Header(xmin: int, xmax: int)

  // The C struct holds the active ids in a fixed array with a count.
  datatype Snapshot = Snapshot(txId: int, xmin: int, xmax: int, active: seq<int>)

  // ----- what the table means -----

  // Ids are handed out as 1, 2, 3, ...; only the first MAX_TX of them get an entry.
  datatype TxLog = TxLog(begun: nat, status: seq<Status>)

  predicate ValidLog(l: TxLog) {
    && |l.status| == (if l.begun < MAX_TX then l.begun else MAX_TX)
    && forall i :: 0 <= i < |l.status| ==> l.status[i] != Free
  }

  const EmptyLog := TxLog(0, [])

  function Recorded(l: TxLog, id: int): bool {
    1 <= id <= |l.status|
  }

  function Has(l: TxLog, id: int, s: Status): bool {
    Recorded(l, id) && l.status[id - 1] == s
  }

  // An id that is not in the table counts as committed before a restart.
  function IsCommittedIn(l: TxLog, id: int): bool {
    !Recorded(l, id) || l.status[id - 1] == Committed
  }

  // mvcc_begin; the new id is begun + 1.
  function Begun(l: TxLog): TxLog {
    TxLog(l.begun + 1, if |l.status| < MAX_TX then l.status + [Active] else l.status)
  }

  function WithStatus(l: TxLog, id: int, s: Status): TxLog {
    if Recorded(l, id) then l.(status := l.status[id - 1 := s]) else l
  }

  // The active transactions among the first n entries, except tx.
  function ActiveAmong(l: TxLog, tx: int, n: nat): seq<int>
    requires n <= |l.status|
  {
    if n == 0 then []
    else ActiveAmong(l, tx, n - 1) + (if l.status[n - 1] == Active && n != tx then [n] else [])
  }

  // The first MAX_ACTIVE of them.
  function Cap(s: seq<int>): seq<int> {
    if |s| <= MAX_ACTIVE then s else s[..MAX_ACTIVE]
  }

  function TakeSnapshot(l: TxLog, tx: int): Snapshot {
    var a := ActiveAmong(l, tx, |l.status|);
    Snapshot(tx, if a == [] then l.begun + 1 else a[0], l.begun + 1, Cap(a))
  }

  // mvcc_is_visible.
  function Sees(l: TxLog, h: Header, s: Snapshot): bool {
    if h.xmin == s.txId then h.xmax == 0 || h.xmax == s.txId
    else if !IsCommittedIn(l, h.xmin) then false
    else if h.xmin in s.active then false
    else if h.xmax == 0 then true
    else if h.xmax == s.txId then false
    else if !IsCommittedIn(l, h.xmax) then true
    else h.xmax in s.active
  }

  lemma {:induction false} ActiveAmongMeaning(l: TxLog, tx: int, n: nat)
    requires n <= |l.status|
    ensures |ActiveAmong(l, tx, n)| <= n
    ensures forall x :: x in ActiveAmong(l, tx, n) <==> 1 <= x <= n && l.status[x - 1] == Active && x != tx
    ensures var a := ActiveAmong(l, tx, n); forall i, j :: 0 <= i < j < |a| ==> a[i] < a[j]
  {
    if n > 0 {
      ActiveAmongMeaning(l, tx, n - 1);
      var a, b := ActiveAmong(l, tx, n - 1), ActiveAmong(l, tx, n);
      forall x ensures x in b <==> 1 <= x <= n && l.status[x - 1] == Active && x != tx {
        assert x in b <==> x in a || (x == n && l.status[n - 1] == Active && n != tx);
      }
      assert forall i :: 0 <= i < |a| ==> a[i] in a;
    }
  }

  // A snapshot lists exactly the other active transactions; its xmin is the least of them, or else the
  // next id, which is its xmax.
  lemma SnapshotIsExact(l: TxLog, tx: int)
    requires ValidLog(l)
    ensures var s := TakeSnapshot(l, tx);
      && (forall x :: x in s.active <==> Has(l, x, Active) && x != tx)
      && (forall x :: Has(l, x, Active) && x != tx ==> s.xmin <= x)
      && (s.xmin == l.begun + 1 || s.xmin in s.active) && (s.active == [] ==> s.xmin == l.begun + 1)
      && s.xmin <= s.xmax == l.begun + 1
  {
    ActiveAmongMeaning(l, tx, |l.status|);
    var a := ActiveAmong(l, tx, |l.status|);
    forall x | x in a ensures a[0] <= x {
      var i :| 0 <= i < |a| && a[i] == x;
      assert i > 0 ==> a[0] < a[i];
    }
    if a != [] { assert a[0] in a; }
  }

  // What the loop of mvcc_create_snapshot has collected from the first n entries.
  predicate Collected(l: TxLog, tx: int, n: nat, active: seq<int>, xmin: int)
    requires n <= |l.status|
  {
    && active == Cap(ActiveAmong(l, tx, n))
    && xmin == (if active == [] then l.begun + 1 else active[0])
    && (active != [] ==> 1 <= active[0] <= n)
  }

  lemma CollectedNext(l: TxLog, tx: int, n: nat, active: seq<int>, xmin: int)
    requires ValidLog(l) && n < |l.status| && Collected(l, tx, n, active, xmin)
    ensures if l.status[n] == Active && n + 1 != tx
      then Collected(l, tx, n + 1, if |active| < MAX_ACTIVE then active + [n + 1] else active, if n + 1 < xmin then n + 1 else xmin)
      else Collected(l, tx, n + 1, active, xmin)
  {
  }

  // ----- the code -----

  class TxTable {
    const entries: array<TxEntry>
    var nextTxId: int

    ghost predicate Valid()
      reads this, entries
    {
      && entries.Length == MAX_TX && nextTxId >= 1
      && forall i :: 0 <= i < MAX_TX ==>
        if i < nextTxId - 1 then entries[i].txId == i + 1 && entries[i].status != Free else entries[i].txId == 0
    }

    ghost function Log(): (l: TxLog)
      requires Valid()
      reads this, entries
      ensures ValidLog(l)
    {
      var n := if nextTxId - 1 < MAX_TX then nextTxId - 1 else MAX_TX;
      TxLog(nextTxId - 1, seq(n, i requires 0 <= i < n reads this, entries => entries[i].status))
    }

    constructor ()
      ensures Valid() && fresh(entries) && Log() == EmptyLog
    {
      entries := new TxEntry[MAX_TX](_ => TxEntry(0, Free));
      nextTxId := 1;
      new;
      assert Log().status == [];
    }

    // mvcc_init
    method Init()
      requires Valid()
      modifies this, entries
      ensures Valid() && Log() == EmptyLog
    {
      for i := 0 to MAX_TX
        modifies entries
        invariant forall j :: 0 <= j < i ==> entries[j] == TxEntry(0, Free)
      {
        entries[i] := TxEntry(0, Free);
      }
      nextTxId := 1;
      assert Log().status == [];
    }

    method Begin() returns (txId: int)
      requires Valid()
      modifies this, entries
      ensures Valid() && Log() == Begun(old(Log())) && txId == Log().begun
    {
      ghost var n := |Log().status|;
      txId := nextTxId;
      nextTxId := nextTxId + 1;
      var i := 0;
      while i < MAX_TX && entries[i].txId != 0
        invariant 0 <= i <= n <= MAX_TX
      {
        i := i + 1;
      }
      if i < MAX_TX {
        entries[i] := TxEntry(txId, Active);
      }
      assert Log().status == Begun(old(Log())).status;
    }

    // The loop of mvcc_commit and mvcc_abort.
    method SetStatus(txId: int, s: Status)
      requires Valid() && s != Free
      modifies entries
      ensures Valid() && Log() == WithStatus(old(Log()), txId, s)
    {
      assert Recorded(Log(), txId) ==> entries[txId - 1].txId == txId;
      var i := 0;
      while i < MAX_TX && entries[i].txId != txId
        invariant 0 <= i <= MAX_TX
        invariant forall j :: 0 <= j < i ==> entries[j].txId != txId
      {
        i := i + 1;
      }
      if i < MAX_TX {
        entries[i] := entries[i].(status := s);
      }
      assert Log().status == WithStatus(old(Log()), txId, s).status;
    }

    method Commit(txId: int)
      requires Valid()
      modifies entries
      ensures Valid() && Log() == WithStatus(old(Log()), txId, Committed)
    {
      SetStatus(txId, Committed);
    }

    method Abort(txId: int)
      requires Valid()
      modifies entries
      ensures Valid() && Log() == WithStatus(old(Log()), txId, Aborted)
    {
      SetStatus(txId, Aborted);
    }

    method IsCommitted(txId: int) returns (result: bool)
      requires Valid()
      ensures result == IsCommittedIn(Log(), txId)
    {
      if txId == 0 {
        return true;
      }
      assert Recorded(Log(), txId) ==> entries[txId - 1].txId == txId;
      for i := 0 to MAX_TX
        invariant forall j :: 0 <= j < i ==> entries[j].txId != txId
      {
        if entries[i].txId == txId {
          return entries[i].status == Committed;
        }
      }
      return true;
    }

    method CreateSnapshot(txId: int) returns (snapshot: Snapshot)
      requires Valid()
      ensures snapshot == TakeSnapshot(Log(), txId)
    {
      var xmin, active := nextTxId, [];
      ghost var l := Log();
      for i := 0 to MAX_TX
        invariant Collected(l, txId, if i < |l.status| then i else |l.status|, active, xmin)
      {
        if i < |l.status| { CollectedNext(l, txId, i, active, xmin); }
        if entries[i].txId != 0 && entries[i].status == Active && entries[i].txId != txId {
          if |active| < MAX_ACTIVE {
            active := active + [entries[i].txId];
          }
          if entries[i].txId < xmin {
            xmin := entries[i].txId;
          }
        }
      }
      return Snapshot(txId, xmin, nextTxId, active);
    }

    static method SnapshotContains(snapshot: Snapshot, txId: int) returns (found: bool)
      ensures found <==> txId in snapshot.active
    {
      for i := 0 to |snapshot.active|
        invariant txId !in snapshot.active[..i]
      {
        if snapshot.active[i] == txId {
          return true;
        }
      }
      return false;
    }

    method IsVisible(header: Header, snapshot: Snapshot) returns (visible: bool)
      requires Valid()
      ensures visible == Sees(Log(), header, snapshot)
    {
      if header.xmin == snapshot.txId {
        return header.xmax == 0 || header.xmax == snapshot.txId;
      }
      var committed := IsCommitted(header.xmin);
      if !committed {
        return false;
      }
      var running := SnapshotContains(snapshot, header.xmin);
      if running {
        return false;
      }
      if header.xmax == 0 {
        return true;
      }
      if header.xmax == snapshot.txId {
        return false;
      }
      committed := IsCommitted(header.xmax);
      if !committed {
        return true;
      }
      running := SnapshotContains(snapshot, header.xmax);
      return running;
    }
  }
}
