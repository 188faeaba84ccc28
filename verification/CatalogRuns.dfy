// What creating and removing tables keeps, over every run and across a restart.
module CatalogRuns {
  import opened RowCodec
  import opened Catalog
  import opened CatalogProperties

  predicate UniqueNames(ts: seq<Table>) {
    forall i, j :: 0 <= i < j < |ts| ==> ts[i].name != ts[j].name
  }

  // The tables with other names, in order.
  function Others(ts: seq<Table>, name: string): (r: seq<Table>)
    ensures forall i :: 0 <= i < |r| ==> r[i].name != name
  {
    if ts == [] then [] else (if ts[0].name == name then [] else [ts[0]]) + Others(ts[1..], name)
  }

  lemma {:induction false} OthersConcat(a: seq<Table>, b: seq<Table>, name: string)
    ensures Others(a + b, name) == Others(a, name) + Others(b, name)
  {
    if a == [] { assert a + b == b; }
    else {
      assert (a + b)[1..] == a[1..] + b;
      OthersConcat(a[1..], b, name);
    }
  }

  lemma {:induction false} OthersOfOthers(ts: seq<Table>, name: string)
    requires forall i :: 0 <= i < |ts| ==> ts[i].name != name
    ensures Others(ts, name) == ts
  {
    if ts != [] { OthersOfOthers(ts[1..], name); }
  }

  lemma {:induction false} OthersWithout(ts: seq<Table>, i: nat)
    requires UniqueNames(ts) && i < |ts|
    ensures Others(ts, ts[i].name) == ts[..i] + ts[i + 1..]
    decreases i
  {
    if i == 0 {
      OthersOfOthers(ts[1..], ts[0].name);
    } else {
      OthersWithout(ts[1..], i - 1);
      assert ts[..i] + ts[i + 1..] == [ts[0]] + (ts[1..][..i - 1] + ts[1..][i..]);
    }
  }

  lemma UniqueWithout(ts: seq<Table>, i: nat)
    requires UniqueNames(ts) && i < |ts|
    ensures var us := ts[..i] + ts[i + 1..]; UniqueNames(us) && ts[i].name !in Names(us)
  {
    var us := ts[..i] + ts[i + 1..];
    assert forall j :: 0 <= j < |us| ==> us[j] == if j < i then ts[j] else ts[j + 1];
  }

  lemma NotNamed(ts: seq<Table>, name: string)
    requires Lookup(ts, name) == |ts|
    ensures name !in Names(ts)
  {
    forall j | 0 <= j < |ts| ensures Names(ts)[j] != name { assert ts[j].name != name; }
  }

  lemma Named(ts: seq<Table>, i: nat)
    requires i < |ts|
    ensures ts[i].name in Names(ts)
  {
    assert Names(ts)[i] == ts[i].name;
  }

  // Removing a table leaves the others, in order, and nothing of that name.
  lemma RemoveLeavesOthers(ts: seq<Table>, name: string)
    requires UniqueNames(ts)
    ensures var (us, rc) := Removed(ts, name);
      && us == Others(ts, name) && UniqueNames(us) && name !in Names(us)
      && (rc == 0 <==> name in Names(ts))
  {
    var i := Lookup(ts, name);
    if i < |ts| {
      OthersWithout(ts, i);
      UniqueWithout(ts, i);
      Named(ts, i);
    } else {
      OthersOfOthers(ts, name);
      NotNamed(ts, name);
    }
  }

  lemma LookupLast(ts: seq<Table>, t: Table)
    requires Lookup(ts, t.name) == |ts|
    ensures Lookup(ts + [t], t.name) == |ts|
  {
    var us := ts + [t];
    assert us[|ts|] == t && forall j :: 0 <= j < |ts| ==> us[j] == ts[j];
  }

  lemma UniqueWith(ts: seq<Table>, t: Table)
    requires UniqueNames(ts) && Lookup(ts, t.name) == |ts|
    ensures UniqueNames(ts + [t]) && t.name in Names(ts + [t]) && t.name !in Names(ts) && Lookup(ts + [t], t.name) == |ts|
  {
    NotNamed(ts, t.name);
    LookupLast(ts, t);
    var us := ts + [t];
    assert Names(us)[|ts|] == t.name;
    forall i, j | 0 <= i < j < |us| ensures us[i].name != us[j].name {
      if j == |ts| { assert us[i] == ts[i]; }
    }
  }

  lemma OthersWith(ts: seq<Table>, t: Table)
    ensures Others(ts + [t], t.name) == Others(ts, t.name)
  {
    OthersConcat(ts, [t], t.name);
    assert [t][1..] == [] && Others([t], t.name) == [];
  }

  // Creating a table leaves the others, in order, and adds it as it was given at the end, unless its name
  // is taken or there are sixty-four.
  lemma CreateAddsOne(ts: seq<Table>, t: Table)
    requires UniqueNames(ts)
    ensures var (us, rc) := Created(ts, t);
      && UniqueNames(us) && Others(us, t.name) == Others(ts, t.name)
      && (t.name in Names(ts) ==> us == ts && rc == 0)
      && (t.name !in Names(ts) && |ts| >= 64 ==> us == ts && rc == -1)
      && (t.name !in Names(ts) && |ts| < 64 ==> rc == 0 && |us| == |ts| + 1 && us[..|ts|] == ts && AsGiven(us[|ts|], t))
  {
    var i := Lookup(ts, t.name);
    if i < |ts| {
      assert Names(ts)[i] == t.name;
    } else {
      UniqueWith(ts, Numbered(t));
      OthersWith(ts, Numbered(t));
    }
  }

  // A table created by name alone has the name, cut to 63 characters, and one column "value", a VARCHAR of
  // 255 that is no key and refers to nothing.
  lemma PlainAddsOne(ts: seq<Table>, name: string)
    ensures var (us, rc) := CreatedPlain(ts, name);
      && (name in Names(ts) ==> us == ts && rc == 0)
      && (name !in Names(ts) && |ts| >= 64 ==> us == ts && rc == -1)
      && (name !in Names(ts) && |ts| < 64 ==>
            && rc == 0 && |us| == |ts| + 1 && us[..|ts|] == ts
            && var u := us[|ts|];
            && u.name == (if |name| <= 63 then name else name[..63]) && u.nextAutoId == 1
            && u.numColumns == 1 && |u.columns| == 16 && u.columns[0] == Column("value", 2, 255, 0, 0, 0, "", ""))
  {
    var i := Lookup(ts, name);
    if i < |ts| { assert Names(ts)[i] == name; } else { NotNamed(ts, name); }
  }

  // catalog_create_table compares the name before cutting it: the names stay unique exactly when the
  // name is short enough, or there is no room, or the cut name is new.
  lemma PlainKeepsUniqueExactly(ts: seq<Table>, name: string)
    requires UniqueNames(ts) && (forall i :: 0 <= i < |ts| ==> |ts[i].name| <= WORD_MAX)
    ensures UniqueNames(CreatedPlain(ts, name).0) <==>
            |name| <= WORD_MAX || |ts| >= MAX_TABLES || Cut(name, WORD_MAX) !in Names(ts)
  {
    var us := CreatedPlain(ts, name).0;
    if |name| > WORD_MAX && |ts| < MAX_TABLES {
      assert us == ts + [Plain(name)];
      if Cut(name, WORD_MAX) in Names(ts) {
        var i :| 0 <= i < |ts| && Names(ts)[i] == Cut(name, WORD_MAX);
        assert us[i].name == us[|ts|].name;
      } else {
        forall i | 0 <= i < |ts| ensures us[i].name != us[|ts|].name { assert Names(ts)[i] == ts[i].name; }
      }
    }
  }

  // ----- runs -----

  datatype Op = Create(table: Table) | Remove(name: string)

  // A list and the file that goes with it, each save succeeding.
  datatype Saved = Saved(tables: seq<Table>, file: File)

  predicate OkOp(op: Op) {
    op.Create? ==> GoodTable(op.table)
  }

  predicate OkOps(ops: seq<Op>) {
    forall i :: 0 <= i < |ops| ==> OkOp(ops[i])
  }

  predicate Kept(s: Saved) {
    && UniqueNames(s.tables) && Savable(s.tables) && AllSized(s.tables)
    && s.file == if s.tables == [] && s.file.Missing? then Missing else Text(SaveText(s.tables))
  }

  // A call that changes the list saves it.
  function Apply(s: Saved, op: Op): (r: Saved)
    requires AllSized(s.tables) && OkOp(op)
    ensures AllSized(r.tables)
  {
    match op
    case Create(t) =>
      var ts := Created(s.tables, t).0;
      if |ts| > |s.tables| then Saved(ts, Text(SaveText(ts))) else s
    case Remove(name) =>
      var (ts, rc) := Removed(s.tables, name);
      if rc == 0 then Saved(ts, Text(SaveText(ts))) else s
  }

  function ApplyAll(ops: seq<Op>): (r: Saved)
    requires OkOps(ops)
    ensures AllSized(r.tables)
    decreases |ops|
  {
    if ops == [] then Saved([], Missing) else Apply(ApplyAll(ops[..|ops| - 1]), ops[|ops| - 1])
  }

  lemma CreatedSavable(ts: seq<Table>, t: Table)
    requires Savable(ts) && GoodTable(t)
    ensures Savable(Created(ts, t).0)
  {
    assert GoodTable(Numbered(t)) by { assert InUse(Numbered(t)) == InUse(t); }
  }

  lemma RemovedSavable(ts: seq<Table>, name: string)
    requires Savable(ts)
    ensures Savable(Removed(ts, name).0)
  {
    var us, i := Removed(ts, name).0, Lookup(ts, name);
    forall j | 0 <= j < |us| ensures GoodTable(us[j]) {
      assert us[j] == if j < i then ts[j] else ts[j + 1];
    }
  }

  lemma ApplyKeeps(s: Saved, op: Op)
    requires Kept(s) && OkOp(op)
    ensures Kept(Apply(s, op))
  {
    match op {
      case Create(t) =>
        CreateAddsOne(s.tables, t);
        CreatedSavable(s.tables, t);
      case Remove(name) =>
        RemoveLeavesOthers(s.tables, name);
        RemovedSavable(s.tables, name);
    }
  }

  lemma {:induction false} RunKeeps(ops: seq<Op>)
    requires OkOps(ops)
    ensures Kept(ApplyAll(ops))
    decreases |ops|
  {
    if ops != [] {
      RunKeeps(ops[..|ops| - 1]);
      ApplyKeeps(ApplyAll(ops[..|ops| - 1]), ops[|ops| - 1]);
    }
  }

  // Operation k created the table of this name as it was given, and none after it removed it.
  ghost predicate GivenBy(ops: seq<Op>, u: Table, k: nat)
    requires OkOps(ops)
  {
    && k < |ops| && ops[k].Create? && AsGiven(u, ops[k].table)
    && u.name !in Names(ApplyAll(ops[..k]).tables) && |ApplyAll(ops[..k]).tables| < 64
    && forall j :: k < j < |ops| ==> ops[j] != Remove(u.name)
  }

  lemma GivenLater(all: seq<Op>, ops: seq<Op>, op: Op, u: Table, k: nat)
    requires OkOps(ops) && OkOps(all) && all == ops + [op] && GivenBy(ops, u, k) && op != Remove(u.name)
    ensures GivenBy(all, u, k)
  {
    assert all[..k] == ops[..k];
    forall j | k < j < |all| ensures all[j] != Remove(u.name) { assert j < |ops| ==> all[j] == ops[j]; }
  }

  lemma WasThere(ts: seq<Table>, name: string, i: nat) returns (j: nat)
    requires UniqueNames(ts) && i < |Removed(ts, name).0|
    ensures j < |ts| && ts[j] == Removed(ts, name).0[i] && ts[j].name != name
  {
    var us := Removed(ts, name).0;
    var at := Lookup(ts, name);
    j := if i < at then i else i + 1;
    RemoveLeavesOthers(ts, name);
    assert Names(us)[i] == us[i].name;
  }

  lemma CreatedLast(ts: seq<Table>, t: Table, i: nat)
    requires UniqueNames(ts) && i < |Created(ts, t).0|
    ensures var us := Created(ts, t).0;
      if i < |ts| then us[i] == ts[i] else t.name !in Names(ts) && |ts| < 64 && AsGiven(us[i], t)
  {
    CreateAddsOne(ts, t);
  }

  lemma GivenNow(all: seq<Op>, ops: seq<Op>, op: Op, u: Table)
    requires OkOps(ops) && OkOps(all) && all == ops + [op] && op.Create? && AsGiven(u, op.table)
    requires u.name !in Names(ApplyAll(ops).tables) && |ApplyAll(ops).tables| < 64
    ensures GivenBy(all, u, |ops|)
  {
    assert all[..|ops|] == ops;
  }

  lemma LastApart(ops: seq<Op>)
    requires ops != []
    ensures ops == ops[..|ops| - 1] + [ops[|ops| - 1]]
  {
  }

  // Where a table of the list after one more operation comes from: this operation, or place j before.
  lemma ComesFrom(s: Saved, op: Op, i: nat) returns (j: nat)
    requires AllSized(s.tables) && UniqueNames(s.tables) && OkOp(op) && i < |Apply(s, op).tables|
    ensures var u := Apply(s, op).tables[i];
      if j < |s.tables| then u == s.tables[j] && op != Remove(u.name)
      else op.Create? && AsGiven(u, op.table) && u.name !in Names(s.tables) && |s.tables| < 64
  {
    j := i;
    if op.Create? {
      CreatedLast(s.tables, op.table, i);
    } else if Removed(s.tables, op.name).1 == 0 {
      j := WasThere(s.tables, op.name, i);
    } else {
      RemoveLeavesOthers(s.tables, op.name);
      assert Names(s.tables)[i] == s.tables[i].name;
    }
  }

  // Over every run each table listed is the one its last successful creation was given.
  lemma {:induction false} TablesAreGiven(ops: seq<Op>, i: nat) returns (k: nat)
    requires OkOps(ops) && i < |ApplyAll(ops).tables|
    ensures GivenBy(ops, ApplyAll(ops).tables[i], k)
    decreases |ops|
  {
    var front, op := ops[..|ops| - 1], ops[|ops| - 1];
    LastApart(ops);
    RunKeeps(front);
    var j := ComesFrom(ApplyAll(front), op, i);
    if j < |ApplyAll(front).tables| {
      k := TablesAreGiven(front, j);
      GivenLater(ops, front, op, ApplyAll(front).tables[j], k);
    } else {
      k := |front|;
      GivenNow(ops, front, op, ApplyAll(ops).tables[i]);
    }
  }

  // After any run a new process lists the same tables, exactly when none refers to "-".
  lemma RestartRestoresExactly(ops: seq<Op>)
    requires OkOps(ops)
    ensures var s := ApplyAll(ops);
      SameTables(Listed(Init(ProcessStart, s.file)), s.tables) <==> NoDashes(s.tables)
  {
    RunKeeps(ops);
    var s := ApplyAll(ops);
    if s.file.Text? { InitUndoesSaveExactly(s.tables); }
  }
}
