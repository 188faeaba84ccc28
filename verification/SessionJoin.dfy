// What JOIN prints, against the pairs of rows it should print.
module SessionJoin {
  import opened Mvcc
  import opened RowCodec
  import opened Session
  import opened SessionRefinement
  import opened SessionProperties

  // ----- the pairs of two pages -----

  // The pairs do_join prints, in order.
  function Pairs(l: TxLog, s: Snapshot, p: Page, q: Page): seq<(string, string)>
    decreases |p|
  {
    if p == [] then []
    else
      var v := p[|p| - 1];
      Pairs(l, s, p[..|p| - 1], q) + (if Sees(l, v.Head(), s) then Partners(l, s, v.value, q) else [])
  }

  function Partners(l: TxLog, s: Snapshot, value: string, q: Page): seq<(string, string)>
    decreases |q|
  {
    if q == [] then []
    else
      var w := q[|q| - 1];
      Partners(l, s, value, q[..|q| - 1]) +
      (if Sees(l, w.Head(), s) && Atoi(value) == Atoi(w.value) then [(value, w.value)] else [])
  }

  // What JOIN prints: it opens the files named like the tables.
  function JoinAnswer(d: Db, t: string, o: string): seq<(string, string)> {
    if JoinOpens(d, t, o) then Pairs(Enter(d).log, Enter(d).snap, FileAt(d, t).page, FileAt(d, o).page) else []
  }

  // ----- the join of two lists of rows -----

  function RowPairs(rows: seq<string>, others: seq<string>): seq<(string, string)> {
    if rows == [] then [] else RowPairs(rows[..|rows| - 1], others) + RowPartners(rows[|rows| - 1], others)
  }

  function RowPartners(row: string, others: seq<string>): seq<(string, string)> {
    if others == [] then []
    else
      var other := others[|others| - 1];
      RowPartners(row, others[..|others| - 1]) + (if Atoi(row) == Atoi(other) then [(row, other)] else [])
  }

  ghost predicate SharedId(rows: seq<string>, others: seq<string>) {
    exists r, o :: r in rows && o in others && Atoi(r) == Atoi(o)
  }

  // (i, j) comes before (k, m) in two nested scans.
  predicate Earlier(a: (nat, nat), b: (nat, nat)) {
    a.0 < b.0 || (a.0 == b.0 && a.1 < b.1)
  }

  // js are the places of the rows that row is joined with, in order, and answer the pairs.
  predicate PartnersOf(row: string, others: seq<string>, answer: seq<(string, string)>, js: seq<nat>) {
    && |js| == |answer|
    && (forall k :: 0 <= k < |js| ==>
          js[k] < |others| && answer[k] == (row, others[js[k]]) && Atoi(row) == Atoi(others[js[k]]))
    && (forall j :: 0 <= j < |others| && Atoi(row) == Atoi(others[j]) ==> j in js)
    && (forall k, m :: 0 <= k < m < |js| ==> js[k] < js[m])
  }

  lemma PartnersNext(row: string, others: seq<string>, last: string, answer: seq<(string, string)>, js: seq<nat>)
    requires PartnersOf(row, others, answer, js)
    ensures if Atoi(row) == Atoi(last) then PartnersOf(row, others + [last], answer + [(row, last)], js + [|others|])
            else PartnersOf(row, others + [last], answer, js)
  {
    var all, n := others + [last], |others|;
    assert (js + [n])[|js|] == n && all[n] == last;
    forall j | 0 <= j < |all| && Atoi(row) == Atoi(all[j]) ensures j in (if Atoi(row) == Atoi(last) then js + [n] else js) {
      if j < n { assert all[j] == others[j] && j in js; }
    }
  }

  lemma PartnersSnoc(row: string, others: seq<string>, last: string)
    ensures RowPartners(row, others + [last]) == RowPartners(row, others) + if Atoi(row) == Atoi(last) then [(row, last)] else []
  {
    assert (others + [last])[..|others + [last]| - 1] == others;
  }

  lemma {:induction false} PartnersAt(row: string, others: seq<string>) returns (js: seq<nat>)
    ensures PartnersOf(row, others, RowPartners(row, others), js)
  {
    js := [];
    if others != [] {
      var front, last := others[..|others| - 1], others[|others| - 1];
      assert others == front + [last];
      js := PartnersAt(row, front);
      PartnersSnoc(row, front, last);
      PartnersNext(row, front, last, RowPartners(row, front), js);
      if Atoi(row) == Atoi(last) { js := js + [|front|]; }
    }
  }

  // ps are the places of the pairs of rows with the same number in front, by the first and then by the
  // second row, and answer the pairs.
  predicate PairsOf(rows: seq<string>, others: seq<string>, answer: seq<(string, string)>, ps: seq<(nat, nat)>) {
    && |ps| == |answer|
    && (forall k :: 0 <= k < |ps| ==>
          && ps[k].0 < |rows| && ps[k].1 < |others| && answer[k] == (rows[ps[k].0], others[ps[k].1])
          && Atoi(rows[ps[k].0]) == Atoi(others[ps[k].1]))
    && (forall i, j :: 0 <= i < |rows| && 0 <= j < |others| && Atoi(rows[i]) == Atoi(others[j]) ==> (i, j) in ps)
    && (forall k, m :: 0 <= k < m < |ps| ==> Earlier(ps[k], ps[m]))
  }

  function InRow(i: nat, js: seq<nat>): (ps: seq<(nat, nat)>)
    ensures |ps| == |js| && forall k :: 0 <= k < |js| ==> ps[k] == (i, js[k])
  {
    seq(|js|, k requires 0 <= k < |js| => (i, js[k]))
  }

  lemma InRowHas(i: nat, js: seq<nat>, j: nat)
    requires j in js
    ensures (i, j) in InRow(i, js)
  {
    var k :| 0 <= k < |js| && js[k] == j;
    assert InRow(i, js)[k] == (i, j);
  }

  lemma InOrder(ps: seq<(nat, nat)>, n: nat, js: seq<nat>, qs: seq<(nat, nat)>)
    requires qs == ps + InRow(n, js) && forall k :: 0 <= k < |ps| ==> ps[k].0 < n
    requires forall k, m :: 0 <= k < m < |ps| ==> Earlier(ps[k], ps[m])
    requires forall k, m :: 0 <= k < m < |js| ==> js[k] < js[m]
    ensures forall k, m :: 0 <= k < m < |qs| ==> Earlier(qs[k], qs[m])
  {
    forall k, m | 0 <= k < m < |qs| ensures Earlier(qs[k], qs[m]) {
      if m >= |ps| { assert qs[m] == (n, js[m - |ps|]); }
      if k >= |ps| { assert qs[k] == (n, js[k - |ps|]); }
    }
  }

  lemma PairsNext(rows: seq<string>, row: string, others: seq<string>, ps: seq<(nat, nat)>, js: seq<nat>,
                  answer: seq<(string, string)>, more: seq<(string, string)>)
    requires PairsOf(rows, others, answer, ps) && PartnersOf(row, others, more, js)
    ensures PairsOf(rows + [row], others, answer + more, ps + InRow(|rows|, js))
  {
    var all, qs := rows + [row], ps + InRow(|rows|, js);
    forall k | 0 <= k < |qs|
      ensures qs[k].0 < |all| && qs[k].1 < |others| && (answer + more)[k] == (all[qs[k].0], others[qs[k].1])
      ensures Atoi(all[qs[k].0]) == Atoi(others[qs[k].1])
    {
      if k < |ps| { assert all[ps[k].0] == rows[ps[k].0]; } else { assert qs[k] == (|rows|, js[k - |ps|]); }
    }
    forall i, j | 0 <= i < |all| && 0 <= j < |others| && Atoi(all[i]) == Atoi(others[j]) ensures (i, j) in qs {
      if i < |rows| { assert (i, j) in ps; } else { InRowHas(|rows|, js, j); }
    }
    InOrder(ps, |rows|, js, qs);
  }

  lemma PairsSnoc(rows: seq<string>, row: string, others: seq<string>)
    ensures RowPairs(rows + [row], others) == RowPairs(rows, others) + RowPartners(row, others)
  {
    assert (rows + [row])[..|rows + [row]| - 1] == rows;
  }

  // The join lists exactly those pairs.
  lemma {:induction false} RowPairsAre(rows: seq<string>, others: seq<string>) returns (ps: seq<(nat, nat)>)
    ensures PairsOf(rows, others, RowPairs(rows, others), ps)
  {
    ps := [];
    if rows != [] {
      var front, row := rows[..|rows| - 1], rows[|rows| - 1];
      assert rows == front + [row];
      var qs := RowPairsAre(front, others);
      var js := PartnersAt(row, others);
      PairsSnoc(front, row, others);
      PairsNext(front, row, others, qs, js, RowPairs(front, others), RowPartners(row, others));
      ps := qs + InRow(|front|, js);
    }
  }

  lemma SharedSnoc(rows: seq<string>, row: string, others: seq<string>)
    ensures SharedId(rows + [row], others) <==> SharedId(rows, others) || SharedId([row], others)
  {
    if r, o :| r in rows + [row] && o in others && Atoi(r) == Atoi(o) {
      if r in rows { assert SharedId(rows, others); } else { assert r in [row]; }
    }
    if SharedId(rows, others) {
      var r, o :| r in rows && o in others && Atoi(r) == Atoi(o);
      assert r in rows + [row];
    }
    if SharedId([row], others) {
      var r, o :| r in [row] && o in others && Atoi(r) == Atoi(o);
      assert r in rows + [row];
    }
  }

  lemma {:induction false} NoPartners(row: string, others: seq<string>)
    ensures RowPartners(row, others) == [] <==> forall i :: 0 <= i < |others| ==> Atoi(row) != Atoi(others[i])
  {
    if others != [] {
      var n := |others| - 1;
      NoPartners(row, others[..n]);
      assert forall i :: 0 <= i < n ==> others[..n][i] == others[i];
    }
  }

  lemma {:induction false} NoPairs(rows: seq<string>, others: seq<string>)
    ensures RowPairs(rows, others) == [] <==> !SharedId(rows, others)
  {
    if rows != [] {
      var front, row := rows[..|rows| - 1], rows[|rows| - 1];
      assert rows == front + [row];
      NoPairs(front, others);
      NoPartners(row, others);
      OneShared(row, others);
      SharedSnoc(front, row, others);
    }
  }

  lemma OneShared(row: string, others: seq<string>)
    ensures SharedId([row], others) <==> exists o :: o in others && Atoi(row) == Atoi(o)
  {
    if o :| o in others && Atoi(row) == Atoi(o) { assert row in [row]; }
    if SharedId([row], others) {
      var r, o :| r in [row] && o in others && Atoi(r) == Atoi(o);
      assert r == row;
    }
  }

  // Two nested scans over versions are the join of the visible rows.
  lemma {:induction false} PartnersAreRowPartners(l: TxLog, s: Snapshot, value: string, q: Page)
    ensures Partners(l, s, value, q) == RowPartners(value, Visible(l, s, q))
    decreases |q|
  {
    if q != [] {
      var n := |q| - 1;
      PartnersAreRowPartners(l, s, value, q[..n]);
      if Sees(l, q[n].Head(), s) {
        var rows := Visible(l, s, q);
        assert rows == Visible(l, s, q[..n]) + [q[n].value];
        assert rows[..|rows| - 1] == Visible(l, s, q[..n]);
      } else {
        assert Visible(l, s, q) == Visible(l, s, q[..n]);
      }
    }
  }

  lemma {:induction false} PairsAreRowPairs(l: TxLog, s: Snapshot, p: Page, q: Page)
    ensures Pairs(l, s, p, q) == RowPairs(Visible(l, s, p), Visible(l, s, q))
    decreases |p|
  {
    if p != [] {
      var n := |p| - 1;
      PairsAreRowPairs(l, s, p[..n], q);
      if Sees(l, p[n].Head(), s) {
        PartnersAreRowPartners(l, s, p[n].value, q);
        var rows := Visible(l, s, p);
        assert rows == Visible(l, s, p[..n]) + [p[n].value];
        assert rows[..|rows| - 1] == Visible(l, s, p[..n]);
      } else {
        assert Visible(l, s, p) == Visible(l, s, p[..n]);
      }
    }
  }

  // ----- JOIN in runs -----

  // Two tables named by their paths below data are joined as one expects.
  lemma JoinReadsPaths(d: Db, u: string, w: string)
    requires u in d.pages && w in d.pages && d.db + "/" + u in d.columns && d.db + "/" + w in d.columns
    ensures JoinAnswer(d, d.db + "/" + u, d.db + "/" + w) == RowPairs(Printed(d, u), Printed(d, w))
  {
    OwnFile(d, u);
    OwnFile(d, w);
    PairsAreRowPairs(Enter(d).log, Enter(d).snap, d.pages[u], d.pages[w]);
  }

  lemma BareName(db: string, path: string)
    requires Under(db, path)
    ensures '/' in path
  {
    assert (db + "/")[|db|] == '/' == path[|db|];
  }

  lemma UnwrittenIsEmpty(d: Db, ss: seq<Stmt>, path: string)
    requires Initial(d) && Unwritten(path)
    ensures FileAt(Run(d, ss), path) in {NoFile, File([])}
  {
    FilesStay(d, ss);
    if Under("default", path) {
      assert path[..8] == "default/";
      assert path == PathOf("default", path[8..]);
      OneDirectory(d.db, "default", path[8..]);
    } else {
      if Under(d.db, path) { BareName(d.db, path); }
    }
  }

  // In every run the JOIN of two tables, one of them named in a directory no statement writes to, as by
  // a name without a slash, prints nothing, which is right if and only if they share no visible id.
  lemma JoinExactly(d: Db, ss: seq<Stmt>, t: string, o: string)
    requires Initial(d) && StraightNames(d) && t in d.pages && o in d.pages && (Unwritten(t) || Unwritten(o))
    ensures var e := Run(d, ss);
      && t in e.pages && o in e.pages && JoinAnswer(e, t, o) == []
      && (JoinAnswer(e, t, o) == RowPairs(Printed(e, t), Printed(e, o)) <==> !SharedId(Printed(e, t), Printed(e, o)))
  {
    var e := Run(d, ss);
    SamePages(d, ss);
    NoPairs(Printed(e, t), Printed(e, o));
    if JoinOpens(e, t, o) {
      var l, s, p, q := Enter(e).log, Enter(e).snap, FileAt(e, t).page, FileAt(e, o).page;
      PairsAreRowPairs(l, s, p, q);
      NoPairs(Visible(l, s, p), Visible(l, s, q));
      if Unwritten(t) { UnwrittenIsEmpty(d, ss, t); } else { UnwrittenIsEmpty(d, ss, o); }
    }
  }

  // The failing run: an INSERT into each of two tables, of rows with the same id.
  lemma JoinMisses(d: Db, t: string, o: string, v: string, w: string)
    requires Initial(d) && StraightNames(d) && t in d.pages && o in d.pages && t != o && '/' !in t && '/' !in o
    requires Atoi(Cut(v, STORED_MAX)) == Atoi(Cut(w, STORED_MAX))
    ensures var e := Run(d, [Insert(t, v), Insert(o, w)]);
      && t in e.pages && o in e.pages
      && Printed(e, t) == [Cut(v, STORED_MAX)] && Printed(e, o) == [Cut(w, STORED_MAX)]
      && RowPairs(Printed(e, t), Printed(e, o)) == [(Cut(v, STORED_MAX), Cut(w, STORED_MAX))]
      && JoinAnswer(e, t, o) == []
  {
    var ss := [Insert(t, v), Insert(o, w)];
    var e, a := Run(d, ss), PlainRun(EmptyPlain(d), d.columns, ss);
    TwoInserts(d, t, o, v, w);
    FromTheStart(d, ss);
    SamePages(d, ss);
    RunSound(d, ss);
    SelectShowsWorking(e, a, t);
    SelectShowsWorking(e, a, o);
    JoinExactly(d, ss, t, o);
    OnePair(Cut(v, STORED_MAX), Cut(w, STORED_MAX));
  }

  lemma TwoInserts(d: Db, t: string, o: string, v: string, w: string)
    requires t in d.pages && o in d.pages && t != o
    ensures var ss := [Insert(t, v), Insert(o, w)];
      var a := PlainRun(EmptyPlain(d), d.columns, ss);
      && GuardedRun(d, ss) && t in a.working && o in a.working
      && a.working[t] == [Cut(v, STORED_MAX)] && a.working[o] == [Cut(w, STORED_MAX)]
  {
    var ss, a := [Insert(t, v), Insert(o, w)], EmptyPlain(d);
    var b := PlainStep(a, d.columns, ss[0]);
    assert ss[..1] == [ss[0]] && [ss[0]][..0] == [];
    assert GuardedRun(d, [ss[0]][..0]) && GuardedRun(d, [ss[0]]) && PlainRun(a, d.columns, [ss[0]][..0]) == a;
    assert PlainRun(a, d.columns, [ss[0]]) == b;
    assert b.working[t] == [Cut(v, STORED_MAX)] && b.working[o] == [];
    assert PlainRun(a, d.columns, ss) == PlainStep(b, d.columns, ss[1]);
  }

  lemma OnePair(r: string, o: string)
    requires Atoi(r) == Atoi(o)
    ensures RowPairs([r], [o]) == [(r, o)]
  {
    assert [r][..0] == [] && [o][..0] == [];
    assert RowPartners(r, [o]) == [(r, o)];
  }
}
