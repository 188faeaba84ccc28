// The index that rebuild_index_for_table makes of a page, against the one the statements keep.
module SessionRebuild {
  import opened Mvcc
  import opened RowCodec
  import opened Session
  import opened SessionIndex
  import opened SessionLookup

  // rebuild_index_for_table: enter every version that is not marked, in slot order.
  function Rebuilt(p: Page): map<int, nat>
    decreases |p|
  {
    if p == [] then map[]
    else
      var n: nat := |p| - 1;
      var r := Rebuilt(p[..n]);
      if Atoi(p[n].value) > 0 && p[n].xmax == 0 then r[Atoi(p[n].value) := n] else r
  }

  // The last unmarked slot of k.
  ghost predicate LastUnmarked(p: Page, k: int, i: nat) {
    && i < |p| && KeyAt(p, i) == k && p[i].xmax == 0
    && forall j {:trigger KeyAt(p, j)} :: i < j < |p| && KeyAt(p, j) == k ==> p[j].xmax != 0
  }

  lemma {:induction false} RebuiltMeaning(p: Page, k: int)
    ensures k in Rebuilt(p) ==> k > 0 && LastUnmarked(p, k, Rebuilt(p)[k])
    ensures k > 0 && (exists i :: 0 <= i < |p| && KeyAt(p, i) == k && p[i].xmax == 0) ==> k in Rebuilt(p)
    decreases |p|
  {
    if p != [] {
      var n: nat := |p| - 1;
      var q := p[..n];
      RebuiltMeaning(q, k);
      assert forall i {:trigger KeyAt(p, i)} :: 0 <= i < n ==> KeyAt(p, i) == KeyAt(q, i) && p[i] == q[i];
      if k in Rebuilt(p) && !(KeyAt(p, n) == k && p[n].xmax == 0) {
        assert LastUnmarked(q, k, Rebuilt(q)[k]);
      }
      if i :| 0 <= i < |p| && KeyAt(p, i) == k && p[i].xmax == 0 {
        if i < n { assert KeyAt(q, i) == k; }
      }
    }
  }

  // Between transactions the rebuilt index shows the same rows as the maintained one, at the same slots.
  lemma RebuildAgrees(d: Db, t: string, k: int)
    requires Sound(d) && TableOrdered(d, t) && Indexed(d, t) && Settled(d, t) && d.cur == 0 && HasIndex(d, t) && k > 0
    ensures k in Rebuilt(d.pages[t]) <==> LookupId(d, t, k).Shows?
    ensures k in Rebuilt(d.pages[t]) ==> t in d.index && k in d.index[t] && Rebuilt(d.pages[t])[k] == d.index[t][k]
  {
    var p := d.pages[t];
    RebuiltMeaning(p, k);
    LookupIsSound(d, t, k);
    forall i | 0 <= i < |p| ensures Sees(Enter(d).log, p[i].Head(), Enter(d).snap) <==> p[i].xmax == 0 {
      StatementSees(d, p[i]);
    }
    if k in Rebuilt(p) {
      var i := Rebuilt(p)[k];
      var j := d.index[t][k];
      assert Newest(p, k, j) && KeyAt(p, i) == k && KeyAt(p, j) == k;
      StatementSees(d, p[i]);
      StatementSees(d, p[j]);
      NewestShows(d.log, d.cur, p, k, i, j);
    }
    if LookupId(d, t, k).Shows? {
      var j: nat :| Newest(p, k, j) && Sees(Enter(d).log, p[j].Head(), Enter(d).snap);
      assert KeyAt(p, j) == k && p[j].xmax == 0;
    }
  }

  lemma RebuildAgreesAfterEveryRun(d: Db, ss: seq<Stmt>, t: string, k: int)
    requires Initial(d) && KeyedRun(d, ss, t) && PlainRunOf(d, ss, t) && t in d.pages && k > 0
    requires Run(d, ss).cur == 0 && HasIndex(Run(d, ss), t)
    ensures t in Run(d, ss).pages && (k in Rebuilt(Run(d, ss).pages[t]) <==> LookupId(Run(d, ss), t, k).Shows?)
  {
    StartsOrdered(d, t);
    RunOrdered(d, ss, t);
    RunSettled(d, ss, t);
    RebuildAgrees(Run(d, ss), t, k);
  }
}
