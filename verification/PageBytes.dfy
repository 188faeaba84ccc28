// storage/page.c: the bytes of a page.  Records of 248 bytes follow one another: two integers of
// four bytes, least significant first, and 240 bytes for a text that ends at its first zero.
module PageBytes {
  import opened Mvcc
  import opened RowCodec
  import opened Session
  import S = Storage
  type byte = S.byte

  const RECORD_SIZE: nat := 248
  const VALUE_SIZE: nat := 240

  // ----- integers -----

  predicate IsInt(n: int) {
    -0x8000_0000 <= n < 0x8000_0000
  }

  function IntBytes(n: int): (b: seq<byte>)
    requires IsInt(n)
    ensures |b| == 4
  {
    var m := if n < 0 then n + 0x1_0000_0000 else n;
    [(m % 256) as byte, (m / 256 % 256) as byte, (m / 0x1_0000 % 256) as byte, (m / 0x100_0000) as byte]
  }

  function IntOf(b: seq<byte>): (n: int)
    requires |b| == 4
    ensures IsInt(n)
  {
    var m := b[0] as int + 256 * b[1] as int + 0x1_0000 * b[2] as int + 0x100_0000 * b[3] as int;
    if m >= 0x8000_0000 then m - 0x1_0000_0000 else m
  }

  // The byte of least weight comes first, and a negative number is written as itself plus 2^32.
  lemma IntBytesWeigh(n: int)
    requires IsInt(n)
    ensures var b := IntBytes(n);
      b[0] as int + 256 * b[1] as int + 65536 * b[2] as int + 16777216 * b[3] as int == if n < 0 then n + 4294967296 else n
  {
    var m := if n < 0 then n + 0x1_0000_0000 else n;
    assert m / 256 / 256 == m / 0x1_0000 && m / 0x1_0000 / 256 == m / 0x100_0000;
  }

  lemma IntRoundTrip(n: int)
    requires IsInt(n)
    ensures IntOf(IntBytes(n)) == n
  {
    var m := if n < 0 then n + 0x1_0000_0000 else n;
    assert m / 256 / 256 == m / 0x1_0000 && m / 0x1_0000 / 256 == m / 0x100_0000;
    assert m == m % 256 + 256 * (m / 256);
  }

  lemma BytesRoundTrip(b: seq<byte>)
    requires |b| == 4
    ensures IntBytes(IntOf(b)) == b
  {
    var n := IntOf(b);
    var m := if n < 0 then n + 0x1_0000_0000 else n;
    BaseDigits(b[0] as int, b[1] as int, b[2] as int, b[3] as int);
    assert m == b[0] as int + 256 * b[1] as int + 0x1_0000 * b[2] as int + 0x100_0000 * b[3] as int;
  }

  // The digits of a number to base 256.
  lemma BaseDigits(a: int, b: int, c: int, d: int)
    requires 0 <= a < 256 && 0 <= b < 256 && 0 <= c < 256 && 0 <= d < 256
    ensures var m := a + 256 * b + 0x1_0000 * c + 0x100_0000 * d;
      m % 256 == a && m / 256 % 256 == b && m / 0x1_0000 % 256 == c && m / 0x100_0000 == d
  {
    var m := a + 256 * b + 0x1_0000 * c + 0x100_0000 * d;
    assert m / 256 == b + 256 * c + 0x1_0000 * d;
    assert m / 0x1_0000 == c + 256 * d;
  }

  // ----- texts -----

  predicate IsText(s: string) {
    forall i :: 0 <= i < |s| ==> 0 < s[i] as int < 256
  }

  // The characters before the first zero.
  function TextOf(b: seq<byte>): (s: string)
    ensures IsText(s) && |s| <= |b|
    ensures forall i :: 0 <= i < |s| ==> s[i] as int == b[i] as int
    ensures |s| < |b| ==> b[|s|] == 0
  {
    if b == [] || b[0] == 0 then "" else [b[0] as int as char] + TextOf(b[1..])
  }

  // strncpy into zeroed memory of n bytes, the last of which stays zero.
  function TextBytes(s: string, n: nat): (b: seq<byte>)
    requires IsText(s) && n > 0
    ensures |b| == n && b[n - 1] == 0
  {
    seq(n, i requires 0 <= i => if i < |s| && i < n - 1 then s[i] as int as byte else 0)
  }

  lemma TextRoundTrip(s: string, n: nat)
    requires IsText(s) && n > 0
    ensures TextOf(TextBytes(s, n)) == Cut(s, n - 1)
  {
    var b := TextBytes(s, n);
    var t, c := TextOf(b), Cut(s, n - 1);
    assert forall i :: 0 <= i < |c| ==> b[i] as int == c[i] as int != 0;
    assert b[|c|] == 0;
    assert |t| == |c|;
    assert t == c;
  }

  // ----- records -----

  // MVCCRecord; value is all 240 bytes of it.
  datatype Record = Record(xmin: int, xmax: int, value: seq<byte>)

  predicate IsRecord(r: Record) {
    IsInt(r.xmin) && IsInt(r.xmax) && |r.value| == VALUE_SIZE
  }

  function Encode(r: Record): (b: seq<byte>)
    requires IsRecord(r)
    ensures |b| == RECORD_SIZE
  {
    IntBytes(r.xmin) + IntBytes(r.xmax) + r.value
  }

  function Decode(b: seq<byte>): (r: Record)
    requires |b| == RECORD_SIZE
    ensures IsRecord(r)
  {
    Record(IntOf(b[..4]), IntOf(b[4..8]), b[8..])
  }

  lemma RecordRoundTrip(r: Record)
    requires IsRecord(r)
    ensures Decode(Encode(r)) == r
  {
    var b := Encode(r);
    assert b[..4] == IntBytes(r.xmin) && b[4..8] == IntBytes(r.xmax) && b[8..] == r.value;
    IntRoundTrip(r.xmin);
    IntRoundTrip(r.xmax);
  }

  lemma EncodeDecoded(b: seq<byte>)
    requires |b| == RECORD_SIZE
    ensures Encode(Decode(b)) == b
  {
    BytesRoundTrip(b[..4]);
    BytesRoundTrip(b[4..8]);
    assert b == b[..4] + b[4..8] + b[8..];
  }

  // Two integers of four bytes, xmin and xmax, and 240 bytes of text.
  lemma RecordLayout(r: Record, k: nat)
    requires IsRecord(r) && k < 240
    ensures |Encode(r)| == 248 && Encode(r)[..4] == IntBytes(r.xmin) && Encode(r)[4..8] == IntBytes(r.xmax)
    ensures Encode(r)[8 + k] == r.value[k]
  {
  }

  // What the session sees of a record.
  function VersionOf(r: Record): Version {
    Version(r.xmin, r.xmax, TextOf(r.value))
  }

  function NewRecord(record: string, txId: int): (r: Record)
    requires IsText(record) && IsInt(txId)
    ensures IsRecord(r)
  {
    Record(txId, 0, TextBytes(record, VALUE_SIZE))
  }

  // A record written and read back is the text cut to 239 characters, created and not deleted.
  lemma NewRecordReads(record: string, txId: int)
    requires IsText(record) && IsInt(txId)
    ensures VersionOf(Decode(Encode(NewRecord(record, txId)))) ==
            Version(txId, 0, if |record| <= 239 then record else record[..239])
  {
    RecordRoundTrip(NewRecord(record, txId));
    TextRoundTrip(record, VALUE_SIZE);
  }

  // ----- pages -----

  predicate IsPage(data: seq<byte>, n: int) {
    |data| == S.PAGE_DATA_SIZE && 0 <= n <= SLOTS
  }

  function SlotBytes(data: seq<byte>, i: nat): (b: seq<byte>)
    requires |data| == S.PAGE_DATA_SIZE && i < SLOTS
    ensures |b| == RECORD_SIZE
  {
    data[i * RECORD_SIZE..(i + 1) * RECORD_SIZE]
  }

  // The version list the bytes stand for.
  function Versions(data: seq<byte>, n: nat): (p: Session.Page)
    requires IsPage(data, n)
    ensures |p| == n
  {
    seq(n, i requires 0 <= i < n => VersionOf(Decode(SlotBytes(data, i))))
  }

  function WithSlot(data: seq<byte>, i: nat, b: seq<byte>): (r: seq<byte>)
    requires |data| == S.PAGE_DATA_SIZE && i < SLOTS && |b| == RECORD_SIZE
    ensures |r| == |data|
  {
    data[..i * RECORD_SIZE] + b + data[(i + 1) * RECORD_SIZE..]
  }

  // Slot i of the 4088 bytes begins at byte 248 * i, and there is no room for a seventeenth.
  lemma SlotLayout(data: seq<byte>, i: nat, k: nat)
    requires |data| == S.PAGE_DATA_SIZE && i < 16 && k < 248
    ensures |data| == 4088 && 248 * i + k < |data| < 248 * 17 && SlotBytes(data, i)[k] == data[248 * i + k]
  {
    assert data[i * RECORD_SIZE..(i + 1) * RECORD_SIZE][k] == data[i * RECORD_SIZE + k];
  }

  // Slots are disjoint: writing one leaves the others alone.
  lemma SlotsAreDisjoint(data: seq<byte>, i: nat, b: seq<byte>, j: nat)
    requires |data| == S.PAGE_DATA_SIZE && i < SLOTS && j < SLOTS && |b| == RECORD_SIZE
    ensures SlotBytes(WithSlot(data, i, b), j) == if j == i then b else SlotBytes(data, j)
  {
    var r := WithSlot(data, i, b);
    if j < i { assert (j + 1) * RECORD_SIZE <= i * RECORD_SIZE; }
    if j > i { assert (i + 1) * RECORD_SIZE <= j * RECORD_SIZE; }
    assert forall k :: 0 <= k < |data| ==>
      r[k] == if i * RECORD_SIZE <= k < (i + 1) * RECORD_SIZE then b[k - i * RECORD_SIZE] else data[k];
  }

  lemma AppendedVersions(data: seq<byte>, n: nat, record: string, txId: int)
    requires IsPage(data, n) && n < SLOTS && IsText(record) && IsInt(txId)
    ensures Versions(WithSlot(data, n, Encode(NewRecord(record, txId))), n + 1) ==
            Versions(data, n) + [Version(txId, 0, Cut(record, STORED_MAX))]
  {
    var b := Encode(NewRecord(record, txId));
    var r := WithSlot(data, n, b);
    forall j | 0 <= j < n + 1
      ensures Versions(r, n + 1)[j] == (Versions(data, n) + [Version(txId, 0, Cut(record, STORED_MAX))])[j]
    {
      SlotsAreDisjoint(data, n, b, j);
      NewRecordReads(record, txId);
    }
  }

  function Marked(b: seq<byte>, txId: int): (r: seq<byte>)
    requires |b| == RECORD_SIZE && IsInt(txId)
    ensures |r| == RECORD_SIZE
  {
    Encode(Decode(b).(xmax := txId))
  }

  // Marking a version writes the four bytes of its xmax and no other byte of the page.
  lemma MarkedBytes(data: seq<byte>, i: nat, txId: int, k: nat)
    requires |data| == S.PAGE_DATA_SIZE && i < SLOTS && IsInt(txId) && k < |data|
    requires !(i * RECORD_SIZE + 4 <= k < i * RECORD_SIZE + 8)
    ensures WithSlot(data, i, Marked(SlotBytes(data, i), txId))[k] == data[k]
  {
    EncodeDecoded(SlotBytes(data, i));
    var j := k - i * RECORD_SIZE;
    var b, c := SlotBytes(data, i), Marked(SlotBytes(data, i), txId);
    assert 0 <= j < RECORD_SIZE && !(4 <= j < 8) ==> c[j] == Encode(Decode(b))[j] == b[j];
  }

  lemma MarkedVersions(data: seq<byte>, n: nat, i: nat, txId: int)
    requires IsPage(data, n) && i < n && IsInt(txId)
    ensures Versions(WithSlot(data, i, Marked(SlotBytes(data, i), txId)), n) == Kill(Versions(data, n), i, txId)
  {
    var b := Marked(SlotBytes(data, i), txId);
    var r := WithSlot(data, i, b);
    forall j | 0 <= j < n ensures Versions(r, n)[j] == Kill(Versions(data, n), i, txId)[j] {
      SlotsAreDisjoint(data, i, b, j);
      RecordRoundTrip(Decode(SlotBytes(data, i)).(xmax := txId));
    }
  }

  // The first visible version with this text, or the length of the page.
  function FirstEqual(l: TxLog, s: Snapshot, page: Session.Page, value: string): (i: nat)
    ensures i <= |page|
    ensures i < |page| ==> page[i].value == value && Sees(l, page[i].Head(), s)
    ensures forall j :: 0 <= j < i ==> !(page[j].value == value && Sees(l, page[j].Head(), s))
  {
    if page == [] || (page[0].value == value && Sees(l, page[0].Head(), s)) then 0
    else
      var i := FirstEqual(l, s, page[1..], value);
      assert forall j :: 1 <= j < i + 1 ==> page[j] == page[1..][j - 1];
      1 + i
  }

  predicate NoEqualBelow(l: TxLog, s: Snapshot, page: Session.Page, value: string, n: nat)
    requires n <= |page|
  {
    forall j :: 0 <= j < n ==> !(page[j].value == value && Sees(l, page[j].Head(), s))
  }

  lemma NoEqualNext(l: TxLog, s: Snapshot, page: Session.Page, value: string, i: nat)
    requires i < |page| && NoEqualBelow(l, s, page, value, i)
    requires !(page[i].value == value && Sees(l, page[i].Head(), s))
    ensures NoEqualBelow(l, s, page, value, i + 1)
  {
  }

  lemma FirstEqualIs(l: TxLog, s: Snapshot, page: Session.Page, value: string, i: nat)
    requires i <= |page| && (i < |page| ==> page[i].value == value && Sees(l, page[i].Head(), s))
    requires NoEqualBelow(l, s, page, value, i)
    ensures i == FirstEqual(l, s, page, value)
  {
  }

  // ----- the code -----

  class Page {
    var pageId: int
    var numRecords: int
    const data: array<byte>

    ghost predicate Valid()
      reads this, data
    {
      data.Length == S.PAGE_DATA_SIZE && 0 <= numRecords <= SLOTS
    }

    ghost function Contents(): Session.Page
      requires Valid()
      reads this, data
    {
      Versions(data[..], numRecords)
    }

    constructor ()
      ensures Valid() && fresh(data) && Contents() == [] && pageId == 0
    {
      pageId, numRecords := 0, 0;
      data := new byte[S.PAGE_DATA_SIZE](_ => 0);
    }

    ghost function AsImage(): S.Image
      reads this, data
    {
      S.Image(pageId, numRecords, data[..])
    }

    // page_init.
    method Init(pageId: int)
      requires Valid()
      modifies this, data
      ensures Valid() && Contents() == [] && AsImage() == S.EmptyPage(pageId)
    {
      this.pageId := pageId;
      numRecords := 0;
      for i := 0 to data.Length
        modifies data
        invariant forall j :: 0 <= j < i ==> data[j] == 0
      {
        data[i] := 0;
      }
      assert data[..] == S.Zeros(S.PAGE_DATA_SIZE);
    }

    // memcpy out of slot i.
    method ReadRecord(i: nat) returns (r: Record)
      requires Valid() && i < SLOTS
      ensures r == Decode(SlotBytes(data[..], i))
      ensures i < numRecords ==> VersionOf(r) == Contents()[i]
    {
      var offset := i * RECORD_SIZE;
      r := Decode(data[offset..offset + RECORD_SIZE]);
    }

    // memcpy into slot i.
    method WriteRecord(i: nat, r: Record)
      requires Valid() && i < SLOTS && IsRecord(r)
      modifies data
      ensures data[..] == WithSlot(old(data[..]), i, Encode(r))
    {
      var offset, b := i * RECORD_SIZE, Encode(r);
      for k := 0 to RECORD_SIZE
        invariant data[..offset] == old(data[..offset])
        invariant data[offset..offset + k] == b[..k]
        invariant data[offset + k..] == old(data[offset + k..])
      {
        ghost var was := data[..];
        data[offset + k] := b[k];
        assert data[..] == was[offset + k := b[k]];
        assert data[offset..offset + k + 1] == data[offset..offset + k] + [b[k]];
        assert data[offset + k + 1..] == was[offset + k + 1..] == was[offset + k..][1..];
      }
      assert data[..] == data[..offset] + data[offset..offset + RECORD_SIZE] + data[offset + RECORD_SIZE..];
    }

    // page_append_mvcc_record.
    method Append(record: string, txId: int) returns (rc: int)
      requires Valid() && IsText(record) && IsInt(txId)
      modifies this`numRecords, data
      ensures Valid() && rc == (if old(numRecords) < SLOTS then 0 else -1)
      ensures Contents() == if rc == 0 then old(Contents()) + [Version(txId, 0, Cut(record, STORED_MAX))] else old(Contents())
    {
      var offset := numRecords * RECORD_SIZE;
      if offset + RECORD_SIZE > S.PAGE_DATA_SIZE { return -1; }
      AppendedVersions(data[..], numRecords, record, txId);
      WriteRecord(numRecords, NewRecord(record, txId));
      numRecords := numRecords + 1;
      return 0;
    }

    // How the executor marks version i: the record is copied out, changed and copied back.
    method Mark(i: nat, txId: int)
      requires Valid() && i < numRecords && IsInt(txId)
      modifies data
      ensures Valid() && Contents() == Kill(old(Contents()), i, txId)
      ensures forall k :: 0 <= k < data.Length && !(i * RECORD_SIZE + 4 <= k < i * RECORD_SIZE + 8) ==> data[k] == old(data[k])
    {
      ghost var was := data[..];
      var r := ReadRecord(i);
      r := r.(xmax := txId);
      WriteRecord(i, r);
      MarkedVersions(was, numRecords, i, txId);
      forall k | 0 <= k < data.Length && !(i * RECORD_SIZE + 4 <= k < i * RECORD_SIZE + 8) ensures data[k] == was[k] {
        MarkedBytes(was, i, txId, k);
        assert data[k] == data[..][k];
      }
    }

    // page_mark_delete_mvcc_record.
    method MarkDelete(record: string, txId: int, snapshot: Snapshot, mvcc: TxTable) returns (rc: int)
      requires Valid() && IsInt(txId) && mvcc.Valid()
      modifies data
      ensures Valid()
      ensures var i := FirstEqual(old(mvcc.Log()), snapshot, old(Contents()), record);
        if i < numRecords then rc == 0 && Contents() == Kill(old(Contents()), i, txId)
        else rc == -1 && Contents() == old(Contents())
    {
      var i := FindEqual(record, snapshot, mvcc, Contents(), mvcc.Log());
      if i == numRecords { return -1; }
      Mark(i, txId);
      return 0;
    }

    method FindEqual(record: string, snapshot: Snapshot, mvcc: TxTable, ghost page: Session.Page, ghost l: TxLog)
      returns (i: nat)
      requires Valid() && mvcc.Valid() && page == Contents() && l == mvcc.Log()
      ensures i == FirstEqual(l, snapshot, page, record)
    {
      i := 0;
      while i < numRecords
        invariant i <= numRecords == |page| && NoEqualBelow(l, snapshot, page, record, i)
      {
        var hit := IsEqual(i, record, snapshot, mvcc, page, l);
        if hit {
          FirstEqualIs(l, snapshot, page, record, i);
          return;
        }
        NoEqualNext(l, snapshot, page, record, i);
        i := i + 1;
      }
      FirstEqualIs(l, snapshot, page, record, i);
    }

    method IsEqual(i: nat, record: string, snapshot: Snapshot, mvcc: TxTable, ghost page: Session.Page, ghost l: TxLog)
      returns (hit: bool)
      requires Valid() && mvcc.Valid() && i < numRecords && page == Contents() && l == mvcc.Log()
      ensures |page| == numRecords && hit == (page[i].value == record && Sees(l, page[i].Head(), snapshot))
    {
      var current := ReadRecord(i);
      if TextOf(current.value) != record { return false; }
      hit := mvcc.IsVisible(Header(current.xmin, current.xmax), snapshot);
    }
  }

  // ----- runs -----

  datatype PageOp = Append(record: string, txId: int) | Mark(slot: nat, txId: int)

  function Apply(p: Session.Page, op: PageOp): Session.Page {
    match op
    case Append(record, txId) => if |p| < SLOTS then p + [Version(txId, 0, Cut(record, STORED_MAX))] else p
    case Mark(i, txId) => if i < |p| then Kill(p, i, txId) else p
  }

  function ApplyAll(p: Session.Page, ops: seq<PageOp>): Session.Page
    decreases |ops|
  {
    if ops == [] then p else Apply(ApplyAll(p, ops[..|ops| - 1]), ops[|ops| - 1])
  }

  function Appends(ops: seq<PageOp>): nat
    decreases |ops|
  {
    if ops == [] then 0 else Appends(ops[..|ops| - 1]) + (if ops[|ops| - 1].Append? then 1 else 0)
  }

  // Of the appends to an empty page exactly the first sixteen succeed, whatever is marked meanwhile.
  lemma {:induction false} SixteenAppends(ops: seq<PageOp>)
    ensures |ApplyAll([], ops)| == if Appends(ops) < 16 then Appends(ops) else 16
    decreases |ops|
  {
    if ops != [] { SixteenAppends(ops[..|ops| - 1]); }
  }

  // q is p with xmax changed here and there and versions added.
  predicate Grown(p: Session.Page, q: Session.Page) {
    |p| <= |q| && forall i :: 0 <= i < |p| ==> q[i].xmin == p[i].xmin && q[i].value == p[i].value
  }

  lemma {:induction false} SlotsKeepTheirRows(p: Session.Page, ops: seq<PageOp>)
    ensures Grown(p, ApplyAll(p, ops))
    decreases |ops|
  {
    if ops != [] { SlotsKeepTheirRows(p, ops[..|ops| - 1]); }
  }

  // No statement of a session does more to a page than that, in any run, rollbacks included.
  lemma {:induction false} RunGrowsPages(d: Db, ss: seq<Stmt>, t: string)
    requires t in d.pages
    ensures t in Run(d, ss).pages && Grown(d.pages[t], Run(d, ss).pages[t])
    decreases |ss|
  {
    if ss != [] {
      RunGrowsPages(d, ss[..|ss| - 1], t);
      StepGrows(Run(d, ss[..|ss| - 1]), ss[|ss| - 1], t);
    }
  }

  lemma StepGrows(d: Db, s: Stmt, t: string)
    requires t in d.pages
    ensures t in Step(d, s).pages && Grown(d.pages[t], Step(d, s).pages[t])
  {
    if s.Update? { UpdateGrows(d, s.table, s.setText, s.id, t); }
  }

  lemma UpdateGrows(d: Db, u: string, setText: string, id: int, t: string)
    requires t in d.pages
    ensures var e := DoUpdate(d, u, setText, id); t in e.pages && Grown(d.pages[t], e.pages[t])
  {
    if u == t && t in d.columns && "id" in d.columns[t] {
      var c, page := Enter(d), d.pages[t];
      var i := FirstHit(c.log, c.snap, page, ByColumn(IdColumn(d.columns[t]), id));
      if i < |page| { assert Grown(page, Kill(page, i, c.tx)); }
    }
  }
}
