/**
 * Concurrent transactions appending to the audit log: a transaction-scoped lock, a head read,
 * an insert, and commits and rollbacks in any interleaving.
 */
module AuditProtocol {
  import opened JsText
  import opened Json
  import opened HashChain
  import opened Audit
  import opened AuditStorage
  import opened Sequences
  import opened AuditAppend

  type TxId = nat

  /** How far the append in progress has come, if any. */
  datatype Stage = Between | Locked | HeadRead(head: Option<Text>)

  /** An open transaction with the rows it has inserted and not yet committed. */
  datatype Tx = Tx(stage: Stage, pending: seq<Row>)

  datatype State = State(committed: seq<Row>, nextId: int, lock: Option<TxId>, open: map<TxId, Tx>)

  datatype Step =
    | Begin(t: TxId)
    | TakeLock(t: TxId)
    | ReadHead(t: TxId)
    | InsertRow(t: TxId, entry: Entry, occurredAt: Text, doc: Js)
    | SkipId
    | Commit(t: TxId)
    | Rollback(t: TxId)

  /** `ORDER BY id DESC LIMIT 1`: the hash of the row with the greatest id. */
  function NewestHash(rows: seq<Row>): Option<Text> {
    if rows == [] then None else Some(Newest(rows).entryHash)
  }

  function Newest(rows: seq<Row>): Row
    requires rows != []
  {
    if |rows| == 1 then rows[0]
    else
      var r := Newest(rows[1..]);
      if r.id < rows[0].id then rows[0] else r
  }

  /** The rows a statement of transaction `t` sees at read committed: committed rows and its own. */
  function Visible(s: State, t: TxId): seq<Row>
    requires t in s.open
  {
    s.committed + s.open[t].pending
  }

  predicate Initial(s: State) {
    s == State([], 1, None, map[])
  }

  /** When a step can happen; taking a lock that another transaction holds waits. */
  ghost predicate Enabled(s: State, step: Step) {
    match step
    case Begin(t) => t !in s.open
    case TakeLock(t) => t in s.open && s.open[t].stage == Between && (s.lock == None || s.lock == Some(t))
    case ReadHead(t) => t in s.open && s.open[t].stage == Locked
    case InsertRow(t, e, _, doc) =>
      t in s.open && s.open[t].stage.HeadRead? && WellTyped(e) && ReadsBackAs(e, doc)
    case SkipId => true
    case Commit(t) => t in s.open && s.open[t].stage == Between
    case Rollback(t) => t in s.open
  }

  function Release(lock: Option<TxId>, t: TxId): Option<TxId> {
    if lock == Some(t) then None else lock
  }

  function Apply(h: Hash, uuid: Column, s: State, step: Step): State
    requires Enabled(s, step)
  {
    match step
    case Begin(t) => s.(open := s.open[t := Tx(Between, [])])
    case TakeLock(t) => s.(lock := Some(t), open := s.open[t := s.open[t].(stage := Locked)])
    case ReadHead(t) => s.(open := s.open[t := s.open[t].(stage := HeadRead(NewestHash(Visible(s, t))))])
    case InsertRow(t, e, at, doc) =>
      var row := RowFor(h, uuid, s.open[t].stage.head, s.nextId, e, at, doc);
      s.(nextId := s.nextId + 1, open := s.open[t := Tx(Between, s.open[t].pending + [row])])
    case SkipId => s.(nextId := s.nextId + 1)
    case Commit(t) =>
      s.(committed := s.committed + s.open[t].pending, lock := Release(s.lock, t), open := s.open - {t})
    case Rollback(t) => s.(lock := Release(s.lock, t), open := s.open - {t})
  }

  // ---------------------------------------------------------------------------
  // The invariant
  // ---------------------------------------------------------------------------

  /** Every row names the hash of the row before it. */
  predicate Linear(rows: seq<Row>) {
    forall i :: 0 <= i < |rows| ==> rows[i].prevHash == PreviousHash(rows, i)
  }

  /** One line of rows in id order, below the next id. */
  predicate GoodLog(rows: seq<Row>, nextId: int) {
    Linear(rows) && Orderly(rows, nextId)
  }

  /** Only the lock holder is inside an append or has uncommitted rows, and those continue the log. */
  ghost predicate GoodTx(s: State, t: TxId)
    requires t in s.open
  {
    && (s.lock != Some(t) ==> s.open[t] == Tx(Between, []))
    && GoodLog(Visible(s, t), s.nextId)
    && (s.open[t].stage.HeadRead? ==> s.open[t].stage.head == PreviousHash(Visible(s, t), |Visible(s, t)|))
  }

  ghost predicate Invariant(s: State) {
    && GoodLog(s.committed, s.nextId)
    && (s.lock.Some? ==> s.lock.value in s.open)
    && forall t :: t in s.open ==> GoodTx(s, t)
  }

  lemma {:induction false} NewestIsLast(rows: seq<Row>)
    requires IdsAscend(rows) && rows != []
    ensures Newest(rows) == rows[|rows| - 1]
  {
    if |rows| > 1 {
      NewestIsLast(rows[1..]);
    }
  }

  lemma NewestHashIsHead(rows: seq<Row>)
    requires IdsAscend(rows)
    ensures NewestHash(rows) == PreviousHash(rows, |rows|)
  {
    if rows != [] {
      NewestIsLast(rows);
    }
  }

  lemma GoodLogLater(rows: seq<Row>, m: int, n: int)
    requires GoodLog(rows, m) && m <= n
    ensures GoodLog(rows, n)
  {
  }

  lemma GoodLogExtends(h: Hash, uuid: Column, rows: seq<Row>, nextId: int, e: Entry, at: Text, doc: Js)
    requires GoodLog(rows, nextId) && WellTyped(e) && ReadsBackAs(e, doc)
    ensures GoodLog(rows + [RowFor(h, uuid, PreviousHash(rows, |rows|), nextId, e, at, doc)], nextId + 1)
  {
    var row := RowFor(h, uuid, PreviousHash(rows, |rows|), nextId, e, at, doc);
    OrderlyExtends(rows, row, nextId);
    LinearExtends(rows, row);
  }

  lemma LinearExtends(rows: seq<Row>, row: Row)
    requires Linear(rows) && row.prevHash == PreviousHash(rows, |rows|)
    ensures Linear(rows + [row])
  {
  }

  /** The inserting transaction sees the log continued by its row. */
  lemma InsertedSeen(h: Hash, uuid: Column, s: State, t: TxId, e: Entry, at: Text, doc: Js)
    requires t in s.open && GoodTx(s, t) && s.open[t].stage.HeadRead? && WellTyped(e) && ReadsBackAs(e, doc)
    ensures var row := RowFor(h, uuid, s.open[t].stage.head, s.nextId, e, at, doc);
            GoodLog(s.committed + (s.open[t].pending + [row]), s.nextId + 1)
  {
    var row := RowFor(h, uuid, s.open[t].stage.head, s.nextId, e, at, doc);
    GoodLogExtends(h, uuid, Visible(s, t), s.nextId, e, at, doc);
    Regroup(s.committed, s.open[t].pending, [row]);
  }

  lemma InsertKeepsInvariant(h: Hash, uuid: Column, s: State, t: TxId, e: Entry, at: Text, doc: Js)
    requires Invariant(s)
    ensures Enabled(s, InsertRow(t, e, at, doc)) ==> Invariant(Apply(h, uuid, s, InsertRow(t, e, at, doc)))
  {
    if Enabled(s, InsertRow(t, e, at, doc)) {
      var s' := Apply(h, uuid, s, InsertRow(t, e, at, doc));
      assert GoodTx(s, t);
      GoodLogLater(s.committed, s.nextId, s'.nextId);
      InsertedSeen(h, uuid, s, t, e, at, doc);
      forall u | u in s'.open && u != t ensures GoodTx(s', u) {
        Untouched(s, s', u);
      }
    }
  }

  /** A step of another transaction that commits nothing and passes no lock leaves a transaction as good as it was. */
  lemma Untouched(s: State, s': State, u: TxId)
    requires u in s.open && GoodTx(s, u)
    requires u in s'.open && s'.open[u] == s.open[u] && s'.committed == s.committed
    requires s'.lock == s.lock && s.nextId <= s'.nextId
    ensures GoodTx(s', u)
  {
    GoodLogLater(Visible(s, u), s.nextId, s'.nextId);
  }

  lemma CommitKeepsInvariant(h: Hash, uuid: Column, s: State, t: TxId)
    requires Invariant(s) && Enabled(s, Commit(t))
    ensures Invariant(Apply(h, uuid, s, Commit(t)))
  {
    var s' := Apply(h, uuid, s, Commit(t));
    assert GoodTx(s, t);
    assert s'.committed == Visible(s, t);
    forall u | u in s'.open ensures GoodTx(s', u) {
      assert GoodTx(s, u);
      CommitSeenBy(s, t, u);
    }
  }

  /** After `t` commits, another transaction sees a good log and is itself unchanged. */
  lemma CommitSeenBy(s: State, t: TxId, u: TxId)
    requires t in s.open && u in s.open && t != u && GoodTx(s, t) && GoodTx(s, u)
    ensures var s' := s.(committed := s.committed + s.open[t].pending, lock := Release(s.lock, t),
                         open := s.open - {t});
            GoodTx(s', u)
  {
    if s.lock != Some(t) {
      assert s.committed + s.open[t].pending == s.committed;
    } else {
      assert s.open[u] == Tx(Between, []);
      assert s.committed + s.open[t].pending + [] == Visible(s, t);
    }
  }

  lemma ReadKeepsInvariant(h: Hash, uuid: Column, s: State, t: TxId)
    requires Invariant(s) && Enabled(s, ReadHead(t))
    ensures Invariant(Apply(h, uuid, s, ReadHead(t)))
  {
    var s' := Apply(h, uuid, s, ReadHead(t));
    assert GoodTx(s, t);
    NewestHashIsHead(Visible(s, t));
    forall u | u in s'.open ensures GoodTx(s', u) {
      assert GoodTx(s, u) && Visible(s', u) == Visible(s, u);
    }
  }

  lemma StepKeepsInvariant(h: Hash, uuid: Column, s: State, step: Step)
    requires Invariant(s) && Enabled(s, step)
    ensures Invariant(Apply(h, uuid, s, step))
  {
    var s' := Apply(h, uuid, s, step);
    match step
    case ReadHead(t) => ReadKeepsInvariant(h, uuid, s, t);
    case InsertRow(t, e, at, doc) => InsertKeepsInvariant(h, uuid, s, t, e, at, doc);
    case Commit(t) => CommitKeepsInvariant(h, uuid, s, t);
    case Begin(t) =>
      assert Visible(s', t) == s.committed;
      forall u | u in s'.open && u != t ensures GoodTx(s', u) {
        assert GoodTx(s, u) && Visible(s', u) == Visible(s, u);
      }
    case _ =>
      GoodLogLater(s.committed, s.nextId, s'.nextId);
      forall u | u in s'.open ensures GoodTx(s', u) {
        assert GoodTx(s, u) && Visible(s', u) == Visible(s, u);
        GoodLogLater(Visible(s, u), s.nextId, s'.nextId);
      }
  }

  // ---------------------------------------------------------------------------
  // Whole runs
  // ---------------------------------------------------------------------------

  /** Running `steps` from `s` is possible, each step enabled where it happens. */
  ghost predicate Possible(h: Hash, uuid: Column, s: State, steps: seq<Step>)
    decreases |steps|
  {
    steps == [] || (Enabled(s, steps[0]) && Possible(h, uuid, Apply(h, uuid, s, steps[0]), steps[1..]))
  }

  ghost function After(h: Hash, uuid: Column, s: State, steps: seq<Step>): State
    requires Possible(h, uuid, s, steps)
    decreases |steps|
  {
    if steps == [] then s else After(h, uuid, Apply(h, uuid, s, steps[0]), steps[1..])
  }

  lemma {:induction false} RunKeepsInvariant(h: Hash, uuid: Column, s: State, steps: seq<Step>)
    requires Invariant(s) && Possible(h, uuid, s, steps)
    ensures Invariant(After(h, uuid, s, steps))
    ensures s.committed <= After(h, uuid, s, steps).committed
    decreases |steps|
  {
    if steps == [] {
    } else {
      StepKeepsInvariant(h, uuid, s, steps[0]);
      RunKeepsInvariant(h, uuid, Apply(h, uuid, s, steps[0]), steps[1..]);
    }
  }

  /** In every reachable state the committed rows, in id order, form one line: each names its predecessor's hash. */
  lemma ReachableLogIsLinear(h: Hash, uuid: Column, s: State, steps: seq<Step>)
    requires Initial(s) && Possible(h, uuid, s, steps)
    ensures Linear(After(h, uuid, s, steps).committed)
    ensures IdsAscend(After(h, uuid, s, steps).committed)
    ensures Readable(After(h, uuid, s, steps).committed)
  {
    RunKeepsInvariant(h, uuid, s, steps);
  }

  /** At most one open transaction at a time has rows the others cannot see. */
  lemma UncommittedRowsAreExclusive(h: Hash, uuid: Column, s: State, steps: seq<Step>, t: TxId, u: TxId)
    requires Initial(s) && Possible(h, uuid, s, steps)
    requires t in After(h, uuid, s, steps).open && u in After(h, uuid, s, steps).open && t != u
    ensures After(h, uuid, s, steps).open[t].pending == [] || After(h, uuid, s, steps).open[u].pending == []
  {
    RunKeepsInvariant(h, uuid, s, steps);
    assert GoodTx(After(h, uuid, s, steps), t) && GoodTx(After(h, uuid, s, steps), u);
  }

  // ---------------------------------------------------------------------------
  // The protocol refines a ledger without locks, ids or hashes
  // ---------------------------------------------------------------------------

  /** An entry as it was written, and what its metadata column gives back. */
  datatype Posting = Posting(written: Content, doc: Js)

  /** Entries appear all at once, transaction by transaction, in commit order. */
  datatype Ledger = Ledger(posted: seq<Posting>, drafts: map<TxId, seq<Posting>>)

  function LedgerStep(l: Ledger, step: Step): Ledger {
    match step
    case Begin(t) => l.(drafts := l.drafts[t := []])
    case InsertRow(t, e, at, doc) =>
      if t in l.drafts then l.(drafts := l.drafts[t := l.drafts[t] + [Posting(Normalise(e, at), doc)]]) else l
    case Commit(t) => if t in l.drafts then Ledger(l.posted + l.drafts[t], l.drafts - {t}) else l
    case Rollback(t) => l.(drafts := l.drafts - {t})
    case _ => l
  }

  function LedgerAfter(l: Ledger, steps: seq<Step>): Ledger
    decreases |steps|
  {
    if steps == [] then l else LedgerAfter(LedgerStep(l, steps[0]), steps[1..])
  }

  /** The row shows the posting as it reads back, under the hash of the posting as it was written. */
  ghost predicate Records(h: Hash, uuid: Column, row: Row, p: Posting) {
    && row.content == ReadBack(uuid, p.written, p.doc)
    && row.entryHash == ComputeEntryHash(h, row.prevHash, p.written)
    && KeptAs(p.written.metadata, p.doc)
  }

  ghost predicate RecordsAll(h: Hash, uuid: Column, rows: seq<Row>, postings: seq<Posting>) {
    |rows| == |postings| && forall i :: 0 <= i < |rows| ==> Records(h, uuid, rows[i], postings[i])
  }

  lemma RecordsConcat(h: Hash, uuid: Column, rows: seq<Row>, postings: seq<Posting>, more: seq<Row>,
                      moreP: seq<Posting>)
    requires RecordsAll(h, uuid, rows, postings) && RecordsAll(h, uuid, more, moreP)
    ensures RecordsAll(h, uuid, rows + more, postings + moreP)
  {
    var n := |rows|;
    forall i | 0 <= i < |rows + more|
      ensures Records(h, uuid, (rows + more)[i], (postings + moreP)[i])
    {
      if i < n {
        assert Records(h, uuid, rows[i], postings[i]);
      } else {
        assert Records(h, uuid, more[i - n], moreP[i - n]);
      }
    }
  }

  lemma RecordsInserted(h: Hash, uuid: Column, prev: Option<Text>, id: int, e: Entry, at: Text, doc: Js)
    requires WellTyped(e) && ReadsBackAs(e, doc)
    ensures RecordsAll(h, uuid, [RowFor(h, uuid, prev, id, e, at, doc)], [Posting(Normalise(e, at), doc)])
  {
  }

  ghost predicate Represents(h: Hash, uuid: Column, s: State, l: Ledger) {
    && RecordsAll(h, uuid, s.committed, l.posted)
    && s.open.Keys == l.drafts.Keys
    && forall t :: t in s.open ==> RecordsAll(h, uuid, s.open[t].pending, l.drafts[t])
  }

  lemma StepRefines(h: Hash, uuid: Column, s: State, l: Ledger, step: Step)
    requires Represents(h, uuid, s, l) && Enabled(s, step)
    ensures Represents(h, uuid, Apply(h, uuid, s, step), LedgerStep(l, step))
  {
    match step
    case InsertRow(t, e, at, doc) =>
      RecordsInserted(h, uuid, s.open[t].stage.head, s.nextId, e, at, doc);
      RecordsConcat(h, uuid, s.open[t].pending, l.drafts[t],
                    [RowFor(h, uuid, s.open[t].stage.head, s.nextId, e, at, doc)],
                    [Posting(Normalise(e, at), doc)]);
    case Commit(t) =>
      RecordsConcat(h, uuid, s.committed, l.posted, s.open[t].pending, l.drafts[t]);
    case _ =>
  }

  /** No committed entry is lost, repeated, reordered or invented, and no rolled-back entry survives. */
  lemma {:induction false} RunRefinesLedger(h: Hash, uuid: Column, s: State, l: Ledger, steps: seq<Step>)
    requires Represents(h, uuid, s, l) && Possible(h, uuid, s, steps)
    ensures Represents(h, uuid, After(h, uuid, s, steps), LedgerAfter(l, steps))
    decreases |steps|
  {
    if steps == [] {
    } else {
      StepRefines(h, uuid, s, l, steps[0]);
      RunRefinesLedger(h, uuid, Apply(h, uuid, s, steps[0]), LedgerStep(l, steps[0]), steps[1..]);
    }
  }

  function Posted(steps: seq<Step>): seq<Posting> {
    LedgerAfter(Ledger([], map[]), steps).posted
  }

  lemma CommittedLogIsTheLedger(h: Hash, uuid: Column, s: State, steps: seq<Step>)
    requires Initial(s) && Possible(h, uuid, s, steps)
    ensures RecordsAll(h, uuid, After(h, uuid, s, steps).committed, Posted(steps))
  {
    RunRefinesLedger(h, uuid, s, Ledger([], map[]), steps);
  }

  /** A line of rows verifies exactly when each of its postings reads back as it was hashed. */
  lemma LineVerifiesExactly(h: Hash, uuid: Column, rows: seq<Row>, postings: seq<Posting>)
    requires Linear(rows) && RecordsAll(h, uuid, rows, postings)
    ensures ChainValid(h, rows) <==>
            forall i :: 0 <= i < |rows| ==> Verifies(h, uuid, rows[i].prevHash, postings[i].written, postings[i].doc)
  {
    forall i | 0 <= i < |rows|
      ensures Links(h, rows, i) <==> Verifies(h, uuid, rows[i].prevHash, postings[i].written, postings[i].doc)
    {
      assert Records(h, uuid, rows[i], postings[i]);
      RowVerifies(h, uuid, rows[i].prevHash, postings[i].written, postings[i].doc);
    }
  }

  /**
   * After any run the committed log passes verification exactly when every posting is written as it will
   * be read (or the hash collides on the two texts of that very row).
   */
  lemma ReachableLogVerifiesExactly(h: Hash, uuid: Column, s: State, steps: seq<Step>)
    requires Initial(s) && Possible(h, uuid, s, steps)
    ensures |Posted(steps)| == |After(h, uuid, s, steps).committed|
    ensures ChainValid(h, After(h, uuid, s, steps).committed) <==>
            forall i :: 0 <= i < |Posted(steps)| ==>
              Verifies(h, uuid, After(h, uuid, s, steps).committed[i].prevHash, Posted(steps)[i].written,
                       Posted(steps)[i].doc)
  {
    ReachableLogIsLinear(h, uuid, s, steps);
    CommittedLogIsTheLedger(h, uuid, s, steps);
    LineVerifiesExactly(h, uuid, After(h, uuid, s, steps).committed, Posted(steps));
  }

  // ---------------------------------------------------------------------------
  // Appends go through
  // ---------------------------------------------------------------------------

  /** The steps of a transaction that appends one entry and ends as given. */
  function OneAppend(t: TxId, e: Entry, at: Text, doc: Js, end: Step): seq<Step> {
    [Begin(t), TakeLock(t), ReadHead(t), InsertRow(t, e, at, doc), end]
  }

  /** The state with one more open transaction. */
  function With(s: State, nextId: int, lock: Option<TxId>, t: TxId, tx: Tx): State {
    State(s.committed, nextId, lock, s.open[t := tx])
  }

  lemma WithTwice(s: State, t: TxId, first: Tx, second: Tx)
    ensures s.open[t := first][t := second] == s.open[t := second]
  {
  }

  lemma AfterBegin(h: Hash, uuid: Column, s: State, t: TxId)
    requires t !in s.open && s.lock == None
    ensures Enabled(s, Begin(t)) && Apply(h, uuid, s, Begin(t)) == With(s, s.nextId, None, t, Tx(Between, []))
  {
  }

  lemma AfterLock(h: Hash, uuid: Column, s: State, t: TxId)
    ensures var now := With(s, s.nextId, None, t, Tx(Between, []));
            && Enabled(now, TakeLock(t))
            && Apply(h, uuid, now, TakeLock(t)) == With(s, s.nextId, Some(t), t, Tx(Locked, []))
  {
    WithTwice(s, t, Tx(Between, []), Tx(Locked, []));
  }

  lemma AfterRead(h: Hash, uuid: Column, s: State, t: TxId)
    requires IdsAscend(s.committed)
    ensures var now, head := With(s, s.nextId, Some(t), t, Tx(Locked, [])), PreviousHash(s.committed, |s.committed|);
            && Enabled(now, ReadHead(t))
            && Apply(h, uuid, now, ReadHead(t)) == With(s, s.nextId, Some(t), t, Tx(HeadRead(head), []))
  {
    var now := With(s, s.nextId, Some(t), t, Tx(Locked, []));
    assert Visible(now, t) == s.committed;
    NewestHashIsHead(s.committed);
    WithTwice(s, t, Tx(Locked, []), Tx(HeadRead(PreviousHash(s.committed, |s.committed|)), []));
  }

  lemma AfterInsert(h: Hash, uuid: Column, s: State, t: TxId, head: Option<Text>, e: Entry, at: Text, doc: Js)
    requires WellTyped(e) && ReadsBackAs(e, doc)
    ensures var now := With(s, s.nextId, Some(t), t, Tx(HeadRead(head), []));
            && Enabled(now, InsertRow(t, e, at, doc))
            && Apply(h, uuid, now, InsertRow(t, e, at, doc))
               == With(s, s.nextId + 1, Some(t), t, Tx(Between, [RowFor(h, uuid, head, s.nextId, e, at, doc)]))
  {
    var row := RowFor(h, uuid, head, s.nextId, e, at, doc);
    assert [] + [row] == [row];
    WithTwice(s, t, Tx(HeadRead(head), []), Tx(Between, [row]));
  }

  lemma AfterEnd(h: Hash, uuid: Column, s: State, t: TxId, row: Row)
    requires t !in s.open
    ensures var now := With(s, s.nextId + 1, Some(t), t, Tx(Between, [row]));
            && Enabled(now, Commit(t)) && Enabled(now, Rollback(t))
            && Apply(h, uuid, now, Commit(t)) == State(s.committed + [row], s.nextId + 1, None, s.open)
            && Apply(h, uuid, now, Rollback(t)) == State(s.committed, s.nextId + 1, None, s.open)
  {
    assert s.open[t := Tx(Between, [row])] - {t} == s.open;
  }

  lemma PossibleCons(h: Hash, uuid: Column, s: State, step: Step, rest: seq<Step>)
    requires Enabled(s, step) && Possible(h, uuid, Apply(h, uuid, s, step), rest)
    ensures Possible(h, uuid, s, [step] + rest)
    ensures After(h, uuid, s, [step] + rest) == After(h, uuid, Apply(h, uuid, s, step), rest)
  {
    ConsParts(step, rest);
  }

  lemma OneStep(h: Hash, uuid: Column, s: State, step: Step)
    requires Enabled(s, step)
    ensures Possible(h, uuid, s, [step]) && After(h, uuid, s, [step]) == Apply(h, uuid, s, step)
  {
    assert [step][1..] == [];
  }

  lemma OneAppendUnfolds(t: TxId, e: Entry, at: Text, doc: Js, end: Step)
    ensures OneAppend(t, e, at, doc, end)
            == [Begin(t)] + ([TakeLock(t)] + ([ReadHead(t)] + ([InsertRow(t, e, at, doc)] + [end])))
  {
  }

  /** While nobody holds the lock a new transaction can append and end, in one go. */
  lemma AppendReaches(h: Hash, uuid: Column, s: State, t: TxId, e: Entry, at: Text, doc: Js, end: Step)
    requires Invariant(s) && t !in s.open && s.lock == None && WellTyped(e) && ReadsBackAs(e, doc)
    requires end == Commit(t) || end == Rollback(t)
    ensures var row := RowFor(h, uuid, PreviousHash(s.committed, |s.committed|), s.nextId, e, at, doc);
            var ready := With(s, s.nextId + 1, Some(t), t, Tx(Between, [row]));
            && Enabled(ready, end) && Possible(h, uuid, s, OneAppend(t, e, at, doc, end))
            && After(h, uuid, s, OneAppend(t, e, at, doc, end)) == Apply(h, uuid, ready, end)
  {
    var head := PreviousHash(s.committed, |s.committed|);
    var row := RowFor(h, uuid, head, s.nextId, e, at, doc);
    var s1, s2 := With(s, s.nextId, None, t, Tx(Between, [])), With(s, s.nextId, Some(t), t, Tx(Locked, []));
    var s3 := With(s, s.nextId, Some(t), t, Tx(HeadRead(head), []));
    AfterBegin(h, uuid, s, t);
    AfterLock(h, uuid, s, t);
    AfterRead(h, uuid, s, t);
    AfterInsert(h, uuid, s, t, head, e, at, doc);
    AfterEnd(h, uuid, s, t, row);
    OneStep(h, uuid, With(s, s.nextId + 1, Some(t), t, Tx(Between, [row])), end);
    PossibleCons(h, uuid, s3, InsertRow(t, e, at, doc), [end]);
    PossibleCons(h, uuid, s2, ReadHead(t), [InsertRow(t, e, at, doc)] + [end]);
    PossibleCons(h, uuid, s1, TakeLock(t), [ReadHead(t)] + ([InsertRow(t, e, at, doc)] + [end]));
    PossibleCons(h, uuid, s, Begin(t), [TakeLock(t)] + ([ReadHead(t)] + ([InsertRow(t, e, at, doc)] + [end])));
    OneAppendUnfolds(t, e, at, doc, end);
  }

  /** Committed, its row is the last of the log; rolled back, the log is as it was; either way the lock is free. */
  lemma AppendCompletes(h: Hash, uuid: Column, s: State, t: TxId, e: Entry, at: Text, doc: Js)
    requires Invariant(s) && t !in s.open && s.lock == None && WellTyped(e) && ReadsBackAs(e, doc)
    ensures Possible(h, uuid, s, OneAppend(t, e, at, doc, Commit(t)))
    ensures Possible(h, uuid, s, OneAppend(t, e, at, doc, Rollback(t)))
    ensures var row := RowFor(h, uuid, PreviousHash(s.committed, |s.committed|), s.nextId, e, at, doc);
            After(h, uuid, s, OneAppend(t, e, at, doc, Commit(t)))
            == State(s.committed + [row], s.nextId + 1, None, s.open)
    ensures After(h, uuid, s, OneAppend(t, e, at, doc, Rollback(t))) == State(s.committed, s.nextId + 1, None, s.open)
  {
    AppendReaches(h, uuid, s, t, e, at, doc, Commit(t));
    AppendReaches(h, uuid, s, t, e, at, doc, Rollback(t));
    AfterEnd(h, uuid, s, t, RowFor(h, uuid, PreviousHash(s.committed, |s.committed|), s.nextId, e, at, doc));
  }

  /** Nobody waits for ever: whoever holds the lock can end its transaction, after which the lock is free. */
  lemma LockIsReleased(h: Hash, uuid: Column, s: State, t: TxId)
    requires Invariant(s) && s.lock == Some(t)
    ensures Enabled(s, Rollback(t)) && Apply(h, uuid, s, Rollback(t)).lock == None
    ensures s.open[t].stage == Between ==> Enabled(s, Commit(t)) && Apply(h, uuid, s, Commit(t)).lock == None
    ensures Apply(h, uuid, s, Rollback(t)).committed == s.committed
  {
  }

  /** Another transaction's append waits as long as the lock is held, and only as long. */
  lemma AppendsWait(s: State, t: TxId)
    requires Invariant(s) && t in s.open && s.open[t].stage == Between
    ensures Enabled(s, TakeLock(t)) <==> s.lock in {None, Some(t)}
  {
  }
}
