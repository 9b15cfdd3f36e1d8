/** The outbound message queue: sending what is due, backing off, giving up, and auditing what is settled. */
module Queue {
  import opened JsText
  import opened Json
  import opened JsonStore
  import opened HashChain
  import opened Audit
  import opened AuditAppend
  import opened AuditStorage
  import opened Growing
  import opened Powers
  import opened Sequences
  import opened Sorting

  const MAX_ATTEMPTS: nat := 5
  const BACKOFF_BASE_SECONDS: nat := 60

  datatype Status = Queued | Failed | Sent | DeadLetter

  /** A row of `outbound_messages`; instants are seconds. */
  datatype Message = Message(
    id: Text,
    organisationId: Text,
    messageType: Text,
    toAddress: Text,
    subject: Text,
    body: Text,
    status: Status,
    attempts: nat,
    lastError: Option<Text>,
    nextAttemptAt: int,
    createdAt: int,
    updatedAt: int)

  /** How the mail port answered for one row, and the wall clock when the answer is audited. */
  datatype Delivery = Delivery(error: Option<Text>, occurredAt: Text)

  datatype Report = Report(sent: nat, failed: nat, deadLettered: nat)

  /** The wait after the `attempts`-th failure. */
  function Backoff(attempts: nat): nat
    requires attempts >= 1
  {
    BACKOFF_BASE_SECONDS * Pow2(attempts - 1)
  }

  predicate Live(m: Message) {
    m.status == Queued || m.status == Failed
  }

  predicate Due(m: Message, now: int) {
    Live(m) && m.nextAttemptAt <= now
  }

  /** Live rows, none of them twice. */
  predicate Takes(table: seq<Message>, due: seq<nat>) {
    && (forall i :: 0 <= i < |due| ==> due[i] < |table| && Live(table[due[i]]))
    && forall i, j :: 0 <= i < j < |due| ==> due[i] != due[j]
  }

  /**
   * What the query may return, as row numbers: due rows nobody else has locked, oldest first, no more
   * than the batch size, and nothing eligible passed over in favour of a younger row or an unfilled batch.
   */
  ghost predicate IsBatch(table: seq<Message>, now: int, batchSize: nat, locked: set<nat>, due: seq<nat>) {
    && |due| <= batchSize && Takes(table, due)
    && (forall i :: 0 <= i < |due| ==> due[i] !in locked && Due(table[due[i]], now))
    && (forall i, j :: 0 <= i < j < |due| ==> table[due[i]].createdAt <= table[due[j]].createdAt)
    && (forall r :: 0 <= r < |table| && r !in locked && r !in due && Due(table[r], now) ==>
          |due| == batchSize && forall i :: 0 <= i < |due| ==> table[due[i]].createdAt <= table[r].createdAt)
  }

  /** What one answer makes of one row. */
  function Attempted(m: Message, d: Delivery, now: int): Message {
    if d.error.None? then m.(status := Sent, updatedAt := now)
    else if m.attempts + 1 >= MAX_ATTEMPTS then
      m.(status := DeadLetter, attempts := m.attempts + 1, lastError := d.error, updatedAt := now)
    else
      m.(status := Failed, attempts := m.attempts + 1, lastError := d.error,
         nextAttemptAt := now + Backoff(m.attempts + 1), updatedAt := now)
  }

  /** The answer row `r` got among the first `n` of a batch. */
  function AnswerFor(due: seq<nat>, answers: seq<Delivery>, n: nat, r: nat): Option<Delivery>
    requires n <= |due| == |answers|
  {
    if n == 0 then None
    else if due[n - 1] == r then Some(answers[n - 1])
    else AnswerFor(due, answers, n - 1, r)
  }

  function RowAfter(m: Message, answer: Option<Delivery>, now: int): Message {
    if answer.None? then m else Attempted(m, answer.value, now)
  }

  /** The table after the first `n` rows of a batch. */
  function TableAfter(table: seq<Message>, now: int, due: seq<nat>, answers: seq<Delivery>, n: nat)
    : (after: seq<Message>)
    requires n <= |due| == |answers| && forall i :: 0 <= i < |due| ==> due[i] < |table|
    ensures |after| == |table|
  {
    if n == 0 then table
    else
      TableAfter(table, now, due, answers, n - 1)[due[n - 1] := Attempted(table[due[n - 1]], answers[n - 1], now)]
  }

  /** A batch touches the rows it answers for, each once, and no other. */
  lemma {:induction false} RowsAfter(table: seq<Message>, now: int, due: seq<nat>, answers: seq<Delivery>, n: nat,
                                     r: nat)
    requires n <= |due| == |answers| && (forall i :: 0 <= i < |due| ==> due[i] < |table|) && r < |table|
    ensures TableAfter(table, now, due, answers, n)[r] == RowAfter(table[r], AnswerFor(due, answers, n, r), now)
  {
    if n == 0 {
    } else {
      RowsAfter(table, now, due, answers, n - 1, r);
    }
  }

  lemma {:induction false} NotYetAnswered(due: seq<nat>, answers: seq<Delivery>, n: nat, r: nat)
    requires n <= |due| == |answers| && forall i :: 0 <= i < n ==> due[i] != r
    ensures AnswerFor(due, answers, n, r) == None
  {
    if n == 0 {
    } else {
      NotYetAnswered(due, answers, n - 1, r);
    }
  }

  /** A row is as the query saw it until its own turn. */
  lemma RowUntouched(table: seq<Message>, now: int, due: seq<nat>, answers: seq<Delivery>, n: nat)
    requires n < |due| == |answers| && (forall i :: 0 <= i < |due| ==> due[i] < |table|)
    requires forall i, j :: 0 <= i < j < |due| ==> due[i] != due[j]
    ensures TableAfter(table, now, due, answers, n)[due[n]] == table[due[n]]
  {
    RowsAfter(table, now, due, answers, n, due[n]);
    NotYetAnswered(due, answers, n, due[n]);
  }

  // ---------------------------------------------------------------------------
  // Audit entries
  // ---------------------------------------------------------------------------

  const SENT: PlainText := Ascii("notification.sent")
  const DEAD_LETTERED: PlainText := Ascii("notification.dead_lettered")
  const OUTBOUND_MESSAGE: PlainText := Ascii("outbound_message")

  function SentEntry(m: Message): Entry {
    Entry(Some(m.organisationId), None, SENT, OUTBOUND_MESSAGE, Some(m.id),
          Some(Obj([Field(Ascii("messageType"), Str(m.messageType))])))
  }

  function DeadLetterEntry(m: Message, attempts: nat): Entry {
    DecimalIsNumber(attempts);
    Entry(Some(m.organisationId), None, DEAD_LETTERED, OUTBOUND_MESSAGE, Some(m.id),
          Some(Obj([Field(Ascii("messageType"), Str(m.messageType)),
                    Field(Ascii("attempts"), Num(Finite(Decimal(attempts))))])))
  }

  lemma DecimalIsNumber(n: nat)
    ensures IsNumText(Decimal(n))
  {
    DecimalReads(n);
  }

  /** The entry a processed row leaves in the audit log: none when it will be retried. */
  function EntryFor(m: Message, d: Delivery): Option<Entry> {
    if d.error.None? then Some(SentEntry(m))
    else if m.attempts + 1 >= MAX_ATTEMPTS then Some(DeadLetterEntry(m, m.attempts + 1))
    else None
  }

  /** The digest and the columns behind the audit log: how they give ids and metadata back. */
  datatype Database = Database(hash: Hash, uuid: Column, jsonb: Js -> Js)

  ghost predicate Faithful(db: Database) {
    && (forall t: Text :: db.uuid(db.uuid(t)) == db.uuid(t) && WellFormed(db.uuid(t)))
    && forall v: Js :: v.Obj? && WellKeyed(v) ==> IsDocument(db.jsonb(v)) && SameDocument(Stored(v), db.jsonb(v))
  }

  /** A message with its ids as their columns give them back. */
  predicate Kept(uuid: Column, m: Message) {
    uuid(m.organisationId) == m.organisationId && WellFormed(m.id)
  }

  predicate AllKept(uuid: Column, table: seq<Message>) {
    forall r :: 0 <= r < |table| ==> Kept(uuid, table[r])
  }

  /** The row an insert leaves, as its columns give it back; the column defaults make it due at once. */
  function Inserted(uuid: Column, id: Text, organisationId: Text, messageType: Text, toAddress: Text, subject: Text,
                    body: Text, now: int): Message
  {
    Message(uuid(id), uuid(organisationId), ThroughUtf8(messageType), ThroughUtf8(toAddress), ThroughUtf8(subject),
            ThroughUtf8(body), Queued, 0, None, now, now, now)
  }

  /** An audit entry of the queue, with the row it is about. */
  datatype Note = Note(row: nat, entry: Entry, occurredAt: Text)

  function NotesFor(r: nat, m: Message, d: Delivery): seq<Note> {
    var entry := EntryFor(m, d);
    if entry.None? then [] else [Note(r, entry.value, d.occurredAt)]
  }

  /** The entries the first `n` rows of a batch leave, in order. */
  function TrailOf(table: seq<Message>, due: seq<nat>, answers: seq<Delivery>, n: nat): seq<Note>
    requires n <= |due| == |answers| && forall i :: 0 <= i < |due| ==> due[i] < |table|
  {
    if n == 0 then []
    else TrailOf(table, due, answers, n - 1) + NotesFor(due[n - 1], table[due[n - 1]], answers[n - 1])
  }

  function PostedRow(db: Database): (seq<Row>, int, Note) -> Row {
    (before: seq<Row>, id: int, note: Note) =>
      RowFor(db.hash, db.uuid, PreviousHash(before, |before|), id, note.entry, note.occurredAt,
             db.jsonb(Metadata(note.entry)))
  }

  /** The audit log after these entries have been appended. */
  function Posts(db: Database, log: seq<Row>, nextId: int, notes: seq<Note>): (rows: seq<Row>)
    ensures |rows| == |log| + |notes|
  {
    Grow(PostedRow(db), log, nextId, notes)
  }

  lemma PostNote(db: Database, log: seq<Row>, nextId: int, note: Note)
    ensures Posts(db, log, nextId, [note])
            == log + [RowFor(db.hash, db.uuid, PreviousHash(log, |log|), nextId, note.entry, note.occurredAt,
                             db.jsonb(Metadata(note.entry)))]
  {
    GrowOne(PostedRow(db), log, nextId, [], note);
    assert [] + [note] == [note];
  }

  function ReportStep(report: Report, m: Message, d: Delivery): Report {
    if d.error.None? then report.(sent := report.sent + 1)
    else if m.attempts + 1 >= MAX_ATTEMPTS then report.(deadLettered := report.deadLettered + 1)
    else report.(failed := report.failed + 1)
  }

  function ReportAfter(table: seq<Message>, due: seq<nat>, answers: seq<Delivery>, n: nat): Report
    requires n <= |due| == |answers| && forall i :: 0 <= i < |due| ==> due[i] < |table|
  {
    if n == 0 then Report(0, 0, 0)
    else ReportStep(ReportAfter(table, due, answers, n - 1), table[due[n - 1]], answers[n - 1])
  }

  lemma TwoFields(a: Field, b: Field)
    requires a.key != b.key && a.val.Str? && b.val.Num?
    ensures WellKeyed(Obj([a, b])) && Storable(Obj([a, b]))
  {
  }

  lemma OneField(a: Field)
    requires a.val.Str?
    ensures WellKeyed(Obj([a])) && Storable(Obj([a]))
  {
  }

  lemma EntryMetadata(m: Message, d: Delivery)
    requires EntryFor(m, d).Some?
    ensures WellTyped(EntryFor(m, d).value) && Storable(Metadata(EntryFor(m, d).value))
  {
    var kind := Field(Ascii("messageType"), Str(m.messageType));
    OneField(kind);
    if d.error.Some? {
      DecimalIsNumber(m.attempts + 1);
      var attempts := Field(Ascii("attempts"), Num(Finite(Decimal(m.attempts + 1))));
      assert |kind.key| == 11 && |attempts.key| == 8;
      TwoFields(kind, attempts);
    }
  }

  lemma EntryTexts()
    ensures WellFormed(SENT) && WellFormed(DEAD_LETTERED) && WellFormed(OUTBOUND_MESSAGE)
  {
    AsciiWellFormed(SENT);
    AsciiWellFormed(DEAD_LETTERED);
    AsciiWellFormed(OUTBOUND_MESSAGE);
  }

  lemma AsciiWellFormed(t: PlainText)
    ensures WellFormed(t)
  {
    PlainIsWellFormed(t);
  }

  /** What the queue writes to the audit log is written as it will be read. */
  lemma EntriesAuditable(uuid: Column, m: Message, d: Delivery)
    requires EntryFor(m, d).Some? && Kept(uuid, m)
    ensures WellTyped(EntryFor(m, d).value) && AsRead(uuid, Normalise(EntryFor(m, d).value, d.occurredAt))
  {
    EntryMetadata(m, d);
    EntryTexts();
  }

  // ---------------------------------------------------------------------------
  // Counting
  // ---------------------------------------------------------------------------

  /** How many of the first `n` answers report no error. */
  function Accepted(answers: seq<Delivery>, n: nat): nat
    requires n <= |answers|
  {
    if n == 0 then 0 else Accepted(answers, n - 1) + One(answers[n - 1].error.None?)
  }

  function One(b: bool): nat {
    if b then 1 else 0
  }

  /** Rows that will not be processed again. */
  function Settled(table: seq<Message>): nat {
    SettledIn(table, |table|)
  }

  function SettledIn(table: seq<Message>, n: nat): nat
    requires n <= |table|
  {
    if n == 0 then 0 else SettledIn(table, n - 1) + One(!Live(table[n - 1]))
  }

  /** The attempts the live rows may still use up. */
  function Budget(m: Message): int {
    if Live(m) then MAX_ATTEMPTS - m.attempts else 0
  }

  function Remaining(table: seq<Message>): int {
    RemainingIn(table, |table|)
  }

  function RemainingIn(table: seq<Message>, n: nat): int
    requires n <= |table|
  {
    if n == 0 then 0 else RemainingIn(table, n - 1) + Budget(table[n - 1])
  }

  /** Changing one row changes each count by what that row was and is. */
  lemma {:induction false} UpdateCountsIn(table: seq<Message>, r: nat, m: Message, n: nat)
    requires r < |table| && n <= |table|
    ensures SettledIn(table[r := m], n)
            == SettledIn(table, n) + if r < n then One(!Live(m)) - One(!Live(table[r])) else 0
    ensures RemainingIn(table[r := m], n) == RemainingIn(table, n) + if r < n then Budget(m) - Budget(table[r]) else 0
  {
    if n == 0 {
    } else {
      UpdateCountsIn(table, r, m, n - 1);
    }
  }

  lemma UpdateCounts(table: seq<Message>, r: nat, m: Message)
    requires r < |table|
    ensures Settled(table[r := m]) == Settled(table) - One(!Live(table[r])) + One(!Live(m))
    ensures Remaining(table[r := m]) == Remaining(table) - Budget(table[r]) + Budget(m)
  {
    UpdateCountsIn(table, r, m, |table|);
  }

  /** Rows added behind do not change the counts of those before. */
  lemma {:induction false} CountsBefore(table: seq<Message>, m: Message, n: nat)
    requires n <= |table|
    ensures SettledIn(table + [m], n) == SettledIn(table, n) && RemainingIn(table + [m], n) == RemainingIn(table, n)
  {
    if n == 0 {
    } else {
      CountsBefore(table, m, n - 1);
    }
  }

  lemma AddCounts(table: seq<Message>, m: Message)
    ensures Settled(table + [m]) == Settled(table) + One(!Live(m))
    ensures Remaining(table + [m]) == Remaining(table) + Budget(m)
  {
    CountsBefore(table, m, |table|);
  }

  function Total(report: Report): nat {
    report.sent + report.failed + report.deadLettered
  }

  function Final(report: Report): nat {
    report.sent + report.deadLettered
  }

  lemma SettlesWhenReported(m: Message, d: Delivery, now: int, report: Report)
    requires Live(m)
    ensures One(!Live(Attempted(m, d, now))) == One(EntryFor(m, d).Some?)
    ensures ReportStep(report, m, d).sent == report.sent + One(d.error.None?)
    ensures Final(ReportStep(report, m, d)) == Final(report) + One(EntryFor(m, d).Some?)
    ensures Total(ReportStep(report, m, d)) == Total(report) + 1
  {
  }

  lemma NotesCount(r: nat, m: Message, d: Delivery)
    ensures |NotesFor(r, m, d)| == One(EntryFor(m, d).Some?)
  {
  }

  /** How many of the first `n` answers report an error for a row that had failed four times. */
  function GivenUp(table: seq<Message>, due: seq<nat>, answers: seq<Delivery>, n: nat): nat
    requires n <= |due| == |answers| && forall i :: 0 <= i < |due| ==> due[i] < |table|
  {
    if n == 0 then 0
    else GivenUp(table, due, answers, n - 1) + One(answers[n - 1].error.Some? && table[due[n - 1]].attempts >= 4)
  }

  /** Every row taken is counted once, as sent exactly when the mail port reported no error. */
  lemma {:induction false} EveryRowCounted(table: seq<Message>, due: seq<nat>, answers: seq<Delivery>, n: nat)
    requires Takes(table, due) && n <= |due| == |answers|
    ensures Total(ReportAfter(table, due, answers, n)) == n
    ensures ReportAfter(table, due, answers, n).sent == Accepted(answers, n)
  {
    if n == 0 {
    } else {
      EveryRowCounted(table, due, answers, n - 1);
      CountedOnce(table[due[n - 1]], answers[n - 1], ReportAfter(table, due, answers, n - 1));
    }
  }

  /** Of these as dead-lettered exactly when the error was the fifth. */
  lemma {:induction false} FifthErrorsCounted(table: seq<Message>, due: seq<nat>, answers: seq<Delivery>, n: nat)
    requires n <= |due| == |answers| && forall i :: 0 <= i < |due| ==> due[i] < |table|
    ensures ReportAfter(table, due, answers, n).deadLettered == GivenUp(table, due, answers, n)
  {
    if n == 0 {
    } else {
      FifthErrorsCounted(table, due, answers, n - 1);
      CountedOnce(table[due[n - 1]], answers[n - 1], ReportAfter(table, due, answers, n - 1));
    }
  }

  lemma CountedOnce(m: Message, d: Delivery, report: Report)
    ensures Total(ReportStep(report, m, d)) == Total(report) + 1
    ensures ReportStep(report, m, d).sent == report.sent + One(d.error.None?)
    ensures ReportStep(report, m, d).deadLettered == report.deadLettered + One(d.error.Some? && m.attempts >= 4)
  {
  }

  /** The audit entries are as many as the rows sent or given up. */
  lemma {:induction false} TrailGrowth(table: seq<Message>, due: seq<nat>, answers: seq<Delivery>, n: nat)
    requires Takes(table, due) && n <= |due| == |answers|
    ensures |TrailOf(table, due, answers, n)| == Final(ReportAfter(table, due, answers, n))
  {
    if n == 0 {
    } else {
      TrailGrowth(table, due, answers, n - 1);
      NotesCount(due[n - 1], table[due[n - 1]], answers[n - 1]);
      SettlesWhenReported(table[due[n - 1]], answers[n - 1], 0, ReportAfter(table, due, answers, n - 1));
    }
  }

  lemma SettledStep(before: seq<Message>, after: seq<Message>, r: nat, m: Message, d: Delivery, now: int,
                    report: Report, counted: Report)
    requires r < |before| && before[r] == m && Live(m)
    requires after == before[r := Attempted(m, d, now)] && counted == ReportStep(report, m, d)
    ensures Settled(after) - Settled(before) == Final(counted) - Final(report)
  {
    UpdateCounts(before, r, Attempted(m, d, now));
    SettlesWhenReported(m, d, now, report);
  }

  /** One more row of a batch, in each of the three accounts of it. */
  lemma OneMoreRow(table: seq<Message>, now: int, due: seq<nat>, answers: seq<Delivery>, i: nat)
    requires Takes(table, due) && i < |due| == |answers|
    ensures TableAfter(table, now, due, answers, i + 1)
            == TableAfter(table, now, due, answers, i)[due[i] := Attempted(table[due[i]], answers[i], now)]
    ensures TrailOf(table, due, answers, i + 1)
            == TrailOf(table, due, answers, i) + NotesFor(due[i], table[due[i]], answers[i])
    ensures ReportAfter(table, due, answers, i + 1)
            == ReportStep(ReportAfter(table, due, answers, i), table[due[i]], answers[i])
  {
  }

  lemma SettledByOne(table: seq<Message>, now: int, due: seq<nat>, answers: seq<Delivery>, i: nat)
    requires Takes(table, due) && i < |due| == |answers|
    ensures Settled(TableAfter(table, now, due, answers, i + 1)) - Settled(TableAfter(table, now, due, answers, i))
            == Final(ReportAfter(table, due, answers, i + 1)) - Final(ReportAfter(table, due, answers, i))
  {
    RowUntouched(table, now, due, answers, i);
    OneMoreRow(table, now, due, answers, i);
    SettledStep(TableAfter(table, now, due, answers, i), TableAfter(table, now, due, answers, i + 1), due[i],
                table[due[i]], answers[i], now, ReportAfter(table, due, answers, i),
                ReportAfter(table, due, answers, i + 1));
  }

  /** So many more rows are settled. */
  lemma {:induction false} SettledGrowth(table: seq<Message>, now: int, due: seq<nat>, answers: seq<Delivery>, n: nat)
    requires Takes(table, due) && n <= |due| == |answers|
    ensures Settled(TableAfter(table, now, due, answers, n)) - Settled(table)
            == Final(ReportAfter(table, due, answers, n))
  {
    if n == 0 {
    } else {
      SettledGrowth(table, now, due, answers, n - 1);
      SettledByOne(table, now, due, answers, n - 1);
    }
  }

  lemma KeptUpdate(uuid: Column, table: seq<Message>, r: nat, m: Message)
    requires AllKept(uuid, table) && r < |table| && Kept(uuid, m)
    ensures AllKept(uuid, table[r := m])
  {
  }

  // ---------------------------------------------------------------------------
  // There is always a batch, and such a database
  // ---------------------------------------------------------------------------

  /** The rows a query may take, in table order. */
  function Eligible(table: seq<Message>, now: int, locked: set<nat>, n: nat): seq<nat>
    requires n <= |table|
  {
    if n == 0 then []
    else Eligible(table, now, locked, n - 1) + if n - 1 !in locked && Due(table[n - 1], now) then [n - 1] else []
  }

  lemma {:induction false} EligibleExactly(table: seq<Message>, now: int, locked: set<nat>, n: nat)
    requires n <= |table|
    ensures forall r: nat :: r in Eligible(table, now, locked, n) <==> r < n && r !in locked && Due(table[r], now)
    ensures forall r: nat :: multiset(Eligible(table, now, locked, n))[r] <= 1
  {
    if n == 0 {
    } else {
      EligibleExactly(table, now, locked, n - 1);
      var before := Eligible(table, now, locked, n - 1);
      var last: nat := n - 1;
      assert last in before <==> last in multiset(before);
      assert multiset(before + [last]) == multiset(before) + multiset{last};
    }
  }

  /** By age, rows that are not there as old as any. */
  function ByAge(table: seq<Message>): (nat, nat) -> bool {
    (q: nat, r: nat) => Age(table, q) <= Age(table, r)
  }

  function Age(table: seq<Message>, r: nat): int {
    if r < |table| then table[r].createdAt else 0
  }

  lemma OnceEach(s: seq<nat>, i: nat, j: nat)
    requires i < j < |s| && forall r: nat :: multiset(s)[r] <= 1
    ensures s[i] != s[j]
  {
    Halves(s, j);
    assert s[..j][i] == s[i] && s[j..][0] == s[j];
    assert s[i] in multiset(s[..j]) && s[j] in multiset(s[j..]);
    assert multiset(s)[s[i]] == multiset(s[..j])[s[i]] + multiset(s[j..])[s[i]];
  }

  lemma AgesInOrder(table: seq<Message>, s: seq<nat>, i: nat, j: nat)
    requires Ordered(s, ByAge(table)) && i < j < |s|
    ensures Age(table, s[i]) <= Age(table, s[j])
  {
    OrderedAt(s, ByAge(table), i, j);
  }

  /** All rows the query may take, once each, oldest first. */
  ghost predicate AllByAge(table: seq<Message>, now: int, locked: set<nat>, s: seq<nat>) {
    && (forall r: nat :: r in s <==> r < |table| && r !in locked && Due(table[r], now))
    && (forall i, j :: 0 <= i < j < |s| ==> s[i] != s[j])
    && forall i, j :: 0 <= i < j < |s| ==> Age(table, s[i]) <= Age(table, s[j])
  }

  lemma SameRows(s: seq<nat>, all: seq<nat>, r: nat)
    requires multiset(s) == multiset(all)
    ensures r in s <==> r in all
  {
    assert r in s <==> r in multiset(s);
    assert r in all <==> r in multiset(all);
  }

  lemma OnceInOrder(table: seq<Message>, s: seq<nat>)
    requires Ordered(s, ByAge(table)) && forall r: nat :: multiset(s)[r] <= 1
    ensures forall i, j :: 0 <= i < j < |s| ==> s[i] != s[j] && Age(table, s[i]) <= Age(table, s[j])
  {
    forall i, j | 0 <= i < j < |s|
      ensures s[i] != s[j] && Age(table, s[i]) <= Age(table, s[j])
    {
      OnceEach(s, i, j);
      AgesInOrder(table, s, i, j);
    }
  }

  lemma SortedByAge(table: seq<Message>, now: int, locked: set<nat>)
    ensures AllByAge(table, now, locked, Sort(Eligible(table, now, locked, |table|), ByAge(table)))
  {
    var all := Eligible(table, now, locked, |table|);
    var s := Sort(all, ByAge(table));
    EligibleExactly(table, now, locked, |table|);
    SortMembers(all, ByAge(table));
    SortOrdered(all, ByAge(table));
    forall r: nat
      ensures r in s <==> r in all
    {
      SameRows(s, all, r);
    }
    OnceInOrder(table, s);
  }

  lemma LeftOverIsYounger(table: seq<Message>, now: int, locked: set<nat>, s: seq<nat>, n: nat, r: nat)
    requires n <= |s| && AllByAge(table, now, locked, s) && r in s && r !in s[..n]
    ensures n < |s| && forall i :: 0 <= i < n ==> Age(table, s[i]) <= Age(table, r)
  {
    var k :| 0 <= k < |s| && s[k] == r;
    assert forall i :: 0 <= i < n ==> s[..n][i] == s[i];
    assert n <= k;
  }

  lemma TakenRows(table: seq<Message>, now: int, locked: set<nat>, s: seq<nat>, n: nat, i: nat)
    requires i < n <= |s| && AllByAge(table, now, locked, s)
    ensures s[i] < |table| && s[i] !in locked && Due(table[s[i]], now) && Age(table, s[i]) == table[s[i]].createdAt
  {
    assert s[i] in s;
  }

  lemma OldestAreBatch(table: seq<Message>, now: int, batchSize: nat, locked: set<nat>, s: seq<nat>, n: nat)
    requires AllByAge(table, now, locked, s) && n == if |s| < batchSize then |s| else batchSize
    ensures IsBatch(table, now, batchSize, locked, s[..n])
  {
    var due := s[..n];
    forall i: nat | i < |due|
      ensures due[i] < |table| && due[i] !in locked && Due(table[due[i]], now)
      ensures Age(table, due[i]) == table[due[i]].createdAt
    {
      TakenRows(table, now, locked, s, n, i);
    }
    forall r: nat | r < |table| && r !in locked && r !in due && Due(table[r], now)
      ensures |due| == batchSize && forall i :: 0 <= i < |due| ==> table[due[i]].createdAt <= table[r].createdAt
    {
      LeftOverIsYounger(table, now, locked, s, n, r);
    }
  }

  /** Whatever the table, the instant, the batch size and the locks, the query has an answer. */
  lemma BatchExists(table: seq<Message>, now: int, batchSize: nat, locked: set<nat>) returns (due: seq<nat>)
    ensures IsBatch(table, now, batchSize, locked, due)
  {
    var s := Sort(Eligible(table, now, locked, |table|), ByAge(table));
    SortedByAge(table, now, locked);
    var n := if |s| < batchSize then |s| else batchSize;
    due := s[..n];
    OldestAreBatch(table, now, batchSize, locked, s, n);
  }

  /**
   * What an answer of the query is: no more than the batch size, only queued or failed rows whose time has come, and
   * no such row left out, unless it is locked, but for a full batch of rows no younger.
   */
  lemma BatchSpelled(table: seq<Message>, now: int, batchSize: nat, locked: set<nat>, due: seq<nat>, r: nat)
    requires IsBatch(table, now, batchSize, locked, due) && r < |table|
    ensures |due| <= batchSize
    ensures var ready := table[r].status in {Queued, Failed} && table[r].nextAttemptAt <= now && r !in locked;
            && (r in due ==> ready)
            && (ready && r !in due ==>
                  |due| == batchSize && forall i :: 0 <= i < |due| ==>
                    due[i] < |table| && table[due[i]].createdAt <= table[r].createdAt)
  {
    if r in due {
      var i :| 0 <= i < |due| && due[i] == r;
    }
  }

  /** Columns that do what is asked of them exist. */
  lemma FaithfulExists(h: Hash)
    ensures Faithful(Database(h, ThroughUtf8, Stored))
  {
    forall t: Text
      ensures ThroughUtf8(ThroughUtf8(t)) == ThroughUtf8(t) && WellFormed(ThroughUtf8(t))
    {
      ThroughUtf8Exactly(t);
      ThroughUtf8Exactly(ThroughUtf8(t));
    }
    forall v: Js | v.Obj? && WellKeyed(v)
      ensures IsDocument(Stored(v)) && SameDocument(Stored(v), Stored(v))
    {
      StoredIsDocument(v);
      SameDocumentReflexive(Stored(v));
    }
  }

  // ---------------------------------------------------------------------------
  // The queue
  // ---------------------------------------------------------------------------

  class Outbox {
    const log: AuditLog
    const jsonb: Js -> Js
    var table: seq<Message>

    function Db(): Database {
      Database(log.hash, log.uuid, jsonb)
    }

    ghost predicate Valid()
      reads this, log
    {
      log.Valid() && ChainValid(log.hash, log.rows) && Faithful(Db()) && AllKept(log.uuid, table)
    }

    constructor (log: AuditLog, jsonb: Js -> Js)
      requires log.Valid() && ChainValid(log.hash, log.rows) && Faithful(Database(log.hash, log.uuid, jsonb))
      ensures Valid() && table == [] && this.log == log && this.jsonb == jsonb
    {
      this.log := log;
      this.jsonb := jsonb;
      table := [];
    }

    /** `enqueueOutboundMessage`. */
    method Enqueue(id: Text, organisationId: Text, messageType: Text, toAddress: Text, subject: Text, body: Text,
                   now: int)
      requires Valid()
      modifies this`table
      ensures Valid()
      ensures table == old(table)
                       + [Inserted(log.uuid, id, organisationId, messageType, toAddress, subject, body, now)]
    {
      table := table + [Message(log.uuid(id), log.uuid(organisationId), ThroughUtf8(messageType),
                                ThroughUtf8(toAddress), ThroughUtf8(subject), ThroughUtf8(body),
                                Queued, 0, None, now, now, now)];
    }

    /**
     * `processOutboundQueue`, given what the query returns and how the mail port answers. Every taken row is
     * counted once; the audit log gains one row for each that is sent or given up, and stays a valid chain.
     */
    method ProcessOutboundQueue(now: int, batchSize: nat, ghost locked: set<nat>, due: seq<nat>, answers: seq<Delivery>)
      returns (report: Report)
      requires Valid() && IsBatch(table, now, batchSize, locked, due) && |answers| == |due|
      modifies this`table, log
      ensures Valid()
      ensures table == TableAfter(old(table), now, due, answers, |due|)
      ensures log.rows == Posts(Db(), old(log.rows), old(log.nextId), TrailOf(old(table), due, answers, |due|))
      ensures Total(report) == |due| && report.sent == Accepted(answers, |due|)
      ensures report.deadLettered == GivenUp(old(table), due, answers, |due|)
      ensures |log.rows| == |old(log.rows)| + Final(report)
      ensures Settled(table) == Settled(old(table)) + Final(report)
    {
      ghost var taken := table;
      report := ProcessRows(now, due, answers);
      EveryRowCounted(taken, due, answers, |due|);
      FifthErrorsCounted(taken, due, answers, |due|);
      TrailGrowth(taken, due, answers, |due|);
      SettledGrowth(taken, now, due, answers, |due|);
    }

    /** The loop over the rows the query returned. */
    method ProcessRows(now: int, due: seq<nat>, answers: seq<Delivery>) returns (report: Report)
      requires Valid() && Takes(table, due) && |answers| == |due|
      modifies this`table, log
      ensures Valid()
      ensures table == TableAfter(old(table), now, due, answers, |due|)
      ensures log.rows == Posts(Db(), old(log.rows), old(log.nextId), TrailOf(old(table), due, answers, |due|))
      ensures report == ReportAfter(old(table), due, answers, |due|)
    {
      ghost var rows, firstId := log.rows, log.nextId;
      var taken := table;
      report := Report(0, 0, 0);
      for i := 0 to |due|
        invariant Valid() && |table| == |taken|
        invariant table == TableAfter(taken, now, due, answers, i)
        invariant log.rows == Posts(Db(), rows, firstId, TrailOf(taken, due, answers, i))
        invariant log.nextId == firstId + |log.rows| - |rows|
        invariant report == ReportAfter(taken, due, answers, i)
      {
        RowUntouched(taken, now, due, answers, i);
        OneMoreRow(taken, now, due, answers, i);
        GrowConcat(PostedRow(Db()), rows, firstId, TrailOf(taken, due, answers, i),
                   NotesFor(due[i], taken[due[i]], answers[i]));
        report := ProcessRow(due[i], taken[due[i]], answers[i], now, report);
      }
    }

    /** The body of the loop: the answer for one row, as the query returned it. */
    method ProcessRow(r: nat, row: Message, answer: Delivery, now: int, report: Report) returns (counted: Report)
      requires Valid() && r < |table| && table[r] == row
      modifies this`table, log
      ensures Valid()
      ensures table == old(table)[r := Attempted(row, answer, now)]
      ensures log.rows == Posts(Db(), old(log.rows), old(log.nextId), NotesFor(r, row, answer))
      ensures log.nextId - old(log.nextId) == |log.rows| - |old(log.rows)|
      ensures counted == ReportStep(report, row, answer)
    {
      KeptUpdate(log.uuid, table, r, Attempted(row, answer, now));
      if answer.error.None? {
        table := table[r := row.(status := Sent, updatedAt := now)];
        Append(r, row, answer, SentEntry(row));
        return report.(sent := report.sent + 1);
      }
      var attempts := row.attempts + 1;
      if attempts >= MAX_ATTEMPTS {
        table := table[r := row.(status := DeadLetter, attempts := attempts, lastError := answer.error,
                                 updatedAt := now)];
        Append(r, row, answer, DeadLetterEntry(row, attempts));
        return report.(deadLettered := report.deadLettered + 1);
      }
      var backoffSeconds := BACKOFF_BASE_SECONDS * Pow2(attempts - 1);
      table := table[r := row.(status := Failed, attempts := attempts, lastError := answer.error,
                               nextAttemptAt := now + backoffSeconds, updatedAt := now)];
      return report.(failed := report.failed + 1);
    }

    /** `appendAudit`, with the metadata read back through the column. */
    method Append(ghost r: nat, ghost row: Message, answer: Delivery, e: Entry)
      requires Valid() && Kept(log.uuid, row) && EntryFor(row, answer) == Some(e)
      modifies log
      ensures Valid() && log.nextId == old(log.nextId) + 1
      ensures log.rows == Posts(Db(), old(log.rows), old(log.nextId), NotesFor(r, row, answer))
      ensures |log.rows| == |old(log.rows)| + 1
    {
      EntriesAuditable(log.uuid, row, answer);
      PostNote(Db(), log.rows, log.nextId, Note(r, e, answer.occurredAt));
      log.AppendAudit(e, answer.occurredAt, jsonb(Metadata(e)));
    }
  }
}
