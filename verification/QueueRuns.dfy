/** Runs of committed queue transactions: bounded attempts, spaced failures, and a queue that drains. */
module QueueRuns {
  import opened JsText
  import opened Json
  import opened Audit
  import opened AuditAppend
  import opened AuditStorage
  import opened Growing
  import opened Powers
  import opened Queue
  import opened Sequences

  /** One committed transaction: a new row, or a batch at the transaction's `now()`. */
  datatype Step =
    | Enqueued(message: Message)
    | Processed(now: int, due: seq<nat>, answers: seq<Delivery>)

  /** A row as an insert leaves it. */
  predicate Fresh(m: Message) {
    m.status == Queued && m.attempts == 0 && m.lastError == None && m.nextAttemptAt == m.createdAt == m.updatedAt
  }

  /** A batch may take any live rows that are due, each once; which of them is the query's choice. */
  ghost predicate Enabled(table: seq<Message>, s: Step) {
    match s
    case Enqueued(m) => Fresh(m)
    case Processed(now, due, answers) =>
      && Takes(table, due) && |due| == |answers|
      && forall i :: 0 <= i < |due| ==> Due(table[due[i]], now)
  }

  ghost function Apply(table: seq<Message>, s: Step): seq<Message>
    requires Enabled(table, s)
  {
    match s
    case Enqueued(m) => table + [m]
    case Processed(now, due, answers) => TableAfter(table, now, due, answers, |due|)
  }

  /** The table after each step is enabled in turn, starting from an empty one. */
  ghost predicate IsRun(steps: seq<Step>)
    decreases |steps|, 0
  {
    steps == [] || (IsRun(steps[..|steps| - 1]) && Enabled(After(steps[..|steps| - 1]), steps[|steps| - 1]))
  }

  ghost function After(steps: seq<Step>): seq<Message>
    requires IsRun(steps)
    decreases |steps|, 1
  {
    if steps == [] then [] else Apply(After(steps[..|steps| - 1]), steps[|steps| - 1])
  }

  /** What an insert leaves is such a row, with its ids as their columns give them back. */
  lemma InsertsAreSteps(db: Database, table: seq<Message>, id: Text, organisationId: Text, messageType: Text,
                        toAddress: Text, subject: Text, body: Text, now: int)
    requires Faithful(db)
    ensures var m := Inserted(db.uuid, id, organisationId, messageType, toAddress, subject, body, now);
            && Enabled(table, Enqueued(m)) && Kept(db.uuid, m)
            && m.id == db.uuid(id) && m.organisationId == db.uuid(organisationId)
            && m.messageType == ThroughUtf8(messageType) && m.toAddress == ThroughUtf8(toAddress)
            && m.subject == ThroughUtf8(subject) && m.body == ThroughUtf8(body) && m.createdAt == now
  {
  }

  /** Batches as the query makes them are steps of these runs. */
  lemma QueryBatchesAreSteps(table: seq<Message>, now: int, batchSize: nat, locked: set<nat>, due: seq<nat>,
                            answers: seq<Delivery>)
    requires IsBatch(table, now, batchSize, locked, due) && |answers| == |due|
    ensures Enabled(table, Processed(now, due, answers))
    ensures Apply(table, Processed(now, due, answers)) == TableAfter(table, now, due, answers, |due|)
  {
  }

  // ---------------------------------------------------------------------------
  // What one step does to one row
  // ---------------------------------------------------------------------------

  /** The answer a row gets in a step, if the step processes it. */
  function AnswerIn(s: Step, r: nat): Option<Delivery> {
    if s.Processed? && |s.due| == |s.answers| then AnswerFor(s.due, s.answers, |s.due|, r) else None
  }

  lemma {:induction false} AnsweredRowsAreDue(due: seq<nat>, answers: seq<Delivery>, n: nat, r: nat) returns (i: nat)
    requires n <= |due| == |answers| && AnswerFor(due, answers, n, r).Some?
    ensures i < n && due[i] == r
  {
    if due[n - 1] == r {
      i := n - 1;
    } else {
      i := AnsweredRowsAreDue(due, answers, n - 1, r);
    }
  }

  /** A row changes only by its own answer, and only while it is due. */
  lemma StepOnRow(table: seq<Message>, s: Step, r: nat)
    requires Enabled(table, s) && r < |table|
    ensures |Apply(table, s)| >= |table|
    ensures AnswerIn(s, r).None? ==> Apply(table, s)[r] == table[r]
    ensures AnswerIn(s, r).Some? ==>
              s.Processed? && Due(table[r], s.now)
              && Apply(table, s)[r] == Attempted(table[r], AnswerIn(s, r).value, s.now)
  {
    if s.Processed? {
      RowsAfter(table, s.now, s.due, s.answers, |s.due|, r);
      if AnswerIn(s, r).Some? {
        var i := AnsweredRowsAreDue(s.due, s.answers, |s.due|, r);
      }
    }
  }

  lemma StepOnNewRow(table: seq<Message>, s: Step, r: nat)
    requires Enabled(table, s) && |table| <= r
    ensures AnswerIn(s, r).None?
    ensures r < |Apply(table, s)| ==>
              s.Enqueued? && r == |table| && Apply(table, s)[r].status == Queued && Apply(table, s)[r].attempts == 0
  {
    if AnswerIn(s, r).Some? {
      var i := AnsweredRowsAreDue(s.due, s.answers, |s.due|, r);
    }
  }

  // ---------------------------------------------------------------------------
  // Attempts and statuses
  // ---------------------------------------------------------------------------

  /** At most five attempts, and dead exactly at the fifth failure. */
  predicate Bounded(m: Message) {
    && m.attempts <= 5
    && (m.status == DeadLetter <==> m.attempts == 5)
    && (m.status == Queued ==> m.attempts == 0)
    && (m.status == Failed ==> m.attempts >= 1)
  }

  lemma {:induction false} AttemptsBounded(steps: seq<Step>, r: nat)
    requires IsRun(steps) && r < |After(steps)|
    ensures Bounded(After(steps)[r])
  {
    if steps == [] {
    } else {
      var before, s := steps[..|steps| - 1], steps[|steps| - 1];
      if r < |After(before)| {
        AttemptsBounded(before, r);
        StepOnRow(After(before), s, r);
      } else {
        StepOnNewRow(After(before), s, r);
      }
    }
  }

  /** Once sent or dead, a row stays as it is and is never processed again. */
  lemma {:induction false} SettledForever(steps: seq<Step>, k: nat, r: nat)
    requires IsRun(steps) && k <= |steps| && IsRun(steps[..k])
    requires r < |After(steps[..k])| && !Live(After(steps[..k])[r])
    ensures r < |After(steps)| && After(steps)[r] == After(steps[..k])[r]
    ensures forall j :: k <= j < |steps| ==> AnswerIn(steps[j], r).None?
    decreases |steps|
  {
    if k < |steps| {
      var before, s := steps[..|steps| - 1], steps[|steps| - 1];
      assert before[..k] == steps[..k];
      SettledForever(before, k, r);
      StepOnRow(After(before), s, r);
    } else {
      TakeAll(steps);
    }
  }

  // ---------------------------------------------------------------------------
  // The times of the failures of one row
  // ---------------------------------------------------------------------------

  function Failures(steps: seq<Step>, r: nat): seq<int> {
    if steps == [] then []
    else
      var before, s := Failures(steps[..|steps| - 1], r), steps[|steps| - 1];
      if AnswerIn(s, r).Some? && AnswerIn(s, r).value.error.Some? then before + [s.now] else before
  }

  /** Each failure comes no sooner than the wait set by the one before. */
  predicate Spaced(times: seq<int>) {
    |times| <= 1 || (Spaced(times[..|times| - 1]) && times[|times| - 1] - times[|times| - 2] >= Backoff(|times| - 1))
  }

  /** The row remembers how often it failed and when it may be tried again. */
  predicate Remembers(m: Message, times: seq<int>) {
    && m.attempts == |times| && Spaced(times)
    && (times != [] && Live(m) ==> m.nextAttemptAt == times[|times| - 1] + Backoff(|times|))
  }

  lemma SpacedSnoc(times: seq<int>, now: int)
    requires Spaced(times) && (times != [] ==> now - times[|times| - 1] >= Backoff(|times|))
    ensures Spaced(times + [now])
  {
    SnocParts(times, now);
  }

  lemma {:induction false} NoFailuresBeforehand(steps: seq<Step>, r: nat)
    requires IsRun(steps) && |After(steps)| <= r
    ensures Failures(steps, r) == []
  {
    if steps == [] {
    } else {
      var before, s := steps[..|steps| - 1], steps[|steps| - 1];
      TableOnlyGrows(After(before), s);
      NoFailuresBeforehand(before, r);
      StepOnNewRow(After(before), s, r);
    }
  }

  lemma TableOnlyGrows(table: seq<Message>, s: Step)
    requires Enabled(table, s)
    ensures |table| <= |Apply(table, s)|
  {
  }

  lemma {:induction false} RunRemembers(steps: seq<Step>, r: nat)
    requires IsRun(steps) && r < |After(steps)|
    ensures Remembers(After(steps)[r], Failures(steps, r))
  {
    if steps == [] {
    } else {
      var before, s := steps[..|steps| - 1], steps[|steps| - 1];
      if r < |After(before)| {
        RunRemembers(before, r);
        StepOnRow(After(before), s, r);
        AttemptRemembers(After(before)[r], Failures(before, r), s, r);
      } else {
        StepOnNewRow(After(before), s, r);
        NoFailuresBeforehand(before, r);
      }
    }
  }

  lemma AttemptRemembers(m: Message, times: seq<int>, s: Step, r: nat)
    requires Remembers(m, times)
    requires AnswerIn(s, r).Some? ==> s.Processed? && Due(m, s.now)
    ensures AnswerIn(s, r).Some? && AnswerIn(s, r).value.error.Some? ==>
              Remembers(Attempted(m, AnswerIn(s, r).value, s.now), times + [s.now])
    ensures AnswerIn(s, r).Some? && AnswerIn(s, r).value.error.None? ==>
              Remembers(Attempted(m, AnswerIn(s, r).value, s.now), times)
  {
    if AnswerIn(s, r).Some? && AnswerIn(s, r).value.error.Some? {
      SpacedSnoc(times, s.now);
    }
  }

  lemma Pow2Doubles(n: nat)
    ensures Pow2(n + 1) == 2 * Pow2(n)
  {
  }

  /** Adjacent waits add up to a geometric sum. */
  lemma {:induction false} SpacedFromFirst(times: seq<int>, i: nat, j: nat)
    requires Spaced(times) && i <= j < |times|
    ensures times[j] - times[i] >= 60 * (Pow2(j) - Pow2(i))
    decreases |times|
  {
    var init := times[..|times| - 1];
    if j < |times| - 1 {
      SpacedFromFirst(init, i, j);
    } else if i < j {
      SpacedFromFirst(init, i, j - 1);
      Pow2Doubles(j - 1);
    }
  }

  /**
   * In any run the failures of a row number as many as its attempts, and the `k`-th comes at least
   * 60 * (2^(k-1) - 1) seconds after the first.
   */
  lemma FailuresBackOff(steps: seq<Step>, r: nat, k: nat)
    requires IsRun(steps) && r < |After(steps)| && 1 <= k <= |Failures(steps, r)|
    ensures |Failures(steps, r)| == After(steps)[r].attempts
    ensures Failures(steps, r)[k - 1] - Failures(steps, r)[0] >= 60 * (Pow2(k - 1) - 1)
  {
    RunRemembers(steps, r);
    SpacedFromFirst(Failures(steps, r), 0, k - 1);
  }

  // ---------------------------------------------------------------------------
  // The whole history of one row
  // ---------------------------------------------------------------------------

  /** One try to send a message, and the error it met, if any. */
  datatype Try = Try(now: int, error: Option<Text>)

  function Tries(steps: seq<Step>, r: nat): seq<Try> {
    if steps == [] then []
    else
      var before, s := Tries(steps[..|steps| - 1], r), steps[|steps| - 1];
      if s.Processed? && AnswerIn(s, r).Some? then before + [Try(s.now, AnswerIn(s, r).value.error)] else before
  }

  /** The row as it was inserted. */
  ghost function Original(steps: seq<Step>, r: nat): Message
    requires IsRun(steps) && r < |After(steps)|
  {
    var before, s := steps[..|steps| - 1], steps[|steps| - 1];
    if r < |After(before)| then Original(before, r) else s.message
  }

  /** When a row that has failed so far may be tried again: at once, then after 60, 120, 240 and 480 seconds. */
  predicate NextTry(m: Message, original: Message, failed: seq<Try>) {
    if failed == [] then m.lastError == None && m.nextAttemptAt == original.createdAt
    else
      && m.lastError == failed[|failed| - 1].error
      && (|failed| < 5 ==> m.nextAttemptAt == failed[|failed| - 1].now + [60, 120, 240, 480][|failed| - 1])
  }

  predicate AllFailed(tries: seq<Try>) {
    forall i :: 0 <= i < |tries| ==> tries[i].error.Some?
  }

  /** What the tries make of a message: sent at the first success, dead at the fifth failure, else still live. */
  predicate MadeOf(m: Message, original: Message, tries: seq<Try>) {
    var n := |tries|;
    && m.(status := Queued, attempts := 0, lastError := None, nextAttemptAt := original.createdAt,
          updatedAt := original.createdAt) == original
    && n <= 5
    && if n == 0 then m.status == Queued && m.attempts == 0 && NextTry(m, original, []) && m.updatedAt == m.createdAt
       else
         && AllFailed(tries[..n - 1]) && m.updatedAt == tries[n - 1].now
         && if tries[n - 1].error.None? then
              m.status == Sent && m.attempts == n - 1 && NextTry(m, original, tries[..n - 1])
            else
              m.status == (if n == 5 then DeadLetter else Failed) && m.attempts == n && NextTry(m, original, tries)
  }

  lemma TryMakes(m: Message, original: Message, tries: seq<Try>, d: Delivery, now: int)
    requires MadeOf(m, original, tries) && Live(m)
    ensures MadeOf(Attempted(m, d, now), original, tries + [Try(now, d.error)])
  {
    SnocParts(tries, Try(now, d.error));
    AllButLast(tries);
    FourWaits();
  }

  lemma AllButLast(tries: seq<Try>)
    ensures tries != [] && AllFailed(tries[..|tries| - 1]) && tries[|tries| - 1].error.Some? ==> AllFailed(tries)
  {
  }

  lemma FourWaits()
    ensures Backoff(1) == 60 && Backoff(2) == 120 && Backoff(3) == 240 && Backoff(4) == 480
  {
    Pow2Doubles(0);
    Pow2Doubles(1);
    Pow2Doubles(2);
  }

  lemma {:induction false} NoTriesBeforehand(steps: seq<Step>, r: nat)
    requires IsRun(steps) && |After(steps)| <= r
    ensures Tries(steps, r) == []
  {
    if steps == [] {
    } else {
      var before, s := steps[..|steps| - 1], steps[|steps| - 1];
      TableOnlyGrows(After(before), s);
      NoTriesBeforehand(before, r);
      StepOnNewRow(After(before), s, r);
    }
  }

  /** In every run a row is what its tries have made of the message inserted, and nothing else has touched it. */
  lemma {:induction false} RowHistory(steps: seq<Step>, r: nat)
    requires IsRun(steps) && r < |After(steps)|
    ensures MadeOf(After(steps)[r], Original(steps, r), Tries(steps, r))
  {
    if steps == [] {
    } else {
      var before, s := steps[..|steps| - 1], steps[|steps| - 1];
      if r < |After(before)| {
        RowHistory(before, r);
        StepOnRow(After(before), s, r);
        if AnswerIn(s, r).Some? {
          TryMakes(After(before)[r], Original(before, r), Tries(before, r), AnswerIn(s, r).value, s.now);
        }
      } else {
        StepOnNewRow(After(before), s, r);
        NoTriesBeforehand(before, r);
      }
    }
  }

  // ---------------------------------------------------------------------------
  // Draining
  // ---------------------------------------------------------------------------

  predicate AllBounded(table: seq<Message>) {
    forall r :: 0 <= r < |table| ==> Bounded(table[r])
  }

  lemma AttemptSpends(m: Message, d: Delivery, now: int)
    requires Live(m) && Bounded(m)
    ensures Budget(Attempted(m, d, now)) <= Budget(m) - 1
  {
  }

  lemma BudgetStep(before: seq<Message>, after: seq<Message>, r: nat, m: Message, d: Delivery, now: int)
    requires r < |before| && before[r] == m && Live(m) && Bounded(m)
    requires after == before[r := Attempted(m, d, now)]
    ensures Remaining(after) <= Remaining(before) - 1
  {
    UpdateCounts(before, r, Attempted(m, d, now));
    AttemptSpends(m, d, now);
  }

  /** Every row processed takes at least one from what remains. */
  lemma {:induction false} BatchDrains(table: seq<Message>, now: int, due: seq<nat>, answers: seq<Delivery>, n: nat)
    requires Takes(table, due) && AllBounded(table) && n <= |due| == |answers|
    ensures Remaining(TableAfter(table, now, due, answers, n)) <= Remaining(table) - n
  {
    if n == 0 {
    } else {
      BatchDrains(table, now, due, answers, n - 1);
      RowUntouched(table, now, due, answers, n - 1);
      BudgetStep(TableAfter(table, now, due, answers, n - 1), TableAfter(table, now, due, answers, n), due[n - 1],
                 table[due[n - 1]], answers[n - 1], now);
    }
  }

  function Enqueues(steps: seq<Step>): nat {
    if steps == [] then 0 else Enqueues(steps[..|steps| - 1]) + One(steps[|steps| - 1].Enqueued?)
  }

  function Taken(s: Step): nat {
    if s.Processed? then |s.due| else 0
  }

  /** Rows processed over all batches. */
  function Processings(steps: seq<Step>): nat {
    if steps == [] then 0 else Processings(steps[..|steps| - 1]) + Taken(steps[|steps| - 1])
  }

  lemma {:induction false} RemainingNonNegative(table: seq<Message>, n: nat)
    requires AllBounded(table) && n <= |table|
    ensures RemainingIn(table, n) >= 0
  {
    if n == 0 {
    } else {
      RemainingNonNegative(table, n - 1);
      assert Bounded(table[n - 1]);
    }
  }

  lemma StepDrains(table: seq<Message>, s: Step)
    requires Enabled(table, s) && AllBounded(table)
    ensures Remaining(Apply(table, s)) <= Remaining(table) + 5 * One(s.Enqueued?) - Taken(s)
  {
    match s
    case Enqueued(m) =>
      AddCounts(table, m);
    case Processed(now, due, answers) =>
      BatchDrains(table, now, due, answers, |due|);
  }

  lemma RunBounded(steps: seq<Step>)
    requires IsRun(steps)
    ensures AllBounded(After(steps))
  {
    forall r | 0 <= r < |After(steps)|
      ensures Bounded(After(steps)[r])
    {
      AttemptsBounded(steps, r);
    }
  }

  lemma {:induction false} RunSpends(steps: seq<Step>)
    requires IsRun(steps)
    ensures Remaining(After(steps)) <= 5 * Enqueues(steps) - Processings(steps)
  {
    if steps == [] {
    } else {
      var before, s := steps[..|steps| - 1], steps[|steps| - 1];
      RunSpends(before);
      RunBounded(before);
      StepDrains(After(before), s);
    }
  }

  /** Over any run at most five rows are processed for each message enqueued: the queue drains. */
  lemma RunDrains(steps: seq<Step>)
    requires IsRun(steps)
    ensures 0 <= Remaining(After(steps)) <= 5 * Enqueues(steps) - Processings(steps)
  {
    RunBounded(steps);
    RunSpends(steps);
    RemainingNonNegative(After(steps), |After(steps)|);
  }

  lemma {:induction false} DrainedIn(table: seq<Message>, n: nat)
    requires AllBounded(table) && n <= |table|
    ensures RemainingIn(table, n) == 0 <==> SettledIn(table, n) == n
    ensures SettledIn(table, n) <= n
  {
    if n == 0 {
    } else {
      DrainedIn(table, n - 1);
      RemainingNonNegative(table, n - 1);
      assert Bounded(table[n - 1]);
    }
  }

  /** Nothing remains exactly when every row is settled. */
  lemma DrainedMeansSettled(table: seq<Message>)
    requires AllBounded(table)
    ensures Remaining(table) == 0 <==> Settled(table) == |table|
    ensures Settled(table) <= |table|
  {
    DrainedIn(table, |table|);
  }

  // ---------------------------------------------------------------------------
  // The audit trail of a run
  // ---------------------------------------------------------------------------

  function NotesOf(table: seq<Message>, s: Step): seq<Note>
    requires s.Processed? ==> |s.due| == |s.answers| && forall i :: 0 <= i < |s.due| ==> s.due[i] < |table|
  {
    if s.Processed? then TrailOf(table, s.due, s.answers, |s.due|) else []
  }

  /** The audit entries of a run, in the order they are appended. */
  ghost function Trail(steps: seq<Step>): seq<Note>
    requires IsRun(steps)
  {
    if steps == [] then []
    else Trail(steps[..|steps| - 1]) + NotesOf(After(steps[..|steps| - 1]), steps[|steps| - 1])
  }

  /** How many of the entries are about row `r`. */
  function CountFor(notes: seq<Note>, r: nat): nat {
    if notes == [] then 0 else CountFor(notes[..|notes| - 1], r) + One(notes[|notes| - 1].row == r)
  }

  lemma {:induction false} CountConcat(a: seq<Note>, b: seq<Note>, r: nat)
    ensures CountFor(a + b, r) == CountFor(a, r) + CountFor(b, r)
    decreases |b|
  {
    if b == [] {
      assert a + b == a;
    } else {
      ConcatSnoc(a, b);
      CountConcat(a, b[..|b| - 1], r);
      SnocParts(a + b[..|b| - 1], b[|b| - 1]);
    }
  }

  lemma CountNotes(before: seq<Note>, q: nat, m: Message, d: Delivery, r: nat)
    ensures CountFor(before + NotesFor(q, m, d), r) == CountFor(before, r) + One(q == r && EntryFor(m, d).Some?)
  {
    CountConcat(before, NotesFor(q, m, d), r);
  }

  /** Does the answer a row gets, if any, leave an audit entry? */
  predicate LeavesEntry(table: seq<Message>, answer: Option<Delivery>, r: nat) {
    r < |table| && answer.Some? && EntryFor(table[r], answer.value).Some?
  }

  lemma CountAdds(table: seq<Message>, before: seq<Note>, q: nat, d: Delivery, r: nat, earlier: Option<Delivery>,
                  answer: Option<Delivery>)
    requires q < |table| && CountFor(before, r) == One(LeavesEntry(table, earlier, r))
    requires (q == r ==> earlier == None) && answer == if q == r then Some(d) else earlier
    ensures CountFor(before + NotesFor(q, table[q], d), r) == One(LeavesEntry(table, answer, r))
  {
    CountNotes(before, q, table[q], d, r);
  }

  lemma NextNotes(table: seq<Message>, due: seq<nat>, answers: seq<Delivery>, n: nat)
    requires Takes(table, due) && n < |due| == |answers|
    ensures TrailOf(table, due, answers, n + 1)
            == TrailOf(table, due, answers, n) + NotesFor(due[n], table[due[n]], answers[n])
  {
  }

  /** A row of a batch has no answer before its own. */
  lemma FirstAnswer(table: seq<Message>, due: seq<nat>, answers: seq<Delivery>, n: nat)
    requires Takes(table, due) && n < |due| == |answers|
    ensures AnswerFor(due, answers, n, due[n]) == None
  {
    NotYetAnswered(due, answers, n, due[n]);
  }

  lemma NextAnswer(due: seq<nat>, answers: seq<Delivery>, n: nat, r: nat)
    requires n < |due| == |answers|
    ensures AnswerFor(due, answers, n + 1, r) == if due[n] == r then Some(answers[n]) else AnswerFor(due, answers, n, r)
  {
  }

  /** In a batch a row has one entry if its answer settles it, and none otherwise. */
  lemma {:induction false} CountInBatch(table: seq<Message>, due: seq<nat>, answers: seq<Delivery>, n: nat, r: nat)
    requires Takes(table, due) && n <= |due| == |answers|
    ensures CountFor(TrailOf(table, due, answers, n), r) == One(LeavesEntry(table, AnswerFor(due, answers, n, r), r))
  {
    if n == 0 {
    } else {
      CountInBatch(table, due, answers, n - 1, r);
      NextNotes(table, due, answers, n - 1);
      NextAnswer(due, answers, n - 1, r);
      FirstAnswer(table, due, answers, n - 1);
      CountAdds(table, TrailOf(table, due, answers, n - 1), due[n - 1], answers[n - 1], r,
                AnswerFor(due, answers, n - 1, r), AnswerFor(due, answers, n, r));
    }
  }

  lemma CountInStep(table: seq<Message>, s: Step, r: nat)
    requires Enabled(table, s)
    ensures CountFor(NotesOf(table, s), r) == One(LeavesEntry(table, AnswerIn(s, r), r))
  {
    if s.Processed? {
      CountInBatch(table, s.due, s.answers, |s.due|, r);
    }
  }

  /** In every run a settled message has exactly one audit entry and any other row number none. */
  lemma {:induction false} OneEntryEach(steps: seq<Step>, r: nat)
    requires IsRun(steps)
    ensures CountFor(Trail(steps), r) == One(r < |After(steps)| && !Live(After(steps)[r]))
  {
    if steps == [] {
    } else {
      var before, s := steps[..|steps| - 1], steps[|steps| - 1];
      OneEntryEach(before, r);
      CountConcat(Trail(before), NotesOf(After(before), s), r);
      CountInStep(After(before), s, r);
      if r < |After(before)| {
        StepOnRow(After(before), s, r);
        EntryWhenSettled(After(before)[r], AnswerIn(s, r), s);
      } else {
        StepOnNewRow(After(before), s, r);
      }
    }
  }

  lemma EntryWhenSettled(m: Message, answer: Option<Delivery>, s: Step)
    requires answer.Some? ==> s.Processed? && Live(m)
    ensures answer.Some? ==> (EntryFor(m, answer.value).Some? <==> !Live(Attempted(m, answer.value, s.now)))
  {
  }

  /** What is recorded about a message: its type and, when it is given up, the five attempts. */
  predicate MetadataTells(m: Message, metadata: Js) {
    var kind := Field(Ascii("messageType"), Str(m.messageType));
    if m.status == DeadLetter then metadata == Obj([kind, Field(Ascii("attempts"), Num(Finite(Ascii("5"))))])
    else metadata == Obj([kind])
  }

  /** The entry names the message and its organisation and nobody else, and says what became of the message. */
  predicate Tells(m: Message, e: Entry) {
    && !Live(m)
    && e.organisationId == Some(m.organisationId) && e.actorUserId == None
    && e.entityType == Ascii("outbound_message") && e.entityId == Some(m.id)
    && e.action == (if m.status == Sent then Ascii("notification.sent") else Ascii("notification.dead_lettered"))
    && e.metadata.Some? && MetadataTells(m, e.metadata.value)
  }

  lemma {:induction false} NoteInBatch(table: seq<Message>, due: seq<nat>, answers: seq<Delivery>, n: nat, k: nat)
    returns (i: nat)
    requires n <= |due| == |answers| && (forall i :: 0 <= i < |due| ==> due[i] < |table|)
    requires k < |TrailOf(table, due, answers, n)|
    ensures i < n && TrailOf(table, due, answers, n)[k].row == due[i]
    ensures EntryFor(table[due[i]], answers[i]) == Some(TrailOf(table, due, answers, n)[k].entry)
    ensures TrailOf(table, due, answers, n)[k].occurredAt == answers[i].occurredAt
  {
    if k < |TrailOf(table, due, answers, n - 1)| {
      i := NoteInBatch(table, due, answers, n - 1, k);
    } else {
      i := n - 1;
    }
  }

  lemma {:induction false} AnswerAt(due: seq<nat>, answers: seq<Delivery>, n: nat, i: nat)
    requires i < n <= |due| == |answers|
    requires forall p, q :: 0 <= p < q < |due| ==> due[p] != due[q]
    ensures AnswerFor(due, answers, n, due[i]) == Some(answers[i])
  {
    if i == n - 1 {
    } else {
      AnswerAt(due, answers, n - 1, i);
    }
  }

  lemma FiveInDecimal()
    ensures Decimal(5) == Ascii("5")
  {
  }

  lemma AttemptTells(m: Message, d: Delivery, now: int, e: Entry)
    requires Live(m) && Bounded(m) && EntryFor(m, d) == Some(e)
    ensures Tells(Attempted(m, d, now), e)
  {
    FiveInDecimal();
  }

  lemma NewNotesTell(table: seq<Message>, s: Step, k: nat)
    requires Enabled(table, s) && AllBounded(table) && k < |NotesOf(table, s)|
    ensures NotesOf(table, s)[k].row < |Apply(table, s)|
    ensures Tells(Apply(table, s)[NotesOf(table, s)[k].row], NotesOf(table, s)[k].entry)
  {
    var i := NoteInBatch(table, s.due, s.answers, |s.due|, k);
    AnswerAt(s.due, s.answers, |s.due|, i);
    StepOnRow(table, s, s.due[i]);
    assert Bounded(table[s.due[i]]);
    AttemptTells(table[s.due[i]], s.answers[i], s.now, NotesOf(table, s)[k].entry);
  }

  /** Every audit entry of a run tells what has become of its message, for good. */
  lemma {:induction false} EntriesTell(steps: seq<Step>, k: nat)
    requires IsRun(steps) && k < |Trail(steps)|
    ensures Trail(steps)[k].row < |After(steps)| && Tells(After(steps)[Trail(steps)[k].row], Trail(steps)[k].entry)
  {
    var before, s := steps[..|steps| - 1], steps[|steps| - 1];
    if k < |Trail(before)| {
      EntriesTell(before, k);
      StepOnRow(After(before), s, Trail(before)[k].row);
    } else {
      RunBounded(before);
      NewNotesTell(After(before), s, k - |Trail(before)|);
    }
  }

  // ---------------------------------------------------------------------------
  // The audit log of a run
  // ---------------------------------------------------------------------------

  /** Messages go in with their ids as their columns give them back. */
  predicate StepsKept(uuid: Column, steps: seq<Step>) {
    forall i :: 0 <= i < |steps| && steps[i].Enqueued? ==> Kept(uuid, steps[i].message)
  }

  lemma {:induction false} RunKept(uuid: Column, steps: seq<Step>)
    requires IsRun(steps) && StepsKept(uuid, steps)
    ensures AllKept(uuid, After(steps))
  {
    if steps == [] {
    } else {
      var before, s := steps[..|steps| - 1], steps[|steps| - 1];
      RunKept(uuid, before);
      forall r | 0 <= r < |After(steps)|
        ensures Kept(uuid, After(steps)[r])
      {
        if r < |After(before)| {
          StepOnRow(After(before), s, r);
        }
      }
    }
  }

  predicate Auditable(uuid: Column, note: Note) {
    WellTyped(note.entry) && AsRead(uuid, Normalise(note.entry, note.occurredAt))
  }

  lemma {:induction false} TrailAuditable(uuid: Column, steps: seq<Step>, k: nat)
    requires IsRun(steps) && StepsKept(uuid, steps) && k < |Trail(steps)|
    ensures Auditable(uuid, Trail(steps)[k])
  {
    var before, s := steps[..|steps| - 1], steps[|steps| - 1];
    if k < |Trail(before)| {
      TrailAuditable(uuid, before, k);
    } else {
      RunKept(uuid, before);
      var i := NoteInBatch(After(before), s.due, s.answers, |s.due|, k - |Trail(before)|);
      EntriesAuditable(uuid, After(before)[s.due[i]], s.answers[i]);
    }
  }

  /** The rows a run leaves in an audit log that was empty. */
  ghost function RunLog(db: Database, steps: seq<Step>): seq<Row>
    requires IsRun(steps)
  {
    Posts(db, [], 1, Trail(steps))
  }

  /** A batch takes the log of the run before it to the log of the run with it. */
  lemma RunLogGrows(db: Database, steps: seq<Step>)
    requires IsRun(steps) && steps != []
    ensures var before := steps[..|steps| - 1];
            RunLog(db, steps)
            == Posts(db, RunLog(db, before), 1 + |RunLog(db, before)|, NotesOf(After(before), steps[|steps| - 1]))
  {
    var before := steps[..|steps| - 1];
    GrowConcat(PostedRow(db), [], 1, Trail(before), NotesOf(After(before), steps[|steps| - 1]));
  }

  lemma {:induction false} PostsValid(db: Database, notes: seq<Note>)
    requires Faithful(db) && forall k :: 0 <= k < |notes| ==> Auditable(db.uuid, notes[k])
    ensures ChainValid(db.hash, Posts(db, [], 1, notes))
  {
    if notes == [] {
    } else {
      var init, note := notes[..|notes| - 1], notes[|notes| - 1];
      PostsValid(db, init);
      Snoc(notes);
      AppendVerifies(db.hash, db.uuid, Posts(db, [], 1, init), |notes|, note.entry, note.occurredAt,
                     db.jsonb(Metadata(note.entry)));
      GrowOne(PostedRow(db), [], 1, init, note);
    }
  }

  lemma {:induction false} TrailCounts(steps: seq<Step>)
    requires IsRun(steps)
    ensures |Trail(steps)| == Settled(After(steps))
  {
    if steps == [] {
    } else {
      var before, s := steps[..|steps| - 1], steps[|steps| - 1];
      TrailCounts(before);
      StepCounts(After(before), s);
    }
  }

  lemma StepCounts(table: seq<Message>, s: Step)
    requires Enabled(table, s)
    ensures Settled(Apply(table, s)) == Settled(table) + |NotesOf(table, s)|
  {
    match s
    case Enqueued(m) =>
      AddCounts(table, m);
    case Processed(now, due, answers) =>
      TrailGrowth(table, due, answers, |due|);
      SettledGrowth(table, now, due, answers, |due|);
  }

  /** After any run the log is a valid chain with one row for each settled message. */
  lemma RunLogValid(db: Database, steps: seq<Step>)
    requires IsRun(steps) && Faithful(db) && StepsKept(db.uuid, steps)
    ensures ChainValid(db.hash, RunLog(db, steps))
    ensures |RunLog(db, steps)| == Settled(After(steps))
  {
    forall k | 0 <= k < |Trail(steps)|
      ensures Auditable(db.uuid, Trail(steps)[k])
    {
      TrailAuditable(db.uuid, steps, k);
    }
    PostsValid(db, Trail(steps));
    TrailCounts(steps);
  }
}
