/** Properties of whole runs of the chat-threshold handler: which rows qualify, what
    a run sends, what it writes to the ledger, and what a second run over the same
    rows does. */
module CronProperties {
  import opened Results
  import opened JsText
  import opened Capi
  import opened Retries
  import opened ChatThresholdCron

  // ---------------------------------------------------------------------------
  // Eligibility

  /** The threshold is strict: five messages never qualify, six do for a number that
      normalises and is not a test number. */
  lemma ThresholdIsStrict(r: MetabaseRow, testListCsv: Option<string>)
    ensures r.messagesSent <= MessagesThreshold ==> !IsEligible(r, testListCsv)
    ensures (&& HasPhone(r)
             && !IsTestNumber(NormalizePhoneToE164(r.phone).value, testListCsv)
             && r.messagesSent >= MessagesThreshold + 1)
            ==> IsEligible(r, testListCsv)
  {
  }

  lemma PhonelessRowsNeverEligible(r: MetabaseRow, testListCsv: Option<string>)
    ensures !HasPhone(r) ==> !IsEligible(r, testListCsv)
  {
  }

  /** A number listed in `TEST_NUMBERS_E164` is never eligible, however many messages
      it sent. */
  lemma TestNumbersNeverEligible(r: MetabaseRow, entries: seq<string>, i: nat)
    requires |entries| >= 1
    requires forall j :: 0 <= j < |entries| ==> ',' !in entries[j]
    requires i < |entries|
    requires HasPhone(r) && Trim(entries[i]) == NormalizePhoneToE164(r.phone).value
    ensures !IsEligible(r, Some(Join(entries, ',')))
  {
    var e164 := NormalizePhoneToE164(r.phone).value;
    E164HasNoWhitespace(e164);
    TrimNoWhitespace(e164);
    JoinHoldsPart(entries, ',', i);
    TestListMembership(e164, entries);
  }

  /** A joined list is at least as long as each of its parts. */
  lemma {:induction false} JoinHoldsPart(parts: seq<string>, sep: char, i: nat)
    requires i < |parts|
    ensures |Join(parts, sep)| >= |parts[i]|
    decreases |parts|
  {
    if i > 0 {
      JoinHoldsPart(parts[1..], sep, i - 1);
    }
  }

  /** `rows.filter` distributes over concatenation, so the eligible rows of a result set
      are the eligible rows of its parts, in order. */
  lemma {:induction false} FilterEligibleAppend(a: seq<MetabaseRow>, b: seq<MetabaseRow>, testListCsv: Option<string>)
    ensures FilterEligible(a + b, testListCsv) == FilterEligible(a, testListCsv) + FilterEligible(b, testListCsv)
    decreases |b|
  {
    if |b| == 0 {
      assert a + b == a;
    } else {
      var b' := b[..|b| - 1];
      assert (a + b)[..|a + b| - 1] == a + b';
      assert (a + b)[|a + b| - 1] == b[|b| - 1];
      FilterEligibleAppend(a, b', testListCsv);
    }
  }

  /** Likewise the rows left to send from a concatenation are those left from each part,
      in order: a row is judged by the ledger alone, not by the rows before it. */
  lemma {:induction false} FreshRowsAppend(a: seq<MetabaseRow>, b: seq<MetabaseRow>, ledger: set<string>)
    ensures FreshRows(a + b, ledger) == FreshRows(a, ledger) + FreshRows(b, ledger)
    decreases |b|
  {
    if |b| == 0 {
      assert a + b == a;
    } else {
      var b' := b[..|b| - 1];
      assert (a + b)[..|a + b| - 1] == a + b';
      assert (a + b)[|a + b| - 1] == b[|b| - 1];
      FreshRowsAppend(a, b', ledger);
    }
  }

  // ---------------------------------------------------------------------------
  // What a run sends

  /** A run in which an EXISTS check throws sends nothing, writes nothing and fails. */
  lemma CheckFailureSendsNothing(rows: seq<MetabaseRow>, env: Env, ledger: set<string>, faults: StoreFaults,
                                 send: nat -> Attempt<string>, digest: Digest, now: int)
    requires !ChecksPass(FilterEligible(rows, env.testNumbersE164), faults.existsFails)
    ensures var run := Dispatch(rows, env, ledger, faults, send, digest, now);
      run.batch == [] && run.sendCalls == 0 && run.ledger == ledger && run.response.Failed?
  {
    var eligible := FilterEligible(rows, env.testNumbersE164);
    BuildBatchFails(eligible, ledger, faults.existsFails, Stamp(ActionSourceOf(env), digest, now));
  }

  /** Otherwise the batch is one event per eligible row whose key the ledger lacks, in
      the order of the rows. */
  lemma DispatchBatch(rows: seq<MetabaseRow>, env: Env, ledger: set<string>, faults: StoreFaults,
                      send: nat -> Attempt<string>, digest: Digest, now: int)
    requires ChecksPass(FilterEligible(rows, env.testNumbersE164), faults.existsFails)
    ensures var run := Dispatch(rows, env, ledger, faults, send, digest, now);
      var pending := FreshRows(FilterEligible(rows, env.testNumbersE164), ledger);
      && run.batch == EventsFor(pending, Stamp(ActionSourceOf(env), digest, now))
      && |run.batch| == |pending|
  {
    var eligible := FilterEligible(rows, env.testNumbersE164);
    var stamp := Stamp(ActionSourceOf(env), digest, now);
    BuildBatchFails(eligible, ledger, faults.existsFails, stamp);
    BuildBatchMatchesFreshRows(eligible, ledger, faults.existsFails, stamp);
    assert |EventsFor(FreshRows(eligible, ledger), stamp)| == |FreshRows(eligible, ledger)| by {
      FreshRowsMembers(eligible, ledger);
      EventsForLength(FreshRows(eligible, ledger), stamp);
    }
  }

  /** No event of a batch carries a key the ledger already holds. */
  lemma {:induction false} FreshEventsUnfired(rows: seq<MetabaseRow>, ledger: set<string>, stamp: Stamp)
    ensures forall e :: e in EventsFor(FreshRows(rows, ledger), stamp) ==> "capi:" + e.eventId !in ledger
  {
    if |rows| > 0 {
      var prefix := rows[..|rows| - 1];
      var r := rows[|rows| - 1];
      FreshEventsUnfired(prefix, ledger, stamp);
      var before := FreshRows(prefix, ledger);
      if HasPhone(r) && KeyOf(r) !in ledger {
        assert FreshRows(rows, ledger) == before + [r];
        EventsForSnoc(before, r, stamp);
        EventContents(r, NormalizePhoneToE164(r.phone).value, stamp);
      } else {
        assert FreshRows(rows, ledger) == before;
      }
    }
  }

  /** With nothing pending to send the handler answers `processed: 0` without calling the
      send endpoint or touching the ledger. */
  lemma EmptyBatchShortCircuits(rows: seq<MetabaseRow>, env: Env, ledger: set<string>, faults: StoreFaults,
                                send: nat -> Attempt<string>, digest: Digest, now: int)
    requires ChecksPass(FilterEligible(rows, env.testNumbersE164), faults.existsFails)
    requires FreshRows(FilterEligible(rows, env.testNumbersE164), ledger) == []
    ensures Dispatch(rows, env, ledger, faults, send, digest, now) == Run([], 0, ledger, Processed(0, None))
  {
    var eligible := FilterEligible(rows, env.testNumbersE164);
    var stamp := Stamp(ActionSourceOf(env), digest, now);
    BuildBatchFails(eligible, ledger, faults.existsFails, stamp);
    BuildBatchMatchesFreshRows(eligible, ledger, faults.existsFails, stamp);
  }

  /** A send that throws on all three attempts leaves the ledger as it was, so every
      event of the batch is sent again by the next run. */
  lemma FailedSendWritesNothing(rows: seq<MetabaseRow>, env: Env, ledger: set<string>, faults: StoreFaults,
                                send: nat -> Attempt<string>, digest: Digest, now: int)
    requires ChecksPass(FilterEligible(rows, env.testNumbersE164), faults.existsFails)
    requires FreshRows(FilterEligible(rows, env.testNumbersE164), ledger) != []
    requires send(0).Threw? && send(1).Threw? && send(2).Threw?
    ensures var run := Dispatch(rows, env, ledger, faults, send, digest, now);
      && run.batch != []
      && run.sendCalls == 3
      && run.ledger == ledger
      && run.response == Failed(ErrorMessage(Some(send(2).error)))
  {
    DispatchBatch(rows, env, ledger, faults, send, digest, now);
    DefaultScheduleWhenAllFail(send);
  }

  // ---------------------------------------------------------------------------
  // What a run writes

  /** A commit without SET failures writes every key and reports no error. */
  lemma CommitWithoutFaults(marks: seq<Mark>, ledger: set<string>, setFails: map<string, string>)
    requires forall key :: key in MarkKeys(marks) ==> key !in setFails
    ensures CommitMarks(marks, ledger, setFails) == Commit(ledger + MarkKeys(marks), |marks|, None)
  {
    var c := CommitMarks(marks, ledger, setFails);
    if c.written < |marks| {
      MarkKeysMembers(marks, MarkKey(marks[c.written]));
    }
    assert marks[..|marks|] == marks;
  }

  /** A run that reaches the send and gets an answer, with no SET failing, answers
      `processed` with the batch size and the send's answer, and adds to the ledger
      exactly the keys of the sent sessions. */
  lemma SuccessfulRunLedger(rows: seq<MetabaseRow>, env: Env, ledger: set<string>, faults: StoreFaults,
                            send: nat -> Attempt<string>, digest: Digest, now: int, meta: string)
    requires ChecksPass(FilterEligible(rows, env.testNumbersE164), faults.existsFails)
    requires FreshRows(FilterEligible(rows, env.testNumbersE164), ledger) != []
    requires WithRetries(send, DefaultAttempts, DefaultBaseDelayMs).completion == Value(meta)
    requires forall key :: key in MarkKeys(MarksFor(FreshRows(FilterEligible(rows, env.testNumbersE164), ledger))) ==>
      key !in faults.setFails
    ensures var run := Dispatch(rows, env, ledger, faults, send, digest, now);
      var pending := FreshRows(FilterEligible(rows, env.testNumbersE164), ledger);
      && run.response == Processed(|pending|, Some(meta))
      && run.ledger == ledger + MarkKeys(MarksFor(pending))
  {
    var eligible := FilterEligible(rows, env.testNumbersE164);
    var stamp := Stamp(ActionSourceOf(env), digest, now);
    DispatchBatch(rows, env, ledger, faults, send, digest, now);
    BuildBatchMatchesFreshRows(eligible, ledger, faults.existsFails, stamp);
    CommitWithoutFaults(MarksFor(FreshRows(eligible, ledger)), ledger, faults.setFails);
  }

  /** A run that answered 200 got through the checks and committed every entry of its
      session map. */
  lemma ProcessedRunCommitsAll(rows: seq<MetabaseRow>, env: Env, ledger: set<string>, faults: StoreFaults,
                               send: nat -> Attempt<string>, digest: Digest, now: int)
    requires Dispatch(rows, env, ledger, faults, send, digest, now).response.Processed?
    ensures var result := BuildBatch(FilterEligible(rows, env.testNumbersE164), ledger, faults.existsFails,
                                     Stamp(ActionSourceOf(env), digest, now));
      && result.Ok?
      && (result.value.events != [] ==>
            Dispatch(rows, env, ledger, faults, send, digest, now).ledger == ledger + MarkKeys(result.value.marks))
      && (result.value.events == [] ==> Dispatch(rows, env, ledger, faults, send, digest, now).ledger == ledger)
  {
    var result := BuildBatch(FilterEligible(rows, env.testNumbersE164), ledger, faults.existsFails,
                             Stamp(ActionSourceOf(env), digest, now));
    if result.Ok? && result.value.events != [] {
      var marks := result.value.marks;
      assert marks[..|marks|] == marks;
    }
  }

  /** What a run that answered 200 leaves in the ledger: the start ledger plus the keys
      of the sessions it sent, each under the experiment of that session's last row. */
  lemma ProcessedRunLedger(rows: seq<MetabaseRow>, env: Env, ledger: set<string>, faults: StoreFaults,
                           send: nat -> Attempt<string>, digest: Digest, now: int)
    requires Dispatch(rows, env, ledger, faults, send, digest, now).response.Processed?
    ensures var pending := FreshRows(FilterEligible(rows, env.testNumbersE164), ledger);
      && ChecksPass(FilterEligible(rows, env.testNumbersE164), faults.existsFails)
      && Dispatch(rows, env, ledger, faults, send, digest, now).ledger == ledger + MarkKeys(MarksFor(pending))
  {
    var eligible := FilterEligible(rows, env.testNumbersE164);
    var stamp := Stamp(ActionSourceOf(env), digest, now);
    var pending := FreshRows(eligible, ledger);
    ProcessedRunCommitsAll(rows, env, ledger, faults, send, digest, now);
    BuildBatchFails(eligible, ledger, faults.existsFails, stamp);
    BuildBatchMatchesFreshRows(eligible, ledger, faults.existsFails, stamp);
    assert |EventsFor(pending, stamp)| == |pending| by {
      FreshRowsMembers(eligible, ledger);
      EventsForLength(pending, stamp);
    }
  }
  /** A commit stopped part-way has written only keys a full commit would write. */
  lemma MarkKeysPrefix(marks: seq<Mark>, n: nat)
    requires n <= |marks|
    ensures MarkKeys(marks[..n]) <= MarkKeys(marks)
  {
    forall key | key in MarkKeys(marks[..n]) ensures key in MarkKeys(marks) {
      MarkKeysMembers(marks[..n], key);
      MarkKeysMembers(marks, key);
      var k :| 0 <= k < n && MarkKey(marks[..n][k]) == key;
      assert marks[..n][k] == marks[k];
    }
  }

  /** Whatever fails, a run adds to the ledger only keys of the sessions it had pending:
      a commit that stops at a throwing SET leaves some of them and nothing else. */
  lemma DispatchWritesOnlyPendingKeys(rows: seq<MetabaseRow>, env: Env, ledger: set<string>, faults: StoreFaults,
                                      send: nat -> Attempt<string>, digest: Digest, now: int)
    ensures Dispatch(rows, env, ledger, faults, send, digest, now).ledger
      <= ledger + MarkKeys(MarksFor(FreshRows(FilterEligible(rows, env.testNumbersE164), ledger)))
  {
    var eligible := FilterEligible(rows, env.testNumbersE164);
    var stamp := Stamp(ActionSourceOf(env), digest, now);
    BuildBatchMatchesFreshRows(eligible, ledger, faults.existsFails, stamp);
    var result := BuildBatch(eligible, ledger, faults.existsFails, stamp);
    if result.Ok? && result.value.events != [] {
      var c := CommitMarks(result.value.marks, ledger, faults.setFails);
      MarkKeysPrefix(result.value.marks, c.written);
    }
  }


  /** Every eligible row of a session carries the same experiment label. */
  predicate SessionConsistent(rows: seq<MetabaseRow>) {
    forall r1, r2 :: r1 in rows && r2 in rows && r1.sessionId == r2.sessionId ==> ExperimentOf(r1) == ExperimentOf(r2)
  }

  /** A ledger that holds the key of every row with a phone leaves nothing pending. */
  lemma {:induction false} NothingFreshWhenAllFired(rows: seq<MetabaseRow>, ledger: set<string>)
    requires forall i :: 0 <= i < |rows| && HasPhone(rows[i]) ==> KeyOf(rows[i]) in ledger
    ensures FreshRows(rows, ledger) == []
  {
    if |rows| > 0 {
      var prefix := rows[..|rows| - 1];
      assert forall i :: 0 <= i < |prefix| ==> prefix[i] == rows[i];
      NothingFreshWhenAllFired(prefix, ledger);
    }
  }

  /** A row that was sent has its key written by a full commit, provided its session
      has a single experiment among the rows sent. */
  lemma SentRowIsWritten(pending: seq<MetabaseRow>, r: MetabaseRow)
    requires r in pending
    requires SessionConsistent(pending)
    ensures KeyOf(r) in MarkKeys(MarksFor(pending))
  {
    var j :| 0 <= j < |pending| && pending[j] == r;
    LastExperimentExists(pending, r.sessionId);
    var i := LastExperimentIsLast(pending, r.sessionId);
    assert pending[i] in pending;
    MarksForKeys(pending, KeyOf(r));
  }

  lemma ConsistentSubset(rows: seq<MetabaseRow>, sub: seq<MetabaseRow>)
    requires SessionConsistent(rows)
    requires forall r :: r in sub ==> r in rows
    ensures SessionConsistent(sub)
  {
  }

  /** Re-running over the same rows after a run that answered 200 sends nothing and
      writes nothing, as long as no session of the eligible rows carries two
      experiments. */
  lemma RerunSendsNothing(rows: seq<MetabaseRow>, env: Env, ledger: set<string>, faults: StoreFaults,
                          send: nat -> Attempt<string>, digest: Digest, now: int,
                          resend: nat -> Attempt<string>, later: int)
    requires Dispatch(rows, env, ledger, faults, send, digest, now).response.Processed?
    requires SessionConsistent(FilterEligible(rows, env.testNumbersE164))
    ensures var ledger' := Dispatch(rows, env, ledger, faults, send, digest, now).ledger;
      Dispatch(rows, env, ledger', faults, resend, digest, later) == Run([], 0, ledger', Processed(0, None))
  {
    var eligible := FilterEligible(rows, env.testNumbersE164);
    var pending := FreshRows(eligible, ledger);
    var ledger' := Dispatch(rows, env, ledger, faults, send, digest, now).ledger;
    ProcessedRunLedger(rows, env, ledger, faults, send, digest, now);
    FreshRowsMembers(eligible, ledger);
    ConsistentSubset(eligible, pending);
    forall i | 0 <= i < |eligible| && HasPhone(eligible[i]) ensures KeyOf(eligible[i]) in ledger' {
      if KeyOf(eligible[i]) !in ledger {
        SentRowIsWritten(pending, eligible[i]);
      }
    }
    NothingFreshWhenAllFired(eligible, ledger');
    EmptyBatchShortCircuits(rows, env, ledger', faults, resend, digest, later);
  }

  // ---------------------------------------------------------------------------
  // Scenarios

  lemma EligibleHasPhone(r: MetabaseRow, testListCsv: Option<string>)
    ensures IsEligible(r, testListCsv) ==> HasPhone(r)
  {
  }

  /** Two eligible rows with unfired keys are both pending, in order. */
  lemma TwoRowsPending(r1: MetabaseRow, r2: MetabaseRow, testListCsv: Option<string>, ledger: set<string>,
                       existsFails: map<string, string>)
    requires IsEligible(r1, testListCsv) && IsEligible(r2, testListCsv)
    requires KeyOf(r1) !in ledger && KeyOf(r2) !in ledger
    requires KeyOf(r1) !in existsFails && KeyOf(r2) !in existsFails
    ensures FilterEligible([r1, r2], testListCsv) == [r1, r2]
    ensures ChecksPass([r1, r2], existsFails)
    ensures FreshRows([r1, r2], ledger) == [r1, r2]
  {
    assert [r1, r2][..1] == [r1];
    assert [r1][..0] == [];
    assert HasPhone(r1) && HasPhone(r2) by {
      EligibleHasPhone(r1, testListCsv);
      EligibleHasPhone(r2, testListCsv);
    }
    assert FreshRows([r1, r2], ledger) == [r1, r2] && ChecksPass([r1, r2], existsFails) by {
      BothRowsFresh(r1, r2, ledger, existsFails);
    }
  }

  lemma BothRowsFresh(r1: MetabaseRow, r2: MetabaseRow, ledger: set<string>, existsFails: map<string, string>)
    requires HasPhone(r1) && HasPhone(r2)
    requires KeyOf(r1) !in ledger && KeyOf(r2) !in ledger
    requires KeyOf(r1) !in existsFails && KeyOf(r2) !in existsFails
    ensures ChecksPass([r1, r2], existsFails)
    ensures FreshRows([r1, r2], ledger) == [r1, r2]
  {
    assert [r1, r2][..1] == [r1];
    assert [r1][..0] == [];
  }

  /** The ledger key of a session determines the experiment. */
  lemma LedgerKeyDeterminesExperiment(x1: string, x2: string, sessionId: string)
    requires LedgerKey(x1, sessionId) == LedgerKey(x2, sessionId)
    ensures x1 == x2
  {
    var k := LedgerKey(x1, sessionId);
    assert |x1| == |x2|;
    assert x1 == k[|LedgerNamespace|..|LedgerNamespace| + |x1|];
    assert x2 == LedgerKey(x2, sessionId)[|LedgerNamespace|..|LedgerNamespace| + |x2|];
  }

  /** Two rows of one session leave a single entry, holding the second row's experiment. */
  lemma MarksForSameSession(r1: MetabaseRow, r2: MetabaseRow)
    requires r1.sessionId == r2.sessionId
    ensures MarksFor([r1, r2]) == [Mark(r2.sessionId, ExperimentOf(r2))]
  {
    assert [r1, r2][..1] == [r1];
    assert [r1][..0] == [];
    assert MarksFor([r1]) == [Mark(r1.sessionId, ExperimentOf(r1))];
    assert [Mark(r1.sessionId, ExperimentOf(r1))][1..] == [];
  }

  lemma MarkKeysOfOne(m: Mark)
    ensures MarkKeys([m]) == {MarkKey(m)}
  {
    assert [m][1..] == [];
  }

  lemma EventsForOne(r: MetabaseRow, stamp: Stamp)
    requires HasPhone(r)
    ensures EventsFor([r], stamp) == [BuildEvent(r, NormalizePhoneToE164(r.phone).value, stamp)]
  {
    assert [r][..0] == [];
  }

  lemma EventsForTwice(r: MetabaseRow, stamp: Stamp)
    requires HasPhone(r)
    ensures var e := BuildEvent(r, NormalizePhoneToE164(r.phone).value, stamp);
      EventsFor([r, r], stamp) == [e, e]
  {
    var e := BuildEvent(r, NormalizePhoneToE164(r.phone).value, stamp);
    var one := [r];
    EventsForOne(r, stamp);
    EventsForSnoc(one, r, stamp);
    assert one + [r] == [r, r];
    assert [e] + [e] == [e, e];
  }

  /** A row seen twice in one run gives two identical events. */
  lemma DuplicateRowBatch(r: MetabaseRow, env: Env, ledger: set<string>, faults: StoreFaults,
                          send: nat -> Attempt<string>, digest: Digest, now: int)
    requires IsEligible(r, env.testNumbersE164) && KeyOf(r) !in ledger
    requires faults.existsFails == map[]
    ensures var e := BuildEvent(r, NormalizePhoneToE164(r.phone).value, Stamp(ActionSourceOf(env), digest, now));
      Dispatch([r, r], env, ledger, faults, send, digest, now).batch == [e, e]
  {
    var stamp := Stamp(ActionSourceOf(env), digest, now);
    TwoRowsPending(r, r, env.testNumbersE164, ledger, faults.existsFails);
    DispatchBatch([r, r], env, ledger, faults, send, digest, now);
    EventsForTwice(r, stamp);
  }

  /** A row seen twice in one run is sent twice, as two identical events, and its key
      is written once. */
  lemma DuplicateRowSentTwice(r: MetabaseRow, env: Env, ledger: set<string>, faults: StoreFaults,
                              send: nat -> Attempt<string>, digest: Digest, now: int, meta: string)
    requires IsEligible(r, env.testNumbersE164) && KeyOf(r) !in ledger
    requires faults.existsFails == map[] && faults.setFails == map[]
    requires WithRetries(send, DefaultAttempts, DefaultBaseDelayMs).completion == Value(meta)
    ensures var run := Dispatch([r, r], env, ledger, faults, send, digest, now);
      && |run.batch| == 2 && run.batch[0] == run.batch[1]
      && run.response == Processed(2, Some(meta))
      && run.ledger == ledger + {KeyOf(r)}
  {
    DuplicateRowBatch(r, env, ledger, faults, send, digest, now);
    TwoRowsPending(r, r, env.testNumbersE164, ledger, faults.existsFails);
    SuccessfulRunLedger([r, r], env, ledger, faults, send, digest, now, meta);
    MarksForSameSession(r, r);
    MarkKeysOfOne(Mark(r.sessionId, ExperimentOf(r)));
  }

  /** The first run of the switch scenario sends both rows and writes only the second
      row's key. */
  lemma SwitchFirstRun(r: MetabaseRow, r': MetabaseRow, env: Env, ledger: set<string>, faults: StoreFaults,
                       send: nat -> Attempt<string>, digest: Digest, now: int, meta: string)
    requires r'.sessionId == r.sessionId
    requires IsEligible(r, env.testNumbersE164) && IsEligible(r', env.testNumbersE164)
    requires KeyOf(r) !in ledger && KeyOf(r') !in ledger
    requires faults.existsFails == map[] && faults.setFails == map[]
    requires WithRetries(send, DefaultAttempts, DefaultBaseDelayMs).completion == Value(meta)
    ensures var first := Dispatch([r, r'], env, ledger, faults, send, digest, now);
      |first.batch| == 2 && first.ledger == ledger + {KeyOf(r')}
  {
    TwoRowsPending(r, r', env.testNumbersE164, ledger, faults.existsFails);
    DispatchBatch([r, r'], env, ledger, faults, send, digest, now);
    SuccessfulRunLedger([r, r'], env, ledger, faults, send, digest, now, meta);
    assert MarkKeys(MarksFor([r, r'])) == {KeyOf(r')} by {
      MarksForSameSession(r, r');
      MarkKeysOfOne(Mark(r'.sessionId, ExperimentOf(r')));
    }
  }

  /** Of two eligible rows, only the first is pending when only the second's key is
      in the ledger. */
  lemma OnlyFirstRowPending(r1: MetabaseRow, r2: MetabaseRow, testListCsv: Option<string>, ledger: set<string>,
                            existsFails: map<string, string>)
    requires IsEligible(r1, testListCsv) && IsEligible(r2, testListCsv)
    requires KeyOf(r1) !in ledger && KeyOf(r2) in ledger
    requires existsFails == map[]
    ensures FilterEligible([r1, r2], testListCsv) == [r1, r2]
    ensures ChecksPass([r1, r2], existsFails)
    ensures FreshRows([r1, r2], ledger) == [r1]
  {
    assert [r1, r2][..1] == [r1];
    assert [r1][..0] == [];
  }

  /** The second run of the switch scenario sends the first row's event again. */
  lemma SwitchSecondRun(r: MetabaseRow, r': MetabaseRow, env: Env, ledger: set<string>, faults: StoreFaults,
                        send: nat -> Attempt<string>, digest: Digest, now: int)
    requires IsEligible(r, env.testNumbersE164) && IsEligible(r', env.testNumbersE164)
    requires KeyOf(r) !in ledger && KeyOf(r') in ledger
    requires faults.existsFails == map[]
    ensures var second := Dispatch([r, r'], env, ledger, faults, send, digest, now);
      |second.batch| == 1 && second.batch[0].eventId == EventIdFor(r.sessionId, r.experimentLabel)
  {
    var stamp := Stamp(ActionSourceOf(env), digest, now);
    OnlyFirstRowPending(r, r', env.testNumbersE164, ledger, faults.existsFails);
    DispatchBatch([r, r'], env, ledger, faults, send, digest, now);
    EventsForOne(r, stamp);
    EventContents(r, NormalizePhoneToE164(r.phone).value, stamp);
  }

  /** A session seen under one experiment and then another in the same run gets both
      events, but only the later experiment's key is written; so the next run sends the
      earlier experiment's event again. */
  lemma ExperimentSwitchRefires(r: MetabaseRow, otherLabel: Option<string>, env: Env, ledger: set<string>,
                                faults: StoreFaults, send: nat -> Attempt<string>, digest: Digest,
                                now: int, meta: string)
    requires IsEligible(r, env.testNumbersE164)
    requires ExperimentOf(r.(experimentLabel := otherLabel)) != ExperimentOf(r)
    requires KeyOf(r) !in ledger && KeyOf(r.(experimentLabel := otherLabel)) !in ledger
    requires faults.existsFails == map[] && faults.setFails == map[]
    requires WithRetries(send, DefaultAttempts, DefaultBaseDelayMs).completion == Value(meta)
    ensures var r' := r.(experimentLabel := otherLabel);
      var first := Dispatch([r, r'], env, ledger, faults, send, digest, now);
      var second := Dispatch([r, r'], env, first.ledger, faults, send, digest, now);
      && |first.batch| == 2
      && first.ledger == ledger + {KeyOf(r')}
      && KeyOf(r) !in first.ledger
      && |second.batch| == 1
      && second.batch[0].eventId == EventIdFor(r.sessionId, r.experimentLabel)
  {
    var r' := r.(experimentLabel := otherLabel);
    assert IsEligible(r', env.testNumbersE164);
    SwitchFirstRun(r, r', env, ledger, faults, send, digest, now, meta);
    assert KeyOf(r) != KeyOf(r') by {
      if KeyOf(r) == KeyOf(r') {
        LedgerKeyDeterminesExperiment(ExperimentOf(r), ExperimentOf(r'), r.sessionId);
      }
    }
    SwitchSecondRun(r, r', env, ledger + {KeyOf(r')}, faults, send, digest, now);
  }

  // ---------------------------------------------------------------------------
  // The phone number in the event

  /** The raw phone reaches the event only as the digest of its normalised digits:
      changing how the number is written changes nothing else, and two spellings of
      the same number give the same event. */
  lemma PhoneOnlyReachesEventAsDigest(r: MetabaseRow, phone: Option<string>, stamp: Stamp)
    requires HasPhone(r)
    requires NormalizePhoneToE164(phone).Some?
    ensures var r' := r.(phone := phone);
      var e164 := NormalizePhoneToE164(r.phone).value;
      && |EventsFor([r], stamp)| == 1 && |EventsFor([r'], stamp)| == 1
      && EventsFor([r], stamp)[0].phoneHashes == [stamp.digest(e164[1..])]
      && EventsFor([r], stamp)[0].(phoneHashes := []) == EventsFor([r'], stamp)[0].(phoneHashes := [])
      && (NormalizePhoneToE164(phone) == NormalizePhoneToE164(r.phone) ==> EventsFor([r], stamp) == EventsFor([r'], stamp))
  {
    var r' := r.(phone := phone);
    EventsForSnoc([], r, stamp);
    EventsForSnoc([], r', stamp);
    assert [] + [r] == [r] && [] + [r'] == [r'];
    HashOfE164Digits(stamp.digest, NormalizePhoneToE164(r.phone).value);
  }
}
