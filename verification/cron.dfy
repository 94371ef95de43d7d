/** The scheduled handler of `pages/api/capi/chat-threshold-cron.ts`: it filters the
    analytics rows, drops rows whose ledger key is already present, builds one event per
    surviving row, sends the whole batch once (with retries), and only then writes the
    ledger keys. The analytics fetch and the send are attempt sequences fed through
    `WithRetries`, the ledger is a set of keys, and store failures are given per key. */
module ChatThresholdCron {
  import opened Results
  import opened JsText
  import opened Capi
  import opened Retries

  const EventName := "ChatMessagesThresholdCrossed"
  const DefaultActionSource := "website"
  /** A row qualifies only with strictly more messages than this. */
  const MessagesThreshold := 5
  const LedgerNamespace := "capi:chat-threshold:"
  const CronFailure := "cron failure"

  datatype CustomData = CustomData(messagesSent: int, experimentLabel: string, sourceUrl: Option<string>)

  /** One attribution event; `phoneHashes` is `user_data.ph`. */
  datatype MetaEvent = MetaEvent(
    eventName: string,
    eventTime: int,
    eventSourceUrl: Option<string>,
    actionSource: string,
    eventId: string,
    phoneHashes: seq<string>,
    customData: CustomData)

  /** The environment variables the handler reads. */
  datatype Env = Env(testNumbersE164: Option<string>, metaActionSource: Option<string>)

  /** Keys on which the store's EXISTS or SET throws, with the error message. */
  datatype StoreFaults = StoreFaults(existsFails: map<string, string>, setFails: map<string, string>)

  /** The JSON answer: `{status: "ok", processed, meta?}` with 200, or `{error}` with 500. */
  datatype Response = Processed(processed: nat, meta: Option<string>) | Failed(error: string)

  /** What one run did: the batch it built (and sent, if it got that far), how many times
      it called the send endpoint, the ledger afterwards, and the response. */
  datatype Run = Run(batch: seq<MetaEvent>, sendCalls: nat, ledger: set<string>, response: Response)

  /** One entry of the `sessionToExperiment` map. */
  datatype Mark = Mark(sessionId: string, experiment: string)

  datatype Batch = Batch(events: seq<MetaEvent>, marks: seq<Mark>)

  /** What every event of one run shares: the action source, the digest and the clock. */
  datatype Stamp = Stamp(actionSource: string, digest: Digest, now: int)

  /** The status code sent with a response: 200 for `{status: "ok"}`, 500 for `{error}`. */
  function HttpStatus(r: Response): (status: int)
    ensures status == 200 || status == 500
    ensures status == 200 <==> r.Processed?
  {
    if r.Processed? then 200 else 500
  }

  /** `e?.message || "cron failure"`. */
  function ErrorMessage(e: Option<string>): (m: string)
    ensures m != ""
    ensures e.Some? && e.value != "" ==> m == e.value
  {
    if e.Some? && e.value != "" then e.value else CronFailure
  }

  /** `process.env.META_ACTION_SOURCE || "website"`. */
  function ActionSourceOf(env: Env): (source: string)
    ensures source != ""
    ensures env.metaActionSource.Some? && env.metaActionSource.value != "" ==> source == env.metaActionSource.value
  {
    if env.metaActionSource.None? || env.metaActionSource.value == "" then DefaultActionSource
    else env.metaActionSource.value
  }

  /** `r.source_url || undefined` and `r.source_url || null`: an empty URL is absent. */
  function SourceUrlOf(r: MetabaseRow): (u: Option<string>)
    ensures u.Some? ==> u == r.sourceUrl && u.value != ""
    ensures r.sourceUrl.Some? && r.sourceUrl.value != "" ==> u == r.sourceUrl
  {
    if r.sourceUrl.None? || r.sourceUrl.value == "" then None else r.sourceUrl
  }

  /** `(r.experiment_label || "default").trim() || "default"`: the same label rule as
      `eventIdFor`. */
  function ExperimentOf(r: MetabaseRow): (experiment: string)
    ensures experiment == EffectiveLabel(r.experimentLabel)
  {
    var raw := if r.experimentLabel.None? || r.experimentLabel.value == "" then DefaultLabel
               else r.experimentLabel.value;
    DefaultLabelIsTrimmed();
    var t := Trim(raw);
    if t == "" then DefaultLabel else t
  }

  /** The key both `alreadyFired` and `markFired` use. */
  function LedgerKey(experiment: string, sessionId: string): string {
    LedgerNamespace + experiment + ":" + sessionId
  }

  function KeyOf(r: MetabaseRow): string {
    LedgerKey(ExperimentOf(r), r.sessionId)
  }

  function MarkKey(m: Mark): string {
    LedgerKey(m.experiment, m.sessionId)
  }

  /** The ledger key of a row is its event id under the `capi:` prefix. */
  lemma KeyIsPrefixedEventId(r: MetabaseRow)
    ensures KeyOf(r) == "capi:" + EventIdFor(r.sessionId, r.experimentLabel)
    ensures KeyOf(r) == "capi:" + EventIdFor(r.sessionId, Some(ExperimentOf(r)))
  {
    var x := ExperimentOf(r);
    assert EffectiveLabel(Some(x)) == x by {
      TrimIdempotent(x);
    }
    LedgerKeyUnderCapi(x, r.sessionId);
  }

  lemma LedgerKeyUnderCapi(experiment: string, sessionId: string)
    ensures LedgerKey(experiment, sessionId) == "capi:" + (EventIdNamespace + experiment + ":" + sessionId)
  {
    assert LedgerNamespace == "capi:" + EventIdNamespace;
  }

  function HasPhone(r: MetabaseRow): bool {
    NormalizePhoneToE164(r.phone).Some?
  }

  // ---------------------------------------------------------------------------
  // Filter

  /** The callback of `rows.filter`. */
  function IsEligible(r: MetabaseRow, testListCsv: Option<string>): (eligible: bool)
    ensures eligible ==> HasPhone(r) && r.messagesSent >= MessagesThreshold + 1
    ensures eligible ==> !IsTestNumber(NormalizePhoneToE164(r.phone).value, testListCsv)
  {
    match NormalizePhoneToE164(r.phone)
    case None => false
    case Some(e164) => !IsTestNumber(e164, testListCsv) && r.messagesSent > MessagesThreshold
  }

  function FilterEligible(rows: seq<MetabaseRow>, testListCsv: Option<string>): (eligible: seq<MetabaseRow>)
    ensures |eligible| <= |rows|
  {
    if |rows| == 0 then []
    else
      var prefix := FilterEligible(rows[..|rows| - 1], testListCsv);
      if IsEligible(rows[|rows| - 1], testListCsv) then prefix + [rows[|rows| - 1]] else prefix
  }

  /** The filter keeps exactly the eligible rows. */
  lemma {:induction false} FilterEligibleMembers(rows: seq<MetabaseRow>, testListCsv: Option<string>)
    ensures forall r :: r in FilterEligible(rows, testListCsv) <==> r in rows && IsEligible(r, testListCsv)
  {
    if |rows| > 0 {
      var prefix := rows[..|rows| - 1];
      FilterEligibleMembers(prefix, testListCsv);
      assert rows == prefix + [rows[|rows| - 1]];
    }
  }

  // ---------------------------------------------------------------------------
  // Reference view of the build loop

  /** The rows the build loop turns into events: those with a phone whose key is not
      in the ledger, in order, duplicates kept. */
  function FreshRows(rows: seq<MetabaseRow>, ledger: set<string>): (survivors: seq<MetabaseRow>)
    ensures |survivors| <= |rows|
  {
    if |rows| == 0 then []
    else
      var prefix := FreshRows(rows[..|rows| - 1], ledger);
      var r := rows[|rows| - 1];
      if HasPhone(r) && KeyOf(r) !in ledger then prefix + [r] else prefix
  }

  /** The survivors are exactly the rows with a phone and an unfired key. */
  lemma {:induction false} FreshRowsMembers(rows: seq<MetabaseRow>, ledger: set<string>)
    ensures var survivors := FreshRows(rows, ledger);
      && (forall i :: 0 <= i < |survivors| ==> HasPhone(survivors[i]) && KeyOf(survivors[i]) !in ledger)
      && (forall r :: r in survivors <==> r in rows && HasPhone(r) && KeyOf(r) !in ledger)
  {
    if |rows| > 0 {
      var prefix := rows[..|rows| - 1];
      FreshRowsMembers(prefix, ledger);
      assert rows == prefix + [rows[|rows| - 1]];
    }
  }

  /** The event built for a row whose phone normalised to `e164`. */
  function BuildEvent(r: MetabaseRow, e164: string, stamp: Stamp): (e: MetaEvent)
    ensures e.eventTime * 1000 <= stamp.now < (e.eventTime + 1) * 1000
    ensures e.eventSourceUrl == e.customData.sourceUrl
  {
    var experiment := ExperimentOf(r);
    MetaEvent(
      EventName,
      stamp.now / 1000,
      SourceUrlOf(r),
      stamp.actionSource,
      EventIdFor(r.sessionId, Some(experiment)),
      [Sha256LowerHex(stamp.digest, StripLeadingPlus(e164))],
      CustomData(r.messagesSent, experiment, SourceUrlOf(r)))
  }

  /** What an event holds: its id is `eventIdFor` of the row's session and label (and,
      under `capi:`, the row's ledger key), its only phone field is the digest of the
      number's digits, its time is the clock in whole seconds, rounded down. */
  lemma EventContents(r: MetabaseRow, e164: string, stamp: Stamp)
    ensures var e := BuildEvent(r, e164, stamp);
      && e.eventName == EventName
      && e.eventTime * 1000 <= stamp.now < (e.eventTime + 1) * 1000
      && e.eventId == EventIdFor(r.sessionId, r.experimentLabel)
      && "capi:" + e.eventId == KeyOf(r)
      && (IsE164(e164) ==> e.phoneHashes == [stamp.digest(e164[1..])])
      && e.eventSourceUrl == e.customData.sourceUrl == SourceUrlOf(r)
      && e.actionSource == stamp.actionSource
      && e.customData == CustomData(r.messagesSent, EffectiveLabel(r.experimentLabel), SourceUrlOf(r))
  {
    KeyIsPrefixedEventId(r);
    HashOfE164Digits(stamp.digest, e164);
  }

  /** The events built for `rows`: one per row whose phone normalises, in order. */
  function EventsFor(rows: seq<MetabaseRow>, stamp: Stamp): (events: seq<MetaEvent>)
    ensures |events| <= |rows|
  {
    if |rows| == 0 then []
    else
      var before := EventsFor(rows[..|rows| - 1], stamp);
      var r := rows[|rows| - 1];
      match NormalizePhoneToE164(r.phone)
      case None => before
      case Some(e164) => before + [BuildEvent(r, e164, stamp)]
  }

  lemma EventsForSnoc(rows: seq<MetabaseRow>, r: MetabaseRow, stamp: Stamp)
    ensures EventsFor(rows + [r], stamp)
         == EventsFor(rows, stamp)
            + if HasPhone(r) then [BuildEvent(r, NormalizePhoneToE164(r.phone).value, stamp)] else []
  {
    assert (rows + [r])[..|rows|] == rows;
  }

  /** Rows that all have a phone give one event each. */
  lemma {:induction false} EventsForLength(rows: seq<MetabaseRow>, stamp: Stamp)
    requires forall i :: 0 <= i < |rows| ==> HasPhone(rows[i])
    ensures |EventsFor(rows, stamp)| == |rows|
  {
    if |rows| > 0 {
      var prefix := rows[..|rows| - 1];
      assert forall i :: 0 <= i < |prefix| ==> HasPhone(prefix[i]) by {
        forall i | 0 <= i < |prefix| ensures HasPhone(prefix[i]) {
          assert prefix[i] == rows[i];
        }
      }
      EventsForLength(prefix, stamp);
    }
  }

  // ---------------------------------------------------------------------------
  // The session map

  /** The experiment of the last row of `rows` that belongs to `sessionId`, if any. */
  function LastExperiment(rows: seq<MetabaseRow>, sessionId: string): Option<string> {
    if |rows| == 0 then None
    else if rows[|rows| - 1].sessionId == sessionId then Some(ExperimentOf(rows[|rows| - 1]))
    else LastExperiment(rows[..|rows| - 1], sessionId)
  }

  /** `LastExperiment` finds a row of the session exactly when there is one. */
  lemma {:induction false} LastExperimentExists(rows: seq<MetabaseRow>, sessionId: string)
    ensures LastExperiment(rows, sessionId).Some? <==>
      exists i :: 0 <= i < |rows| && rows[i].sessionId == sessionId
  {
    if |rows| > 0 {
      var prefix := rows[..|rows| - 1];
      LastExperimentExists(prefix, sessionId);
      if exists i :: 0 <= i < |rows| && rows[i].sessionId == sessionId {
        var i :| 0 <= i < |rows| && rows[i].sessionId == sessionId;
        if i < |prefix| {
          assert prefix[i] == rows[i];
        }
      }
      if exists i :: 0 <= i < |prefix| && prefix[i].sessionId == sessionId {
        var i :| 0 <= i < |prefix| && prefix[i].sessionId == sessionId;
        assert rows[i] == prefix[i];
      }
    }
  }

  /** What `LastExperiment` finds is the experiment of a row of the session after
      which no row of that session follows. */
  lemma {:induction false} LastExperimentIsLast(rows: seq<MetabaseRow>, sessionId: string) returns (i: nat)
    requires LastExperiment(rows, sessionId).Some?
    ensures i < |rows| && rows[i].sessionId == sessionId
    ensures LastExperiment(rows, sessionId).value == ExperimentOf(rows[i])
    ensures forall j :: i < j < |rows| ==> rows[j].sessionId != sessionId
  {
    var prefix := rows[..|rows| - 1];
    if rows[|rows| - 1].sessionId == sessionId {
      i := |rows| - 1;
    } else {
      i := LastExperimentIsLast(prefix, sessionId);
      assert rows[i] == prefix[i];
      assert forall j :: i < j < |prefix| ==> rows[j] == prefix[j];
    }
  }

  /** `sessionToExperiment.get(sessionId)`. */
  function Lookup(marks: seq<Mark>, sessionId: string): (found: Option<string>)
    ensures found.Some? ==> Mark(sessionId, found.value) in marks
  {
    if |marks| == 0 then None
    else if marks[0].sessionId == sessionId then Some(marks[0].experiment)
    else Lookup(marks[1..], sessionId)
  }

  /** No session has two entries, as in a `Map`. */
  predicate UniqueSessions(marks: seq<Mark>) {
    |marks| == 0 || (Lookup(marks[1..], marks[0].sessionId).None? && UniqueSessions(marks[1..]))
  }

  /** `sessionToExperiment.set(sessionId, experiment)`. */
  function Remember(marks: seq<Mark>, sessionId: string, experiment: string): (updated: seq<Mark>)
    ensures |marks| <= |updated| <= |marks| + 1
    ensures Mark(sessionId, experiment) in updated
  {
    if |marks| == 0 then [Mark(sessionId, experiment)]
    else if marks[0].sessionId == sessionId then [Mark(sessionId, experiment)] + marks[1..]
    else [marks[0]] + Remember(marks[1..], sessionId, experiment)
  }

  /** `set` then `get` behaves as a map update. */
  lemma {:induction false} RememberLookup(marks: seq<Mark>, sessionId: string, experiment: string, other: string)
    ensures Lookup(Remember(marks, sessionId, experiment), other)
         == if other == sessionId then Some(experiment) else Lookup(marks, other)
    decreases |marks|
  {
    if |marks| > 0 && marks[0].sessionId != sessionId {
      RememberLookup(marks[1..], sessionId, experiment, other);
      assert Remember(marks, sessionId, experiment)[1..] == Remember(marks[1..], sessionId, experiment);
    }
  }

  lemma {:induction false} RememberKeepsUnique(marks: seq<Mark>, sessionId: string, experiment: string)
    requires UniqueSessions(marks)
    ensures UniqueSessions(Remember(marks, sessionId, experiment))
    decreases |marks|
  {
    if |marks| > 0 && marks[0].sessionId != sessionId {
      var rest := Remember(marks[1..], sessionId, experiment);
      RememberKeepsUnique(marks[1..], sessionId, experiment);
      RememberLookup(marks[1..], sessionId, experiment, marks[0].sessionId);
      assert Remember(marks, sessionId, experiment)[1..] == rest;
    } else if |marks| > 0 {
      assert Remember(marks, sessionId, experiment)[1..] == marks[1..];
    }
  }

  /** A `Map` keeps insertion order: a new session goes last, and an existing one keeps
      its place and only takes the new experiment. */
  lemma {:induction false} RememberOrder(marks: seq<Mark>, sessionId: string, experiment: string)
    requires UniqueSessions(marks)
    ensures Lookup(marks, sessionId).None? ==>
      Remember(marks, sessionId, experiment) == marks + [Mark(sessionId, experiment)]
    ensures Lookup(marks, sessionId).Some? ==>
      && |Remember(marks, sessionId, experiment)| == |marks|
      && forall k :: 0 <= k < |marks| ==>
           Remember(marks, sessionId, experiment)[k]
             == if marks[k].sessionId == sessionId then Mark(sessionId, experiment) else marks[k]
    decreases |marks|
  {
    if |marks| > 0 {
      var marks' := Remember(marks, sessionId, experiment);
      if marks[0].sessionId == sessionId {
        forall k | 0 < k < |marks| ensures marks[k].sessionId != sessionId {
          LookupFinds(marks[1..], k - 1);
        }
      } else {
        RememberOrder(marks[1..], sessionId, experiment);
        assert marks'[1..] == Remember(marks[1..], sessionId, experiment);
        if Lookup(marks, sessionId).None? {
          assert marks == [marks[0]] + marks[1..];
        } else {
          forall k | 0 <= k < |marks| ensures
            marks'[k] == if marks[k].sessionId == sessionId then Mark(sessionId, experiment) else marks[k]
          {
            if k > 0 {
              assert marks'[k] == marks'[1..][k - 1];
              assert marks[k] == marks[1..][k - 1];
            }
          }
        }
      }
    }
  }

  /** In a map without duplicates, every entry is what `get` returns for its session. */
  lemma {:induction false} LookupFinds(marks: seq<Mark>, k: nat)
    requires UniqueSessions(marks)
    requires k < |marks|
    ensures Lookup(marks, marks[k].sessionId) == Some(marks[k].experiment)
    decreases |marks|
  {
    if k > 0 {
      LookupFinds(marks[1..], k - 1);
      assert marks[1..][k - 1] == marks[k];
    }
  }

  /** `get` only returns what an entry holds. */
  lemma {:induction false} LookupHasEntry(marks: seq<Mark>, sessionId: string)
    requires Lookup(marks, sessionId).Some?
    ensures exists k :: 0 <= k < |marks| && marks[k] == Mark(sessionId, Lookup(marks, sessionId).value)
    decreases |marks|
  {
    if marks[0].sessionId != sessionId {
      LookupHasEntry(marks[1..], sessionId);
      var k :| 0 <= k < |marks[1..]| && marks[1..][k] == Mark(sessionId, Lookup(marks, sessionId).value);
      assert marks[k + 1] == marks[1..][k];
    }
  }

  /** The `sessionToExperiment` map the build loop leaves after visiting `rows`. */
  function MarksFor(rows: seq<MetabaseRow>): (marks: seq<Mark>)
    ensures |marks| <= |rows|
    ensures |rows| > 0 ==> |marks| > 0
  {
    if |rows| == 0 then []
    else Remember(MarksFor(rows[..|rows| - 1]), rows[|rows| - 1].sessionId, ExperimentOf(rows[|rows| - 1]))
  }

  /** The map holds one entry per session of `rows`, with the experiment of that
      session's last row: a later label overwrites an earlier one. */
  lemma {:induction false} MarksForLookup(rows: seq<MetabaseRow>, sessionId: string)
    ensures Lookup(MarksFor(rows), sessionId) == LastExperiment(rows, sessionId)
  {
    if |rows| > 0 {
      var r := rows[|rows| - 1];
      MarksForLookup(rows[..|rows| - 1], sessionId);
      RememberLookup(MarksFor(rows[..|rows| - 1]), r.sessionId, ExperimentOf(r), sessionId);
    }
  }

  lemma {:induction false} MarksForUnique(rows: seq<MetabaseRow>)
    ensures UniqueSessions(MarksFor(rows))
  {
    if |rows| > 0 {
      var r := rows[|rows| - 1];
      MarksForUnique(rows[..|rows| - 1]);
      RememberKeepsUnique(MarksFor(rows[..|rows| - 1]), r.sessionId, ExperimentOf(r));
    }
  }

  lemma MarksForSnoc(rows: seq<MetabaseRow>, r: MetabaseRow)
    ensures MarksFor(rows + [r]) == Remember(MarksFor(rows), r.sessionId, ExperimentOf(r))
  {
    assert (rows + [r])[..|rows|] == rows;
  }

  /** The keys written for `marks`. */
  function MarkKeys(marks: seq<Mark>): set<string> {
    if |marks| == 0 then {} else {MarkKey(marks[0])} + MarkKeys(marks[1..])
  }

  lemma {:induction false} MarkKeysMembers(marks: seq<Mark>, key: string)
    ensures key in MarkKeys(marks) <==> exists k :: 0 <= k < |marks| && MarkKey(marks[k]) == key
    decreases |marks|
  {
    if |marks| > 0 {
      MarkKeysMembers(marks[1..], key);
      if key in MarkKeys(marks[1..]) {
        var k :| 0 <= k < |marks[1..]| && MarkKey(marks[1..][k]) == key;
        assert marks[k + 1] == marks[1..][k];
      }
      if exists k :: 0 <= k < |marks| && MarkKey(marks[k]) == key {
        var k :| 0 <= k < |marks| && MarkKey(marks[k]) == key;
        if k > 0 {
          assert marks[1..][k - 1] == marks[k];
        }
      }
    }
  }

  /** The keys a full commit writes for `rows`: the key of each session under the
      experiment of its last row, and nothing else. */
  lemma MarksForKeys(rows: seq<MetabaseRow>, key: string)
    ensures key in MarkKeys(MarksFor(rows)) <==>
      exists sessionId :: LastExperiment(rows, sessionId).Some?
        && key == LedgerKey(LastExperiment(rows, sessionId).value, sessionId)
  {
    var marks := MarksFor(rows);
    MarkKeysMembers(marks, key);
    MarksForUnique(rows);
    if key in MarkKeys(marks) {
      var k :| 0 <= k < |marks| && MarkKey(marks[k]) == key;
      LookupFinds(marks, k);
      MarksForLookup(rows, marks[k].sessionId);
    }
    if exists sessionId :: LastExperiment(rows, sessionId).Some?
        && key == LedgerKey(LastExperiment(rows, sessionId).value, sessionId) {
      var sessionId :| LastExperiment(rows, sessionId).Some?
        && key == LedgerKey(LastExperiment(rows, sessionId).value, sessionId);
      MarksForLookup(rows, sessionId);
      LookupHasEntry(marks, sessionId);
    }
  }

  // ---------------------------------------------------------------------------
  // The build loop and the commit loop

  /** The `for (const r of eligible)` loop: `Err` when an `alreadyFired` check throws. */
  function BuildBatch(rows: seq<MetabaseRow>, ledger: set<string>, existsFails: map<string, string>,
                      stamp: Stamp): (result: Result<Batch>)
    ensures result.Ok? ==> |result.value.marks| <= |result.value.events| <= |rows|
    ensures result.Err? ==> result.message != ""
  {
    if |rows| == 0 then Ok(Batch([], []))
    else
      var prefix := BuildBatch(rows[..|rows| - 1], ledger, existsFails, stamp);
      if prefix.Err? then prefix
      else
        var r := rows[|rows| - 1];
        match NormalizePhoneToE164(r.phone)
        case None => prefix
        case Some(e164) =>
          var experiment := ExperimentOf(r);
          var key := LedgerKey(experiment, r.sessionId);
          if key in existsFails then Err(ErrorMessage(Some(existsFails[key])))
          else if key in ledger then prefix
          else
            var events := prefix.value.events + [BuildEvent(r, e164, stamp)];
            Ok(Batch(events, Remember(prefix.value.marks, r.sessionId, experiment)))
  }

  /** No row that reaches the `alreadyFired` check has a key whose EXISTS throws. */
  predicate ChecksPass(rows: seq<MetabaseRow>, existsFails: map<string, string>) {
    |rows| == 0
    || (ChecksPass(rows[..|rows| - 1], existsFails)
        && (HasPhone(rows[|rows| - 1]) ==> KeyOf(rows[|rows| - 1]) !in existsFails))
  }

  lemma {:induction false} ChecksPassAll(rows: seq<MetabaseRow>, existsFails: map<string, string>)
    ensures ChecksPass(rows, existsFails) <==>
      forall i :: 0 <= i < |rows| && HasPhone(rows[i]) ==> KeyOf(rows[i]) !in existsFails
  {
    if |rows| > 0 {
      var prefix := rows[..|rows| - 1];
      ChecksPassAll(prefix, existsFails);
      assert forall i :: 0 <= i < |prefix| ==> rows[i] == prefix[i];
    }
  }

  /** The build loop fails exactly when some checked row's EXISTS throws. */
  lemma {:induction false} BuildBatchFails(rows: seq<MetabaseRow>, ledger: set<string>,
                                           existsFails: map<string, string>, stamp: Stamp)
    ensures BuildBatch(rows, ledger, existsFails, stamp).Ok? <==> ChecksPass(rows, existsFails)
  {
    if |rows| > 0 {
      BuildBatchFails(rows[..|rows| - 1], ledger, existsFails, stamp);
    }
  }

  /** Otherwise it yields one event per fresh row, in order, and the session map of
      those rows. The ledger is only read, so every check sees the ledger the run
      started with. */
  lemma {:induction false} BuildBatchMatchesFreshRows(rows: seq<MetabaseRow>, ledger: set<string>,
                                                      existsFails: map<string, string>, stamp: Stamp)
    ensures var result := BuildBatch(rows, ledger, existsFails, stamp);
      result.Ok? ==> result.value == Batch(EventsFor(FreshRows(rows, ledger), stamp), MarksFor(FreshRows(rows, ledger)))
  {
    if |rows| > 0 {
      var prefixRows := rows[..|rows| - 1];
      var r := rows[|rows| - 1];
      BuildBatchMatchesFreshRows(prefixRows, ledger, existsFails, stamp);
      var prefix := BuildBatch(prefixRows, ledger, existsFails, stamp);
      var survivors := FreshRows(prefixRows, ledger);
      if prefix.Ok? && HasPhone(r) && KeyOf(r) !in existsFails {
        if KeyOf(r) in ledger {
          assert FreshRows(rows, ledger) == survivors;
        } else {
          assert FreshRows(rows, ledger) == survivors + [r];
          EventsForSnoc(survivors, r, stamp);
          MarksForSnoc(survivors, r);
        }
      } else if prefix.Ok? && !HasPhone(r) {
        assert FreshRows(rows, ledger) == survivors;
      }
    }
  }

  datatype Commit = Commit(ledger: set<string>, written: nat, error: Option<string>)

  /** The `markFired` loop over the map's entries in insertion order: it stops at the
      first SET that throws, keeping the keys written before it. */
  function CommitMarks(marks: seq<Mark>, ledger: set<string>, setFails: map<string, string>): (c: Commit)
    ensures c.written <= |marks|
    ensures c.ledger == ledger + MarkKeys(marks[..c.written])
    ensures forall k :: 0 <= k < c.written ==> MarkKey(marks[k]) !in setFails
    ensures c.error.None? <==> c.written == |marks|
    ensures c.error.Some? ==>
      MarkKey(marks[c.written]) in setFails
      && c.error.value == ErrorMessage(Some(setFails[MarkKey(marks[c.written])]))
    decreases |marks|
  {
    if |marks| == 0 then Commit(ledger, 0, None)
    else
      var key := MarkKey(marks[0]);
      if key in setFails then
        assert marks[..0] == [];
        Commit(ledger, 0, Some(ErrorMessage(Some(setFails[key]))))
      else
        var rest := CommitMarks(marks[1..], ledger + {key}, setFails);
        assert marks[..rest.written + 1][1..] == marks[1..][..rest.written];
        assert MarkKeys(marks[..rest.written + 1]) == {key} + MarkKeys(marks[1..][..rest.written]);
        Commit(rest.ledger, rest.written + 1, rest.error)
  }

  // ---------------------------------------------------------------------------
  // The handler

  /** Everything after `fetchMetabaseRows` returned `rows`. */
  function Dispatch(rows: seq<MetabaseRow>, env: Env, ledger: set<string>, faults: StoreFaults,
                    send: nat -> Attempt<string>, digest: Digest, now: int): (run: Run)
    ensures ledger <= run.ledger
    ensures run.ledger != ledger ==> WithRetries(send, DefaultAttempts, DefaultBaseDelayMs).completion.Value?
    ensures run.sendCalls <= DefaultAttempts
    ensures run.sendCalls == 0 <==> run.batch == []
    ensures run.response.Processed? ==> run.response.processed == |run.batch|
  {
    var eligible := FilterEligible(rows, env.testNumbersE164);
    var stamp := Stamp(ActionSourceOf(env), digest, now);
    match BuildBatch(eligible, ledger, faults.existsFails, stamp)
    case Err(message) => Run([], 0, ledger, Failed(message))
    case Ok(batch) =>
      if |batch.events| == 0 then Run([], 0, ledger, Processed(0, None))
      else
        var delivery := WithRetries(send, DefaultAttempts, DefaultBaseDelayMs);
        match delivery.completion
        case Raised(e) => Run(batch.events, delivery.calls, ledger, Failed(ErrorMessage(e)))
        case Value(meta) =>
          var c := CommitMarks(batch.marks, ledger, faults.setFails);
          if c.error.Some? then Run(batch.events, delivery.calls, c.ledger, Failed(c.error.value))
          else Run(batch.events, delivery.calls, c.ledger, Processed(|batch.events|, Some(meta)))
  }

  /** `handler`: fetch the rows (with retries), then dispatch them. */
  function Handler(env: Env, fetch: nat -> Attempt<seq<MetabaseRow>>, ledger: set<string>,
                   faults: StoreFaults, send: nat -> Attempt<string>, digest: Digest, now: int): (run: Run)
    ensures ledger <= run.ledger
    ensures run.ledger != ledger ==> WithRetries(send, DefaultAttempts, DefaultBaseDelayMs).completion.Value?
    ensures WithRetries(fetch, DefaultAttempts, DefaultBaseDelayMs).completion.Raised? ==>
      run == Run([], 0, ledger, Failed(ErrorMessage(WithRetries(fetch, DefaultAttempts, DefaultBaseDelayMs).completion.error)))
    ensures HttpStatus(run.response) == 200 ==> run.response.processed == |run.batch|
  {
    var fetched := WithRetries(fetch, DefaultAttempts, DefaultBaseDelayMs);
    match fetched.completion
    case Raised(e) => Run([], 0, ledger, Failed(ErrorMessage(e)))
    case Value(rows) => Dispatch(rows, env, ledger, faults, send, digest, now)
  }
}
