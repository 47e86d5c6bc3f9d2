/** What a reader holds of one account, and which offered logs may take its place. */
module AccountRecords {
  import opened Bytes
  import opened Contexts
  import opened Ed25519
  import opened AccountLogs
  import opened Codec

  datatype Outcome =
    | Updated
    | Unchanged(freshness: Freshness)
    | BadSignature
    | Malformed(error: LogError)

  datatype Record = Record(addr: Key, signed: SignedLog, log: Log)

  datatype RecordUpdate = RecordUpdate(outcome: Outcome, record: Record)

  function OutcomeOfError(error: LogError): Outcome {
    if error == SignatureInvalid then BadSignature else Malformed(error)
  }

  function NewRecord(scheme: Scheme, addr: Key, signed: SignedLog): Result<Record, LogError> {
    var log :- Verify(scheme, signed, addr);
    Ok(Record(addr, signed, log))
  }

  function Update(scheme: Scheme, held: Record, candidate: SignedLog): RecordUpdate {
    match Verify(scheme, candidate, held.addr)
    case Err(e) => RecordUpdate(OutcomeOfError(e), held)
    case Ok(log) =>
      match CompareLogFreshness(held.signed.payload, candidate.payload)
      case Newer => RecordUpdate(Updated, Record(held.addr, candidate, log))
      case other => RecordUpdate(Unchanged(other), held)
  }

  /** What construction and every update keep: the record is signed by its account, readable and valid. */
  ghost predicate Held(scheme: Scheme, record: Record) {
    Authentic(scheme, record.addr, record.signed, record.log)
  }

  /** A record starts from an authentic log or not at all. */
  lemma NewRecordExact(scheme: Scheme, addr: Key, signed: SignedLog)
    ensures forall r :: NewRecord(scheme, addr, signed) == Ok(r) <==>
              r.addr == addr && r.signed == signed && Held(scheme, r)
    ensures forall e :: NewRecord(scheme, addr, signed) == Err(e) <==> Refuses(scheme, addr, signed, e)
  {
    hide Verify, Authentic, Refuses;
    VerifyExact(scheme, signed, addr);
  }

  /** The outcome says how the two logs are ordered; the record changes only for a strictly longer log. */
  lemma UpdateIsLogOrder(scheme: Scheme, held: Record, candidate: SignedLog)
    requires Held(scheme, held)
    ensures var u := Update(scheme, held, candidate);
            && Held(scheme, u.record) && u.record.addr == held.addr
            && (forall e :: Refuses(scheme, held.addr, candidate, e) ==>
                  u == RecordUpdate(if e == SignatureInvalid then BadSignature else Malformed(e), held))
            && (forall log :: Authentic(scheme, held.addr, candidate, log) ==>
                  && (u.outcome == Updated <==> held.log < log)
                  && (u.outcome == Unchanged(Identical) <==> held.log == log)
                  && (u.outcome == Unchanged(Behind) <==> log < held.log)
                  && (u.outcome == Unchanged(Diverged) <==> !(held.log <= log) && !(log <= held.log))
                  && u.record == if held.log < log then Record(held.addr, candidate, log) else held)
  {
    hide Verify, Refuses, Decode, ValidLog;
    VerifyExact(scheme, candidate, held.addr);
    if Verify(scheme, candidate, held.addr).Ok? {
      var log := Verify(scheme, candidate, held.addr).value;
      assert Authentic(scheme, held.addr, candidate, log);
      FreshnessIsLogOrder(held.signed.payload, candidate.payload);
    }
  }

  lemma UpdateKeepsBytes(scheme: Scheme, held: Record, candidate: SignedLog)
    ensures held.signed.payload <= Update(scheme, held, candidate).record.signed.payload
  {
  }

  // ----- Runs of updates -----

  function RunUpdates(scheme: Scheme, held: Record, candidates: seq<SignedLog>): Record
    decreases |candidates|
  {
    if |candidates| == 0 then held
    else RunUpdates(scheme, Update(scheme, held, candidates[0]).record, candidates[1..])
  }

  /** Whatever is offered, a record stays signed and readable, its bytes and entries only grow, and it
      is the one held before or one that was offered. */
  lemma {:induction false} UpdatesOnlyExtend(scheme: Scheme, held: Record, candidates: seq<SignedLog>)
    requires Held(scheme, held)
    ensures var later := RunUpdates(scheme, held, candidates);
            && Held(scheme, later) && later.addr == held.addr
            && held.signed.payload <= later.signed.payload && held.log <= later.log
            && (later.signed == held.signed || later.signed in candidates)
    decreases |candidates|
  {
    hide Held, Authentic, Refuses;
    if |candidates| == 0 {
    } else {
      var next := Update(scheme, held, candidates[0]).record;
      OneUpdate(scheme, held, candidates[0]);
      UpdatesOnlyExtend(scheme, next, candidates[1..]);
      assert forall c :: c in candidates <==> c == candidates[0] || c in candidates[1..];
    }
  }

  lemma OneUpdate(scheme: Scheme, held: Record, candidate: SignedLog)
    requires Held(scheme, held)
    ensures var next := Update(scheme, held, candidate).record;
            && Held(scheme, next) && next.addr == held.addr
            && held.signed.payload <= next.signed.payload && held.log <= next.log
            && next.signed in {held.signed, candidate}
  {
    UpdateIsLogOrder(scheme, held, candidate);
    UpdateKeepsBytes(scheme, held, candidate);
    VerifyExact(scheme, candidate, held.addr);
  }

  /** Along a run no entry changes its index, and a tombstoned entry is never live again. */
  lemma EntriesAreFixed(scheme: Scheme, held: Record, candidates: seq<SignedLog>, i: nat)
    requires Held(scheme, held) && i < |held.log|
    ensures var later := RunUpdates(scheme, held, candidates).log;
            && i < |later| && later[i] == held.log[i]
            && (Removed(held.log, i) ==> Removed(later, i))
            && (Live(later, i) ==> Live(held.log, i))
  {
    UpdatesOnlyExtend(scheme, held, candidates);
    ExtensionKeepsTombstones(held.log, RunUpdates(scheme, held, candidates).log, i);
  }

  lemma ExtensionKeepsTombstones(a: Log, b: Log, i: nat)
    requires a <= b && i < |a|
    ensures Removed(a, i) ==> Removed(b, i)
    ensures Live(b, i) ==> Live(a, i)
  {
    if Removed(a, i) {
      var j :| 0 <= j < |a| && a[j].Remove? && a[j].index == i;
      assert b[j] == a[j];
    }
  }

  /** A key once endorsed under a context is afterwards valid or revoked there, never unknown. */
  lemma EndorsedIsNeverForgotten(
    scheme: Scheme, held: Record, candidates: seq<SignedLog>, context: Context, key: Key)
    requires Held(scheme, held)
    ensures var later := RunUpdates(scheme, held, candidates).log;
            && ValidRemoves(held.log) && ValidRemoves(later)
            && (Classify(held.log, context, key) != Invalid ==> Classify(later, context, key) != Invalid)
  {
    var later := RunUpdates(scheme, held, candidates);
    UpdatesOnlyExtend(scheme, held, candidates);
    ClassifyExact(held.log, context, key);
    ClassifyExact(later.log, context, key);
    if EverEndorsed(held.log, context, key) {
      var i :| Endorses(held.log, context, key, i);
      assert Endorses(later.log, context, key, i);
    }
  }
}
