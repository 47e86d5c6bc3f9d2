/** Resolving other accounts: what a fetched log does to the records already verified. */
module Resolvers {
  import opened Bytes
  import opened Ed25519
  import opened AccountLogs
  import opened Codec
  import opened AccountRecords
  import opened Accounts

  /** What a fetch brought back; `None` is a provider that could not be reached. */
  type Fetched = Option<Option<SignedLog>>

  type Known = map<Key, Record>

  function RefusalOf(outcome: Outcome): Option<AccountError> {
    match outcome
    case Unchanged(Diverged) => Some(Forked)
    case BadSignature => Some(LogFailed(SignatureInvalid))
    case Malformed(error) => Some(LogFailed(error))
    case Updated => None
    case Unchanged(_) => None
  }

  /** The records kept and the answer given. */
  function Resolved(scheme: Scheme, known: Known, addr: Key, fetched: Fetched)
    : (Known, Result<Option<Record>, AccountError>)
  {
    match fetched
    case None => (known, Err(ProviderFailed))
    case Some(None) => (known, Ok(Lookup(known, addr)))
    case Some(Some(candidate)) =>
      if addr !in known then
        match NewRecord(scheme, addr, candidate)
        case Err(e) => (known, Err(LogFailed(e)))
        case Ok(record) => (known[addr := record], Ok(Some(record)))
      else
        var u := Update(scheme, known[addr], candidate);
        (known[addr := u.record],
         match RefusalOf(u.outcome)
         case Some(e) => Err(e)
         case None => Ok(Some(u.record)))
  }

  class AccountResolver {
    const scheme: Scheme
    var known: Known

    constructor (scheme: Scheme)
      ensures this.scheme == scheme && known == map[]
    {
      this.scheme, this.known := scheme, map[];
    }

    /** Takes the held record out, updates it, and puts back the one to keep. */
    method Resolve(addr: Key, fetched: Fetched) returns (r: Result<Option<Record>, AccountError>)
      modifies this
      ensures (known, r) == Resolved(scheme, old(known), addr, fetched)
    {
      if fetched.None? {
        return Err(ProviderFailed);
      }
      if fetched.value.None? {
        return Ok(Lookup(known, addr));
      }
      var candidate := fetched.value.value;
      var held := Lookup(known, addr);
      known := known - {addr};
      var record: Record;
      var refused: Option<AccountError> := None;
      if held.None? {
        assert known == old(known);
        var created := NewRecord(scheme, addr, candidate);
        if created.Err? {
          return Err(LogFailed(created.error));
        }
        record := created.value;
      } else {
        var u := Update(scheme, held.value, candidate);
        record, refused := u.record, RefusalOf(u.outcome);
      }
      known := known[addr := record];
      assert known == old(known)[addr := record];
      r := if refused.Some? then Err(refused.value) else Ok(Lookup(known, addr));
    }
  }

  /** Every held record is filed under its own address, signed by it and readable. */
  ghost predicate AllHeld(scheme: Scheme, known: Known) {
    forall a :: a in known ==> known[a].addr == a && Held(scheme, known[a])
  }

  /** No address is dropped, and what is held under each only grows. */
  ghost predicate Grows(before: Known, after: Known) {
    forall a :: a in before ==>
      && a in after
      && before[a].signed.payload <= after[a].signed.payload
      && before[a].log <= after[a].log
  }

  /** Filing a record that extends the one held, if any, keeps the rest as it was. */
  lemma FilingKeeps(scheme: Scheme, known: Known, record: Record)
    requires AllHeld(scheme, known) && Held(scheme, record)
    requires record.addr in known ==>
               && known[record.addr].signed.payload <= record.signed.payload
               && known[record.addr].log <= record.log
    ensures var after := known[record.addr := record];
            && AllHeld(scheme, after) && Grows(known, after)
            && (forall a :: a != record.addr ==> Lookup(after, a) == Lookup(known, a))
  {
  }

  /** The records kept and the answer given, case by case. */
  ghost predicate AnswersExactly(scheme: Scheme, known: Known, addr: Key, fetched: Fetched,
                                 after: Known, r: Result<Option<Record>, AccountError>)
  {
    match fetched
    case None => after == known && r == Err(ProviderFailed)
    case Some(None) => after == known && r == Ok(Lookup(known, addr))
    case Some(Some(candidate)) =>
      && (forall e :: Refuses(scheme, addr, candidate, e) ==> after == known && r == Err(LogFailed(e)))
      && (forall log :: Authentic(scheme, addr, candidate, log) ==>
            AdoptsExactly(known, Record(addr, candidate, log), after, r))
  }

  /** An authentic log: filed if nothing is held or if it goes further, returned as held if it does
      not, and a fork if the two have parted. */
  ghost predicate AdoptsExactly(known: Known, found: Record, after: Known, r: Result<Option<Record>, AccountError>) {
    var addr := found.addr;
    if addr !in known || known[addr].log < found.log then after == known[addr := found] && r == Ok(Some(found))
    else if found.log <= known[addr].log then after == known && r == Ok(Some(known[addr]))
    else after == known && r == Err(Forked)
  }

  lemma FirstContact(scheme: Scheme, known: Known, addr: Key, candidate: SignedLog)
    requires addr !in known
    ensures var (after, r) := Resolved(scheme, known, addr, Some(Some(candidate)));
            AnswersExactly(scheme, known, addr, Some(Some(candidate)), after, r)
  {
    hide NewRecord, Held, Authentic, Refuses;
    NewRecordExact(scheme, addr, candidate);
    forall log | Authentic(scheme, addr, candidate, log) ensures
      NewRecord(scheme, addr, candidate) == Ok(Record(addr, candidate, log))
    {
      HeldIsAuthentic(scheme, Record(addr, candidate, log));
    }
  }

  lemma HeldIsAuthentic(scheme: Scheme, record: Record)
    ensures Held(scheme, record) <==> Authentic(scheme, record.addr, record.signed, record.log)
  {
  }

  lemma LaterContact(scheme: Scheme, known: Known, addr: Key, candidate: SignedLog)
    requires addr in known && known[addr].addr == addr && Held(scheme, known[addr])
    ensures var (after, r) := Resolved(scheme, known, addr, Some(Some(candidate)));
            AnswersExactly(scheme, known, addr, Some(Some(candidate)), after, r)
  {
    hide Held, Authentic, Refuses, Update;
    UpdateIsLogOrder(scheme, known[addr], candidate);
    assert known[addr := known[addr]] == known;
  }

  /** What one call answers and keeps, for every answer of the provider. */
  lemma ResolvedExact(scheme: Scheme, known: Known, addr: Key, fetched: Fetched)
    requires AllHeld(scheme, known)
    ensures var (after, r) := Resolved(scheme, known, addr, fetched);
            AnswersExactly(scheme, known, addr, fetched, after, r)
  {
    if fetched.Some? && fetched.value.Some? {
      if addr in known {
        LaterContact(scheme, known, addr, fetched.value.value);
      } else {
        FirstContact(scheme, known, addr, fetched.value.value);
      }
    }
  }

  /** One call: held records stay verified and grow, other addresses and failed calls change nothing. */
  lemma OneResolve(scheme: Scheme, known: Known, addr: Key, fetched: Fetched)
    requires AllHeld(scheme, known)
    ensures var (after, r) := Resolved(scheme, known, addr, fetched);
            && AllHeld(scheme, after) && Grows(known, after)
            && (forall a :: a != addr ==> Lookup(after, a) == Lookup(known, a))
            && (r.Err? ==> after == known)
            && (r.Ok? ==> r.value == Lookup(after, addr))
  {
    hide Resolved, Authentic, Refuses, Verify, Decode;
    ResolvedExact(scheme, known, addr, fetched);
    if fetched.Some? && fetched.value.Some? {
      var candidate := fetched.value.value;
      VerifyExact(scheme, candidate, addr);
      if Verify(scheme, candidate, addr).Ok? && (addr !in known || known[addr].log < Verify(scheme, candidate, addr).value) {
        Filed(scheme, known, Record(addr, candidate, Verify(scheme, candidate, addr).value));
      }
    }
  }

  lemma Filed(scheme: Scheme, known: Known, found: Record)
    requires AllHeld(scheme, known) && Held(scheme, found)
    requires found.addr !in known || known[found.addr].log < found.log
    ensures var after := known[found.addr := found];
            && AllHeld(scheme, after) && Grows(known, after)
            && (forall a :: a != found.addr ==> Lookup(after, a) == Lookup(known, a))
  {
    if found.addr in known {
      BytePrefixIsEntryPrefix(known[found.addr].signed.payload, found.signed.payload);
    }
    FilingKeeps(scheme, known, found);
  }

  /** A fork is reported exactly for an authentic answer incomparable with the held log. */
  lemma ForkedExactly(scheme: Scheme, known: Known, addr: Key, fetched: Fetched)
    requires AllHeld(scheme, known)
    ensures Resolved(scheme, known, addr, fetched).1 == Err(Forked) <==>
            && fetched.Some? && fetched.value.Some? && addr in known
            && exists log :: Authentic(scheme, addr, fetched.value.value, log)
                             && !(known[addr].log <= log) && !(log <= known[addr].log)
  {
    hide Resolved, Authentic, Refuses, Verify, AllHeld;
    ResolvedExact(scheme, known, addr, fetched);
    if fetched.Some? && fetched.value.Some? {
      VerifyExact(scheme, fetched.value.value, addr);
      AtMostOneLog(scheme, addr, fetched.value.value);
    }
  }

  lemma AtMostOneLog(scheme: Scheme, addr: Key, signed: SignedLog)
    ensures forall a, b :: Authentic(scheme, addr, signed, a) && Authentic(scheme, addr, signed, b) ==> a == b
  {
  }

  function RunResolves(scheme: Scheme, known: Known, calls: seq<(Key, Fetched)>): Known
    decreases |calls|
  {
    if |calls| == 0 then known
    else RunResolves(scheme, Resolved(scheme, known, calls[0].0, calls[0].1).0, calls[1..])
  }

  /** However a provider answers, nothing verified is lost, replaced by less, or left unverified. */
  lemma {:induction false} ResolvesOnlyGrow(scheme: Scheme, known: Known, calls: seq<(Key, Fetched)>)
    requires AllHeld(scheme, known)
    ensures var after := RunResolves(scheme, known, calls);
            AllHeld(scheme, after) && Grows(known, after)
    decreases |calls|
  {
    if |calls| == 0 {
    } else {
      var next := Resolved(scheme, known, calls[0].0, calls[0].1).0;
      OneResolve(scheme, known, calls[0].0, calls[0].1);
      ResolvesOnlyGrow(scheme, next, calls[1..]);
      GrowsTransitive(known, next, RunResolves(scheme, next, calls[1..]));
    }
  }

  lemma GrowsTransitive(a: Known, b: Known, c: Known)
    requires Grows(a, b) && Grows(b, c)
    ensures Grows(a, c)
  {
    forall k | k in a ensures a[k].signed.payload <= c[k].signed.payload && a[k].log <= c[k].log {
      assert a[k].signed.payload <= b[k].signed.payload && a[k].log <= b[k].log;
    }
  }
}
