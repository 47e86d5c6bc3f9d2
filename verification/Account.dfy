/** Publishing: read the stored log, append, sign, store. All or nothing. */
module Accounts {
  import opened Bytes
  import opened Ed25519
  import opened AccountLogs
  import opened Codec
  import opened AccountRecords
  import opened Drafts

  datatype AccountError =
    | LogFailed(error: LogError)
    | ProviderFailed
    | Forked

  /** How a store answers a write; an unacknowledged write is kept although the caller sees a failure. */
  datatype StoreReply = Stored | Refused | StoredUnacknowledged

  function Lookup<V>(m: map<Key, V>, addr: Key): Option<V> {
    if addr in m then Some(m[addr]) else None
  }

  /** The published log as the start of a draft. */
  function DraftLog(scheme: Scheme, addr: Key, fetched: Option<SignedLog>): Result<Log, LogError> {
    match fetched
    case None => Ok([])
    case Some(signed) =>
      var log :- Verify(scheme, signed, addr);
      DraftOf(log)
  }

  function PushEach(scheme: Scheme, es: Log, entries: seq<AccountEntry>): Result<Log, LogError>
    decreases |entries|
  {
    if |entries| == 0 then Ok(es) else
    var next :- Push(scheme, es, entries[0]);
    PushEach(scheme, next, entries[1..])
  }

  /** The log a publish signs, as a function of what was fetched and what is to be appended. */
  function Author(scheme: Scheme, seed: bytes, fetched: Option<SignedLog>, entries: seq<AccountEntry>)
    : Result<SignedLog, LogError>
  {
    var start :- DraftLog(scheme, scheme.verifyingKey(seed), fetched);
    var log :- PushEach(scheme, start, entries);
    var payload :- Encode(log);
    Ok(SignedLog(payload, scheme.sign(seed, payload)))
  }

  /** Where a publish may start: from nothing, or from an authentic log it can read throughout. */
  ghost predicate Starts(scheme: Scheme, addr: Key, fetched: Option<SignedLog>, start: Log) {
    match fetched
    case None => start == []
    case Some(signed) => Authentic(scheme, addr, signed, start) && AllReadable(start)
  }

  lemma DraftLogExact(scheme: Scheme, addr: Key, fetched: Option<SignedLog>)
    ensures forall start :: DraftLog(scheme, addr, fetched) == Ok(start) <==> Starts(scheme, addr, fetched, start)
  {
    hide Verify, Authentic;
    if fetched.Some? {
      VerifyExact(scheme, fetched.value, addr);
    }
  }

  lemma DraftLogPublishable(scheme: Scheme, addr: Key, fetched: Option<SignedLog>)
    requires DraftLog(scheme, addr, fetched).Ok?
    ensures Publishable(scheme, DraftLog(scheme, addr, fetched).value)
    ensures fetched.Some? ==> Encode(DraftLog(scheme, addr, fetched).value) == Ok(fetched.value.payload)
    ensures AllWireForm(DraftLog(scheme, addr, fetched).value)
  {
    hide DraftLog, Decode, Encode;
    DraftLogExact(scheme, addr, fetched);
    if fetched.Some? {
      DecodeThenEncode(fetched.value.payload);
    }
  }

  lemma AppendMoves(es: Log, entries: seq<AccountEntry>)
    requires |entries| > 0
    ensures (es + [entries[0]]) + entries[1..] == es + entries
  {
  }

  lemma {:induction false} PushEachAppends(scheme: Scheme, es: Log, entries: seq<AccountEntry>)
    requires Publishable(scheme, es) && PushEach(scheme, es, entries).Ok?
    ensures PushEach(scheme, es, entries).value == es + entries
    ensures Publishable(scheme, es + entries)
    decreases |entries|
  {
    if |entries| == 0 {
      assert es + entries == es;
    } else {
      PushKeeps(scheme, es, entries[0]);
      AppendMoves(es, entries);
      PushEachAppends(scheme, es + [entries[0]], entries[1..]);
    }
  }

  ghost predicate Acceptable(scheme: Scheme, es: Log) { ValidLog(scheme, es) && SingleUse(es) }

  /** Each entry is readable and leaves, after those before it, a valid log without doubled keys. */
  ghost predicate AcceptedInTurn(scheme: Scheme, es: Log, entries: seq<AccountEntry>) {
    forall i: nat :: i < |entries| ==> Readable(entries[i]) && Acceptable(scheme, es + entries[..i + 1])
  }

  lemma TurnsMove(scheme: Scheme, es: Log, entries: seq<AccountEntry>)
    requires |entries| > 0
    ensures AcceptedInTurn(scheme, es, entries) <==>
            && Readable(entries[0]) && Acceptable(scheme, es + [entries[0]])
            && AcceptedInTurn(scheme, es + [entries[0]], entries[1..])
  {
    hide Acceptable, Readable;
    var next, rest := es + [entries[0]], entries[1..];
    assert entries[..1] == [entries[0]];
    forall i: nat | i < |rest| ensures next + rest[..i + 1] == es + entries[..i + 2] && rest[i] == entries[i + 1] {
    }
    if AcceptedInTurn(scheme, es, entries) {
      forall i: nat | i < |rest| ensures Readable(rest[i]) && Acceptable(scheme, next + rest[..i + 1]) {
        assert Readable(entries[i + 1]) && Acceptable(scheme, es + entries[..(i + 1) + 1]);
      }
    }
    if AcceptedInTurn(scheme, next, rest) {
      forall i: nat | 0 < i < |entries| ensures Readable(entries[i]) && Acceptable(scheme, es + entries[..i + 1]) {
        assert Readable(rest[i - 1]) && Acceptable(scheme, next + rest[..(i - 1) + 1]);
      }
    }
  }

  lemma {:induction false} PushEachExact(scheme: Scheme, es: Log, entries: seq<AccountEntry>)
    ensures PushEach(scheme, es, entries).Ok? <==> AcceptedInTurn(scheme, es, entries)
    ensures PushEach(scheme, es, entries).Ok? ==> PushEach(scheme, es, entries).value == es + entries
    decreases |entries|
  {
    hide Push, Readable, ValidLog, SingleUse;
    if |entries| == 0 {
      assert es + entries == es;
    } else {
      PushExact(scheme, es, entries[0]);
      TurnsMove(scheme, es, entries);
      AppendMoves(es, entries);
      PushEachExact(scheme, es + [entries[0]], entries[1..]);
    }
  }

  /** What the publish of `entries` onto `start` signs. */
  ghost predicate Signs(scheme: Scheme, seed: bytes, start: Log, entries: seq<AccountEntry>, signed: SignedLog) {
    && signed.payload == DOMAIN + EncodeAll(start + entries)
    && signed.signature == scheme.sign(seed, signed.payload)
  }

  /** A publish goes through exactly when it can start, every entry is acceptable in turn and the result
      is within the cap; it then signs the encoding of the old log followed by the entries. */
  lemma AuthorExact(scheme: Scheme, seed: bytes, fetched: Option<SignedLog>, entries: seq<AccountEntry>)
    ensures forall signed :: Author(scheme, seed, fetched, entries) == Ok(signed) <==>
              exists start ::
                && Starts(scheme, scheme.verifyingKey(seed), fetched, start)
                && AcceptedInTurn(scheme, start, entries)
                && Signs(scheme, seed, start, entries, signed)
  {
    hide DraftLog, PushEach, Starts, AcceptedInTurn, EncodeAll;
    var addr := scheme.verifyingKey(seed);
    DraftLogExact(scheme, addr, fetched);
    if DraftLog(scheme, addr, fetched).Ok? {
      PushEachExact(scheme, DraftLog(scheme, addr, fetched).value, entries);
    }
  }

  lemma {:induction false} PushEachFails(scheme: Scheme, es: Log, entries: seq<AccountEntry>, i: nat)
    requires i < |entries| && AcceptedInTurn(scheme, es, entries[..i])
    requires Push(scheme, es + entries[..i], entries[i]).Err?
    ensures PushEach(scheme, es, entries) == Err(Push(scheme, es + entries[..i], entries[i]).error)
    decreases i
  {
    hide Push, AcceptedInTurn, Acceptable, Readable;
    if i == 0 {
      assert es + entries[..0] == es;
    } else {
      var next, rest := es + [entries[0]], entries[1..];
      assert entries[..i][0] == entries[0] && entries[..i][1..] == rest[..i - 1];
      TurnsMove(scheme, es, entries[..i]);
      PushAccepts(scheme, es, entries[0]);
      assert es + entries[..i] == next + rest[..i - 1];
      PushEachFails(scheme, next, rest, i - 1);
    }
  }

  lemma PushAccepts(scheme: Scheme, es: Log, e: AccountEntry)
    requires Readable(e) && Acceptable(scheme, es + [e])
    ensures Push(scheme, es, e) == Ok(es + [e])
  {
    hide Push, Readable, ValidLog, SingleUse;
    PushExact(scheme, es, e);
  }

  /** A publish that does not go through says why: what is wrong with the fetched log, its first entry
      this code cannot read, the first entry not accepted, or the size. */
  lemma AuthorFaults(scheme: Scheme, seed: bytes, fetched: Option<SignedLog>, entries: seq<AccountEntry>)
    ensures fetched.Some? ==> forall e :: Refuses(scheme, scheme.verifyingKey(seed), fetched.value, e) ==>
              Author(scheme, seed, fetched, entries) == Err(e)
    ensures fetched.Some? ==> forall log, p: nat ::
              && Authentic(scheme, scheme.verifyingKey(seed), fetched.value, log)
              && p < |log| && !Readable(log[p]) && (forall k :: 0 <= k < p ==> Readable(log[k])) ==>
              Author(scheme, seed, fetched, entries) == Err(UnreadableLog(p))
    ensures forall start, i: nat ::
              && Starts(scheme, scheme.verifyingKey(seed), fetched, start)
              && i < |entries| && AcceptedInTurn(scheme, start, entries[..i])
              && Push(scheme, start + entries[..i], entries[i]).Err? ==>
              Author(scheme, seed, fetched, entries) == Err(Push(scheme, start + entries[..i], entries[i]).error)
    ensures forall start ::
              && Starts(scheme, scheme.verifyingKey(seed), fetched, start)
              && AcceptedInTurn(scheme, start, entries)
              && |DOMAIN + EncodeAll(start + entries)| > MAX_PAYLOAD ==>
              Author(scheme, seed, fetched, entries) == Err(TooLarge)
  {
    hide Verify, Authentic, Refuses, Push, PushEach, AcceptedInTurn, EncodeAll;
    var addr := scheme.verifyingKey(seed);
    if fetched.Some? {
      VerifyExact(scheme, fetched.value, addr);
    }
    DraftLogExact(scheme, addr, fetched);
    forall start, i: nat |
      && Starts(scheme, addr, fetched, start) && i < |entries|
      && AcceptedInTurn(scheme, start, entries[..i]) && Push(scheme, start + entries[..i], entries[i]).Err?
      ensures PushEach(scheme, start, entries) == Err(Push(scheme, start + entries[..i], entries[i]).error)
    {
      PushEachFails(scheme, start, entries, i);
    }
    forall start | AcceptedInTurn(scheme, start, entries) ensures PushEach(scheme, start, entries) == Ok(start + entries) {
      PushEachExact(scheme, start, entries);
    }
  }

  class Provider {
    var logs: map<Key, SignedLog>
  }

  class Account {
    const scheme: Scheme
    const seed: bytes
    const provider: Provider

    constructor (scheme: Scheme, seed: bytes, provider: Provider)
      ensures this.scheme == scheme && this.seed == seed && this.provider == provider
    {
      this.scheme, this.seed, this.provider := scheme, seed, provider;
    }

    function Addr(): Key { scheme.verifyingKey(seed) }
  }

  class AccountUpdate {
    const account: Account
    var entries: seq<AccountEntry>

    constructor (account: Account)
      ensures this.account == account && entries == []
    {
      this.account, this.entries := account, [];
    }

    method PushEntry(e: AccountEntry)
      modifies this
      ensures entries == old(entries) + [e]
    {
      entries := entries + [e];
    }

    /** One rejected entry, a failed fetch or a log over the size cap writes nothing. */
    method Publish(fetchUp: bool, reply: StoreReply) returns (r: Result<SignedLog, AccountError>)
      modifies account.provider
      ensures var stored := old(account.provider.logs);
              var authored := Author(account.scheme, account.seed, Lookup(stored, account.Addr()), entries);
              if !fetchUp then
                r == Err(ProviderFailed) && account.provider.logs == stored
              else if authored.Err? then
                r == Err(LogFailed(authored.error)) && account.provider.logs == stored
              else
                && r == (if reply == Stored then Ok(authored.value) else Err(ProviderFailed))
                && account.provider.logs ==
                   if reply == Refused then stored else stored[account.Addr() := authored.value]
      ensures forall before ::
                LastOf(before) == Lookup(old(account.provider.logs), account.Addr()) ==>
                LastOf(Next(account.scheme, account.seed, before, Attempt(entries, fetchUp, reply)))
                  == Lookup(account.provider.logs, account.Addr())
    {
      var scheme, addr := account.scheme, account.Addr();
      if !fetchUp {
        return Err(ProviderFailed);
      }
      var start := DraftLog(scheme, addr, Lookup(account.provider.logs, addr));
      if start.Err? {
        return Err(LogFailed(start.error));
      }
      DraftLogPublishable(scheme, addr, Lookup(account.provider.logs, addr));
      var draft := new AccountLogDraft(scheme, start.value);
      for i := 0 to |entries|
        invariant fresh(draft) && draft.Valid() && draft.scheme == scheme
        invariant account.provider.logs == old(account.provider.logs)
        invariant PushEach(scheme, draft.log, entries[i..]) == PushEach(scheme, start.value, entries)
      {
        ghost var before := draft.log;
        var pushed := draft.PushEntry(entries[i]);
        if pushed.Err? {
          return Err(LogFailed(pushed.error));
        }
        PushKeeps(scheme, before, entries[i]);
        assert entries[i..][1..] == entries[i + 1..];
      }
      var payload := EncodeEntries(draft.log);
      if payload.Err? {
        return Err(LogFailed(payload.error));
      }
      var signed := SignedLog(payload.value, scheme.sign(account.seed, payload.value));
      if reply != Refused {
        account.provider.logs := account.provider.logs[addr := signed];
      }
      r := if reply == Stored then Ok(signed) else Err(ProviderFailed);
    }
  }

  // ----- One publish -----

  /** A publish signs an extension of the bytes it read, whatever the entries are. */
  lemma PublishExtends(scheme: Scheme, seed: bytes, fetched: Option<SignedLog>, entries: seq<AccountEntry>)
    requires Sound(scheme) && Author(scheme, seed, fetched, entries).Ok?
    ensures var signed := Author(scheme, seed, fetched, entries).value;
            && scheme.verify(scheme.verifyingKey(seed), signed.payload, signed.signature)
            && (fetched.Some? ==> fetched.value.payload <= signed.payload)
  {
    var addr := scheme.verifyingKey(seed);
    var start := DraftLog(scheme, addr, fetched).value;
    DraftLogPublishable(scheme, addr, fetched);
    PushEachAppends(scheme, start, entries);
    EncodeAllConcat(start, entries);
  }

  predicate FitsWire(entries: seq<AccountEntry>) {
    forall i :: 0 <= i < |entries| ==> |BodyOf(entries[i])| <= 0xFFFF
  }

  /** What was published reads back as what was authored exactly when every new body fits 16 bits. */
  lemma PublishReadsBack(scheme: Scheme, seed: bytes, fetched: Option<SignedLog>, entries: seq<AccountEntry>)
    requires Sound(scheme) && Author(scheme, seed, fetched, entries).Ok?
    ensures var addr := scheme.verifyingKey(seed);
            Authentic(scheme, addr, Author(scheme, seed, fetched, entries).value,
                      DraftLog(scheme, addr, fetched).value + entries)
            <==> FitsWire(entries)
  {
    var addr := scheme.verifyingKey(seed);
    var start := DraftLog(scheme, addr, fetched).value;
    DraftLogPublishable(scheme, addr, fetched);
    PushEachAppends(scheme, start, entries);
    var log := start + entries;
    EncodeThenDecode(log);
    WireFormOfAppended(start, entries);
  }

  lemma WireFormOfAppended(start: Log, entries: seq<AccountEntry>)
    requires AllWireForm(start) && AllReadable(start + entries)
    ensures AllWireForm(start + entries) <==> FitsWire(entries)
  {
    var log := start + entries;
    forall i | 0 <= i < |entries| ensures WireForm(entries[i]) <==> |BodyOf(entries[i])| <= 0xFFFF {
      assert Readable(log[|start| + i]);
    }
    forall i | 0 <= i < |entries| && AllWireForm(log) ensures WireForm(entries[i]) {
      assert WireForm(log[|start| + i]);
    }
    assert forall i :: 0 <= i < |log| ==> log[i] == if i < |start| then start[i] else entries[i - |start|];
  }

  // ----- Runs of publishes by any number of devices -----

  datatype Attempt = Attempt(entries: seq<AccountEntry>, fetchUp: bool, reply: StoreReply)

  function LastOf(history: seq<SignedLog>): Option<SignedLog> {
    if |history| == 0 then None else Some(history[|history| - 1])
  }

  /** Fetch and store as one step: the logs ever stored under the account after one more attempt. */
  function Next(scheme: Scheme, seed: bytes, before: seq<SignedLog>, attempt: Attempt): seq<SignedLog> {
    if !attempt.fetchUp || attempt.reply == Refused then before else
    match Author(scheme, seed, LastOf(before), attempt.entries)
    case Err(_) => before
    case Ok(signed) => before + [signed]
  }

  function History(scheme: Scheme, seed: bytes, attempts: seq<Attempt>): seq<SignedLog> {
    if |attempts| == 0 then []
    else Next(scheme, seed, History(scheme, seed, attempts[..|attempts| - 1]), attempts[|attempts| - 1])
  }

  ghost predicate SignedBy(scheme: Scheme, addr: Key, signed: SignedLog) {
    scheme.verify(addr, signed.payload, signed.signature)
  }

  ghost predicate ReadableBy(scheme: Scheme, addr: Key, signed: SignedLog) {
    exists log :: Authentic(scheme, addr, signed, log)
  }

  lemma DraftStart(scheme: Scheme, seed: bytes, fetched: Option<SignedLog>, entries: seq<AccountEntry>)
    requires Author(scheme, seed, fetched, entries).Ok? && fetched.Some?
    ensures ReadableBy(scheme, scheme.verifyingKey(seed), fetched.value)
  {
    hide Author;
    AuthorExact(scheme, seed, fetched, entries);
    var start :| Starts(scheme, scheme.verifyingKey(seed), fetched, start);
  }

  lemma FittingIsReadable(scheme: Scheme, seed: bytes, fetched: Option<SignedLog>, entries: seq<AccountEntry>)
    requires Sound(scheme) && Author(scheme, seed, fetched, entries).Ok? && FitsWire(entries)
    ensures ReadableBy(scheme, scheme.verifyingKey(seed), Author(scheme, seed, fetched, entries).value)
  {
    hide Authentic, FitsWire;
    PublishReadsBack(scheme, seed, fetched, entries);
    var log := DraftLog(scheme, scheme.verifyingKey(seed), fetched).value + entries;
    assert Authentic(scheme, scheme.verifyingKey(seed), Author(scheme, seed, fetched, entries).value, log);
  }

  /** An attempt adds at most one log; it is signed, and it extends a last log that was readable. */
  lemma NextExtends(scheme: Scheme, seed: bytes, before: seq<SignedLog>, attempt: Attempt)
    requires Sound(scheme)
    ensures var addr, n := scheme.verifyingKey(seed), |before|;
            var after := Next(scheme, seed, before, attempt);
            || after == before
            || (&& |after| == n + 1 && after[..n] == before
                && SignedBy(scheme, addr, after[n])
                && (n > 0 ==> before[n - 1].payload <= after[n].payload && ReadableBy(scheme, addr, before[n - 1]))
                && (FitsWire(attempt.entries) ==> ReadableBy(scheme, addr, after[n])))
  {
    hide Author, ReadableBy, FitsWire, Sound;
    var last := LastOf(before);
    if Author(scheme, seed, last, attempt.entries).Ok? {
      PublishExtends(scheme, seed, last, attempt.entries);
      var signed := Author(scheme, seed, last, attempt.entries).value;
      if FitsWire(attempt.entries) {
        FittingIsReadable(scheme, seed, last, attempt.entries);
      }
      assert (before + [signed])[..|before|] == before;
      if last.Some? {
        DraftStart(scheme, seed, last, attempt.entries);
      }
    }
  }

  ghost predicate Chain(h: seq<SignedLog>) {
    forall i, j :: 0 <= i <= j < |h| ==> h[i].payload <= h[j].payload
  }

  lemma ChainGrows(before: seq<SignedLog>, signed: SignedLog)
    requires Chain(before) && (|before| > 0 ==> before[|before| - 1].payload <= signed.payload)
    ensures Chain(before + [signed])
  {
    forall i | 0 <= i < |before| ensures before[i].payload <= signed.payload {
      var last := before[|before| - 1].payload;
      assert before[i].payload <= last <= signed.payload;
    }
  }

  /** All published payloads form one byte-prefix chain, each signed by the account. */
  lemma {:induction false} PublishedChain(scheme: Scheme, seed: bytes, attempts: seq<Attempt>)
    requires Sound(scheme)
    ensures var h := History(scheme, seed, attempts);
            && Chain(h)
            && (forall i :: 0 <= i < |h| ==> SignedBy(scheme, scheme.verifyingKey(seed), h[i]))
  {
    hide Next, SignedBy, ReadableBy, FitsWire;
    if |attempts| == 0 {
    } else {
      var before := History(scheme, seed, attempts[..|attempts| - 1]);
      var after := History(scheme, seed, attempts);
      PublishedChain(scheme, seed, attempts[..|attempts| - 1]);
      NextExtends(scheme, seed, before, attempts[|attempts| - 1]);
      if after != before {
        assert after == before + [after[|before|]];
        ChainGrows(before, after[|before|]);
      }
    }
  }

  /** An unreadable payload can only be the last one: no later publish gets past it. */
  lemma {:induction false} OnlyTheLastIsUnreadable(scheme: Scheme, seed: bytes, attempts: seq<Attempt>, i: nat)
    requires Sound(scheme) && i + 1 < |History(scheme, seed, attempts)|
    ensures ReadableBy(scheme, scheme.verifyingKey(seed), History(scheme, seed, attempts)[i])
  {
    hide Next, ReadableBy, SignedBy, FitsWire;
    var before := History(scheme, seed, attempts[..|attempts| - 1]);
    NextExtends(scheme, seed, before, attempts[|attempts| - 1]);
    assert History(scheme, seed, attempts)[i] == before[i];
    if i + 1 < |before| {
      OnlyTheLastIsUnreadable(scheme, seed, attempts[..|attempts| - 1], i);
    }
  }

  /** With bodies of at most 65535 bytes every published payload is readable. */
  lemma {:induction false} PublishedReadable(scheme: Scheme, seed: bytes, attempts: seq<Attempt>)
    requires Sound(scheme)
    requires forall k :: 0 <= k < |attempts| ==> FitsWire(attempts[k].entries)
    ensures forall i :: 0 <= i < |History(scheme, seed, attempts)| ==>
              ReadableBy(scheme, scheme.verifyingKey(seed), History(scheme, seed, attempts)[i])
  {
    hide Next, ReadableBy, SignedBy, FitsWire;
    if |attempts| == 0 {
    } else {
      var before := History(scheme, seed, attempts[..|attempts| - 1]);
      PublishedReadable(scheme, seed, attempts[..|attempts| - 1]);
      NextExtends(scheme, seed, before, attempts[|attempts| - 1]);
    }
  }

  /** A reader holding any published log never sees a fork or a bad signature in another one. */
  lemma ReaderNeverForks(scheme: Scheme, seed: bytes, attempts: seq<Attempt>, held: Record, i: nat, j: nat)
    requires Sound(scheme) && Held(scheme, held) && held.addr == scheme.verifyingKey(seed)
    requires var h := History(scheme, seed, attempts);
             i < |h| && j < |h| && held.signed == h[i]
    ensures var candidate := History(scheme, seed, attempts)[j];
            var u := Update(scheme, held, candidate);
            && (if ReadableBy(scheme, held.addr, candidate)
                then u.outcome in {Updated, Unchanged(Identical), Unchanged(Behind)}
                else u.outcome.Malformed? && u.record == held)
            && (u.record.signed == held.signed || u.record.signed == candidate)
  {
    PublishedChain(scheme, seed, attempts);
    var candidate := History(scheme, seed, attempts)[j];
    VerifyExact(scheme, candidate, held.addr);
    assert held.signed.payload <= candidate.payload || candidate.payload <= held.signed.payload;
    assert CompareLogFreshness(held.signed.payload, candidate.payload) != Diverged;
  }

  /** Offered in turn, every candidate is adopted, already held, or behind. */
  ghost predicate NeverRefused(scheme: Scheme, held: Record, candidates: seq<SignedLog>)
    decreases |candidates|
  {
    |candidates| == 0 ||
    var u := Update(scheme, held, candidates[0]);
    && u.outcome in {Updated, Unchanged(Identical), Unchanged(Behind)}
    && NeverRefused(scheme, u.record, candidates[1..])
  }

  /** However published logs reach a reader, in any order and any number of times, none is refused. */
  lemma {:induction false} ReaderRunNeverForks(
    scheme: Scheme, seed: bytes, attempts: seq<Attempt>, held: Record, candidates: seq<SignedLog>)
    requires Sound(scheme) && Held(scheme, held) && held.addr == scheme.verifyingKey(seed)
    requires forall k :: 0 <= k < |attempts| ==> FitsWire(attempts[k].entries)
    requires held.signed in History(scheme, seed, attempts)
    requires forall c :: c in candidates ==> c in History(scheme, seed, attempts)
    ensures NeverRefused(scheme, held, candidates)
    decreases |candidates|
  {
    hide Verify, Held, History, ReadableBy, Refuses;
    if |candidates| == 0 {
    } else {
      var h, first := History(scheme, seed, attempts), candidates[0];
      assert first in candidates;
      var i :| 0 <= i < |h| && h[i] == held.signed;
      var j :| 0 <= j < |h| && h[j] == first;
      PublishedReadable(scheme, seed, attempts);
      assert ReadableBy(scheme, held.addr, h[j]);
      ReaderNeverForks(scheme, seed, attempts, held, i, j);
      UpdateIsLogOrder(scheme, held, first);
      ReaderRunNeverForks(scheme, seed, attempts, Update(scheme, held, first).record, candidates[1..]);
    }
  }
}
