/**
 * Whole runs of the causal-history protocol. A run is a list of events; the network may
 * drop, duplicate and reorder, because a receive event names any earlier send, any number
 * of times. Every client's store and every payload is a function of the run.
 */
module CausalRuns {
  import opened Bytes
  import opened HexText
  import opened CausalHistory

  datatype Event =
    | Send(who: Signer, convo: ConvoId, content: bytes)
    | Receive(who: Signer, message: nat)
    | TakeMissing(who: Signer)
    | TakeAcks(who: Signer)

  type Run = seq<Event>

  /** A receive event delivers an earlier send, in the conversation it was sent to. */
  predicate WellFormed(es: Run) {
    forall n :: 0 <= n < |es| && es[n].Receive? ==> es[n].message < n && es[es[n].message].Send?
  }

  /** Event `n` has client `a` send or process message `k` of conversation `c`. */
  predicate Handles(es: Run, n: int, a: Signer, c: ConvoId, k: int) {
    && 0 <= n < |es| && 0 <= k < |es| && es[n].who == a && es[k].Send? && es[k].convo == c
    && ((es[n].Send? && k == n) || (es[n].Receive? && k == es[n].message))
  }

  function MessageOf(es: Run, n: nat): nat
    requires n < |es|
  {
    if es[n].Receive? then es[n].message else n
  }

  /** Client `a`'s state of conversation `c` after the first `n` events. */
  function StateAt(hash: Hash, es: Run, n: nat, a: Signer, c: ConvoId): ConvoState
    requires WellFormed(es) && n <= |es|
    decreases n, 0
  {
    if n == 0 then FRESH else
    var before := StateAt(hash, es, n - 1, a, c);
    var k := MessageOf(es, n - 1);
    if !Handles(es, n - 1, a, c, k) then before
    else if es[n - 1].Send? then OnSend(hash, before, c, a, es[n - 1].content).0
    else OnReceive(before, c, es[k].who, PayloadAt(hash, es, k)).state
  }

  /** The payload that send event `k` put on the network. */
  function PayloadAt(hash: Hash, es: Run, k: nat): Payload
    requires WellFormed(es) && k < |es| && es[k].Send?
    decreases k, 1
  {
    OnSend(hash, StateAt(hash, es, k, es[k].who, es[k].convo), es[k].convo, es[k].who, es[k].content).1
  }

  /** What receive event `n` did to its conversation, and what it revealed. */
  function ScanAt(hash: Hash, es: Run, n: nat): Scan
    requires WellFormed(es) && n < |es| && es[n].Receive?
  {
    var k := es[n].message;
    OnReceive(StateAt(hash, es, n, es[n].who, es[k].convo), es[k].convo, es[k].who, PayloadAt(hash, es, k))
  }

  /** Client `a`'s whole store after the first `n` events. */
  function StoreAt(hash: Hash, es: Run, n: nat, a: Signer): Store
    requires WellFormed(es) && n <= |es|
  {
    if n == 0 then EMPTY else
    var before := StoreAt(hash, es, n - 1, a);
    if es[n - 1].who != a then before else
    match es[n - 1]
    case Send(_, convo, content) => StoreSend(hash, before, convo, a, content).0
    case Receive(_, k) => StoreReceive(before, es[k].convo, PayloadAt(hash, es, k)).0
    case TakeMissing(_) => before.(missing := [])
    case TakeAcks(_) => before.(acks := [])
  }

  function FrontierOf(hash: Hash, es: Run, k: nat): Frontier
    requires WellFormed(es) && k < |es| && es[k].Send?
  {
    Frontier(es[k].who, PayloadAt(hash, es, k).messageId)
  }

  /** The duplicate-free list of messages `a` has sent or processed in `c`, in order of first sight. */
  function FirstSeen(hash: Hash, es: Run, n: nat, a: Signer, c: ConvoId): seq<Frontier>
    requires WellFormed(es) && n <= |es|
  {
    if n == 0 then [] else
    var before := FirstSeen(hash, es, n - 1, a, c);
    if Handles(es, n - 1, a, c, MessageOf(es, n - 1)) then
      var f := FrontierOf(hash, es, MessageOf(es, n - 1));
      if f in before then before else before + [f]
    else before
  }

  ghost predicate NoDup<T>(xs: seq<T>) {
    forall i, j :: 0 <= i < j < |xs| ==> xs[i] != xs[j]
  }

  lemma NoDupAppend<T>(xs: seq<T>, ys: seq<T>)
    requires NoDup(xs) && NoDup(ys) && forall y :: y in ys ==> y !in xs
    ensures NoDup(xs + ys)
  {
    forall i, j | 0 <= i < j < |xs + ys| ensures (xs + ys)[i] != (xs + ys)[j] {
      if i < |xs| <= j {
        assert ys[j - |xs|] in ys;
      }
    }
  }

  // ----- One event -----

  /** The loop over a history touches only the reported set and the acknowledgements. */
  lemma {:induction false} NoteEntriesKeeps(convo: ConvoId, from: Signer, start: Scan, history: seq<HistoryEntry>)
    ensures var st := NoteEntries(convo, from, start, history).state;
            && st.clock == start.state.clock && st.seen == start.state.seen
            && st.frontiers == start.state.frontiers && st.own == start.state.own
  {
    if |history| == 0 {
    } else {
      NoteEntriesKeeps(convo, from, start, history[..|history| - 1]);
    }
  }

  /** One more, in 32-bit arithmetic. */
  lemma TickExact(clock: i32)
    ensures (Tick(clock) - (clock + 1)) % 0x1_0000_0000 == 0
    ensures Tick(clock) > clock <==> clock < MAX_CLOCK
  {
  }

  lemma PayloadFields(hash: Hash, es: Run, k: nat)
    requires WellFormed(es) && k < |es| && es[k].Send?
    ensures var p, st := PayloadAt(hash, es, k), StateAt(hash, es, k, es[k].who, es[k].convo);
            && p.senderId == Hex(es[k].who) && UnHex(p.senderId) == Some(es[k].who)
            && p.channelId == es[k].convo && p.content == es[k].content
            && p.lamport == Tick(st.clock) && (p.lamport > st.clock <==> st.clock < MAX_CLOCK)
            && (p.lamport - (st.clock + 1)) % 0x1_0000_0000 == 0
            && p.history == Entries(st.frontiers)
            && p.messageId == DeriveMessageId(hash, es[k].convo, es[k].who, p.lamport, es[k].content)
  {
    hide Tick, StateAt, DeriveMessageId;
    TickExact(StateAt(hash, es, k, es[k].who, es[k].convo).clock);
    HexRoundTrip(es[k].who);
  }

  /** The store keeps conversations apart: each evolves as if it were alone. */
  lemma {:induction false} ConversationsAreIndependent(hash: Hash, es: Run, n: nat, a: Signer, c: ConvoId)
    requires WellFormed(es) && n <= |es|
    ensures ConvoOf(StoreAt(hash, es, n, a), c) == StateAt(hash, es, n, a, c)
  {
    if n == 0 {
    } else {
      ConversationsAreIndependent(hash, es, n - 1, a, c);
      if es[n - 1].Receive? {
        PayloadFields(hash, es, es[n - 1].message);
      }
    }
  }

  /** So the payload a store builds is the one its conversation alone determines. */
  lemma SentPayload(hash: Hash, es: Run, k: nat)
    requires WellFormed(es) && k < |es| && es[k].Send?
    ensures StoreSend(hash, StoreAt(hash, es, k, es[k].who), es[k].convo, es[k].who, es[k].content).1
            == PayloadAt(hash, es, k)
  {
    ConversationsAreIndependent(hash, es, k, es[k].who, es[k].convo);
  }

  lemma SeenStep(hash: Hash, es: Run, n: nat, a: Signer, c: ConvoId)
    requires WellFormed(es) && n < |es| && Handles(es, n, a, c, MessageOf(es, n))
    ensures var before, after := StateAt(hash, es, n, a, c), StateAt(hash, es, n + 1, a, c);
            var k := MessageOf(es, n);
            var seen := RecordSeen(before, FrontierOf(hash, es, k));
            && after.seen == seen.seen && after.frontiers == seen.frontiers
            && (es[n].Send? ==> after.clock == Tick(before.clock) == PayloadAt(hash, es, k).lamport)
            && (es[n].Receive? ==> after.clock == var t := PayloadAt(hash, es, k).lamport;
                                                  if t > before.clock then t else before.clock)
            && after.own == before.own + if es[n].Send? then {PayloadAt(hash, es, n).messageId} else {}
  {
    if es[n].Receive? {
      var st, p := StateAt(hash, es, n, a, c), PayloadAt(hash, es, es[n].message);
      var merged := if p.lamport > st.clock then st.(clock := p.lamport) else st;
      NoteEntriesKeeps(c, es[es[n].message].who, Scan(merged, [], []), p.history);
    }
  }

  // ----- Seen-set and frontier -----

  ghost predicate Tracks(st: ConvoState, xs: seq<Frontier>) {
    NoDup(xs) && (forall f :: f in st.seen <==> f in xs) && st.frontiers == LastTen(xs)
  }

  lemma TracksPush(before: ConvoState, after: ConvoState, xs: seq<Frontier>, f: Frontier)
    requires Tracks(before, xs)
    requires after.seen == RecordSeen(before, f).seen && after.frontiers == RecordSeen(before, f).frontiers
    ensures Tracks(after, if f in xs then xs else xs + [f])
  {
    LastTenPush(xs, f);
    if f !in xs {
      NoDupAppend(xs, [f]);
    }
  }

  lemma LastTenPush<T>(xs: seq<T>, x: T)
    ensures LastTen(LastTen(xs) + [x]) == LastTen(xs + [x])
  {
  }

  /** The seen-set is the whole first-seen history; the frontier is its last ten elements. */
  lemma {:induction false} FrontierIsRecentHistory(hash: Hash, es: Run, n: nat, a: Signer, c: ConvoId)
    requires WellFormed(es) && n <= |es|
    ensures Tracks(StateAt(hash, es, n, a, c), FirstSeen(hash, es, n, a, c))
  {
    hide FrontierOf, RecordSeen;
    if n == 0 {
    } else {
      FrontierIsRecentHistory(hash, es, n - 1, a, c);
      if Handles(es, n - 1, a, c, MessageOf(es, n - 1)) {
        SeenStep(hash, es, n - 1, a, c);
        TracksPush(StateAt(hash, es, n - 1, a, c), StateAt(hash, es, n, a, c),
                   FirstSeen(hash, es, n - 1, a, c), FrontierOf(hash, es, MessageOf(es, n - 1)));
      }
    }
  }

  /** Some event before `n` had `a` send or process the message with frontier `f` in `c`. */
  ghost predicate HandledBefore(hash: Hash, es: Run, n: nat, a: Signer, c: ConvoId, f: Frontier)
    requires WellFormed(es) && n <= |es|
  {
    exists j :: 0 <= j < n && HandledAt(hash, es, j, a, c, f)
  }

  predicate HandledAt(hash: Hash, es: Run, j: nat, a: Signer, c: ConvoId, f: Frontier)
    requires WellFormed(es) && j < |es|
  {
    Handles(es, j, a, c, MessageOf(es, j)) && FrontierOf(hash, es, MessageOf(es, j)) == f
  }

  lemma {:induction false} FirstSeenExact(hash: Hash, es: Run, n: nat, a: Signer, c: ConvoId, f: Frontier)
    requires WellFormed(es) && n <= |es|
    ensures f in FirstSeen(hash, es, n, a, c) <==> HandledBefore(hash, es, n, a, c, f)
  {
    hide FrontierOf;
    if n == 0 {
    } else {
      FirstSeenExact(hash, es, n - 1, a, c, f);
      assert HandledBefore(hash, es, n, a, c, f) <==>
             HandledBefore(hash, es, n - 1, a, c, f) || HandledAt(hash, es, n - 1, a, c, f);
    }
  }

  lemma {:induction false} OwnExact(hash: Hash, es: Run, n: nat, a: Signer, c: ConvoId, id: MessageId)
    requires WellFormed(es) && n <= |es|
    ensures id in StateAt(hash, es, n, a, c).own <==>
            exists k :: 0 <= k < n && Handles(es, k, a, c, k) && PayloadAt(hash, es, k).messageId == id
  {
    hide PayloadAt, FrontierOf, RecordSeen;
    if n == 0 {
    } else {
      OwnExact(hash, es, n - 1, a, c, id);
      if Handles(es, n - 1, a, c, MessageOf(es, n - 1)) {
        SeenStep(hash, es, n - 1, a, c);
      }
    }
  }

  // ----- What one payload reveals -----

  function NoteAll(convo: ConvoId, from: Signer, start: Scan, fs: seq<Frontier>): Scan {
    if |fs| == 0 then start
    else Note(convo, from, NoteAll(convo, from, start, fs[..|fs| - 1]), fs[|fs| - 1])
  }

  /** The references of a history that name a signer; the others are passed over. */
  function References(history: seq<HistoryEntry>): seq<Frontier> {
    if |history| == 0 then [] else
    var before, entry := References(history[..|history| - 1]), history[|history| - 1];
    match UnHex(entry.senderId)
    case None => before
    case Some(sender) => before + [Frontier(sender, entry.messageId)]
  }

  /** A reference is followed exactly if some entry spells it. */
  lemma {:induction false} ReferencesExact(history: seq<HistoryEntry>, f: Frontier)
    ensures f in References(history) <==>
            exists e :: e in history && UnHex(e.senderId) == Some(f.sender) && e.messageId == f.messageId
  {
    if |history| == 0 {
    } else {
      var front, last := history[..|history| - 1], history[|history| - 1];
      ReferencesExact(front, f);
      assert history == front + [last];
    }
  }

  lemma {:induction false} ReferencesOfEntries(fs: seq<Frontier>)
    ensures References(Entries(fs)) == fs
  {
    if |fs| == 0 {
    } else {
      ReferencesOfEntries(fs[..|fs| - 1]);
      assert Entries(fs)[..|fs| - 1] == Entries(fs[..|fs| - 1]);
      HexRoundTrip(fs[|fs| - 1].sender);
    }
  }

  lemma {:induction false} EntriesAreReferences(convo: ConvoId, from: Signer, start: Scan, history: seq<HistoryEntry>)
    ensures NoteEntries(convo, from, start, history) == NoteAll(convo, from, start, References(history))
  {
    hide UnHex, Note;
    if |history| == 0 {
    } else {
      var front, entry := history[..|history| - 1], history[|history| - 1];
      EntriesAreReferences(convo, from, start, front);
      if UnHex(entry.senderId).Some? {
        var f := Frontier(UnHex(entry.senderId).value, entry.messageId);
        assert (References(front) + [f])[..|References(front)|] == References(front);
      }
    }
  }

  /** A reference in `fs` by `from` that acknowledges message `id` of ours. */
  ghost predicate Acknowledges(own: set<MessageId>, from: Signer, fs: seq<Frontier>, id: MessageId) {
    id in own && exists f :: f in fs && f.messageId == id && f.sender != from
  }

  /** A reference in `fs` to a message not seen here. */
  ghost predicate Gap(seen: set<Frontier>, fs: seq<Frontier>, f: Frontier) { f in fs && f !in seen }

  /** From `st`, the references `fs` reveal exactly the gaps not reported yet, each once. */
  ghost predicate RevealsGaps(st: ConvoState, convo: ConvoId, fs: seq<Frontier>, scan: Scan) {
    && (forall f :: f in scan.state.reported <==> f in st.reported || Gap(st.seen, fs, f))
    && (forall m :: m in scan.missing <==>
          m.convo == convo && Gap(st.seen, fs, m.frontier) && m.frontier !in st.reported)
    && NoDup(scan.missing)
  }

  /** From `st`, the references `fs` of `from` reveal exactly the acknowledgements not known yet, each once. */
  ghost predicate RevealsAcks(st: ConvoState, convo: ConvoId, from: Signer, fs: seq<Frontier>, scan: Scan) {
    && (forall id, p :: Acked(scan.state.ackedBy, id, p) <==>
          Acked(st.ackedBy, id, p) || (p == from && Acknowledges(st.own, from, fs, id)))
    && (forall x :: x in scan.acks <==>
          && x.convo == convo && x.ackedBy == from
          && Acknowledges(st.own, from, fs, x.messageId) && !Acked(st.ackedBy, x.messageId, from))
    && NoDup(scan.acks)
  }

  lemma {:induction false} NoteAllGaps(convo: ConvoId, from: Signer, st: ConvoState, fs: seq<Frontier>)
    ensures var r := NoteAll(convo, from, Scan(st, [], []), fs);
            r.state.seen == st.seen && RevealsGaps(st, convo, fs, r)
  {
    if |fs| == 0 {
    } else {
      var front, last := fs[..|fs| - 1], fs[|fs| - 1];
      NoteAllGaps(convo, from, st, front);
      assert forall f :: f in fs <==> f in front || f == last;
      var before := NoteAll(convo, from, Scan(st, [], []), front);
      if last !in st.seen && last !in before.state.reported {
        NoDupAppend(before.missing, [Missing(convo, last)]);
      }
    }
  }

  lemma NoteAckExact(convo: ConvoId, from: Signer, scan: Scan, f: Frontier)
    ensures var r := Note(convo, from, scan, f);
            var noted := f.messageId in scan.state.own && from != f.sender;
            && r.state.own == scan.state.own
            && (forall id, p :: Acked(r.state.ackedBy, id, p) <==>
                  Acked(scan.state.ackedBy, id, p) || (noted && id == f.messageId && p == from))
            && r.acks == scan.acks + if noted && !Acked(scan.state.ackedBy, f.messageId, from)
                                     then [Ack(convo, f.messageId, from)] else []
  {
  }

  lemma {:induction false} NoteAllAcks(convo: ConvoId, from: Signer, st: ConvoState, fs: seq<Frontier>)
    ensures var r := NoteAll(convo, from, Scan(st, [], []), fs);
            r.state.own == st.own && RevealsAcks(st, convo, from, fs, r)
  {
    if |fs| == 0 {
    } else {
      var front, last := fs[..|fs| - 1], fs[|fs| - 1];
      NoteAllAcks(convo, from, st, front);
      var before := NoteAll(convo, from, Scan(st, [], []), front);
      NoteAckExact(convo, from, before, last);
      assert forall f :: f in fs <==> f in front || f == last;
      forall id ensures Acknowledges(st.own, from, fs, id) <==>
                        || Acknowledges(st.own, from, front, id)
                        || (id in st.own && last.messageId == id && last.sender != from) {
      }
      if !Acked(before.state.ackedBy, last.messageId, from) {
        NoDupAppend(before.acks, [Ack(convo, last.messageId, from)]);
      }
    }
  }

  /** The messages send event `k` names: the last ten its sender had first seen. */
  function Named(hash: Hash, es: Run, k: nat): seq<Frontier>
    requires WellFormed(es) && k < |es| && es[k].Send?
  {
    LastTen(FirstSeen(hash, es, k, es[k].who, es[k].convo))
  }

  /** The references a payload carries are those. */
  lemma NamedIsHistory(hash: Hash, es: Run, k: nat)
    requires WellFormed(es) && k < |es| && es[k].Send?
    ensures PayloadAt(hash, es, k).history == Entries(Named(hash, es, k))
  {
    PayloadFields(hash, es, k);
    FrontierIsRecentHistory(hash, es, k, es[k].who, es[k].convo);
  }

  /** A receive event reveals exactly the new gaps and the new acknowledgements. */
  lemma RevealsExact(hash: Hash, es: Run, n: nat)
    requires WellFormed(es) && n < |es| && es[n].Receive?
    ensures var k := es[n].message;
            var st := StateAt(hash, es, n, es[n].who, es[k].convo);
            && RevealsGaps(st, es[k].convo, Named(hash, es, k), ScanAt(hash, es, n))
            && RevealsAcks(st, es[k].convo, es[k].who, Named(hash, es, k), ScanAt(hash, es, n))
  {
    var k := es[n].message;
    var c, peer := es[k].convo, es[k].who;
    NamedIsHistory(hash, es, k);
    ReferencesOfEntries(Named(hash, es, k));
    OnReceiveReveals(StateAt(hash, es, n, es[n].who, c), c, peer, PayloadAt(hash, es, k));
  }

  /** Every payload, well-formed or not, reveals exactly the new gaps and acknowledgements among its references. */
  lemma OnReceiveReveals(st: ConvoState, convo: ConvoId, from: Signer, payload: Payload)
    ensures var scan, fs := OnReceive(st, convo, from, payload), References(payload.history);
            RevealsGaps(st, convo, fs, scan) && RevealsAcks(st, convo, from, fs, scan)
  {
    var merged := if payload.lamport > st.clock then st.(clock := payload.lamport) else st;
    EntriesAreReferences(convo, from, Scan(merged, [], []), payload.history);
    NoteAllGaps(convo, from, merged, References(payload.history));
    NoteAllAcks(convo, from, merged, References(payload.history));
  }

  /** The rest of what processing a payload does: the clock catches up and the message itself is recorded. */
  lemma OnReceiveRecords(st: ConvoState, convo: ConvoId, from: Signer, payload: Payload)
    ensures var after, f := OnReceive(st, convo, from, payload).state, Frontier(from, payload.messageId);
            && after.clock == (if payload.lamport > st.clock then payload.lamport else st.clock)
            && after.own == st.own
            && after.seen == st.seen + {f}
            && after.frontiers == (if f in st.seen then st.frontiers else LastTen(st.frontiers + [f]))
  {
    var merged := if payload.lamport > st.clock then st.(clock := payload.lamport) else st;
    NoteEntriesKeeps(convo, from, Scan(merged, [], []), payload.history);
    assert Frontier(from, payload.messageId) in st.seen ==> st.seen + {Frontier(from, payload.messageId)} == st.seen;
  }

  /** Processing any payload in any store: a malformed sender changes nothing; otherwise the caller is
      handed exactly the new gaps, which also join the pending ones, and no other conversation moves. */
  lemma StoreReceiveExact(store: Store, convo: ConvoId, payload: Payload)
    ensures var (after, detected) := StoreReceive(store, convo, payload);
            && after.missing == store.missing + detected
            && (forall c :: c != convo ==> ConvoOf(after, c) == ConvoOf(store, c))
            && match UnHex(payload.senderId)
               case None => after == store && detected == []
               case Some(from) =>
                 var scan := OnReceive(ConvoOf(store, convo), convo, from, payload);
                 && ConvoOf(after, convo) == scan.state && detected == scan.missing
                 && after.acks == store.acks + scan.acks
                 && RevealsGaps(ConvoOf(store, convo), convo, References(payload.history), scan)
                 && RevealsAcks(ConvoOf(store, convo), convo, from, References(payload.history), scan)
  {
    hide OnReceive, RevealsGaps, RevealsAcks, References;
    if UnHex(payload.senderId).Some? {
      OnReceiveReveals(ConvoOf(store, convo), convo, UnHex(payload.senderId).value, payload);
    } else {
      assert store.missing + [] == store.missing;
    }
  }

  // ----- Detections and drains -----

  /** Everything ever detected by `a`, in order, whether drained or not. */
  function DetectedMissing(hash: Hash, es: Run, n: nat, a: Signer): seq<Missing>
    requires WellFormed(es) && n <= |es|
  {
    if n == 0 then [] else
    DetectedMissing(hash, es, n - 1, a)
    + if es[n - 1].Receive? && es[n - 1].who == a then ScanAt(hash, es, n - 1).missing else []
  }

  function DetectedAcks(hash: Hash, es: Run, n: nat, a: Signer): seq<Ack>
    requires WellFormed(es) && n <= |es|
  {
    if n == 0 then [] else
    DetectedAcks(hash, es, n - 1, a)
    + if es[n - 1].Receive? && es[n - 1].who == a then ScanAt(hash, es, n - 1).acks else []
  }

  /** What `a`'s drains have handed out so far, joined. */
  function DrainedMissing(hash: Hash, es: Run, n: nat, a: Signer): seq<Missing>
    requires WellFormed(es) && n <= |es|
  {
    if n == 0 then [] else
    DrainedMissing(hash, es, n - 1, a)
    + if es[n - 1] == TakeMissing(a) then StoreAt(hash, es, n - 1, a).missing else []
  }

  function DrainedAcks(hash: Hash, es: Run, n: nat, a: Signer): seq<Ack>
    requires WellFormed(es) && n <= |es|
  {
    if n == 0 then [] else
    DrainedAcks(hash, es, n - 1, a)
    + if es[n - 1] == TakeAcks(a) then StoreAt(hash, es, n - 1, a).acks else []
  }

  lemma StoreStep(hash: Hash, es: Run, n: nat, a: Signer)
    requires WellFormed(es) && n < |es|
    ensures var before, after := StoreAt(hash, es, n, a), StoreAt(hash, es, n + 1, a);
            && after.missing == (if es[n] == TakeMissing(a) then []
                                 else if es[n].Receive? && es[n].who == a
                                 then before.missing + ScanAt(hash, es, n).missing
                                 else before.missing)
            && after.acks == (if es[n] == TakeAcks(a) then []
                              else if es[n].Receive? && es[n].who == a
                              then before.acks + ScanAt(hash, es, n).acks
                              else before.acks)
  {
    if es[n].Receive? {
      PayloadFields(hash, es, es[n].message);
      ConversationsAreIndependent(hash, es, n, a, es[es[n].message].convo);
    }
  }

  lemma Regroup<T>(drained: seq<T>, pending: seq<T>, found: seq<T>)
    ensures drained + (pending + found) == (drained + pending) + found
    ensures (drained + pending) + [] == drained + pending && drained + [] == drained
  {
  }

  /** However drains interleave, what was handed out plus what is pending is what was detected. */
  lemma {:induction false} DrainsLoseNoGap(hash: Hash, es: Run, n: nat, a: Signer)
    requires WellFormed(es) && n <= |es|
    ensures DrainedMissing(hash, es, n, a) + StoreAt(hash, es, n, a).missing == DetectedMissing(hash, es, n, a)
  {
    hide ScanAt, StoreSend, StoreReceive, PayloadAt;
    if n == 0 {
    } else {
      DrainsLoseNoGap(hash, es, n - 1, a);
      StoreStep(hash, es, n - 1, a);
      var found := if es[n - 1].Receive? && es[n - 1].who == a then ScanAt(hash, es, n - 1).missing else [];
      Regroup(DrainedMissing(hash, es, n - 1, a), StoreAt(hash, es, n - 1, a).missing, found);
    }
  }

  lemma {:induction false} DrainsLoseNoAck(hash: Hash, es: Run, n: nat, a: Signer)
    requires WellFormed(es) && n <= |es|
    ensures DrainedAcks(hash, es, n, a) + StoreAt(hash, es, n, a).acks == DetectedAcks(hash, es, n, a)
  {
    hide ScanAt, StoreSend, StoreReceive, PayloadAt;
    if n == 0 {
    } else {
      DrainsLoseNoAck(hash, es, n - 1, a);
      StoreStep(hash, es, n - 1, a);
      var found := if es[n - 1].Receive? && es[n - 1].who == a then ScanAt(hash, es, n - 1).acks else [];
      Regroup(DrainedAcks(hash, es, n - 1, a), StoreAt(hash, es, n - 1, a).acks, found);
    }
  }

  ghost predicate ListsGaps(found: seq<Missing>, c: ConvoId, st: ConvoState) {
    forall f :: Missing(c, f) in found <==> f in st.reported
  }

  ghost predicate ListsAcks(found: seq<Ack>, c: ConvoId, st: ConvoState) {
    forall id, p :: Ack(c, id, p) in found <==> Acked(st.ackedBy, id, p)
  }

  lemma GapsGrow(found: seq<Missing>, st: ConvoState, c: ConvoId, fs: seq<Frontier>, scan: Scan)
    requires ListsGaps(found, c, st) && RevealsGaps(st, c, fs, scan)
    ensures ListsGaps(found + scan.missing, c, scan.state)
    ensures NoDup(found) ==> NoDup(found + scan.missing)
    ensures forall d, other :: d != c && ListsGaps(found, d, other) ==> ListsGaps(found + scan.missing, d, other)
  {
    forall m: Missing | m in scan.missing ensures m !in found {
      assert m == Missing(c, m.frontier);
    }
    if NoDup(found) {
      NoDupAppend(found, scan.missing);
    }
  }

  lemma AcksGrow(found: seq<Ack>, st: ConvoState, c: ConvoId, from: Signer, fs: seq<Frontier>, scan: Scan)
    requires ListsAcks(found, c, st) && RevealsAcks(st, c, from, fs, scan)
    ensures ListsAcks(found + scan.acks, c, scan.state)
    ensures NoDup(found) ==> NoDup(found + scan.acks)
    ensures forall d, other :: d != c && ListsAcks(found, d, other) ==> ListsAcks(found + scan.acks, d, other)
  {
    forall x: Ack | x in scan.acks ensures x !in found {
      assert x == Ack(c, x.messageId, from);
    }
    if NoDup(found) {
      NoDupAppend(found, scan.acks);
    }
  }

  lemma OnlyReceivesReveal(hash: Hash, es: Run, n: nat, a: Signer, c: ConvoId)
    requires WellFormed(es) && n < |es| && !(es[n].Receive? && es[n].who == a)
    ensures var before, after := StateAt(hash, es, n, a, c), StateAt(hash, es, n + 1, a, c);
            after.reported == before.reported && after.ackedBy == before.ackedBy
    ensures DetectedMissing(hash, es, n + 1, a) == DetectedMissing(hash, es, n, a)
    ensures DetectedAcks(hash, es, n + 1, a) == DetectedAcks(hash, es, n, a)
  {
  }

  lemma GapsOnReceive(hash: Hash, es: Run, n: nat, a: Signer, c: ConvoId)
    requires WellFormed(es) && n < |es| && es[n].Receive? && es[n].who == a
    requires var found := DetectedMissing(hash, es, n, a);
             && NoDup(found)
             && ListsGaps(found, c, StateAt(hash, es, n, a, c))
             && ListsGaps(found, es[es[n].message].convo, StateAt(hash, es, n, a, es[es[n].message].convo))
    ensures ListsGaps(DetectedMissing(hash, es, n + 1, a), c, StateAt(hash, es, n + 1, a, c))
    ensures NoDup(DetectedMissing(hash, es, n + 1, a))
  {
    hide RevealsGaps, RevealsAcks, Named, NoDup;
    var k := es[n].message;
    RevealsExact(hash, es, n);
    GapsGrow(DetectedMissing(hash, es, n, a), StateAt(hash, es, n, a, es[k].convo), es[k].convo,
             Named(hash, es, k), ScanAt(hash, es, n));
  }

  /** Gaps surface at most once, and a conversation's gaps are those its reported-set remembers. */
  lemma {:induction false} GapsOnce(hash: Hash, es: Run, n: nat, a: Signer, c: ConvoId)
    requires WellFormed(es) && n <= |es|
    ensures ListsGaps(DetectedMissing(hash, es, n, a), c, StateAt(hash, es, n, a, c))
    ensures NoDup(DetectedMissing(hash, es, n, a))
  {
    hide ScanAt, OnReceive, OnSend, PayloadAt;
    if n == 0 {
    } else {
      GapsOnce(hash, es, n - 1, a, c);
      if es[n - 1].Receive? && es[n - 1].who == a {
        GapsOnce(hash, es, n - 1, a, es[es[n - 1].message].convo);
        GapsOnReceive(hash, es, n - 1, a, c);
      } else {
        OnlyReceivesReveal(hash, es, n - 1, a, c);
      }
    }
  }

  lemma AcksOnReceive(hash: Hash, es: Run, n: nat, a: Signer, c: ConvoId)
    requires WellFormed(es) && n < |es| && es[n].Receive? && es[n].who == a
    requires var found := DetectedAcks(hash, es, n, a);
             && NoDup(found)
             && ListsAcks(found, c, StateAt(hash, es, n, a, c))
             && ListsAcks(found, es[es[n].message].convo, StateAt(hash, es, n, a, es[es[n].message].convo))
    ensures ListsAcks(DetectedAcks(hash, es, n + 1, a), c, StateAt(hash, es, n + 1, a, c))
    ensures NoDup(DetectedAcks(hash, es, n + 1, a))
  {
    hide RevealsGaps, RevealsAcks, Named, NoDup;
    var k := es[n].message;
    RevealsExact(hash, es, n);
    AcksGrow(DetectedAcks(hash, es, n, a), StateAt(hash, es, n, a, es[k].convo), es[k].convo, es[k].who,
             Named(hash, es, k), ScanAt(hash, es, n));
  }

  /** A (conversation, message, peer) acknowledgement surfaces at most once, and is then remembered. */
  lemma {:induction false} AcksOnce(hash: Hash, es: Run, n: nat, a: Signer, c: ConvoId)
    requires WellFormed(es) && n <= |es|
    ensures ListsAcks(DetectedAcks(hash, es, n, a), c, StateAt(hash, es, n, a, c))
    ensures NoDup(DetectedAcks(hash, es, n, a))
  {
    hide ScanAt, OnReceive, OnSend, PayloadAt;
    if n == 0 {
    } else {
      AcksOnce(hash, es, n - 1, a, c);
      if es[n - 1].Receive? && es[n - 1].who == a {
        AcksOnce(hash, es, n - 1, a, es[es[n - 1].message].convo);
        AcksOnReceive(hash, es, n - 1, a, c);
      } else {
        OnlyReceivesReveal(hash, es, n - 1, a, c);
      }
    }
  }
}
