/**
 * Causal history of group conversations. A message is stamped with a logical clock and names
 * what its sender saw last; from those names others learn what they lack and who holds what.
 */
module CausalHistory {
  import opened Bytes
  import opened HexText

  type Signer = bytes
  type MessageId = bytes
  type ConvoId = bytes

  /** The identifier hash; runs assume it free of collisions. */
  type Hash = bytes -> MessageId

  const CAUSAL_HISTORY_LEN := 10
  const MAX_CLOCK: i32 := 0x7FFF_FFFF

  datatype Frontier = Frontier(sender: Signer, messageId: MessageId)

  datatype HistoryEntry = HistoryEntry(messageId: MessageId, senderId: bytes)

  datatype Payload = Payload(
    messageId: MessageId,
    senderId: bytes,
    channelId: ConvoId,
    lamport: i32,
    history: seq<HistoryEntry>,
    content: bytes
  )

  datatype Missing = Missing(convo: ConvoId, frontier: Frontier)

  datatype Ack = Ack(convo: ConvoId, messageId: MessageId, ackedBy: Signer)

  datatype ConvoState = ConvoState(
    clock: i32,
    seen: set<Frontier>,
    frontiers: seq<Frontier>,
    reported: set<Frontier>,
    own: set<MessageId>,
    ackedBy: Holders
  )

  const FRESH := ConvoState(0, {}, [], {}, {}, map[])

  datatype Store = Store(convos: map<ConvoId, ConvoState>, missing: seq<Missing>, acks: seq<Ack>)

  const EMPTY := Store(map[], [], [])

  // ----- Message identifiers -----

  /** `deterministic_frame_id|`. */
  const ID_DOMAIN: bytes :=
    [100, 101, 116, 101, 114, 109, 105, 110, 105, 115, 116, 105, 99, 95,
     102, 114, 97, 109, 101, 95, 105, 100, PIPE]

  function Preimage(channel: ConvoId, sender: Signer, lamport: i32, content: bytes): bytes {
    ID_DOMAIN + (channel + ([PIPE] + (Hex(sender) + ([PIPE] + (Be32(lamport) + ([PIPE] + content))))))
  }

  function DeriveMessageId(hash: Hash, channel: ConvoId, sender: Signer, lamport: i32, content: bytes): MessageId {
    hash(Preimage(channel, sender, lamport, content))
  }

  /** Text without the separator, up to the separator, is determined by the whole. */
  lemma {:induction false} UpToPipe(a: bytes, b: bytes, x: bytes, y: bytes)
    requires PIPE !in a && PIPE !in b && a + ([PIPE] + x) == b + ([PIPE] + y)
    ensures a == b && x == y
  {
    var s, t := a + ([PIPE] + x), b + ([PIPE] + y);
    assert s[|a|] == PIPE && t[|b|] == PIPE;
    SplitOfJoin(a, [PIPE] + x);
    SplitOfJoin(b, [PIPE] + y);
    SplitOfJoin([PIPE], x);
    SplitOfJoin([PIPE], y);
  }

  /** Within one channel the pre-image determines sender, timestamp and content. */
  lemma PreimageDetermines(
    channel: ConvoId, s: Signer, t: Signer, m: i32, n: i32, x: bytes, y: bytes)
    requires Preimage(channel, s, m, x) == Preimage(channel, t, n, y)
    ensures s == t && m == n && x == y
  {
    var tailX, tailY := Be32(m) + ([PIPE] + x), Be32(n) + ([PIPE] + y);
    var restX, restY := Hex(s) + ([PIPE] + tailX), Hex(t) + ([PIPE] + tailY);
    SplitOfJoin(ID_DOMAIN, channel + ([PIPE] + restX));
    SplitOfJoin(ID_DOMAIN, channel + ([PIPE] + restY));
    SplitOfJoin(channel, [PIPE] + restX);
    SplitOfJoin(channel, [PIPE] + restY);
    SplitOfJoin([PIPE], restX);
    SplitOfJoin([PIPE], restY);
    HexHasNoPipe(s);
    HexHasNoPipe(t);
    UpToPipe(Hex(s), Hex(t), tailX, tailY);
    HexRoundTrip(s);
    HexRoundTrip(t);
    SplitOfJoin(Be32(m), [PIPE] + x);
    SplitOfJoin(Be32(n), [PIPE] + y);
    Be32Injective(m, n);
    SplitOfJoin([PIPE], x);
    SplitOfJoin([PIPE], y);
  }

  /** Across channels too, as long as their names do not contain the separator. */
  lemma PreimageDeterminesChannel(
    c: ConvoId, d: ConvoId, s: Signer, t: Signer, m: i32, n: i32, x: bytes, y: bytes)
    requires PIPE !in c && PIPE !in d && Preimage(c, s, m, x) == Preimage(d, t, n, y)
    ensures c == d && s == t && m == n && x == y
  {
    var restX := Hex(s) + ([PIPE] + (Be32(m) + ([PIPE] + x)));
    var restY := Hex(t) + ([PIPE] + (Be32(n) + ([PIPE] + y)));
    SplitOfJoin(ID_DOMAIN, c + ([PIPE] + restX));
    SplitOfJoin(ID_DOMAIN, d + ([PIPE] + restY));
    UpToPipe(c, d, restX, restY);
    PreimageDetermines(c, s, t, m, n, x, y);
  }

  /** The layout on an example: channel `c`, signer `ab`, timestamp 258, content `x`. */
  lemma PreimageVector()
    ensures Preimage([99], [0xab], 258, [120]) ==
            ID_DOMAIN + ([99] + ([124] + ([97, 98] + ([124] + ([0, 0, 1, 2] + ([124] + [120]))))))
  {
    assert Hex([0xab]) == [97, 98] + Hex([]);
    assert Hex([0xab]) == [97, 98];
    assert Be32(258) == [0, 0, 1, 2];
  }

  ghost predicate CollisionFree(hash: Hash) {
    forall a: bytes, b: bytes :: hash(a) == hash(b) ==> a == b
  }

  // ----- One conversation -----

  function LastTen<T>(xs: seq<T>): (r: seq<T>)
    ensures |r| == if |xs| < CAUSAL_HISTORY_LEN then |xs| else CAUSAL_HISTORY_LEN
    ensures forall i :: 0 <= i < |r| ==> r[i] == xs[|xs| - |r| + i]
  {
    if |xs| <= CAUSAL_HISTORY_LEN then xs else xs[|xs| - CAUSAL_HISTORY_LEN..]
  }

  function RecordSeen(st: ConvoState, f: Frontier): ConvoState {
    if f in st.seen then st
    else st.(seen := st.seen + {f}, frontiers := LastTen(st.frontiers + [f]))
  }

  /** The increment of a 32-bit clock, wrapping as in a release build. */
  function Tick(clock: i32): i32 {
    if clock == MAX_CLOCK then -0x8000_0000 else clock + 1
  }

  function Entry(f: Frontier): HistoryEntry { HistoryEntry(f.messageId, Hex(f.sender)) }

  function Entries(fs: seq<Frontier>): seq<HistoryEntry> { seq(|fs|, i requires 0 <= i < |fs| => Entry(fs[i])) }

  function OnSend(hash: Hash, st: ConvoState, convo: ConvoId, sender: Signer, content: bytes)
    : (ConvoState, Payload)
  {
    var lamport := Tick(st.clock);
    var id := DeriveMessageId(hash, convo, sender, lamport, content);
    var sent := st.(clock := lamport, own := st.own + {id});
    (RecordSeen(sent, Frontier(sender, id)),
     Payload(id, Hex(sender), convo, lamport, Entries(st.frontiers), content))
  }

  type Holders = map<MessageId, set<Signer>>

  predicate Acked(holders: Holders, id: MessageId, peer: Signer) {
    id in holders && peer in holders[id]
  }

  function AckedFor(holders: Holders, id: MessageId): set<Signer> {
    if id in holders then holders[id] else {}
  }

  /** A conversation together with what the current payload has revealed so far. */
  datatype Scan = Scan(state: ConvoState, acks: seq<Ack>, missing: seq<Missing>)

  function NoteAck(convo: ConvoId, from: Signer, scan: Scan, f: Frontier): Scan {
    var st, id := scan.state, f.messageId;
    if id in st.own && from != f.sender && !Acked(st.ackedBy, id, from) then
      scan.(state := st.(ackedBy := st.ackedBy[id := AckedFor(st.ackedBy, id) + {from}]),
            acks := scan.acks + [Ack(convo, id, from)])
    else scan
  }

  function NoteMissing(convo: ConvoId, scan: Scan, f: Frontier): Scan {
    var st := scan.state;
    if f !in st.seen && f !in st.reported then
      scan.(state := st.(reported := st.reported + {f}), missing := scan.missing + [Missing(convo, f)])
    else scan
  }

  function Note(convo: ConvoId, from: Signer, scan: Scan, f: Frontier): Scan {
    NoteMissing(convo, NoteAck(convo, from, scan, f), f)
  }

  /** The loop over a payload's history; an entry whose sender is not hex is skipped. */
  function NoteEntries(convo: ConvoId, from: Signer, start: Scan, history: seq<HistoryEntry>): Scan {
    if |history| == 0 then start else
    var scan := NoteEntries(convo, from, start, history[..|history| - 1]);
    var entry := history[|history| - 1];
    match UnHex(entry.senderId)
    case None => scan
    case Some(sender) => Note(convo, from, scan, Frontier(sender, entry.messageId))
  }

  function OnReceive(st: ConvoState, convo: ConvoId, from: Signer, payload: Payload): Scan {
    var merged := if payload.lamport > st.clock then st.(clock := payload.lamport) else st;
    var scan := NoteEntries(convo, from, Scan(merged, [], []), payload.history);
    scan.(state := RecordSeen(scan.state, Frontier(from, payload.messageId)))
  }

  // ----- The store -----

  function ConvoOf(store: Store, convo: ConvoId): ConvoState {
    if convo in store.convos then store.convos[convo] else FRESH
  }

  function StoreSend(hash: Hash, store: Store, convo: ConvoId, sender: Signer, content: bytes): (Store, Payload) {
    var (st, payload) := OnSend(hash, ConvoOf(store, convo), convo, sender, content);
    (store.(convos := store.convos[convo := st]), payload)
  }

  /** The new store and the gaps this payload revealed; a malformed sender changes nothing. */
  function StoreReceive(store: Store, convo: ConvoId, payload: Payload): (Store, seq<Missing>) {
    match UnHex(payload.senderId)
    case None => (store, [])
    case Some(from) =>
      var scan := OnReceive(ConvoOf(store, convo), convo, from, payload);
      (Store(store.convos[convo := scan.state], store.missing + scan.missing, store.acks + scan.acks),
       scan.missing)
  }

  lemma OneUpdated(before: map<ConvoId, ConvoState>, after: map<ConvoId, ConvoState>, convo: ConvoId)
    requires convo in after && after.Keys == before.Keys + {convo}
    requires forall c :: c in before && c != convo ==> after[c] == before[c]
    ensures after == before[convo := after[convo]]
  {
  }

  // ----- The objects the source updates in place -----

  class ConvoCell {
    var clock: i32
    var seen: set<Frontier>
    var frontiers: seq<Frontier>
    var reported: set<Frontier>
    var own: set<MessageId>
    var ackedBy: Holders

    constructor ()
      ensures Value() == FRESH
    {
      clock, seen, frontiers, reported, own, ackedBy := 0, {}, [], {}, {}, map[];
    }

    function Value(): ConvoState
      reads this
    {
      ConvoState(clock, seen, frontiers, reported, own, ackedBy)
    }

    method RecordSeenHere(f: Frontier)
      modifies this
      ensures Value() == RecordSeen(old(Value()), f)
    {
      if f !in seen {
        seen := seen + {f};
        frontiers := frontiers + [f];
        ghost var all := frontiers;
        while |frontiers| > CAUSAL_HISTORY_LEN
          invariant |LastTen(all)| <= |frontiers| <= |all|
          invariant frontiers == all[|all| - |frontiers|..]
          invariant Value() == old(Value()).(seen := seen, frontiers := frontiers)
          invariant seen == old(seen) + {f}
        {
          frontiers := frontiers[1..];
        }
      }
    }

    method NoteHere(convo: ConvoId, from: Signer, f: Frontier) returns (acks: seq<Ack>, missing: seq<Missing>)
      modifies this
      ensures forall before: Scan :: before.state == old(Value()) ==>
                Note(convo, from, before, f) == Scan(Value(), before.acks + acks, before.missing + missing)
    {
      acks, missing := [], [];
      if f.messageId in own && from != f.sender {
        var holders := AckedFor(ackedBy, f.messageId);
        var inserted := from !in holders;
        ackedBy := ackedBy[f.messageId := holders + {from}];
        assert !inserted ==> holders + {from} == holders;
        if inserted {
          acks := [Ack(convo, f.messageId, from)];
        }
      }
      if f !in seen && f !in reported {
        reported := reported + {f};
        missing := [Missing(convo, f)];
      }
    }

    method SendHere(hash: Hash, convo: ConvoId, sender: Signer, content: bytes) returns (payload: Payload)
      modifies this
      ensures (Value(), payload) == OnSend(hash, old(Value()), convo, sender, content)
    {
      clock := Tick(clock);
      var lamport := clock;
      var id := DeriveMessageId(hash, convo, sender, lamport, content);
      var history := Entries(frontiers);
      own := own + {id};
      RecordSeenHere(Frontier(sender, id));
      payload := Payload(id, Hex(sender), convo, lamport, history, content);
    }

    /** Merges the clock, walks the history, then records the message itself. */
    method ReceiveHere(convo: ConvoId, from: Signer, payload: Payload)
      returns (acks: seq<Ack>, missing: seq<Missing>)
      modifies this
      ensures Scan(Value(), acks, missing) == OnReceive(old(Value()), convo, from, payload)
    {
      if payload.lamport > clock {
        clock := payload.lamport;
      }
      ghost var start := Scan(Value(), [], []);
      acks, missing := [], [];
      for i := 0 to |payload.history|
        invariant NoteEntries(convo, from, start, payload.history[..i]) == Scan(Value(), acks, missing)
      {
        var entry := payload.history[i];
        assert payload.history[..i + 1][..i] == payload.history[..i];
        var sender := UnHex(entry.senderId);
        if sender.Some? {
          var moreAcks, moreMissing := NoteHere(convo, from, Frontier(sender.value, entry.messageId));
          acks, missing := acks + moreAcks, missing + moreMissing;
        }
      }
      assert payload.history[..|payload.history|] == payload.history;
      RecordSeenHere(Frontier(from, payload.messageId));
    }
  }

  class CausalHistoryStore {
    var convos: map<ConvoId, ConvoCell>
    var missing: seq<Missing>
    var acks: seq<Ack>

    /** Conversations do not share state. */
    ghost predicate Valid()
      reads this
    {
      forall c, d :: c in convos && d in convos && c != d ==> convos[c] != convos[d]
    }

    function View(): Store
      reads this, convos.Values
    {
      Store(map c | c in convos :: convos[c].Value(), missing, acks)
    }

    constructor ()
      ensures Valid() && View() == EMPTY
    {
      convos, missing, acks := map[], [], [];
    }

    /** The conversation's cell, created on first use. */
    method CellFor(convo: ConvoId) returns (cell: ConvoCell)
      requires Valid()
      modifies this
      ensures Valid() && convo in convos && convos[convo] == cell
      ensures convos.Keys == old(convos.Keys) + {convo}
      ensures forall c :: c in old(convos) ==> convos[c] == old(convos[c])
      ensures cell in old(convos.Values) || fresh(cell)
      ensures cell.Value() == ConvoOf(old(View()), convo)
      ensures forall c :: c in old(convos) && c != convo ==> convos[c].Value() == old(convos[c].Value())
      ensures missing == old(missing) && acks == old(acks)
    {
      if convo in convos {
        cell := convos[convo];
      } else {
        cell := new ConvoCell();
        convos := convos[convo := cell];
      }
    }

    method Send(hash: Hash, convo: ConvoId, sender: Signer, content: bytes) returns (payload: Payload)
      requires Valid()
      modifies this, convos.Values
      ensures Valid()
      ensures (View(), payload) == StoreSend(hash, old(View()), convo, sender, content)
    {
      var cell := CellFor(convo);
      payload := cell.SendHere(hash, convo, sender, content);
      OneUpdated(old(View()).convos, View().convos, convo);
    }

    method Receive(convo: ConvoId, payload: Payload) returns (detected: seq<Missing>)
      requires Valid()
      modifies this, convos.Values
      ensures Valid()
      ensures (View(), detected) == StoreReceive(old(View()), convo, payload)
    {
      var sender := UnHex(payload.senderId);
      if sender.None? {
        return [];
      }
      var cell := CellFor(convo);
      var newAcks, newMissing := cell.ReceiveHere(convo, sender.value, payload);
      acks, missing := acks + newAcks, missing + newMissing;
      detected := newMissing;
      OneUpdated(old(View()).convos, View().convos, convo);
    }

    method TakeMissing() returns (taken: seq<Missing>)
      requires Valid()
      modifies this`missing
      ensures Valid() && taken == old(missing)
      ensures View() == old(View()).(missing := [])
    {
      taken := missing;
      missing := [];
    }

    method TakeAcks() returns (taken: seq<Ack>)
      requires Valid()
      modifies this`acks
      ensures Valid() && taken == old(acks)
      ensures View() == old(View()).(acks := [])
    {
      taken := acks;
      acks := [];
    }
  }
}
