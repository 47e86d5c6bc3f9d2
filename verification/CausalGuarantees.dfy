/** What acknowledgements, gap reports and timestamps mean, over every run of the protocol. */
module CausalGuarantees {
  import opened Bytes
  import opened CausalHistory
  import opened CausalRuns

  // ----- Identifiers -----

  /** Within a conversation an identifier belongs to one sender and one timestamp. */
  lemma IdDetermines(hash: Hash, es: Run, i: nat, k: nat)
    requires WellFormed(es) && CollisionFree(hash)
    requires i < |es| && k < |es| && es[i].Send? && es[k].Send? && es[i].convo == es[k].convo
    requires PayloadAt(hash, es, i).messageId == PayloadAt(hash, es, k).messageId
    ensures es[i].who == es[k].who && PayloadAt(hash, es, i).lamport == PayloadAt(hash, es, k).lamport
    ensures es[i].content == es[k].content
  {
    PayloadFields(hash, es, i);
    PayloadFields(hash, es, k);
    PreimageDetermines(es[i].convo, es[i].who, es[k].who,
                       PayloadAt(hash, es, i).lamport, PayloadAt(hash, es, k).lamport,
                       es[i].content, es[k].content);
  }

  // ----- Acknowledgements -----

  /** Receive event `l` brought `a` a reference, by the acknowledging peer, to a message `a` had sent. */
  predicate AckEvidence(hash: Hash, es: Run, a: Signer, ack: Ack, l: nat, f: Frontier, sent: nat)
    requires WellFormed(es)
  {
    && l < |es| && es[l].Receive? && es[l].who == a
    && var k := es[l].message;
       && es[k].convo == ack.convo && es[k].who == ack.ackedBy
       && f in Named(hash, es, k) && f.messageId == ack.messageId && f.sender != ack.ackedBy
       && sent < l && Handles(es, sent, a, ack.convo, sent)
       && PayloadAt(hash, es, sent).messageId == ack.messageId
  }

  ghost predicate SentBefore(hash: Hash, es: Run, n: nat, a: Signer, c: ConvoId, id: MessageId)
    requires WellFormed(es) && n <= |es|
  {
    exists k :: 0 <= k < n && Handles(es, k, a, c, k) && PayloadAt(hash, es, k).messageId == id
  }

  lemma RevealedAck(hash: Hash, es: Run, l: nat, ack: Ack) returns (f: Frontier, sent: nat)
    requires WellFormed(es) && l < |es| && es[l].Receive? && ack in ScanAt(hash, es, l).acks
    ensures AckEvidence(hash, es, es[l].who, ack, l, f, sent)
  {
    var k := es[l].message;
    RevealsExact(hash, es, l);
    OwnExact(hash, es, l, es[l].who, es[k].convo, ack.messageId);
    assert Acknowledges(StateAt(hash, es, l, es[l].who, es[k].convo).own, es[k].who, Named(hash, es, k), ack.messageId);
    f :| f in Named(hash, es, k) && f.messageId == ack.messageId && f.sender != es[k].who;
    sent :| 0 <= sent < l && Handles(es, sent, es[l].who, es[k].convo, sent)
            && PayloadAt(hash, es, sent).messageId == ack.messageId;
  }

  lemma {:induction false} AckWasRevealed(hash: Hash, es: Run, n: nat, a: Signer, ack: Ack)
    returns (l: nat, f: Frontier, sent: nat)
    requires WellFormed(es) && n <= |es| && ack in DetectedAcks(hash, es, n, a)
    ensures l < n && AckEvidence(hash, es, a, ack, l, f, sent) && ack in ScanAt(hash, es, l).acks
  {
    hide ScanAt, AckEvidence;
    if ack in DetectedAcks(hash, es, n - 1, a) {
      l, f, sent := AckWasRevealed(hash, es, n - 1, a, ack);
    } else {
      l := n - 1;
      f, sent := RevealedAck(hash, es, l, ack);
    }
  }

  /** `a` sent the message, the peer processed it and then named it in a message of its own, and
      processing that one is what gave `a` the acknowledgement. */
  predicate RoundTrip(hash: Hash, es: Run, a: Signer, ack: Ack, i: nat, j: nat, k: nat, l: nat)
    requires WellFormed(es)
  {
    && i < j < k < l < |es|
    && Handles(es, i, a, ack.convo, i) && PayloadAt(hash, es, i).messageId == ack.messageId
    && es[j] == Receive(ack.ackedBy, i)
    && Handles(es, k, ack.ackedBy, ack.convo, k) && FrontierOf(hash, es, i) in Named(hash, es, k)
    && es[l] == Receive(a, k) && ack in ScanAt(hash, es, l).acks
    && ack.ackedBy != a
  }

  /** An acknowledgement proves that another signer processed our message before sending what acknowledged it. */
  lemma AckMeansDelivered(hash: Hash, es: Run, n: nat, a: Signer, ack: Ack)
    requires WellFormed(es) && CollisionFree(hash) && n <= |es| && ack in DetectedAcks(hash, es, n, a)
    ensures exists i: nat, j: nat, k: nat, l: nat :: l < n && RoundTrip(hash, es, a, ack, i, j, k, l)
  {
    hide PayloadAt, CollisionFree, DetectedAcks;
    var l, f, sent := AckWasRevealed(hash, es, n, a, ack);
    var k := es[l].message;
    FirstSeenExact(hash, es, k, ack.ackedBy, ack.convo, f);
    var j :| 0 <= j < k && HandledAt(hash, es, j, ack.ackedBy, ack.convo, f);
    var i := MessageOf(es, j);
    IdDetermines(hash, es, i, sent);
    assert RoundTrip(hash, es, a, ack, i, j, k, l);
  }

  /** Conversely a peer whose message names ours is reported as holding it, once it reaches us. */
  lemma NamingIsAcknowledged(hash: Hash, es: Run, l: nat, i: nat)
    requires WellFormed(es) && l < |es| && es[l].Receive? && i < l && es[i].Send?
    requires var k := es[l].message;
             && es[i].who == es[l].who != es[k].who && es[i].convo == es[k].convo
             && FrontierOf(hash, es, i) in Named(hash, es, k)
    ensures var k := es[l].message;
            Ack(es[k].convo, PayloadAt(hash, es, i).messageId, es[k].who) in DetectedAcks(hash, es, l + 1, es[l].who)
  {
    hide StateAt, Named, PayloadAt, DetectedAcks;
    var k, id := es[l].message, PayloadAt(hash, es, i).messageId;
    assert Handles(es, i, es[l].who, es[k].convo, i);
    ReceiveRecordsAck(hash, es, l, FrontierOf(hash, es, i));
    AckListed(hash, es, l + 1, es[l].who, es[k].convo, id, es[k].who);
  }

  lemma ReceiveRecordsAck(hash: Hash, es: Run, l: nat, f: Frontier)
    requires WellFormed(es) && l < |es| && es[l].Receive?
    requires var k := es[l].message;
             && f in Named(hash, es, k) && f.sender != es[k].who
             && SentBefore(hash, es, l, es[l].who, es[k].convo, f.messageId)
    ensures var k := es[l].message;
            Acked(StateAt(hash, es, l + 1, es[l].who, es[k].convo).ackedBy, f.messageId, es[k].who)
  {
    var k, a := es[l].message, es[l].who;
    OwnExact(hash, es, l, a, es[k].convo, f.messageId);
    RevealsExact(hash, es, l);
    assert Acknowledges(StateAt(hash, es, l, a, es[k].convo).own, es[k].who, Named(hash, es, k), f.messageId);
  }

  // ----- Gaps -----

  /** Receive event `l` named message `f` to `a`, which had not processed it. */
  predicate GapEvidence(hash: Hash, es: Run, a: Signer, m: Missing, l: nat)
    requires WellFormed(es)
  {
    && l < |es| && es[l].Receive? && es[l].who == a && es[es[l].message].convo == m.convo
    && m.frontier in Named(hash, es, es[l].message)
    && m.frontier !in StateAt(hash, es, l, a, m.convo).seen
  }

  lemma SeenIsHandled(hash: Hash, es: Run, n: nat, a: Signer, c: ConvoId, f: Frontier)
    requires WellFormed(es) && n <= |es|
    ensures f in StateAt(hash, es, n, a, c).seen <==> HandledBefore(hash, es, n, a, c, f)
  {
    FrontierIsRecentHistory(hash, es, n, a, c);
    FirstSeenExact(hash, es, n, a, c, f);
  }

  lemma RevealedGap(hash: Hash, es: Run, l: nat, m: Missing)
    requires WellFormed(es) && l < |es| && es[l].Receive? && m in ScanAt(hash, es, l).missing
    ensures GapEvidence(hash, es, es[l].who, m, l)
  {
    RevealsExact(hash, es, l);
  }

  lemma {:induction false} GapWasRevealed(hash: Hash, es: Run, n: nat, a: Signer, m: Missing) returns (l: nat)
    requires WellFormed(es) && n <= |es| && m in DetectedMissing(hash, es, n, a)
    ensures l < n && GapEvidence(hash, es, a, m, l) && m in ScanAt(hash, es, l).missing
  {
    hide ScanAt, GapEvidence;
    if m in DetectedMissing(hash, es, n - 1, a) {
      l := GapWasRevealed(hash, es, n - 1, a, m);
    } else {
      l := n - 1;
      RevealedGap(hash, es, l, m);
    }
  }

  /** The named signer sent the message, a sender knew it, and `a` reported it on processing what
      that sender said, not having processed the message itself. */
  ghost predicate GenuineGap(hash: Hash, es: Run, a: Signer, m: Missing, i: nat, k: nat, l: nat)
    requires WellFormed(es)
  {
    && i < k < l < |es|
    && es[i].Send? && es[i].convo == m.convo && FrontierOf(hash, es, i) == m.frontier
    && es[k].Send? && es[k].convo == m.convo && m.frontier in Named(hash, es, k)
    && es[l] == Receive(a, k) && m in ScanAt(hash, es, l).missing
    && !HandledBefore(hash, es, l, a, m.convo, m.frontier)
  }

  /** A reported gap names a message really sent in that conversation and unprocessed when reported. */
  lemma GapIsGenuine(hash: Hash, es: Run, n: nat, a: Signer, m: Missing)
    requires WellFormed(es) && n <= |es| && m in DetectedMissing(hash, es, n, a)
    ensures exists i: nat, k: nat, l: nat :: l < n && GenuineGap(hash, es, a, m, i, k, l)
  {
    var l := GapWasRevealed(hash, es, n, a, m);
    var k := es[l].message;
    SeenIsHandled(hash, es, l, a, m.convo, m.frontier);
    FirstSeenExact(hash, es, k, es[k].who, m.convo, m.frontier);
    var j :| 0 <= j < k && HandledAt(hash, es, j, es[k].who, m.convo, m.frontier);
    assert GenuineGap(hash, es, a, m, MessageOf(es, j), k, l);
  }

  lemma ReceiveRecordsGap(hash: Hash, es: Run, l: nat, f: Frontier)
    requires WellFormed(es) && l < |es| && es[l].Receive? && f in Named(hash, es, es[l].message)
    requires !HandledBefore(hash, es, l, es[l].who, es[es[l].message].convo, f)
    ensures f in StateAt(hash, es, l + 1, es[l].who, es[es[l].message].convo).reported
  {
    var c, a := es[es[l].message].convo, es[l].who;
    SeenIsHandled(hash, es, l, a, c, f);
    RevealsExact(hash, es, l);
    assert Gap(StateAt(hash, es, l, a, c).seen, Named(hash, es, es[l].message), f);
  }

  lemma GapListed(hash: Hash, es: Run, n: nat, a: Signer, c: ConvoId, f: Frontier)
    requires WellFormed(es) && n <= |es| && f in StateAt(hash, es, n, a, c).reported
    ensures Missing(c, f) in DetectedMissing(hash, es, n, a)
  {
    GapsOnce(hash, es, n, a, c);
  }

  lemma AckListed(hash: Hash, es: Run, n: nat, a: Signer, c: ConvoId, id: MessageId, peer: Signer)
    requires WellFormed(es) && n <= |es| && Acked(StateAt(hash, es, n, a, c).ackedBy, id, peer)
    ensures Ack(c, id, peer) in DetectedAcks(hash, es, n, a)
  {
    AcksOnce(hash, es, n, a, c);
  }

  /** A lost message is reported by any later one whose sender first saw at most nine others since. */
  lemma RecentLossIsCaught(hash: Hash, es: Run, l: nat, x: nat)
    requires WellFormed(es) && l < |es| && es[l].Receive?
    requires var k := es[l].message;
             var seen := FirstSeen(hash, es, k, es[k].who, es[k].convo);
             && x < |seen| <= x + CAUSAL_HISTORY_LEN
             && !HandledBefore(hash, es, l, es[l].who, es[k].convo, seen[x])
    ensures var k := es[l].message;
            Missing(es[k].convo, FirstSeen(hash, es, k, es[k].who, es[k].convo)[x])
              in DetectedMissing(hash, es, l + 1, es[l].who)
  {
    hide StateAt, FirstSeen, DetectedMissing, HandledBefore;
    var k := es[l].message;
    var f := FirstSeen(hash, es, k, es[k].who, es[k].convo)[x];
    RecentIsKept(FirstSeen(hash, es, k, es[k].who, es[k].convo), x);
    ReceiveRecordsGap(hash, es, l, f);
    GapListed(hash, es, l + 1, es[l].who, es[k].convo, f);
  }

  lemma RecentIsKept<T>(xs: seq<T>, x: nat)
    requires x < |xs| <= x + CAUSAL_HISTORY_LEN
    ensures xs[x] in LastTen(xs)
  {
    var kept := LastTen(xs);
    assert kept[x + |kept| - |xs|] == xs[x];
  }

  /** Delivery respects causality: a message is processed only after all its sender knew. */
  ghost predicate CausalDelivery(es: Run)
    requires WellFormed(es)
  {
    forall l :: 0 <= l < |es| && es[l].Receive? ==> DeliveredInOrder(es, l)
  }

  ghost predicate DeliveredInOrder(es: Run, l: nat)
    requires WellFormed(es) && l < |es| && es[l].Receive?
  {
    var k := es[l].message;
    forall j :: 0 <= j < k && Handles(es, j, es[k].who, es[k].convo, MessageOf(es, j)) ==>
      exists i :: 0 <= i < l && Handles(es, i, es[l].who, es[k].convo, MessageOf(es, j))
  }

  lemma InOrderIsHandled(hash: Hash, es: Run, l: nat, f: Frontier)
    requires WellFormed(es) && l < |es| && es[l].Receive? && DeliveredInOrder(es, l)
    requires f in Named(hash, es, es[l].message)
    ensures HandledBefore(hash, es, l, es[l].who, es[es[l].message].convo, f)
  {
    var k := es[l].message;
    FirstSeenExact(hash, es, k, es[k].who, es[k].convo, f);
    var j :| 0 <= j < k && HandledAt(hash, es, j, es[k].who, es[k].convo, f);
    var i :| 0 <= i < l && Handles(es, i, es[l].who, es[k].convo, MessageOf(es, j));
    assert HandledAt(hash, es, i, es[l].who, es[k].convo, f);
  }

  /** Under causal delivery nothing is ever reported missing. */
  lemma {:induction false} CausalDeliveryReportsNothing(hash: Hash, es: Run, n: nat, a: Signer)
    requires WellFormed(es) && CausalDelivery(es) && n <= |es|
    ensures DetectedMissing(hash, es, n, a) == []
  {
    hide ScanAt, HandledBefore, StateAt, Named, DeliveredInOrder;
    if n == 0 {
    } else {
      CausalDeliveryReportsNothing(hash, es, n - 1, a);
      if es[n - 1].Receive? && |ScanAt(hash, es, n - 1).missing| > 0 {
        var m := ScanAt(hash, es, n - 1).missing[0];
        RevealedGap(hash, es, n - 1, m);
        InOrderIsHandled(hash, es, n - 1, m.frontier);
        SeenIsHandled(hash, es, n - 1, es[n - 1].who, m.convo, m.frontier);
      }
    }
  }

  /** What the receive call of event `n` hands its caller. */
  function Returned(hash: Hash, es: Run, n: nat): seq<Missing>
    requires WellFormed(es) && n < |es| && es[n].Receive?
  {
    var k := es[n].message;
    StoreReceive(StoreAt(hash, es, n, es[n].who), es[k].convo, PayloadAt(hash, es, k)).1
  }

  lemma ReturnedIsRevealed(hash: Hash, es: Run, n: nat)
    requires WellFormed(es) && n < |es| && es[n].Receive?
    ensures Returned(hash, es, n) == ScanAt(hash, es, n).missing
  {
    hide OnReceive, StateAt, StoreAt, PayloadAt;
    var k := es[n].message;
    PayloadFields(hash, es, k);
    ConversationsAreIndependent(hash, es, n, es[n].who, es[k].convo);
  }

  /** A receive call returns, once each, exactly the messages its payload names that the client has
      neither processed nor been told of before. */
  lemma ReturnedGapsExact(hash: Hash, es: Run, n: nat, m: Missing)
    requires WellFormed(es) && n < |es| && es[n].Receive?
    ensures var a, k := es[n].who, es[n].message;
            m in Returned(hash, es, n) <==>
              && m.convo == es[k].convo && m.frontier in Named(hash, es, k)
              && !HandledBefore(hash, es, n, a, m.convo, m.frontier)
              && m !in DetectedMissing(hash, es, n, a)
    ensures NoDup(Returned(hash, es, n))
  {
    hide Returned, ScanAt, StateAt, HandledBefore, Named, DetectedMissing, RevealsAcks;
    var a, c := es[n].who, es[es[n].message].convo;
    ReturnedIsRevealed(hash, es, n);
    RevealsExact(hash, es, n);
    SeenIsHandled(hash, es, n, a, c, m.frontier);
    GapsOnce(hash, es, n, a, c);
    assert m == Missing(m.convo, m.frontier);
  }

  // ----- Drains -----

  /** However drains interleave, no gap and no acknowledgement is handed out twice. */
  lemma SurfacesOnce(hash: Hash, es: Run, n: nat, a: Signer)
    requires WellFormed(es) && n <= |es|
    ensures NoDup(DrainedMissing(hash, es, n, a) + StoreAt(hash, es, n, a).missing)
    ensures NoDup(DrainedAcks(hash, es, n, a) + StoreAt(hash, es, n, a).acks)
  {
    hide StoreAt, DrainedMissing, DrainedAcks, DetectedMissing, DetectedAcks, StateAt;
    DrainsLoseNoGap(hash, es, n, a);
    DrainsLoseNoAck(hash, es, n, a);
    GapsOnce(hash, es, n, a, []);
    AcksOnce(hash, es, n, a, []);
  }

  // ----- Lamport clocks -----

  /** How many sends conversation `c` has seen among the first `n` events. */
  function Sends(es: Run, n: nat, c: ConvoId): nat
    requires n <= |es|
  {
    if n == 0 then 0
    else Sends(es, n - 1, c) + if es[n - 1].Send? && es[n - 1].convo == c then 1 else 0
  }

  lemma {:induction false} SendsMonotone(es: Run, m: nat, n: nat, c: ConvoId)
    requires m <= n <= |es|
    ensures Sends(es, m, c) <= Sends(es, n, c)
  {
    if m == n {
    } else {
      SendsMonotone(es, m, n - 1, c);
    }
  }

  /** No clock exceeds the number of sends in its conversation, so none wraps before 2^31 - 1 of them. */
  lemma {:induction false} ClockBound(hash: Hash, es: Run, n: nat, a: Signer, c: ConvoId)
    requires WellFormed(es) && n <= |es| && Sends(es, n, c) <= MAX_CLOCK
    ensures 0 <= StateAt(hash, es, n, a, c).clock <= Sends(es, n, c)
    decreases n
  {
    hide PayloadAt, FrontierOf, RecordSeen;
    if n == 0 {
    } else {
      SendsMonotone(es, n - 1, n, c);
      ClockBound(hash, es, n - 1, a, c);
      var k := MessageOf(es, n - 1);
      if Handles(es, n - 1, a, c, k) {
        SeenStep(hash, es, n - 1, a, c);
        if es[n - 1].Receive? {
          SendsMonotone(es, k + 1, n, c);
          ClockBound(hash, es, k, es[k].who, c);
          PayloadFields(hash, es, k);
        }
      }
    }
  }

  lemma TimestampIsNext(hash: Hash, es: Run, k: nat)
    requires WellFormed(es) && k < |es| && es[k].Send? && Sends(es, k + 1, es[k].convo) <= MAX_CLOCK
    ensures PayloadAt(hash, es, k).lamport == StateAt(hash, es, k, es[k].who, es[k].convo).clock + 1
    ensures PayloadAt(hash, es, k).lamport <= Sends(es, k + 1, es[k].convo)
  {
    SendsMonotone(es, k, k + 1, es[k].convo);
    ClockBound(hash, es, k, es[k].who, es[k].convo);
    PayloadFields(hash, es, k);
  }

  lemma {:induction false} HandledIsNotAhead(hash: Hash, es: Run, n: nat, a: Signer, c: ConvoId, j: nat)
    requires WellFormed(es) && j < n <= |es| && Handles(es, j, a, c, MessageOf(es, j))
    requires Sends(es, n, c) <= MAX_CLOCK
    ensures PayloadAt(hash, es, MessageOf(es, j)).lamport <= StateAt(hash, es, n, a, c).clock
  {
    hide PayloadAt, FrontierOf, RecordSeen;
    SendsMonotone(es, n - 1, n, c);
    if j < n - 1 {
      HandledIsNotAhead(hash, es, n - 1, a, c, j);
    }
    if Handles(es, n - 1, a, c, MessageOf(es, n - 1)) {
      SeenStep(hash, es, n - 1, a, c);
      ClockBound(hash, es, n - 1, a, c);
    }
  }

  /** Send `k` comes after message `i` at its own sender: sent or processed there before. */
  predicate Precedes(es: Run, i: nat, k: nat, c: ConvoId) {
    && k < |es| && es[k].Send? && es[k].convo == c
    && exists j :: 0 <= j < k && Handles(es, j, es[k].who, c, i)
  }

  /** Anything a client sent or processed before it sends has a strictly smaller timestamp. */
  lemma LamportOrder(hash: Hash, es: Run, i: nat, k: nat, c: ConvoId)
    requires WellFormed(es) && Precedes(es, i, k, c) && Sends(es, k + 1, c) <= MAX_CLOCK
    ensures i < |es| && es[i].Send?
    ensures PayloadAt(hash, es, i).lamport < PayloadAt(hash, es, k).lamport
  {
    var j :| 0 <= j < k && Handles(es, j, es[k].who, c, i);
    SendsMonotone(es, k, k + 1, c);
    HandledIsNotAhead(hash, es, k, es[k].who, c, j);
    TimestampIsNext(hash, es, k);
  }

  /** Identifiers are unique: two sends of a conversation never share one, up to 2^31 - 1 of them. */
  lemma IdsAreUnique(hash: Hash, es: Run, i: nat, k: nat)
    requires WellFormed(es) && CollisionFree(hash)
    requires i < k < |es| && es[i].Send? && es[k].Send? && es[i].convo == es[k].convo
    requires Sends(es, k + 1, es[k].convo) <= MAX_CLOCK
    ensures PayloadAt(hash, es, i).messageId != PayloadAt(hash, es, k).messageId
  {
    hide PayloadAt, CollisionFree;
    if PayloadAt(hash, es, i).messageId == PayloadAt(hash, es, k).messageId {
      IdDetermines(hash, es, i, k);
      assert Handles(es, i, es[k].who, es[k].convo, i);
      LamportOrder(hash, es, i, k, es[k].convo);
    }
  }

  /** A chain of sends, each naming the one before it in its causal history. */
  predicate ReferenceChain(hash: Hash, es: Run, c: ConvoId, ks: seq<nat>)
    requires WellFormed(es)
  {
    && (forall x :: 0 <= x < |ks| ==> ks[x] < |es| && es[ks[x]].Send? && es[ks[x]].convo == c)
    && (forall x, y :: 0 <= x < |ks| && y == x + 1 < |ks| ==> FrontierOf(hash, es, ks[x]) in Named(hash, es, ks[y]))
  }

  lemma ReferenceIsEarlier(hash: Hash, es: Run, i: nat, k: nat)
    requires WellFormed(es) && CollisionFree(hash)
    requires i < |es| && k < |es| && es[i].Send? && es[k].Send? && es[i].convo == es[k].convo
    requires FrontierOf(hash, es, i) in Named(hash, es, k) && Sends(es, k + 1, es[k].convo) <= MAX_CLOCK
    ensures PayloadAt(hash, es, i).lamport < PayloadAt(hash, es, k).lamport
  {
    var c, f := es[k].convo, FrontierOf(hash, es, i);
    FirstSeenExact(hash, es, k, es[k].who, c, f);
    var j :| 0 <= j < k && HandledAt(hash, es, j, es[k].who, c, f);
    LamportOrder(hash, es, MessageOf(es, j), k, c);
    IdDetermines(hash, es, i, MessageOf(es, j));
  }

  lemma {:induction false} TimestampsAlongChain(hash: Hash, es: Run, c: ConvoId, ks: seq<nat>)
    requires WellFormed(es) && CollisionFree(hash) && ReferenceChain(hash, es, c, ks) && |ks| >= 2
    requires Sends(es, |es|, c) <= MAX_CLOCK
    ensures PayloadAt(hash, es, ks[0]).lamport < PayloadAt(hash, es, ks[|ks| - 1]).lamport
  {
    hide Named, PayloadAt, FrontierOf, CollisionFree;
    var x := |ks| - 2;
    SendsMonotone(es, ks[x + 1] + 1, |es|, c);
    ReferenceIsEarlier(hash, es, ks[x], ks[x + 1]);
    if |ks| > 2 {
      TimestampsAlongChain(hash, es, c, ks[..|ks| - 1]);
    }
  }

  /** Timestamps strictly increase along references, so no message is in its own causal past. */
  lemma ReferencesAreAcyclic(hash: Hash, es: Run, c: ConvoId, ks: seq<nat>)
    requires WellFormed(es) && CollisionFree(hash) && ReferenceChain(hash, es, c, ks) && |ks| >= 2
    requires Sends(es, |es|, c) <= MAX_CLOCK
    ensures var first, last := PayloadAt(hash, es, ks[0]), PayloadAt(hash, es, ks[|ks| - 1]);
            first.lamport < last.lamport && first.messageId != last.messageId
  {
    TimestampsAlongChain(hash, es, c, ks);
    if PayloadAt(hash, es, ks[0]).messageId == PayloadAt(hash, es, ks[|ks| - 1]).messageId {
      IdDetermines(hash, es, ks[0], ks[|ks| - 1]);
    }
  }
}
