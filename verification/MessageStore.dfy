/**
 * The message store: one table numbered by an increasing `seq`, read back page by page while
 * other code keeps recording and deleting.
 */
module MessageStores {
  import opened Bytes

  const I64_MAX: int := 0x7FFF_FFFF_FFFF_FFFF

  /** A message: its chat, and the remaining columns as one value. */
  datatype Message = Message(chat: bytes, content: bytes)

  datatype Stored = Stored(id: nat, message: Message)

  /** The rows in `seq` order, and the largest `seq` ever given out. */
  datatype Db = Db(rows: seq<Stored>, last: nat)

  datatype StoreError = Full | LimitTooLarge

  predicate Ascending(rows: seq<Stored>) {
    forall i, j :: 0 <= i < j < |rows| ==> rows[i].id < rows[j].id
  }

  predicate ValidDb(db: Db) {
    && Ascending(db.rows)
    && (forall r :: r in db.rows ==> 1 <= r.id <= db.last)
    && db.last <= I64_MAX
  }

  // ----- Changing the table -----

  function Record(db: Db, m: Message): Db {
    if db.last >= I64_MAX then db else Db(db.rows + [Stored(db.last + 1, m)], db.last + 1)
  }

  /** The rows a predicate on rows keeps, in order. */
  function Keep(rows: seq<Stored>, p: Stored -> bool): (r: seq<Stored>)
    ensures forall x :: x in r <==> x in rows && p(x)
  {
    if |rows| == 0 then []
    else
      var front, back := rows[..|rows| - 1], rows[|rows| - 1];
      assert rows == front + [back];
      if p(back) then Keep(front, p) + [back] else Keep(front, p)
  }

  function DeleteRow(db: Db, id: nat): Db { db.(rows := Keep(db.rows, (r: Stored) => r.id != id)) }

  function DeleteChat(db: Db, chat: bytes): Db {
    db.(rows := Keep(db.rows, (r: Stored) => r.message.chat != chat))
  }

  lemma {:induction false} KeepAscends(rows: seq<Stored>, p: Stored -> bool)
    requires Ascending(rows)
    ensures Ascending(Keep(rows, p))
  {
    if |rows| == 0 {
    } else {
      var front, back := rows[..|rows| - 1], rows[|rows| - 1];
      KeepAscends(front, p);
      var kept := Keep(front, p);
      forall i | 0 <= i < |kept| ensures kept[i].id < back.id {
        assert kept[i] in front;
      }
    }
  }

  // ----- Reading a page -----

  predicate Wanted(r: Stored, chat: bytes, bound: int) { r.message.chat == chat && r.id < bound }

  function Below(rows: seq<Stored>, chat: bytes, bound: int): seq<Stored> {
    Keep(rows, (r: Stored) => Wanted(r, chat, bound))
  }

  /** The last `limit` rows of the chat below the bound, oldest first. */
  function Page(rows: seq<Stored>, chat: bytes, bound: int, limit: nat): seq<Stored> {
    LastOf(Below(rows, chat, bound), limit)
  }

  /** The query: newest first, at most `limit`. */
  function SelectDesc(rows: seq<Stored>, chat: bytes, bound: int, limit: nat): seq<Stored> {
    if |rows| == 0 || limit == 0 then []
    else
      var front, back := rows[..|rows| - 1], rows[|rows| - 1];
      if Wanted(back, chat, bound) then [back] + SelectDesc(front, chat, bound, limit - 1)
      else SelectDesc(front, chat, bound, limit)
  }

  function Reverse(rows: seq<Stored>): seq<Stored> {
    if |rows| == 0 then [] else Reverse(rows[1..]) + [rows[0]]
  }

  function LastOf(all: seq<Stored>, limit: nat): seq<Stored> {
    if |all| <= limit then all else all[|all| - limit..]
  }

  lemma LastOfPush(all: seq<Stored>, x: Stored, limit: nat)
    requires limit > 0
    ensures LastOf(all + [x], limit) == LastOf(all, limit - 1) + [x]
  {
  }

  lemma ReversePush(x: Stored, rest: seq<Stored>)
    ensures Reverse([x] + rest) == Reverse(rest) + [x]
  {
    assert ([x] + rest)[1..] == rest;
  }

  /** Reversing the descending query gives the page. */
  lemma {:induction false} QueryIsPage(rows: seq<Stored>, chat: bytes, bound: int, limit: nat)
    ensures Reverse(SelectDesc(rows, chat, bound, limit)) == Page(rows, chat, bound, limit)
  {
    if |rows| > 0 && limit > 0 {
      var front, back := rows[..|rows| - 1], rows[|rows| - 1];
      if Wanted(back, chat, bound) {
        QueryIsPage(front, chat, bound, limit - 1);
        ReversePush(back, SelectDesc(front, chat, bound, limit - 1));
        LastOfPush(Below(front, chat, bound), back, limit);
      } else {
        QueryIsPage(front, chat, bound, limit);
      }
    }
  }

  /** Whether a page of this limit leaves nothing at or above `r` unread. */
  predicate Reaches(page: seq<Stored>, limit: nat, r: Stored) {
    |page| < limit || (|page| > 0 && r.id >= page[0].id)
  }

  /** A page is ascending and holds exactly the rows of the chat below the bound that it reaches. */
  lemma PageExact(rows: seq<Stored>, chat: bytes, bound: int, limit: nat)
    requires Ascending(rows)
    ensures var page := Page(rows, chat, bound, limit);
            && |page| <= limit
            && Ascending(page)
            && forall r :: r in page <==>
                 r in rows && Wanted(r, chat, bound) && Reaches(page, limit, r)
  {
    var all, page := Below(rows, chat, bound), Page(rows, chat, bound, limit);
    KeepAscends(rows, (r: Stored) => Wanted(r, chat, bound));
    forall r: Stored ensures r in page <==> r in all && Reaches(page, limit, r) {
      LastOfExact(all, limit, r);
    }
  }

  lemma LastOfExact(all: seq<Stored>, limit: nat, r: Stored)
    requires Ascending(all)
    ensures r in LastOf(all, limit) <==> r in all && Reaches(LastOf(all, limit), limit, r)
  {
    var page := LastOf(all, limit);
    if r in page {
      var i :| 0 <= i < |page| && page[i] == r;
      assert all[|all| - |page| + i] == r;
    }
    if r in all && Reaches(page, limit, r) {
      var i :| 0 <= i < |all| && all[i] == r;
      assert i >= |all| - |page|;
      assert page[i - (|all| - |page|)] == r;
    }
  }

  function BoundOf(before: Option<int>): int { if before.Some? then before.value else I64_MAX }

  class MessageStore {
    var db: Db

    constructor ()
      ensures db == Db([], 0)
    {
      db := Db([], 0);
    }

    method RecordHere(m: Message) returns (r: Result<nat, StoreError>)
      requires ValidDb(db)
      modifies this
      ensures ValidDb(db) && db == Record(old(db), m)
      ensures r == if old(db.last) < I64_MAX then Ok(db.last) else Err(Full)
    {
      if db.last >= I64_MAX { return Err(Full); }
      var id := db.last + 1;
      db := Db(db.rows + [Stored(id, m)], id);
      r := Ok(id);
    }

    method Messages(chat: bytes, before: Option<int>, limit: nat) returns (r: Result<seq<Stored>, StoreError>)
      ensures limit > I64_MAX <==> r == Err(LimitTooLarge)
      ensures limit <= I64_MAX <==> r == Ok(Page(db.rows, chat, BoundOf(before), limit))
    {
      if limit > I64_MAX { return Err(LimitTooLarge); }
      var page := SelectDesc(db.rows, chat, BoundOf(before), limit);
      QueryIsPage(db.rows, chat, BoundOf(before), limit);
      r := Ok(Reverse(page));
    }

    method DeleteHere(id: nat) returns (deleted: bool)
      requires ValidDb(db)
      modifies this
      ensures ValidDb(db) && db == DeleteRow(old(db), id)
      ensures deleted <==> exists r :: r in old(db.rows) && r.id == id
      ensures deleted <==> db != old(db)
    {
      KeepAscends(db.rows, (r: Stored) => r.id != id);
      var kept := Keep(db.rows, (r: Stored) => r.id != id);
      deleted := |kept| < |db.rows|;
      KeepShortens(db.rows, (r: Stored) => r.id != id);
      db := db.(rows := kept);
    }

    method DeleteChatHere(chat: bytes) returns (deleted: nat)
      requires ValidDb(db)
      modifies this
      ensures ValidDb(db) && db == DeleteChat(old(db), chat)
      ensures deleted + |db.rows| == |old(db.rows)|
      ensures forall r :: r in db.rows ==> r.message.chat != chat
    {
      KeepAscends(db.rows, (r: Stored) => r.message.chat != chat);
      KeepShortens(db.rows, (r: Stored) => r.message.chat != chat);
      var kept := Keep(db.rows, (r: Stored) => r.message.chat != chat);
      deleted := |db.rows| - |kept|;
      db := db.(rows := kept);
    }
  }

  lemma {:induction false} KeepShortens(rows: seq<Stored>, p: Stored -> bool)
    ensures |Keep(rows, p)| <= |rows|
    ensures |Keep(rows, p)| == |rows| <==> forall r :: r in rows ==> p(r)
    ensures |Keep(rows, p)| == |rows| ==> Keep(rows, p) == rows
  {
    if |rows| == 0 {
    } else {
      var front, back := rows[..|rows| - 1], rows[|rows| - 1];
      KeepShortens(front, p);
      assert rows == front + [back];
    }
  }

  /** A row can be read by some call exactly when it does not carry the very last `seq`. */
  lemma LastSeqIsInvisible(rows: seq<Stored>, r: Stored)
    requires r in rows
    ensures r.id < I64_MAX <==>
            exists before, limit :: BoundOf(before) <= I64_MAX && r in Page(rows, r.message.chat, BoundOf(before), limit)
  {
    if r.id < I64_MAX {
      var all := Below(rows, r.message.chat, BoundOf(None));
      assert r in Page(rows, r.message.chat, BoundOf(None), |all|);
    }
    forall before, limit: nat |
      BoundOf(before) <= I64_MAX && r in Page(rows, r.message.chat, BoundOf(before), limit)
      ensures r.id < I64_MAX
    {
      assert r in Below(rows, r.message.chat, BoundOf(before));
    }
  }

  // ----- A paging session under interleaved changes -----

  datatype Event = Recorded(message: Message) | Deleted(id: nat) | ChatDeleted(chat: bytes) | Read

  /** The table, and a reader that pages back by the first `seq` of each page until one is short.
      `first` and `mark` are the chat and the largest `seq` as they were at the first read. */
  datatype Session = Session(
    db: Db,
    before: Option<int>,
    joined: seq<Stored>,
    turns: nat,
    done: bool,
    first: seq<Stored>,
    mark: nat
  )

  function Turn(s: Session, chat: bytes, limit: nat): Session {
    if s.done then s else
    var page := Page(s.db.rows, chat, BoundOf(s.before), limit);
    s.(joined := page + s.joined,
       before := if |page| > 0 then Some(page[0].id) else s.before,
       turns := s.turns + 1,
       done := |page| < limit,
       first := if s.turns == 0 then Below(s.db.rows, chat, I64_MAX) else s.first,
       mark := if s.turns == 0 then s.db.last else s.mark)
  }

  function Step(s: Session, e: Event, chat: bytes, limit: nat): Session {
    match e
    case Recorded(m) => s.(db := Record(s.db, m))
    case Deleted(id) => s.(db := DeleteRow(s.db, id))
    case ChatDeleted(c) => s.(db := DeleteChat(s.db, c))
    case Read => Turn(s, chat, limit)
  }

  function Start(db: Db): Session { Session(db, None, [], 0, false, [], 0) }

  function At(db: Db, es: seq<Event>, n: nat, chat: bytes, limit: nat): Session
    requires n <= |es|
  {
    if n == 0 then Start(db) else Step(At(db, es, n - 1, chat, limit), es[n - 1], chat, limit)
  }

  /** Rows of the first read still come from it; later records lie above the mark. */
  ghost predicate Old(s: Session, chat: bytes) {
    && s.mark <= s.db.last
    && (forall r :: r in s.db.rows && r.id <= s.mark && Wanted(r, chat, I64_MAX) ==> r in s.first)
  }

  ghost predicate Paging(s: Session, chat: bytes) {
    && Ascending(s.joined) && Ascending(s.first)
    && (forall r :: r in s.joined ==> r in s.first)
    && (forall r :: r in s.first ==> r.id <= s.mark && Wanted(r, chat, I64_MAX))
    && (s.turns == 0 ==> s.joined == [] && s.before == None && !s.done)
    && (s.turns > 0 && !s.done ==> |s.joined| > 0 && s.before == Some(s.joined[0].id))
  }

  ghost predicate Inv(s: Session, chat: bytes) {
    ValidDb(s.db) && Paging(s, chat) && (s.turns > 0 ==> Old(s, chat))
  }

  lemma ChangeKeeps(s: Session, e: Event, chat: bytes, limit: nat)
    requires Inv(s, chat) && !e.Read?
    ensures Inv(Step(s, e, chat, limit), chat)
  {
    match e
    case Recorded(_) =>
    case Deleted(id) => KeepAscends(s.db.rows, (r: Stored) => r.id != id);
    case ChatDeleted(c) => KeepAscends(s.db.rows, (r: Stored) => r.message.chat != c);
  }

  lemma JoinAscends(page: seq<Stored>, joined: seq<Stored>)
    requires Ascending(page) && Ascending(joined)
    requires |joined| > 0 ==> forall r :: r in page ==> r.id < joined[0].id
    ensures Ascending(page + joined)
  {
    var all := page + joined;
    forall i, j | 0 <= i < j < |all| ensures all[i].id < all[j].id {
      if i < |page| <= j { assert page[i] in page; }
    }
  }

  lemma ReadKeeps(s: Session, chat: bytes, limit: nat)
    requires Inv(s, chat) && limit > 0
    ensures Inv(Turn(s, chat, limit), chat)
  {
    if !s.done {
      var page := Page(s.db.rows, chat, BoundOf(s.before), limit);
      PageExact(s.db.rows, chat, BoundOf(s.before), limit);
      KeepAscends(s.db.rows, (r: Stored) => Wanted(r, chat, I64_MAX));
      JoinAscends(page, s.joined);
    }
  }

  lemma StepKeeps(s: Session, e: Event, chat: bytes, limit: nat)
    requires Inv(s, chat) && limit > 0
    ensures Inv(Step(s, e, chat, limit), chat)
  {
    if e.Read? { ReadKeeps(s, chat, limit); } else { ChangeKeeps(s, e, chat, limit); }
  }

  lemma {:induction false} SessionInv(db: Db, es: seq<Event>, n: nat, chat: bytes, limit: nat)
    requires ValidDb(db) && limit > 0 && n <= |es|
    ensures Inv(At(db, es, n, chat, limit), chat)
  {
    if n == 0 {
    } else {
      SessionInv(db, es, n - 1, chat, limit);
      StepKeeps(At(db, es, n - 1, chat, limit), es[n - 1], chat, limit);
    }
  }

  /** The joined pages are strictly ascending, never repeat, and come from the first read. */
  lemma PagesNeverRepeat(db: Db, es: seq<Event>, n: nat, chat: bytes, limit: nat)
    requires ValidDb(db) && limit > 0 && n <= |es|
    ensures var s := At(db, es, n, chat, limit);
            Ascending(s.joined) && forall r :: r in s.joined ==> r in s.first
  {
    SessionInv(db, es, n, chat, limit);
  }

  // ----- Termination -----

  /** Every full page takes `limit` messages. */
  ghost predicate Counted(s: Session, limit: nat) {
    if s.done then s.turns > 0 && (s.turns - 1) * limit <= |s.joined|
    else s.turns * limit == |s.joined|
  }

  lemma OneMore(turns: nat, limit: nat)
    ensures (turns + 1) * limit == turns * limit + limit
  {
  }

  lemma CountStep(s: Session, e: Event, chat: bytes, limit: nat)
    requires Counted(s, limit)
    ensures Counted(Step(s, e, chat, limit), limit)
  {
    if e.Read? && !s.done {
      OneMore(s.turns, limit);
      var page := Page(s.db.rows, chat, BoundOf(s.before), limit);
      assert |page| <= limit;
      assert |page + s.joined| == |page| + s.turns * limit;
    }
  }

  lemma {:induction false} SessionCounts(db: Db, es: seq<Event>, n: nat, chat: bytes, limit: nat)
    requires n <= |es|
    ensures Counted(At(db, es, n, chat, limit), limit)
  {
    if n == 0 {
    } else {
      SessionCounts(db, es, n - 1, chat, limit);
      CountStep(At(db, es, n - 1, chat, limit), es[n - 1], chat, limit);
    }
  }

  lemma {:induction false} SubsequenceIsShorter(a: seq<Stored>, b: seq<Stored>)
    requires Ascending(a) && Ascending(b)
    requires forall r :: r in a ==> r in b
    ensures |a| <= |b|
    decreases |a|
  {
    if |a| == 0 {
    } else {
      var x, front := a[|a| - 1], a[..|a| - 1];
      assert x in a;
      var k :| 0 <= k < |b| && b[k] == x;
      forall r | r in front ensures r in b[..k] {
        var i :| 0 <= i < |front| && front[i] == r;
        assert a[i] in a;
        var j :| 0 <= j < |b| && b[j] == a[i];
        assert b[..k][j] == r;
      }
      SubsequenceIsShorter(front, b[..k]);
    }
  }

  /** Paging ends: full pages never take more than the chat held at the first read. */
  lemma PagingTerminates(db: Db, es: seq<Event>, n: nat, chat: bytes, limit: nat)
    requires ValidDb(db) && limit > 0 && n <= |es|
    ensures var s := At(db, es, n, chat, limit);
            (if s.done then s.turns - 1 else s.turns) * limit <= |s.first|
  {
    SessionInv(db, es, n, chat, limit);
    SessionCounts(db, es, n, chat, limit);
    var s := At(db, es, n, chat, limit);
    SubsequenceIsShorter(s.joined, s.first);
  }

  // ----- Coverage -----

  /** Whether the reader has paged past this row's `seq`. */
  predicate Reached(s: Session, r: Stored) {
    s.done || (s.before.Some? && r.id >= s.before.value)
  }

  /** The read that first reached the row no longer found it. */
  ghost predicate LostBy(s: Session, e: Event, chat: bytes, limit: nat, r: Stored) {
    e.Read? && !Reached(s, r) && r !in s.db.rows && Reached(Turn(s, chat, limit), r)
  }

  ghost predicate LostAt(db: Db, es: seq<Event>, i: nat, chat: bytes, limit: nat, r: Stored)
    requires i < |es|
  {
    LostBy(At(db, es, i, chat, limit), es[i], chat, limit, r)
  }

  lemma TurnCovers(s: Session, chat: bytes, limit: nat, r: Stored)
    requires Inv(s, chat) && limit > 0 && !Reached(s, r)
    requires r in Turn(s, chat, limit).first && Reached(Turn(s, chat, limit), r)
    ensures r in Turn(s, chat, limit).joined <==> r in s.db.rows
  {
    var page := Page(s.db.rows, chat, BoundOf(s.before), limit);
    PageExact(s.db.rows, chat, BoundOf(s.before), limit);
    if s.turns > 0 {
      assert forall i :: 0 <= i < |s.joined| ==> s.joined[i].id >= s.joined[0].id;
      assert r !in s.joined;
    }
  }

  lemma TurnKeepsReached(s: Session, chat: bytes, limit: nat, r: Stored)
    requires Inv(s, chat) && Reached(s, r)
    ensures Reached(Turn(s, chat, limit), r)
    ensures r in Turn(s, chat, limit).joined <==> r in s.joined
  {
    PageExact(s.db.rows, chat, BoundOf(s.before), limit);
  }

  lemma StepKeepsReached(s: Session, e: Event, chat: bytes, limit: nat, r: Stored)
    requires Inv(s, chat) && Reached(s, r)
    ensures Reached(Step(s, e, chat, limit), r)
    ensures r in Step(s, e, chat, limit).joined <==> r in s.joined
    ensures Step(s, e, chat, limit).first == s.first
  {
    if e.Read? { TurnKeepsReached(s, chat, limit, r); }
  }

  /** Whether some read among the first `n` events reached the row and no longer found it. */
  ghost predicate Lost(db: Db, es: seq<Event>, n: nat, chat: bytes, limit: nat, r: Stored)
    requires n <= |es|
  {
    n > 0 && (Lost(db, es, n - 1, chat, limit, r) || LostAt(db, es, n - 1, chat, limit, r))
  }

  /** Once reached, a row of the first read was delivered unless lost; until then it is not lost. */
  ghost predicate Told(s: Session, r: Stored, lost: bool) {
    if Reached(s, r) then r in s.first ==> (r in s.joined <==> !lost) else !lost
  }

  lemma ToldStep(s: Session, e: Event, chat: bytes, limit: nat, r: Stored, lost: bool)
    requires Inv(s, chat) && limit > 0 && Told(s, r, lost)
    ensures Told(Step(s, e, chat, limit), r, lost || LostBy(s, e, chat, limit, r))
  {
    var s' := Step(s, e, chat, limit);
    if Reached(s, r) {
      StepKeepsReached(s, e, chat, limit, r);
    } else if Reached(s', r) && r in s'.first {
      TurnCovers(s, chat, limit, r);
    }
  }

  lemma {:induction false} SessionTells(db: Db, es: seq<Event>, n: nat, chat: bytes, limit: nat, r: Stored)
    requires ValidDb(db) && limit > 0 && n <= |es|
    ensures Told(At(db, es, n, chat, limit), r, Lost(db, es, n, chat, limit, r))
  {
    hide Inv, Step, LostBy;
    if n == 0 {
    } else {
      SessionTells(db, es, n - 1, chat, limit, r);
      SessionInv(db, es, n - 1, chat, limit);
      ToldStep(At(db, es, n - 1, chat, limit), es[n - 1], chat, limit, r, Lost(db, es, n - 1, chat, limit, r));
    }
  }

  lemma DeliveredIfFound(db: Db, es: seq<Event>, n: nat, chat: bytes, limit: nat, r: Stored)
    requires ValidDb(db) && limit > 0 && n <= |es|
    requires r in At(db, es, n, chat, limit).first && Reached(At(db, es, n, chat, limit), r)
    ensures r in At(db, es, n, chat, limit).joined <==> !Lost(db, es, n, chat, limit, r)
  {
    SessionTells(db, es, n, chat, limit, r);
  }

  // ----- Growing `seq` -----

  /** What a later table holds at or below an earlier high-water mark was already there then. */
  ghost predicate Descends(was: Db, now: Db) {
    was.last <= now.last && forall r :: r in now.rows && r.id <= was.last ==> r in was.rows
  }

  function Change(db: Db, e: Event): Db {
    match e
    case Recorded(m) => Record(db, m)
    case Deleted(id) => DeleteRow(db, id)
    case ChatDeleted(c) => DeleteChat(db, c)
    case Read => db
  }

  function TableAt(db: Db, es: seq<Event>, n: nat): Db
    requires n <= |es|
  {
    if n == 0 then db else Change(TableAt(db, es, n - 1), es[n - 1])
  }

  lemma ChangeDescends(was: Db, db: Db, e: Event)
    requires Descends(was, db)
    ensures Descends(was, Change(db, e))
  {
  }

  /** Numbers once given stay given: deleting a row does not free its `seq` for another. */
  lemma {:induction false} SeqNeverReused(db: Db, es: seq<Event>, i: nat, n: nat)
    requires i <= n <= |es|
    ensures Descends(TableAt(db, es, i), TableAt(db, es, n))
    decreases n
  {
    if i == n {
    } else {
      SeqNeverReused(db, es, i, n - 1);
      ChangeDescends(TableAt(db, es, i), TableAt(db, es, n - 1), es[n - 1]);
    }
  }

  // ----- The life of a row -----

  /** The event deletes this row. */
  predicate Drops(e: Event, r: Stored) { e == Deleted(r.id) || e == ChatDeleted(r.message.chat) }

  /** Recording in a table whose largest number is `last` creates this row. */
  predicate Creates(e: Event, last: nat, r: Stored) {
    e == Recorded(r.message) && last < I64_MAX && r.id == last + 1
  }

  /** One event: a row is there afterwards exactly if it was and is not deleted, or was just recorded. */
  lemma ChangeExact(db: Db, e: Event, r: Stored)
    ensures r in Change(db, e).rows <==> (r in db.rows && !Drops(e, r)) || Creates(e, db.last, r)
  {
  }

  lemma {:induction false} TableStaysValid(db: Db, es: seq<Event>, n: nat)
    requires ValidDb(db) && n <= |es|
    ensures ValidDb(TableAt(db, es, n))
  {
    if n == 0 {
    } else {
      TableStaysValid(db, es, n - 1);
      var t := TableAt(db, es, n - 1);
      match es[n - 1]
      case Recorded(_) =>
      case Deleted(id) => KeepAscends(t.rows, (r: Stored) => r.id != id);
      case ChatDeleted(c) => KeepAscends(t.rows, (r: Stored) => r.message.chat != c);
      case Read =>
    }
  }

  ghost predicate DroppedBetween(es: seq<Event>, i: nat, n: nat, r: Stored)
    requires n <= |es|
  {
    exists k :: i <= k < n && Drops(es[k], r)
  }

  ghost predicate CreatedAt(db: Db, es: seq<Event>, i: nat, r: Stored)
    requires i < |es|
  {
    Creates(es[i], TableAt(db, es, i).last, r)
  }

  /** There from the start and never deleted, or recorded by some event and not deleted since. */
  ghost predicate Survives(db: Db, es: seq<Event>, n: nat, r: Stored)
    requires n <= |es|
  {
    || (r in db.rows && !DroppedBetween(es, 0, n, r))
    || (exists i: nat :: i < n && CreatedAt(db, es, i, r) && !DroppedBetween(es, i + 1, n, r))
  }

  lemma DroppedStep(es: seq<Event>, i: nat, n: nat, r: Stored)
    requires i <= n < |es|
    ensures DroppedBetween(es, i, n + 1, r) <==> DroppedBetween(es, i, n, r) || Drops(es[n], r)
  {
    if Drops(es[n], r) {
      assert i <= n < n + 1 && Drops(es[n], r);
    }
  }

  lemma SurvivesStep(db: Db, es: seq<Event>, n: nat, r: Stored)
    requires n < |es|
    ensures Survives(db, es, n + 1, r) <==> (Survives(db, es, n, r) && !Drops(es[n], r)) || CreatedAt(db, es, n, r)
  {
    hide Drops, TableAt, CreatedAt, DroppedBetween;
    DroppedStep(es, 0, n, r);
    NothingBetween(es, n + 1, r);
    if exists i: nat :: i < n + 1 && CreatedAt(db, es, i, r) && !DroppedBetween(es, i + 1, n + 1, r) {
      var i: nat :| i < n + 1 && CreatedAt(db, es, i, r) && !DroppedBetween(es, i + 1, n + 1, r);
      if i < n { DroppedStep(es, i + 1, n, r); }
    }
    if exists i: nat :: i < n && CreatedAt(db, es, i, r) && !DroppedBetween(es, i + 1, n, r) {
      var i: nat :| i < n && CreatedAt(db, es, i, r) && !DroppedBetween(es, i + 1, n, r);
      DroppedStep(es, i + 1, n, r);
    }
  }

  lemma NothingBetween(es: seq<Event>, n: nat, r: Stored)
    requires n <= |es|
    ensures !DroppedBetween(es, n, n, r)
  {
  }

  /** The table at any time holds exactly the rows recorded and not deleted since. */
  lemma {:induction false} RowLife(db: Db, es: seq<Event>, n: nat, r: Stored)
    requires n <= |es|
    ensures r in TableAt(db, es, n).rows <==> Survives(db, es, n, r)
  {
    hide Change, Drops, Creates;
    if n == 0 {
      NothingBetween(es, 0, r);
    } else {
      RowLife(db, es, n - 1, r);
      ChangeExact(TableAt(db, es, n - 1), es[n - 1], r);
      SurvivesStep(db, es, n - 1, r);
    }
  }

  function Records(es: seq<Event>, n: nat): nat
    requires n <= |es|
  {
    if n == 0 then 0 else Records(es, n - 1) + if es[n - 1].Recorded? then 1 else 0
  }

  /** Records are numbered one after the other until the numbers run out. */
  lemma {:induction false} SeqCountsRecords(db: Db, es: seq<Event>, n: nat)
    requires n <= |es| && db.last <= I64_MAX
    ensures TableAt(db, es, n).last ==
            if db.last + Records(es, n) < I64_MAX then db.last + Records(es, n) else I64_MAX
  {
    if n == 0 {
    } else {
      SeqCountsRecords(db, es, n - 1);
    }
  }

  lemma {:induction false} AllRecords(es: seq<Event>, n: nat)
    requires n <= |es| && forall i :: 0 <= i < |es| ==> es[i].Recorded?
    ensures Records(es, n) == n
  {
    if n == 0 {
    } else {
      AllRecords(es, n - 1);
    }
  }

  // ----- A row no call can read -----

  ghost predicate Hidden(rows: seq<Stored>, r: Stored) {
    forall before, limit :: BoundOf(before) <= I64_MAX ==> r !in Page(rows, r.message.chat, BoundOf(before), limit)
  }

  const EMPTY := Db([], 0)

  /** The last number a store can give goes to a message that stays unreadable. */
  lemma LastRecordIsHidden(db: Db, m: Message)
    requires ValidDb(db) && db.last == I64_MAX - 1
    ensures var rows := Record(db, m).rows;
            ValidDb(Record(db, m)) && Stored(I64_MAX, m) in rows && Hidden(rows, Stored(I64_MAX, m))
  {
    LastSeqIsInvisible(Record(db, m).rows, Stored(I64_MAX, m));
  }

  /** Recording alone gets there: the newest of 2^63 - 1 messages is in the table and on no page. */
  lemma NewestCanBeHidden(m: Message)
    ensures exists es, r ::
              var db := TableAt(EMPTY, es, |es|);
              ValidDb(db) && r in db.rows && r == Stored(db.last, m) && Hidden(db.rows, r)
  {
    var es := seq(I64_MAX, i => Recorded(m));
    TableStaysValid(EMPTY, es, I64_MAX - 1);
    SeqCountsRecords(EMPTY, es, I64_MAX - 1);
    AllRecords(es, I64_MAX - 1);
    LastRecordIsHidden(TableAt(EMPTY, es, I64_MAX - 1), m);
    var db := TableAt(EMPTY, es, |es|);
    assert db == Record(TableAt(EMPTY, es, I64_MAX - 1), m);
    assert ValidDb(db) && Stored(db.last, m) in db.rows && Hidden(db.rows, Stored(db.last, m));
  }

  /** Reading never disturbs the table. */
  lemma {:induction false} ReadersOnlyRead(db: Db, es: seq<Event>, n: nat, chat: bytes, limit: nat)
    requires n <= |es|
    ensures At(db, es, n, chat, limit).db == TableAt(db, es, n)
  {
    if n == 0 {
    } else {
      ReadersOnlyRead(db, es, n - 1, chat, limit);
    }
  }

  // ----- Paging and deletion -----

  ghost predicate FirstReadAt(es: seq<Event>, f: nat) {
    f < |es| && es[f].Read? && forall i :: 0 <= i < f ==> !es[i].Read?
  }

  lemma {:induction false} NothingReadYet(db: Db, es: seq<Event>, f: nat, n: nat, chat: bytes, limit: nat)
    requires FirstReadAt(es, f) && n <= f
    ensures var s := At(db, es, n, chat, limit); s.turns == 0 && !s.done && s.before == None
  {
    if n == 0 {
    } else {
      NothingReadYet(db, es, f, n - 1, chat, limit);
    }
  }

  /** The chat a session goes through is the one at its first read. */
  lemma {:induction false} FirstIsFixed(db: Db, es: seq<Event>, f: nat, n: nat, chat: bytes, limit: nat)
    requires FirstReadAt(es, f) && f < n <= |es|
    ensures var s := At(db, es, n, chat, limit);
            s.turns > 0 && s.first == Below(TableAt(db, es, f).rows, chat, I64_MAX)
    decreases n
  {
    hide Page, Below, Change;
    if n == f + 1 {
      NothingReadYet(db, es, f, f, chat, limit);
      ReadersOnlyRead(db, es, f, chat, limit);
    } else {
      FirstIsFixed(db, es, f, n - 1, chat, limit);
    }
  }

  /** A row stays exactly until an event deletes it. */
  lemma {:induction false} StaysUntilDropped(db: Db, es: seq<Event>, f: nat, n: nat, r: Stored)
    requires ValidDb(db) && f <= n <= |es| && r in TableAt(db, es, f).rows
    ensures r in TableAt(db, es, n).rows <==> !DroppedBetween(es, f, n, r)
    decreases n
  {
    hide Change, Drops, DroppedBetween, ValidDb;
    if n == f {
      NothingBetween(es, f, r);
    } else {
      StaysUntilDropped(db, es, f, n - 1, r);
      ChangeExact(TableAt(db, es, n - 1), es[n - 1], r);
      DroppedStep(es, f, n - 1, r);
      NotRenumbered(db, es, f, n - 1, r);
    }
  }

  lemma NotRenumbered(db: Db, es: seq<Event>, f: nat, n: nat, r: Stored)
    requires ValidDb(db) && f <= n <= |es| && r in TableAt(db, es, f).rows
    ensures r.id <= TableAt(db, es, n).last
  {
    TableStaysValid(db, es, f);
    SeqNeverReused(db, es, f, n);
  }

  /** Event `i` is the read that takes the reader past this row. */
  ghost predicate ReachedBy(db: Db, es: seq<Event>, i: nat, chat: bytes, limit: nat, r: Stored)
    requires i < |es|
  {
    var s := At(db, es, i, chat, limit);
    es[i].Read? && !Reached(s, r) && Reached(Turn(s, chat, limit), r)
  }

  /** The row was deleted after the first read and before the read that would have delivered it. */
  ghost predicate DeletedFirst(db: Db, es: seq<Event>, f: nat, n: nat, chat: bytes, limit: nat, r: Stored)
    requires n <= |es|
  {
    exists i: nat :: f <= i < n && ReachedBy(db, es, i, chat, limit, r) && DroppedBetween(es, f, i, r)
  }

  lemma LostIsDeleted(db: Db, es: seq<Event>, f: nat, i: nat, chat: bytes, limit: nat, r: Stored)
    requires ValidDb(db) && FirstReadAt(es, f) && f <= i < |es| && r in TableAt(db, es, f).rows
    ensures LostAt(db, es, i, chat, limit, r) <==>
            ReachedBy(db, es, i, chat, limit, r) && DroppedBetween(es, f, i, r)
  {
    hide Reached, Turn, DroppedBetween;
    ReadersOnlyRead(db, es, i, chat, limit);
    StaysUntilDropped(db, es, f, i, r);
  }

  lemma {:induction false} LostMeans(db: Db, es: seq<Event>, f: nat, n: nat, chat: bytes, limit: nat, r: Stored)
    requires ValidDb(db) && FirstReadAt(es, f) && n <= |es| && r in TableAt(db, es, f).rows
    ensures Lost(db, es, n, chat, limit, r) <==> DeletedFirst(db, es, f, n, chat, limit, r)
  {
    hide LostAt, ReachedBy, DroppedBetween, At;
    if n == 0 {
    } else {
      LostMeans(db, es, f, n - 1, chat, limit, r);
      if n - 1 < f {
        NotLostYet(db, es, f, n - 1, chat, limit, r);
      } else {
        LostIsDeleted(db, es, f, n - 1, chat, limit, r);
      }
    }
  }

  lemma NotLostYet(db: Db, es: seq<Event>, f: nat, i: nat, chat: bytes, limit: nat, r: Stored)
    requires FirstReadAt(es, f) && i < f
    ensures !LostAt(db, es, i, chat, limit, r)
  {
  }

  /** Every message of the chat at the first read that paging has passed was delivered, unless an event
      deleted it before the reader got to it; and then it was not. */
  lemma CoverageExact(db: Db, es: seq<Event>, f: nat, n: nat, chat: bytes, limit: nat, r: Stored)
    requires ValidDb(db) && limit > 0 && FirstReadAt(es, f) && f < n <= |es|
    requires r in TableAt(db, es, f).rows && Wanted(r, chat, I64_MAX) && Reached(At(db, es, n, chat, limit), r)
    ensures r in At(db, es, n, chat, limit).joined <==> !DeletedFirst(db, es, f, n, chat, limit, r)
  {
    hide At, TableAt, Lost, DeletedFirst, Reached;
    FirstIsFixed(db, es, f, n, chat, limit);
    DeliveredIfFound(db, es, n, chat, limit, r);
    LostMeans(db, es, f, n, chat, limit, r);
  }
}
