/** The authoring side: a draft grows one accepted entry at a time and never becomes unpublishable. */
module Drafts {
  import opened Bytes
  import opened Ed25519
  import opened AccountLogs

  predicate Readable(e: AccountEntry) { !e.Unknown? && (e.Add? ==> !e.data.UnknownData?) }

  predicate AllReadable(es: Log) { forall i :: 0 <= i < |es| ==> Readable(es[i]) }

  function FirstUnreadable(es: Log, i: nat): (p: nat)
    requires i <= |es|
    ensures i <= p <= |es|
    ensures forall k :: i <= k < p ==> Readable(es[k])
    ensures p < |es| ==> !Readable(es[p])
    decreases |es| - i
  {
    if i == |es| || !Readable(es[i]) then i else FirstUnreadable(es, i + 1)
  }

  /** A draft on an existing log: refused, naming the first unreadable entry, unless all are readable. */
  function DraftOf(es: Log): (r: Result<Log, LogError>)
    ensures r == Ok(es) <==> AllReadable(es)
    ensures r.Err? ==> r.error.UnreadableLog? && r.error.position < |es| && !Readable(es[r.error.position])
    ensures r.Err? ==> forall k :: 0 <= k < r.error.position ==> Readable(es[k])
  {
    var p := FirstUnreadable(es, 0);
    if p < |es| then Err(UnreadableLog(p)) else Ok(es)
  }

  // ----- No key live twice -----

  predicate KeyAt(es: Log, i: int, key: Key) {
    0 <= i < |es| && es[i].Add? && es[i].data == Ed25519Key(key)
  }

  ghost predicate SingleUse(es: Log) {
    forall i, j, key :: Live(es, i) && Live(es, j) && KeyAt(es, i, key) && KeyAt(es, j, key) ==> i == j
  }

  function KeysSeen(xs: seq<Indexed>): set<Key> {
    set x | x in xs && x.entry.Add? && x.entry.data.Ed25519Key? :: x.entry.data.key
  }

  /** The scan over the live entries with its growing set of seen keys. */
  function SingleUseScan(xs: seq<Indexed>, n: nat): Result<(), LogError>
    requires n <= |xs|
  {
    if n == 0 then Ok(()) else
    var _ :- SingleUseScan(xs, n - 1);
    match xs[n - 1].entry
    case Add(_, Ed25519Key(key)) =>
      if key in KeysSeen(xs[..n - 1]) then Err(LiveTwice(xs[n - 1].index)) else Ok(())
    case _ => Ok(())
  }

  function EnsureSingleUse(es: Log): Result<(), LogError>
    requires ValidRemoves(es)
  {
    SingleUseScan(LiveIndexed(es), |LiveIndexed(es)|)
  }

  lemma {:induction false} ScanErrorSticks(xs: seq<Indexed>, m: nat, n: nat)
    requires m <= n <= |xs| && SingleUseScan(xs, m).Err?
    ensures SingleUseScan(xs, n) == SingleUseScan(xs, m)
  {
    if m == n {
    } else {
      ScanErrorSticks(xs, m, n - 1);
    }
  }

  method EnsureSingleUseKeys(es: Log) returns (r: Result<(), LogError>)
    requires ValidRemoves(es)
    ensures r == EnsureSingleUse(es)
  {
    hide LiveIndexed;
    var xs := LiveIndexed(es);
    var seen: set<Key> := {};
    for i := 0 to |xs|
      invariant SingleUseScan(xs, i) == Ok(())
      invariant seen == KeysSeen(xs[..i])
    {
      assert xs[..i + 1] == xs[..i] + [xs[i]];
      match xs[i].entry {
        case Add(_, Ed25519Key(key)) =>
          if key in seen {
            ScanErrorSticks(xs, i + 1, |xs|);
            return Err(LiveTwice(xs[i].index));
          }
          seen := seen + {key};
        case _ =>
      }
    }
    r := Ok(());
  }

  lemma {:induction false} SingleUseScanExact(xs: seq<Indexed>, n: nat)
    requires n <= |xs|
    ensures SingleUseScan(xs, n).Ok? <==>
            forall a, b :: 0 <= a < b < n ==> !SameKey(xs[a], xs[b])
  {
    if n == 0 {
    } else {
      SingleUseScanExact(xs, n - 1);
      assert forall a :: 0 <= a < n - 1 ==> xs[a] == xs[..n - 1][a];
    }
  }

  ghost predicate SameKey(x: Indexed, y: Indexed) {
    x.entry.Add? && y.entry.Add? && x.entry.data.Ed25519Key? && x.entry.data == y.entry.data
  }

  lemma DoubledEntryIsDoubledKey(es: Log, xs: seq<Indexed>, a: nat, b: nat)
    requires ValidRemoves(es) && xs == LiveIndexed(es) && a < b < |xs| && SameKey(xs[a], xs[b])
    ensures !SingleUse(es)
  {
    LiveIndexedExact(es);
    assert xs[a] in xs && xs[b] in xs;
    var i, j, key := xs[a].index, xs[b].index, xs[a].entry.data.key;
    assert Live(es, i) && Live(es, j) && KeyAt(es, i, key) && KeyAt(es, j, key) && i < j;
  }

  lemma DoubledKeyIsDoubledEntry(es: Log, xs: seq<Indexed>, i: nat, j: nat, key: Key)
    requires ValidRemoves(es) && xs == LiveIndexed(es) && i < j
    requires Live(es, i) && Live(es, j) && KeyAt(es, i, key) && KeyAt(es, j, key)
    ensures exists a, b :: 0 <= a < b < |xs| && SameKey(xs[a], xs[b])
  {
    LiveIndexedExact(es);
    assert Indexed(i, es[i]) in xs && Indexed(j, es[j]) in xs;
    var a :| 0 <= a < |xs| && xs[a] == Indexed(i, es[i]);
    var b :| 0 <= b < |xs| && xs[b] == Indexed(j, es[j]);
    assert a < b && SameKey(xs[a], xs[b]);
  }

  /** The key of live entry `b` was met before, and none before `b` was. */
  ghost predicate FirstRepeat(xs: seq<Indexed>, b: nat) {
    && b < |xs|
    && (exists a :: 0 <= a < b && SameKey(xs[a], xs[b]))
    && (forall i, j :: 0 <= i < j < b ==> !SameKey(xs[i], xs[j]))
  }

  lemma {:induction false} ScanNamesFirstRepeat(xs: seq<Indexed>, n: nat) returns (b: nat)
    requires n <= |xs| && SingleUseScan(xs, n).Err?
    ensures FirstRepeat(xs, b) && SingleUseScan(xs, n) == Err(LiveTwice(xs[b].index))
  {
    hide KeysSeen, SameKey;
    if SingleUseScan(xs, n - 1).Err? {
      b := ScanNamesFirstRepeat(xs, n - 1);
    } else {
      b := n - 1;
      SingleUseScanExact(xs, n - 1);
      MetBefore(xs, b);
    }
  }

  lemma MetBefore(xs: seq<Indexed>, b: nat)
    requires b < |xs| && xs[b].entry.Add? && xs[b].entry.data.Ed25519Key?
    requires xs[b].entry.data.key in KeysSeen(xs[..b])
    ensures exists a :: 0 <= a < b && SameKey(xs[a], xs[b])
  {
    var x :| x in xs[..b] && x.entry.Add? && x.entry.data.Ed25519Key? && x.entry.data.key == xs[b].entry.data.key;
    var a :| 0 <= a < b && xs[..b][a] == x;
    assert SameKey(xs[a], xs[b]);
  }

  /** Position `p` holds a live key that is also live at an earlier position. */
  ghost predicate DoubledAt(es: Log, p: int) {
    Live(es, p) && exists q, key :: q < p && Live(es, q) && KeyAt(es, q, key) && KeyAt(es, p, key)
  }

  lemma RepeatIsDoubled(es: Log, xs: seq<Indexed>, b: nat)
    requires ValidRemoves(es) && xs == LiveIndexed(es) && FirstRepeat(xs, b)
    ensures DoubledAt(es, xs[b].index) && forall p :: p < xs[b].index ==> !DoubledAt(es, p)
  {
    hide Live, LiveIndexed, ValidRemoves;
    LiveIndexedExact(es);
    var a :| 0 <= a < b && SameKey(xs[a], xs[b]);
    var key := xs[b].entry.data.key;
    assert xs[a] in xs && xs[b] in xs;
    LiveInRange(es, xs[a].index);
    LiveInRange(es, xs[b].index);
    assert KeyAt(es, xs[a].index, key) && KeyAt(es, xs[b].index, key);
    forall p | p < xs[b].index ensures !DoubledAt(es, p) {
      if DoubledAt(es, p) {
        var i, j := DoubledIsRepeat(es, xs, p);
      }
    }
  }

  lemma LiveInRange(es: Log, i: int)
    ensures Live(es, i) ==> 0 <= i < |es|
  {
  }

  lemma DoubledIsRepeat(es: Log, xs: seq<Indexed>, p: int) returns (i: nat, j: nat)
    requires ValidRemoves(es) && xs == LiveIndexed(es) && DoubledAt(es, p)
    ensures i < j < |xs| && xs[j].index == p && SameKey(xs[i], xs[j])
    ensures forall b :: 0 <= b < |xs| && p < xs[b].index ==> j < b
  {
    hide Live, LiveIndexed, ValidRemoves;
    LiveIndexedExact(es);
    var q, k :| q < p && Live(es, q) && KeyAt(es, q, k) && KeyAt(es, p, k);
    assert Indexed(q, es[q]) in xs && Indexed(p, es[p]) in xs;
    i :| 0 <= i < |xs| && xs[i] == Indexed(q, es[q]);
    j :| 0 <= j < |xs| && xs[j] == Indexed(p, es[p]);
  }

  /** A failing scan names the first position whose live key was already live. */
  lemma SingleUseBlames(es: Log)
    requires ValidRemoves(es) && EnsureSingleUse(es).Err?
    ensures exists p: nat ::
              && EnsureSingleUse(es) == Err(LiveTwice(p))
              && DoubledAt(es, p) && forall q :: q < p ==> !DoubledAt(es, q)
  {
    hide DoubledAt, LiveIndexed;
    var xs := LiveIndexed(es);
    var b := ScanNamesFirstRepeat(xs, |xs|);
    RepeatIsDoubled(es, xs, b);
  }

  lemma SingleUseExact(es: Log)
    requires ValidRemoves(es)
    ensures EnsureSingleUse(es).Ok? <==> SingleUse(es)
  {
    var xs := LiveIndexed(es);
    SingleUseScanExact(xs, |xs|);
    if !EnsureSingleUse(es).Ok? {
      var a, b :| 0 <= a < b < |xs| && SameKey(xs[a], xs[b]);
      DoubledEntryIsDoubledKey(es, xs, a, b);
    }
    if !SingleUse(es) {
      var i, j, key :| Live(es, i) && Live(es, j) && KeyAt(es, i, key) && KeyAt(es, j, key) && i != j;
      DoubledKeyIsDoubledEntry(es, xs, if i < j then i else j, if i < j then j else i, key);
    }
  }

  // ----- Pushing -----

  function Push(scheme: Scheme, es: Log, e: AccountEntry): Result<Log, LogError> {
    if !Readable(e) then Err(UnreadableEntry) else
    var log :- FromEntries(scheme, es + [e]);
    FromEntriesExact(scheme, es + [e]);
    var _ :- EnsureSingleUse(log);
    Ok(log)
  }

  /** What every draft is: valid and readable throughout. */
  ghost predicate Publishable(scheme: Scheme, es: Log) { ValidLog(scheme, es) && AllReadable(es) }

  /** A push is accepted exactly for a readable entry that leaves a valid log without doubled keys, and
      otherwise says which of the three failed first. */
  lemma PushExact(scheme: Scheme, es: Log, e: AccountEntry)
    ensures Push(scheme, es, e) == Ok(es + [e]) <==>
            Readable(e) && ValidLog(scheme, es + [e]) && SingleUse(es + [e])
    ensures Push(scheme, es, e).Ok? ==> Push(scheme, es, e).value == es + [e]
    ensures !Readable(e) ==> Push(scheme, es, e) == Err(UnreadableEntry)
    ensures Readable(e) && !ValidLog(scheme, es + [e]) ==>
              FromEntries(scheme, es + [e]).Err? && Push(scheme, es, e) == Err(FromEntries(scheme, es + [e]).error)
    ensures Readable(e) && ValidLog(scheme, es + [e]) && !SingleUse(es + [e]) ==>
              exists p: nat ::
                && Push(scheme, es, e) == Err(LiveTwice(p))
                && DoubledAt(es + [e], p) && forall q :: q < p ==> !DoubledAt(es + [e], q)
  {
    hide DoubledAt, SingleUse, EnsureSingleUse;
    var fs := es + [e];
    FromEntriesExact(scheme, fs);
    if ValidLog(scheme, fs) {
      SingleUseExact(fs);
      if EnsureSingleUse(fs).Err? {
        SingleUseBlames(fs);
      }
    }
  }

  lemma PushKeeps(scheme: Scheme, es: Log, e: AccountEntry)
    requires AllReadable(es) && Push(scheme, es, e).Ok?
    ensures Push(scheme, es, e).value == es + [e]
    ensures Publishable(scheme, es + [e]) && SingleUse(es + [e])
  {
    FromEntriesExact(scheme, es + [e]);
    SingleUseExact(es + [e]);
  }

  class AccountLogDraft {
    const scheme: Scheme
    var log: Log

    ghost predicate Valid()
      reads this
    {
      Publishable(scheme, log)
    }

    constructor (scheme: Scheme, start: Log)
      requires Publishable(scheme, start)
      ensures Valid() && log == start && this.scheme == scheme
    {
      this.scheme := scheme;
      this.log := start;
    }

    /** Appends an acceptable entry; on refusal the draft is untouched. */
    method PushEntry(e: AccountEntry) returns (r: Result<(), LogError>)
      requires Valid()
      modifies this
      ensures Valid()
      ensures r.Ok? <==> Push(scheme, old(log), e).Ok?
      ensures r.Ok? ==> log == old(log) + [e] && SingleUse(log)
      ensures r.Err? ==> log == old(log) && r.error == Push(scheme, log, e).error
    {
      if !Readable(e) {
        return Err(UnreadableEntry);
      }
      var entries := log + [e];
      FromEntriesExact(scheme, entries);
      var built := FromEntries(scheme, entries);
      if built.Err? {
        return Err(built.error);
      }
      var single := EnsureSingleUseKeys(built.value);
      if single.Err? {
        return Err(single.error);
      }
      PushKeeps(scheme, log, e);
      log := built.value;
      r := Ok(());
    }
  }

  // ----- Runs of pushes -----

  /** Offer each entry in turn; the log reached and the entries that were accepted. */
  function RunPushes(scheme: Scheme, es: Log, offered: seq<AccountEntry>): (Log, seq<AccountEntry>)
    decreases |offered|
  {
    if |offered| == 0 then (es, []) else
    match Push(scheme, es, offered[0])
    case Err(_) => RunPushes(scheme, es, offered[1..])
    case Ok(next) =>
      var (log, accepted) := RunPushes(scheme, next, offered[1..]);
      (log, [offered[0]] + accepted)
  }

  /** A draft is its start plus the accepted entries; one accepted push clears any doubled key. */
  lemma {:induction false} DraftRun(scheme: Scheme, es: Log, offered: seq<AccountEntry>)
    requires Publishable(scheme, es)
    ensures var (log, accepted) := RunPushes(scheme, es, offered);
            && log == es + accepted && Publishable(scheme, log)
            && (SingleUse(es) || |accepted| > 0 ==> SingleUse(log))
    decreases |offered|
  {
    if |offered| == 0 {
      assert es + [] == es;
    } else if Push(scheme, es, offered[0]).Ok? {
      PushKeeps(scheme, es, offered[0]);
      DraftRun(scheme, es + [offered[0]], offered[1..]);
      var accepted := RunPushes(scheme, es + [offered[0]], offered[1..]).1;
      assert (es + [offered[0]]) + accepted == es + ([offered[0]] + accepted);
    } else {
      DraftRun(scheme, es, offered[1..]);
    }
  }

  // ----- The whole-log check is a local one -----

  /** What one has to look at when the log so far is already sound. */
  ghost predicate LocallyFine(scheme: Scheme, es: Log, e: AccountEntry) {
    && Readable(e)
    && (e.Remove? ==> Live(es, e.index))
    && (e.Add? && e.data.Ed25519Key? ==>
          Usable(scheme, e.data.key) && forall i :: Live(es, i) ==> !KeyAt(es, i, e.data.key))
  }

  lemma AppendedLiveness(es: Log, e: AccountEntry, i: int)
    requires ValidRemoves(es + [e])
    ensures Live(es + [e], i) <==>
            if i == |es| then !e.Remove? else Live(es, i) && !(e.Remove? && e.index == i)
  {
    var fs := es + [e];
    assert 0 <= i < |es| ==> fs[i] == es[i];
    assert forall j :: 0 <= j < |fs| ==> fs[j] == if j < |es| then es[j] else e;
    if Removed(es, i) {
      var j :| 0 <= j < |es| && es[j].Remove? && es[j].index == i;
      assert fs[j] == es[j];
    }
    assert e.Remove? && e.index == i ==> fs[|es|].Remove? && fs[|es|].index == i;
  }

  lemma AppendedRemoves(es: Log, e: AccountEntry)
    requires ValidRemoves(es)
    ensures ValidRemoves(es + [e]) <==> (e.Remove? ==> Live(es, e.index))
  {
    var fs := es + [e];
    assert forall j :: 0 <= j < |fs| ==> fs[j] == if j < |es| then es[j] else e;
    if e.Remove? {
      assert fs[|es|] == e;
      if Live(es, e.index) {
        forall j | 0 <= j < |es| && es[j].Remove? ensures es[j].index != e.index {
        }
      }
    }
  }

  /** On a log with no doubled key, revalidating the whole log accepts exactly what the local check does. */
  lemma PushIsLocal(scheme: Scheme, es: Log, e: AccountEntry)
    requires Publishable(scheme, es) && SingleUse(es)
    ensures Push(scheme, es, e).Ok? <==> LocallyFine(scheme, es, e)
  {
    var fs := es + [e];
    assert forall j :: 0 <= j < |fs| ==> fs[j] == if j < |es| then es[j] else e;
    AppendedRemoves(es, e);
    FromEntriesExact(scheme, fs);
    if ValidLog(scheme, fs) {
      SingleUseExact(fs);
      SingleUseGrows(es, e);
    } else {
      assert fs[|es|] == e;
    }
  }

  lemma SingleUseGrows(es: Log, e: AccountEntry)
    requires ValidRemoves(es + [e]) && SingleUse(es)
    ensures SingleUse(es + [e]) <==>
            (e.Add? && e.data.Ed25519Key? ==> forall i :: Live(es, i) ==> !KeyAt(es, i, e.data.key))
  {
    var fs := es + [e];
    forall i ensures Live(fs, i) <==>
                     if i == |es| then !e.Remove? else Live(es, i) && !(e.Remove? && e.index == i) {
      AppendedLiveness(es, e, i);
    }
    assert forall i, key :: KeyAt(fs, i, key) <==>
                            if i == |es| then e.Add? && e.data == Ed25519Key(key) else KeyAt(es, i, key);
    if e.Add? && e.data.Ed25519Key? && SingleUse(fs) {
      forall i | Live(es, i) ensures !KeyAt(es, i, e.data.key) {
        assert Live(fs, i) && Live(fs, |es|) && KeyAt(fs, |es|, e.data.key);
      }
    }
  }
}
