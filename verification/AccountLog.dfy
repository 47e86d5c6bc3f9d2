/** The account log as validated entries: tombstones, live entries, and keys by context. */
module AccountLogs {
  import opened Bytes
  import opened Contexts
  import opened Ed25519

  type Utf8 = t: bytes | IsUtf8(t) witness []

  datatype EntryData =
    | Ed25519Key(key: Key)
    | Text(text: Utf8)
    | UnknownData(tag: byte, raw: bytes)

  datatype AccountEntry =
    | Add(context: Context, data: EntryData)
    | Remove(index: u32)
    | Unknown(opcode: byte, body: bytes)

  type Log = seq<AccountEntry>

  datatype RemoveFault = NotEarlier | AlreadyRemoved | TargetIsRemove

  /** Failures of the log. The constructors up to `LiveTwice` are the source's `Malformed`, by detail. */
  datatype LogError =
    | BadRemove(position: nat, index: u32, fault: RemoveFault)
    | BadKey(key: KeyFault)
    | Truncated
    | ReservedOpcode(opcode: byte)
    | RemoveLength(len: nat)
    | EmptyAdd
    | ZeroContextLength
    | NoDataTag
    | KeyLength(len: nat)
    | TextNotUtf8
    | MissingDomain
    | ArtifactTooShort
    | UnreadableLog(position: nat)
    | UnreadableEntry
    | LiveTwice(position: nat)
    | InvalidContext(context: ContextFault)
    | TooLarge
    | Version(segment: bytes)
    | SignatureInvalid

  // ----- Tombstones, declaratively -----

  /** Removes below `n` map injectively to strictly earlier entries that are not removes. */
  ghost predicate RemovesValid(es: Log, n: nat)
    requires n <= |es|
  {
    && (forall j :: 0 <= j < n && es[j].Remove? ==> es[j].index < j && !es[es[j].index].Remove?)
    && (forall j, k :: 0 <= j < k < n && es[j].Remove? && es[k].Remove? ==> es[j].index != es[k].index)
  }

  ghost predicate RemovedBelow(es: Log, n: nat, i: int)
    requires n <= |es|
  {
    exists j :: 0 <= j < n && es[j].Remove? && es[j].index == i
  }

  ghost predicate ValidRemoves(es: Log) { RemovesValid(es, |es|) }
  ghost predicate Removed(es: Log, i: int) { RemovedBelow(es, |es|, i) }

  ghost predicate Live(es: Log, i: int) {
    0 <= i < |es| && !es[i].Remove? && !Removed(es, i)
  }

  ghost predicate LivesBelow(es: Log, n: nat, i: int)
    requires n <= |es|
  {
    0 <= i < n && !es[i].Remove? && !RemovedBelow(es, n, i)
  }

  // ----- The one-pass tombstone scan -----

  function FaultOf(es: Log, mask: seq<bool>, position: nat): Option<RemoveFault>
    requires |mask| == |es| && position < |es| && es[position].Remove?
  {
    var target := es[position].index;
    if target >= position then Some(NotEarlier)
    else if mask[target] then Some(AlreadyRemoved)
    else if es[target].Remove? then Some(TargetIsRemove)
    else None
  }

  function ScanTo(es: Log, n: nat): (r: Result<seq<bool>, LogError>)
    requires n <= |es|
    ensures r.Ok? ==> |r.value| == |es|
    ensures r.Err? ==> r.error.BadRemove?
  {
    if n == 0 then Ok(seq(|es|, _ => false)) else
    var mask :- ScanTo(es, n - 1);
    if !es[n - 1].Remove? then Ok(mask) else
    match FaultOf(es, mask, n - 1)
    case Some(fault) => Err(BadRemove(n - 1, es[n - 1].index, fault))
    case None => Ok(mask[es[n - 1].index := true])
  }

  function RemovedMask(es: Log): (r: Result<seq<bool>, LogError>)
    ensures r.Ok? ==> |r.value| == |es|
  {
    ScanTo(es, |es|)
  }

  lemma {:induction false} ScanFailureSticks(es: Log, m: nat, n: nat)
    requires m <= n <= |es| && ScanTo(es, m).Err?
    ensures ScanTo(es, n) == ScanTo(es, m)
  {
    if m == n {
    } else {
      ScanFailureSticks(es, m, n - 1);
    }
  }

  method FilterMaskRemoved(es: Log) returns (r: Result<seq<bool>, LogError>)
    ensures r == RemovedMask(es)
  {
    var removed := new bool[|es|](_ => false);
    assert removed[..] == seq(|es|, _ => false);
    for position := 0 to |es|
      invariant ScanTo(es, position) == Ok(removed[..])
    {
      if es[position].Remove? {
        var target := es[position].index;
        var fault :=
          if target >= position then Some(NotEarlier)
          else if removed[target] then Some(AlreadyRemoved)
          else if es[target].Remove? then Some(TargetIsRemove)
          else None;
        if fault.Some? {
          ScanFailureSticks(es, position + 1, |es|);
          return Err(BadRemove(position, target, fault.value));
        }
        removed[target] := true;
      }
    }
    r := Ok(removed[..]);
  }

  /** After `n` entries the scan stands exactly when the removes so far are valid, and marks them. */
  lemma {:induction false} ScanExact(es: Log, n: nat)
    requires n <= |es|
    ensures ScanTo(es, n).Ok? <==> RemovesValid(es, n)
    ensures ScanTo(es, n).Ok? ==> Marks(es, n, ScanTo(es, n).value)
  {
    hide FaultOf;
    if n == 0 {
    } else {
      ScanExact(es, n - 1);
      if ScanTo(es, n - 1).Ok? {
        ScanStep(es, n - 1, ScanTo(es, n - 1).value);
      }
    }
  }

  ghost predicate Marks(es: Log, n: nat, mask: seq<bool>)
    requires n <= |es|
  {
    |mask| == |es| && forall i :: 0 <= i < |es| ==> (mask[i] <==> RemovedBelow(es, n, i))
  }

  /** One more entry: a sound remove marks its target, any other entry marks nothing. */
  lemma ScanStep(es: Log, k: nat, mask: seq<bool>)
    requires k < |es| && RemovesValid(es, k) && Marks(es, k, mask)
    ensures !es[k].Remove? ==> RemovesValid(es, k + 1) && Marks(es, k + 1, mask)
    ensures es[k].Remove? ==> (FaultOf(es, mask, k) == None <==> RemovesValid(es, k + 1))
    ensures es[k].Remove? && FaultOf(es, mask, k) == None ==> Marks(es, k + 1, mask[es[k].index := true])
  {
    forall i ensures RemovedBelow(es, k + 1, i) <==>
                     RemovedBelow(es, k, i) || (es[k].Remove? && es[k].index == i) {
    }
  }

  /** The scan accepts exactly the valid logs, and its mask is true exactly at tombstoned entries. */
  lemma MaskExact(es: Log)
    ensures RemovedMask(es).Ok? <==> ValidRemoves(es)
    ensures RemovedMask(es).Ok? ==>
              forall i :: 0 <= i < |es| ==>
                (RemovedMask(es).value[i] <==> exists j :: i < j < |es| && es[j].Remove? && es[j].index == i)
  {
    ScanExact(es, |es|);
  }

  /** `error` blames the first bad remove, and for the right reason. */
  ghost predicate BlamesFirstFault(es: Log, error: LogError) {
    && error.BadRemove?
    && var BadRemove(p, target, fault) := error;
       && p < |es| && es[p] == Remove(target) && RemovesValid(es, p) && !RemovesValid(es, p + 1)
       && (fault == NotEarlier <==> target >= p)
       && (fault == AlreadyRemoved <==> target < p && RemovedBelow(es, p, target))
       && (fault == TargetIsRemove <==> target < p && es[target].Remove?)
  }

  lemma {:induction false} RejectionNamesFirstFault(es: Log, n: nat)
    requires n <= |es| && !RemovesValid(es, n)
    ensures ScanTo(es, n).Err? && BlamesFirstFault(es, ScanTo(es, n).error)
  {
    hide BlamesFirstFault, Marks;
    ScanExact(es, n - 1);
    if ScanTo(es, n - 1).Ok? {
      FaultIsRight(es, n - 1, ScanTo(es, n - 1).value);
    } else {
      RejectionNamesFirstFault(es, n - 1);
    }
  }

  lemma FaultIsRight(es: Log, k: nat, mask: seq<bool>)
    requires k < |es| && RemovesValid(es, k) && !RemovesValid(es, k + 1) && Marks(es, k, mask)
    ensures es[k].Remove? && FaultOf(es, mask, k).Some?
    ensures BlamesFirstFault(es, BadRemove(k, es[k].index, FaultOf(es, mask, k).value))
  {
    ScanStep(es, k, mask);
  }

  lemma PrefixesStayValid(es: Log, n: nat)
    requires n <= |es| && ValidRemoves(es)
    ensures ValidRemoves(es[..n])
  {
    var p := es[..n];
    forall j | 0 <= j < n && p[j].Remove? ensures p[j].index < j && !p[p[j].index].Remove? {
      assert p[j] == es[j];
    }
  }

  ghost function LiveSet(es: Log, n: nat): set<int>
    requires n <= |es|
  {
    set i | 0 <= i < n && LivesBelow(es, n, i)
  }

  ghost function RemoveSet(es: Log, n: nat): set<int>
    requires n <= |es|
  {
    set i | 0 <= i < n && es[i].Remove?
  }

  /** Every remove cancels one entry: live entries plus twice the removes make up the log. */
  lemma {:induction false} LiveCount(es: Log, n: nat)
    requires n <= |es| && RemovesValid(es, n)
    ensures |LiveSet(es, n)| + 2 * |RemoveSet(es, n)| == n
  {
    if n == 0 {
    } else {
      LiveCount(es, n - 1);
      if es[n - 1].Remove? {
        RemoveCancelsOne(es, n - 1);
      } else {
        AddLeavesOneMore(es, n - 1);
      }
    }
  }

  lemma RemoveCancelsOne(es: Log, k: nat)
    requires k < |es| && RemovesValid(es, k + 1) && es[k].Remove?
    ensures |RemoveSet(es, k + 1)| == |RemoveSet(es, k)| + 1
    ensures |LiveSet(es, k + 1)| == |LiveSet(es, k)| - 1
  {
    var target: int := es[k].index;
    assert RemoveSet(es, k + 1) == RemoveSet(es, k) + {k};
    assert target in LiveSet(es, k);
    forall i ensures i in LiveSet(es, k + 1) <==> i in LiveSet(es, k) - {target} {
      assert RemovedBelow(es, k + 1, i) <==> RemovedBelow(es, k, i) || i == target;
    }
    assert LiveSet(es, k + 1) == LiveSet(es, k) - {target};
  }

  lemma AddLeavesOneMore(es: Log, k: nat)
    requires k < |es| && RemovesValid(es, k + 1) && !es[k].Remove?
    ensures RemoveSet(es, k + 1) == RemoveSet(es, k)
    ensures |LiveSet(es, k + 1)| == |LiveSet(es, k)| + 1
  {
    forall i ensures i in LiveSet(es, k + 1) <==> i in LiveSet(es, k) + {k} {
      assert RemovedBelow(es, k + 1, i) <==> RemovedBelow(es, k, i);
    }
    assert LiveSet(es, k + 1) == LiveSet(es, k) + {k};
  }

  // ----- Construction -----

  function EnsureValidTypes(scheme: Scheme, es: Log): (r: Result<(), LogError>)
    ensures r.Err? ==> r.error.BadKey?
  {
    if |es| == 0 then Ok(()) else
    match es[0]
    case Add(_, Ed25519Key(key)) =>
      (match FromCanonicalBytes(scheme, key)
       case Err(fault) => Err(BadKey(fault))
       case Ok(_) => EnsureValidTypes(scheme, es[1..]))
    case _ => EnsureValidTypes(scheme, es[1..])
  }

  /** A log the rules refuse is malformed: the failure never reads as one of the signature. */
  function FromEntries(scheme: Scheme, es: Log): (r: Result<Log, LogError>)
    ensures r.Err? ==> r.error.BadRemove? || r.error.BadKey?
  {
    var _ :- RemovedMask(es);
    var _ :- EnsureValidTypes(scheme, es);
    Ok(es)
  }

  predicate EntryTyped(scheme: Scheme, e: AccountEntry) {
    e.Add? && e.data.Ed25519Key? ==> Usable(scheme, e.data.key)
  }

  /** A log the account code will hold: its removes are sound and every key in it is usable. */
  ghost predicate ValidLog(scheme: Scheme, es: Log) {
    ValidRemoves(es) && forall i :: 0 <= i < |es| ==> EntryTyped(scheme, es[i])
  }

  /** What is wrong with the key of an entry, if it has one. */
  function KeyFaultOf(scheme: Scheme, e: AccountEntry): (f: Option<KeyFault>)
    ensures f == None <==> EntryTyped(scheme, e)
  {
    if e.Add? && e.data.Ed25519Key? then
      AdmissionExact(scheme, e.data.key);
      match FromCanonicalBytes(scheme, e.data.key)
      case Err(fault) => Some(fault)
      case Ok(_) => None
    else None
  }

  /** `error` faults entry `i`, the first with an unusable key. */
  ghost predicate BlamesKey(scheme: Scheme, es: Log, i: nat, error: LogError) {
    && i < |es|
    && (forall k :: 0 <= k < i ==> EntryTyped(scheme, es[k]))
    && KeyFaultOf(scheme, es[i]).Some? && error == BadKey(KeyFaultOf(scheme, es[i]).value)
  }

  lemma BlameMoves(scheme: Scheme, es: Log, i: nat, error: LogError)
    requires |es| > 0 && EntryTyped(scheme, es[0]) && BlamesKey(scheme, es[1..], i, error)
    ensures BlamesKey(scheme, es, i + 1, error)
  {
    hide EntryTyped, KeyFaultOf;
    forall k | 0 <= k < i + 1 ensures EntryTyped(scheme, es[k]) {
      assert k == 0 || es[k] == es[1..][k - 1];
    }
  }

  lemma {:induction false} TypesFail(scheme: Scheme, es: Log) returns (i: nat)
    requires EnsureValidTypes(scheme, es).Err?
    ensures BlamesKey(scheme, es, i, EnsureValidTypes(scheme, es).error)
  {
    hide FromCanonicalBytes, Usable, EntryTyped;
    if KeyFaultOf(scheme, es[0]).Some? {
      i := 0;
    } else {
      i := TypesFail(scheme, es[1..]);
      BlameMoves(scheme, es, i, EnsureValidTypes(scheme, es).error);
      i := i + 1;
    }
  }

  /** The check passes exactly when every key is usable, and otherwise faults the first that is not. */
  lemma {:induction false} TypesExact(scheme: Scheme, es: Log)
    ensures EnsureValidTypes(scheme, es).Ok? <==> forall i :: 0 <= i < |es| ==> EntryTyped(scheme, es[i])
    ensures EnsureValidTypes(scheme, es).Err? ==>
              exists i :: BlamesKey(scheme, es, i, EnsureValidTypes(scheme, es).error)
  {
    hide EntryTyped;
    if EnsureValidTypes(scheme, es).Err? {
      var i := TypesFail(scheme, es);
      assert !EntryTyped(scheme, es[i]);
    } else {
      TypesPass(scheme, es);
    }
  }

  lemma {:induction false} TypesPass(scheme: Scheme, es: Log)
    requires EnsureValidTypes(scheme, es).Ok?
    ensures forall i :: 0 <= i < |es| ==> EntryTyped(scheme, es[i])
  {
    hide FromCanonicalBytes, Usable, EntryTyped;
    if |es| == 0 {
    } else {
      TypesPass(scheme, es[1..]);
      assert KeyFaultOf(scheme, es[0]) == None;
      forall i | 0 <= i < |es| ensures EntryTyped(scheme, es[i]) {
        assert i == 0 || es[i] == es[1..][i - 1];
      }
    }
  }

  /** Removes are judged first, then keys; what passes both is kept as it is. */
  lemma FromEntriesExact(scheme: Scheme, es: Log)
    ensures FromEntries(scheme, es).Ok? <==> ValidLog(scheme, es)
    ensures FromEntries(scheme, es).Ok? ==> FromEntries(scheme, es).value == es
    ensures !ValidRemoves(es) ==>
              FromEntries(scheme, es).Err? && BlamesFirstFault(es, FromEntries(scheme, es).error)
    ensures ValidRemoves(es) && !ValidLog(scheme, es) ==>
              FromEntries(scheme, es).Err? && exists i :: BlamesKey(scheme, es, i, FromEntries(scheme, es).error)
  {
    hide EntryTyped, BlamesFirstFault, BlamesKey;
    MaskExact(es);
    TypesExact(scheme, es);
    if !ValidRemoves(es) {
      RejectionNamesFirstFault(es, |es|);
    }
  }

  // ----- Selection -----

  datatype Indexed = Indexed(index: nat, entry: AccountEntry)

  function LiveFrom(es: Log, mask: seq<bool>, i: nat): seq<Indexed>
    requires |mask| == |es| && i <= |es|
    decreases |es| - i
  {
    if i == |es| then []
    else if !mask[i] && !es[i].Remove? then [Indexed(i, es[i])] + LiveFrom(es, mask, i + 1)
    else LiveFrom(es, mask, i + 1)
  }

  function ValidLiveEntries(es: Log): Result<seq<Indexed>, LogError> {
    var mask :- RemovedMask(es);
    Ok(LiveFrom(es, mask, 0))
  }

  function LiveIndexed(es: Log): seq<Indexed>
    requires ValidRemoves(es)
  {
    MaskExact(es);
    ValidLiveEntries(es).value
  }

  function SelectContext(xs: seq<Indexed>, context: Context): seq<Indexed> {
    if |xs| == 0 then []
    else (if xs[0].entry.Add? && xs[0].entry.context == context then [xs[0]] else [])
         + SelectContext(xs[1..], context)
  }

  function SelectKeys(xs: seq<Indexed>): seq<Key> {
    if |xs| == 0 then []
    else (if xs[0].entry.Add? && xs[0].entry.data.Ed25519Key? then [xs[0].entry.data.key] else [])
         + SelectKeys(xs[1..])
  }

  function Ed25519KeysFor(es: Log, context: Context): seq<Key>
    requires ValidRemoves(es)
  {
    SelectKeys(SelectContext(LiveIndexed(es), context))
  }

  /** Entry `i` endorses `key` under `context`, tombstoned or not. */
  predicate Endorses(es: Log, context: Context, key: Key, i: int) {
    0 <= i < |es| && es[i] == Add(context, Ed25519Key(key))
  }

  ghost predicate LiveKey(es: Log, context: Context, key: Key) {
    exists i :: Live(es, i) && Endorses(es, context, key, i)
  }

  ghost predicate EverEndorsed(es: Log, context: Context, key: Key) {
    exists i :: Endorses(es, context, key, i)
  }

  /** Live entries keep their original positions, in order, and none is left out. */
  lemma {:induction false} LiveIndexedExact(es: Log)
    requires ValidRemoves(es)
    ensures forall x :: x in LiveIndexed(es) <==> Live(es, x.index) && x.entry == es[x.index]
    ensures forall a, b :: 0 <= a < b < |LiveIndexed(es)| ==> LiveIndexed(es)[a].index < LiveIndexed(es)[b].index
  {
    MaskIsRemoved(es);
    LiveFromExact(es, RemovedMask(es).value, 0);
  }

  lemma MaskIsRemoved(es: Log)
    requires ValidRemoves(es)
    ensures RemovedMask(es).Ok?
    ensures forall i :: 0 <= i < |es| ==> (RemovedMask(es).value[i] <==> Removed(es, i))
  {
    ScanExact(es, |es|);
  }

  ghost predicate ListsLive(es: Log, mask: seq<bool>, i: nat, xs: seq<Indexed>)
    requires |mask| == |es|
  {
    && (forall x :: x in xs <==>
          i <= x.index < |es| && !mask[x.index] && !es[x.index].Remove? && x.entry == es[x.index])
    && (forall a, b :: 0 <= a < b < |xs| ==> xs[a].index < xs[b].index)
  }

  lemma ListsLivePush(es: Log, mask: seq<bool>, i: nat, xs: seq<Indexed>)
    requires |mask| == |es| && i < |es| && ListsLive(es, mask, i + 1, xs)
    ensures ListsLive(es, mask, i, if !mask[i] && !es[i].Remove? then [Indexed(i, es[i])] + xs else xs)
  {
    forall a | 0 <= a < |xs| ensures i < xs[a].index {
      assert xs[a] in xs;
    }
  }

  lemma {:induction false} LiveFromExact(es: Log, mask: seq<bool>, i: nat)
    requires |mask| == |es| && i <= |es|
    ensures ListsLive(es, mask, i, LiveFrom(es, mask, i))
    decreases |es| - i
  {
    if i == |es| {
    } else {
      LiveFromExact(es, mask, i + 1);
      ListsLivePush(es, mask, i, LiveFrom(es, mask, i + 1));
    }
  }

  lemma {:induction false} SelectedKeys(xs: seq<Indexed>, context: Context, key: Key)
    ensures key in SelectKeys(SelectContext(xs, context)) <==>
            exists x :: x in xs && x.entry == Add(context, Ed25519Key(key))
  {
    if |xs| == 0 {
    } else {
      SelectedKeys(xs[1..], context, key);
      assert xs == [xs[0]] + xs[1..];
      var rest := SelectContext(xs[1..], context);
      if xs[0].entry.Add? && xs[0].entry.context == context {
        assert ([xs[0]] + rest)[1..] == rest;
      } else {
        assert [] + rest == rest;
      }
    }
  }

  lemma KeysForExact(es: Log, context: Context, key: Key)
    requires ValidRemoves(es)
    ensures key in Ed25519KeysFor(es, context) <==> LiveKey(es, context, key)
  {
    LiveIndexedExact(es);
    SelectedKeys(LiveIndexed(es), context, key);
    if LiveKey(es, context, key) {
      var i :| Live(es, i) && Endorses(es, context, key, i);
      assert Indexed(i, es[i]) in LiveIndexed(es);
    }
    if x :| x in LiveIndexed(es) && x.entry == Add(context, Ed25519Key(key)) {
      assert Endorses(es, context, key, x.index);
    }
  }

  // ----- Revoked keys -----

  predicate IsKeyUnder(e: AccountEntry, context: Context) {
    e.Add? && e.context == context && e.data.Ed25519Key?
  }

  /** The positions the selected keys come from. */
  function KeyPositions(xs: seq<Indexed>, context: Context): seq<nat> {
    if |xs| == 0 then []
    else if IsKeyUnder(xs[0].entry, context) then [xs[0].index] + KeyPositions(xs[1..], context)
    else KeyPositions(xs[1..], context)
  }

  ghost predicate From(xs: seq<Indexed>, context: Context, p: nat, key: Key) {
    Indexed(p, Add(context, Ed25519Key(key))) in xs
  }

  function Selected(xs: seq<Indexed>, context: Context): seq<Key> { SelectKeys(SelectContext(xs, context)) }

  lemma SelectStep(xs: seq<Indexed>, context: Context)
    ensures Selected(xs, context) ==
            if |xs| == 0 then []
            else if IsKeyUnder(xs[0].entry, context) then [xs[0].entry.data.key] + Selected(xs[1..], context)
            else Selected(xs[1..], context)
  {
    if |xs| > 0 {
      var rest := SelectContext(xs[1..], context);
      if xs[0].entry.Add? && xs[0].entry.context == context {
        assert ([xs[0]] + rest)[1..] == rest;
      } else {
        assert [] + rest == rest;
      }
    }
  }

  /** `ps` and `ks` run in parallel through the key entries of `xs`, in order. */
  ghost predicate InStep(xs: seq<Indexed>, context: Context, ps: seq<nat>, ks: seq<Key>) {
    && |ps| == |ks|
    && (forall i :: 0 <= i < |ps| ==> From(xs, context, ps[i], ks[i]))
    && (forall i, j :: 0 <= i < j < |ps| ==> ps[i] < ps[j])
    && (forall x :: x in xs && IsKeyUnder(x.entry, context) ==> x.index in ps)
  }

  lemma InStepPush(x: Indexed, rest: seq<Indexed>, context: Context, ps: seq<nat>, ks: seq<Key>)
    requires InStep(rest, context, ps, ks) && forall y :: y in rest ==> x.index < y.index
    ensures if IsKeyUnder(x.entry, context)
            then InStep([x] + rest, context, [x.index] + ps, [x.entry.data.key] + ks)
            else InStep([x] + rest, context, ps, ks)
  {
    forall i | 0 <= i < |ps| ensures ps[i] > x.index && From([x] + rest, context, ps[i], ks[i]) {
      assert From(rest, context, ps[i], ks[i]);
    }
  }

  lemma InStepEmpty(xs: seq<Indexed>, context: Context)
    requires |xs| == 0
    ensures InStep(xs, context, [], [])
  {
  }

  lemma {:induction false} PositionsMatchKeys(xs: seq<Indexed>, context: Context)
    requires forall a, b :: 0 <= a < b < |xs| ==> xs[a].index < xs[b].index
    ensures InStep(xs, context, KeyPositions(xs, context), Selected(xs, context))
  {
    hide Selected, InStep, IsKeyUnder;
    SelectStep(xs, context);
    if |xs| == 0 {
      InStepEmpty(xs, context);
    } else {
      var rest := xs[1..];
      PositionsMatchKeys(rest, context);
      InStepPush(xs[0], rest, context, KeyPositions(rest, context), Selected(rest, context));
      assert xs == [xs[0]] + rest;
    }
  }

  /** The keys of a context are those of its live key entries, one each, in the order they were added. */
  lemma KeysInAddOrder(es: Log, context: Context) returns (ps: seq<nat>)
    requires ValidRemoves(es)
    ensures |ps| == |Ed25519KeysFor(es, context)|
    ensures forall i, j :: 0 <= i < j < |ps| ==> ps[i] < ps[j]
    ensures forall i :: 0 <= i < |ps| ==>
              Live(es, ps[i]) && Endorses(es, context, Ed25519KeysFor(es, context)[i], ps[i])
    ensures forall p, key :: Live(es, p) && Endorses(es, context, key, p) ==> p in ps
  {
    var xs := LiveIndexed(es);
    LiveIndexedExact(es);
    PositionsMatchKeys(xs, context);
    ps := KeyPositions(xs, context);
    forall i | 0 <= i < |ps|
      ensures Live(es, ps[i]) && Endorses(es, context, Ed25519KeysFor(es, context)[i], ps[i])
    {
      assert From(xs, context, ps[i], Ed25519KeysFor(es, context)[i]);
    }
    forall p, key | Live(es, p) && Endorses(es, context, key, p) ensures p in ps {
      assert Indexed(p, es[p]) in xs;
    }
  }

  function RevokedTo(es: Log, context: Context, live: seq<Key>, mask: seq<bool>, n: nat): seq<Key>
    requires |mask| == |es| && n <= |es|
  {
    if n == 0 then [] else
    var before := RevokedTo(es, context, live, mask, n - 1);
    match es[n - 1]
    case Add(c, Ed25519Key(key)) =>
      if c == context && mask[n - 1] && key !in live && key !in before then before + [key] else before
    case _ => before
  }

  function RevokedKeysFor(es: Log, context: Context): seq<Key>
    requires ValidRemoves(es)
  {
    MaskExact(es);
    RevokedTo(es, context, Ed25519KeysFor(es, context), RemovedMask(es).value, |es|)
  }

  method CollectRevoked(es: Log, context: Context, live: seq<Key>, removed: seq<bool>) returns (revoked: seq<Key>)
    requires |removed| == |es|
    ensures revoked == RevokedTo(es, context, live, removed, |es|)
  {
    revoked := [];
    for i := 0 to |es|
      invariant revoked == RevokedTo(es, context, live, removed, i)
    {
      match es[i] {
        case Add(c, Ed25519Key(key)) =>
          if c == context && removed[i] {
            if key !in live && key !in revoked {
              revoked := revoked + [key];
            }
          }
        case _ =>
      }
    }
  }

  method RevokedEd25519KeysFor(es: Log, context: Context) returns (revoked: seq<Key>)
    requires ValidRemoves(es)
    ensures revoked == RevokedKeysFor(es, context)
  {
    var live := Ed25519KeysFor(es, context);
    MaskIsRemoved(es);
    var removed := FilterMaskRemoved(es);
    revoked := CollectRevoked(es, context, live, removed.value);
  }

  /** Position of the first endorsement of `key` at or after `i`, or the length of the log. */
  function FirstEndorsement(es: Log, context: Context, key: Key, i: nat): (p: nat)
    requires i <= |es|
    ensures i <= p <= |es|
    ensures forall j :: i <= j < p ==> !Endorses(es, context, key, j)
    ensures p < |es| ==> Endorses(es, context, key, p)
    decreases |es| - i
  {
    if i == |es| || Endorses(es, context, key, i) then i else FirstEndorsement(es, context, key, i + 1)
  }

  lemma {:induction false} RevokedToExact(es: Log, context: Context, live: seq<Key>, mask: seq<bool>, n: nat)
    requires |mask| == |es| && n <= |es|
    requires forall i, key :: Endorses(es, context, key, i) && key !in live ==> mask[i]
    ensures var r := RevokedTo(es, context, live, mask, n);
            && (forall key :: key in r <==> key !in live && FirstEndorsement(es, context, key, 0) < n)
            && (forall a, b :: 0 <= a < b < |r| ==>
                  FirstEndorsement(es, context, r[a], 0) < FirstEndorsement(es, context, r[b], 0))
  {
    if n == 0 {
    } else {
      RevokedToExact(es, context, live, mask, n - 1);
      forall key | FirstEndorsement(es, context, key, 0) == n - 1
        ensures es[n - 1] == Add(context, Ed25519Key(key))
      {
        assert Endorses(es, context, key, n - 1);
      }
      if es[n - 1].Add? && es[n - 1].data.Ed25519Key? && es[n - 1].context == context {
        assert Endorses(es, context, es[n - 1].data.key, n - 1);
      }
    }
  }

  /** Revoked keys are exactly those endorsed and not live, each once, in order of first endorsement. */
  lemma RevokedExact(es: Log, context: Context)
    requires ValidRemoves(es)
    ensures var r := RevokedKeysFor(es, context);
            && (forall key :: key in r <==> EverEndorsed(es, context, key) && !LiveKey(es, context, key))
            && (forall key :: key in r ==> key !in Ed25519KeysFor(es, context))
            && (forall a, b :: 0 <= a < b < |r| ==>
                  && r[a] != r[b]
                  && FirstEndorsement(es, context, r[a], 0) < FirstEndorsement(es, context, r[b], 0))
  {
    var live := Ed25519KeysFor(es, context);
    MaskIsRemoved(es);
    forall key ensures key in live <==> LiveKey(es, context, key) {
      KeysForExact(es, context, key);
    }
    forall i, key | Endorses(es, context, key, i) && key !in live ensures RemovedMask(es).value[i] {
      assert !Live(es, i);
    }
    RevokedToExact(es, context, live, RemovedMask(es).value, |es|);
    forall key ensures EverEndorsed(es, context, key) <==> FirstEndorsement(es, context, key, 0) < |es| {
    }
  }

  datatype AuthResult = Valid | Revoked | Invalid

  /** How the authentication service reads a signer off a log. */
  function Classify(es: Log, context: Context, key: Key): AuthResult
    requires ValidRemoves(es)
  {
    if key in Ed25519KeysFor(es, context) then Valid
    else if key in RevokedKeysFor(es, context) then Revoked
    else Invalid
  }

  lemma ClassifyExact(es: Log, context: Context, key: Key)
    requires ValidRemoves(es)
    ensures Classify(es, context, key) == Valid <==> LiveKey(es, context, key)
    ensures Classify(es, context, key) == Revoked <==>
            EverEndorsed(es, context, key) && !LiveKey(es, context, key)
    ensures Classify(es, context, key) == Invalid <==> !EverEndorsed(es, context, key)
  {
    KeysForExact(es, context, key);
    RevokedExact(es, context);
    if LiveKey(es, context, key) {
      var i :| Live(es, i) && Endorses(es, context, key, i);
    }
  }
}
