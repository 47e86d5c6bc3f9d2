/**
 * The scoped key-value substrate: the in-memory store, which keeps one ordered map per scope
 * and works each transaction on a copy, against the SQLite store, which keeps one flat table,
 * changes it in place and rolls back.
 */
module KvStores {
  import opened Bytes

  datatype Scope = Scope(ns: bytes, instance: bytes)

  datatype Pair = Pair(key: bytes, value: bytes)

  // ----- Byte order -----

  predicate LexLe(a: bytes, b: bytes)
    decreases |a|
  {
    |a| == 0 ||
    (|b| > 0 && (a[0] < b[0] || (a[0] == b[0] && LexLe(a[1..], b[1..]))))
  }

  predicate LexLt(a: bytes, b: bytes) { LexLe(a, b) && a != b }

  lemma {:induction false} LexTotal(a: bytes, b: bytes)
    ensures LexLe(a, b) || LexLe(b, a)
    decreases |a|
  {
    if |a| > 0 && |b| > 0 && a[0] == b[0] { LexTotal(a[1..], b[1..]); }
  }

  lemma {:induction false} LexAntisymmetric(a: bytes, b: bytes)
    requires LexLe(a, b) && LexLe(b, a)
    ensures a == b
    decreases |a|
  {
    if |a| > 0 && |b| > 0 {
      LexAntisymmetric(a[1..], b[1..]);
      assert a == [a[0]] + a[1..] && b == [b[0]] + b[1..];
    }
  }

  lemma {:induction false} LexTransitive(a: bytes, b: bytes, c: bytes)
    requires LexLe(a, b) && LexLe(b, c)
    ensures LexLe(a, c)
    decreases |a|
  {
    if |a| > 0 && a[0] == b[0] && b[0] == c[0] { LexTransitive(a[1..], b[1..], c[1..]); }
  }

  predicate IsLeast(k: bytes, keys: set<bytes>) {
    k in keys && forall o :: o in keys ==> LexLe(k, o)
  }

  lemma LeastExists(keys: set<bytes>)
    requires keys != {}
    ensures exists k :: IsLeast(k, keys)
    decreases |keys|
  {
    var k :| k in keys;
    LexTotal(k, k);
    var rest := keys - {k};
    if rest == {} {
      assert keys == {k};
      assert IsLeast(k, keys);
    } else {
      LeastExists(rest);
      var m :| IsLeast(m, rest);
      LexTotal(k, m);
      if LexLe(m, k) {
        assert IsLeast(m, keys);
      } else {
        forall o | o in keys ensures LexLe(k, o) {
          if o != k { LexTransitive(k, m, o); }
        }
        assert IsLeast(k, keys);
      }
    }
  }

  function Least(keys: set<bytes>): (k: bytes)
    requires keys != {}
    ensures IsLeast(k, keys)
  {
    LeastExists(keys);
    assert forall a, b :: IsLeast(a, keys) && IsLeast(b, keys) ==> a == b by {
      forall a, b | IsLeast(a, keys) && IsLeast(b, keys) ensures a == b { LexAntisymmetric(a, b); }
    }
    var k :| IsLeast(k, keys);
    k
  }

  /** The keys in byte order, as an ordered map iterates them and `ORDER BY key` lists them. */
  function Ordered(keys: set<bytes>): seq<bytes> {
    if keys == {} then [] else [Least(keys)] + Ordered(keys - {Least(keys)})
  }

  predicate Ascending(ks: seq<bytes>) {
    forall i, j :: 0 <= i < j < |ks| ==> LexLt(ks[i], ks[j])
  }

  lemma {:induction false} OrderedExact(keys: set<bytes>)
    ensures Ascending(Ordered(keys))
    ensures forall k :: k in Ordered(keys) <==> k in keys
  {
    if keys != {} {
      var k, rest := Least(keys), Ordered(keys - {Least(keys)});
      OrderedExact(keys - {k});
      forall i, j | 0 <= i < j < |rest| + 1 ensures LexLt(([k] + rest)[i], ([k] + rest)[j]) {
        if i == 0 { assert rest[j - 1] in keys - {k}; }
      }
    }
  }

  lemma EmptyOrInhabited(ks: seq<bytes>)
    ensures ks == [] || exists k :: k in ks
  {
    if ks != [] { assert ks[0] in ks; }
  }

  /** A set of keys has one ascending listing. */
  lemma {:induction false} ListingIsUnique(a: seq<bytes>, b: seq<bytes>)
    requires Ascending(a) && Ascending(b)
    requires forall k :: k in a <==> k in b
    ensures a == b
    decreases |a|
  {
    if |a| == 0 {
      EmptyOrInhabited(b);
    } else {
      assert a[0] in b && b[0] in a;
      SameHead(a, b);
      SameHead(b, a);
      LexAntisymmetric(a[0], b[0]);
      forall k ensures k in a[1..] <==> k in b[1..] {
        TailMembers(a, k);
        TailMembers(b, k);
      }
      ListingIsUnique(a[1..], b[1..]);
      assert a == [a[0]] + a[1..] && b == [b[0]] + b[1..];
    }
  }

  lemma SameHead(a: seq<bytes>, b: seq<bytes>)
    requires Ascending(a) && |a| > 0 && |b| > 0 && b[0] in a
    ensures LexLe(a[0], b[0])
  {
    var i :| 0 <= i < |a| && a[i] == b[0];
    if i == 0 { LexTotal(a[0], a[0]); } else { assert LexLt(a[0], a[i]); }
  }

  lemma TailMembers(a: seq<bytes>, k: bytes)
    requires Ascending(a) && |a| > 0
    ensures k in a[1..] <==> k in a && k != a[0]
  {
    if k in a[1..] {
      var i :| 0 <= i < |a[1..]| && a[1..][i] == k;
      assert LexLt(a[0], a[i + 1]);
    }
  }

  function Filter(ks: seq<bytes>, prefix: bytes): (r: seq<bytes>)
    ensures forall k :: k in r <==> k in ks && prefix <= k
  {
    if |ks| == 0 then []
    else if prefix <= ks[0] then [ks[0]] + Filter(ks[1..], prefix)
    else Filter(ks[1..], prefix)
  }

  lemma {:induction false} FilterAscends(ks: seq<bytes>, prefix: bytes)
    requires Ascending(ks)
    ensures Ascending(Filter(ks, prefix))
  {
    if |ks| == 0 {
    } else {
      var rest := Filter(ks[1..], prefix);
      FilterAscends(ks[1..], prefix);
      forall j | 0 <= j < |rest| ensures LexLt(ks[0], rest[j]) {
        assert rest[j] in ks[1..];
      }
    }
  }

  // ----- The in-memory store: one map per scope -----

  type Entries = map<bytes, bytes>

  type Kv = map<Scope, Entries>

  function Get(kv: Kv, scope: Scope, key: bytes): Option<bytes> {
    if scope in kv && key in kv[scope] then Some(kv[scope][key]) else None
  }

  function Put(kv: Kv, scope: Scope, key: bytes, value: bytes): Kv {
    var entries := if scope in kv then kv[scope] else map[];
    kv[scope := entries[key := value]]
  }

  function Delete(kv: Kv, scope: Scope, key: bytes): Kv {
    if scope in kv then kv[scope := kv[scope] - {key}] else kv
  }

  function PairsOf(ks: seq<bytes>, entries: Entries): seq<Pair>
    requires forall k :: k in ks ==> k in entries
  {
    seq(|ks|, i requires 0 <= i < |ks| => assert ks[i] in ks; Pair(ks[i], entries[ks[i]]))
  }

  function ScanPrefix(kv: Kv, scope: Scope, prefix: bytes): seq<Pair> {
    if scope !in kv then []
    else
      OrderedExact(kv[scope].Keys);
      PairsOf(Filter(Ordered(kv[scope].Keys), prefix), kv[scope])
  }

  function DeletePrefix(kv: Kv, scope: Scope, prefix: bytes): Kv {
    if scope in kv then kv[scope := map k | k in kv[scope] && !(prefix <= k) :: kv[scope][k]] else kv
  }

  function DeleteScope(kv: Kv, scope: Scope): Kv { kv - {scope} }

  function DeleteNamespace(kv: Kv, ns: bytes): Kv { map s | s in kv && s.ns != ns :: kv[s] }

  /** A scan lists, in strict key order, exactly the pairs whose key starts with the prefix. */
  lemma ScanExact(kv: Kv, scope: Scope, prefix: bytes)
    ensures var r := ScanPrefix(kv, scope, prefix);
            && (forall i, j :: 0 <= i < j < |r| ==> LexLt(r[i].key, r[j].key))
            && (forall p :: p in r <==> prefix <= p.key && Get(kv, scope, p.key) == Some(p.value))
  {
    var r := ScanPrefix(kv, scope, prefix);
    if scope in kv {
      OrderedExact(kv[scope].Keys);
      var ks := Filter(Ordered(kv[scope].Keys), prefix);
      FilterAscends(Ordered(kv[scope].Keys), prefix);
      assert forall i :: 0 <= i < |r| ==> r[i].key == ks[i];
      forall p: Pair ensures p in r <==> prefix <= p.key && Get(kv, scope, p.key) == Some(p.value) {
        PairsExact(ks, kv[scope], p);
      }
    }
  }

  lemma PairsExact(ks: seq<bytes>, entries: Entries, p: Pair)
    requires forall k :: k in ks ==> k in entries
    ensures p in PairsOf(ks, entries) <==> p.key in ks && entries[p.key] == p.value
  {
    var r := PairsOf(ks, entries);
    if p in r {
      var i :| 0 <= i < |r| && r[i] == p;
      assert ks[i] == p.key;
    }
    if p.key in ks && entries[p.key] == p.value {
      var i :| 0 <= i < |ks| && ks[i] == p.key;
      assert r[i] == p;
    }
  }

  // ----- The SQLite store: one flat table -----

  datatype Row = Row(ns: bytes, instance: bytes, key: bytes)

  type Table = map<Row, bytes>

  /** SQL's three-valued truth; a row is selected only on `Yes`. */
  datatype Truth = Yes | No | Unknown

  function SqlOr(a: Truth, b: Truth): Truth {
    if a == Yes || b == Yes then Yes else if a == Unknown || b == Unknown then Unknown else No
  }

  /** `substr(key, 1, n)` on a blob: NULL for the empty blob. */
  function Substr(key: bytes, n: nat): Option<bytes> {
    if |key| == 0 then None else Some(key[..if n < |key| then n else |key|])
  }

  function SqlEquals(a: Option<bytes>, b: bytes): Truth {
    if a.None? then Unknown else if a.value == b then Yes else No
  }

  function UnderPrefix(key: bytes, prefix: bytes): Truth {
    SqlOr(if |prefix| == 0 then Yes else No, SqlEquals(Substr(key, |prefix|), prefix))
  }

  /** The SQL prefix test selects exactly the keys that start with the prefix. */
  lemma UnderPrefixExact(key: bytes, prefix: bytes)
    ensures UnderPrefix(key, prefix) == Yes <==> prefix <= key
  {
    if |prefix| <= |key| { assert prefix <= key <==> key[..|prefix|] == prefix; }
  }

  function RowOf(scope: Scope, key: bytes): Row { Row(scope.ns, scope.instance, key) }

  function ScopeOf(r: Row): Scope { Scope(r.ns, r.instance) }

  function SqlGet(t: Table, scope: Scope, key: bytes): Option<bytes> {
    if RowOf(scope, key) in t then Some(t[RowOf(scope, key)]) else None
  }

  function SqlPut(t: Table, scope: Scope, key: bytes, value: bytes): Table { t[RowOf(scope, key) := value] }

  function SqlDelete(t: Table, scope: Scope, key: bytes): Table { t - {RowOf(scope, key)} }

  function SqlKeys(t: Table, scope: Scope, prefix: bytes): set<bytes> {
    set r | r in t && ScopeOf(r) == scope && UnderPrefix(r.key, prefix) == Yes :: r.key
  }

  function SqlScan(t: Table, scope: Scope, prefix: bytes): seq<Pair> {
    OrderedExact(SqlKeys(t, scope, prefix));
    var ks := Ordered(SqlKeys(t, scope, prefix));
    seq(|ks|, i requires 0 <= i < |ks| => assert ks[i] in ks; Pair(ks[i], t[RowOf(scope, ks[i])]))
  }

  function SqlDeletePrefix(t: Table, scope: Scope, prefix: bytes): Table {
    map r | r in t && !(ScopeOf(r) == scope && UnderPrefix(r.key, prefix) == Yes) :: t[r]
  }

  function SqlDeleteScope(t: Table, scope: Scope): Table { map r | r in t && ScopeOf(r) != scope :: t[r] }

  function SqlDeleteNamespace(t: Table, ns: bytes): Table { map r | r in t && r.ns != ns :: t[r] }

  // ----- Verbs, transactions and runs -----

  datatype Call =
    | Begin
    | GetKey(scope: Scope, key: bytes)
    | PutKey(scope: Scope, key: bytes, value: bytes)
    | DeleteKey(scope: Scope, key: bytes)
    | Scan(scope: Scope, prefix: bytes)
    | DropPrefix(scope: Scope, prefix: bytes)
    | DropScope(scope: Scope)
    | DropNamespace(ns: bytes)
    | Commit
    | Discard

  datatype Reply = Done | Refused | Found(value: Option<bytes>) | Listed(pairs: seq<Pair>)

  predicate IsVerb(c: Call) { !c.Begin? && !c.Commit? && !c.Discard? }

  function MemVerb(kv: Kv, c: Call): Kv
    requires IsVerb(c)
  {
    match c
    case GetKey(_, _) => kv
    case Scan(_, _) => kv
    case PutKey(s, k, v) => Put(kv, s, k, v)
    case DeleteKey(s, k) => Delete(kv, s, k)
    case DropPrefix(s, p) => DeletePrefix(kv, s, p)
    case DropScope(s) => DeleteScope(kv, s)
    case DropNamespace(ns) => DeleteNamespace(kv, ns)
  }

  function MemReply(kv: Kv, c: Call): Reply
    requires IsVerb(c)
  {
    match c
    case GetKey(s, k) => Found(Get(kv, s, k))
    case Scan(s, p) => Listed(ScanPrefix(kv, s, p))
    case _ => Done
  }

  function SqlVerb(t: Table, c: Call): Table
    requires IsVerb(c)
  {
    match c
    case GetKey(_, _) => t
    case Scan(_, _) => t
    case PutKey(s, k, v) => SqlPut(t, s, k, v)
    case DeleteKey(s, k) => SqlDelete(t, s, k)
    case DropPrefix(s, p) => SqlDeletePrefix(t, s, p)
    case DropScope(s) => SqlDeleteScope(t, s)
    case DropNamespace(ns) => SqlDeleteNamespace(t, ns)
  }

  function SqlReply(t: Table, c: Call): Reply
    requires IsVerb(c)
  {
    match c
    case GetKey(s, k) => Found(SqlGet(t, s, k))
    case Scan(s, p) => Listed(SqlScan(t, s, p))
    case _ => Done
  }

  /** Stored maps, and the copy an open transaction works on. */
  datatype MemState = MemState(kv: Kv, staged: Option<Kv>)

  /** The live table, and what it was when the open transaction began. */
  datatype SqlState = SqlState(table: Table, saved: Option<Table>)

  /** Everything but `Begin` goes through a transaction handle. */
  predicate Legal(open: bool, c: Call) { c.Begin? || open }

  function MemStep(m: MemState, c: Call): (MemState, Reply)
    requires Legal(m.staged.Some?, c)
  {
    match c
    case Begin => if m.staged.Some? then (m, Refused) else (m.(staged := Some(m.kv)), Done)
    case Commit => (MemState(m.staged.value, None), Done)
    case Discard => (m.(staged := None), Done)
    case _ => (m.(staged := Some(MemVerb(m.staged.value, c))), MemReply(m.staged.value, c))
  }

  function SqlStep(q: SqlState, c: Call): (SqlState, Reply)
    requires Legal(q.saved.Some?, c)
  {
    match c
    case Begin => if q.saved.Some? then (q, Refused) else (q.(saved := Some(q.table)), Done)
    case Commit => (q.(saved := None), Done)
    case Discard => (SqlState(q.saved.value, None), Done)
    case _ => (q.(table := SqlVerb(q.table, c)), SqlReply(q.table, c))
  }

  /** Whether a transaction is open after `cs`. */
  predicate OpenAfter(cs: seq<Call>) {
    |cs| > 0 &&
    match cs[|cs| - 1]
    case Commit => false
    case Discard => false
    case _ => true
  }

  predicate LegalRun(cs: seq<Call>) {
    forall i :: 0 <= i < |cs| ==> Legal(OpenAfter(cs[..i]), cs[i])
  }

  function MemRun(cs: seq<Call>): (r: (MemState, seq<Reply>))
    requires LegalRun(cs)
    ensures r.0.staged.Some? == OpenAfter(cs)
  {
    if |cs| == 0 then (MemState(map[], None), []) else
    assert LegalRun(cs[..|cs| - 1]) by { PrefixIsLegal(cs); }
    var (m, replies) := MemRun(cs[..|cs| - 1]);
    var (m', reply) := MemStep(m, cs[|cs| - 1]);
    (m', replies + [reply])
  }

  function SqlRun(cs: seq<Call>): (r: (SqlState, seq<Reply>))
    requires LegalRun(cs)
    ensures r.0.saved.Some? == OpenAfter(cs)
  {
    if |cs| == 0 then (SqlState(map[], None), []) else
    assert LegalRun(cs[..|cs| - 1]) by { PrefixIsLegal(cs); }
    var (q, replies) := SqlRun(cs[..|cs| - 1]);
    var (q', reply) := SqlStep(q, cs[|cs| - 1]);
    (q', replies + [reply])
  }

  lemma PrefixIsLegal(cs: seq<Call>)
    requires LegalRun(cs) && |cs| > 0
    ensures LegalRun(cs[..|cs| - 1])
  {
    var before := cs[..|cs| - 1];
    forall i | 0 <= i < |before| ensures Legal(OpenAfter(before[..i]), before[i]) {
      assert before[..i] == cs[..i];
    }
  }

  // ----- The two stores agree -----

  /** Both hold the same values, row by row. */
  ghost predicate Same(kv: Kv, t: Table) {
    forall scope, key :: Get(kv, scope, key) == SqlGet(t, scope, key)
  }

  lemma VerbsAgree(kv: Kv, t: Table, c: Call)
    requires Same(kv, t) && IsVerb(c)
    ensures Same(MemVerb(kv, c), SqlVerb(t, c))
  {
    forall scope, key ensures Get(MemVerb(kv, c), scope, key) == SqlGet(SqlVerb(t, c), scope, key) {
      assert Get(kv, scope, key) == SqlGet(t, scope, key);
      if c.DropPrefix? { UnderPrefixExact(key, c.prefix); }
    }
  }

  lemma ScansAgree(kv: Kv, t: Table, scope: Scope, prefix: bytes)
    requires Same(kv, t)
    ensures ScanPrefix(kv, scope, prefix) == SqlScan(t, scope, prefix)
  {
    var keys := SqlKeys(t, scope, prefix);
    forall k ensures k in keys <==> Get(kv, scope, k).Some? && prefix <= k {
      assert Get(kv, scope, k) == SqlGet(t, scope, k);
      UnderPrefixExact(k, prefix);
      if k in keys {
        var r :| r in t && ScopeOf(r) == scope && UnderPrefix(r.key, prefix) == Yes && r.key == k;
        assert r == RowOf(scope, k);
      }
      if RowOf(scope, k) in t { assert ScopeOf(RowOf(scope, k)) == scope; }
    }
    OrderedExact(keys);
    if scope in kv {
      ListsAgree(kv, t, scope, prefix, keys);
    } else {
      EmptyOrInhabited(Ordered(keys));
    }
  }

  lemma ListsAgree(kv: Kv, t: Table, scope: Scope, prefix: bytes, keys: set<bytes>)
    requires Same(kv, t) && scope in kv && keys == SqlKeys(t, scope, prefix)
    requires forall k :: k in keys <==> Get(kv, scope, k).Some? && prefix <= k
    ensures ScanPrefix(kv, scope, prefix) == SqlScan(t, scope, prefix)
  {
    var all := kv[scope].Keys;
    OrderedExact(all);
    OrderedExact(keys);
    FilterAscends(Ordered(all), prefix);
    ListingIsUnique(Filter(Ordered(all), prefix), Ordered(keys));
    var a, b := ScanPrefix(kv, scope, prefix), SqlScan(t, scope, prefix);
    forall i | 0 <= i < |a| ensures a[i] == b[i] {
      var k := Ordered(keys)[i];
      assert k in Ordered(keys);
      assert Get(kv, scope, k) == SqlGet(t, scope, k);
    }
  }

  lemma RepliesAgree(kv: Kv, t: Table, c: Call)
    requires Same(kv, t) && IsVerb(c)
    ensures MemReply(kv, c) == SqlReply(t, c)
  {
    if c.Scan? { ScansAgree(kv, t, c.scope, c.prefix); }
    if c.GetKey? { assert Get(kv, c.scope, c.key) == SqlGet(t, c.scope, c.key); }
  }

  ghost predicate Related(m: MemState, q: SqlState) {
    && m.staged.Some? == q.saved.Some?
    && (m.staged.None? ==> Same(m.kv, q.table))
    && (m.staged.Some? ==> Same(m.kv, q.saved.value) && Same(m.staged.value, q.table))
  }

  lemma StepsAgree(m: MemState, q: SqlState, c: Call)
    requires Related(m, q) && Legal(m.staged.Some?, c)
    ensures Related(MemStep(m, c).0, SqlStep(q, c).0)
    ensures MemStep(m, c).1 == SqlStep(q, c).1
  {
    if IsVerb(c) {
      VerbsAgree(m.staged.value, q.table, c);
      RepliesAgree(m.staged.value, q.table, c);
    }
  }

  /** Over every legal sequence of calls, both stores give the same replies. */
  lemma {:induction false} StoresAgree(cs: seq<Call>)
    requires LegalRun(cs)
    ensures MemRun(cs).1 == SqlRun(cs).1
    ensures Related(MemRun(cs).0, SqlRun(cs).0)
  {
    if |cs| == 0 {
    } else {
      PrefixIsLegal(cs);
      StoresAgree(cs[..|cs| - 1]);
      StepsAgree(MemRun(cs[..|cs| - 1]).0, SqlRun(cs[..|cs| - 1]).0, cs[|cs| - 1]);
    }
  }

  // ----- What a row remembers -----

  /** Whether the verb writes or removes this row. */
  predicate Touches(c: Call, scope: Scope, key: bytes) {
    match c
    case PutKey(s, k, _) => s == scope && k == key
    case DeleteKey(s, k) => s == scope && k == key
    case DropPrefix(s, p) => s == scope && p <= key
    case DropScope(s) => s == scope
    case DropNamespace(ns) => ns == scope.ns
    case _ => false
  }

  /** The last touching verb decides: its value if a write, nothing if a removal. */
  function Remembered(was: Option<bytes>, vs: seq<Call>, scope: Scope, key: bytes): Option<bytes> {
    if |vs| == 0 then was else
    var last := vs[|vs| - 1];
    if !Touches(last, scope, key) then Remembered(was, vs[..|vs| - 1], scope, key)
    else if last.PutKey? then Some(last.value) else None
  }

  function MemVerbs(kv: Kv, vs: seq<Call>): Kv
    requires forall v :: v in vs ==> IsVerb(v)
  {
    if |vs| == 0 then kv else MemVerb(MemVerbs(kv, vs[..|vs| - 1]), vs[|vs| - 1])
  }

  lemma VerbOnRow(kv: Kv, v: Call, scope: Scope, key: bytes)
    requires IsVerb(v)
    ensures Get(MemVerb(kv, v), scope, key) == Remembered(Get(kv, scope, key), [v], scope, key)
  {
    assert [v][..0] == [];
  }

  /** Reads see the transaction's own writes; rows never interfere. */
  lemma {:induction false} RowIsRegister(kv: Kv, vs: seq<Call>, scope: Scope, key: bytes)
    requires forall v :: v in vs ==> IsVerb(v)
    ensures Get(MemVerbs(kv, vs), scope, key) == Remembered(Get(kv, scope, key), vs, scope, key)
  {
    if |vs| == 0 {
    } else {
      var before, last := vs[..|vs| - 1], vs[|vs| - 1];
      RowIsRegister(kv, before, scope, key);
      VerbOnRow(MemVerbs(kv, before), last, scope, key);
      assert [last][..0] == [];
    }
  }

  lemma LegalPush(cs: seq<Call>, c: Call)
    requires LegalRun(cs) && Legal(OpenAfter(cs), c)
    ensures LegalRun(cs + [c])
    ensures MemRun(cs + [c]).0 == MemStep(MemRun(cs).0, c).0
    ensures MemRun(cs + [c]).1 == MemRun(cs).1 + [MemStep(MemRun(cs).0, c).1]
  {
    var all := cs + [c];
    forall i | 0 <= i < |all| ensures Legal(OpenAfter(all[..i]), all[i]) {
      assert all[..i] == cs[..i];
      if i == |cs| { assert cs[..i] == cs; }
    }
    assert all[..|all| - 1] == cs;
  }

  ghost predicate RunsTo(cs: seq<Call>, m: MemState) { LegalRun(cs) && MemRun(cs).0 == m }

  lemma RunPush(cs: seq<Call>, m: MemState, c: Call)
    requires RunsTo(cs, m) && Legal(m.staged.Some?, c)
    ensures RunsTo(cs + [c], MemStep(m, c).0)
  {
    LegalPush(cs, c);
  }

  lemma SplitLast(a: seq<Call>, vs: seq<Call>)
    requires |vs| > 0
    ensures a + vs == a + vs[..|vs| - 1] + [vs[|vs| - 1]]
  {
  }

  /** A transaction works on a copy: the stored maps stay as they were at `Begin`. */
  lemma {:induction false} TransactionRun(cs: seq<Call>, kv: Kv, vs: seq<Call>)
    requires RunsTo(cs, MemState(kv, None))
    requires forall v :: v in vs ==> IsVerb(v)
    ensures RunsTo(cs + [Begin] + vs, MemState(kv, Some(MemVerbs(kv, vs))))
    decreases |vs|
  {
    if |vs| == 0 {
      RunPush(cs, MemState(kv, None), Begin);
      assert cs + [Begin] + vs == cs + [Begin];
    } else {
      var before, last := vs[..|vs| - 1], vs[|vs| - 1];
      assert last in vs;
      TransactionRun(cs, kv, before);
      RunPush(cs + [Begin] + before, MemState(kv, Some(MemVerbs(kv, before))), last);
      SplitLast(cs + [Begin], vs);
    }
  }

  /** Opening is refused exactly when there is an open transaction, which goes on as it was. */
  lemma SecondBeginRefused(cs: seq<Call>)
    requires LegalRun(cs)
    ensures LegalRun(cs + [Begin])
    ensures MemRun(cs + [Begin]).1 == MemRun(cs).1 + [if OpenAfter(cs) then Refused else Done]
    ensures OpenAfter(cs) ==> MemRun(cs + [Begin]).0 == MemRun(cs).0
  {
    LegalPush(cs, Begin);
  }

  /** Dropped, a transaction leaves no trace; committed, it lands whole; and until one of the two,
      opening another is refused and disturbs neither the store nor the transaction. */
  lemma TransactionIsAtomic(cs: seq<Call>, kv: Kv, vs: seq<Call>)
    requires RunsTo(cs, MemState(kv, None))
    requires forall v :: v in vs ==> IsVerb(v)
    ensures RunsTo(cs + [Begin] + vs + [Discard], MemState(kv, None))
    ensures RunsTo(cs + [Begin] + vs + [Commit], MemState(MemVerbs(kv, vs), None))
    ensures var open := cs + [Begin] + vs;
            && RunsTo(open, MemState(kv, Some(MemVerbs(kv, vs))))
            && RunsTo(open + [Begin], MemState(kv, Some(MemVerbs(kv, vs))))
            && MemRun(open + [Begin]).1 == MemRun(open).1 + [Refused]
  {
    hide MemStep;
    TransactionRun(cs, kv, vs);
    AtomicFrom(cs + [Begin] + vs, kv, MemVerbs(kv, vs));
  }

  lemma AtomicFrom(open: seq<Call>, kv: Kv, staged: Kv)
    requires RunsTo(open, MemState(kv, Some(staged)))
    ensures RunsTo(open + [Discard], MemState(kv, None))
    ensures RunsTo(open + [Commit], MemState(staged, None))
    ensures RunsTo(open + [Begin], MemState(kv, Some(staged)))
    ensures MemRun(open + [Begin]).1 == MemRun(open).1 + [Refused]
  {
    RunPush(open, MemState(kv, Some(staged)), Discard);
    RunPush(open, MemState(kv, Some(staged)), Commit);
    SecondBeginRefused(open);
  }

  // ----- The store object -----

  class MemStore {
    var kv: Kv
    var txOpen: bool

    constructor ()
      ensures kv == map[] && !txOpen
    {
      kv := map[];
      txOpen := false;
    }

    /** The state this store and its open transaction, if any, stand for. */
    ghost function View(tx: MemKvTx): MemState
      reads this, tx
    {
      MemState(kv, if txOpen then Some(tx.staged) else None)
    }

    method Begin() returns (r: Option<MemKvTx>)
      modifies this`txOpen
      ensures txOpen
      ensures r.None? <==> old(txOpen)
      ensures r.Some? ==>
        && fresh(r.value) && r.value.store == this
        && View(r.value) == MemStep(MemState(old(kv), None), Call.Begin).0
    {
      var wasOpen := txOpen;
      txOpen := true;
      if wasOpen { return None; }
      var tx := new MemKvTx(this);
      r := Some(tx);
    }
  }

  /** An open transaction: verbs change `staged`, and only `Commit` moves it into the store. */
  class MemKvTx {
    const store: MemStore
    var staged: Kv

    constructor (store: MemStore)
      ensures this.store == store && staged == store.kv
    {
      this.store := store;
      this.staged := store.kv;
    }

    method GetHere(scope: Scope, key: bytes) returns (r: Option<bytes>)
      requires store.txOpen
      ensures Found(r) == MemStep(store.View(this), GetKey(scope, key)).1
    {
      r := Get(staged, scope, key);
    }

    method ScanHere(scope: Scope, prefix: bytes) returns (r: seq<Pair>)
      requires store.txOpen
      ensures Listed(r) == MemStep(store.View(this), Scan(scope, prefix)).1
    {
      r := ScanPrefix(staged, scope, prefix);
    }

    method PutHere(scope: Scope, key: bytes, value: bytes)
      requires store.txOpen
      modifies this`staged
      ensures store.View(this) == MemStep(old(store.View(this)), PutKey(scope, key, value)).0
    {
      var entries := if scope in staged then staged[scope] else map[];
      staged := staged[scope := entries[key := value]];
    }

    method DeleteHere(scope: Scope, key: bytes)
      requires store.txOpen
      modifies this`staged
      ensures store.View(this) == MemStep(old(store.View(this)), DeleteKey(scope, key)).0
    {
      if scope in staged {
        staged := staged[scope := staged[scope] - {key}];
      }
    }

    method DeletePrefixHere(scope: Scope, prefix: bytes)
      requires store.txOpen
      modifies this`staged
      ensures store.View(this) == MemStep(old(store.View(this)), DropPrefix(scope, prefix)).0
    {
      if scope in staged {
        staged := staged[scope := map k | k in staged[scope] && !(prefix <= k) :: staged[scope][k]];
      }
    }

    method DeleteScopeHere(scope: Scope)
      requires store.txOpen
      modifies this`staged
      ensures store.View(this) == MemStep(old(store.View(this)), DropScope(scope)).0
    {
      staged := staged - {scope};
    }

    method DeleteNamespaceHere(ns: bytes)
      requires store.txOpen
      modifies this`staged
      ensures store.View(this) == MemStep(old(store.View(this)), DropNamespace(ns)).0
    {
      staged := map s | s in staged && s.ns != ns :: staged[s];
    }

    method Commit()
      requires store.txOpen
      modifies this`staged, store
      ensures store.View(this) == MemStep(old(store.View(this)), Call.Commit).0
    {
      store.kv, staged := staged, map[];
      Drop();
    }

    method Drop()
      requires store.txOpen
      modifies store`txOpen
      ensures store.View(this) == MemStep(old(store.View(this)), Discard).0
    {
      store.txOpen := false;
    }
  }
}
