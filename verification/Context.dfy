/**
 * Contexts: the label an endorsement carries. A context is `<namespace>.<label>`,
 * held in a fixed 81-byte buffer padded with zeros.
 */
module Contexts {
  import opened Bytes

  const MAX_NAMESPACE := 16
  const MAX_LABEL := 64
  const MAX_CONTEXT := MAX_NAMESPACE + 1 + MAX_LABEL
  const DOT: byte := 46
  const DASH: byte := 45

  datatype ContextFault =
    | NoSeparator
    | NamespaceLength
    | LabelLength
    | NamespaceStart
    | LabelStart
    | NamespaceCharset
    | LabelCharset

  /** The buffer and the length of the part in use. */
  datatype RawContext = RawContext(buf: bytes, len: byte)

  /** What the private constructor guarantees of every context. */
  type Context = c: RawContext | IsContext(c) witness Smallest()

  predicate IsContext(c: RawContext) {
    && |c.buf| == MAX_CONTEXT
    && c.len <= MAX_CONTEXT
    && (forall i :: c.len <= i < MAX_CONTEXT ==> c.buf[i] == 0)
    && Grammar(c.buf[..c.len])
  }

  predicate Lower(b: byte) { 97 <= b <= 122 }
  predicate Digit(b: byte) { 48 <= b <= 57 }
  predicate InNamespace(b: byte) { Lower(b) || Digit(b) || b == DASH }
  predicate InLabel(b: byte) { InNamespace(b) || b == DOT }

  /** The grammar, read off the documentation: some full stop splits a namespace from a label. */
  predicate Grammar(s: bytes) {
    exists d :: 0 <= d < |s| && s[d] == DOT && IsNamespace(s[..d]) && IsLabel(s[d + 1..])
  }

  predicate IsNamespace(s: bytes) {
    1 <= |s| <= MAX_NAMESPACE && Lower(s[0]) && forall i :: 0 <= i < |s| ==> InNamespace(s[i])
  }

  predicate IsLabel(s: bytes) {
    1 <= |s| <= MAX_LABEL && Lower(s[0]) && forall i :: 0 <= i < |s| ==> InLabel(s[i])
  }

  function AsBytes(c: Context): bytes { c.buf[..c.len] }

  /** `s` copied into a zeroed buffer. */
  function Seal(s: bytes): (c: RawContext)
    requires |s| <= MAX_CONTEXT
    ensures c.len == |s| <= |c.buf| && c.buf[..c.len] == s
    ensures Grammar(s) ==> IsContext(c)
  {
    RawContext(s + seq(MAX_CONTEXT - |s|, _ => 0), |s|)
  }

  function Smallest(): (c: RawContext)
    ensures IsContext(c)
  {
    var s := [97, DOT, 98];
    assert s[1] == DOT && IsNamespace(s[..1]) && IsLabel(s[2..]);
    Seal(s)
  }

  /** Position of the first full stop at or after `i`, or `|s|`. */
  function FirstDot(s: bytes, i: nat): (d: nat)
    requires i <= |s|
    ensures i <= d <= |s|
    ensures forall k :: i <= k < d ==> s[k] != DOT
    ensures d < |s| ==> s[d] == DOT
    decreases |s| - i
  {
    if i == |s| || s[i] == DOT then i else FirstDot(s, i + 1)
  }

  /** The rule with its faults in the order they are tested. */
  function Parse(s: bytes): (r: Result<Context, ContextFault>)
    ensures r.Ok? <==> Grammar(s)
    ensures r.Ok? ==> AsBytes(r.value) == s
  {
    FirstDotSplits(s);
    var d := FirstDot(s, 0);
    if d == |s| then Err(NoSeparator) else
    var namespace, lbl := s[..d], s[d + 1..];
    if |namespace| == 0 || |namespace| > MAX_NAMESPACE then Err(NamespaceLength)
    else if |lbl| == 0 || |lbl| > MAX_LABEL then Err(LabelLength)
    else if !Lower(namespace[0]) then Err(NamespaceStart)
    else if !Lower(lbl[0]) then Err(LabelStart)
    else if exists i :: 0 <= i < |namespace| && !InNamespace(namespace[i]) then Err(NamespaceCharset)
    else if exists i :: 0 <= i < |lbl| && !InLabel(lbl[i]) then Err(LabelCharset)
    else Ok(Seal(s))
  }

  /** A namespace holds no full stop, so the first one is the only split the grammar allows. */
  lemma FirstDotSplits(s: bytes)
    ensures var d := FirstDot(s, 0);
            Grammar(s) <==> d < |s| && IsNamespace(s[..d]) && IsLabel(s[d + 1..])
  {
    if !Grammar(s) { return; }
    var d :| 0 <= d < |s| && s[d] == DOT && IsNamespace(s[..d]) && IsLabel(s[d + 1..]);
    forall k | 0 <= k < d ensures s[k] != DOT {
      assert InNamespace(s[..d][k]);
    }
    assert FirstDot(s, 0) == d;
  }

  /** Derived equality compares the whole buffer; it agrees with comparing the text. */
  lemma EqualityIsByteEquality(a: Context, b: Context)
    ensures a == b <==> AsBytes(a) == AsBytes(b)
  {
    if AsBytes(a) == AsBytes(b) {
      assert a.len == |AsBytes(a)| == |AsBytes(b)| == b.len;
      forall i | 0 <= i < MAX_CONTEXT ensures a.buf[i] == b.buf[i] {
        if i < a.len {
          assert a.buf[i] == AsBytes(a)[i] == AsBytes(b)[i] == b.buf[i];
        }
      }
    }
  }

  /** A held context parses back to itself, and its length fits the one-byte length field. */
  lemma ContextParses(c: Context)
    ensures Parse(AsBytes(c)) == Ok(c)
    ensures 3 <= |AsBytes(c)| <= MAX_CONTEXT
  {
    EqualityIsByteEquality(c, Parse(AsBytes(c)).value);
  }

  /** Each way of breaking the grammar has its own fault, the earliest in this order being told. */
  lemma ParseFaults(namespace: bytes, lbl: bytes)
    requires DOT !in namespace
    ensures Parse(namespace) == Err(NoSeparator)
    ensures var r := Parse(namespace + [DOT] + lbl);
            var longName, longLabel := !(1 <= |namespace| <= MAX_NAMESPACE), !(1 <= |lbl| <= MAX_LABEL);
            && (r == Err(NamespaceLength) <==> longName)
            && (r == Err(LabelLength) <==> !longName && longLabel)
            && (!longName && !longLabel ==>
                  var badStart := !Lower(namespace[0]);
                  && (r == Err(NamespaceStart) <==> badStart)
                  && (r == Err(LabelStart) <==> !badStart && !Lower(lbl[0]))
                  && (!badStart && Lower(lbl[0]) ==>
                        && (r == Err(NamespaceCharset) <==> exists b :: b in namespace && !InNamespace(b))
                        && (r == Err(LabelCharset) <==>
                              (forall b :: b in namespace ==> InNamespace(b)) && exists b :: b in lbl && !InLabel(b))))
  {
    var s := namespace + [DOT] + lbl;
    assert s[|namespace|] == DOT && forall k :: 0 <= k < |namespace| ==> s[k] == namespace[k];
    assert FirstDot(s, 0) == |namespace|;
    assert s[..|namespace|] == namespace && s[|namespace| + 1..] == lbl;
    assert FirstDot(namespace, 0) == |namespace|;
  }

  method FindDot(context: bytes) returns (dot: nat)
    ensures dot == FirstDot(context, 0)
  {
    dot := |context|;
    var i := 0;
    while i < |context|
      invariant 0 <= i <= |context| == dot
      invariant FirstDot(context, 0) == FirstDot(context, i)
    {
      if context[i] == DOT {
        return i;
      }
      i := i + 1;
    }
  }

  method AllAllowed(part: bytes, dotAllowed: bool) returns (ok: bool)
    ensures ok <==> forall k :: 0 <= k < |part| ==> InNamespace(part[k]) || (dotAllowed && part[k] == DOT)
  {
    var i := 0;
    while i < |part|
      invariant 0 <= i <= |part|
      invariant forall k :: 0 <= k < i ==> InNamespace(part[k]) || (dotAllowed && part[k] == DOT)
    {
      if !(InNamespace(part[i]) || (dotAllowed && part[i] == DOT)) {
        return false;
      }
      i := i + 1;
    }
    return true;
  }

  method CopyToBuffer(context: bytes) returns (c: RawContext)
    requires |context| <= MAX_CONTEXT
    ensures c == Seal(context)
  {
    var buf := new byte[MAX_CONTEXT](_ => 0);
    var i := 0;
    while i < |context|
      invariant 0 <= i <= |context|
      invariant forall k :: 0 <= k < MAX_CONTEXT ==> buf[k] == if k < i then context[k] else 0
    {
      buf[i] := context[i];
      i := i + 1;
    }
    assert buf[..] == context + seq(MAX_CONTEXT - |context|, _ => 0);
    c := RawContext(buf[..], |context|);
  }

  /** The constructor: its scanning loops are the two methods above, its copying loop the third. */
  method Checked(context: bytes) returns (r: Result<Context, ContextFault>)
    ensures r == Parse(context)
  {
    var dot := FindDot(context);
    if dot == |context| {
      return Err(NoSeparator);
    }
    var namespace, lbl := context[..dot], context[dot + 1..];
    if |namespace| == 0 || |namespace| > MAX_NAMESPACE {
      return Err(NamespaceLength);
    }
    if |lbl| == 0 || |lbl| > MAX_LABEL {
      return Err(LabelLength);
    }
    if !Lower(namespace[0]) {
      return Err(NamespaceStart);
    }
    if !Lower(lbl[0]) {
      return Err(LabelStart);
    }
    var ok := AllAllowed(namespace, false);
    if !ok {
      return Err(NamespaceCharset);
    }
    ok := AllAllowed(lbl, true);
    if !ok {
      return Err(LabelCharset);
    }
    var sealed := CopyToBuffer(context);
    r := Ok(sealed);
  }
}
