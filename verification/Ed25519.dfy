/**
 * Ed25519 keys and signatures as the account code uses them. The curve itself is a
 * parameter, `Scheme`; the canonical-encoding rule is done on bytes here, as section
 * 5.1.3 of RFC 8032 requires.
 */
module Ed25519 {
  import opened Bytes

  const KEY_LEN := 32

  type Key = k: bytes | |k| == KEY_LEN witness seq(KEY_LEN, _ => 0)
  type Signature = s: bytes | |s| == 64 witness seq(64, _ => 0)

  datatype KeyFault = NotCanonical | NotOnCurve | SmallOrder

  /** The backend: point decoding, the small-order test, signing and strict verification. */
  datatype Scheme = Scheme(
    onCurve: Key -> bool,
    weak: Key -> bool,
    verifyingKey: bytes -> Key,
    sign: (bytes, bytes) -> Signature,
    verify: (Key, bytes, Signature) -> bool
  )

  /** What the account code relies on: a signature made with a seed verifies under its key. */
  ghost predicate Sound(scheme: Scheme) {
    forall seed: bytes, msg: bytes ::
      scheme.verify(scheme.verifyingKey(seed), msg, scheme.sign(seed, msg))
  }

  /** The field prime, lowest byte first. */
  const FIELD_ORDER_LE: Key := [0xed] + seq(30, _ => 0xff) + [0x7f]

  function Pow2(n: nat): (p: nat)
    ensures p > 0
  {
    if n == 0 then 1 else 2 * Pow2(n - 1)
  }

  /** The number a little-endian byte string stands for. */
  function Value(s: bytes): nat {
    if |s| == 0 then 0 else var lo: int := s[0]; lo + 256 * Value(s[1..])
  }

  /** The coordinate an encoding carries: its low 255 bits. */
  function YOf(key: Key): nat { Value(key) % Pow2(255) }

  predicate Canonical(key: Key) { YOf(key) < Pow2(255) - 19 }

  /** The admission rule for a verifying key, faults in the order they are tested. */
  function FromCanonicalBytes(scheme: Scheme, key: Key): Result<Key, KeyFault> {
    if !Canonical(key) then Err(NotCanonical)
    else if !scheme.onCurve(key) then Err(NotOnCurve)
    else if scheme.weak(key) then Err(SmallOrder)
    else Ok(key)
  }

  lemma {:induction false} Pow2Bytes(n: nat)
    ensures Pow2(8 * n + 8) == 256 * Pow2(8 * n)
  {
    assert Pow2(8 * n + 8) == 2 * Pow2(8 * n + 7) == 4 * Pow2(8 * n + 6);
    assert Pow2(8 * n + 6) == 2 * Pow2(8 * n + 5) == 4 * Pow2(8 * n + 4);
    assert Pow2(8 * n + 4) == 2 * Pow2(8 * n + 3) == 4 * Pow2(8 * n + 2);
    assert Pow2(8 * n + 2) == 2 * Pow2(8 * n + 1) == 4 * Pow2(8 * n);
  }

  /** The first difference from the top decides the order. */
  lemma {:induction false} TopDifferenceDecides(a: bytes, b: bytes, i: nat)
    requires |a| == |b| && i < |a| && a[i + 1..] == b[i + 1..] && a[i] != b[i]
    ensures Value(a) < Value(b) <==> a[i] < b[i]
    ensures Value(a) != Value(b)
  {
    if i == 0 {
    } else {
      assert a[1..][i..] == a[i + 1..] && b[1..][i..] == b[i + 1..];
      TopDifferenceDecides(a[1..], b[1..], i - 1);
    }
  }

  lemma {:induction false} ValueOfTop(s: bytes, top: byte)
    ensures Value(s + [top]) == Value(s) + top * Pow2(8 * |s|)
    ensures Value(s) < Pow2(8 * |s|)
  {
    if |s| == 0 {
      assert s + [top] == [top];
    } else {
      assert (s + [top])[1..] == s[1..] + [top];
      ValueOfTop(s[1..], top);
      var p := Pow2(8 * |s[1..]|);
      assert Pow2(8 * |s|) == 256 * p by { Pow2Bytes(|s| - 1); }
      assert 256 * (top * p) == top * (256 * p);
    }
  }

  lemma {:induction false} ValueOfOnes(n: nat)
    ensures Value(seq(n, _ => 0xff) + [0x7f]) + 1 == 128 * Pow2(8 * n)
  {
    var s: bytes := seq(n, _ => 0xff) + [0x7f];
    if n == 0 {
    } else {
      assert s[1..] == seq(n - 1, _ => 0xff) + [0x7f];
      ValueOfOnes(n - 1);
      Pow2Bytes(n - 1);
    }
  }

  lemma Pow255()
    ensures Pow2(255) == 128 * Pow2(248)
  {
    assert Pow2(255) == 2 * Pow2(254) == 4 * Pow2(253);
    assert Pow2(253) == 2 * Pow2(252) == 4 * Pow2(251);
    assert Pow2(251) == 2 * Pow2(250) == 4 * Pow2(249);
  }

  lemma FieldOrder()
    ensures Value(FIELD_ORDER_LE) == Pow2(255) - 19
  {
    assert FIELD_ORDER_LE[1..] == seq(30, _ => 0xff) + [0x7f];
    ValueOfOnes(30);
    Pow2Bytes(30);
    Pow255();
  }

  lemma ModWrapsOnce(x: nat, q: nat)
    requires x < q
    ensures x % q == x && (x + q) % q == x
  {
    var d, m := (x + q) / q, (x + q) % q;
    assert x + q == d * q + m;
    assert d >= 2 ==> d * q >= 2 * q;
  }

  lemma SplitTop(low: nat, p: nat, sign: nat, rest: nat)
    requires low < p && sign <= 1 && rest < 128
    ensures (low + (128 * sign + rest) * p) % (128 * p) == low + rest * p
  {
    var x, q := low + rest * p, 128 * p;
    assert x < q by { assert rest * p <= 127 * p; }
    ModWrapsOnce(x, q);
    assert low + (128 * sign + rest) * p == if sign == 0 then x else x + q;
  }

  /** Clearing the sign bit leaves exactly the low 255 bits. */
  lemma MaskDropsSignBit(key: Key)
    ensures Value(key[31 := key[31] % 128]) == YOf(key)
  {
    var low, top := key[..31], key[31];
    assert key == low + [top] && key[31 := top % 128] == low + [top % 128];
    ValueOfTop(low, top);
    ValueOfTop(low, top % 128);
    Pow255();
    SplitTop(Value(low), Pow2(248), top / 128, top % 128);
    assert 128 * (top / 128) + top % 128 == top;
  }

  /** The byte comparison: copy, clear the sign bit, compare downwards from byte 31. */
  method IsCanonicalY(key: Key) returns (canonical: bool)
    ensures canonical <==> Value(key) % Pow2(255) < Pow2(255) - 19
  {
    var y := new byte[KEY_LEN](i requires 0 <= i < KEY_LEN => key[i]);
    y[31] := y[31] % 128;
    assert y[..] == key[31 := key[31] % 128];
    MaskDropsSignBit(key);
    FieldOrder();
    var i := KEY_LEN;
    while i > 0
      invariant 0 <= i <= KEY_LEN
      invariant y[i..] == FIELD_ORDER_LE[i..]
    {
      i := i - 1;
      if y[i] != FIELD_ORDER_LE[i] {
        TopDifferenceDecides(y[..], FIELD_ORDER_LE, i);
        return y[i] < FIELD_ORDER_LE[i];
      }
    }
    assert y[..] == FIELD_ORDER_LE;
    return false;
  }

  /** What a verifying key must be: canonically encoded, a curve point, and not of small order. */
  predicate Usable(scheme: Scheme, key: Key) {
    Value(key) % Pow2(255) < Pow2(255) - 19 && scheme.onCurve(key) && !scheme.weak(key)
  }

  /** Admission accepts exactly the usable keys and otherwise names the first condition that fails. */
  lemma AdmissionExact(scheme: Scheme, key: Key)
    ensures var r, canonical := FromCanonicalBytes(scheme, key), Value(key) % Pow2(255) < Pow2(255) - 19;
            && (r == Ok(key) <==> Usable(scheme, key))
            && (r == Err(NotCanonical) <==> !canonical)
            && (r == Err(NotOnCurve) <==> canonical && !scheme.onCurve(key))
            && (r == Err(SmallOrder) <==> canonical && scheme.onCurve(key) && scheme.weak(key))
  {
  }

  /** The admission rule as it is carried out, on the byte comparison. */
  method AdmitKey(scheme: Scheme, key: Key) returns (r: Result<Key, KeyFault>)
    ensures r == Ok(key) <==> Usable(scheme, key)
    ensures r == FromCanonicalBytes(scheme, key)
  {
    AdmissionExact(scheme, key);
    var canonical := IsCanonicalY(key);
    if !canonical {
      return Err(NotCanonical);
    }
    if !scheme.onCurve(key) {
      return Err(NotOnCurve);
    }
    if scheme.weak(key) {
      return Err(SmallOrder);
    }
    r := Ok(key);
  }
}
