/** Hexadecimal text, as it names signers inside causal-history payloads. */
module HexText {
  import opened Bytes

  const PIPE: byte := 124

  function Digit(n: int): byte
    requires 0 <= n < 16
  {
    if n < 10 then 48 + n else 87 + n
  }

  /** Both letter cases are read, although only lower case is written. */
  function DigitValue(c: byte): (v: Option<byte>)
    ensures v.Some? ==> v.value < 16
  {
    if 48 <= c <= 57 then Some(c - 48)
    else if 97 <= c <= 102 then Some(c - 87)
    else if 65 <= c <= 70 then Some(c - 55)
    else None
  }

  function Hex(s: bytes): bytes {
    if |s| == 0 then [] else [Digit(s[0] / 16), Digit(s[0] % 16)] + Hex(s[1..])
  }

  function UnHex(t: bytes): Option<bytes> {
    if |t| == 0 then Some([])
    else if |t| == 1 then None
    else match (DigitValue(t[0]), DigitValue(t[1]), UnHex(t[2..]))
         case (Some(hi), Some(lo), Some(rest)) =>
           var high: int := hi;
           Some([16 * high + lo] + rest)
         case _ => None
  }

  /** Parsing what was displayed gives the signer back. */
  lemma {:induction false} HexRoundTrip(s: bytes)
    ensures UnHex(Hex(s)) == Some(s)
  {
    if |s| == 0 {
    } else {
      assert Hex(s)[2..] == Hex(s[1..]);
      HexRoundTrip(s[1..]);
      assert [s[0]] + s[1..] == s;
    }
  }

  /** `c` is the digit of value `v`, as a numeral or a letter of either case. */
  predicate DigitFor(c: byte, v: int) {
    (0 <= v < 10 && c == 48 + v) || (10 <= v < 16 && (c == 97 + (v - 10) || c == 65 + (v - 10)))
  }

  lemma DigitValueExact(c: byte, v: byte)
    ensures DigitValue(c) == Some(v) <==> DigitFor(c, v)
  {
  }

  /** The text is digits only, two for each byte, the high half first. */
  ghost predicate Spells(t: bytes, s: bytes) {
    && |t| == 2 * |s|
    && forall i :: 0 <= i < |s| ==>
         && DigitFor(t[2 * i], s[i] / 16)
         && DigitFor(t[2 * i + 1], s[i] % 16)
  }

  lemma SpellsStep(t: bytes, s: bytes)
    requires |t| >= 2 && |s| > 0
    ensures Spells(t, s) <==>
            && DigitFor(t[0], s[0] / 16) && DigitFor(t[1], s[0] % 16)
            && Spells(t[2..], s[1..])
  {
    if Spells(t, s) {
      assert DigitFor(t[2 * 0], s[0] / 16) && DigitFor(t[2 * 0 + 1], s[0] % 16);
      forall i | 0 <= i < |s| - 1
        ensures DigitFor(t[2..][2 * i], s[1..][i] / 16) && DigitFor(t[2..][2 * i + 1], s[1..][i] % 16)
      {
        assert s[1..][i] == s[i + 1] && t[2..][2 * i] == t[2 * (i + 1)] && t[2..][2 * i + 1] == t[2 * (i + 1) + 1];
      }
    }
    if DigitFor(t[0], s[0] / 16) && DigitFor(t[1], s[0] % 16) && Spells(t[2..], s[1..]) {
      forall i | 0 < i < |s|
        ensures DigitFor(t[2 * i], s[i] / 16) && DigitFor(t[2 * i + 1], s[i] % 16)
      {
        assert s[1..][i - 1] == s[i] && t[2..][2 * (i - 1)] == t[2 * i] && t[2..][2 * (i - 1) + 1] == t[2 * i + 1];
      }
    }
  }

  /** Text is read as a signer exactly when it spells it in hex, in either letter case. */
  lemma {:induction false} UnHexExact(t: bytes, s: bytes)
    ensures UnHex(t) == Some(s) <==> Spells(t, s)
    decreases |t|
  {
    if |t| < 2 {
    } else if |s| == 0 {
      assert UnHex(t) != Some([]);
    } else {
      SpellsStep(t, s);
      DigitValueExact(t[0], s[0] / 16);
      DigitValueExact(t[1], s[0] % 16);
      UnHexExact(t[2..], s[1..]);
      assert s == [s[0]] + s[1..];
      if UnHex(t) == Some(s) {
        assert s[1..] == UnHex(t[2..]).value;
      }
    }
  }

  lemma {:induction false} HexHasNoPipe(s: bytes)
    ensures PIPE !in Hex(s)
  {
    if |s| == 0 {
    } else {
      HexHasNoPipe(s[1..]);
    }
  }
}
