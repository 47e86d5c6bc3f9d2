/**
 * The wire format: a domain prefix, then one frame per entry (opcode, two length bytes, body)
 * with nothing left over.
 */
module Codec {
  import opened Bytes
  import opened Contexts
  import opened Ed25519
  import opened AccountLogs

  /** `logos:accounts:1\0` and its stem `logos:accounts:`. */
  const DOMAIN: bytes := [108, 111, 103, 111, 115, 58, 97, 99, 99, 111, 117, 110, 116, 115, 58, 49, 0]
  const STEM: bytes := DOMAIN[..15]
  const MAX_PAYLOAD := 128 * 1024
  const OP_ADD: byte := 1
  const OP_REMOVE: byte := 2
  const DATA_ED25519: byte := 1
  const DATA_TEXT: byte := 2

  /** Encoded bytes: both constructors refuse a longer payload. */
  type Payload = p: bytes | |p| <= MAX_PAYLOAD witness []

  // ----- Encoding -----

  function TagOf(data: EntryData): byte {
    match data
    case Ed25519Key(_) => DATA_ED25519
    case Text(_) => DATA_TEXT
    case UnknownData(tag, _) => tag
  }

  function RawOf(data: EntryData): bytes {
    match data
    case Ed25519Key(key) => key
    case Text(text) => text
    case UnknownData(_, raw) => raw
  }

  function EncodeAdd(context: Context, data: EntryData): bytes {
    [|AsBytes(context)| % 256] + (AsBytes(context) + ([TagOf(data)] + RawOf(data)))
  }

  function OpcodeOf(e: AccountEntry): byte {
    match e
    case Add(_, _) => OP_ADD
    case Remove(_) => OP_REMOVE
    case Unknown(opcode, _) => opcode
  }

  function BodyOf(e: AccountEntry): bytes {
    match e
    case Add(context, data) => EncodeAdd(context, data)
    case Remove(index) => Le32(index)
    case Unknown(_, body) => body
  }

  /** One frame. The length field keeps only the low 16 bits of the body length. */
  function Frame(opcode: byte, body: bytes): bytes {
    ([opcode] + Le16(|body| % 0x1_0000)) + body
  }

  function EncodeEntry(e: AccountEntry): bytes {
    Frame(OpcodeOf(e), BodyOf(e))
  }

  function EncodeAll(es: Log): bytes {
    if |es| == 0 then [] else EncodeEntry(es[0]) + EncodeAll(es[1..])
  }

  function Encode(es: Log): Result<Payload, LogError> {
    var out := DOMAIN + EncodeAll(es);
    if |out| > MAX_PAYLOAD then Err(TooLarge) else Ok(out)
  }

  lemma {:induction false} EncodeAllConcat(es: Log, fs: Log)
    ensures EncodeAll(es + fs) == EncodeAll(es) + EncodeAll(fs)
  {
    if |es| == 0 {
      assert es + fs == fs;
    } else {
      assert (es + fs)[1..] == es[1..] + fs;
      EncodeAllConcat(es[1..], fs);
    }
  }

  lemma EncodeOne(e: AccountEntry)
    ensures EncodeAll([e]) == EncodeEntry(e)
  {
    assert [e][1..] == [];
  }

  lemma EncodeAllPush(out: bytes, es: Log, i: nat)
    requires i < |es|
    ensures out + EncodeAll(es[..i + 1]) == (out + EncodeAll(es[..i])) + EncodeEntry(es[i])
  {
    assert es[..i + 1] == es[..i] + [es[i]];
    EncodeAllConcat(es[..i], [es[i]]);
    EncodeOne(es[i]);
    JoinAssoc(out, EncodeAll(es[..i]), EncodeEntry(es[i]));
  }

  method PushFrame(out: bytes, e: AccountEntry) returns (grown: bytes)
    ensures grown == out + EncodeEntry(e)
  {
    var body := BodyOf(e);
    grown := out + [OpcodeOf(e)];
    grown := grown + Le16(|body| % 0x1_0000);
    grown := grown + body;
  }

  method EncodeEntries(es: Log) returns (r: Result<Payload, LogError>)
    ensures r == Encode(es)
  {
    var out := DOMAIN;
    for i := 0 to |es|
      invariant out == DOMAIN + EncodeAll(es[..i])
    {
      EncodeAllPush(DOMAIN, es, i);
      out := PushFrame(out, es[i]);
    }
    assert es[..|es|] == es;
    if |out| > MAX_PAYLOAD {
      return Err(TooLarge);
    }
    return Ok(out);
  }

  // ----- Decoding -----

  function SplitAtChecked(s: bytes, mid: nat): Result<(bytes, bytes), LogError> {
    if |s| < mid then Err(Truncated) else Ok((s[..mid], s[mid..]))
  }

  function DecodeAdd(body: bytes): Result<AccountEntry, LogError> {
    if |body| == 0 then Err(EmptyAdd) else
    if body[0] == 0 then Err(ZeroContextLength) else
    var (name, rest) :- SplitAtChecked(body[1..], body[0]);
    DecodeNamed(name, rest)
  }

  function DecodeNamed(name: bytes, rest: bytes): Result<AccountEntry, LogError> {
    match Parse(name)
    case Err(fault) => Err(InvalidContext(fault))
    case Ok(context) =>
      if |rest| == 0 then Err(NoDataTag) else
      var data :- DecodeData(rest[0], rest[1..]);
      Ok(Add(context, data))
  }

  function DecodeData(tag: byte, raw: bytes): (r: Result<EntryData, LogError>)
    ensures r.Ok? ==> TagOf(r.value) == tag && RawOf(r.value) == raw && TagUsed(r.value)
  {
    if tag == DATA_ED25519 then
      if |raw| != KEY_LEN then Err(KeyLength(|raw|)) else Ok(Ed25519Key(raw))
    else if tag == DATA_TEXT then
      if !IsUtf8(raw) then Err(TextNotUtf8) else Ok(Text(raw))
    else Ok(UnknownData(tag, raw))
  }

  /** An unreadable kind does not carry the tag of a readable one. */
  predicate TagUsed(data: EntryData) {
    data.UnknownData? ==> data.tag != DATA_ED25519 && data.tag != DATA_TEXT
  }

  function DecodeEntry(input: bytes): (r: Result<(AccountEntry, bytes), LogError>)
    ensures r.Ok? ==> |r.value.1| < |input|
    ensures r.Err? ==> r.error != SignatureInvalid
  {
    var (header, tail) :- SplitAtChecked(input, 3);
    var opcode := header[0];
    if opcode / 16 != 0 then Err(ReservedOpcode(opcode)) else
    var len := FromLe16(header[1..]);
    var (body, rest) :- SplitAtChecked(tail, len);
    var entry :- DecodeFramed(opcode, body);
    Ok((entry, rest))
  }

  function DecodeFramed(opcode: byte, body: bytes): (r: Result<AccountEntry, LogError>)
    ensures r.Err? ==> r.error != SignatureInvalid
  {
    if opcode == OP_ADD then DecodeAdd(body)
    else if opcode == OP_REMOVE then
      if |body| != 4 then Err(RemoveLength(|body|)) else Ok(Remove(FromLe32(body)))
    else Ok(Unknown(opcode, body))
  }

  function DecodeBody(body: bytes): (r: Result<Log, LogError>)
    ensures r.Err? ==> r.error != SignatureInvalid
    decreases |body|
  {
    if |body| == 0 then Ok([]) else
    var (entry, rest) :- DecodeEntry(body);
    var entries :- DecodeBody(rest);
    Ok([entry] + entries)
  }

  /** Why the prefix did not match: the payload names some other version, or is of another kind. */
  function DomainError(payload: bytes): LogError {
    if STEM <= payload then
      var rest := payload[|STEM|..];
      var end := FirstNul(Window(rest));
      if end.Some? then Version(rest[..end.value]) else MissingDomain
    else MissingDomain
  }

  function FirstNul(s: bytes): (r: Option<nat>)
    ensures r.Some? ==> r.value < |s|
  {
    if |s| == 0 then None
    else if s[0] == 0 then Some(0)
    else match FirstNul(s[1..]) case None => None case Some(n) => Some(n + 1)
  }

  function Decode(payload: bytes): Result<Log, LogError> {
    if DOMAIN <= payload then DecodeBody(payload[|DOMAIN|..]) else Err(DomainError(payload))
  }

  method DecodeEntries(payload: bytes) returns (r: Result<Log, LogError>)
    ensures r == Decode(payload)
  {
    if !(DOMAIN <= payload) {
      return Err(DomainError(payload));
    }
    var body := payload[|DOMAIN|..];
    var entries: Log := [];
    assert forall more: Log :: entries + more == more;
    while |body| > 0
      invariant Decode(payload) == match DecodeBody(body)
                                   case Ok(more) => Ok(entries + more)
                                   case Err(e) => Err(e)
      decreases |body|
    {
      var step := DecodeEntry(body);
      match step {
        case Err(e) => return Err(e);
        case Ok((entry, rest)) =>
          assert forall more: Log :: entries + ([entry] + more) == (entries + [entry]) + more;
          entries, body := entries + [entry], rest;
      }
    }
    assert entries + [] == entries;
    return Ok(entries);
  }

  /** The payload's own decoder: framing first, then the log's validity rules. */
  function DecodeLog(scheme: Scheme, payload: bytes): Result<Log, LogError> {
    var entries :- Decode(payload);
    FromEntries(scheme, entries)
  }

  // ----- One entry both ways -----

  /** An entry the wire can carry: its length fits 16 bits and its code is not taken by a known form. */
  predicate WireForm(e: AccountEntry) {
    && |BodyOf(e)| <= 0xFFFF
    && (e.Unknown? ==> e.opcode < 16 && e.opcode != OP_ADD && e.opcode != OP_REMOVE)
    && (e.Add? ==> TagUsed(e.data))
  }

  predicate AllWireForm(es: Log) { forall i :: 0 <= i < |es| ==> WireForm(es[i]) }

  lemma NamedRoundTrip(context: Context, data: EntryData)
    requires TagUsed(data)
    ensures DecodeNamed(AsBytes(context), [TagOf(data)] + RawOf(data)) == Ok(Add(context, data))
  {
    ContextParses(context);
    SplitOfJoin([TagOf(data)], RawOf(data));
    assert DecodeData(TagOf(data), RawOf(data)) == Ok(data);
  }

  lemma NamedCanonical(name: bytes, rest: bytes)
    requires DecodeNamed(name, rest).Ok?
    ensures var e := DecodeNamed(name, rest).value;
            e.Add? && TagUsed(e.data) && AsBytes(e.context) == name && [TagOf(e.data)] + RawOf(e.data) == rest
  {
    assert rest[..1] == [rest[0]];
    JoinOfSplit(rest, 1);
  }

  lemma AddRoundTrip(context: Context, data: EntryData)
    requires TagUsed(data)
    ensures DecodeAdd(EncodeAdd(context, data)) == Ok(Add(context, data))
  {
    var name, rest := AsBytes(context), [TagOf(data)] + RawOf(data);
    ContextParses(context);
    SmallMod(|name|, 256);
    NamedRoundTrip(context, data);
    SplitOfJoin([|name|], name + rest);
    SplitOfJoin(name, rest);
    assert SplitAtChecked(name + rest, |name|) == Ok((name, rest));
  }

  lemma AddCanonical(body: bytes)
    requires DecodeAdd(body).Ok?
    ensures var e := DecodeAdd(body).value;
            e.Add? && TagUsed(e.data) && EncodeAdd(e.context, e.data) == body
  {
    hide DecodeNamed, AsBytes, TagOf, RawOf, TagUsed;
    var tail := body[1..];
    var name, rest := tail[..body[0]], tail[body[0]..];
    NamedCanonical(name, rest);
    assert DecodeAdd(body) == DecodeNamed(name, rest);
    assert tail == name + rest by { JoinOfSplit(tail, body[0]); }
    assert body == [body[0]] + tail by { JoinOfSplit(body, 1); assert body[..1] == [body[0]]; }
    SmallMod(|name|, 256);
  }

  lemma FramedRoundTrip(e: AccountEntry)
    requires WireForm(e)
    ensures DecodeFramed(OpcodeOf(e), BodyOf(e)) == Ok(e)
  {
    match e {
      case Add(context, data) => AddRoundTrip(context, data);
      case Remove(index) => Le32RoundTrip(index);
      case Unknown(_, _) =>
    }
  }

  lemma FramedCanonical(opcode: byte, body: bytes)
    requires opcode < 16 && |body| <= 0xFFFF && DecodeFramed(opcode, body).Ok?
    ensures var e := DecodeFramed(opcode, body).value;
            WireForm(e) && OpcodeOf(e) == opcode && BodyOf(e) == body
  {
    if opcode == OP_ADD {
      AddCanonical(body);
    } else if opcode == OP_REMOVE {
      Le32OfBytes(body);
    }
  }

  lemma FrameSplits(opcode: byte, body: bytes, rest: bytes)
    requires opcode < 16 && |body| <= 0xFFFF
    ensures DecodeEntry(Frame(opcode, body) + rest) ==
            match DecodeFramed(opcode, body) case Err(e) => Err(e) case Ok(entry) => Ok((entry, rest))
  {
    var header := [opcode] + Le16(|body|);
    SmallMod(|body|, 0x1_0000);
    assert Frame(opcode, body) + rest == header + (body + rest);
    SplitOfJoin([opcode], Le16(|body|));
    SplitOfJoin(header, body + rest);
    SplitOfJoin(body, rest);
    Le16RoundTrip(|body|);
    assert SplitAtChecked(header + (body + rest), 3) == Ok((header, body + rest));
    assert SplitAtChecked(body + rest, |body|) == Ok((body, rest));
  }

  lemma EntryRoundTrip(e: AccountEntry, rest: bytes)
    requires WireForm(e)
    ensures DecodeEntry(EncodeEntry(e) + rest) == Ok((e, rest))
  {
    FramedRoundTrip(e);
    FrameSplits(OpcodeOf(e), BodyOf(e), rest);
  }

  lemma EntryCanonical(input: bytes)
    requires DecodeEntry(input).Ok?
    ensures var (e, rest) := DecodeEntry(input).value;
            WireForm(e) && EncodeEntry(e) + rest == input
  {
    var header, tail := input[..3], input[3..];
    var len := FromLe16(header[1..]);
    var body, rest := tail[..len], tail[len..];
    FramedCanonical(header[0], body);
    FrameJoins(header, body, rest);
    JoinOfSplit(input, 3);
    JoinOfSplit(tail, len);
  }

  lemma FrameJoins(header: bytes, body: bytes, rest: bytes)
    requires |header| == 3 && |body| == FromLe16(header[1..])
    ensures Frame(header[0], body) + rest == header + (body + rest)
  {
    Le16OfBytes(header[1..]);
    SmallMod(|body|, 0x1_0000);
    assert header == [header[0]] + header[1..];
  }

  // ----- The codec both ways -----

  lemma {:induction false} BodyRoundTrip(es: Log)
    requires AllWireForm(es)
    ensures DecodeBody(EncodeAll(es)) == Ok(es)
  {
    if |es| == 0 {
    } else {
      EntryRoundTrip(es[0], EncodeAll(es[1..]));
      BodyRoundTrip(es[1..]);
      assert [es[0]] + es[1..] == es;
    }
  }

  lemma {:induction false} BodyCanonical(body: bytes)
    requires DecodeBody(body).Ok?
    ensures AllWireForm(DecodeBody(body).value) && EncodeAll(DecodeBody(body).value) == body
    decreases |body|
  {
    if |body| == 0 {
    } else {
      EntryCanonical(body);
      var (entry, rest) := DecodeEntry(body).value;
      BodyCanonical(rest);
      var more := DecodeBody(rest).value;
      assert ([entry] + more)[1..] == more;
    }
  }

  /** Every payload that decodes re-encodes to exactly the same bytes. */
  lemma DecodeThenEncode(payload: Payload)
    requires Decode(payload).Ok?
    ensures Encode(Decode(payload).value) == Ok(payload)
    ensures AllWireForm(Decode(payload).value)
  {
    BodyCanonical(payload[|DOMAIN|..]);
    assert payload == DOMAIN + payload[|DOMAIN|..];
  }

  /** An encodable log decodes to itself exactly when the wire can carry each of its entries. */
  lemma EncodeThenDecode(es: Log)
    requires Encode(es).Ok?
    ensures Decode(Encode(es).value) == Ok(es) <==> AllWireForm(es)
  {
    var payload := Encode(es).value;
    DecodeAfterDomain(EncodeAll(es));
    if AllWireForm(es) {
      BodyRoundTrip(es);
    }
    if Decode(payload) == Ok(es) {
      DecodeThenEncode(payload);
    }
  }

  /** The same for whole logs: a valid log survives the wire exactly when its entries fit it. */
  lemma LogRoundTrip(scheme: Scheme, es: Log)
    requires ValidLog(scheme, es) && Encode(es).Ok?
    ensures DecodeLog(scheme, Encode(es).value) == Ok(es) <==> AllWireForm(es)
  {
    EncodeThenDecode(es);
    FromEntriesExact(scheme, es);
    if Decode(Encode(es).value).Ok? {
      FromEntriesExact(scheme, Decode(Encode(es).value).value);
    }
  }

  predicate Ascii(s: bytes) { forall i :: 0 <= i < |s| ==> s[i] < 0x80 }

  lemma {:induction false} AsciiIsText(s: bytes)
    requires Ascii(s)
    ensures IsUtf8(s)
    decreases |s|
  {
    if |s| == 0 {
    } else {
      AsciiIsText(s[1..]);
    }
  }

  /** `n` letters: valid text of any length. */
  function Letters(n: nat): bytes { seq(n, _ => 97) }

  lemma LettersAreText(n: nat)
    ensures IsUtf8(Letters(n))
  {
    AsciiIsText(Letters(n));
  }

  /** The narrowing is real: under any context, one record within the cap encodes to unreadable bytes. */
  lemma LongBodyIsLost(context: Context)
    ensures exists text: Utf8 ::
              var es := [Add(context, Text(text))];
              Encode(es).Ok? && Decode(Encode(es).value) == Err(EmptyAdd)
  {
    hide DecodeBody, AsBytes;
    ContextParses(context);
    var text := Letters(0x1_0000 - 2 - |AsBytes(context)|);
    LettersAreText(|text|);
    var e := Add(context, Text(text));
    assert |BodyOf(e)| == 0x1_0000;
    ZeroLengthAddIsUnreadable(BodyOf(e));
    EncodeOne(e);
    DecodeAfterDomain(EncodeEntry(e));
    assert Decode(Encode([e]).value) == Err(EmptyAdd);
  }

  /** What the narrowing does to any body: the frame is read up to the low 16 bits of the length, and
      what is cut off follows it as if it were further entries. */
  lemma LongBodyIsReframed(opcode: byte, body: bytes)
    ensures var kept := |body| % 0x1_0000;
            Frame(opcode, body) == Frame(opcode, body[..kept]) + body[kept..]
  {
    var kept := |body| % 0x1_0000;
    SmallMod(kept, 0x1_0000);
    JoinOfSplit(body, kept);
    JoinAssoc([opcode] + Le16(kept), body[..kept], body[kept..]);
  }

  /** So a text that spells out entries is read as those entries: the log that comes back is another one. */
  lemma LongTextIsReadAsEntries(context: Context, xs: Log)
    requires AllWireForm(xs) && |EncodeAll(xs)| == 0x1_0000 && IsUtf8(EncodeAll(xs))
    ensures EncodeAll([Add(context, Text(EncodeAll(xs)))]) == EncodeAll([Add(context, Text([]))] + xs)
    ensures DecodeBody(EncodeAll([Add(context, Text(EncodeAll(xs)))])) == Ok([Add(context, Text([]))] + xs)
  {
    hide DecodeBody, EncodeEntry, WireForm;
    var long, short := Add(context, Text(EncodeAll(xs))), Add(context, Text([]));
    LongTextBytes(context, EncodeAll(xs));
    EncodeOne(long);
    EncodeOne(short);
    EncodeAllConcat([short], xs);
    BodyRoundTrip([short] + xs);
  }

  lemma LongTextBytes(context: Context, text: Utf8)
    requires |text| == 0x1_0000
    ensures EncodeEntry(Add(context, Text(text))) == EncodeEntry(Add(context, Text([]))) + text
    ensures WireForm(Add(context, Text([])))
  {
    hide EncodeAdd, Frame;
    TextBody(context, text);
    CutFrame(OP_ADD, EncodeAdd(context, Text([])), text);
  }

  lemma TextBody(context: Context, text: Utf8)
    ensures EncodeAdd(context, Text(text)) == EncodeAdd(context, Text([])) + text
    ensures |EncodeAdd(context, Text([]))| <= 83
  {
    hide AsBytes;
    ContextParses(context);
    Nested([|AsBytes(context)| % 256], AsBytes(context), [DATA_TEXT], text);
  }

  lemma CutFrame(opcode: byte, kept: bytes, text: bytes)
    requires |kept| < 0x1_0000 && |text| == 0x1_0000
    ensures Frame(opcode, kept + text) == Frame(opcode, kept) + text
  {
    hide Frame;
    CutAt(|kept|, |text|);
    SplitOfJoin(kept, text);
    LongBodyIsReframed(opcode, kept + text);
  }

  lemma CutAt(kept: nat, more: nat)
    requires kept < 0x1_0000 && more == 0x1_0000
    ensures (kept + more) % 0x1_0000 == kept
  {
  }

  lemma Nested(a: bytes, b: bytes, c: bytes, t: bytes)
    ensures (a + (b + (c + []))) + t == a + (b + (c + t))
  {
    assert c + [] == c;
    JoinAssoc(a, b + c, t);
    JoinAssoc(b, c, t);
  }

  /** An entry of an unknown kind, readable as text. */
  function Filler(n: nat): AccountEntry { Unknown(0x0f, Letters(n)) }

  lemma FillerBytes(n: nat)
    requires n < 0x8000 && n % 256 < 0x80
    ensures WireForm(Filler(n)) && |EncodeEntry(Filler(n))| == n + 3 && Ascii(EncodeEntry(Filler(n)))
  {
    SmallMod(n, 0x1_0000);
    var head := [0x0f] + Le16(n);
    assert head[1] < 0x80 && head[2] < 0x80;
  }

  /** Such texts exist, under every context: a one-entry log comes back as a log of five entries. */
  lemma LongTextCanBecomeEntries(context: Context)
    ensures exists text: Utf8, xs: Log ::
              && |xs| == 4
              && DecodeBody(EncodeAll([Add(context, Text(text))])) == Ok([Add(context, Text([]))] + xs)
  {
    hide EncodeEntry, DecodeBody, WireForm, Ascii, Filler, IsUtf8;
    var a, b := Filler(0x5550), Filler(4);
    FillerBytes(0x5550);
    FillerBytes(4);
    var xs := [a, a, a, b];
    FourEntries(a, b);
    AsciiIsText(EncodeAll(xs));
    LongTextIsReadAsEntries(context, xs);
    var text: Utf8 := EncodeAll(xs);
    assert DecodeBody(EncodeAll([Add(context, Text(text))])) == Ok([Add(context, Text([]))] + xs);
  }

  lemma FourEntries(a: AccountEntry, b: AccountEntry)
    requires WireForm(a) && WireForm(b) && Ascii(EncodeEntry(a)) && Ascii(EncodeEntry(b))
    ensures AllWireForm([a, a, a, b]) && Ascii(EncodeAll([a, a, a, b]))
    ensures |EncodeAll([a, a, a, b])| == 3 * |EncodeEntry(a)| + |EncodeEntry(b)|
  {
    hide EncodeEntry, WireForm;
    EncodeAllConcat([a, a, a], [b]);
    EncodeAllConcat([a, a], [a]);
    EncodeAllConcat([a], [a]);
    assert [a] + [a] == [a, a] && [a, a] + [a] == [a, a, a] && [a, a, a] + [b] == [a, a, a, b];
    EncodeOne(a);
    EncodeOne(b);
  }

  lemma DecodeAfterDomain(body: bytes)
    ensures Decode(DOMAIN + body) == DecodeBody(body)
  {
    SplitOfJoin(DOMAIN, body);
  }

  lemma ZeroLengthAddIsUnreadable(body: bytes)
    ensures DecodeBody(([OP_ADD] + Le16(0)) + body) == Err(EmptyAdd)
  {
    SplitOfJoin([OP_ADD], Le16(0));
    SplitOfJoin([OP_ADD] + Le16(0), body);
    Le16RoundTrip(0);
    assert DecodeEntry(([OP_ADD] + Le16(0)) + body) == Err(EmptyAdd);
  }

  // ----- What is rejected, and how -----

  /** Decoding is the inverse of encoding on the entries the wire can carry, and undefined elsewhere. */
  lemma DecodesExactly(payload: Payload, es: Log)
    ensures Decode(payload) == Ok(es) <==> AllWireForm(es) && Encode(es) == Ok(payload)
  {
    hide Decode, Encode, WireForm;
    if Decode(payload).Ok? {
      DecodeThenEncode(payload);
    }
    if AllWireForm(es) && Encode(es) == Ok(payload) {
      EncodeThenDecode(es);
    }
  }

  /** After any readable entries, the first unreadable one decides the error. */
  lemma {:induction false} FirstBadEntryDecides(es: Log, bad: bytes)
    requires AllWireForm(es) && |bad| > 0 && DecodeEntry(bad).Err?
    ensures DecodeBody(EncodeAll(es) + bad) == Err(DecodeEntry(bad).error)
  {
    hide DecodeEntry, EncodeEntry, WireForm;
    if |es| == 0 {
      assert EncodeAll(es) + bad == bad;
    } else {
      FirstBadEntryDecides(es[1..], bad);
      JoinAssoc(EncodeEntry(es[0]), EncodeAll(es[1..]), bad);
      EntryRoundTrip(es[0], EncodeAll(es[1..]) + bad);
      EntryIsNotEmpty(es[0]);
    }
  }

  lemma EntryIsNotEmpty(e: AccountEntry)
    ensures |EncodeEntry(e)| > 0
  {
  }

  /** The header: too short, a reserved opcode, or a length past the end. */
  lemma HeaderFaults(input: bytes, opcode: byte, len: u16, tail: bytes)
    ensures |input| < 3 ==> DecodeEntry(input) == Err(Truncated)
    ensures opcode >= 16 ==> DecodeEntry(([opcode] + Le16(len)) + tail) == Err(ReservedOpcode(opcode))
    ensures opcode < 16 && |tail| < len ==> DecodeEntry(([opcode] + Le16(len)) + tail) == Err(Truncated)
  {
    hide DecodeFramed;
    SplitOfJoin([opcode], Le16(len));
    SplitOfJoin([opcode] + Le16(len), tail);
    Le16RoundTrip(len);
    assert SplitAtChecked(([opcode] + Le16(len)) + tail, 3) == Ok(([opcode] + Le16(len), tail));
  }

  /** The body of a remove or an add, each fault with its own error. */
  lemma BodyFaults(body: bytes, name: bytes, rest: bytes)
    ensures |body| != 4 ==> DecodeFramed(OP_REMOVE, body) == Err(RemoveLength(|body|))
    ensures DecodeFramed(OP_ADD, []) == Err(EmptyAdd)
    ensures DecodeFramed(OP_ADD, [0] + rest) == Err(ZeroContextLength)
    ensures |rest| < 255 ==> DecodeFramed(OP_ADD, [|rest| + 1] + rest) == Err(Truncated)
    ensures 1 <= |name| <= 255 ==> DecodeFramed(OP_ADD, [|name|] + (name + rest)) == DecodeNamed(name, rest)
  {
    hide DecodeNamed;
    SplitOfJoin([0], rest);
    if |rest| < 255 {
      SplitOfJoin([|rest| + 1], rest);
    }
    if 1 <= |name| <= 255 {
      SplitOfJoin([|name|], name + rest);
      SplitOfJoin(name, rest);
    }
  }

  lemma NamedFaults(name: bytes, raw: bytes)
    ensures !Grammar(name) ==> Parse(name).Err? && DecodeNamed(name, raw) == Err(InvalidContext(Parse(name).error))
    ensures Grammar(name) ==> DecodeNamed(name, []) == Err(NoDataTag)
    ensures Grammar(name) && |raw| != KEY_LEN ==> DecodeNamed(name, [DATA_ED25519] + raw) == Err(KeyLength(|raw|))
    ensures Grammar(name) && !IsUtf8(raw) ==> DecodeNamed(name, [DATA_TEXT] + raw) == Err(TextNotUtf8)
  {
    hide Parse, Grammar, IsUtf8;
    GrammarParses(name);
    SplitOfJoin([DATA_ED25519], raw);
    SplitOfJoin([DATA_TEXT], raw);
  }

  lemma GrammarParses(name: bytes)
    ensures Parse(name).Ok? <==> Grammar(name)
  {
  }

  /** A foreign prefix is a version of ours exactly when the stem is followed by at most fifteen bytes and a zero. */
  lemma VersionExact(payload: bytes, segment: bytes)
    requires !(DOMAIN <= payload)
    ensures Decode(payload) == Err(Version(segment)) <==>
            |segment| < 16 && 0 !in segment && (STEM + segment) + [0] <= payload
    ensures (forall s :: Decode(payload) != Err(Version(s))) ==> Decode(payload) == Err(MissingDomain)
  {
    hide DecodeBody, FirstNul;
    if (STEM + segment) + [0] <= payload { StemComesFirst(payload, segment); }
    if STEM <= payload {
      var rest := payload[|STEM|..];
      JoinOfSplit(payload, |STEM|);
      SegmentFits(payload, rest, segment);
      SegmentExact(rest, segment);
    }
  }

  lemma StemComesFirst(payload: bytes, segment: bytes)
    requires (STEM + segment) + [0] <= payload
    ensures STEM <= payload
  {
    assert STEM <= STEM + segment <= (STEM + segment) + [0];
  }

  function Window(rest: bytes): bytes { if |rest| > 16 then rest[..16] else rest }

  lemma SegmentExact(rest: bytes, segment: bytes)
    ensures var end := FirstNul(Window(rest));
            (end.Some? && rest[..end.value] == segment) <==>
            |segment| < 16 && 0 !in segment && segment + [0] <= rest
  {
    var window := Window(rest);
    var end := FirstNul(window);
    FirstNulExact(window);
    assert forall i :: 0 <= i < |window| ==> window[i] == rest[i];
    if end.Some? && rest[..end.value] == segment {
      assert forall i :: 0 <= i < |segment| ==> segment[i] == rest[i];
      assert segment + [0] == rest[..end.value + 1];
    }
    if |segment| < 16 && 0 !in segment && segment + [0] <= rest {
      var k := |segment|;
      assert (segment + [0])[k] == rest[k] == 0 && window[k] == 0;
      assert forall i :: 0 <= i < k ==> (segment + [0])[i] == segment[i] == rest[i];
      assert rest[..k] == segment;
    }
  }

  lemma SegmentFits(payload: bytes, rest: bytes, segment: bytes)
    requires payload == STEM + rest
    ensures (STEM + segment) + [0] <= payload <==> segment + [0] <= rest
  {
    JoinAssoc(STEM, segment, [0]);
    var tail := segment + [0];
    if STEM + tail <= payload {
      assert forall i :: 0 <= i < |tail| ==> tail[i] == (STEM + tail)[|STEM| + i] == payload[|STEM| + i] == rest[i];
    }
    if tail <= rest {
      assert forall i :: |STEM| <= i < |STEM + tail| ==> (STEM + tail)[i] == tail[i - |STEM|] == rest[i - |STEM|] == payload[i];
    }
  }

  lemma {:induction false} FirstNulExact(s: bytes)
    ensures match FirstNul(s)
            case None => 0 !in s
            case Some(n) => s[n] == 0 && forall i :: 0 <= i < n ==> s[i] != 0
  {
    if |s| == 0 {
    } else {
      FirstNulExact(s[1..]);
      assert s == [s[0]] + s[1..];
      assert forall i :: 0 < i < |s| ==> s[i] == s[1..][i - 1];
    }
  }

  // ----- The published vectors -----

  /** `chat.messaging`. */
  const CHAT_MESSAGING: bytes := [99, 104, 97, 116, 46, 109, 101, 115, 115, 97, 103, 105, 110, 103]

  /** The byte layout of a key entry under `chat.messaging`. */
  lemma KeyEntryBytes(context: Context, key: Key)
    requires AsBytes(context) == CHAT_MESSAGING
    ensures EncodeEntry(Add(context, Ed25519Key(key))) ==
            ([0x01] + [0x30, 0x00]) + ([0x0e] + (CHAT_MESSAGING + ([0x01] + key)))
  {
    hide AsBytes;
    var body := EncodeAdd(context, Ed25519Key(key));
    assert |body| == 0x30;
    SmallMod(0x30, 0x1_0000);
    SmallMod(0x0e, 256);
    assert Le16(0x30) == [0x30, 0x00];
  }

  lemma OtherEntryBytes()
    ensures EncodeEntry(Unknown(0x0f, [0xde, 0xad, 0xbe, 0xef])) == ([0x0f] + [0x04, 0x00]) + [0xde, 0xad, 0xbe, 0xef]
    ensures EncodeEntry(Remove(0)) == ([0x02] + [0x04, 0x00]) + [0x00, 0x00, 0x00, 0x00]
  {
    SmallMod(4, 0x1_0000);
    assert Le16(4) == [0x04, 0x00] && Le32(0) == [0x00, 0x00, 0x00, 0x00];
  }

  /** The specification's log of one key, byte for byte. */
  lemma KeyVector(context: Context, key: Key)
    requires AsBytes(context) == CHAT_MESSAGING
    ensures Encode([Add(context, Ed25519Key(key))]) ==
            Ok(DOMAIN + (([0x01] + [0x30, 0x00]) + ([0x0e] + (CHAT_MESSAGING + ([0x01] + key)))))
  {
    hide EncodeEntry, EncodeAll, AsBytes;
    KeyEntryBytes(context, key);
    EncodeOne(Add(context, Ed25519Key(key)));
  }

  /** The specification's log of a key, an unknown entry and a removal of the key, byte for byte. */
  lemma UnknownEntryVector(context: Context, key: Key)
    requires AsBytes(context) == CHAT_MESSAGING
    ensures Encode([Add(context, Ed25519Key(key)), Unknown(0x0f, [0xde, 0xad, 0xbe, 0xef]), Remove(0)]) ==
            Ok(DOMAIN
               + (([0x01] + [0x30, 0x00]) + ([0x0e] + (CHAT_MESSAGING + ([0x01] + key))))
               + (([0x0f] + [0x04, 0x00]) + [0xde, 0xad, 0xbe, 0xef])
               + (([0x02] + [0x04, 0x00]) + [0x00, 0x00, 0x00, 0x00]))
  {
    hide EncodeEntry, EncodeAll, AsBytes;
    KeyEntryBytes(context, key);
    OtherEntryBytes();
    ThreeEntries(Add(context, Ed25519Key(key)), Unknown(0x0f, [0xde, 0xad, 0xbe, 0xef]), Remove(0));
  }

  /** A text entry and a removal as the specification's other vectors spell them. */
  lemma TextAndRemoveVectors(context: Context, text: Utf8)
    requires AsBytes(context) == DISPLAY_NAME && text == ALICE
    ensures EncodeEntry(Add(context, Text(text))) ==
            ([0x01] + [0x1a, 0x00]) + ([0x13] + (DISPLAY_NAME + ([0x02] + ALICE)))
    ensures EncodeEntry(Remove(1)) == ([0x02] + [0x04, 0x00]) + [0x01, 0x00, 0x00, 0x00]
  {
    hide AsBytes, IsUtf8;
    var body := EncodeAdd(context, Text(text));
    assert |body| == 0x1a;
    SmallMod(0x1a, 0x1_0000);
    SmallMod(0x13, 256);
    assert Le16(0x1a) == [0x1a, 0x00];
    RemoveOneBytes();
  }

  lemma RemoveOneBytes()
    ensures EncodeEntry(Remove(1)) == ([0x02] + [0x04, 0x00]) + [0x01, 0x00, 0x00, 0x00]
  {
    SmallMod(4, 0x1_0000);
    assert Le16(4) == [0x04, 0x00] && Le32(1) == [0x01, 0x00, 0x00, 0x00];
  }

  /** `profile.displayname` and `alice`. */
  const DISPLAY_NAME: bytes :=
    [112, 114, 111, 102, 105, 108, 101, 46, 100, 105, 115, 112, 108, 97, 121, 110, 97, 109, 101]
  const ALICE: bytes := [97, 108, 105, 99, 101]

  lemma ThreeEntries(a: AccountEntry, b: AccountEntry, c: AccountEntry)
    ensures DOMAIN + EncodeAll([a, b, c]) == DOMAIN + EncodeEntry(a) + EncodeEntry(b) + EncodeEntry(c)
  {
    EncodeAllConcat([a, b], [c]);
    EncodeAllConcat([a], [b]);
    assert [a, b] + [c] == [a, b, c] && [a] + [b] == [a, b];
    EncodeOne(a);
    EncodeOne(b);
    EncodeOne(c);
    JoinAssoc(DOMAIN, EncodeEntry(a) + EncodeEntry(b), EncodeEntry(c));
    JoinAssoc(DOMAIN, EncodeEntry(a), EncodeEntry(b));
  }

  // ----- Byte prefix is entry prefix -----

  lemma HeadsAgree(e: AccountEntry, f: AccountEntry, x: bytes, y: bytes)
    requires WireForm(e) && WireForm(f) && EncodeEntry(e) + x <= EncodeEntry(f) + y
    ensures e == f && x <= y
  {
    PrefixOfJoin(EncodeEntry(e), x, EncodeEntry(f) + y);
    EntryRoundTrip(e, x + (EncodeEntry(f) + y)[|EncodeEntry(e) + x|..]);
    EntryRoundTrip(f, y);
  }

  lemma {:induction false} FramingIsSelfDelimiting(a: Log, b: Log)
    requires AllWireForm(a) && AllWireForm(b) && EncodeAll(a) <= EncodeAll(b)
    ensures a <= b
  {
    if |a| == 0 {
    } else {
      assert |b| > 0;
      HeadsAgree(a[0], b[0], EncodeAll(a[1..]), EncodeAll(b[1..]));
      FramingIsSelfDelimiting(a[1..], b[1..]);
    }
  }

  lemma PrefixEncodes(a: Log, b: Log)
    requires a <= b
    ensures EncodeAll(a) <= EncodeAll(b)
  {
    assert b == a + b[|a|..];
    EncodeAllConcat(a, b[|a|..]);
  }

  /** For two decodable payloads, byte prefix holds exactly when entry-list prefix holds. */
  lemma BytePrefixIsEntryPrefix(p: Payload, q: Payload)
    requires Decode(p).Ok? && Decode(q).Ok?
    ensures p <= q <==> Decode(p).value <= Decode(q).value
  {
    var a, b := Decode(p).value, Decode(q).value;
    DecodeThenEncode(p);
    DecodeThenEncode(q);
    assert p[|DOMAIN|..] == EncodeAll(a) && q[|DOMAIN|..] == EncodeAll(b);
    if p <= q {
      assert EncodeAll(a) <= EncodeAll(b);
      FramingIsSelfDelimiting(a, b);
    }
    if a <= b {
      PrefixEncodes(a, b);
    }
  }

  datatype Freshness = Newer | Identical | Behind | Diverged

  function CompareLogFreshness(existing: bytes, candidate: bytes): Freshness {
    if candidate == existing then Identical
    else if existing <= candidate && |candidate| > |existing| then Newer
    else if candidate <= existing then Behind
    else Diverged
  }

  /** The verdict on bytes is the verdict on logs: extension, equality, prefix or incomparability. */
  lemma FreshnessIsLogOrder(existing: Payload, candidate: Payload)
    requires Decode(existing).Ok? && Decode(candidate).Ok?
    ensures var old', new' := Decode(existing).value, Decode(candidate).value;
            match CompareLogFreshness(existing, candidate)
            case Newer => old' < new'
            case Identical => old' == new'
            case Behind => new' < old'
            case Diverged => !(old' <= new') && !(new' <= old')
  {
    BytePrefixIsEntryPrefix(existing, candidate);
    BytePrefixIsEntryPrefix(candidate, existing);
  }

  // ----- The transmitted artifact -----

  datatype SignedLog = SignedLog(payload: Payload, signature: Signature)

  function ToBytes(signed: SignedLog): bytes { signed.signature + signed.payload }

  function FromBytes(artifact: bytes): Result<SignedLog, LogError> {
    if |artifact| < 64 + |DOMAIN| then Err(ArtifactTooShort)
    else if |artifact| - 64 > MAX_PAYLOAD then Err(TooLarge)
    else Ok(SignedLog(artifact[64..], artifact[..64]))
  }

  /** An artifact is the signature, then the payload. Splitting undoes joining exactly for payloads long
      enough to hold the domain, and fails exactly for artifacts too short for it or over the cap. */
  lemma ArtifactRoundTrip(signed: SignedLog, artifact: bytes)
    ensures |ToBytes(signed)| == 64 + |signed.payload|
    ensures ToBytes(signed)[..64] == signed.signature && ToBytes(signed)[64..] == signed.payload
    ensures FromBytes(ToBytes(signed)) == Ok(signed) <==> |signed.payload| >= |DOMAIN|
    ensures FromBytes(artifact).Ok? ==> ToBytes(FromBytes(artifact).value) == artifact
    ensures FromBytes(artifact) == Err(ArtifactTooShort) <==> |artifact| < 64 + |DOMAIN|
    ensures FromBytes(artifact) == Err(TooLarge) <==> |artifact| > 64 + MAX_PAYLOAD
  {
    var joined := ToBytes(signed);
    assert joined[..64] == signed.signature && joined[64..] == signed.payload;
  }

  function Verify(scheme: Scheme, signed: SignedLog, addr: Key): Result<Log, LogError> {
    if !scheme.verify(addr, signed.payload, signed.signature) then Err(SignatureInvalid)
    else DecodeLog(scheme, signed.payload)
  }

  /** The payload is signed for `addr`, spells out `log`, and the log is valid. */
  ghost predicate Authentic(scheme: Scheme, addr: Key, signed: SignedLog, log: Log) {
    && scheme.verify(addr, signed.payload, signed.signature)
    && Decode(signed.payload) == Ok(log)
    && ValidLog(scheme, log)
  }

  /** What there is to say against a log that is not authentic. */
  ghost predicate Refuses(scheme: Scheme, addr: Key, signed: SignedLog, error: LogError) {
    if !scheme.verify(addr, signed.payload, signed.signature) then error == SignatureInvalid
    else match Decode(signed.payload)
         case Err(e) => error == e
         case Ok(log) => !ValidLog(scheme, log) && FromEntries(scheme, log) == Err(error)
  }

  /** Verification accepts exactly the authentic logs; a bad signature is told before anything is read. */
  lemma VerifyExact(scheme: Scheme, signed: SignedLog, addr: Key)
    ensures forall log :: Verify(scheme, signed, addr) == Ok(log) <==> Authentic(scheme, addr, signed, log)
    ensures Verify(scheme, signed, addr) == Err(SignatureInvalid) <==>
            !scheme.verify(addr, signed.payload, signed.signature)
    ensures forall e :: Verify(scheme, signed, addr) == Err(e) <==> Refuses(scheme, addr, signed, e)
  {
    hide DecodeBody, ValidLog;
    if Decode(signed.payload).Ok? {
      FromEntriesExact(scheme, Decode(signed.payload).value);
    }
  }
}
