/**
 The `DIGCHAT1` envelope: a length-prefixed, big-endian byte layout, the cursor that reads it from
 untrusted bytes, and the serializer that writes it (crates/dig-app-core/src/digchat.rs).
 */
module Envelope {
  import opened Arithmetic
  import opened Wrappers
  import opened Utf8

  const MAGIC: seq<byte> := [0x44, 0x49, 0x47, 0x43, 0x48, 0x41, 0x54, 0x31]
  const VERSION: byte := 1
  const SUITE: byte := 1
  const KEY_LEN := 32
  const NONCE_LEN := 24
  const MAX_DID_BYTES := 512
  // The largest value of a 64-bit `usize`; no slice is longer.
  const USIZE_MAX := 0xFFFF_FFFF_FFFF_FFFF

  type Key = k: seq<byte> | |k| == KEY_LEN witness seq(KEY_LEN, _ => 0)
  type Nonce = n: seq<byte> | |n| == NONCE_LEN witness seq(NONCE_LEN, _ => 0)

  /** What a malformed envelope is malformed in: a field cut short, a field of the wrong value, or too much. */
  datatype What =
    | Magic | Version | Suite | SenderDid | RecipientDid | Epk | NonceBytes | CiphertextLength | Ciphertext
    | BadMagic | UnknownVersion | UnknownSuite | TrailingBytes

  datatype Error =
    | PlaintextTooLarge(size: nat)
    | BadDid
    | Malformed(what: What)
    | NotAuthentic

  datatype Envelope = Envelope(
    senderDid: string, recipientDid: string, epk: Key, nonce: Nonce, ciphertext: seq<byte>)

  // ---------------------------------------------------------------- the layout

  /** `n as u16` in big-endian order: the cast keeps the low sixteen bits. */
  function U16Be(n: nat): seq<byte> {
    [n / 256 % 256, n % 256]
  }

  function U16Of(bs: seq<byte>): nat
    requires |bs| == 2
  {
    bs[0] as int * 256 + bs[1]
  }

  /** `n as u32` in big-endian order: the cast keeps the low thirty-two bits. */
  function U32Be(n: nat): seq<byte> {
    U16Be(n / 0x1_0000 % 0x1_0000) + U16Be(n % 0x1_0000)
  }

  function U32Of(bs: seq<byte>): nat
    requires |bs| == 4
  {
    U16Of(bs[..2]) * 0x1_0000 + U16Of(bs[2..])
  }

  predicate ValidDid(did: string) {
    1 <= |Encode(did)| <= MAX_DID_BYTES
  }

  /** A field of the header whose length travels in front of it. */
  function Prefixed(bs: seq<byte>): seq<byte> {
    U16Be(|bs|) + bs
  }

  /** Everything the AEAD authenticates besides the message. */
  function AssociatedData(sender: seq<byte>, recipient: seq<byte>, epk: Key): seq<byte> {
    MAGIC + [VERSION, SUITE] + Prefixed(sender) + Prefixed(recipient) + epk
  }

  /** The wire: the associated data, then the nonce, the ciphertext length and the ciphertext. */
  function Wire(e: Envelope): seq<byte> {
    AssociatedData(Encode(e.senderDid), Encode(e.recipientDid), e.epk)
    + e.nonce + U32Be(|e.ciphertext|) + e.ciphertext
  }

  /** What the wire can carry: DIDs within the limit and a ciphertext whose length fits four octets. */
  predicate Sendable(e: Envelope) {
    ValidDid(e.senderDid) && ValidDid(e.recipientDid) && |e.ciphertext| < 0x1_0000_0000
  }

  // ---------------------------------------------------------------- writing

  /** UTF-8 octets of a DID, refusing an empty or over-long one. */
  function DidBytes(did: string): Result<seq<byte>, Error> {
    if 1 <= |Encode(did)| <= MAX_DID_BYTES then Ok(Encode(did)) else Err(BadDid)
  }

  method BuildAssociatedData(sender: seq<byte>, recipient: seq<byte>, epk: Key) returns (aad: seq<byte>)
    ensures aad == AssociatedData(sender, recipient, epk)
  {
    aad := MAGIC;
    aad := aad + [VERSION];
    aad := aad + [SUITE];
    aad := aad + U16Be(|sender|);
    aad := aad + sender;
    aad := aad + U16Be(|recipient|);
    aad := aad + recipient;
    aad := aad + epk;
  }

  method EncodeEnvelope(e: Envelope) returns (r: Result<seq<byte>, Error>)
    ensures r == if ValidDid(e.senderDid) && ValidDid(e.recipientDid) then Ok(Wire(e)) else Err(BadDid)
  {
    var sender :- DidBytes(e.senderDid);
    var recipient :- DidBytes(e.recipientDid);
    var out := MAGIC;
    out := out + [VERSION];
    out := out + [SUITE];
    out := out + U16Be(|sender|);
    out := out + sender;
    out := out + U16Be(|recipient|);
    out := out + recipient;
    out := out + e.epk;
    assert out == AssociatedData(sender, recipient, e.epk);
    out := out + e.nonce;
    out := out + U32Be(|e.ciphertext|);
    out := out + e.ciphertext;
    return Ok(out);
  }

  // ---------------------------------------------------------------- reading

  /** The `len` octets of `bs` from `at` on, if they are all there. */
  function TakeAt(bs: seq<byte>, at: nat, len: nat, what: What): (r: Result<seq<byte>, Error>)
    ensures r.Ok? ==> |r.value| == len
  {
    if at + len <= |bs| then Ok(bs[at..at + len]) else Err(Malformed(what))
  }

  /** The DID field at `at`, and where the next field starts. */
  function DidAt(bs: seq<byte>, at: nat, what: What): Result<(string, nat), Error> {
    var prefix :- TakeAt(bs, at, 2, what);
    var len := U16Of(prefix);
    if len == 0 || len > MAX_DID_BYTES then Err(BadDid)
    else
      var raw :- TakeAt(bs, at + 2, len, what);
      match Decode(raw)
      case None => Err(BadDid)
      case Some(did) => Ok((did, at + 2 + len))
  }

  /** What `bs` parses to, field by field in wire order. */
  function Parsed(bs: seq<byte>): Result<Envelope, Error> {
    var magic :- TakeAt(bs, 0, |MAGIC|, Magic);
    if magic != MAGIC then Err(Malformed(BadMagic)) else
    var version :- TakeAt(bs, 8, 1, Version);
    if version[0] != VERSION then Err(Malformed(UnknownVersion)) else
    var suite :- TakeAt(bs, 9, 1, Suite);
    if suite[0] != SUITE then Err(Malformed(UnknownSuite)) else
    Addressed(bs)
  }

  function Addressed(bs: seq<byte>): Result<Envelope, Error> {
    var (sender, recipientAt) :- DidAt(bs, 10, SenderDid);
    var (recipient, epkAt) :- DidAt(bs, recipientAt, RecipientDid);
    Body(bs, sender, recipient, epkAt)
  }

  function Body(bs: seq<byte>, sender: string, recipient: string, at: nat): Result<Envelope, Error> {
    var epk :- TakeAt(bs, at, KEY_LEN, Epk);
    var nonce :- TakeAt(bs, at + 32, NONCE_LEN, NonceBytes);
    var length :- TakeAt(bs, at + 56, 4, CiphertextLength);
    var ciphertext :- TakeAt(bs, at + 60, U32Of(length), Ciphertext);
    if at + 60 + |ciphertext| != |bs| then Err(Malformed(TrailingBytes))
    else Ok(Envelope(sender, recipient, epk, nonce, ciphertext))
  }

  /** The bounds-checked cursor. `at` never passes the end of `bytes`. */
  class Reader {
    const bytes: seq<byte>
    var at: nat

    ghost predicate Valid()
      reads this
    {
      at <= |bytes| <= USIZE_MAX
    }

    constructor (bytes: seq<byte>)
      requires |bytes| <= USIZE_MAX
      ensures Valid() && this.bytes == bytes && at == 0
    {
      this.bytes := bytes;
      at := 0;
    }

    method Take(len: nat, what: What) returns (r: Result<seq<byte>, Error>)
      requires Valid()
      modifies this
      ensures Valid()
      ensures r == TakeAt(bytes, old(at), len, what)
      ensures at == if r.Ok? then old(at) + len else old(at)
    {
      var end := at + len;
      if end > USIZE_MAX {
        return Err(Malformed(what));
      }
      if end > |bytes| {
        return Err(Malformed(what));
      }
      var slice := bytes[at..end];
      at := end;
      return Ok(slice);
    }

    method TakeU8(what: What) returns (r: Result<byte, Error>)
      requires Valid()
      modifies this
      ensures Valid()
      ensures var t := TakeAt(bytes, old(at), 1, what);
              r == if t.Ok? then Ok(t.value[0]) else Err(t.error)
      ensures at == if r.Ok? then old(at) + 1 else old(at)
    {
      var b :- Take(1, what);
      return Ok(b[0]);
    }

    method TakeU16(what: What) returns (r: Result<nat, Error>)
      requires Valid()
      modifies this
      ensures Valid()
      ensures var t := TakeAt(bytes, old(at), 2, what);
              r == if t.Ok? then Ok(U16Of(t.value)) else Err(t.error)
      ensures at == if r.Ok? then old(at) + 2 else old(at)
    {
      var b :- Take(2, what);
      return Ok(b[0] as int * 256 + b[1]);
    }

    method TakeU32(what: What) returns (r: Result<nat, Error>)
      requires Valid()
      modifies this
      ensures Valid()
      ensures var t := TakeAt(bytes, old(at), 4, what);
              r == if t.Ok? then Ok(U32Of(t.value)) else Err(t.error)
      ensures at == if r.Ok? then old(at) + 4 else old(at)
    {
      var b :- Take(4, what);
      return Ok(((b[0] as int * 256 + b[1]) * 256 + b[2]) * 256 + b[3]);
    }

    method TakeDid(what: What) returns (r: Result<string, Error>)
      requires Valid()
      modifies this
      ensures Valid()
      ensures var t := DidAt(bytes, old(at), what);
              if t.Ok? then r == Ok(t.value.0) && at == t.value.1 else r == Err(t.error)
    {
      var len :- TakeU16(what);
      if len == 0 || len > MAX_DID_BYTES {
        return Err(BadDid);
      }
      var raw :- Take(len, what);
      match Decode(raw) {
        case None => return Err(BadDid);
        case Some(did) => return Ok(did);
      }
    }
  }

  method DecodeEnvelope(bytes: seq<byte>) returns (r: Result<Envelope, Error>)
    requires |bytes| <= USIZE_MAX
    ensures r == Parsed(bytes)
  {
    hide DidAt, U16Of, U32Of, Decode;
    var reader := new Reader(bytes);
    var magic :- reader.Take(|MAGIC|, Magic);
    if magic != MAGIC {
      return Err(Malformed(BadMagic));
    }
    var version :- reader.TakeU8(Version);
    if version != VERSION {
      return Err(Malformed(UnknownVersion));
    }
    var suite :- reader.TakeU8(Suite);
    if suite != SUITE {
      return Err(Malformed(UnknownSuite));
    }
    var sender :- reader.TakeDid(SenderDid);
    var recipient :- reader.TakeDid(RecipientDid);
    var epk :- reader.Take(KEY_LEN, Epk);
    var nonce :- reader.Take(NONCE_LEN, NonceBytes);
    var length :- reader.TakeU32(CiphertextLength);
    var ciphertext :- reader.Take(length, Ciphertext);
    if reader.at != |bytes| {
      return Err(Malformed(TrailingBytes));
    }
    return Ok(Envelope(sender, recipient, epk, nonce, ciphertext));
  }

  // ---------------------------------------------------------------- the layout is exact

  lemma U16RoundTrip(n: nat)
    ensures U16Of(U16Be(n)) == n % 0x1_0000
  {
    Nested(n, 256, 256);
  }

  lemma Halves(n: nat)
    ensures n / 0x1_0000 % 0x1_0000 * 0x1_0000 + n % 0x1_0000 == n % 0x1_0000_0000
  {
    Nested(n, 0x1_0000, 0x1_0000);
  }

  lemma U32RoundTrip(n: nat)
    ensures |U32Be(n)| == 4 && U32Of(U32Be(n)) == n % 0x1_0000_0000
  {
    hide U16Of;
    Halves(n);
    var high, low := n / 0x1_0000 % 0x1_0000, n % 0x1_0000;
    U16RoundTrip(high);
    U16RoundTrip(low);
    assert U32Be(n)[..2] == U16Be(high) && U32Be(n)[2..] == U16Be(low);
  }

  lemma U16Unique(bs: seq<byte>)
    requires |bs| == 2
    ensures U16Be(U16Of(bs)) == bs
  {
    QuotientOf(bs[0], bs[1], 256);
  }

  lemma U32Unique(bs: seq<byte>)
    requires |bs| == 4
    ensures U32Be(U32Of(bs)) == bs
  {
    hide U16Of, U16Be;
    U16Unique(bs[..2]);
    U16Unique(bs[2..]);
    U16Bound(bs[..2]);
    U16Bound(bs[2..]);
    HalvesBack(U16Of(bs[..2]), U16Of(bs[2..]));
    assert bs == bs[..2] + bs[2..];
  }

  lemma U16Bound(bs: seq<byte>)
    requires |bs| == 2
    ensures U16Of(bs) < 0x1_0000
  {
  }

  lemma HalvesBack(high: nat, low: nat)
    requires high < 0x1_0000 && low < 0x1_0000
    ensures var n := high * 0x1_0000 + low; n / 0x1_0000 % 0x1_0000 == high && n % 0x1_0000 == low
  {
    QuotientOf(high, low, 0x1_0000);
  }

  lemma MiddleSlices(before: seq<byte>, x: seq<byte>, y: seq<byte>, after: seq<byte>)
    ensures var bs, at := before + (x + y) + after, |before|;
            bs[at..at + |x|] == x && bs[at + |x|..at + |x| + |y|] == y
  {
  }

  /** A DID field reads back as the DID it was written from, wherever it stands. */
  lemma DidFieldReadsBack(bs: seq<byte>, before: seq<byte>, did: string, after: seq<byte>, what: What)
    requires ValidDid(did) && bs == before + Prefixed(Encode(did)) + after
    ensures DidAt(bs, |before|, what) == Ok((did, |before| + 2 + |Encode(did)|))
  {
    hide Encode, Decode, U16Of;
    var raw := Encode(did);
    MiddleSlices(before, U16Be(|raw|), raw, after);
    U16RoundTrip(|raw|);
    DecodeOfEncode(did);
  }

  /** The DID field `DidAt` accepts is the field of the DID it returns. */
  lemma DidFieldUnique(bs: seq<byte>, at: nat, what: What, did: string, next: nat)
    requires DidAt(bs, at, what) == Ok((did, next))
    ensures ValidDid(did) && at <= next <= |bs| && bs[at..next] == Prefixed(Encode(did))
  {
    hide Encode, Decode, U16Of, U16Be;
    var prefix := bs[at..at + 2];
    var raw := bs[at + 2..next];
    U16Unique(prefix);
    EncodeOfDecode(raw, did);
    assert bs[at..next] == prefix + raw;
  }

  /** The header up to the ephemeral key. */
  function Head(sender: string, recipient: string): seq<byte> {
    MAGIC + [VERSION, SUITE] + Prefixed(Encode(sender)) + Prefixed(Encode(recipient))
  }

  /** Everything after the header's two DIDs. */
  function Tail(e: Envelope): seq<byte> {
    e.epk + e.nonce + U32Be(|e.ciphertext|) + e.ciphertext
  }

  lemma WireSplit(e: Envelope)
    ensures Wire(e) == Head(e.senderDid, e.recipientDid) + Tail(e)
    ensures |Head(e.senderDid, e.recipientDid)| == 14 + |Encode(e.senderDid)| + |Encode(e.recipientDid)|
  {
  }

  lemma PreambleParses(rest: seq<byte>)
    ensures Parsed(MAGIC + [VERSION, SUITE] + rest) == Addressed(MAGIC + [VERSION, SUITE] + rest)
  {
    var bs := MAGIC + [VERSION, SUITE] + rest;
    assert bs[0..8] == MAGIC && bs[8..9] == [VERSION] && bs[9..10] == [SUITE];
  }

  lemma PreambleIsWritten(bs: seq<byte>)
    requires Parsed(bs).Ok?
    ensures |bs| >= 10 && bs[..10] == MAGIC + [VERSION, SUITE] && Parsed(bs) == Addressed(bs)
  {
    assert bs[0..8] == MAGIC && bs[8..9] == [VERSION] && bs[9..10] == [SUITE];
    assert bs[..10] == bs[0..8] + bs[8..9] + bs[9..10];
  }

  /** The header of a wire parses up to the body, whatever follows. */
  lemma HeadParses(sender: string, recipient: string, rest: seq<byte>)
    requires ValidDid(sender) && ValidDid(recipient)
    ensures Parsed(Head(sender, recipient) + rest)
         == Body(Head(sender, recipient) + rest, sender, recipient, |Head(sender, recipient)|)
  {
    var start := MAGIC + [VERSION, SUITE];
    var first, second := Prefixed(Encode(sender)), Prefixed(Encode(recipient));
    Regroup(start, first, second, rest);
    PreambleParses(first + second + rest);
    DidsParse(start, sender, first, recipient, second, rest);
  }

  lemma DidsParse(
    start: seq<byte>, sender: string, first: seq<byte>, recipient: string, second: seq<byte>, rest: seq<byte>)
    requires |start| == 10 && ValidDid(sender) && ValidDid(recipient)
    requires first == Prefixed(Encode(sender)) && second == Prefixed(Encode(recipient))
    ensures Addressed(start + first + second + rest)
         == Body(start + first + second + rest, sender, recipient, |start + first + second|)
  {
    hide DidAt, Body, ValidDid, Encode;
    var bs := start + first + second + rest;
    Regroup(start, first, second, rest);
    DidFieldReadsBack(bs, start, sender, second + rest, SenderDid);
    DidFieldReadsBack(bs, start + first, recipient, rest, RecipientDid);
    DidsGiveBody(bs, sender, |start + first|, recipient, |start + first + second|);
  }

  lemma DidsGiveBody(bs: seq<byte>, sender: string, at1: nat, recipient: string, at2: nat)
    requires DidAt(bs, 10, SenderDid) == Ok((sender, at1))
    requires DidAt(bs, at1, RecipientDid) == Ok((recipient, at2))
    ensures Addressed(bs) == Body(bs, sender, recipient, at2)
  {
  }

  lemma Regroup(a: seq<byte>, b: seq<byte>, c: seq<byte>, d: seq<byte>)
    ensures a + b + c + d == a + (b + c + d) == a + b + (c + d)
  {
  }

  lemma Cut(bs: seq<byte>, i: nat, j: nat, k: nat)
    requires i <= j <= k <= |bs|
    ensures bs == bs[..i] + bs[i..j] + bs[j..k] + bs[k..]
  {
  }

  lemma BodySlices(head: seq<byte>, epk: Key, nonce: Nonce, length: seq<byte>, rest: seq<byte>)
    requires |length| == 4
    ensures var bs, at := head + (epk + nonce + length + rest), |head|;
            && |bs| == at + 60 + |rest|
            && bs[at..at + 32] == epk && bs[at + 32..at + 56] == nonce
            && bs[at + 56..at + 60] == length && bs[at + 60..] == rest
  {
  }

  /** The body fields parse back, and anything after the stated ciphertext length is refused. */
  lemma BodyParses(head: seq<byte>, e: Envelope, extra: seq<byte>)
    ensures Body(head + (Tail(e) + extra), e.senderDid, e.recipientDid, |head|)
         == if |e.ciphertext| < 0x1_0000_0000 && extra == [] then Ok(e)
            else Err(Malformed(TrailingBytes))
  {
    hide U32Of, U32Be;
    var length, ct := U32Be(|e.ciphertext|), e.ciphertext;
    var bs := head + (Tail(e) + extra);
    U32RoundTrip(|ct|);
    BodySlices(head, e.epk, e.nonce, length, ct + extra);
    assert Tail(e) + extra == e.epk + e.nonce + length + (ct + extra);
    var taken := |ct| % 0x1_0000_0000;
    assert bs[|head| + 60..|head| + 60 + taken] == (ct + extra)[..taken] == ct[..taken];
  }

  /**
   What any written envelope parses to, with anything at all appended to it: itself when nothing is
   appended and its ciphertext length fits the field, and a trailing-bytes refusal otherwise. (A
   longer ciphertext is written with a truncated length, so its own tail is what trails.)
   */
  lemma WrittenParses(e: Envelope, extra: seq<byte>)
    requires ValidDid(e.senderDid) && ValidDid(e.recipientDid)
    ensures Parsed(Wire(e) + extra)
         == if |e.ciphertext| < 0x1_0000_0000 && extra == [] then Ok(e)
            else Err(Malformed(TrailingBytes))
  {
    var head := Head(e.senderDid, e.recipientDid);
    WireSplit(e);
    assert Wire(e) + extra == head + (Tail(e) + extra);
    HeadParses(e.senderDid, e.recipientDid, Tail(e) + extra);
    BodyParses(head, e, extra);
  }

  lemma BodyIsWritten(bs: seq<byte>, sender: string, recipient: string, at: nat, e: Envelope)
    requires Body(bs, sender, recipient, at) == Ok(e)
    ensures e.senderDid == sender && e.recipientDid == recipient && |e.ciphertext| < 0x1_0000_0000
    ensures at <= |bs| && bs[at..] == Tail(e)
  {
    var length := bs[at + 56..at + 60];
    U32Unique(length);
    assert bs[at..] == bs[at..at + 32] + bs[at + 32..at + 56] + length + bs[at + 60..];
  }

  /** Whatever parses is the wire of the envelope it parses to. */
  lemma ParsedIsWritten(bs: seq<byte>, e: Envelope)
    requires Parsed(bs) == Ok(e)
    ensures Sendable(e) && bs == Wire(e)
  {
    PreambleIsWritten(bs);
    var at1, at2 := AddressedIsWritten(bs, e);
    Cut(bs, 10, at1, at2);
    WireSplit(e);
  }

  lemma AddressedIsWritten(bs: seq<byte>, e: Envelope) returns (at1: nat, at2: nat)
    requires Addressed(bs) == Ok(e)
    ensures Sendable(e) && 10 <= at1 <= at2 <= |bs|
    ensures bs[10..at1] == Prefixed(Encode(e.senderDid))
    ensures bs[at1..at2] == Prefixed(Encode(e.recipientDid))
    ensures bs[at2..] == Tail(e)
    ensures DidAt(bs, 10, SenderDid) == Ok((e.senderDid, at1))
    ensures DidAt(bs, at1, RecipientDid) == Ok((e.recipientDid, at2))
    ensures Body(bs, e.senderDid, e.recipientDid, at2) == Ok(e)
  {
    var first := DidAt(bs, 10, SenderDid).value;
    at1 := first.1;
    var second := DidAt(bs, at1, RecipientDid).value;
    at2 := second.1;
    DidFieldUnique(bs, 10, SenderDid, first.0, at1);
    DidFieldUnique(bs, at1, RecipientDid, second.0, at2);
    BodyIsWritten(bs, first.0, second.0, at2, e);
  }

  /** Reading and writing are inverse: an envelope parses from exactly one wire, its own. */
  lemma ParseExactlyTheWire(bs: seq<byte>, e: Envelope)
    ensures Parsed(bs) == Ok(e) <==> Sendable(e) && bs == Wire(e)
  {
    if Parsed(bs) == Ok(e) {
      ParsedIsWritten(bs, e);
    }
    if Sendable(e) && bs == Wire(e) {
      WrittenParses(e, []);
      assert Wire(e) + [] == Wire(e);
    }
  }

  // ---------------------------------------------------------------- truncation

  /** The field the octet at `k` of a wire belongs to. */
  function FieldAt(e: Envelope, k: nat): What {
    var body := |Head(e.senderDid, e.recipientDid)|;
    if k < 8 then Magic
    else if k < 9 then Version
    else if k < 10 then Suite
    else if k < 12 + |Encode(e.senderDid)| then SenderDid
    else if k < body then RecipientDid
    else if k < body + 32 then Epk
    else if k < body + 56 then NonceBytes
    else if k < body + 60 then CiphertextLength
    else Ciphertext
  }

  lemma TakeFromPrefix(bs: seq<byte>, k: nat, at: nat, len: nat, what: What)
    requires k <= |bs|
    ensures TakeAt(bs[..k], at, len, what)
         == if at + len <= k then TakeAt(bs, at, len, what) else Err(Malformed(what))
  {
    if at + len <= k {
      assert bs[..k][at..at + len] == bs[at..at + len];
    }
  }

  lemma DidFromPrefix(bs: seq<byte>, k: nat, at: nat, what: What, did: string, next: nat)
    requires k <= |bs| && DidAt(bs, at, what) == Ok((did, next))
    ensures DidAt(bs[..k], at, what) == if next <= k then Ok((did, next)) else Err(Malformed(what))
  {
    TakeFromPrefix(bs, k, at, 2, what);
    TakeFromPrefix(bs, k, at + 2, next - at - 2, what);
  }

  lemma BodyFromPrefix(bs: seq<byte>, k: nat, sender: string, recipient: string, at: nat)
    requires k < |bs| && Body(bs, sender, recipient, at).Ok?
    ensures Body(bs[..k], sender, recipient, at)
         == Err(Malformed(if k < at + 32 then Epk else if k < at + 56 then NonceBytes
                          else if k < at + 60 then CiphertextLength else Ciphertext))
  {
    TakeFromPrefix(bs, k, at, 32, Epk);
    TakeFromPrefix(bs, k, at + 32, 24, NonceBytes);
    TakeFromPrefix(bs, k, at + 56, 4, CiphertextLength);
    TakeFromPrefix(bs, k, at + 60, U32Of(bs[at + 56..at + 60]), Ciphertext);
  }

  /** A wire cut short anywhere is refused by the name of the field the cut falls in. */
  lemma TruncationNamesTheField(e: Envelope, k: nat)
    requires Sendable(e) && k < |Wire(e)|
    ensures Parsed(Wire(e)[..k]) == Err(Malformed(FieldAt(e, k)))
  {
    hide Wire, ValidDid, U16Of, U32Of;
    var bs := Wire(e);
    ParseExactlyTheWire(bs, e);
    PreambleIsWritten(bs);
    var at1, at2 := AddressedIsWritten(bs, e);
    WireSplit(e);
    TakeFromPrefix(bs, k, 0, 8, Magic);
    TakeFromPrefix(bs, k, 8, 1, Version);
    TakeFromPrefix(bs, k, 9, 1, Suite);
    DidFromPrefix(bs, k, 10, SenderDid, e.senderDid, at1);
    DidFromPrefix(bs, k, at1, RecipientDid, e.recipientDid, at2);
    BodyFromPrefix(bs, k, e.senderDid, e.recipientDid, at2);
  }

  // ---------------------------------------------------------------- what the header binds

  lemma PrefixedInjective(a: seq<byte>, x: seq<byte>, b: seq<byte>, y: seq<byte>)
    requires |a| < 0x1_0000 && |b| < 0x1_0000
    requires Prefixed(a) + x == Prefixed(b) + y
    ensures a == b && x == y
  {
    hide U16Of;
    U16RoundTrip(|a|);
    U16RoundTrip(|b|);
    assert U16Be(|a|) == (Prefixed(a) + x)[..2] && U16Be(|b|) == (Prefixed(b) + y)[..2];
    assert a == (Prefixed(a) + x)[2..2 + |a|] && b == (Prefixed(b) + y)[2..2 + |b|];
    assert x == (Prefixed(a) + x)[2 + |a|..] && y == (Prefixed(b) + y)[2 + |b|..];
  }

  /** The associated data binds the sender, the recipient and the ephemeral key unambiguously. */
  lemma AssociatedDataInjective(
    s1: seq<byte>, r1: seq<byte>, k1: Key, s2: seq<byte>, r2: seq<byte>, k2: Key)
    requires |s1| <= MAX_DID_BYTES && |r1| <= MAX_DID_BYTES && |s2| <= MAX_DID_BYTES && |r2| <= MAX_DID_BYTES
    requires AssociatedData(s1, r1, k1) == AssociatedData(s2, r2, k2)
    ensures s1 == s2 && r1 == r2 && k1 == k2
  {
    var x, y := Prefixed(s1) + (Prefixed(r1) + k1), Prefixed(s2) + (Prefixed(r2) + k2);
    assert AssociatedData(s1, r1, k1)[10..] == x && AssociatedData(s2, r2, k2)[10..] == y;
    PrefixedInjective(s1, Prefixed(r1) + k1, s2, Prefixed(r2) + k2);
    PrefixedInjective(r1, k1, r2, k2);
  }

  // ---------------------------------------------------------------- what is refused

  /** Most significant octet first, in both widths. */
  lemma BigEndian(b0: byte, b1: byte, b2: byte, b3: byte)
    ensures U16Of([b0, b1]) == 256 * b0 as int + b1 && U16Be(256 * b0 as int + b1) == [b0, b1]
    ensures U32Of([b0, b1, b2, b3]) == 16777216 * b0 as int + 65536 * b1 as int + 256 * b2 as int + b3
    ensures U32Be(16777216 * b0 as int + 65536 * b1 as int + 256 * b2 as int + b3) == [b0, b1, b2, b3]
  {
    var four := [b0, b1, b2, b3];
    assert four[..2] == [b0, b1] && four[2..] == [b2, b3];
    U16Unique([b0, b1]);
    U32Unique(four);
  }

  /** From `at` to `next`, `bs` has the field of a DID: two octets of length, and that many of the DID itself. */
  ghost predicate DidFieldAt(bs: seq<byte>, at: nat, did: string, next: nat) {
    && 1 <= |Encode(did)| <= 512 && at + 2 + |Encode(did)| == next <= |bs|
    && 256 * bs[at] as int + bs[at + 1] == |Encode(did)| && bs[at + 2..next] == Encode(did)
  }

  /** `bs` ends before the DID field at `at` does. */
  predicate DidCut(bs: seq<byte>, at: nat) {
    |bs| < at + 2 || 
    var len := 256 * bs[at] as int + bs[at + 1];
    1 <= len <= 512 && |bs| < at + 2 + len
  }

  /** The field at `at` has a length no DID has, or octets no text has. */
  predicate DidBad(bs: seq<byte>, at: nat) {
    |bs| >= at + 2 &&
    var len := 256 * bs[at] as int + bs[at + 1];
    len == 0 || len > 512 || (|bs| >= at + 2 + len && Decode(bs[at + 2..at + 2 + len]).None?)
  }

  lemma DidAtExactly(bs: seq<byte>, at: nat, what: What, did: string, next: nat)
    ensures DidAt(bs, at, what) == Ok((did, next)) <==> DidFieldAt(bs, at, did, next)
    ensures DidAt(bs, at, what) == Err(Malformed(what)) <==> DidCut(bs, at)
    ensures DidAt(bs, at, what) == Err(BadDid) <==> DidBad(bs, at)
    ensures DidAt(bs, at, what).Err? ==> DidAt(bs, at, what).error in {Malformed(what), BadDid}
  {
    hide Encode, Decode;
    DecodeOfEncode(did);
    if at + 2 <= |bs| {
      var raw := bs[at..at + 2];
      assert raw[0] == bs[at] && raw[1] == bs[at + 1];
      var len := U16Of(raw);
      if at + 2 + len <= |bs| && Decode(bs[at + 2..at + 2 + len]).Some? {
        EncodeOfDecode(bs[at + 2..at + 2 + len], Decode(bs[at + 2..at + 2 + len]).value);
      }
    }
  }

  /** `bs` has the preamble, the two DIDs, and then the rest of the fields from `at` on. */
  ghost predicate HeadAt(bs: seq<byte>, sender: string, recipient: string, at: nat) {
    && |bs| >= 10 && bs[..8] == MAGIC && bs[8] == 1 && bs[9] == 1
    && exists middle: nat :: DidFieldAt(bs, 10, sender, middle) && DidFieldAt(bs, middle, recipient, at)
  }

  lemma LaterRefusals(bs: seq<byte>)
    ensures Addressed(bs).Err? ==> Addressed(bs).error != Malformed(Magic) && Addressed(bs).error != Malformed(BadMagic)
    ensures Addressed(bs).Err? ==> Addressed(bs).error != Malformed(Version) && Addressed(bs).error != Malformed(UnknownVersion)
    ensures Addressed(bs).Err? ==> Addressed(bs).error != Malformed(Suite) && Addressed(bs).error != Malformed(UnknownSuite)
  {
    hide Decode, U16Of, U32Of;
  }

  /** The refusals of the first ten octets, each exactly on its own condition. */
  lemma PreambleRefusals(bs: seq<byte>)
    ensures Parsed(bs) == Err(Malformed(Magic)) <==> |bs| < 8
    ensures Parsed(bs) == Err(Malformed(BadMagic)) <==> |bs| >= 8 && bs[..8] != MAGIC
    ensures Parsed(bs) == Err(Malformed(Version)) <==> |bs| == 8 && bs[..8] == MAGIC
    ensures Parsed(bs) == Err(Malformed(UnknownVersion)) <==> |bs| >= 9 && bs[..8] == MAGIC && bs[8] != 1
    ensures Parsed(bs) == Err(Malformed(Suite)) <==> |bs| == 9 && bs[..8] == MAGIC && bs[8] == 1
    ensures Parsed(bs) == Err(Malformed(UnknownSuite)) <==> |bs| >= 10 && bs[..8] == MAGIC && bs[8] == 1 && bs[9] != 1
    ensures |bs| >= 10 && bs[..8] == MAGIC && bs[8] == 1 && bs[9] == 1 ==> Parsed(bs) == Addressed(bs)
    ensures Parsed(bs) == Err(BadDid) ==> |bs| >= 10 && bs[..8] == MAGIC && bs[8] == 1 && bs[9] == 1
  {
    LaterRefusals(bs);
    hide Addressed;
  }

  /** The refusals of the rest, each exactly on its own condition, with `length` the ciphertext's stated length. */
  lemma BodyRefusals(bs: seq<byte>, sender: string, recipient: string, at: nat)
    ensures var r := Body(bs, sender, recipient, at);
            && (r == Err(Malformed(Epk)) <==> |bs| < at + 32)
            && (r == Err(Malformed(NonceBytes)) <==> at + 32 <= |bs| < at + 56)
            && (r == Err(Malformed(CiphertextLength)) <==> at + 56 <= |bs| < at + 60)
            && (at + 60 <= |bs| ==>
                  var length := 16777216 * bs[at + 56] as int + 65536 * bs[at + 57] as int + 256 * bs[at + 58] as int + bs[at + 59];
                  && (r == Err(Malformed(Ciphertext)) <==> |bs| < at + 60 + length)
                  && (r == Err(Malformed(TrailingBytes)) <==> |bs| > at + 60 + length))
            && (r.Err? ==> r.error in {Malformed(Epk), Malformed(NonceBytes), Malformed(CiphertextLength),
                                       Malformed(Ciphertext), Malformed(TrailingBytes)})
            && (r == Err(Malformed(Ciphertext)) || r == Err(Malformed(TrailingBytes)) ==> at + 60 <= |bs|)
  {
    if at + 60 <= |bs| {
      BigEndian(bs[at + 56], bs[at + 57], bs[at + 58], bs[at + 59]);
      assert bs[at + 56..at + 60] == [bs[at + 56], bs[at + 57], bs[at + 58], bs[at + 59]];
    }
    hide U32Of;
  }

  /**
   Past the preamble: a DID cut short is named for whose it is, a DID no sender could have is bad, and with both
   DIDs read the refusals are the body's.
   */
  lemma AddressRefusals(bs: seq<byte>)
    requires |bs| >= 10 && bs[..8] == MAGIC && bs[8] == 1 && bs[9] == 1
    ensures Parsed(bs) == Err(Malformed(SenderDid)) <==> DidCut(bs, 10)
    ensures Parsed(bs) == Err(Malformed(RecipientDid)) <==> exists did, next: nat :: DidFieldAt(bs, 10, did, next) && DidCut(bs, next)
    ensures Parsed(bs) == Err(BadDid) <==>
            DidBad(bs, 10) || exists did, next: nat :: DidFieldAt(bs, 10, did, next) && DidBad(bs, next)
    ensures forall sender, recipient, at: nat :: HeadAt(bs, sender, recipient, at) ==>
              Parsed(bs) == Body(bs, sender, recipient, at)
  {
    PreambleRefusals(bs);
    hide DidAt, Body, Parsed, DidCut, DidBad, DidFieldAt;
    forall sender, recipient, at: nat | HeadAt(bs, sender, recipient, at)
      ensures Parsed(bs) == Body(bs, sender, recipient, at)
    {
      var middle: nat :| DidFieldAt(bs, 10, sender, middle) && DidFieldAt(bs, middle, recipient, at);
      DidAtExactly(bs, 10, SenderDid, sender, middle);
      DidAtExactly(bs, middle, RecipientDid, recipient, at);
    }
    DidAtExactly(bs, 10, SenderDid, "", 0);
    forall did, next: nat | DidFieldAt(bs, 10, did, next) ensures DidAt(bs, 10, SenderDid) == Ok((did, next)) {
      DidAtExactly(bs, 10, SenderDid, did, next);
    }
    if DidAt(bs, 10, SenderDid).Ok? {
      var (sender, next) := DidAt(bs, 10, SenderDid).value;
      DidAtExactly(bs, 10, SenderDid, sender, next);
      DidAtExactly(bs, next, RecipientDid, "", 0);
      if DidAt(bs, next, RecipientDid).Ok? {
        var (recipient, at) := DidAt(bs, next, RecipientDid).value;
        BodyRefusals(bs, sender, recipient, at);
      }
    }
  }
}
