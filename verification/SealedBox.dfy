/**
 Sealing and opening a `DIGCHAT1` envelope (crates/dig-app-core/src/digchat.rs). The three standard
 primitives are values of a record with the laws they are used through: X25519 (section 6.1 of RFC
 7748), HKDF (section 2 of RFC 5869) and XChaCha20-Poly1305. Everything around them is concrete.
 */
module SealedBox {
  import opened Wrappers
  import opened Utf8
  import opened Envelope

  // "DIGCHAT1 suite1 message key"
  const KDF_INFO: seq<byte> := MAGIC + [
    0x20, 0x73, 0x75, 0x69, 0x74, 0x65, 0x31, 0x20, 0x6D, 0x65, 0x73, 0x73, 0x61, 0x67, 0x65, 0x20, 0x6B, 0x65, 0x79]
  const MAX_PLAINTEXT_BYTES := 48 * 1024
  const TAG_LEN := 16

  datatype Primitives = Primitives(
    publicKey: Key -> Key,
    agree: (Key, Key) -> Key,
    expand: (seq<byte>, seq<byte>, seq<byte>) -> Key,
    encrypt: (Key, Nonce, seq<byte>, seq<byte>) -> Option<seq<byte>>,
    decrypt: (Key, Nonce, seq<byte>, seq<byte>) -> Option<seq<byte>>)
  {
    /** Both ends of a key agreement compute one secret. */
    ghost predicate Commutes() {
      forall a: Key, b: Key :: agree(a, publicKey(b)) == agree(b, publicKey(a))
    }

    /** Any message within the cap encrypts; what encrypts grows by a tag and decrypts back. */
    ghost predicate Complete() {
      forall k: Key, n: Nonce, aad: seq<byte>, m: seq<byte> ::
        var c := encrypt(k, n, aad, m);
        && (|m| <= MAX_PLAINTEXT_BYTES ==> c.Some?)
        && (c.Some? ==> |c.value| == |m| + TAG_LEN && decrypt(k, n, aad, c.value) == Some(m))
    }

    /** Nothing decrypts that this key, nonce and associated data would not have encrypted. */
    ghost predicate Sound() {
      forall k: Key, n: Nonce, aad: seq<byte>, c: seq<byte> :: decrypt(k, n, aad, c).Some? ==>
        encrypt(k, n, aad, decrypt(k, n, aad, c).value) == Some(c)
    }

    ghost predicate Lawful() {
      Commutes() && Complete() && Sound()
    }

    /** No message under any key and other associated data has this nonce and ciphertext. */
    ghost predicate Commits(n: Nonce, aad: seq<byte>, c: seq<byte>) {
      forall k: Key, other: seq<byte>, m: seq<byte> :: encrypt(k, n, other, m) == Some(c) ==> other == aad
    }
  }

  function KeyMaterial(shared: Key, epk: Key, recipientKey: Key): seq<byte> {
    shared + epk + recipientKey
  }

  function DeriveKey(p: Primitives, shared: Key, epk: Key, recipientKey: Key): Key {
    p.expand(MAGIC, KeyMaterial(shared, epk, recipientKey), KDF_INFO)
  }

  /** The key the sender encrypts under. */
  function SealingKey(p: Primitives, ephemeral: Key, recipientKey: Key): Key {
    DeriveKey(p, p.agree(ephemeral, recipientKey), p.publicKey(ephemeral), recipientKey)
  }

  /** The key the recipient decrypts under. */
  function OpeningKey(p: Primitives, secret: Key, epk: Key): Key {
    DeriveKey(p, p.agree(secret, epk), epk, p.publicKey(secret))
  }

  function Aad(e: Envelope): seq<byte> {
    AssociatedData(Encode(e.senderDid), Encode(e.recipientDid), e.epk)
  }

  datatype SealInputs = SealInputs(senderDid: string, recipientDid: string, recipientKey: Key, plaintext: seq<byte>)

  /** The envelope `in_` seals to, or why it is refused; the checks come in the order given here. */
  function Sealed(p: Primitives, in_: SealInputs, ephemeral: Key, nonce: Nonce): Result<Envelope, Error> {
    if |in_.plaintext| > MAX_PLAINTEXT_BYTES then Err(PlaintextTooLarge(|in_.plaintext|))
    else if !ValidDid(in_.senderDid) || !ValidDid(in_.recipientDid) then Err(BadDid)
    else
      var epk := p.publicKey(ephemeral);
      var aad := AssociatedData(Encode(in_.senderDid), Encode(in_.recipientDid), epk);
      match p.encrypt(SealingKey(p, ephemeral, in_.recipientKey), nonce, aad, in_.plaintext)
      case None => Err(NotAuthentic)
      case Some(ciphertext) => Ok(Envelope(in_.senderDid, in_.recipientDid, epk, nonce, ciphertext))
  }

  /** What `wire` opens to under `secret`: the parser's refusal, or the AEAD's verdict. */
  function Opened(p: Primitives, wire: seq<byte>, secret: Key): Result<(Envelope, seq<byte>), Error> {
    var e :- Parsed(wire);
    match p.decrypt(OpeningKey(p, secret, e.epk), e.nonce, Aad(e), e.ciphertext)
    case None => Err(NotAuthentic)
    case Some(plaintext) => Ok((e, plaintext))
  }

  method SealWith(p: Primitives, in_: SealInputs, ephemeral: Key, nonce: Nonce)
    returns (r: Result<seq<byte>, Error>)
    ensures var e := Sealed(p, in_, ephemeral, nonce);
            r == if e.Ok? then Ok(Wire(e.value)) else Err(e.error)
  {
    if |in_.plaintext| > MAX_PLAINTEXT_BYTES {
      return Err(PlaintextTooLarge(|in_.plaintext|));
    }
    var sender :- DidBytes(in_.senderDid);
    var recipient :- DidBytes(in_.recipientDid);
    var epk := p.publicKey(ephemeral);
    var shared := p.agree(ephemeral, in_.recipientKey);
    var key := DeriveKey(p, shared, epk, in_.recipientKey);
    var aad := BuildAssociatedData(sender, recipient, epk);
    var sealed := p.encrypt(key, nonce, aad, in_.plaintext);
    if sealed.None? {
      return Err(NotAuthentic);
    }
    r := EncodeEnvelope(Envelope(in_.senderDid, in_.recipientDid, epk, nonce, sealed.value));
  }

  method Open(p: Primitives, wire: seq<byte>, secret: Key) returns (r: Result<(Envelope, seq<byte>), Error>)
    requires |wire| <= USIZE_MAX
    ensures r == Opened(p, wire, secret)
  {
    var e :- DecodeEnvelope(wire);
    var recipientKey := p.publicKey(secret);
    var shared := p.agree(secret, e.epk);
    var key := DeriveKey(p, shared, e.epk, recipientKey);
    var sender := DidBytes(e.senderDid);
    var recipient := DidBytes(e.recipientDid);
    if sender.Err? || recipient.Err? {
      // The parser has already held both DIDs to the limit, so this refusal never happens.
      ParseExactlyTheWire(wire, e);
      assert false;
    }
    var aad := BuildAssociatedData(sender.value, recipient.value, e.epk);
    var plaintext := p.decrypt(key, e.nonce, aad, e.ciphertext);
    if plaintext.None? {
      return Err(NotAuthentic);
    }
    return Ok((e, plaintext.value));
  }

  // ---------------------------------------------------------------- what sealing and opening promise

  /** Sender and recipient derive one key from opposite halves of the agreement. */
  lemma KeysAgree(p: Primitives, ephemeral: Key, secret: Key)
    requires p.Commutes()
    ensures SealingKey(p, ephemeral, p.publicKey(secret)) == OpeningKey(p, secret, p.publicKey(ephemeral))
  {
    assert p.agree(ephemeral, p.publicKey(secret)) == p.agree(secret, p.publicKey(ephemeral));
  }

  /** The key derivation's input names the shared secret and both public keys without ambiguity. */
  lemma KeyMaterialInjective(s1: Key, e1: Key, r1: Key, s2: Key, e2: Key, r2: Key)
    requires KeyMaterial(s1, e1, r1) == KeyMaterial(s2, e2, r2)
    ensures s1 == s2 && e1 == e2 && r1 == r2
  {
    var x, y := KeyMaterial(s1, e1, r1), KeyMaterial(s2, e2, r2);
    assert x[..32] == s1 && x[32..64] == e1 && x[64..] == r1;
    assert y[..32] == s2 && y[32..64] == e2 && y[64..] == r2;
  }

  /** The names the two constants spell. */
  lemma NamesSpelled()
    ensures MAGIC == Encode("DIGCHAT1") && KDF_INFO == Encode("DIGCHAT1 suite1 message key")
  {
    hide Encode;
    PlainText("DIGCHAT1");
    PlainText("DIGCHAT1 suite1 message key");
    InfoOctets();
  }

  lemma InfoOctets()
    ensures |KDF_INFO| == |"DIGCHAT1 suite1 message key"|
    ensures forall i :: 0 <= i < |KDF_INFO| ==> KDF_INFO[i] == "DIGCHAT1 suite1 message key"[i] as int
  {
  }

  lemma {:induction false} PlainText(s: string)
    requires IsAscii(s)
    ensures |Encode(s)| == |s| && forall i :: 0 <= i < |s| ==> Encode(s)[i] == s[i] as int
  {
    if s != [] {
      PlainText(s[1..]);
      assert forall i :: 1 <= i < |s| ==> s[i] == s[1..][i - 1];
    }
  }

  /**
   Sealing is exact. A message seals to an envelope just when it is within the cap, both DIDs are within theirs,
   and the envelope is addressed as asked and holds the message's encryption, under the key drawn from the
   shared secret and both public keys, with the header itself. Each refusal has its own condition.
   */
  lemma SealedExactly(p: Primitives, in_: SealInputs, ephemeral: Key, nonce: Nonce, e: Envelope, size: nat)
    ensures var fits := |in_.plaintext| <= 49152;
            var named := 1 <= |Encode(in_.senderDid)| <= 512 && 1 <= |Encode(in_.recipientDid)| <= 512;
            var epk := p.publicKey(ephemeral);
            var key := p.expand(MAGIC, p.agree(ephemeral, in_.recipientKey) + epk + in_.recipientKey, KDF_INFO);
            var header := AssociatedData(Encode(in_.senderDid), Encode(in_.recipientDid), epk);
            var c := p.encrypt(key, nonce, header, in_.plaintext);
            && (Sealed(p, in_, ephemeral, nonce) == Ok(e) <==>
                  && fits && named && c == Some(e.ciphertext)
                  && e.senderDid == in_.senderDid && e.recipientDid == in_.recipientDid && e.epk == epk && e.nonce == nonce)
            && (Sealed(p, in_, ephemeral, nonce) == Err(PlaintextTooLarge(size)) <==> !fits && size == |in_.plaintext|)
            && (Sealed(p, in_, ephemeral, nonce) == Err(BadDid) <==> fits && !named)
            && (Sealed(p, in_, ephemeral, nonce) == Err(NotAuthentic) <==> fits && named && c == None)
  {
    hide Encode, AssociatedData;
  }

  /** Every permitted message seals within the frame, and the recipient opens exactly that message and header. */
  lemma OpenUndoesSeal(p: Primitives, in_: SealInputs, ephemeral: Key, nonce: Nonce, secret: Key)
    requires p.Lawful() && in_.recipientKey == p.publicKey(secret)
    requires ValidDid(in_.senderDid) && ValidDid(in_.recipientDid) && |in_.plaintext| <= 48 * 1024
    ensures var e := Sealed(p, in_, ephemeral, nonce);
            && e.Ok?
            && e.value.senderDid == in_.senderDid && e.value.recipientDid == in_.recipientDid
            && e.value.nonce == nonce
            && Opened(p, Wire(e.value), secret) == Ok((e.value, in_.plaintext))
            && |Wire(e.value)| <= 64 * 1024
  {
    KeysAgree(p, ephemeral, secret);
    var key := SealingKey(p, ephemeral, in_.recipientKey);
    var aad := AssociatedData(Encode(in_.senderDid), Encode(in_.recipientDid), p.publicKey(ephemeral));
    var c := p.encrypt(key, nonce, aad, in_.plaintext);
    assert c.Some? && p.decrypt(key, nonce, aad, c.value) == Some(in_.plaintext);
    var e := Sealed(p, in_, ephemeral, nonce).value;
    ParseExactlyTheWire(Wire(e), e);
    SealedFitsTheFrame(p, in_, ephemeral, nonce);
  }

  /**
   Opening is exact: a wire opens to a header and a message just when it is the wire of that header
   and its ciphertext is that message's encryption under the recipient's key and the header itself.
   */
  lemma OpenedExactly(p: Primitives, wire: seq<byte>, secret: Key, e: Envelope, m: seq<byte>)
    requires p.Lawful()
    ensures Opened(p, wire, secret) == Ok((e, m))
       <==> && Sendable(e) && wire == Wire(e)
            && var key := p.expand(MAGIC, p.agree(secret, e.epk) + e.epk + p.publicKey(secret), KDF_INFO);
               var header := AssociatedData(Encode(e.senderDid), Encode(e.recipientDid), e.epk);
               p.encrypt(key, e.nonce, header, m) == Some(e.ciphertext)
  {
    ParseExactlyTheWire(wire, e);
    hide Wire, Parsed, AssociatedData, Encode;
    var key := OpeningKey(p, secret, e.epk);
    var c := p.encrypt(key, e.nonce, Aad(e), m);
    assert c.Some? ==> p.decrypt(key, e.nonce, Aad(e), c.value) == Some(m);
    assert p.decrypt(key, e.nonce, Aad(e), e.ciphertext) == Some(m)
      ==> p.encrypt(key, e.nonce, Aad(e), m) == Some(e.ciphertext);
  }

  /** No message encrypts, under `e`'s own header and the key `secret` opens it with, to its ciphertext. */
  ghost predicate NothingEncryptsTo(p: Primitives, e: Envelope, secret: Key) {
    var key := p.expand(MAGIC, p.agree(secret, e.epk) + e.epk + p.publicKey(secret), KDF_INFO);
    var header := AssociatedData(Encode(e.senderDid), Encode(e.recipientDid), e.epk);
    forall m :: p.encrypt(key, e.nonce, header, m) != Some(e.ciphertext)
  }

  /**
   Refusals are exact too. A wire is not authentic just when it is some envelope's wire and no message encrypts
   to its ciphertext under that header; any other refusal is the parser's.
   */
  lemma RefusedExactly(p: Primitives, wire: seq<byte>, secret: Key, error: Error)
    requires p.Lawful()
    ensures Opened(p, wire, secret) == Err(NotAuthentic) <==>
            exists e :: Sendable(e) && wire == Wire(e) && NothingEncryptsTo(p, e, secret)
    ensures error != NotAuthentic ==> (Opened(p, wire, secret) == Err(error) <==> Parsed(wire) == Err(error))
  {
    if Parsed(wire).Err? {
      ParserNeverJudges(wire);
    }
    hide Parsed, Wire, OpeningKey, Aad, AssociatedData, Encode, Primitives.Lawful;
    forall e ensures Parsed(wire) == Ok(e) <==> Sendable(e) && wire == Wire(e) {
      ParseExactlyTheWire(wire, e);
    }
    if Parsed(wire).Ok? {
      var e := Parsed(wire).value;
      forall m
        ensures Opened(p, wire, secret) == Ok((e, m)) <==>
                p.encrypt(p.expand(MAGIC, p.agree(secret, e.epk) + e.epk + p.publicKey(secret), KDF_INFO), e.nonce,
                          AssociatedData(Encode(e.senderDid), Encode(e.recipientDid), e.epk), m) == Some(e.ciphertext)
      {
        OpenedExactly(p, wire, secret, e, m);
      }
    }
  }

  lemma ParserNeverJudges(bs: seq<byte>)
    requires Parsed(bs).Err?
    ensures Parsed(bs).error.BadDid? || Parsed(bs).error.Malformed?
  {
  }

  /**
   Confidentiality, as far as it follows from these laws. If a secret whose public key is not the recipient's
   opens a sealed wire, then either the key derivation takes one value on two different inputs, each the shared
   secret and the two public keys of its own reading, or one ciphertext is an encryption under two keys.
   */
  lemma AnotherSecretNeedsACollision(
    p: Primitives, in_: SealInputs, ephemeral: Key, nonce: Nonce, e: Envelope, other: Key)
    requires p.Lawful() && Sealed(p, in_, ephemeral, nonce) == Ok(e)
    requires p.publicKey(other) != in_.recipientKey && Opened(p, Wire(e), other).Ok?
    ensures var sealing := p.agree(ephemeral, in_.recipientKey) + e.epk + in_.recipientKey;
            var opening := p.agree(other, e.epk) + e.epk + p.publicKey(other);
            var header := AssociatedData(Encode(e.senderDid), Encode(e.recipientDid), e.epk);
            var k, l := p.expand(MAGIC, sealing, KDF_INFO), p.expand(MAGIC, opening, KDF_INFO);
            && |sealing| == |opening| == 96 && sealing != opening
            && (k == l || (k != l && exists m ::
                  p.encrypt(l, nonce, header, m) == p.encrypt(k, nonce, header, in_.plaintext) == Some(e.ciphertext)))
  {
    var m := Opened(p, Wire(e), other).value.1;
    SealedExactly(p, in_, ephemeral, nonce, e, 0);
    OpenedIsItself(p, e, other);
    OpenedExactly(p, Wire(e), other, e, m);
    hide Wire, Parsed, AssociatedData, Encode, Sealed, Opened;
    var s, r := p.agree(ephemeral, in_.recipientKey), p.agree(other, e.epk);
    if s + e.epk + in_.recipientKey == r + e.epk + p.publicKey(other) {
      KeyMaterialInjective(s, e.epk, in_.recipientKey, r, e.epk, p.publicKey(other));
      assert false;
    }
  }

  lemma OpenedIsItself(p: Primitives, e: Envelope, secret: Key)
    requires ValidDid(e.senderDid) && ValidDid(e.recipientDid)
    ensures Opened(p, Wire(e), secret).Ok? ==> Opened(p, Wire(e), secret).value.0 == e
  {
    WrittenParses(e, []);
    assert Wire(e) + [] == Wire(e);
    hide Wire, AssociatedData, Encode;
  }

  ghost predicate SameHeader(e: Envelope, f: Envelope) {
    e.senderDid == f.senderDid && e.recipientDid == f.recipientDid && e.epk == f.epk
  }

  /**
   Re-addressing. Put a sealed body under any other header and let anyone try to open it: if it opens,
   the two headers' associated data differ and one nonce and ciphertext encrypt a message under each,
   which is a collision in the AEAD itself.
   */
  lemma ReaddressingNeedsACollision(
    p: Primitives, in_: SealInputs, ephemeral: Key, nonce: Nonce, e: Envelope, other: Envelope, secret: Key)
    requires p.Lawful() && Sealed(p, in_, ephemeral, nonce) == Ok(e)
    requires Sendable(other) && other.nonce == e.nonce && other.ciphertext == e.ciphertext
    requires !SameHeader(e, other) && Opened(p, Wire(other), secret).Ok?
    ensures Aad(other) != Aad(e)
    ensures p.encrypt(OpeningKey(p, secret, other.epk), e.nonce, Aad(other), Opened(p, Wire(other), secret).value.1)
         == p.encrypt(SealingKey(p, ephemeral, in_.recipientKey), e.nonce, Aad(e), in_.plaintext)
         == Some(e.ciphertext)
  {
    ParseExactlyTheWire(Wire(other), other);
    HeaderBound(e, other);
  }

  lemma HeaderBound(e: Envelope, other: Envelope)
    requires ValidDid(e.senderDid) && ValidDid(e.recipientDid)
    requires ValidDid(other.senderDid) && ValidDid(other.recipientDid)
    ensures Aad(e) == Aad(other) <==> SameHeader(e, other)
  {
    if Aad(e) == Aad(other) {
      AssociatedDataInjective(
        Encode(e.senderDid), Encode(e.recipientDid), e.epk,
        Encode(other.senderDid), Encode(other.recipientDid), other.epk);
      EncodeInjective(e.senderDid, other.senderDid);
      EncodeInjective(e.recipientDid, other.recipientDid);
    }
  }

  /** So under an AEAD whose ciphertext commits to its associated data, no re-addressed wire opens. */
  lemma ReaddressedIsNotAuthentic(
    p: Primitives, in_: SealInputs, ephemeral: Key, nonce: Nonce, e: Envelope, other: Envelope, secret: Key)
    requires p.Lawful() && Sealed(p, in_, ephemeral, nonce) == Ok(e)
    requires p.Commits(e.nonce, Aad(e), e.ciphertext)
    requires Sendable(other) && other.nonce == e.nonce && other.ciphertext == e.ciphertext
    requires !SameHeader(e, other)
    ensures Opened(p, Wire(other), secret) == Err(NotAuthentic)
  {
    ParseExactlyTheWire(Wire(other), other);
    if Opened(p, Wire(other), secret).Ok? {
      ReaddressingNeedsACollision(p, in_, ephemeral, nonce, e, other, secret);
      assert false;
    }
  }

  /** Every sealed wire has a known length and fits the transport's 64 KiB frame. */
  lemma SealedFitsTheFrame(p: Primitives, in_: SealInputs, ephemeral: Key, nonce: Nonce)
    requires p.Lawful() && Sealed(p, in_, ephemeral, nonce).Ok?
    ensures var e := Sealed(p, in_, ephemeral, nonce).value;
            && Sendable(e)
            && |Wire(e)| == 74 + |Encode(in_.senderDid)| + |Encode(in_.recipientDid)| + |in_.plaintext| + 16
            && |Wire(e)| <= 64 * 1024
  {
    var e := Sealed(p, in_, ephemeral, nonce).value;
    assert p.encrypt(SealingKey(p, ephemeral, in_.recipientKey), nonce, Aad(e), in_.plaintext) == Some(e.ciphertext);
    WireSplit(e);
  }

  // ---------------------------------------------------------------- the laws have an instance

  function ToyAgree(a: Key, b: Key): Key {
    seq(KEY_LEN, i requires 0 <= i < KEY_LEN => (a[i] as int + b[i]) % 256)
  }

  function ToyTag(target: seq<byte>, aad: seq<byte>): seq<byte> {
    seq(TAG_LEN, _ => if aad == target then 1 else 0)
  }

  function ToyOpen(target: seq<byte>, aad: seq<byte>, c: seq<byte>): Option<seq<byte>> {
    if |c| >= TAG_LEN && c[|c| - TAG_LEN..] == ToyTag(target, aad) then Some(c[..|c| - TAG_LEN]) else None
  }

  /** Primitives whose ciphertexts under `target` are marked as such. */
  function Toy(target: seq<byte>): Primitives {
    Primitives(
      (s: Key) => s,
      (a: Key, b: Key) => ToyAgree(a, b),
      (salt: seq<byte>, ikm: seq<byte>, info: seq<byte>) => seq(KEY_LEN, _ => 0),
      (k: Key, n: Nonce, aad: seq<byte>, m: seq<byte>) => Some(m + ToyTag(target, aad)),
      (k: Key, n: Nonce, aad: seq<byte>, c: seq<byte>) => ToyOpen(target, aad, c))
  }

  /** The laws and the commitment assumed above hold together for some primitives, for any header. */
  lemma LawsHaveAnInstance(n: Nonce, target: seq<byte>, m: seq<byte>)
    ensures Toy(target).Lawful()
    ensures var c := Toy(target).encrypt(seq(KEY_LEN, _ => 0), n, target, m);
            c.Some? && Toy(target).Commits(n, target, c.value)
  {
    var p := Toy(target);
    forall a: Key, b: Key ensures p.agree(a, p.publicKey(b)) == p.agree(b, p.publicKey(a)) {
      assert ToyAgree(a, b) == ToyAgree(b, a);
    }
    forall aad: seq<byte>, x: seq<byte>
      ensures ToyOpen(target, aad, x + ToyTag(target, aad)) == Some(x)
    {
      var c := x + ToyTag(target, aad);
      assert c[|c| - TAG_LEN..] == ToyTag(target, aad) && c[..|c| - TAG_LEN] == x;
    }
    forall aad: seq<byte>, c: seq<byte> | ToyOpen(target, aad, c).Some?
      ensures ToyOpen(target, aad, c).value + ToyTag(target, aad) == c
    {
    }
    var sealed := m + ToyTag(target, target);
    forall other: seq<byte>, x: seq<byte> | x + ToyTag(target, other) == sealed
      ensures other == target
    {
      assert sealed[|sealed| - 1] == 1 && (x + ToyTag(target, other))[|x| + TAG_LEN - 1] == ToyTag(target, other)[TAG_LEN - 1];
    }
  }
}
