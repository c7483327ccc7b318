/**
 The obfuscated2 layer: a 64-byte handshake that carries key material, a protocol tag and a signed
 data-centre index, then a counter-mode cipher in each direction. The keystream is any function of
 key, initial vector and position, and the key derivation any function of its input.
 */
module Obfuscated2 {
  import opened Bytes
  import opened Options
  import opened Streams

  const HANDSHAKE_LEN: nat := 64
  const SKIP_LEN: nat := 8
  const PREKEY_LEN: nat := 32
  const IV_LEN: nat := 16
  const PROTO_TAG_POS: nat := 56
  const DC_IDX_POS: nat := 60

  const IV_POS: nat := SKIP_LEN + PREKEY_LEN
  const IV_END: nat := IV_POS + IV_LEN

  const PROTO_TAG_ABRIDGED: bytes := [0xef, 0xef, 0xef, 0xef]
  const PROTO_TAG_INTERMEDIATE: bytes := [0xee, 0xee, 0xee, 0xee]
  const PROTO_TAG_SECURE: bytes := [0xdd, 0xdd, 0xdd, 0xdd]

  /** Byte `index` of the keystream for a key and an initial vector. */
  type Keystream = (bytes, bytes, nat) -> byte

  type i16 = n: int | -0x8000 <= n < 0x8000

  // ---------------------------------------------------------------- the keystream

  /** A cipher's position: everything it will do from here on depends on these three. */
  datatype Ctr = Ctr(key: bytes, iv: bytes, offset: nat)

  function Advance(c: Ctr, n: nat): (d: Ctr) {
    c.(offset := c.offset + n)
  }

  function Apply(ks: Keystream, c: Ctr, s: bytes): (t: bytes)
    ensures |t| == |s|
    ensures forall i :: 0 <= i < |s| ==> t[i] == Xor(s[i], ks(c.key, c.iv, c.offset + i))
  {
    seq(|s|, i requires 0 <= i < |s| => Xor(s[i], ks(c.key, c.iv, c.offset + i)))
  }

  lemma ApplySplit(ks: Keystream, c: Ctr, s: bytes, t: bytes)
    ensures Apply(ks, c, s + t) == Apply(ks, c, s) + Apply(ks, Advance(c, |s|), t)
  {
    hide Xor;
  }

  /** Applying the same stretch of keystream twice gives the text back. */
  lemma ApplyTwice(ks: Keystream, c: Ctr, s: bytes)
    ensures Apply(ks, c, Apply(ks, c, s)) == s
  {
    hide Xor;
    var t := Apply(ks, c, s);
    forall i | 0 <= i < |s|
      ensures Apply(ks, c, t)[i] == s[i]
    {
      XorCancels(s[i], ks(c.key, c.iv, c.offset + i));
    }
  }

  // ---------------------------------------------------------------- the handshake, as functions of its 64 bytes

  predicate ValidProtoTag(tag: bytes) {
    tag == PROTO_TAG_ABRIDGED || tag == PROTO_TAG_INTERMEDIATE || tag == PROTO_TAG_SECURE
  }

  function FromLe16(lo: byte, hi: byte): (n: i16) {
    var n := U16([hi, lo]);
    if n < 0x8000 then n else n - 0x1_0000
  }

  function ToLe16(n: i16): (s: bytes)
    ensures |s| == 2 && FromLe16(s[0], s[1]) == n
  {
    var s := PutU16(if n < 0 then n + 0x1_0000 else n);
    [s[1], s[0]]
  }

  type handshake = h: bytes | |h| == 64 witness seq(64, _ => 0)

  function Reversed(h: handshake): (r: handshake) {
    seq(64, i requires 0 <= i < 64 => h[63 - i])
  }

  /** The cipher that the bytes 8..56 of a handshake describe, the secret being mixed into the key. */
  function SecretCipher(hash: Sha256, h: handshake, secret: bytes): (c: Ctr) {
    Ctr(hash(h[SKIP_LEN..IV_POS] + secret), h[IV_POS..IV_END], 0)
  }

  /** The same without a secret, as the relay header to a data centre uses it. */
  function PlainCipher(h: handshake): (c: Ctr) {
    Ctr(h[SKIP_LEN..IV_POS], h[IV_POS..IV_END], 0)
  }

  datatype HandshakeInfo = HandshakeInfo(dcId: nat, isMedia: bool, protoTag: bytes)

  function Abs(n: int): (m: nat) {
    if n < 0 then -n else n
  }

  function TagOf(plain: handshake): (tag: bytes) {
    plain[PROTO_TAG_POS..DC_IDX_POS]
  }

  function DcOf(plain: handshake): (dc: i16) {
    FromLe16(plain[DC_IDX_POS], plain[DC_IDX_POS + 1])
  }

  function ParseHandshake(ks: Keystream, hash: Sha256, h: handshake, secret: bytes): (info: Option<HandshakeInfo>) {
    if |secret| != 16 then None
    else
      var plain := Apply(ks, SecretCipher(hash, h, secret), h);
      if !ValidProtoTag(TagOf(plain)) then None
      else Some(HandshakeInfo(Abs(DcOf(plain)), DcOf(plain) < 0, TagOf(plain)))
  }

  function HandshakeDcIndex(ks: Keystream, hash: Sha256, h: handshake, secret: bytes): (dc: Option<i16>) {
    if |secret| != 16 then None
    else
      var plain := Apply(ks, SecretCipher(hash, h, secret), h);
      if !ValidProtoTag(TagOf(plain)) then None else Some(DcOf(plain))
  }

  function HandshakeProtoTag(ks: Keystream, hash: Sha256, h: handshake, secret: bytes): (tag: Option<bytes>) {
    var info := ParseHandshake(ks, hash, h, secret);
    if info.None? then None else Some(info.value.protoTag)
  }

  /** What accepting a handshake yields: both ciphers, where they stand, and what the client asked for. */
  datatype Accepted = Accepted(dec: Ctr, enc: Ctr, dcId: i16, protoTag: bytes)

  function Accept(ks: Keystream, hash: Sha256, h: handshake, secret: bytes): (a: Option<Accepted>) {
    if ParseHandshake(ks, hash, h, secret).None? then None
    else
      var dec := SecretCipher(hash, h, secret);
      var plain := Apply(ks, dec, h);
      Some(Accepted(Advance(dec, HANDSHAKE_LEN), SecretCipher(hash, Reversed(h), secret), DcOf(plain), TagOf(plain)))
  }

  /**
   What a handshake says under a secret, read off its bytes: the client's key is the hash of bytes 8..40
   with the secret behind them, and its vector is bytes 40..56; the answer's are the same bytes of the
   handshake read backwards. Bytes 56..60 decrypt to one of three tags, or it is refused; bytes 60..62
   decrypt to the index, low byte first and signed.
   */
  lemma AcceptedExactly(ks: Keystream, hash: Sha256, h: handshake, secret: bytes)
    ensures var key, iv := hash(h[8..40] + secret), h[40..56];
            var tag, index := Apply(ks, Ctr(key, iv, 56), h[56..60]), Apply(ks, Ctr(key, iv, 60), h[60..62]);
            var a := Accept(ks, hash, h, secret);
            && (a.Some? <==> |secret| == 16
                             && tag in {[0xef, 0xef, 0xef, 0xef], [0xee, 0xee, 0xee, 0xee], [0xdd, 0xdd, 0xdd, 0xdd]})
            && (a.Some? ==>
                  && a.value.protoTag == tag && a.value.dcId % 0x1_0000 == index[0] + 0x100 * (index[1] as nat)
                  && a.value.dec == Ctr(key, iv, 64)
                  && a.value.enc == Ctr(hash(seq(32, i requires 0 <= i < 32 => h[55 - i]) + secret),
                                        seq(16, i requires 0 <= i < 16 => h[23 - i]), 0))
  {
    hide Xor, U16;
    var c, r := SecretCipher(hash, h, secret), Reversed(h);
    PlainParts(ks, c, h);
    ReversedParts(h);
    SignedIndex(DcOf(Apply(ks, c, h)), Apply(ks, c, h)[60], Apply(ks, c, h)[61]);
  }

  /** The tag and the index as stretches of the keystream of their own. */
  lemma PlainParts(ks: Keystream, c: Ctr, h: handshake)
    requires c.offset == 0
    ensures var plain := Apply(ks, c, h);
            && TagOf(plain) == Apply(ks, Ctr(c.key, c.iv, 56), h[56..60])
            && [plain[60], plain[61]] == Apply(ks, Ctr(c.key, c.iv, 60), h[60..62])
  {
    hide Xor;
    var tag, index := h[56..60], h[60..62];
    assert forall i :: 0 <= i < 4 ==> tag[i] == h[56 + i];
    assert index[0] == h[60] && index[1] == h[61];
    assert Apply(ks, c, h)[60 + 0] == Xor(h[60], ks(c.key, c.iv, 60)) && Apply(ks, c, h)[60 + 1] == Xor(h[61], ks(c.key, c.iv, 61));
  }

  lemma ReversedParts(h: handshake)
    ensures Reversed(h)[8..40] == seq(32, i requires 0 <= i < 32 => h[55 - i])
    ensures Reversed(h)[40..56] == seq(16, i requires 0 <= i < 16 => h[23 - i])
  {
  }

  lemma SignedIndex(n: i16, lo: byte, hi: byte)
    requires n == FromLe16(lo, hi)
    ensures n % 0x1_0000 == lo + 0x100 * (hi as nat)
  {
  }

  predicate Reserved(raw: bytes)
    requires |raw| >= 8
  {
    || raw[0] == 0xef
    || raw[..4] in {[0x48, 0x45, 0x41, 0x44], [0x50, 0x4f, 0x53, 0x54], [0x47, 0x45, 0x54, 0x20],
                    [0xee, 0xee, 0xee, 0xee], [0xdd, 0xdd, 0xdd, 0xdd], [0x16, 0x03, 0x01, 0x02]}
    || raw[4..8] == [0, 0, 0, 0]
  }

  /** A handshake whose decryption under `c` carries a tag and an index, and which leaves bytes 0..56 alone. */
  predicate Carries(ks: Keystream, c: Ctr, h: handshake, raw: handshake, tag: bytes, dc: i16) {
    && h[..PROTO_TAG_POS] == raw[..PROTO_TAG_POS]
    && TagOf(Apply(ks, c, h)) == tag
    && DcOf(Apply(ks, c, h)) == dc
  }

  /** Bytes 8..56 read forwards and backwards are bytes 8..56: what is embedded behind them changes no key. */
  lemma KeysSurvive(hash: Sha256, h: handshake, raw: handshake, secret: bytes)
    requires h[..PROTO_TAG_POS] == raw[..PROTO_TAG_POS]
    ensures SecretCipher(hash, h, secret) == SecretCipher(hash, raw, secret)
    ensures SecretCipher(hash, Reversed(h), secret) == SecretCipher(hash, Reversed(raw), secret)
    ensures PlainCipher(h) == PlainCipher(raw)
    ensures PlainCipher(Reversed(h)) == PlainCipher(Reversed(raw))
  {
    assert forall i :: 0 <= i < PROTO_TAG_POS ==> h[i] == h[..PROTO_TAG_POS][i] == raw[..PROTO_TAG_POS][i] == raw[i];
    assert h[SKIP_LEN..IV_POS] == raw[SKIP_LEN..IV_POS] && h[IV_POS..IV_END] == raw[IV_POS..IV_END];
    var r, s := Reversed(h), Reversed(raw);
    assert r[SKIP_LEN..IV_POS] == s[SKIP_LEN..IV_POS] && r[IV_POS..IV_END] == s[IV_POS..IV_END];
  }

  /** Whatever handshake carries a valid tag and an index, every reader of it finds exactly these. */
  lemma HandshakeIsUnderstood(ks: Keystream, hash: Sha256, h: handshake, raw: handshake, secret: bytes, tag: bytes, dc: i16)
    requires |secret| == 16 && ValidProtoTag(tag)
    requires Carries(ks, SecretCipher(hash, h, secret), h, raw, tag, dc)
    ensures ParseHandshake(ks, hash, h, secret) == Some(HandshakeInfo(Abs(dc), dc < 0, tag))
    ensures HandshakeDcIndex(ks, hash, h, secret) == Some(dc)
    ensures HandshakeProtoTag(ks, hash, h, secret) == Some(tag)
    ensures Accept(ks, hash, h, secret) ==
            Some(Accepted(Advance(SecretCipher(hash, raw, secret), 64), SecretCipher(hash, Reversed(raw), secret), dc, tag))
  {
    KeysSurvive(hash, h, raw, secret);
  }

  /** The three readers of a handshake never disagree about it, whatever its bytes. */
  lemma ReadersAgree(ks: Keystream, hash: Sha256, h: handshake, secret: bytes)
    ensures var info, dc, a := ParseHandshake(ks, hash, h, secret), HandshakeDcIndex(ks, hash, h, secret), Accept(ks, hash, h, secret);
            && (info.Some? <==> dc.Some?) && (info.Some? <==> a.Some?)
            && (a.Some? ==>
                  && dc == Some(a.value.dcId) && info.value.protoTag == a.value.protoTag && ValidProtoTag(a.value.protoTag)
                  && info.value.dcId == Abs(a.value.dcId) && (info.value.isMedia <==> a.value.dcId < 0)
                  && a.value.dec.offset == 64 && a.value.enc.offset == 0)
  {
  }

  // ---------------------------------------------------------------- making handshakes

  /** Replaces bytes of a handshake so that they decrypt to `plain`. */
  method Embed(ks: Keystream, c: Ctr, h: array<byte>, at: nat, plain: bytes)
    requires h.Length == 64 && at + |plain| <= 64
    modifies h
    ensures forall i :: 0 <= i < 64 && !(at <= i < at + |plain|) ==> h[i] == old(h[i])
    ensures forall i :: 0 <= i < |plain| ==> h[at + i] == Xor(plain[i], ks(c.key, c.iv, c.offset + at + i))
  {
    hide Xor;
    for i := 0 to |plain|
      invariant forall j :: 0 <= j < 64 && !(at <= j < at + i) ==> h[j] == old(h[j])
      invariant forall j :: 0 <= j < i ==> h[at + j] == Xor(plain[j], ks(c.key, c.iv, c.offset + at + j))
    {
      h[at + i] := Xor(plain[i], ks(c.key, c.iv, c.offset + at + i));
    }
  }

  lemma EmbeddedIsCarried(ks: Keystream, c: Ctr, h: handshake, raw: handshake, tag: bytes, dc: i16)
    requires |tag| == 4 && h[..PROTO_TAG_POS] == raw[..PROTO_TAG_POS]
    requires forall i :: 0 <= i < 4 ==> h[PROTO_TAG_POS + i] == Xor(tag[i], ks(c.key, c.iv, c.offset + PROTO_TAG_POS + i))
    requires forall i :: 0 <= i < 2 ==> h[DC_IDX_POS + i] == Xor(ToLe16(dc)[i], ks(c.key, c.iv, c.offset + DC_IDX_POS + i))
    ensures Carries(ks, c, h, raw, tag, dc)
  {
    hide Xor, ToLe16, FromLe16;
    var plain, le := Apply(ks, c, h), ToLe16(dc);
    forall i | 0 <= i < 4
      ensures plain[PROTO_TAG_POS + i] == tag[i]
    {
      XorCancels(tag[i], ks(c.key, c.iv, c.offset + PROTO_TAG_POS + i));
    }
    assert TagOf(plain) == tag;
    XorCancels(le[0], ks(c.key, c.iv, c.offset + DC_IDX_POS));
    XorCancels(le[1], ks(c.key, c.iv, c.offset + DC_IDX_POS + 1));
    assert h[DC_IDX_POS + 0] == Xor(le[0], ks(c.key, c.iv, c.offset + DC_IDX_POS + 0));
    assert h[DC_IDX_POS + 1] == Xor(le[1], ks(c.key, c.iv, c.offset + DC_IDX_POS + 1));
  }

  /** For every keystream, hash and secret there is a handshake that is valid. */
  lemma SomeHandshake(ks: Keystream, hash: Sha256, secret: bytes) returns (h: handshake)
    requires |secret| == 16
    ensures ParseHandshake(ks, hash, h, secret).Some?
  {
    hide Xor, Apply, ToLe16, FromLe16, ValidProtoTag, Abs;
    var raw: handshake := seq(64, _ => 0);
    var c, le := SecretCipher(hash, raw, secret), ToLe16(2);
    var tag := seq(4, i requires 0 <= i < 4 => Xor(PROTO_TAG_SECURE[i], ks(c.key, c.iv, c.offset + PROTO_TAG_POS + i)));
    var dc := seq(2, i requires 0 <= i < 2 => Xor(le[i], ks(c.key, c.iv, c.offset + DC_IDX_POS + i)));
    h := raw[..PROTO_TAG_POS] + tag + dc + raw[DC_IDX_POS + 2..];
    assert h[..PROTO_TAG_POS] == raw[..PROTO_TAG_POS];
    KeysSurvive(hash, h, raw, secret);
    EmbeddedIsCarried(ks, c, h, raw, PROTO_TAG_SECURE, 2);
    SecureIsValid();
    HandshakeIsUnderstood(ks, hash, h, raw, secret, PROTO_TAG_SECURE, 2);
  }

  /** The secret counts: for any two there are a hash and a keystream under which a handshake made for one is refused for the other. */
  lemma SecretMatters(secret: bytes, other: bytes) returns (ks: Keystream, hash: Sha256, h: handshake)
    requires |secret| == |other| == 16 && secret != other
    ensures Accept(ks, hash, h, secret).Some? && Accept(ks, hash, h, other).None?
  {
    var zeros: digest, ones: digest := seq(32, _ => 0), seq(32, _ => 1);
    // under `other` the first byte of the tag, and no other, is flipped
    hash := s => if |s| == 48 && s[32..] == other then ones else zeros;
    ks := (key, iv, i) => if key == ones && i == 56 then 1 else 0;
    h := SomeHandshake(ks, hash, secret);
    AcceptedExactly(ks, hash, h, secret);
    AcceptedExactly(ks, hash, h, other);
    hide Accept;
    var prekey, iv := h[8..40], h[40..56];
    assert (prekey + secret)[32..] == secret && (prekey + other)[32..] == other && zeros[0] != ones[0];
    assert hash(prekey + secret) == zeros && hash(prekey + other) == ones;
    FlippedTag(ks, zeros, ones, iv, h[56..60]);
  }

  lemma FlippedTag(ks: Keystream, key: bytes, other: bytes, iv: bytes, s: bytes)
    requires |s| == 4 && (forall i :: ks(key, iv, i) == 0) && (forall i :: ks(other, iv, i) == if i == 56 then 1 else 0)
    ensures var tag, flipped := Apply(ks, Ctr(key, iv, 56), s), Apply(ks, Ctr(other, iv, 56), s);
            tag[0] == tag[1] ==> flipped[0] != flipped[1]
  {
    hide Xor;
    var tag, flipped := Apply(ks, Ctr(key, iv, 56), s), Apply(ks, Ctr(other, iv, 56), s);
    XorOfZero(s[0]);
    XorOfZero(s[1]);
    assert tag[0] == s[0] && tag[1] == s[1] && flipped[1] == s[1] && flipped[0] == Xor(s[0], 1);
    FlipIsChange(s[0]);
  }

  lemma XorOfZero(a: byte)
    ensures Xor(a, 0) == a
  {
    XorIsZero(a, a);
    XorCancels(a, a);
    XorCommutes(a, 0);
  }

  lemma FlipIsChange(a: byte)
    ensures Xor(a, 1) != a
  {
    XorIsZero(0, 1);
    XorCommutes(0, 1);
    XorIsZero(a, a);
    XorOfZero(1);
    XorCancels(a, 1);
    XorCancels(1, a);
    XorCommutes(a, 1);
  }

  lemma SecureIsValid()
    ensures ValidProtoTag(PROTO_TAG_SECURE)
  {
  }

  /** The first draw that does not look like another protocol. */
  function FirstUsable(draws: seq<handshake>): (raw: Option<handshake>)
    ensures raw.Some? ==> !Reserved(raw.value) && raw.value in draws
  {
    if draws == [] then None else if !Reserved(draws[0]) then Some(draws[0]) else FirstUsable(draws[1..])
  }

  /** It is the first that starts like none of the protocols a proxy could be taken for. */
  lemma {:induction false} FirstUsableSays(draws: seq<handshake>) returns (k: nat)
    ensures k <= |draws| && (FirstUsable(draws).Some? <==> k < |draws|) && (k < |draws| ==> FirstUsable(draws).value == draws[k])
    ensures forall i :: 0 <= i < k ==>
              || draws[i][0] == 0xef || draws[i][4..8] == [0, 0, 0, 0]
              || draws[i][..4] in {[0x48, 0x45, 0x41, 0x44], [0x50, 0x4f, 0x53, 0x54], [0x47, 0x45, 0x54, 0x20],
                                   [0xee, 0xee, 0xee, 0xee], [0xdd, 0xdd, 0xdd, 0xdd], [0x16, 0x03, 0x01, 0x02]}
    ensures k < |draws| ==>
              && draws[k][0] != 0xef && draws[k][4..8] != [0, 0, 0, 0]
              && draws[k][..4] !in {[0x48, 0x45, 0x41, 0x44], [0x50, 0x4f, 0x53, 0x54], [0x47, 0x45, 0x54, 0x20],
                                    [0xee, 0xee, 0xee, 0xee], [0xdd, 0xdd, 0xdd, 0xdd], [0x16, 0x03, 0x01, 0x02]}
  {
    if draws == [] || !Reserved(draws[0]) {
      k := 0;
    } else {
      var rest := draws[1..];
      var j := FirstUsableSays(rest);
      k := j + 1;
      assert forall i :: 1 <= i < |draws| ==> draws[i] == rest[i - 1];
    }
  }

  /**
   Draws random handshakes until one does not look like another protocol, then embeds the tag and the
   index under the secret's cipher. With a valid tag every reader recovers both.
   */
  method GenerateTestHandshake(ks: Keystream, hash: Sha256, draws: seq<handshake>, secret: bytes, dc: i16, tag: bytes)
    returns (r: Option<handshake>)
    requires |tag| == 4
    ensures r.None? <==> FirstUsable(draws).None?
    ensures r.Some? ==>
              && r.value[..PROTO_TAG_POS] == FirstUsable(draws).value[..PROTO_TAG_POS] && !Reserved(r.value)
              && r.value[DC_IDX_POS + 2..] == FirstUsable(draws).value[DC_IDX_POS + 2..]
    ensures r.Some? && |secret| == 16 && ValidProtoTag(tag) ==>
              && ParseHandshake(ks, hash, r.value, secret) == Some(HandshakeInfo(Abs(dc), dc < 0, tag))
              && HandshakeDcIndex(ks, hash, r.value, secret) == Some(dc)
              && Accept(ks, hash, r.value, secret).Some?
              && Accept(ks, hash, r.value, secret).value.dcId == dc
              && Accept(ks, hash, r.value, secret).value.protoTag == tag
  {
    hide Xor, Apply, Reserved;
    for i := 0 to |draws|
      invariant FirstUsable(draws) == FirstUsable(draws[i..])
    {
      var raw := draws[i];
      if Reserved(raw) {
        assert draws[i..][1..] == draws[i + 1..];
        continue;
      }
      var c := SecretCipher(hash, raw, secret);
      var h := new byte[64](j requires 0 <= j < 64 => raw[j]);
      Embed(ks, c, h, PROTO_TAG_POS, tag);
      Embed(ks, c, h, DC_IDX_POS, ToLe16(dc));
      r := Some(h[..]);
      assert r.value[..PROTO_TAG_POS] == raw[..PROTO_TAG_POS];
      assert r.value[DC_IDX_POS + 2..] == raw[DC_IDX_POS + 2..];
      SameStart(r.value, raw);
      KeysSurvive(hash, r.value, raw, secret);
      EmbeddedIsCarried(ks, c, r.value, raw, tag, dc);
      if |secret| == 16 && ValidProtoTag(tag) {
        HandshakeIsUnderstood(ks, hash, r.value, raw, secret, tag, dc);
      }
      return;
    }
    r := None;
  }

  /** What a data centre derives from the 64 bytes it is sent, and nothing else. */
  datatype PeerView = PeerView(protoTag: bytes, dc: i16, receive: Ctr, send: Ctr)

  function PeerOf(ks: Keystream, header: handshake): (p: PeerView) {
    var c := PlainCipher(header);
    var plain := Apply(ks, c, header);
    PeerView(TagOf(plain), DcOf(plain), Advance(c, HANDSHAKE_LEN), PlainCipher(Reversed(header)))
  }

  /** The same for the header to a data centre, without a secret: the 64 bytes carry the keys themselves. */
  lemma PeerSays(ks: Keystream, h: handshake)
    ensures var key, iv := h[8..40], h[40..56];
            var tag, index := Apply(ks, Ctr(key, iv, 56), h[56..60]), Apply(ks, Ctr(key, iv, 60), h[60..62]);
            var p := PeerOf(ks, h);
            && p.protoTag == tag && p.dc % 0x1_0000 == index[0] + 0x100 * (index[1] as nat)
            && p.receive == Ctr(key, iv, 64)
            && p.send == Ctr(seq(32, i requires 0 <= i < 32 => h[55 - i]), seq(16, i requires 0 <= i < 16 => h[23 - i]), 0)
  {
    hide Xor, U16;
    var c := PlainCipher(h);
    PlainParts(ks, c, h);
    ReversedParts(h);
    SignedIndex(DcOf(Apply(ks, c, h)), Apply(ks, c, h)[60], Apply(ks, c, h)[61]);
  }

  datatype RelayInit = InvalidTag | NoDraw | RelayInit(header: handshake, enc: Ctr, dec: Ctr)

  method Reverse(h: handshake) returns (r: array<byte>)
    ensures fresh(r) && r[..] == Reversed(h)
  {
    r := new byte[64](_ => 0);
    for i := 0 to 64
      invariant forall j :: 0 <= j < i ==> r[j] == h[63 - j]
    {
      r[i] := h[63 - i];
    }
  }

  class AesCtr {
    const ks: Keystream
    var at: Ctr

    constructor (ks: Keystream, at: Ctr)
      ensures this.ks == ks && this.at == at
    {
      this.ks, this.at := ks, at;
    }

    method ApplyKeystream(s: bytes) returns (t: bytes)
      modifies this
      ensures t == Apply(ks, old(at), s) && at == Advance(old(at), |s|)
    {
      t := Apply(ks, at, s);
      at := Advance(at, |s|);
    }
  }

  /**
   The header for a connection to a data centre. From its 64 bytes alone the peer recovers the tag,
   the index and both ciphers as the generator keeps them.
   */
  method GenerateRelayInit(ks: Keystream, draws: seq<handshake>, dc: i16, tag: bytes) returns (r: RelayInit)
    requires |tag| == 4
    ensures r.InvalidTag? <==> !ValidProtoTag(tag)
    ensures r.NoDraw? <==> ValidProtoTag(tag) && FirstUsable(draws).None?
    ensures r.RelayInit? ==> !Reserved(r.header) && r.header[..PROTO_TAG_POS] == FirstUsable(draws).value[..PROTO_TAG_POS]
    ensures r.RelayInit? ==> PeerOf(ks, r.header) == PeerView(tag, dc, r.enc, r.dec)
    ensures r.RelayInit? ==> r.enc.offset == 64 && r.dec.offset == 0
  {
    hide Xor, Apply, Reserved;
    if !ValidProtoTag(tag) {
      return InvalidTag;
    }
    for i := 0 to |draws|
      invariant FirstUsable(draws) == FirstUsable(draws[i..])
    {
      var raw := draws[i];
      if Reserved(raw) {
        assert draws[i..][1..] == draws[i + 1..];
        continue;
      }
      var enc := new AesCtr(ks, PlainCipher(raw));
      var reversed := Reverse(raw);
      var plaintext := raw[..PROTO_TAG_POS] + tag + ToLe16(dc) + raw[DC_IDX_POS + 2..];
      var encrypted := enc.ApplyKeystream(plaintext);
      var header: handshake := raw[..PROTO_TAG_POS] + encrypted[PROTO_TAG_POS..];
      KeysSurvive(s => seq(32, _ => 0), header, raw, []);
      HeaderCarries(ks, raw, header, plaintext, tag, dc);
      SameStart(header, raw);
      return RelayInit(header, enc.at, PlainCipher(reversed[..]));
    }
    r := NoDraw;
  }

  lemma SameStart(h: handshake, raw: handshake)
    requires h[..PROTO_TAG_POS] == raw[..PROTO_TAG_POS]
    ensures Reserved(h) == Reserved(raw)
  {
    assert h[..4] == h[..PROTO_TAG_POS][..4] && raw[..4] == raw[..PROTO_TAG_POS][..4];
    assert h[4..8] == h[..PROTO_TAG_POS][4..8] && raw[4..8] == raw[..PROTO_TAG_POS][4..8];
    assert h[0] == h[..4][0] && raw[0] == raw[..4][0];
  }

  lemma HeaderCarries(ks: Keystream, raw: handshake, header: handshake, plaintext: handshake, tag: bytes, dc: i16)
    requires |tag| == 4 && plaintext == raw[..PROTO_TAG_POS] + tag + ToLe16(dc) + raw[DC_IDX_POS + 2..]
    requires header == raw[..PROTO_TAG_POS] + Apply(ks, PlainCipher(raw), plaintext)[PROTO_TAG_POS..]
    ensures Carries(ks, PlainCipher(raw), header, raw, tag, dc)
  {
    hide Xor, ToLe16, FromLe16;
    var c := PlainCipher(raw);
    var le := ToLe16(dc);
    forall i | 0 <= i < 4
      ensures header[PROTO_TAG_POS + i] == Xor(tag[i], ks(c.key, c.iv, c.offset + PROTO_TAG_POS + i))
    {
      assert plaintext[PROTO_TAG_POS + i] == tag[i];
    }
    forall i | 0 <= i < 2
      ensures header[DC_IDX_POS + i] == Xor(le[i], ks(c.key, c.iv, c.offset + DC_IDX_POS + i))
    {
      assert plaintext[DC_IDX_POS + i] == le[i];
    }
    EmbeddedIsCarried(ks, c, header, raw, tag, dc);
  }

  // ---------------------------------------------------------------- the stream

  /** A peer at the same position reads a prefix of the ciphertext as that prefix of the text. */
  lemma PeerDecrypts(ks: Keystream, start: Ctr, plain: bytes, wire: bytes)
    requires Prefix(wire, Apply(ks, start, plain))
    ensures Apply(ks, start, wire) == plain[..|wire|]
  {
    hide Xor;
    var k := |wire|;
    ApplySplit(ks, start, plain[..k], plain[k..]);
    assert plain[..k] + plain[k..] == plain;
    assert wire == Apply(ks, start, plain[..k]);
    ApplyTwice(ks, start, plain[..k]);
  }

  /**
   Both halves of an obfuscated stream. `plain` is everything that went through the encryptor;
   while the stream is aligned, the sink and the unwritten rest hold its encryption in one piece.
   */
  class ObfuscatedStream {
    const input: PrefixedStream
    const output: WriteHalf
    const enc: AesCtr
    const dec: AesCtr
    var pendingWrite: bytes
    ghost const base: bytes
    ghost const start: Ctr
    ghost var plain: bytes

    /** What the reader will still deliver: everything to come, decrypted in one pass. */
    ghost function Outlook(): (s: bytes)
      requires input.Valid()
      reads dec, input, input.inner
    {
      Apply(dec.ks, dec.at, input.Rest())
    }

    ghost predicate Aligned()
      reads this`pendingWrite, this`plain, enc, output
    {
      && enc.at == Advance(start, |plain|) && |base| <= |output.wire|
      && output.wire + pendingWrite == base + Apply(enc.ks, start, plain)
    }

    /** What is left of that after a failure: the sink and the unwritten rest hold the beginning of it. */
    ghost predicate Spelled()
      reads this`pendingWrite, this`plain, enc, output
    {
      && enc.at == Advance(start, |plain|) && |base| <= |output.wire|
      && Prefix(output.wire + pendingWrite, base + Apply(enc.ks, start, plain))
    }

    constructor (input: PrefixedStream, output: WriteHalf, enc: AesCtr, dec: AesCtr)
      requires input.Valid()
      ensures this.input == input && this.output == output && this.enc == enc && this.dec == dec
      ensures pendingWrite == [] && plain == [] && start == enc.at && base == output.wire
      ensures Aligned()
    {
      this.input, this.output, this.enc, this.dec := input, output, enc, dec;
      pendingWrite, plain := [], [];
      base, start := output.wire, enc.at;
    }

    /** Chunked decryption is decryption in one pass. */
    method PollRead(max: nat) returns (r: ReadPoll)
      requires input.Valid()
      modifies dec, input, input.inner
      ensures input.Valid() && Took(r, max, old(Outlook()), Outlook())
      ensures var (poll, rest) := ReadStep(old(input.View()), max);
              && input.View() == rest && dec.at == Advance(old(dec.at), |Got(poll)|)
              && r == if poll.ReadReady? then ReadReady(Apply(dec.ks, old(dec.at), poll.data)) else poll
      ensures Progressed(r, old(input.Size()), input.Size()) && old(input.Failures()) == input.Failures() + Reported(r)
      ensures r.ReadPending? && old(input.Size()) == 0 ==> old(Outlook()) == []
    {
      hide Arriving, ScriptSize, ReadStep, Xor, PrefixedStream.View, PrefixedStream.Rest, PrefixedStream.Size;
      hide PrefixedStream.Failures;
      ghost var at := dec.at;
      var poll := input.PollRead(max);
      ApplySplit(dec.ks, at, Got(poll), input.Rest());
      if poll.ReadReady? && |poll.data| > 0 {
        var data := dec.ApplyKeystream(poll.data);
        return ReadReady(data);
      }
      assert Apply(dec.ks, at, []) == [];
      return poll;
    }

    /**
     Encrypts `buf` once the pending bytes are out. The stream stays aligned unless the sink fails
     just then; if it blocks, `buf` has been encrypted although it is reported as not written.
     */
    method PollWrite(buf: bytes) returns (r: WritePoll)
      requires Aligned()
      modifies this`pendingWrite, this`plain, enc, output
      ensures r == WriteAnswer(|buf|, |old(pendingWrite)|, old(output.script))
      ensures plain == old(plain) + if Encrypts(|buf|, |old(pendingWrite)|, old(output.script)) then buf else []
      ensures output.script == ScriptAfter(|buf|, |old(pendingWrite)|, old(output.script))
      ensures |pendingWrite| == PendingAfter(|buf|, |old(pendingWrite)|, old(output.script))
      ensures Spelled() && (Aligned() <==> !(r.WriteError? && Encrypts(|buf|, |old(pendingWrite)|, old(output.script))))
      ensures !Encrypts(|buf|, |old(pendingWrite)|, old(output.script)) ==>
                pendingWrite == old(pendingWrite)[DrainTaken(|old(pendingWrite)|, old(output.script))..]
    {
      hide Xor, Apply;
      if pendingWrite != [] {
        ghost var spelled := output.wire + pendingWrite;
        var poll := output.PollWrite(pendingWrite);
        match poll {
          case Wrote(n) =>
            if n == 0 {
              return WriteError(ErrorKind.WriteZero);
            }
            assert output.wire + pendingWrite[n..] == spelled;
            pendingWrite := pendingWrite[n..];
            if pendingWrite != [] {
              return WritePending;
            }
          case _ =>
            return poll;
        }
      }
      if buf == [] {
        assert plain + [] == plain;
        return Wrote(0);
      }
      r := Encrypt(buf);
    }

    /** Encrypts and offers a buffer when nothing is pending. */
    method Encrypt(buf: bytes) returns (r: WritePoll)
      requires Aligned() && pendingWrite == [] && buf != []
      modifies this`pendingWrite, this`plain, enc, output
      ensures plain == old(plain) + buf && output.script == WriteRest(old(output.script))
      ensures r == match WriteStep(old(output.script), |buf|)
                   case Wrote(n) => if n == 0 then WriteError(ErrorKind.WriteZero) else Wrote(|buf|)
                   case other => other
      ensures |pendingWrite| == PendingAfter(|buf|, 0, old(output.script))
      ensures Spelled() && (Aligned() <==> !r.WriteError?)
    {
      hide Xor, Apply;
      ApplySplit(enc.ks, start, plain, buf);
      ghost var done := Apply(enc.ks, start, plain);
      assert output.wire == base + done by {
        assert output.wire + [] == output.wire;
      }
      var out := enc.ApplyKeystream(buf);
      plain := plain + buf;
      ghost var before := output.wire;
      var poll := output.PollWrite(out);
      EncryptedParts(before, base, done, out, if poll.Wrote? then poll.n else 0);
      match poll {
        case Wrote(n) =>
          if n == 0 {
            return WriteError(ErrorKind.WriteZero);
          }
          pendingWrite := out[n..];
          return Wrote(|buf|);
        case WritePending =>
          pendingWrite := out;
          return WritePending;
        case WriteError(_) =>
          return poll;
      }
    }

    static lemma EncryptedParts(before: bytes, base: bytes, done: bytes, out: bytes, n: nat)
      requires before == base + done && n <= |out|
      ensures before + out[..n] + out[n..] == base + (done + out) == before + out
      ensures Prefix(before + [], base + (done + out)) && before + out[..0] == before
    {
      assert (base + (done + out))[..|before|] == before;
    }

    method PollFlush() returns (r: DrainPoll)
      requires Aligned()
      modifies this`pendingWrite, this`plain, enc, output
      ensures Aligned() && plain == old(plain)
      ensures (r, output.script) == FlushStep(|old(pendingWrite)|, old(output.script))
      ensures pendingWrite == old(pendingWrite)[DrainTaken(|old(pendingWrite)|, old(output.script))..]
      ensures r.Drained? ==> pendingWrite == []
    {
      if pendingWrite != [] {
        var poll := PollWrite([]);
        if !poll.Wrote? {
          return AsDrainPoll(poll);
        }
      }
      var poll := output.PollFlush();
      r := if poll.Wrote? then Drained else AsDrainPoll(poll);
    }

    /** Flushes, polling again whenever the stream was blocked. */
    method Flush() returns (r: DrainPoll)
      requires Aligned()
      modifies this`pendingWrite, this`plain, enc, output
      ensures Aligned() && plain == old(plain)
      ensures (r, output.script) == FlushRun(|old(pendingWrite)|, old(output.script))
      ensures r.Drained? ==> pendingWrite == []
    {
      hide Xor, Apply, FlushRun, FlushStep, ObfuscatedStream.Aligned;
      while true
        invariant Aligned() && plain == old(plain)
        invariant FlushRun(|old(pendingWrite)|, old(output.script)) == FlushRun(|pendingWrite|, output.script)
        decreases |output.script|
      {
        FlushRunStep(|pendingWrite|, output.script);
        var waiting := output.script == [];
        r := PollFlush();
        if !r.DrainPending? || waiting {
          return;
        }
      }
    }

    /**
     Writes all of `buf`, polling again whenever the stream was blocked. From a drained stream it is
     encrypted, and encrypted once unless the first attempt stalls and its ciphertext gets out later;
     and it is accepted after being encrypted once precisely when the first attempt takes some of it.
     */
    method WriteAll(buf: bytes) returns (r: DrainPoll)
      requires Aligned() && buf != []
      modifies this`pendingWrite, this`plain, enc, output
      ensures Spelled() && (!r.DrainError? ==> Aligned())
      ensures r.DrainPending? ==> output.script == []
      ensures old(pendingWrite) == [] ==>
                && Prefix(old(plain) + buf, plain)
                && (plain == old(plain) + buf <==> EncryptsOnce(old(output.script), |buf|))
                && (r.Drained? && plain == old(plain) + buf <==> TakesSome(old(output.script)))
                && (TakesSome(old(output.script)) ==>
                      output.script == old(output.script)[1..] && |pendingWrite| == |buf| - Min(old(output.script)[0].n, |buf|))
    {
      hide Xor, Apply, WriteAnswer, ScriptAfter, PendingAfter, Encrypts, TakesAll, EncryptsOnce, TakesSome;
      hide ObfuscatedStream.Aligned, ObfuscatedStream.Spelled, Tried;
      ghost var before, clean, start := plain, pendingWrite == [], output.script;
      NotTried(buf, before, start);
      while true
        invariant Aligned() && (clean ==> Tried(buf, before, plain, |pendingWrite|, start, output.script))
        decreases |output.script|
      {
        var waiting := output.script == [];
        WriteFacts(|buf|, |pendingWrite|, output.script);
        if clean {
          TriedStep(buf, before, plain, |pendingWrite|, start, output.script);
        }
        assert plain + [] == plain;
        var poll := PollWrite(buf);
        if poll.Wrote? {
          return Drained;
        }
        if poll.WriteError? || waiting {
          return AsDrainPoll(poll);
        }
      }
    }
  }

  // One write as a function of what is pending and what the sink will accept.

  predicate Encrypts(len: nat, pending: nat, script: WriteScript) {
    len > 0 && DrainStep(pending, script).Drained?
  }

  function WriteAnswer(len: nat, pending: nat, script: WriteScript): (r: WritePoll) {
    var d := DrainStep(pending, script);
    if !d.Drained? then AsWritePoll(d)
    else if len == 0 then Wrote(0)
    else match WriteStep(AfterDrain(pending, script), len)
      case Wrote(n) => if n == 0 then WriteError(ErrorKind.WriteZero) else Wrote(len)
      case other => other
  }

  function ScriptAfter(len: nat, pending: nat, script: WriteScript): (rest: WriteScript) {
    var rest := AfterDrain(pending, script);
    if Encrypts(len, pending, script) then WriteRest(rest) else rest
  }

  function PendingAfter(len: nat, pending: nat, script: WriteScript): (left: nat) {
    if !DrainStep(pending, script).Drained? then pending - DrainTaken(pending, script)
    else if len == 0 then 0
    else match WriteStep(AfterDrain(pending, script), len)
      case Wrote(n) => if n == 0 then 0 else len - n
      case WritePending => len
      case WriteError(_) => 0
  }

  /** The sink takes some of what it is offered first. */
  predicate TakesSome(script: WriteScript) {
    script != [] && script[0].Room? && script[0].n > 0
  }

  /** Writing `len` bytes from a drained stream encrypts them once: the first attempt does not stall, or nothing gets out after it. */
  predicate EncryptsOnce(script: WriteScript, len: nat) {
    script == [] || !script[0].Stall? || !TakesAll(script[1..], len)
  }

  /** One more poll of a write uses up some of the sink's script. */
  lemma WriteFacts(len: nat, pending: nat, script: WriteScript)
    requires len > 0
    ensures script != [] ==> |ScriptAfter(len, pending, script)| < |script|
    ensures script == [] ==> ScriptAfter(len, pending, script) == [] && WriteAnswer(len, pending, script) == WritePending
    ensures WriteAnswer(len, pending, script).WriteError? && !Encrypts(len, pending, script) ==> pending > 0
  {
  }

  /** How a write of `buf` from a drained stream stands: not tried, encrypted once and stalled, or encrypted again. */
  ghost predicate Tried(buf: bytes, before: bytes, plain: bytes, pending: nat, start: WriteScript, script: WriteScript) {
    if plain == before then pending == 0 && script == start
    else
      && Prefix(before + buf, plain) && start != [] && start[0].Stall?
      && if plain == before + buf then pending > 0 && (TakesAll(start[1..], |buf|) <==> TakesAll(script, pending))
         else |plain| > |before + buf| && TakesAll(start[1..], |buf|)
  }

  lemma NotTried(buf: bytes, before: bytes, start: WriteScript)
    ensures Tried(buf, before, before, 0, start, start)
  {
  }

  /** After one more poll it stands so again, or the write has come to its end and was encrypted as often as it says. */
  lemma TriedStep(buf: bytes, before: bytes, plain: bytes, pending: nat, start: WriteScript, script: WriteScript)
    requires buf != [] && Tried(buf, before, plain, pending, start, script)
    ensures var r := WriteAnswer(|buf|, pending, script);
            var plain' := plain + if Encrypts(|buf|, pending, script) then buf else [];
            if r.WritePending? && script != [] then
              Tried(buf, before, plain', PendingAfter(|buf|, pending, script), start, ScriptAfter(|buf|, pending, script))
            else
              && Prefix(before + buf, plain')
              && (plain' == before + buf <==> EncryptsOnce(start, |buf|))
              && (r.Wrote? && plain' == before + buf <==> TakesSome(start))
              && (TakesSome(start) ==> script == start && pending == 0 && r.Wrote?
                                       && ScriptAfter(|buf|, pending, script) == start[1..]
                                       && PendingAfter(|buf|, pending, script) == |buf| - Min(start[0].n, |buf|))
  {
    if pending > 0 {
      DrainKeeps(pending, script);
    }
    assert plain + [] == plain;
  }

  /** A sink that stalls once: the write is answered as pending although it went through the encryptor, and so does the retry. */
  lemma StallEncryptsTwice()
    ensures var script := [Stall, Room(9), Room(9)];
            && !EncryptsOnce(script, 1)
            && WriteAnswer(1, 0, script) == WritePending && Encrypts(1, 0, script)
            && PendingAfter(1, 0, script) == 1 && ScriptAfter(1, 0, script) == script[1..]
            && WriteAnswer(1, 1, script[1..]) == Wrote(1) && Encrypts(1, 1, script[1..])
  {
    var script := [Stall, Room(9), Room(9)];
    assert script[0] == Stall && script[1..][0] == Room(9);
    assert TakesAll(script[1..], 1);
  }

  /** At any moment a peer that starts where the stream started reads what has reached it as a prefix of what was encrypted. */
  lemma PeerReads(s: ObfuscatedStream, came: bytes)
    requires s.Spelled() && s.base == [] && Prefix(came, s.output.wire)
    ensures |came| <= |s.plain| && Apply(s.enc.ks, s.start, came) == s.plain[..|came|]
  {
    hide Apply, Xor;
    var all := Apply(s.enc.ks, s.start, s.plain);
    assert s.base + all == all;
    var held := s.output.wire + s.pendingWrite;
    assert came == held[..|came|] == all[..|held|][..|came|] == all[..|came|];
    PeerDecrypts(s.enc.ks, s.start, s.plain, came);
  }

  /** Reads a handshake off the front of a stream and takes over the rest of it. */
  method AcceptHandshake(ks: Keystream, hash: Sha256, input: PrefixedStream, output: WriteHalf, secret: bytes)
    returns (s: ObfuscatedStream?, ghost header: bytes, dcId: i16, protoTag: bytes)
    requires input.Valid()
    modifies input, input.inner
    ensures input.Valid()
    ensures s != null ==>
              && fresh(s) && fresh(s.enc) && fresh(s.dec) && s.enc != s.dec
              && s.input == input && s.output == output && s.enc.ks == ks && s.dec.ks == ks
              && |header| == 64 && old(input.Rest()) == header + input.Rest()
              && Accept(ks, hash, header, secret) == Some(Accepted(s.dec.at, s.enc.at, dcId, protoTag))
              && s.Aligned() && s.plain == [] && s.pendingWrite == []
    ensures s == null && header != [] ==> |header| == 64 && Accept(ks, hash, header, secret).None?
    ensures header == [] ==> |old(input.Rest())| < 64 || input.Failures() < old(input.Failures())
    ensures header != [] ==> old(input.Rest()) == header + input.Rest() && input.Failures() == old(input.Failures())
    ensures header != [] ==>
              var key, iv := hash(header[8..40] + secret), header[40..56];
              var tag, index := Apply(ks, Ctr(key, iv, 56), header[56..60]), Apply(ks, Ctr(key, iv, 60), header[60..62]);
              && (s != null <==> |secret| == 16
                                 && tag in {[0xef, 0xef, 0xef, 0xef], [0xee, 0xee, 0xee, 0xee], [0xdd, 0xdd, 0xdd, 0xdd]})
              && (s != null ==>
                    && protoTag == tag && dcId % 0x1_0000 == index[0] + 0x100 * (index[1] as nat)
                    && s.dec.at == Ctr(key, iv, 64)
                    && s.enc.at == Ctr(hash(seq(32, i requires 0 <= i < 32 => header[55 - i]) + secret),
                                       seq(16, i requires 0 <= i < 16 => header[23 - i]), 0))
  {
    hide Xor, Apply, PrefixedStream.View, PrefixedStream.Rest, PrefixedStream.Failures, ParseHandshake, SecretCipher;
    s, header, dcId, protoTag := null, [], 0, [];
    var read := input.ReadExact(HANDSHAKE_LEN);
    if !read.Full? {
      return;
    }
    var h: handshake := read.data;
    header := h;
    AcceptedExactly(ks, hash, h, secret);
    var info := ParseHandshake(ks, hash, h, secret);
    if info.None? {
      return;
    }
    var reversed := Reverse(h);
    var dec := new AesCtr(ks, SecretCipher(hash, h, secret));
    var sink := dec.ApplyKeystream(h);
    dcId, protoTag := DcOf(sink), TagOf(sink);
    var enc := new AesCtr(ks, SecretCipher(hash, reversed[..], secret));
    s := new ObfuscatedStream(input, output, enc, dec);
  }
}
