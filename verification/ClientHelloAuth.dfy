/**
 The authenticated ClientHello of Fake TLS: its `random` field is a keyed hash of the record with
 that field blanked, the last four bytes being mixed with the time of signing.
 */
module ClientHelloAuth {
  import opened Bytes
  import opened Options
  import opened Utf8
  import opened Tls

  const RANDOM_OFFSET: nat := 11
  const RANDOM_END: nat := RANDOM_OFFSET + 32
  const SKEW_SECS: nat := 120
  const ZEROS: digest := [
    0, 0, 0, 0, 0, 0, 0, 0, 0, 0, 0, 0, 0, 0, 0, 0,
    0, 0, 0, 0, 0, 0, 0, 0, 0, 0, 0, 0, 0, 0, 0, 0]

  /** A keyed hash; nothing is asked of it but its length. */
  type Hmac = (bytes, bytes) -> digest

  datatype ParsedClientHello = ParsedClientHello(
    raw: bytes, random: digest, sessionId: bytes, cipherSuite: nat, sni: Option<text>)

  // ---------------------------------------------------------------- parsing

  /** Reads the hello out of a buffer that starts with a complete handshake record. */
  function ParseClientHelloRecord(data: bytes): (ch: Option<ParsedClientHello>) {
    var record := ParseRecord(data);
    if record.None? || record.value.recordType != Handshake then None
    else
      var hello := ParseClientHello(record.value.payload);
      if hello.None? then None
      else
        var suites := hello.value.cipherSuites;
        Some(ParsedClientHello(data[..5 + |record.value.payload|], hello.value.random, hello.value.sessionId,
                               if |suites| >= 2 then U16([suites[0], suites[1]]) else 0, hello.value.sni))
  }

  /** Reads what an early answer needs out of a buffer that may stop inside the record. */
  function ParseClientHelloPrefix(data: bytes): (ch: Option<ParsedClientHello>) {
    if |data| < RANDOM_END || data[0] != 22 then None
    else
      var payload := data[5..];
      if 38 >= |payload| then None
      else
        var end := 39 + (payload[38] as nat);
        if end > |payload| then None
        else
          Some(ParsedClientHello(data, payload[6..38], payload[39..end],
                                 if end + 2 <= |payload| then U16([payload[end], payload[end + 1]]) else 0,
                                 TryClientHelloSni(data)))
  }

  /** On a complete record both parsers read the same random, session id and server name. */
  lemma PrefixAgreesWithRecord(data: bytes)
    requires ParseClientHelloRecord(data).Some?
    ensures ParseClientHelloPrefix(data).Some?
    ensures var whole, part := ParseClientHelloRecord(data).value, ParseClientHelloPrefix(data).value;
            whole.random == part.random && whole.sessionId == part.sessionId && whole.sni == part.sni
  {
    hide U16, SniOf, SniFromPayload;
    var payload := ParseRecord(data).value.payload;
    TryIsTolerant(data);
    ParsersAgree(payload);
    assert forall i :: 0 <= i < |payload| ==> data[5..][i] == payload[i];
    var end := 39 + (payload[38] as nat);
    assert data[5..][39..end] == payload[39..end] && data[5..][6..38] == payload[6..38];
    assert data[5] == payload[0] == 1;
    assert Arrived(data) == payload;
  }

  /** A buffer that may stop anywhere is readable exactly from the end of its session id on, and tells random and session id. */
  lemma PrefixSays(data: bytes)
    ensures var ch := ParseClientHelloPrefix(data);
            && (ch.Some? <==> |data| >= 44 && data[0] == 0x16 && 44 + data[43] as nat <= |data|)
            && (ch.Some? ==>
                  ch.value.raw == data && ch.value.random == data[11..43] && ch.value.sessionId == data[44..44 + data[43] as nat])
  {
    hide TryClientHelloSni, U16;
    if |data| >= 44 {
      var payload := data[5..];
      assert payload[38] == data[43] && payload[6..38] == data[11..43];
      var end := 39 + (payload[38] as nat);
      if end <= |payload| {
        assert payload[39..end] == data[44..5 + end];
      }
    }
  }

  // ---------------------------------------------------------------- signing and checking

  /** The record with its random field blanked. */
  function Blank(data: bytes): (s: bytes)
    requires |data| >= RANDOM_END
  {
    data[..RANDOM_OFFSET] + ZEROS + data[RANDOM_END..]
  }

  /** `(now as u32).to_le_bytes()`: the clock keeps its low thirty-two bits. */
  function Le32(now: nat): (s: bytes)
    ensures |s| == 4 && U32([s[3], s[2], s[1], s[0]]) == now % 0x1_0000_0000
  {
    PutU32Reads(now % 0x1_0000_0000);
    var s := PutU32(now % 0x1_0000_0000);
    [s[3], s[2], s[1], s[0]]
  }

  function Mix(a: bytes, b: bytes): (c: bytes)
    requires |a| == |b|
    ensures |c| == |a|
  {
    seq(|a|, i requires 0 <= i < |a| => Xor(a[i], b[i]))
  }

  /** The random field that a signer puts in at time `now`. */
  function SignedRandom(mac: digest, now: nat): (random: digest) {
    mac[..28] + Mix(mac[28..], Le32(now))
  }

  function Signed(hmac: Hmac, data: bytes, secret: bytes, now: nat): (s: bytes)
    requires |data| >= RANDOM_END
    ensures |s| == |data|
  {
    data[..RANDOM_OFFSET] + SignedRandom(hmac(secret, Blank(data)), now) + data[RANDOM_END..]
  }

  datatype Verdict = Valid | TooShort | HmacMismatch | TimestampOutOfRange

  function Distance(a: nat, b: nat): (d: nat) {
    if a <= b then b - a else a - b
  }

  predicate LeadingZeros(s: bytes)
    requires |s| >= 28
  {
    forall i :: 0 <= i < 28 ==> s[i] == 0
  }

  function Validate(hmac: Hmac, ch: ParsedClientHello, secret: bytes, now: nat): (v: Verdict) {
    if |ch.raw| < RANDOM_END then TooShort
    else
      var left := Mix(hmac(secret, Blank(ch.raw)), ch.random);
      if !LeadingZeros(left) then HmacMismatch
      else if Distance(U32([left[31], left[30], left[29], left[28]]), now) > SKEW_SECS then TimestampOutOfRange
      else Valid
  }

  method ValidateClientHello(hmac: Hmac, ch: ParsedClientHello, secret: bytes, now: nat) returns (v: Verdict)
    ensures v == Validate(hmac, ch, secret, now)
  {
    hide Xor, U32, Blank;
    if |ch.raw| < RANDOM_END {
      return TooShort;
    }
    var modified := Blank(ch.raw);
    var mac := hmac(secret, modified);
    var expected := new byte[32](i requires 0 <= i < 32 => mac[i]);
    for i := 0 to 32
      invariant forall j :: 0 <= j < 32 ==> expected[j] == if j < i then Xor(mac[j], ch.random[j]) else mac[j]
    {
      expected[i] := Xor(expected[i], ch.random[i]);
    }
    assert expected[..] == Mix(mac, ch.random);
    for i := 0 to 28
      invariant forall j :: 0 <= j < i ==> expected[j] == 0
    {
      if expected[i] != 0 {
        assert Mix(mac, ch.random)[i] != 0;
        return HmacMismatch;
      }
    }
    var ts := U32([expected[31], expected[30], expected[29], expected[28]]);
    v := if Distance(ts, now) > SKEW_SECS then TimestampOutOfRange else Valid;
  }

  method SignClientHelloRecord(hmac: Hmac, data: array<byte>, secret: bytes, now: nat)
    requires data.Length >= RANDOM_END
    modifies data
    ensures data[..] == Signed(hmac, old(data[..]), secret, now)
  {
    hide Xor, Le32;
    ghost var before := data[..];
    var mac := hmac(secret, Blank(data[..]));
    var ts := Le32(now);
    for i := 0 to 28
      invariant forall j :: 0 <= j < data.Length ==>
                  data[j] == if RANDOM_OFFSET <= j < RANDOM_OFFSET + i then mac[j - RANDOM_OFFSET] else before[j]
    {
      data[RANDOM_OFFSET + i] := mac[i];
    }
    for i := 0 to 4
      invariant forall j :: 0 <= j < data.Length ==>
                  data[j] == if RANDOM_OFFSET <= j < RANDOM_OFFSET + 28 then mac[j - RANDOM_OFFSET]
                             else if RANDOM_OFFSET + 28 <= j < RANDOM_OFFSET + 28 + i
                             then Xor(mac[j - RANDOM_OFFSET], ts[j - RANDOM_OFFSET - 28])
                             else before[j]
    {
      data[RANDOM_OFFSET + 28 + i] := Xor(mac[28 + i], ts[i]);
    }
    assert data[..] == Signed(hmac, before, secret, now);
  }

  lemma MixUndone(a: byte, b: byte)
    ensures Xor(a, Xor(a, b)) == b
  {
    XorCommutes(a, b);
    XorCommutes(a, Xor(a, b));
    XorCancels(b, a);
  }

  /** The keyed hash matches, and the time is within reach, exactly for a random field signed within reach of now. */
  lemma ValidExactly(hmac: Hmac, ch: ParsedClientHello, secret: bytes, now: nat)
    requires |ch.raw| >= RANDOM_END
    ensures Validate(hmac, ch, secret, now) == Valid <==>
            exists t: nat :: t < 0x1_0000_0000 && Distance(t, now) <= SKEW_SECS
                             && ch.random == SignedRandom(hmac(secret, Blank(ch.raw)), t)
  {
    hide U32, Mix, SignedRandom, Blank, LeadingZeros;
    var mac := hmac(secret, Blank(ch.raw));
    if Validate(hmac, ch, secret, now) == Valid {
      var t := TimeLeft(mac, ch.random);
    }
    forall t: nat | t < 0x1_0000_0000 && Distance(t, now) <= SKEW_SECS && ch.random == SignedRandom(mac, t)
      ensures Validate(hmac, ch, secret, now) == Valid
    {
      SignedLeavesTime(mac, t);
    }
  }

  /**
   The verdict spelled out: the hash is keyed with the secret and taken over the record with its random
   zeroed; the random starts with 28 bytes of it, and its last four, mixed with the rest of it, are a time
   within 120 seconds, lowest byte first.
   */
  lemma ValidSays(hmac: Hmac, ch: ParsedClientHello, secret: bytes, now: nat)
    requires |ch.raw| >= 43
    ensures var mac := hmac(secret, ch.raw[..11] + seq(32, _ => 0) + ch.raw[43..]);
            var t := Xor(mac[28], ch.random[28]) + 0x100 * (Xor(mac[29], ch.random[29])
                     + 0x100 * (Xor(mac[30], ch.random[30]) + 0x100 * (Xor(mac[31], ch.random[31]) as nat)));
            Validate(hmac, ch, secret, now) == Valid <==> ch.random[..28] == mac[..28] && -120 <= t - now <= 120
  {
    assert ZEROS == seq(32, _ => 0);
    var mac := hmac(secret, Blank(ch.raw));
    assert ch.raw[..11] + seq(32, _ => 0) + ch.raw[43..] == Blank(ch.raw);
    var left := Mix(mac, ch.random);
    LeadingBytes(mac, ch.random);
    U32Digits(left[31], left[30], left[29], left[28]);
    hide Xor, U32, Blank;
  }

  lemma LeadingBytes(mac: digest, random: digest)
    ensures LeadingZeros(Mix(mac, random)) <==> random[..28] == mac[..28]
  {
    hide Xor;
    var left := Mix(mac, random);
    forall i | 0 <= i < 28
      ensures left[i] == 0 <==> random[..28][i] == mac[..28][i]
    {
      XorIsZero(mac[i], random[i]);
    }
  }

  /** Taking the keyed hash back out of a signed random leaves zeros and the time. */
  lemma SignedLeavesTime(mac: digest, now: nat)
    ensures var left := Mix(mac, SignedRandom(mac, now));
            && LeadingZeros(left)
            && U32([left[31], left[30], left[29], left[28]]) == now % 0x1_0000_0000
  {
    hide Xor, U32;
    var random, ts := SignedRandom(mac, now), Le32(now);
    var left := Mix(mac, random);
    forall i | 0 <= i < 28
      ensures left[i] == 0
    {
      XorIsZero(mac[i], mac[i]);
    }
    forall i | 0 <= i < 4
      ensures left[28 + i] == ts[i]
    {
      assert random[28 + i] == Xor(mac[28 + i], ts[i]);
      MixUndone(mac[28 + i], ts[i]);
    }
    assert left[28] == left[28 + 0] && left[29] == left[28 + 1] && left[30] == left[28 + 2] && left[31] == left[28 + 3];
  }

  /** A random field from which the hash leaves zeros was signed at the time that is left. */
  lemma TimeLeft(mac: digest, random: digest) returns (t: nat)
    requires LeadingZeros(Mix(mac, random))
    ensures t < 0x1_0000_0000 && random == SignedRandom(mac, t)
    ensures var left := Mix(mac, random); t == U32([left[31], left[30], left[29], left[28]])
  {
    hide Xor, U32;
    var left := Mix(mac, random);
    t := U32([left[31], left[30], left[29], left[28]]);
    U32Fits(left[31], left[30], left[29], left[28]);
    Le32Inverts(left[28], left[29], left[30], left[31]);
    forall i | 0 <= i < 32
      ensures random[i] == SignedRandom(mac, t)[i]
    {
      assert left[i] == Xor(mac[i], random[i]);
      if i < 28 {
        XorIsZero(mac[i], random[i]);
      } else {
        assert Le32(t)[i - 28] == left[i];
        MixUndone(mac[i], random[i]);
        assert mac[28..][i - 28] == mac[i];
      }
    }
  }

  lemma Le32Inverts(a: byte, b: byte, c: byte, d: byte)
    ensures Le32(U32([d, c, b, a])) == [a, b, c, d]
  {
    hide U32, PutU32;
    U32Fits(d, c, b, a);
    U32Unique(d, c, b, a);
  }

  /** The parts of two messages that agree but for bytes 6 to 37 agree wherever the parser reads them. */
  lemma OutsideRandom(p: bytes, q: bytes)
    requires |p| == |q| && |p| >= 38 && p[..6] == q[..6] && p[38..] == q[38..]
    ensures p[4..6] == q[4..6] && (forall i :: 0 <= i < |p| && !(6 <= i < 38) ==> p[i] == q[i])
    ensures forall a: nat, b: nat :: 38 <= a <= b <= |p| ==> q[a..b] == p[a..b]
  {
    assert forall i :: 0 <= i < 6 ==> q[i] == q[..6][i] == p[..6][i] == p[i];
    assert forall i :: 38 <= i < |p| ==> q[i] == q[38..][i - 38] == p[38..][i - 38] == p[i];
    assert q[4..6] == p[4..6];
    forall a: nat, b: nat | 38 <= a <= b <= |p|
      ensures q[a..b] == p[a..b]
    {
    }
  }

  /** Nothing the parser reads, but the random itself, depends on the random. */
  lemma ParseSeesRandomOnly(p: bytes, q: bytes)
    requires |p| == |q| && |p| >= 38 && p[..6] == q[..6] && p[38..] == q[38..]
    requires ParseClientHello(p).Some?
    ensures ParseClientHello(q) == Some(ParseClientHello(p).value.(random := q[6..38]))
  {
    hide U16, SniOf;
    OutsideRandom(p, q);
  }

  /** Where the parts of a signed record stand, with anything behind it. */
  lemma SignedParts(hmac: Hmac, record: bytes, trailing: bytes, secret: bytes, signedAt: nat)
    requires |record| >= RANDOM_END
    ensures var signed := Signed(hmac, record, secret, signedAt);
            var s, p, q := signed + trailing, record[5..], signed[5..];
            && |q| == |p| >= 38 && q[..6] == p[..6] && q[38..] == p[38..]
            && q[6..38] == signed[RANDOM_OFFSET..RANDOM_END] == SignedRandom(hmac(secret, Blank(record)), signedAt)
            && s[5..|record|] == q && s[..|record|] == signed
            && (forall i :: 0 <= i < 5 ==> s[i] == record[i])
            && Blank(signed) == Blank(record)
  {
    hide Mix, Le32;
    var signed := Signed(hmac, record, secret, signedAt);
    assert signed[..RANDOM_OFFSET] == record[..RANDOM_OFFSET] && signed[RANDOM_END..] == record[RANDOM_END..];
    assert forall i :: 0 <= i < 5 ==> (signed + trailing)[i] == signed[..RANDOM_OFFSET][i];
    var p, q := record[5..], signed[5..];
    assert q[..6] == signed[..RANDOM_OFFSET][5..] && p[..6] == record[..RANDOM_OFFSET][5..];
    assert q[38..] == signed[RANDOM_END..] && p[38..] == record[RANDOM_END..];
  }

  /**
   A signed record, with anything behind it, parses as before but for its random, and passes exactly
   when the clock at signing, on thirty-two bits, is at most 120 seconds from now.
   */
  lemma SignedIsValid(hmac: Hmac, record: bytes, trailing: bytes, secret: bytes, signedAt: nat, now: nat)
    requires ParseClientHelloRecord(record).Some? && ParseClientHelloRecord(record).value.raw == record
    ensures |record| >= RANDOM_END
    ensures var signed := Signed(hmac, record, secret, signedAt);
            var ch := ParseClientHelloRecord(signed + trailing);
            && ch == Some(ParseClientHelloRecord(record).value.(raw := signed, random := signed[RANDOM_OFFSET..RANDOM_END]))
            && Validate(hmac, ch.value, secret, now)
               == if Distance(signedAt % 0x1_0000_0000, now) <= SKEW_SECS then Valid else TimestampOutOfRange
  {
    WholeRecord(record);
    hide ParseClientHello, Signed, SignedRandom, Blank, Mix, U32, LeadingZeros, U16;
    var signed := Signed(hmac, record, secret, signedAt);
    SignedParts(hmac, record, trailing, secret, signedAt);
    ParseSeesRandomOnly(record[5..], signed[5..]);
    var s := signed + trailing;
    assert ParseRecord(s).value.payload == signed[5..];
    SignedLeavesTime(hmac(secret, Blank(record)), signedAt);
  }

  /** A record that holds a hello, and nothing else, is long enough to be signed. */
  lemma WholeRecord(record: bytes)
    requires ParseClientHelloRecord(record).Some? && ParseClientHelloRecord(record).value.raw == record
    ensures |record| >= RANDOM_END && |record| == 5 + U16([record[3], record[4]])
    ensures ParseRecord(record).value.payload == record[5..] && ParseClientHello(record[5..]).Some?
  {
    hide U16, SniOf;
    assert record[5..|record|] == record[5..];
  }
}
