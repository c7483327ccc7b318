/**
 Reading a TLS ClientHello: a strict parser for complete messages and a tolerant one that looks for
 the server name in whatever prefix of the message has arrived (section 3 of RFC 6066).
 */
module Tls {
  import opened Bytes
  import opened Options
  import opened Utf8

  datatype RecordType = ChangeCipherSpec | Alert | Handshake | ApplicationData

  function RecordTypeOf(b: byte): (t: Option<RecordType>) {
    match b
    case 20 => Some(ChangeCipherSpec)
    case 21 => Some(Alert)
    case 22 => Some(Handshake)
    case 23 => Some(ApplicationData)
    case _ => None
  }

  datatype TlsRecord = TlsRecord(recordType: RecordType, version: bytes, payload: bytes)

  function ParseRecord(data: bytes): (r: Option<TlsRecord>) {
    if |data| < 5 || RecordTypeOf(data[0]).None? then None
    else
      var length := U16([data[3], data[4]]);
      if |data| < 5 + length then None
      else Some(TlsRecord(RecordTypeOf(data[0]).value, data[1..3], data[5..5 + length]))
  }

  function TlsRecordTotalLen(data: bytes): (n: Option<nat>) {
    if |data| < 5 || RecordTypeOf(data[0]).None? then None else Some(5 + U16([data[3], data[4]]))
  }

  // ---------------------------------------------------------------- the server name

  /** The first host name among the names between `offset` and `end`. */
  function NameIn(data: bytes, offset: nat, end: nat): (name: Option<text>)
    requires end <= |data|
    decreases |data| - offset
  {
    if offset + 3 > end then None
    else
      var nameLen := U16([data[offset + 1], data[offset + 2]]);
      if offset + 3 + nameLen > |data| then None
      else if data[offset] == 0 then
        var name := data[offset + 3..offset + 3 + nameLen];
        if ValidUtf8(name) then Some(name) else None
      else NameIn(data, offset + 3 + nameLen, end)
  }

  function SniInExtension(data: bytes): (name: Option<text>) {
    if |data| < 5 || |data| < 2 + U16([data[0], data[1]]) then None
    else NameIn(data, 2, 2 + U16([data[0], data[1]]))
  }

  /** The name in the first server-name extension, if that extension is complete. */
  function SniOf(extensions: bytes): (name: Option<text>) {
    if |extensions| < 4 then None
    else
      var extLen := U16([extensions[2], extensions[3]]);
      if 4 + extLen > |extensions| then None
      else if U16([extensions[0], extensions[1]]) == 0 then SniInExtension(extensions[4..4 + extLen])
      else SniOf(extensions[4 + extLen..])
  }

  method ParseSniExtension(data: bytes) returns (name: Option<text>)
    ensures name == SniInExtension(data)
  {
    if |data| < 5 {
      return None;
    }
    var listLen := U16([data[0], data[1]]);
    if |data| < 2 + listLen {
      return None;
    }
    var offset := 2;
    while offset + 3 <= 2 + listLen
      invariant 2 <= offset
      invariant SniInExtension(data) == NameIn(data, offset, 2 + listLen)
      decreases |data| - offset
    {
      var nameType, nameLen := data[offset], U16([data[offset + 1], data[offset + 2]]);
      offset := offset + 3;
      if offset + nameLen > |data| {
        break;
      }
      if nameType == 0 {
        var host := data[offset..offset + nameLen];
        return if ValidUtf8(host) then Some(host) else None;
      }
      offset := offset + nameLen;
    }
    name := None;
  }

  method ExtractSni(extensions: bytes) returns (name: Option<text>)
    ensures name == SniOf(extensions)
  {
    var offset := 0;
    while offset + 4 <= |extensions|
      invariant offset <= |extensions| && SniOf(extensions) == SniOf(extensions[offset..])
      decreases |extensions| - offset
    {
      ghost var here := extensions[offset..];
      var extType := U16([extensions[offset], extensions[offset + 1]]);
      var extLen := U16([extensions[offset + 2], extensions[offset + 3]]);
      offset := offset + 4;
      if offset + extLen > |extensions| {
        return None;
      }
      var extData := extensions[offset..offset + extLen];
      assert extData == here[4..4 + extLen];
      offset := offset + extLen;
      if extType == 0 {
        name := ParseSniExtension(extData);
        return;
      }
      assert extensions[offset..] == here[4 + extLen..];
    }
    name := None;
  }

  // ---------------------------------------------------------------- the two parsers

  datatype ClientHello = ClientHello(
    version: bytes, random: bytes, sessionId: bytes, cipherSuites: bytes, compression: bytes,
    extensions: bytes, sni: Option<text>)

  /** The strict parser: every field must be complete. */
  function ParseClientHello(p: bytes): (hello: Option<ClientHello>) {
    if |p| == 0 || p[0] != 1 || |p| < 4 then None
    else if |p| < 4 + (0x1_0000 * p[1] + U16([p[2], p[3]])) then None
    else if 6 > |p| || 38 > |p| || 38 >= |p| then None
    else
      var sidEnd := 39 + (p[38] as nat);
      if sidEnd > |p| || sidEnd + 2 > |p| then None
      else
        var suitesEnd := sidEnd + 2 + U16([p[sidEnd], p[sidEnd + 1]]);
        if suitesEnd > |p| || suitesEnd >= |p| then None
        else
          var compEnd := suitesEnd + 1 + p[suitesEnd];
          if compEnd > |p| then None
          else if compEnd + 2 > |p| then
            Some(ClientHello(p[4..6], p[6..38], p[39..sidEnd], p[sidEnd + 2..suitesEnd], p[suitesEnd + 1..compEnd], [], SniOf([])))
          else
            var extEnd := compEnd + 2 + U16([p[compEnd], p[compEnd + 1]]);
            if extEnd > |p| then None
            else
              var ext := p[compEnd + 2..extEnd];
              Some(ClientHello(p[4..6], p[6..38], p[39..sidEnd], p[sidEnd + 2..suitesEnd], p[suitesEnd + 1..compEnd], ext, SniOf(ext)))
  }

  /** The tolerant parser: the name is taken from as much of the extensions as has arrived. */
  function SniFromPayload(p: bytes): (name: Option<text>) {
    if |p| == 0 || p[0] != 1 then None
    else if |p| < 4 then None
    else if 6 > |p| then None
    else if 38 > |p| then None
    else if 38 >= |p| then None
    else
      var sidEnd := 39 + (p[38] as nat);
      if sidEnd > |p| then None
      else if sidEnd + 2 > |p| then None
      else
        var suitesEnd := sidEnd + 2 + U16([p[sidEnd], p[sidEnd + 1]]);
        if suitesEnd > |p| then None
        else if suitesEnd >= |p| then None
        else
          var compEnd := suitesEnd + 1 + p[suitesEnd];
          if compEnd > |p| then None
          else if compEnd + 2 > |p| then None
          else
            var start := compEnd + 2;
            var end := Min(start + U16([p[compEnd], p[compEnd + 1]]), |p|);
            if start >= end then None else SniOf(p[start..end])
  }

  predicate LooksLikeClientHello(data: bytes) {
    |data| >= 6 && data[0] == 22 && data[5] == 1
    && (ParseRecord(data).Some? ==> ParseRecord(data).value.payload != [])
  }

  function TryClientHelloSni(data: bytes): (name: Option<text>) {
    if !LooksLikeClientHello(data) then None
    else if ParseRecord(data).Some? then
      var payload := ParseRecord(data).value.payload;
      var hello := ParseClientHello(payload);
      if hello.Some? then hello.value.sni else SniFromPayload(payload)
    else if |data| > 5 then
      var hello := ParseClientHello(data[5..]);
      if hello.Some? then hello.value.sni else SniFromPayload(data[5..])
    else None
  }

  /** Where the strict parser succeeds, the tolerant one finds the same name. */
  lemma ParsersAgree(p: bytes)
    requires ParseClientHello(p).Some?
    ensures SniFromPayload(p) == ParseClientHello(p).value.sni
  {
    hide U16;
  }

  lemma {:induction false} SniOfIsStable(extensions: bytes, more: bytes)
    requires SniOf(extensions).Some?
    ensures SniOf(extensions + more) == SniOf(extensions)
    decreases |extensions|
  {
    hide U16, SniInExtension;
    var longer, extLen := extensions + more, U16([extensions[2], extensions[3]]);
    assert longer[..4] == extensions[..4] && longer[4..4 + extLen] == extensions[4..4 + extLen];
    assert forall i :: 0 <= i < 4 ==> longer[i] == extensions[i];
    assert longer[4 + extLen..] == extensions[4 + extLen..] + more;
    if U16([extensions[0], extensions[1]]) != 0 {
      SniOfIsStable(extensions[4 + extLen..], more);
    }
  }

  /** A name found in part of a message is the name found in any more of it. */
  lemma SniFromPayloadIsStable(p: bytes, more: bytes)
    requires SniFromPayload(p).Some?
    ensures SniFromPayload(p + more) == SniFromPayload(p)
  {
    hide U16, SniOf;
    var q := p + more;
    var sidEnd := 39 + (p[38] as nat);
    var suitesEnd := sidEnd + 2 + U16([p[sidEnd], p[sidEnd + 1]]);
    var compEnd := suitesEnd + 1 + p[suitesEnd];
    var start, extLen := compEnd + 2, U16([p[compEnd], p[compEnd + 1]]);
    var end, end' := Min(start + extLen, |p|), Min(start + extLen, |q|);
    assert forall i :: 0 <= i < |p| ==> q[i] == p[i];
    assert q[start..end'] == p[start..end] + q[end..end'];
    SniOfIsStable(p[start..end], q[end..end']);
  }

  /** The bytes of the message that a buffer holds: up to the end of the record, as far as it has come. */
  function Arrived(data: bytes): (payload: bytes)
    requires |data| >= 5
  {
    data[5..Min(|data|, 5 + U16([data[3], data[4]]))]
  }

  lemma TryIsTolerant(data: bytes)
    ensures TryClientHelloSni(data) == if LooksLikeClientHello(data) then SniFromPayload(Arrived(data)) else None
  {
    hide ParseClientHello, SniFromPayload, U16;
    if LooksLikeClientHello(data) {
      var payload := Arrived(data);
      assert ParseRecord(data).None? ==> payload == data[5..];
      if ParseClientHello(payload).Some? {
        ParsersAgree(payload);
      }
    }
  }

  /** A name once found stays: no extension of the buffer changes the answer. */
  lemma SniIsStable(data: bytes, more: bytes)
    requires TryClientHelloSni(data).Some?
    ensures TryClientHelloSni(data + more) == TryClientHelloSni(data)
  {
    hide SniFromPayload, U16, TryClientHelloSni;
    var longer := data + more;
    TryIsTolerant(data);
    TryIsTolerant(longer);
    assert forall i :: 0 <= i < |data| ==> longer[i] == data[i];
    var p := Arrived(data);
    assert Arrived(longer) == p + Arrived(longer)[|p|..];
    SniFromPayloadIsStable(p, Arrived(longer)[|p|..]);
  }

  // ---------------------------------------------------------------- a message from its fields

  /** The type of a ClientHello message and its three-byte length. */
  function Head(size: nat): (h: bytes)
    requires size < 0x100_0000
  {
    [1, size / 0x1_0000] + PutU16(size % 0x1_0000)
  }

  /** A ClientHello message spelled out of its fields. */
  function Message(version: bytes, random: bytes, sessionId: bytes, suites: bytes, compression: bytes, extensions: bytes): (m: bytes)
    requires |version| == 2 && |random| == 32 && |sessionId| < 0x100 && |suites| < 0x1_0000 && |compression| < 0x100
    requires |extensions| < 0x1_0000
  {
    var body := version + random + [|sessionId|] + sessionId + PutU16(|suites|) + suites
                + [|compression|] + compression + PutU16(|extensions|) + extensions;
    Head(|body|) + body
  }

  /** Where the fields of a message stand. */
  predicate LaidOut(p: bytes, version: bytes, random: bytes, sessionId: bytes, suites: bytes, compression: bytes, extensions: bytes) {
    var sidEnd := 39 + |sessionId|;
    var suitesEnd := sidEnd + 2 + |suites|;
    var compEnd := suitesEnd + 1 + |compression|;
    var end := compEnd + 2 + |extensions|;
    && |p| >= end && p[0] == 1 && 4 + (0x1_0000 * p[1] + U16([p[2], p[3]])) == end
    && p[4..6] == version && p[6..38] == random && p[38] == |sessionId| && p[39..sidEnd] == sessionId
    && U16([p[sidEnd], p[sidEnd + 1]]) == |suites| && p[sidEnd + 2..suitesEnd] == suites
    && p[suitesEnd] == |compression| && p[suitesEnd + 1..compEnd] == compression
    && U16([p[compEnd], p[compEnd + 1]]) == |extensions| && p[compEnd + 2..end] == extensions
  }

  /** A message up to its cipher suites. */
  function Opening(size: nat, version: bytes, random: bytes, sessionId: bytes): (a: bytes)
    requires size < 0x100_0000 && |sessionId| < 0x100
  {
    Head(size) + version + random + [|sessionId|] + sessionId
  }

  lemma FieldsInARow(h: bytes, v: bytes, r: bytes, n: bytes, i: bytes, l: bytes, u: bytes, m: bytes, k: bytes, e: bytes, x: bytes)
    ensures h + (v + r + n + i + l + u + m + k + e + x) == h + v + r + n + i + l + u + m + k + e + x
  {
    Regroup(h, v, r);
    Regroup(h, v + r, n);
    Regroup(h, v + r + n, i);
    Regroup(h, v + r + n + i, l);
    Regroup(h, v + r + n + i + l, u);
    Regroup(h, v + r + n + i + l + u, m);
    Regroup(h, v + r + n + i + l + u + m, k);
    Regroup(h, v + r + n + i + l + u + m + k, e);
    Regroup(h, v + r + n + i + l + u + m + k + e, x);
  }

  lemma MessageSpelled(version: bytes, random: bytes, sessionId: bytes, suites: bytes, compression: bytes, extensions: bytes)
    requires |version| == 2 && |random| == 32 && |sessionId| < 0x100 && |suites| < 0x1_0000 && |compression| < 0x100
    requires |extensions| < 0x1_0000
    ensures var size := 40 + |sessionId| + |suites| + |compression| + |extensions|;
            Message(version, random, sessionId, suites, compression, extensions)
            == Opening(size, version, random, sessionId) + PutU16(|suites|) + suites
               + [|compression|] + compression + PutU16(|extensions|) + extensions
  {
    hide PutU16, Head;
    var l, e, size := PutU16(|suites|), PutU16(|extensions|), 40 + |sessionId| + |suites| + |compression| + |extensions|;
    FieldsInARow(Head(size), version, random, [|sessionId|], sessionId, l, suites, [|compression|], compression, e, extensions);
  }

  lemma HeadReads(size: nat)
    requires size < 0x100_0000
    ensures var h := Head(size); |h| == 4 && h[0] == 1 && 0x1_0000 * h[1] + U16([h[2], h[3]]) == size
  {
    hide U16, PutU16;
    var h := Head(size);
    assert h[2] == PutU16(size % 0x1_0000)[0] && h[3] == PutU16(size % 0x1_0000)[1];
  }

  lemma OpeningLayout(size: nat, version: bytes, random: bytes, sessionId: bytes)
    requires size < 0x100_0000 && |sessionId| < 0x100 && |version| == 2 && |random| == 32
    ensures var a := Opening(size, version, random, sessionId);
            && |a| == 39 + |sessionId| && a[..4] == Head(size)
            && a[4..6] == version && a[6..38] == random && a[38] == |sessionId| && a[39..] == sessionId
  {
    HeadReads(size);
    hide Head, U16;
  }

  lemma MessageLayout(version: bytes, random: bytes, sessionId: bytes, suites: bytes, compression: bytes, extensions: bytes, rest: bytes)
    requires |version| == 2 && |random| == 32 && |sessionId| < 0x100 && |suites| < 0x1_0000 && |compression| < 0x100
    requires |extensions| < 0x1_0000
    ensures LaidOut(Message(version, random, sessionId, suites, compression, extensions) + rest,
                    version, random, sessionId, suites, compression, extensions)
  {
    hide U16, PutU16, Message, Opening, Head;
    MessageSpelled(version, random, sessionId, suites, compression, extensions);
    var p := Message(version, random, sessionId, suites, compression, extensions) + rest;
    var size := 40 + |sessionId| + |suites| + |compression| + |extensions|;
    var a := Opening(size, version, random, sessionId);
    OpeningLayout(size, version, random, sessionId);
    HeadReads(size);
    assert a[0] == a[..4][0] && a[1] == a[..4][1] && a[2] == a[..4][2] && a[3] == a[..4][3];
    var n1, n2 := PutU16(|suites|), PutU16(|extensions|);
    FieldsBehind(a, n1, suites, [|compression|], compression, n2, extensions, rest);
    assert p == a + n1 + suites + [|compression|] + compression + n2 + extensions + rest;
    assert a == p[..|a|];
    assert p[4..6] == a[4..6] && p[6..38] == a[6..38] && p[38] == a[38] && p[39..|a|] == a[39..];
    assert p[0] == a[0] && p[1] == a[1] && p[2] == a[2] && p[3] == a[3];
  }

  lemma FieldsBehind(a: bytes, n1: bytes, s: bytes, m: bytes, k: bytes, n2: bytes, x: bytes, rest: bytes)
    requires |n1| == |n2| == 2 && |m| == 1
    ensures var p, b := a + n1 + s + m + k + n2 + x + rest, |a| + 2 + |s|;
            var c := b + 1 + |k|;
            && |p| == c + 2 + |x| + |rest| && p[..|a|] == a && p[|a|] == n1[0] && p[|a| + 1] == n1[1] && p[|a| + 2..b] == s
            && p[b] == m[0] && p[b + 1..c] == k && p[c] == n2[0] && p[c + 1] == n2[1] && p[c + 2..c + 2 + |x|] == x
  {
  }

  /** The strict parser takes a message apart into the fields it was made of, whatever stands behind it. */
  lemma MessageParses(version: bytes, random: bytes, sessionId: bytes, suites: bytes, compression: bytes, extensions: bytes, rest: bytes)
    requires |version| == 2 && |random| == 32 && |sessionId| < 0x100 && |suites| < 0x1_0000 && |compression| < 0x100
    requires |extensions| < 0x1_0000
    ensures ParseClientHello(Message(version, random, sessionId, suites, compression, extensions) + rest)
            == Some(ClientHello(version, random, sessionId, suites, compression, extensions, SniOf(extensions)))
  {
    hide U16, PutU16, SniOf, Message, LaidOut, ParseClientHello;
    MessageLayout(version, random, sessionId, suites, compression, extensions, rest);
    var p := Message(version, random, sessionId, suites, compression, extensions) + rest;
    LaidOutParses(p, version, random, sessionId, suites, compression, extensions);
  }

  lemma LaidOutParses(p: bytes, version: bytes, random: bytes, sessionId: bytes, suites: bytes, compression: bytes, extensions: bytes)
    requires LaidOut(p, version, random, sessionId, suites, compression, extensions)
    ensures ParseClientHello(p)
            == Some(ClientHello(version, random, sessionId, suites, compression, extensions, SniOf(extensions)))
  {
    hide U16, SniOf;
  }

  /** The server-name extension for one host. */
  function SniExtension(host: text): (e: bytes)
    requires |host| + 5 < 0x1_0000
  {
    [0, 0] + PutU16(|host| + 5) + PutU16(|host| + 3) + [0] + PutU16(|host|) + host
  }

  lemma SniIsFound(host: text, rest: bytes)
    requires |host| + 5 < 0x1_0000
    ensures SniOf(SniExtension(host) + rest) == Some(host)
  {
    hide U16, PutU16, ValidUtf8;
    var e := SniExtension(host) + rest;
    var data := PutU16(|host| + 3) + [0] + PutU16(|host|) + host;
    assert e[0] == 0 && e[1] == 0;
    ZeroU16();
    assert e[2] == PutU16(|host| + 5)[0] && e[3] == PutU16(|host| + 5)[1];
    assert e[4..4 + |data|] == data;
    assert data[0] == PutU16(|host| + 3)[0] && data[1] == PutU16(|host| + 3)[1];
    assert data[2] == 0 && data[3] == PutU16(|host|)[0] && data[4] == PutU16(|host|)[1];
    assert data[5..5 + |host|] == host;
    assert NameIn(data, 2, 2 + (|host| + 3)) == Some(host);
  }

  lemma ZeroU16()
    ensures U16([0, 0]) == 0
  {
  }

  // ---------------------------------------------------------------- a name behind others

  /** An extension as it is written: its type, its length, its data. */
  datatype Extension = Extension(kind: nat, data: bytes) {
    predicate Fits() {
      kind < 0x1_0000 && |data| < 0x1_0000
    }

    function Spelled(): (s: bytes) {
      PutU16(kind) + PutU16(|data|) + data
    }
  }

  function ExtensionList(list: seq<Extension>): (s: bytes) {
    if list == [] then [] else list[0].Spelled() + ExtensionList(list[1..])
  }

  /** None of them is a server name. */
  predicate Others(list: seq<Extension>) {
    forall i :: 0 <= i < |list| ==> list[i].Fits() && list[i].kind != 0
  }

  /** Extensions of other types are passed over, whatever they hold. */
  lemma {:induction false} OthersArePassedOver(list: seq<Extension>, rest: bytes)
    requires Others(list)
    ensures SniOf(ExtensionList(list) + rest) == SniOf(rest)
  {
    if list == [] {
      assert ExtensionList(list) + rest == rest;
    } else {
      var behind := ExtensionList(list[1..]) + rest;
      assert ExtensionList(list) + rest == list[0].Spelled() + behind;
      OneIsPassedOver(list[0], behind);
      hide SniOf;
      OthersArePassedOver(list[1..], rest);
    }
  }

  lemma OneIsPassedOver(e: Extension, behind: bytes)
    requires e.Fits() && e.kind != 0
    ensures SniOf(e.Spelled() + behind) == SniOf(behind)
  {
    hide U16, PutU16, SniInExtension;
    var s, kind, len := e.Spelled() + behind, PutU16(e.kind), PutU16(|e.data|);
    assert s[0] == kind[0] && s[1] == kind[1] && s[2] == len[0] && s[3] == len[1];
    assert s[4 + |e.data|..] == behind;
  }

  /**
   The server name is found wherever it stands: behind any extensions of other types, in front of anything.
   Without a server-name extension there is none.
   */
  lemma SniIsFoundBehind(front: seq<Extension>, host: text, rest: bytes)
    requires Others(front) && |host| + 5 < 0x1_0000
    ensures SniOf(ExtensionList(front) + SniExtension(host) + rest) == Some(host)
    ensures SniOf(ExtensionList(front)) == None
  {
    hide SniOf, SniExtension;
    OthersArePassedOver(front, SniExtension(host) + rest);
    Regroup(ExtensionList(front), SniExtension(host), rest);
    SniIsFound(host, rest);
    OthersArePassedOver(front, []);
    Regroup(ExtensionList(front), [], []);
    NoExtensions();
  }

  /** Cut anywhere, the extensions name the host exactly if its extension is there whole. */
  lemma {:induction false} CutExtensions(front: seq<Extension>, host: text, rest: bytes, k: nat)
    requires Others(front) && |host| + 5 < 0x1_0000 && k <= |ExtensionList(front) + SniExtension(host) + rest|
    ensures SniOf((ExtensionList(front) + SniExtension(host) + rest)[..k])
            == if k >= |ExtensionList(front) + SniExtension(host)| then Some(host) else None
    decreases |front|
  {
    hide SniOf, SniExtension, PutU16;
    var named := SniExtension(host);
    if front == [] {
      Regroup(named, [], []);
      Regroup([], named, []);
      CutName(host, rest, k);
    } else {
      var first, behind := front[0].Spelled(), ExtensionList(front[1..]);
      assert ExtensionList(front) == first + behind && front[0].Fits() && front[0].kind != 0 && Others(front[1..]);
      hide ExtensionList, Others, Extension.Spelled;
      var e := behind + named + rest;
      Regroup(first, behind, named);
      Regroup(first, behind + named, rest);
      CutInTwo(first, e, k);
      if k < |first| {
        CutExtension(front[0], k);
      } else {
        OneIsPassedOver(front[0], e[..k - |first|]);
        CutExtensions(front[1..], host, rest, k - |first|);
      }
    }
  }

  lemma CutInTwo(a: bytes, b: bytes, k: nat)
    requires k <= |a + b|
    ensures (a + b)[..k] == if k < |a| then a[..k] else a + b[..k - |a|]
  {
  }

  lemma CutExtension(e: Extension, k: nat)
    requires e.Fits() && k < |e.Spelled()|
    ensures SniOf(e.Spelled()[..k]) == None
  {
    hide U16, PutU16, SniInExtension;
    var s, kind, len := e.Spelled(), PutU16(e.kind), PutU16(|e.data|);
    assert s[2] == len[0] && s[3] == len[1];
  }

  lemma CutName(host: text, rest: bytes, k: nat)
    requires |host| + 5 < 0x1_0000 && k <= |SniExtension(host) + rest|
    ensures SniOf((SniExtension(host) + rest)[..k]) == if k >= |SniExtension(host)| then Some(host) else None
  {
    var named := SniExtension(host);
    if k >= |named| {
      assert (named + rest)[..k] == named + rest[..k - |named|];
      SniIsFound(host, rest[..k - |named|]);
    } else {
      hide U16, PutU16, SniInExtension;
      var len := PutU16(|host| + 5);
      assert named[2] == len[0] && named[3] == len[1];
      assert (named + rest)[..k] == named[..k];
    }
  }

  lemma NoExtensions()
    ensures SniOf([]) == None
  {
  }

  /** A name in a server-name list: its type, its length, its bytes. */
  datatype Name = Name(kind: byte, name: bytes) {
    function Spelled(): (s: bytes) {
      [kind] + PutU16(|name|) + name
    }
  }

  function NameList(list: seq<Name>): (s: bytes) {
    if list == [] then [] else list[0].Spelled() + NameList(list[1..])
  }

  predicate NoHosts(list: seq<Name>) {
    forall i :: 0 <= i < |list| ==> list[i].kind != 0 && |list[i].name| < 0x1_0000
  }

  /** Names of other types are passed over. `data` is the extension up to them, whatever that is. */
  lemma {:induction false} OtherNamesArePassedOver(data: bytes, list: seq<Name>, rest: bytes)
    requires NoHosts(list)
    ensures var s := data + NameList(list) + rest;
            NameIn(s, |data|, |s|) == NameIn(s, |data + NameList(list)|, |s|)
    decreases |list|
  {
    hide NameIn, PutU16, U16;
    if list == [] {
      assert data + NameList(list) == data;
    } else {
      var first, behind := list[0].Spelled(), NameList(list[1..]);
      assert NameList(list) == first + behind && list[0].kind != 0 && NoHosts(list[1..]);
      hide NameList, NoHosts;
      NameStep(data, list[0], behind + rest);
      OtherNamesArePassedOver(data + first, list[1..], rest);
      Regroup(data, first, behind);
      Regroup(data + first, behind, rest);
    }
  }

  lemma NameStep(data: bytes, n: Name, behind: bytes)
    requires |n.name| < 0x1_0000
    ensures var s := data + n.Spelled() + behind;
            NameIn(s, |data|, |s|) == if n.kind != 0 then NameIn(s, |data + n.Spelled()|, |s|)
                                      else if ValidUtf8(n.name) then Some(n.name) else None
  {
    hide U16, PutU16, ValidUtf8;
    var s, at, len := data + n.Spelled() + behind, |data|, PutU16(|n.name|);
    assert s[at] == n.kind && s[at + 1] == len[0] && s[at + 2] == len[1];
    assert s[at + 3..at + 3 + |n.name|] == n.name;
  }

  /**
   Of a list of names it is the first host name that counts, if it is text; names of other types in front
   of it, and anything behind it, make no difference. A list without a host name names none.
   */
  lemma FirstHostCounts(front: seq<Name>, host: bytes, back: seq<Name>)
    requires NoHosts(front) && |host| < 0x1_0000
    requires |NameList(front) + Name(0, host).Spelled() + NameList(back)| < 0x1_0000
    ensures var list := NameList(front) + Name(0, host).Spelled() + NameList(back);
            SniInExtension(PutU16(|list|) + list) == if ValidUtf8(host) then Some(host) else None
    ensures SniInExtension(PutU16(|NameList(front)|) + NameList(front)) == None
  {
    hide NameIn, PutU16, ValidUtf8, SniInExtension, NameList, NoHosts;
    var named, behind := Name(0, host).Spelled(), NameList(back);
    ListIsRead(NameList(front) + named + behind);
    ListIsRead(NameList(front));
    NamesAfter(PutU16(|NameList(front) + named + behind|), front, host, behind);
    NoneAfter(PutU16(|NameList(front)|), front);
  }

  lemma NamesAfter(head: bytes, front: seq<Name>, host: bytes, behind: bytes)
    requires NoHosts(front) && |host| < 0x1_0000
    ensures var s := head + (NameList(front) + Name(0, host).Spelled() + behind);
            NameIn(s, |head|, |s|) == if ValidUtf8(host) then Some(host) else None
  {
    hide NameIn, PutU16, ValidUtf8, NameList, NoHosts;
    var names, named := NameList(front), Name(0, host).Spelled();
    OtherNamesArePassedOver(head, front, named + behind);
    NameStep(head + names, Name(0, host), behind);
    Regroup(names, named, behind);
    Regroup(head, names, named + behind);
    Regroup(head + names, named, behind);
  }

  lemma NoneAfter(head: bytes, front: seq<Name>)
    requires NoHosts(front)
    ensures var s := head + NameList(front); NameIn(s, |head|, |s|) == None
  {
    hide NameIn, NameList, NoHosts;
    OtherNamesArePassedOver(head, front, []);
    Regroup(head + NameList(front), [], []);
    NoNamesLeft(head + NameList(front));
  }

  lemma NoNamesLeft(s: bytes)
    ensures NameIn(s, |s|, |s|) == None
  {
  }

  lemma ListIsRead(list: bytes)
    requires |list| < 0x1_0000
    ensures var s := PutU16(|list|) + list; SniInExtension(s) == NameIn(s, 2, |s|)
  {
    var head := PutU16(|list|);
    hide U16, PutU16;
    var s := head + list;
    assert s[0] == head[0] && s[1] == head[1];
  }

  /**
   What the tolerant parser is for: of a hello that is cut anywhere it names the host exactly if the
   server-name extension has come whole, wherever among the extensions that stands.
   */
  lemma CutHelloNamesHost(version: bytes, random: bytes, sessionId: bytes, suites: bytes, compression: bytes,
                          front: seq<Extension>, host: text, rest: bytes, k: nat)
    requires |version| == 2 && |random| == 32 && |sessionId| < 0x100 && |suites| < 0x1_0000 && |compression| < 0x100
    requires Others(front) && |host| + 5 < 0x1_0000 && |ExtensionList(front) + SniExtension(host) + rest| < 0x1_0000
    requires k <= |Message(version, random, sessionId, suites, compression, ExtensionList(front) + SniExtension(host) + rest)|
    ensures var upTo := ExtensionList(front) + SniExtension(host);
            var m := Message(version, random, sessionId, suites, compression, upTo + rest);
            SniFromPayload(m[..k]) == if k >= 44 + |sessionId| + |suites| + |compression| + |upTo| then Some(host) else None
  {
    hide Message, ExtensionList, SniOf, SniFromPayload, U16, PutU16;
    var start := 44 + |sessionId| + |suites| + |compression|;
    assert |SniExtension(host)| > 0;
    hide SniExtension;
    CutMessage(version, random, sessionId, suites, compression, ExtensionList(front) + SniExtension(host) + rest, k);
    if k > start {
      CutExtensions(front, host, rest, k - start);
    }
  }

  lemma CutMessage(version: bytes, random: bytes, sessionId: bytes, suites: bytes, compression: bytes, extensions: bytes, k: nat)
    requires |version| == 2 && |random| == 32 && |sessionId| < 0x100 && |suites| < 0x1_0000 && |compression| < 0x100
    requires |extensions| < 0x1_0000 && k <= |Message(version, random, sessionId, suites, compression, extensions)|
    ensures var m := Message(version, random, sessionId, suites, compression, extensions);
            var start := 44 + |sessionId| + |suites| + |compression|;
            && |m| == start + |extensions|
            && SniFromPayload(m[..k]) == if k > start then SniOf(extensions[..k - start]) else None
  {
    var m := Message(version, random, sessionId, suites, compression, extensions);
    MessageSize(version, random, sessionId, suites, compression, extensions);
    hide Message, LaidOut, SniOf, SniFromPayload, U16;
    MessageLayout(version, random, sessionId, suites, compression, extensions, []);
    assert m + [] == m;
    CutLaidOut(m, version, random, sessionId, suites, compression, extensions, k);
  }

  /** The strict parser refuses it wherever it is cut. */
  lemma CutHelloIsRefused(version: bytes, random: bytes, sessionId: bytes, suites: bytes, compression: bytes, extensions: bytes, k: nat)
    requires |version| == 2 && |random| == 32 && |sessionId| < 0x100 && |suites| < 0x1_0000 && |compression| < 0x100
    requires |extensions| < 0x1_0000 && k < |Message(version, random, sessionId, suites, compression, extensions)|
    ensures ParseClientHello(Message(version, random, sessionId, suites, compression, extensions)[..k]) == None
  {
    var m := Message(version, random, sessionId, suites, compression, extensions);
    MessageSize(version, random, sessionId, suites, compression, extensions);
    hide Message, U16, SniOf;
    MessageLayout(version, random, sessionId, suites, compression, extensions, []);
    assert m + [] == m && forall i :: 0 <= i < k ==> m[..k][i] == m[i];
  }

  /** The same for the record that holds the hello: cut anywhere behind its first byte, it tells what the hello tells. */
  lemma CutRecordTells(a: byte, b: byte, m: bytes, k: nat)
    requires 1 <= k <= |m| < 0x1_0000 && m[0] == 1
    ensures TryClientHelloSni(([0x16, a, b] + PutU16(|m|) + m)[..5 + k]) == SniFromPayload(m[..k])
  {
    hide SniFromPayload, U16, PutU16, TryClientHelloSni;
    var n := PutU16(|m|);
    var head := [0x16, a, b] + n;
    var data := (head + m)[..5 + k];
    assert data == head + m[..k];
    assert data[3] == n[0] && data[4] == n[1] && data[0] == 0x16 && data[5] == m[0];
    assert data[5..] == m[..k] && |data| == 5 + k;
    assert Arrived(data) == data[5..];
    TryIsTolerant(data);
  }

  lemma MessageSize(version: bytes, random: bytes, sessionId: bytes, suites: bytes, compression: bytes, extensions: bytes)
    requires |version| == 2 && |random| == 32 && |sessionId| < 0x100 && |suites| < 0x1_0000 && |compression| < 0x100
    requires |extensions| < 0x1_0000
    ensures |Message(version, random, sessionId, suites, compression, extensions)|
            == 44 + |sessionId| + |suites| + |compression| + |extensions|
  {
  }

  lemma CutLaidOut(m: bytes, version: bytes, random: bytes, sessionId: bytes, suites: bytes, compression: bytes, extensions: bytes, k: nat)
    requires LaidOut(m, version, random, sessionId, suites, compression, extensions) && k <= |m|
    requires |m| == 44 + |sessionId| + |suites| + |compression| + |extensions|
    ensures var start := 44 + |sessionId| + |suites| + |compression|;
            SniFromPayload(m[..k]) == if k > start then SniOf(extensions[..k - start]) else None
  {
    hide U16, SniOf;
    var p, start := m[..k], 44 + |sessionId| + |suites| + |compression|;
    assert forall i :: 0 <= i < k ==> p[i] == m[i];
    if k > start {
      assert m[start..] == extensions && p[start..k] == m[start..][..k - start];
    }
  }

  /** The smallest hello that names a host, in its record. */
  function BuildClientHello(host: text): (record: bytes)
    requires |host| + 56 < 0x1_0000
  {
    var random: bytes := seq(32, _ => 0);
    var message := Message([3, 3], random, [], [0x13, 0x01], [0], SniExtension(host));
    [0x16, 3, 1] + PutU16(|message|) + message
  }

  lemma BuiltHelloParses(host: text)
    requires |host| + 56 < 0x1_0000
    ensures var record := BuildClientHello(host);
            && ParseRecord(record).Some? && ParseRecord(record).value.recordType == Handshake
            && |record| == 5 + |ParseRecord(record).value.payload|
            && ParseClientHello(ParseRecord(record).value.payload).Some?
            && ParseClientHello(ParseRecord(record).value.payload).value.sni == Some(host)
            && TryClientHelloSni(record) == Some(host)
  {
    hide U16, PutU16, ValidUtf8, SniOf, SniFromPayload, ParseClientHello;
    var random: bytes := seq(32, _ => 0);
    var ext := SniExtension(host);
    var message := Message([3, 3], random, [], [0x13, 0x01], [0], ext);
    var record := BuildClientHello(host);
    assert |message| == |host| + 56;
    assert record[3] == PutU16(|message|)[0] && record[4] == PutU16(|message|)[1];
    assert record[5..5 + |message|] == message && message + [] == message && ext + [] == ext;
    MessageParses([3, 3], random, [], [0x13, 0x01], [0], ext, []);
    SniIsFound(host, []);
    ParsersAgree(message);
    TryIsTolerant(record);
  }
}
