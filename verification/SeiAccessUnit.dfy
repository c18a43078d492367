/** Access units of h264.go: the SEI message that carries a transport frame, the NAL units
    around it, and their recovery from an Annex B byte stream (ITU-T H.264 sections
    7.3.2.3.1 and B.1.1). The h264reader library is not part of this model: SplitNals
    states what an Annex B reader returns. */
module SeiAccessUnit {
  import opened Bytes
  import opened SeiRbsp

  const SEI_UUID: bytes :=
    [0x5d, 0xc0, 0x3b, 0xa8, 0x45, 0x0f, 0x4b, 0x55, 0x9a, 0x77, 0x1f, 0x91, 0x6c, 0x5b, 0x07, 0x39]
  const BASE_SPS: bytes :=
    [0x67, 0x42, 0xc0, 0x0a, 0xdd, 0xec, 0x04, 0x40, 0x00, 0x00, 0x03, 0x00, 0x40, 0x00, 0x00, 0x03,
     0x00, 0xa3, 0xc4, 0x89, 0xe0]
  const BASE_PPS: bytes := [0x68, 0xce, 0x0f, 0xc8]
  const BASE_IDR: bytes := [0x65, 0x88, 0x84, 0x3a, 0x26, 0x28, 0x00, 0x09, 0x02, 0xe0]
  const START_CODE: bytes := [0x00, 0x00, 0x00, 0x01]
  const NAL_TYPE_SEI := 6
  const USER_DATA_UNREGISTERED := 5

  datatype SeiError = ValueTruncated | PayloadTruncated

  // The ff-extended numbers of an SEI message

  function SeiValue(value: nat): bytes {
    if value >= 0xff then [0xff] + SeiValue(value - 0xff) else [value]
  }

  /** The number that starts at pos, added to `value`, and the position after it. */
  function ConsumeFrom(data: bytes, pos: nat, value: nat): (r: Result<(nat, nat), SeiError>)
    ensures r.Success? ==> pos < r.value.1 <= |data|
    decreases |data| - pos
  {
    if pos >= |data| then Failure(ValueTruncated)
    else if data[pos] != 0xff then Success((value + data[pos], pos + 1))
    else ConsumeFrom(data, pos + 1, value + 0xff)
  }

  lemma {:induction false} SeiValueRoundTrip(data: bytes, pos: nat, value: nat, acc: nat)
    requires pos + |SeiValue(value)| <= |data|
    requires data[pos..pos + |SeiValue(value)|] == SeiValue(value)
    ensures ConsumeFrom(data, pos, acc) == Success((acc + value, pos + |SeiValue(value)|))
    decreases value
  {
    var v := SeiValue(value);
    assert data[pos] == data[pos..pos + |v|][0];
    if value >= 0xff {
      assert data[pos + 1..pos + 1 + |v[1..]|] == data[pos..pos + |v|][1..] == SeiValue(value - 0xff);
      SeiValueRoundTrip(data, pos + 1, value - 0xff, acc + 0xff);
    }
  }

  method AppendSEIValue(dst: bytes, value: nat) returns (out: bytes)
    ensures out == dst + SeiValue(value)
  {
    out := dst;
    var left := value;
    while left >= 0xff
      invariant out + SeiValue(left) == dst + SeiValue(value)
    {
      ghost var before, todo := out, SeiValue(left);
      out := out + [0xff];
      left := left - 0xff;
      assert out + SeiValue(left) == before + todo;
    }
    out := out + [left];
  }

  method ConsumeSEIValue(data: bytes, start: nat) returns (r: Result<(nat, nat), SeiError>)
    ensures r == ConsumeFrom(data, start, 0)
  {
    var value: int, pos := 0, start;
    while true
      invariant value >= 0 && pos >= 0
      invariant ConsumeFrom(data, start, 0) == ConsumeFrom(data, pos, value)
      decreases |data| - pos
    {
      if pos >= |data| {
        return Failure(ValueTruncated);
      }
      var b := data[pos];
      pos := pos + 1;
      value := value + b;
      if b != 0xff {
        return Success((value, pos));
      }
    }
  }

  // The SEI NAL unit

  function UserData(payload: bytes): bytes { SEI_UUID + payload }

  function SeiRbspOf(payload: bytes): bytes {
    SeiValue(USER_DATA_UNREGISTERED) + SeiValue(|UserData(payload)|) + UserData(payload) + [0x80]
  }

  function SeiNal(payload: bytes): bytes { [0x06] + Escape(SeiRbspOf(payload)) }

  method BuildSEINAL(payload: bytes) returns (out: bytes)
    ensures out == SeiNal(payload)
  {
    var userData := SEI_UUID;
    userData := userData + payload;
    var rbsp := AppendSEIValue([], USER_DATA_UNREGISTERED);
    rbsp := AppendSEIValue(rbsp, |userData|);
    rbsp := rbsp + userData;
    rbsp := rbsp + [0x80];
    var escaped := EscapeRBSP(rbsp);
    assert rbsp == SeiRbspOf(payload);
    out := [0x06] + escaped;
  }

  /** The payloads carried by the SEI messages from pos on, after those in `found`. */
  function MessagesFrom(data: bytes, pos: nat, found: seq<bytes>): Result<seq<bytes>, SeiError>
    decreases |data| - pos
  {
    if pos >= |data| || (data[pos] == 0x80 && pos == |data| - 1) then Success(found)
    else
      match ConsumeFrom(data, pos, 0)
      case Failure(e) => Failure(e)
      case Success((payloadType, next)) =>
        match ConsumeFrom(data, next, 0)
        case Failure(e) => Failure(e)
        case Success((size, body)) =>
          if body + size > |data| then Failure(PayloadTruncated)
          else
            var payload := data[body..body + size];
            MessagesFrom(data, body + size,
                         if Carries(payloadType, payload) then found + [payload[|SEI_UUID|..]] else found)
  }

  predicate Carries(payloadType: nat, payload: bytes) {
    payloadType == USER_DATA_UNREGISTERED && |payload| >= |SEI_UUID| && payload[..|SEI_UUID|] == SEI_UUID
  }

  function TransportMessages(rbsp: bytes): Result<seq<bytes>, SeiError> {
    MessagesFrom(Unescape(rbsp), 0, [])
  }

  method ExtractTransportSEI(rbsp: bytes) returns (r: Result<seq<bytes>, SeiError>)
    ensures r == TransportMessages(rbsp)
  {
    hide Unescape, ConsumeFrom;
    var data := UnescapeRBSP(rbsp);
    var out: seq<bytes> := [];
    var pos := 0;
    while pos < |data|
      invariant pos >= 0
      invariant TransportMessages(rbsp) == MessagesFrom(data, pos, out)
      decreases |data| - pos
    {
      if data[pos] == 0x80 && pos == |data| - 1 {
        break;
      }
      var first := ConsumeSEIValue(data, pos);
      if first.Failure? {
        return Failure(first.error);
      }
      var payloadType := first.value.0;
      pos := first.value.1;
      var second := ConsumeSEIValue(data, pos);
      if second.Failure? {
        return Failure(second.error);
      }
      var payloadSize := second.value.0;
      pos := second.value.1;
      if pos + payloadSize > |data| {
        return Failure(PayloadTruncated);
      }
      var payload := data[pos..pos + payloadSize];
      pos := pos + payloadSize;
      if payloadType != USER_DATA_UNREGISTERED || |payload| < |SEI_UUID| {
        continue;
      }
      if payload[..|SEI_UUID|] != SEI_UUID {
        continue;
      }
      var frame := payload[|SEI_UUID|..];
      out := out + [frame];
    }
    return Success(out);
  }

  /** An SEI NAL unit gives back exactly the payload it was built for. */
  lemma SeiNalRoundTrip(payload: bytes)
    ensures TransportMessages(SeiNal(payload)[1..]) == Success([payload])
  {
    var data := SeiRbspOf(payload);
    EscapeRoundTrip(data);
    assert SeiNal(payload)[1..] == Escape(data);
    var u := UserData(payload);
    var size := SeiValue(|u|);
    var kind := SeiValue(USER_DATA_UNREGISTERED);
    assert kind == [USER_DATA_UNREGISTERED];
    assert data[0..1] == kind;
    SeiValueRoundTrip(data, 0, USER_DATA_UNREGISTERED, 0);
    assert data[1..1 + |size|] == size;
    SeiValueRoundTrip(data, 1, |u|, 0);
    var body := 1 + |size|;
    assert data[body..body + |u|] == u;
    assert u[..|SEI_UUID|] == SEI_UUID && u[|SEI_UUID|..] == payload;
    assert Carries(USER_DATA_UNREGISTERED, u);
    assert data[0] == data[0..1][0] == USER_DATA_UNREGISTERED;
    assert [] + [u[|SEI_UUID|..]] == [payload];
    assert data[body + |u|] == 0x80 && body + |u| == |data| - 1;
    assert MessagesFrom(data, body + |u|, [payload]) == Success([payload]);
  }

  /** What is in the NAL unit: a header of type 6, and escaped behind it one message of type 5,
      its size, the UUID, the payload and the stop byte. */
  lemma SeiNalLayout(payload: bytes)
    ensures SeiNal(payload)[0] == 6
    ensures Unescape(SeiNal(payload)[1..]) ==
      [5] + SeiValue(16 + |payload|) +
      [0x5d, 0xc0, 0x3b, 0xa8, 0x45, 0x0f, 0x4b, 0x55, 0x9a, 0x77, 0x1f, 0x91, 0x6c, 0x5b, 0x07, 0x39] +
      payload + [0x80]
  {
    hide Unescape, Escape;
    var data := SeiRbspOf(payload);
    EscapeRoundTrip(data);
    assert SeiNal(payload)[1..] == Escape(data);
    Assoc([5] + SeiValue(16 + |payload|), SEI_UUID, payload);
  }

  // Any messages

  datatype Message = Message(payloadType: nat, body: bytes)

  function EncodeMessages(ms: seq<Message>): bytes {
    if ms == [] then []
    else SeiValue(ms[0].payloadType) + (SeiValue(|ms[0].body|) + (ms[0].body + EncodeMessages(ms[1..])))
  }

  /** The messages meant for the transport: of type 5, with its UUID in front. */
  function Ours(ms: seq<Message>): seq<bytes> {
    if ms == [] then []
    else
      var m := ms[0];
      (if m.payloadType == 5 && SEI_UUID <= m.body then [m.body[16..]] else []) + Ours(ms[1..])
  }

  lemma MessageParts(data: bytes, pos: nat, first: bytes, second: bytes, body: bytes, rest: bytes)
    requires pos <= |data| && data[pos..] == first + (second + (body + rest))
    ensures var p := pos + |first|; var q := p + |second|; var r := q + |body|;
      r <= |data| && data[pos..p] == first && data[p..q] == second && data[q..r] == body && data[r..] == rest
  {
    var p := pos + |first|;
    var q := p + |second|;
    var r := q + |body|;
    var tail := data[pos..];
    assert data[pos..p] == tail[..|first|] && data[p..q] == tail[|first|..][..|second|];
    assert data[q..r] == tail[|first|..][|second|..][..|body|] && data[r..] == tail[|first|..][|second|..][|body|..];
  }

  lemma SeiValueNotEmpty(value: nat)
    ensures SeiValue(value) != []
  {
  }

  /** Whatever messages a unit holds, of any types and sizes and in any order: extraction returns
      exactly those of type 5 that bear the UUID, in order, and nothing of the others. */
  lemma {:induction false} MessagesRead(data: bytes, pos: nat, ms: seq<Message>, found: seq<bytes>)
    requires pos <= |data| && data[pos..] == EncodeMessages(ms) + [0x80]
    ensures MessagesFrom(data, pos, found) == Success(found + Ours(ms))
    decreases |ms|
  {
    hide SeiValue, ConsumeFrom;
    if ms == [] {
      assert data[pos..] == [0x80] && data[pos] == data[pos..][0];
      assert found + [] == found;
    } else {
      var m, rest := ms[0], EncodeMessages(ms[1..]) + [0x80];
      var first, second := SeiValue(m.payloadType), SeiValue(|m.body|);
      Assoc(first, second + (m.body + EncodeMessages(ms[1..])), [0x80]);
      Assoc(second, m.body + EncodeMessages(ms[1..]), [0x80]);
      Assoc(m.body, EncodeMessages(ms[1..]), [0x80]);
      MessageParts(data, pos, first, second, m.body, rest);
      OneMessage(data, pos, m, rest, found);
      var ours := if m.payloadType == 5 && SEI_UUID <= m.body then [m.body[16..]] else [];
      MessagesRead(data, pos + |first| + |second| + |m.body|, ms[1..], found + ours);
      Assoc(found, ours, Ours(ms[1..]));
    }
  }

  lemma OneMessage(data: bytes, pos: nat, m: Message, rest: bytes, found: seq<bytes>)
    requires pos <= |data|
    requires data[pos..] == SeiValue(m.payloadType) + (SeiValue(|m.body|) + (m.body + rest))
    ensures var next := pos + |SeiValue(m.payloadType)| + |SeiValue(|m.body|)| + |m.body|;
      next <= |data| && MessagesFrom(data, pos, found) ==
        MessagesFrom(data, next, found + if m.payloadType == 5 && SEI_UUID <= m.body then [m.body[16..]] else [])
  {
    hide SeiValue, ConsumeFrom;
    var first, second := SeiValue(m.payloadType), SeiValue(|m.body|);
    MessageParts(data, pos, first, second, m.body, rest);
    SeiValueNotEmpty(m.payloadType);
    SeiValueNotEmpty(|m.body|);
    SeiValueRoundTrip(data, pos, m.payloadType, 0);
    SeiValueRoundTrip(data, pos + |first|, |m.body|, 0);
    assert SEI_UUID <= m.body <==> |m.body| >= 16 && m.body[..16] == SEI_UUID;
    assert found + [] == found;
  }

  /** A message that announces more bytes than are left is an error. */
  lemma CutMessageFails(data: bytes, pos: nat, payloadType: nat, size: nat, found: seq<bytes>)
    requires pos <= |data| && SeiValue(payloadType) + SeiValue(size) <= data[pos..]
    requires |data| < pos + |SeiValue(payloadType) + SeiValue(size)| + size
    ensures MessagesFrom(data, pos, found) == Failure(PayloadTruncated)
  {
    hide SeiValue, ConsumeFrom;
    SeiValueNotEmpty(payloadType);
    SeiValueNotEmpty(size);
    TwoValues(data, pos, payloadType, size);
  }

  lemma TwoValues(data: bytes, pos: nat, payloadType: nat, size: nat)
    requires pos <= |data| && SeiValue(payloadType) + SeiValue(size) <= data[pos..]
    ensures var p := pos + |SeiValue(payloadType)|;
      && ConsumeFrom(data, pos, 0) == Success((payloadType, p))
      && ConsumeFrom(data, p, 0) == Success((size, p + |SeiValue(size)|))
  {
    hide SeiValue, ConsumeFrom;
    var first, second := SeiValue(payloadType), SeiValue(size);
    var tail := data[pos..];
    assert data[pos..pos + |first|] == tail[..|first + second|][..|first|];
    assert data[pos + |first|..pos + |first| + |second|] == tail[..|first + second|][|first|..];
    SeiValueRoundTrip(data, pos, payloadType, 0);
    SeiValueRoundTrip(data, pos + |first|, size, 0);
  }

  // Annex B

  /** The first position from i on where 00 00 01 stands, or |s|. */
  function NextStartCode(s: bytes, i: nat): (p: nat)
    requires i <= |s|
    ensures i <= p <= |s|
    ensures p + 3 <= |s| || p == |s|
    decreases |s| - i
  {
    if i + 3 > |s| then |s|
    else if s[i] == 0 && s[i + 1] == 0 && s[i + 2] == 1 then i
    else NextStartCode(s, i + 1)
  }

  /** Where the NAL unit that starts at i ends: at the next 00 00 00 or 00 00 01, or at |s|. */
  function NalEnd(s: bytes, i: nat): (p: nat)
    requires i <= |s|
    ensures i <= p <= |s|
    decreases |s| - i
  {
    if i + 3 > |s| then |s|
    else if s[i] == 0 && s[i + 1] == 0 && s[i + 2] <= 1 then i
    else NalEnd(s, i + 1)
  }

  function SplitNals(s: bytes): seq<bytes>
    decreases |s|
  {
    var p := NextStartCode(s, 0);
    if p == |s| then []
    else
      var end := NalEnd(s, p + 3);
      [s[p + 3..end]] + SplitNals(s[end..])
  }

  /** A NAL unit that can stand between two start codes. */
  ghost predicate Separable(nal: bytes) {
    && nal != [] && nal[|nal| - 1] != 0
    && forall i: nat {:trigger nal[i]} :: i + 2 < |nal| ==> !(nal[i] == 0 && nal[i + 1] == 0 && nal[i + 2] <= 1)
  }

  function Unit(nal: bytes): bytes { START_CODE + nal }

  lemma {:induction false} NalEndAt(s: bytes, nal: bytes, rest: bytes, from: nat, i: nat)
    requires Separable(nal) && i <= |nal|
    requires rest == [] || START_CODE <= rest
    requires from + |nal| + |rest| == |s| && s[from..from + |nal|] == nal && s[from + |nal|..] == rest
    ensures NalEnd(s, from + i) == from + |nal|
    decreases |nal| - i
  {
    assert forall k :: 0 <= k < |nal| ==> s[from + k] == s[from..from + |nal|][k] == nal[k];
    if i < |nal| {
      NalEndAt(s, nal, rest, from, i + 1);
      assert s[from + |nal| - 1] == nal[|nal| - 1] != 0;
      if i + 2 < |nal| {
        assert s[from + i] == nal[i] && s[from + (i + 1)] == nal[i + 1] && s[from + (i + 2)] == nal[i + 2];
      }
    } else if rest != [] {
      assert forall k :: 0 <= k < 4 ==> s[from + |nal| + k] == rest[k] == START_CODE[k];
      assert s[from + |nal| + 0] == 0 && s[from + |nal| + 1] == 0 && s[from + |nal| + 2] == 0;
    }
  }

  lemma SplitUnit(nal: bytes, rest: bytes)
    requires Separable(nal)
    requires rest == [] || START_CODE <= rest
    ensures SplitNals(Unit(nal) + rest) == [nal] + SplitNals(rest)
  {
    var s := Unit(nal) + rest;
    assert s[0] == 0 && s[1] == 0 && s[2] == 0 && s[3] == 1;
    assert NextStartCode(s, 1) == 1;
    assert NextStartCode(s, 0) == 1;
    assert s[4..4 + |nal|] == nal && s[4 + |nal|..] == rest;
    NalEndAt(s, nal, rest, 4, 0);
  }

  // The access unit

  function NalsOf(payload: bytes): seq<bytes> {
    if payload == [] then [BASE_SPS, BASE_PPS, BASE_IDR]
    else [BASE_SPS, BASE_PPS, SeiNal(payload), BASE_IDR]
  }

  function ByteStream(nals: seq<bytes>): bytes {
    if nals == [] then [] else Unit(nals[0]) + ByteStream(nals[1..])
  }

  function AccessUnit(payload: bytes): bytes { ByteStream(NalsOf(payload)) }

  lemma {:induction false} ByteStreamSnoc(nals: seq<bytes>, nal: bytes)
    ensures ByteStream(nals + [nal]) == ByteStream(nals) + Unit(nal)
  {
    if nals == [] {
      assert [nal][1..] == [];
    } else {
      ByteStreamSnoc(nals[1..], nal);
      assert (nals + [nal])[1..] == nals[1..] + [nal];
    }
  }

  method BuildVideoAccessUnit(payload: bytes) returns (out: bytes)
    ensures out == AccessUnit(payload)
  {
    ghost var nals: seq<bytes> := [];
    out := AppendStartCode([], BASE_SPS, nals);
    nals := nals + [BASE_SPS];
    out := AppendStartCode(out, BASE_PPS, nals);
    nals := nals + [BASE_PPS];
    if |payload| > 0 {
      var sei := BuildSEINAL(payload);
      out := AppendStartCode(out, sei, nals);
      nals := nals + [sei];
    }
    out := AppendStartCode(out, BASE_IDR, nals);
    assert nals + [BASE_IDR] == NalsOf(payload);
  }

  method AppendStartCode(dst: bytes, nalu: bytes, ghost nals: seq<bytes>) returns (out: bytes)
    requires dst == ByteStream(nals)
    ensures out == ByteStream(nals + [nalu])
  {
    ByteStreamSnoc(nals, nalu);
    out := dst + START_CODE;
    out := out + nalu;
    assert out == dst + Unit(nalu);
  }

  lemma SeiNalSeparable(payload: bytes)
    ensures Separable(SeiNal(payload))
  {
    var data := SeiRbspOf(payload);
    var e := Escape(data);
    var nal := SeiNal(payload);
    EscapePrevents(data);
    EscapeKeepsLast(0, data);
    assert nal[|nal| - 1] == e[|e| - 1];
    forall i: nat | i + 2 < |nal|
      ensures !(nal[i] == 0 && nal[i + 1] == 0 && nal[i + 2] <= 1)
    {
      if i > 0 {
        assert PreventedAt(e, i - 1);
        assert nal[i] == e[i - 1] && nal[i + 1] == e[i] && nal[i + 2] == e[i + 1];
      }
    }
  }

  lemma {:induction false} SplitByteStream(nals: seq<bytes>)
    requires forall k :: 0 <= k < |nals| ==> Separable(nals[k])
    ensures SplitNals(ByteStream(nals)) == nals
  {
    if nals != [] {
      var rest := ByteStream(nals[1..]);
      SplitByteStream(nals[1..]);
      assert |nals| > 1 ==> START_CODE <= Unit(nals[1..][0]) <= rest;
      SplitUnit(nals[0], rest);
    }
  }

  lemma NalsListed(payload: bytes)
    ensures NalsOf(payload) == [BASE_SPS, BASE_PPS] + (if payload == [] then [] else [SeiNal(payload)]) + [BASE_IDR]
  {
  }

  /** Split at its start codes, an access unit is SPS, PPS, the SEI if there is a payload,
      and the IDR slice, each of them intact and of its NAL unit type (Table 7-1). */
  lemma AccessUnitSplits(payload: bytes)
    ensures SplitNals(AccessUnit(payload))
      == [BASE_SPS, BASE_PPS] + (if payload == [] then [] else [SeiNal(payload)]) + [BASE_IDR]
    ensures BASE_SPS[0] % 32 == 7 && BASE_PPS[0] % 32 == 8 && SeiNal(payload)[0] % 32 == 6 && BASE_IDR[0] % 32 == 5
  {
    hide SplitNals, ByteStream, Separable, NalsOf;
    BaseSeparable();
    SeiNalSeparable(payload);
    NalsListed(payload);
    SplitByteStream(NalsOf(payload));
  }

  lemma BaseSeparable()
    ensures Separable(BASE_SPS) && Separable(BASE_PPS) && Separable(BASE_IDR)
  {
  }

  // Extraction

  predicate IsTransportNal(nal: bytes) {
    |nal| >= 2 && nal[0] % 32 == NAL_TYPE_SEI
  }

  function Found(nal: bytes): seq<bytes> {
    if IsTransportNal(nal) then
      match TransportMessages(nal[1..])
      case Success(found) => found
      case Failure(_) => []
    else []
  }

  function PayloadsOf(nals: seq<bytes>): seq<bytes> {
    if nals == [] then []
    else
      Found(nals[0]) + PayloadsOf(nals[1..])
  }

  /** Every NAL unit is looked at by itself: one that cannot be parsed, or is no SEI unit, yields
      nothing and hides none of the others. */
  lemma {:induction false} EachUnitYields(a: seq<bytes>, nal: bytes, b: seq<bytes>)
    ensures PayloadsOf(a + [nal] + b) == PayloadsOf(a) + (
      if |nal| >= 2 && nal[0] % 32 == 6 && TransportMessages(nal[1..]).Success? then TransportMessages(nal[1..]).value
      else []) + PayloadsOf(b)
  {
    hide TransportMessages;
    if a == [] {
      assert [] + [nal] + b == [nal] + b && ([nal] + b)[1..] == b;
      assert [] + Found(nal) == Found(nal);
    } else {
      EachUnitYields(a[1..], nal, b);
      assert (a + [nal] + b)[0] == a[0] && (a + [nal] + b)[1..] == a[1..] + [nal] + b;
      Assoc(Found(a[0]), PayloadsOf(a[1..]), Found(nal));
      Assoc(Found(a[0]), PayloadsOf(a[1..]) + Found(nal), PayloadsOf(b));
    }
  }

  function VideoPayloads(accessUnit: bytes): seq<bytes> { PayloadsOf(SplitNals(accessUnit)) }

  /** The loop of extractVideoPayloads, over what the reader returns. */
  method ExtractVideoPayloads(accessUnit: bytes) returns (payloads: seq<bytes>)
    ensures payloads == VideoPayloads(accessUnit)
  {
    hide SplitNals, TransportMessages;
    var nals := SplitNals(accessUnit);
    payloads := [];
    ghost var rest := PayloadsOf(nals);
    for i := 0 to |nals|
      invariant rest == PayloadsOf(nals[i..])
      invariant payloads + rest == PayloadsOf(nals)
    {
      var nal := nals[i];
      assert nals[i..][1..] == nals[i + 1..];
      ghost var before, todo := payloads, rest;
      rest := PayloadsOf(nals[i + 1..]);
      if |nal| < 2 || nal[0] % 32 != NAL_TYPE_SEI {
        assert payloads + rest == before + todo;
        continue;
      }
      var found := ExtractTransportSEI(nal[1..]);
      if found.Failure? {
        assert payloads + rest == before + todo;
        continue;
      }
      payloads := payloads + found.value;
      assert payloads + rest == before + todo;
    }
  }

  /** Extraction returns exactly the payload the unit was built for; the idle unit has none. */
  lemma AccessUnitRoundTrip(payload: bytes)
    ensures VideoPayloads(AccessUnit(payload)) == if payload == [] then [] else [payload]
  {
    hide SplitNals, AccessUnit, SeiNal, Found;
    AccessUnitSplits(payload);
    NalsListed(payload);
    OtherNalsCarryNothing(BASE_SPS);
    OtherNalsCarryNothing(BASE_PPS);
    OtherNalsCarryNothing(BASE_IDR);
    FoundFirst(BASE_IDR, []);
    if payload == [] {
      FoundFirst(BASE_PPS, [BASE_IDR]);
      FoundFirst(BASE_SPS, [BASE_PPS, BASE_IDR]);
    } else {
      SeiNalFound(payload);
      FoundFirst(SeiNal(payload), [BASE_IDR]);
      FoundFirst(BASE_PPS, [SeiNal(payload), BASE_IDR]);
      FoundFirst(BASE_SPS, [BASE_PPS, SeiNal(payload), BASE_IDR]);
    }
  }

  lemma FoundFirst(nal: bytes, rest: seq<bytes>)
    ensures PayloadsOf([nal] + rest) == Found(nal) + PayloadsOf(rest)
  {
    assert ([nal] + rest)[1..] == rest;
  }

  lemma OtherNalsCarryNothing(nal: bytes)
    requires nal != [] && nal[0] % 32 != NAL_TYPE_SEI
    ensures Found(nal) == []
  {
  }

  lemma SeiNalFound(payload: bytes)
    ensures Found(SeiNal(payload)) == [payload]
  {
    SeiNalRoundTrip(payload);
    EscapeKeepsLast(0, SeiRbspOf(payload));
    assert SeiNal(payload)[0] == 6;
  }
}
