/**
 Chunked image upload (`write_kitty_data`, src/kitty_graphics.rs): base64 as in section 4 of
 RFC 4648, in chunks as the section "Remote client" of the Kitty terminal graphics protocol asks.
 */
module GraphicsUpload {
  import opened Options

  type Byte = b: int | 0 <= b < 256

  const CHUNK_BYTES: nat := 3072
  const PAD: Byte := 61

  // --- Base64 ---

  /** The base64 alphabet, by ASCII code. */
  function Symbol(v: int): (c: Byte)
    requires 0 <= v < 64
    ensures c != PAD
  {
    if v < 26 then 65 + v
    else if v < 52 then 71 + v
    else if v < 62 then v - 4
    else if v == 62 then 43
    else 47
  }

  /** The symbols are those of Table 1 of RFC 4648: letters, digits, plus and slash, in this order. */
  lemma SymbolIsStandard(v: int)
    requires 0 <= v < 64
    ensures v < 26 ==> Symbol(v) == 'A' as int + v
    ensures 26 <= v < 52 ==> Symbol(v) == 'a' as int + (v - 26)
    ensures 52 <= v < 62 ==> Symbol(v) == '0' as int + (v - 52)
    ensures v == 62 ==> Symbol(v) == '+' as int
    ensures v == 63 ==> Symbol(v) == '/' as int
  {
  }

  function Value(c: Byte): (v: int)
    ensures 0 <= v < 64
  {
    if 65 <= c < 91 then c - 65
    else if 97 <= c < 123 then c - 71
    else if 48 <= c < 58 then c + 4
    else if c == 43 then 62
    else 63
  }

  lemma ValueOfSymbol(v: int)
    requires 0 <= v < 64
    ensures Value(Symbol(v)) == v
  {
  }

  /** `STANDARD.encode`, with padding. */
  function Base64(data: seq<Byte>): seq<Byte>
    decreases |data|
  {
    if |data| == 0 then []
    else if |data| == 1 then
      [Symbol(data[0] / 4), Symbol(data[0] % 4 * 16), PAD, PAD]
    else if |data| == 2 then
      [Symbol(data[0] / 4), Symbol(data[0] % 4 * 16 + data[1] / 16), Symbol(data[1] % 16 * 4), PAD]
    else Triple(data[0], data[1], data[2]) + Base64(data[3..])
  }

  function Triple(a: Byte, b: Byte, c: Byte): (r: seq<Byte>)
    ensures |r| == 4 && PAD !in r
  {
    [Symbol(a / 4), Symbol(a % 4 * 16 + b / 16), Symbol(b % 16 * 4 + c / 64), Symbol(c % 64)]
  }

  /** Reads groups of four symbols back into bytes. */
  function Decode(text: seq<Byte>): seq<int>
    decreases |text|
  {
    if |text| < 4 then []
    else
      var (a, b, c, d) := (Value(text[0]), Value(text[1]), Value(text[2]), Value(text[3]));
      if text[2] == PAD then [a * 4 + b / 16]
      else if text[3] == PAD then [a * 4 + b / 16, b % 16 * 16 + c / 4]
      else [a * 4 + b / 16, b % 16 * 16 + c / 4, c % 4 * 64 + d] + Decode(text[4..])
  }

  /** Three bytes are split into four sextets and joined again. */
  lemma Sextets(a: Byte, b: Byte, c: Byte)
    ensures var (w, x, y, z) := (a / 4, a % 4 * 16 + b / 16, b % 16 * 4 + c / 64, c % 64);
            && 0 <= w < 64 && 0 <= x < 64 && 0 <= y < 64 && 0 <= z < 64
            && w * 4 + x / 16 == a && x % 16 * 16 + y / 4 == b && y % 4 * 64 + z == c
  {
    assert (a % 4 * 16 + b / 16) / 16 == a % 4 && (a % 4 * 16 + b / 16) % 16 == b / 16;
    assert (b % 16 * 4 + c / 64) / 4 == b % 16 && (b % 16 * 4 + c / 64) % 4 == c / 64;
  }

  lemma TripleRoundTrip(a: Byte, b: Byte, c: Byte, rest: seq<Byte>)
    ensures Decode(Triple(a, b, c) + rest) == [a, b, c] + Decode(rest)
  {
    var text := Triple(a, b, c) + rest;
    assert text[4..] == rest;
    Sextets(a, b, c);
    var (w, x, y, z) := (a / 4, a % 4 * 16 + b / 16, b % 16 * 4 + c / 64, c % 64);
    ValueOfSymbol(w);
    ValueOfSymbol(x);
    ValueOfSymbol(y);
    ValueOfSymbol(z);
    hide Symbol, Value;
    assert text[0] == Symbol(w) && text[1] == Symbol(x) && text[2] == Symbol(y) && text[3] == Symbol(z);
  }

  lemma OneByteRoundTrip(a: Byte)
    ensures Decode(Base64([a])) == [a]
  {
    var (w, x) := (a / 4, a % 4 * 16);
    assert w * 4 + x / 16 == a by { Sextets(a, 0, 0); }
    ValueOfSymbol(w);
    ValueOfSymbol(x);
    hide Symbol, Value;
    var text := Base64([a]);
    assert text == [Symbol(w), Symbol(x), PAD, PAD];
    assert text[0] == Symbol(w) && text[1] == Symbol(x) && text[2] == PAD;
  }

  lemma TwoBytesRoundTrip(a: Byte, b: Byte)
    ensures Decode(Base64([a, b])) == [a, b]
  {
    var (w, x, y) := (a / 4, a % 4 * 16 + b / 16, b % 16 * 4);
    assert w * 4 + x / 16 == a && x % 16 * 16 + y / 4 == b && 0 <= x < 64 by { Sextets(a, b, 0); }
    ValueOfSymbol(w);
    ValueOfSymbol(x);
    ValueOfSymbol(y);
    hide Symbol, Value;
    var text := Base64([a, b]);
    assert text == [Symbol(w), Symbol(x), Symbol(y), PAD];
    assert text[0] == Symbol(w) && text[1] == Symbol(x) && text[2] == Symbol(y) && text[3] == PAD;
  }

  /** Decoding an encoding gives back the data. */
  lemma {:induction false} Base64RoundTrip(data: seq<Byte>)
    ensures Decode(Base64(data)) == data
    decreases |data|
  {
    hide Decode, Triple;
    if |data| == 0 {
      NothingDecodes();
    } else if |data| == 1 {
      OneByteRoundTrip(data[0]);
      assert data == [data[0]];
    } else if |data| == 2 {
      TwoBytesRoundTrip(data[0], data[1]);
      assert data == [data[0], data[1]];
    } else {
      TripleRoundTrip(data[0], data[1], data[2], Base64(data[3..]));
      Base64RoundTrip(data[3..]);
    }
  }

  lemma NothingDecodes()
    ensures Decode([]) == []
  {
  }

  lemma {:induction false} Base64Length(data: seq<Byte>)
    ensures |Base64(data)| == (|data| + 2) / 3 * 4
    decreases |data|
  {
    hide Triple;
    if |data| >= 3 {
      Base64Length(data[3..]);
      assert (|data| + 2) / 3 == 1 + (|data| - 3 + 2) / 3;
    }
  }

  lemma {:induction false} WholeTriplesNeedNoPad(data: seq<Byte>)
    requires |data| % 3 == 0
    ensures PAD !in Base64(data)
    decreases |data|
  {
    if data != [] {
      WholeTriplesNeedNoPad(data[3..]);
    }
  }

  /** Encoding piecewise at a multiple of three bytes is encoding at once. */
  lemma {:induction false} Base64Concat(a: seq<Byte>, b: seq<Byte>)
    requires |a| % 3 == 0
    ensures Base64(a + b) == Base64(a) + Base64(b)
    decreases |a|
  {
    if a == [] {
      assert a + b == b;
    } else {
      assert (a + b)[3..] == a[3..] + b;
      Base64Concat(a[3..], b);
    }
  }

  // --- Messages ---

  /** One escape sequence: the first carries the control data, the others only continue. */
  datatype Message = First(control: seq<Byte>, more: bool, payload: seq<Byte>) | Next(more: bool, payload: seq<Byte>) {
    /** `ESC _G<control>,m=<more>;<payload>ESC \`, without control and comma for a continuation. */
    function Render(): seq<Byte> {
      [27, 95, 71] + (if First? then control + [44] else [])
        + [109, 61, if more then 49 else 48, 59] + payload + [27, 92]
    }
  }

  function RenderAll(ms: seq<Message>): seq<Byte> {
    if ms == [] then [] else ms[0].Render() + RenderAll(ms[1..])
  }

  function ChunkLength(data: seq<Byte>): nat {
    if |data| < CHUNK_BYTES then |data| else CHUNK_BYTES
  }

  function Continuations(data: seq<Byte>): seq<Message>
    decreases |data|
  {
    if data == [] then []
    else
      var n := ChunkLength(data);
      [Next(|data| > CHUNK_BYTES, Base64(data[..n]))] + Continuations(data[n..])
  }

  function Messages(control: seq<Byte>, data: seq<Byte>): seq<Message> {
    if data == [] then []
    else
      var n := ChunkLength(data);
      [First(control, |data| > CHUNK_BYTES, Base64(data[..n]))] + Continuations(data[n..])
  }

  function Payloads(ms: seq<Message>): seq<Byte> {
    if ms == [] then [] else ms[0].payload + Payloads(ms[1..])
  }

  /** Every message but the last is a full unpadded chunk with `m=1`; the last has `m=0`. */
  ghost predicate WellChunked(ms: seq<Message>) {
    forall i :: 0 <= i < |ms| ==>
      && (ms[i].First? ==> i == 0)
      && ms[i].more == (i + 1 < |ms|)
      && (i + 1 < |ms| ==> |ms[i].payload| == 4096 && PAD !in ms[i].payload)
  }

  lemma WellChunkedPrepend(m: Message, rest: seq<Message>)
    requires WellChunked(rest) && forall i :: 0 <= i < |rest| ==> rest[i].Next?
    requires m.more == (rest != [])
    requires rest != [] ==> |m.payload| == 4096 && PAD !in m.payload
    ensures WellChunked([m] + rest)
  {
    var ms := [m] + rest;
    forall i | 0 <= i < |ms|
      ensures (ms[i].First? ==> i == 0) && ms[i].more == (i + 1 < |ms|)
      ensures i + 1 < |ms| ==> |ms[i].payload| == 4096 && PAD !in ms[i].payload
    {
      if i > 0 {
        assert ms[i] == rest[i - 1];
      }
    }
  }

  function ChunkCount(length: nat): nat {
    (length + CHUNK_BYTES - 1) / CHUNK_BYTES
  }

  lemma {:induction false} ContinuationsCarry(data: seq<Byte>)
    ensures Payloads(Continuations(data)) == Base64(data)
    ensures WellChunked(Continuations(data))
    ensures forall i :: 0 <= i < |Continuations(data)| ==> Continuations(data)[i].Next?
    ensures |Continuations(data)| == ChunkCount(|data|)
    ensures |RenderAll(Continuations(data))| == 9 * ChunkCount(|data|) + |Base64(data)|
    decreases |data|
  {
    if data != [] {
      var n := ChunkLength(data);
      var head := Next(|data| > CHUNK_BYTES, Base64(data[..n]));
      var rest := Continuations(data[n..]);
      ContinuationsCarry(data[n..]);
      ChunkCarries(data);
      WellChunkedPrepend(head, rest);
      assert ([head] + rest)[1..] == rest;
    }
  }

  /** The first chunk and the rest of the data encode separately. */
  lemma ChunkCarries(data: seq<Byte>)
    requires data != []
    ensures var n := ChunkLength(data);
            && Base64(data) == Base64(data[..n]) + Base64(data[n..])
            && (|data| > CHUNK_BYTES ==> |Base64(data[..n])| == 4096 && PAD !in Base64(data[..n]))
            && ChunkCount(|data|) == 1 + ChunkCount(|data[n..]|)
            && (|data| > CHUNK_BYTES <==> data[n..] != [])
  {
    var n := ChunkLength(data);
    assert data == data[..n] + data[n..];
    if |data| > CHUNK_BYTES {
      Base64Length(data[..n]);
      WholeTriplesNeedNoPad(data[..n]);
      Base64Concat(data[..n], data[n..]);
    } else {
      assert data[..n] == data && data[n..] == [];
      assert Base64(data) + [] == Base64(data);
    }
  }

  /**
   The chunked upload is one encoding: its payloads concatenate to the base64 of the whole data, so
   a receiver that joins and decodes them has the data back.
   */
  lemma UploadCarriesData(control: seq<Byte>, data: seq<Byte>)
    ensures Payloads(Messages(control, data)) == Base64(data)
    ensures Decode(Payloads(Messages(control, data))) == data
    ensures WellChunked(Messages(control, data))
    ensures |Messages(control, data)| == ChunkCount(|data|)
    ensures data != [] ==> Messages(control, data)[0].First? && Messages(control, data)[0].control == control
  {
    Base64RoundTrip(data);
    if data != [] {
      var n := ChunkLength(data);
      var head := First(control, |data| > CHUNK_BYTES, Base64(data[..n]));
      var rest := Continuations(data[n..]);
      ContinuationsCarry(data[n..]);
      ChunkCarries(data);
      WellChunkedPrepend(head, rest);
      assert ([head] + rest)[1..] == rest;
    }
  }

  /** The loop over the chunks writes exactly the rendered messages. */
  method WriteKittyData(control: seq<Byte>, data: seq<Byte>) returns (out: seq<Byte>)
    ensures out == RenderAll(Messages(control, data))
  {
    hide Base64, Message.Render;
    if data == [] {
      return [];
    }
    var n := ChunkLength(data);
    var rest := data[n..];
    var first := First(control, rest != [], Base64(data[..n]));
    out := first.Render();
    assert Messages(control, data) == [first] + Continuations(rest);
    assert Messages(control, data)[1..] == Continuations(rest);
    while rest != []
      invariant out + RenderAll(Continuations(rest)) == RenderAll(Messages(control, data))
      decreases |rest|
    {
      var m := ChunkLength(rest);
      var next := rest[m..];
      var message := Next(next != [], Base64(rest[..m]));
      RenderStep(rest, message);
      assert out + (message.Render() + RenderAll(Continuations(next)))
          == out + message.Render() + RenderAll(Continuations(next));
      out := out + message.Render();
      rest := next;
    }
    assert out + [] == out;
  }

  lemma RenderStep(rest: seq<Byte>, message: Message)
    requires rest != []
    requires message == Next(rest[ChunkLength(rest)..] != [], Base64(rest[..ChunkLength(rest)]))
    ensures RenderAll(Continuations(rest)) == message.Render() + RenderAll(Continuations(rest[ChunkLength(rest)..]))
  {
    hide Base64, Message.Render;
    var next := rest[ChunkLength(rest)..];
    assert Continuations(rest) == [message] + Continuations(next);
    assert Continuations(rest)[1..] == Continuations(next);
  }

  // --- Reading the stream back ---

  const ESC: Byte := 27
  const SEMICOLON: Byte := 59

  /** What stands before the first `stop`, and what follows it. */
  function Cut(bytes: seq<Byte>, stop: Byte): (r: (seq<Byte>, seq<Byte>))
    ensures |r.0| + |r.1| <= |bytes|
    ensures bytes != [] ==> |r.1| < |bytes|
  {
    if bytes == [] then ([], [])
    else if bytes[0] == stop then ([], bytes[1..])
    else
      var (before, after) := Cut(bytes[1..], stop);
      ([bytes[0]] + before, after)
  }

  lemma {:induction false} CutFinds(before: seq<Byte>, stop: Byte, after: seq<Byte>)
    requires stop !in before
    ensures Cut(before + [stop] + after, stop) == (before, after)
  {
    var bytes := before + [stop] + after;
    if before == [] {
      assert bytes[1..] == after;
    } else {
      assert bytes[1..] == before[1..] + [stop] + after;
      CutFinds(before[1..], stop, after);
      assert [before[0]] + before[1..] == before;
    }
  }

  function Header(m: Message): seq<Byte> {
    (if m.First? then m.control + [44] else []) + [109, 61, if m.more then 49 else 48]
  }

  /**
   A strict receiver: each message starts with `ESC _ G`, has its keys up to `;` and its payload up to
   `ESC \`; anything else is refused.
   */
  function Receive(bytes: seq<Byte>): Option<seq<(seq<Byte>, seq<Byte>)>>
    decreases |bytes|
  {
    if bytes == [] then Some([])
    else if |bytes| < 4 || bytes[..3] != [ESC, '_' as int, 'G' as int] then None
    else
      var (keys, body) := Cut(bytes[3..], SEMICOLON);
      var (payload, after) := Cut(body, ESC);
      if after == [] || after[0] != '\\' as int then None
      else
        match Receive(after[1..])
        case None => None
        case Some(rest) => Some([(keys, payload)] + rest)
  }

  /** No byte of the message is taken for one that ends its keys or its payload. */
  predicate Framed(m: Message) {
    (m.First? ==> SEMICOLON !in m.control) && ESC !in m.payload
  }

  lemma ReceiveOne(m: Message, rest: seq<Byte>)
    requires Framed(m) && Receive(rest).Some?
    ensures Receive(m.Render() + rest) == Some([(Header(m), m.payload)] + Receive(rest).value)
  {
    RenderedParts(m, rest);
    hide Message.Render, Header, Cut;
    CutFinds(Header(m), SEMICOLON, m.payload + [ESC] + ([92] + rest));
    CutFinds(m.payload, ESC, [92] + rest);
    assert ([92] + rest)[1..] == rest;
  }

  lemma RenderedParts(m: Message, rest: seq<Byte>)
    requires Framed(m)
    ensures var bytes := m.Render() + rest;
            && |bytes| >= 4 && bytes[..3] == [ESC, '_' as int, 'G' as int]
            && bytes[3..] == Header(m) + [SEMICOLON] + (m.payload + [ESC] + ([92] + rest))
    ensures SEMICOLON !in Header(m)
  {
    var tail := m.payload + [ESC] + ([92] + rest);
    assert m.Render() + rest == [27, 95, 71] + (Header(m) + [SEMICOLON] + tail);
  }

  function Expected(ms: seq<Message>): (r: seq<(seq<Byte>, seq<Byte>)>)
    ensures |r| == |ms| && forall i :: 0 <= i < |ms| ==> r[i] == (Header(ms[i]), ms[i].payload)
  {
    seq(|ms|, i requires 0 <= i < |ms| => (Header(ms[i]), ms[i].payload))
  }

  lemma {:induction false} ReceiveAll(ms: seq<Message>)
    requires forall m :: m in ms ==> Framed(m)
    ensures Receive(RenderAll(ms)) == Some(Expected(ms))
    ensures Joined(Expected(ms)) == Payloads(ms)
    decreases |ms|
  {
    hide Header, Framed, Message.Render;
    if ms != [] {
      assert ms[0] in ms;
      ReceiveAll(ms[1..]);
      ReceiveOne(ms[0], RenderAll(ms[1..]));
      assert Expected(ms) == [(Header(ms[0]), ms[0].payload)] + Expected(ms[1..]);
      assert Expected(ms)[1..] == Expected(ms[1..]);
    }
  }

  lemma {:induction false} Base64HasNoEscape(data: seq<Byte>)
    ensures ESC !in Base64(data)
    decreases |data|
  {
    if |data| >= 3 {
      Base64HasNoEscape(data[3..]);
    }
  }

  lemma {:induction false} ContinuationsFramed(data: seq<Byte>)
    ensures forall m :: m in Continuations(data) ==> Framed(m)
    decreases |data|
  {
    hide Base64;
    if data != [] {
      Base64HasNoEscape(data[..ChunkLength(data)]);
      ContinuationsFramed(data[ChunkLength(data)..]);
    }
  }

  /** The received payloads, joined. */
  function Joined(received: seq<(seq<Byte>, seq<Byte>)>): seq<Byte> {
    if received == [] then [] else received[0].1 + Joined(received[1..])
  }

  /** The keys of message `i` of `count`: the control on the first, `m=1` on all but the last, `m=0` on that. */
  function KeysOf(control: seq<Byte>, i: nat, count: nat): seq<Byte> {
    (if i == 0 then control + [',' as int] else [])
      + ['m' as int, '=' as int, (if i + 1 < count then '1' else '0') as int]
  }

  /** A strict receiver accepts the written bytes, reads the expected keys, and has the data back. */
  lemma UploadIsReceived(control: seq<Byte>, data: seq<Byte>) returns (received: seq<(seq<Byte>, seq<Byte>)>)
    requires SEMICOLON !in control
    ensures Receive(RenderAll(Messages(control, data))) == Some(received)
    ensures |received| == (|data| + 3071) / 3072
    ensures forall i :: 0 <= i < |received| ==> received[i].0 == KeysOf(control, i, |received|)
    ensures forall i :: 0 <= i < |received| - 1 ==> |received[i].1| == 4096
    ensures Decode(Joined(received)) == data
  {
    hide Base64, Decode, Message.Render;
    var ms := Messages(control, data);
    if data != [] {
      Base64HasNoEscape(data[..ChunkLength(data)]);
      ContinuationsFramed(data[ChunkLength(data)..]);
    }
    UploadCarriesData(control, data);
    ReceiveAll(ms);
    hide Messages, Receive, RenderAll, Payloads, Joined;
    received := Expected(ms);
  }

  // --- Size estimate ---

  const USIZE_MAX: int := 0xFFFF_FFFF_FFFF_FFFF

  function SaturatingMul(a: nat, b: nat): nat { if a * b > USIZE_MAX then USIZE_MAX else a * b }
  function SaturatingAdd(a: nat, b: nat): nat { if a + b > USIZE_MAX then USIZE_MAX else a + b }

  /** `image_transfer_estimated_size`. */
  function EstimatedSize(dataLength: nat): nat {
    var encoded := SaturatingMul((dataLength + 2) / 3, 4);
    var overhead := SaturatingMul(ChunkCount(dataLength), 16) + 1024;
    SaturatingAdd(encoded, overhead)
  }

  /** What an upload writes, exactly. */
  lemma UploadSize(control: seq<Byte>, data: seq<Byte>)
    requires data != []
    ensures |RenderAll(Messages(control, data))| == |control| + 1 + 9 * ChunkCount(|data|) + (|data| + 2) / 3 * 4
  {
    var n := ChunkLength(data);
    var head := First(control, |data| > CHUNK_BYTES, Base64(data[..n]));
    ContinuationsCarry(data[n..]);
    ChunkCarries(data);
    Base64Length(data);
    assert Messages(control, data)[1..] == Continuations(data[n..]);
    assert |head.Render()| == |control| + 10 + |Base64(data[..n])|;
  }

  /** A slice is at most `isize::MAX` long; with a control of up to 1024 bytes the estimate holds. */
  lemma EstimateCoversUpload(control: seq<Byte>, data: seq<Byte>)
    requires |control| <= 1024 && |data| <= USIZE_MAX / 2
    ensures |RenderAll(Messages(control, data))| <= EstimatedSize(|data|)
  {
    if data != [] {
      UploadSize(control, data);
      assert ChunkCount(|data|) >= 1;
    }
  }

  /** Unless it saturates, the estimate leaves room for exactly seven bytes a chunk and 1023 bytes of control. */
  lemma EstimateIsTight(control: seq<Byte>, data: seq<Byte>)
    requires data != [] && |data| <= USIZE_MAX / 4
    ensures EstimatedSize(|data|) + |control|
         == |RenderAll(Messages(control, data))| + 7 * ((|data| + 3071) / 3072) + 1023
  {
    UploadSize(control, data);
  }
}
