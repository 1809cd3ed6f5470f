/** The capture helper's wire protocol: a type byte, a 32-bit length, and a payload. */
module CaptureWire {
  import opened Common
  import opened Encoding

  type Bytes = seq<Byte>
  type I64 = n: int | -0x8000_0000_0000_0000 <= n < 0x8000_0000_0000_0000

  const MSG_FORMAT: Byte := 0x01
  const MSG_FRAME: Byte := 0x02
  const MSG_ERROR: Byte := 0xFF
  const MAX_PAYLOAD_LEN := 32 * 1024 * 1024

  /** The four message kinds whose payload is JSON. */
  datatype Kind = Sources | Select | Cameras | SelectCamera

  function KindByte(k: Kind): Byte {
    match k
    case Sources => 0x03
    case Select => 0x04
    case Cameras => 0x05
    case SelectCamera => 0x06
  }

  function KindOf(b: Byte): Option<Kind> {
    if b == 0x03 then Some(Sources)
    else if b == 0x04 then Some(Select)
    else if b == 0x05 then Some(Cameras)
    else if b == 0x06 then Some(SelectCamera)
    else None
  }

  /** A message; `J` is a JSON value and `T` a text. */
  datatype Msg<J, T> =
    | Format(width: U32, height: U32)
    | Frame(width: U32, height: U32, stride: U32, timestamp: I64, bgrx: Bytes)
    | Json(kind: Kind, value: J)
    | Error(message: T)

  /** How JSON values and text are turned into bytes and back. */
  datatype Codec<!J, !T> = Codec(
    toJson: (Kind, J) -> Bytes,
    fromJson: (Kind, Bytes) -> Option<J>,
    utf8: T -> Bytes,
    lossy: Bytes -> T)

  ghost predicate Faithful<J(!new), T(!new)>(c: Codec<J, T>) {
    && (forall k, v :: c.fromJson(k, c.toJson(k, v)) == Some(v))
    && (forall m :: c.lossy(c.utf8(m)) == m)
  }

  // ---------------------------------------------------------------- integers

  function U32Le(n: U32): (b: Bytes)
    ensures |b| == 4
  {
    LittleEndian(n, WORD)
  }

  function FromU32Le(b: Bytes): U32
    requires |b| == 4
  {
    Pow256Values();
    FromLittleEndianBound(b);
    FromLittleEndian(b)
  }

  lemma U32LeRoundTrip(n: U32)
    ensures FromU32Le(U32Le(n)) == n
  {
    Pow256Values();
    LittleEndianRoundTrip(n, WORD);
  }

  /** Two's complement in eight bytes. */
  function I64Le(n: I64): (b: Bytes)
    ensures |b| == 8
  {
    LittleEndian(if n < 0 then n + 0x1_0000_0000_0000_0000 else n, LONG)
  }

  function FromI64Le(b: Bytes): I64
    requires |b| == 8
  {
    Pow256Values();
    FromLittleEndianBound(b);
    var n := FromLittleEndian(b);
    if n < 0x8000_0000_0000_0000 then n else n - 0x1_0000_0000_0000_0000
  }

  lemma I64LeRoundTrip(n: I64)
    ensures FromI64Le(I64Le(n)) == n
  {
    Pow256Values();
    LittleEndianRoundTrip(if n < 0 then n + 0x1_0000_0000_0000_0000 else n, LONG);
  }

  // ---------------------------------------------------------------- encoding

  function TypeByte<J, T>(m: Msg<J, T>): Byte {
    match m
    case Format(_, _) => MSG_FORMAT
    case Frame(_, _, _, _, _) => MSG_FRAME
    case Json(k, _) => KindByte(k)
    case Error(_) => MSG_ERROR
  }

  function FrameHead(width: U32, height: U32, stride: U32, timestamp: I64): (b: Bytes)
    ensures |b| == 20
  {
    U32Le(width) + U32Le(height) + U32Le(stride) + I64Le(timestamp)
  }

  function Payload<J, T>(c: Codec<J, T>, m: Msg<J, T>): Bytes {
    match m
    case Format(w, h) => U32Le(w) + U32Le(h)
    case Frame(w, h, s, t, bgrx) => FrameHead(w, h, s, t) + bgrx
    case Json(k, v) => c.toJson(k, v)
    case Error(text) => c.utf8(text)
  }

  /** The length is cut to 32 bits before it is written. */
  function Header(b: Byte, length: nat): (h: Bytes)
    ensures |h| == 5
  {
    [b] + U32Le(length % 0x1_0000_0000)
  }

  function Encode<J, T>(c: Codec<J, T>, m: Msg<J, T>): Bytes {
    Header(TypeByte(m), |Payload(c, m)|) + Payload(c, m)
  }

  function EncodeAll<J, T>(c: Codec<J, T>, ms: seq<Msg<J, T>>): Bytes {
    if ms == [] then [] else Encode(c, ms[0]) + EncodeAll(c, ms[1..])
  }

  // ---------------------------------------------------------------- decoding

  datatype Outcome<J, T> = Got(msg: Msg<J, T>) | End | Bad

  /** The message in a complete payload. */
  function Parse<J, T>(c: Codec<J, T>, b: Byte, payload: Bytes): Outcome<J, T> {
    if b == MSG_FORMAT then
      if |payload| != 8 then Bad else Got(Format(FromU32Le(payload[0..4]), FromU32Le(payload[4..8])))
    else if b == MSG_FRAME then
      if |payload| < 20 then Bad
      else Got(Frame(FromU32Le(payload[0..4]), FromU32Le(payload[4..8]), FromU32Le(payload[8..12]),
                     FromI64Le(payload[12..20]), payload[20..]))
    else if KindOf(b).Some? then
      var v := c.fromJson(KindOf(b).value, payload);
      if v.None? then Bad else Got(Json(KindOf(b).value, v.value))
    else if b == MSG_ERROR then Got(Error(c.lossy(payload)))
    else Bad
  }

  /** What one read makes of the bytes that are left: a short header ends the stream, a short payload is an error. */
  function Read<J, T>(c: Codec<J, T>, s: Bytes): Outcome<J, T> {
    if |s| < 5 then End else
      var n := FromU32Le(s[1..5]);
      if n > MAX_PAYLOAD_LEN || 5 + n > |s| then Bad else Parse(c, s[0], s[5..5 + n])
  }

  /** How many bytes a successful read uses up. */
  function Used(s: Bytes): nat
    requires |s| >= 5
  {
    5 + FromU32Le(s[1..5])
  }

  datatype Decoded<J, T> = Decoded(msgs: seq<Msg<J, T>>, end: Outcome<J, T>)

  /** Reads until the stream ends or is found to be bad. */
  function DecodeAll<J, T>(c: Codec<J, T>, s: Bytes): Decoded<J, T>
    decreases |s|
  {
    var r := Read(c, s);
    if r.Got? then
      var rest := DecodeAll(c, s[Used(s)..]);
      Decoded([r.msg] + rest.msgs, rest.end)
    else Decoded([], r)
  }

  // ---------------------------------------------------------------- streams

  lemma Rejoin(a: Bytes, b: Bytes, c: Bytes, d: Bytes)
    ensures a + (b + c) + d == a + (b + (c + d))
  {
  }

  class Writer {
    var sent: Bytes

    constructor ()
      ensures sent == []
    {
      sent := [];
    }

    method WriteAll(b: Bytes)
      modifies this
      ensures sent == old(sent) + b
    {
      sent := sent + b;
    }

    /** A frame's header and pixels are written in two goes, so the pixels need not be copied. */
    method WriteMsg<J, T>(c: Codec<J, T>, m: Msg<J, T>)
      modifies this
      ensures sent == old(sent) + Encode(c, m)
    {
      match m
      case Frame(w, h, s, t, bgrx) =>
        var header, fields := Header(MSG_FRAME, 20 + |bgrx|), FrameHead(w, h, s, t);
        WriteAll(header + fields);
        WriteAll(bgrx);
        Rejoin(old(sent), header, fields, bgrx);
      case Format(w, h) => WriteAll(Header(MSG_FORMAT, 8) + (U32Le(w) + U32Le(h)));
      case Json(k, v) => WriteAll(Header(KindByte(k), |c.toJson(k, v)|) + c.toJson(k, v));
      case Error(text) => WriteAll(Header(MSG_ERROR, |c.utf8(text)|) + c.utf8(text));
    }
  }

  class Reader {
    const data: Bytes
    var pos: nat

    ghost predicate Valid()
      reads this
    {
      pos <= |data|
    }

    ghost function Left(): Bytes
      requires Valid()
      reads this
    {
      data[pos..]
    }

    constructor (data: Bytes)
      ensures Valid() && Left() == data
    {
      this.data := data;
      pos := 0;
      new;
      assert data[0..] == data;
    }

    /** All of the next `n` bytes, or nothing after using up what there was. */
    method ReadExact(n: nat) returns (b: Option<Bytes>)
      requires Valid()
      modifies this
      ensures Valid()
      ensures n <= |old(Left())| ==> b == Some(old(Left())[..n]) && Left() == old(Left())[n..]
      ensures n > |old(Left())| ==> b == None && Left() == []
    {
      if pos + n <= |data| {
        b := Some(data[pos..pos + n]);
        assert data[pos..pos + n] == Left()[..n] && data[pos + n..] == Left()[n..];
        pos := pos + n;
      } else {
        b := None;
        pos := |data|;
      }
    }

    method ReadMsg<J, T>(c: Codec<J, T>) returns (r: Outcome<J, T>)
      requires Valid()
      modifies this
      ensures Valid()
      ensures r == Read(c, old(Left()))
      ensures r.Got? ==> Left() == old(Left())[Used(old(Left()))..]
    {
      ghost var s := Left();
      var header := ReadExact(5);
      if header.None? {
        return End;
      }
      var b := header.value[0];
      assert header.value[1..5] == s[1..5];
      var length := FromU32Le(header.value[1..5]);
      if length > MAX_PAYLOAD_LEN {
        return Bad;
      }
      if b == MSG_FORMAT {
        if length != 8 {
          return Bad;
        }
        var buf := ReadExact(8);
        if buf.None? {
          return Bad;
        }
        assert buf.value == s[5..5 + length];
        return Got(Format(FromU32Le(buf.value[0..4]), FromU32Le(buf.value[4..8])));
      } else if b == MSG_FRAME {
        if length < 20 {
          return Bad;
        }
        var head := ReadExact(20);
        if head.None? {
          return Bad;
        }
        var body := ReadExact(length - 20);
        if body.None? {
          return Bad;
        }
        assert head.value + body.value == s[5..5 + length];
        SplitPayload(s[5..5 + length], head.value, body.value);
        return Got(Frame(FromU32Le(head.value[0..4]), FromU32Le(head.value[4..8]), FromU32Le(head.value[8..12]),
                         FromI64Le(head.value[12..20]), body.value));
      }
      if KindOf(b).None? && b != MSG_ERROR {
        return Bad;
      }
      var payload := ReadExact(length);
      if payload.None? {
        return Bad;
      }
      assert payload.value == s[5..5 + length];
      if b == MSG_ERROR {
        return Got(Error(c.lossy(payload.value)));
      }
      var v := c.fromJson(KindOf(b).value, payload.value);
      return if v.None? then Bad else Got(Json(KindOf(b).value, v.value));
    }
  }

  lemma SplitPayload(payload: Bytes, head: Bytes, body: Bytes)
    requires |head| == 20 && payload == head + body
    ensures payload[0..4] == head[0..4] && payload[4..8] == head[4..8] && payload[8..12] == head[8..12]
    ensures payload[12..20] == head[12..20] && payload[20..] == body
  {
  }

  // ---------------------------------------------------------------- round trips

  predicate Fits<J, T>(c: Codec<J, T>, m: Msg<J, T>) {
    |Payload(c, m)| <= MAX_PAYLOAD_LEN
  }

  lemma FrameHeadFields(w: U32, h: U32, s: U32, t: I64)
    ensures FrameHead(w, h, s, t)[0..4] == U32Le(w) && FrameHead(w, h, s, t)[4..8] == U32Le(h)
    ensures FrameHead(w, h, s, t)[8..12] == U32Le(s) && FrameHead(w, h, s, t)[12..20] == I64Le(t)
  {
    FourParts(U32Le(w), U32Le(h), U32Le(s), I64Le(t));
  }

  lemma FourParts(a: Bytes, b: Bytes, c: Bytes, d: Bytes)
    requires |a| == 4 && |b| == 4 && |c| == 4 && |d| == 8
    ensures var all := a + b + c + d;
            all[0..4] == a && all[4..8] == b && all[8..12] == c && all[12..20] == d
  {
  }

  lemma ParseRoundTrip<J(!new), T(!new)>(c: Codec<J, T>, m: Msg<J, T>)
    requires Faithful(c)
    ensures Parse(c, TypeByte(m), Payload(c, m)) == Got(m)
  {
    match m
    case Format(w, h) =>
      var p := Payload(c, m);
      assert p[0..4] == U32Le(w) && p[4..8] == U32Le(h);
      U32LeRoundTrip(w);
      U32LeRoundTrip(h);
    case Frame(w, h, s, t, bgrx) =>
      SplitPayload(Payload(c, m), FrameHead(w, h, s, t), bgrx);
      FrameHeadFields(w, h, s, t);
      U32LeRoundTrip(w);
      U32LeRoundTrip(h);
      U32LeRoundTrip(s);
      I64LeRoundTrip(t);
    case Json(k, v) =>
      assert KindOf(KindByte(k)) == Some(k);
    case Error(text) =>
  }

  lemma FromU32LeRoundTrip(b: Bytes)
    requires |b| == 4
    ensures U32Le(FromU32Le(b)) == b
  {
    FromLittleEndianRoundTrip(b);
  }

  lemma FromI64LeRoundTrip(b: Bytes)
    requires |b| == 8
    ensures I64Le(FromI64Le(b)) == b
  {
    Pow256Values();
    FromLittleEndianBound(b);
    FromLittleEndianRoundTrip(b);
  }

  /** The bytes stand for the message. */
  predicate StandsFor<J(==), T(==)>(c: Codec<J, T>, m: Msg<J, T>, p: Bytes) {
    match m
    case Json(k, v) => c.fromJson(k, p) == Some(v)
    case Error(text) => c.lossy(p) == text
    case _ => p == Payload(c, m)
  }

  lemma ParsedFormat<J, T>(c: Codec<J, T>, p: Bytes, m: Msg<J, T>)
    ensures Parse(c, MSG_FORMAT, p) == Got(m) <==> m.Format? && p == Payload(c, m)
  {
    if |p| == 8 {
      FromU32LeRoundTrip(p[0..4]);
      FromU32LeRoundTrip(p[4..8]);
      assert p == p[0..4] + p[4..8];
    }
    if m.Format? {
      var q := Payload(c, m);
      assert q[0..4] == U32Le(m.width) && q[4..8] == U32Le(m.height);
      U32LeRoundTrip(m.width);
      U32LeRoundTrip(m.height);
    }
  }

  lemma FrameOfParts<J, T>(c: Codec<J, T>, p: Bytes, m: Msg<J, T>)
    requires |p| >= 20 && Parse(c, MSG_FRAME, p) == Got(m)
    ensures m.Frame? && p == Payload(c, m)
  {
    FromU32LeRoundTrip(p[0..4]);
    FromU32LeRoundTrip(p[4..8]);
    FromU32LeRoundTrip(p[8..12]);
    FromI64LeRoundTrip(p[12..20]);
    assert p == p[0..4] + p[4..8] + p[8..12] + p[12..20] + p[20..];
  }

  lemma ParsedFrame<J, T>(c: Codec<J, T>, p: Bytes, m: Msg<J, T>)
    ensures Parse(c, MSG_FRAME, p) == Got(m) <==> m.Frame? && p == Payload(c, m)
  {
    if |p| >= 20 && Parse(c, MSG_FRAME, p) == Got(m) {
      FrameOfParts(c, p, m);
    }
    if m.Frame? && p == Payload(c, m) {
      SplitPayload(p, FrameHead(m.width, m.height, m.stride, m.timestamp), m.bgrx);
      FrameHeadFields(m.width, m.height, m.stride, m.timestamp);
      U32LeRoundTrip(m.width);
      U32LeRoundTrip(m.height);
      U32LeRoundTrip(m.stride);
      I64LeRoundTrip(m.timestamp);
    }
  }

  lemma ParseIsExact<J, T>(c: Codec<J, T>, b: Byte, p: Bytes, m: Msg<J, T>)
    ensures Parse(c, b, p) == Got(m) <==> b == TypeByte(m) && StandsFor(c, m, p)
  {
    ParsedFormat(c, p, m);
    ParsedFrame(c, p, m);
    assert m.Json? ==> KindOf(KindByte(m.kind)) == Some(m.kind);
    assert KindOf(b).Some? ==> KindByte(KindOf(b).value) == b;
  }

  /**
   * A read gives a message exactly when the stream begins with that message's type, a length
   * within the cap, and that many bytes that stand for it; it ends cleanly exactly when less than
   * a header is left.  Everything else, unknown types included, is an error.
   */
  lemma ReadIsExact<J, T>(c: Codec<J, T>, s: Bytes, m: Msg<J, T>)
    ensures Read(c, s) == Got(m) <==>
            exists n: nat ::
              && n <= MAX_PAYLOAD_LEN && 5 + n <= |s|
              && s[..5] == [TypeByte(m)] + U32Le(n) && StandsFor(c, m, s[5..5 + n])
    ensures Read(c, s) == End <==> |s| < 5
  {
    if |s| >= 5 {
      var k := FromU32Le(s[1..5]);
      FromU32LeRoundTrip(s[1..5]);
      assert s[..5] == [s[0]] + U32Le(k);
      if k <= MAX_PAYLOAD_LEN && 5 + k <= |s| {
        ParseIsExact(c, s[0], s[5..5 + k], m);
      }
      forall n: nat | n <= MAX_PAYLOAD_LEN && s[..5] == [TypeByte(m)] + U32Le(n)
        ensures n == k && s[0] == TypeByte(m)
      {
        assert s[..5][0] == TypeByte(m);
        assert s[1..5] == s[..5][1..] == U32Le(n);
        U32LeRoundTrip(n);
      }
    }
  }

  lemma HeaderFields(b: Byte, length: nat, rest: Bytes)
    ensures var s := Header(b, length) + rest;
            |s| >= 5 && s[0] == b && FromU32Le(s[1..5]) == length % 0x1_0000_0000
  {
    var s := Header(b, length) + rest;
    assert s[1..5] == U32Le(length % 0x1_0000_0000);
    U32LeRoundTrip(length % 0x1_0000_0000);
  }

  lemma Slices(h: Bytes, p: Bytes, rest: Bytes, n: nat)
    requires n <= |p|
    ensures h + p + rest == h + (p + rest)
    ensures (h + p + rest)[|h|..|h| + n] == p[..n]
    ensures (h + p + rest)[|h + p|..] == rest
  {
  }

  /** What a read makes of any payload behind its own header: as many of its bytes as the cut length says. */
  lemma ReadFramed<J, T>(c: Codec<J, T>, b: Byte, p: Bytes, rest: Bytes, s: Bytes, n: nat)
    requires s == Header(b, |p|) + p + rest && n == |p| % 0x1_0000_0000
    ensures |s| >= 5 && Used(s) == 5 + n
    ensures Read(c, s) == if n > MAX_PAYLOAD_LEN then Bad else Parse(c, b, p[..n])
  {
    Slices(Header(b, |p|), p, rest, n);
    HeaderFields(b, |p|, p + rest);
  }

  /** A message within the cap is read back, and exactly its own bytes are used. */
  lemma ReadRoundTrip<J(!new), T(!new)>(c: Codec<J, T>, m: Msg<J, T>, rest: Bytes)
    requires Faithful(c) && Fits(c, m)
    ensures Read(c, Encode(c, m) + rest) == Got(m)
    ensures Used(Encode(c, m) + rest) == |Encode(c, m)|
    ensures (Encode(c, m) + rest)[|Encode(c, m)|..] == rest
  {
    var p := Payload(c, m);
    ReadFramed(c, TypeByte(m), p, rest, Encode(c, m) + rest, |p|);
    assert p[..|p|] == p;
    ParseRoundTrip(c, m);
  }

  /**
   * Any message is read back exactly when it is within the cap, or is 2^32 bytes or longer and the
   * bytes that its cut length keeps parse as the same message.
   */
  lemma ReadBackExactly<J(!new), T(!new)>(c: Codec<J, T>, m: Msg<J, T>, rest: Bytes)
    requires Faithful(c)
    ensures var p := Payload(c, m);
            var n := |p| % 0x1_0000_0000;
            Read(c, Encode(c, m) + rest) == Got(m) <==>
            Fits(c, m) || (n < |p| && n <= MAX_PAYLOAD_LEN && Parse(c, TypeByte(m), p[..n]) == Got(m))
  {
    var p := Payload(c, m);
    if Fits(c, m) {
      ReadRoundTrip(c, m, rest);
    } else {
      ReadFramed(c, TypeByte(m), p, rest, Encode(c, m) + rest, |p| % 0x1_0000_0000);
    }
  }

  /** A frame past the cap never comes back: it is refused, or its cut length yields other pixels. */
  lemma OversizedFrameIsLost<J(!new), T(!new)>(c: Codec<J, T>, m: Msg<J, T>, rest: Bytes)
    requires Faithful(c) && m.Frame?
    ensures Read(c, Encode(c, m) + rest) == Got(m) <==> Fits(c, m)
  {
    ReadBackExactly(c, m, rest);
    var p := Payload(c, m);
    var n := |p| % 0x1_0000_0000;
    if 20 <= n < |p| {
      assert |p[..n][20..]| == n - 20 < |m.bgrx|;
    }
  }

  /** No proper prefix of an encoding decodes to the same value. */
  ghost predicate Tight<J(!new), T(!new)>(c: Codec<J, T>) {
    && (forall k, v, n :: 0 <= n < |c.toJson(k, v)| ==> c.fromJson(k, c.toJson(k, v)[..n]) != Some(v))
    && (forall m, n :: 0 <= n < |c.utf8(m)| ==> c.lossy(c.utf8(m)[..n]) != m)
  }

  /** Under such encodings any message is read back exactly when it is within the cap. */
  lemma OversizedIsLost<J(!new), T(!new)>(c: Codec<J, T>, m: Msg<J, T>, rest: Bytes)
    requires Faithful(c) && Tight(c)
    ensures Read(c, Encode(c, m) + rest) == Got(m) <==> Fits(c, m)
  {
    if m.Frame? {
      OversizedFrameIsLost(c, m, rest);
    } else {
      ReadBackExactly(c, m, rest);
      assert m.Json? ==> KindOf(KindByte(m.kind)) == Some(m.kind);
    }
  }

  ghost predicate AllFit<J, T>(c: Codec<J, T>, ms: seq<Msg<J, T>>) {
    forall i :: 0 <= i < |ms| ==> Fits(c, ms[i])
  }

  lemma Assoc<X>(a: seq<X>, b: seq<X>, c: seq<X>)
    ensures a + b + c == a + (b + c)
  {
  }

  /** One whole message in front of a stream adds itself to what is decoded. */
  lemma DecodeOne<J(!new), T(!new)>(c: Codec<J, T>, m: Msg<J, T>, e: Bytes, rest: Bytes, d: Decoded<J, T>)
    requires Faithful(c) && Fits(c, m) && e == Encode(c, m) && d == DecodeAll(c, rest)
    ensures DecodeAll(c, e + rest) == Decoded([m] + d.msgs, d.end)
  {
    ReadRoundTrip(c, m, rest);
  }

  lemma Uncons<J, T>(c: Codec<J, T>, ms: seq<Msg<J, T>>, m: Msg<J, T>, tail: seq<Msg<J, T>>, all: Bytes, e: Bytes,
                     more: Bytes)
    requires ms != [] && m == ms[0] && tail == ms[1..] && all == EncodeAll(c, ms)
    requires e == Encode(c, m) && more == EncodeAll(c, tail)
    ensures ms == [m] + tail && all == e + more
  {
  }

  lemma DecodeNext<J(!new), T(!new)>(c: Codec<J, T>, m: Msg<J, T>, tail: seq<Msg<J, T>>, e: Bytes, more: Bytes,
                                     rest: Bytes, d: Decoded<J, T>)
    requires Faithful(c) && Fits(c, m) && e == Encode(c, m)
    requires DecodeAll(c, more + rest) == Decoded(tail + d.msgs, d.end)
    ensures DecodeAll(c, e + more + rest) == Decoded([m] + tail + d.msgs, d.end)
  {
    DecodeOne(c, m, e, more + rest, Decoded(tail + d.msgs, d.end));
    Assoc(e, more, rest);
    Assoc([m], tail, d.msgs);
  }

  /** Whole messages in front of any bytes are decoded exactly, and then the bytes as on their own. */
  lemma {:induction false} DecodeMany<J(!new), T(!new)>(c: Codec<J, T>, ms: seq<Msg<J, T>>, all: Bytes, rest: Bytes,
                                                        d: Decoded<J, T>)
    requires Faithful(c) && AllFit(c, ms) && all == EncodeAll(c, ms) && d == DecodeAll(c, rest)
    ensures DecodeAll(c, all + rest) == Decoded(ms + d.msgs, d.end)
    decreases |ms|
  {
    if ms == [] {
      assert all + rest == rest;
      assert ms + d.msgs == d.msgs;
    } else {
      var m, tail, e, more := ms[0], ms[1..], Encode(c, ms[0]), EncodeAll(c, ms[1..]);
      Uncons(c, ms, m, tail, all, e, more);
      DecodeMany(c, tail, more, rest, d);
      DecodeNext(c, m, tail, e, more, rest, d);
    }
  }

  /** Decoding a concatenation of encodings gives back exactly the messages, then a clean end. */
  lemma StreamRoundTrip<J(!new), T(!new)>(c: Codec<J, T>, ms: seq<Msg<J, T>>)
    requires Faithful(c) && AllFit(c, ms)
    ensures DecodeAll(c, EncodeAll(c, ms)) == Decoded(ms, End)
  {
    var all := EncodeAll(c, ms);
    DecodeMany(c, ms, all, [], Decoded([], End));
    assert all + [] == all && ms + [] == ms;
  }

  /** A 32-bit number in bytes, least significant first. */
  lemma U32Layout(n: U32)
    ensures U32Le(n) == [n % 256, n / 256 % 256, n / 65536 % 256, n / 16777216 % 256]
  {
    assert n / 256 / 256 == n / 65536 && n / 65536 / 256 == n / 16777216;
    assert LittleEndian(n / 16777216, 1) == [n / 16777216 % 256];
    assert LittleEndian(n / 65536, 2) == [n / 65536 % 256] + LittleEndian(n / 16777216, 1);
    assert LittleEndian(n / 256, 3) == [n / 256 % 256] + LittleEndian(n / 65536, 2);
  }

  lemma Thirteen(b: Byte, n: Bytes, w: Bytes, h: Bytes)
    requires |n| == 4 && |w| == 4 && |h| == 4
    ensures [b] + n + (w + h) == [b, n[0], n[1], n[2], n[3], w[0], w[1], w[2], w[3], h[0], h[1], h[2], h[3]]
  {
  }

  /** The bytes of a format message on the wire. */
  lemma FormatLayout<J, T>(c: Codec<J, T>, w: U32, h: U32)
    ensures Encode(c, Msg<J, T>.Format(w, h)) ==
            [0x01, 8, 0, 0, 0, w % 256, w / 256 % 256, w / 65536 % 256, w / 16777216 % 256,
             h % 256, h / 256 % 256, h / 65536 % 256, h / 16777216 % 256]
  {
    U32Layout(8);
    U32Layout(w);
    U32Layout(h);
    Thirteen(0x01, U32Le(8), U32Le(w), U32Le(h));
  }

  /** How many messages lie whole within the first `k` bytes. */
  function Whole<J, T>(c: Codec<J, T>, ms: seq<Msg<J, T>>, k: nat): (n: nat)
    ensures n <= |ms|
  {
    if ms == [] || k < |Encode(c, ms[0])| then 0 else 1 + Whole(c, ms[1..], k - |Encode(c, ms[0])|)
  }

  /** How many bytes are left over after them. */
  function Leftover<J, T>(c: Codec<J, T>, ms: seq<Msg<J, T>>, k: nat): nat {
    if ms == [] || k < |Encode(c, ms[0])| then k else Leftover(c, ms[1..], k - |Encode(c, ms[0])|)
  }

  lemma TakeCons<X>(s: seq<X>, n: nat)
    requires n < |s|
    ensures s[..n + 1] == [s[0]] + s[1..][..n]
    ensures n + 1 < |s| ==> s[n + 1] == s[1..][n]
  {
  }

  lemma EncodeAllCons<J, T>(c: Codec<J, T>, m: Msg<J, T>, tail: seq<Msg<J, T>>)
    ensures EncodeAll(c, [m] + tail) == Encode(c, m) + EncodeAll(c, tail)
  {
    assert ([m] + tail)[1..] == tail;
  }

  lemma WholeOnce<J, T>(c: Codec<J, T>, ms: seq<Msg<J, T>>, k: nat, m: Msg<J, T>, tail: seq<Msg<J, T>>, k': nat)
    requires ms != [] && m == ms[0] && tail == ms[1..] && k == |Encode(c, m)| + k'
    ensures Whole(c, ms, k) == 1 + Whole(c, tail, k') && Leftover(c, ms, k) == Leftover(c, tail, k')
    ensures EncodeAll(c, ms) == Encode(c, m) + EncodeAll(c, tail)
  {
  }

  lemma WholeNone<J, T>(c: Codec<J, T>, ms: seq<Msg<J, T>>, k: nat)
    requires ms == [] || k < |Encode(c, ms[0])|
    ensures Whole(c, ms, k) == 0 && Leftover(c, ms, k) == k && EncodeAll(c, ms[..0]) == []
  {
  }

  lemma FrontLonger<J, T>(c: Codec<J, T>, ms: seq<Msg<J, T>>, m: Msg<J, T>, tail: seq<Msg<J, T>>, n: nat,
                          front: seq<Msg<J, T>>, rest: seq<Msg<J, T>>)
    requires n < |ms| && m == ms[0] && tail == ms[1..] && front == ms[..n + 1] && rest == tail[..n]
    ensures |EncodeAll(c, front)| == |Encode(c, m)| + |EncodeAll(c, rest)|
    ensures n + 1 < |ms| ==> ms[n + 1] == tail[n]
  {
    TakeCons(ms, n);
    EncodeAllCons(c, m, rest);
  }

  /** `front` is the first `n` messages, `left` bytes of the next one follow, and it is not whole. */
  ghost predicate CutAt<J, T>(c: Codec<J, T>, ms: seq<Msg<J, T>>, k: nat, n: nat, left: nat, front: seq<Msg<J, T>>) {
    && n <= |ms| && front == ms[..n] && |EncodeAll(c, front)| + left == k
    && if n < |ms| then left < |Encode(c, ms[n])| else left == 0
  }

  lemma CutAtNext<J, T>(c: Codec<J, T>, ms: seq<Msg<J, T>>, m: Msg<J, T>, tail: seq<Msg<J, T>>, k: nat, k': nat, n: nat,
                        left: nat, front: seq<Msg<J, T>>, rest: seq<Msg<J, T>>)
    requires n < |ms| && m == ms[0] && tail == ms[1..] && front == ms[..n + 1] && k == |Encode(c, m)| + k'
    requires CutAt(c, tail, k', n, left, rest)
    ensures CutAt(c, ms, k, n + 1, left, front)
  {
    FrontLonger(c, ms, m, tail, n, front, rest);
  }

  /** The whole messages and the leftover make up the cut, and no further message is whole. */
  lemma {:induction false} WholeIsExact<J, T>(c: Codec<J, T>, ms: seq<Msg<J, T>>, k: nat, n: nat, left: nat,
                                              front: seq<Msg<J, T>>)
    requires k <= |EncodeAll(c, ms)| && n == Whole(c, ms, k) && left == Leftover(c, ms, k) && front == ms[..n]
    ensures CutAt(c, ms, k, n, left, front)
  {
    if ms == [] || k < |Encode(c, ms[0])| {
      WholeNone(c, ms, k);
    } else {
      var m, tail := ms[0], ms[1..];
      var k': nat := k - |Encode(c, m)|;
      WholeOnce(c, ms, k, m, tail, k');
      WholeIsExact(c, tail, k', n - 1, left, tail[..n - 1]);
      CutAtNext(c, ms, m, tail, k, k', n - 1, left, front, tail[..n - 1]);
    }
  }

  lemma CutMessage<J(!new), T(!new)>(c: Codec<J, T>, m: Msg<J, T>, s: Bytes)
    requires Fits(c, m) && s < Encode(c, m)
    ensures Read(c, s) == if |s| < 5 then End else Bad
  {
    if |s| >= 5 {
      var p := Payload(c, m);
      HeaderFields(TypeByte(m), |p|, p);
      assert s[1..5] == Encode(c, m)[1..5];
    }
  }

  lemma {:induction false} EncodeAllJoin<J, T>(c: Codec<J, T>, front: seq<Msg<J, T>>, back: seq<Msg<J, T>>)
    ensures EncodeAll(c, front + back) == EncodeAll(c, front) + EncodeAll(c, back)
  {
    if front == [] {
      assert front + back == back;
    } else {
      var m, tail := front[0], front[1..];
      EncodeAllJoin(c, tail, back);
      assert front == [m] + tail;
      Assoc([m], tail, back);
      EncodeAllCons(c, m, tail + back);
      Assoc(Encode(c, m), EncodeAll(c, tail), EncodeAll(c, back));
    }
  }

  lemma SplitAt<X>(s: seq<X>, n: nat)
    requires n < |s|
    ensures s == s[..n] + ([s[n]] + s[n + 1..])
  {
  }

  lemma TakeJoin(f: Bytes, e: Bytes, rest: Bytes, k: nat, left: nat)
    requires k == |f| + left && left <= |e|
    ensures (f + (e + rest))[..k] == f + e[..left]
  {
  }

  /** A cut stream is its whole messages followed by the start of the next one. */
  lemma CutSplits<J, T>(c: Codec<J, T>, ms: seq<Msg<J, T>>, k: nat, n: nat, left: nat)
    requires k <= |EncodeAll(c, ms)| && n == Whole(c, ms, k) && left == Leftover(c, ms, k)
    ensures if n == |ms| then EncodeAll(c, ms)[..k] == EncodeAll(c, ms[..n])
            else left < |Encode(c, ms[n])| && EncodeAll(c, ms)[..k] == EncodeAll(c, ms[..n]) + Encode(c, ms[n])[..left]
  {
    WholeIsExact(c, ms, k, n, left, ms[..n]);
    if n < |ms| {
      var front, m, back := ms[..n], ms[n], ms[n + 1..];
      SplitAt(ms, n);
      EncodeAllJoin(c, front, [m] + back);
      EncodeAllCons(c, m, back);
      TakeJoin(EncodeAll(c, front), Encode(c, m), EncodeAll(c, back), k, left);
    } else {
      assert ms[..n] == ms;
    }
  }

  /** Whole messages followed by bytes that hold no message. */
  lemma DecodeThenStop<J(!new), T(!new)>(c: Codec<J, T>, front: seq<Msg<J, T>>, rest: Bytes)
    requires Faithful(c) && AllFit(c, front) && !Read(c, rest).Got?
    ensures DecodeAll(c, EncodeAll(c, front) + rest) == Decoded(front, Read(c, rest))
  {
    DecodeMany(c, front, EncodeAll(c, front), rest, Decoded([], Read(c, rest)));
    assert front + [] == front;
  }

  /**
   * A stream cut anywhere yields exactly the messages that are whole, never an invented one; it
   * ends cleanly when the cut falls at or inside a header and in an error inside a payload.
   */
  lemma CutStream<J(!new), T(!new)>(c: Codec<J, T>, ms: seq<Msg<J, T>>, k: nat)
    requires Faithful(c) && AllFit(c, ms) && k <= |EncodeAll(c, ms)|
    ensures DecodeAll(c, EncodeAll(c, ms)[..k]) ==
            Decoded(ms[..Whole(c, ms, k)], if Leftover(c, ms, k) < 5 then End else Bad)
  {
    var n, left := Whole(c, ms, k), Leftover(c, ms, k);
    var front := ms[..n];
    CutSplits(c, ms, k, n, left);
    WholeIsExact(c, ms, k, n, left, front);
    if n == |ms| {
      DecodeThenStop(c, front, []);
      assert EncodeAll(c, front) + [] == EncodeAll(c, front);
    } else {
      var rest := Encode(c, ms[n])[..left];
      CutMessage(c, ms[n], rest);
      DecodeThenStop(c, front, rest);
    }
  }
}
