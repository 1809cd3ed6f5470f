/** The camera helper: packed 4:2:2 pixels converted in place to BGRx, and the loop that emits frames. */
module Camera {
  import opened Common

  type Bytes = seq<Byte>

  function Clamp(n: int): Byte {
    if n < 0 then 0 else if n > 255 then 255 else n
  }

  /** BT.601 limited range in integers; shifting right by eight is division rounding down. */
  function Red(y: Byte, v: Byte): Byte {
    Clamp((298 * (y - 16) + 409 * (v - 128) + 128) / 256)
  }

  function Green(y: Byte, u: Byte, v: Byte): Byte {
    Clamp((298 * (y - 16) - 100 * (u - 128) - 208 * (v - 128) + 128) / 256)
  }

  function Blue(y: Byte, u: Byte): Byte {
    Clamp((298 * (y - 16) + 516 * (u - 128) + 128) / 256)
  }

  predicate IsI32(n: int) {
    -0x8000_0000 <= n < 0x8000_0000
  }

  /** No intermediate of the conversion leaves the 32-bit range. */
  lemma NoOverflow(y: Byte, u: Byte, v: Byte)
    ensures var c, d, e := y - 16, u - 128, v - 128;
            && IsI32(298 * c) && IsI32(409 * e) && IsI32(298 * c + 409 * e) && IsI32(298 * c + 409 * e + 128)
            && IsI32(100 * d) && IsI32(208 * e) && IsI32(298 * c - 100 * d) && IsI32(298 * c - 100 * d - 208 * e)
            && IsI32(298 * c - 100 * d - 208 * e + 128)
            && IsI32(516 * d) && IsI32(298 * c + 516 * d) && IsI32(298 * c + 516 * d + 128)
  {
  }

  /** Grey in, grey out; the limits of the range are black and white. */
  lemma GreyAxis(y: Byte)
    ensures Red(y, 128) == Green(y, 128, 128) == Blue(y, 128)
    ensures y <= 16 ==> Red(y, 128) == 0
    ensures y >= 235 ==> Red(y, 128) == 255
  {
  }

  /** A channel is the nearest whole number to a fixed-point value in 256ths, held within a byte. */
  ghost predicate NearestByte(channel: Byte, value: int) {
    && (channel < 255 ==> value <= 256 * channel + 128)
    && (channel > 0 ==> value >= 256 * channel - 128)
  }

  /** The three channels round the fixed-point conversion, without a carry into a neighbouring value. */
  lemma ChannelsRound(y: Byte, u: Byte, v: Byte)
    ensures NearestByte(Red(y, v), 298 * (y - 16) + 409 * (v - 128))
    ensures NearestByte(Green(y, u, v), 298 * (y - 16) - 100 * (u - 128) - 208 * (v - 128))
    ensures NearestByte(Blue(y, u), 298 * (y - 16) + 516 * (u - 128))
  {
  }

  function ClampReal(x: real): real {
    if x < 0.0 then 0.0 else if x > 255.0 then 255.0 else x
  }

  ghost predicate Within(n: int, x: real) {
    -0.8 < n as real - x < 0.8
  }

  ghost predicate Near(value: int, x: real) {
    -0.3 < value as real / 256.0 - x < 0.3
  }

  lemma NearChannel(channel: Byte, value: int, x: real)
    requires NearestByte(channel, value) && Near(value, x)
    ensures Within(channel, ClampReal(x))
  {
    var v := value as real / 256.0;
    assert channel < 255 ==> v <= channel as real + 0.5;
    assert channel > 0 ==> v >= channel as real - 0.5;
  }

  lemma NearRed(c: int, e: int)
    requires -16 <= c <= 239 && -128 <= e <= 127
    ensures Near(298 * c + 409 * e, 1.164383 * c as real + 1.596027 * e as real)
  {
  }

  lemma NearGreen(c: int, d: int, e: int)
    requires -16 <= c <= 239 && -128 <= d <= 127 && -128 <= e <= 127
    ensures Near(298 * c - 100 * d - 208 * e, 1.164383 * c as real - 0.391762 * d as real - 0.812968 * e as real)
  {
  }

  lemma NearBlue(c: int, d: int)
    requires -16 <= c <= 239 && -128 <= d <= 127
    ensures Near(298 * c + 516 * d, 1.164383 * c as real + 2.017232 * d as real)
  {
  }

  lemma RedWithin(red: Byte, c: int, e: int)
    requires -16 <= c <= 239 && -128 <= e <= 127 && NearestByte(red, 298 * c + 409 * e)
    ensures Within(red, ClampReal(1.164383 * c as real + 1.596027 * e as real))
  {
    NearRed(c, e);
    NearChannel(red, 298 * c + 409 * e, 1.164383 * c as real + 1.596027 * e as real);
  }

  lemma GreenWithin(green: Byte, c: int, d: int, e: int)
    requires -16 <= c <= 239 && -128 <= d <= 127 && -128 <= e <= 127
    requires NearestByte(green, 298 * c - 100 * d - 208 * e)
    ensures Within(green, ClampReal(1.164383 * c as real - 0.391762 * d as real - 0.812968 * e as real))
  {
    NearGreen(c, d, e);
    NearChannel(green, 298 * c - 100 * d - 208 * e,
                1.164383 * c as real - 0.391762 * d as real - 0.812968 * e as real);
  }

  lemma BlueWithin(blue: Byte, c: int, d: int)
    requires -16 <= c <= 239 && -128 <= d <= 127 && NearestByte(blue, 298 * c + 516 * d)
    ensures Within(blue, ClampReal(1.164383 * c as real + 2.017232 * d as real))
  {
    NearBlue(c, d);
    NearChannel(blue, 298 * c + 516 * d, 1.164383 * c as real + 2.017232 * d as real);
  }

  lemma ChannelsWithin(red: Byte, green: Byte, blue: Byte, c: int, d: int, e: int)
    requires -16 <= c <= 239 && -128 <= d <= 127 && -128 <= e <= 127
    requires NearestByte(red, 298 * c + 409 * e)
    requires NearestByte(green, 298 * c - 100 * d - 208 * e)
    requires NearestByte(blue, 298 * c + 516 * d)
    ensures Within(red, ClampReal(1.164383 * c as real + 1.596027 * e as real))
    ensures Within(green, ClampReal(1.164383 * c as real - 0.391762 * d as real - 0.812968 * e as real))
    ensures Within(blue, ClampReal(1.164383 * c as real + 2.017232 * d as real))
  {
    RedWithin(red, c, e);
    GreenWithin(green, c, d, e);
    BlueWithin(blue, c, d);
  }

  /** Each channel is within one of the BT.601 conversion over the reals, clamped to a byte. */
  lemma NearBt601(y: Byte, u: Byte, v: Byte)
    ensures var c, d, e := y - 16, u - 128, v - 128;
            && Within(Red(y, v), ClampReal(1.164383 * c as real + 1.596027 * e as real))
            && Within(Green(y, u, v), ClampReal(1.164383 * c as real - 0.391762 * d as real - 0.812968 * e as real))
            && Within(Blue(y, u), ClampReal(1.164383 * c as real + 2.017232 * d as real))
  {
    ChannelsRound(y, u, v);
    ChannelsWithin(Red(y, v), Green(y, u, v), Blue(y, u), y - 16, u - 128, v - 128);
  }

  /** The four destination bytes at `off` are the pixel of these samples. */
  predicate PixelIs(s: Bytes, off: nat, y: Byte, u: Byte, v: Byte) {
    && off + 4 <= |s| && s[off] == Blue(y, u) && s[off + 1] == Green(y, u, v)
    && s[off + 2] == Red(y, v) && s[off + 3] == 255
  }

  method WriteBgrx(dst: array<Byte>, off: nat, y: Byte, u: Byte, v: Byte)
    requires off + 4 <= dst.Length
    modifies dst
    ensures PixelIs(dst[..], off, y, u, v)
    ensures forall k :: 0 <= k < dst.Length && !(off <= k < off + 4) ==> dst[k] == old(dst[k])
  {
    var c, d, e := y - 16, u - 128, v - 128;
    var r := Clamp((298 * c + 409 * e + 128) / 256);
    var g := Clamp((298 * c - 100 * d - 208 * e + 128) / 256);
    var b := Clamp((298 * c + 516 * d + 128) / 256);
    dst[off] := b;
    dst[off + 1] := g;
    dst[off + 2] := r;
    dst[off + 3] := 255;
  }

  // ---------------------------------------------------------------- one row

  /** Pixels of a row that belong to a pair; an odd last column is left out. */
  function Paired(w: nat): nat {
    2 * (w / 2)
  }

  /** Column `x` of a row: its own Y and the U and V its pair shares. */
  predicate ColumnIs(src: Bytes, s: nat, after: Bytes, d: nat, x: nat) {
    && s + 4 * (x / 2) + 4 <= |src|
    && PixelIs(after, d + 4 * x, src[s + 2 * x], src[s + 4 * (x / 2) + 1], src[s + 4 * (x / 2) + 3])
  }

  predicate RowIs(src: Bytes, s: nat, after: Bytes, d: nat, n: nat) {
    forall x :: 0 <= x < n ==> ColumnIs(src, s, after, d, x)
  }

  /** Outside the `n` converted pixels at `d` nothing changed. */
  predicate OnlyRow(before: Bytes, after: Bytes, d: nat, n: nat) {
    |before| == |after| && forall k :: 0 <= k < |before| && !(d <= k < d + 4 * n) ==> after[k] == before[k]
  }

  lemma ColumnKept(src: Bytes, s: nat, a: Bytes, b: Bytes, d: nat, x: nat)
    requires ColumnIs(src, s, a, d, x) && |a| == |b|
    requires forall k :: d + 4 * x <= k < d + 4 * x + 4 ==> b[k] == a[k]
    ensures ColumnIs(src, s, b, d, x)
  {
  }

  lemma ColumnOfPair(src: Bytes, s: nat, after: Bytes, d: nat, e: nat, x: nat)
    requires e % 2 == 0 && e <= x <= e + 1 && s + 2 * e + 4 <= |src|
    requires PixelIs(after, d + 4 * x, src[s + 2 * x], src[s + 2 * e + 1], src[s + 2 * e + 3])
    ensures ColumnIs(src, s, after, d, x)
  {
    var m := e / 2;
    assert e == 2 * m && x / 2 == m;
    assert 4 * (x / 2) == 2 * e;
  }

  lemma ColumnsKept(src: Bytes, s: nat, a: Bytes, b: Bytes, d: nat, n: nat)
    requires RowIs(src, s, a, d, n) && |a| == |b|
    requires forall k :: 0 <= k < |a| && k < d + 4 * n ==> b[k] == a[k]
    ensures RowIs(src, s, b, d, n)
  {
    forall x | 0 <= x < n
      ensures ColumnIs(src, s, b, d, x)
    {
      assert ColumnIs(src, s, a, d, x);
      ColumnKept(src, s, a, b, d, x);
    }
  }

  method ConvertPair(src: Bytes, s: nat, dst: array<Byte>, d: nat, x: nat)
    requires x % 2 == 0 && s + 2 * x + 4 <= |src| && d + 4 * x + 8 <= dst.Length
    requires RowIs(src, s, dst[..], d, x)
    modifies dst
    ensures RowIs(src, s, dst[..], d, x + 2)
    ensures forall k :: 0 <= k < dst.Length && !(d + 4 * x <= k < d + 4 * x + 8) ==> dst[k] == old(dst[k])
  {
    ghost var before := dst[..];
    var y0, u, y1, v := src[s + 2 * x], src[s + 2 * x + 1], src[s + 2 * x + 2], src[s + 2 * x + 3];
    WriteBgrx(dst, d + 4 * x, y0, u, v);
    ghost var between := dst[..];
    WriteBgrx(dst, d + 4 * (x + 1), y1, u, v);
    ghost var after := dst[..];
    ColumnOfPair(src, s, between, d, x, x);
    ColumnOfPair(src, s, after, d, x, x + 1);
    ColumnKept(src, s, between, after, d, x);
    ColumnsKept(src, s, before, after, d, x);
  }

  method ConvertRow(src: Bytes, s: nat, dst: array<Byte>, d: nat, w: nat)
    requires s + 2 * w <= |src| && d + 4 * w <= dst.Length
    modifies dst
    ensures RowIs(src, s, dst[..], d, Paired(w))
    ensures OnlyRow(old(dst[..]), dst[..], d, Paired(w))
  {
    var x: nat := 0;
    ghost var pairs: nat := 0;
    while x + 1 < w
      invariant x == 2 * pairs && pairs <= w / 2
      invariant RowIs(src, s, dst[..], d, x)
      invariant forall k :: 0 <= k < dst.Length && !(d <= k < d + 4 * x) ==> dst[k] == old(dst[k])
    {
      ConvertPair(src, s, dst, d, x);
      x, pairs := x + 2, pairs + 1;
    }
    assert x == Paired(w);
  }

  // ---------------------------------------------------------------- the frame

  lemma RowBounds(row: nat, w: nat, h: nat)
    requires row < h
    ensures row * w + w <= h * w && (row + 1) * w == row * w + w
  {
    assert (row + 1) * w <= h * w;
  }

  /** Row `row` of the frame, in a destination with four bytes a pixel. */
  predicate FrameRowIs(src: Bytes, after: Bytes, w: nat, row: nat) {
    RowIs(src, 2 * (row * w), after, 4 * (row * w), Paired(w))
  }

  /** Whether byte `k` lies in a converted pixel of row `row`. */
  predicate InRow(w: nat, row: nat, k: nat) {
    4 * (row * w) <= k < 4 * (row * w) + 4 * Paired(w)
  }

  lemma RowKept(src: Bytes, a: Bytes, b: Bytes, w: nat, i: nat, row: nat)
    requires i < row && FrameRowIs(src, a, w, i) && OnlyRow(a, b, 4 * (row * w), Paired(w))
    ensures FrameRowIs(src, b, w, i)
  {
    RowBounds(i, w, row);
    forall x | 0 <= x < Paired(w)
      ensures ColumnIs(src, 2 * (i * w), b, 4 * (i * w), x)
    {
      assert ColumnIs(src, 2 * (i * w), a, 4 * (i * w), x);
      ColumnKept(src, 2 * (i * w), a, b, 4 * (i * w), x);
    }
  }

  /**
   * Converts when both buffers are long enough and otherwise touches nothing.  Every paired
   * pixel is the formula of its own samples, and no other byte changes.
   */
  method YuyvToBgrx(src: Bytes, w: nat, h: nat, dst: array<Byte>) returns (ok: bool)
    modifies dst
    ensures ok <==> |src| >= w * h * 2 && dst.Length >= w * h * 4
    ensures !ok ==> dst[..] == old(dst[..])
    ensures ok ==> forall row :: 0 <= row < h ==> FrameRowIs(src, dst[..], w, row)
    ensures ok ==> forall k :: 0 <= k < dst.Length && (forall row :: 0 <= row < h ==> !InRow(w, row, k)) ==>
            dst[k] == old(dst[k])
  {
    if |src| < w * h * 2 || dst.Length < w * h * 4 {
      return false;
    }
    ghost var start := dst[..];
    for row := 0 to h
      invariant forall i :: 0 <= i < row ==> FrameRowIs(src, dst[..], w, i)
      invariant forall k :: 0 <= k < dst.Length && (forall i :: 0 <= i < row ==> !InRow(w, i, k)) ==> dst[k] == start[k]
    {
      RowBounds(row, w, h);
      assert h * w == w * h;
      ghost var before := dst[..];
      ConvertRow(src, 2 * (row * w), dst, 4 * (row * w), w);
      forall i | 0 <= i < row
        ensures FrameRowIs(src, dst[..], w, i)
      {
        RowKept(src, before, dst[..], w, i, row);
      }
      assert FrameRowIs(src, dst[..], w, row);
      forall k | 0 <= k < dst.Length && (forall i :: 0 <= i < row + 1 ==> !InRow(w, i, k))
        ensures dst[k] == start[k]
      {
        assert !InRow(w, row, k);
        assert dst[..][k] == before[k];
      }
    }
    ok := true;
  }

  // ---------------------------------------------------------------- no stale pixels

  /** All rows of the frame are converted and the buffer holds nothing else. */
  predicate FrameIs(src: Bytes, out: Bytes, w: nat, h: nat) {
    |out| == 4 * (w * h) && forall row :: 0 <= row < h ==> FrameRowIs(src, out, w, row)
  }

  lemma {:induction false} RowOf(w: nat, h: nat, k: nat) returns (row: nat)
    requires w % 2 == 0 && k < 4 * (w * h)
    ensures row < h && InRow(w, row, k)
    decreases h
  {
    assert h > 0;
    RowBounds(h - 1, w, h);
    assert w * h == h * w && w * (h - 1) == (h - 1) * w;
    if k >= 4 * ((h - 1) * w) {
      row := h - 1;
    } else {
      row := RowOf(w, h - 1, k);
    }
  }

  lemma SameColumn(src: Bytes, s: nat, a: Bytes, b: Bytes, d: nat, x: nat, k: nat)
    requires ColumnIs(src, s, a, d, x) && ColumnIs(src, s, b, d, x) && d + 4 * x <= k < d + 4 * x + 4
    ensures a[k] == b[k]
  {
    assert k == d + 4 * x || k == d + 4 * x + 1 || k == d + 4 * x + 2 || k == d + 4 * x + 3;
  }

  /** With an even width the reused buffer keeps nothing of earlier frames: a frame's bytes follow from its source. */
  lemma FrameDetermined(src: Bytes, a: Bytes, b: Bytes, w: nat, h: nat)
    requires w % 2 == 0 && FrameIs(src, a, w, h) && FrameIs(src, b, w, h)
    ensures a == b
  {
    forall k | 0 <= k < |a|
      ensures a[k] == b[k]
    {
      var row := RowOf(w, h, k);
      assert FrameRowIs(src, a, w, row) && FrameRowIs(src, b, w, row);
      var d := 4 * (row * w);
      var x := (k - d) / 4;
      assert ColumnIs(src, 2 * (row * w), a, d, x) && ColumnIs(src, 2 * (row * w), b, d, x);
      SameColumn(src, 2 * (row * w), a, b, d, x, k);
    }
  }

  // ---------------------------------------------------------------- the emitting loop

  datatype Out =
    | Format(width: nat, height: nat)
    | Frame(width: nat, height: nat, stride: nat, timestamp: int, bgrx: Bytes)

  /**
   * What one turn of the loop meets: the stop flag, a failing dequeue, or a buffer with the count
   * of bytes used, the time at dequeue, and whether the frame would find room in the queue.
   */
  datatype Event = Stopped | DequeueError | Dequeued(buf: Bytes, used: nat, at: int, room: bool)

  /** How the loop stands after the events so far. */
  datatype Ending = Running | Finished | Failed

  /** The driver's count is not trusted past the end of the buffer. */
  function Data(e: Event): Bytes
    requires e.Dequeued?
  {
    if e.used < |e.buf| then e.buf[..e.used] else e.buf
  }

  predicate LongEnough(src: Bytes, w: nat, h: nat) {
    |src| >= w * h * 2
  }

  predicate Converts(e: Event, w: nat, h: nat) {
    e.Dequeued? && LongEnough(Data(e), w, h)
  }

  /** How many buffers come before the loop is stopped or fails. */
  function Deliveries(events: seq<Event>): (n: nat)
    ensures n <= |events| && forall i :: 0 <= i < n ==> events[i].Dequeued?
    ensures n < |events| ==> !events[n].Dequeued?
  {
    if events == [] || !events[0].Dequeued? then 0 else 1 + Deliveries(events[1..])
  }

  lemma {:induction false} DeliveriesIs(events: seq<Event>, n: nat)
    requires n <= |events| && forall i :: 0 <= i < n ==> events[i].Dequeued?
    requires n < |events| ==> !events[n].Dequeued?
    ensures Deliveries(events) == n
  {
    if n > 0 {
      DeliveriesIs(events[1..], n - 1);
    }
  }

  /** The buffers that are converted and find room in the queue, in order. */
  function Emitted(events: seq<Event>, w: nat, h: nat): seq<nat> {
    if events == [] then [] else
      var n := |events| - 1;
      var rest := Emitted(events[..n], w, h);
      if Converts(events[n], w, h) && events[n].room then rest + [n] else rest
  }

  /** `out` is the format, then for each listed buffer its conversion under its own time. */
  ghost predicate EmitsExactly(events: seq<Event>, indices: seq<nat>, w: nat, h: nat, out: seq<Out>) {
    && |out| == |indices| + 1 && out[0] == Format(w, h)
    && forall j :: 0 <= j < |indices| ==> EmitsFrame(events, indices[j], w, h, out[j + 1])
  }

  ghost predicate EmitsFrame(events: seq<Event>, i: nat, w: nat, h: nat, o: Out) {
    && i < |events| && events[i].Dequeued? && o.Frame?
    && o == Frame(w, h, w * 4, events[i].at, o.bgrx) && FrameIs(Data(events[i]), o.bgrx, w, h)
  }

  /** With an even width what is emitted follows from what was dequeued, byte for byte. */
  lemma EmittedDetermined(events: seq<Event>, indices: seq<nat>, w: nat, h: nat, a: seq<Out>, b: seq<Out>)
    requires w % 2 == 0 && EmitsExactly(events, indices, w, h, a) && EmitsExactly(events, indices, w, h, b)
    ensures a == b
  {
    forall k | 0 <= k < |a|
      ensures a[k] == b[k]
    {
      if k > 0 {
        assert EmitsFrame(events, indices[k - 1], w, h, a[k - 1 + 1]);
        assert EmitsFrame(events, indices[k - 1], w, h, b[k - 1 + 1]);
        FrameDetermined(Data(events[indices[k - 1]]), a[k].bgrx, b[k].bgrx, w, h);
      }
    }
  }

  ghost predicate NoneConverts(events: seq<Event>, n: nat, w: nat, h: nat)
    requires n <= |events|
  {
    forall i :: 0 <= i < n ==> !Converts(events[i], w, h)
  }

  lemma {:induction false} NoneEmitted(events: seq<Event>, w: nat, h: nat)
    requires NoneConverts(events, |events|, w, h)
    ensures Emitted(events, w, h) == []
  {
    if events != [] {
      NoneEmitted(events[..|events| - 1], w, h);
    }
  }

  lemma EmittedStep(events: seq<Event>, w: nat, h: nat, i: nat)
    requires i < |events|
    ensures Emitted(events[..i + 1], w, h) ==
            Emitted(events[..i], w, h) + if Converts(events[i], w, h) && events[i].room then [i] else []
  {
    assert events[..i + 1][..i] == events[..i];
  }

  /** What was emitted for the first `n` buffers: nothing before the first that converts. */
  ghost predicate EmittedFor(events: seq<Event>, n: nat, w: nat, h: nat, out: seq<Out>)
    requires n <= |events|
  {
    if NoneConverts(events, n, w, h) then out == [] else EmitsExactly(events, Emitted(events[..n], w, h), w, h, out)
  }

  lemma EmitOne(events: seq<Event>, i: nat, w: nat, h: nat, out: seq<Out>, o: Out)
    requires i < |events| && Converts(events[i], w, h) && events[i].room && EmitsFrame(events, i, w, h, o)
    requires EmitsExactly(events, Emitted(events[..i], w, h), w, h, out)
    ensures EmittedFor(events, i + 1, w, h, out + [o])
  {
    EmittedStep(events, w, h, i);
  }

  lemma EmitNone(events: seq<Event>, i: nat, w: nat, h: nat, out: seq<Out>)
    requires i < |events| && !(Converts(events[i], w, h) && events[i].room)
    requires if Converts(events[i], w, h) then EmitsExactly(events, Emitted(events[..i], w, h), w, h, out)
             else EmittedFor(events, i, w, h, out)
    ensures EmittedFor(events, i + 1, w, h, out)
  {
    EmittedStep(events, w, h, i);
    assert NoneConverts(events, i + 1, w, h) <==> NoneConverts(events, i, w, h) && !Converts(events[i], w, h);
  }

  /**
   * The capture loop over what it meets; `queueOpen` is whether the format message can be queued.
   * The format is announced once, before the first frame; short buffers are skipped; frames are
   * dropped when there is no room, never reordered, and carry their own time.  A stop or a closed
   * queue ends the loop, a failing dequeue or a zero dimension is an error.
   */
  method CaptureLoop(events: seq<Event>, width: nat, height: nat, queueOpen: bool) returns (out: seq<Out>, end: Ending)
    ensures var w, h, n := Paired(width), Paired(height), Deliveries(events);
            if w == 0 || h == 0 then out == [] && end == Failed
            else if !queueOpen && !NoneConverts(events, n, w, h) then out == [] && end == Finished
            else && EmittedFor(events, n, w, h, out)
                 && end == if n == |events| then Running else if events[n].Stopped? then Finished else Failed
  {
    var w, h := Paired(width), Paired(height);
    out := [];
    if w == 0 || h == 0 {
      return [], Failed;
    }
    assert w * h * 4 == 4 * (w * h);
    var bgrx := new Byte[w * h * 4](_ => 0);
    var announced := false;
    for i := 0 to |events|
      invariant forall k :: 0 <= k < i ==> events[k].Dequeued?
      invariant announced <==> !NoneConverts(events, i, w, h)
      invariant announced ==> queueOpen
      invariant EmittedFor(events, i, w, h, out)
    {
      if !events[i].Dequeued? {
        DeliveriesIs(events, i);
        return out, if events[i].Stopped? then Finished else Failed;
      }
      var data := Data(events[i]);
      var ok := YuyvToBgrx(data, w, h, bgrx);
      if ok {
        assert Converts(events[i], w, h);
        if !announced {
          NoneEmitted(events[..i], w, h);
          if !queueOpen {
            assert i < Deliveries(events);
            return [], Finished;
          }
          announced := true;
          out := [Format(w, h)];
        }
        if events[i].room {
          EmitOne(events, i, w, h, out, Frame(w, h, w * 4, events[i].at, bgrx[..]));
          out := out + [Frame(w, h, w * 4, events[i].at, bgrx[..])];
        } else {
          EmitNone(events, i, w, h, out);
        }
      } else {
        EmitNone(events, i, w, h, out);
      }
    }
    DeliveriesIs(events, |events|);
    end := Running;
  }
}
