/** Single byte ranges, as the media server reads them (section 14.1.2 of RFC 9110). */
module ByteRange {
  import opened Common
  import opened Encoding

  type Bytes = seq<Byte>

  /** An unsigned 64-bit number in text: digits, with one leading plus sign tolerated. */
  function ParseU64(s: string): Option<U64> {
    var digits := if s != [] && s[0] == '+' then s[1..] else s;
    if digits == [] || exists i :: 0 <= i < |digits| && !IsDigit(digits[i]) then None
    else if FromDecimal(digits) < 0x1_0000_0000_0000_0000 then Some(FromDecimal(digits))
    else None
  }

  const PREFIX: string := "bytes="

  /** The position of the first occurrence of `c`, or the length if there is none. */
  function IndexOf(s: string, c: char): (k: nat)
    ensures k <= |s|
    ensures k < |s| ==> s[k] == c
    ensures forall i :: 0 <= i < k ==> s[i] != c
  {
    if s == [] || s[0] == c then 0 else 1 + IndexOf(s[1..], c)
  }

  datatype Parsed = Ignored | Unsatisfiable | Range(start: U64, end: U64)

  function ParseSuffix(text: string, total: U64): Parsed
    requires total > 0
  {
    var n := ParseU64(text);
    if n.None? then Ignored
    else if n.value == 0 then Unsatisfiable
    else Range(if n.value <= total then total - n.value else 0, total - 1)
  }

  function ParseBounds(startText: string, endText: string, total: U64): Parsed
    requires total > 0
  {
    var last := total - 1;
    var start := ParseU64(startText);
    var end := if endText == [] then Some(last) else ParseU64(endText);
    if start.None? || end.None? then Ignored
    else if start.value > end.value || start.value > last then Unsatisfiable
    else Range(start.value, if end.value <= last then end.value else last)
  }

  function ParseSingleRange(header: string, total: U64): (r: Parsed)
    ensures r.Range? ==> r.start <= r.end < total
  {
    if !(PREFIX <= header) then Ignored else
      var rest := header[|PREFIX|..];
      var dash := IndexOf(rest, '-');
      if ',' in rest || dash == |rest| then Ignored
      else if total == 0 then Unsatisfiable
      else if dash == 0 then ParseSuffix(rest[1..], total)
      else ParseBounds(rest[..dash], rest[dash + 1..], total)
  }

  // ---------------------------------------------------------------- printing and parsing

  lemma ParseDecimal(n: U64)
    ensures ParseU64(Decimal(n)) == Some(n)
  {
    DecimalRoundTrip(n);
    assert Decimal(n)[0] != '+';
  }

  lemma {:induction false} IndexOfJoined(a: string, c: char, b: string)
    requires c !in a
    ensures IndexOf(a + [c] + b, c) == |a|
  {
    var s := a + [c] + b;
    if a != [] {
      IndexOfJoined(a[1..], c, b);
      assert s[1..] == a[1..] + [c] + b;
    }
  }

  /** What a header with the two given texts around its first dash means. */
  lemma ParseJoined(a: string, b: string, total: U64)
    requires '-' !in a && ',' !in a && ',' !in b
    ensures ParseSingleRange(PREFIX + (a + ['-'] + b), total) ==
            if total == 0 then Unsatisfiable
            else if a == [] then ParseSuffix(b, total) else ParseBounds(a, b, total)
  {
    var rest := a + ['-'] + b;
    var header := PREFIX + rest;
    assert header[|PREFIX|..] == rest;
    IndexOfJoined(a, '-', b);
    assert rest[..|a|] == a && rest[|a| + 1..] == b;
  }

  function Print(start: U64, end: U64): string {
    PREFIX + (Decimal(start) + ['-'] + Decimal(end))
  }

  function PrintFrom(start: U64): string {
    PREFIX + (Decimal(start) + ['-'] + "")
  }

  function PrintLast(n: U64): string {
    PREFIX + ("" + ['-'] + Decimal(n))
  }

  /** A printed pair is read back, with the end clamped to the body; past the body it is refused. */
  lemma PrintedRange(start: U64, end: U64, total: U64)
    ensures ParseSingleRange(Print(start, end), total) ==
            if start <= end && start < total then Range(start, if end < total then end else total - 1)
            else Unsatisfiable
  {
    DecimalRoundTrip(start);
    DecimalRoundTrip(end);
    ParseDecimal(start);
    ParseDecimal(end);
    ParseJoined(Decimal(start), Decimal(end), total);
  }

  /** An open-ended range runs to the last byte. */
  lemma PrintedOpenRange(start: U64, total: U64)
    ensures ParseSingleRange(PrintFrom(start), total) ==
            if start < total then Range(start, total - 1) else Unsatisfiable
  {
    DecimalRoundTrip(start);
    ParseDecimal(start);
    ParseJoined(Decimal(start), "", total);
  }

  /** A suffix range is the last `n` bytes, or all of them. */
  lemma PrintedSuffix(n: U64, total: U64)
    ensures ParseSingleRange(PrintLast(n), total) ==
            if n == 0 || total == 0 then Unsatisfiable else Range(if n <= total then total - n else 0, total - 1)
  {
    DecimalRoundTrip(n);
    ParseDecimal(n);
    ParseJoined("", Decimal(n), total);
  }

  // ---------------------------------------------------------------- serving

  datatype Response =
    | Full(body: Bytes)
    | Partial(start: U64, end: U64, total: U64, length: nat, slice: Bytes)
    | NotSatisfiable(total: U64)

  /** The response to a range header over a decrypted body. */
  function Serve(body: Bytes, header: string): Response
    requires |body| < 0x1_0000_0000_0000_0000
  {
    match ParseSingleRange(header, |body|)
    case Ignored => Full(body)
    case Unsatisfiable => NotSatisfiable(|body|)
    case Range(start, end) => Partial(start, end, |body|, end - start + 1, body[start..end + 1])
  }

  /** A partial response carries exactly the bytes it announces. */
  lemma PartialIsExact(body: Bytes, header: string)
    requires |body| < 0x1_0000_0000_0000_0000
    ensures var r := Serve(body, header);
            r.Partial? ==>
              && r.start <= r.end < |body| && |r.slice| == r.length
              && body[..r.start] + r.slice + body[r.end + 1..] == body
  {
    var r := Serve(body, header);
    if r.Partial? {
      assert body == body[..r.start] + body[r.start..r.end + 1] + body[r.end + 1..];
    }
  }

  /** The bytes a client collects by asking for one printed range after another. */
  function Collect(body: Bytes, start: nat, chunk: nat): Bytes
    requires chunk > 0 && |body| + chunk < 0x1_0000_0000_0000_0000
    decreases |body| - start
  {
    if start >= |body| then [] else
      var r := Serve(body, Print(start, start + chunk - 1));
      if r.Partial? then r.slice + Collect(body, start + chunk, chunk) else []
  }

  lemma OneChunk(body: Bytes, start: nat, chunk: nat)
    requires chunk > 0 && |body| + chunk < 0x1_0000_0000_0000_0000 && start < |body|
    ensures var r := Serve(body, Print(start, start + chunk - 1));
            r.Partial? && r.slice == body[start..if start + chunk <= |body| then start + chunk else |body|]
  {
    PrintedRange(start, start + chunk - 1, |body|);
  }

  lemma SplitAt(s: Bytes, i: nat, j: nat)
    requires i <= j <= |s|
    ensures s[i..] == s[i..j] + s[j..]
  {
  }

  /** Successive chunks add up to the body, the clamped last one included. */
  lemma {:induction false} ChunksAddUp(body: Bytes, start: nat, chunk: nat)
    requires chunk > 0 && |body| + chunk < 0x1_0000_0000_0000_0000 && start <= |body|
    ensures Collect(body, start, chunk) == body[start..]
    decreases |body| - start
  {
    if start < |body| {
      OneChunk(body, start, chunk);
      if start + chunk <= |body| {
        ChunksAddUp(body, start + chunk, chunk);
        SplitAt(body, start, start + chunk);
      } else {
        SplitAt(body, start, |body|);
      }
    }
  }
}
