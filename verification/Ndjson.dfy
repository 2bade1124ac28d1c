/** Reading newline-delimited records from a chunked stream
    (src/lowpower_llm_cluster/secure_client.py:104-119). */
module Ndjson {

  newtype byte = b: int | 0 <= b < 256

  type Line = seq<byte>

  const NEWLINE: byte := 10

  /** Where `partition` cuts. */
  function FirstNewline(s: seq<byte>): (k: nat)
    requires NEWLINE in s
    ensures k < |s| && s[k] == NEWLINE && NEWLINE !in s[..k]
  {
    if s[0] == NEWLINE then 0 else
      assert s == [s[0]] + s[1..];
      FirstNewline(s[1..]) + 1
  }

  /** The stream cut at every newline. */
  function Segments(s: seq<byte>): seq<Line>
    decreases |s|
  {
    if NEWLINE !in s then [s] else [s[..FirstNewline(s)]] + Segments(s[FirstNewline(s) + 1..])
  }

  function NonEmpty(lines: seq<Line>): seq<Line>
  {
    if lines == [] then [] else if lines[0] == [] then NonEmpty(lines[1..]) else [lines[0]] + NonEmpty(lines[1..])
  }

  /** What a reader of the whole stream should see: its non-empty segments, the last one included. */
  function Lines(s: seq<byte>): seq<Line>
  {
    NonEmpty(Segments(s))
  }

  function Concat(chunks: seq<seq<byte>>): seq<byte>
  {
    if chunks == [] then [] else chunks[0] + Concat(chunks[1..])
  }

  // ---------------------------------------------------------------- the segments of a stream

  function Join(segments: seq<Line>): seq<byte>
    requires segments != []
  {
    if |segments| == 1 then segments[0] else segments[0] + [NEWLINE] + Join(segments[1..])
  }

  lemma FirstNewlineAfter(line: Line, rest: seq<byte>)
    requires NEWLINE !in line
    ensures NEWLINE in line + [NEWLINE] + rest
    ensures FirstNewline(line + [NEWLINE] + rest) == |line|
  {
    var s := line + [NEWLINE] + rest;
    assert s[|line|] == NEWLINE;
    var k := FirstNewline(s);
    assert forall i | 0 <= i < |line| :: s[i] == line[i];
    assert forall i | 0 <= i < k :: s[..k][i] == s[i];
  }

  lemma SegmentsCons(line: Line, rest: seq<byte>)
    requires NEWLINE !in line
    ensures Segments(line + [NEWLINE] + rest) == [line] + Segments(rest)
  {
    FirstNewlineAfter(line, rest);
    var s := line + [NEWLINE] + rest;
    assert s[..|line|] == line && s[|line| + 1..] == rest;
  }

  /** `Segments` is the only way to write the stream as newline-free pieces joined by newlines. */
  lemma SegmentsExactly(s: seq<byte>, pieces: seq<Line>)
    ensures pieces == Segments(s) <==>
      pieces != [] && (forall piece | piece in pieces :: NEWLINE !in piece) && Join(pieces) == s
  {
    SegmentsJoin(s);
    if pieces != [] && (forall piece | piece in pieces :: NEWLINE !in piece) && Join(pieces) == s {
      PiecesAreSegments(pieces);
    }
  }

  lemma {:induction false} SegmentsJoin(s: seq<byte>)
    ensures Segments(s) != [] && Join(Segments(s)) == s
    ensures forall piece | piece in Segments(s) :: NEWLINE !in piece
    decreases |s|
  {
    if NEWLINE in s {
      var k := FirstNewline(s);
      SegmentsJoin(s[k + 1..]);
      assert Segments(s)[1..] == Segments(s[k + 1..]);
      assert s == s[..k] + [NEWLINE] + s[k + 1..];
    }
  }

  lemma {:induction false} PiecesAreSegments(pieces: seq<Line>)
    requires pieces != [] && forall piece | piece in pieces :: NEWLINE !in piece
    ensures pieces == Segments(Join(pieces))
  {
    if |pieces| > 1 {
      PiecesAreSegments(pieces[1..]);
      SegmentsCons(pieces[0], Join(pieces[1..]));
    }
  }

  // ---------------------------------------------------------------- the reader

  lemma LinesCons(line: Line, rest: seq<byte>)
    requires NEWLINE !in line
    ensures Lines(line + [NEWLINE] + rest) == (if line == [] then [] else [line]) + Lines(rest)
  {
    SegmentsCons(line, rest);
    assert ([line] + Segments(rest))[1..] == Segments(rest);
  }

  lemma LinesOfTail(tail: Line)
    requires NEWLINE !in tail
    ensures Lines(tail) == if tail == [] then [] else [tail]
  {
    assert Segments(tail) == [tail] && [tail][1..] == [];
    assert NonEmpty([tail]) == if tail == [] then [] else [tail];
  }

  lemma Associative<X>(a: seq<X>, b: seq<X>, c: seq<X>)
    ensures a + (b + c) == (a + b) + c
  {
  }

  lemma CutAtNewline(buffer: seq<byte>, rest: seq<byte>)
    requires NEWLINE in buffer
    ensures var k := FirstNewline(buffer);
      buffer + rest == buffer[..k] + [NEWLINE] + (buffer[k + 1..] + rest)
  {
    var k := FirstNewline(buffer);
    assert buffer == buffer[..k] + [NEWLINE] + buffer[k + 1..];
    Associative(buffer[..k] + [NEWLINE], buffer[k + 1..], rest);
  }

  /** Taking the first line off the buffer. */
  lemma TakeLine(lines: seq<Line>, buffer: seq<byte>, rest: seq<byte>)
    requires NEWLINE in buffer
    ensures var k := FirstNewline(buffer);
      lines + Lines(buffer + rest) == (if k == 0 then lines else lines + [buffer[..k]]) + Lines(buffer[k + 1..] + rest)
  {
    var k := FirstNewline(buffer);
    var after := buffer[k + 1..] + rest;
    CutAtNewline(buffer, rest);
    LinesCons(buffer[..k], after);
    Associative(lines, if k == 0 then [] else [buffer[..k]], Lines(after));
    assert lines + [] == lines;
  }

  /** Whatever the chunks, the lines are those of the whole stream. */
  method ReadLines(chunks: seq<seq<byte>>) returns (lines: seq<Line>)
    ensures lines == Lines(Concat(chunks))
  {
    lines := [];
    var buffer: seq<byte> := [];
    assert buffer + Concat(chunks) == Concat(chunks);
    for i := 0 to |chunks|
      invariant NEWLINE !in buffer
      invariant lines + Lines(buffer + Concat(chunks[i..])) == Lines(Concat(chunks))
    {
      ghost var rest := Concat(chunks[i + 1..]);
      assert chunks[i..][1..] == chunks[i + 1..];
      assert buffer + Concat(chunks[i..]) == buffer + chunks[i] + rest;
      buffer := buffer + chunks[i];
      while NEWLINE in buffer
        invariant lines + Lines(buffer + rest) == Lines(Concat(chunks))
        decreases |buffer|
      {
        var cut := FirstNewline(buffer);
        TakeLine(lines, buffer, rest);
        var line := buffer[..cut];
        buffer := buffer[cut + 1..];
        if line != [] {
          lines := lines + [line];
        }
      }
    }
    assert buffer + Concat([]) == buffer;
    LinesOfTail(buffer);
    if buffer != [] {
      lines := lines + [buffer];
    }
  }

  // ---------------------------------------------------------------- round trip

  /** Each record followed by a newline. */
  function Encode(records: seq<Line>): seq<byte>
  {
    if records == [] then [] else records[0] + [NEWLINE] + Encode(records[1..])
  }

  predicate Framable(records: seq<Line>)
  {
    forall record | record in records :: record != [] && NEWLINE !in record
  }

  lemma LinesAreFramable(s: seq<byte>)
    ensures Framable(Lines(s))
  {
    SegmentsJoin(s);
    NonEmptyKeeps(Segments(s));
  }

  lemma {:induction false} NonEmptyKeeps(lines: seq<Line>)
    ensures forall line | line in NonEmpty(lines) :: line != [] && line in lines
  {
    if lines != [] {
      NonEmptyKeeps(lines[1..]);
      assert lines == [lines[0]] + lines[1..];
    }
  }

  /** A stream of terminated records, cut off inside the next one, yields the records and then the fragment. */
  lemma {:induction false} CutStream(records: seq<Line>, fragment: Line)
    requires Framable(records) && NEWLINE !in fragment
    ensures Lines(Encode(records) + fragment) == records + if fragment == [] then [] else [fragment]
  {
    if records == [] {
      assert Encode(records) + fragment == fragment;
      LinesOfTail(fragment);
    } else {
      assert forall record | record in records[1..] :: record in records;
      CutStream(records[1..], fragment);
      LinesCons(records[0], Encode(records[1..]) + fragment);
      Associative(records[0] + [NEWLINE], Encode(records[1..]), fragment);
      Associative([records[0]], records[1..], if fragment == [] then [] else [fragment]);
      assert records == [records[0]] + records[1..];
    }
  }

  /** Records come back as they were sent exactly when none is empty and none contains a newline. */
  lemma RoundTripExactly(records: seq<Line>)
    ensures Lines(Encode(records)) == records <==> Framable(records)
  {
    LinesAreFramable(Encode(records));
    if Framable(records) {
      CutStream(records, []);
      assert Encode(records) + [] == Encode(records);
    }
  }
}
