/**
 The executor's bounded line reader.

 The reference reads a line off the raw bytes; the method reads them as the input hands them over, chunk by
 chunk, and holds at most one bounded line.
 */
module LineProtocol {
  import opened Prelude

  const MAX_LINE_BYTES: nat := 8 * 1024 * 1024
  const NEWLINE: byte := 10

  datatype Line = Ready(text: seq<byte>) | TooLong | End

  datatype ReadError = Truncated | NotUtf8 | InputFault

  // ---------- The reference ----------

  /** Where the first newline is, or the length when there is none. */
  function LineLength(s: seq<byte>): (n: nat)
    ensures n <= |s| && NEWLINE !in s[..n] && (n < |s| ==> s[n] == NEWLINE)
  {
    if s == [] || s[0] == NEWLINE then 0 else 1 + LineLength(s[1..])
  }

  /** One line off the front of the bytes, and the bytes after it. */
  function LineOf(utf8: seq<byte> -> bool, faulty: bool, s: seq<byte>): (Result<Line, ReadError>, seq<byte>)
  {
    var n := LineLength(s);
    if n < |s| then
      (if MAX_LINE_BYTES < n then Ok(TooLong) else if utf8(s[..n]) then Ok(Ready(s[..n])) else Err(NotUtf8), s[n + 1..])
    else
      (if faulty then Err(InputFault)
       else if MAX_LINE_BYTES < n then Ok(TooLong)
       else if n == 0 then Ok(End)
       else Err(Truncated), [])
  }

  lemma {:induction false} LineLengthIs(line: seq<byte>, rest: seq<byte>)
    requires NEWLINE !in line && (rest == [] || rest[0] == NEWLINE)
    ensures LineLength(line + rest) == |line|
  {
    if line == [] {
      assert line + rest == rest;
    } else {
      LineLengthIs(line[1..], rest);
      assert (line + rest)[1..] == line[1..] + rest;
    }
  }

  /** A terminated line is read whole, and exactly through its newline. */
  lemma TerminatedLine(utf8: seq<byte> -> bool, faulty: bool, line: seq<byte>, rest: seq<byte>)
    requires 10 !in line
    ensures LineOf(utf8, faulty, line + [10] + rest)
            == (if 8_388_608 < |line| then Ok(TooLong)
                else if utf8(line) then Ok(Ready(line)) else Err(NotUtf8), rest)
  {
    var s := line + [10] + rest;
    assert s == line + ([10] + rest);
    LineLengthIs(line, [10] + rest);
    assert s[..|line|] == line && s[|line| + 1..] == rest;
  }

  lemma UnterminatedLine(utf8: seq<byte> -> bool, faulty: bool, s: seq<byte>)
    requires 10 !in s
    ensures LineOf(utf8, faulty, s)
            == (if faulty then Err(InputFault) else if 8_388_608 < |s| then Ok(TooLong)
                else if s == [] then Ok(End) else Err(Truncated), [])
  {
    assert s + [] == s;
    LineLengthIs(s, []);
  }

  // ---------- The input ----------

  function Flatten(chunks: seq<seq<byte>>): seq<byte>
  {
    if chunks == [] then [] else chunks[0] + Flatten(chunks[1..])
  }

  /** A buffered input: the chunks it will hand over, and whether it then fails rather than ends. */
  class Input {
    var chunks: seq<seq<byte>>
    const faulty: bool

    ghost predicate Valid()
      reads this
    {
      forall i :: 0 <= i < |chunks| ==> chunks[i] != []
    }

    ghost function Bytes(): seq<byte>
      reads this
    {
      Flatten(chunks)
    }

    constructor (chunks: seq<seq<byte>>, faulty: bool)
      requires forall i :: 0 <= i < |chunks| ==> chunks[i] != []
      ensures Valid() && this.chunks == chunks && this.faulty == faulty
    {
      this.chunks := chunks;
      this.faulty := faulty;
    }

    /** The bytes at hand, empty only at the end. */
    method FillBuf() returns (r: Result<seq<byte>, ReadError>)
      requires Valid()
      ensures r.Err? <==> chunks == [] && faulty
      ensures r.Ok? ==> r.value == if chunks == [] then [] else chunks[0]
      ensures r.Err? ==> r.error == InputFault
    {
      if chunks == [] {
        return if faulty then Err(InputFault) else Ok([]);
      }
      return Ok(chunks[0]);
    }

    method Consume(n: nat)
      requires Valid() && chunks != [] && n <= |chunks[0]|
      modifies this
      ensures Valid() && n <= |old(Bytes())| && Bytes() == old(Bytes())[n..]
    {
      var left := chunks[0][n..];
      assert Bytes()[n..] == left + Flatten(chunks[1..]);
      if left == [] {
        chunks := chunks[1..];
      } else {
        chunks := [left] + chunks[1..];
      }
    }
  }

  // ---------- The reader ----------

  method FindNewline(chunk: seq<byte>) returns (n: nat)
    ensures n == LineLength(chunk)
  {
    n := 0;
    while n < |chunk| && chunk[n] != NEWLINE
      invariant n <= |chunk| && NEWLINE !in chunk[..n]
    {
      assert chunk[..n + 1] == chunk[..n] + [chunk[n]];
      n := n + 1;
    }
    assert chunk == chunk[..n] + chunk[n..];
    LineLengthIs(chunk[..n], chunk[n..]);
  }

  /** What a read in progress has consumed: `seen`, which the buffer holds while it fits. */
  ghost predicate InLine(before: seq<byte>, left: seq<byte>, seen: seq<byte>, buffer: seq<byte>, over: bool)
  {
    && before == seen + left && NEWLINE !in seen
    && (over <==> MAX_LINE_BYTES < |seen|) && buffer == if over then [] else seen
  }

  /** The newline is in this chunk: the line, and what it leaves, are decided. */
  lemma LineEnds(utf8: seq<byte> -> bool, faulty: bool, before: seq<byte>, seen: seq<byte>, buffer: seq<byte>,
                 over: bool,
                 chunk: seq<byte>, more: seq<byte>, n: nat)
    requires InLine(before, chunk + more, seen, buffer, over)
    requires n < |chunk| && chunk[n] == NEWLINE && NEWLINE !in chunk[..n]
    ensures LineOf(utf8, faulty, before)
            == (if over || |buffer| + n > MAX_LINE_BYTES then Ok(TooLong)
                else if utf8(buffer + chunk[..n]) then Ok(Ready(buffer + chunk[..n])) else Err(NotUtf8),
                (chunk + more)[n + 1..])
  {
    var rest := (chunk + more)[n + 1..];
    assert chunk + more == chunk[..n] + [NEWLINE] + rest;
    assert before == seen + chunk[..n] + [NEWLINE] + rest;
    TerminatedLine(utf8, faulty, seen + chunk[..n], rest);
  }

  /** The newline is not in this chunk: the line goes on. */
  lemma LineGoesOn(before: seq<byte>, seen: seq<byte>, buffer: seq<byte>, over: bool, chunk: seq<byte>, more: seq<byte>)
    requires InLine(before, chunk + more, seen, buffer, over) && NEWLINE !in chunk
    ensures (chunk + more)[|chunk|..] == more
    ensures var over' := over || |buffer| + |chunk| > MAX_LINE_BYTES;
            InLine(before, more, seen + chunk, if over' then [] else buffer + chunk, over')
  {
  }

  /** The input ends inside the line. */
  lemma LineStops(utf8: seq<byte> -> bool, faulty: bool, before: seq<byte>, seen: seq<byte>, buffer: seq<byte>,
                  over: bool)
    requires InLine(before, [], seen, buffer, over)
    ensures LineOf(utf8, faulty, before)
            == (if faulty then Err(InputFault) else if over then Ok(TooLong)
                else if buffer == [] then Ok(End) else Err(Truncated), [])
  {
    assert before == seen;
    UnterminatedLine(utf8, faulty, seen);
  }

  /** Read one bounded line.  However the input is chunked, the answer and what is left are those of the raw
      bytes, and the buffer never outgrows the bound. */
  method ReadLine(input: Input, utf8: seq<byte> -> bool) returns (r: Result<Line, ReadError>, ghost peak: nat)
    requires input.Valid()
    modifies input
    ensures input.Valid()
    ensures (r, input.Bytes()) == LineOf(utf8, input.faulty, old(input.Bytes()))
    ensures peak <= MAX_LINE_BYTES
  {
    ghost var before := input.Bytes();
    ghost var seen: seq<byte> := [];
    var buffer: seq<byte> := [];
    var over := false;
    peak := 0;
    while true
      invariant input.Valid() && InLine(before, input.Bytes(), seen, buffer, over)
      invariant |buffer| <= peak <= MAX_LINE_BYTES
      decreases |input.Bytes()|
    {
      var filled := input.FillBuf();
      if filled.Err? || filled.value == [] {
        LineStops(utf8, input.faulty, before, seen, buffer, over);
        if filled.Err? {
          return Err(filled.error), peak;
        }
        return if over then Ok(TooLong) else if buffer == [] then Ok(End) else Err(Truncated), peak;
      }
      var chunk := filled.value;
      ghost var more := Flatten(input.chunks[1..]);
      assert input.Bytes() == chunk + more;
      var position := FindNewline(chunk);
      if position < |chunk| {
        LineEnds(utf8, input.faulty, before, seen, buffer, over, chunk, more, position);
        over := over || |buffer| + position > MAX_LINE_BYTES;
        if !over {
          buffer := buffer + chunk[..position];
          peak := if peak < |buffer| then |buffer| else peak;
        }
        input.Consume(position + 1);
        break;
      }
      assert chunk[..|chunk|] == chunk;
      LineGoesOn(before, seen, buffer, over, chunk, more);
      over := over || |buffer| + |chunk| > MAX_LINE_BYTES;
      buffer := if over then [] else buffer + chunk;
      peak := if peak < |buffer| then |buffer| else peak;
      seen := seen + chunk;
      input.Consume(|chunk|);
    }
    if over {
      return Ok(TooLong), peak;
    }
    return if utf8(buffer) then Ok(Ready(buffer)) else Err(NotUtf8), peak;
  }
}
