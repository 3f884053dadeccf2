/**
 The companion's request reader: one newline-delimited line at a time from a buffered source that may
 hand its bytes over in any pieces, never holding more than the declared bound.
 */
module LineReader {
  import opened Basics

  const MAX_MCP_LINE_BYTES: nat := 1024 * 1024
  const LF: Byte := 10
  const CR: Byte := 13

  datatype Line = Text(bytes: seq<Byte>) | TooLong | NotText
  datatype Reading = EndOfInput | Read(line: Line) | Failed

  // ------------------------------------------------ lines of a byte string

  predicate OneLine(line: seq<Byte>)
  {
    LF !in line
  }

  function WithoutCr(line: seq<Byte>): (r: seq<Byte>)
  {
    if line != [] && line[|line| - 1] == CR then line[..|line| - 1] else line
  }

  /** What one line, its newline already removed, is answered with. */
  function Judged(utf8: seq<Byte> -> bool, line: seq<Byte>): (r: Line)
  {
    if |line| > MAX_MCP_LINE_BYTES then TooLong
    else if utf8(WithoutCr(line)) then Text(WithoutCr(line)) else NotText
  }

  /** Over 1048576 bytes a line is too long; else it is its text, less one carriage return at the end, or not text. */
  lemma JudgedExactly(utf8: seq<Byte> -> bool, line: seq<Byte>)
    ensures Judged(utf8, line) == TooLong <==> |line| > 1048576
    ensures forall text: seq<Byte> :: Judged(utf8, line) == Text(text) <==>
              && |line| <= 1048576 && utf8(text)
              && (line == text + [13] || (line == text && (line == [] || line[|line| - 1] != 13)))
  {
    forall text: seq<Byte>
      ensures WithoutCr(line) == text <==> line == text + [13] || (line == text && (line == [] || line[|line| - 1] != 13))
    {
      CrDropped(line, text);
    }
    hide WithoutCr;
  }

  lemma CrDropped(line: seq<Byte>, text: seq<Byte>)
    ensures WithoutCr(line) == text <==> line == text + [13] || (line == text && (line == [] || line[|line| - 1] != 13))
  {
    if line != [] {
      var last := |line| - 1;
      assert line == line[..last] + [line[last]];
      if line == text + [13] {
        assert line[..last] == text;
      }
    }
  }

  function FirstLf(bytes: seq<Byte>): (at: nat)
    ensures at <= |bytes| && OneLine(bytes[..at])
    ensures at < |bytes| ==> bytes[at] == LF
  {
    if bytes == [] || bytes[0] == LF then 0
    else
      var at := 1 + FirstLf(bytes[1..]);
      assert bytes[..at] == [bytes[0]] + bytes[1..][..at - 1];
      at
  }

  /** The first line of what is left, and what is left after it; input that breaks off fails instead of ending. */
  function NextLine(utf8: seq<Byte> -> bool, bytes: seq<Byte>, broken: bool): (r: (Reading, seq<Byte>))
  {
    var at := FirstLf(bytes);
    if at < |bytes| then (Read(Judged(utf8, bytes[..at])), bytes[at + 1..])
    else if broken then (Failed, [])
    else if bytes == [] then (EndOfInput, [])
    else (Read(Judged(utf8, bytes)), [])
  }

  // ----------------------------------------------------- the source

  function Flat(chunks: seq<seq<Byte>>): (bytes: seq<Byte>)
  {
    if chunks == [] then [] else chunks[0] + Flat(chunks[1..])
  }

  /** A buffered source: each piece is what one refill yields, and the end is an end or a failure. */
  class Source {
    var chunks: seq<seq<Byte>>
    const broken: bool

    ghost predicate Valid()
      reads this
    {
      forall i :: 0 <= i < |chunks| ==> chunks[i] != []
    }

    ghost function Rest(): (bytes: seq<Byte>)
      reads this
    {
      Flat(chunks)
    }

    constructor (chunks: seq<seq<Byte>>, broken: bool)
      requires forall i :: 0 <= i < |chunks| ==> chunks[i] != []
      ensures Valid() && Rest() == Flat(chunks) && this.broken == broken
    {
      this.chunks, this.broken := chunks, broken;
    }

    /** What is buffered now: empty only at the end of the input. */
    method Fill() returns (available: Result<seq<Byte>>)
      requires Valid()
      ensures available.Ok? ==> available.value <= Rest() && (available.value == [] <==> Rest() == [])
      ensures available.Ok? ==> (available.value == [] <==> chunks == [])
      ensures available.Ok? && chunks != [] ==> available.value == chunks[0]
      ensures available.Err? <==> chunks == [] && broken
      ensures available.Err? ==> Rest() == []
    {
      if chunks == [] {
        return if broken then Err else Ok([]);
      }
      available := Ok(chunks[0]);
    }

    /** Discards the first `n` buffered bytes. */
    method Consume(n: nat)
      requires Valid() && chunks != [] && n <= |chunks[0]|
      modifies this`chunks
      ensures Valid() && Rest() == old(Rest())[n..]
    {
      var rest := chunks[0][n..];
      assert chunks[0] + Flat(chunks[1..]) == chunks[0][..n] + (rest + Flat(chunks[1..]));
      if rest == [] {
        chunks := chunks[1..];
      } else {
        chunks := [rest] + chunks[1..];
        assert chunks[1..] == old(chunks)[1..];
      }
    }
  }

  lemma {:induction false} SkipsPrefix(before: seq<Byte>, rest: seq<Byte>)
    requires OneLine(before)
    ensures FirstLf(before + rest) == |before| + FirstLf(rest)
  {
    if before == [] {
      assert before + rest == rest;
    } else {
      assert (before + rest)[1..] == before[1..] + rest;
      SkipsPrefix(before[1..], rest);
    }
  }

  // ------------------------------------------------------- the reader

  /** The line so far and the rest, as the loop holds them: an oversized line is counted but not kept. */
  ghost predicate SoFar(all: seq<Byte>, taken: seq<Byte>, rest: seq<Byte>, bytes: seq<Byte>, tooLong: bool)
  {
    && all == taken + rest && OneLine(taken)
    && (tooLong <==> |taken| > MAX_MCP_LINE_BYTES)
    && bytes == (if tooLong then [] else taken)
  }

  function Verdict(utf8: seq<Byte> -> bool, bytes: seq<Byte>, tooLong: bool): (line: Line)
  {
    if tooLong then TooLong else if utf8(WithoutCr(bytes)) then Text(WithoutCr(bytes)) else NotText
  }

  lemma TooLongIsSaid(utf8: seq<Byte> -> bool, bytes: seq<Byte>)
    ensures Verdict(utf8, bytes, true) == TooLong
  {
  }

  lemma NothingTaken(all: seq<Byte>)
    ensures SoFar(all, [], all, [], false)
  {
  }

  /** Taking the part of a piece before its newline, or all of it, extends the line. */
  lemma TakesPiece(all: seq<Byte>, taken: seq<Byte>, rest: seq<Byte>, bytes: seq<Byte>, tooLong: bool,
                   piece: seq<Byte>, used: nat)
    requires SoFar(all, taken, rest, bytes, tooLong) && piece <= rest && used == FirstLf(piece)
    ensures var longer := tooLong || |bytes| + used > MAX_MCP_LINE_BYTES;
            SoFar(all, taken + piece[..used], rest[used..], if longer then [] else bytes + piece[..used], longer)
    ensures used < |piece| ==> rest[used..] == [LF] + rest[used + 1..]
  {
    Regroup(taken, piece, rest, used);
    OneLineJoins(taken, piece[..used]);
    hide FirstLf, OneLine;
  }

  lemma Regroup(taken: seq<Byte>, piece: seq<Byte>, rest: seq<Byte>, used: nat)
    requires piece <= rest && used <= |piece|
    ensures taken + rest == taken + piece[..used] + rest[used..]
    ensures used < |piece| ==> rest[used..] == [piece[used]] + rest[used + 1..]
  {
    assert rest == piece[..used] + rest[used..];
  }

  lemma OneLineJoins(left: seq<Byte>, right: seq<Byte>)
    requires OneLine(left) && OneLine(right)
    ensures OneLine(left + right)
  {
  }

  lemma LineEndsHere(utf8: seq<Byte> -> bool, broken: bool, all: seq<Byte>, taken: seq<Byte>, rest: seq<Byte>,
                     bytes: seq<Byte>, tooLong: bool)
    requires SoFar(all, taken, [LF] + rest, bytes, tooLong)
    ensures NextLine(utf8, all, broken) == (Read(Verdict(utf8, bytes, tooLong)), rest)
  {
    LineEnds(all, taken, rest);
  }

  lemma InputEndsHere(utf8: seq<Byte> -> bool, broken: bool, all: seq<Byte>, taken: seq<Byte>,
                      bytes: seq<Byte>, tooLong: bool)
    requires SoFar(all, taken, [], bytes, tooLong)
    ensures NextLine(utf8, all, broken)
         == if broken then (Failed, [])
            else if !tooLong && bytes == [] then (EndOfInput, [])
            else (Read(Verdict(utf8, bytes, tooLong)), [])
  {
    assert taken + [] == taken;
    EndsHere(all, taken);
  }

  /** Reads one line; `peak` is the most bytes ever held for it. */
  method ReadLine(source: Source, utf8: seq<Byte> -> bool) returns (r: Reading, ghost peak: nat)
    requires source.Valid()
    modifies source
    ensures source.Valid()
    ensures (r, source.Rest()) == NextLine(utf8, old(source.Rest()), source.broken)
    ensures peak <= MAX_MCP_LINE_BYTES
  {
    hide Flat, FirstLf, SoFar, NextLine, OneLine, Judged, Verdict, WithoutCr;
    assert Verdict(utf8, [], true) == TooLong by {
      TooLongIsSaid(utf8, []);
    }
    var bytes: seq<Byte> := [];
    var tooLong := false;
    ghost var all := source.Rest();
    ghost var taken: seq<Byte> := [];
    NothingTaken(all);
    peak := 0;
    while true
      invariant source.Valid() && SoFar(all, taken, source.Rest(), bytes, tooLong)
      invariant |bytes| <= peak <= MAX_MCP_LINE_BYTES && (tooLong ==> bytes == [])
      decreases |source.Rest()|
    {
      var available := source.Fill();
      if available.Err? {
        InputEndsHere(utf8, source.broken, all, taken, bytes, tooLong);
        return Failed, peak;
      }
      if available.value == [] {
        InputEndsHere(utf8, source.broken, all, taken, bytes, tooLong);
        if tooLong {
          return Read(TooLong), peak;
        }
        if bytes == [] {
          return EndOfInput, peak;
        }
        break;
      }
      var piece := available.value;
      var used := Position(piece);
      var newline := used < |piece|;
      TakesPiece(all, taken, source.Rest(), bytes, tooLong, piece, used);
      if !tooLong {
        if |bytes| + used > MAX_MCP_LINE_BYTES {
          bytes := [];
          tooLong := true;
        } else {
          bytes := bytes + piece[..used];
          peak := if |bytes| > peak then |bytes| else peak;
        }
      }
      source.Consume(if newline then used + 1 else used);
      taken := taken + piece[..used];
      if newline {
        LineEndsHere(utf8, source.broken, all, taken, source.Rest(), bytes, tooLong);
        if tooLong {
          return Read(TooLong), peak;
        }
        break;
      }
    }
    var line := Decoded(utf8, bytes);
    r := Read(line);
  }

  method Decoded(utf8: seq<Byte> -> bool, line: seq<Byte>) returns (r: Line)
    ensures r == Verdict(utf8, line, false)
  {
    var bytes := line;
    if bytes != [] && bytes[|bytes| - 1] == CR {
      bytes := bytes[..|bytes| - 1];
    }
    r := if utf8(bytes) then Text(bytes) else NotText;
  }

  method Position(piece: seq<Byte>) returns (at: nat)
    ensures at == FirstLf(piece)
  {
    at := 0;
    while at < |piece| && piece[at] != LF
      invariant at <= |piece| && OneLine(piece[..at])
    {
      assert piece[..at + 1] == piece[..at] + [piece[at]];
      at := at + 1;
    }
    assert piece == piece[..at] + piece[at..];
    SkipsPrefix(piece[..at], piece[at..]);
  }

  lemma LineEnds(all: seq<Byte>, taken: seq<Byte>, rest: seq<Byte>)
    requires all == taken + ([LF] + rest) && OneLine(taken)
    ensures FirstLf(all) == |taken| < |all| && all[..|taken|] == taken && all[|taken| + 1..] == rest
  {
    SkipsPrefix(taken, [LF] + rest);
  }

  lemma EndsHere(all: seq<Byte>, taken: seq<Byte>)
    requires all == taken && OneLine(taken)
    ensures FirstLf(all) == |all|
  {
    assert taken + [] == taken;
    SkipsPrefix(taken, []);
  }

  // --------------------------------------------------- whole inputs

  /** Everything the reader answers when it is called until sound input ends. */
  function AllLines(utf8: seq<Byte> -> bool, bytes: seq<Byte>): (lines: seq<Line>)
    decreases |bytes|
  {
    var (reading, rest) := NextLine(utf8, bytes, false);
    if reading.Read? then [reading.line] + AllLines(utf8, rest) else []
  }

  function Terminated(lines: seq<seq<Byte>>): (bytes: seq<Byte>)
  {
    if lines == [] then [] else lines[0] + [LF] + Terminated(lines[1..])
  }

  function JudgedAll(utf8: seq<Byte> -> bool, lines: seq<seq<Byte>>): (judged: seq<Line>)
  {
    seq(|lines|, i requires 0 <= i < |lines| => Judged(utf8, lines[i]))
  }

  /** Oversized and undecodable lines included, each line is judged alone and the next one starts clean. */
  lemma {:induction false} LinesStayAligned(utf8: seq<Byte> -> bool, lines: seq<seq<Byte>>, tail: seq<Byte>)
    requires (forall i :: 0 <= i < |lines| ==> OneLine(lines[i])) && OneLine(tail)
    ensures AllLines(utf8, Terminated(lines) + tail)
         == JudgedAll(utf8, lines) + (if tail == [] then [] else [Judged(utf8, tail)])
  {
    if lines == [] {
      assert Terminated(lines) + tail == tail;
      LastLine(utf8, tail);
    } else {
      FirstLine(utf8, lines[0], Terminated(lines[1..]) + tail);
      TerminatedFirst(lines, tail);
      JudgedFirst(utf8, lines);
      hide AllLines, OneLine, Judged, Terminated, JudgedAll;
      LinesStayAligned(utf8, lines[1..], tail);
    }
  }

  lemma TerminatedFirst(lines: seq<seq<Byte>>, tail: seq<Byte>)
    requires lines != []
    ensures Terminated(lines) + tail == lines[0] + ([LF] + (Terminated(lines[1..]) + tail))
  {
  }

  lemma JudgedFirst(utf8: seq<Byte> -> bool, lines: seq<seq<Byte>>)
    requires lines != []
    ensures JudgedAll(utf8, lines) == [Judged(utf8, lines[0])] + JudgedAll(utf8, lines[1..])
  {
    hide Judged;
  }

  lemma FirstLine(utf8: seq<Byte> -> bool, line: seq<Byte>, rest: seq<Byte>)
    requires OneLine(line)
    ensures AllLines(utf8, line + ([LF] + rest)) == [Judged(utf8, line)] + AllLines(utf8, rest)
  {
    hide FirstLf, Judged, OneLine;
    LineEnds(line + ([LF] + rest), line, rest);
  }

  lemma LastLine(utf8: seq<Byte> -> bool, tail: seq<Byte>)
    requires OneLine(tail)
    ensures AllLines(utf8, tail) == if tail == [] then [] else [Judged(utf8, tail)]
  {
    hide FirstLf, Judged, OneLine;
    EndsHere(tail, tail);
    EndsHere([], []);
  }

  /** Every input is some whole lines and an unterminated rest, so the law above covers all inputs. */
  lemma {:induction false} NothingIsSkipped(bytes: seq<Byte>) returns (lines: seq<seq<Byte>>, tail: seq<Byte>)
    ensures (forall i :: 0 <= i < |lines| ==> OneLine(lines[i])) && OneLine(tail)
    ensures bytes == Terminated(lines) + tail
    decreases |bytes|
  {
    var at := FirstLf(bytes);
    if at < |bytes| {
      var more;
      more, tail := NothingIsSkipped(bytes[at + 1..]);
      lines := [bytes[..at]] + more;
      assert lines[1..] == more;
      assert bytes == bytes[..at] + [LF] + bytes[at + 1..];
    } else {
      lines, tail := [], bytes;
      assert bytes[..|bytes|] == bytes;
    }
  }

  lemma LosesItsCr(text: seq<Byte>)
    ensures WithoutCr(text + [CR]) == text
  {
    assert (text + [CR])[..|text|] == text;
  }

  /** Lines that keep to the protocol come back unchanged, with or without a trailing carriage return. */
  lemma TextsComeBack(utf8: seq<Byte> -> bool, texts: seq<seq<Byte>>, crlf: bool)
    requires forall i :: 0 <= i < |texts| ==>
               && OneLine(texts[i]) && |texts[i]| < MAX_MCP_LINE_BYTES && utf8(texts[i])
               && (!crlf ==> WithoutCr(texts[i]) == texts[i])
    ensures var sent := seq(|texts|, i requires 0 <= i < |texts| => if crlf then texts[i] + [CR] else texts[i]);
            AllLines(utf8, Terminated(sent)) == seq(|texts|, i requires 0 <= i < |texts| => Text(texts[i]))
  {
    var sent := seq(|texts|, i requires 0 <= i < |texts| => if crlf then texts[i] + [CR] else texts[i]);
    hide AllLines, Terminated, WithoutCr;
    LinesStayAligned(utf8, sent, []);
    assert Terminated(sent) + [] == Terminated(sent);
    forall i | 0 <= i < |texts| ensures WithoutCr(sent[i]) == texts[i] {
      LosesItsCr(texts[i]);
    }
  }

  // ------------------------------------------------------ the server's loop

  /** A line of nothing but whitespace asks for nothing. */
  predicate Asks(line: Line, blank: seq<Byte> -> bool)
  {
    line.Text? ==> !blank(line.bytes)
  }

  /** The lines the server answers: it skips blank ones and returns on the first that does not decode, as on a failing source. */
  function Served(utf8: seq<Byte> -> bool, blank: seq<Byte> -> bool, bytes: seq<Byte>, broken: bool): (lines: seq<Line>)
    decreases |bytes|
  {
    var (reading, rest) := NextLine(utf8, bytes, broken);
    if !reading.Read? || reading.line.NotText? then []
    else (if Asks(reading.line, blank) then [reading.line] else []) + Served(utf8, blank, rest, broken)
  }

  method Serve(source: Source, utf8: seq<Byte> -> bool, blank: seq<Byte> -> bool) returns (lines: seq<Line>)
    requires source.Valid()
    modifies source
    ensures lines == Served(utf8, blank, old(source.Rest()), source.broken)
  {
    hide NextLine, Flat, Asks;
    lines := [];
    while true
      invariant source.Valid()
      invariant lines + Served(utf8, blank, source.Rest(), source.broken)
             == Served(utf8, blank, old(source.Rest()), source.broken)
      decreases |source.Rest()|
    {
      ghost var bytes := source.Rest();
      NextIsShorter(utf8, bytes, source.broken);
      var reading, _ := ReadLine(source, utf8);
      if !reading.Read? || reading.line.NotText? {
        return;
      }
      ghost var later := Served(utf8, blank, source.Rest(), source.broken);
      if !Asks(reading.line, blank) {
        assert lines + ([] + later) == lines + later;
        continue;
      }
      assert lines + ([reading.line] + later) == lines + [reading.line] + later;
      lines := lines + [reading.line];
    }
  }

  lemma NextIsShorter(utf8: seq<Byte> -> bool, bytes: seq<Byte>, broken: bool)
    ensures var (reading, rest) := NextLine(utf8, bytes, broken); reading.Read? ==> |rest| < |bytes|
  {
    hide FirstLf, Judged;
  }

  /** The lines that ask for something, up to the first that does not decode. */
  function Asking(lines: seq<Line>, blank: seq<Byte> -> bool): (kept: seq<Line>)
  {
    if lines == [] || lines[0].NotText? then []
    else (if Asks(lines[0], blank) then [lines[0]] else []) + Asking(lines[1..], blank)
  }

  /** On sound input the server answers exactly the lines that ask for something before the first that does not decode. */
  lemma {:induction false} ServesUntilUndecodable(utf8: seq<Byte> -> bool, blank: seq<Byte> -> bool, bytes: seq<Byte>)
    ensures Served(utf8, blank, bytes, false) == Asking(AllLines(utf8, bytes), blank)
    decreases |bytes|
  {
    hide NextLine, Asks;
    NextIsShorter(utf8, bytes, false);
    var (reading, rest) := NextLine(utf8, bytes, false);
    if reading.Read? {
      ServesUntilUndecodable(utf8, blank, rest);
      assert ([reading.line] + AllLines(utf8, rest))[1..] == AllLines(utf8, rest);
    }
  }
}
