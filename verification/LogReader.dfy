/**
 The log reader: a stream that arrives in arbitrary reads is forwarded as log entries, one per line.
 A partial line that has waited through a read without output is sent early.
 */
module LogReader {
  import opened Wrappers
  import opened Strings

  datatype Status = More | Eof | Broken
  datatype Read = Read(data: string, status: Status)

  // no timestamp is Go's zero time
  datatype LogEntry = LogEntry(timestamp: Option<int>, content: string)

  // A stream ends with its first read that reports end of file or an error.
  predicate Complete(input: seq<Read>) {
    && input != []
    && input[|input| - 1].status != More
    && forall i :: 0 <= i < |input| - 1 ==> input[i].status == More
  }

  // The data the reader keeps: that of a read that fails is dropped.
  function Received(input: seq<Read>): (parts: seq<string>) {
    if input == [] then []
    else
      var r := input[|input| - 1];
      Received(input[..|input| - 1]) + if r.status == Broken then [] else [r.data]
  }

  // `parse` stands for the RFC 3339 parser.
  function LogEntryFromLine(line: string, parse: string -> Option<int>): LogEntry {
    if line == "" then LogEntry(None, "")
    else
      var parts := Split(line, ' ');
      match parse(parts[0])
      case None => LogEntry(None, line)
      case Some(t) => LogEntry(Some(t), Join(parts[1..], ' '))
  }

  function Entries(lines: seq<string>, parse: string -> Option<int>): (r: seq<LogEntry>)
    ensures |r| == |lines|
    ensures forall i :: 0 <= i < |lines| ==> r[i] == LogEntryFromLine(lines[i], parse)
  {
    seq(|lines|, i requires 0 <= i < |lines| => LogEntryFromLine(lines[i], parse))
  }

  lemma EntriesAppend(a: seq<string>, b: seq<string>, parse: string -> Option<int>)
    ensures Entries(a + b, parse) == Entries(a, parse) + Entries(b, parse)
  {
    hide LogEntryFromLine;
  }

  // ----- what has been sent after the reads so far, the partial line kept, and the size of the last chunk

  datatype Progress = Progress(lines: seq<string>, tail: string, sent: int)

  function Pieces(parts: seq<string>): (r: seq<string>)
    requires parts != []
    ensures r != []
    decreases |parts|, 0
  {
    Split(After(parts[..|parts| - 1]).tail + parts[|parts| - 1], '\n')
  }

  // Is the partial line sent early on the last of these reads?
  predicate Flushed(parts: seq<string>)
    requires parts != []
    decreases |parts|, 1
  {
    After(parts[..|parts| - 1]).sent == 0 && Pieces(parts)[|Pieces(parts)| - 1] != ""
  }

  function After(parts: seq<string>): Progress
    decreases |parts|, 2
  {
    if parts == [] then Progress([], "", -1)
    else
      var before := After(parts[..|parts| - 1]);
      var pieces := Pieces(parts);
      if Flushed(parts) then Progress(before.lines + pieces, "", |pieces|)
      else Progress(before.lines + pieces[..|pieces| - 1], pieces[|pieces| - 1], |pieces| - 1)
  }

  // All lines sent when the stream has ended: the kept partial line is sent too, even if it is empty.
  function Emitted(parts: seq<string>): seq<string> {
    After(parts).lines + [After(parts).tail]
  }

  lemma NothingYet(parse: string -> Option<int>)
    ensures After([]) == Progress([], "", -1)
    ensures Entries([], parse) == [] == Concat<LogEntry>([])
  {
  }

  lemma RestSent(input: seq<Read>, chunks: seq<seq<LogEntry>>, parse: string -> Option<int>)
    requires Concat(chunks) == Entries(After(Received(input)).lines, parse)
    ensures Concat(chunks + [[LogEntryFromLine(After(Received(input)).tail, parse)]]) ==
      Entries(Emitted(Received(input)), parse)
  {
    hide LogEntryFromLine;
    var p := After(Received(input));
    EntriesAppend(p.lines, [p.tail], parse);
    ConcatAppend(chunks, [LogEntryFromLine(p.tail, parse)]);
  }

  lemma ReceivedStep(input: seq<Read>, i: nat)
    requires i < |input|
    ensures Received([]) == []
    ensures Received(input[..i + 1]) ==
      if input[i].status == Broken then Received(input[..i]) else Received(input[..i]) + [input[i].data]
  {
    assert input[..i + 1][..i] == input[..i];
  }

  // After one more read, as the loop below sees it.
  lemma OneMore(seen: seq<string>, data: string, parse: string -> Option<int>)
    ensures var before, after := After(seen), After(seen + [data]);
      var pieces := Split(before.tail + data, '\n');
      var n := |pieces| - 1;
      if before.sent == 0 && pieces[n] != "" then
        after.tail == "" && after.sent == n + 1
        && Entries(after.lines, parse) == Entries(before.lines, parse) + Entries(pieces, parse)
      else
        after.tail == pieces[n] && after.sent == n
        && Entries(after.lines, parse) == Entries(before.lines, parse) + Entries(pieces[..n], parse)
  {
    hide LogEntryFromLine, Split, Entries;
    var more := seen + [data];
    assert more[..|seen|] == seen;
    EntriesAppend(After(seen).lines, Pieces(more), parse);
    EntriesAppend(After(seen).lines, Pieces(more)[..|Pieces(more)| - 1], parse);
  }

  // One turn of the loop: the complete lines of the content, and perhaps the partial one.
  method NextChunk(lastLine: string, data: string, lastChunkSent: int, parse: string -> Option<int>)
    returns (chunk: seq<LogEntry>, partial: string)
    ensures var pieces := Split(lastLine + data, '\n');
      var n := |pieces| - 1;
      if lastChunkSent == 0 && pieces[n] != "" then chunk == Entries(pieces, parse) && partial == ""
      else chunk == Entries(pieces[..n], parse) && partial == pieces[n]
  {
    var lines := Split(lastLine + data, '\n');
    chunk := [];
    var j := 0;
    while j < |lines| - 1
      invariant 0 <= j <= |lines| - 1
      invariant chunk == Entries(lines[..j], parse)
    {
      chunk := chunk + [LogEntryFromLine(lines[j], parse)];
      j := j + 1;
    }
    partial := lines[j];
    if lastChunkSent == 0 && partial != "" {
      chunk := chunk + [LogEntryFromLine(partial, parse)];
      partial := "";
    }
  }

  method Forward(input: seq<Read>, parse: string -> Option<int>) returns (chunks: seq<seq<LogEntry>>)
    requires Complete(input)
    ensures Concat(chunks) == Entries(Emitted(Received(input)), parse)
    ensures forall k :: 0 <= k < |chunks| ==> |chunks[k]| > 0
    ensures |Concat(chunks)| == |Emitted(Received(input))|
    ensures forall k :: 0 <= k < |Concat(chunks)| ==> Shows(Concat(chunks)[k], Emitted(Received(input))[k], parse)
  {
    hide Shows, LogEntryFromLine, Split, Entries, After, Emitted, Received, Concat;
    NothingYet(parse);
    ReceivedStep(input, 0);
    assert input[..0] == [];
    chunks := [];
    var lastChunkSent := -1;
    var lastLine := "";
    var i := 0;
    ghost var seen: seq<string> := [];
    while true
      invariant 0 <= i < |input|
      invariant seen == Received(input[..i])
      invariant lastLine == After(seen).tail && lastChunkSent == After(seen).sent
      invariant Concat(chunks) == Entries(After(seen).lines, parse)
      invariant forall k :: 0 <= k < |chunks| ==> |chunks[k]| > 0
      decreases |input| - i
    {
      var read := input[i];
      ReceivedStep(input, i);
      if read.status == Broken {
        break;
      }
      ghost var more := seen + [read.data];
      OneMore(seen, read.data, parse);
      var chunk, partial := NextChunk(lastLine, read.data, lastChunkSent, parse);
      if |chunk| > 0 {
        ConcatAppend(chunks, chunk);
        chunks := chunks + [chunk];
      }
      lastChunkSent, lastLine := |chunk|, partial;
      seen := more;
      if read.status == Eof {
        break;
      }
      i := i + 1;
    }
    assert input[..i + 1] == input;
    RestSent(input, chunks, parse);
    chunks := chunks + [[LogEntryFromLine(lastLine, parse)]];
    EntriesShow(Emitted(Received(input)), parse);
  }

  // ----- reference: the stream with a newline put in wherever a partial line was sent early

  function Flushes(parts: seq<string>): nat {
    if parts == [] then 0 else Flushes(parts[..|parts| - 1]) + if Flushed(parts) then 1 else 0
  }

  function Marked(parts: seq<string>): string {
    if parts == [] then ""
    else Marked(parts[..|parts| - 1]) + parts[|parts| - 1] + if Flushed(parts) then "\n" else ""
  }

  lemma {:induction false} EmittedIsSplitOfMarked(parts: seq<string>)
    ensures Split(Marked(parts), '\n') == Emitted(parts)
  {
    if parts != [] {
      var n := |parts| - 1;
      var m := Marked(parts[..n]);
      EmittedIsSplitOfMarked(parts[..n]);
      SplitAppend(m, parts[n], '\n');
      var pieces := Pieces(parts);
      assert Split(m + parts[n], '\n') == After(parts[..n]).lines + pieces;
      if Flushed(parts) {
        SplitSnoc(m + parts[n], '\n', '\n');
      } else {
        assert m + parts[n] + "" == m + parts[n];
        assert pieces == pieces[..|pieces| - 1] + [pieces[|pieces| - 1]];
      }
    }
  }

  lemma {:induction false} MarkedCounts(parts: seq<string>)
    ensures Count(Marked(parts), '\n') == Count(Concat(parts), '\n') + Flushes(parts)
    ensures Without(Marked(parts), '\n') == Without(Concat(parts), '\n')
    ensures Flushes(parts) == 0 ==> Marked(parts) == Concat(parts)
  {
    if parts != [] {
      var n := |parts| - 1;
      MarkedCounts(parts[..n]);
      var m, c, nl := Marked(parts[..n]), Concat(parts[..n]), if Flushed(parts) then "\n" else "";
      CountAppend(m, parts[n], '\n');
      CountAppend(m + parts[n], nl, '\n');
      CountAppend(c, parts[n], '\n');
      assert nl == "\n" ==> nl[..0] == "";
    }
  }

  // ----- main results

  // However the stream is cut into reads: no line sent holds a newline, the lines make up the
  // stream without its newlines, and there is one more than newlines and early sends.
  lemma NothingLost(parts: seq<string>)
    ensures forall i :: 0 <= i < |Emitted(parts)| ==> '\n' !in Emitted(parts)[i]
    ensures Concat(Emitted(parts)) == Without(Concat(parts), '\n')
    ensures |Emitted(parts)| == Count(Concat(parts), '\n') + Flushes(parts) + 1
  {
    EmittedIsSplitOfMarked(parts);
    MarkedCounts(parts);
    JoinOfSplit(Marked(parts), '\n');
  }

  // what follows the last newline of the stream
  function LastPiece(s: string): string {
    Split(s, '\n')[|Split(s, '\n')| - 1]
  }

  // The condition on the cut: after a read without a newline, the next one leaves no partial line.
  predicate Waits(parts: seq<string>, i: nat)
    requires 1 <= i < |parts|
  {
    '\n' in parts[i - 1] || LastPiece(Concat(parts[..i + 1])) == ""
  }

  ghost predicate KeepsLines(parts: seq<string>) {
    forall i :: 1 <= i < |parts| ==> Waits(parts, i)
  }

  lemma KeepsLinesStep(parts: seq<string>)
    requires parts != []
    ensures var n := |parts| - 1;
      KeepsLines(parts) <==> KeepsLines(parts[..n]) && (n > 0 ==> Waits(parts, n))
  {
    hide LastPiece, Concat;
    var n := |parts| - 1;
    forall i | 1 <= i < n
      ensures Waits(parts[..n], i) == Waits(parts, i)
    {
      assert parts[..n][..i + 1] == parts[..i + 1];
    }
  }

  // Without early sends, a read that holds no newline is one that sent nothing.
  lemma {:induction false} SentNothing(parts: seq<string>)
    requires parts != [] && !Flushed(parts)
    ensures After(parts).sent == 0 <==> '\n' !in parts[|parts| - 1]
  {
    var n := |parts| - 1;
    var tail := After(parts[..n]).tail;
    EmittedIsSplitOfMarked(parts[..n]);
    JoinOfSplit(Marked(parts[..n]), '\n');
    var e := Emitted(parts[..n]);
    assert e[|e| - 1] == tail;
    CountIsMembership(tail, '\n');
    CountIsMembership(parts[n], '\n');
    CountAppend(tail, parts[n], '\n');
    JoinOfSplit(tail + parts[n], '\n');
  }

  lemma {:induction false} NoFlushExactlyWhen(parts: seq<string>)
    ensures Flushes(parts) == 0 <==> KeepsLines(parts)
  {
    hide Flushed, Waits, KeepsLines;
    if parts == [] {
      KeepsNoLines();
    } else {
      var n := |parts| - 1;
      NoFlushExactlyWhen(parts[..n]);
      KeepsLinesStep(parts);
      if Flushes(parts[..n]) == 0 {
        FlushedExactlyWhen(parts);
      }
    }
  }

  lemma KeepsNoLines()
    ensures KeepsLines([])
  {
  }

  lemma FlushedExactlyWhen(parts: seq<string>)
    requires parts != [] && Flushes(parts[..|parts| - 1]) == 0
    ensures Flushed(parts) <==> |parts| > 1 && !Waits(parts, |parts| - 1)
  {
    hide Split, Marked, Flushes, Concat, LastPiece, Pieces;
    var n := |parts| - 1;
    LastPieceOf(parts);
    assert parts[..n + 1] == parts;
    if n > 0 {
      hide After, Flushed;
      FlushedIs(parts);
      NotFlushed(parts[..n]);
      SentNothing(parts[..n]);
    }
  }

  lemma FlushedIs(parts: seq<string>)
    requires parts != []
    ensures Flushed(parts) <==>
      After(parts[..|parts| - 1]).sent == 0 && Pieces(parts)[|Pieces(parts)| - 1] != ""
  {
  }

  lemma NotFlushed(parts: seq<string>)
    requires parts != [] && Flushes(parts) == 0
    ensures !Flushed(parts)
  {
  }

  // As long as nothing was sent early, the partial line kept is the end of the stream.
  lemma LastPieceOf(parts: seq<string>)
    requires parts != [] && Flushes(parts[..|parts| - 1]) == 0
    ensures LastPiece(Concat(parts)) == Pieces(parts)[|Pieces(parts)| - 1]
  {
    hide Split, Marked, Flushes, After;
    var n := |parts| - 1;
    MarkedCounts(parts[..n]);
    EmittedIsSplitOfMarked(parts[..n]);
    SplitAppend(Marked(parts[..n]), parts[n], '\n');
  }

  // The lines sent are the lines of the stream exactly when the reads meet that condition; in
  // particular when every read but the last holds a newline.
  lemma SplitsTheStreamExactlyWhen(parts: seq<string>)
    ensures Emitted(parts) == Split(Concat(parts), '\n') <==> KeepsLines(parts)
    ensures (forall i :: 0 <= i < |parts| - 1 ==> '\n' in parts[i]) ==> KeepsLines(parts)
  {
    NoFlushExactlyWhen(parts);
    NothingLost(parts);
    JoinOfSplit(Concat(parts), '\n');
    MarkedCounts(parts);
    EmittedIsSplitOfMarked(parts);
  }

  // A failing read loses its own data and nothing else.
  lemma ReceivedIsAllButTheBroken(input: seq<Read>)
    requires Complete(input)
    ensures |Received(input)| == if input[|input| - 1].status == Broken then |input| - 1 else |input|
    ensures forall i :: 0 <= i < |Received(input)| ==> Received(input)[i] == input[i].data
  {
    var n := |input| - 1;
    ReceivedMore(input[..n]);
  }

  lemma {:induction false} ReceivedMore(input: seq<Read>)
    requires forall i :: 0 <= i < |input| ==> input[i].status == More
    ensures |Received(input)| == |input|
    ensures forall i :: 0 <= i < |input| ==> Received(input)[i] == input[i].data
  {
    if input != [] {
      ReceivedMore(input[..|input| - 1]);
    }
  }

  // what stands before the first space
  ghost predicate IsFirstField(line: string, first: string) {
    ' ' !in first && (line == first || first + " " <= line)
  }

  // The entry of a line, told by the line alone: the timestamp is what the parser makes of the first
  // field of a line that is not empty. If it makes nothing of it, the content is the line, else what
  // stands behind the first field.
  ghost predicate Shows(e: LogEntry, line: string, parse: string -> Option<int>) {
    exists first :: IsFirstField(line, first) && ShowsField(e, line, first, parse)
  }

  ghost predicate ShowsField(e: LogEntry, line: string, first: string, parse: string -> Option<int>) {
    && e.timestamp == (if line == "" then None else parse(first))
    && (e.timestamp.None? ==> e.content == line)
    && (e.timestamp.Some? ==> line == first + if ' ' in line then " " + e.content else e.content)
    && (e.timestamp.Some? && ' ' !in line ==> e.content == "")
  }

  // Every entry shows its line.
  lemma EntryKeepsTheLine(line: string, parse: string -> Option<int>)
    ensures Shows(LogEntryFromLine(line, parse), line, parse)
    ensures LogEntryFromLine(line, parse).timestamp == if line == "" then None else parse(Split(line, ' ')[0])
  {
    hide Split, Join;
    FirstOfSplit(line);
    var parts := Split(line, ' ');
    assert IsFirstField(line, parts[0]) && ShowsField(LogEntryFromLine(line, parse), line, parts[0], parse);
  }

  lemma FirstOfSplit(line: string)
    ensures var parts := Split(line, ' ');
      && IsFirstField(line, parts[0])
      && (' ' in line ==> line == parts[0] + " " + Join(parts[1..], ' '))
      && (' ' !in line ==> line == parts[0] && Join(parts[1..], ' ') == "")
  {
    hide Split, Join;
    var parts := Split(line, ' ');
    JoinOfSplit(line, ' ');
    CountIsMembership(line, ' ');
    JoinFirst(parts, ' ');
    if |parts| == 1 {
      assert parts[1..] == [];
      JoinNone(' ');
    }
  }

  lemma JoinNone(sep: char)
    ensures Join([], sep) == ""
  {
  }

  lemma EntriesShow(lines: seq<string>, parse: string -> Option<int>)
    ensures forall i :: 0 <= i < |lines| ==> Shows(Entries(lines, parse)[i], lines[i], parse)
  {
    hide Shows, LogEntryFromLine;
    forall i | 0 <= i < |lines|
      ensures Shows(Entries(lines, parse)[i], lines[i], parse)
    {
      EntryKeepsTheLine(lines[i], parse);
    }
  }

  lemma {:induction false} JoinFirst(parts: seq<string>, sep: char)
    requires |parts| >= 1
    ensures Join(parts, sep) == if |parts| == 1 then parts[0] else parts[0] + [sep] + Join(parts[1..], sep)
  {
    if |parts| > 2 {
      var n := |parts| - 1;
      JoinFirst(parts[..n], sep);
      assert parts[1..][..n - 1] == parts[..n][1..];
    } else if |parts| == 2 {
      assert parts[..1] == [parts[0]] && parts[1..] == [parts[1]];
    }
  }
}
