/** The record splitter and dispatcher of `checkFinesStream`
    (src/api.ts:108-132), as a fold over the already-decoded text chunks.

    The loop keeps a carry-over `buffer`; each chunk is appended to it, the
    text is split on '\n', the last piece is held back as the new buffer and
    every complete line is dispatched. A line is only looked at when it begins
    with "data: "; the rest of it goes to `JSON.parse`, modelled by the
    parameter `parse` (`None` when parsing throws), and the parsed object is
    routed on its `type`. The callbacks' calls are recorded as a trace of
    events. */
module StreamReader {
  import opened Wrappers
  import opened Text

  const DataPrefix := "data: "

  /** The fields of a parsed record that the dispatcher reads: `data.type`,
      `data.result` and `data.summary`. */
  datatype Message<R, S> = Message(kind: string, result: R, summary: S)

  /** One callback invocation: `onResult(r)` or `onDone(s)`. */
  datatype Event<R, S> = OnResult(result: R) | OnDone(summary: S)

  /** The state of the reading loop, with the lines it has examined and the
      callbacks it has made so far. */
  datatype Reader<R, S> = Reader(buffer: string, examined: seq<string>, events: seq<Event<R, S>>)

  predicate NoNewline(s: string) {
    '\n' !in s
  }

  predicate AllNoNewline(lines: seq<string>) {
    forall i :: 0 <= i < |lines| ==> NoNewline(lines[i])
  }

  /** Pieces glued back together with '\n' between them. */
  function Join(pieces: seq<string>): string
    requires |pieces| >= 1
    decreases |pieces|
  {
    if |pieces| == 1 then pieces[0] else pieces[0] + "\n" + Join(pieces[1..])
  }

  /** Lines each followed by '\n'. */
  function Unlines(lines: seq<string>): string
    decreases |lines|
  {
    if |lines| == 0 then "" else lines[0] + "\n" + Unlines(lines[1..])
  }

  /** The text of all chunks in arrival order. */
  function Concat(chunks: seq<string>): string
    decreases |chunks|
  {
    if |chunks| == 0 then "" else Concat(chunks[..|chunks| - 1]) + chunks[|chunks| - 1]
  }

  /** The position of the first newline of a text that has one. */
  function FirstNewline(s: string): (i: nat)
    requires !NoNewline(s)
    ensures i < |s| && s[i] == '\n'
    ensures NoNewline(s[..i])
    decreases |s|
  {
    if s[0] == '\n' then 0
    else
      assert '\n' in s[1..] by {
        var k :| 0 <= k < |s| && s[k] == '\n';
        assert s[1..][k - 1] == '\n';
      }
      var j := FirstNewline(s[1..]);
      assert s[..j + 1] == [s[0]] + s[1..][..j];
      j + 1
  }

  /** `s.split('\n')`: never empty, no piece holds a newline, and joining the
      pieces with newlines gives back `s`. */
  function Split(s: string): (pieces: seq<string>)
    ensures |pieces| >= 1
    ensures AllNoNewline(pieces)
    ensures Join(pieces) == s
    decreases |s|
  {
    if NoNewline(s) then [s]
    else
      var i := FirstNewline(s);
      var rest := Split(s[i + 1..]);
      var pieces := [s[..i]] + rest;
      assert pieces[1..] == rest;
      assert s == s[..i] + "\n" + s[i + 1..];
      assert AllNoNewline(pieces) by {
        forall k | 1 <= k < |pieces| ensures NoNewline(pieces[k]) {
          assert pieces[k] == rest[k - 1];
        }
      }
      pieces
  }

  /** Text without a newline splits into itself alone. */
  lemma SplitNoNewline(s: string)
    requires NoNewline(s)
    ensures Split(s) == [s]
  {
  }

  /** A complete line in front of the text becomes the first piece. */
  lemma SplitAfterLine(line: string, t: string)
    requires NoNewline(line)
    ensures Split(line + "\n" + t) == [line] + Split(t)
  {
    var s := line + "\n" + t;
    assert s[|line|] == '\n';
    assert !NoNewline(s);
    var i := FirstNewline(s);
    assert i == |line|;
    assert s[..i] == line;
    assert s[i + 1..] == t;
  }

  /** Split is the only way to cut a text into newline-free pieces. */
  lemma {:induction false} SplitUnique(s: string, pieces: seq<string>)
    requires |pieces| >= 1
    requires AllNoNewline(pieces)
    requires Join(pieces) == s
    ensures pieces == Split(s)
    decreases |pieces|
  {
    if |pieces| == 1 {
      assert NoNewline(pieces[0]);
      SplitNoNewline(s);
    } else {
      assert NoNewline(pieces[0]);
      assert AllNoNewline(pieces[1..]) by {
        forall i | 0 <= i < |pieces[1..]| ensures NoNewline(pieces[1..][i]) {
          assert pieces[1..][i] == pieces[i + 1];
        }
      }
      SplitUnique(Join(pieces[1..]), pieces[1..]);
      SplitAfterLine(pieces[0], Join(pieces[1..]));
      assert [pieces[0]] + pieces[1..] == pieces;
    }
  }

  lemma {:induction false} UnlinesAppend(a: seq<string>, b: seq<string>)
    ensures Unlines(a + b) == Unlines(a) + Unlines(b)
    decreases |a|
  {
    if |a| > 0 {
      assert (a + b)[1..] == a[1..] + b;
      UnlinesAppend(a[1..], b);
    } else {
      assert a + b == b;
    }
  }

  /** Joining pieces is writing all but the last as complete lines and then
      the last one. */
  lemma {:induction false} JoinAsUnlines(pieces: seq<string>)
    requires |pieces| >= 1
    ensures Join(pieces) == Unlines(pieces[..|pieces| - 1]) + pieces[|pieces| - 1]
    decreases |pieces|
  {
    if |pieces| > 1 {
      JoinAsUnlines(pieces[1..]);
      assert pieces[1..][..|pieces[1..]| - 1] == pieces[..|pieces| - 1][1..];
    }
  }

  /** One chunk of the loop (src/api.ts:116-118): append the chunk to the
      buffer, split on '\n' and hold back the last piece. The complete lines
      followed by the new buffer are exactly the old buffer plus the chunk,
      and the new buffer never holds a newline. */
  function Feed(buffer: string, chunk: string): (r: (seq<string>, string))
    ensures AllNoNewline(r.0)
    ensures NoNewline(r.1)
    ensures Unlines(r.0) + r.1 == buffer + chunk
  {
    var pieces := Split(buffer + chunk);
    JoinAsUnlines(pieces);
    (pieces[..|pieces| - 1], pieces[|pieces| - 1])
  }

  /** The parsed record of a line, or `None` when the line is not a
      "data: " line or its payload does not parse. Only the text after the
      six-character prefix is handed to the parser. */
  function Decode<R, S>(parse: string -> Option<Message<R, S>>, line: string): (m: Option<Message<R, S>>)
    ensures m.Some? ==> StartsWith(line, DataPrefix) && parse(line[|DataPrefix|..]) == m
    ensures StartsWith(line, DataPrefix) ==> m == parse(line[|DataPrefix|..])
  {
    if StartsWith(line, DataPrefix) then parse(line[|DataPrefix|..]) else None
  }

  /** A record written as the prefix followed by a payload decodes to the
      payload's parse. */
  lemma DecodeDataLine<R, S>(parse: string -> Option<Message<R, S>>, payload: string)
    ensures Decode(parse, DataPrefix + payload) == parse(payload)
  {
    assert (DataPrefix + payload)[..|DataPrefix|] == DataPrefix;
    assert (DataPrefix + payload)[|DataPrefix|..] == payload;
  }

  /** The callbacks one line triggers (src/api.ts:121-129). */
  function DispatchLine<R, S>(parse: string -> Option<Message<R, S>>, line: string): (r: seq<Event<R, S>>)
    ensures |r| <= 1
    ensures !StartsWith(line, DataPrefix) ==> r == []
    ensures r != [] && r[0].OnResult? <==> Decode(parse, line).Some? && Decode(parse, line).value.kind == "result"
    ensures r != [] && r[0].OnDone? <==> Decode(parse, line).Some? && Decode(parse, line).value.kind == "done"
    ensures r != [] && r[0].OnResult? ==> r[0].result == Decode(parse, line).value.result
    ensures r != [] && r[0].OnDone? ==> r[0].summary == Decode(parse, line).value.summary
  {
    match Decode(parse, line)
    case None => []
    case Some(m) =>
      if m.kind == "result" then [OnResult(m.result)]
      else if m.kind == "done" then [OnDone(m.summary)]
      else []
  }

  /** The callbacks a run of lines triggers, in line order. */
  function DispatchAll<R, S>(parse: string -> Option<Message<R, S>>, lines: seq<string>): (r: seq<Event<R, S>>)
    ensures |r| <= |lines|
    decreases |lines|
  {
    if |lines| == 0 then [] else DispatchLine(parse, lines[0]) + DispatchAll(parse, lines[1..])
  }

  lemma {:induction false} DispatchAllAppend<R, S>(parse: string -> Option<Message<R, S>>, a: seq<string>, b: seq<string>)
    ensures DispatchAll(parse, a + b) == DispatchAll(parse, a) + DispatchAll(parse, b)
    decreases |a|
  {
    if |a| > 0 {
      assert (a + b)[1..] == a[1..] + b;
      DispatchAllAppend(parse, a[1..], b);
    } else {
      assert a + b == b;
    }
  }

  /** The loop before the first chunk. */
  function Start<R, S>(): Reader<R, S> {
    Reader("", [], [])
  }

  /** One iteration of the read loop: feed the chunk, then dispatch every
      complete line. */
  function Step<R, S>(parse: string -> Option<Message<R, S>>, rd: Reader<R, S>, chunk: string): (rd': Reader<R, S>)
    ensures NoNewline(rd'.buffer)
    ensures |rd.examined| <= |rd'.examined| && rd'.examined[..|rd.examined|] == rd.examined
    ensures |rd.events| <= |rd'.events| && rd'.events[..|rd.events|] == rd.events
    ensures Unlines(rd'.examined[|rd.examined|..]) + rd'.buffer == rd.buffer + chunk
  {
    var (lines, rest) := Feed(rd.buffer, chunk);
    Reader(rest, rd.examined + lines, rd.events + DispatchAll(parse, lines))
  }

  /** What the loop guarantees after reading `text`: the buffer holds no
      newline, the examined lines followed by the buffer are all the text
      received, and the callbacks made are those of the examined lines in
      order. */
  ghost predicate Consistent<R, S>(parse: string -> Option<Message<R, S>>, rd: Reader<R, S>, text: string) {
    && NoNewline(rd.buffer)
    && AllNoNewline(rd.examined)
    && Unlines(rd.examined) + rd.buffer == text
    && rd.events == DispatchAll(parse, rd.examined)
  }

  lemma AllNoNewlineAppend(a: seq<string>, b: seq<string>)
    requires AllNoNewline(a) && AllNoNewline(b)
    ensures AllNoNewline(a + b)
  {
    forall i | 0 <= i < |a + b|
      ensures NoNewline((a + b)[i])
    {
      if i < |a| {
        assert (a + b)[i] == a[i];
      } else {
        assert (a + b)[i] == b[i - |a|];
      }
    }
  }

  /** Appending complete lines that, with a new buffer, re-form the old
      buffer plus a chunk keeps the loop consistent. */
  lemma ExtendConsistent<R, S>(parse: string -> Option<Message<R, S>>, rd: Reader<R, S>, text: string,
                               chunk: string, lines: seq<string>, rest: string)
    requires Consistent(parse, rd, text)
    requires AllNoNewline(lines) && NoNewline(rest)
    requires Unlines(lines) + rest == rd.buffer + chunk
    ensures Consistent(parse, Reader(rest, rd.examined + lines, rd.events + DispatchAll(parse, lines)), text + chunk)
  {
    DispatchAllAppend(parse, rd.examined, lines);
    AllNoNewlineAppend(rd.examined, lines);
    UnlinesAppend(rd.examined, lines);
    Regroup(Unlines(rd.examined), Unlines(lines), rest, rd.buffer, chunk, text);
  }

  lemma Regroup(u: string, v: string, rest: string, buffer: string, chunk: string, text: string)
    requires v + rest == buffer + chunk
    requires u + buffer == text
    ensures (u + v) + rest == text + chunk
  {
    calc {
      (u + v) + rest;
      u + (v + rest);
      u + (buffer + chunk);
      (u + buffer) + chunk;
    }
  }

  lemma StepConsistent<R, S>(parse: string -> Option<Message<R, S>>, rd: Reader<R, S>, text: string, chunk: string)
    requires Consistent(parse, rd, text)
    ensures Consistent(parse, Step(parse, rd, chunk), text + chunk)
  {
    var fed := Feed(rd.buffer, chunk);
    ExtendConsistent(parse, rd, text, chunk, fed.0, fed.1);
  }

  /** The loop after the given chunks have been read: a left fold of Step.
      At every point the buffer holds no newline, the examined lines followed
      by the buffer are all the text received, and the callbacks made are
      those of the examined lines in order. */
  function Run<R, S>(parse: string -> Option<Message<R, S>>, chunks: seq<string>): (rd: Reader<R, S>)
    ensures NoNewline(rd.buffer)
    ensures AllNoNewline(rd.examined)
    ensures Unlines(rd.examined) + rd.buffer == Concat(chunks)
    ensures rd.events == DispatchAll(parse, rd.examined)
    decreases |chunks|
  {
    if |chunks| == 0 then Start()
    else
      var before := Run(parse, chunks[..|chunks| - 1]);
      StepConsistent(parse, before, Concat(chunks[..|chunks| - 1]), chunks[|chunks| - 1]);
      Step(parse, before, chunks[|chunks| - 1])
  }

  /** The lines examined by the end of the stream are the '\n'-terminated
      lines of all the text received, and the buffer is the text after the
      last newline, which is never examined. */
  lemma StreamLines<R, S>(parse: string -> Option<Message<R, S>>, chunks: seq<string>)
    ensures Run(parse, chunks).examined + [Run(parse, chunks).buffer] == Split(Concat(chunks))
  {
    var rd := Run(parse, chunks);
    var pieces := rd.examined + [rd.buffer];
    assert pieces[..|pieces| - 1] == rd.examined;
    JoinAsUnlines(pieces);
    assert AllNoNewline(pieces) by {
      forall i | 0 <= i < |pieces| ensures NoNewline(pieces[i]) {
        if i < |rd.examined| {
          assert pieces[i] == rd.examined[i];
        }
      }
    }
    SplitUnique(Concat(chunks), pieces);
  }

  /** Chunk-boundary invariance: however the same text is cut into chunks,
      the loop ends with the same buffer, has examined the same lines and has
      made the same callbacks in the same order. */
  lemma ChunkBoundaryInvariance<R, S>(parse: string -> Option<Message<R, S>>, chunks: seq<string>, other: seq<string>)
    requires Concat(chunks) == Concat(other)
    ensures Run(parse, chunks) == Run(parse, other)
  {
    StreamLines(parse, chunks);
    StreamLines(parse, other);
    var a := Run(parse, chunks);
    var b := Run(parse, other);
    assert a.examined == (a.examined + [a.buffer])[..|a.examined|];
    assert b.examined == (b.examined + [b.buffer])[..|b.examined|];
  }

  /** In particular the text delivered in one piece behaves like any
      chunking of it. */
  lemma SingleChunkEquivalent<R, S>(parse: string -> Option<Message<R, S>>, chunks: seq<string>)
    ensures Run(parse, chunks) == Run(parse, [Concat(chunks)])
  {
    var one := [Concat(chunks)];
    assert one[..0] == [];
    assert Concat(one) == Concat(chunks);
    ChunkBoundaryInvariance(parse, chunks, one);
  }

  /** Lines without the "data: " prefix never trigger a callback. */
  lemma {:induction false} UnprefixedLinesSilent<R, S>(parse: string -> Option<Message<R, S>>, lines: seq<string>)
    requires forall i :: 0 <= i < |lines| ==> !StartsWith(lines[i], DataPrefix)
    ensures DispatchAll(parse, lines) == []
    decreases |lines|
  {
    if |lines| > 0 {
      UnprefixedLinesSilent(parse, lines[1..]);
    }
  }

  /** A record whose payload fails to parse is skipped, and the lines after
      it are dispatched as if it were absent. */
  lemma SkipUnparsable<R, S>(parse: string -> Option<Message<R, S>>, before: seq<string>, bad: string, after: seq<string>)
    requires !StartsWith(bad, DataPrefix) || parse(bad[|DataPrefix|..]) == None
    ensures DispatchAll(parse, before + [bad] + after) == DispatchAll(parse, before) + DispatchAll(parse, after)
  {
    DispatchAllAppend(parse, before, [bad] + after);
    assert before + [bad] + after == before + ([bad] + after);
    DispatchCons(parse, bad, after);
  }

  /** The callbacks of a line followed by more lines. */
  lemma DispatchCons<R, S>(parse: string -> Option<Message<R, S>>, line: string, rest: seq<string>)
    ensures DispatchAll(parse, [line] + rest) == DispatchLine(parse, line) + DispatchAll(parse, rest)
  {
    assert ([line] + rest)[1..] == rest;
  }

  /** A "done" record calls `onDone` once and does not stop the loop: the
      lines after it are still dispatched. */
  lemma DoneDoesNotStop<R, S>(parse: string -> Option<Message<R, S>>, before: seq<string>, done: string, after: seq<string>)
    requires Decode(parse, done).Some? && Decode(parse, done).value.kind == "done"
    ensures DispatchAll(parse, before + [done] + after)
         == DispatchAll(parse, before) + [OnDone(Decode(parse, done).value.summary)] + DispatchAll(parse, after)
  {
    DispatchAllAppend(parse, before, [done] + after);
    assert before + [done] + after == before + ([done] + after);
    DispatchCons(parse, done, after);
    assert DispatchLine(parse, done) == [OnDone(Decode(parse, done).value.summary)];
  }

  /** The dispatcher reads nothing of a line but its payload after the
      prefix: two parsers that agree on that payload dispatch alike. */
  lemma PayloadIsAfterPrefix<R, S>(parse: string -> Option<Message<R, S>>, parse': string -> Option<Message<R, S>>, line: string)
    requires StartsWith(line, DataPrefix) ==> parse(line[|DataPrefix|..]) == parse'(line[|DataPrefix|..])
    ensures DispatchLine(parse, line) == DispatchLine(parse', line)
  {
  }
}
