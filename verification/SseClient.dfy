/** The bounded line reader and message dispatcher of the event-stream client. */
module SseClient {
  import opened Options
  import opened Texts

  newtype Byte = x: int | 0 <= x < 256

  type Bytes = seq<Byte>

  const LF: Byte := 10
  const CR: Byte := 13

  // ------------------------------------------------------------------ splitting

  /** `chunk.split(b"\n")`: always at least one segment. */
  function Split(s: Bytes): (parts: seq<Bytes>)
    ensures parts != []
  {
    if s == [] then [[]]
    else
      var rest := Split(s[1..]);
      if s[0] == LF then [[]] + rest else [[s[0]] + rest[0]] + rest[1..]
  }

  /** The inverse of `Split`: the segments with a line feed between each two. */
  function Join(parts: seq<Bytes>): Bytes
    requires parts != []
  {
    if |parts| == 1 then parts[0] else parts[0] + [LF] + Join(parts[1..])
  }

  lemma JoinEmptyFirst(parts: seq<Bytes>)
    requires parts != []
    ensures Join([[]] + parts) == [LF] + Join(parts)
  {
    assert ([[]] + parts)[1..] == parts;
  }

  lemma JoinLongerFirst(x: Byte, first: Bytes, rest: seq<Bytes>)
    ensures Join([[x] + first] + rest) == [x] + Join([first] + rest)
  {
    var parts, longer := [first] + rest, [[x] + first] + rest;
    assert parts[1..] == rest && longer[1..] == rest;
    if rest != [] {
      var tail := Join(rest);
      assert ([x] + first) + [LF] + tail == [x] + (first + [LF] + tail);
    }
  }

  lemma {:induction false} SplitJoins(s: Bytes)
    ensures Join(Split(s)) == s
    ensures forall p :: p in Split(s) ==> LF !in p
  {
    hide Join;
    if s == [] {
      assert Join([[]]) == [] by { JoinOne([]); }
    } else {
      SplitJoins(s[1..]);
      var rest := Split(s[1..]);
      assert rest == [rest[0]] + rest[1..];
      JoinEmptyFirst(rest);
      JoinLongerFirst(s[0], rest[0], rest[1..]);
      assert s == [s[0]] + s[1..];
      assert rest[0] in rest;
    }
  }

  lemma JoinOne(part: Bytes)
    ensures Join([part]) == part
  {
  }

  /** `b`'s segments continue `a`'s: the last of `a` and the first of `b` are one segment. */
  function Continue(a: seq<Bytes>, b: seq<Bytes>): seq<Bytes>
    requires a != [] && b != []
  {
    Init(a) + [Final(a) + b[0]] + b[1..]
  }

  lemma ContinueMore(a: seq<Bytes>, b: seq<Bytes>, s: Bytes)
    requires a != []
    ensures b != [] ==> Continue(a, b + [s]) == Continue(a, b) + [s]
    ensures Continue(a, [s]) == Init(a) + [Final(a) + s]
  {
    assert b != [] ==> (b + [s])[1..] == b[1..] + [s];
  }

  lemma ContinueFirst(a: seq<Bytes>, b: seq<Bytes>, x: Byte)
    requires a != [] && b != []
    ensures Continue([[]] + a, b) == [[]] + Continue(a, b)
    ensures Continue([[x] + a[0]] + a[1..], b) == [[x] + Continue(a, b)[0]] + Continue(a, b)[1..]
  {
    assert Init([[]] + a) == [[]] + Init(a);
    if |a| == 1 {
      assert [x] + (a[0] + b[0]) == [x] + a[0] + b[0];
    } else {
      assert Init([[x] + a[0]] + a[1..]) == [[x] + Init(a)[0]] + Init(a)[1..];
    }
  }

  /** Cutting a stream in two splits the segment at the cut and no other. */
  lemma {:induction false} SplitAppend(a: Bytes, b: Bytes)
    ensures Split(a + b) == Continue(Split(a), Split(b))
  {
    if a == [] {
      assert a + b == b;
      assert [] + Split(b)[0] == Split(b)[0];
      assert Split(b) == [Split(b)[0]] + Split(b)[1..];
    } else {
      assert (a + b)[0] == a[0] && (a + b)[1..] == a[1..] + b;
      SplitAppend(a[1..], b);
      ContinueFirst(Split(a[1..]), Split(b), a[0]);
    }
  }

  function Init<T>(s: seq<T>): seq<T>
    requires s != []
  {
    s[..|s| - 1]
  }

  function Final<T>(s: seq<T>): T
    requires s != []
  {
    s[|s| - 1]
  }

  // ------------------------------------------------------------ the line reader

  function StripReturn(line: Bytes): Bytes {
    if line != [] && Final(line) == CR then Init(line) else line
  }

  /** One trailing carriage return goes, and nothing else. */
  lemma StripReturnExact(line: Bytes)
    ensures StripReturn(line + [CR]) == line
    ensures line == [] || Final(line) != CR ==> StripReturn(line) == line
  {
    assert Init(line + [CR]) == line;
  }

  /** Finished lines: those within the limit, without a trailing carriage return. */
  function Kept(parts: seq<Bytes>, limit: nat): seq<Bytes> {
    if parts == [] then []
    else Kept(Init(parts), limit) + (if |Final(parts)| <= limit then [StripReturn(Final(parts))] else [])
  }

  function Tail(part: Bytes, limit: nat): seq<Bytes> {
    if 0 < |part| <= limit then [StripReturn(part)] else []
  }

  /** What reading the whole stream means, without chunks, buffers or modes. */
  function Lines(stream: Bytes, limit: nat): seq<Bytes> {
    var parts := Split(stream);
    Kept(Init(parts), limit) + Tail(Final(parts), limit)
  }

  function Concat(chunks: seq<Bytes>): Bytes {
    if chunks == [] then [] else Concat(Init(chunks)) + Final(chunks)
  }

  /** The reader's two variables represent the unfinished line `part`. */
  ghost predicate Holds(buffer: Bytes, discarding: bool, part: Bytes, limit: nat) {
    && |buffer| <= limit
    && (if discarding then buffer == [] && |part| > limit else buffer == part)
  }

  /** Where the reader is after `k` of a chunk's segments: only the last segment leaves a line open. */
  ghost predicate Continuing(before: seq<Bytes>, segments: seq<Bytes>, k: nat, finished: seq<Bytes>, part: Bytes)
    requires before != []
  {
    && k <= |segments|
    && (k == 0 ==> finished == Init(before) && part == Final(before))
    && (0 < k < |segments| ==> finished == Continue(before, segments[..k]) && part == [])
    && (0 < k == |segments| ==> finished + [part] == Continue(before, segments))
  }

  lemma StepContinues(before: seq<Bytes>, segments: seq<Bytes>, k: nat, finished: seq<Bytes>, part: Bytes)
    requires before != [] && k < |segments| && Continuing(before, segments, k, finished, part)
    ensures if k + 1 < |segments|
            then Continuing(before, segments, k + 1, finished + [part + segments[k]], [])
            else Continuing(before, segments, k + 1, finished, part + segments[k])
  {
    assert segments[..k + 1] == segments[..k] + [segments[k]];
    assert segments[..|segments|] == segments;
    assert [] + segments[k] == segments[k];
    ContinueMore(before, segments[..k], segments[k]);
  }

  lemma ChunkBegins(before: seq<Bytes>, segments: seq<Bytes>)
    requires before != [] && segments != []
    ensures Continuing(before, segments, 0, Init(before), Final(before))
  {
  }

  lemma ChunkEnds(before: seq<Bytes>, segments: seq<Bytes>, finished: seq<Bytes>, part: Bytes)
    requires before != [] && segments != [] && Continuing(before, segments, |segments|, finished, part)
    ensures finished == Init(Continue(before, segments)) && part == Final(Continue(before, segments))
  {
    assert Init(finished + [part]) == finished;
  }

  lemma HoldsMore(buffer: Bytes, discarding: bool, part: Bytes, segment: Bytes, limit: nat)
    requires Holds(buffer, discarding, part, limit)
    ensures if discarding || |buffer| + |segment| > limit
            then Holds([], true, part + segment, limit)
            else Holds(buffer + segment, false, part + segment, limit)
  {
  }

  lemma BufferBounded(buffer: Bytes, discarding: bool, part: Bytes, limit: nat)
    requires Holds(buffer, discarding, part, limit)
    ensures |buffer| <= limit && (discarding ==> buffer == [])
  {
  }

  /** What is emitted at the end of a line is what the whole line calls for. */
  lemma FinishedLine(buffer: Bytes, discarding: bool, part: Bytes, finished: seq<Bytes>, limit: nat)
    requires Holds(buffer, discarding, part, limit)
    ensures Kept(finished + [part], limit)
         == if discarding then Kept(finished, limit) else Kept(finished, limit) + [StripReturn(buffer)]
  {
    assert Init(finished + [part]) == finished;
  }

  /** The same at the end of the stream, where an empty line is no line. */
  lemma UnfinishedLine(buffer: Bytes, discarding: bool, part: Bytes, limit: nat)
    requires Holds(buffer, discarding, part, limit)
    ensures Tail(part, limit) == if discarding || buffer == [] then [] else [StripReturn(buffer)]
  {
  }

  /** The body of the loop over the chunks, on the reader's variables; `stream` is what came before. */
  method ReadChunk(chunk: Bytes, limit: nat, buffer0: Bytes, discarding0: bool, lines0: seq<Bytes>,
                   ghost stream: Bytes, ghost peak0: nat)
    returns (buffer: Bytes, discarding: bool, lines: seq<Bytes>, ghost peak: nat)
    requires lines0 == Kept(Init(Split(stream)), limit)
    requires Holds(buffer0, discarding0, Final(Split(stream)), limit) && peak0 <= limit
    ensures lines == Kept(Init(Split(stream + chunk)), limit)
    ensures Holds(buffer, discarding, Final(Split(stream + chunk)), limit) && peak <= limit
  {
    hide Split, Continue, Kept, StripReturn, Continuing, Holds, Tail, Init;
    buffer, discarding, lines, peak := buffer0, discarding0, lines0, peak0;
    var segments := Split(chunk);
    ghost var before := Split(stream);
    ghost var finished, part := Init(before), Final(before);
    ChunkBegins(before, segments);
    for k := 0 to |segments|
      invariant lines == Kept(finished, limit)
      invariant Holds(buffer, discarding, part, limit) && peak <= limit
      invariant Continuing(before, segments, k, finished, part)
    {
      var segment := segments[k];
      var complete := k < |segments| - 1;
      HoldsMore(buffer, discarding, part, segment, limit);
      BufferBounded(buffer, discarding, part, limit);
      if !discarding {
        if |buffer| + |segment| > limit {
          buffer := [];
          discarding := true;
        } else {
          buffer := buffer + segment;
        }
      }
      StepContinues(before, segments, k, finished, part);
      part := part + segment;
      peak := if |buffer| > peak then |buffer| else peak;
      if complete {
        FinishedLine(buffer, discarding, part, finished, limit);
        if !discarding {
          lines := lines + [StripReturn(buffer)];
        }
        finished, part := finished + [part], [];
        buffer := [];
        discarding := false;
        NothingHeld(limit);
      }
    }
    SplitAppend(stream, chunk);
    ChunkEnds(before, segments, finished, part);
  }

  /** Reads the chunks one by one. `peak` is the most the buffer ever held. */
  method IterBoundedLines(chunks: seq<Bytes>, limit: nat) returns (lines: seq<Bytes>, ghost peak: nat)
    ensures lines == Lines(Concat(chunks), limit)
    ensures peak <= limit
  {
    var buffer: Bytes, discarding := [], false;
    lines, peak := [], 0;
    assert Split([]) == [[]] && Kept([], limit) == [] && Concat(chunks[..0]) == [];
    NothingHeld(limit);
    hide Split, Kept, StripReturn, Holds, Concat;
    for i := 0 to |chunks|
      invariant lines == Kept(Init(Split(Concat(chunks[..i]))), limit)
      invariant Holds(buffer, discarding, Final(Split(Concat(chunks[..i]))), limit) && peak <= limit
    {
      ConcatMore(chunks, i);
      buffer, discarding, lines, peak :=
        ReadChunk(chunks[i], limit, buffer, discarding, lines, Concat(chunks[..i]), peak);
    }
    assert chunks[..|chunks|] == chunks;
    UnfinishedLine(buffer, discarding, Final(Split(Concat(chunks))), limit);
    if !discarding && buffer != [] {
      lines := lines + [StripReturn(buffer)];
    }
  }

  lemma ConcatMore(chunks: seq<Bytes>, i: nat)
    requires i < |chunks|
    ensures Concat(chunks[..i + 1]) == Concat(chunks[..i]) + chunks[i]
  {
    assert Init(chunks[..i + 1]) == chunks[..i];
  }

  lemma NothingHeld(limit: nat)
    ensures Holds([], false, [], limit)
  {
  }

  // -------------------------------------------------------------- the dispatcher

  const EVENT: Bytes := [101, 118, 101, 110, 116, 58]       // b"event:"
  const DATA: Bytes := [100, 97, 116, 97, 58, 32]           // b"data: "
  const CLOSE: Bytes := [99, 108, 111, 115, 101]            // "close"
  const MESSAGE: Bytes := [109, 101, 115, 115, 97, 103, 101] // "message"

  /** The bytes that `bytes.strip` removes. */
  predicate IsSpaceByte(b: Byte) {
    b == 32 || 9 <= b <= 13
  }

  /** `decode("ascii", errors="ignore")` */
  function AsciiOnly(s: Bytes): Bytes {
    if s == [] then [] else (if s[0] < 128 then [s[0]] else []) + AsciiOnly(s[1..])
  }

  /** An event line names its type whatever ASCII space surrounds the name. */
  lemma EventNameIgnoresSpace(before: Bytes, name: Bytes, after: Bytes)
    requires AllOf(IsSpaceByte, before) && AllOf(IsSpaceByte, after)
    requires name != [] && !IsSpaceByte(name[0]) && !IsSpaceByte(Final(name))
    requires forall i :: 0 <= i < |name| ==> name[i] < 128
    ensures IsEventLine(EVENT + (before + name + after))
    ensures EventName(EVENT + (before + name + after)) == name
  {
    var line := EVENT + (before + name + after);
    assert line[6..] == before + name + after;
    StripSurrounded(IsSpaceByte, before, name, after);
    AsciiUnchanged(name);
  }

  lemma {:induction false} AsciiUnchanged(s: Bytes)
    requires forall i :: 0 <= i < |s| ==> s[i] < 128
    ensures AsciiOnly(s) == s
  {
    if s != [] {
      AsciiUnchanged(s[1..]);
    }
  }

  predicate IsEventLine(line: Bytes) {
    EVENT <= line
  }

  function EventName(line: Bytes): Bytes
    requires IsEventLine(line)
  {
    AsciiOnly(Strip(IsSpaceByte, line[6..]))
  }

  predicate IsClose(line: Bytes) {
    IsEventLine(line) && EventName(line) == CLOSE
  }

  /** The event type in force when line `i` is read: set by the last event line since the last blank one. */
  function TypeAt(lines: seq<Bytes>, i: nat): Bytes
    requires i <= |lines|
  {
    if i == 0 then MESSAGE
    else if IsEventLine(lines[i - 1]) then EventName(lines[i - 1])
    else if lines[i - 1] == [] then MESSAGE
    else TypeAt(lines, i - 1)
  }

  /** What a single data line carries: its JSON value, when it is within the limit and decodes. */
  function Payload<J>(line: Bytes, limit: nat, decode: Bytes -> Option<J>): Option<J> {
    if DATA <= line && |line| - 6 <= limit then decode(line[6..]) else None
  }

  ghost predicate Open(lines: seq<Bytes>, i: nat)
    requires i <= |lines|
  {
    forall k :: 0 <= k < i ==> !IsClose(lines[k])
  }

  /** Line `i` reaches the callback. */
  ghost predicate Delivers<J(!new)>(lines: seq<Bytes>, i: nat, limit: nat, decode: Bytes -> Option<J>)
    requires i < |lines|
  {
    && Open(lines, i)
    && (TypeAt(lines, i) == [] || TypeAt(lines, i) == MESSAGE)
    && Payload(lines[i], limit, decode).Some?
  }

  /** The payloads of the delivering lines among the first `n`, in order. */
  ghost function Delivered<J(!new)>(lines: seq<Bytes>, n: nat, limit: nat, decode: Bytes -> Option<J>): seq<J>
    requires n <= |lines|
  {
    if n == 0 then [] else
      var earlier := Delivered(lines, n - 1, limit, decode);
      if Delivers(lines, n - 1, limit, decode) then earlier + [Payload(lines[n - 1], limit, decode).value] else earlier
  }

  /** What a whole stream makes the client pass on. */
  ghost function Messages<J(!new)>(stream: Bytes, maxLine: nat, maxEvent: nat, decode: Bytes -> Option<J>): seq<J> {
    var lines := Lines(stream, maxLine);
    Delivered(lines, |lines|, maxEvent, decode)
  }

  method DispatchEvent<J(!new)>(line: Bytes, limit: nat, decode: Bytes -> Option<J>, log: seq<J>)
    returns (after: seq<J>)
    ensures after == log + match Payload(line, limit, decode) case Some(data) => [data] case None => []
  {
    after := log;
    if !(DATA <= line) {
      return;
    }
    var eventData := line[6..];
    if |eventData| > limit {
      return;
    }
    var data := decode(eventData);
    if data.Some? {
      after := after + [data.value];
    }
  }

  method ConsumeMessages<J(!new)>(chunks: seq<Bytes>, maxLine: nat, maxEvent: nat, decode: Bytes -> Option<J>)
    returns (log: seq<J>)
    ensures log == Messages(Concat(chunks), maxLine, maxEvent, decode)
  {
    hide Strip, AsciiOnly, Lines, Concat;
    var eventType := MESSAGE;
    var lines, peak := IterBoundedLines(chunks, maxLine);
    log := [];
    for i := 0 to |lines|
      invariant eventType == TypeAt(lines, i) && Open(lines, i)
      invariant log == Delivered(lines, i, maxEvent, decode)
    {
      var line := lines[i];
      if IsEventLine(line) || line == [] {
        EventOrBlankIsNotData(line);
      }
      if IsEventLine(line) {
        eventType := EventName(line);
        if eventType == CLOSE {
          ClosedIsFinal(lines, i, |lines|, maxEvent, decode);
          break;
        }
      } else if line == [] {
        eventType := MESSAGE;
      } else if eventType == [] || eventType == MESSAGE {
        log := DispatchEvent(line, maxEvent, decode, log);
      }
    }
  }

  // ----------------------------------------------------------- stream properties

  lemma EventOrBlankIsNotData(line: Bytes)
    requires IsEventLine(line) || line == []
    ensures !(DATA <= line)
  {
    assert line != [] ==> line[0] == EVENT[0] && DATA[0] != EVENT[0];
  }

  /** Nothing is delivered at or after a close event. */
  lemma {:induction false} ClosedIsFinal<J(!new)>(lines: seq<Bytes>, k: nat, n: nat, limit: nat,
                                                  decode: Bytes -> Option<J>)
    requires k < n <= |lines| && IsClose(lines[k])
    ensures Delivered(lines, n, limit, decode) == Delivered(lines, k, limit, decode)
  {
    hide EventName, TypeAt;
    if n == k + 1 {
      EventOrBlankIsNotData(lines[k]);
    } else {
      ClosedIsFinal(lines, k, n - 1, limit, decode);
      assert !Open(lines, n - 1);
    }
  }

  lemma {:induction false} DeliveredPrefix<J(!new)>(a: seq<Bytes>, b: seq<Bytes>, n: nat, limit: nat,
                                                    decode: Bytes -> Option<J>)
    requires n <= |a|
    ensures TypeAt(a + b, n) == TypeAt(a, n)
    ensures Delivered(a + b, n, limit, decode) == Delivered(a, n, limit, decode)
  {
    if n > 0 {
      DeliveredPrefix(a, b, n - 1, limit, decode);
      assert Open(a + b, n - 1) == Open(a, n - 1) by {
        assert forall k :: 0 <= k < n ==> (a + b)[k] == a[k];
      }
    }
  }

  lemma {:induction false} KeptConcat(a: seq<Bytes>, b: seq<Bytes>, limit: nat)
    ensures Kept(a + b, limit) == Kept(a, limit) + Kept(b, limit)
  {
    if b == [] {
      assert a + b == a;
    } else {
      KeptConcat(a, Init(b), limit);
      assert Init(a + b) == a + Init(b);
    }
  }

  predicate EndsLine(s: Bytes) {
    s == [] || Final(s) == LF
  }

  lemma {:induction false} EndsLineSplit(s: Bytes)
    requires EndsLine(s)
    ensures Final(Split(s)) == []
  {
    if s != [] {
      EndsLineSplit(s[1..]);
    }
  }

  /** After a line end, the rest of the stream is split on its own. */
  lemma SplitAfterLine(a: Bytes, b: Bytes)
    requires EndsLine(a)
    ensures Split(a + b) == Init(Split(a)) + Split(b)
  {
    SplitAppend(a, b);
    EndsLineSplit(a);
    assert [] + Split(b)[0] == Split(b)[0];
    assert Split(b) == [Split(b)[0]] + Split(b)[1..];
  }

  lemma LinesAfterLine(a: Bytes, b: Bytes, limit: nat)
    requires EndsLine(a)
    ensures Lines(a + b, limit) == Lines(a, limit) + Lines(b, limit)
  {
    hide Split, Kept, StripReturn;
    SplitAfterLine(a, b);
    EndsLineSplit(a);
    assert Init(Init(Split(a)) + Split(b)) == Init(Split(a)) + Init(Split(b));
    KeptConcat(Init(Split(a)), Init(Split(b)), limit);
  }

  lemma {:induction false} SplitOneLine(line: Bytes, b: Bytes)
    requires LF !in line
    ensures Split(line + [LF] + b) == [line] + Split(b)
  {
    if line == [] {
      assert line + [LF] + b == [LF] + b && ([LF] + b)[1..] == b;
    } else {
      SplitOneLine(line[1..], b);
      assert (line + [LF] + b)[0] == line[0] && (line + [LF] + b)[1..] == line[1..] + [LF] + b;
      assert line == [line[0]] + line[1..];
    }
  }

  lemma OverlongLineSkipped(line: Bytes, b: Bytes, limit: nat)
    requires LF !in line && |line| > limit
    ensures Lines(line + [LF] + b, limit) == Lines(b, limit)
  {
    assert Kept([line], limit) == [] by { assert Init([line]) == []; }
    hide Split, Kept, StripReturn;
    SplitOneLine(line, b);
    assert Init([line] + Split(b)) == [line] + Init(Split(b));
    KeptConcat([line], Init(Split(b)), limit);
  }

  /** Removing an over-long line together with its line feed changes nothing that is delivered. */
  lemma OverlongLineIsInvisible<J(!new)>(a: Bytes, line: Bytes, b: Bytes, maxLine: nat, maxEvent: nat,
                                         decode: Bytes -> Option<J>)
    requires EndsLine(a) && LF !in line && |line| > maxLine
    ensures Lines(a + (line + [LF] + b), maxLine) == Lines(a + b, maxLine)
    ensures Messages(a + (line + [LF] + b), maxLine, maxEvent, decode) == Messages(a + b, maxLine, maxEvent, decode)
  {
    hide Lines;
    LinesAfterLine(a, line + [LF] + b, maxLine);
    LinesAfterLine(a, b, maxLine);
    OverlongLineSkipped(line, b, maxLine);
  }

  /** What was delivered by the end of a line stays delivered, whatever follows. */
  lemma MessagesGrow<J(!new)>(a: Bytes, b: Bytes, maxLine: nat, maxEvent: nat, decode: Bytes -> Option<J>)
    requires EndsLine(a)
    ensures Messages(a, maxLine, maxEvent, decode) <= Messages(a + b, maxLine, maxEvent, decode)
  {
    LinesAfterLine(a, b, maxLine);
    var first, all := Lines(a, maxLine), Lines(a + b, maxLine);
    DeliveredPrefix(first, Lines(b, maxLine), |first|, maxEvent, decode);
    DeliveredGrows(all, |first|, |all|, maxEvent, decode);
  }

  lemma {:induction false} DeliveredGrows<J(!new)>(lines: seq<Bytes>, m: nat, n: nat, limit: nat,
                                                   decode: Bytes -> Option<J>)
    requires m <= n <= |lines|
    ensures Delivered(lines, m, limit, decode) <= Delivered(lines, n, limit, decode)
  {
    if m < n {
      DeliveredGrows(lines, m, n - 1, limit, decode);
    }
  }

  /** Once a close event has been read to its end, the rest of the stream is without effect. */
  lemma NothingAfterClose<J(!new)>(a: Bytes, b: Bytes, maxLine: nat, maxEvent: nat, decode: Bytes -> Option<J>)
    requires EndsLine(a) && exists line :: line in Lines(a, maxLine) && IsClose(line)
    ensures Messages(a + b, maxLine, maxEvent, decode) == Messages(a, maxLine, maxEvent, decode)
  {
    LinesAfterLine(a, b, maxLine);
    var first, all := Lines(a, maxLine), Lines(a + b, maxLine);
    var k :| 0 <= k < |first| && IsClose(first[k]);
    assert all[k] == first[k];
    ClosedIsFinal(all, k, |all|, maxEvent, decode);
    ClosedIsFinal(first, k, |first|, maxEvent, decode);
    DeliveredPrefix(first, Lines(b, maxLine), k, maxEvent, decode);
  }

  // -------------------------------------------------------- what decides delivery

  /** Line `j` is the last event line before line `i`, and no blank line stands between them. */
  ghost predicate Deciding(lines: seq<Bytes>, i: nat, j: nat)
    requires i <= |lines|
  {
    j < i && IsEventLine(lines[j]) && forall k :: j < k < i ==> lines[k] != [] && !IsEventLine(lines[k])
  }

  lemma {:induction false} TypeDecided(lines: seq<Bytes>, i: nat)
    requires i <= |lines|
    ensures (forall j: nat :: !Deciding(lines, i, j)) ==> TypeAt(lines, i) == MESSAGE
    ensures forall j: nat :: Deciding(lines, i, j) ==> TypeAt(lines, i) == EventName(lines[j])
  {
    hide IsEventLine, EventName;
    if i > 0 {
      TypeDecided(lines, i - 1);
      if IsEventLine(lines[i - 1]) {
        assert Deciding(lines, i, i - 1);
      } else if lines[i - 1] != [] {
        var before: nat := i - 1;
        if j: nat :| Deciding(lines, before, j) {
          assert Deciding(lines, i, j);
        }
        forall j: nat | Deciding(lines, i, j) ensures Deciding(lines, i - 1, j) {
        }
      }
    }
  }

  /** A line reaches the callback unless a line before closed the stream, it carries nothing, or its event is named. */
  lemma DeliversExactly<J(!new)>(lines: seq<Bytes>, i: nat, limit: nat, decode: Bytes -> Option<J>)
    requires i < |lines|
    ensures Delivers(lines, i, limit, decode) <==>
              && (forall k :: 0 <= k < i ==> !IsClose(lines[k]))
              && DATA <= lines[i] && |lines[i]| - |DATA| <= limit && decode(lines[i][|DATA|..]).Some?
              && (forall j: nat :: Deciding(lines, i, j)
                                   ==> EventName(lines[j]) in {[], [109, 101, 115, 115, 97, 103, 101]})
  {
    TypeDecided(lines, i);
    hide TypeAt, EventName, IsClose, IsEventLine, Deciding;
  }

  lemma BlankIsNotEvent()
    ensures !IsEventLine([])
  {
  }

  lemma {:induction false} DeliveredAfterBlank<J(!new)>(a: seq<Bytes>, b: seq<Bytes>, n: nat, limit: nat,
                                                        decode: Bytes -> Option<J>)
    requires a != [] && Final(a) == [] && Open(a, |a|) && n <= |b|
    ensures TypeAt(a + b, |a| + n) == TypeAt(b, n)
    ensures Open(a + b, |a| + n) <==> Open(b, n)
    ensures Delivered(a + b, |a| + n, limit, decode)
         == Delivered(a, |a|, limit, decode) + Delivered(b, n, limit, decode)
  {
    hide IsClose, IsEventLine, EventName, Payload;
    if n == 0 {
      DeliveredPrefix(a, b, |a|, limit, decode);
      BlankIsNotEvent();
      assert forall k :: 0 <= k < |a| ==> (a + b)[k] == a[k];
    } else {
      DeliveredAfterBlank(a, b, n - 1, limit, decode);
      assert (a + b)[|a| + n - 1] == b[n - 1];
    }
  }

  /** After a blank line the stream starts afresh. */
  lemma BlankLineStartsAfresh<J(!new)>(a: Bytes, b: Bytes, maxLine: nat, maxEvent: nat, decode: Bytes -> Option<J>)
    requires EndsLine(a) && Lines(a, maxLine) != [] && Final(Lines(a, maxLine)) == []
    requires forall line :: line in Lines(a, maxLine) ==> !IsClose(line)
    ensures Messages(a + b, maxLine, maxEvent, decode)
         == Messages(a, maxLine, maxEvent, decode) + Messages(b, maxLine, maxEvent, decode)
  {
    hide Lines, IsClose, Delivered;
    LinesAfterLine(a, b, maxLine);
    DeliveredAfterBlank(Lines(a, maxLine), Lines(b, maxLine), |Lines(b, maxLine)|, maxEvent, decode);
  }

  lemma OneLine(line: Bytes, b: Bytes, limit: nat)
    requires LF !in line
    ensures Lines(line + [LF] + b, limit) == (if |line| <= limit then [StripReturn(line)] else []) + Lines(b, limit)
  {
    assert Kept([line], limit) == (if |line| <= limit then [StripReturn(line)] else []) by {
      assert Init([line]) == [] && Final([line]) == line;
    }
    hide Split, Kept, StripReturn;
    SplitOneLine(line, b);
    assert Init([line] + Split(b)) == [line] + Init(Split(b));
    KeptConcat([line], Init(Split(b)), limit);
  }

  lemma {:induction false} SplitWithoutFeed(part: Bytes)
    requires LF !in part
    ensures Split(part) == [part]
  {
    if part != [] {
      SplitWithoutFeed(part[1..]);
      assert part == [part[0]] + part[1..];
    }
  }

  /** What follows the last line feed is a line too, unless it is empty or too long. */
  lemma RestIsLine(a: Bytes, rest: Bytes, limit: nat)
    requires EndsLine(a) && LF !in rest
    ensures Lines(a + rest, limit)
         == Lines(a, limit) + (if rest == [] || |rest| > limit then [] else [StripReturn(rest)])
  {
    SplitWithoutFeed(rest);
    assert Kept([], limit) == [] && Init([rest]) == [];
    hide Split, StripReturn, EndsLine;
    LinesAfterLine(a, rest, limit);
  }

  lemma {:induction false} DeliveredWithout<J(!new)>(a: seq<Bytes>, x: Bytes, b: seq<Bytes>, n: nat, limit: nat,
                                                     decode: Bytes -> Option<J>)
    requires x != [] && !IsEventLine(x) && Payload(x, limit, decode).None? && n <= |b|
    ensures TypeAt(a + ([x] + b), |a| + 1 + n) == TypeAt(a + b, |a| + n)
    ensures Open(a + ([x] + b), |a| + 1 + n) <==> Open(a + b, |a| + n)
    ensures Delivered(a + ([x] + b), |a| + 1 + n, limit, decode) == Delivered(a + b, |a| + n, limit, decode)
  {
    var more, less := a + ([x] + b), a + b;
    hide IsEventLine, EventName, Payload;
    if n == 0 {
      DeliveredPrefix(a, [x] + b, |a|, limit, decode);
      DeliveredPrefix(a, b, |a|, limit, decode);
      assert more[|a|] == x;
      assert forall k :: 0 <= k < |a| ==> more[k] == a[k] && less[k] == a[k];
    } else {
      DeliveredWithout(a, x, b, n - 1, limit, decode);
      assert more[|a| + n] == b[n - 1] && less[|a| + n - 1] == b[n - 1];
    }
  }

  /** A line that names no event, is not blank and carries no data within the limit that decodes: it may as well go. */
  lemma IdleLineIsInvisible<J(!new)>(a: Bytes, line: Bytes, b: Bytes, maxLine: nat, maxEvent: nat,
                                     decode: Bytes -> Option<J>)
    requires EndsLine(a) && LF !in line
    requires var x := StripReturn(line);
             x != [] && !IsEventLine(x) && (DATA <= x ==> |x| - |DATA| > maxEvent || decode(x[|DATA|..]).None?)
    ensures Messages(a + (line + [LF] + b), maxLine, maxEvent, decode) == Messages(a + b, maxLine, maxEvent, decode)
  {
    hide Lines, StripReturn, IsEventLine, Delivered, EndsLine;
    LinesAfterLine(a, line + [LF] + b, maxLine);
    LinesAfterLine(a, b, maxLine);
    OneLine(line, b, maxLine);
    var first, x, rest := Lines(a, maxLine), StripReturn(line), Lines(b, maxLine);
    assert Payload(x, maxEvent, decode).None?;
    hide Payload;
    if |line| <= maxLine {
      DeliveredWithout(first, x, rest, |rest|, maxEvent, decode);
    } else {
      assert [] + rest == rest;
    }
  }

  lemma WholeLine(line: Bytes, maxLine: nat)
    requires LF !in line && line != [] && Final(line) != CR && |line| <= maxLine
    ensures Lines(line + [LF], maxLine) == [line]
  {
    assert StripReturn(line) == line && Lines([], maxLine) == [];
    hide StripReturn, Lines;
    OneLine(line, [], maxLine);
    assert line + [LF] + [] == line + [LF] && [line] + [] == [line];
  }

  lemma OnlyLineDelivered<J(!new)>(line: Bytes, limit: nat, decode: Bytes -> Option<J>)
    requires Payload(line, limit, decode).Some?
    ensures Delivered([line], 1, limit, decode) == [Payload(line, limit, decode).value]
  {
    hide Payload;
    assert Delivered([line], 0, limit, decode) == [];
    assert TypeAt([line], 0) == MESSAGE && Open([line], 0);
  }

  /** Data within the limits, at the start of a stream or after a blank line, are delivered as decoded. */
  lemma PlainDataDelivered<J(!new)>(data: Bytes, maxLine: nat, maxEvent: nat, decode: Bytes -> Option<J>)
    requires LF !in data && (data == [] || Final(data) != CR)
    requires |DATA| + |data| <= maxLine && |data| <= maxEvent && decode(data).Some?
    ensures Messages(DATA + data + [LF], maxLine, maxEvent, decode) == [decode(data).value]
    ensures DATA == [100, 97, 116, 97, 58, 32]
  {
    hide Lines, Delivered;
    var line := DATA + data;
    assert LF !in line && Final(line) != CR;
    assert Payload(line, maxEvent, decode) == decode(data) by {
      assert line[|DATA|..] == data;
    }
    WholeLine(line, maxLine);
    OnlyLineDelivered(line, maxEvent, decode);
  }

  lemma EventThenBlank(event: Bytes, maxLine: nat)
    requires LF !in event && event != [] && Final(event) != CR && |event| <= maxLine
    ensures Lines(event + [LF] + [LF], maxLine) == [event, []]
  {
    assert StripReturn(event) == event && StripReturn([]) == [] && Lines([], maxLine) == [];
    hide StripReturn, Lines;
    OneLine(event, [LF], maxLine);
    OneLine([], [], maxLine);
    assert [] + [LF] + [] == [LF];
    assert [event] + ([[]] + []) == [event, []];
  }

  /** The ordinary opening of a stream: its event ends at the blank line, and the data after it arrive. */
  lemma EventEndsAtBlank<J(!new)>(event: Bytes, data: Bytes, maxLine: nat, maxEvent: nat, decode: Bytes -> Option<J>)
    requires IsEventLine(event) && !IsClose(event)
    requires LF !in event && Final(event) != CR && |event| <= maxLine
    requires LF !in data && (data == [] || Final(data) != CR)
    requires |DATA| + |data| <= maxLine && |data| <= maxEvent && decode(data).Some?
    ensures Messages(event + [LF] + [LF] + (DATA + data + [LF]), maxLine, maxEvent, decode) == [decode(data).value]
  {
    EventThenBlank(event, maxLine);
    EventOrBlankIsNotData(event);
    BlankIsNotEvent();
    assert !IsClose([]);
    hide Lines, IsClose, IsEventLine, EndsLine;
    var a, rest := event + [LF] + [LF], DATA + data + [LF];
    assert EndsLine(a) by { LastIsLineFeed(event + [LF]); }
    assert Messages(a, maxLine, maxEvent, decode) == [] by {
      NothingFromTwo(event, [], maxEvent, decode);
    }
    BlankLineStartsAfresh(a, rest, maxLine, maxEvent, decode);
    PlainDataDelivered(data, maxLine, maxEvent, decode);
  }

  lemma LastIsLineFeed(s: Bytes)
    ensures EndsLine(s + [LF])
  {
  }

  /** A line with the name `close`, whatever space surrounds it, ends the stream. */
  lemma CloseEndsStream<J(!new)>(a: Bytes, before: Bytes, after: Bytes, b: Bytes, maxLine: nat, maxEvent: nat,
                                 decode: Bytes -> Option<J>)
    requires EndsLine(a) && AllOf(IsSpaceByte, before) && AllOf(IsSpaceByte, after)
    requires LF !in before && LF !in after && (after == [] || Final(after) != CR)
    requires |before| + |after| + 11 <= maxLine
    ensures var line := [101, 118, 101, 110, 116, 58] + (before + [99, 108, 111, 115, 101] + after);
            Messages(a + (line + [LF] + b), maxLine, maxEvent, decode) == Messages(a, maxLine, maxEvent, decode)
  {
    var name := [99, 108, 111, 115, 101];
    var line := EVENT + (before + name + after);
    EventNameIgnoresSpace(before, name, after);
    assert IsClose(line) && LF !in line && Final(line) != CR;
    assert line == [101, 118, 101, 110, 116, 58] + (before + name + after);
    hide IsClose, EndsLine, Lines, StripReturn, AllOf, EventName;
    assert StripReturn(line) == line by { NoReturn(line); }
    OneLine(line, b, maxLine);
    LinesAfterLine(a, line + [LF] + b, maxLine);
    CloseCuts(Lines(a, maxLine), line, Lines(b, maxLine), maxEvent, decode);
  }

  lemma NoReturn(line: Bytes)
    requires line != [] && Final(line) != CR
    ensures StripReturn(line) == line
  {
  }

  lemma CloseCuts<J(!new)>(first: seq<Bytes>, line: Bytes, rest: seq<Bytes>, limit: nat, decode: Bytes -> Option<J>)
    requires IsClose(line)
    ensures var all := first + ([line] + rest);
            Delivered(all, |all|, limit, decode) == Delivered(first, |first|, limit, decode)
  {
    var all := first + ([line] + rest);
    assert all[|first|] == line;
    ClosedIsFinal(all, |first|, |all|, limit, decode);
    DeliveredPrefix(first, [line] + rest, |first|, limit, decode);
  }

  lemma NothingFromTwo<J(!new)>(a: Bytes, b: Bytes, limit: nat, decode: Bytes -> Option<J>)
    requires !(DATA <= a) && !(DATA <= b)
    ensures Delivered([a, b], 2, limit, decode) == []
  {
    hide Open, TypeAt;
    assert Delivered([a, b], 0, limit, decode) == [];
    assert Delivered([a, b], 1, limit, decode) == [];
  }

  /** Bytes outside ASCII do not count in an event's name. */
  lemma {:induction false} NonAsciiIgnored(a: Bytes, junk: Bytes, b: Bytes)
    requires forall i :: 0 <= i < |junk| ==> junk[i] >= 128
    ensures AsciiOnly(a + junk + b) == AsciiOnly(a + b)
    decreases |a|, |junk|
  {
    if a != [] {
      NonAsciiIgnored(a[1..], junk, b);
      assert (a + junk + b)[1..] == a[1..] + junk + b && (a + b)[1..] == a[1..] + b;
    } else if junk != [] {
      NonAsciiIgnored(a, junk[1..], b);
      assert (a + junk + b)[1..] == a + junk[1..] + b;
    } else {
      assert a + junk + b == a + b;
    }
  }
}
