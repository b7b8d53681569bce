/**
 * The bounded progress-line reader of media exports. A pipe delivers its bytes in pieces of any size,
 * and a call to `NextLine` may be abandoned whenever it waits for the pipe.
 */
module LineReader {
  import opened Wrappers

  const MAX_LINE_BYTES := 64 * 1024

  const LF: Byte := 10
  const CR: Byte := 13

  // ---------- lines of a byte string ----------

  /** Where the first line feed stands, or the length when there is none. */
  function LineFeedAt(s: Bytes): (n: nat)
    ensures n <= |s| && (forall i :: 0 <= i < n ==> s[i] != LF) && (n < |s| ==> s[n] == LF)
  {
    if s == [] || s[0] == LF then 0 else 1 + LineFeedAt(s[1..])
  }

  /** The length of the first line, its line feed included. */
  function FirstLength(s: Bytes): (n: nat)
    ensures n <= |s| && (s != [] ==> n > 0)
  {
    var at := LineFeedAt(s);
    if at < |s| then at + 1 else at
  }

  function RawLines(s: Bytes): seq<Bytes>
    decreases |s|
  {
    if s == [] then [] else [s[..FirstLength(s)]] + RawLines(s[FirstLength(s)..])
  }

  function Joined(lines: seq<Bytes>): Bytes
  {
    if lines == [] then [] else lines[0] + Joined(lines[1..])
  }

  predicate NoLineFeed(s: Bytes)
  {
    forall i :: 0 <= i < |s| ==> s[i] != 10
  }

  predicate IsLine(s: Bytes, last: bool)
  {
    s != [] && NoLineFeed(s[..|s| - 1]) && (last || s[|s| - 1] == 10)
  }

  predicate AreLines(lines: seq<Bytes>)
  {
    forall i :: 0 <= i < |lines| ==> IsLine(lines[i], i == |lines| - 1)
  }

  function TrimEnd(s: Bytes): (t: Bytes)
    ensures t <= s && (t != [] ==> t[|t| - 1] !in {10, 13})
    ensures forall i :: |t| <= i < |s| ==> s[i] in {10, 13}
  {
    if s != [] && (s[|s| - 1] == LF || s[|s| - 1] == CR) then TrimEnd(s[..|s| - 1]) else s
  }

  /** What is reported for a line: only a line that ends in a line feed is trimmed. */
  function LineText(raw: Bytes): Bytes
  {
    if raw != [] && raw[|raw| - 1] == 10 then TrimEnd(raw) else raw
  }

  function LineTexts(lines: seq<Bytes>): (t: seq<Bytes>)
    ensures |t| == |lines| && forall i :: 0 <= i < |t| ==> t[i] == LineText(lines[i])
  {
    seq(|lines|, i requires 0 <= i < |lines| => LineText(lines[i]))
  }

  /** How many lines come before the first one that is too long. */
  function AcceptableLines(lines: seq<Bytes>): (n: nat)
    ensures n <= |lines| && (forall i :: 0 <= i < n ==> |lines[i]| <= 65_536)
    ensures n < |lines| ==> |lines[n]| > 65_536
  {
    if lines == [] || |lines[0]| > MAX_LINE_BYTES then 0 else 1 + AcceptableLines(lines[1..])
  }

  /** `RawLines` is a way to cut the bytes into lines. */
  lemma {:induction false} RawLinesCut(s: Bytes)
    ensures Joined(RawLines(s)) == s && AreLines(RawLines(s)) && (s != [] ==> RawLines(s) != [])
    decreases |s|
  {
    if s != [] {
      var line, rest := s[..FirstLength(s)], s[FirstLength(s)..];
      RawLinesCut(rest);
      assert s == line + rest;
      FirstIsLine(s);
      hide AreLines, IsLine, FirstLength;
      LinesAfter(line, RawLines(rest));
      JoinedAfter(line, RawLines(rest));
    }
  }

  lemma FirstIsLine(s: Bytes)
    requires s != []
    ensures IsLine(s[..FirstLength(s)], s[FirstLength(s)..] == [])
  {
  }

  lemma JoinedAfter(line: Bytes, lines: seq<Bytes>)
    ensures Joined([line] + lines) == line + Joined(lines)
  {
    assert ([line] + lines)[1..] == lines;
  }

  lemma LinesAfter(line: Bytes, lines: seq<Bytes>)
    requires IsLine(line, lines == []) && AreLines(lines)
    ensures AreLines([line] + lines)
  {
  }

  /** And it is the only one. */
  lemma {:induction false} CutIsUnique(lines: seq<Bytes>)
    requires AreLines(lines)
    ensures RawLines(Joined(lines)) == lines
  {
    if lines != [] {
      var s, tail := Joined(lines), lines[1..];
      assert AreLines(tail) by {
        forall i | 0 <= i < |tail| ensures IsLine(tail[i], i == |tail| - 1) {
          assert IsLine(lines[i + 1], i + 1 == |lines| - 1);
        }
      }
      CutIsUnique(tail);
      FirstLine(lines[0], Joined(tail), tail == []);
      assert lines == [lines[0]] + tail;
    }
  }

  lemma FirstLine(line: Bytes, rest: Bytes, last: bool)
    requires IsLine(line, last) && (last ==> rest == [])
    ensures var s := line + rest; FirstLength(s) == |line| && s[..|line|] == line && s[|line|..] == rest
  {
    var s := line + rest;
    assert forall i :: 0 <= i < |line| - 1 ==> s[i] == line[..|line| - 1][i];
    assert s[|line| - 1] == line[|line| - 1];
  }

  // ---------- the reader ----------

  /** What the pipe does next: it delivers bytes, keeps the caller waiting past its poll interval, or fails. */
  datatype Arrival = Data(bytes: Bytes) | Wait | Fault

  datatype Answer = Line(text: Bytes) | Finished | TooLong | Abandoned | Failed

  function Stream(arrivals: seq<Arrival>): Bytes
  {
    if arrivals == [] then []
    else (if arrivals[0].Data? then arrivals[0].bytes else []) + Stream(arrivals[1..])
  }

  /** What an answer says about the unread bytes before the call, and what it leaves of them. */
  predicate Reports(answer: Answer, before: Bytes, after: Bytes)
  {
    match answer
    case Line(text) =>
      before != [] && FirstLength(before) <= 65_536 &&
      text == LineText(before[..FirstLength(before)]) && after == before[FirstLength(before)..]
    case Finished => before == [] && after == []
    case TooLong => FirstLength(before) > 65_536 && after == before
    case _ => after == before
  }

  /** What is left of `pipe` once some of it has arrived. */
  predicate Follows(left: seq<Arrival>, pipe: seq<Arrival>)
  {
    |left| <= |pipe| && left == pipe[|pipe| - |left|..]
  }

  /** A call takes deliveries only; it stops at the first wait or fault, and says which it was. */
  predicate Took(answer: Answer, left: seq<Arrival>, pipe: seq<Arrival>)
  {
    |left| <= |pipe| &&
    var n := |pipe| - |left|;
    if answer.Abandoned? || answer.Failed? then
      n > 0 && (forall i :: 0 <= i < n - 1 ==> pipe[i].Data?) && pipe[n - 1] == if answer.Failed? then Fault else Wait
    else forall i :: 0 <= i < n ==> pipe[i].Data?
  }

  class ProgressReader {
    var arrivals: seq<Arrival>
    var buffered: Bytes
    var pending: Bytes

    ghost predicate Valid()
      reads this
    {
      NoLineFeed(pending) && |pending| <= MAX_LINE_BYTES && forall a :: a in arrivals && a.Data? ==> a.bytes != []
    }

    /** Everything not yet reported, whether still in the pipe, buffered, or already taken from it. */
    ghost function Unread(): Bytes
      reads this
    {
      pending + (buffered + Stream(arrivals))
    }

    /** An empty delivery would mean the end of the stream. */
    constructor (pipe: seq<Arrival>)
      requires forall a :: a in pipe && a.Data? ==> a.bytes != []
      ensures Valid() && Unread() == Stream(pipe) && arrivals == pipe
    {
      arrivals, buffered, pending := pipe, [], [];
    }

    /**
     * The next line of what is unread. Only a reported line is consumed: a call that is abandoned, fails
     * or refuses leaves every unread byte in place, and it refuses exactly when the first unread line is
     * too long.
     */
    method NextLine() returns (answer: Answer)
      requires Valid()
      modifies this
      ensures Valid() && Follows(arrivals, old(arrivals)) && Reports(answer, old(Unread()), Unread())
      ensures Took(answer, arrivals, old(arrivals))
      ensures answer.Abandoned? || answer.Failed? ==> buffered == []
    {
      hide Stream, FirstLength, Follows, Reports;
      ghost var unread := Unread();
      FollowsSelf(arrivals);
      while true
        invariant Valid() && Unread() == unread && Follows(arrivals, old(arrivals))
        invariant |arrivals| <= |old(arrivals)|
        invariant forall i :: 0 <= i < |old(arrivals)| - |arrivals| ==> old(arrivals)[i].Data?
        decreases |arrivals| + if buffered == [] then 0 else 1
      {
        FollowsNext(arrivals, old(arrivals));
        var problem := FillBuf();
        if problem.Some? {
          KeepsUnread(problem.value, unread);
          return problem.value;
        }
        if buffered == [] {
          NothingStreams();
          assert unread == pending;
          var line := pending;
          pending := [];
          AtTheEnd(line);
          return if line == [] then Finished else Line(line);
        }
        var line := TakeBuffered();
        if line.Some? { return line.value; }
      }
    }

    /** Takes the buffered bytes up to the first line feed; gives a line if there is one. */
    method TakeBuffered() returns (answer: Option<Answer>)
      requires Valid() && buffered != []
      modifies `pending, `buffered
      ensures Valid()
      ensures answer.None? ==> Unread() == old(Unread()) && buffered == []
      ensures answer.Some? ==>
                (answer.value.Line? || answer.value.TooLong?) && Reports(answer.value, old(Unread()), Unread())
    {
      hide Stream, LineFeedAt, FirstLength, TrimEnd;
      var take := FirstLength(buffered);
      TakenIsInFirstLine(pending, buffered, Stream(arrivals));
      if |pending| + take > MAX_LINE_BYTES { return Some(TooLong); }
      ShiftTaken(pending, buffered, Stream(arrivals), take);
      var complete := buffered[take - 1] == LF;
      pending, buffered := pending + buffered[..take], buffered[take..];
      if !complete { return None; }
      var line := Trim(pending);
      pending := [];
      return Some(Line(line));
    }

    /** Waits for the pipe unless bytes are buffered; the bytes that arrive go to the buffer. */
    method FillBuf() returns (problem: Option<Answer>)
      requires Valid()
      modifies `arrivals, `buffered
      ensures Valid() && Unread() == old(Unread()) && (problem.Some? ==> buffered == old(buffered))
      ensures old(buffered) != [] || old(arrivals) == [] ==>
                problem == None && buffered == old(buffered) && arrivals == old(arrivals)
      ensures old(buffered) == [] && old(arrivals) != [] ==>
                arrivals == old(arrivals)[1..] &&
                match old(arrivals)[0] {
                  case Data(_) => problem == None && buffered != []
                  case Wait => problem == Some(Abandoned)
                  case Fault => problem == Some(Failed)
                }
    {
      if buffered != [] || arrivals == [] { return None; }
      var next := arrivals[0];
      assert next in arrivals && Stream(arrivals) == (if next.Data? then next.bytes else []) + Stream(arrivals[1..]);
      assert [] + Stream(arrivals) == Stream(arrivals) && [] + Stream(arrivals[1..]) == Stream(arrivals[1..]);
      hide Stream;
      arrivals := arrivals[1..];
      match next {
        case Data(bytes) =>
          buffered := bytes;
          return None;
        case Wait =>
          return Some(Abandoned);
        case Fault =>
          return Some(Failed);
      }
    }

    /** Drops the line feeds and carriage returns a line ends in. */
    static method Trim(raw: Bytes) returns (line: Bytes)
      ensures line == TrimEnd(raw)
    {
      line := raw;
      while line != [] && (line[|line| - 1] == LF || line[|line| - 1] == CR)
        invariant TrimEnd(line) == TrimEnd(raw)
      {
        line := line[..|line| - 1];
      }
    }

    /**
     * The polling loop of an export: however the bytes are cut into deliveries, and wherever a poll
     * interval abandons a call, the lines reported are the lines of the stream up to the first one that
     * is too long, and that one ends the loop.
     */
    method ReadLines() returns (lines: seq<Bytes>, ending: Answer)
      requires Valid() && pending == [] && buffered == []
      modifies this
      ensures Outcome(lines, ending, RawLines(Stream(old(arrivals))))
      ensures ending.Failed? ==> FailedAfter(lines, old(arrivals))
    {
      hide Stream, RawLines, Progress, Reports, Outcome, Follows, FailedAfter;
      lines := [];
      ghost var raw := RawLines(Stream(arrivals));
      ghost var pipe := arrivals;
      assert Unread() == Stream(arrivals);
      StartReading(raw, Unread());
      FollowsSelf(pipe);
      while true
        invariant Valid() && Follows(arrivals, pipe) && Progress(lines, raw, Unread()) && NoFault(arrivals, pipe)
        decreases |arrivals| + |Unread()|
      {
        ghost var before, left := Unread(), arrivals;
        var answer := NextLine();
        Advance(lines, raw, before, Unread(), answer);
        FollowsFollows(arrivals, left, pipe);
        FaultsTaken(answer, arrivals, left, pipe);
        if answer.Failed? {
          assert Unread() == pending + ([] + Stream(arrivals));
          Delivered(lines, raw, pending, arrivals, pipe);
        }
        match answer {
          case Line(text) =>
            lines := lines + [text];
          case Abandoned =>
          case _ =>
            return lines, answer;
        }
      }
    }
  }

  /** No fault among what has been taken from the pipe. */
  predicate NoFault(left: seq<Arrival>, pipe: seq<Arrival>)
  {
    |left| <= |pipe| && forall i :: 0 <= i < |pipe| - |left| ==> !pipe[i].Fault?
  }

  /** The first fault ended the loop, and every complete line delivered before it has been reported. */
  ghost predicate FailedAfter(lines: seq<Bytes>, pipe: seq<Arrival>)
  {
    exists i: nat, rest: Bytes ::
      FirstFault(pipe, i) && NoLineFeed(rest) && |lines| <= |RawLines(Stream(pipe))| &&
      Stream(pipe[..i]) == Joined(RawLines(Stream(pipe))[..|lines|]) + rest
  }

  predicate FirstFault(pipe: seq<Arrival>, i: nat)
  {
    i < |pipe| && pipe[i].Fault? && forall j :: 0 <= j < i ==> !pipe[j].Fault?
  }

  lemma FaultsTaken(answer: Answer, now: seq<Arrival>, left: seq<Arrival>, pipe: seq<Arrival>)
    requires Took(answer, now, left) && Follows(left, pipe) && NoFault(left, pipe)
    ensures !answer.Failed? ==> NoFault(now, pipe)
    ensures answer.Failed? ==> |now| < |pipe| && FirstFault(pipe, |pipe| - |now| - 1)
  {
    var k := |pipe| - |left|;
    assert forall i :: 0 <= i < |left| ==> left[i] == pipe[k + i];
    forall i | k <= i < |pipe| ensures pipe[i] == left[i - k] {}
  }

  lemma {:induction false} StreamSplit(pipe: seq<Arrival>, n: nat)
    requires n <= |pipe|
    ensures Stream(pipe) == Stream(pipe[..n]) + Stream(pipe[n..])
  {
    if n == 0 {
      assert pipe[0..] == pipe && pipe[..0] == [];
    } else {
      assert pipe[..n][1..] == pipe[1..][..n - 1] && pipe[1..][n - 1..] == pipe[n..] && pipe[..n][0] == pipe[0];
      StreamSplit(pipe[1..], n - 1);
    }
  }

  lemma {:induction false} JoinedSplit(lines: seq<Bytes>, k: nat)
    requires k <= |lines|
    ensures Joined(lines) == Joined(lines[..k]) + Joined(lines[k..])
  {
    if k == 0 {
      assert lines[0..] == lines && lines[..0] == [];
    } else {
      assert lines[..k][1..] == lines[1..][..k - 1] && lines[1..][k - 1..] == lines[k..];
      JoinedSplit(lines[1..], k - 1);
    }
  }

  /** What has been delivered before the fault is the reported lines and an unfinished one. */
  lemma Delivered(lines: seq<Bytes>, raw: seq<Bytes>, pending: Bytes, left: seq<Arrival>, pipe: seq<Arrival>)
    requires raw == RawLines(Stream(pipe)) && Progress(lines, raw, pending + ([] + Stream(left)))
    requires Follows(left, pipe) && NoLineFeed(pending) && |left| < |pipe|
    requires FirstFault(pipe, |pipe| - |left| - 1)
    ensures FailedAfter(lines, pipe)
  {
    hide Stream, RawLines, Joined, AcceptableLines, LineTexts, NoLineFeed, AreLines;
    var i := |pipe| - |left| - 1;
    var tail, done := Stream(left), Joined(raw[..|lines|]);
    assert [] + tail == tail;
    FaultStreams(pipe, i, left);
    RawLinesCut(Stream(pipe));
    JoinedSplit(raw, |lines|);
    RawLinesCut(pending + tail);
    SameFront(Stream(pipe[..i]), done, pending, tail);
    assert FirstFault(pipe, i) && Stream(pipe[..i]) == done + pending;
  }

  lemma FaultStreams(pipe: seq<Arrival>, i: nat, left: seq<Arrival>)
    requires i < |pipe| && pipe[i].Fault? && left == pipe[i + 1..]
    ensures Stream(pipe) == Stream(pipe[..i]) + Stream(left)
  {
    StreamSplit(pipe, i);
    assert pipe[i..][1..] == left && pipe[i..][0] == pipe[i];
    assert [] + Stream(left) == Stream(left);
  }

  lemma SameFront(before: Bytes, done: Bytes, pending: Bytes, tail: Bytes)
    requires before + tail == done + (pending + tail)
    ensures before == done + pending
  {
    var b := done + pending;
    assert b + tail == before + tail;
    assert |before| == |b|;
    assert before == (before + tail)[..|before|] && b == (b + tail)[..|b|];
  }

  /** The lines reported so far, and what is unread, account for all lines of the stream. */
  ghost predicate Progress(lines: seq<Bytes>, raw: seq<Bytes>, unread: Bytes)
  {
    |lines| <= AcceptableLines(raw) && RawLines(unread) == raw[|lines|..] && lines == LineTexts(raw[..|lines|])
  }

  /** How reading a stream with the lines `raw` may end. */
  ghost predicate Outcome(lines: seq<Bytes>, ending: Answer, raw: seq<Bytes>)
  {
    var good := AcceptableLines(raw);
    match ending
    case Finished => good == |raw| && lines == LineTexts(raw)
    case TooLong => good < |raw| && lines == LineTexts(raw[..good])
    case Failed => |lines| <= good && lines == LineTexts(raw[..|lines|])
    case _ => false
  }

  lemma StartReading(raw: seq<Bytes>, unread: Bytes)
    requires RawLines(unread) == raw
    ensures Progress([], raw, unread)
  {
    assert raw[0..] == raw;
  }

  lemma Advance(lines: seq<Bytes>, raw: seq<Bytes>, before: Bytes, after: Bytes, answer: Answer)
    requires Progress(lines, raw, before) && Reports(answer, before, after)
    ensures answer.Line? ==> Progress(lines + [answer.text], raw, after) && |after| < |before|
    ensures answer.Abandoned? || answer.Failed? ==> Progress(lines, raw, after) && after == before
    ensures answer.Finished? || answer.TooLong? || answer.Failed? ==> Outcome(lines, answer, raw)
  {
    hide LineText, RawLines, FirstLength;
    var k := |lines|;
    NextRaw(before, raw, k);
    if answer.Line? {
      assert raw[..k + 1] == raw[..k] + [raw[k]];
      assert LineTexts(raw[..k + 1])[..k] == lines;
    } else if answer.Finished? {
      assert raw[..k] == raw;
    }
  }

  lemma NextRaw(s: Bytes, raw: seq<Bytes>, k: nat)
    requires k <= |raw| && RawLines(s) == raw[k..]
    ensures s == [] <==> k == |raw|
    ensures s != [] ==> raw[k] == s[..FirstLength(s)] && RawLines(s[FirstLength(s)..]) == raw[k + 1..]
    ensures k < |raw| ==> |raw[k]| == FirstLength(s)
  {
    if s != [] {
      assert raw[k] == raw[k..][0];
      assert raw[k..][1..] == raw[k + 1..];
    }
  }

  lemma FollowsSelf(pipe: seq<Arrival>)
    ensures Follows(pipe, pipe)
  {
    assert pipe[0..] == pipe;
  }

  lemma FollowsNext(left: seq<Arrival>, pipe: seq<Arrival>)
    requires Follows(left, pipe)
    ensures |left| <= |pipe|
    ensures left != [] ==> Follows(left[1..], pipe) && left[0] == pipe[|pipe| - |left|]
  {
  }

  lemma FollowsFollows(a: seq<Arrival>, b: seq<Arrival>, c: seq<Arrival>)
    requires Follows(a, b) && Follows(b, c)
    ensures Follows(a, c) && |a| <= |b| && (forall x :: x in b ==> x in c)
  {
  }

  lemma KeepsUnread(answer: Answer, unread: Bytes)
    ensures answer.Abandoned? || answer.Failed? ==> Reports(answer, unread, unread)
  {
  }

  lemma NothingStreams()
    ensures Stream([]) == []
  {
  }

  /** At the end of the stream an unfinished line is reported as it is. */
  lemma AtTheEnd(line: Bytes)
    requires NoLineFeed(line) && |line| <= MAX_LINE_BYTES
    ensures Reports(if line == [] then Finished else Line(line), line, [] + ([] + []))
  {
    assert line[..|line|] == line;
  }

  /** The bytes about to be taken belong to the first unread line, and end it if they end in a line feed. */
  lemma TakenIsInFirstLine(pending: Bytes, buffered: Bytes, rest: Bytes)
    requires NoLineFeed(pending) && buffered != []
    ensures var s, take := pending + (buffered + rest), FirstLength(buffered);
            |pending| + take <= FirstLength(s) &&
            (buffered[take - 1] == LF ==> FirstLength(s) == |pending| + take) &&
            (buffered[take - 1] != LF ==> take == |buffered| && NoLineFeed(buffered))
  {
    var s := pending + (buffered + rest);
    assert forall i :: 0 <= i < |pending| ==> s[i] == pending[i];
    assert forall i :: 0 <= i < |buffered| ==> s[|pending| + i] == buffered[i];
  }

  lemma ShiftTaken(pending: Bytes, buffered: Bytes, rest: Bytes, take: nat)
    requires take <= |buffered|
    ensures var s := pending + (buffered + rest);
            s == pending + buffered[..take] + (buffered[take..] + rest) &&
            s[..|pending| + take] == pending + buffered[..take] && s[|pending| + take..] == buffered[take..] + rest
  {
    assert buffered == buffered[..take] + buffered[take..];
  }
}
