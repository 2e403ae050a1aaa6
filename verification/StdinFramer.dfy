/**
 * Framing of the command stream read from standard input: what is dispatched does not depend on how the stream is cut
 * into reads.
 */
module StdinFramer {
  const CMD_BUF_SIZE := 4096

  /** The longest newline-free run the buffer can hold before it is thrown away. */
  const BLOCK := CMD_BUF_SIZE - 1

  // ---- what the stream means ----

  /** The newline-free tail of a stream. */
  function LastLine(s: string): (r: string)
    ensures '\n' !in r && |r| <= |s|
  {
    if s == [] || s[|s| - 1] == '\n' then []
    else LastLine(s[..|s| - 1]) + [s[|s| - 1]]
  }

  /** The newline-terminated lines of a stream, in order. */
  function Lines(s: string): seq<string> {
    if s == [] then []
    else if s[|s| - 1] == '\n' then Lines(s[..|s| - 1]) + [LastLine(s[..|s| - 1])]
    else Lines(s[..|s| - 1])
  }

  /** What is left of a line after every full block of it has been thrown away. */
  function Kept(line: string): (r: string)
    ensures |r| < BLOCK
    ensures |line| < BLOCK ==> r == line
  {
    line[|line| - |line| % BLOCK..]
  }

  /** The lines that are dispatched: the non-empty ones among what is kept. */
  function Dispatchable(lines: seq<string>): seq<string> {
    if lines == [] then []
    else
      var line := Kept(lines[|lines| - 1]);
      Dispatchable(lines[..|lines| - 1]) + (if line == [] then [] else [line])
  }

  function NonEmpty(lines: seq<string>): seq<string> {
    if lines == [] then []
    else
      var line := lines[|lines| - 1];
      NonEmpty(lines[..|lines| - 1]) + (if line == [] then [] else [line])
  }

  /** Number of bytes in a list of lines. */
  function Bytes(lines: seq<string>): nat {
    if lines == [] then 0 else Bytes(lines[..|lines| - 1]) + |lines[|lines| - 1]|
  }

  lemma AppendLine(lines: seq<string>, line: string)
    ensures Dispatchable(lines + [line]) == Dispatchable(lines) + (if Kept(line) == [] then [] else [Kept(line)])
    ensures NonEmpty(lines + [line]) == NonEmpty(lines) + (if line == [] then [] else [line])
  {
    hide Kept;
    assert (lines + [line])[..|lines|] == lines;
  }

  lemma NothingAdded(lines: seq<string>)
    ensures lines + [] == lines
  {
  }

  lemma KeptShorter(line: string)
    ensures |Kept(line)| <= |line|
    ensures |Kept(line)| == |line| <==> |line| < BLOCK
  {
  }

  lemma BytesAppend(lines: seq<string>, line: string)
    ensures Bytes(lines + [line]) == Bytes(lines) + |line|
  {
    assert (lines + [line])[..|lines|] == lines;
  }

  /** Dispatching never adds bytes, and drops none exactly when every line is shorter than a block. */
  lemma {:induction false} DispatchableBytes(lines: seq<string>)
    ensures Bytes(NonEmpty(lines)) == Bytes(lines)
    ensures Bytes(Dispatchable(lines)) <= Bytes(lines)
    ensures Bytes(Dispatchable(lines)) == Bytes(lines) <==> forall line | line in lines :: |line| < BLOCK
  {
    if lines != [] {
      hide Dispatchable, NonEmpty, Kept, Bytes;
      var front, last := lines[..|lines| - 1], lines[|lines| - 1];
      assert lines == front + [last];
      DispatchableBytes(front);
      AppendLine(front, last);
      BytesAppend(front, last);
      BytesAppend(Dispatchable(front), Kept(last));
      BytesAppend(NonEmpty(front), last);
      KeptShorter(last);
      NothingAdded(Dispatchable(front));
      NothingAdded(NonEmpty(front));
    }
  }

  lemma {:induction false} ShortLinesKept(lines: seq<string>)
    requires forall line | line in lines :: |line| < BLOCK
    ensures Dispatchable(lines) == NonEmpty(lines)
  {
    if lines != [] {
      hide Dispatchable, NonEmpty;
      var front, last := lines[..|lines| - 1], lines[|lines| - 1];
      assert lines == front + [last];
      ShortLinesKept(front);
      AppendLine(front, last);
    }
  }

  /**
   * The commands are exactly the non-empty lines when, and only when, every line fits: at most CMD_BUF_SIZE - 2
   * bytes.
   */
  lemma CommandsAreLines(s: string)
    ensures Dispatchable(Lines(s)) == NonEmpty(Lines(s))
            <==> forall line | line in Lines(s) :: |line| <= CMD_BUF_SIZE - 2
  {
    DispatchableBytes(Lines(s));
    if forall line | line in Lines(s) :: |line| <= CMD_BUF_SIZE - 2 {
      ShortLinesKept(Lines(s));
    }
  }

  // ---- a framer that takes one byte at a time ----

  datatype Framing = Framing(pending: string, commands: seq<string>)

  function Feed(f: Framing, c: char): Framing {
    if c == '\n' then Framing([], f.commands + (if f.pending == [] then [] else [f.pending]))
    else if |f.pending| + 1 == BLOCK then Framing([], f.commands)
    else Framing(f.pending + [c], f.commands)
  }

  function FeedAll(f: Framing, s: string): Framing {
    if s == [] then f else Feed(FeedAll(f, s[..|s| - 1]), s[|s| - 1])
  }

  lemma {:induction false} FeedAppend(f: Framing, a: string, b: string)
    ensures FeedAll(f, a + b) == FeedAll(FeedAll(f, a), b)
  {
    if b == [] {
      assert a + b == a;
    } else {
      FeedAppend(f, a, b[..|b| - 1]);
      assert (a + b)[..|a + b| - 1] == a + b[..|b| - 1];
    }
  }

  lemma BlockCount(n: nat)
    ensures (n + 1) % BLOCK == if n % BLOCK + 1 == BLOCK then 0 else n % BLOCK + 1
  {
  }

  lemma KeptAt(line: string, k: nat)
    requires k == |line| % BLOCK
    ensures k <= |line| && Kept(line) == line[|line| - k..]
  {
  }

  /** One byte more of a line, counted in blocks. */
  lemma KeptStep(line: string, c: char)
    ensures Kept(line + [c]) == if |Kept(line)| + 1 == BLOCK then [] else Kept(line) + [c]
  {
    BlockCount(|line|);
    KeptAt(line, |line| % BLOCK);
    KeptAt(line + [c], (|line| + 1) % BLOCK);
  }

  lemma SplitStep(front: string, c: char)
    ensures LastLine(front + [c]) == if c == '\n' then [] else LastLine(front) + [c]
    ensures Lines(front + [c]) == if c == '\n' then Lines(front) + [LastLine(front)] else Lines(front)
  {
    assert (front + [c])[..|front|] == front;
  }

  lemma Regroup(x: seq<string>, y: seq<string>, z: seq<string>)
    ensures (x + y) + z == x + (y + z)
  {
  }

  /** The byte-wise framer holds what is kept of the last line and has dispatched what is kept of the complete ones. */
  lemma {:induction false} FeedMeaning(s: string, d: seq<string>)
    ensures FeedAll(Framing([], d), s) == Framing(Kept(LastLine(s)), d + Dispatchable(Lines(s)))
  {
    if s == [] {
      NothingAdded(d);
    } else {
      hide Lines, LastLine, Dispatchable, Kept;
      var front, c := s[..|s| - 1], s[|s| - 1];
      assert s == front + [c];
      FeedMeaning(front, d);
      SplitStep(front, c);
      var line := Kept(LastLine(front));
      assert FeedAll(Framing([], d), s) == Feed(Framing(line, d + Dispatchable(Lines(front))), c);
      if c == '\n' {
        AppendLine(Lines(front), LastLine(front));
        KeptShorter([]);
        Regroup(d, Dispatchable(Lines(front)), if line == [] then [] else [line]);
      } else {
        KeptStep(LastLine(front), c);
      }
    }
  }

  // ---- one poll ----

  /** Lines of a text that ends in a newline are those of the text without it, plus its tail. */
  lemma {:induction false} LinesFit(s: string, n: nat)
    requires |s| <= n
    ensures forall line | line in Lines(s) :: |line| < n
    ensures |LastLine(s)| <= n
  {
    if s != [] {
      LinesFit(s[..|s| - 1], n - 1);
    }
  }

  lemma {:induction false} NoNewline(s: string)
    requires '\n' !in s
    ensures Lines(s) == [] && LastLine(s) == s
  {
    if s != [] {
      hide Lines, LastLine;
      var front, c := s[..|s| - 1], s[|s| - 1];
      assert s == front + [c];
      NoNewline(front);
      SplitStep(front, c);
    }
  }

  /** A line that fills a block is thrown away and not dispatched. */
  lemma FullLineLost(line: string)
    requires '\n' !in line && |line| == CMD_BUF_SIZE - 1
    ensures Lines(line + ['\n']) == [line] && Dispatchable(Lines(line + ['\n'])) == []
  {
    NoNewline(line);
    SplitStep(line, '\n');
    AppendLine([], line);
    assert [] + [line] == [line];
  }

  /** Text after a newline starts a new line. */
  lemma {:induction false} AfterNewline(m: string, r: string)
    requires '\n' !in r
    ensures Lines(m + ['\n'] + r) == Lines(m + ['\n']) && LastLine(m + ['\n'] + r) == r
  {
    hide Lines, LastLine;
    var s := m + ['\n'] + r;
    if r == [] {
      assert s == m + ['\n'];
      SplitStep(m, '\n');
    } else {
      var front, c := r[..|r| - 1], r[|r| - 1];
      AfterNewline(m, front);
      assert s == (m + ['\n'] + front) + [c];
      SplitStep(m + ['\n'] + front, c);
      assert r == front + [c];
    }
  }

  lemma Resume(pending: string, chunk: string, d: seq<string>)
    requires '\n' !in pending && |pending| < BLOCK
    ensures FeedAll(Framing(pending, d), chunk)
            == Framing(Kept(LastLine(pending + chunk)), d + Dispatchable(Lines(pending + chunk)))
  {
    FeedMeaning(pending + chunk, d);
    FeedMeaning(pending, d);
    NoNewline(pending);
    FeedAppend(Framing([], d), pending, chunk);
    assert d + [] == d;
  }

  /** A held tail and a new chunk, with no newline: everything stays pending, or the full buffer is dropped. */
  lemma PollNoNewline(pending: string, chunk: string, d: seq<string>)
    requires '\n' !in pending + chunk && |pending| < BLOCK && |pending + chunk| <= BLOCK
    ensures FeedAll(Framing(pending, d),
        chunk) == Framing(if |pending + chunk| == BLOCK then [] else pending + chunk, d)
  {
    Resume(pending, chunk, d);
    NoNewline(pending + chunk);
    assert d + [] == d;
  }

  /**
   * A held tail and a new chunk, with a last newline: the lines before it are dispatched and the text after it is
   * held.
   */
  lemma PollNewline(pending: string, chunk: string, d: seq<string>, m: string, r: string)
    requires '\n' !in pending && |pending| < BLOCK && |pending + chunk| <= BLOCK
    requires pending + chunk == m + ['\n'] + r && '\n' !in r
    ensures FeedAll(Framing(pending, d), chunk) == Framing(r, d + NonEmpty(Lines(m + ['\n'])))
  {
    Resume(pending, chunk, d);
    AfterNewline(m, r);
    LinesFit(m + ['\n'], |m| + 1);
    ShortLinesKept(Lines(m + ['\n']));
  }

  // ---- streams made of lines ----

  /** The lines, each with its newline, one after another. */
  function Joined(lines: seq<string>): string {
    if lines == [] then [] else lines[0] + "\n" + Joined(lines[1..])
  }

  lemma {:induction false} JoinedAppend(lines: seq<string>, line: string)
    ensures Joined(lines + [line]) == Joined(lines) + (line + "\n")
  {
    if lines == [] {
      assert [] + [line] == [line] && [line][1..] == [];
    } else {
      JoinedAppend(lines[1..], line);
      assert (lines + [line])[1..] == lines[1..] + [line];
      assert lines[0] + "\n" + (Joined(lines[1..]) + (line + "\n"))
             == (lines[0] + "\n" + Joined(lines[1..])) + (line + "\n");
    }
  }

  lemma StartOfText()
    ensures Lines([]) == [] && LastLine([]) == [] && NonEmpty([]) == []
  {
  }

  /** Every stream is its lines, each with its newline, and the unfinished one. */
  lemma {:induction false} SplitExact(s: string)
    ensures Joined(Lines(s)) + LastLine(s) == s
    ensures forall line | line in Lines(s) :: '\n' !in line
  {
    if s == [] {
      StartOfText();
    } else {
      hide Lines, LastLine, Joined;
      var front, c := s[..|s| - 1], s[|s| - 1];
      assert s == front + [c];
      SplitExact(front);
      SplitStep(front, c);
      if c == '\n' {
        JoinedAppend(Lines(front), LastLine(front));
        assert Joined(Lines(front)) + (LastLine(front) + "\n") == Joined(Lines(front)) + LastLine(front) + "\n";
      } else {
        assert Joined(Lines(front)) + (LastLine(front) + [c]) == Joined(Lines(front)) + LastLine(front) + [c];
      }
    }
  }

  lemma DispatchNone()
    ensures Dispatchable([]) == []
  {
  }

  /** Newline-free text after a newline, or at the start, is the unfinished line. */
  lemma {:induction false} TextThenLine(t: string, line: string)
    requires '\n' !in line && LastLine(t) == []
    ensures Lines(t + line) == Lines(t) && LastLine(t + line) == line
  {
    hide Lines, LastLine;
    if line == [] {
      assert t + line == t;
    } else {
      var front, c := line[..|line| - 1], line[|line| - 1];
      TextThenLine(t, front);
      assert t + line == (t + front) + [c] && line == front + [c];
      SplitStep(t + front, c);
    }
  }

  lemma NewlineOne(lines: seq<string>, line: string, tail: string)
    requires '\n' !in line && '\n' !in tail
    requires Lines(Joined(lines)) == lines && LastLine(Joined(lines)) == []
    ensures Lines(Joined(lines) + line + "\n" + tail) == lines + [line]
    ensures LastLine(Joined(lines) + line + "\n" + tail) == tail
  {
    hide Lines, LastLine, Joined;
    var t := Joined(lines);
    TextThenLine(t, line);
    SplitStep(t + line, '\n');
    AfterNewline(t + line, tail);
  }

  /** And any list of lines comes out of the stream made of them, in order. */
  lemma {:induction false} LinesOfJoined(lines: seq<string>, tail: string)
    requires '\n' !in tail && forall line | line in lines :: '\n' !in line
    ensures Lines(Joined(lines) + tail) == lines && LastLine(Joined(lines) + tail) == tail
  {
    hide Lines, LastLine;
    if lines == [] {
      NoNewline(tail);
      assert Joined([]) + tail == tail;
    } else {
      var front, last := lines[..|lines| - 1], lines[|lines| - 1];
      assert lines == front + [last] && last in lines && forall line | line in front :: line in lines;
      LinesOfJoined(front, []);
      assert Joined(front) + [] == Joined(front);
      JoinedAppend(front, last);
      NewlineOne(front, last, tail);
      assert Joined(lines) + tail == Joined(front) + last + "\n" + tail;
    }
  }

  lemma {:induction false} AllDispatched(lines: seq<string>)
    requires forall line | line in lines :: line != [] && |line| <= 4094
    ensures Dispatchable(lines) == lines
  {
    if lines != [] {
      hide Dispatchable;
      var front, last := lines[..|lines| - 1], lines[|lines| - 1];
      assert lines == front + [last];
      AllDispatched(front);
      AppendLine(front, last);
    }
  }

  /**
   * A stream of non-empty commands of at most 4094 bytes, each ended by a newline, is dispatched command by command in
   * the order sent, and what follows the last newline is held, up to 4094 bytes of it.
   */
  lemma CommandsInOrder(commands: seq<string>, tail: string)
    requires '\n' !in tail && |tail| <= 4094
    requires forall c | c in commands :: c != [] && |c| <= 4094 && '\n' !in c
    ensures FeedAll(Framing([], []), Joined(commands) + tail) == Framing(tail, commands)
  {
    hide Lines, LastLine, Dispatchable, Joined;
    LinesOfJoined(commands, tail);
    FeedMeaning(Joined(commands) + tail, []);
    AllDispatched(commands);
    assert [] + commands == commands;
  }

  lemma KeptExact(line: string)
    ensures Kept(line) == line[|line| - |line| % 4095..]
    ensures Kept(line) == [] <==> |line| % 4095 == 0
  {
  }

  /** Of a longer line the full blocks of 4095 bytes are thrown away, and what is left of it is dispatched. */
  lemma LongLineCut(line: string)
    requires '\n' !in line
    ensures FeedAll(Framing([], []), line + ['\n'])
            == Framing([], if |line| % 4095 == 0 then [] else [line[|line| - |line| % 4095..]])
  {
    hide Lines, LastLine, Dispatchable, Kept, FeedAll;
    NoNewline(line);
    SplitStep(line, '\n');
    FeedMeaning(line + ['\n'], []);
    AppendLine([], line);
    assert [] + [line] == [line];
    DispatchNone();
    KeptExact(line);
    KeptExact([]);
  }

  // ---- the buffer ----

  /** The line that a newline completes, unless it is empty. */
  function Completed(line: string): seq<string> {
    if line == [] then [] else [line]
  }

  lemma NonEmptyStep(text: string, c: char)
    ensures c == '\n' ==> NonEmpty(Lines(text + [c])) == NonEmpty(Lines(text)) + Completed(LastLine(text))
    ensures c != '\n' ==> Lines(text + [c]) == Lines(text)
    ensures LastLine(text + [c]) == if c == '\n' then [] else LastLine(text) + [c]
  {
    hide Lines, LastLine, NonEmpty;
    SplitStep(text, c);
    if c == '\n' {
      AppendLine(Lines(text), LastLine(text));
    }
  }

  lemma FeedNothing(f: Framing)
    ensures FeedAll(f, []) == f
  {
  }

  lemma NoneOf(s: string, c: char)
    requires c !in s
    ensures forall i | 0 <= i < |s| :: s[i] != c
  {
  }

  lemma TextStep(text: string, p: nat)
    requires p < |text|
    ensures text[p] == '\n' ==> NonEmpty(Lines(text[..p + 1]))
                                == NonEmpty(Lines(text[..p])) + Completed(LastLine(text[..p]))
    ensures text[p] != '\n' ==> Lines(text[..p + 1]) == Lines(text[..p])
    ensures LastLine(text[..p + 1]) == if text[p] == '\n' then [] else LastLine(text[..p]) + [text[p]]
  {
    assert text[..p + 1] == text[..p] + [text[p]];
    NonEmptyStep(text[..p], text[p]);
  }

  class StdinCommand {
    const stdinBuf: array<char>
    var stdinBufPtr: nat
    var dispatched: seq<string>
    ghost var received: string

    /**
     * The buffer holds the pending bytes of the stream received so far, and everything dispatched so far is what that
     * stream asks for.
     */
    ghost predicate Valid()
      reads this, stdinBuf
    {
      && stdinBuf.Length == CMD_BUF_SIZE
      && stdinBufPtr < BLOCK
      && '\0' !in stdinBuf[..stdinBufPtr] && '\n' !in stdinBuf[..stdinBufPtr]
      && Framing(stdinBuf[..stdinBufPtr], dispatched) == FeedAll(Framing([], []), received)
    }

    constructor ()
      ensures Valid() && received == [] && dispatched == []
    {
      stdinBuf := new char[CMD_BUF_SIZE](_ => '\0');
      stdinBufPtr, dispatched, received := 0, [], [];
    }

    /** The size of the read the next poll asks for. */
    function ReadRequest(): int
      reads this
    {
      CMD_BUF_SIZE - stdinBufPtr - 1
    }

    /**
     * In every state the next read asks for at least one byte, the buffer holds what is kept of the unfinished line,
     * and the commands dispatched are those of the stream received, however it was cut into reads.
     */
    lemma StreamMeaning()
      requires Valid()
      ensures ReadRequest() > 0
      ensures stdinBuf[..stdinBufPtr] == Kept(LastLine(received))
      ensures dispatched == Dispatchable(Lines(received))
      ensures (forall line | line in Lines(received) :: |line| <= CMD_BUF_SIZE - 2)
          ==> dispatched == NonEmpty(Lines(received))
    {
      FeedMeaning(received, []);
      CommandsAreLines(received);
      assert [] + Dispatchable(Lines(received)) == Dispatchable(Lines(received));
    }

    /** `strrchr(stdin_buf, '\n')`, or -1 */
    method LastNewline(end: nat) returns (last: int)
      requires end < stdinBuf.Length && stdinBuf[end] == '\0' && forall i | 0 <= i < end :: stdinBuf[i] != '\0'
      ensures -1 <= last < end
      ensures last == -1 ==> '\n' !in stdinBuf[..end]
      ensures last >= 0 ==> stdinBuf[last] == '\n' && '\n' !in stdinBuf[last + 1..end]
    {
      last := -1;
      var i := 0;
      while stdinBuf[i] != '\0'
        invariant i <= end && -1 <= last < i
        invariant last == -1 ==> '\n' !in stdinBuf[..i]
        invariant last >= 0 ==> stdinBuf[last] == '\n' && '\n' !in stdinBuf[last + 1..i]
        decreases end - i
      {
        if stdinBuf[i] == '\n' {
          last := i;
        }
        i := i + 1;
      }
    }

    /** The end of the token that starts at `p`: the next newline or the terminator. */
    method TokenEnd(p: nat, end: nat, ghost text: string) returns (q: nat)
      requires p < end < stdinBuf.Length && |text| == end && (forall i | 0 <= i < end :: text[i] != '\0')
      requires (forall i | p <= i < end :: stdinBuf[i] == text[i]) && stdinBuf[end] == '\0' && stdinBuf[p] != '\n'
      requires LastLine(text[..p]) == []
      ensures p < q <= end && (q < end ==> text[q] == '\n')
      ensures LastLine(text[..q]) == text[p..q] && Lines(text[..q]) == Lines(text[..p])
    {
      hide Lines, LastLine, NonEmpty;
      q := p;
      while stdinBuf[q] != '\0' && stdinBuf[q] != '\n'
        invariant p <= q <= end && LastLine(text[..q]) == text[p..q] && Lines(text[..q]) == Lines(text[..p])
        decreases end - q
      {
        TextStep(text, q);
        assert text[p..q + 1] == text[p..q] + [text[q]];
        q := q + 1;
      }
    }

    /**
     * `command_parse_msg`: splits the buffer, up to its terminator at `end`, at newlines and dispatches every non-
     * empty piece.
     */
    method ParseMsg(end: nat)
      requires end < stdinBuf.Length && stdinBuf[end] == '\0' && forall i | 0 <= i < end :: stdinBuf[i] != '\0'
      modifies stdinBuf, this`dispatched
      ensures dispatched == old(dispatched) + NonEmpty(Lines(old(stdinBuf[..end]) + ['\n']))
      ensures stdinBuf[end..] == old(stdinBuf[end..])
    {
      hide Lines, LastLine, NonEmpty;
      ghost var text, d := stdinBuf[..end], dispatched;
      var p := 0;
      StartOfText();
      NothingAdded(d);
      while stdinBuf[p] != '\0'
        invariant p <= end && (forall i | p <= i < end :: stdinBuf[i] == text[i])
            && stdinBuf[end..] == old(stdinBuf[end..])
        invariant LastLine(text[..p]) == [] && dispatched == d + NonEmpty(Lines(text[..p]))
        decreases end - p
      {
        assert p < end by { assert stdinBuf[end..][0] == old(stdinBuf[end..])[0]; }
        if stdinBuf[p] == '\n' {
          TextStep(text, p);
          p := p + 1;
          NothingAdded(NonEmpty(Lines(text[..p])));
        } else {
          var q := TokenEnd(p, end, text);
          dispatched := dispatched + [stdinBuf[p..q]];
          assert stdinBuf[p..q] == text[p..q];
          if q < end {
            stdinBuf[q] := '\0';
            TextStep(text, q);
            Regroup(d, NonEmpty(Lines(text[..q])), [text[p..q]]);
            p := q + 1;
          } else {
            assert text[..q] == text;
            NonEmptyStep(text, '\n');
            Regroup(d, NonEmpty(Lines(text)), [text[p..q]]);
            return;
          }
        }
      }
      assert text[..p] == text;
      NonEmptyStep(text, '\n');
      NothingAdded(NonEmpty(Lines(text)));
    }

    /** The branch of the poll that found a newline: dispatch everything before it and move the rest to the front. */
    method DispatchUpTo(lastNewline: nat, ghost pending: string, ghost chunk: string)
      requires stdinBuf.Length == CMD_BUF_SIZE && lastNewline < stdinBufPtr < CMD_BUF_SIZE
      requires stdinBuf[..stdinBufPtr] == pending + chunk && '\0' !in pending + chunk && '\n' !in pending
          && |pending| < BLOCK
      requires stdinBuf[lastNewline] == '\n' && '\n' !in stdinBuf[lastNewline + 1..stdinBufPtr]
      modifies stdinBuf, this`dispatched, this`stdinBufPtr
      ensures stdinBufPtr < BLOCK && '\0' !in stdinBuf[..stdinBufPtr] && '\n' !in stdinBuf[..stdinBufPtr]
      ensures Framing(stdinBuf[..stdinBufPtr], dispatched) == FeedAll(Framing(pending, old(dispatched)), chunk)
    {
      hide Lines, LastLine, NonEmpty, FeedAll;
      ghost var m, r := stdinBuf[..lastNewline], stdinBuf[lastNewline + 1..stdinBufPtr];
      assert pending + chunk == m + ['\n'] + r;
      PollNewline(pending, chunk, dispatched, m, r);
      stdinBuf[lastNewline] := '\0';
      var msgLen := lastNewline + 1;
      assert stdinBuf[..lastNewline] == m;
      NoneOf(m, '\0');
      assert stdinBuf[lastNewline..][1..1 + |r|] == r;
      ParseMsg(lastNewline);
      assert stdinBuf[msgLen..stdinBufPtr] == stdinBuf[lastNewline..][1..1 + |r|];
      forall i | 0 <= i < stdinBufPtr - msgLen {
        stdinBuf[i] := stdinBuf[msgLen + i];
      }
      stdinBufPtr := stdinBufPtr - msgLen;
      assert stdinBuf[..stdinBufPtr] == r;
    }

    /** `command_stdin_poll`, where `chunk` is what the read returned. */
    method Poll(chunk: string)
      requires Valid() && |chunk| <= ReadRequest() && '\0' !in chunk
      modifies this, stdinBuf
      ensures Valid() && received == old(received) + chunk
    {
      hide Lines, LastLine, NonEmpty, FeedAll;
      ghost var pending, d := stdinBuf[..stdinBufPtr], dispatched;
      FeedAppend(Framing([], []), received, chunk);
      received := received + chunk;
      forall i | 0 <= i < |chunk| {
        stdinBuf[stdinBufPtr + i] := chunk[i];
      }
      FeedNothing(Framing(pending, d));
      assert stdinBuf[..stdinBufPtr] == pending;
      if |chunk| != 0 {
        stdinBufPtr := stdinBufPtr + |chunk|;
        stdinBuf[stdinBufPtr] := '\0';
        assert stdinBuf[..stdinBufPtr] == pending + chunk;
        NoneOf(stdinBuf[..stdinBufPtr], '\0');
        var lastNewline := LastNewline(stdinBufPtr);
        if lastNewline < 0 {
          PollNoNewline(pending, chunk, d);
          if stdinBufPtr + 1 >= CMD_BUF_SIZE {
            stdinBufPtr := 0;
            stdinBuf[0] := '\0';
          }
        } else {
          DispatchUpTo(lastNewline, pending, chunk);
        }
      }
    }
  }
}
