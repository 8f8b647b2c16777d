/** The conversation buffer: a bounded first-in-first-out window of turns, a running
    turn counter, per-message word truncation, prompt rendering, statistics and
    snapshot export/import. Each operation maps the old state to the new one. */
module ChatMemory {
  import opened Wrappers
  import opened Sequences
  import opened Text

  const DefaultWindowSize: nat := 5
  const DefaultMaxTokensPerTurn: nat := 100
  const Ellipsis := "..."

  const HumanPrefix := "Human: "
  const AssistantPrefix := "Assistant: "
  const AssistantCue := "Assistant:"

  /** One stored turn. Turns built by `AddTurn` carry an id and a timestamp; turns
      restored by `ImportConversation` keep whatever id and timestamp the snapshot had. */
  datatype Turn = Turn(turnId: Option<int>, user: string, bot: string, timestamp: Option<string>)

  /** One snapshot record as a dictionary whose keys may be missing. */
  datatype Record = Record(turnId: Option<int>, user: Option<string>, bot: Option<string>, timestamp: Option<string>)

  datatype Memory = Memory(windowSize: nat, maxTokensPerTurn: nat, buffer: seq<Turn>, totalTurns: nat)

  datatype Stats = Stats(totalTurns: nat, currentBufferSize: nat, maxBufferSize: nat, bufferFull: bool)

  /** One exchange handed to `AddTurn`, with the clock reading taken at that call. */
  datatype Exchange = Exchange(user: string, bot: string, timestamp: string)

  /** The state invariant: a usable window, never more turns than it holds, and a
      counter at least as large as the buffer. */
  predicate Valid(m: Memory)
  {
    && m.windowSize >= 1
    && |m.buffer| <= m.windowSize
    && |m.buffer| <= m.totalTurns
  }

  /** A new memory; the sizes default to those of the Python constructor. */
  function Init(windowSize: nat := DefaultWindowSize, maxTokensPerTurn: nat := DefaultMaxTokensPerTurn): (m: Memory)
    requires windowSize >= 1
    ensures Valid(m)
    ensures m.buffer == [] && m.totalTurns == 0
    ensures m.windowSize == windowSize && m.maxTokensPerTurn == maxTokensPerTurn
  {
    Memory(windowSize, maxTokensPerTurn, [], 0)
  }

  // ---------------------------------------------------------------------------
  // Truncation

  /** A message with more than `maxTokens` words keeps its first `maxTokens` words,
      joined by single spaces, followed by an ellipsis; shorter messages are kept as they
      are, whitespace included. */
  function TruncateMessage(message: string, maxTokens: nat): (r: string)
    ensures |Split(message)| <= maxTokens ==> r == message
  {
    var words := Split(message);
    if |words| > maxTokens then Join(words[..maxTokens], " ") + Ellipsis else message
  }

  /** A truncated message ends in the ellipsis, and what precedes it splits into exactly
      the first `maxTokens` words of the original, separated by single spaces only. */
  lemma TruncateKeepsFirstWords(message: string, maxTokens: nat)
    requires |Split(message)| > maxTokens
    ensures var r := TruncateMessage(message, maxTokens);
      |r| >= |Ellipsis| && r[|r| - |Ellipsis|..] == Ellipsis &&
      Split(r[..|r| - |Ellipsis|]) == Split(message)[..maxTokens]
    ensures var r := TruncateMessage(message, maxTokens);
      |r| >= |Ellipsis| && SingleSpaced(r[..|r| - |Ellipsis|])
  {
    var kept := Split(message)[..maxTokens];
    var r := TruncateMessage(message, maxTokens);
    assert r == Join(kept, " ") + Ellipsis;
    assert r[..|r| - |Ellipsis|] == Join(kept, " ");
    SplitJoin(kept);
    JoinSingleSpaced(kept);
  }

  /** A truncated message has exactly `maxTokens` words: the first `maxTokens - 1` words
      of the original and its next word with the ellipsis attached. */
  lemma TruncateWords(message: string, maxTokens: nat)
    requires |Split(message)| > maxTokens >= 1
    ensures Split(TruncateMessage(message, maxTokens)) ==
              Split(message)[..maxTokens - 1] + [Split(message)[maxTokens - 1] + Ellipsis]
  {
    SplitMarked(Split(message)[..maxTokens]);
    assert Split(message)[..maxTokens][..maxTokens - 1] == Split(message)[..maxTokens - 1];
  }

  /** Words joined by spaces with the ellipsis appended split back into the same words,
      the last one carrying the ellipsis. */
  lemma SplitMarked(kept: seq<string>)
    requires kept != []
    requires forall i :: 0 <= i < |kept| ==> IsWord(kept[i])
    ensures Split(Join(kept, " ") + Ellipsis) == kept[..|kept| - 1] + [kept[|kept| - 1] + Ellipsis]
  {
    JoinExtendLast(kept, " ", Ellipsis);
    var marked := kept[..|kept| - 1] + [kept[|kept| - 1] + Ellipsis];
    forall i | 0 <= i < |marked| ensures IsWord(marked[i]) {
      if i < |kept| - 1 {
        assert marked[i] == kept[i];
      } else {
        WordWithEllipsis(kept[i]);
      }
    }
    SplitJoin(marked);
  }

  /** The ellipsis has no whitespace, so a word with it appended is still one word. */
  lemma WordWithEllipsis(w: string)
    requires IsWord(w)
    ensures IsWord(w + Ellipsis)
  {
    assert '.' !in Whitespace;
    assert forall j :: |w| <= j < |w + Ellipsis| ==> (w + Ellipsis)[j] == '.';
  }

  /** A truncated message has at most `max(maxTokens, 1)` words. */
  lemma TruncateBound(message: string, maxTokens: nat)
    ensures |Split(TruncateMessage(message, maxTokens))| <= if maxTokens == 0 then 1 else maxTokens
  {
    if |Split(message)| > maxTokens {
      if maxTokens == 0 {
        SplitWord(Ellipsis);
      } else {
        TruncateWords(message, maxTokens);
      }
    }
  }

  /** Truncating an already truncated message changes nothing. */
  lemma TruncateIdempotent(message: string, maxTokens: nat)
    ensures TruncateMessage(TruncateMessage(message, maxTokens), maxTokens) == TruncateMessage(message, maxTokens)
  {
    if |Split(message)| > maxTokens {
      if maxTokens == 0 {
        SplitWord(Ellipsis);
      } else {
        TruncateWords(message, maxTokens);
      }
    }
  }

  // ---------------------------------------------------------------------------
  // Adding turns

  /** Appending to a Python `deque(maxlen=maxLen)`: the oldest element falls out when full. */
  function BoundedAppend<T>(buf: seq<T>, x: T, maxLen: nat): seq<T>
  {
    Last(buf + [x], maxLen)
  }

  /** Appending several elements to a bounded deque, one at a time. */
  function AppendAll<T>(buf: seq<T>, ys: seq<T>, maxLen: nat): seq<T>
    decreases |ys|
  {
    if ys == [] then buf else AppendAll(BoundedAppend(buf, ys[0], maxLen), ys[1..], maxLen)
  }

  /** Moving the head of `ys` to the end of `buf` keeps the concatenation. */
  lemma ConsTail<T>(buf: seq<T>, ys: seq<T>)
    requires ys != []
    ensures buf + [ys[0]] + ys[1..] == buf + ys
  {
    assert [ys[0]] + ys[1..] == ys;
  }

  /** A bounded deque that starts within its bound ends up holding the last `maxLen`
      elements of everything appended to it. */
  lemma {:induction false} AppendAllLast<T>(buf: seq<T>, ys: seq<T>, maxLen: nat)
    requires |buf| <= maxLen
    ensures AppendAll(buf, ys, maxLen) == Last(buf + ys, maxLen)
    decreases |ys|
  {
    if ys == [] {
      assert buf + [] == buf;
    } else {
      AppendAllLast(BoundedAppend(buf, ys[0], maxLen), ys[1..], maxLen);
      LastConcat(buf + [ys[0]], ys[1..], maxLen);
      ConsTail(buf, ys);
    }
  }

  /** The turn `AddTurn` stores as number `id`. */
  function NewTurn(id: nat, x: Exchange, maxTokens: nat): Turn
  {
    Turn(Some(id), TruncateMessage(x.user, maxTokens), TruncateMessage(x.bot, maxTokens), Some(x.timestamp))
  }

  /** The state change of one `add_turn` call. */
  function Step(m: Memory, x: Exchange): Memory
  {
    m.(buffer := BoundedAppend(m.buffer, NewTurn(m.totalTurns + 1, x, m.maxTokensPerTurn), m.windowSize),
       totalTurns := m.totalTurns + 1)
  }

  /** Stores one exchange as the newest turn, numbered one past the counter. */
  function AddTurn(m: Memory, user: string, bot: string, now: string): (r: Memory)
    requires Valid(m)
    ensures Valid(r)
    ensures r.windowSize == m.windowSize && r.maxTokensPerTurn == m.maxTokensPerTurn
    ensures r.totalTurns == m.totalTurns + 1
    ensures |r.buffer| == Min(|m.buffer| + 1, m.windowSize)
    ensures r.buffer[|r.buffer| - 1] ==
              Turn(Some(m.totalTurns + 1), TruncateMessage(user, m.maxTokensPerTurn),
                   TruncateMessage(bot, m.maxTokensPerTurn), Some(now))
    ensures r.buffer[..|r.buffer| - 1] == m.buffer[|m.buffer| + 1 - |r.buffer|..]
  {
    StepAppends(m, Exchange(user, bot, now));
    Step(m, Exchange(user, bot, now))
  }

  /** One step appends the new turn to the buffer, dropping the oldest beyond the window. */
  lemma StepAppends(m: Memory, x: Exchange)
    requires Valid(m)
    ensures var t := NewTurn(m.totalTurns + 1, x, m.maxTokensPerTurn);
      Step(m, x).buffer == (m.buffer + [t])[|m.buffer| + 1 - |Step(m, x).buffer|..]
  {
  }

  /** A step of a run of additions is one `AddTurn` call on the exchange's texts. */
  lemma StepIsAddTurn(m: Memory, x: Exchange)
    requires Valid(m)
    ensures Step(m, x) == AddTurn(m, x.user, x.bot, x.timestamp)
  {
  }

  /** A run of `AddTurn` calls, one per exchange, in order. */
  function AddTurns(m: Memory, xs: seq<Exchange>): Memory
    decreases |xs|
  {
    if xs == [] then m else AddTurns(Step(m, xs[0]), xs[1..])
  }

  /** The turns that a run of `AddTurn` calls builds, numbered from `start + 1`. */
  function NewTurns(start: nat, xs: seq<Exchange>, maxTokens: nat): (ts: seq<Turn>)
    ensures |ts| == |xs|
    decreases |xs|
  {
    if xs == [] then [] else [NewTurn(start + 1, xs[0], maxTokens)] + NewTurns(start + 1, xs[1..], maxTokens)
  }

  /** A run of additions raises the counter by one per addition and keeps the configuration. */
  lemma {:induction false} AddTurnsCounts(m: Memory, xs: seq<Exchange>)
    ensures AddTurns(m, xs).totalTurns == m.totalTurns + |xs|
    ensures AddTurns(m, xs).windowSize == m.windowSize
    ensures AddTurns(m, xs).maxTokensPerTurn == m.maxTokensPerTurn
    decreases |xs|
  {
    if xs != [] {
      AddTurnsCounts(Step(m, xs[0]), xs[1..]);
    }
  }

  /** After any run of additions the buffer holds the last `windowSize` of the old
      turns followed by the new ones. */
  lemma AddTurnsKeepsWindow(m: Memory, xs: seq<Exchange>)
    requires Valid(m)
    ensures AddTurns(m, xs).buffer == Last(m.buffer + NewTurns(m.totalTurns, xs, m.maxTokensPerTurn), m.windowSize)
  {
    AddTurnsAppends(m, xs);
    AppendAllLast(m.buffer, NewTurns(m.totalTurns, xs, m.maxTokensPerTurn), m.windowSize);
  }

  lemma {:induction false} AddTurnsAppends(m: Memory, xs: seq<Exchange>)
    ensures AddTurns(m, xs).buffer == AppendAll(m.buffer, NewTurns(m.totalTurns, xs, m.maxTokensPerTurn), m.windowSize)
    decreases |xs|
  {
    if xs != [] {
      var ts := NewTurns(m.totalTurns, xs, m.maxTokensPerTurn);
      assert ts[0] == NewTurn(m.totalTurns + 1, xs[0], m.maxTokensPerTurn);
      assert ts[1..] == NewTurns(m.totalTurns + 1, xs[1..], m.maxTokensPerTurn);
      AddTurnsAppends(Step(m, xs[0]), xs[1..]);
    }
  }

  /** The turns of `ts` carry the consecutive ids `start + 1`, `start + 2`, ... */
  predicate NumberedFrom(ts: seq<Turn>, start: int)
  {
    forall i :: 0 <= i < |ts| ==> ts[i].turnId == Some(start + i + 1)
  }

  /** Since the last clear, the buffer holds the last `min(k, windowSize)` of the `k`
      turns added, oldest first, and the counter is `k`. */
  lemma AddTurnsAfterClear(m: Memory, xs: seq<Exchange>)
    requires Valid(m)
    ensures AddTurns(ClearMemory(m), xs).buffer == Last(NewTurns(0, xs, m.maxTokensPerTurn), m.windowSize)
    ensures AddTurns(ClearMemory(m), xs).totalTurns == |xs|
    ensures |AddTurns(ClearMemory(m), xs).buffer| == Min(|xs|, m.windowSize)
  {
    AddTurnsKeepsWindow(ClearMemory(m), xs);
    assert [] + NewTurns(0, xs, m.maxTokensPerTurn) == NewTurns(0, xs, m.maxTokensPerTurn);
    AddTurnsCounts(ClearMemory(m), xs);
  }

  /** The buffer holds the turns numbered up to the counter, consecutively. */
  predicate NumberedUpToCounter(m: Memory)
  {
    |m.buffer| <= m.totalTurns && NumberedFrom(m.buffer, m.totalTurns - |m.buffer|)
  }

  /** A buffer made of the newest turns of a consecutively numbered buffer followed by
      the next number is again consecutively numbered up to the counter. */
  lemma NumberedAfterAppend(r: Memory, prev: Memory)
    requires NumberedUpToCounter(prev) && r.totalTurns == prev.totalTurns + 1
    requires 1 <= |r.buffer| <= |prev.buffer| + 1
    requires r.buffer[..|r.buffer| - 1] == prev.buffer[|prev.buffer| + 1 - |r.buffer|..]
    requires r.buffer[|r.buffer| - 1].turnId == Some(r.totalTurns)
    ensures NumberedUpToCounter(r)
  {
    var b := r.buffer;
    forall i | 0 <= i < |b| ensures b[i].turnId == Some(r.totalTurns - |b| + i + 1) {
      if i < |b| - 1 {
        assert b[i] == b[..|b| - 1][i] == prev.buffer[|prev.buffer| + 1 - |b| + i];
      }
    }
  }

  /** Adding a turn keeps the buffer numbered consecutively up to the counter. */
  lemma AddTurnKeepsNumbering(m: Memory, user: string, bot: string, now: string)
    requires Valid(m) && NumberedUpToCounter(m)
    ensures NumberedUpToCounter(AddTurn(m, user, bot, now))
  {
    NumberedAfterAppend(AddTurn(m, user, bot, now), m);
  }

  /** Any run of additions keeps the buffer numbered consecutively up to the counter. */
  lemma {:induction false} AddTurnsKeepsNumbering(m: Memory, xs: seq<Exchange>)
    requires Valid(m) && NumberedUpToCounter(m)
    ensures NumberedUpToCounter(AddTurns(m, xs))
    decreases |xs|
  {
    if xs != [] {
      var m1 := AddTurn(m, xs[0].user, xs[0].bot, xs[0].timestamp);
      AddTurnKeepsNumbering(m, xs[0].user, xs[0].bot, xs[0].timestamp);
      StepIsAddTurn(m, xs[0]);
      AddTurnsKeepsNumbering(m1, xs[1..]);
    }
  }

  /** Since the last clear, the stored turns are numbered consecutively, the newest
      carrying the number of turns added. */
  lemma NumberedAfterClear(m: Memory, xs: seq<Exchange>)
    requires Valid(m)
    ensures AddTurns(ClearMemory(m), xs).totalTurns == |xs|
    ensures NumberedUpToCounter(AddTurns(ClearMemory(m), xs))
  {
    NumberedFromEmpty(ClearMemory(m), xs);
  }

  /** Additions to an empty memory with counter 0 keep the numbering consecutive up to
      the counter, which ends at the number of additions. */
  lemma NumberedFromEmpty(c: Memory, xs: seq<Exchange>)
    requires Valid(c) && c.buffer == [] && c.totalTurns == 0
    ensures NumberedUpToCounter(AddTurns(c, xs)) && AddTurns(c, xs).totalTurns == |xs|
  {
    assert NumberedUpToCounter(c);
    AddTurnsKeepsNumbering(c, xs);
    AddTurnsCounts(c, xs);
  }

  // ---------------------------------------------------------------------------
  // Rendering the prompt

  /** The two prompt lines of each turn, oldest first. */
  function TurnLines(ts: seq<Turn>): seq<string>
  {
    if ts == [] then [] else [HumanPrefix + ts[0].user, AssistantPrefix + ts[0].bot] + TurnLines(ts[1..])
  }

  /** The transcript of the stored turns: each turn as a newline-terminated Human line
      followed by a newline-terminated Assistant line. */
  function Transcript(ts: seq<Turn>): string
  {
    if ts == [] then []
    else HumanPrefix + ts[0].user + "\n" + AssistantPrefix + ts[0].bot + "\n" + Transcript(ts[1..])
  }

  /** Joining the turn lines and a non-empty tail with newlines is the transcript followed by the joined tail. */
  lemma {:induction false} JoinTurnLines(ts: seq<Turn>, tail: seq<string>)
    requires tail != []
    ensures Join(TurnLines(ts) + tail, "\n") == Transcript(ts) + Join(tail, "\n")
  {
    if ts == [] {
      assert TurnLines(ts) + tail == tail;
    } else {
      var h := HumanPrefix + ts[0].user;
      var a := AssistantPrefix + ts[0].bot;
      assert TurnLines(ts) + tail == [h, a] + (TurnLines(ts[1..]) + tail);
      JoinTurnLinesStep(h, a, TurnLines(ts[1..]) + tail);
      JoinTurnLines(ts[1..], tail);
      LinesRegroup(Join(TurnLines(ts) + tail, "\n"), h, a, Join(TurnLines(ts[1..]) + tail, "\n"),
                   Transcript(ts[1..]), Join(tail, "\n"), Transcript(ts));
    }
  }

  /** Joining two more lines in front of non-empty lines. */
  lemma JoinTurnLinesStep(h: string, a: string, rest: seq<string>)
    requires rest != []
    ensures Join([h, a] + rest, "\n") == h + "\n" + (a + "\n" + Join(rest, "\n"))
  {
    assert [h, a] + rest == [h] + ([a] + rest);
    JoinCons(h, [a] + rest, "\n");
    JoinCons(a, rest, "\n");
  }

  /** The string regrouping behind `JoinTurnLines`, stated on plain strings. */
  lemma LinesRegroup(joined: string, h: string, a: string, rest: string, x: string, y: string, t: string)
    requires joined == h + "\n" + (a + "\n" + rest)
    requires rest == x + y
    requires t == h + "\n" + a + "\n" + x
    ensures joined == t + y
  {
    ConcatRegroup(h, "\n", a, "\n", x + y);
  }

  /** The prompt for the next reply: the transcript of the stored turns, then the
      current input on a Human line and an open Assistant cue with no newline after it. */
  function ContextPrompt(m: Memory, currentInput: string): (r: string)
    ensures r == Transcript(m.buffer) + HumanPrefix + currentInput + "\n" + AssistantCue
    ensures m.buffer == [] ==> r == HumanPrefix + currentInput + "\n" + AssistantCue
    ensures AssistantCue <= r[|r| - |AssistantCue|..] && r[|r| - 1] != '\n'
  {
    if m.buffer == [] then
      HumanPrefix + currentInput + "\n" + AssistantCue
    else
      var tail := [HumanPrefix + currentInput, AssistantCue];
      JoinTurnLines(m.buffer, tail);
      assert Join(tail, "\n") == HumanPrefix + currentInput + "\n" + AssistantCue;
      Join(TurnLines(m.buffer) + tail, "\n")
  }

  // ---------------------------------------------------------------------------
  // Reading, clearing and statistics

  /** Python's `list(buffer)[-n:]`, with `n` defaulting to the buffer length. */
  function RecentContext(m: Memory, numTurns: Option<int>): (r: seq<Turn>)
    ensures numTurns == None || numTurns == Some(0) ==> r == m.buffer
    ensures numTurns.Some? && numTurns.value >= 1 ==> r == Last(m.buffer, numTurns.value)
    ensures numTurns.Some? && numTurns.value < 0 ==> r == m.buffer[Min(-numTurns.value, |m.buffer|)..]
  {
    var n := if numTurns.None? then |m.buffer| else numTurns.value;
    SliceFrom(m.buffer, -n)
  }

  /** Empties the buffer and resets the counter; the configuration stays. */
  function ClearMemory(m: Memory): (r: Memory)
    ensures r.buffer == [] && r.totalTurns == 0
    ensures r.windowSize == m.windowSize && r.maxTokensPerTurn == m.maxTokensPerTurn
    ensures m.windowSize >= 1 ==> Valid(r)
  {
    m.(buffer := [], totalTurns := 0)
  }

  function MemoryStats(m: Memory): (s: Stats)
    ensures s.bufferFull <==> |m.buffer| == m.windowSize
    ensures s.maxBufferSize == m.windowSize
    ensures s.currentBufferSize == |m.buffer| && s.totalTurns == m.totalTurns
  {
    Stats(m.totalTurns, |m.buffer|, m.windowSize, |m.buffer| == m.windowSize)
  }

  /** After a clear, the statistics report nothing stored and a buffer that is not full. */
  lemma StatsAfterClear(m: Memory)
    requires m.windowSize >= 1
    ensures MemoryStats(ClearMemory(m)) == Stats(0, 0, m.windowSize, false)
  {
  }

  /** A run of additions grows the buffer by one per addition until the window is full. */
  lemma {:induction false} AddTurnsLength(m: Memory, xs: seq<Exchange>)
    requires Valid(m)
    ensures |AddTurns(m, xs).buffer| == Min(|m.buffer| + |xs|, m.windowSize)
    decreases |xs|
  {
    if xs != [] {
      var m1 := AddTurn(m, xs[0].user, xs[0].bot, xs[0].timestamp);
      StepIsAddTurn(m, xs[0]);
      AddTurnsLength(m1, xs[1..]);
    }
  }

  /** Counting from a clear, the buffer is full exactly once `windowSize` turns have been added. */
  lemma BufferFullAfterWindow(m: Memory, xs: seq<Exchange>)
    requires Valid(m)
    ensures MemoryStats(AddTurns(ClearMemory(m), xs)).bufferFull <==> |xs| >= m.windowSize
  {
    LengthFromEmpty(ClearMemory(m), xs);
  }

  /** Additions to an empty memory fill it up to the window and keep the window. */
  lemma LengthFromEmpty(c: Memory, xs: seq<Exchange>)
    requires Valid(c) && c.buffer == []
    ensures |AddTurns(c, xs).buffer| == Min(|xs|, c.windowSize)
    ensures AddTurns(c, xs).windowSize == c.windowSize
  {
    AddTurnsLength(c, xs);
    AddTurnsCounts(c, xs);
  }

  // ---------------------------------------------------------------------------
  // Snapshots

  predicate HasTexts(rec: Record)
  {
    rec.user.Some? && rec.bot.Some?
  }

  function ToRecord(t: Turn): Record
  {
    Record(t.turnId, Some(t.user), Some(t.bot), t.timestamp)
  }

  function ToTurn(rec: Record): Turn
    requires HasTexts(rec)
  {
    Turn(rec.turnId, rec.user.value, rec.bot.value, rec.timestamp)
  }

  /** The stored turns as records, oldest first. */
  function ExportConversation(m: Memory): (recs: seq<Record>)
    ensures |recs| == |m.buffer|
    ensures forall i :: 0 <= i < |recs| ==> HasTexts(recs[i]) && ToTurn(recs[i]) == m.buffer[i]
  {
    seq(|m.buffer|, i requires 0 <= i < |m.buffer| => ToRecord(m.buffer[i]))
  }

  /** The records that have both texts, unchanged and in their original order. */
  function KeptTurns(recs: seq<Record>): (ts: seq<Turn>)
    ensures |ts| <= |recs|
  {
    if recs == [] then []
    else if HasTexts(recs[0]) then [ToTurn(recs[0])] + KeptTurns(recs[1..])
    else KeptTurns(recs[1..])
  }

  /** The import loop: one deque append and one count per record that has both texts. */
  function AppendRecords(m: Memory, recs: seq<Record>): Memory
    decreases |recs|
  {
    if recs == [] then m
    else if HasTexts(recs[0]) then
      AppendRecords(m.(buffer := BoundedAppend(m.buffer, ToTurn(recs[0]), m.windowSize),
                       totalTurns := m.totalTurns + 1), recs[1..])
    else AppendRecords(m, recs[1..])
  }

  /** While the window has room, the import loop never evicts: it appends the kept records. */
  lemma {:induction false} AppendRecordsWithinWindow(m: Memory, recs: seq<Record>)
    requires |m.buffer| + |recs| <= m.windowSize
    ensures AppendRecords(m, recs) ==
              m.(buffer := m.buffer + KeptTurns(recs), totalTurns := m.totalTurns + |KeptTurns(recs)|)
    decreases |recs|
  {
    if recs == [] {
      assert m.buffer + [] == m.buffer;
    } else if HasTexts(recs[0]) {
      var t := ToTurn(recs[0]);
      var m1 := m.(buffer := BoundedAppend(m.buffer, t, m.windowSize), totalTurns := m.totalTurns + 1);
      assert m1.buffer == m.buffer + [t];
      AppendRecordsWithinWindow(m1, recs[1..]);
      assert m.buffer + [t] + KeptTurns(recs[1..]) == m.buffer + ([t] + KeptTurns(recs[1..]));
    } else {
      AppendRecordsWithinWindow(m, recs[1..]);
    }
  }

  /** Restores a snapshot: clears, looks only at the last `windowSize` records, keeps
      those that have both texts without renumbering them, and counts the kept ones. */
  function ImportConversation(m: Memory, data: seq<Record>): (r: Memory)
    requires Valid(m)
    ensures Valid(r)
    ensures r.buffer == KeptTurns(Last(data, m.windowSize))
    ensures r.totalTurns == |r.buffer|
    ensures r.windowSize == m.windowSize && r.maxTokensPerTurn == m.maxTokensPerTurn
  {
    var window := SliceFrom(data, -(m.windowSize as int));
    SliceFromNegative(data, m.windowSize);
    AppendRecordsWithinWindow(ClearMemory(m), window);
    AppendRecords(ClearMemory(m), window)
  }

  lemma {:induction false} KeptTurnsOfWellFormed(recs: seq<Record>)
    requires forall i :: 0 <= i < |recs| ==> HasTexts(recs[i])
    ensures |KeptTurns(recs)| == |recs|
    ensures forall i :: 0 <= i < |recs| ==> KeptTurns(recs)[i] == ToTurn(recs[i])
  {
    if recs != [] {
      KeptTurnsOfWellFormed(recs[1..]);
    }
  }

  /** Importing an export leaves the stored turns as they were and sets the counter to their number. */
  lemma ImportExportRoundTrip(m: Memory)
    requires Valid(m)
    ensures ImportConversation(m, ExportConversation(m)).buffer == m.buffer
    ensures ImportConversation(m, ExportConversation(m)).totalTurns == |m.buffer|
  {
    assert Last(ExportConversation(m), m.windowSize) == ExportConversation(m);
    KeptTurnsOfExport(m);
  }

  /** Every exported record is kept, and converts back to the turn it came from. */
  lemma KeptTurnsOfExport(m: Memory)
    ensures KeptTurns(ExportConversation(m)) == m.buffer
  {
    KeptTurnsOfWellFormed(ExportConversation(m));
  }

  /** When every record has both texts, the import keeps exactly the last `windowSize` of them. */
  lemma ImportKeepsLastWindow(m: Memory, data: seq<Record>)
    requires Valid(m)
    requires forall i :: 0 <= i < |data| ==> HasTexts(data[i])
    ensures |ImportConversation(m, data).buffer| == Min(|data|, m.windowSize)
    ensures ImportConversation(m, data).totalTurns == Min(|data|, m.windowSize)
    ensures forall i :: 0 <= i < |ImportConversation(m, data).buffer| ==>
              ImportConversation(m, data).buffer[i] == ToTurn(data[|data| - Min(|data|, m.windowSize) + i])
  {
    WellFormedWindow(data, m.windowSize);
    KeptTurnsOfWellFormed(Last(data, m.windowSize));
  }

  /** The last records of a snapshot whose records all have both texts have both texts,
      and sit at the end of the snapshot. */
  lemma WellFormedWindow(data: seq<Record>, n: nat)
    requires forall i :: 0 <= i < |data| ==> HasTexts(data[i])
    ensures forall i :: 0 <= i < |Last(data, n)| ==> HasTexts(Last(data, n)[i])
    ensures forall i :: 0 <= i < |Last(data, n)| ==> Last(data, n)[i] == data[|data| - Min(|data|, n) + i]
  {
  }

  /** The import cuts the window before it filters: records without both texts at the
      end of a snapshot crowd out well-formed records before them. */
  lemma ImportSlicesBeforeFiltering(m: Memory, good: seq<Record>, bad: seq<Record>)
    requires Valid(m)
    requires |bad| == m.windowSize
    requires forall i :: 0 <= i < |bad| ==> !HasTexts(bad[i])
    ensures ImportConversation(m, good + bad).buffer == []
    ensures ImportConversation(m, good + bad).totalTurns == 0
  {
    assert Last(good + bad, m.windowSize) == bad;
    NothingKept(bad);
  }

  lemma {:induction false} NothingKept(recs: seq<Record>)
    requires forall i :: 0 <= i < |recs| ==> !HasTexts(recs[i])
    ensures KeptTurns(recs) == []
  {
    if recs != [] {
      NothingKept(recs[1..]);
    }
  }

  /** Because the import does not renumber, a turn added after an import can repeat
      the id of a restored turn: restoring one record numbered 2 leaves the counter at 1,
      so the next turn is numbered 2 as well. */
  lemma ImportThenAddRepeatsId(m: Memory, rec: Record, user: string, bot: string, now: string)
    requires Valid(m) && m.windowSize >= 2
    requires HasTexts(rec) && rec.turnId == Some(2)
    ensures var r := AddTurn(ImportConversation(m, [rec]), user, bot, now);
      && |r.buffer| == 2
      && r.buffer[0].turnId == r.buffer[1].turnId == Some(2)
  {
    var m1 := ImportConversation(m, [rec]);
    assert Last([rec], m.windowSize) == [rec];
    assert KeptTurns([rec]) == [ToTurn(rec)];
    assert m1.buffer == [ToTurn(rec)] && m1.totalTurns == 1;
  }
}
