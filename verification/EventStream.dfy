/** The reader of the tutor's event stream. */
module EventStream {
  // Text arrives in chunks that may end anywhere; two pieces of state carry over, the
  // unfinished line and the data of the unfinished event.

  import opened Basics
  import opened Wrappers
  import opened Text

  const PREFIX := "data:"
  const DONE := "[DONE]"

  predicate IsData(line: string) { PREFIX <= line }

  function DataOf(line: string): string
    requires IsData(line)
  {
    Trim(line[|PREFIX|..])
  }

  predicate IsBlank(line: string) { !IsData(line) && Trim(line) == "" }

  // ----- The reader as a fold -----

  /** What decoding and acting on one event's data leads to. */
  datatype Reaction = Ignored | Created(id: string) | Delta(text: string) | ToolCall(call: string) | Throws

  type Handler = string -> Reaction

  /** `handled` lists the data of the events acted upon; after a throw nothing more is read. */
  datatype State = State(pending: string, eventData: string, handled: seq<string>, failed: bool)

  const START := State("", "", [], false)

  predicate IsEvent(data: string) { data != "" && data != DONE }

  function HandleEvent(react: Handler, s: State): State {
    if s.failed || !IsEvent(s.eventData) then s
    else s.(handled := s.handled + [s.eventData], failed := react(s.eventData).Throws?)
  }

  function OnLine(react: Handler, s: State, line: string): State {
    if s.failed then s
    else if IsData(line) then s.(eventData := s.eventData + DataOf(line))
    else if IsBlank(line) then
      var t := HandleEvent(react, s); if t.failed then t else t.(eventData := "")
    else s
  }

  function OnLines(react: Handler, s: State, lines: seq<string>): State
    decreases lines
  {
    if lines == [] then s else OnLines(react, OnLine(react, s, lines[0]), lines[1..])
  }

  function Feed(react: Handler, s: State, chunk: string): State {
    if s.failed then s
    else OnLines(react, s.(pending := Unfinished(s.pending + chunk)), Lines(s.pending + chunk))
  }

  function FeedAll(react: Handler, s: State, chunks: seq<string>): State
    decreases chunks
  {
    if chunks == [] then s else FeedAll(react, Feed(react, s, chunks[0]), chunks[1..])
  }

  /** The whole call: every chunk, then one last look at the event data. */
  function Read(react: Handler, chunks: seq<string>): State {
    HandleEvent(react, FeedAll(react, START, chunks))
  }

  /** What a caller can tell of a reader: after a throw, only the events handled. */
  datatype Outcome = Threw(events: seq<string>) | Reading(pending: string, eventData: string, events: seq<string>)

  function Seen(s: State): Outcome {
    if s.failed then Threw(s.handled) else Reading(s.pending, s.eventData, s.handled)
  }

  // ----- Chunk boundaries do not matter -----

  function Flatten(chunks: seq<string>): string {
    if chunks == [] then "" else chunks[0] + Flatten(chunks[1..])
  }

  lemma {:induction false} OnLinesAppend(react: Handler, s: State, a: seq<string>, b: seq<string>)
    ensures OnLines(react, s, a + b) == OnLines(react, OnLines(react, s, a), b)
    decreases a
  {
    if a == [] {
      assert a + b == b;
    } else {
      assert (a + b)[1..] == a[1..] + b;
      OnLinesAppend(react, OnLine(react, s, a[0]), a[1..], b);
    }
  }

  /** Lines neither read nor write the unfinished line. */
  lemma {:induction false} PendingApart(react: Handler, s: State, p: string, lines: seq<string>)
    ensures OnLines(react, s.(pending := p), lines) == OnLines(react, s, lines).(pending := p)
    decreases lines
  {
    if lines != [] {
      PendingApart(react, OnLine(react, s, lines[0]), p, lines[1..]);
    }
  }

  lemma {:induction false} FailedStays(react: Handler, s: State, lines: seq<string>)
    requires s.failed
    ensures OnLines(react, s, lines) == s
    decreases lines
  {
    if lines != [] {
      FailedStays(react, s, lines[1..]);
    }
  }

  /** Two chunks read one after the other are as good as one. */
  lemma FeedTwice(react: Handler, s: State, a: string, b: string)
    ensures Seen(Feed(react, Feed(react, s, a), b)) == Seen(Feed(react, s, a + b))
  {
    if !s.failed {
      var text := s.pending + a;
      assert s.pending + (a + b) == text + b;
      SplitAppend(text, b);
      var first := Feed(react, s, a);
      var whole := s.(pending := Unfinished(text + b));
      OnLinesAppend(react, whole, Lines(text), Lines(Unfinished(text) + b));
      PendingApart(react, s, Unfinished(text + b), Lines(text));
      PendingApart(react, s, Unfinished(text), Lines(text));
      var middle := OnLines(react, whole, Lines(text));
      assert first == OnLines(react, s, Lines(text)).(pending := Unfinished(text));
      assert middle == OnLines(react, s, Lines(text)).(pending := Unfinished(text + b));
      if first.failed {
        FailedStays(react, middle, Lines(Unfinished(text) + b));
      }
    }
  }

  lemma FeedNothing(react: Handler, s: State)
    requires !s.failed ==> '\n' !in s.pending
    ensures Feed(react, s, "") == s
  {
    if !s.failed {
      assert s.pending + "" == s.pending;
      NoNewline(s.pending);
    }
  }

  /** Feeding looks at a state only through `Seen`. */
  lemma SeenSuffices(react: Handler, s: State, t: State, chunk: string)
    requires Seen(s) == Seen(t)
    ensures Seen(Feed(react, s, chunk)) == Seen(Feed(react, t, chunk))
  {
    assert s.failed || s == t;
  }

  lemma {:induction false} SeenSufficesForAll(react: Handler, s: State, t: State, chunks: seq<string>)
    requires Seen(s) == Seen(t)
    ensures Seen(FeedAll(react, s, chunks)) == Seen(FeedAll(react, t, chunks))
    decreases chunks
  {
    if chunks != [] {
      SeenSuffices(react, s, t, chunks[0]);
      SeenSufficesForAll(react, Feed(react, s, chunks[0]), Feed(react, t, chunks[0]), chunks[1..]);
    }
  }

  lemma {:induction false} OneShot(react: Handler, s: State, chunks: seq<string>)
    requires !s.failed ==> '\n' !in s.pending
    ensures Seen(FeedAll(react, s, chunks)) == Seen(Feed(react, s, Flatten(chunks)))
    decreases chunks
  {
    if chunks == [] {
      FeedNothing(react, s);
    } else {
      var first := Feed(react, s, chunks[0]);
      if !s.failed {
        PendingApart(react, s, Unfinished(s.pending + chunks[0]), Lines(s.pending + chunks[0]));
      }
      hide OnLines;
      OneShot(react, first, chunks[1..]);
      FeedTwice(react, s, chunks[0], Flatten(chunks[1..]));
    }
  }

  /** Any two ways of cutting the same text give the same events, the same throw
      if there is one, and otherwise the same unfinished line and event. */
  lemma ChunkIndependent(react: Handler, c: seq<string>, d: seq<string>)
    requires Flatten(c) == Flatten(d)
    ensures Seen(FeedAll(react, START, c)) == Seen(FeedAll(react, START, d))
    ensures Seen(Read(react, c)) == Seen(Read(react, d))
  {
    OneShot(react, START, c);
    OneShot(react, START, d);
  }

  // ----- What is read, without the machine -----

  /** The runs of lines between blank lines; always at least one. */
  function Blocks(lines: seq<string>): (blocks: seq<seq<string>>)
    ensures blocks != []
  {
    if lines == [] then [[]]
    else
      var rest := Blocks(lines[1..]);
      if IsBlank(lines[0]) then [[]] + rest else [[lines[0]] + rest[0]] + rest[1..]
  }

  /** The data lines of a block run together, with nothing between them. */
  function Joined(block: seq<string>): string {
    if block == [] then ""
    else (if IsData(block[0]) then DataOf(block[0]) else "") + Joined(block[1..])
  }

  function Data(blocks: seq<seq<string>>): (data: seq<string>)
    ensures |data| == |blocks|
  {
    if blocks == [] then [] else [Joined(blocks[0])] + Data(blocks[1..])
  }

  /** The events that are acted upon: neither empty nor the end marker, up to and
      including the first that throws. */
  function Delivered(react: Handler, data: seq<string>): seq<string>
    decreases data
  {
    if data == [] then []
    else if !IsEvent(data[0]) then Delivered(react, data[1..])
    else if react(data[0]).Throws? then [data[0]]
    else [data[0]] + Delivered(react, data[1..])
  }

  /** Data already read for the first block. */
  function WithCarry(carry: string, data: seq<string>): seq<string>
    requires data != []
  {
    [carry + data[0]] + data[1..]
  }

  lemma CarryLaws(a: string, b: string, data: seq<string>)
    ensures WithCarry(a, [""] + data) == [a] + data
    ensures data != [] ==> WithCarry("", data) == data
    ensures data != [] ==> WithCarry(a, WithCarry(b, data)) == WithCarry(a + b, data)
  {
    assert a + "" == a;
    if data != [] {
      assert "" + data[0] == data[0];
      assert a + (b + data[0]) == a + b + data[0];
    }
  }

  lemma DataOfBlocks(lines: seq<string>)
    requires lines != []
    ensures var line, rest := lines[0], Data(Blocks(lines[1..]));
            Data(Blocks(lines)) == if IsBlank(line) then [""] + rest
                                   else WithCarry(if IsData(line) then DataOf(line) else "", rest)
  {
    var line, rest := lines[0], Blocks(lines[1..]);
    if IsBlank(line) {
      assert ([[]] + rest)[1..] == rest;
    } else {
      assert ([[line] + rest[0]] + rest[1..])[1..] == rest[1..];
      assert ([line] + rest[0])[1..] == rest[0];
    }
  }

  /** A blank line acts on the event read so far and starts the next. */
  lemma BlankLine(react: Handler, s: State, line: string, data: seq<string>)
    requires !s.failed && IsBlank(line)
    ensures var t := OnLine(react, s, line);
            && (t.failed ==> t.handled == s.handled + Delivered(react, [s.eventData] + data))
            && (!t.failed ==>
                  && t.eventData == ""
                  && t.handled + Delivered(react, data) == s.handled + Delivered(react, [s.eventData] + data))
  {
    hide Trim;
    assert ([s.eventData] + data)[1..] == data;
  }

  lemma {:induction false} LinesAreBlocks(react: Handler, s: State, lines: seq<string>)
    requires !s.failed
    ensures HandleEvent(react, OnLines(react, s, lines)).handled
         == s.handled + Delivered(react, WithCarry(s.eventData, Data(Blocks(lines))))
    decreases lines
  {
    hide Trim;
    if lines == [] {
      assert Data(Blocks(lines)) == [""] + [];
      CarryLaws(s.eventData, "", []);
    } else {
      DataOfBlocks(lines);
      var rest := Data(Blocks(lines[1..]));
      var t := OnLine(react, s, lines[0]);
      var more := if IsData(lines[0]) then DataOf(lines[0]) else "";
      CarryLaws(s.eventData, more, rest);
      hide Blocks, Data, Delivered, WithCarry;
      if IsBlank(lines[0]) {
        BlankLine(react, s, lines[0], rest);
        if t.failed {
          FailedStays(react, t, lines[1..]);
        } else {
          LinesAreBlocks(react, t, lines[1..]);
        }
      } else {
        assert t.eventData == s.eventData + more;
        LinesAreBlocks(react, t, lines[1..]);
      }
    }
  }

  /** The events of a stream are those of its blocks of finished lines, however it
      is cut. The last block counts even without a blank line after it; an
      unfinished last line never does. */
  lemma ReadIsBlocks(react: Handler, chunks: seq<string>)
    ensures Read(react, chunks).handled == Delivered(react, Data(Blocks(Lines(Flatten(chunks)))))
  {
    hide Lines, Unfinished, OnLines, Blocks, Data, Delivered;
    var text := Flatten(chunks);
    OneShot(react, START, chunks);
    assert START.pending + text == text;
    var lines := Lines(text);
    PendingApart(react, START, Unfinished(text), lines);
    LinesAreBlocks(react, START, lines);
    CarryLaws("", "", Data(Blocks(lines)));
  }

  /** So text after the last newline changes nothing that is handled. */
  lemma UnfinishedLineIgnored(react: Handler, chunks: seq<string>, tail: string)
    requires '\n' !in tail
    ensures Read(react, chunks + [tail]).handled == Read(react, chunks).handled
  {
    hide Lines, Read, Blocks, Data, Delivered;
    FlattenAppend(chunks, tail);
    SplitAppend(Flatten(chunks), tail);
    NoNewline(Unfinished(Flatten(chunks)) + tail);
    assert Lines(Flatten(chunks) + tail) == Lines(Flatten(chunks));
    ReadIsBlocks(react, chunks);
    ReadIsBlocks(react, chunks + [tail]);
  }

  lemma {:induction false} FlattenAppend(chunks: seq<string>, tail: string)
    ensures Flatten(chunks + [tail]) == Flatten(chunks) + tail
  {
    if chunks == [] {
      assert chunks + [tail] == [tail];
    } else {
      assert (chunks + [tail])[1..] == chunks[1..] + [tail];
      FlattenAppend(chunks[1..], tail);
    }
  }

  // ----- Printing and reading back -----

  function Print(payloads: seq<string>): string {
    if payloads == [] then "" else PrintOne(payloads[0]) + Print(payloads[1..])
  }

  function PrintOne(payload: string): string {
    PREFIX + " " + payload + "\n\n"
  }

  predicate Printable(payload: string) {
    payload != "" && '\n' !in payload && Trim(payload) == payload
  }

  lemma PrintedLines(payload: string, rest: string)
    requires Printable(payload)
    ensures var line := PREFIX + " " + payload;
            && Lines(PrintOne(payload) + rest) == [line, ""] + Lines(rest)
            && IsData(line) && DataOf(line) == payload && IsBlank("")
  {
    var line := PREFIX + " " + payload;
    assert PrintOne(payload) + rest == line + "\n" + ("" + "\n" + rest);
    FirstLine(line, "" + "\n" + rest);
    FirstLine("", rest);
    hide Lines;
    assert line[|PREFIX|..] == " " + payload;
    assert (" " + payload)[1..] == payload;
  }

  lemma {:induction false} PrintedData(payloads: seq<string>)
    requires forall p | p in payloads :: Printable(p)
    ensures Data(Blocks(Lines(Print(payloads)))) == payloads + [""]
  {
    if payloads == [] {
      assert Data([[]]) == [""];
    } else {
      var rest := Print(payloads[1..]);
      hide Lines, Blocks, Data, Trim;
      PrintedLines(payloads[0], rest);
      PrintedBlock(PREFIX + " " + payloads[0], payloads[0], Lines(rest));
      PrintedData(payloads[1..]);
    }
  }

  lemma PrintedBlock(line: string, payload: string, rest: seq<string>)
    requires IsData(line) && DataOf(line) == payload && IsBlank("")
    ensures Data(Blocks([line, ""] + rest)) == [payload] + Data(Blocks(rest))
  {
    var blank, all := [""] + rest, [line, ""] + rest;
    assert blank[1..] == rest && all[1..] == blank;
    DataOfBlocks(blank);
    DataOfBlocks(all);
    hide Blocks, Data, Trim;
    CarryLaws(payload, "", Data(Blocks(rest)));
  }

  lemma {:induction false} EmptyNotDelivered(react: Handler, data: seq<string>)
    ensures Delivered(react, data + [""]) == Delivered(react, data)
    decreases data
  {
    if data == [] {
      assert [""][1..] == [];
    } else {
      assert (data + [""])[1..] == data[1..] + [""];
      EmptyNotDelivered(react, data[1..]);
    }
  }

  /** Printed payloads come back in order, in any chunking: all but end markers,
      up to the first that throws. */
  lemma PrintRead(react: Handler, payloads: seq<string>, chunks: seq<string>)
    requires forall p | p in payloads :: Printable(p)
    requires Flatten(chunks) == Print(payloads)
    ensures Read(react, chunks).handled == Delivered(react, payloads)
  {
    ReadIsBlocks(react, chunks);
    PrintedData(payloads);
    EmptyNotDelivered(react, payloads);
  }

  /** One payload, in the characters of the stream: it is handed over unless it is the end marker. */
  lemma OnePayload(react: Handler, a: string)
    requires Printable(a)
    ensures Read(react, ["data: " + a + "\n\n"]).handled == if a == "[DONE]" then [] else [a]
  {
    hide Read, Trim;
    assert Print([a]) == PrintOne(a) + "" == PrintOne(a) by {
      assert [a][1..] == [];
    }
    var text := "data: " + a + "\n\n";
    assert "data:" + " " == "data: ";
    assert text == PrintOne(a);
    assert Flatten([text]) == text by {
      assert [text][1..] == [];
    }
    PrintRead(react, [a], [text]);
    assert [a][1..] == [];
  }

  predicate Stops(react: Handler, data: string) { IsEvent(data) && react(data).Throws? }

  /** The payload at `k` is the first that throws. */
  ghost predicate FirstThrow(react: Handler, data: seq<string>, k: nat) {
    && k < |data| && Stops(react, data[k])
    && forall i | 0 <= i < k :: !Stops(react, data[i])
  }

  /** Delivered is everything but empty payloads and end markers, as far as the first throw. */
  lemma {:induction false} DeliveredExact(react: Handler, data: seq<string>)
    ensures (forall d | d in data :: !Stops(react, d)) ==> Delivered(react, data) == Filter(data, IsEvent)
    ensures forall k: nat | FirstThrow(react, data, k) :: Delivered(react, data) == Filter(data[..k + 1], IsEvent)
    decreases data
  {
    if data != [] {
      var head, rest := data[0], data[1..];
      assert data == [head] + rest;
      assert head in data && forall d | d in rest :: d in data;
      DeliveredExact(react, rest);
      FilterFirst(head, rest, IsEvent);
      forall k: nat | FirstThrow(react, data, k) ensures Delivered(react, data) == Filter(data[..k + 1], IsEvent) {
        if k == 0 {
          assert data[..1] == [head];
          FilterOne(head, IsEvent);
        } else {
          assert FirstThrow(react, rest, k - 1);
          assert data[..k + 1] == [head] + rest[..k];
          FilterFirst(head, rest[..k], IsEvent);
        }
      }
    }
  }

  /** A payload spread over two data lines loses its line break; section 9.2.6 of
      the WHATWG HTML Standard would keep it. */
  lemma LineBreakLost(react: Handler, a: string, b: string)
    requires '\n' !in a && '\n' !in b && IsEvent(Trim(a) + Trim(b))
    ensures Read(react, [PREFIX + a + "\n" + (PREFIX + b + "\n")]).handled == [Trim(a) + Trim(b)]
  {
    hide Lines, Read, Trim, Blocks, Data, Delivered, IsEvent, IsData, DataOf;
    var la, lb := PREFIX + a, PREFIX + b;
    var text := la + "\n" + (lb + "\n");
    assert Flatten([text]) == text;
    ReadIsBlocks(react, [text]);
    DataLine(a);
    DataLine(b);
    TwoLines(la, lb);
    TwoDataLines(la, lb);
    OneDelivered(react, Trim(a) + Trim(b));
  }

  lemma DataLine(a: string)
    requires '\n' !in a
    ensures IsData(PREFIX + a) && DataOf(PREFIX + a) == Trim(a) && '\n' !in PREFIX + a
  {
    hide Trim;
    assert (PREFIX + a)[|PREFIX|..] == a;
  }

  lemma TwoLines(la: string, lb: string)
    requires '\n' !in la && '\n' !in lb
    ensures Lines(la + "\n" + (lb + "\n")) == [la] + [lb]
  {
    hide Lines;
    FirstLine(la, lb + "\n");
    FirstLine(lb, "");
    assert lb + "\n" == lb + "\n" + "";
    NoNewline("");
    assert [lb] + [] == [lb];
  }

  lemma OneDelivered(react: Handler, data: string)
    requires IsEvent(data)
    ensures Delivered(react, [data]) == [data]
  {
    assert [data][1..] == [];
  }

  lemma TwoDataLines(la: string, lb: string)
    requires IsData(la) && IsData(lb)
    ensures Data(Blocks([la] + [lb])) == [DataOf(la) + DataOf(lb)]
  {
    hide Trim;
    assert ([la] + [lb])[1..] == [lb] && [lb][1..] == [];
    DataOfBlocks([la] + [lb]);
    DataOfBlocks([lb]);
    assert Data([[]]) == [""];
    assert DataOf(lb) + "" == DataOf(lb);
  }

  // ----- The standard -----

  /** The values of the data lines of a block. */
  function Values(block: seq<string>): seq<string> {
    if block == [] then [] else (if IsData(block[0]) then [DataOf(block[0])] else []) + Values(block[1..])
  }

  /** The value that section 9.2.6 of the WHATWG HTML Standard takes from a data line: one
      leading space is dropped, and the return of a line that ends with one. */
  function StdValue(line: string): string
    requires IsData(line)
  {
    WithoutSpace(WithoutReturn(line[|PREFIX|..]))
  }

  function WithoutReturn(s: string): string { if s != "" && s[|s| - 1] == '\r' then s[..|s| - 1] else s }

  function WithoutSpace(s: string): string { if s != "" && s[0] == ' ' then s[1..] else s }

  function StdValues(block: seq<string>): seq<string> {
    if block == [] then [] else (if IsData(block[0]) then [StdValue(block[0])] else []) + StdValues(block[1..])
  }

  /** The standard puts a line break between the values. */
  function StdJoined(block: seq<string>): string { JoinLines(StdValues(block)) }

  /** It also discards a block that no blank line ends. */
  function StdData(blocks: seq<seq<string>>): seq<string>
    requires blocks != []
    decreases |blocks|
  {
    if |blocks| == 1 then [] else [StdJoined(blocks[0])] + StdData(blocks[1..])
  }

  function Total(values: seq<string>): nat { if values == [] then 0 else |values[0]| + Total(values[1..]) }

  lemma {:induction false} JoinedLength(block: seq<string>)
    ensures |Joined(block)| == Total(Values(block))
  {
    hide Trim;
    if block != [] {
      JoinedLength(block[1..]);
      var rest := Values(block[1..]);
      if IsData(block[0]) {
        assert ([DataOf(block[0])] + rest)[1..] == rest;
      } else {
        assert [] + rest == rest;
      }
    }
  }

  lemma {:induction false} JoinLinesLength(values: seq<string>)
    ensures |JoinLines(values)| == Total(values) + (if values == [] then 0 else |values| - 1)
  {
    if |values| > 1 {
      JoinLinesLength(values[1..]);
    } else if |values| == 1 {
      assert values[1..] == [];
    }
  }

  /** The code trims what the standard leaves. */
  lemma StdValueTrimmed(line: string)
    requires IsData(line)
    ensures DataOf(line) == Trim(StdValue(line)) && |DataOf(line)| <= |StdValue(line)|
    ensures StdValue(line) == DataOf(line) <==> Trimmed(StdValue(line))
  {
    var rest := line[|PREFIX|..];
    var less := WithoutReturn(rest);
    hide Trim, Trimmed;
    if less != rest {
      TrimPast(less, '\r');
      assert rest == less + ['\r'];
    }
    if WithoutSpace(less) != less {
      TrimPast(WithoutSpace(less), ' ');
      assert less == [' '] + WithoutSpace(less);
    }
    TrimOf(StdValue(line));
  }

  lemma {:induction false} ValuesCompared(block: seq<string>)
    ensures |StdValues(block)| == |Values(block)| && Total(Values(block)) <= Total(StdValues(block))
  {
    hide StdValue, DataOf;
    if block != [] {
      ValuesCompared(block[1..]);
      if IsData(block[0]) {
        StdValueTrimmed(block[0]);
        TotalCons(DataOf(block[0]), Values(block[1..]));
        TotalCons(StdValue(block[0]), StdValues(block[1..]));
      } else {
        assert [] + Values(block[1..]) == Values(block[1..]) && [] + StdValues(block[1..]) == StdValues(block[1..]);
      }
    }
  }

  lemma TotalCons(value: string, values: seq<string>)
    ensures Total([value] + values) == |value| + Total(values)
  {
    assert ([value] + values)[1..] == values;
  }

  lemma {:induction false} OneValueJoined(block: seq<string>)
    requires |Values(block)| <= 1
    ensures Joined(block) == if Values(block) == [] then "" else Values(block)[0]
  {
    hide DataOf;
    if block != [] {
      var rest := Values(block[1..]);
      if IsData(block[0]) {
        assert Values(block) == [DataOf(block[0])] + rest;
        OneValueJoined(block[1..]);
        assert DataOf(block[0]) + "" == DataOf(block[0]);
      } else {
        assert [] + rest == rest && "" + Joined(block[1..]) == Joined(block[1..]);
        OneValueJoined(block[1..]);
      }
    }
  }

  /** At most one data line, with no more space around its value than the standard drops. */
  predicate Plain(block: seq<string>) { |Values(block)| <= 1 && Values(block) == StdValues(block) }

  /** The code joins a block as the standard does exactly when it is plain. */
  lemma StdJoinedIff(block: seq<string>)
    ensures StdJoined(block) == Joined(block) <==> Plain(block)
  {
    JoinedLength(block);
    ValuesCompared(block);
    JoinLinesLength(StdValues(block));
    if |Values(block)| <= 1 {
      OneValueJoined(block);
    }
    hide Values, StdValues;
  }

  /** Every block that is read is plain, and the last, unless reading has stopped before
      it, holds no event. */
  predicate AsStandard(react: Handler, blocks: seq<seq<string>>)
    requires blocks != []
    decreases |blocks|
  {
    if |blocks| == 1 then !IsEvent(Joined(blocks[0]))
    else Plain(blocks[0]) && (Stops(react, Joined(blocks[0])) || AsStandard(react, blocks[1..]))
  }

  predicate NoNewlines(lines: seq<string>) { forall line | line in lines :: '\n' !in line }

  /** Payloads of the code are one trimmed line. */
  predicate IsLine(data: string) { '\n' !in data && Trimmed(data) }

  lemma {:induction false} JoinedIsLine(block: seq<string>)
    requires NoNewlines(block)
    ensures IsLine(Joined(block))
  {
    hide Trim, Trimmed;
    if block != [] {
      assert block[0] in block;
      JoinedIsLine(block[1..]);
      if IsData(block[0]) {
        TrimKeepsOut(block[0][|PREFIX|..], '\n');
        TrimOf(block[0][|PREFIX|..]);
        TrimmedAppend(DataOf(block[0]), Joined(block[1..]));
      } else {
        assert "" + Joined(block[1..]) == Joined(block[1..]);
      }
    } else {
      TrimOf("");
      assert Trimmed("") by { EmptyTrimmed(); }
    }
  }

  lemma EmptyTrimmed()
    ensures Trimmed("")
  {
  }

  lemma {:induction false} DeliveredFrom(react: Handler, data: seq<string>)
    ensures forall d | d in Delivered(react, data) :: d in data
    decreases data
  {
    if data != [] {
      DeliveredFrom(react, data[1..]);
    }
  }

  lemma {:induction false} DataAreLines(blocks: seq<seq<string>>)
    requires forall b | b in blocks :: NoNewlines(b)
    ensures forall d | d in Data(blocks) :: IsLine(d)
  {
    hide Joined, NoNewlines, IsLine;
    if blocks != [] {
      assert blocks[0] in blocks;
      JoinedIsLine(blocks[0]);
      DataAreLines(blocks[1..]);
      assert Data(blocks) == [Joined(blocks[0])] + Data(blocks[1..]);
    }
  }

  /** What the standard makes of a block that is not plain is no trimmed line. */
  lemma NotPlainNoLine(block: seq<string>)
    requires !Plain(block)
    ensures !IsLine(StdJoined(block)) && IsEvent(StdJoined(block))
  {
    ValuesCompared(block);
    if |Values(block)| > 1 {
      TwoValuesBreak(StdValues(block));
    } else {
      OneValue(block);
    }
    hide StdJoined;
    NoLineIsEvent(StdJoined(block));
  }

  lemma NoLineIsEvent(data: string)
    requires !IsLine(data)
    ensures IsEvent(data)
  {
    EmptyTrimmed();
    assert DONE[0] == '[' && DONE[5] == ']' && |DONE| == 6;
    assert '\n' !in DONE;
  }

  lemma {:induction false} OneValue(block: seq<string>)
    requires |Values(block)| <= 1 && Values(block) != StdValues(block)
    ensures |StdValues(block)| == 1 && !Trimmed(StdValues(block)[0]) && StdJoined(block) == StdValues(block)[0]
  {
    hide StdValue, DataOf, Trimmed;
    ValuesCompared(block);
    var rest := block[1..];
    ValuesCompared(rest);
    if IsData(block[0]) {
      StdValueTrimmed(block[0]);
      assert StdValues(block) == [StdValue(block[0])] && Values(block) == [DataOf(block[0])];
    } else {
      assert [] + Values(rest) == Values(rest) && [] + StdValues(rest) == StdValues(rest);
      OneValue(rest);
    }
  }

  lemma TwoValuesBreak(values: seq<string>)
    requires |values| > 1
    ensures '\n' in JoinLines(values)
  {
    var text := JoinLines(values);
    assert text == values[0] + "\n" + JoinLines(values[1..]);
    assert text[|values[0]|] == '\n';
  }

  /** A payload that the code never delivers. */
  lemma NeverDelivered(react: Handler, blocks: seq<seq<string>>)
    requires |blocks| > 1 && !Plain(blocks[0]) && forall b | b in blocks :: NoNewlines(b)
    ensures Delivered(react, Data(blocks)) != Delivered(react, StdData(blocks))
  {
    DataAreLines(blocks);
    DeliveredFrom(react, Data(blocks));
    NotPlainNoLine(blocks[0]);
    hide IsLine, Plain, StdJoined, Data, NoNewlines;
    var std := StdJoined(blocks[0]);
    assert StdData(blocks)[0] == std;
    assert Delivered(react, StdData(blocks))[0] == std;
    assert std in Delivered(react, StdData(blocks));
  }

  lemma {:induction false} BlocksAsStandardIff(react: Handler, blocks: seq<seq<string>>)
    requires blocks != [] && forall b | b in blocks :: NoNewlines(b)
    ensures Delivered(react, Data(blocks)) == Delivered(react, StdData(blocks)) <==> AsStandard(react, blocks)
    decreases |blocks|
  {
    hide Joined, Plain, NoNewlines, StdJoined;
    if |blocks| == 1 {
      assert blocks[1..] == [] && Data([]) == [];
      assert Data(blocks) == [Joined(blocks[0])];
      HeadDelivered(react, Joined(blocks[0]), []);
      assert [Joined(blocks[0])] + [] == Data(blocks);
      NothingDelivered(react);
      assert StdData(blocks) == [];
    } else if !Plain(blocks[0]) {
      NeverDelivered(react, blocks);
    } else {
      StdJoinedIff(blocks[0]);
      var data, std, head := Data(blocks[1..]), StdData(blocks[1..]), Joined(blocks[0]);
      BlocksAsStandardIff(react, blocks[1..]);
      assert Data(blocks) == [head] + data && StdData(blocks) == [head] + std;
      HeadDelivered(react, head, data);
      HeadDelivered(react, head, std);
      var x, y := Delivered(react, data), Delivered(react, std);
      assert ([head] + x)[1..] == x && ([head] + y)[1..] == y;
    }
  }

  lemma HeadDelivered(react: Handler, head: string, rest: seq<string>)
    ensures Delivered(react, [head] + rest)
         == if !IsEvent(head) then Delivered(react, rest)
            else if react(head).Throws? then [head]
            else [head] + Delivered(react, rest)
  {
    assert ([head] + rest)[1..] == rest;
  }

  lemma {:induction false} BlocksOf(lines: seq<string>)
    requires NoNewlines(lines)
    ensures forall b | b in Blocks(lines) :: NoNewlines(b)
  {
    hide Trim, IsBlank;
    if lines != [] {
      var rest := Blocks(lines[1..]);
      assert lines[0] in lines && rest[0] in rest;
      BlocksOf(lines[1..]);
      var first := [lines[0]] + rest[0];
      assert NoNewlines(first);
      assert forall b | b in rest[1..] :: b in rest;
      assert forall b | b in Blocks(lines) :: b == [] || b == first || b in rest;
    }
  }

  /** The whole reader delivers what the standard makes of its blocks exactly when they
      are so. */
  lemma ReadsAsStandardIff(react: Handler, chunks: seq<string>)
    ensures Read(react, chunks).handled == Delivered(react, StdData(Blocks(Lines(Flatten(chunks)))))
       <==> AsStandard(react, Blocks(Lines(Flatten(chunks))))
  {
    var lines := Lines(Flatten(chunks));
    ReadIsBlocks(react, chunks);
    LinesNoNewline(Flatten(chunks));
    hide Read, Lines, Blocks, Data, StdData, Delivered, AsStandard;
    BlocksOf(lines);
    BlocksAsStandardIff(react, Blocks(lines));
  }

  /** An event without its blank line is delivered; the standard discards it. */
  lemma UnendedEventDelivered(react: Handler, a: string)
    requires '\n' !in a && IsEvent(Trim(a))
    ensures Read(react, [PREFIX + a + "\n"]).handled == [Trim(a)]
    ensures StdData(Blocks(Lines(PREFIX + a + "\n"))) == []
  {
    var la := PREFIX + a;
    var text := la + "\n";
    assert Flatten([text]) == text && text == text + "";
    ReadIsBlocks(react, [text]);
    FirstLine(la, "");
    assert Lines(text) == [la];
    assert la[|PREFIX|..] == a;
    hide Lines, Read, Trim, Blocks, Data, Delivered, StdData;
    OneDataLine(la);
    HeadDelivered(react, DataOf(la), []);
    assert [DataOf(la)] + [] == [DataOf(la)];
    NothingDelivered(react);
  }

  lemma NothingDelivered(react: Handler)
    ensures Delivered(react, []) == []
  {
  }

  lemma OneDataLine(la: string)
    requires IsData(la)
    ensures Data(Blocks([la])) == [DataOf(la)] && StdData(Blocks([la])) == []
  {
    hide Trim;
    assert [la][1..] == [];
    DataOfBlocks([la]);
    assert Data([[]]) == [""];
    assert DataOf(la) + "" == DataOf(la);
    assert |Blocks([la])| == 1;
  }

  // ----- Lines of other kinds -----

  lemma {:induction false} OnlySpaces(s: string)
    requires forall i | 0 <= i < |s| :: s[i] in {' ', '\t', '\r'}
    ensures Trim(s) == ""
  {
    if s != "" {
      hide Trim;
      assert s == s[..|s| - 1] + [s[|s| - 1]];
      assert IsSpace(s[|s| - 1]);
      TrimPast(s[..|s| - 1], s[|s| - 1]);
      OnlySpaces(s[..|s| - 1]);
    } else {
      TrimOf("");
    }
  }

  lemma NotOnlySpaces(s: string, k: nat)
    requires k < |s| && 'a' <= s[k] <= 'z'
    ensures Trim(s) != ""
  {
    var i, j := TrimCuts(s);
    assert !IsSpace(s[k]);
    assert i <= k < j;
  }

  lemma BlankNoData(s: string)
    requires forall i | 0 <= i < |s| :: s[i] in {' ', '\t', '\r'}
    ensures !IsData(s)
  {
    assert PREFIX[0] == 'd';
  }

  lemma TwoBlocks(noise: string, la: string, blank: string, lb: string)
    requires !IsBlank(noise) && !IsData(noise) && IsBlank(blank) && IsData(la) && IsData(lb)
    ensures Data(Blocks([noise, la, blank, lb])) == [DataOf(la), DataOf(lb)]
  {
    hide Trim;
    var four, three, two := [noise, la, blank, lb], [la, blank, lb], [blank, lb];
    assert four[1..] == three && three[1..] == two && two[1..] == [lb] && [lb][1..] == [];
    DataOfBlocks(four);
    DataOfBlocks(three);
    DataOfBlocks(two);
    DataOfBlocks([lb]);
    assert Data([[]]) == [""];
    hide Blocks, Data, DataOf;
    assert DataOf(lb) + "" == DataOf(lb) && DataOf(la) + "" == DataOf(la);
    assert Data(Blocks([lb])) == [DataOf(lb)];
    assert Data(Blocks(two)) == ["", DataOf(lb)];
    assert Data(Blocks(three)) == [DataOf(la), DataOf(lb)];
    assert "" + DataOf(la) == DataOf(la);
  }

  lemma FourLines(a: string, b: string, c: string, d: string)
    requires '\n' !in a && '\n' !in b && '\n' !in c && '\n' !in d
    ensures Lines(a + "\n" + (b + "\n" + (c + "\n" + (d + "\n")))) == [a, b, c, d]
  {
    hide Lines;
    FirstLine(a, b + "\n" + (c + "\n" + (d + "\n")));
    FirstLine(b, c + "\n" + (d + "\n"));
    FirstLine(c, d + "\n");
    FirstLine(d, "");
    NoNewline("");
    assert d + "\n" == d + "\n" + "";
  }

  /** A line of spaces ends an event as an empty one does, and a line that is neither
      blank nor data, such as one naming the event, is passed over. */
  lemma OtherLines(react: Handler, noise: string, k: nat, a: string, blank: string, b: string)
    requires '\n' !in noise && '\n' !in a && '\n' !in b
    requires !("data:" <= noise) && k < |noise| && 'a' <= noise[k] <= 'z'
    requires forall i | 0 <= i < |blank| :: blank[i] in {' ', '\t', '\r'}
    ensures Read(react, [noise + "\n" + ("data:" + a + "\n" + (blank + "\n" + ("data:" + b + "\n")))]).handled
         == Delivered(react, [Trim(a), Trim(b)])
  {
    var la, lb := PREFIX + a, PREFIX + b;
    OnlySpaces(blank);
    NotOnlySpaces(noise, k);
    DataLine(a);
    DataLine(b);
    BlankNoData(blank);
    hide Lines, Read, Trim, Blocks, Data, Delivered, DataOf;
    FourLines(noise, la, blank, lb);
    var text := noise + "\n" + (la + "\n" + (blank + "\n" + (lb + "\n")));
    assert Flatten([text]) == text;
    ReadIsBlocks(react, [text]);
    TwoBlocks(noise, la, blank, lb);
  }

  // ----- The reader itself -----

  /** The id is that of the last event that has created a response. */
  ghost predicate Remembered(react: Handler, events: seq<string>, id: Option<string>) {
    match id
    case None => forall k | 0 <= k < |events| :: !react(events[k]).Created?
    case Some(created) =>
      exists k :: && 0 <= k < |events| && react(events[k]) == Created(created)
                  && forall j | k < j < |events| :: !react(events[j]).Created?
  }

  lemma RememberedNext(react: Handler, events: seq<string>, id: Option<string>, event: string)
    requires Remembered(react, events, id)
    ensures Remembered(react, events + [event], match react(event) case Created(created) => Some(created) case _ => id)
  {
    var more := events + [event];
    if react(event).Created? {
      assert react(more[|events|]) == Created(react(event).id);
    } else if id.Some? {
      var k :| && 0 <= k < |events| && react(events[k]) == Created(id.value)
               && forall j | k < j < |events| :: !react(events[j]).Created?;
      assert more[k] == events[k];
    }
  }

  class TutorStream {
    const react: Handler
    var pending: string
    var eventData: string
    var createdResponseId: Option<string>
    /** The events acted upon so far. */
    ghost var handled: seq<string>
    ghost var failed: bool

    ghost function Current(): State
      reads this
    {
      State(pending, eventData, handled, failed)
    }

    ghost predicate Valid()
      reads this
    {
      Remembered(react, handled, createdResponseId)
    }

    constructor (react: Handler)
      ensures Valid() && Current() == START && this.react == react
    {
      this.react := react;
      pending, eventData, createdResponseId, handled, failed := "", "", None, [], false;
    }

    /** Act on the event read so far; `ok` is false when acting on it throws. */
    method HandleCurrentEvent() returns (ok: bool)
      requires Valid() && !failed
      modifies this
      ensures Valid() && Current() == HandleEvent(react, old(Current())) && ok == !failed
      ensures createdResponseId
           == if IsEvent(old(eventData)) && react(old(eventData)).Created? then Some(react(old(eventData)).id)
              else old(createdResponseId)
    {
      if eventData == "" || eventData == DONE {
        return true;
      }
      ok := true;
      RememberedNext(react, handled, createdResponseId, eventData);
      handled := handled + [eventData];
      match react(eventData)
      case Created(id) => createdResponseId := Some(id);
      case Throws => failed, ok := true, false;
      case _ =>
    }

    /** Take in one chunk of decoded text. */
    method FeedChunk(chunk: string) returns (ok: bool)
      requires Valid() && !failed
      modifies this
      ensures Valid() && Current() == Feed(react, old(Current()), chunk) && ok == !failed
    {
      pending := pending + chunk;
      var lines := Lines(pending);
      pending := Unfinished(pending);
      ghost var start := Current();
      ok := true;
      var i := 0;
      while i < |lines|
        invariant 0 <= i <= |lines| && ok && !failed && Valid()
        invariant OnLines(react, start, lines) == OnLines(react, Current(), lines[i..])
      {
        var line := lines[i];
        ghost var before := Current();
        if PREFIX <= line {
          eventData := eventData + Trim(line[|PREFIX|..]);
        } else if Trim(line) == "" {
          ok := HandleCurrentEvent();
          if !ok {
            FailedStays(react, Current(), lines[i + 1..]);
            return;
          }
          eventData := "";
        }
        assert Current() == OnLine(react, before, line);
        i := i + 1;
      }
    }

    /** Read every chunk, then look at the event data once more; without a throw the id of
        the response created last is handed back. */
    method ReadAll(chunks: seq<string>) returns (ok: bool, responseId: Option<string>)
      requires Valid() && Current() == START
      modifies this
      ensures Valid() && Current() == Read(react, chunks) && ok == !failed
      ensures ok ==> (responseId == None <==> forall k | 0 <= k < |handled| :: !react(handled[k]).Created?)
      ensures ok ==> forall k | 0 <= k < |handled| && react(handled[k]).Created?
                        && (forall j | k < j < |handled| :: !react(handled[j]).Created?) ::
                responseId == Some(react(handled[k]).id)
    {
      responseId := None;
      ok := true;
      var i := 0;
      while i < |chunks|
        invariant 0 <= i <= |chunks| && Valid() && ok == !failed && ok
        invariant FeedAll(react, START, chunks) == FeedAll(react, Current(), chunks[i..])
      {
        ok := FeedChunk(chunks[i]);
        i := i + 1;
        if !ok {
          NothingAfterThrow(react, Current(), chunks[i..]);
          return;
        }
      }
      ok := HandleCurrentEvent();
      responseId := createdResponseId;
    }
  }

  lemma {:induction false} NothingAfterThrow(react: Handler, s: State, chunks: seq<string>)
    requires s.failed
    ensures FeedAll(react, s, chunks) == s
    decreases chunks
  {
    if chunks != [] {
      NothingAfterThrow(react, s, chunks[1..]);
    }
  }
}
