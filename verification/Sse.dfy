/** The server-sent event wire: the Go writer, the chunked JavaScript reader and the Go line reader.
    JSON text is produced and parsed by functions given as parameters; white space is whatever
    the runtime's trim removes. */
module Sse {
  import opened Domain
  import opened Sequences

  // ---------- cutting a text at blank lines ----------

  predicate BlankLineAt(s: string, i: int) { 0 <= i < |s| - 1 && s[i] == '\n' && s[i + 1] == '\n' }

  ghost predicate IsFirst(s: string, b: int) { BlankLineAt(s, b) && forall k :: k < b ==> !BlankLineAt(s, k) }

  ghost predicate NoBlankLine(s: string) { forall k :: !BlankLineAt(s, k) }

  /** `indexOf("\n\n")`. */
  method IndexOfBlankLine(s: string) returns (b: int)
    ensures b == -1 ==> NoBlankLine(s)
    ensures b != -1 ==> IsFirst(s, b)
  {
    for i := 0 to |s|
      invariant forall k :: k < i ==> !BlankLineAt(s, k)
    {
      if BlankLineAt(s, i) { return i; }
    }
    b := -1;
  }

  lemma {:induction false} FirstExists(s: string, i: int)
    requires BlankLineAt(s, i)
    ensures exists b :: IsFirst(s, b)
    decreases i
  {
    if k :| k < i && BlankLineAt(s, k) {
      FirstExists(s, k);
    } else {
      assert IsFirst(s, i);
    }
  }

  /** Where the text is cut first; -1 if nowhere. */
  ghost function FirstBlankLine(s: string): (b: int)
    ensures b == -1 ==> NoBlankLine(s)
    ensures b != -1 ==> IsFirst(s, b)
  {
    if i :| BlankLineAt(s, i) then
      FirstExists(s, i);
      var b :| IsFirst(s, b);
      b
    else -1
  }

  datatype Cut = Cut(blocks: seq<string>, rest: string)

  /** Split a whole text once. */
  ghost function CutBlocks(text: string): Cut
    decreases |text|
  {
    var b := FirstBlankLine(text);
    if b == -1 then Cut([], text)
    else
      var tail := CutBlocks(text[b + 2..]);
      Cut([text[..b]] + tail.blocks, tail.rest)
  }

  function Frame(body: string): string { body + "\n\n" }

  function Join(bodies: seq<string>): string { FlatMap(Frame, bodies) }

  lemma CutAt(text: string, i: int, first: string, tail: string)
    requires IsFirst(text, i) && first == text[..i] && tail == text[i + 2..]
    ensures CutBlocks(text) == Cut([first] + CutBlocks(tail).blocks, CutBlocks(tail).rest)
  {
  }

  /** A cut loses nothing and cuts everywhere it can: the blocks and the rest spell the text, and
      neither the rest nor a block up to its terminator holds another blank line. */
  ghost predicate IsCut(text: string, c: Cut) {
    Join(c.blocks) + c.rest == text && NoBlankLine(c.rest) && forall b :: b in c.blocks ==> NoBlankLine(b + "\n")
  }

  lemma JoinCons(first: string, bodies: seq<string>)
    ensures Join([first] + bodies) == Frame(first) + Join(bodies)
  {
    FlatMapConcat(Frame, [first], bodies);
    FlatMapOne(Frame, first);
  }

  lemma SpellFrame(text: string, b: int, joined: string, rest: string)
    requires IsFirst(text, b) && joined + rest == text[b + 2..]
    ensures Frame(text[..b]) + joined + rest == text
    ensures NoBlankLine(text[..b] + "\n")
  {
    assert text == text[..b] + "\n\n" + text[b + 2..];
    assert Frame(text[..b]) + joined + rest == Frame(text[..b]) + (joined + rest);
    forall k ensures !BlankLineAt(text[..b] + "\n", k) {
      assert BlankLineAt(text[..b] + "\n", k) ==> BlankLineAt(text, k);
    }
  }

  lemma {:induction false} CutExact(text: string)
    ensures IsCut(text, CutBlocks(text))
    decreases |text|
  {
    var b := FirstBlankLine(text);
    if b != -1 {
      var first, tail := text[..b], text[b + 2..];
      var cut := CutBlocks(tail);
      CutExact(tail);
      CutAt(text, b, first, tail);
      JoinCons(first, cut.blocks);
      SpellFrame(text, b, Join(cut.blocks), cut.rest);
    }
  }

  lemma FrameIsFirst(first: string, tail: string)
    requires NoBlankLine(first + "\n")
    ensures var text := Frame(first) + tail;
            IsFirst(text, |first|) && text[..|first|] == first && text[|first| + 2..] == tail
  {
    var text := Frame(first) + tail;
    forall k | k < |first| ensures !BlankLineAt(text, k) {
      assert BlankLineAt(text, k) ==> BlankLineAt(first + "\n", k);
    }
  }

  /** There is only one such cut. */
  lemma {:induction false} CutUnique(text: string, c: Cut)
    requires IsCut(text, c)
    ensures c == CutBlocks(text)
    decreases |c.blocks|
  {
    if c.blocks == [] {
      assert text == c.rest;
    } else {
      var first, more := c.blocks[0], c.blocks[1..];
      assert c.blocks == [first] + more;
      JoinCons(first, more);
      var tail := Join(more) + c.rest;
      assert text == Frame(first) + tail;
      FrameIsFirst(first, tail);
      CutUnique(tail, Cut(more, c.rest));
      CutAt(text, |first|, first, tail);
    }
  }

  lemma Regroup(p: string, q: string, r: string, s: string, t: string)
    requires q + r == s + t
    ensures p + q + r == p + s + t
  {
    assert p + q + r == p + (q + r);
    assert p + s + t == p + (s + t);
  }

  lemma ContinuedCut(a: string, b: string, c: Cut, d: Cut)
    requires IsCut(a, c) && IsCut(c.rest + b, d)
    ensures IsCut(a + b, Cut(c.blocks + d.blocks, d.rest))
  {
    FlatMapConcat(Frame, c.blocks, d.blocks);
    Regroup(Join(c.blocks), Join(d.blocks), d.rest, c.rest, b);
  }

  /** More text only continues the cut of what is already there. */
  lemma CutContinues(a: string, b: string)
    ensures CutBlocks(a + b) ==
            Cut(CutBlocks(a).blocks + CutBlocks(CutBlocks(a).rest + b).blocks, CutBlocks(CutBlocks(a).rest + b).rest)
  {
    var c := CutBlocks(a);
    var d := CutBlocks(c.rest + b);
    CutExact(a);
    CutExact(c.rest + b);
    ContinuedCut(a, b, c, d);
    CutUnique(a + b, Cut(c.blocks + d.blocks, d.rest));
  }

  function Concat(chunks: seq<string>): string { FlatMap((c: string) => c, chunks) }

  /** The inner loop of `readSSEStream`: take every finished block off the buffer. */
  method DrainBuffer(text: string) returns (blocks: seq<string>, buffer: string)
    ensures Cut(blocks, buffer) == CutBlocks(text)
  {
    blocks, buffer := [], text;
    var boundary := IndexOfBlankLine(buffer);
    while boundary != -1
      invariant boundary == FirstBlankLine(buffer)
      invariant blocks + CutBlocks(buffer).blocks == CutBlocks(text).blocks
      invariant CutBlocks(buffer).rest == CutBlocks(text).rest
      decreases |buffer|
    {
      var block := buffer[..boundary];
      CutAt(buffer, boundary, block, buffer[boundary + 2..]);
      buffer := buffer[boundary + 2..];
      blocks := blocks + [block];
      boundary := IndexOfBlankLine(buffer);
    }
  }

  /** `readSSEStream`: however the stream is cut into chunks, the blocks handed on are those of
      splitting the whole text once, and the buffer holds exactly the unfinished rest. */
  method ReadStream(chunks: seq<string>) returns (blocks: seq<string>, buffer: string)
    ensures Cut(blocks, buffer) == CutBlocks(Concat(chunks))
    ensures NoBlankLine(buffer)
  {
    blocks, buffer := [], "";
    for i := 0 to |chunks|
      invariant Cut(blocks, buffer) == CutBlocks(Concat(chunks[..i]))
    {
      assert chunks[..i + 1] == chunks[..i] + [chunks[i]];
      FlatMapSnoc((c: string) => c, chunks[..i], chunks[i]);
      CutContinues(Concat(chunks[..i]), chunks[i]);
      var finished, rest := DrainBuffer(buffer + chunks[i]);
      blocks, buffer := blocks + finished, rest;
    }
    assert chunks[..|chunks|] == chunks;
    CutExact(Concat(chunks));
  }

  // ---------- lines and payloads ----------

  /** First position of `c` from `i` on, or the length of the text. */
  function FindChar(s: string, c: char, i: nat): (b: nat)
    requires i <= |s|
    ensures i <= b <= |s| && (b < |s| ==> s[b] == c)
    ensures forall k :: i <= k < b ==> s[k] != c
    decreases |s| - i
  {
    if i == |s| || s[i] == c then i else FindChar(s, c, i + 1)
  }

  /** `split("\n")`. */
  function Lines(s: string): seq<string>
    decreases |s|
  {
    var b := FindChar(s, '\n', 0);
    if b == |s| then [s] else [s[..b]] + Lines(s[b + 1..])
  }

  function TrimLeft(space: char -> bool, s: string): string {
    if s != [] && space(s[0]) then TrimLeft(space, s[1..]) else s
  }

  function TrimRight(space: char -> bool, s: string): string {
    if s != [] && space(s[|s| - 1]) then TrimRight(space, s[..|s| - 1]) else s
  }

  function Trim(space: char -> bool, s: string): string { TrimRight(space, TrimLeft(space, s)) }

  /** Lines put back together. */
  function Spelled(lines: seq<string>): string {
    if lines == [] then "" else if |lines| == 1 then lines[0] else lines[0] + "\n" + Spelled(lines[1..])
  }

  predicate OneLine(s: string) { '\n' !in s }

  /** The lines spell the text and none of them holds a newline. */
  lemma {:induction false} LinesExact(s: string)
    ensures Lines(s) != [] && Spelled(Lines(s)) == s && forall line :: line in Lines(s) ==> OneLine(line)
    decreases |s|
  {
    var b := FindChar(s, '\n', 0);
    if b < |s| {
      LinesExact(s[b + 1..]);
      assert Lines(s)[1..] == Lines(s[b + 1..]);
      assert s == s[..b] + "\n" + s[b + 1..];
    }
  }

  lemma {:induction false} TrimLeftExact(space: char -> bool, s: string) returns (a: string)
    ensures s == a + TrimLeft(space, s) && forall c :: c in a ==> space(c)
    ensures TrimLeft(space, s) != "" ==> !space(TrimLeft(space, s)[0])
  {
    a := "";
    if s != [] && space(s[0]) {
      var more := TrimLeftExact(space, s[1..]);
      a := [s[0]] + more;
      assert s == [s[0]] + s[1..];
    }
  }

  lemma {:induction false} TrimRightExact(space: char -> bool, s: string) returns (b: string)
    ensures s == TrimRight(space, s) + b && forall c :: c in b ==> space(c)
    ensures TrimRight(space, s) != "" ==> !space(TrimRight(space, s)[|TrimRight(space, s)| - 1])
  {
    b := "";
    if s != [] && space(s[|s| - 1]) {
      var more := TrimRightExact(space, s[..|s| - 1]);
      b := more + [s[|s| - 1]];
      assert s == s[..|s| - 1] + [s[|s| - 1]];
    }
  }

  /** Trimming takes away all outer white space and nothing else. */
  lemma TrimExact(space: char -> bool, s: string) returns (a: string, b: string)
    ensures var r := Trim(space, s);
            && s == a + r + b && (forall c :: c in a + b ==> space(c))
            && (r != "" ==> !space(r[0]) && !space(r[|r| - 1]))
  {
    a := TrimLeftExact(space, s);
    b := TrimRightExact(space, TrimLeft(space, s));
    assert Trim(space, s) != "" ==> Trim(space, s)[0] == TrimLeft(space, s)[0];
  }

  /** The JSON text a line carries, if any: comments, blank lines, other fields and empty data are skipped. */
  function Payload(space: char -> bool, line: string): Option<string> {
    if ":" <= line || Trim(space, line) == "" || !("data:" <= line) then None
    else if Trim(space, line[5..]) == "" then None
    else Some(Trim(space, line[5..]))
  }

  // ---------- what the JavaScript client is told ----------

  /** The JSON object of one data line. */
  datatype WireEvent = WireEvent(
    eventType: string, project: string, environment: string, flagKey: string, enabled: bool, occurredAt: string)

  /** Per data line: a change, or an error for text that does not parse. */
  datatype Signal = Change(event: WireEvent) | Malformed

  type Decoder = string -> Option<WireEvent>

  function LineSignal(space: char -> bool, decode: Decoder, line: string): seq<Signal> {
    match Payload(space, line)
    case None => []
    case Some(text) => if decode(text).Some? then [Change(decode(text).value)] else [Malformed]
  }

  function LineSignals(space: char -> bool, decode: Decoder): string -> seq<Signal> {
    (line: string) => LineSignal(space, decode, line)
  }

  function BlockSignals(space: char -> bool, decode: Decoder): string -> seq<Signal> {
    (block: string) => FlatMap(LineSignals(space, decode), Lines(block))
  }

  /** `processSSEBlock`. */
  method ProcessBlock(space: char -> bool, decode: Decoder, block: string) returns (signals: seq<Signal>)
    ensures signals == BlockSignals(space, decode)(block)
  {
    signals := [];
    var lines := Lines(block);
    for i := 0 to |lines|
      invariant signals == FlatMap(LineSignals(space, decode), lines[..i])
    {
      assert lines[..i + 1] == lines[..i] + [lines[i]];
      FlatMapSnoc(LineSignals(space, decode), lines[..i], lines[i]);
      var line := lines[i];
      assert LineSignals(space, decode)(line) == LineSignal(space, decode, line);
      if ":" <= line || Trim(space, line) == "" { continue; }
      if "data:" <= line {
        var text := Trim(space, line[5..]);
        if text == "" { continue; }
        var parsed := decode(text);
        if parsed.None? {
          signals := signals + [Malformed];
          continue;
        }
        signals := signals + [Change(parsed.value)];
      }
    }
    assert lines[..|lines|] == lines;
  }

  /** Everything the JavaScript client is told once `text` has arrived. */
  ghost function Told(space: char -> bool, decode: Decoder, text: string): seq<Signal> {
    FlatMap(BlockSignals(space, decode), CutBlocks(text).blocks)
  }

  // ---------- the writer ----------

  datatype DomainEvent =
    | FlagChange(
        project: string, environment: string, flagKey: string, enabled: bool, eventType: string, occurredAt: string)
    | OtherEvent

  /** What the select loop wakes up for. */
  datatype Item = Event(event: DomainEvent) | Tick

  /** The client a stream belongs to. */
  datatype Scope = Scope(project: string, environment: string)

  predicate Wanted(scope: Scope, item: Item) {
    item.Event? && item.event.FlagChange? && item.event.project == scope.project &&
        item.event.environment == scope.environment
  }

  function ToWire(e: DomainEvent): WireEvent
    requires e.FlagChange?
  {
    WireEvent(e.eventType, e.project, e.environment, e.flagKey, e.enabled, e.occurredAt)
  }

  type Encoder = WireEvent -> string

  /** The frame bodies one item produces. */
  function Body(scope: Scope, encode: Encoder, item: Item): seq<string> {
    if item.Tick? then [": keep-alive"]
    else if Wanted(scope, item) then ["data: " + encode(ToWire(item.event))]
    else []
  }

  function Bodies(scope: Scope, encode: Encoder): Item -> seq<string> {
    (item: Item) => Body(scope, encode, item)
  }

  function WireText(scope: Scope, encode: Encoder, items: seq<Item>): string {
    Join(FlatMap(Bodies(scope, encode), items))
  }

  lemma WireTextSnoc(scope: Scope, encode: Encoder, items: seq<Item>, item: Item)
    ensures WireText(scope, encode, items + [item]) == WireText(scope, encode, items) + Join(Body(scope, encode, item))
  {
    FlatMapSnoc(Bodies(scope, encode), items, item);
    FlatMapConcat(Frame, FlatMap(Bodies(scope, encode), items), Body(scope, encode, item));
  }

  /** `streamLoop` with `handleEvent`, until the context ends or the channel closes. */
  method StreamLoop(scope: Scope, encode: Encoder, items: seq<Item>) returns (out: string)
    ensures out == WireText(scope, encode, items)
  {
    out := "";
    for i := 0 to |items|
      invariant out == WireText(scope, encode, items[..i])
    {
      assert items[..i + 1] == items[..i] + [items[i]];
      WireTextSnoc(scope, encode, items[..i], items[i]);
      match items[i] {
        case Tick =>
          FlatMapOne(Frame, ": keep-alive");
          out := out + ": keep-alive\n\n";
        case Event(e) =>
          if !e.FlagChange? { continue; }
          if e.project != scope.project || e.environment != scope.environment { continue; }
          var data := encode(ToWire(e));
          FlatMapOne(Frame, "data: " + data);
          out := out + ("data: " + data + "\n\n");
      }
    }
    assert items[..|items|] == items;
  }

  // ---------- round trip ----------

  /** The change an item means for this client. */
  function WantedChange(scope: Scope): Item -> seq<Signal> {
    (item: Item) => if Wanted(scope, item) then [Change(ToWire(item.event))] else []
  }

  /** What is asked of the JSON text of one event: one line, no outer white space, and the parser reads it back. */
  predicate GoodText(space: char -> bool, encode: Encoder, decode: Decoder, w: WireEvent) {
    var t := encode(w);
    t != "" && '\n' !in t && !space(t[0]) && !space(t[|t| - 1]) && decode(t) == Some(w)
  }

  predicate GoodTexts(space: char -> bool, encode: Encoder, decode: Decoder, scope: Scope, items: seq<Item>) {
    && space(' ') && space('\r')
    && forall i :: 0 <= i < |items| && Wanted(scope, items[i]) ==>
        GoodText(space, encode, decode, ToWire(items[i].event))
  }

  lemma CutJoin(bodies: seq<string>)
    requires forall i :: 0 <= i < |bodies| ==> OneLine(bodies[i])
    ensures CutBlocks(Join(bodies)) == Cut(bodies, "")
  {
    assert Join(bodies) + "" == Join(bodies);
    CutUnique(Join(bodies), Cut(bodies, ""));
  }

  lemma {:induction false} TrimRightNonEmpty(space: char -> bool, s: string, i: int)
    requires 0 <= i < |s| && !space(s[i])
    ensures TrimRight(space, s) != ""
    decreases |s|
  {
    if space(s[|s| - 1]) { TrimRightNonEmpty(space, s[..|s| - 1], i); }
  }

  lemma {:induction false} TrimNonEmpty(space: char -> bool, s: string, i: int)
    requires 0 <= i < |s| && !space(s[i])
    ensures Trim(space, s) != ""
    decreases |s|
  {
    if space(s[0]) {
      TrimNonEmpty(space, s[1..], i - 1);
    } else {
      TrimRightNonEmpty(space, s, 0);
    }
  }

  lemma DataPayload(space: char -> bool, t: string)
    requires space(' ') && t != "" && !space(t[0]) && !space(t[|t| - 1])
    ensures Payload(space, "data: " + t) == Some(t)
  {
    var line := "data: " + t;
    assert line[5..] == " " + t;
    assert (" " + t)[1..] == t;
    assert TrimLeft(space, t) == t;
    assert TrimLeft(space, " " + t) == t;
    TrimNonEmpty(space, line, |line| - 1);
  }

  lemma OneLineBlock(space: char -> bool, decode: Decoder, body: string)
    requires OneLine(body)
    ensures FlatMap(BlockSignals(space, decode), [body]) == LineSignals(space, decode)(body)
  {
    assert Lines(body) == [body];
    FlatMapOne(LineSignals(space, decode), body);
    FlatMapOne(BlockSignals(space, decode), body);
  }

  /** What one item puts on the wire is read back as that item's change. */
  lemma ItemCarries(space: char -> bool, encode: Encoder, decode: Decoder, scope: Scope, item: Item)
    requires space(' ')
    requires Wanted(scope, item) ==> GoodText(space, encode, decode, ToWire(item.event))
    ensures forall b :: b in Body(scope, encode, item) ==> OneLine(b)
    ensures FlatMap(BlockSignals(space, decode), Body(scope, encode, item)) == WantedChange(scope)(item)
  {
    if item.Tick? {
      var body := ": keep-alive";
      assert ":" <= body;
      OneLineBlock(space, decode, body);
    } else if Wanted(scope, item) {
      var w := ToWire(item.event);
      DataPayload(space, encode(w));
      OneLineBlock(space, decode, "data: " + encode(w));
    }
  }

  /** The wire text of a stream cuts back into its frame bodies. */
  lemma CutWireText(space: char -> bool, encode: Encoder, decode: Decoder, scope: Scope, items: seq<Item>)
    requires GoodTexts(space, encode, decode, scope, items)
    ensures CutBlocks(WireText(scope, encode, items)) == Cut(FlatMap(Bodies(scope, encode), items), "")
  {
    forall i | 0 <= i < |items| ensures forall b :: b in Body(scope, encode, items[i]) ==> OneLine(b) {
      ItemCarries(space, encode, decode, scope, items[i]);
    }
    FlatMapAll(Bodies(scope, encode), OneLine, items);
    CutJoin(FlatMap(Bodies(scope, encode), items));
  }

  /** Wire round trip of the JavaScript client: it is told exactly the changes of its project and
      environment, in order. With `ReadStream` this holds for every way of cutting the text into chunks. */
  lemma JsRoundTrip(space: char -> bool, encode: Encoder, decode: Decoder, scope: Scope, items: seq<Item>)
    requires GoodTexts(space, encode, decode, scope, items)
    ensures Told(space, decode, WireText(scope, encode, items)) == FlatMap(WantedChange(scope), items)
    ensures CutBlocks(WireText(scope, encode, items)).rest == ""
  {
    CutWireText(space, encode, decode, scope, items);
    forall i | 0 <= i < |items|
      ensures FlatMap(BlockSignals(space, decode), Body(scope, encode, items[i])) == WantedChange(scope)(items[i])
    {
      ItemCarries(space, encode, decode, scope, items[i]);
    }
    FlatMapCompose(Bodies(scope, encode), BlockSignals(space, decode), WantedChange(scope), items);
  }

  /** The flag changes of a project and environment, as the domain published them. */
  function Changes(project: string, environment: string): Item -> seq<DomainEvent> {
    (item: Item) =>
      if item.Event? && item.event.FlagChange? && item.event.project == project && item.event.environment == environment
      then [item.event] else []
  }

  /** The wire event says what the domain event said. */
  predicate SaysSame(w: WireEvent, e: DomainEvent) {
    && e.FlagChange? && w.eventType == e.eventType && w.project == e.project && w.environment == e.environment
    && w.flagKey == e.flagKey && w.enabled == e.enabled && w.occurredAt == e.occurredAt
  }

  lemma {:induction false} ChangesKept(scope: Scope, items: seq<Item>)
    ensures var sent, meant := FlatMap(WantedChange(scope), items),
                               FlatMap(Changes(scope.project, scope.environment), items);
            |sent| == |meant| && forall i :: 0 <= i < |sent| ==> sent[i].Change? && SaysSame(sent[i].event, meant[i])
  {
    if items != [] { ChangesKept(scope, items[..|items| - 1]); }
  }

  /** In terms of what was published: the client is told one change for each change of its project and environment,
      in order, and each carries all six fields of the published event. */
  lemma JsTellsPublished(space: char -> bool, encode: Encoder, decode: Decoder, scope: Scope, items: seq<Item>)
    requires GoodTexts(space, encode, decode, scope, items)
    ensures var told, meant := Told(space, decode, WireText(scope, encode, items)),
                               FlatMap(Changes(scope.project, scope.environment), items);
            |told| == |meant| && forall i :: 0 <= i < |told| ==> told[i].Change? && SaysSame(told[i].event, meant[i])
  {
    JsRoundTrip(space, encode, decode, scope, items);
    ChangesKept(scope, items);
  }

  /** At every moment the client has been told a prefix: what arrived so far, cut anywhere, never
      yields a change out of order or one that was not sent. */
  lemma JsPrefix(space: char -> bool, encode: Encoder, decode: Decoder, scope: Scope, items: seq<Item>, arrived: string)
    requires GoodTexts(space, encode, decode, scope, items)
    requires arrived <= WireText(scope, encode, items)
    ensures Told(space, decode, arrived) <= FlatMap(WantedChange(scope), items)
  {
    var all := WireText(scope, encode, items);
    var more := all[|arrived|..];
    assert all == arrived + more;
    JsRoundTrip(space, encode, decode, scope, items);
    CutContinues(arrived, more);
    FlatMapConcat(BlockSignals(space, decode), CutBlocks(arrived).blocks,
        CutBlocks(CutBlocks(arrived).rest + more).blocks);
  }

  // ---------- the Go line reader ----------

  function DropCR(line: string): string {
    if line != "" && line[|line| - 1] == '\r' then line[..|line| - 1] else line
  }

  /** The lines a `bufio.Scanner` yields: newline and a carriage return before it removed, an
      unterminated last line included, an empty one not. */
  function ScanLines(s: string): seq<string>
    decreases |s|
  {
    if s == "" then []
    else
      var b := FindChar(s, '\n', 0);
      [DropCR(s[..b])] + (if b == |s| then [] else ScanLines(s[b + 1..]))
  }

  predicate ForKey(w: WireEvent, key: string) { w.eventType == "flag.state_changed" && w.flagKey == key }

  /** What one scanned line delivers to a subscription for `key`. */
  function LineUpdate(space: char -> bool, decode: Decoder, key: string, line: string): seq<WireEvent> {
    match Payload(space, line)
    case None => []
    case Some(text) => if decode(text).Some? && ForKey(decode(text).value, key) then [decode(text).value] else []
  }

  function LineUpdates(space: char -> bool, decode: Decoder, key: string): string -> seq<WireEvent> {
    (line: string) => LineUpdate(space, decode, key, line)
  }

  /** The scanner loop of `attemptStream`. Here only an empty line is skipped up front: a line of
      spaces is looked at and then dropped for not being a data line. */
  method ScanStream(space: char -> bool, decode: Decoder, key: string, text: string) returns (updates: seq<WireEvent>)
    requires !space('d')
    ensures updates == FlatMap(LineUpdates(space, decode, key), ScanLines(text))
  {
    updates := [];
    var lines := ScanLines(text);
    for i := 0 to |lines|
      invariant updates == FlatMap(LineUpdates(space, decode, key), lines[..i])
    {
      assert lines[..i + 1] == lines[..i] + [lines[i]];
      FlatMapSnoc(LineUpdates(space, decode, key), lines[..i], lines[i]);
      var line := lines[i];
      assert LineUpdates(space, decode, key)(line) == LineUpdate(space, decode, key, line);
      if ":" <= line || line == "" { continue; }
      if !("data:" <= line) { continue; }
      TrimNonEmpty(space, line, 0);
      var jsonStr := Trim(space, line[5..]);
      if jsonStr == "" { continue; }
      var wire := decode(jsonStr);
      if wire.None? { continue; }
      if wire.value.eventType != "flag.state_changed" { continue; }
      if wire.value.flagKey != key { continue; }
      updates := updates + [wire.value];
    }
    assert lines[..|lines|] == lines;
  }

  /** The lines scanned from one frame. */
  function FrameLines(body: string): seq<string> { [DropCR(body), ""] }

  /** Scanning a line terminated by a newline. */
  lemma ScanLine(line: string, rest: string)
    requires OneLine(line)
    ensures ScanLines(line + "\n" + rest) == [DropCR(line)] + ScanLines(rest)
  {
    var text := line + "\n" + rest;
    assert forall k :: 0 <= k < |line| ==> text[k] == line[k];
    assert text[|line|] == '\n';
    assert FindChar(text, '\n', 0) == |line|;
    assert text[..|line|] == line && text[|line| + 1..] == rest;
  }

  lemma AppendLines(x: seq<string>, y: seq<string>, z: seq<string>)
    ensures x + (y + z) == (x + y) + z
  {
  }

  lemma FrameText(body: string, rest: string)
    ensures Frame(body) + rest == body + "\n" + ("\n" + rest)
  {
  }

  lemma ScanBlank(rest: string)
    ensures ScanLines("\n" + rest) == [""] + ScanLines(rest)
  {
    ScanLine("", rest);
    assert "" + "\n" + rest == "\n" + rest;
  }

  lemma ScanFrame(body: string, rest: string)
    requires OneLine(body)
    ensures ScanLines(Frame(body) + rest) == FrameLines(body) + ScanLines(rest)
  {
    FrameText(body, rest);
    ScanLine(body, "\n" + rest);
    ScanBlank(rest);
    AppendLines([DropCR(body)], [""], ScanLines(rest));
    assert FrameLines(body) == [DropCR(body)] + [""];
  }

  lemma {:induction false} ScanJoin(bodies: seq<string>)
    requires forall i :: 0 <= i < |bodies| ==> OneLine(bodies[i])
    ensures ScanLines(Join(bodies)) == FlatMap(FrameLines, bodies)
  {
    if bodies != [] {
      var head, tail := bodies[0], bodies[1..];
      assert bodies == [head] + tail;
      FlatMapConcat(Frame, [head], tail);
      FlatMapOne(Frame, head);
      FlatMapConcat(FrameLines, [head], tail);
      FlatMapOne(FrameLines, head);
      ScanFrame(head, Join(tail));
      ScanJoin(tail);
    }
  }

  predicate Terminated(s: string) { s == "" || s[|s| - 1] == '\n' }

  lemma SplitLine(a: string, n: int, b: string)
    requires 0 <= n < |a| && a[n] == '\n' && Terminated(a) && forall k :: 0 <= k < n ==> a[k] != '\n'
    ensures OneLine(a[..n]) && Terminated(a[n + 1..])
    ensures a == a[..n] + "\n" + a[n + 1..] && a + b == a[..n] + "\n" + (a[n + 1..] + b)
  {
  }

  /** Text that ends with a line is scanned apart from what follows. */
  lemma {:induction false} ScanSplit(a: string, b: string)
    requires Terminated(a)
    ensures ScanLines(a + b) == ScanLines(a) + ScanLines(b)
    decreases |a|
  {
    if a == "" {
      assert a + b == b && ScanLines(a) == [];
    } else {
      var n := FindChar(a, '\n', 0);
      var line, rest := a[..n], a[n + 1..];
      SplitLine(a, n, b);
      ScanSplit(rest, b);
      ScanLine(line, rest);
      ScanLine(line, rest + b);
      AppendLines([DropCR(line)], ScanLines(rest), ScanLines(b));
    }
  }

  /** The update an item means for a subscription to `key`. */
  function WantedUpdate(scope: Scope, key: string): Item -> seq<WireEvent> {
    (item: Item) => if Wanted(scope, item) && ForKey(ToWire(item.event), key) then [ToWire(item.event)] else []
  }

  function BodyUpdates(space: char -> bool, decode: Decoder, key: string): string -> seq<WireEvent> {
    (body: string) => LineUpdate(space, decode, key, DropCR(body))
  }

  lemma KeepAliveUpdate(space: char -> bool, decode: Decoder, key: string)
    ensures LineUpdate(space, decode, key, DropCR(": keep-alive")) == []
  {
    var line := ": keep-alive";
    assert line[|line| - 1] == 'e';
    assert DropCR(line) == line && ":" <= line;
  }

  lemma DataUpdate(space: char -> bool, decode: Decoder, key: string, t: string, w: WireEvent)
    requires space(' ') && space('\r') && t != "" && !space(t[0]) && !space(t[|t| - 1]) && decode(t) == Some(w)
    ensures LineUpdate(space, decode, key, DropCR("data: " + t)) == if ForKey(w, key) then [w] else []
  {
    var body := "data: " + t;
    assert body[|body| - 1] == t[|t| - 1];
    assert DropCR(body) == body;
    DataPayload(space, t);
  }

  lemma ItemUpdates(space: char -> bool, encode: Encoder, decode: Decoder, scope: Scope, key: string, item: Item)
    requires space(' ') && space('\r')
    requires Wanted(scope, item) ==> GoodText(space, encode, decode, ToWire(item.event))
    ensures FlatMap(BodyUpdates(space, decode, key), Body(scope, encode, item)) == WantedUpdate(scope, key)(item)
  {
    if item.Tick? {
      KeepAliveUpdate(space, decode, key);
      FlatMapOne(BodyUpdates(space, decode, key), ": keep-alive");
    } else if Wanted(scope, item) {
      var w := ToWire(item.event);
      DataUpdate(space, decode, key, encode(w), w);
      FlatMapOne(BodyUpdates(space, decode, key), "data: " + encode(w));
    }
  }

  lemma FrameUpdates(space: char -> bool, decode: Decoder, key: string, body: string)
    ensures FlatMap(LineUpdates(space, decode, key), FrameLines(body)) == BodyUpdates(space, decode, key)(body)
  {
    var line := DropCR(body);
    assert FrameLines(body) == [line] + [""];
    FlatMapSnoc(LineUpdates(space, decode, key), [line], "");
    FlatMapOne(LineUpdates(space, decode, key), line);
    assert Trim(space, "") == "";
  }

  lemma JoinTerminated(bodies: seq<string>)
    ensures Terminated(Join(bodies))
  {
    if bodies != [] {
      var text, frame := Join(bodies), Frame(bodies[|bodies| - 1]);
      assert text == Join(bodies[..|bodies| - 1]) + frame && text[|text| - 1] == frame[|frame| - 1];
    }
  }

  /** What the lines of complete frames and of anything after them deliver. */
  lemma GoFrames(space: char -> bool, encode: Encoder, decode: Decoder, scope: Scope, key: string, items: seq<Item>,
                 rest: string)
    requires GoodTexts(space, encode, decode, scope, items)
    ensures FlatMap(LineUpdates(space, decode, key), ScanLines(WireText(scope, encode, items) + rest)) ==
            FlatMap(WantedUpdate(scope, key), items) + FlatMap(LineUpdates(space, decode, key), ScanLines(rest))
  {
    var bodies := FlatMap(Bodies(scope, encode), items);
    forall i | 0 <= i < |items|
      ensures forall b :: b in Body(scope, encode, items[i]) ==> OneLine(b)
      ensures FlatMap(BodyUpdates(space, decode, key), Body(scope, encode, items[i])) ==
                WantedUpdate(scope, key)(items[i])
    {
      ItemCarries(space, encode, decode, scope, items[i]);
      ItemUpdates(space, encode, decode, scope, key, items[i]);
    }
    FlatMapAll(Bodies(scope, encode), OneLine, items);
    ScanJoin(bodies);
    JoinTerminated(bodies);
    ScanSplit(Join(bodies), rest);
    FlatMapConcat(LineUpdates(space, decode, key), FlatMap(FrameLines, bodies), ScanLines(rest));
    forall i | 0 <= i < |bodies|
      ensures FlatMap(LineUpdates(space, decode, key), FrameLines(bodies[i])) ==
                BodyUpdates(space, decode, key)(bodies[i])
    {
      FrameUpdates(space, decode, key, bodies[i]);
    }
    FlatMapCompose(FrameLines, LineUpdates(space, decode, key), BodyUpdates(space, decode, key), bodies);
    FlatMapCompose(Bodies(scope, encode), BodyUpdates(space, decode, key), WantedUpdate(scope, key), items);
  }

  /** Wire round trip of the Go client: a subscription for one key is delivered exactly the changes of
      that key in its project and environment, in order. */
  lemma GoRoundTrip(space: char -> bool, encode: Encoder, decode: Decoder, scope: Scope, key: string, items: seq<Item>)
    requires GoodTexts(space, encode, decode, scope, items)
    ensures FlatMap(LineUpdates(space, decode, key), ScanLines(WireText(scope, encode, items))) ==
            FlatMap(WantedUpdate(scope, key), items)
  {
    var text := WireText(scope, encode, items);
    GoFrames(space, encode, decode, scope, key, items, "");
    assert text + "" == text;
  }

  /** The state changes of one flag in a project and environment, as the domain published them. */
  function StateChanges(project: string, environment: string, key: string): Item -> seq<DomainEvent> {
    (item: Item) =>
      if item.Event? && item.event.FlagChange? && item.event.project == project &&
         item.event.environment == environment && item.event.flagKey == key &&
         item.event.eventType == "flag.state_changed"
      then [item.event] else []
  }

  lemma {:induction false} StateChangesKept(scope: Scope, key: string, items: seq<Item>)
    ensures var sent, meant := FlatMap(WantedUpdate(scope, key), items),
                               FlatMap(StateChanges(scope.project, scope.environment, key), items);
            |sent| == |meant| && forall i :: 0 <= i < |sent| ==> SaysSame(sent[i], meant[i]) && sent[i].flagKey == key
  {
    if items != [] { StateChangesKept(scope, key, items[..|items| - 1]); }
  }

  /** In terms of what was published: a subscription for a key is delivered one update for each state change of that
      flag in its project and environment, in order, with the key, the bit and the time that were published. */
  lemma {:induction false} GoDeliversPublished(space: char -> bool, encode: Encoder, decode: Decoder, scope: Scope,
                                               key: string, items: seq<Item>)
    requires GoodTexts(space, encode, decode, scope, items)
    ensures var got, meant := FlatMap(LineUpdates(space, decode, key), ScanLines(WireText(scope, encode, items))),
                              FlatMap(StateChanges(scope.project, scope.environment, key), items);
            && |got| == |meant|
            && forall i :: 0 <= i < |got| ==>
                 meant[i].FlagChange? && meant[i].flagKey == key && got[i].flagKey == key &&
                 got[i].enabled == meant[i].enabled && got[i].occurredAt == meant[i].occurredAt
  {
    GoRoundTrip(space, encode, decode, scope, key, items);
    StateChangesKept(scope, key, items);
  }

  // ---------- a stream that stops in the middle of a line ----------

  /** No proper beginning of the text parses, as is so for a JSON object. */
  predicate Whole(space: char -> bool, decode: Decoder, t: string) {
    forall k :: 0 <= k < |t| ==> decode(Trim(space, t[..k])).None?
  }

  ghost predicate WholeTexts(space: char -> bool, encode: Encoder, decode: Decoder, scope: Scope, items: seq<Item>) {
    forall i :: 0 <= i < |items| && Wanted(scope, items[i]) ==> Whole(space, decode, encode(ToWire(items[i].event)))
  }

  /** The scanner yields an unterminated last line. */
  lemma ScanTorn(line: string)
    requires OneLine(line)
    ensures ScanLines(line) == if line == "" then [] else [DropCR(line)]
  {
    if line != "" { assert FindChar(line, '\n', 0) == |line| && line[..|line|] == line; }
  }

  /** A torn data line delivers nothing. */
  lemma TornLine(space: char -> bool, decode: Decoder, key: string, t: string, k: int)
    requires space(' ') && space('\r') && t != "" && !space(t[0]) && Whole(space, decode, t) && 0 < k < |t|
    ensures LineUpdate(space, decode, key, DropCR("data: " + t[..k])) == []
  {
    var x := t[..k];
    var line := "data: " + x;
    assert line[|line| - 1] == x[k - 1] && x[0] == t[0];
    var y := if x[k - 1] == '\r' then x[..k - 1] else x;
    assert DropCR(line) == "data: " + y;
    var text := ("data: " + y)[5..];
    assert text == " " + y && text[1..] == y;
    assert y != "" && y[0] == t[0];
    assert TrimLeft(space, y) == y && TrimLeft(space, text) == TrimLeft(space, text[1..]) == y;
    assert TrimLeft(space, x) == x;
    assert TrimRight(space, x) == TrimRight(space, y);
    assert decode(Trim(space, x)).None?;
  }

  /** Neither does a torn field name. */
  lemma TornField(space: char -> bool, decode: Decoder, key: string, k: int)
    requires space(' ') && 0 <= k <= 6
    ensures LineUpdate(space, decode, key, DropCR("data: "[..k])) == []
  {
    var line := "data: "[..k];
    assert DropCR(line) == line by { assert forall i :: 0 <= i < 6 ==> "data: "[i] != '\r'; }
    if k == 6 {
      assert line[5..] == " " && " "[1..] == "";
      assert Trim(space, " ") == "";
    } else if k == 5 {
      assert line[5..] == "" && Trim(space, "") == "";
    }
  }

  /** Whatever part of a frame body has arrived, it delivers nothing or what the item means. */
  lemma TornBody(space: char -> bool, encode: Encoder, decode: Decoder, scope: Scope, key: string, item: Item,
                 body: string, part: string)
    requires space(' ') && space('\r') && body in Body(scope, encode, item) && part <= body
    requires Wanted(scope, item) ==> GoodText(space, encode, decode, ToWire(item.event))
    requires Wanted(scope, item) ==> Whole(space, decode, encode(ToWire(item.event)))
    ensures LineUpdate(space, decode, key, DropCR(part)) <= WantedUpdate(scope, key)(item)
  {
    if item.Tick? {
      if part != "" {
        assert part[0] == ':';
        assert part[|part| - 1] != '\r' by { assert body[|part| - 1] != '\r'; }
        assert ":" <= DropCR(part);
      } else {
        assert Trim(space, "") == "";
      }
    } else {
      var w := ToWire(item.event);
      var t := encode(w);
      if |part| <= 6 {
        assert part == "data: "[..|part|];
        TornField(space, decode, key, |part|);
      } else if |part| < |body| {
        assert part == "data: " + t[..|part| - 6];
        TornLine(space, decode, key, t, |part| - 6);
      } else {
        assert part == body;
        DataUpdate(space, decode, key, t, w);
      }
    }
  }

  lemma PartOfBody(body: string, part: string)
    requires OneLine(body) && part <= Frame(body) && |part| <= |body|
    ensures ScanLines(part) == if part == "" then [] else [DropCR(part)]
  {
    assert forall i :: 0 <= i < |part| ==> part[i] == body[i];
    ScanTorn(part);
  }

  lemma PartText(body: string, part: string)
    requires part <= Frame(body) && |part| > |body|
    ensures part == if |part| == |body| + 1 then body + "\n" else Frame(body)
  {
    assert part == Frame(body)[..|part|];
  }

  lemma ScanOnlyLine(body: string)
    requires OneLine(body)
    ensures ScanLines(body + "\n") == [DropCR(body)]
  {
    ScanLine(body, "");
    assert body + "\n" + "" == body + "\n";
  }

  lemma ScanOnlyFrame(body: string)
    requires OneLine(body)
    ensures ScanLines(Frame(body)) == FrameLines(body)
  {
    ScanFrame(body, "");
    assert Frame(body) + "" == Frame(body);
  }

  lemma BodyAndMore(body: string, part: string)
    requires OneLine(body) && part <= Frame(body) && |part| > |body|
    ensures ScanLines(part) == if |part| == |body| + 1 then [DropCR(body)] else FrameLines(body)
  {
    PartText(body, part);
    ScanOnlyLine(body);
    ScanOnlyFrame(body);
  }

  lemma PartUpdates(space: char -> bool, decode: Decoder, key: string, body: string, part: string)
    requires OneLine(body) && part <= Frame(body)
    ensures var line := if |part| <= |body| then part else body;
            FlatMap(LineUpdates(space, decode, key), ScanLines(part)) ==
              if part == "" then [] else LineUpdate(space, decode, key, DropCR(line))
  {
    if |part| <= |body| { PartOfBody(body, part); } else { BodyAndMore(body, part); }
    FrameUpdates(space, decode, key, body);
    FlatMapOne(LineUpdates(space, decode, key), DropCR(if |part| <= |body| then part else body));
  }

  lemma TornFrame(space: char -> bool, encode: Encoder, decode: Decoder, scope: Scope, key: string, item: Item,
                  part: string)
    requires space(' ') && space('\r') && part <= Join(Body(scope, encode, item))
    requires Wanted(scope, item) ==> GoodText(space, encode, decode, ToWire(item.event))
    requires Wanted(scope, item) ==> Whole(space, decode, encode(ToWire(item.event)))
    ensures FlatMap(LineUpdates(space, decode, key), ScanLines(part)) <= WantedUpdate(scope, key)(item)
  {
    if Body(scope, encode, item) == [] {
      assert part == "";
    } else {
      var body := Body(scope, encode, item)[0];
      ItemCarries(space, encode, decode, scope, item);
      FlatMapOne(Frame, body);
      assert Body(scope, encode, item) == [body];
      TornBody(space, encode, decode, scope, key, item, body, if |part| <= |body| then part else body);
      PartUpdates(space, decode, key, body, part);
    }
  }

  lemma PrefixOfSum<T>(a: seq<T>, b: seq<T>, c: seq<T>)
    requires b <= c
    ensures a + b <= a + c && a <= a + c
  {
  }

  /** Wherever the text stops, in the middle of a line too, a subscription has been delivered a prefix of its key's
      changes. */
  lemma {:induction false} GoPrefix(space: char -> bool, encode: Encoder, decode: Decoder, scope: Scope, key: string,
                                    items: seq<Item>, arrived: string)
    requires GoodTexts(space, encode, decode, scope, items) && WholeTexts(space, encode, decode, scope, items)
    requires arrived <= WireText(scope, encode, items)
    ensures FlatMap(LineUpdates(space, decode, key), ScanLines(arrived)) <= FlatMap(WantedUpdate(scope, key), items)
    decreases |items|
  {
    if items == [] {
      assert arrived == "";
    } else {
      var init, last := items[..|items| - 1], items[|items| - 1];
      assert items == init + [last];
      WireTextSnoc(scope, encode, init, last);
      FlatMapSnoc(WantedUpdate(scope, key), init, last);
      var before := WireText(scope, encode, init);
      if |arrived| <= |before| {
        assert arrived <= before;
        GoPrefix(space, encode, decode, scope, key, init, arrived);
      } else {
        var part := arrived[|before|..];
        assert arrived == before + part && part <= Join(Body(scope, encode, last));
        GoFrames(space, encode, decode, scope, key, init, part);
        TornFrame(space, encode, decode, scope, key, last, part);
        PrefixOfSum(FlatMap(WantedUpdate(scope, key), init), FlatMap(LineUpdates(space, decode, key), ScanLines(part)),
                    WantedUpdate(scope, key)(last));
      }
    }
  }
}
