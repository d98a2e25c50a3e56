/** The audit log kept in a file: one line for each event, read back on start.

    The line codec is a parameter (canonical JSON in the program). */
module FileAuditLog {
  import opened Models
  import opened PythonText
  import opened AuditLog

  /** `write` gives the line of an event without its line feed; `read` is handed
      a line as the file gives it, line feed included, and may fail; `skips` tells
      which characters it passes over in front of an event (for JSON, the blank,
      the tab and the line ends: not every character that `strip` takes for space). */
  datatype Codec = Codec(
    write: AuditEvent -> string, read: string -> Option<AuditEvent>, skips: char -> bool)

  /** A text that is one line of a file and not skipped as blank. */
  ghost predicate PlainLine(line: string) {
    Strip(line) != "" && forall i :: 0 <= i < |line| ==> line[i] != '\n' && line[i] != '\r'
  }

  predicate AllSkipped(codec: Codec, text: string) {
    forall i :: 0 <= i < |text| ==> codec.skips(text[i])
  }

  /** An event is read back as itself behind characters that are skipped, with or
      without its line feed; behind other white space it is malformed. */
  predicate ReadBehind(codec: Codec, pad: string, event: AuditEvent) {
    var line := pad + codec.write(event);
    if AllSkipped(codec, pad)
    then codec.read(line) == Some(event) && codec.read(line + "\n") == Some(event)
    else codec.read(line) == None && codec.read(line + "\n") == None
  }

  /** More after an event on its line is malformed, blanks apart. */
  predicate RefusesAfter(codec: Codec, event: AuditEvent, more: string) {
    codec.read(codec.write(event) + more) == None
  }

  ghost predicate Faithful(codec: Codec) {
    && (forall c :: codec.skips(c) ==> IsSpace(c))
    && (forall event :: PlainLine(codec.write(event)))
    && (forall pad, event :: Strip(pad) == "" ==> ReadBehind(codec, pad, event))
    && (forall event, more :: Strip(more) != "" ==> RefusesAfter(codec, event, more))
  }

  // ---- reading a file ----

  const IS_FEED: char -> bool := c => c == '\n'

  /** The finished lines of a text, each with its line feed. */
  function WholeLines(text: string): seq<string>
    decreases |text|
  {
    var n := Until(text, IS_FEED);
    if n == |text| then [] else [text[..n + 1]] + WholeLines(text[n + 1..])
  }

  /** What follows the last line feed. */
  function Tail(text: string): string
    decreases |text|
  {
    var n := Until(text, IS_FEED);
    if n == |text| then text else Tail(text[n + 1..])
  }

  /** The lines that iterating over a file gives. */
  function Lines(text: string): seq<string> {
    WholeLines(text) + if Tail(text) == "" then [] else [Tail(text)]
  }

  function Decode(codec: Codec, lines: seq<string>): Option<seq<AuditEvent>> {
    if lines == [] then Some([])
    else
      var before := Decode(codec, lines[..|lines| - 1]);
      var line := lines[|lines| - 1];
      if before.None? || Strip(line) == "" then before
      else
        var event := codec.read(line);
        if event.None? then None else Some(before.value + [event.value])
  }

  /** The events of a file, which may not exist; `None` when a line is malformed. */
  function Load(codec: Codec, file: Option<string>): Option<seq<AuditEvent>> {
    if file.None? then Some([]) else Decode(codec, Lines(UniversalNewlines(file.value)))
  }

  // ---- the log ----

  class DiskFile {
    var text: Option<string>

    constructor ()
      ensures text == None
    {
      text := None;
    }
  }

  /** A log on disk and in memory. */
  datatype Stored = Stored(file: Option<string>, events: seq<AuditEvent>)

  function Written(file: Option<string>, line: string): Option<string> {
    Some((if file.None? then "" else file.value) + (line + "\n"))
  }

  function AfterAppend(hash: Hash, codec: Codec, s: Stored, entry: Entry, timestamp: string): Stored {
    var event := NextEvent(hash, s.events, entry, timestamp);
    Stored(Written(s.file, codec.write(event)), s.events + [event])
  }

  class FileAuditLog {
    const codec: Codec
    const file: DiskFile
    const memory: InMemoryAuditLog

    function View(): Stored
      reads file, memory
    {
      Stored(file.text, memory.events)
    }

    constructor (hash: Hash, codec: Codec, file: DiskFile)
      ensures this.codec == codec && this.file == file
      ensures fresh(memory) && memory.hash == hash && memory.events == []
    {
      this.codec := codec;
      this.file := file;
      this.memory := new InMemoryAuditLog(hash);
    }

    /** What creating a log over a file does: it reads the file, or fails on a
        malformed line. The file is not touched. */
    static method Open(hash: Hash, codec: Codec, file: DiskFile) returns (log: Option<FileAuditLog>)
      ensures log.None? <==> Load(codec, file.text).None?
      ensures log.Some? ==>
                && fresh(log.value) && fresh(log.value.memory)
                && log.value.codec == codec && log.value.file == file && log.value.memory.hash == hash
                && Load(codec, file.text) == Some(log.value.memory.events)
    {
      var created := new FileAuditLog(hash, codec, file);
      if file.text.Some? {
        var lines := Lines(UniversalNewlines(file.text.value));
        for i := 0 to |lines|
          invariant Decode(codec, lines[..i]) == Some(created.memory.events)
        {
          assert lines[..i + 1][..i] == lines[..i];
          if Strip(lines[i]) != "" {
            var event := codec.read(lines[i]);
            if event.None? {
              MalformedStays(codec, lines, i + 1);
              return None;
            }
            created.memory.events := created.memory.events + [event.value];
          }
        }
        assert lines[..|lines|] == lines;
      }
      return Some(created);
    }

    method Append(entry: Entry, timestamp: string) returns (event: AuditEvent)
      modifies memory, file
      ensures event == NextEvent(memory.hash, old(memory.events), entry, timestamp)
      ensures View() == AfterAppend(memory.hash, codec, old(View()), entry, timestamp)
    {
      event := memory.Append(entry, timestamp);
      file.text := Some((if file.text.None? then "" else file.text.value) + (codec.write(event) + "\n"));
    }
  }

  lemma {:induction false} MalformedStays(codec: Codec, lines: seq<string>, i: nat)
    requires i <= |lines| && Decode(codec, lines[..i]) == None
    ensures Decode(codec, lines) == None
  {
    if i == |lines| {
      assert lines[..i] == lines;
    } else {
      assert lines[..|lines| - 1][..i] == lines[..i];
      MalformedStays(codec, lines[..|lines| - 1], i);
    }
  }

  // ---- one append, read back ----

  /** A written line becomes the last line, after whatever was left unfinished. */
  lemma {:induction false} LinesAfterWrite(text: string, line: string)
    requires forall i :: 0 <= i < |line| ==> line[i] != '\n'
    ensures WholeLines(text + (line + "\n")) == WholeLines(text) + [Tail(text) + (line + "\n")]
    ensures Tail(text + (line + "\n")) == ""
    decreases |text|
  {
    hide WholeLines, Tail, Until;
    var s := text + (line + "\n");
    var n := Until(text, IS_FEED);
    NoFeed("");
    if n == |text| {
      NoFeed(text);
      FirstFeed(s, |s| - 1);
      assert s[..|s|] == s && s[|s|..] == "";
    } else {
      FirstFeed(text, n);
      FirstFeed(s, n);
      assert s[..n + 1] == text[..n + 1] && s[n + 1..] == text[n + 1..] + (line + "\n");
      LinesAfterWrite(text[n + 1..], line);
    }
  }

  lemma NoFeed(text: string)
    requires forall i :: 0 <= i < |text| ==> text[i] != '\n'
    ensures WholeLines(text) == [] && Tail(text) == text
  {
  }

  lemma FirstFeed(text: string, n: nat)
    requires n < |text| && text[n] == '\n' && forall i :: 0 <= i < n ==> text[i] != '\n'
    ensures WholeLines(text) == [text[..n + 1]] + WholeLines(text[n + 1..])
    ensures Tail(text) == Tail(text[n + 1..])
  {
    UntilIs(text, IS_FEED, n);
  }

  lemma {:induction false} UntilIs(s: string, stop: char -> bool, n: nat)
    requires n < |s| && stop(s[n]) && forall i :: 0 <= i < n ==> !stop(s[i])
    ensures Until(s, stop) == n
  {
    if n == 0 {
    } else {
      UntilIs(s[1..], stop, n - 1);
    }
  }

  lemma {:induction false} DecodeSnoc(codec: Codec, lines: seq<string>, line: string)
    requires Strip(line) != ""
    ensures var before := Decode(codec, lines);
            var event := codec.read(line);
            Decode(codec, lines + [line])
            == if before.None? || event.None? then None else Some(before.value + [event.value])
  {
    assert (lines + [line])[..|lines|] == lines;
  }

  lemma TailDecides(codec: Codec, text: string, events: seq<AuditEvent>)
    requires Decode(codec, Lines(text)) == Some(events)
    ensures Strip(Tail(text)) == "" ==> Decode(codec, WholeLines(text)) == Some(events)
    ensures Strip(Tail(text)) != "" ==>
              && Decode(codec, WholeLines(text)).Some?
              && |Decode(codec, WholeLines(text)).value| + 1 == |events|
  {
    hide WholeLines, Tail, Strip;
    var whole, tail := WholeLines(text), Tail(text);
    if tail == "" {
      assert Lines(text) == whole;
      StripEmpty();
    } else {
      assert Lines(text)[..|whole|] == whole;
    }
  }

  lemma StripEmpty()
    ensures Strip("") == ""
  {
  }

  /** A file that does not exist reads as an empty one. */
  lemma EmptyFile(codec: Codec, file: Option<string>)
    ensures Load(codec, file) == Decode(codec, Lines(UniversalNewlines(if file.None? then "" else file.value)))
    ensures Unfinished(file) == Tail(UniversalNewlines(if file.None? then "" else file.value))
  {
  }

  /** A written line is read as it was written. */
  lemma PlainStays(line: string)
    requires PlainLine(line)
    ensures line != "" && line[0] != '\n'
    ensures UniversalNewlines(line + "\n") == line + "\n"
    ensures exists k :: 0 <= k < |line| && !IsSpace(line[k])
  {
    NewlinesExactly(line + "\n");
    BlankIsAllSpace(line);
  }

  /** A blank line changes nothing, wherever it stands. */
  lemma {:induction false} BlankLineIsSkipped(codec: Codec, before: seq<string>, blank: string, after: seq<string>)
    requires Strip(blank) == ""
    ensures Decode(codec, before + [blank] + after) == Decode(codec, before + after)
  {
    hide Strip;
    var all := before + [blank] + after;
    if after == [] {
      assert all[..|all| - 1] == before == before + after;
    } else {
      var n := |after| - 1;
      assert all[..|all| - 1] == before + [blank] + after[..n];
      assert (before + after)[..|before + after| - 1] == before + after[..n];
      BlankLineIsSkipped(codec, before, blank, after[..n]);
    }
  }

  /** The text after the last line end of a file. */
  function Unfinished(file: Option<string>): string {
    if file.None? then "" else Tail(UniversalNewlines(file.value))
  }

  /** The unfinished line and a written one make one line. */
  lemma LoadAfterWrite(codec: Codec, file: Option<string>, events: seq<AuditEvent>, line: string)
    requires PlainLine(line) && Load(codec, file) == Some(events)
    ensures Unfinished(Written(file, line)) == ""
    ensures var tail := Unfinished(file);
            var read := codec.read(tail + (line + "\n"));
            var after := Load(codec, Written(file, line));
            && (read.None? ==> after == None)
            && (read.Some? && Strip(tail) == "" ==> after == Some(events + [read.value]))
            && (read.Some? && Strip(tail) != "" ==> after.Some? && |after.value| == |events|)
  {
    hide WholeLines, Tail, UniversalNewlines, Strip, Decode;
    var was := if file.None? then "" else file.value;
    var text := UniversalNewlines(was);
    EmptyFile(codec, file);
    PlainStays(line);
    NewlinesConcat(was, line + "\n");
    LinesAfterWrite(text, line);
    var last := Tail(text) + (line + "\n");
    assert Lines(text + (line + "\n")) == WholeLines(text) + [last];
    BlankIsAllSpace(last);
    var k :| 0 <= k < |line| && !IsSpace(line[k]);
    assert last[|Tail(text)| + k] == line[k];
    DecodeSnoc(codec, WholeLines(text), last);
    TailDecides(codec, text, events);
    EmptyFile(codec, Written(file, line));
  }

  /** A file that has been appended to, read back: it gives the events it had and
      the new one exactly when its unfinished line has nothing but characters
      that the codec skips. A file that ends at a line end always qualifies. */
  lemma AppendIsRead(codec: Codec, file: Option<string>, events: seq<AuditEvent>, event: AuditEvent)
    requires Faithful(codec) && Load(codec, file) == Some(events)
    ensures Load(codec, Written(file, codec.write(event))) == Some(events + [event])
            <==> AllSkipped(codec, Unfinished(file))
    ensures Unfinished(Written(file, codec.write(event))) == ""
  {
    hide Load, Written, Unfinished, Strip;
    var line, tail := codec.write(event), Unfinished(file);
    LoadAfterWrite(codec, file, events, line);
    BlankIsAllSpace(tail);
    assert tail + (line + "\n") == tail + line + "\n";
    if Strip(tail) == "" {
      assert ReadBehind(codec, tail, event);
    }
  }

  /** When the unfinished line holds an event, the append glues two events into
      one malformed line: a log that was read before can no longer be opened. */
  lemma GluedEventsAreLost(codec: Codec, file: Option<string>, events: seq<AuditEvent>,
                           held: AuditEvent, event: AuditEvent)
    requires Faithful(codec) && Load(codec, file) == Some(events)
    requires Unfinished(file) == codec.write(held)
    ensures Load(codec, Written(file, codec.write(event))) == None
  {
    hide Load, Written, Unfinished, Strip;
    var more := codec.write(event) + "\n";
    LoadAfterWrite(codec, file, events, codec.write(event));
    BlankIsAllSpace(codec.write(event));
    BlankIsAllSpace(more);
    var k :| 0 <= k < |codec.write(event)| && !IsSpace(codec.write(event)[k]);
    assert more[k] == codec.write(event)[k];
    assert RefusesAfter(codec, held, more);
  }

  /** Such a file: one event without its line feed. It reads as that event; after
      an append it reads as nothing. */
  lemma OneUnfinishedEvent(codec: Codec, held: AuditEvent, event: AuditEvent)
    requires Faithful(codec)
    ensures var file := Some(codec.write(held));
            && Load(codec, file) == Some([held])
            && Load(codec, Written(file, codec.write(event))) == None
  {
    hide UniversalNewlines, Strip, Faithful;
    var line := codec.write(held);
    var file := Some(line);
    HeldIsRead(codec, held);
    NewlinesExactly(line);
    NoFeed(line);
    StripEmpty();
    assert Lines(line) == [] + [line] && Decode(codec, []) == Some([]);
    DecodeSnoc(codec, [], line);
    assert UniversalNewlines(line) == line && [] + [held] == [held];
    GluedEventsAreLost(codec, file, [held], held, event);
  }

  lemma HeldIsRead(codec: Codec, held: AuditEvent)
    requires Faithful(codec)
    ensures PlainLine(codec.write(held)) && codec.read(codec.write(held)) == Some(held)
  {
    StripEmpty();
    assert ReadBehind(codec, "", held);
    assert "" + codec.write(held) == codec.write(held);
  }

  // ---- whole runs, with restarts ----

  datatype Action =
    | Append(entry: Entry, timestamp: string)
    | Reload

  /** A restart fails on a malformed file. */
  function Step(hash: Hash, codec: Codec, s: Stored, action: Action): Option<Stored> {
    match action
    case Append(entry, timestamp) => Some(AfterAppend(hash, codec, s, entry, timestamp))
    case Reload =>
      var events := Load(codec, s.file);
      if events.None? then None else Some(Stored(s.file, events.value))
  }

  function Run(hash: Hash, codec: Codec, s: Stored, actions: seq<Action>): Option<Stored>
    decreases |actions|
  {
    if actions == [] then Some(s)
    else
      var next := Step(hash, codec, s, actions[0]);
      if next.None? then None else Run(hash, codec, next.value, actions[1..])
  }

  function WithoutReloads(actions: seq<Action>): (kept: seq<Action>)
    ensures forall a <- kept :: a.Append?
  {
    if actions == [] then []
    else (if actions[0].Append? then [actions[0]] else []) + WithoutReloads(actions[1..])
  }

  /** Memory is what the file reads as, nothing in it is unfinished, and the chain is whole. */
  ghost predicate Sound(hash: Hash, codec: Codec, s: Stored) {
    && Load(codec, s.file) == Some(s.events)
    && Unfinished(s.file) == ""
    && ChainValid(hash, s.events) && Numbered(s.events)
  }

  lemma NewLogIsSound(hash: Hash, codec: Codec)
    ensures Sound(hash, codec, Stored(None, []))
  {
  }

  /** Appending keeps a log sound; a restart of a sound log changes nothing. */
  lemma StepKeepsSound(hash: Hash, codec: Codec, s: Stored, action: Action)
    requires Faithful(codec) && Sound(hash, codec, s)
    ensures var next := Step(hash, codec, s, action);
            && next.Some? && Sound(hash, codec, next.value)
            && (action.Reload? ==> next.value == s)
  {
    hide Load, Unfinished, Faithful, ChainValid, Numbered, Written;
    if action.Append? {
      var event := NextEvent(hash, s.events, action.entry, action.timestamp);
      AppendIsRead(codec, s.file, s.events, event);
      AppendKeepsChain(hash, s.events, action.entry, action.timestamp);
    }
  }

  /** Restarts are invisible: whatever the interleaving, the log and its file are
      those of the run of the same appends that was never restarted, memory is
      what the file reads as, and the chain is whole. */
  lemma {:induction false} RestartsAreInvisible(hash: Hash, codec: Codec, s: Stored, actions: seq<Action>)
    requires Faithful(codec) && Sound(hash, codec, s)
    ensures var end := Run(hash, codec, s, actions);
            && end.Some? && Sound(hash, codec, end.value)
            && end == Run(hash, codec, s, WithoutReloads(actions))
    decreases |actions|
  {
    hide Faithful, Sound;
    if actions == [] {
    } else {
      StepKeepsSound(hash, codec, s, actions[0]);
      var next := Step(hash, codec, s, actions[0]).value;
      RestartsAreInvisible(hash, codec, next, actions[1..]);
      var rest := WithoutReloads(actions[1..]);
      if actions[0].Append? {
        assert ([actions[0]] + rest)[1..] == rest;
      } else {
        assert [] + rest == rest;
      }
    }
  }
}
