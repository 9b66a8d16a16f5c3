/**
 Watching a growing log for the line that says a server is down. The monitor reads only what was
 appended since its last check; its verdict must be that of rescanning the whole log.

 The log is a sequence of decoded characters. Reading translates line ends as text files are read
 in Python, chunk by chunk, so a CR LF pair cut by a read yields an extra blank line.
 */
module RuntimeLog {
  import opened Options

  // ----- Reading text -----

  /** CR LF and lone CR become LF; a CR at the end of the chunk becomes LF at once. */
  function Translate(raw: string): string {
    if raw == "" then ""
    else
      var last := raw[|raw| - 1];
      var before := raw[..|raw| - 1];
      if last == '\r' then Translate(before) + "\n"
      else if last == '\n' && before != "" && before[|before| - 1] == '\r' then Translate(before)
      else Translate(before) + [last]
  }

  /** Characters that end a line for `str.splitlines`, once CR is translated away. */
  predicate IsBreak(c: char) {
    || c == '\n' || '\U{000B}' <= c <= '\U{000C}' || '\U{001C}' <= c <= '\U{001E}'
    || c == '\U{0085}' || c == '\U{2028}' || c == '\U{2029}'
  }

  /** The nine characters, by their codes: line feed, the tabs and separators, next line, and two of Unicode's own. */
  lemma BreakCodes(c: char)
    ensures IsBreak(c) <==> c as int in {10, 11, 12, 28, 29, 30, 133, 8232, 8233}
  {
  }

  /** The lines ended by a break, and what follows the last break. */
  datatype Split = Split(ended: seq<string>, open: string)

  function SplitText(text: string): Split {
    if text == "" then Split([], "")
    else
      var s, last := SplitText(text[..|text| - 1]), text[|text| - 1];
      if IsBreak(last) then Split(s.ended + [s.open + [last]], "") else Split(s.ended, s.open + [last])
  }

  /** The lines of a text with their breaks kept, as `splitlines` returns them. */
  function Lines(text: string): seq<string> {
    var s := SplitText(text);
    s.ended + if s.open == "" then [] else [s.open]
  }

  predicate IsFinished(line: string) {
    line != "" && line[|line| - 1] == '\n'
  }

  /** The unfinished last line of a text, or nothing. */
  function Unfinished(text: string): string {
    var lines := Lines(text);
    if lines != [] && !IsFinished(lines[|lines| - 1]) then lines[|lines| - 1] else ""
  }

  // ----- Scanning -----

  /** What one line says: the failure it reports, if any. */
  type LineCheck = string -> Option<string>

  /** A report stays the same as its line grows. */
  ghost predicate Persistent(check: LineCheck) {
    forall line, more {:trigger check(line + more)} :: check(line).Some? ==> check(line + more) == check(line)
  }

  /** The text of a line, without its end. */
  predicate IsPlain(line: string) {
    forall c :: c in line ==> !IsBreak(c) && c != '\r'
  }

  /** The extra blank line that a cut CR LF pair yields is silent, or some report came before it. */
  ghost predicate BlankIsHarmless(check: LineCheck) {
    check("\n") == None || forall line {:trigger IsPlain(line)} :: IsPlain(line) ==> check(line + "\n").Some?
  }

  ghost predicate Steady(check: LineCheck) {
    Persistent(check) && BlankIsHarmless(check)
  }

  function FirstHit(check: LineCheck, lines: seq<string>): Option<string> {
    if lines == [] then None
    else if check(lines[0]).Some? then check(lines[0]) else FirstHit(check, lines[1..])
  }

  /** Scanning every line of a text, the unfinished last one included. */
  function Scan(check: LineCheck, text: string): Option<string> {
    FirstHit(check, Lines(text))
  }

  lemma {:induction false} FirstHitOfTwo(check: LineCheck, a: seq<string>, b: seq<string>)
    ensures FirstHit(check, a + b) == if FirstHit(check, a).Some? then FirstHit(check, a) else FirstHit(check, b)
  {
    if a == [] {
      assert a + b == b;
    } else {
      FirstHitOfTwo(check, a[1..], b);
      assert (a + b)[1..] == a[1..] + b;
    }
  }

  // ----- Cutting a text at a line break -----

  lemma {:induction false} SplitAfterBreak(done: string, more: string)
    requires SplitText(done).open == ""
    ensures SplitText(done + more) == Split(SplitText(done).ended + SplitText(more).ended, SplitText(more).open)
  {
    if more == "" {
      assert done + more == done;
    } else {
      var init := more[..|more| - 1];
      SplitAfterBreak(done, init);
      assert (done + more)[..|done + more| - 1] == done + init;
    }
  }

  lemma LinesAfterBreak(done: string, more: string)
    requires SplitText(done).open == ""
    ensures Lines(done + more) == Lines(done) + Lines(more)
  {
    SplitAfterBreak(done, more);
  }

  /** The open part is the end of the text, and what comes before it ends in a break. */
  lemma {:induction false} CutOpen(text: string) returns (done: string)
    ensures text == done + SplitText(text).open
    ensures SplitText(done) == Split(SplitText(text).ended, "")
  {
    if text == "" {
      done := "";
    } else {
      var last := text[|text| - 1];
      done := CutOpen(text[..|text| - 1]);
      if IsBreak(last) {
        done := text;
      }
    }
  }

  lemma LinesOfText(text: string)
    ensures text == "" <==> Lines(text) == []
  {
    if text != "" {
      var done := CutOpen(text[..|text| - 1]);
    }
  }

  /** A text is a part that ends in a break followed by its unfinished line. */
  lemma CutUnfinished(text: string) returns (done: string)
    ensures text == done + Unfinished(text) && SplitText(done).open == ""
  {
    var s := SplitText(text);
    done := CutOpen(text);
    LinesOfText(text);
    if s.open != "" {
      var lines := Lines(text);
      assert lines[|lines| - 1] == s.open;
      OpenIsUnfinished(text);
    } else if text != "" {
      var init, last := text[..|text| - 1], text[|text| - 1];
      var before := CutOpen(init);
      var line := SplitText(init).open + [last];
      assert Lines(text)[|Lines(text)| - 1] == line;
      if !IsFinished(line) {
        done := before;
      }
    }
  }

  lemma {:induction false} OpenIsUnfinished(text: string)
    ensures forall c :: c in SplitText(text).open ==> !IsBreak(c)
  {
    if text != "" {
      OpenIsUnfinished(text[..|text| - 1]);
    }
  }

  /** A text that reports nothing goes on as its unfinished line goes on. */
  lemma ScanContinues(check: LineCheck, text: string, more: string)
    requires Scan(check, text) == None
    ensures Scan(check, text + more) == Scan(check, Unfinished(text) + more)
    ensures Unfinished(text + more) == Unfinished(Unfinished(text) + more)
  {
    var done := CutUnfinished(text);
    var open := Unfinished(text);
    assert text + more == done + (open + more);
    LinesAfterBreak(done, open);
    FirstHitOfTwo(check, Lines(done), Lines(open));
    ScanAfterBreak(check, done, open + more);
    if open + more != "" {
      UnfinishedAfterBreak(done, open + more);
    } else {
      assert text + more == text;
    }
  }

  lemma ScanAfterBreak(check: LineCheck, done: string, rest: string)
    requires SplitText(done).open == ""
    ensures Scan(check, done + rest) ==
            if FirstHit(check, Lines(done)).Some? then FirstHit(check, Lines(done)) else Scan(check, rest)
  {
    LinesAfterBreak(done, rest);
    FirstHitOfTwo(check, Lines(done), Lines(rest));
  }

  lemma UnfinishedAfterBreak(done: string, rest: string)
    requires SplitText(done).open == "" && rest != ""
    ensures Unfinished(done + rest) == Unfinished(rest)
  {
    LinesAfterBreak(done, rest);
    LinesOfText(rest);
    assert Lines(done + rest)[|Lines(done + rest)| - 1] == Lines(rest)[|Lines(rest)| - 1];
  }

  /** A report, once made, is made of every longer text. */
  lemma ScanIsStable(check: LineCheck, text: string, more: string)
    requires Persistent(check) && Scan(check, text).Some?
    ensures Scan(check, text + more) == Scan(check, text)
  {
    var done := CutOpen(text);
    var open := SplitText(text).open;
    LinesAfterBreak(done, open + more);
    assert text + more == done + (open + more);
    FirstHitOfTwo(check, Lines(done), Lines(open + more));
    FirstHitOfTwo(check, Lines(done), if open == "" then [] else [open]);
    assert Lines(text) == Lines(done) + if open == "" then [] else [open];
    if FirstHit(check, Lines(done)).None? {
      FirstLineGrows(open, more);
      OpenIsUnfinished(text);
      assert check(open).Some?;
      var first := Lines(open + more)[0];
      assert first == open + first[|open|..];
    }
  }

  /** The first line of an open line and more text is that line, extended. */
  lemma {:induction false} FirstLineGrows(open: string, more: string)
    ensures open != "" && (forall c :: c in open ==> !IsBreak(c)) ==>
              Lines(open + more) != [] && open <= Lines(open + more)[0]
  {
    if open != "" && (forall c :: c in open ==> !IsBreak(c)) {
      if more == "" {
        assert open + more == open;
        OpenStaysOpen(open);
      } else {
        var init := more[..|more| - 1];
        FirstLineGrows(open, init);
        assert (open + more)[..|open + more| - 1] == open + init;
      }
    }
  }

  lemma {:induction false} OpenStaysOpen(open: string)
    requires forall c :: c in open ==> !IsBreak(c)
    ensures SplitText(open) == Split([], open)
  {
    if open != "" {
      OpenStaysOpen(open[..|open| - 1]);
      assert open == open[..|open| - 1] + [open[|open| - 1]];
    }
  }

  // ----- Reading in chunks -----

  predicate CutsPair(a: string, b: string) {
    a != "" && b != "" && a[|a| - 1] == '\r' && b[0] == '\n'
  }

  lemma {:induction false} JoinWhole(a: string, b: string)
    requires !CutsPair(a, b)
    ensures Translate(a + b) == Translate(a) + Translate(b)
  {
    if b == "" {
      assert a + b == a;
    } else {
      var init := b[..|b| - 1];
      assert (a + b)[..|a + b| - 1] == a + init;
      JoinWhole(a, init);
    }
  }

  lemma {:induction false} JoinCut(a: string, rest: string)
    requires a != "" && a[|a| - 1] == '\r'
    ensures Translate(a + "\n" + rest) == Translate(a) + Translate(rest)
  {
    var whole := a + "\n" + rest;
    if rest == "" {
      assert whole == a + "\n" && whole[..|whole| - 1] == a;
    } else {
      var init := rest[..|rest| - 1];
      assert whole[..|whole| - 1] == a + "\n" + init;
      JoinCut(a, init);
    }
  }

  lemma TranslateJoin(a: string, b: string)
    ensures Translate(a + b) == Translate(a) + Translate(if CutsPair(a, b) then b[1..] else b)
  {
    if CutsPair(a, b) {
      JoinCut(a, b[1..]);
      assert a + b == a + "\n" + b[1..];
    } else {
      JoinWhole(a, b);
    }
  }

  lemma TranslatedEnd(a: string)
    requires a != "" && a[|a| - 1] == '\r'
    ensures SplitText(Translate(a)).open == "" && Translate(a) != "" && Translate(a)[|Translate(a)| - 1] == '\n'
  {
    var t := Translate(a[..|a| - 1]);
    assert (t + "\n")[..|t|] == t;
  }

  lemma LinesOfBlank(rest: string)
    ensures Lines("\n" + rest) == ["\n"] + Lines(rest)
  {
    assert "\n"[..0] == "" && SplitText("") == Split([], "") && "" + "\n" == "\n";
    assert SplitText("\n").ended == ["\n"];
    LinesAfterBreak("\n", rest);
  }

  lemma {:induction false} TranslatedHasNoReturn(raw: string)
    ensures '\r' !in Translate(raw)
  {
    if raw != "" {
      TranslatedHasNoReturn(raw[..|raw| - 1]);
    }
  }

  /** If every ended line reports, a text that ends in a line end reports. */
  lemma EndedTextReports(check: LineCheck, text: string)
    requires forall line {:trigger IsPlain(line)} :: IsPlain(line) ==> check(line + "\n").Some?
    requires text != "" && text[|text| - 1] == '\n' && '\r' !in text
    ensures Scan(check, text).Some?
  {
    var init := text[..|text| - 1];
    var open := SplitText(init).open;
    var done := CutOpen(init);
    OpenIsUnfinished(init);
    forall c | c in open
      ensures c in text
    {
      assert c in done + open;
    }
    assert IsPlain(open);
    FirstHitOfTwo(check, SplitText(init).ended, [open + "\n"]);
    assert Lines(text) == SplitText(init).ended + [open + "\n"];
  }

  lemma BlankIsSilentHere(check: LineCheck, a: string)
    requires BlankIsHarmless(check) && a != "" && a[|a| - 1] == '\r' && Scan(check, Translate(a)) == None
    ensures check("\n") == None
  {
    TranslatedHasNoReturn(a);
    if check("\n").Some? {
      EndedTextReports(check, Translate(a));
    }
  }

  /** Reading a log in two chunks gives the same verdict and the same unfinished line. */
  lemma ChunksAgree(check: LineCheck, a: string, b: string)
    requires BlankIsHarmless(check) && Scan(check, Translate(a)) == None
    ensures Scan(check, Translate(a) + Translate(b)) == Scan(check, Translate(a + b))
    ensures Unfinished(Translate(a) + Translate(b)) == Unfinished(Translate(a + b))
  {
    TranslateJoin(a, b);
    if CutsPair(a, b) {
      TranslatedAfterBlank(b);
      TranslatedEnd(a);
      BlankIsSilentHere(check, a);
      ExtraBlankScans(check, Translate(a), Translate(b[1..]));
      ExtraBlankUnfinished(Translate(a), Translate(b[1..]));
    }
  }

  lemma TranslatedAfterBlank(b: string)
    requires b != "" && b[0] == '\n'
    ensures Translate(b) == "\n" + Translate(b[1..])
  {
    assert "\n" + b[1..] == b;
    TranslateJoin("\n", b[1..]);
    BlankTranslates();
  }

  lemma ExtraBlankScans(check: LineCheck, done: string, rest: string)
    requires check("\n") == None && SplitText(done).open == ""
    ensures Scan(check, done + ("\n" + rest)) == Scan(check, done + rest)
  {
    BlankLineReportsNothing(check, rest);
    ScanAfterBreak(check, done, "\n" + rest);
    ScanAfterBreak(check, done, rest);
  }

  lemma ExtraBlankUnfinished(done: string, rest: string)
    requires SplitText(done).open == "" && done != "" && done[|done| - 1] == '\n'
    ensures Unfinished(done + ("\n" + rest)) == Unfinished(done + rest)
  {
    UnfinishedAfterBlank(rest);
    UnfinishedAfterBreak(done, "\n" + rest);
    UnfinishedAfterFinished(done, rest);
  }

  lemma UnfinishedAfterFinished(done: string, rest: string)
    requires SplitText(done).open == "" && done != "" && done[|done| - 1] == '\n'
    ensures Unfinished(done + rest) == Unfinished(rest)
  {
    if rest == "" {
      FinishedEnd(done);
      assert done + rest == done;
    } else {
      UnfinishedAfterBreak(done, rest);
    }
  }

  lemma BlankLineReportsNothing(check: LineCheck, rest: string)
    requires check("\n") == None
    ensures Scan(check, "\n" + rest) == Scan(check, rest)
  {
    LinesOfBlank(rest);
    FirstHitOfTwo(check, ["\n"], Lines(rest));
  }

  lemma UnfinishedAfterBlank(rest: string)
    ensures Unfinished("\n" + rest) == Unfinished(rest)
  {
    LinesOfBlank(rest);
    LinesOfText(rest);
  }

  lemma FinishedEnd(done: string)
    requires done != "" && done[|done| - 1] == '\n'
    ensures Unfinished(done) == "" && Lines(done) != [] && IsFinished(Lines(done)[|Lines(done)| - 1])
  {
  }

  // ----- The monitor -----

  /** The finished lines of a text, that is all but an unfinished last one. */
  function FinishedLines(text: string): seq<string> {
    var lines := Lines(text);
    if lines != [] && !IsFinished(lines[|lines| - 1]) then lines[..|lines| - 1] else lines
  }

  /** What one check looks at: the finished lines in order, then the unfinished one. */
  function Verdict(check: LineCheck, text: string): Option<string> {
    var hit := FirstHit(check, FinishedLines(text));
    if hit.Some? then hit else check(Unfinished(text))
  }

  datatype Monitor = Monitor(offset: nat, pending: string, failure: Option<string>)

  const FRESH := Monitor(0, "", None)

  /** One check of a log that is missing or has the given content. */
  function Checked(check: LineCheck, m: Monitor, content: Option<string>): Monitor {
    if m.failure.Some? || content.None? then m
    else
      var raw := content.value;
      var from := if |raw| < m.offset then FRESH else m;
      var chunk := Translate(raw[from.offset..]);
      if chunk == "" then from.(offset := |raw|)
      else
        var text := from.pending + chunk;
        Monitor(|raw|, Unfinished(text), Verdict(check, text))
  }

  class RuntimeLogHealthMonitor {
    const check: LineCheck
    var offset: nat
    var pending: string
    var failure: Option<string>

    constructor (check: LineCheck)
      ensures this.check == check && View() == FRESH
    {
      this.check := check;
      offset, pending, failure := 0, "", None;
    }

    function View(): Monitor
      reads this
    {
      Monitor(offset, pending, failure)
    }

    method Check(content: Option<string>) returns (verdict: Option<string>)
      modifies this
      ensures View() == Checked(check, old(View()), content) && verdict == failure
    {
      if failure.Some? {
        return failure;
      }
      if content.None? {
        return None;
      }
      var raw := content.value;
      if |raw| < offset {
        offset, pending := 0, "";
      }
      var chunk := Translate(raw[offset..]);
      offset := |raw|;
      if chunk == "" {
        return None;
      }
      var text := pending + chunk;
      var lines := Lines(text);
      pending := "";
      if lines != [] && !IsFinished(lines[|lines| - 1]) {
        pending := lines[|lines| - 1];
        lines := lines[..|lines| - 1];
      }
      failure := ReportOf(check, lines);
      if failure.None? {
        failure := check(pending);
      }
      return failure;
    }
  }

  method ReportOf(check: LineCheck, lines: seq<string>) returns (report: Option<string>)
    ensures report == FirstHit(check, lines)
  {
    for k := 0 to |lines|
      invariant FirstHit(check, lines) == FirstHit(check, lines[k..])
    {
      if check(lines[k]).Some? {
        return check(lines[k]);
      }
    }
    return None;
  }

  /** Scanning the finished lines and then the unfinished one is scanning the text. */
  lemma ScanByParts(check: LineCheck, text: string)
    requires Persistent(check) && text != ""
    ensures Verdict(check, text) == Scan(check, text)
  {
    var lines, open := FinishedLines(text), Unfinished(text);
    LinesOfText(text);
    if Lines(text) == lines {
      EmptyReportsLess(check, lines[0]);
    } else {
      assert Lines(text) == lines + [open];
      FirstHitOfTwo(check, lines, [open]);
    }
  }

  lemma EmptyReportsLess(check: LineCheck, line: string)
    requires Persistent(check)
    ensures check("").Some? ==> check(line).Some?
  {
    assert "" + line == line;
    assert check("").Some? ==> check("" + line) == check("");
  }

  // ----- Whole runs -----

  /** The log grows by appending, or it is checked; it does not exist before the first append. */
  datatype Event = Append(text: string) | Look

  datatype World = World(log: Option<string>, monitor: Monitor)

  function After(check: LineCheck, events: seq<Event>): World {
    if events == [] then World(None, FRESH)
    else Happens(check, After(check, events[..|events| - 1]), events[|events| - 1])
  }

  function Happens(check: LineCheck, w: World, event: Event): World {
    match event
    case Append(text) => w.(log := Some(if w.log.Some? then w.log.value + text else text))
    case Look => w.(monitor := Checked(check, w.monitor, w.log))
  }

  /** What the monitor knows of the part of the log it has read. */
  ghost predicate Knows(check: LineCheck, m: Monitor, seen: string) {
    && m.offset == |seen| && m.failure == Scan(check, Translate(seen))
    && (m.failure.None? ==> m.pending == Unfinished(Translate(seen)))
  }

  lemma CheckLearns(check: LineCheck, m: Monitor, seen: string, more: string)
    requires Steady(check) && Knows(check, m, seen) && m.failure.None?
    ensures Knows(check, Checked(check, m, Some(seen + more)), seen + more)
  {
    assert (seen + more)[|seen|..] == more;
    var old', new' := Translate(seen), Translate(more);
    ScanContinues(check, old', new');
    ChunksAgree(check, seen, more);
    if new' == "" {
      assert old' + new' == old';
    } else {
      ScanByParts(check, m.pending + new');
    }
  }

  lemma ReportPersists(check: LineCheck, m: Monitor, seen: string, more: string)
    requires Steady(check) && Knows(check, m, seen) && m.failure.Some?
    ensures Scan(check, Translate(seen + more)) == m.failure
  {
    TranslateJoin(seen, more);
    ScanIsStable(check, Translate(seen), Translate(if CutsPair(seen, more) then more[1..] else more));
  }

  ghost predicate Faithful(check: LineCheck, w: World) {
    if w.log.None? then w.monitor == FRESH
    else w.monitor.offset <= |w.log.value| && Knows(check, w.monitor, w.log.value[..w.monitor.offset])
  }

  lemma NothingKnown(check: LineCheck)
    ensures Knows(check, FRESH, "")
  {
  }

  lemma AppendKeepsFaith(check: LineCheck, w: World, text: string)
    requires Faithful(check, w)
    ensures Faithful(check, w.(log := Some(if w.log.Some? then w.log.value + text else text)))
  {
    if w.log.Some? {
      assert (w.log.value + text)[..w.monitor.offset] == w.log.value[..w.monitor.offset];
    } else {
      NothingKnown(check);
    }
  }

  lemma LookKeepsFaith(check: LineCheck, w: World)
    requires Steady(check) && Faithful(check, w)
    ensures Faithful(check, w.(monitor := Checked(check, w.monitor, w.log)))
  {
    if w.log.Some? && w.monitor.failure.None? {
      var n := w.monitor.offset;
      assert w.log.value == w.log.value[..n] + w.log.value[n..];
      CheckLearns(check, w.monitor, w.log.value[..n], w.log.value[n..]);
      assert w.log.value[..|w.log.value|] == w.log.value;
    }
  }

  lemma {:induction false} RunIsFaithful(check: LineCheck, events: seq<Event>)
    requires Steady(check)
    ensures Faithful(check, After(check, events))
  {
    if events != [] {
      var w := After(check, events[..|events| - 1]);
      RunIsFaithful(check, events[..|events| - 1]);
      match events[|events| - 1]
      case Append(text) => AppendKeepsFaith(check, w, text);
      case Look => LookKeepsFaith(check, w);
    }
  }

  /**
   However appends and checks interleave, a check reports what scanning every line of the whole
   log would report at that moment.
   */
  lemma IncrementalVerdictIsWholeVerdict(check: LineCheck, events: seq<Event>)
    requires Steady(check)
    ensures var w := After(check, events + [Look]);
            w.monitor.failure == if w.log.None? then None else Scan(check, Translate(w.log.value))
  {
    var all := events + [Look];
    assert all[..|all| - 1] == events;
    RunIsFaithful(check, events);
    var w := After(check, events);
    if w.log.Some? {
      var n := w.monitor.offset;
      assert w.log.value == w.log.value[..n] + w.log.value[n..];
      if w.monitor.failure.None? {
        CheckLearns(check, w.monitor, w.log.value[..n], w.log.value[n..]);
      } else {
        ReportPersists(check, w.monitor, w.log.value[..n], w.log.value[n..]);
      }
    }
  }

  /** After any appends and checks, one more check reports what a scan of the whole log would. */
  ghost predicate Agrees(check: LineCheck, events: seq<Event>) {
    var w := After(check, events + [Look]);
    w.monitor.failure == if w.log.None? then None else Scan(check, Translate(w.log.value))
  }

  /** A cut CR LF pair: the second read sees a blank line that the log does not hold. */
  function CutPair(line: string): seq<Event> {
    [Append(line + "\r"), Look, Append("\n")]
  }

  lemma TranslatedPair(line: string)
    requires IsPlain(line)
    ensures Translate(line + "\r") == line + "\n" && Translate(line + "\r" + "\n") == line + "\n"
  {
    PlainStays(line);
    var cut := line + "\r";
    assert cut[..|line|] == line;
    assert (cut + "\n")[..|cut|] == cut;
  }

  lemma PlainLine(line: string)
    requires IsPlain(line)
    ensures Lines(line + "\n") == [line + "\n"] && Unfinished(line + "\n") == ""
  {
    OpenStaysOpen(line);
    assert (line + "\n")[..|line|] == line;
    assert SplitText(line + "\n").ended == [] + [line + "\n"];
  }

  lemma ScanOfLine(check: LineCheck, line: string)
    requires Lines(line) == [line]
    ensures Scan(check, line) == check(line)
  {
    assert [line][1..] == [];
    assert FirstHit(check, [line][1..]) == None;
  }

  lemma {:induction false} PlainStays(line: string)
    requires IsPlain(line)
    ensures Translate(line) == line
  {
    if line != "" {
      PlainStays(line[..|line| - 1]);
      assert line[|line| - 1] in line;
      assert line == line[..|line| - 1] + [line[|line| - 1]];
    }
  }

  /** A check of a log that grew by some text. */
  lemma CheckedMore(check: LineCheck, m: Monitor, raw: string, chunk: string)
    requires Persistent(check) && m.failure.None? && m.offset <= |raw|
    requires Translate(raw[m.offset..]) == chunk && chunk != ""
    ensures Checked(check, m, Some(raw)) ==
            Monitor(|raw|, Unfinished(m.pending + chunk), Scan(check, m.pending + chunk))
  {
    ScanByParts(check, m.pending + chunk);
  }

  /** The first check of the cut pair: everything read, nothing found. */
  lemma FirstHalf(check: LineCheck, line: string)
    requires Persistent(check) && IsPlain(line) && check(line + "\n") == None
    ensures Checked(check, FRESH, Some(line + "\r")) == Monitor(|line| + 1, "", None)
  {
    var raw := line + "\r";
    assert raw[0..] == raw && "" + (line + "\n") == line + "\n";
    TranslatedPair(line);
    PlainLine(line);
    ScanOfLine(check, line + "\n");
    CheckedMore(check, FRESH, raw, line + "\n");
  }

  lemma SecondHalf(check: LineCheck, line: string)
    requires Persistent(check)
    ensures Checked(check, Monitor(|line| + 1, "", None), Some(line + "\r" + "\n")).failure == check("\n")
  {
    var raw := line + "\r" + "\n";
    assert raw[|line| + 1..] == "\n";
    BlankChecked(check, Monitor(|line| + 1, "", None), raw, "\n");
  }

  lemma BlankChecked(check: LineCheck, m: Monitor, raw: string, blank: string)
    requires Persistent(check) && blank == "\n" && m.failure.None? && m.pending == "" && m.offset <= |raw|
    requires raw[m.offset..] == blank
    ensures Checked(check, m, Some(raw)).failure == check(blank)
  {
    BlankTranslates();
    CheckedMore(check, m, raw, blank);
    PlainLine("");
    assert "" + blank == blank;
    ScanOfLine(check, blank);
  }

  lemma BlankTranslates()
    ensures Translate("\n") == "\n"
  {
    assert "\n"[..0] == "" && Translate("") == "";
  }

  lemma OneMoreEvent(check: LineCheck, events: seq<Event>, event: Event)
    ensures After(check, events + [event]) == Happens(check, After(check, events), event)
  {
    assert (events + [event])[..|events|] == events;
  }

  lemma FirstHalfRun(check: LineCheck, line: string)
    requires Persistent(check) && IsPlain(line) && check(line + "\n") == None
    ensures After(check, [Append(line + "\r")] + [Look]) == World(Some(line + "\r"), Monitor(|line| + 1, "", None))
  {
    FirstHalf(check, line);
    OneMoreEvent(check, [], Append(line + "\r"));
    assert [] + [Append(line + "\r")] == [Append(line + "\r")];
    OneMoreEvent(check, [Append(line + "\r")], Look);
  }

  lemma CutPairRun(check: LineCheck, line: string)
    requires Persistent(check) && IsPlain(line) && check(line + "\n") == None
    ensures var w := After(check, CutPair(line) + [Look]);
            w.log == Some(line + "\r" + "\n") && w.monitor.failure == check("\n")
  {
    var half := [Append(line + "\r")] + [Look];
    FirstHalfRun(check, line);
    SecondHalf(check, line);
    OneMoreEvent(check, half, Append("\n"));
    assert CutPair(line) == half + [Append("\n")];
    OneMoreEvent(check, CutPair(line), Look);
  }

  lemma CutPairDisagrees(check: LineCheck, line: string)
    requires Persistent(check) && check("\n").Some? && IsPlain(line) && check(line + "\n") == None
    ensures !Agrees(check, CutPair(line))
  {
    CutPairRun(check, line);
    TranslatedPair(line);
    PlainLine(line);
    ScanOfLine(check, line + "\n");
  }

  /**
   For a check whose reports persist as a line grows, the incremental verdict is the whole
   verdict in every run if and only if the blank line of a cut CR LF pair is harmless.
   */
  lemma AgreesExactlyWhenBlankIsHarmless(check: LineCheck)
    requires Persistent(check)
    ensures (forall events :: Agrees(check, events)) <==> BlankIsHarmless(check)
  {
    if BlankIsHarmless(check) {
      forall events
        ensures Agrees(check, events)
      {
        IncrementalVerdictIsWholeVerdict(check, events);
      }
    } else {
      var line :| IsPlain(line) && check(line + "\n") == None;
      CutPairDisagrees(check, line);
    }
  }

  /** Such a check exists: one that reports blank lines. */
  lemma BlankLineReporterDisagrees()
    ensures var check: LineCheck := line => if line != "" && line[0] == '\n' then Some("blank line") else None;
            Persistent(check) && !Agrees(check, CutPair("a"))
  {
    var check: LineCheck := line => if line != "" && line[0] == '\n' then Some("blank line") else None;
    CutPairDisagrees(check, "a");
  }

  /** A log that was replaced by a shorter one is read again from its start. */
  lemma ShorterLogIsReread(check: LineCheck, m: Monitor, raw: string)
    requires Steady(check) && m.failure.None? && |raw| < m.offset
    ensures Knows(check, Checked(check, m, Some(raw)), raw)
  {
    NothingKnown(check);
    assert "" + raw == raw;
    CheckLearns(check, FRESH, "", raw);
  }
}
