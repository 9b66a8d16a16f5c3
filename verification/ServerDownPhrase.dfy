/**
 Which lines are reported, said of their characters: those that hold the phrase
 "CRITICAL FAILURE: SERVER name IS DOWN" in any mixture of cases, and under the name that the
 leftmost such phrase gives.
 */
module ServerDownPhrase {
  import opened Options
  import opened RuntimeLog
  import opened ServerDownPattern

  // ----- The phrase in plain characters -----

  /** A capital letter in either case, or one of the four other letters that ignoring case identifies with it. */
  predicate Echoes(c: char, capital: char) {
    || c == capital
    || ('A' <= capital <= 'Z' && c as int == capital as int + 32)
    || (capital == 'I' && (c as int == 0x130 || c as int == 0x131))
    || (capital == 'S' && c as int == 0x17F)
    || (capital == 'K' && c as int == 0x212A)
  }

  predicate EchoesAll(s: string, capitals: string) {
    |s| == |capitals| && forall i :: 0 <= i < |s| ==> Echoes(s[i], capitals[i])
  }

  predicate IsSpace(c: char) {
    var n := c as int;
    || 9 <= n <= 13 || 28 <= n <= 32 || n == 133 || n == 160 || n == 5760 || 8192 <= n <= 8202
    || n == 8232 || n == 8233 || n == 8239 || n == 8287 || n == 12288
  }

  predicate IsNameCharacter(c: char) {
    || 'A' <= c <= 'Z' || 'a' <= c <= 'z' || '0' <= c <= '9' || c == '_' || c == '/' || c == '-'
    || c as int == 0x130 || c as int == 0x131 || c as int == 0x17F || c as int == 0x212A
  }

  predicate AllSpace(s: string) {
    forall i :: 0 <= i < |s| ==> IsSpace(s[i])
  }

  predicate IsName(s: string) {
    s != "" && forall i :: 0 <= i < |s| ==> IsNameCharacter(s[i])
  }

  /** The words of the phrase, with the space between them and the server's name in the middle. */
  datatype Phrase = Phrase(
    critical: string, gap: string, server: string, before: string, name: string, after: string, down: string)
  {
    predicate Valid() {
      && EchoesAll(critical, "CRITICAL FAILURE:") && AllSpace(gap) && EchoesAll(server, "SERVER")
      && before != "" && AllSpace(before) && IsName(name) && after != "" && AllSpace(after)
      && EchoesAll(down, "IS DOWN")
    }

    function Text(): string {
      critical + (gap + (server + (before + (name + (after + down)))))
    }

    function Parts(): (parts: seq<string>)
      ensures |parts| == 7
    {
      [critical, gap, server, before, name, after, down]
    }
  }

  // ----- The pattern accepts exactly these -----

  lemma FoldEchoes(c: char, capital: char)
    requires 'A' <= capital <= 'Z'
    ensures Fold(c) as int == capital as int + 32 <==> Echoes(c, capital)
  {
  }

  lemma FoldKeeps(c: char, other: char)
    requires other == ' ' || other == ':'
    ensures Fold(c) == other <==> Echoes(c, other)
  {
  }

  /** The lower-case text a piece is written with belongs to these capitals. */
  predicate IsLowerOf(text: string, capitals: string) {
    |text| == |capitals| && forall i :: 0 <= i < |text| ==>
      if 'A' <= capitals[i] <= 'Z' then text[i] as int == capitals[i] as int + 32
      else text[i] == capitals[i] && (capitals[i] == ' ' || capitals[i] == ':')
  }

  lemma WordEchoes(text: string, capitals: string, s: string)
    requires IsLowerOf(text, capitals)
    ensures Word(text).Accepts(s) <==> EchoesAll(s, capitals)
  {
    if |s| == |capitals| {
      forall i | 0 <= i < |s|
        ensures Fold(s[i]) == text[i] <==> Echoes(s[i], capitals[i])
      {
        if 'A' <= capitals[i] <= 'Z' {
          FoldEchoes(s[i], capitals[i]);
        } else {
          FoldKeeps(s[i], capitals[i]);
        }
      }
    }
  }

  lemma SpaceIs(c: char)
    ensures Kind.Space.Has(c) <==> IsSpace(c)
  {
  }

  lemma NameIs(c: char)
    ensures Kind.Name.Has(c) <==> IsNameCharacter(c)
  {
  }

  lemma SpanIs(s: string, atLeast: nat)
    ensures Span(Space, atLeast).Accepts(s) <==> |s| >= atLeast && AllSpace(s)
    ensures Span(Name, 1).Accepts(s) <==> IsName(s)
  {
    forall i | 0 <= i < |s|
      ensures (Kind.Space.Has(s[i]) <==> IsSpace(s[i])) && (Kind.Name.Has(s[i]) <==> IsNameCharacter(s[i]))
    {
      SpaceIs(s[i]);
      NameIs(s[i]);
    }
  }

  lemma WordTexts()
    ensures IsLowerOf("critical failure:", "CRITICAL FAILURE:")
    ensures IsLowerOf("server", "SERVER")
    ensures IsLowerOf("is down", "IS DOWN")
  {
  }

  lemma PieceTexts()
    ensures |PATTERN| == 7
    ensures PATTERN[0].Word? && IsLowerOf(PATTERN[0].text, "CRITICAL FAILURE:") && PATTERN[1] == Span(Space, 0)
    ensures PATTERN[2].Word? && IsLowerOf(PATTERN[2].text, "SERVER") && PATTERN[3] == Span(Space, 1)
    ensures PATTERN[4] == Span(Name, 1) && PATTERN[5] == Span(Space, 1)
    ensures PATTERN[6].Word? && IsLowerOf(PATTERN[6].text, "IS DOWN")
  {
    WordTexts();
    assert PATTERN[0] == Word("critical failure:") && PATTERN[2] == Word("server") && PATTERN[6] == Word("is down");
  }

  lemma PhraseFits(p: Phrase)
    ensures p.Valid() <==> Fits(PATTERN, p.Parts())
  {
    PieceTexts();
    WordEchoes(PATTERN[0].text, "CRITICAL FAILURE:", p.critical);
    SpanIs(p.gap, 0);
    WordEchoes(PATTERN[2].text, "SERVER", p.server);
    SpanIs(p.before, 1);
    SpanIs(p.name, 1);
    SpanIs(p.after, 1);
    WordEchoes(PATTERN[6].text, "IS DOWN", p.down);
    var parts := p.Parts();
    assert parts[0] == p.critical && parts[1] == p.gap && parts[2] == p.server && parts[3] == p.before;
    assert parts[4] == p.name && parts[5] == p.after && parts[6] == p.down;
  }

  lemma PhraseText(p: Phrase)
    ensures Concat(p.Parts()) == p.Text()
  {
    var parts := p.Parts();
    assert parts[7..] == [];
    assert Concat(parts[6..]) == p.down + Concat(parts[7..]) == p.down;
    ConcatFrom(parts, 5);
    ConcatFrom(parts, 4);
    ConcatFrom(parts, 3);
    ConcatFrom(parts, 2);
    ConcatFrom(parts, 1);
    ConcatFrom(parts, 0);
    assert parts[0..] == parts;
  }

  lemma ConcatFrom(parts: seq<string>, i: nat)
    requires i < |parts|
    ensures Concat(parts[i..]) == parts[i] + Concat(parts[i + 1..])
  {
    assert parts[i..][1..] == parts[i + 1..];
  }

  // ----- Where a phrase stands in a line -----

  ghost predicate StandsAt(line: string, k: nat, p: Phrase) {
    k <= |line| && p.Valid() && p.Text() <= line[k..]
  }

  /** The phrase stands at `k`, and none stands before it. */
  ghost predicate StandsFirst(line: string, k: nat, p: Phrase) {
    StandsAt(line, k, p) && forall i: nat, q :: i < k ==> !StandsAt(line, i, q)
  }

  ghost predicate HoldsPhrase(line: string) {
    exists k: nat, p :: StandsAt(line, k, p)
  }

  /** Parsing succeeds where a phrase stands, and gives its parts; and only there. */
  lemma ParsedWhereItStands(s: string, p: Phrase)
    requires p.Valid() && p.Text() <= s
    ensures Parse(PATTERN, s) == Some(p.Parts())
  {
    PhraseFits(p);
    PhraseText(p);
    PatternIsUnambiguous();
    MatchInside(PATTERN, s, p.Parts());
  }

  lemma StandsWhereParsed(s: string) returns (p: Phrase)
    requires Parse(PATTERN, s).Some?
    ensures p.Valid() && p.Text() <= s && Parse(PATTERN, s) == Some(p.Parts())
  {
    ParseIsSound(PATTERN, s);
    PieceTexts();
    var parts := Parse(PATTERN, s).value;
    p := Phrase(parts[0], parts[1], parts[2], parts[3], parts[4], parts[5], parts[6]);
    assert p.Parts() == parts;
    PhraseFits(p);
    PhraseText(p);
  }

  lemma {:induction false} FirstMatchIsFirst(line: string, k: nat, p: Phrase)
    requires StandsFirst(line, k, p)
    ensures FirstMatch(PATTERN, line) == Some(p.Parts())
    decreases k
  {
    assert line[0..] == line;
    if k == 0 {
      ParsedWhereItStands(line, p);
    } else {
      NothingStandsHere(line, k, p);
      var rest := line[1..];
      assert line[k..] == rest[k - 1..];
      forall i: nat, q | i < k - 1
        ensures !StandsAt(rest, i, q)
      {
        assert rest[i..] == line[i + 1..];
        assert !StandsAt(line, i + 1, q);
      }
      assert StandsFirst(rest, k - 1, p);
      FirstMatchIsFirst(rest, k - 1, p);
    }
  }

  lemma NothingStandsHere(line: string, k: nat, p: Phrase)
    requires StandsFirst(line, k, p) && k > 0
    ensures Parse(PATTERN, line).None? && line != ""
  {
    if Parse(PATTERN, line).Some? {
      var q := StandsWhereParsed(line);
      assert line[0..] == line;
      assert StandsAt(line, 0, q);
    }
    assert p.Text() != "";
  }

  lemma {:induction false} FirstMatchStands(line: string) returns (k: nat, p: Phrase)
    requires FirstMatch(PATTERN, line).Some?
    ensures StandsFirst(line, k, p) && FirstMatch(PATTERN, line) == Some(p.Parts())
    decreases |line|
  {
    assert line[0..] == line;
    if Parse(PATTERN, line).Some? {
      k := 0;
      p := StandsWhereParsed(line);
    } else {
      k, p := FirstMatchStands(line[1..]);
      assert line[1..][k..] == line[k + 1..];
      forall i: nat, q | i < k + 1
        ensures !StandsAt(line, i, q)
      {
        NotBefore(line, k, i, q, p);
      }
      k := k + 1;
    }
  }

  lemma NotBefore(line: string, k: nat, i: nat, q: Phrase, p: Phrase)
    requires line != "" && Parse(PATTERN, line).None? && i < k + 1 && StandsFirst(line[1..], k, p)
    ensures !StandsAt(line, i, q)
  {
    if i > 0 {
      StandsInRest(line, i, q);
    } else if StandsAt(line, 0, q) {
      ParsedAtStart(line, q);
    }
  }

  lemma ParsedAtStart(line: string, q: Phrase)
    requires StandsAt(line, 0, q)
    ensures Parse(PATTERN, line).Some?
  {
    assert line[0..] == line;
    ParsedWhereItStands(line, q);
  }

  lemma StandsInRest(line: string, i: nat, q: Phrase)
    requires i > 0 && line != ""
    ensures StandsAt(line, i, q) <==> StandsAt(line[1..], i - 1, q)
  {
    if i <= |line| {
      assert line[i..] == line[1..][i - 1..];
    }
  }

  // ----- What is reported -----

  /** A line reports the server that its leftmost phrase names, whatever stands around it. */
  lemma LeftmostPhraseIsReported(line: string, k: nat, p: Phrase)
    requires StandsFirst(line, k, p)
    ensures ServerDown(line) == Some(Message(p.name))
  {
    FirstMatchIsFirst(line, k, p);
    assert p.Parts()[4] == p.name;
  }

  /** A line is reported if and only if a phrase stands in it, and then under the leftmost one's name. */
  lemma ReportedExactlyForPhrases(line: string)
    ensures ServerDown(line).Some? <==> HoldsPhrase(line)
    ensures ServerDown(line).Some? ==>
              exists k: nat, p :: StandsFirst(line, k, p) && ServerDown(line) == Some(Message(p.name))
  {
    if ServerDown(line).Some? {
      var k, p := FirstMatchStands(line);
      LeftmostPhraseIsReported(line, k, p);
      assert StandsAt(line, k, p);
    }
    if HoldsPhrase(line) {
      var k: nat, p :| StandsAt(line, k, p);
      var j, q := SomePhraseIsFirst(line, k, p);
      LeftmostPhraseIsReported(line, j, q);
    }
  }

  lemma {:induction false} SomePhraseIsFirst(line: string, k: nat, p: Phrase) returns (j: nat, q: Phrase)
    requires StandsAt(line, k, p)
    ensures StandsFirst(line, j, q)
    decreases k
  {
    j, q := k, p;
    if i: nat, r :| i < k && StandsAt(line, i, r) {
      j, q := SomePhraseIsFirst(line, i, r);
    }
  }

  /** With no colon before it, a phrase is the leftmost. */
  lemma NoColonBefore(before: string, p: Phrase, after: string)
    requires ':' !in before && p.Valid()
    ensures StandsFirst(before + p.Text() + after, |before|, p)
  {
    var line := before + p.Text() + after;
    assert line[|before|..] == p.Text() + after;
    ColonEndsFirstWord(p);
    forall i: nat, q | i < |before|
      ensures !StandsAt(line, i, q)
    {
      NoColonAt(before, p.Text(), after, i);
      if StandsAt(line, i, q) {
        StandingHasColon(line, i, q);
      }
    }
  }

  lemma StandingHasColon(line: string, i: nat, q: Phrase)
    requires StandsAt(line, i, q)
    ensures i + 16 < |line| && line[i + 16] == ':'
  {
    ColonEndsFirstWord(q);
    assert line[i + 16] == line[i..][16];
  }

  lemma NoColonAt(before: string, text: string, after: string, i: nat)
    requires ':' !in before && i < |before| && |text| > 16 && forall j :: 0 <= j < 16 ==> text[j] != ':'
    ensures (before + text + after)[i + 16] != ':'
  {
    var line := before + text + after;
    if i + 16 < |before| {
      assert line[i + 16] == before[i + 16];
    } else {
      assert line[i + 16] == text[i + 16 - |before|];
    }
  }

  lemma ColonEndsFirstWord(p: Phrase)
    requires p.Valid()
    ensures |p.Text()| > 16 && p.Text()[16] == ':' && forall j :: 0 <= j < 16 ==> p.Text()[j] != ':'
  {
    var capitals := "CRITICAL FAILURE:";
    assert capitals[16] == ':' && forall j :: 0 <= j < 16 ==> capitals[j] == ' ' || 'A' <= capitals[j] <= 'Z';
    assert forall j :: 0 <= j < 17 ==> p.Text()[j] == p.critical[j];
  }

  /** The message in plain capitals, between any text without a colon and any text at all. */
  lemma PlainMessageIsReported(before: string, name: string, after: string)
    requires ':' !in before && IsName(name)
    ensures ServerDown(before + ("CRITICAL FAILURE: SERVER " + name + " IS DOWN") + after) == Some(Message(name))
  {
    var p := Phrase("CRITICAL FAILURE:", " ", "SERVER", " ", name, " ", "IS DOWN");
    assert p.Valid();
    assert p.Text() == "CRITICAL FAILURE: SERVER " + name + " IS DOWN" by {
      assert "CRITICAL FAILURE:" + (" " + ("SERVER" + " ")) == "CRITICAL FAILURE: SERVER ";
      assert " " + "IS DOWN" == " IS DOWN";
    }
    NoColonBefore(before, p, after);
    LeftmostPhraseIsReported(before + p.Text() + after, |before|, p);
  }

  /** Different servers are reported differently. */
  lemma MessageNamesServer(a: string, b: string)
    requires Message(a) == Message(b)
    ensures a == b
  {
    var head := "nav2_runtime_unhealthy: lifecycle manager shut down server=";
    var tail := "; inspect resource_samples.jsonl and runtime.log";
    assert |a| == |b|;
    assert a == Message(a)[|head|..|head| + |a|] && b == Message(b)[|head|..|head| + |b|];
  }

  // ----- What the monitor reports -----

  lemma {:induction false} HitIsFirstReport(check: LineCheck, lines: seq<string>)
    ensures FirstHit(check, lines).Some? <==> exists k :: 0 <= k < |lines| && check(lines[k]).Some?
    ensures FirstHit(check, lines).Some? ==>
              exists k :: 0 <= k < |lines| && check(lines[k]) == FirstHit(check, lines)
                          && forall j :: 0 <= j < k ==> check(lines[j]).None?
  {
    if lines != [] && check(lines[0]).None? {
      HitIsFirstReport(check, lines[1..]);
      if FirstHit(check, lines[1..]).Some? {
        var k :| 0 <= k < |lines[1..]| && check(lines[1..][k]) == FirstHit(check, lines[1..])
                 && forall j :: 0 <= j < k ==> check(lines[1..][j]).None?;
        assert lines[k + 1] == lines[1..][k];
        assert forall j :: 1 <= j < k + 1 ==> lines[j] == lines[1..][j - 1];
      } else {
        assert forall k :: 1 <= k < |lines| ==> lines[k] == lines[1..][k - 1];
      }
    }
  }

  ghost predicate LogHoldsPhrase(log: string) {
    exists k :: 0 <= k < |Lines(Translate(log))| && HoldsPhrase(Lines(Translate(log))[k])
  }

  /**
   After any interleaving of appends and checks, a check reports a failure if and only if some line
   of the log holds the phrase, an unterminated last line included, and it names the first of them.
   */
  lemma MonitorReportsExactlyPhrases(events: seq<Event>)
    ensures var w := After(ServerDown, events + [Look]);
            && (w.monitor.failure.Some? <==> w.log.Some? && LogHoldsPhrase(w.log.value))
            && (w.monitor.failure.Some? ==> NamesFirst(Lines(Translate(w.log.value)), w.monitor.failure.value))
  {
    var w := After(ServerDown, events + [Look]);
    MonitorAgreesWithRescan(events);
    if w.log.Some? {
      LinesReportPhrases(Lines(Translate(w.log.value)));
    }
  }

  /** The message names the server of the leftmost phrase in the first line that holds one. */
  ghost predicate NamesFirst(lines: seq<string>, message: string) {
    exists k, j: nat, p ::
      && 0 <= k < |lines| && StandsFirst(lines[k], j, p) && message == Message(p.name)
      && forall i :: 0 <= i < k ==> !HoldsPhrase(lines[i])
  }

  lemma LinesReportPhrases(lines: seq<string>)
    ensures FirstHit(ServerDown, lines).Some? <==> exists k :: 0 <= k < |lines| && HoldsPhrase(lines[k])
    ensures FirstHit(ServerDown, lines).Some? ==> NamesFirst(lines, FirstHit(ServerDown, lines).value)
  {
    HitIsFirstReport(ServerDown, lines);
    forall k | 0 <= k < |lines|
      ensures ServerDown(lines[k]).Some? <==> HoldsPhrase(lines[k])
    {
      ReportedExactlyForPhrases(lines[k]);
    }
    if FirstHit(ServerDown, lines).Some? {
      var k :| 0 <= k < |lines| && ServerDown(lines[k]) == FirstHit(ServerDown, lines)
               && forall j :: 0 <= j < k ==> ServerDown(lines[j]).None?;
      FirstLineIsNamed(lines, k);
    }
  }

  lemma FirstLineIsNamed(lines: seq<string>, k: nat)
    requires k < |lines| && ServerDown(lines[k]).Some? && forall i :: 0 <= i < k ==> ServerDown(lines[i]).None?
    ensures NamesFirst(lines, ServerDown(lines[k]).value)
  {
    ReportedExactlyForPhrases(lines[k]);
    var j: nat, p :| StandsFirst(lines[k], j, p) && ServerDown(lines[k]) == Some(Message(p.name));
    forall i | 0 <= i < k
      ensures !HoldsPhrase(lines[i])
    {
      ReportedExactlyForPhrases(lines[i]);
    }
  }
}
