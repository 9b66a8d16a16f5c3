/**
 The line pattern for a server that the lifecycle manager declared down:
 "CRITICAL FAILURE:", optional space, "SERVER", space, a name, space, "IS DOWN", ignoring case.

 A pattern is a list of pieces. Its meaning allows any way of cutting the text into pieces; the
 matcher takes each piece greedily, which finds the same matches because no piece can begin with
 a character that the run before it would have taken.
 */
module ServerDownPattern {
  import opened Options
  import opened RuntimeLog

  // ----- Characters -----

  /** Lower case, with the four non-ASCII characters that ignoring case also identifies. */
  function Fold(c: char): char {
    if 'A' <= c <= 'Z' then ((c as int) + 32) as char
    else if c == '\U{0130}' || c == '\U{0131}' then 'i'
    else if c == '\U{017F}' then 's'
    else if c == '\U{212A}' then 'k'
    else c
  }

  datatype Kind = Space | Name {
    predicate Has(c: char) {
      match this
      case Space =>
        || '\U{0009}' <= c <= '\U{000D}' || '\U{001C}' <= c <= '\U{0020}' || c == '\U{0085}' || c == '\U{00A0}'
        || c == '\U{1680}' || '\U{2000}' <= c <= '\U{200A}' || c == '\U{2028}' || c == '\U{2029}'
        || c == '\U{202F}' || c == '\U{205F}' || c == '\U{3000}'
      case Name =>
        'a' <= Fold(c) <= 'z' || '0' <= c <= '9' || c == '_' || c == '/' || c == '-'
    }
  }

  // ----- Patterns and what they mean -----

  /** A word, ignoring case; or a run of at least so many characters of a kind. */
  datatype Piece = Word(text: string) | Span(kind: Kind, atLeast: nat) {
    predicate Accepts(s: string) {
      match this
      case Word(text) => |s| == |text| && forall i :: 0 <= i < |s| ==> Fold(s[i]) == text[i]
      case Span(kind, atLeast) => |s| >= atLeast && forall i :: 0 <= i < |s| ==> kind.Has(s[i])
    }
  }

  /** The parts, one per piece, each accepted by its piece. */
  ghost predicate Fits(ps: seq<Piece>, parts: seq<string>) {
    |parts| == |ps| && forall i :: 0 <= i < |ps| ==> ps[i].Accepts(parts[i])
  }

  function Concat(parts: seq<string>): string {
    if parts == [] then "" else parts[0] + Concat(parts[1..])
  }

  // ----- Greedy matching -----

  /** The length of the longest prefix of the kind. */
  function Run(kind: Kind, s: string): (n: nat)
    ensures n <= |s| && (forall i :: 0 <= i < n ==> kind.Has(s[i])) && (n < |s| ==> !kind.Has(s[n]))
  {
    if s == "" || !kind.Has(s[0]) then 0 else 1 + Run(kind, s[1..])
  }

  function Take(p: Piece, s: string): (n: Option<nat>)
    ensures n.Some? ==> n.value <= |s| && p.Accepts(s[..n.value])
  {
    match p
    case Word(text) => if |text| <= |s| && p.Accepts(s[..|text|]) then Some(|text|) else None
    case Span(kind, atLeast) => if Run(kind, s) >= atLeast then Some(Run(kind, s)) else None
  }

  function Parse(ps: seq<Piece>, s: string): Option<seq<string>> {
    if ps == [] then Some([])
    else
      var n := Take(ps[0], s);
      if n.None? then None
      else
        var rest := Parse(ps[1..], s[n.value..]);
        if rest.None? then None else Some([s[..n.value]] + rest.value)
  }

  /** The leftmost match. */
  function FirstMatch(ps: seq<Piece>, s: string): Option<seq<string>>
    decreases |s|
  {
    if Parse(ps, s).Some? then Parse(ps, s) else if s == "" then None else FirstMatch(ps, s[1..])
  }

  lemma {:induction false} ParseIsSound(ps: seq<Piece>, s: string)
    requires Parse(ps, s).Some?
    ensures Fits(ps, Parse(ps, s).value) && Concat(Parse(ps, s).value) <= s
    decreases |ps|
  {
    if ps != [] {
      var n := Take(ps[0], s).value;
      ParseIsSound(ps[1..], s[n..]);
      var rest := Parse(ps[1..], s[n..]).value;
      var parts := Parse(ps, s).value;
      assert parts == [s[..n]] + rest && parts[1..] == rest;
      FitsMore(ps, s[..n], rest);
      PrefixMore(s, n, Concat(rest));
    }
  }

  lemma FitsMore(ps: seq<Piece>, part: string, rest: seq<string>)
    requires ps != [] && ps[0].Accepts(part) && Fits(ps[1..], rest)
    ensures Fits(ps, [part] + rest)
  {
    forall i | 0 < i < |ps|
      ensures ps[i].Accepts(([part] + rest)[i])
    {
      assert ps[1..][i - 1].Accepts(rest[i - 1]);
    }
  }

  lemma PrefixMore(s: string, n: nat, rest: string)
    requires n <= |s| && rest <= s[n..]
    ensures s[..n] + rest <= s
  {
  }

  /** No text the piece accepts begins with a character of the kind. */
  ghost predicate Excludes(kind: Kind, p: Piece) {
    match p
    case Word(text) => text != "" && forall c :: Fold(c) == text[0] ==> !kind.Has(c)
    case Span(other, atLeast) => atLeast > 0 && forall c :: other.Has(c) ==> !kind.Has(c)
  }

  /** Every run is followed by a piece that excludes its kind, so cutting is never ambiguous. */
  ghost predicate Unambiguous(ps: seq<Piece>) {
    && ps != [] && ps[|ps| - 1].Word?
    && forall i :: 0 <= i < |ps| - 1 && ps[i].Span? ==> Excludes(ps[i].kind, ps[i + 1])
  }

  lemma {:induction false} RunIs(kind: Kind, s: string, n: nat)
    requires n <= |s| && (forall i :: 0 <= i < n ==> kind.Has(s[i])) && (n < |s| ==> !kind.Has(s[n]))
    ensures Run(kind, s) == n
  {
    if n > 0 {
      RunIs(kind, s[1..], n - 1);
    }
  }

  lemma ExcludedStart(kind: Kind, p: Piece, s: string)
    requires Excludes(kind, p) && p.Accepts(s)
    ensures s != "" && !kind.Has(s[0])
  {
  }

  /** Text of the pattern's shape is parsed into exactly those parts, whatever follows it. */
  lemma {:induction false} ParseIsComplete(ps: seq<Piece>, parts: seq<string>, more: string)
    requires Unambiguous(ps) && Fits(ps, parts)
    ensures Parse(ps, Concat(parts) + more) == Some(parts)
    decreases |ps|
  {
    var rest := Concat(parts[1..]) + more;
    var s := parts[0] + rest;
    assert Concat(parts) + more == s;
    assert s[..|parts[0]|] == parts[0] && s[|parts[0]|..] == rest;
    TakeIsComplete(ps, parts, more);
    if |ps| > 1 {
      ParseIsComplete(ps[1..], parts[1..], more);
    }
    assert parts == [parts[0]] + parts[1..];
  }

  lemma TakeIsComplete(ps: seq<Piece>, parts: seq<string>, more: string)
    requires Unambiguous(ps) && Fits(ps, parts)
    ensures Take(ps[0], parts[0] + (Concat(parts[1..]) + more)) == Some(|parts[0]|)
  {
    var rest := Concat(parts[1..]) + more;
    var s := parts[0] + rest;
    assert s[..|parts[0]|] == parts[0];
    if ps[0].Span? {
      ExcludedStart(ps[0].kind, ps[1], parts[1]);
      assert rest[0] == parts[1][0];
      RunIs(ps[0].kind, s, |parts[0]|);
    }
  }

  // ----- The leftmost match does not change as the text grows -----

  /** The pattern begins with a word that ends in a colon, and no other piece takes a colon. */
  ghost predicate Marked(ps: seq<Piece>) {
    && ps != [] && ps[0].Word? && ps[0].text != "" && ps[0].text[|ps[0].text| - 1] == ':'
    && forall i :: 1 <= i < |ps| ==>
         match ps[i]
         case Word(text) => ':' !in text
         case Span(kind, _) => !kind.Has(':')
  }

  lemma PartAvoidsColon(p: Piece, s: string)
    requires p.Accepts(s)
    requires match p case Word(text) => ':' !in text case Span(kind, _) => !kind.Has(':')
    ensures ':' !in s
  {
  }

  lemma {:induction false} PartsAvoidColon(ps: seq<Piece>, parts: seq<string>)
    requires Fits(ps, parts)
    requires forall i :: 0 <= i < |ps| ==>
               match ps[i] case Word(text) => ':' !in text case Span(kind, _) => !kind.Has(':')
    ensures ':' !in Concat(parts)
    decreases |ps|
  {
    if ps != [] {
      PartAvoidsColon(ps[0], parts[0]);
      PartsAvoidColon(ps[1..], parts[1..]);
    }
  }

  /** The only colon of a match is the one that ends its first word. */
  lemma OneColon(ps: seq<Piece>, parts: seq<string>, i: nat)
    requires Marked(ps) && Fits(ps, parts) && |ps[0].text| <= i < |Concat(parts)|
    ensures Concat(parts)[i] != ':'
  {
    PartsAvoidColon(ps[1..], parts[1..]);
    assert Concat(parts)[i] == Concat(parts[1..])[i - |parts[0]|];
  }

  lemma {:induction false} MatchHasColon(ps: seq<Piece>, s: string) returns (k: nat)
    requires Marked(ps) && FirstMatch(ps, s).Some?
    ensures k + |ps[0].text| <= |s| && s[k + |ps[0].text| - 1] == ':'
    decreases |s|
  {
    if Parse(ps, s).Some? {
      k := 0;
      var w := |ps[0].text|;
      assert ps[0].Accepts(s[..w]);
      assert Fold(s[..w][w - 1]) == ':';
    } else {
      k := MatchHasColon(ps, s[1..]);
      k := k + 1;
    }
  }

  /** A match that lies inside a text is found there. */
  lemma MatchInside(ps: seq<Piece>, s: string, parts: seq<string>)
    requires Unambiguous(ps) && Fits(ps, parts) && Concat(parts) <= s
    ensures Parse(ps, s) == Some(parts)
  {
    var rest := s[|Concat(parts)|..];
    assert Concat(parts) + rest == s;
    ParseIsComplete(ps, parts, rest);
  }

  /** A text that holds a later match is not the beginning of an earlier, longer one. */
  lemma MatchBeyond(ps: seq<Piece>, s: string, parts: seq<string>)
    requires Marked(ps) && Fits(ps, parts) && s != "" && FirstMatch(ps, s[1..]).Some?
    ensures !(s <= Concat(parts))
  {
    var k := MatchHasColon(ps, s[1..]);
    var i := k + |ps[0].text|;
    assert s[i] == ':';
    if i < |Concat(parts)| {
      OneColon(ps, parts, i);
    }
  }

  lemma NoEarlierMatch(ps: seq<Piece>, s: string, more: string)
    requires Marked(ps) && Unambiguous(ps)
    requires s != "" && Parse(ps, s).None? && FirstMatch(ps, s[1..]).Some?
    ensures Parse(ps, s + more).None?
  {
    if Parse(ps, s + more).Some? {
      ParseIsSound(ps, s + more);
      var parts := Parse(ps, s + more).value;
      MatchBeyond(ps, s, parts);
      MatchInside(ps, s, parts);
    }
  }

  lemma {:induction false} FirstMatchStays(ps: seq<Piece>, s: string, more: string)
    requires Marked(ps) && Unambiguous(ps) && FirstMatch(ps, s).Some?
    ensures FirstMatch(ps, s + more) == FirstMatch(ps, s)
    decreases |s|
  {
    if Parse(ps, s).Some? {
      ParseIsSound(ps, s);
      MatchInside(ps, s + more, Parse(ps, s).value);
    } else {
      FirstMatchStays(ps, s[1..], more);
      assert (s + more)[1..] == s[1..] + more;
      NoEarlierMatch(ps, s, more);
    }
  }

  // ----- The pattern itself -----

  const PATTERN: seq<Piece> :=
    [Word("critical failure:"), Span(Space, 0), Word("server"), Span(Space, 1), Span(Name, 1), Span(Space, 1),
     Word("is down")]

  const SERVER_PART := 4

  function Message(server: string): string {
    "nav2_runtime_unhealthy: lifecycle manager shut down server=" + server
    + "; inspect resource_samples.jsonl and runtime.log"
  }

  function ServerDown(line: string): Option<string> {
    var found := FirstMatch(PATTERN, line);
    if found.None? || |found.value| <= SERVER_PART then None else Some(Message(found.value[SERVER_PART]))
  }

  lemma PatternIsMarked()
    ensures Marked(PATTERN)
  {
    assert PATTERN[0] == Word("critical failure:") && PATTERN[1] == Span(Space, 0) && PATTERN[2] == Word("server");
    assert PATTERN[3] == Span(Space, 1) && PATTERN[4] == Span(Name, 1) && PATTERN[5] == Span(Space, 1);
    assert PATTERN[6] == Word("is down");
  }

  lemma PatternIsUnambiguous()
    ensures Unambiguous(PATTERN)
  {
    assert PATTERN[1] == Span(Space, 0) && PATTERN[2] == Word("server");
    assert PATTERN[3] == Span(Space, 1) && PATTERN[4] == Span(Name, 1) && PATTERN[5] == Span(Space, 1);
    assert PATTERN[6] == Word("is down");
    assert Excludes(Space, Word("server")) && Excludes(Space, Word("is down"));
    assert Excludes(Space, Span(Name, 1)) && Excludes(Name, Span(Space, 1));
  }

  lemma ShortTextHasNoMatch(s: string)
    requires |s| < 2
    ensures FirstMatch(PATTERN, s).None?
  {
    assert PATTERN[0] == Word("critical failure:");
    assert Take(PATTERN[0], s).None?;
    if s != "" {
      assert Take(PATTERN[0], s[1..]).None?;
      assert s[1..] == "";
    }
  }

  /** The pattern meets what the incremental monitor needs of a line check. */
  lemma ServerDownIsSteady()
    ensures Steady(ServerDown)
  {
    PatternIsMarked();
    PatternIsUnambiguous();
    forall line, more | ServerDown(line).Some?
      ensures ServerDown(line + more) == ServerDown(line)
    {
      FirstMatchStays(PATTERN, line, more);
    }
    ShortTextHasNoMatch("\n");
  }

  /** The monitor with this pattern, over every interleaving of appends and checks. */
  lemma MonitorAgreesWithRescan(events: seq<Event>)
    ensures var w := After(ServerDown, events + [Look]);
            w.monitor.failure == if w.log.None? then None else Scan(ServerDown, Translate(w.log.value))
  {
    ServerDownIsSteady();
    IncrementalVerdictIsWholeVerdict(ServerDown, events);
  }
}
