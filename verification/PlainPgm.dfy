/**
 Reading a PGM image: the tokenizer with its comments, the header checks and the raster.
 Bytes are modelled by the characters with the same code.
 */
module PlainPgm {
  import opened Options
  import opened Numerals

  // ----- Tokens -----

  predicate IsBlank(c: char) {
    c == ' ' || c == '\t' || c == '\r' || c == '\n'
  }

  predicate EndsToken(c: char) {
    IsBlank(c) || c == '#'
  }

  /** What follows the next newline. */
  function AfterLine(s: string): (rest: string)
    ensures |rest| <= |s| && (s != "" ==> |rest| < |s|)
  {
    if s == "" then "" else if s[0] == '\n' then s[1..] else AfterLine(s[1..])
  }

  /** The text from its first character that is neither blank nor in a comment. */
  function SkipBlank(s: string): (rest: string)
    ensures |rest| <= |s|
    decreases |s|
  {
    if s == "" then ""
    else if IsBlank(s[0]) then SkipBlank(s[1..])
    else if s[0] == '#' then SkipBlank(AfterLine(s))
    else s
  }

  function TokenLength(s: string): (n: nat)
    ensures n <= |s| && (forall i :: 0 <= i < n ==> !EndsToken(s[i])) && (n < |s| ==> EndsToken(s[n]))
  {
    if s == "" || EndsToken(s[0]) then 0 else 1 + TokenLength(s[1..])
  }

  datatype Token = Token(text: string, rest: string)

  function NextToken(s: string): (t: Option<Token>)
    ensures t.Some? ==> |t.value.rest| < |s|
  {
    TokenAt(SkipBlank(s))
  }

  function TokenAt(s: string): (t: Option<Token>)
    ensures t.Some? ==> |t.value.rest| < |s|
  {
    var n := TokenLength(s);
    if n == 0 then None else Some(Token(s[..n], s[n..]))
  }

  /** The scanner as written, over an offset into the data. */
  method ScanToken(data: string, offset: nat) returns (token: Option<string>, next: nat)
    requires offset <= |data|
    ensures next <= |data|
    ensures NextToken(data[offset..]) ==
            if token.None? then None else Some(Token(token.value, data[next..]))
  {
    var start := SkipToToken(data, offset);
    next := start;
    while next < |data| && !EndsToken(data[next])
      invariant start <= next <= |data|
      invariant forall i :: start <= i < next ==> !EndsToken(data[i])
    {
      next := next + 1;
    }
    TokenFrom(data, offset, start, next);
    token := if start == next then None else Some(data[start..next]);
  }

  lemma TokenFrom(data: string, offset: nat, start: nat, next: nat)
    requires offset <= |data| && start <= next <= |data| && SkipBlank(data[offset..]) == data[start..]
    requires (forall i :: start <= i < next ==> !EndsToken(data[i])) && (next < |data| ==> EndsToken(data[next]))
    ensures NextToken(data[offset..]) == if start == next then None else Some(Token(data[start..next], data[next..]))
  {
    TokenBetween(data, start, next);
  }

  lemma TokenBetween(data: string, start: nat, next: nat)
    requires start <= next <= |data|
    requires (forall i :: start <= i < next ==> !EndsToken(data[i])) && (next < |data| ==> EndsToken(data[next]))
    ensures TokenAt(data[start..]) == if start == next then None else Some(Token(data[start..next], data[next..]))
  {
    TokenLengthIs(data[start..], next - start);
    assert data[start..][..next - start] == data[start..next];
    assert data[start..][next - start..] == data[next..];
  }

  lemma {:induction false} TokenLengthIs(s: string, n: nat)
    requires n <= |s| && (forall i :: 0 <= i < n ==> !EndsToken(s[i])) && (n < |s| ==> EndsToken(s[n]))
    ensures TokenLength(s) == n
  {
    if n > 0 {
      TokenLengthIs(s[1..], n - 1);
    }
  }

  method SkipToToken(data: string, offset: nat) returns (next: nat)
    requires offset <= |data|
    ensures next <= |data| && SkipBlank(data[offset..]) == data[next..]
  {
    next := offset;
    while next < |data|
      invariant offset <= next <= |data|
      invariant SkipBlank(data[offset..]) == SkipBlank(data[next..])
    {
      if IsBlank(data[next]) {
        assert data[next..][1..] == data[next + 1..];
        next := next + 1;
      } else if data[next] == '#' {
        next := LineEnd(data, next);
      } else {
        return;
      }
    }
  }

  method LineEnd(data: string, offset: nat) returns (next: nat)
    requires offset < |data|
    ensures offset < next <= |data| && AfterLine(data[offset..]) == data[next..]
  {
    next := offset;
    while next < |data| && data[next] != '\n'
      invariant offset <= next <= |data|
      invariant AfterLine(data[offset..]) == AfterLine(data[next..])
    {
      assert data[next..][1..] == data[next + 1..];
      next := next + 1;
    }
    if next < |data| {
      assert data[next..][1..] == data[next + 1..];
      next := next + 1;
    }
  }

  // ----- Where a token stands -----

  predicate Ends(c: char) {
    c as int == 9 || c as int == 10 || c as int == 13 || c as int == 32 || c == '#'
  }

  /** Blanks, and comments from a hash to the end of their line, in any order. */
  predicate IsGap(s: string)
    decreases |s|
  {
    || s == ""
    || (Ends(s[0]) && s[0] != '#' && IsGap(s[1..]))
    || (s[0] == '#' && exists k :: 0 < k < |s| && s[k] as int == 10 && IsComment(s[..k]) && IsGap(s[k + 1..]))
  }

  predicate IsComment(s: string) {
    s != "" && s[0] == '#' && forall i :: 0 <= i < |s| ==> s[i] as int != 10
  }

  predicate IsWord(s: string) {
    s != "" && forall i :: 0 <= i < |s| ==> !Ends(s[i])
  }

  lemma {:induction false} GapIsSkipped(gap: string, rest: string)
    requires IsGap(gap)
    ensures SkipBlank(gap + rest) == SkipBlank(rest)
    decreases |gap|
  {
    if gap == "" {
      assert gap + rest == rest;
    } else if gap[0] != '#' {
      assert (gap + rest)[1..] == gap[1..] + rest;
      GapIsSkipped(gap[1..], rest);
    } else {
      var k :| 0 < k < |gap| && gap[k] as int == 10 && IsComment(gap[..k]) && IsGap(gap[k + 1..]);
      CommentThenRest(gap, k, rest);
      CommentThen(gap[..k], gap[k + 1..] + rest);
      GapIsSkipped(gap[k + 1..], rest);
    }
  }

  lemma CommentThenRest(gap: string, k: nat, rest: string)
    requires k < |gap| && gap[k] as int == 10
    ensures gap + rest == gap[..k] + "\n" + (gap[k + 1..] + rest)
  {
    assert gap[k] == '\n';
    assert gap == gap[..k] + [gap[k]] + gap[k + 1..];
  }

  lemma CommentThen(line: string, after: string)
    requires IsComment(line)
    ensures SkipBlank(line + "\n" + after) == SkipBlank(after)
  {
    NoNewline(line);
    LineIsSkipped(line, after);
  }

  lemma NoNewline(line: string)
    requires IsComment(line)
    ensures '\n' !in line
  {
  }

  /**
   After any gap, the next token is the word that stands there, up to a blank, a hash or the end;
   what follows is left as it is.
   */
  lemma WordIsNextToken(gap: string, word: string, rest: string)
    requires IsGap(gap) && IsWord(word) && (rest == "" || Ends(rest[0]))
    ensures NextToken(gap + (word + rest)) == Some(Token(word, rest))
  {
    GapIsSkipped(gap, word + rest);
    TokenLengthIs(word + rest, |word|);
    assert SkipBlank(word + rest) == word + rest;
    assert (word + rest)[..|word|] == word && (word + rest)[|word|..] == rest;
  }

  /** A text of nothing but gaps, and perhaps a last comment without its line end, has no token. */
  lemma GapHasNoToken(gap: string, comment: string)
    requires IsGap(gap) && (comment == "" || IsComment(comment))
    ensures NextToken(gap + comment).None?
  {
    GapIsSkipped(gap, comment);
    if comment != "" {
      NoNewline(comment);
      LastLineIsSkipped(comment);
    }
  }

  lemma {:induction false} LastLineIsSkipped(line: string)
    requires '\n' !in line
    ensures AfterLine(line) == ""
  {
    if line != "" {
      assert line[0] in line && forall c :: c in line[1..] ==> c in line;
      LastLineIsSkipped(line[1..]);
    }
  }

  // ----- The image -----

  /** How numbers are read and printed; kept as parameters of what only passes them on. */
  type Parser = string -> Option<int>
  type Printer = int -> string

  datatype Image = Image(width: int, height: int, maximum: int, samples: seq<int>)
  datatype PgmError =
    | UnexpectedEnd | BadNumber | BadMetadata | MissingSeparator | Unsupported | SizeMismatch | OutOfRange
  datatype Read<+T> = Ok(value: T) | Failed(error: PgmError)

  datatype Values = Values(samples: seq<int>, rest: string)

  /** Reads so many numbers in plain format. */
  function ReadValues(parse: Parser, n: nat, s: string): Read<Values> {
    if n == 0 then Ok(Values([], s))
    else
      var t := NextToken(s);
      if t.None? then Failed(UnexpectedEnd)
      else
        var v := parse(t.value.text);
        if v.None? then Failed(BadNumber)
        else
          var more := ReadValues(parse, n - 1, t.value.rest);
          if more.Failed? then more else Ok(Values([v.value] + more.value.samples, more.value.rest))
  }

  datatype Header = Header(magic: string, width: int, height: int, maximum: int, rest: string)

  function ReadHeader(parse: Parser, data: string): Read<Header> {
    var magic := NextToken(data);
    if magic.None? then Failed(UnexpectedEnd)
    else
      var w := NextToken(magic.value.rest);
      if w.None? then Failed(UnexpectedEnd)
      else
        var h := NextToken(w.value.rest);
        if h.None? then Failed(UnexpectedEnd)
        else
          var m := NextToken(h.value.rest);
          if m.None? then Failed(UnexpectedEnd)
          else
            var width, height, maximum := parse(w.value.text), parse(h.value.text), parse(m.value.text);
            if width.None? || height.None? || maximum.None? then Failed(BadNumber)
            else Ok(Header(magic.value.text, width.value, height.value, maximum.value, m.value.rest))
  }

  /** The bytes after one raster separator, CR LF counting as one. */
  function ReadBinary(n: nat, s: string): Read<seq<int>> {
    if s == "" || !IsBlank(s[0]) then Failed(MissingSeparator)
    else
      var raster := if |s| >= 2 && s[0] == '\r' && s[1] == '\n' then s[2..] else s[1..];
      if |raster| < n then Failed(SizeMismatch) else Ok(seq(n, i requires 0 <= i < n => raster[i] as int))
  }

  function Area(width: int, height: int): nat
    requires width > 0 && height > 0
  {
    assert width * height > 0;
    width * height
  }

  function ReadRaster(parse: Parser, magic: string, n: nat, s: string): Read<seq<int>> {
    if magic == "P2" then
      var values := ReadValues(parse, n, s);
      if values.Failed? then Failed(values.error) else Ok(values.value.samples)
    else if magic == "P5" then ReadBinary(n, s)
    else Failed(Unsupported)
  }

  predicate InRange(samples: seq<int>, maximum: int) {
    forall i :: 0 <= i < |samples| ==> 0 <= samples[i] <= maximum
  }

  predicate GoodMetadata(h: Header) {
    h.width > 0 && h.height > 0 && 0 < h.maximum <= 255
  }

  function ImageOf(h: Header, raster: Read<seq<int>>): Read<Image> {
    if raster.Failed? then Failed(raster.error)
    else if !InRange(raster.value, h.maximum) then Failed(OutOfRange)
    else Ok(Image(h.width, h.height, h.maximum, raster.value))
  }

  function ReadPgm(parse: Parser, data: string): Read<Image> {
    var header := ReadHeader(parse, data);
    if header.Failed? then Failed(header.error)
    else if !GoodMetadata(header.value) then Failed(BadMetadata)
    else
      var h := header.value;
      ImageOf(h, ReadRaster(parse, h.magic, Area(h.width, h.height), h.rest))
  }

  function Prepend(samples: seq<int>, more: Read<Values>): Read<Values> {
    if more.Failed? then more else Ok(Values(samples + more.value.samples, more.value.rest))
  }

  lemma PrependNothing(more: Read<Values>)
    ensures Prepend([], more) == more
  {
    if more.Ok? {
      assert [] + more.value.samples == more.value.samples;
    }
  }

  lemma PrependOne(parse: Parser, samples: seq<int>, n: nat, s: string, t: Token, v: int)
    requires NextToken(s) == Some(t) && parse(t.text) == Some(v)
    ensures Prepend(samples, ReadValues(parse, n + 1, s)) == Prepend(samples + [v], ReadValues(parse, n, t.rest))
  {
    var more := ReadValues(parse, n, t.rest);
    if more.Ok? {
      assert samples + ([v] + more.value.samples) == samples + [v] + more.value.samples;
    }
  }

  /** With `samples` read, the numbers still to come complete the whole result. */
  ghost predicate Completes(parse: Parser, samples: seq<int>, left: nat, s: string, whole: Read<Values>) {
    Prepend(samples, ReadValues(parse, left, s)) == whole
  }

  lemma OneMoreCompletes(parse: Parser, samples: seq<int>, left: nat, s: string, whole: Read<Values>, t: Token, v: int)
    requires Completes(parse, samples, left + 1, s, whole) && NextToken(s) == Some(t) && parse(t.text) == Some(v)
    ensures Completes(parse, samples + [v], left, t.rest, whole)
  {
    PrependOne(parse, samples, left, s, t, v);
  }

  lemma BrokenOff(parse: Parser, samples: seq<int>, left: nat, s: string, whole: Read<Values>)
    requires Completes(parse, samples, left + 1, s, whole)
    ensures NextToken(s).None? ==> whole == Failed(UnexpectedEnd)
    ensures NextToken(s).Some? && parse(NextToken(s).value.text).None? ==> whole == Failed(BadNumber)
  {
  }

  lemma AllRead(parse: Parser, samples: seq<int>, s: string, whole: Read<Values>)
    requires Completes(parse, samples, 0, s, whole)
    ensures whole == Ok(Values(samples, s))
  {
    assert samples + [] == samples;
  }

  /** The loop that reads the plain raster, token by token. */
  method ScanValues(parse: Parser, data: string, offset: nat, n: nat) returns (result: Read<Values>)
    requires offset <= |data|
    ensures result == ReadValues(parse, n, data[offset..])
  {
    ghost var whole := ReadValues(parse, n, data[offset..]);
    PrependNothing(whole);
    result := ScanFrom(parse, data, offset, n, whole);
  }

  method ScanValue(
    parse: Parser, data: string, at: nat, ghost values: seq<int>, ghost left: nat, ghost whole: Read<Values>)
    returns (value: Read<int>, next: nat)
    requires at <= |data| && Completes(parse, values, left + 1, data[at..], whole)
    ensures next <= |data|
    ensures match value
            case Ok(v) => Completes(parse, values + [v], left, data[next..], whole)
            case Failed(error) => whole == Failed(error)
  {
    var token;
    token, next := ScanToken(data, at);
    BrokenOff(parse, values, left, data[at..], whole);
    if token.None? {
      return Failed(UnexpectedEnd), next;
    }
    var v := parse(token.value);
    if v.None? {
      return Failed(BadNumber), next;
    }
    OneMoreCompletes(parse, values, left, data[at..], whole, Token(token.value, data[next..]), v.value);
    return Ok(v.value), next;
  }

  method ScanFrom(parse: Parser, data: string, offset: nat, n: nat, ghost whole: Read<Values>)
    returns (result: Read<Values>)
    requires offset <= |data| && Completes(parse, [], n, data[offset..], whole)
    ensures result == whole
  {
    var values: seq<int> := [];
    var at: nat := offset;
    while |values| < n
      invariant |values| <= n && at <= |data|
      invariant Completes(parse, values, n - |values|, data[at..], whole)
      decreases n - |values|
    {
      var value, next := ScanValue(parse, data, at, values, n - |values| - 1, whole);
      if value.Failed? {
        return Failed(value.error);
      }
      values, at := values + [value.value], next;
    }
    AllRead(parse, values, data[at..], whole);
    return Ok(Values(values, data[at..]));
  }

  /** The four header tokens, converted after all of them were found. */
  method ScanHeader(parse: Parser, data: string) returns (header: Read<Header>, offset: nat)
    ensures header == ReadHeader(parse, data)
    ensures header.Ok? ==> offset <= |data| && header.value.rest == data[offset..]
  {
    assert data[0..] == data;
    var magic, w, h, m: Option<string>;
    magic, offset := ScanToken(data, 0);
    if magic.None? {
      return Failed(UnexpectedEnd), offset;
    }
    w, offset := ScanToken(data, offset);
    if w.None? {
      return Failed(UnexpectedEnd), offset;
    }
    h, offset := ScanToken(data, offset);
    if h.None? {
      return Failed(UnexpectedEnd), offset;
    }
    m, offset := ScanToken(data, offset);
    if m.None? {
      return Failed(UnexpectedEnd), offset;
    }
    var width, height, maximum := parse(w.value), parse(h.value), parse(m.value);
    if width.None? || height.None? || maximum.None? {
      return Failed(BadNumber), offset;
    }
    header := Ok(Header(magic.value, width.value, height.value, maximum.value, data[offset..]));
  }

  method ScanRaster(parse: Parser, data: string, offset: nat, magic: string, n: nat) returns (raster: Read<seq<int>>)
    requires offset <= |data|
    ensures raster == ReadRaster(parse, magic, n, data[offset..])
  {
    if magic == "P2" {
      var values := ScanValues(parse, data, offset, n);
      return if values.Failed? then Failed(values.error) else Ok(values.value.samples);
    } else if magic == "P5" {
      return ReadBinary(n, data[offset..]);
    }
    return Failed(Unsupported);
  }

  /** The reader as written: the header, its checks, the raster, and the range of the samples. */
  method ReadPgmFile(parse: Parser, data: string) returns (result: Read<Image>)
    ensures result == ReadPgm(parse, data)
  {
    var header, offset := ScanHeader(parse, data);
    if header.Failed? {
      return Failed(header.error);
    }
    var h := header.value;
    if !GoodMetadata(h) {
      return Failed(BadMetadata);
    }
    var raster := ScanRaster(parse, data, offset, h.magic, Area(h.width, h.height));
    result := CheckRange(h, raster);
  }

  method CheckRange(h: Header, raster: Read<seq<int>>) returns (result: Read<Image>)
    ensures result == ImageOf(h, raster)
  {
    if raster.Failed? {
      return Failed(raster.error);
    }
    for i := 0 to |raster.value|
      invariant forall k :: 0 <= k < i ==> 0 <= raster.value[k] <= h.maximum
    {
      if raster.value[i] < 0 || raster.value[i] > h.maximum {
        return Failed(OutOfRange);
      }
    }
    return Ok(Image(h.width, h.height, h.maximum, raster.value));
  }

  // ----- Reading back what was printed -----

  predicate IsToken(s: string) {
    s != "" && forall i :: 0 <= i < |s| ==> !EndsToken(s[i])
  }

  lemma TokenIsNext(token: string, rest: string)
    requires IsToken(token) && rest != "" && EndsToken(rest[0])
    ensures NextToken(token + rest) == Some(Token(token, rest))
  {
    TokenLengthIs(token + rest, |token|);
    assert SkipBlank(token + rest) == token + rest;
    assert (token + rest)[..|token|] == token && (token + rest)[|token|..] == rest;
  }

  lemma BlankIsSkipped(c: char, s: string)
    requires IsBlank(c)
    ensures NextToken([c] + s) == NextToken(s)
  {
    assert ([c] + s)[1..] == s;
  }

  lemma {:induction false} LineIsSkipped(line: string, s: string)
    requires '\n' !in line
    ensures AfterLine(line + "\n" + s) == s
  {
    var whole := line + "\n" + s;
    if line == "" {
      assert whole[1..] == s;
    } else {
      assert whole[1..] == line[1..] + "\n" + s;
      LineIsSkipped(line[1..], s);
    }
  }

  lemma CommentIsSkipped(line: string, s: string)
    requires line != "" && line[0] == '#' && '\n' !in line
    ensures NextToken(line + "\n" + s) == NextToken(s)
  {
    LineIsSkipped(line, s);
  }

  /** A token after one separator is read, and the text goes on with the next separator. */
  lemma SeparatedToken(before: char, token: string, after: char, rest: string)
    requires IsBlank(before) && IsToken(token) && IsBlank(after)
    ensures NextToken([before] + token + [after] + rest) == Some(Token(token, [after] + rest))
  {
    assert [before] + token + [after] + rest == [before] + (token + ([after] + rest));
    BlankIsSkipped(before, token + ([after] + rest));
    TokenIsNext(token, [after] + rest);
  }

  /** The reader gives back what the printer printed, and a printed number is one token. */
  ghost predicate Inverse(show: Printer, parse: Parser) {
    forall n {:trigger show(n)} :: IsToken(show(n)) && parse(show(n)) == Some(n)
  }

  lemma IntegersRoundTrip()
    ensures Inverse(PrintInt, ParseInt)
  {
    forall n: int
      ensures IsToken(PrintInt(n)) && ParseInt(PrintInt(n)) == Some(n)
    {
      PrintedIntIsParsed(n);
    }
  }

  /** Numbers printed one after another, each followed by a separator. */
  datatype Printed = Printed(value: int, separator: char)

  function PrintAll(show: Printer, items: seq<Printed>): string {
    if items == [] then "" else show(items[0].value) + [items[0].separator] + PrintAll(show, items[1..])
  }

  function ValuesOf(items: seq<Printed>): seq<int> {
    seq(|items|, i requires 0 <= i < |items| => items[i].value)
  }

  ghost predicate IsReadBack(show: Printer, parse: Parser, before: char, items: seq<Printed>) {
    ReadsAs(parse, |items|, [before] + PrintAll(show, items), ValuesOf(items))
  }

  /** So many numbers are read from the text, and they are these. */
  ghost predicate ReadsAs(parse: Parser, n: nat, s: string, values: seq<int>) {
    var read := ReadValues(parse, n, s);
    read.Ok? && read.value.samples == values
  }

  lemma {:induction false} PrintedValuesAreRead(show: Printer, parse: Parser, before: char, items: seq<Printed>)
    requires Inverse(show, parse)
    requires IsBlank(before) && forall i :: 0 <= i < |items| ==> IsBlank(items[i].separator)
    ensures IsReadBack(show, parse, before, items)
    decreases |items|
  {
    if items != [] {
      PrintedValuesAreRead(show, parse, items[0].separator, items[1..]);
      ReadBackOneMore(show, parse, before, items);
    }
  }

  lemma ReadBackOneMore(show: Printer, parse: Parser, before: char, items: seq<Printed>)
    requires Inverse(show, parse) && items != [] && IsBlank(before) && IsBlank(items[0].separator)
    requires IsReadBack(show, parse, items[0].separator, items[1..])
    ensures IsReadBack(show, parse, before, items)
  {
    var first, rest := items[0], items[1..];
    assert IsToken(show(first.value)) && parse(show(first.value)) == Some(first.value);
    NumberIsRead(
      parse, |rest|, before, show(first.value), first.separator, PrintAll(show, rest), first.value, ValuesOf(rest));
    PrintedParts(show, before, items);
    ValuesOfParts(items);
  }

  lemma PrintedParts(show: Printer, before: char, items: seq<Printed>)
    requires items != []
    ensures [before] + PrintAll(show, items) ==
            [before] + show(items[0].value) + [items[0].separator] + PrintAll(show, items[1..])
  {
  }

  lemma ValuesOfParts(items: seq<Printed>)
    requires items != []
    ensures ValuesOf(items) == [items[0].value] + ValuesOf(items[1..]) && |items| == 1 + |items[1..]|
  {
  }

  lemma NumberIsRead(
    parse: Parser, n: nat, before: char, number: string, separator: char, after: string, v: int, values: seq<int>)
    requires IsBlank(before) && IsToken(number) && IsBlank(separator) && parse(number) == Some(v)
    requires ReadsAs(parse, n, [separator] + after, values)
    ensures ReadsAs(parse, n + 1, [before] + number + [separator] + after, [v] + values)
  {
    SeparatedToken(before, number, separator, after);
    ReadOneMore(parse, n, [before] + number + [separator] + after, Token(number, [separator] + after), v);
  }

  lemma ReadOneMore(parse: Parser, n: nat, s: string, t: Token, v: int)
    requires NextToken(s) == Some(t) && parse(t.text) == Some(v) && ReadValues(parse, n, t.rest).Ok?
    ensures ReadValues(parse, n + 1, s).Ok?
    ensures ReadValues(parse, n + 1, s).value.samples == [v] + ReadValues(parse, n, t.rest).value.samples
  {
  }

  const COMMENT := "# generated " + ("by scripts/" + ("generate_" + ("showcase_" + "scene.py")))

  function HeaderText(show: Printer, width: int, height: int): string {
    "P2\n" + COMMENT + "\n" + show(width) + " " + show(height) + "\n" + show(255) + "\n"
  }

  lemma HeaderFromTokens(
    parse: Parser, data: string, magic: Token, w: Token, h: Token, m: Token, width: int, height: int, maximum: int)
    requires NextToken(data) == Some(magic) && NextToken(magic.rest) == Some(w)
    requires NextToken(w.rest) == Some(h) && NextToken(h.rest) == Some(m)
    requires parse(w.text) == Some(width) && parse(h.text) == Some(height) && parse(m.text) == Some(maximum)
    ensures ReadHeader(parse, data) == Ok(Header(magic.text, width, height, maximum, m.rest))
  {
  }

  lemma CommentLine()
    ensures COMMENT != "" && COMMENT[0] == '#' && '\n' !in COMMENT
  {
    assert "# generated "[0] == '#';
    assert '\n' !in "# generated " && '\n' !in "by scripts/" && '\n' !in "generate_";
    assert '\n' !in "showcase_" && '\n' !in "scene.py";
  }

  lemma MagicIsRead(rest: string)
    ensures NextToken("P2\n" + COMMENT + "\n" + rest) == Some(Token("P2", "\n" + COMMENT + "\n" + rest))
  {
    var after := "\n" + COMMENT + "\n" + rest;
    assert "P2\n" + COMMENT + "\n" + rest == "P2" + after;
    TokenIsNext("P2", after);
  }

  lemma CommentIsRead(rest: string)
    ensures NextToken("\n" + COMMENT + "\n" + rest) == NextToken(rest)
  {
    var after := COMMENT + "\n" + rest;
    assert "\n" + COMMENT + "\n" + rest == ['\n'] + after;
    BlankIsSkipped('\n', after);
    CommentLine();
    CommentIsSkipped(COMMENT, rest);
  }

  function FromMaximum(show: Printer, body: string): string {
    "\n" + (show(255) + ("\n" + body))
  }

  function FromHeight(show: Printer, height: int, body: string): string {
    " " + (show(height) + FromMaximum(show, body))
  }

  lemma SpacedToken(before: char, token: string, rest: string)
    requires IsBlank(before) && IsToken(token) && rest != "" && IsBlank(rest[0])
    ensures NextToken([before] + (token + rest)) == Some(Token(token, rest))
  {
    BlankIsSkipped(before, token + rest);
    TokenIsNext(token, rest);
  }

  lemma HeaderPieces(show: Printer, width: int, height: int, body: string)
    ensures HeaderText(show, width, height) + body ==
            "P2\n" + COMMENT + "\n" + (show(width) + FromHeight(show, height, body))
  {
    var w, h, m := show(width), show(height), show(255);
    var front := "P2\n" + COMMENT + "\n";
    assert front + w + " " + h + "\n" + m + "\n" + body == front + (w + (" " + (h + ("\n" + (m + ("\n" + body))))));
  }

  /** The printed header is read as it was printed, and leaves the newline before the raster. */
  lemma HeaderIsRead(show: Printer, parse: Parser, width: int, height: int, body: string)
    requires Inverse(show, parse)
    ensures ReadHeader(parse, HeaderText(show, width, height) + body) ==
            Ok(Header("P2", width, height, 255, "\n" + body))
  {
    var w, h, m := show(width), show(height), show(255);
    var t2, t3 := FromHeight(show, height, body), FromMaximum(show, body);
    HeaderPieces(show, width, height, body);
    MagicIsRead(w + t2);
    CommentIsRead(w + t2);
    TokenIsNext(w, t2);
    SpacedToken(' ', h, t3);
    SpacedToken('\n', m, "\n" + body);
    HeaderFromTokens(parse, HeaderText(show, width, height) + body, Token("P2", "\n" + COMMENT + "\n" + (w + t2)),
                     Token(w, t2), Token(h, t3), Token(m, "\n" + body), width, height, 255);
  }

  lemma {:induction false} ValuesAreCounted(parse: Parser, n: nat, s: string)
    requires ReadValues(parse, n, s).Ok?
    ensures |ReadValues(parse, n, s).value.samples| == n
  {
    if n > 0 {
      ValuesAreCounted(parse, n - 1, NextToken(s).value.rest);
    }
  }

  /** What is accepted is a full image of positive size, its maximum one byte and every sample in range. */
  lemma AcceptedImageIsSound(parse: Parser, data: string)
    requires ReadPgm(parse, data).Ok?
    ensures var image := ReadPgm(parse, data).value;
            && image.width > 0 && image.height > 0 && 0 < image.maximum <= 255
            && |image.samples| == image.width * image.height
            && forall i :: 0 <= i < |image.samples| ==> 0 <= image.samples[i] <= image.maximum
  {
    var h := ReadHeader(parse, data).value;
    if h.magic == "P2" {
      ValuesAreCounted(parse, Area(h.width, h.height), h.rest);
    }
  }

  /** A header that is an image's, and a full raster in range, are never refused. */
  lemma SoundImageIsAccepted(parse: Parser, data: string)
    requires ReadHeader(parse, data).Ok?
    requires var h := ReadHeader(parse, data).value;
             && h.width > 0 && h.height > 0 && 0 < h.maximum <= 255
             && var raster := ReadRaster(parse, h.magic, h.width * h.height, h.rest);
                raster.Ok? && forall i :: 0 <= i < |raster.value| ==> 0 <= raster.value[i] <= h.maximum
    ensures ReadPgm(parse, data).Ok?
  {
  }

  /** The binary raster begins after one separator, and a CR LF pair is one. */
  lemma BinaryRaster(n: nat, separator: char, raster: string)
    requires |raster| >= n
    ensures ReadBinary(n, "\r\n" + raster) == Ok(seq(n, i requires 0 <= i < n => raster[i] as int))
    ensures IsBlank(separator) && !(separator == '\r' && raster != "" && raster[0] == '\n') ==>
              ReadBinary(n, [separator] + raster) == Ok(seq(n, i requires 0 <= i < n => raster[i] as int))
  {
    assert ("\r\n" + raster)[2..] == raster && ([separator] + raster)[1..] == raster;
    assert ("\r\n" + raster)[0] == '\r' && ("\r\n" + raster)[1] == '\n';
  }

  ghost function Bytes(raster: string, n: nat): seq<int>
    requires n <= |raster|
  {
    seq(n, i requires 0 <= i < n => raster[i] as int)
  }

  /** A binary file is read as the bytes after its separator, as long as none exceeds the maximum. */
  lemma BinaryImageIsRead(parse: Parser, data: string, h: Header, raster: string)
    requires ReadHeader(parse, data) == Ok(h) && h.magic == "P5" && h.rest == "\n" + raster
    requires h.width > 0 && h.height > 0 && 0 < h.maximum <= 255 && 0 <= h.width * h.height <= |raster|
    requires forall i :: 0 <= i < h.width * h.height ==> raster[i] as int <= h.maximum
    ensures ReadPgm(parse, data) == Ok(Image(h.width, h.height, h.maximum, Bytes(raster, h.width * h.height)))
  {
    BinaryRaster(h.width * h.height, '\n', raster);
  }

  /** Only the two kinds are read. */
  lemma OtherKindsAreRefused(parse: Parser, data: string)
    requires ReadHeader(parse, data).Ok? && ReadHeader(parse, data).value.magic !in {"P2", "P5"}
    ensures ReadPgm(parse, data).Failed?
  {
  }
}
