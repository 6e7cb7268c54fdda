// Unified diffs as text: the parser and the printer of utils/check-style.py (lines 219-232,
// 301-310, 363-418), on values. A line is a string without its newline.

module PatchText {
  import opened Sequences

  datatype Kind = Src | Dst | Both

  datatype Line = Line(kind: Kind, text: string) {
    predicate IsSrc() { kind != Dst }
    predicate IsDst() { kind != Src }
  }

  datatype Chunk = Chunk(srcPos: nat, dstPos: nat, lines: seq<Line>)

  datatype Patch = Patch(src: string, dst: string, chunks: seq<Chunk>)

  // Touching current_patch before any patch, or current_chunk before any chunk, or reaching the
  // final raise.
  datatype Error = NoCurrentPatch | NoCurrentChunk | InvalidLine

  datatype Result = Ok(patches: seq<Patch>) | Failed(error: Error)

  // ---------- Numbers ----------

  predicate IsDigit(c: char) { '0' <= c <= '9' }

  function Digit(d: nat): (c: char)
    requires d < 10
    ensures IsDigit(c)
  {
    "0123456789"[d]
  }

  function DigitValue(c: char): nat
    requires IsDigit(c)
  {
    (c as int) - ('0' as int)
  }

  // '%d'
  function Decimal(n: nat): (s: string)
    ensures s != [] && forall c :: c in s ==> IsDigit(c)
  {
    if n < 10 then [Digit(n)] else Decimal(n / 10) + [Digit(n % 10)]
  }

  // int(...)
  function Value(s: string): nat
    requires forall c :: c in s ==> IsDigit(c)
  {
    if s == [] then 0 else 10 * Value(s[..|s| - 1]) + DigitValue(s[|s| - 1])
  }

  lemma DigitRoundTrip(d: nat)
    requires d < 10
    ensures DigitValue(Digit(d)) == d
  {
  }

  lemma {:induction false} DecimalRoundTrip(n: nat)
    ensures Value(Decimal(n)) == n
  {
    DigitRoundTrip(n % 10);
    if n < 10 {
      assert Decimal(n)[..0] == [];
    } else {
      DecimalRoundTrip(n / 10);
      assert Decimal(n)[..|Decimal(n)| - 1] == Decimal(n / 10);
    }
  }

  // [0-9]+ takes as many digits as there are.
  function DigitRun(s: string): (k: nat)
    ensures k <= |s| && forall c :: c in s[..k] ==> IsDigit(c)
    ensures k < |s| ==> !IsDigit(s[k])
  {
    if s != [] && IsDigit(s[0]) then
      assert s == [s[0]] + s[1..];
      1 + DigitRun(s[1..])
    else 0
  }

  datatype Field = NoMatch | Match(value: nat, rest: string)

  // ([0-9]+) followed by a separator
  function TakeField(s: string, sep: string): Field {
    var k := DigitRun(s);
    if k > 0 && sep <= s[k..] then Match(Value(s[..k]), s[k + |sep|..]) else NoMatch
  }

  lemma {:induction false} DigitRunEnds(d: string, t: string)
    requires (forall c :: c in d ==> IsDigit(c)) && t != [] && !IsDigit(t[0])
    ensures DigitRun(d + t) == |d|
  {
    if d == [] {
      assert d + t == t;
    } else {
      assert d[0] in d && (d + t)[1..] == d[1..] + t;
      DigitRunEnds(d[1..], t);
    }
  }

  predicate AllDigits(d: string) {
    d != [] && forall c :: c in d ==> IsDigit(c)
  }

  lemma TakeFieldMatches(s: string, sep: string, d: string, rest: string)
    requires s == d + sep + rest && AllDigits(d) && sep != [] && !IsDigit(sep[0])
    ensures TakeField(s, sep) == Match(Value(d), rest)
  {
    assert s == d + (sep + rest);
    DigitRunEnds(d, sep + rest);
    assert s[..|d|] == d && s[|d|..] == sep + rest;
  }

  lemma TakeFieldSplits(s: string, sep: string) returns (d: string)
    requires TakeField(s, sep).Match?
    ensures s == d + sep + TakeField(s, sep).rest && AllDigits(d) && TakeField(s, sep).value == Value(d)
  {
    var k := DigitRun(s);
    d := s[..k];
    assert s == s[..k] + (s[k..][..|sep|] + s[k..][|sep|..]);
  }

  lemma TakePrintedField(n: nat, sep: string, rest: string)
    requires sep != [] && !IsDigit(sep[0])
    ensures TakeField(Decimal(n) + sep + rest, sep) == Match(n, rest)
  {
    TakeFieldMatches(Decimal(n) + sep + rest, sep, Decimal(n), rest);
    DecimalRoundTrip(n);
  }

  // ---------- Lines ----------

  datatype LineClass =
    | SrcFile(name: string)
    | DstFile(name: string)
    | ChunkStart(srcPos: nat, dstPos: nat)
    | Content(line: Line)
    | Unknown

  function Header(srcPos: nat, srcLen: nat, dstPos: nat, dstLen: nat): string {
    var dst := Decimal(dstPos) + "," + (Decimal(dstLen) + " @@" + "");
    "@@ -" + (Decimal(srcPos) + "," + (Decimal(srcLen) + " +" + dst))
  }

  // The groups of the pattern chunk_start.
  datatype HeaderFields = NoHeader | HeaderFields(srcPos: nat, srcLen: nat, dstPos: nat, dstLen: nat)

  function ReadHeader(line: string): HeaderFields {
    if !("@@ -" <= line) then NoHeader
    else
      match TakeField(line[4..], ",")
      case NoMatch => NoHeader
      case Match(srcPos, rest1) =>
        match TakeField(rest1, " +")
        case NoMatch => NoHeader
        case Match(srcLen, rest2) =>
          match TakeField(rest2, ",")
          case NoMatch => NoHeader
          case Match(dstPos, rest3) =>
            match TakeField(rest3, " @@")
            case NoMatch => NoHeader
            case Match(dstLen, _) => HeaderFields(srcPos, srcLen, dstPos, dstLen)
  }

  // @@ -([0-9]+),([0-9]+) \+([0-9]+),([0-9]+) @@, and anything after it
  predicate IsHeader(line: string, a: string, b: string, c: string, d: string, rest: string) {
    && AllDigits(a) && AllDigits(b) && AllDigits(c) && AllDigits(d)
    && line == "@@ -" + (a + "," + (b + " +" + (c + "," + (d + " @@" + rest))))
  }

  lemma HeaderMatches(line: string, a: string, b: string, c: string, d: string, rest: string)
    requires IsHeader(line, a, b, c, d, rest)
    ensures ReadHeader(line) == HeaderFields(Value(a), Value(b), Value(c), Value(d))
  {
    var r3 := d + " @@" + rest;
    var r2 := c + "," + r3;
    var r1 := b + " +" + r2;
    var r0 := a + "," + r1;
    assert line[4..] == r0 && line[..4] == "@@ -";
    TakeFieldMatches(r0, ",", a, r1);
    TakeFieldMatches(r1, " +", b, r2);
    TakeFieldMatches(r2, ",", c, r3);
    TakeFieldMatches(r3, " @@", d, rest);
  }

  // ... and only such lines are headers.
  lemma HeaderSplits(line: string) returns (a: string, b: string, c: string, d: string, rest: string)
    requires ReadHeader(line) != NoHeader
    ensures IsHeader(line, a, b, c, d, rest)
  {
    var r0 := line[4..];
    assert line == "@@ -" + r0;
    a := TakeFieldSplits(r0, ",");
    var r1 := TakeField(r0, ",").rest;
    b := TakeFieldSplits(r1, " +");
    var r2 := TakeField(r1, " +").rest;
    c := TakeFieldSplits(r2, ",");
    var r3 := TakeField(r2, ",").rest;
    d := TakeFieldSplits(r3, " @@");
    rest := TakeField(r3, " @@").rest;
  }

  // The parser does not look at the counts.
  function ParseHeader(line: string): LineClass {
    match ReadHeader(line)
    case NoHeader => Unknown
    case HeaderFields(srcPos, _, dstPos, _) => ChunkStart(srcPos, dstPos)
  }

  // The regular expressions in the order in which parse_patchset tries them.
  function Classify(line: string): LineClass {
    if "--- " <= line then SrcFile(line[4..])
    else if "+++ " <= line then DstFile(line[4..])
    else if ParseHeader(line).ChunkStart? then ParseHeader(line)
    else if "-" <= line then Content(Line(Src, line[1..]))
    else if "+" <= line then Content(Line(Dst, line[1..]))
    else if " " <= line then Content(Line(Both, line[1..]))
    else Unknown
  }

  // ---------- The parser ----------

  // current_chunk is the chunk created last; it survives a new "--- " line, so it is looked for in
  // earlier patches as long as the current one has no chunk.
  function AddLine(patches: seq<Patch>, line: Line): Result {
    if patches == [] then Failed(NoCurrentChunk)
    else
      var n := |patches| - 1;
      var p := patches[n];
      if p.chunks != [] then
        var m := |p.chunks| - 1;
        var c := p.chunks[m];
        Ok(patches[..n] + [p.(chunks := p.chunks[..m] + [c.(lines := c.lines + [line])])])
      else
        match AddLine(patches[..n], line)
        case Ok(earlier) => Ok(earlier + [p])
        case Failed(e) => Failed(e)
  }

  function Feed(patches: seq<Patch>, line: LineClass): Result {
    var n := |patches| - 1;
    match line
    case SrcFile(name) => Ok(patches + [Patch(name, "", [])])
    case DstFile(name) =>
      if patches == [] then Failed(NoCurrentPatch)
      else Ok(patches[..n] + [patches[n].(dst := name)])
    case ChunkStart(s, d) =>
      if patches == [] then Failed(NoCurrentPatch)
      else Ok(patches[..n] + [patches[n].(chunks := patches[n].chunks + [Chunk(s, d, [])])])
    case Content(l) => AddLine(patches, l)
    case Unknown => Failed(InvalidLine)
  }

  function ParseFrom(patches: seq<Patch>, lines: seq<LineClass>): Result
    decreases |lines|
  {
    if lines == [] then Ok(patches)
    else
      match ParseFrom(patches, lines[..|lines| - 1])
      case Failed(e) => Failed(e)
      case Ok(next) => Feed(next, lines[|lines| - 1])
  }

  function Classes(lines: seq<string>): seq<LineClass> {
    seq(|lines|, i requires 0 <= i < |lines| => Classify(lines[i]))
  }

  // parse_patchset
  function Parse(lines: seq<string>): Result {
    ParseFrom([], Classes(lines))
  }

  // ---------- The printer ----------

  function SrcLen(lines: seq<Line>): nat {
    if lines == [] then 0 else SrcLen(lines[..|lines| - 1]) + if lines[|lines| - 1].IsSrc() then 1 else 0
  }

  function DstLen(lines: seq<Line>): nat {
    if lines == [] then 0 else DstLen(lines[..|lines| - 1]) + if lines[|lines| - 1].IsDst() then 1 else 0
  }

  function WriteLine(l: Line): string {
    match l.kind
    case Src => "-" + l.text
    case Dst => "+" + l.text
    case Both => " " + l.text
  }

  function WriteLines(lines: seq<Line>): seq<string> {
    seq(|lines|, i requires 0 <= i < |lines| => WriteLine(lines[i]))
  }

  function WriteChunk(c: Chunk): seq<string> {
    [Header(c.srcPos, SrcLen(c.lines), c.dstPos, DstLen(c.lines))] + WriteLines(c.lines)
  }

  function WriteChunks(cs: seq<Chunk>): seq<string> {
    if cs == [] then [] else WriteChunks(cs[..|cs| - 1]) + WriteChunk(cs[|cs| - 1])
  }

  function WritePatch(p: Patch): seq<string> {
    ["--- " + p.src, "+++ " + p.dst] + WriteChunks(p.chunks)
  }

  function Write(ps: seq<Patch>): seq<string> {
    if ps == [] then [] else Write(ps[..|ps| - 1]) + WritePatch(ps[|ps| - 1])
  }

  // ---------- How printed lines are read ----------

  // A removed line that starts with "-- " prints as a file header, and so does an added "++ ".
  predicate PrintableLine(l: Line) {
    !(l.kind == Src && "-- " <= l.text) && !(l.kind == Dst && "++ " <= l.text)
  }

  function PrintedLine(l: Line): LineClass {
    if PrintableLine(l) then Content(l)
    else if l.kind == Src then SrcFile(l.text[3..])
    else DstFile(l.text[3..])
  }

  function PrintedChunk(c: Chunk): seq<LineClass> {
    [ChunkStart(c.srcPos, c.dstPos)] + seq(|c.lines|, i requires 0 <= i < |c.lines| => PrintedLine(c.lines[i]))
  }

  function PrintedChunks(cs: seq<Chunk>): seq<LineClass> {
    if cs == [] then [] else PrintedChunks(cs[..|cs| - 1]) + PrintedChunk(cs[|cs| - 1])
  }

  function PrintedPatch(p: Patch): seq<LineClass> {
    [SrcFile(p.src), DstFile(p.dst)] + PrintedChunks(p.chunks)
  }

  function Printed(ps: seq<Patch>): seq<LineClass> {
    if ps == [] then [] else Printed(ps[..|ps| - 1]) + PrintedPatch(ps[|ps| - 1])
  }

  lemma HeaderReads(srcPos: nat, srcLen: nat, dstPos: nat, dstLen: nat)
    ensures ReadHeader(Header(srcPos, srcLen, dstPos, dstLen)) == HeaderFields(srcPos, srcLen, dstPos, dstLen)
    ensures Header(srcPos, srcLen, dstPos, dstLen)[0] == '@'
  {
    var h4 := Decimal(dstLen) + " @@" + "";
    var h3 := Decimal(dstPos) + "," + h4;
    var h2 := Decimal(srcLen) + " +" + h3;
    var h1 := Decimal(srcPos) + "," + h2;
    var h := Header(srcPos, srcLen, dstPos, dstLen);
    assert h == "@@ -" + h1 && h[4..] == h1;
    TakePrintedField(srcPos, ",", h2);
    TakePrintedField(srcLen, " +", h3);
    TakePrintedField(dstPos, ",", h4);
    TakePrintedField(dstLen, " @@", "");
  }

  // The lines that start with one of two characters.
  function Starting(lines: seq<string>, c: char, d: char): nat {
    if lines == [] then 0
    else
      var l := lines[|lines| - 1];
      Starting(lines[..|lines| - 1], c, d) + if l != "" && (l[0] == c || l[0] == d) then 1 else 0
  }

  lemma {:induction false} LinesStarting(lines: seq<Line>)
    ensures Starting(WriteLines(lines), '-', ' ') == SrcLen(lines)
    ensures Starting(WriteLines(lines), '+', ' ') == DstLen(lines)
  {
    if lines != [] {
      var n := |lines| - 1;
      LinesStarting(lines[..n]);
      assert WriteLines(lines)[..n] == WriteLines(lines[..n]);
    }
  }

  // The counts of a printed header are those of the removed or shared and of the added or shared
  // lines printed below it.
  lemma HeaderCountsLines(c: Chunk)
    ensures var f, below := ReadHeader(WriteChunk(c)[0]), WriteChunk(c)[1..];
            && f.HeaderFields?
            && f.srcLen == Starting(below, '-', ' ') && f.dstLen == Starting(below, '+', ' ')
  {
    HeaderReads(c.srcPos, SrcLen(c.lines), c.dstPos, DstLen(c.lines));
    LinesStarting(c.lines);
    assert WriteChunk(c)[1..] == WriteLines(c.lines);
  }

  lemma PrefixAfter(c: char, prefix: string, text: string)
    ensures [c] + prefix <= [c] + text <==> prefix <= text
  {
    assert ([c] + text)[1..] == text && ([c] + prefix)[1..] == prefix;
    if [c] + prefix <= [c] + text {
      assert ([c] + text)[..1 + |prefix|] == [c] + prefix;
      assert text[..|prefix|] == ([c] + text)[1..1 + |prefix|] == prefix;
    }
    if prefix <= text {
      assert ([c] + text)[..1 + |prefix|] == [c] + text[..|prefix|];
    }
  }

  lemma LineReads(l: Line)
    ensures Classify(WriteLine(l)) == PrintedLine(l)
  {
    var w := WriteLine(l);
    assert w[1..] == l.text;
    assert "--- "[0] == '-' && "+++ "[0] == '+' && "@@ -"[0] == '@';
    match l.kind {
      case Src =>
        assert "-" + "-- " == "--- ";
        PrefixAfter('-', "-- ", l.text);
        if "-- " <= l.text { assert l.text[3..] == w[4..]; }
      case Dst =>
        assert "+" + "++ " == "+++ ";
        PrefixAfter('+', "++ ", l.text);
        if "++ " <= l.text { assert l.text[3..] == w[4..]; }
      case Both =>
        assert w[0] == ' ';
    }
  }

  lemma OtherStart(prefix: string, s: string)
    requires prefix != [] && s != [] && prefix[0] != s[0]
    ensures !(prefix <= s)
  {
  }

  lemma AtLineReads(h: string)
    requires h != [] && h[0] == '@' && ParseHeader(h).ChunkStart?
    ensures Classify(h) == ParseHeader(h)
  {
    OtherStart("--- ", h);
    OtherStart("+++ ", h);
  }

  lemma HeaderLineReads(c: Chunk, h: string)
    requires h == Header(c.srcPos, SrcLen(c.lines), c.dstPos, DstLen(c.lines))
    ensures Classify(h) == ChunkStart(c.srcPos, c.dstPos)
  {
    HeaderReads(c.srcPos, SrcLen(c.lines), c.dstPos, DstLen(c.lines));
    AtLineReads(h);
  }

  lemma LinesRead(lines: seq<Line>)
    ensures Classes(WriteLines(lines)) == seq(|lines|, i requires 0 <= i < |lines| => PrintedLine(lines[i]))
  {
    forall i | 0 <= i < |lines| ensures Classes(WriteLines(lines))[i] == PrintedLine(lines[i]) {
      LineReads(lines[i]);
    }
  }

  lemma ClassesConcat(a: seq<string>, b: seq<string>)
    ensures Classes(a + b) == Classes(a) + Classes(b)
  {
  }

  lemma ClassesOfChunk(c: Chunk, h: string, lines: seq<string>)
    requires Classify(h) == ChunkStart(c.srcPos, c.dstPos)
    requires Classes(lines) == seq(|c.lines|, i requires 0 <= i < |c.lines| => PrintedLine(c.lines[i]))
    ensures Classes([h] + lines) == PrintedChunk(c)
  {
    ClassesConcat([h], lines);
    assert Classes([h]) == [Classify(h)];
  }

  lemma ChunkReads(c: Chunk)
    ensures Classes(WriteChunk(c)) == PrintedChunk(c)
  {
    var h := Header(c.srcPos, SrcLen(c.lines), c.dstPos, DstLen(c.lines));
    HeaderLineReads(c, h);
    LinesRead(c.lines);
    ClassesOfChunk(c, h, WriteLines(c.lines));
  }

  lemma {:induction false} ChunksRead(cs: seq<Chunk>)
    ensures Classes(WriteChunks(cs)) == PrintedChunks(cs)
  {
    if cs != [] {
      var n := |cs| - 1;
      ChunksRead(cs[..n]);
      ChunkReads(cs[n]);
      ClassesConcat(WriteChunks(cs[..n]), WriteChunk(cs[n]));
    }
  }

  lemma PatchReads(p: Patch)
    ensures Classes(WritePatch(p)) == PrintedPatch(p)
  {
    var l0, l1 := "--- " + p.src, "+++ " + p.dst;
    assert l0[..4] == "--- " && l0[4..] == p.src;
    assert l1[..4] == "+++ " && l1[4..] == p.dst && l1[0] == '+';
    ChunksRead(p.chunks);
    ClassesConcat([l0, l1], WriteChunks(p.chunks));
  }

  lemma {:induction false} PatchesRead(ps: seq<Patch>)
    ensures Classes(Write(ps)) == Printed(ps)
  {
    if ps != [] {
      var n := |ps| - 1;
      PatchesRead(ps[..n]);
      PatchReads(ps[n]);
      ClassesConcat(Write(ps[..n]), WritePatch(ps[n]));
    }
  }

  // ---------- Reading back what was printed ----------

  ghost predicate PrintableChunk(c: Chunk) {
    forall i {:trigger PrintableLine(c.lines[i])} :: 0 <= i < |c.lines| ==> PrintableLine(c.lines[i])
  }

  ghost predicate PrintableChunks(cs: seq<Chunk>) {
    forall i {:trigger PrintableChunk(cs[i])} :: 0 <= i < |cs| ==> PrintableChunk(cs[i])
  }

  ghost predicate PrintablePatch(p: Patch) {
    PrintableChunks(p.chunks)
  }

  ghost predicate Printable(ps: seq<Patch>) {
    forall i {:trigger PrintablePatch(ps[i])} :: 0 <= i < |ps| ==> PrintablePatch(ps[i])
  }

  lemma {:induction false} ParseConcat(ps: seq<Patch>, a: seq<LineClass>, b: seq<LineClass>)
    ensures ParseFrom(ps, a + b) == match ParseFrom(ps, a)
                                    case Ok(next) => ParseFrom(next, b)
                                    case Failed(e) => Failed(e)
    decreases |b|
  {
    if b == [] {
      assert a + b == a;
    } else {
      var n := |b| - 1;
      assert (a + b)[..|a + b| - 1] == a + b[..n];
      ParseConcat(ps, a, b[..n]);
    }
  }

  // A failure is final.
  lemma ParseFailsEarly(ps: seq<Patch>, lines: seq<LineClass>, n: nat)
    requires n <= |lines| && ParseFrom(ps, lines[..n]).Failed?
    ensures ParseFrom(ps, lines) == ParseFrom(ps, lines[..n])
  {
    ParseConcat(ps, lines[..n], lines[n..]);
    assert lines[..n] + lines[n..] == lines;
  }

  lemma ParseOne(ps: seq<Patch>, c: LineClass)
    ensures ParseFrom(ps, [c]) == Feed(ps, c)
  {
    assert ParseFrom(ps, [c][..0]) == Ok(ps);
  }

  lemma FeedContent(ps: seq<Patch>, p: Patch, cs: seq<Chunk>, c: Chunk, l: Line)
    ensures Feed(ps + [p.(chunks := cs + [c])], Content(l))
            == Ok(ps + [p.(chunks := cs + [c.(lines := c.lines + [l])])])
  {
    assert (ps + [p.(chunks := cs + [c])])[..|ps|] == ps;
    assert (cs + [c])[..|cs|] == cs;
  }

  lemma PrintableLastChunk(cs: seq<Chunk>)
    requires cs != []
    ensures PrintableChunks(cs) <==> PrintableChunks(cs[..|cs| - 1]) && PrintableChunk(cs[|cs| - 1])
  {
    var n := |cs| - 1;
    if PrintableChunks(cs) {
      assert PrintableChunk(cs[n]);
      forall i | 0 <= i < n ensures PrintableChunk(cs[..n][i]) { assert PrintableChunk(cs[i]); }
    }
    if PrintableChunks(cs[..n]) && PrintableChunk(cs[n]) {
      forall i | 0 <= i < |cs| ensures PrintableChunk(cs[i]) {
        if i < n { assert PrintableChunk(cs[..n][i]); }
      }
    }
  }

  function Contents(lines: seq<Line>): seq<LineClass> {
    seq(|lines|, i requires 0 <= i < |lines| => Content(lines[i]))
  }

  // Feeding the lines of a chunk extends the chunk created last.
  lemma {:induction false} ParseContents(ps: seq<Patch>, p: Patch, cs: seq<Chunk>, c: Chunk, lines: seq<Line>)
    ensures ParseFrom(ps + [p.(chunks := cs + [c])], Contents(lines))
            == Ok(ps + [p.(chunks := cs + [c.(lines := c.lines + lines)])])
  {
    if lines == [] {
      assert c.lines + lines == c.lines;
    } else {
      var n := |lines| - 1;
      ParseContents(ps, p, cs, c, lines[..n]);
      assert Contents(lines)[..n] == Contents(lines[..n]);
      FeedContent(ps, p, cs, c.(lines := c.lines + lines[..n]), lines[n]);
      assert c.lines + lines[..n] + [lines[n]] == c.lines + lines;
    }
  }

  lemma ParsePrintedChunk(ps: seq<Patch>, p: Patch, cs: seq<Chunk>, c: Chunk)
    requires PrintableChunk(c)
    ensures ParseFrom(ps + [p.(chunks := cs)], PrintedChunk(c)) == Ok(ps + [p.(chunks := cs + [c])])
  {
    var state := ps + [p.(chunks := cs)];
    assert state[..|ps|] == ps;
    var empty := Chunk(c.srcPos, c.dstPos, []);
    var contents := Contents(c.lines);
    assert PrintedChunk(c) == [ChunkStart(c.srcPos, c.dstPos)] + contents;
    ParseOne(state, ChunkStart(c.srcPos, c.dstPos));
    assert Feed(state, ChunkStart(c.srcPos, c.dstPos)) == Ok(ps + [p.(chunks := cs + [empty])]);
    ParseConcat(state, [ChunkStart(c.srcPos, c.dstPos)], contents);
    ParseContents(ps, p, cs, empty, c.lines);
    assert [] + c.lines == c.lines;
  }

  lemma PrefixStep<T>(s: seq<T>, n: nat)
    requires n < |s|
    ensures s[..n + 1] == s[..n] + [s[n]]
  {
  }

  lemma ReadOneMoreChunk(ps: seq<Patch>, p: Patch, first: seq<Chunk>, last: Chunk)
    requires ParseFrom(ps + [p.(chunks := [])], PrintedChunks(first)) == Ok(ps + [p.(chunks := first)])
    requires PrintableChunk(last)
    ensures ParseFrom(ps + [p.(chunks := [])], PrintedChunks(first + [last])) == Ok(ps + [p.(chunks := first + [last])])
  {
    assert (first + [last])[..|first|] == first;
    ParseConcat(ps + [p.(chunks := [])], PrintedChunks(first), PrintedChunk(last));
    ParsePrintedChunk(ps, p, first, last);
  }

  lemma {:induction false} ParsePrintedChunks(ps: seq<Patch>, p: Patch, cs: seq<Chunk>)
    requires PrintableChunks(cs)
    ensures ParseFrom(ps + [p.(chunks := [])], PrintedChunks(cs)) == Ok(ps + [p.(chunks := cs)])
  {
    if cs != [] {
      var first, last := cs[..|cs| - 1], cs[|cs| - 1];
      assert first + [last] == cs;
      PrintableLastChunk(cs);
      ParsePrintedChunks(ps, p, first);
      ReadOneMoreChunk(ps, p, first, last);
    }
  }

  lemma ParsePrintedPatch(ps: seq<Patch>, p: Patch)
    requires PrintablePatch(p)
    ensures ParseFrom(ps, PrintedPatch(p)) == Ok(ps + [p])
  {
    var s1 := ps + [Patch(p.src, "", [])];
    assert s1[..|ps|] == ps;
    ParseOne(ps, SrcFile(p.src));
    ParseOne(s1, DstFile(p.dst));
    ParseConcat(ps, [SrcFile(p.src)], [DstFile(p.dst)]);
    assert [SrcFile(p.src), DstFile(p.dst)] == [SrcFile(p.src)] + [DstFile(p.dst)];
    ParseConcat(ps, [SrcFile(p.src), DstFile(p.dst)], PrintedChunks(p.chunks));
    ParsePrintedChunks(ps, p, p.chunks);
    assert p.(chunks := []) == Patch(p.src, p.dst, []);
  }

  lemma ReadOneMore(first: seq<Patch>, last: Patch)
    requires ParseFrom([], Printed(first)) == Ok(first) && PrintablePatch(last)
    ensures ParseFrom([], Printed(first + [last])) == Ok(first + [last])
  {
    assert (first + [last])[..|first|] == first;
    ParseConcat([], Printed(first), PrintedPatch(last));
    ParsePrintedPatch(first, last);
  }

  lemma PrintableLast(ps: seq<Patch>)
    requires ps != []
    ensures Printable(ps) <==> Printable(ps[..|ps| - 1]) && PrintablePatch(ps[|ps| - 1])
  {
    var n := |ps| - 1;
    if Printable(ps) {
      assert PrintablePatch(ps[n]);
      forall i | 0 <= i < n ensures PrintablePatch(ps[..n][i]) { assert PrintablePatch(ps[i]); }
    }
    if Printable(ps[..n]) && PrintablePatch(ps[n]) {
      forall i | 0 <= i < |ps| ensures PrintablePatch(ps[i]) {
        if i < n { assert PrintablePatch(ps[..n][i]); }
      }
    }
  }

  lemma PrintedReadsBack(ps: seq<Patch>)
    requires Printable(ps)
    ensures ParseFrom([], Printed(ps)) == Ok(ps)
  {
    assert ps[..|ps|] == ps;
    var read: seq<Patch> := [];
    var n := 0;
    while n < |ps|
      invariant n <= |ps| && read == ps[..n]
      invariant ParseFrom([], Printed(read)) == Ok(read)
    {
      PrefixStep(ps, n);
      assert PrintablePatch(ps[n]);
      ReadOneMore(read, ps[n]);
      read := read + [ps[n]];
      n := n + 1;
    }
  }

  // ---------- ... and only then ----------

  function ContentLines(lines: seq<LineClass>): nat {
    if lines == [] then 0 else ContentLines(lines[..|lines| - 1]) + if lines[|lines| - 1].Content? then 1 else 0
  }

  function ChunkLineCount(cs: seq<Chunk>): nat {
    if cs == [] then 0 else ChunkLineCount(cs[..|cs| - 1]) + |cs[|cs| - 1].lines|
  }

  function LineCount(ps: seq<Patch>): nat {
    if ps == [] then 0 else LineCount(ps[..|ps| - 1]) + ChunkLineCount(ps[|ps| - 1].chunks)
  }

  lemma LineCountAppend(ps: seq<Patch>, p: Patch)
    ensures LineCount(ps + [p]) == LineCount(ps) + ChunkLineCount(p.chunks)
  {
    assert (ps + [p])[..|ps|] == ps;
  }

  lemma ChunkLineCountAppend(cs: seq<Chunk>, c: Chunk)
    ensures ChunkLineCount(cs + [c]) == ChunkLineCount(cs) + |c.lines|
  {
    assert (cs + [c])[..|cs|] == cs;
  }

  lemma {:induction false} AddLineCounts(ps: seq<Patch>, l: Line)
    ensures AddLine(ps, l).Ok? ==> LineCount(AddLine(ps, l).patches) == LineCount(ps) + 1
  {
    if ps != [] {
      var n := |ps| - 1;
      var p := ps[n];
      if p.chunks != [] {
        var m := |p.chunks| - 1;
        var c := p.chunks[m];
        ChunkLineCountAppend(p.chunks[..m], c.(lines := c.lines + [l]));
        LineCountAppend(ps[..n], p.(chunks := p.chunks[..m] + [c.(lines := c.lines + [l])]));
      } else {
        AddLineCounts(ps[..n], l);
        if AddLine(ps[..n], l).Ok? { LineCountAppend(AddLine(ps[..n], l).patches, p); }
      }
    }
  }

  lemma FeedCounts(ps: seq<Patch>, line: LineClass)
    requires Feed(ps, line).Ok?
    ensures LineCount(Feed(ps, line).patches) == LineCount(ps) + if line.Content? then 1 else 0
  {
    var n := |ps| - 1;
    match line
    case SrcFile(name) => LineCountAppend(ps, Patch(name, "", []));
    case DstFile(name) => LineCountAppend(ps[..n], ps[n].(dst := name));
    case ChunkStart(s, d) =>
      ChunkLineCountAppend(ps[n].chunks, Chunk(s, d, []));
      LineCountAppend(ps[..n], ps[n].(chunks := ps[n].chunks + [Chunk(s, d, [])]));
    case Content(l) => AddLineCounts(ps, l);
    case Unknown =>
  }

  // The parsed patches hold as many lines as content lines were read.
  lemma {:induction false} ParseCounts(lines: seq<LineClass>)
    requires ParseFrom([], lines).Ok?
    ensures LineCount(ParseFrom([], lines).patches) == ContentLines(lines)
  {
    if lines != [] {
      var n := |lines| - 1;
      ParseCounts(lines[..n]);
      FeedCounts(ParseFrom([], lines[..n]).patches, lines[n]);
    }
  }

  lemma {:induction false} ContentLinesConcat(a: seq<LineClass>, b: seq<LineClass>)
    ensures ContentLines(a + b) == ContentLines(a) + ContentLines(b)
  {
    if b == [] {
      assert a + b == a;
    } else {
      var n := |b| - 1;
      ContentLinesConcat(a, b[..n]);
      assert (a + b)[..|a| + n] == a + b[..n];
    }
  }

  lemma ContentLinesOne(c: LineClass)
    ensures ContentLines([c]) == if c.Content? then 1 else 0
  {
    assert [c][..0] == [];
  }

  lemma {:induction false} AllContent(lines: seq<LineClass>)
    ensures ContentLines(lines) <= |lines|
    ensures ContentLines(lines) == |lines| <==> forall i :: 0 <= i < |lines| ==> lines[i].Content?
  {
    if lines != [] {
      var n := |lines| - 1;
      AllContent(lines[..n]);
      assert forall i :: 0 <= i < n ==> lines[..n][i] == lines[i];
    }
  }

  lemma PrintedChunkCount(c: Chunk)
    ensures ContentLines(PrintedChunk(c)) <= |c.lines|
    ensures ContentLines(PrintedChunk(c)) == |c.lines| <==> PrintableChunk(c)
  {
    var contents := seq(|c.lines|, i requires 0 <= i < |c.lines| => PrintedLine(c.lines[i]));
    ContentLinesConcat([ChunkStart(c.srcPos, c.dstPos)], contents);
    ContentLinesOne(ChunkStart(c.srcPos, c.dstPos));
    AllContent(contents);
    assert forall i :: 0 <= i < |c.lines| ==> (contents[i].Content? <==> PrintableLine(c.lines[i]));
  }

  lemma {:induction false} PrintedChunksCount(cs: seq<Chunk>)
    ensures ContentLines(PrintedChunks(cs)) <= ChunkLineCount(cs)
    ensures ContentLines(PrintedChunks(cs)) == ChunkLineCount(cs) <==> PrintableChunks(cs)
  {
    if cs != [] {
      var n := |cs| - 1;
      PrintedChunksCount(cs[..n]);
      PrintedChunkCount(cs[n]);
      ContentLinesConcat(PrintedChunks(cs[..n]), PrintedChunk(cs[n]));
      PrintableLastChunk(cs);
    }
  }

  lemma PrintedPatchCount(p: Patch)
    ensures ContentLines(PrintedPatch(p)) <= ChunkLineCount(p.chunks)
    ensures ContentLines(PrintedPatch(p)) == ChunkLineCount(p.chunks) <==> PrintablePatch(p)
  {
    var head := [SrcFile(p.src), DstFile(p.dst)];
    assert head == [SrcFile(p.src)] + [DstFile(p.dst)];
    ContentLinesConcat([SrcFile(p.src)], [DstFile(p.dst)]);
    ContentLinesOne(SrcFile(p.src));
    ContentLinesOne(DstFile(p.dst));
    PrintedChunksCount(p.chunks);
    ContentLinesConcat(head, PrintedChunks(p.chunks));
  }

  lemma {:induction false} PrintedCount(ps: seq<Patch>)
    ensures ContentLines(Printed(ps)) <= LineCount(ps)
    ensures ContentLines(Printed(ps)) == LineCount(ps) <==> Printable(ps)
  {
    if ps != [] {
      var n := |ps| - 1;
      PrintedCount(ps[..n]);
      PrintedPatchCount(ps[n]);
      ContentLinesConcat(Printed(ps[..n]), PrintedPatch(ps[n]));
      PrintableLast(ps);
    }
  }

  // Printed patches read back as themselves exactly when no removed line starts with "-- " and no
  // added line with "++ ".
  lemma RoundTrip(ps: seq<Patch>)
    ensures Parse(Write(ps)) == Ok(ps) <==> Printable(ps)
  {
    PatchesRead(ps);
    if Printable(ps) {
      PrintedReadsBack(ps);
    }
    if Parse(Write(ps)) == Ok(ps) {
      ParseCounts(Printed(ps));
      PrintedCount(ps);
    }
  }

  // ---------- The parser's own results are always printable ----------

  predicate PrintableClass(c: LineClass) {
    c.Content? ==> PrintableLine(c.line)
  }

  lemma ClassifyPrintable(line: string)
    ensures PrintableClass(Classify(line))
    ensures Classify(line).Content? ==> WriteLine(Classify(line).line) == line
  {
    var c := Classify(line);
    if c.Content? {
      assert line == [line[0]] + line[1..];
      LineReads(c.line);
    }
  }

  lemma AppendPrintable(ps: seq<Patch>, p: Patch)
    requires Printable(ps) && PrintablePatch(p)
    ensures Printable(ps + [p])
  {
    assert (ps + [p])[..|ps|] == ps;
    PrintableLast(ps + [p]);
  }

  lemma ExtendPrintable(c: Chunk, l: Line)
    requires PrintableChunk(c) && PrintableLine(l)
    ensures PrintableChunk(c.(lines := c.lines + [l]))
  {
    forall i | 0 <= i < |c.lines| + 1 ensures PrintableLine((c.lines + [l])[i]) {
      if i < |c.lines| { assert PrintableLine(c.lines[i]); }
    }
  }

  lemma {:induction false} AddLinePrintable(ps: seq<Patch>, l: Line)
    requires Printable(ps) && PrintableLine(l)
    ensures AddLine(ps, l).Ok? ==> Printable(AddLine(ps, l).patches)
  {
    if ps != [] {
      var n := |ps| - 1;
      var p := ps[n];
      PrintableLast(ps);
      if p.chunks != [] {
        var m := |p.chunks| - 1;
        var c := p.chunks[m].(lines := p.chunks[m].lines + [l]);
        PrintableLastChunk(p.chunks);
        ExtendPrintable(p.chunks[m], l);
        assert (p.chunks[..m] + [c])[..m] == p.chunks[..m];
        PrintableLastChunk(p.chunks[..m] + [c]);
        AppendPrintable(ps[..n], p.(chunks := p.chunks[..m] + [c]));
      } else {
        AddLinePrintable(ps[..n], l);
        if AddLine(ps[..n], l).Ok? { AppendPrintable(AddLine(ps[..n], l).patches, p); }
      }
    }
  }

  lemma FeedPrintable(ps: seq<Patch>, line: LineClass)
    requires Printable(ps) && PrintableClass(line) && Feed(ps, line).Ok?
    ensures Printable(Feed(ps, line).patches)
  {
    var n := |ps| - 1;
    if ps != [] { PrintableLast(ps); }
    match line
    case SrcFile(name) => AppendPrintable(ps, Patch(name, "", []));
    case DstFile(name) => AppendPrintable(ps[..n], ps[n].(dst := name));
    case ChunkStart(s, d) =>
      var chunks := ps[n].chunks + [Chunk(s, d, [])];
      assert chunks[..|chunks| - 1] == ps[n].chunks;
      PrintableLastChunk(chunks);
      AppendPrintable(ps[..n], ps[n].(chunks := ps[n].chunks + [Chunk(s, d, [])]));
    case Content(l) => AddLinePrintable(ps, l);
    case Unknown =>
  }

  lemma {:induction false} ParsedIsPrintable(lines: seq<LineClass>)
    requires ParseFrom([], lines).Ok? && forall i :: 0 <= i < |lines| ==> PrintableClass(lines[i])
    ensures Printable(ParseFrom([], lines).patches)
  {
    if lines != [] {
      var n := |lines| - 1;
      ParsedIsPrintable(lines[..n]);
      FeedPrintable(ParseFrom([], lines[..n]).patches, lines[n]);
    }
  }

  lemma ParserIsPrintable(lines: seq<string>)
    requires Parse(lines).Ok?
    ensures Printable(Parse(lines).patches)
  {
    forall i | 0 <= i < |lines| ensures PrintableClass(Classes(lines)[i]) {
      ClassifyPrintable(lines[i]);
    }
    ParsedIsPrintable(Classes(lines));
  }

  // Whatever the parser accepts, printing the result and parsing it again changes nothing.
  lemma ParsePrintParse(lines: seq<string>)
    requires Parse(lines).Ok?
    ensures Parse(Write(Parse(lines).patches)) == Parse(lines)
  {
    ParserIsPrintable(lines);
    RoundTrip(Parse(lines).patches);
  }

  // ---------- When parsing fails ----------

  // What is wrong with a line: no pattern matches, or there is no patch or no chunk yet for it to go to.
  ghost function ErrorAt(lines: seq<LineClass>, i: nat): Option<Error>
    requires i < |lines|
  {
    match lines[i]
    case SrcFile(_) => None
    case Unknown => Some(InvalidLine)
    case Content(_) => if exists j :: 0 <= j < i && lines[j].ChunkStart? then None else Some(NoCurrentChunk)
    case _ => if exists j :: 0 <= j < i && lines[j].SrcFile? then None else Some(NoCurrentPatch)
  }

  ghost predicate HasChunk(ps: seq<Patch>) {
    exists k :: 0 <= k < |ps| && ps[k].chunks != []
  }

  lemma {:induction false} AddLineNeedsChunk(ps: seq<Patch>, l: Line)
    ensures if HasChunk(ps) then AddLine(ps, l).Ok? && HasChunk(AddLine(ps, l).patches)
            else AddLine(ps, l) == Failed(NoCurrentChunk)
    ensures AddLine(ps, l).Ok? ==> |AddLine(ps, l).patches| == |ps|
  {
    if ps != [] {
      var n := |ps| - 1;
      AddLineNeedsChunk(ps[..n], l);
      if ps[n].chunks != [] {
        assert AddLine(ps, l).patches[n].chunks != [];
      } else if k :| 0 <= k < |ps| && ps[k].chunks != [] {
        assert ps[..n][k].chunks != [];
        var q := AddLine(ps[..n], l).patches;
        var m :| 0 <= m < |q| && q[m].chunks != [];
        assert AddLine(ps, l).patches[m].chunks != [];
      }
    }
  }

  lemma FeedKeepsTrack(ps: seq<Patch>, line: LineClass)
    requires Feed(ps, line).Ok?
    ensures Feed(ps, line).patches != [] <==> ps != [] || line.SrcFile?
    ensures HasChunk(Feed(ps, line).patches) <==> HasChunk(ps) || line.ChunkStart?
  {
    var next, n := Feed(ps, line).patches, |ps| - 1;
    if line.Content? {
      AddLineNeedsChunk(ps, line.line);
    } else {
      assert forall k :: 0 <= k < n ==> next[k] == ps[k];
      if k :| 0 <= k < |ps| && ps[k].chunks != [] { assert next[k].chunks != []; }
      if line.ChunkStart? { assert next[n].chunks != []; }
    }
  }

  lemma {:induction false} ParsedSoFar(lines: seq<LineClass>)
    requires ParseFrom([], lines).Ok?
    ensures ParseFrom([], lines).patches != [] <==> exists j :: 0 <= j < |lines| && lines[j].SrcFile?
    ensures HasChunk(ParseFrom([], lines).patches) <==> exists j :: 0 <= j < |lines| && lines[j].ChunkStart?
  {
    if lines != [] {
      var n := |lines| - 1;
      ParsedSoFar(lines[..n]);
      FeedKeepsTrack(ParseFrom([], lines[..n]).patches, lines[n]);
      assert forall j :: 0 <= j < n ==> lines[..n][j] == lines[j];
    }
  }

  lemma ParsedBefore(lines: seq<LineClass>, i: nat)
    requires i <= |lines| && ParseFrom([], lines[..i]).Ok?
    ensures ParseFrom([], lines[..i]).patches != [] <==> exists j :: 0 <= j < i && lines[j].SrcFile?
    ensures HasChunk(ParseFrom([], lines[..i]).patches) <==> exists j :: 0 <= j < i && lines[j].ChunkStart?
  {
    ParsedSoFar(lines[..i]);
    assert forall j :: 0 <= j < i ==> lines[..i][j] == lines[j];
  }

  lemma FeedFails(ps: seq<Patch>, line: LineClass)
    ensures match line
            case SrcFile(_) => Feed(ps, line).Ok?
            case Unknown => Feed(ps, line) == Failed(InvalidLine)
            case Content(_) => if HasChunk(ps) then Feed(ps, line).Ok? else Feed(ps, line) == Failed(NoCurrentChunk)
            case _ => if ps != [] then Feed(ps, line).Ok? else Feed(ps, line) == Failed(NoCurrentPatch)
  {
    if line.Content? { AddLineNeedsChunk(ps, line.line); }
  }

  lemma NextFails(lines: seq<LineClass>, i: nat)
    requires i < |lines| && ParseFrom([], lines[..i]).Ok?
    ensures match ErrorAt(lines, i)
            case None => ParseFrom([], lines[..i + 1]).Ok?
            case Some(e) => ParseFrom([], lines[..i + 1]) == Failed(e)
  {
    assert lines[..i + 1][..i] == lines[..i];
    ParsedBefore(lines, i);
    FeedFails(ParseFrom([], lines[..i]).patches, lines[i]);
  }

  // The first faulty line decides how parsing ends; without one it succeeds.
  lemma {:induction false} ParseErrors(lines: seq<LineClass>, i: nat)
    requires i <= |lines| && forall j :: 0 <= j < i ==> ErrorAt(lines, j) == None
    ensures ParseFrom([], lines[..i]).Ok?
    ensures i < |lines| && ErrorAt(lines, i).Some? ==> ParseFrom([], lines) == Failed(ErrorAt(lines, i).value)
  {
    if i > 0 {
      ParseErrors(lines, i - 1);
      NextFails(lines, i - 1);
    }
    if i < |lines| && ErrorAt(lines, i).Some? {
      NextFails(lines, i);
      ParseFailsEarly([], lines, i + 1);
    }
  }

  // ---------- What parsing keeps ----------

  // The chunks with their lines, one patch after the other.
  function ChunkEvents(cs: seq<Chunk>): seq<LineClass> {
    if cs == [] then []
    else
      var c := cs[|cs| - 1];
      ChunkEvents(cs[..|cs| - 1]) + [ChunkStart(c.srcPos, c.dstPos)] + Contents(c.lines)
  }

  function AllChunkEvents(ps: seq<Patch>): seq<LineClass> {
    if ps == [] then [] else AllChunkEvents(ps[..|ps| - 1]) + ChunkEvents(ps[|ps| - 1].chunks)
  }

  function ChunksIn(lines: seq<LineClass>): seq<LineClass> {
    if lines == [] then []
    else
      var last := lines[|lines| - 1];
      ChunksIn(lines[..|lines| - 1]) + if last.ChunkStart? || last.Content? then [last] else []
  }

  lemma ChunkEventsAppend(cs: seq<Chunk>, c: Chunk)
    ensures ChunkEvents(cs + [c]) == ChunkEvents(cs) + [ChunkStart(c.srcPos, c.dstPos)] + Contents(c.lines)
  {
    assert (cs + [c])[..|cs|] == cs;
  }

  lemma AllChunkEventsAppend(ps: seq<Patch>, p: Patch)
    ensures AllChunkEvents(ps + [p]) == AllChunkEvents(ps) + ChunkEvents(p.chunks)
  {
    assert (ps + [p])[..|ps|] == ps;
  }

  lemma LineAddsEvent(cs: seq<Chunk>, c: Chunk, l: Line)
    ensures ChunkEvents(cs + [c.(lines := c.lines + [l])]) == ChunkEvents(cs + [c]) + [Content(l)]
  {
    ChunkEventsAppend(cs, c);
    ChunkEventsAppend(cs, c.(lines := c.lines + [l]));
    assert Contents(c.lines + [l]) == Contents(c.lines) + [Content(l)];
  }

  lemma {:induction false} AddLineAddsEvent(ps: seq<Patch>, l: Line)
    requires AddLine(ps, l).Ok?
    ensures AllChunkEvents(AddLine(ps, l).patches) == AllChunkEvents(ps) + [Content(l)]
  {
    var n := |ps| - 1;
    var p := ps[n];
    assert ps == ps[..n] + [p];
    AllChunkEventsAppend(ps[..n], p);
    if p.chunks != [] {
      var m := |p.chunks| - 1;
      var c := p.chunks[m];
      assert p.chunks == p.chunks[..m] + [c];
      LineAddsEvent(p.chunks[..m], c, l);
      AllChunkEventsAppend(ps[..n], p.(chunks := p.chunks[..m] + [c.(lines := c.lines + [l])]));
    } else {
      AddLineAddsEvent(ps[..n], l);
      AllChunkEventsAppend(AddLine(ps[..n], l).patches, p);
    }
  }

  lemma EmptyChunkEvent(cs: seq<Chunk>, s: nat, d: nat)
    ensures ChunkEvents(cs + [Chunk(s, d, [])]) == ChunkEvents(cs) + [ChunkStart(s, d)]
  {
    ChunkEventsAppend(cs, Chunk(s, d, []));
    assert Contents([]) == [];
  }

  lemma StartAddsEvent(before: seq<Patch>, p: Patch, q: Patch, s: nat, d: nat)
    requires q.chunks == p.chunks + [Chunk(s, d, [])]
    ensures AllChunkEvents(before + [q]) == AllChunkEvents(before + [p]) + [ChunkStart(s, d)]
  {
    AllChunkEventsAppend(before, p);
    AllChunkEventsAppend(before, q);
    EmptyChunkEvent(p.chunks, s, d);
  }

  lemma RenameKeepsEvents(before: seq<Patch>, p: Patch, q: Patch)
    requires q.chunks == p.chunks
    ensures AllChunkEvents(before + [q]) == AllChunkEvents(before + [p])
  {
    AllChunkEventsAppend(before, p);
    AllChunkEventsAppend(before, q);
  }

  lemma FeedAddsEvent(ps: seq<Patch>, line: LineClass)
    requires Feed(ps, line).Ok?
    ensures AllChunkEvents(Feed(ps, line).patches)
            == AllChunkEvents(ps) + if line.ChunkStart? || line.Content? then [line] else []
  {
    var n := |ps| - 1;
    assert ps != [] ==> ps == ps[..n] + [ps[n]];
    match line
    case SrcFile(name) => AllChunkEventsAppend(ps, Patch(name, "", []));
    case DstFile(name) => RenameKeepsEvents(ps[..n], ps[n], ps[n].(dst := name));
    case ChunkStart(s, d) =>
      StartAddsEvent(ps[..n], ps[n], ps[n].(chunks := ps[n].chunks + [Chunk(s, d, [])]), s, d);
    case Content(l) => AddLineAddsEvent(ps, l);
    case Unknown =>
  }

  // The chunks and their lines come out in the order in which they are read: every line belongs to the chunk
  // started last, also when a new patch has been started since.
  lemma {:induction false} ParseKeepsLines(lines: seq<LineClass>)
    requires ParseFrom([], lines).Ok?
    ensures AllChunkEvents(ParseFrom([], lines).patches) == ChunksIn(lines)
  {
    if lines != [] {
      var n := |lines| - 1;
      ParseKeepsLines(lines[..n]);
      FeedAddsEvent(ParseFrom([], lines[..n]).patches, lines[n]);
    }
  }

  // The files, each with the starts of its chunks.
  function Starts(cs: seq<Chunk>): seq<LineClass> {
    seq(|cs|, i requires 0 <= i < |cs| => ChunkStart(cs[i].srcPos, cs[i].dstPos))
  }

  function FileEvents(ps: seq<Patch>): seq<LineClass> {
    if ps == [] then []
    else FileEvents(ps[..|ps| - 1]) + [SrcFile(ps[|ps| - 1].src)] + Starts(ps[|ps| - 1].chunks)
  }

  function FilesIn(lines: seq<LineClass>): seq<LineClass> {
    if lines == [] then []
    else
      var last := lines[|lines| - 1];
      FilesIn(lines[..|lines| - 1]) + if last.SrcFile? || last.ChunkStart? then [last] else []
  }

  lemma FileEventsAppend(ps: seq<Patch>, p: Patch)
    ensures FileEvents(ps + [p]) == FileEvents(ps) + [SrcFile(p.src)] + Starts(p.chunks)
  {
    assert (ps + [p])[..|ps|] == ps;
  }

  lemma {:induction false} AddLineKeepsFiles(ps: seq<Patch>, l: Line)
    requires AddLine(ps, l).Ok?
    ensures FileEvents(AddLine(ps, l).patches) == FileEvents(ps)
  {
    var n := |ps| - 1;
    var p := ps[n];
    if p.chunks != [] {
      var m := |p.chunks| - 1;
      var c := p.chunks[m];
      var cs := p.chunks[..m] + [c.(lines := c.lines + [l])];
      assert Starts(cs) == Starts(p.chunks);
      FileEventsAppend(ps[..n], p.(chunks := cs));
    } else {
      AddLineKeepsFiles(ps[..n], l);
      FileEventsAppend(AddLine(ps[..n], l).patches, p);
    }
  }

  lemma StartAddsFile(before: seq<Patch>, p: Patch, q: Patch, s: nat, d: nat)
    requires q.src == p.src && q.chunks == p.chunks + [Chunk(s, d, [])]
    ensures FileEvents(before + [q]) == FileEvents(before + [p]) + [ChunkStart(s, d)]
  {
    FileEventsAppend(before, p);
    FileEventsAppend(before, q);
    assert Starts(q.chunks) == Starts(p.chunks) + [ChunkStart(s, d)];
  }

  lemma SameFile(before: seq<Patch>, p: Patch, q: Patch)
    requires q.src == p.src && q.chunks == p.chunks
    ensures FileEvents(before + [q]) == FileEvents(before + [p])
  {
    FileEventsAppend(before, p);
    FileEventsAppend(before, q);
  }

  lemma FeedAddsFile(ps: seq<Patch>, line: LineClass)
    requires Feed(ps, line).Ok?
    ensures FileEvents(Feed(ps, line).patches)
            == FileEvents(ps) + if line.SrcFile? || line.ChunkStart? then [line] else []
  {
    var n := |ps| - 1;
    assert ps != [] ==> ps == ps[..n] + [ps[n]];
    match line
    case SrcFile(name) =>
      FileEventsAppend(ps, Patch(name, "", []));
      assert Starts([]) == [];
    case DstFile(name) => SameFile(ps[..n], ps[n], ps[n].(dst := name));
    case ChunkStart(s, d) =>
      StartAddsFile(ps[..n], ps[n], ps[n].(chunks := ps[n].chunks + [Chunk(s, d, [])]), s, d);
    case Content(l) => AddLineKeepsFiles(ps, l);
    case Unknown =>
  }

  // Every chunk belongs to the file named last.
  lemma {:induction false} ParseKeepsFiles(lines: seq<LineClass>)
    requires ParseFrom([], lines).Ok?
    ensures FileEvents(ParseFrom([], lines).patches) == FilesIn(lines)
  {
    if lines != [] {
      var n := |lines| - 1;
      ParseKeepsFiles(lines[..n]);
      FeedAddsFile(ParseFrom([], lines[..n]).patches, lines[n]);
    }
  }

  lemma {:induction false} AddLineKeepsNames(ps: seq<Patch>, l: Line)
    requires AddLine(ps, l).Ok?
    ensures |AddLine(ps, l).patches| == |ps|
    ensures forall k :: 0 <= k < |ps| ==> AddLine(ps, l).patches[k].dst == ps[k].dst
  {
    if ps[|ps| - 1].chunks == [] { AddLineKeepsNames(ps[..|ps| - 1], l); }
  }

  lemma FeedNames(ps: seq<Patch>, line: LineClass)
    requires Feed(ps, line).Ok?
    ensures var next := Feed(ps, line).patches;
            && |next| == |ps| + (if line.SrcFile? then 1 else 0)
            && next != []
            && (forall k :: 0 <= k < |next| - 1 ==> next[k].dst == ps[k].dst)
            && next[|next| - 1].dst == match line
                                       case SrcFile(_) => ""
                                       case DstFile(name) => name
                                       case _ => ps[|ps| - 1].dst
  {
    if line.Content? { AddLineKeepsNames(ps, line.line); }
  }

  // The destination of the latest patch is named by the last "+++ " line since its "--- " line, if any ...
  lemma {:induction false} LastNameWins(lines: seq<LineClass>, i: nat)
    requires ParseFrom([], lines).Ok? && i < |lines| && (lines[i].SrcFile? || lines[i].DstFile?)
    requires forall j :: i < j < |lines| ==> !lines[j].SrcFile? && !lines[j].DstFile?
    ensures var ps := ParseFrom([], lines).patches;
            ps != [] && ps[|ps| - 1].dst == if lines[i].DstFile? then lines[i].name else ""
  {
    var n := |lines| - 1;
    var before := ParseFrom([], lines[..n]).patches;
    FeedNames(before, lines[n]);
    if i < n {
      assert !lines[n].SrcFile? && !lines[n].DstFile?;
      LastNameWins(lines[..n], i);
    }
  }

  // ... and keeps its name when another patch is started.
  lemma EarlierNamesKept(lines: seq<LineClass>, k: nat)
    requires lines != [] && ParseFrom([], lines).Ok? && k + 1 < |ParseFrom([], lines).patches|
    ensures var before := ParseFrom([], lines[..|lines| - 1]);
            before.Ok? && k < |before.patches| && ParseFrom([], lines).patches[k].dst == before.patches[k].dst
  {
    FeedNames(ParseFrom([], lines[..|lines| - 1]).patches, lines[|lines| - 1]);
  }

  // ---------- The format, by example ----------

  const EXAMPLE: seq<Patch> :=
    [Patch("a.cc", "b.cc", [Chunk(10, 9, [Line(Both, "x"), Line(Src, "y"), Line(Dst, "z"), Line(Dst, "")])])]

  const EXAMPLE_TEXT: seq<string> := ["--- a.cc", "+++ b.cc", "@@ -10,2 +9,3 @@", " x", "-y", "+z", "+"]

  lemma ExampleHeader()
    ensures Header(10, 2, 9, 3) == "@@ -10,2 +9,3 @@"
  {
    assert Decimal(10) == Decimal(1) + [Digit(0)] == "10";
  }

  lemma ExampleLengths(lines: seq<Line>)
    requires lines == EXAMPLE[0].chunks[0].lines
    ensures SrcLen(lines) == 2 && DstLen(lines) == 3
  {
    assert lines[..3][..2][..1] == lines[..1] && lines[..3][..2] == lines[..2] && lines[..1][..0] == [];
    assert SrcLen(lines[..1]) == DstLen(lines[..1]) == 1;
    assert SrcLen(lines[..2]) == 2 && DstLen(lines[..2]) == 1;
  }

  lemma ExampleWritten()
    ensures Write(EXAMPLE) == EXAMPLE_TEXT
  {
    var c := EXAMPLE[0].chunks[0];
    ExampleLengths(c.lines);
    ExampleHeader();
    assert " " + "x" == " x" && "-" + "y" == "-y" && "+" + "z" == "+z" && "+" + "" == "+";
    assert WriteLines(c.lines) == [" x", "-y", "+z", "+"];
    assert WriteChunk(c) == ["@@ -10,2 +9,3 @@"] + [" x", "-y", "+z", "+"];
    assert WriteChunks([c]) == WriteChunks([]) + WriteChunk(c) by { assert [c][..0] == []; }
    assert "--- " + "a.cc" == "--- a.cc" && "+++ " + "b.cc" == "+++ b.cc";
    assert WritePatch(EXAMPLE[0]) == ["--- a.cc", "+++ b.cc"] + WriteChunk(c) == EXAMPLE_TEXT;
    assert EXAMPLE[..0] == [] && EXAMPLE == [EXAMPLE[0]];
  }

  lemma ExampleRead()
    ensures Parse(EXAMPLE_TEXT) == Ok(EXAMPLE)
  {
    ExampleWritten();
    assert forall l :: l in EXAMPLE[0].chunks[0].lines ==> PrintableLine(l);
    assert PrintableChunk(EXAMPLE[0].chunks[0]) && PrintablePatch(EXAMPLE[0]);
    RoundTrip(EXAMPLE);
  }
}
