// The objects of utils/check-style.py: parse_patchset fills patches, chunks and lines step by step
// (lines 374-418), and remove_trailing_whitespace_changes changes line objects in place through the
// two views src() and dst() that share them (lines 269-288, 420-436).

module PatchObjects {
  import T = PatchText
  import W = WhitespacePass

  // Every object remembers where it was put, so no two places hold the same object.
  class PatchChunkLine {
    ghost const at: (nat, nat, nat)
    var line: T.Line

    constructor (line: T.Line, ghost at: (nat, nat, nat))
      ensures this.line == line && this.at == at
    {
      this.line := line;
      this.at := at;
    }

    method AppendToLine(s: string)
      modifies this
      ensures line == old(line).(text := old(line).text + s)
    {
      line := line.(text := line.text + s);
    }
  }

  class PatchChunk {
    ghost const at: (nat, nat)
    const srcPos: nat
    const dstPos: nat
    var lines: seq<PatchChunkLine>

    constructor (srcPos: nat, dstPos: nat, ghost at: (nat, nat))
      ensures this.srcPos == srcPos && this.dstPos == dstPos && lines == [] && this.at == at
    {
      this.srcPos := srcPos;
      this.dstPos := dstPos;
      this.at := at;
      lines := [];
    }

    method AddLine(line: PatchChunkLine)
      modifies this
      ensures lines == old(lines) + [line]
    {
      lines := lines + [line];
    }

    // The view src(): the line objects themselves, not copies.
    method Src(ghost v: T.Chunk) returns (src: seq<PatchChunkLine>)
      requires ShowsChunk(this, v)
      ensures |src| == |W.SrcAt(v.lines)|
      ensures forall k :: 0 <= k < |src| ==> src[k] == lines[W.SrcAt(v.lines)[k]]
    {
      src := [];
      for i := 0 to |lines|
        invariant |src| == |W.SrcAt(v.lines[..i])|
        invariant forall k :: 0 <= k < |src| ==> src[k] == lines[W.SrcAt(v.lines[..i])[k]]
      {
        assert v.lines[..i + 1][..i] == v.lines[..i];
        if lines[i].line.IsSrc() {
          src := src + [lines[i]];
        }
      }
      assert v.lines[..|lines|] == v.lines;
    }

    method Dst(ghost v: T.Chunk) returns (dst: seq<PatchChunkLine>)
      requires ShowsChunk(this, v)
      ensures |dst| == |W.DstAt(v.lines)|
      ensures forall k :: 0 <= k < |dst| ==> dst[k] == lines[W.DstAt(v.lines)[k]]
    {
      dst := [];
      for i := 0 to |lines|
        invariant |dst| == |W.DstAt(v.lines[..i])|
        invariant forall k :: 0 <= k < |dst| ==> dst[k] == lines[W.DstAt(v.lines[..i])[k]]
      {
        assert v.lines[..i + 1][..i] == v.lines[..i];
        if lines[i].line.IsDst() {
          dst := dst + [lines[i]];
        }
      }
      assert v.lines[..|lines|] == v.lines;
    }
  }

  class Patch {
    ghost const at: nat
    var src: string
    var dst: string
    var chunks: seq<PatchChunk>

    constructor (ghost at: nat)
      ensures src == "" && dst == "" && chunks == [] && this.at == at
    {
      src, dst, chunks := "", "", [];
      this.at := at;
    }

    method AddChunk(chunk: PatchChunk)
      modifies this`chunks
      ensures chunks == old(chunks) + [chunk]
    {
      chunks := chunks + [chunk];
    }

    method SetSrc(src: string)
      modifies this`src
      ensures this.src == src
    {
      this.src := src;
    }

    method SetDst(dst: string)
      modifies this`dst
      ensures this.dst == dst
    {
      this.dst := dst;
    }
  }

  // ---------- What the objects show, and where they are ----------

  ghost predicate ShowsChunk(c: PatchChunk, v: T.Chunk)
    reads c, c.lines
  {
    && c.srcPos == v.srcPos && c.dstPos == v.dstPos
    && |c.lines| == |v.lines|
    && forall k :: 0 <= k < |c.lines| ==> c.lines[k].line == v.lines[k]
  }

  ghost predicate PlacedChunk(c: PatchChunk, i: nat, j: nat)
    reads c
  {
    c.at == (i, j) && forall k :: 0 <= k < |c.lines| ==> c.lines[k].at == (i, j, k)
  }

  ghost function Chunks(ps: seq<Patch>): set<PatchChunk>
    reads ps
  {
    set p, c | p in ps && c in p.chunks :: c
  }

  ghost function Lines(ps: seq<Patch>): set<PatchChunkLine>
    reads ps, Chunks(ps)
  {
    set c, l | c in Chunks(ps) && l in c.lines :: l
  }

  ghost predicate PlacedPatch(p: Patch, i: nat)
    reads p, p.chunks
  {
    p.at == i && forall j :: 0 <= j < |p.chunks| ==> PlacedChunk(p.chunks[j], i, j)
  }

  lemma InChunks(ps: seq<Patch>, i: nat)
    requires i < |ps|
    ensures forall j :: 0 <= j < |ps[i].chunks| ==> ps[i].chunks[j] in Chunks(ps)
  {
    forall j | 0 <= j < |ps[i].chunks| ensures ps[i].chunks[j] in Chunks(ps) {
      assert ps[i] in ps && ps[i].chunks[j] in ps[i].chunks;
    }
  }

  ghost predicate Placed(ps: seq<Patch>)
    reads ps, Chunks(ps)
  {
    forall i :: 0 <= i < |ps| ==> (InChunks(ps, i); PlacedPatch(ps[i], i))
  }

  // The same shape and names; what the chunks show is said separately.
  ghost predicate Shaped(ps: seq<Patch>, vs: seq<T.Patch>)
    reads ps
  {
    && |ps| == |vs|
    && forall i :: 0 <= i < |ps| ==>
         ps[i].src == vs[i].src && ps[i].dst == vs[i].dst && |ps[i].chunks| == |vs[i].chunks|
  }

  lemma InLines(ps: seq<Patch>, i: nat, j: nat)
    requires i < |ps| && j < |ps[i].chunks|
    ensures ps[i].chunks[j] in Chunks(ps)
    ensures forall k :: 0 <= k < |ps[i].chunks[j].lines| ==> ps[i].chunks[j].lines[k] in Lines(ps)
  {
    InChunks(ps, i);
    var c := ps[i].chunks[j];
    forall k | 0 <= k < |c.lines| ensures c.lines[k] in Lines(ps) {
      assert c in Chunks(ps) && c.lines[k] in c.lines;
    }
  }

  ghost predicate Shows(ps: seq<Patch>, vs: seq<T.Patch>)
    reads ps, Chunks(ps), Lines(ps)
  {
    && Shaped(ps, vs)
    && forall i, j :: 0 <= i < |ps| && 0 <= j < |ps[i].chunks| ==>
         (InLines(ps, i, j); ShowsChunk(ps[i].chunks[j], vs[i].chunks[j]))
  }

  // ---------- parse_patchset ----------

  // current_patch is the patch created last, current_chunk the chunk created last.
  ghost predicate Current(ps: seq<Patch>, patch: Patch?, chunk: PatchChunk?)
    reads ps
  {
    && (patch == null <==> ps == [])
    && (patch != null ==> ps[|ps| - 1] == patch)
    && (chunk == null ==> forall i :: 0 <= i < |ps| ==> ps[i].chunks == [])
    && (chunk != null ==>
          && chunk.at.0 < |ps|
          && chunk.at.1 + 1 == |ps[chunk.at.0].chunks|
          && ps[chunk.at.0].chunks[chunk.at.1] == chunk
          && forall i :: chunk.at.0 < i < |ps| ==> ps[i].chunks == [])
  }

  function WithLine(vs: seq<T.Patch>, i: nat, j: nat, l: T.Line): seq<T.Patch>
    requires i < |vs| && j < |vs[i].chunks|
  {
    var c := vs[i].chunks[j];
    vs[i := vs[i].(chunks := vs[i].chunks[j := c.(lines := c.lines + [l])])]
  }

  lemma {:induction false} AddLineToNone(vs: seq<T.Patch>, l: T.Line)
    requires forall i :: 0 <= i < |vs| ==> vs[i].chunks == []
    ensures T.AddLine(vs, l) == T.Failed(T.NoCurrentChunk)
  {
    if vs != [] { AddLineToNone(vs[..|vs| - 1], l); }
  }

  lemma {:induction false} AddLineAt(vs: seq<T.Patch>, i: nat, l: T.Line)
    requires i < |vs| && vs[i].chunks != []
    requires forall a :: i < a < |vs| ==> vs[a].chunks == []
    ensures T.AddLine(vs, l) == T.Ok(WithLine(vs, i, |vs[i].chunks| - 1, l))
  {
    var n := |vs| - 1;
    if i < n {
      AddLineAt(vs[..n], i, l);
      assert WithLine(vs[..n], i, |vs[i].chunks| - 1, l) + [vs[n]] == WithLine(vs, i, |vs[i].chunks| - 1, l);
    } else {
      var m := |vs[n].chunks| - 1;
      var c := vs[n].chunks[m];
      var c' := c.(lines := c.lines + [l]);
      assert vs[n].chunks[..m] + [c'] == vs[n].chunks[m := c'];
      assert vs[..n] + [vs[n].(chunks := vs[n].chunks[m := c'])] == WithLine(vs, n, m, l);
    }
  }

  // current_chunk.add_line(l)
  method AddContent(ghost ps: seq<Patch>, ghost vs: seq<T.Patch>, chunk: PatchChunk, line: T.Line)
    returns (ghost l: PatchChunkLine)
    requires Placed(ps) && Shows(ps, vs)
    requires chunk.at.0 < |ps| && chunk.at.1 < |ps[chunk.at.0].chunks| && ps[chunk.at.0].chunks[chunk.at.1] == chunk
    modifies chunk
    ensures Placed(ps) && Shows(ps, WithLine(vs, chunk.at.0, chunk.at.1, line))
    ensures fresh(l) && Lines(ps) <= old(Lines(ps)) + {l}
  {
    ghost var i, j := chunk.at.0, chunk.at.1;
    assert PlacedChunk(chunk, i, j) && ShowsChunk(chunk, vs[i].chunks[j]);
    var added := new PatchChunkLine(line, (i, j, |chunk.lines|));
    chunk.AddLine(added);
    l := added;
    ghost var ws := WithLine(vs, i, j, line);
    forall m | m in Lines(ps) ensures m in old(Lines(ps)) + {l} {
      var c :| c in Chunks(ps) && m in c.lines;
      if c == chunk && m != l { assert m in old(chunk.lines); }
    }
    forall a, b | 0 <= a < |ps| && 0 <= b < |ps[a].chunks|
      ensures PlacedChunk(ps[a].chunks[b], a, b) && ShowsChunk(ps[a].chunks[b], ws[a].chunks[b])
    {
      assert old(PlacedPatch(ps[a], a)) && old(PlacedChunk(ps[a].chunks[b], a, b))
             && old(ShowsChunk(ps[a].chunks[b], vs[a].chunks[b]));
      if a != i || b != j {
        assert ps[a].chunks[b] != chunk;
        assert ws[a].chunks[b] == vs[a].chunks[b];
      }
    }
  }

  method StartPatch(ps: seq<Patch>, ghost vs: seq<T.Patch>, name: string) returns (patch: Patch)
    requires Placed(ps) && Shows(ps, vs)
    ensures fresh(patch) && patch.chunks == []
    ensures Placed(ps + [patch]) && Shows(ps + [patch], vs + [T.Patch(name, "", [])])
    ensures Lines(ps + [patch]) <= Lines(ps)
  {
    patch := new Patch(|ps|);
    patch.SetSrc(name);
    ghost var qs := ps + [patch];
    forall i | 0 <= i < |ps| ensures qs[i] == ps[i] && qs[i].chunks == old(ps[i].chunks) { }
    forall a, b | 0 <= a < |qs| && 0 <= b < |qs[a].chunks|
      ensures PlacedChunk(qs[a].chunks[b], a, b)
      ensures ShowsChunk(qs[a].chunks[b], (vs + [T.Patch(name, "", [])])[a].chunks[b])
    {
      assert a < |ps|;
      assert PlacedChunk(ps[a].chunks[b], a, b) && ShowsChunk(ps[a].chunks[b], vs[a].chunks[b]);
    }
  }

  ghost function WithChunk(vs: seq<T.Patch>, c: T.Chunk): seq<T.Patch>
    requires vs != []
  {
    var n := |vs| - 1;
    vs[..n] + [vs[n].(chunks := vs[n].chunks + [c])]
  }

  // current_patch.add_chunk of an empty chunk
  method AttachChunk(ghost ps: seq<Patch>, ghost vs: seq<T.Patch>, patch: Patch, chunk: PatchChunk)
    requires ps != [] && ps[|ps| - 1] == patch && Placed(ps) && Shows(ps, vs)
    requires chunk.lines == [] && chunk.at == (|ps| - 1, |patch.chunks|)
    modifies patch`chunks
    ensures patch.chunks == old(patch.chunks) + [chunk]
    ensures Lines(ps) <= old(Lines(ps)) && Placed(ps)
    ensures Shows(ps, WithChunk(vs, T.Chunk(chunk.srcPos, chunk.dstPos, [])))
  {
    patch.AddChunk(chunk);
    ghost var n := |ps| - 1;
    ghost var ws := WithChunk(vs, T.Chunk(chunk.srcPos, chunk.dstPos, []));
    forall a | 0 <= a < n ensures ps[a].chunks == old(ps[a].chunks) && ws[a] == vs[a] {
      assert old(PlacedPatch(ps[a], a)) && old(PlacedPatch(ps[n], n));
    }
    forall a, b | 0 <= a < |ps| && 0 <= b < |ps[a].chunks|
      ensures PlacedChunk(ps[a].chunks[b], a, b) && ShowsChunk(ps[a].chunks[b], ws[a].chunks[b])
    {
      if b < |old(ps[a].chunks)| {
        assert ps[a].chunks[b] == old(ps[a].chunks)[b];
        assert old(PlacedPatch(ps[a], a)) && old(PlacedChunk(ps[a].chunks[b], a, b))
             && old(ShowsChunk(ps[a].chunks[b], vs[a].chunks[b]));
      }
    }
    forall l | l in Lines(ps) ensures l in old(Lines(ps)) {
      var c :| c in Chunks(ps) && l in c.lines;
    }
  }

  method StartChunk(ghost ps: seq<Patch>, ghost vs: seq<T.Patch>, patch: Patch, srcPos: nat, dstPos: nat)
    returns (chunk: PatchChunk)
    requires ps != [] && ps[|ps| - 1] == patch && Placed(ps) && Shows(ps, vs)
    modifies patch`chunks
    ensures fresh(chunk) && patch.chunks == old(patch.chunks) + [chunk]
    ensures chunk.at == (|ps| - 1, |old(patch.chunks)|)
    ensures Lines(ps) <= old(Lines(ps)) && Placed(ps)
    ensures Shows(ps, WithChunk(vs, T.Chunk(srcPos, dstPos, [])))
  {
    chunk := new PatchChunk(srcPos, dstPos, (|ps| - 1, |patch.chunks|));
    AttachChunk(ps, vs, patch, chunk);
  }

  method NamePatch(ghost ps: seq<Patch>, ghost vs: seq<T.Patch>, patch: Patch, name: string)
    requires ps != [] && ps[|ps| - 1] == patch && Placed(ps) && Shows(ps, vs)
    modifies patch`dst
    ensures Placed(ps) && Shows(ps, vs[..|vs| - 1] + [vs[|vs| - 1].(dst := name)])
    ensures Lines(ps) <= old(Lines(ps))
  {
    patch.SetDst(name);
    ghost var n := |ps| - 1;
    ghost var ws := vs[..n] + [vs[n].(dst := name)];
    forall a, b | 0 <= a < |ps| && 0 <= b < |ps[a].chunks|
      ensures PlacedChunk(ps[a].chunks[b], a, b) && ShowsChunk(ps[a].chunks[b], ws[a].chunks[b])
    {
      assert old(PlacedPatch(ps[a], a)) && old(PlacedChunk(ps[a].chunks[b], a, b))
             && old(ShowsChunk(ps[a].chunks[b], vs[a].chunks[b]));
    }
  }

  // The loop's state: the objects show what has been parsed, and the two current objects are the
  // latest ones; all collects the line objects made so far.
  ghost predicate InStep(ps: seq<Patch>, vs: seq<T.Patch>, patch: Patch?, chunk: PatchChunk?, all: set<PatchChunkLine>)
    reads ps, Chunks(ps), Lines(ps)
  {
    Placed(ps) && Shows(ps, vs) && Current(ps, patch, chunk) && Lines(ps) <= all
  }

  lemma ContentGoesTo(ps: seq<Patch>, vs: seq<T.Patch>, patch: Patch?, chunk: PatchChunk?, l: T.Line)
    requires Shaped(ps, vs) && Current(ps, patch, chunk)
    ensures chunk == null ==> T.AddLine(vs, l) == T.Failed(T.NoCurrentChunk)
    ensures chunk != null ==> T.AddLine(vs, l) == T.Ok(WithLine(vs, chunk.at.0, chunk.at.1, l))
  {
    assert forall i :: 0 <= i < |ps| ==> |ps[i].chunks| == |vs[i].chunks|;
    if chunk == null {
      AddLineToNone(vs, l);
    } else {
      AddLineAt(vs, chunk.at.0, l);
    }
  }

  method ParseContent(ghost ps: seq<Patch>, ghost vs: seq<T.Patch>, ghost patch: Patch?, chunk: PatchChunk?,
                      ghost all: set<PatchChunkLine>, l: T.Line)
    returns (failed: bool, ghost more: set<PatchChunkLine>)
    requires InStep(ps, vs, patch, chunk, all)
    modifies chunk
    ensures all <= more && fresh(more - all)
    ensures failed ==> T.AddLine(vs, l) == T.Failed(T.NoCurrentChunk)
    ensures !failed ==> T.AddLine(vs, l).Ok? && InStep(ps, T.AddLine(vs, l).patches, patch, chunk, more)
  {
    more := all;
    ContentGoesTo(ps, vs, patch, chunk, l);
    if chunk == null {
      return true, all;
    }
    ghost var added := AddContent(ps, vs, chunk, l);
    return false, all + {added};
  }

  method ParseFile(ps: seq<Patch>, ghost vs: seq<T.Patch>, ghost patch0: Patch?, ghost chunk: PatchChunk?,
                   ghost all: set<PatchChunkLine>, name: string)
    returns (patch: Patch)
    requires InStep(ps, vs, patch0, chunk, all)
    ensures fresh(patch) && InStep(ps + [patch], vs + [T.Patch(name, "", [])], patch, chunk, all)
  {
    patch := StartPatch(ps, vs, name);
  }

  method ParseChunkStart(ghost ps: seq<Patch>, ghost vs: seq<T.Patch>, patch: Patch, ghost chunk0: PatchChunk?,
                         ghost all: set<PatchChunkLine>, srcPos: nat, dstPos: nat)
    returns (chunk: PatchChunk)
    requires InStep(ps, vs, patch, chunk0, all)
    modifies patch`chunks
    ensures fresh(chunk) && T.Feed(vs, T.ChunkStart(srcPos, dstPos)).Ok?
    ensures InStep(ps, T.Feed(vs, T.ChunkStart(srcPos, dstPos)).patches, patch, chunk, all)
  {
    chunk := StartChunk(ps, vs, patch, srcPos, dstPos);
  }

  method ParseName(ghost ps: seq<Patch>, ghost vs: seq<T.Patch>, patch: Patch, ghost chunk: PatchChunk?,
                   ghost all: set<PatchChunkLine>, name: string)
    requires InStep(ps, vs, patch, chunk, all)
    modifies patch`dst
    ensures T.Feed(vs, T.DstFile(name)).Ok? && InStep(ps, T.Feed(vs, T.DstFile(name)).patches, patch, chunk, all)
  {
    NamePatch(ps, vs, patch, name);
  }

  datatype Progress = Progress(patchset: seq<Patch>, patch: Patch?, chunk: PatchChunk?)

  datatype LineOutcome = Going(next: Progress) | Raised(error: T.Error)

  // The body of the loop over the lines.
  method ParseLine(p: Progress, ghost vs: seq<T.Patch>, ghost all: set<PatchChunkLine>, line: string)
    returns (r: LineOutcome, ghost more: set<PatchChunkLine>)
    requires InStep(p.patchset, vs, p.patch, p.chunk, all)
    modifies p.patch, p.chunk
    ensures all <= more && fresh(more - all)
    ensures r.Raised? ==> T.Feed(vs, T.Classify(line)) == T.Failed(r.error)
    ensures r.Going? ==>
              && T.Feed(vs, T.Classify(line)).Ok?
              && InStep(r.next.patchset, T.Feed(vs, T.Classify(line)).patches, r.next.patch, r.next.chunk, more)
              && (r.next.patch != p.patch ==> fresh(r.next.patch))
              && (r.next.chunk != p.chunk ==> fresh(r.next.chunk))
  {
    more := all;
    match T.Classify(line) {
      case SrcFile(name) =>
        var patch := ParseFile(p.patchset, vs, p.patch, p.chunk, all, name);
        r := Going(p.(patchset := p.patchset + [patch], patch := patch));
      case DstFile(name) =>
        if p.patch == null {
          return Raised(T.NoCurrentPatch), more;
        }
        ParseName(p.patchset, vs, p.patch, p.chunk, all, name);
        r := Going(p);
      case ChunkStart(s, d) =>
        if p.patch == null {
          return Raised(T.NoCurrentPatch), more;
        }
        var chunk := ParseChunkStart(p.patchset, vs, p.patch, p.chunk, all, s, d);
        r := Going(p.(chunk := chunk));
      case Content(l) =>
        var failed;
        failed, more := ParseContent(p.patchset, vs, p.patch, p.chunk, all, l);
        r := if failed then Raised(T.NoCurrentChunk) else Going(p);
      case Unknown =>
        r := Raised(T.InvalidLine);
    }
  }

  datatype ParseOutcome = Parsed(patchset: seq<Patch>) | ParseFailed(error: T.Error)

  // The first n lines make up the patches vs.
  ghost predicate ReadSoFar(lines: seq<string>, n: nat, vs: seq<T.Patch>)
    requires n <= |lines|
  {
    T.ParseFrom([], T.Classes(lines)[..n]) == T.Ok(vs)
  }

  lemma ReadNext(lines: seq<string>, n: nat, vs: seq<T.Patch>)
    requires n < |lines| && ReadSoFar(lines, n, vs)
    ensures var next := T.Feed(vs, T.Classify(lines[n]));
            if next.Ok? then ReadSoFar(lines, n + 1, next.patches) else T.Parse(lines) == next
  {
    var classes := T.Classes(lines);
    assert classes[..n + 1][..n] == classes[..n];
    var next := T.Feed(vs, classes[n]);
    assert next == T.ParseFrom([], classes[..n + 1]);
    if !next.Ok? { T.ParseFailsEarly([], classes, n + 1); }
  }

  lemma ReadAll(lines: seq<string>, vs: seq<T.Patch>)
    requires ReadSoFar(lines, |lines|, vs)
    ensures T.Parse(lines) == T.Ok(vs)
  {
    assert T.Classes(lines)[..|lines|] == T.Classes(lines);
  }

  method ParsePatchset(lines: seq<string>) returns (r: ParseOutcome, ghost all: set<PatchChunkLine>)
    ensures r.ParseFailed? ==> T.Parse(lines) == T.Failed(r.error)
    ensures r.Parsed? ==> T.Parse(lines).Ok? && Placed(r.patchset) && Shows(r.patchset, T.Parse(lines).patches)
    ensures r.Parsed? ==> fresh(all) && Lines(r.patchset) <= all
  {
    var p := Progress([], null, null);
    all := {};
    ghost var vs: seq<T.Patch> := [];
    for n := 0 to |lines|
      invariant ReadSoFar(lines, n, vs)
      invariant InStep(p.patchset, vs, p.patch, p.chunk, all)
      invariant fresh(all)
      invariant p.patch != null ==> fresh(p.patch)
      invariant p.chunk != null ==> fresh(p.chunk)
    {
      ReadNext(lines, n, vs);
      var outcome;
      outcome, all := ParseLine(p, vs, all, lines[n]);
      if outcome.Raised? {
        return ParseFailed(outcome.error), all;
      }
      p := outcome.next;
      vs := T.Feed(vs, T.Classify(lines[n])).patches;
    }
    ReadAll(lines, vs);
    r := Parsed(p.patchset);
  }

  // ---------- remove_trailing_whitespace_changes ----------

  predicate Before(a: nat, b: nat, i: nat, j: nat) {
    a < i || (a == i && b < j)
  }

  function FixedChunk(c: T.Chunk): T.Chunk {
    c.(lines := W.Fixed(c.lines))
  }

  // All chunks before chunk j of patch i are complete, so the pass gets there.
  ghost predicate Reached(vs: seq<T.Patch>, i: nat, j: nat) {
    forall a, b :: 0 <= a < |vs| && 0 <= b < |vs[a].chunks| && Before(a, b, i, j) ==> W.Complete(vs[a].chunks[b].lines)
  }

  // The chunks before (i, j) have been fixed, the others are as parsed.
  ghost predicate ShowsUpTo(ps: seq<Patch>, vs: seq<T.Patch>, i: nat, j: nat)
    reads ps, Chunks(ps), Lines(ps)
  {
    && Shaped(ps, vs)
    && forall a, b :: 0 <= a < |ps| && 0 <= b < |ps[a].chunks| ==>
         (InLines(ps, a, b);
          ShowsChunk(ps[a].chunks[b], if Before(a, b, i, j) then FixedChunk(vs[a].chunks[b]) else vs[a].chunks[b]))
  }

  ghost function PassedChunks(vs: seq<T.Patch>, a: nat): (r: seq<T.Chunk>)
    requires a < |vs|
    ensures |r| == |vs[a].chunks|
  {
    seq(|vs[a].chunks|, b requires 0 <= b < |vs[a].chunks| =>
      if Reached(vs, a, b) then FixedChunk(vs[a].chunks[b]) else vs[a].chunks[b])
  }

  // The patches after the pass: exactly the chunks that are reached have been fixed.
  ghost function Passed(vs: seq<T.Patch>): (r: seq<T.Patch>)
    ensures |r| == |vs|
  {
    seq(|vs|, a requires 0 <= a < |vs| => vs[a].(chunks := PassedChunks(vs, a)))
  }

  // A chunk is left as parsed exactly if some chunk before it has fewer destination than source lines.
  lemma PassedMeans(vs: seq<T.Patch>, i: nat, j: nat)
    requires i < |vs| && j < |vs[i].chunks|
    ensures Passed(vs)[i].src == vs[i].src && Passed(vs)[i].dst == vs[i].dst
    ensures |Passed(vs)[i].chunks| == |vs[i].chunks|
    ensures var c := vs[i].chunks[j];
            Passed(vs)[i].chunks[j]
            == if exists a, b :: 0 <= a < |vs| && 0 <= b < |vs[a].chunks| && (a < i || (a == i && b < j))
                                 && T.DstLen(vs[a].chunks[b].lines) < T.SrcLen(vs[a].chunks[b].lines)
               then c else T.Chunk(c.srcPos, c.dstPos, W.Fixed(c.lines))
  {
    forall a, b | 0 <= a < |vs| && 0 <= b < |vs[a].chunks|
      ensures var lines := vs[a].chunks[b].lines; W.Complete(lines) <==> T.SrcLen(lines) <= T.DstLen(lines)
    {
      W.PositionsCounted(vs[a].chunks[b].lines);
    }
  }

  // No reached chunk has an added "++" that is compared with a line that reads "++ ".
  ghost predicate NoClash(vs: seq<T.Patch>) {
    forall a, b, k ::
      (0 <= a < |vs| && 0 <= b < |vs[a].chunks| && Reached(vs, a, b) && 0 <= k < W.Pairs(vs[a].chunks[b].lines)) ==>
        !W.Clash(vs[a].chunks[b].lines, k)
  }

  lemma PassedChunkPrintable(vs: seq<T.Patch>, a: nat, b: nat)
    requires a < |vs| && b < |vs[a].chunks| && T.PrintableChunk(vs[a].chunks[b])
    ensures T.PrintableChunk(PassedChunks(vs, a)[b]) <==>
              (Reached(vs, a, b) ==>
                forall k :: 0 <= k < W.Pairs(vs[a].chunks[b].lines) ==> !W.Clash(vs[a].chunks[b].lines, k))
  {
    if Reached(vs, a, b) { W.PassKeepsPrintable(vs[a].chunks[b]); }
  }

  lemma PrintableChunkByChunk(vs: seq<T.Patch>)
    ensures T.Printable(vs) <==>
              forall a, b :: 0 <= a < |vs| && 0 <= b < |vs[a].chunks| ==> T.PrintableChunk(vs[a].chunks[b])
  {
    if T.Printable(vs) {
      forall a, b | 0 <= a < |vs| && 0 <= b < |vs[a].chunks| ensures T.PrintableChunk(vs[a].chunks[b]) {
        assert T.PrintablePatch(vs[a]);
      }
    }
  }

  lemma PassedPrintable(vs: seq<T.Patch>)
    requires T.Printable(vs)
    ensures T.Printable(Passed(vs)) <==> NoClash(vs)
  {
    PrintableChunkByChunk(vs);
    PrintableChunkByChunk(Passed(vs));
    forall a, b | 0 <= a < |vs| && 0 <= b < |vs[a].chunks|
      ensures T.PrintableChunk(Passed(vs)[a].chunks[b]) <==>
                (Reached(vs, a, b) ==>
                  forall k :: 0 <= k < W.Pairs(vs[a].chunks[b].lines) ==> !W.Clash(vs[a].chunks[b].lines, k))
    {
      PassedChunkPrintable(vs, a, b);
    }
    if NoClash(vs) {
      forall a, b | 0 <= a < |Passed(vs)| && 0 <= b < |Passed(vs)[a].chunks|
        ensures T.PrintableChunk(Passed(vs)[a].chunks[b])
      {
      }
    }
    if T.Printable(Passed(vs)) {
      forall a, b, k | 0 <= a < |vs| && 0 <= b < |vs[a].chunks| && Reached(vs, a, b)
                       && 0 <= k < W.Pairs(vs[a].chunks[b].lines)
        ensures !W.Clash(vs[a].chunks[b].lines, k)
      {
        assert T.PrintableChunk(Passed(vs)[a].chunks[b]);
      }
    }
  }

  // For any parsed input: what the pass leaves is read back from print unchanged exactly when no reached
  // chunk has such a clash.
  lemma PassedReadsBack(lines: seq<string>)
    requires T.Parse(lines).Ok?
    ensures var vs := T.Parse(lines).patches;
            T.Parse(T.Write(Passed(vs))) == T.Ok(Passed(vs)) <==> NoClash(vs)
  {
    var vs := T.Parse(lines).patches;
    T.ParserIsPrintable(lines);
    T.RoundTrip(Passed(vs));
    PassedPrintable(vs);
  }

  method FixPairObjects(c: PatchChunk, ghost v: T.Chunk, ghost i: nat, ghost j: nat,
                        s: PatchChunkLine, d: PatchChunkLine, ghost a: nat, ghost b: nat)
    requires ShowsChunk(c, v) && PlacedChunk(c, i, j)
    requires a < |c.lines| && b < |c.lines| && c.lines[a] == s && c.lines[b] == d
    modifies d
    ensures ShowsChunk(c, v.(lines := W.FixPair(v.lines, a, b)))
  {
    var text := s.line.text;
    if |text| > 0 && W.Blank(text[|text| - 1]) && text[..|text| - 1] == d.line.text {
      d.AppendToLine([text[|text| - 1]]);
    }
  }

  method FixNth(c: PatchChunk, ghost v: T.Chunk, ghost i: nat, ghost j: nat, ghost n: nat,
                s: PatchChunkLine, d: PatchChunkLine)
    requires PlacedChunk(c, i, j) && |c.lines| == |v.lines|
    requires n < W.Pairs(v.lines) && ShowsChunk(c, v.(lines := W.FixUpTo(v.lines, n)))
    requires s == c.lines[W.SrcAt(v.lines)[n]] && d == c.lines[W.DstAt(v.lines)[n]]
    modifies d
    ensures ShowsChunk(c, v.(lines := W.FixUpTo(v.lines, n + 1)))
  {
    FixPairObjects(c, v.(lines := W.FixUpTo(v.lines, n)), i, j, s, d, W.SrcAt(v.lines)[n], W.DstAt(v.lines)[n]);
  }

  // The loop over the pairs of one chunk; running out of destination lines is the IndexError.
  method FixChunk(c: PatchChunk, ghost v: T.Chunk, ghost i: nat, ghost j: nat) returns (complete: bool)
    requires ShowsChunk(c, v) && PlacedChunk(c, i, j)
    modifies c.lines
    ensures ShowsChunk(c, FixedChunk(v)) && complete == W.Complete(v.lines)
  {
    var src := c.Src(v);
    var dst := c.Dst(v);
    for n := 0 to |src|
      invariant n <= W.Pairs(v.lines)
      invariant ShowsChunk(c, v.(lines := W.FixUpTo(v.lines, n)))
    {
      if n >= |dst| {
        return false;
      }
      assert dst[n] == c.lines[W.DstAt(v.lines)[n]];
      FixNth(c, v, i, j, n, src[n], dst[n]);
    }
    return true;
  }

  method FixNextChunk(ps: seq<Patch>, ghost vs: seq<T.Patch>, i: nat, j: nat) returns (complete: bool)
    requires i < |ps| && j < |ps[i].chunks| && Placed(ps) && ShowsUpTo(ps, vs, i, j)
    modifies ps[i].chunks[j].lines
    ensures Placed(ps) && ShowsUpTo(ps, vs, i, j + 1)
    ensures complete == W.Complete(vs[i].chunks[j].lines)
  {
    assert PlacedPatch(ps[i], i);
    complete := FixChunk(ps[i].chunks[j], vs[i].chunks[j], i, j);
    forall a, b | 0 <= a < |ps| && 0 <= b < |ps[a].chunks|
      ensures PlacedPatch(ps[a], a)
      ensures ShowsChunk(ps[a].chunks[b],
                         if Before(a, b, i, j + 1) then FixedChunk(vs[a].chunks[b]) else vs[a].chunks[b])
    {
      assert old(PlacedPatch(ps[a], a)) && old(PlacedChunk(ps[a].chunks[b], a, b));
      assert old(ShowsChunk(ps[a].chunks[b],
                            if Before(a, b, i, j) then FixedChunk(vs[a].chunks[b]) else vs[a].chunks[b]));
    }
  }

  method FixNext(ps: seq<Patch>, ghost vs: seq<T.Patch>, ghost all: set<PatchChunkLine>, i: nat, j: nat)
    returns (complete: bool)
    requires Lines(ps) <= all
    requires i < |ps| && j < |ps[i].chunks| && Placed(ps) && ShowsUpTo(ps, vs, i, j)
    modifies all
    ensures Placed(ps) && ShowsUpTo(ps, vs, i, j + 1) && Lines(ps) <= all
    ensures complete == W.Complete(vs[i].chunks[j].lines)
  {
    InLines(ps, i, j);
    complete := FixNextChunk(ps, vs, i, j);
  }

  lemma PassStops(ps: seq<Patch>, vs: seq<T.Patch>, i: nat, j: nat)
    requires i < |vs| && j < |vs[i].chunks| && Reached(vs, i, j)
    requires ShowsUpTo(ps, vs, i, j + 1) && !W.Complete(vs[i].chunks[j].lines)
    ensures Shows(ps, Passed(vs))
  {
    forall a, b | 0 <= a < |vs| && 0 <= b < |vs[a].chunks| ensures Reached(vs, a, b) <==> Before(a, b, i, j + 1) {
    }
  }

  lemma PassEnds(ps: seq<Patch>, vs: seq<T.Patch>)
    requires Reached(vs, |vs|, 0) && ShowsUpTo(ps, vs, |vs|, 0)
    ensures Shows(ps, Passed(vs))
  {
    forall a, b | 0 <= a < |vs| && 0 <= b < |vs[a].chunks| ensures Reached(vs, a, b) && Before(a, b, |vs|, 0) {
    }
  }

  lemma ReachedNext(vs: seq<T.Patch>, i: nat, j: nat)
    requires i < |vs| && j < |vs[i].chunks| && Reached(vs, i, j) && W.Complete(vs[i].chunks[j].lines)
    ensures Reached(vs, i, j + 1)
  {
  }

  lemma NextPatch(ps: seq<Patch>, vs: seq<T.Patch>, i: nat)
    requires i < |ps| && ShowsUpTo(ps, vs, i, |ps[i].chunks|) && Reached(vs, i, |ps[i].chunks|)
    ensures ShowsUpTo(ps, vs, i + 1, 0) && Reached(vs, i + 1, 0)
  {
    forall a, b | 0 <= a < |ps| && 0 <= b < |ps[a].chunks|
      ensures Before(a, b, i, |ps[i].chunks|) <==> Before(a, b, i + 1, 0)
    {
    }
  }

  // for chunk in patch.chunks()
  method FixPatch(ps: seq<Patch>, ghost vs: seq<T.Patch>, ghost all: set<PatchChunkLine>, i: nat)
    returns (complete: bool)
    requires Lines(ps) <= all
    requires i < |ps| && Placed(ps) && ShowsUpTo(ps, vs, i, 0) && Reached(vs, i, 0)
    modifies all
    ensures Placed(ps) && Lines(ps) <= all
    ensures complete ==> ShowsUpTo(ps, vs, i + 1, 0) && Reached(vs, i + 1, 0)
    ensures !complete ==> Shows(ps, Passed(vs))
  {
    for j := 0 to |ps[i].chunks|
      invariant Placed(ps) && Lines(ps) <= all
      invariant ShowsUpTo(ps, vs, i, j)
      invariant Reached(vs, i, j)
    {
      complete := FixNext(ps, vs, all, i, j);
      if !complete {
        PassStops(ps, vs, i, j);
        return;
      }
      ReachedNext(vs, i, j);
    }
    NextPatch(ps, vs, i);
    return true;
  }

  // for patch in patchset
  method FixPatches(ps: seq<Patch>, ghost vs: seq<T.Patch>, ghost all: set<PatchChunkLine>)
    requires Lines(ps) <= all
    requires Placed(ps) && Shows(ps, vs)
    modifies all
    ensures Placed(ps) && Shows(ps, Passed(vs))
  {
    for i := 0 to |ps|
      invariant Placed(ps) && Lines(ps) <= all
      invariant ShowsUpTo(ps, vs, i, 0)
      invariant Reached(vs, i, 0)
    {
      var complete := FixPatch(ps, vs, all, i);
      if !complete {
        return;
      }
    }
    PassEnds(ps, vs);
  }

  method RemoveTrailingWhitespaceChanges(lines: seq<string>) returns (r: ParseOutcome)
    ensures r.ParseFailed? ==> T.Parse(lines) == T.Failed(r.error)
    ensures r.Parsed? ==> T.Parse(lines).Ok? && Placed(r.patchset) && Shows(r.patchset, Passed(T.Parse(lines).patches))
  {
    ghost var all;
    r, all := ParsePatchset(lines);
    if r.Parsed? {
      FixPatches(r.patchset, T.Parse(lines).patches, all);
    }
  }
}
