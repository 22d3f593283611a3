/** Heading-aware sliding-window chunking (rag/chunking.py): sections between headings, fixed-size token windows
    inside each section, and chunks that are exact slices of the document. */
module Chunking {
  import opened Common

  // ---- Windows over one section's tokens ----

  datatype Window = Window(start: nat, end: nat)

  function Stride(chunk: int, overlap: int): (s: nat)
    ensures s >= 1
  {
    Max(chunk - overlap, 1)
  }

  function WindowsFrom(start: nat, n: nat, chunk: nat, overlap: int): seq<Window>
    requires chunk > 0
    decreases n - start
  {
    if start >= n then []
    else if start + chunk >= n then [Window(start, n)]
    else [Window(start, start + chunk)] + WindowsFrom(start + Stride(chunk, overlap), n, chunk, overlap)
  }

  method SplitTokens(n: nat, chunk: nat, overlap: int) returns (windows: seq<Window>)
    requires chunk > 0
    ensures windows == WindowsFrom(0, n, chunk, overlap)
  {
    var stride := Stride(chunk, overlap);
    windows := [];
    var start := 0;
    while start < n
      invariant windows + WindowsFrom(start, n, chunk, overlap) == WindowsFrom(0, n, chunk, overlap)
      decreases n - start
    {
      var end := Min(start + chunk, n);
      windows := windows + [Window(start, end)];
      if end == n {
        assert WindowsFrom(start, n, chunk, overlap) == [Window(start, end)];
        return;
      }
      start := start + stride;
    }
  }

  /** Every token lies in some window. */
  ghost predicate Covers(windows: seq<Window>, n: nat) {
    forall t :: 0 <= t < n ==> InSome(windows, t)
  }

  ghost predicate InSome(windows: seq<Window>, t: int) {
    exists i :: 0 <= i < |windows| && windows[i].start <= t < windows[i].end
  }

  /** Every window is non-empty; all but the last hold exactly `chunk` tokens, share exactly `overlap` of them with
      the next one, and are extended by it; the last one ends with the tokens. */
  lemma {:induction false} WindowAt(start: nat, n: nat, chunk: nat, overlap: nat, i: nat)
    requires overlap < chunk && start < n && i < |WindowsFrom(start, n, chunk, overlap)|
    ensures var windows := WindowsFrom(start, n, chunk, overlap);
            windows[0].start == start && windows[i].start < windows[i].end <= n &&
            (i < |windows| - 1 ==> windows[i].end - windows[i].start == chunk &&
                                   windows[i + 1].start + overlap == windows[i].end < windows[i + 1].end) &&
            (i == |windows| - 1 ==> windows[i].end == n && windows[i].end - windows[i].start <= chunk)
    decreases n - start
  {
    if start + chunk < n {
      var next := start + Stride(chunk, overlap);
      WindowAt(next, n, chunk, overlap, if i > 0 then i - 1 else 0);
    }
  }

  lemma {:induction false} WindowsStartLater(start: nat, n: nat, chunk: nat, overlap: int)
    requires chunk > 0
    ensures forall i :: 0 <= i < |WindowsFrom(start, n, chunk, overlap)| ==> WindowsFrom(start, n, chunk, overlap)[i].start >= start
    decreases n - start
  {
    if start < n && start + chunk < n {
      WindowsStartLater(start + Stride(chunk, overlap), n, chunk, overlap);
    }
  }

  lemma {:induction false} WindowsReach(start: nat, n: nat, chunk: nat, overlap: nat, t: nat)
    requires overlap < chunk && start <= t < n
    ensures InSome(WindowsFrom(start, n, chunk, overlap), t)
    decreases n - start
  {
    var windows := WindowsFrom(start, n, chunk, overlap);
    if start + chunk >= n || t < start + chunk {
      assert windows[0].start <= t < windows[0].end;
    } else {
      var rest := WindowsFrom(start + Stride(chunk, overlap), n, chunk, overlap);
      WindowsReach(start + Stride(chunk, overlap), n, chunk, overlap, t);
      var i :| 0 <= i < |rest| && rest[i].start <= t < rest[i].end;
      assert windows[i + 1] == rest[i];
    }
  }

  /** The guard before the loop admits negative overlaps; every token is covered exactly when the overlap is not
      negative or one window is enough. */
  lemma CoverageExactlyWhen(n: nat, chunk: nat, overlap: int)
    requires chunk > 0 && overlap < chunk
    ensures Covers(WindowsFrom(0, n, chunk, overlap), n) <==> overlap >= 0 || n <= chunk
  {
    var windows := WindowsFrom(0, n, chunk, overlap);
    if overlap >= 0 {
      forall t | 0 <= t < n ensures InSome(windows, t) {
        WindowsReach(0, n, chunk, overlap, t);
      }
    } else if n <= chunk {
      forall t | 0 <= t < n ensures InSome(windows, t) {
        assert windows[0] == Window(0, n);
      }
    } else {
      var rest := WindowsFrom(chunk - overlap, n, chunk, overlap);
      WindowsStartLater(chunk - overlap, n, chunk, overlap);
      assert windows == [Window(0, chunk)] + rest;
      assert forall i :: 0 < i < |windows| ==> windows[i] == rest[i - 1];
      assert !InSome(windows, chunk);
    }
  }

  /** The number of windows: one, plus as many strides as it takes to bring the end into reach. */
  lemma {:induction false} WindowCount(start: nat, n: nat, chunk: nat, overlap: nat)
    requires overlap < chunk && start < n
    ensures |WindowsFrom(start, n, chunk, overlap)| == 1 + (Max(n - start - chunk, 0) + (chunk - overlap) - 1) / (chunk - overlap)
    decreases n - start
  {
    var stride, m := chunk - overlap, n - start - chunk;
    if m <= 0 {
      DivisionIs(stride - 1, stride, 0);
    } else {
      WindowCount(start + stride, n, chunk, overlap);
      if m <= stride {
        DivisionIs(stride - 1, stride, 0);
        DivisionIs(m + stride - 1, stride, 1);
      } else {
        DivisionStep(m - 1, stride);
      }
    }
  }

  lemma DivisionIs(a: nat, d: nat, q: nat)
    requires d > 0 && q <= 1 && q * d <= a < q * d + d
    ensures a / d == q
  {
  }

  lemma DivisionStep(a: nat, d: nat)
    requires d > 0
    ensures (a + d) / d == a / d + 1
  {
    var q, r, p, t := a / d, a % d, (a + d) / d, (a + d) % d;
    assert a == d * q + r && a + d == d * p + t;
    assert d * (p - q) == d + r - t by { Distribute(d, p, q); }
    MultipleInRange(d, p - q, d + r - t);
  }

  lemma Distribute(d: int, p: int, q: int)
    ensures d * (p - q) == d * p - d * q
  {
  }

  lemma MultipleInRange(d: int, k: int, m: int)
    requires d > 0 && d * k == m && 0 < m < 2 * d
    ensures k == 1
  {
    assert k <= 0 ==> d * k <= 0;
    assert k >= 2 ==> d * (k - 2) >= 0;
    Distribute(d, k, 2);
  }

  /** The windows one after another, each without its first `skip` tokens (later ones without `overlap`). */
  function Rebuild<A>(tokens: seq<A>, windows: seq<Window>, skip: nat, overlap: nat): seq<A> {
    if windows == [] then []
    else var w := windows[0];
      (if w.start + skip <= w.end <= |tokens| then tokens[w.start + skip..w.end] else [])
      + Rebuild(tokens, windows[1..], overlap, overlap)
  }

  lemma {:induction false} RebuildFrom<A>(tokens: seq<A>, start: nat, skip: nat, chunk: nat, overlap: nat)
    requires overlap < chunk && skip <= overlap && start + skip < |tokens|
    ensures Rebuild(tokens, WindowsFrom(start, |tokens|, chunk, overlap), skip, overlap) == tokens[start + skip..]
    decreases |tokens| - start
  {
    var n := |tokens|;
    if start + chunk >= n {
      assert WindowsFrom(start, n, chunk, overlap)[1..] == [];
    } else {
      var next := start + Stride(chunk, overlap);
      RebuildFrom(tokens, next, overlap, chunk, overlap);
      assert WindowsFrom(start, n, chunk, overlap)[1..] == WindowsFrom(next, n, chunk, overlap);
      assert tokens[start + skip..start + chunk] + tokens[start + chunk..] == tokens[start + skip..];
    }
  }

  /** Concatenating the windows with the overlaps removed gives the tokens back. */
  lemma WindowsRebuildTokens<A>(tokens: seq<A>, chunk: nat, overlap: nat)
    requires overlap < chunk
    ensures Rebuild(tokens, WindowsFrom(0, |tokens|, chunk, overlap), 0, overlap) == tokens
  {
    if tokens != [] {
      RebuildFrom(tokens, 0, 0, chunk, overlap);
    }
  }

  // ---- Sections ----

  /** A heading line, in order of position, as the regular expression finds it. */
  datatype Heading = Heading(start: nat, title: string, end: nat)

  datatype Section = Section(path: seq<string>, text: string, charStart: nat)

  ghost predicate Headings(doc: string, hs: seq<Heading>) {
    (forall i :: 0 <= i < |hs| ==> hs[i].start < hs[i].end <= |doc|) &&
    (forall i, j :: 0 <= i < j < |hs| ==> hs[i].end <= hs[j].start)
  }

  function BodyEnd(doc: string, hs: seq<Heading>, i: nat): nat
    requires i < |hs|
  {
    if i + 1 < |hs| then hs[i + 1].start else |doc|
  }

  method SplitIntoSections(doc: string, title: string, hs: seq<Heading>) returns (sections: seq<Section>)
    requires Headings(doc, hs)
    ensures sections == Sections(doc, title, hs)
  {
    if hs == [] {
      return [Section([title], doc, 0)];
    }
    sections := [];
    for i := 0 to |hs|
      invariant |sections| == i && forall k :: 0 <= k < i ==> sections[k] == SectionAt(doc, title, hs, k)
    {
      sections := sections + [Section([title, hs[i].title], doc[hs[i].end..BodyEnd(doc, hs, i)], hs[i].end)];
    }
  }

  function SectionAt(doc: string, title: string, hs: seq<Heading>, k: nat): Section
    requires Headings(doc, hs) && k < |hs|
  {
    Section([title, hs[k].title], doc[hs[k].end..BodyEnd(doc, hs, k)], hs[k].end)
  }

  function Sections(doc: string, title: string, hs: seq<Heading>): seq<Section>
    requires Headings(doc, hs)
  {
    if hs == [] then [Section([title], doc, 0)] else
    seq(|hs|, k requires 0 <= k < |hs| => SectionAt(doc, title, hs, k))
  }

  predicate Within(p: nat, section: Section) {
    section.charStart <= p < section.charStart + |section.text|
  }

  /** A position is in a section exactly when no heading covers it and, if there are headings, it does not come
      before the first one: that text is dropped. */
  lemma SectionsAreTheBodies(doc: string, title: string, hs: seq<Heading>, p: nat)
    requires Headings(doc, hs) && p < |doc|
    ensures (exists k :: 0 <= k < |Sections(doc, title, hs)| && Within(p, Sections(doc, title, hs)[k])) <==>
      (hs != [] ==> hs[0].end <= p) && !Covered(hs, p)
  {
    var sections := Sections(doc, title, hs);
    if hs == [] {
      assert Within(p, sections[0]);
    } else {
      if hs[0].end <= p && !Covered(hs, p) {
        var k := LastBefore(hs, p, |hs|);
        assert Within(p, sections[k]);
      }
      if k :| 0 <= k < |sections| && Within(p, sections[k]) {
        WithinMeansUncovered(doc, title, hs, p, k);
      }
    }
  }

  lemma WithinMeansUncovered(doc: string, title: string, hs: seq<Heading>, p: nat, k: nat)
    requires Headings(doc, hs) && k < |hs| && Within(p, SectionAt(doc, title, hs, k))
    ensures hs[0].end <= p && !Covered(hs, p)
  {
    forall i | 0 <= i < |hs| ensures !(hs[i].start <= p < hs[i].end) {
      HeadingsApart(doc, hs, k, i);
    }
    HeadingsApart(doc, hs, k, 0);
  }

  /** Section k's body lies between headings. */
  lemma HeadingsApart(doc: string, hs: seq<Heading>, k: nat, h: nat)
    requires Headings(doc, hs) && k < |hs| && h < |hs|
    ensures if h <= k then hs[h].end <= hs[k].end else BodyEnd(doc, hs, k) <= hs[h].start
  {
    assert h < k ==> hs[h].end <= hs[k].start;
    assert h > k + 1 ==> hs[k + 1].end <= hs[h].start;
  }

  /** Some heading covers the position. */
  ghost predicate Covered(hs: seq<Heading>, p: nat) {
    exists i :: 0 <= i < |hs| && hs[i].start <= p < hs[i].end
  }

  lemma {:induction false} LastBefore(hs: seq<Heading>, p: nat, n: nat) returns (k: nat)
    requires 0 < n <= |hs| && hs[0].end <= p
    ensures k < n && hs[k].end <= p
    ensures k + 1 < n ==> hs[k + 1].end > p
  {
    if hs[n - 1].end <= p {
      k := n - 1;
    } else {
      k := LastBefore(hs, p, n - 1);
    }
  }

  // ---- Chunks ----

  type Offsets = seq<(nat, nat)>

  /** Tokens are in range and in order. */
  ghost predicate InOrder(text: string, offsets: Offsets) {
    (forall i :: 0 <= i < |offsets| ==> offsets[i].0 <= offsets[i].1 <= |text|) &&
    (forall i, j :: 0 <= i < j < |offsets| ==> offsets[i].0 <= offsets[j].0 && offsets[i].1 <= offsets[j].1)
  }

  /** The tokenizer, the white-space test and the configuration of one ingestion. */
  datatype Splitter = Splitter(encode: string -> Offsets, isSpace: char -> bool, chunk: nat, overlap: int) {
    ghost predicate Valid() {
      chunk > 0 && forall text :: InOrder(text, encode(text))
    }
  }

  datatype Chunk = Chunk(path: seq<string>, text: string, tokenCount: nat, charStart: nat, charEnd: nat, index: nat)

  /** A window of one section, by its position in the section list. */
  datatype Piece = Piece(section: nat, window: Window)

  predicate IsBlank(text: string, isSpace: char -> bool) {
    forall i :: 0 <= i < |text| ==> isSpace(text[i])
  }

  predicate Fits(w: Window, offsets: Offsets) {
    w.start < w.end <= |offsets|
  }

  lemma SliceInRange(text: string, offsets: Offsets, w: Window)
    requires InOrder(text, offsets) && Fits(w, offsets)
    ensures offsets[w.start].0 <= offsets[w.end - 1].1 <= |text|
  {
  }

  /** The text a window covers: from the start of its first token to the end of its last. */
  function Slice(text: string, offsets: Offsets, w: Window): string
    requires InOrder(text, offsets) && Fits(w, offsets)
  {
    text[offsets[w.start].0..offsets[w.end - 1].1]
  }

  lemma {:induction false} WindowsFit(start: nat, n: nat, chunk: nat, overlap: int, i: nat)
    requires chunk > 0 && i < |WindowsFrom(start, n, chunk, overlap)|
    ensures WindowsFrom(start, n, chunk, overlap)[i].start < WindowsFrom(start, n, chunk, overlap)[i].end <= n
    decreases n - start
  {
    if i > 0 {
      WindowsFit(start + Stride(chunk, overlap), n, chunk, overlap, i - 1);
    }
  }

  /** The first n windows of section k, without the blank ones. */
  ghost function Kept(section: Section, k: nat, n: nat, sp: Splitter): seq<Piece>
    requires sp.Valid() && n <= |SectionWindows(section, sp)|
  {
    if n == 0 then []
    else var w := SectionWindows(section, sp)[n - 1];
      Kept(section, k, n - 1, sp) +
      (if !Fits(w, sp.encode(section.text)) || IsBlank(Slice(section.text, sp.encode(section.text), w), sp.isSpace) then []
       else [Piece(k, w)])
  }

  function SectionWindows(section: Section, sp: Splitter): seq<Window>
    requires sp.chunk > 0
  {
    WindowsFrom(0, |sp.encode(section.text)|, sp.chunk, sp.overlap)
  }

  /** The windows a document's chunks come from, in the order the loops visit them. */
  ghost function Pieces(sections: seq<Section>, sp: Splitter): seq<Piece>
    requires sp.Valid()
  {
    if sections == [] then []
    else var k := |sections| - 1;
      Pieces(sections[..k], sp) + Kept(sections[k], k, |SectionWindows(sections[k], sp)|, sp)
  }

  ghost predicate IsPiece(piece: Piece, sections: seq<Section>, sp: Splitter)
    requires sp.Valid()
  {
    piece.section < |sections| && Fits(piece.window, sp.encode(sections[piece.section].text)) &&
    piece.window in SectionWindows(sections[piece.section], sp)
  }

  /** The chunk cut out of the document by one window. */
  ghost function ChunkOf(sections: seq<Section>, sp: Splitter, piece: Piece, index: nat): Chunk
    requires sp.Valid() && IsPiece(piece, sections, sp)
  {
    var s, w := sections[piece.section], piece.window;
    var offsets := sp.encode(s.text);
    Chunk(s.path, Slice(s.text, offsets, w), w.end - w.start,
          s.charStart + offsets[w.start].0, s.charStart + offsets[w.end - 1].1, index)
  }

  /** One chunk per kept window, numbered from zero. */
  ghost predicate AreChunks(chunks: seq<Chunk>, pieces: seq<Piece>, sections: seq<Section>, sp: Splitter)
    requires sp.Valid()
  {
    |chunks| == |pieces| &&
    forall i :: 0 <= i < |pieces| ==> IsPiece(pieces[i], sections, sp) && chunks[i] == ChunkOf(sections, sp, pieces[i], i)
  }

  lemma Append<A>(s: seq<A>, t: seq<A>, a: A)
    ensures s + (t + [a]) == s + t + [a]
  {
  }

  lemma AppendChunk(chunks: seq<Chunk>, pieces: seq<Piece>, sections: seq<Section>, sp: Splitter, piece: Piece, chunk: Chunk)
    requires sp.Valid() && AreChunks(chunks, pieces, sections, sp)
    requires IsPiece(piece, sections, sp) && chunk == ChunkOf(sections, sp, piece, |chunks|)
    ensures AreChunks(chunks + [chunk], pieces + [piece], sections, sp)
  {
    hide IsPiece;
    hide ChunkOf;
  }

  /** Whether a window of a section is left out. */
  ghost predicate Skipped(section: Section, sp: Splitter, i: nat)
    requires sp.Valid() && i < |SectionWindows(section, sp)|
  {
    var w, offsets := SectionWindows(section, sp)[i], sp.encode(section.text);
    !Fits(w, offsets) || IsBlank(Slice(section.text, offsets, w), sp.isSpace)
  }

  lemma KeptStep(section: Section, k: nat, i: nat, sp: Splitter)
    requires sp.Valid() && i < |SectionWindows(section, sp)|
    ensures Kept(section, k, 0, sp) == []
    ensures Kept(section, k, i + 1, sp) ==
      if Skipped(section, sp, i) then Kept(section, k, i, sp)
      else Kept(section, k, i, sp) + [Piece(k, SectionWindows(section, sp)[i])]
  {
    hide SectionWindows;
    hide IsBlank;
    hide Slice;
  }

  /** The chunk one window of a section gives. */
  lemma ChunkOfWindow(sections: seq<Section>, k: nat, section: Section, sp: Splitter, i: nat, index: nat)
    requires sp.Valid() && k < |sections| && sections[k] == section && i < |SectionWindows(section, sp)|
    ensures var w, offsets := SectionWindows(section, sp)[i], sp.encode(section.text);
      && Fits(w, offsets) && IsPiece(Piece(k, w), sections, sp)
      && offsets[w.start].0 <= offsets[w.end - 1].1 <= |section.text|
      && (Skipped(section, sp, i) <==> IsBlank(section.text[offsets[w.start].0..offsets[w.end - 1].1], sp.isSpace))
      && ChunkOf(sections, sp, Piece(k, w), index) ==
           Chunk(section.path, section.text[offsets[w.start].0..offsets[w.end - 1].1], w.end - w.start,
                 section.charStart + offsets[w.start].0, section.charStart + offsets[w.end - 1].1, index)
  {
    hide WindowsFrom;
    hide IsBlank;
    var w, offsets := SectionWindows(section, sp)[i], sp.encode(section.text);
    WindowsFit(0, |offsets|, sp.chunk, sp.overlap, i);
    assert InOrder(section.text, offsets);
    SliceInRange(section.text, offsets, w);
  }

  lemma NothingKept(section: Section, k: nat, sp: Splitter)
    requires sp.Valid()
    ensures Kept(section, k, 0, sp) == []
  {
  }

  /** The loop over one section's windows: chunks are appended to those of the sections before it. */
  method ChunkSection(ghost sections: seq<Section>, k: nat, section: Section, sp: Splitter,
                      ghost before: seq<Piece>, earlier: seq<Chunk>)
    returns (chunks: seq<Chunk>)
    requires sp.Valid() && k < |sections| && sections[k] == section
    requires AreChunks(earlier, before, sections, sp)
    ensures AreChunks(chunks, before + Kept(section, k, |SectionWindows(section, sp)|, sp), sections, sp)
  {
    hide Kept;
    hide AreChunks;
    hide IsPiece;
    hide ChunkOf;
    hide Skipped;
    hide IsBlank;
    hide InOrder;
    hide WindowsFrom;
    var offsets := sp.encode(section.text);
    var windows := SplitTokens(|offsets|, sp.chunk, sp.overlap);
    chunks := earlier;
    var index := |chunks|;
    NothingKept(section, k, sp);
    assert before + [] == before;
    for i := 0 to |windows|
      invariant index == |chunks| && AreChunks(chunks, before + Kept(section, k, i, sp), sections, sp)
    {
      var w := windows[i];
      ChunkOfWindow(sections, k, section, sp, i, index);
      KeptStep(section, k, i, sp);
      var text := section.text[offsets[w.start].0..offsets[w.end - 1].1];
      if !IsBlank(text, sp.isSpace) {
        var chunk := Chunk(section.path, text, w.end - w.start, section.charStart + offsets[w.start].0,
                           section.charStart + offsets[w.end - 1].1, index);
        Append(before, Kept(section, k, i, sp), Piece(k, w));
        AppendChunk(chunks, before + Kept(section, k, i, sp), sections, sp, Piece(k, w), chunk);
        chunks := chunks + [chunk];
        index := index + 1;
      }
    }
  }

  lemma PiecesStep(sections: seq<Section>, sp: Splitter, k: nat)
    requires sp.Valid() && k < |sections|
    ensures Pieces(sections[..k + 1], sp) ==
      Pieces(sections[..k], sp) + Kept(sections[k], k, |SectionWindows(sections[k], sp)|, sp)
  {
    hide Kept;
    hide SectionWindows;
    assert sections[..k + 1][..k] == sections[..k];
  }

  method ChunkDocument(doc: string, title: string, hs: seq<Heading>, sp: Splitter) returns (r: Result<seq<Chunk>, ()>)
    requires Headings(doc, hs) && sp.Valid()
    ensures r.Err? <==> sp.overlap >= sp.chunk
    ensures r.Ok? ==> AreChunks(r.value, Pieces(Sections(doc, title, hs), sp), Sections(doc, title, hs), sp)
  {
    hide Kept;
    hide Headings;
    hide SectionWindows;
    hide Sections;
    if sp.overlap >= sp.chunk {
      return Err(());
    }
    var sections := SplitIntoSections(doc, title, hs);
    var chunks: seq<Chunk> := [];
    for k := 0 to |sections|
      invariant AreChunks(chunks, Pieces(sections[..k], sp), sections, sp)
    {
      PiecesStep(sections, sp, k);
      chunks := ChunkSection(sections, k, sections[k], sp, Pieces(sections[..k], sp), chunks);
    }
    assert sections[..|sections|] == sections;
    return Ok(chunks);
  }

  // ---- What the chunks of a document are ----

  lemma {:induction false} KeptAreWindows(section: Section, k: nat, n: nat, sp: Splitter, p: nat)
    requires sp.Valid() && n <= |SectionWindows(section, sp)| && p < |Kept(section, k, n, sp)|
    ensures var piece := Kept(section, k, n, sp)[p];
            piece.section == k && Fits(piece.window, sp.encode(section.text)) && piece.window in SectionWindows(section, sp)
  {
    if p < |Kept(section, k, n - 1, sp)| {
      KeptAreWindows(section, k, n - 1, sp, p);
    }
  }

  lemma {:induction false} PiecesAreWindows(sections: seq<Section>, sp: Splitter, p: nat)
    requires sp.Valid() && p < |Pieces(sections, sp)|
    ensures IsPiece(Pieces(sections, sp)[p], sections, sp)
  {
    var k := |sections| - 1;
    var front := Pieces(sections[..k], sp);
    if p < |front| {
      PiecesAreWindows(sections[..k], sp, p);
    } else {
      KeptAreWindows(sections[k], k, |SectionWindows(sections[k], sp)|, sp, p - |front|);
    }
  }

  /** The slice a window covers, cut out of a document that holds the section's text at `at`. */
  lemma SliceOfDocument(doc: string, at: nat, text: string, offsets: Offsets, w: Window)
    requires InOrder(text, offsets) && Fits(w, offsets)
    requires at + |text| <= |doc| && doc[at..at + |text|] == text
    ensures offsets[w.start].0 <= offsets[w.end - 1].1 <= |text|
    ensures doc[at + offsets[w.start].0..at + offsets[w.end - 1].1] == Slice(text, offsets, w)
  {
    var a, b := offsets[w.start].0, offsets[w.end - 1].1;
    SliceInRange(text, offsets, w);
    SubSlice(doc, at, at + |text|, a, b);
  }

  lemma SubSlice<A>(s: seq<A>, lo: nat, hi: nat, a: nat, b: nat)
    requires lo <= hi <= |s| && a <= b <= hi - lo
    ensures s[lo..hi][a..b] == s[lo + a..lo + b]
  {
    var t := s[lo..hi];
    forall i | 0 <= i < b - a ensures t[a..b][i] == s[lo + a..lo + b][i] {
      assert t[a..b][i] == t[a + i] == s[lo + (a + i)];
    }
    assert t[a..b] == s[lo + a..lo + b];
  }

  /** A section is an exact slice of the document, named after the document and the heading it follows, and no heading
      reaches into it. */
  lemma SectionCrossesNoHeading(doc: string, title: string, hs: seq<Heading>, k: nat, h: nat)
    requires Headings(doc, hs) && k < |Sections(doc, title, hs)|
    ensures var s := Sections(doc, title, hs)[k];
            s.charStart + |s.text| <= |doc| && doc[s.charStart..s.charStart + |s.text|] == s.text &&
            (h < |hs| ==> s.charStart + |s.text| <= hs[h].start || hs[h].end <= s.charStart) &&
            if hs == [] then s.path == [title] && s.text == doc
            else |Sections(doc, title, hs)| == |hs| && s.path == [title, hs[k].title] && s.charStart == hs[k].end
  {
    if h < |hs| {
      HeadingsApart(doc, hs, k, h);
    }
  }

  /** Every chunk is the slice of the document between its offsets, lies inside one section's body, and carries its
      own position as index. */
  lemma ChunksAreExactSlices(doc: string, title: string, hs: seq<Heading>, sp: Splitter, chunks: seq<Chunk>, i: nat)
    requires Headings(doc, hs) && sp.Valid() && i < |chunks|
    requires AreChunks(chunks, Pieces(Sections(doc, title, hs), sp), Sections(doc, title, hs), sp)
    ensures chunks[i].index == i && chunks[i].charStart <= chunks[i].charEnd <= |doc|
    ensures doc[chunks[i].charStart..chunks[i].charEnd] == chunks[i].text
    ensures exists k :: 0 <= k < |Sections(doc, title, hs)| && Inside(chunks[i], Sections(doc, title, hs)[k])
  {
    hide Sections;
    hide Headings;
    hide Pieces;
    hide Slice;
    hide ChunkOf;
    hide InOrder;
    var sections := Sections(doc, title, hs);
    var piece := Pieces(sections, sp)[i];
    var s := sections[piece.section];
    SectionCrossesNoHeading(doc, title, hs, piece.section, 0);
    ChunkOfIsASlice(doc, sections, sp, piece, i);
    assert Inside(chunks[i], s);
  }

  lemma ChunkOfIsASlice(doc: string, sections: seq<Section>, sp: Splitter, piece: Piece, index: nat)
    requires sp.Valid() && IsPiece(piece, sections, sp)
    requires var s := sections[piece.section];
      s.charStart + |s.text| <= |doc| && doc[s.charStart..s.charStart + |s.text|] == s.text
    ensures var c := ChunkOf(sections, sp, piece, index);
      && c.index == index && c.charStart <= c.charEnd <= |doc| && doc[c.charStart..c.charEnd] == c.text
      && Inside(c, sections[piece.section])
  {
    hide SectionWindows;
    var s := sections[piece.section];
    assert InOrder(s.text, sp.encode(s.text));
    hide InOrder;
    SliceInRange(s.text, sp.encode(s.text), piece.window);
    SliceOfDocument(doc, s.charStart, s.text, sp.encode(s.text), piece.window);
  }

  ghost predicate Inside(c: Chunk, s: Section) {
    s.charStart <= c.charStart && c.charEnd <= s.charStart + |s.text| && c.path == s.path
  }

  /** No chunk reaches into a heading line. */
  lemma ChunksCrossNoHeading(doc: string, title: string, hs: seq<Heading>, sp: Splitter, chunks: seq<Chunk>, i: nat, h: nat)
    requires Headings(doc, hs) && sp.Valid() && i < |chunks| && h < |hs|
    requires AreChunks(chunks, Pieces(Sections(doc, title, hs), sp), Sections(doc, title, hs), sp)
    ensures chunks[i].charEnd <= hs[h].start || hs[h].end <= chunks[i].charStart
  {
    ChunksAreExactSlices(doc, title, hs, sp, chunks, i);
    var k :| 0 <= k < |Sections(doc, title, hs)| && Inside(chunks[i], Sections(doc, title, hs)[k]);
    SectionCrossesNoHeading(doc, title, hs, k, h);
  }

  // ---- Order and coverage ----

  lemma {:induction false} WindowsIncrease(start: nat, n: nat, chunk: nat, overlap: int, i: nat, j: nat)
    requires chunk > 0 && i < j < |WindowsFrom(start, n, chunk, overlap)|
    ensures WindowsFrom(start, n, chunk, overlap)[i].start < WindowsFrom(start, n, chunk, overlap)[j].start
    decreases n - start
  {
    var next := start + Stride(chunk, overlap);
    if i > 0 {
      WindowsIncrease(next, n, chunk, overlap, i - 1, j - 1);
    } else {
      WindowsStartLater(next, n, chunk, overlap);
    }
  }

  lemma {:induction false} KeptInOrder(section: Section, k: nat, n: nat, sp: Splitter, p: nat) returns (i: nat)
    requires sp.Valid() && n <= |SectionWindows(section, sp)| && p < |Kept(section, k, n, sp)|
    ensures i < n && Kept(section, k, n, sp)[p] == Piece(k, SectionWindows(section, sp)[i])
    ensures forall q :: 0 <= q < p ==> Kept(section, k, n, sp)[q].window.start < SectionWindows(section, sp)[i].start
  {
    hide IsBlank;
    hide Fits;
    hide Slice;
    if p < |Kept(section, k, n - 1, sp)| {
      i := KeptInOrder(section, k, n - 1, sp, p);
    } else {
      i := n - 1;
      forall q | 0 <= q < p ensures Kept(section, k, n, sp)[q].window.start < SectionWindows(section, sp)[i].start {
        var j := KeptInOrder(section, k, n - 1, sp, q);
        WindowsIncrease(0, |sp.encode(section.text)|, sp.chunk, sp.overlap, j, i);
      }
    }
  }

  /** Chunks come in document order: by section, and inside a section by first token. */
  lemma {:induction false} PiecesInOrder(sections: seq<Section>, sp: Splitter, p: nat, q: nat)
    requires sp.Valid() && p < q < |Pieces(sections, sp)|
    ensures var a, b := Pieces(sections, sp)[p], Pieces(sections, sp)[q];
            a.section < b.section || (a.section == b.section && a.window.start < b.window.start)
  {
    var k := |sections| - 1;
    var front := Pieces(sections[..k], sp);
    var n := |SectionWindows(sections[k], sp)|;
    if q < |front| {
      PiecesInOrder(sections[..k], sp, p, q);
    } else {
      var i := KeptInOrder(sections[k], k, n, sp, q - |front|);
      if p < |front| {
        PiecesAreWindows(sections[..k], sp, p);
      } else {
        KeptAreWindows(sections[k], k, n, sp, p - |front|);
      }
    }
  }

  /** No token is white space only. */
  ghost predicate NonBlankTokens(text: string, offsets: Offsets, isSpace: char -> bool)
    requires InOrder(text, offsets)
  {
    forall t :: 0 <= t < |offsets| ==> !IsBlank(text[offsets[t].0..offsets[t].1], isSpace)
  }

  lemma WindowWithTokensIsNotBlank(text: string, offsets: Offsets, w: Window, isSpace: char -> bool)
    requires InOrder(text, offsets) && Fits(w, offsets) && NonBlankTokens(text, offsets, isSpace)
    ensures !IsBlank(Slice(text, offsets, w), isSpace)
  {
    var t := w.start;
    var i :| 0 <= i < |text[offsets[t].0..offsets[t].1]| && !isSpace(text[offsets[t].0..offsets[t].1][i]);
    assert offsets[t].1 <= offsets[w.end - 1].1;
    assert Slice(text, offsets, w)[i] == text[offsets[t].0..offsets[t].1][i];
  }

  lemma {:induction false} KeptHasWindow(section: Section, k: nat, n: nat, sp: Splitter, i: nat)
    requires sp.Valid() && i < n <= |SectionWindows(section, sp)|
    requires NonBlankTokens(section.text, sp.encode(section.text), sp.isSpace)
    ensures Piece(k, SectionWindows(section, sp)[i]) in Kept(section, k, n, sp)
  {
    hide Kept;
    hide Skipped;
    KeptStep(section, k, n - 1, sp);
    if i < n - 1 {
      KeptHasWindow(section, k, n - 1, sp, i);
    } else {
      NothingSkipped(section, sp, i);
    }
  }

  lemma NothingSkipped(section: Section, sp: Splitter, i: nat)
    requires sp.Valid() && i < |SectionWindows(section, sp)|
    requires NonBlankTokens(section.text, sp.encode(section.text), sp.isSpace)
    ensures !Skipped(section, sp, i)
  {
    hide WindowsFrom;
    hide IsBlank;
    WindowsFit(0, |sp.encode(section.text)|, sp.chunk, sp.overlap, i);
    WindowWithTokensIsNotBlank(section.text, sp.encode(section.text), SectionWindows(section, sp)[i], sp.isSpace);
  }

  lemma {:induction false} PiecesHaveSection(sections: seq<Section>, sp: Splitter, k: nat, piece: Piece)
    requires sp.Valid() && k < |sections|
    requires piece in Kept(sections[k], k, |SectionWindows(sections[k], sp)|, sp)
    ensures piece in Pieces(sections, sp)
  {
    var last := |sections| - 1;
    if k < last {
      PiecesHaveSection(sections[..last], sp, k, piece);
    }
  }

  lemma {:induction false} KeptExactlyWhen(section: Section, k: nat, n: nat, sp: Splitter, i: nat)
    requires sp.Valid() && n <= |SectionWindows(section, sp)| && i < |SectionWindows(section, sp)|
    ensures Piece(k, SectionWindows(section, sp)[i]) in Kept(section, k, n, sp) <==> i < n && !Skipped(section, sp, i)
  {
    hide Skipped;
    hide Kept;
    KeptStep(section, k, i, sp);
    if n > 0 {
      KeptStep(section, k, n - 1, sp);
      KeptExactlyWhen(section, k, n - 1, sp, i);
      var tokens := |sp.encode(section.text)|;
      if i < n - 1 {
        WindowsIncrease(0, tokens, sp.chunk, sp.overlap, i, n - 1);
      } else if i > n - 1 {
        WindowsIncrease(0, tokens, sp.chunk, sp.overlap, n - 1, i);
      }
    }
  }

  lemma {:induction false} PiecesBySection(sections: seq<Section>, sp: Splitter, piece: Piece)
    requires sp.Valid()
    ensures piece in Pieces(sections, sp) <==>
      var k := piece.section;
      k < |sections| && piece in Kept(sections[k], k, |SectionWindows(sections[k], sp)|, sp)
  {
    hide Kept;
    hide SectionWindows;
    if sections != [] {
      var last := |sections| - 1;
      PiecesBySection(sections[..last], sp, piece);
      var kept := Kept(sections[last], last, |SectionWindows(sections[last], sp)|, sp);
      forall p | 0 <= p < |kept| ensures kept[p].section == last {
        KeptAreWindows(sections[last], last, |SectionWindows(sections[last], sp)|, sp, p);
      }
    }
  }

  /** Something other than whitespace stands here. */
  predicate Solid(text: string, from: nat, to: nat, isSpace: char -> bool)
    requires from <= to <= |text|
  {
    exists p :: from <= p < to && !isSpace(text[p])
  }

  /** A window of a section is cut out as a chunk exactly when it holds something other than whitespace. */
  lemma ChunkedExactlyWhen(sections: seq<Section>, sp: Splitter, k: nat, i: nat)
    requires sp.Valid() && k < |sections| && i < |SectionWindows(sections[k], sp)|
    ensures
      var text, w := sections[k].text, SectionWindows(sections[k], sp)[i];
      var offsets := sp.encode(text);
      && w.start < w.end <= |offsets| && offsets[w.start].0 <= offsets[w.end - 1].1 <= |text|
      && (Piece(k, w) in Pieces(sections, sp) <==> Solid(text, offsets[w.start].0, offsets[w.end - 1].1, sp.isSpace))
  {
    hide SectionWindows;
    hide Kept;
    hide Pieces;
    hide ChunkOf;
    hide IsPiece;
    var section := sections[k];
    var w, offsets := SectionWindows(section, sp)[i], sp.encode(section.text);
    PiecesBySection(sections, sp, Piece(k, w));
    KeptExactlyWhen(section, k, |SectionWindows(section, sp)|, sp, i);
    ChunkOfWindow(sections, k, section, sp, i, 0);
    var piece := section.text[offsets[w.start].0..offsets[w.end - 1].1];
    assert forall p :: 0 <= p < |piece| ==> piece[p] == section.text[offsets[w.start].0 + p];
    if IsBlank(piece, sp.isSpace) {
      forall p | offsets[w.start].0 <= p < offsets[w.end - 1].1 ensures sp.isSpace(section.text[p]) {
        assert section.text[p] == piece[p - offsets[w.start].0];
      }
    }
  }

  /** Every token of every section's body lies in some chunk. */
  lemma EveryTokenIsChunked(sections: seq<Section>, sp: Splitter, k: nat, t: nat)
    requires sp.Valid() && 0 <= sp.overlap < sp.chunk
    requires k < |sections| && t < |sp.encode(sections[k].text)|
    requires NonBlankTokens(sections[k].text, sp.encode(sections[k].text), sp.isSpace)
    ensures exists p :: 0 <= p < |Pieces(sections, sp)| && Pieces(sections, sp)[p].section == k &&
                        Pieces(sections, sp)[p].window.start <= t < Pieces(sections, sp)[p].window.end
  {
    var windows := SectionWindows(sections[k], sp);
    WindowsReach(0, |sp.encode(sections[k].text)|, sp.chunk, sp.overlap, t);
    var i :| 0 <= i < |windows| && windows[i].start <= t < windows[i].end;
    KeptHasWindow(sections[k], k, |windows|, sp, i);
    PiecesHaveSection(sections, sp, k, Piece(k, windows[i]));
    var p :| 0 <= p < |Pieces(sections, sp)| && Pieces(sections, sp)[p] == Piece(k, windows[i]);
  }
}
