/**
 * The segmenter of backend/process_data.py: `clean_text`, the structural
 * split of `universal_chunker` (a zero-width lookahead split at header,
 * rule, "Unit n" and "Module n" markers), and the tagging and overlapping
 * re-slicing of over-long pieces.
 */
module Segmenter {
  import opened Text

  // ---------------------------------------------------------------------
  // clean_text: re.sub(r'\s+', ' ', text).strip()
  // ---------------------------------------------------------------------

  /** `re.sub(r'\s+', ' ', s)`: every maximal run of whitespace becomes one space. */
  function CollapseSpaces(s: string): (r: string)
    ensures r == [] <==> s == []
    ensures s != [] ==> (IsSpace(r[0]) <==> IsSpace(s[0]))
    decreases |s|
  {
    if s == [] then []
    else if IsSpace(s[0]) then
      var rest := StripLeft(s);
      StripLeftSpec(s);
      [' '] + CollapseSpaces(rest)
    else [s[0]] + CollapseSpaces(s[1..])
  }

  function CleanText(s: string): string {
    Strip(CollapseSpaces(s))
  }

  /** The only whitespace is single `' '` characters. */
  predicate SingleSpaced(t: string) {
    forall i :: 0 <= i < |t| && IsSpace(t[i]) ==> t[i] == ' ' && (i + 1 < |t| ==> !IsSpace(t[i + 1]))
  }

  /** What `clean_text` promises of its output. */
  predicate Normalized(t: string) {
    SingleSpaced(t) && (t == [] || (!IsSpace(t[0]) && !IsSpace(t[|t| - 1])))
  }

  /** The non-whitespace characters of `s`, in order. */
  function NonSpace(s: string): string
    decreases |s|
  {
    if s == [] then [] else (if IsSpace(s[0]) then [] else [s[0]]) + NonSpace(s[1..])
  }

  lemma {:induction false} NonSpaceAppend(a: string, b: string)
    ensures NonSpace(a + b) == NonSpace(a) + NonSpace(b)
    decreases |a|
  {
    if a != [] {
      assert (a + b)[1..] == a[1..] + b;
      NonSpaceAppend(a[1..], b);
    } else {
      assert a + b == b;
    }
  }

  lemma {:induction false} NonSpaceOfBlank(s: string)
    requires forall i :: 0 <= i < |s| ==> IsSpace(s[i])
    ensures NonSpace(s) == []
    decreases |s|
  {
    if s != [] {
      NonSpaceOfBlank(s[1..]);
    }
  }

  lemma NonSpaceStripLeft(s: string)
    ensures NonSpace(StripLeft(s)) == NonSpace(s)
  {
    var r := StripLeft(s);
    StripLeftSpec(s);
    var k := |s| - |r|;
    assert s == s[..k] + r;
    NonSpaceAppend(s[..k], r);
    NonSpaceOfBlank(s[..k]);
  }

  lemma NonSpaceStripRight(s: string)
    ensures NonSpace(StripRight(s)) == NonSpace(s)
  {
    var r := StripRight(s);
    StripRightSpec(s);
    assert s == r + s[|r|..];
    NonSpaceAppend(r, s[|r|..]);
    NonSpaceOfBlank(s[|r|..]);
  }

  lemma NonSpaceStrip(s: string)
    ensures NonSpace(Strip(s)) == NonSpace(s)
  {
    NonSpaceStripLeft(s);
    NonSpaceStripRight(StripLeft(s));
  }

  lemma {:induction false} CollapseKeepsText(s: string)
    ensures NonSpace(CollapseSpaces(s)) == NonSpace(s)
    decreases |s|
  {
    if s != [] {
      if IsSpace(s[0]) {
        var rest := StripLeft(s);
        StripLeftSpec(s);
        CollapseKeepsText(rest);
        NonSpaceAppend([' '], CollapseSpaces(rest));
        NonSpaceStripLeft(s);
      } else {
        CollapseKeepsText(s[1..]);
        NonSpaceAppend([s[0]], CollapseSpaces(s[1..]));
      }
    }
  }

  lemma {:induction false} CollapseSingleSpaced(s: string)
    ensures SingleSpaced(CollapseSpaces(s))
    decreases |s|
  {
    if s != [] {
      var r := CollapseSpaces(s);
      if IsSpace(s[0]) {
        var rest := StripLeft(s);
        StripLeftSpec(s);
        CollapseSingleSpaced(rest);
        assert r == [' '] + CollapseSpaces(rest);
        assert forall i :: 1 <= i < |r| ==> r[i] == CollapseSpaces(rest)[i - 1];
      } else {
        CollapseSingleSpaced(s[1..]);
        assert r == [s[0]] + CollapseSpaces(s[1..]);
        assert forall i :: 1 <= i < |r| ==> r[i] == CollapseSpaces(s[1..])[i - 1];
      }
    }
  }

  /** A single-spaced string is left alone by the collapse. */
  lemma {:induction false} CollapseFixesSingleSpaced(t: string)
    requires SingleSpaced(t)
    ensures CollapseSpaces(t) == t
    decreases |t|
  {
    if t != [] {
      assert SingleSpaced(t[1..]) by {
        forall i | 0 <= i < |t[1..]| && IsSpace(t[1..][i])
          ensures t[1..][i] == ' ' && (i + 1 < |t[1..]| ==> !IsSpace(t[1..][i + 1]))
        {
          assert t[1..][i] == t[i + 1];
        }
      }
      if IsSpace(t[0]) {
        assert StripLeft(t) == StripLeft(t[1..]);
        assert StripLeft(t[1..]) == t[1..];
      }
      CollapseFixesSingleSpaced(t[1..]);
    }
  }

  lemma StripKeepsSingleSpaced(t: string)
    requires SingleSpaced(t)
    ensures SingleSpaced(Strip(t))
  {
    var l := StripLeft(t);
    StripLeftSpec(t);
    var r := StripRight(l);
    StripRightSpec(l);
    var a := |t| - |l|;
    assert forall i :: 0 <= i < |r| ==> r[i] == t[a + i];
  }

  /** `clean_text` leaves no leading, trailing, doubled or non-space whitespace. */
  lemma CleanTextNormalized(s: string)
    ensures Normalized(CleanText(s))
  {
    CollapseSingleSpaced(s);
    StripKeepsSingleSpaced(CollapseSpaces(s));
    StripSpec(CollapseSpaces(s));
  }

  /** `clean_text` keeps every non-whitespace character, in order. */
  lemma CleanTextKeepsText(s: string)
    ensures NonSpace(CleanText(s)) == NonSpace(s)
  {
    CollapseKeepsText(s);
    NonSpaceStrip(CollapseSpaces(s));
  }

  /** `clean_text` is the identity on its own outputs, hence idempotent. */
  lemma CleanTextFixesNormalized(t: string)
    requires Normalized(t)
    ensures CleanText(t) == t
  {
    CollapseFixesSingleSpaced(t);
    assert StripLeft(t) == t;
    assert StripRight(t) == t;
  }

  lemma CleanTextIdempotent(s: string)
    ensures CleanText(CleanText(s)) == CleanText(s)
  {
    CleanTextNormalized(s);
    CleanTextFixesNormalized(CleanText(s));
  }

  // ---------------------------------------------------------------------
  // Step A: re.split(r'(?=\n## |\n---|Unit \d|Module \d)', text)
  // ---------------------------------------------------------------------

  /** The lookahead matches at the start of `s`. */
  predicate StartsWithMarker(s: string) {
    || StartsWith(s, "\n## ")
    || StartsWith(s, "\n---")
    || (StartsWith(s, "Unit ") && |s| > 5 && IsDigit(s[5]))
    || (StartsWith(s, "Module ") && |s| > 7 && IsDigit(s[7]))
  }

  /** The number of characters the matched alternative looks at. */
  function MarkerLength(s: string): (n: nat)
    requires StartsWithMarker(s)
    ensures n <= |s|
  {
    if StartsWith(s, "\n## ") || StartsWith(s, "\n---") then 4
    else if StartsWith(s, "Unit ") && |s| > 5 && IsDigit(s[5]) then 6
    else 8
  }

  lemma MarkerLead(s: string)
    requires StartsWithMarker(s)
    ensures s[0] == '\n' || s[0] == 'U' || s[0] == 'M'
  {
    if StartsWith(s, "\n## ") { assert s[0] == s[..4][0]; }
    else if StartsWith(s, "\n---") { assert s[0] == s[..4][0]; }
    else if StartsWith(s, "Unit ") && |s| > 5 && IsDigit(s[5]) { assert s[0] == s[..5][0]; }
    else { assert s[0] == s[..7][0]; }
  }

  /** No marker starts strictly inside another marker. */
  lemma MarkersDoNotOverlap(s: string, j: nat)
    requires StartsWithMarker(s) && 0 < j < MarkerLength(s)
    ensures !StartsWithMarker(s[j..])
  {
    var c := s[j];
    if StartsWith(s, "\n## ") {
      assert c == s[..4][j];
    } else if StartsWith(s, "\n---") {
      assert c == s[..4][j];
    } else if StartsWith(s, "Unit ") && |s| > 5 && IsDigit(s[5]) {
      if j < 5 { assert c == s[..5][j]; }
    } else {
      if j < 7 { assert c == s[..7][j]; }
    }
    if StartsWithMarker(s[j..]) {
      MarkerLead(s[j..]);
      assert false;
    }
  }

  /** Whether a marker starts at `s` depends only on its first `MarkerLength(s)` characters. */
  lemma MarkerInPrefix(s: string, n: nat)
    requires StartsWithMarker(s) && MarkerLength(s) <= n <= |s|
    ensures StartsWithMarker(s[..n])
  {
    var t := s[..n];
    if StartsWith(s, "\n## ") { assert t[..4] == s[..4]; }
    else if StartsWith(s, "\n---") { assert t[..4] == s[..4]; }
    else if StartsWith(s, "Unit ") && |s| > 5 && IsDigit(s[5]) { assert t[..5] == s[..5] && t[5] == s[5]; }
    else { assert t[..7] == s[..7] && t[7] == s[7]; }
  }

  /** The first position at or after `j` where a marker starts, or `|s|`. */
  function NextCut(s: string, j: nat): (r: nat)
    requires 1 <= j <= |s|
    ensures j <= r <= |s|
    decreases |s| - j
  {
    if j == |s| || StartsWithMarker(s[j..]) then j else NextCut(s, j + 1)
  }

  /** The cut is at a marker (or the end), and no marker starts between `j` and the cut. */
  lemma {:induction false} NextCutSpec(s: string, j: nat)
    requires 1 <= j <= |s|
    ensures NextCut(s, j) == |s| || StartsWithMarker(s[NextCut(s, j)..])
    ensures forall k :: j <= k < NextCut(s, j) ==> !StartsWithMarker(s[k..])
    decreases |s| - j
  {
    if !(j == |s| || StartsWithMarker(s[j..])) {
      NextCutSpec(s, j + 1);
    }
  }

  /** The pieces of a text that is cut at every marker position other than 0. */
  function PiecesFrom(s: string): seq<string>
    decreases |s|
  {
    if s == [] then [] else var j := NextCut(s, 1); [s[..j]] + PiecesFrom(s[j..])
  }

  /**
   * `re.split` with a zero-width pattern: a match at position 0 yields an
   * empty first piece, and so does an empty text.
   */
  function LookaheadSplit(text: string): seq<string> {
    if text == [] || StartsWithMarker(text) then [""] + PiecesFrom(text) else PiecesFrom(text)
  }

  function Concat(ps: seq<string>): string
    decreases |ps|
  {
    if ps == [] then [] else ps[0] + Concat(ps[1..])
  }

  /** No marker starts strictly inside a piece (the text after the piece is taken into account). */
  predicate NoInnerMarker(ps: seq<string>) {
    forall k, i :: 0 <= k < |ps| && 0 < i < |ps[k]| ==> !StartsWithMarker(ps[k][i..] + Concat(ps[k + 1..]))
  }

  lemma {:induction false} PiecesConcat(s: string)
    ensures Concat(PiecesFrom(s)) == s
    decreases |s|
  {
    if s != [] {
      var j := NextCut(s, 1);
      var r := PiecesFrom(s);
      var tail := PiecesFrom(s[j..]);
      PiecesConcat(s[j..]);
      assert r[0] == s[..j] && r[1..] == tail;
      assert s[..j] + s[j..] == s;
    }
  }

  lemma {:induction false} PiecesNonEmpty(s: string)
    ensures s != [] ==> |PiecesFrom(s)| > 0
    ensures forall k :: 0 <= k < |PiecesFrom(s)| ==> PiecesFrom(s)[k] != []
    decreases |s|
  {
    if s != [] {
      var j := NextCut(s, 1);
      var r := PiecesFrom(s);
      var tail := PiecesFrom(s[j..]);
      PiecesNonEmpty(s[j..]);
      assert r == [s[..j]] + tail;
      forall k | 1 <= k < |r| ensures r[k] != [] {
        assert r[k] == tail[k - 1];
      }
    }
  }

  /** A text that starts with a marker yields a first piece that starts with it. */
  lemma FirstPieceKeepsMarker(s: string)
    requires StartsWithMarker(s)
    ensures |PiecesFrom(s)| > 0 && StartsWithMarker(PiecesFrom(s)[0])
  {
    var j := NextCut(s, 1);
    NextCutSpec(s, 1);
    assert j >= MarkerLength(s) by {
      if j < MarkerLength(s) {
        MarkersDoNotOverlap(s, j);
      }
    }
    MarkerInPrefix(s, j);
  }

  lemma {:induction false} PiecesStartAtMarkers(s: string)
    ensures forall k :: 1 <= k < |PiecesFrom(s)| ==> StartsWithMarker(PiecesFrom(s)[k])
    decreases |s|
  {
    if s != [] {
      var j := NextCut(s, 1);
      var r := PiecesFrom(s);
      var tail := PiecesFrom(s[j..]);
      NextCutSpec(s, 1);
      PiecesStartAtMarkers(s[j..]);
      assert r[1..] == tail;
      if |r| > 1 {
        FirstPieceKeepsMarker(s[j..]);
      }
      forall k | 1 <= k < |r| ensures StartsWithMarker(r[k]) {
        assert r[k] == tail[k - 1];
      }
    }
  }

  lemma {:induction false} PiecesNoInnerMarker(s: string)
    ensures NoInnerMarker(PiecesFrom(s))
    decreases |s|
  {
    if s != [] {
      var j := NextCut(s, 1);
      var r := PiecesFrom(s);
      var tail := PiecesFrom(s[j..]);
      NextCutSpec(s, 1);
      PiecesNoInnerMarker(s[j..]);
      PiecesConcat(s[j..]);
      assert r[1..] == tail;
      forall i | 0 < i < |r[0]|
        ensures !StartsWithMarker(r[0][i..] + Concat(r[1..]))
      {
        assert r[0] == s[..j];
        assert Concat(r[1..]) == s[j..];
        assert s[..j][i..] + s[j..] == s[i..];
      }
      forall k, i | 1 <= k < |r| && 0 < i < |r[k]|
        ensures !StartsWithMarker(r[k][i..] + Concat(r[k + 1..]))
      {
        assert r[k] == tail[k - 1] && r[k + 1..] == tail[k..];
      }
    }
  }

  lemma PiecesFromSpec(s: string)
    ensures var r := PiecesFrom(s);
      && Concat(r) == s
      && (forall k :: 0 <= k < |r| ==> r[k] != [])
      && (forall k :: 1 <= k < |r| ==> StartsWithMarker(r[k]))
      && (s != [] ==> |r| > 0 && (StartsWithMarker(s) ==> StartsWithMarker(r[0])))
      && NoInnerMarker(r)
  {
    PiecesConcat(s);
    PiecesNonEmpty(s);
    PiecesStartAtMarkers(s);
    PiecesNoInnerMarker(s);
    if StartsWithMarker(s) {
      FirstPieceKeepsMarker(s);
    }
  }

  /**
   * The lookahead split is lossless, every piece after the first starts with
   * a marker and is non-empty, the first piece is empty exactly when the text
   * is empty or starts with a marker, and no marker is left inside a piece.
   */
  lemma LookaheadSplitSpec(text: string)
    ensures var r := LookaheadSplit(text);
      && |r| >= 1
      && Concat(r) == text
      && (forall k :: 1 <= k < |r| ==> r[k] != [] && StartsWithMarker(r[k]))
      && (r[0] == [] <==> text == [] || StartsWithMarker(text))
      && NoInnerMarker(r)
  {
    var p := PiecesFrom(text);
    PiecesFromSpec(text);
    var r := LookaheadSplit(text);
    if text == [] || StartsWithMarker(text) {
      assert r == [""] + p && r[1..] == p;
      assert Concat(r) == "" + Concat(p);
      forall k | 1 <= k < |r| ensures r[k] != [] && StartsWithMarker(r[k]) {
        assert r[k] == p[k - 1];
      }
      forall k, i | 0 <= k < |r| && 0 < i < |r[k]|
        ensures !StartsWithMarker(r[k][i..] + Concat(r[k + 1..]))
      {
        assert r[k] == p[k - 1] && r[k + 1..] == p[k..];
      }
    } else {
      assert |p| > 0 && r == p;
    }
  }

  // ---------------------------------------------------------------------
  // Steps B and C: tag every stripped piece, re-slice the over-long ones
  // ---------------------------------------------------------------------

  /** The overlap the re-slicing keeps between consecutive windows. */
  const Overlap: nat := 200

  /** The chunk size `universal_chunker` is called with. */
  const DefaultMaxChunkSize: nat := 4000

  function TagPrefix(tag: string): string { "[" + tag + "] " }

  /** `f"[{tag}] {c}"` */
  function Tagged(tag: string, c: string): string { TagPrefix(tag) + c }

  function TagAll(tag: string, xs: seq<string>): seq<string> {
    seq(|xs|, k requires 0 <= k < |xs| => Tagged(tag, xs[k]))
  }

  function Min(a: int, b: int): int { if a <= b then a else b }

  /** `[c[i : i + size] for i in range(start, len(c), step)]` */
  function SlicesFrom(c: string, size: nat, step: nat, start: nat): seq<string>
    requires step > 0
    decreases if start <= |c| then |c| - start else 0
  {
    if start >= |c| then [] else [c[start..Min(start + size, |c|)]] + SlicesFrom(c, size, step, start + step)
  }

  /** The overlapping windows of an over-long piece. */
  function Windows(c: string, maxSize: nat): seq<string>
    requires maxSize > Overlap
  {
    SlicesFrom(c, maxSize, maxSize - Overlap, 0)
  }

  /** The chunks one split piece contributes. */
  function PieceChunks(piece: string, tag: string, maxSize: nat): seq<string>
    requires maxSize > Overlap
  {
    var c := Strip(piece);
    if c == [] then []
    else if |Tagged(tag, c)| <= maxSize then [Tagged(tag, c)]
    else TagAll(tag, Windows(c, maxSize))
  }

  /** The chunks of a sequence of pieces, accumulated piece by piece. */
  function ChunkPieces(pieces: seq<string>, tag: string, maxSize: nat): seq<string>
    requires maxSize > Overlap
    decreases |pieces|
  {
    if pieces == [] then []
    else ChunkPieces(pieces[..|pieces| - 1], tag, maxSize) + PieceChunks(pieces[|pieces| - 1], tag, maxSize)
  }

  /** What `universal_chunker(text, tag, maxSize)` returns. */
  function Chunks(text: string, tag: string, maxSize: nat): seq<string>
    requires maxSize > Overlap
  {
    ChunkPieces(LookaheadSplit(text), tag, maxSize)
  }

  /** `universal_chunker`: the loop over pieces and, for an over-long piece, the loop over windows. */
  method UniversalChunker(text: string, tag: string, maxSize: nat) returns (chunks: seq<string>)
    requires maxSize > Overlap
    ensures chunks == Chunks(text, tag, maxSize)
  {
    var pieces := LookaheadSplit(text);
    chunks := [];
    var p := 0;
    while p < |pieces|
      invariant 0 <= p <= |pieces|
      invariant chunks == ChunkPieces(pieces[..p], tag, maxSize)
    {
      assert pieces[..p + 1][..p] == pieces[..p];
      var c := Strip(pieces[p]);
      if c != [] {
        var tagged := Tagged(tag, c);
        if |tagged| <= maxSize {
          chunks := chunks + [tagged];
        } else {
          chunks := AppendWindows(chunks, c, tag, maxSize);
        }
      }
      ChunkPiecesStep(pieces, p, tag, maxSize);
      p := p + 1;
    }
    assert pieces[..p] == pieces;
  }

  lemma ChunkPiecesStep(pieces: seq<string>, p: nat, tag: string, maxSize: nat)
    requires maxSize > Overlap && p < |pieces|
    ensures ChunkPieces(pieces[..p + 1], tag, maxSize)
         == ChunkPieces(pieces[..p], tag, maxSize) + PieceChunks(pieces[p], tag, maxSize)
  {
    assert pieces[..p + 1][..p] == pieces[..p];
  }

  /** The inner `for i in range(0, len(c), maxSize - 200)` loop: appends the tagged windows of `c`. */
  method AppendWindows(acc: seq<string>, c: string, tag: string, maxSize: nat) returns (chunks: seq<string>)
    requires maxSize > Overlap
    ensures chunks == acc + TagAll(tag, Windows(c, maxSize))
  {
    var step := maxSize - Overlap;
    chunks := acc;
    var i := 0;
    while i < |c|
      invariant acc + TagAll(tag, Windows(c, maxSize)) == chunks + TagAll(tag, SlicesFrom(c, maxSize, step, i))
    {
      var sliceText := c[i..Min(i + maxSize, |c|)];
      assert SlicesFrom(c, maxSize, step, i) == [sliceText] + SlicesFrom(c, maxSize, step, i + step);
      assert TagAll(tag, [sliceText] + SlicesFrom(c, maxSize, step, i + step))
          == [Tagged(tag, sliceText)] + TagAll(tag, SlicesFrom(c, maxSize, step, i + step));
      chunks := chunks + [Tagged(tag, sliceText)];
      i := i + step;
    }
    assert TagAll(tag, SlicesFrom(c, maxSize, step, i)) == [];
  }

  // ---------------------------------------------------------------------
  // Properties of the chunk list
  // ---------------------------------------------------------------------

  /** The chunks of two runs of pieces are the chunks of the first run followed by those of the second. */
  lemma {:induction false} ChunkPiecesAppend(a: seq<string>, b: seq<string>, tag: string, maxSize: nat)
    requires maxSize > Overlap
    ensures ChunkPieces(a + b, tag, maxSize) == ChunkPieces(a, tag, maxSize) + ChunkPieces(b, tag, maxSize)
    decreases |b|
  {
    if b == [] {
      assert a + b == a;
    } else {
      var ab := a + b;
      var b' := b[..|b| - 1];
      assert ab[..|ab| - 1] == a + b';
      assert ab[|ab| - 1] == b[|b| - 1];
      ChunkPiecesAppend(a, b', tag, maxSize);
      var last := PieceChunks(b[|b| - 1], tag, maxSize);
      assert ChunkPieces(ab, tag, maxSize) == ChunkPieces(a + b', tag, maxSize) + last;
      assert ChunkPieces(b, tag, maxSize) == ChunkPieces(b', tag, maxSize) + last;
      ConcatAssoc(ChunkPieces(a, tag, maxSize), ChunkPieces(b', tag, maxSize), last);
    }
  }

  /** A piece contributes nothing exactly when it is all whitespace. */
  lemma BlankPieceEmitsNothing(piece: string, tag: string, maxSize: nat)
    requires maxSize > Overlap
    ensures PieceChunks(piece, tag, maxSize) == [] <==> forall i :: 0 <= i < |piece| ==> IsSpace(piece[i])
  {
    StripSpec(piece);
  }

  /** A piece whose tagged form fits is emitted once, tagged and unsliced. */
  lemma ShortPieceEmittedOnce(piece: string, tag: string, maxSize: nat)
    requires maxSize > Overlap
    requires Strip(piece) != [] && |Tagged(tag, Strip(piece))| <= maxSize
    ensures PieceChunks(piece, tag, maxSize) == [TagPrefix(tag) + Strip(piece)]
  {
  }

  /** The slices of `range(start, len(c), step)`: which exist and where each starts. */
  lemma {:induction false} SlicesAt(c: string, size: nat, step: nat, start: nat, k: nat)
    requires step > 0
    ensures k < |SlicesFrom(c, size, step, start)| <==> start + k * step < |c|
    ensures k < |SlicesFrom(c, size, step, start)| ==>
      SlicesFrom(c, size, step, start)[k] == c[start + k * step..Min(start + k * step + size, |c|)]
    decreases k
  {
    var r := SlicesFrom(c, size, step, start);
    if start < |c| {
      var rest := SlicesFrom(c, size, step, start + step);
      assert r == [c[start..Min(start + size, |c|)]] + rest;
      if k > 0 {
        SlicesAt(c, size, step, start + step, k - 1);
        assert start + step + (k - 1) * step == start + k * step;
        assert k < |r| <==> k - 1 < |rest|;
        if k < |r| {
          assert r[k] == rest[k - 1];
        }
      }
    } else {
      assert r == [];
      assert start + k * step >= start;
    }
  }

  /**
   * Window k of an over-long piece starts at k * (maxSize - 200), holds at
   * most maxSize characters, and window k exists exactly when its start is
   * inside the piece.
   */
  lemma WindowAt(c: string, maxSize: nat, k: nat)
    requires maxSize > Overlap
    ensures k < |Windows(c, maxSize)| <==> k * (maxSize - Overlap) < |c|
    ensures k < |Windows(c, maxSize)| ==>
      var s := k * (maxSize - Overlap);
      Windows(c, maxSize)[k] == c[s..Min(s + maxSize, |c|)] && |Windows(c, maxSize)[k]| <= maxSize
  {
    SlicesAt(c, maxSize, maxSize - Overlap, 0, k);
  }

  /** A full window is followed by another that repeats its last 200 characters. */
  lemma WindowsOverlap(c: string, maxSize: nat, k: nat)
    requires maxSize > Overlap
    requires k < |Windows(c, maxSize)| && |Windows(c, maxSize)[k]| == maxSize
    ensures k + 1 < |Windows(c, maxSize)| && |Windows(c, maxSize)[k + 1]| >= Overlap
    ensures Windows(c, maxSize)[k][maxSize - Overlap..] == Windows(c, maxSize)[k + 1][..Overlap]
  {
    var step := maxSize - Overlap;
    WindowAt(c, maxSize, k);
    WindowAt(c, maxSize, k + 1);
    var s := k * step;
    assert (k + 1) * step == s + step;
    assert s + maxSize <= |c|;
    var w := Windows(c, maxSize);
    assert w[k] == c[s..s + maxSize];
    assert w[k][step..] == c[s + step..s + maxSize];
    var e := Min(s + step + maxSize, |c|);
    assert w[k + 1] == c[s + step..e];
    assert s + step + Overlap <= e;
    assert w[k + 1][..Overlap] == c[s + step..s + step + Overlap];
  }

  /**
   * Reassembling windows: the first `step` characters of every window but
   * the last, followed by the whole last window.
   */
  function Reassemble(ws: seq<string>, step: nat): string
    decreases |ws|
  {
    if ws == [] then []
    else if |ws| == 1 then ws[0]
    else ws[0][..Min(step, |ws[0]|)] + Reassemble(ws[1..], step)
  }

  lemma {:induction false} SlicesReassemble(c: string, size: nat, step: nat, start: nat)
    requires 0 < step < size && start < |c|
    ensures Reassemble(SlicesFrom(c, size, step, start), step) == c[start..]
    decreases |c| - start
  {
    var ws := SlicesFrom(c, size, step, start);
    var w0 := c[start..Min(start + size, |c|)];
    assert ws == [w0] + SlicesFrom(c, size, step, start + step);
    if start + step < |c| {
      SlicesReassemble(c, size, step, start + step);
      assert ws[1..] == SlicesFrom(c, size, step, start + step);
      assert w0[..Min(step, |w0|)] == c[start..start + step];
      assert c[start..] == c[start..start + step] + c[start + step..];
    } else {
      assert ws == [w0];
    }
  }

  /** The windows of an over-long piece cover every one of its characters: reassembled, they give it back. */
  lemma WindowsCover(c: string, maxSize: nat)
    requires maxSize > Overlap && c != []
    ensures Reassemble(Windows(c, maxSize), maxSize - Overlap) == c
  {
    SlicesReassemble(c, maxSize, maxSize - Overlap, 0);
    assert c[0..] == c;
  }

  /** Every chunk starts with the `[tag] ` prefix. */
  lemma {:induction false} EveryChunkTagged(pieces: seq<string>, tag: string, maxSize: nat)
    requires maxSize > Overlap
    ensures forall k :: 0 <= k < |ChunkPieces(pieces, tag, maxSize)| ==>
      StartsWith(ChunkPieces(pieces, tag, maxSize)[k], TagPrefix(tag))
    decreases |pieces|
  {
    if pieces != [] {
      EveryChunkTagged(pieces[..|pieces| - 1], tag, maxSize);
      var last := PieceChunks(pieces[|pieces| - 1], tag, maxSize);
      assert forall k :: 0 <= k < |last| ==> StartsWith(last[k], TagPrefix(tag)) by {
        forall k | 0 <= k < |last| ensures StartsWith(last[k], TagPrefix(tag)) {
          var x :| last[k] == TagPrefix(tag) + x;
          assert last[k][..|TagPrefix(tag)|] == TagPrefix(tag);
        }
      }
    }
  }

  /**
   * Only the untagged slice is bounded by maxSize: a chunk is at most
   * `len(tag) + 3` characters longer than maxSize.
   */
  lemma {:induction false} ChunkLengthBound(pieces: seq<string>, tag: string, maxSize: nat)
    requires maxSize > Overlap
    ensures forall k :: 0 <= k < |ChunkPieces(pieces, tag, maxSize)| ==>
      |ChunkPieces(pieces, tag, maxSize)[k]| <= maxSize + |tag| + 3
    decreases |pieces|
  {
    if pieces != [] {
      ChunkLengthBound(pieces[..|pieces| - 1], tag, maxSize);
      var c := Strip(pieces[|pieces| - 1]);
      var last := PieceChunks(pieces[|pieces| - 1], tag, maxSize);
      if c != [] && |Tagged(tag, c)| > maxSize {
        forall k | 0 <= k < |last| ensures |last[k]| <= maxSize + |tag| + 3 {
          WindowAt(c, maxSize, k);
        }
      }
    }
  }

  /** The bound above is reached: the first window of an over-long piece is longer than maxSize once tagged. */
  lemma ChunkCanExceedMax(piece: string, tag: string, maxSize: nat)
    requires maxSize > Overlap
    requires |piece| > maxSize && !IsSpace(piece[0]) && !IsSpace(piece[|piece| - 1])
    ensures |PieceChunks(piece, tag, maxSize)[0]| == maxSize + |tag| + 3 > maxSize
  {
    assert StripLeft(piece) == piece;
    assert StripRight(piece) == piece;
    WindowAt(piece, maxSize, 0);
  }
}
