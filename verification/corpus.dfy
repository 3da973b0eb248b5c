/**
 * The build loop of `create_knowledge_base` in backend/process_data.py: the
 * choice of reader by file extension, the source tag derived from a file
 * name, and the flat list of chunks accumulated file by file.
 */
module CorpusBuilder {
  import opened Text
  import opened Segmenter

  /** Which reader a file is given to. */
  datatype Reader = ImageReader | PdfReader | TextReader | NoReader

  /**
   * A directory entry. `raw` is what the reader for its kind hands back:
   * the model's description of an image, the page texts of a PDF joined
   * with their trailing newlines, the contents of a text file, and `""`
   * when the reader fails.
   */
  datatype SourceFile = SourceFile(name: string, raw: string)

  /** The reader is chosen by the lower-cased extension, images first. */
  function ReaderFor(name: string): (r: Reader)
  {
    var l := Lower(name);
    if EndsWith(l, ".png") || EndsWith(l, ".jpg") || EndsWith(l, ".jpeg") then ImageReader
    else if EndsWith(l, ".pdf") then PdfReader
    else if EndsWith(l, ".txt") then TextReader
    else NoReader
  }

  /** The content a file yields: PDF text is cleaned, any other extension yields nothing. */
  function Content(f: SourceFile): string {
    match ReaderFor(f.name)
    case ImageReader => f.raw
    case PdfReader => CleanText(f.raw)
    case TextReader => f.raw
    case NoReader => ""
  }

  /** The reader depends on the name only through its lower-cased form. */
  lemma ReaderIgnoresCase(a: string, b: string)
    requires Lower(a) == Lower(b)
    ensures ReaderFor(a) == ReaderFor(b)
  {
  }

  /** A name ending in `.pdf` in any case is read as a PDF, and its content is the cleaned page text. */
  lemma PdfFileIsCleaned(f: SourceFile)
    requires EndsWith(Lower(f.name), ".pdf")
    ensures ReaderFor(f.name) == PdfReader && Content(f) == CleanText(f.raw)
  {
    var l := Lower(f.name);
    assert l[|l| - 4..] == ".pdf";
    assert !EndsWith(l, ".png") && !EndsWith(l, ".jpg");
  }

  /** A name ending in `.txt` in any case is read as text, unchanged. */
  lemma TextFileIsRaw(f: SourceFile)
    requires EndsWith(Lower(f.name), ".txt")
    ensures ReaderFor(f.name) == TextReader && Content(f) == f.raw
  {
    var l := Lower(f.name);
    assert l[|l| - 4..] == ".txt";
    assert !EndsWith(l, ".png") && !EndsWith(l, ".jpg") && !EndsWith(l, ".pdf");
  }

  /** A name with none of the five extensions yields no content, hence no chunk. */
  lemma UnknownExtensionContributesNothing(f: SourceFile)
    requires var l := Lower(f.name);
      !EndsWith(l, ".png") && !EndsWith(l, ".jpg") && !EndsWith(l, ".jpeg")
      && !EndsWith(l, ".pdf") && !EndsWith(l, ".txt")
    ensures ReaderFor(f.name) == NoReader && Content(f) == "" && !Included(f) && FileChunks(f) == []
  {
  }

  /** `Syllabus.PDF` goes to the PDF reader. */
  lemma UpperCasePdfExtension(raw: string)
    ensures Content(SourceFile("Syllabus.PDF", raw)) == CleanText(raw)
  {
    var l := Lower("Syllabus.PDF");
    assert l[|l| - 4..] == ".pdf";
    PdfFileIsCleaned(SourceFile("Syllabus.PDF", raw));
  }

  /** `f.replace('.txt', '').replace('.pdf', '').replace('_', ' ').title()` */
  function Tag(name: string): string {
    Title(ReplaceAll(ReplaceAll(ReplaceAll(name, ".txt", ""), ".pdf", ""), "_", " "))
  }

  /** Dotfiles and files whose content is empty are skipped. */
  predicate Included(f: SourceFile) {
    !StartsWith(f.name, ".") && Content(f) != ""
  }

  /** The chunks one file contributes. */
  function FileChunks(f: SourceFile): seq<string> {
    if Included(f) then Chunks(Content(f), Tag(f.name), DefaultMaxChunkSize) else []
  }

  /** The lists `g` gives for the elements of `xs`, one after the other. */
  function FlatMap<T>(xs: seq<T>, g: T -> seq<string>): seq<string>
    decreases |xs|
  {
    if xs == [] then [] else FlatMap(xs[..|xs| - 1], g) + g(xs[|xs| - 1])
  }

  /** `all_knowledge_chunks` after the loop over `files`. */
  function KnowledgeChunks(files: seq<SourceFile>): seq<string> {
    FlatMap(files, FileChunks)
  }

  lemma FlatMapStep<T>(xs: seq<T>, n: nat, g: T -> seq<string>)
    requires n < |xs|
    ensures FlatMap(xs[..n + 1], g) == FlatMap(xs[..n], g) + g(xs[n])
  {
    assert xs[..n + 1][..n] == xs[..n];
  }

  /** The loop of `create_knowledge_base`, from the file listing to the flat chunk list. */
  method BuildKnowledgeBase(files: seq<SourceFile>) returns (all: seq<string>)
    ensures all == KnowledgeChunks(files)
  {
    all := [];
    var n := 0;
    while n < |files|
      invariant 0 <= n <= |files|
      invariant all == KnowledgeChunks(files[..n])
    {
      FlatMapStep(files, n, FileChunks);
      var chunks := ReadFile(files[n]);
      all := all + chunks;
      n := n + 1;
    }
    assert files[..n] == files;
  }

  /** One pass of the loop: skip a dotfile or an empty read, otherwise chunk the content. */
  method ReadFile(f: SourceFile) returns (chunks: seq<string>)
    ensures chunks == FileChunks(f)
  {
    chunks := [];
    if !StartsWith(f.name, ".") {
      var content := Content(f);
      if content != "" {
        chunks := UniversalChunker(content, Tag(f.name), DefaultMaxChunkSize);
      }
    }
  }

  // ---------------------------------------------------------------------
  // Order and skipping
  // ---------------------------------------------------------------------

  lemma {:induction false} FlatMapAppend<T>(xs: seq<T>, ys: seq<T>, g: T -> seq<string>)
    ensures FlatMap(xs + ys, g) == FlatMap(xs, g) + FlatMap(ys, g)
    decreases |ys|
  {
    if ys == [] {
      assert xs + ys == xs;
    } else {
      var zs := xs + ys;
      var ys' := ys[..|ys| - 1];
      assert zs[..|zs| - 1] == xs + ys';
      assert zs[|zs| - 1] == ys[|ys| - 1];
      FlatMapAppend(xs, ys', g);
      ConcatAssoc(FlatMap(xs, g), FlatMap(ys', g), g(ys[|ys| - 1]));
    }
  }

  /** Building from two listings in a row gives the two chunk lists in a row. */
  lemma KnowledgeChunksAppend(a: seq<SourceFile>, b: seq<SourceFile>)
    ensures KnowledgeChunks(a + b) == KnowledgeChunks(a) + KnowledgeChunks(b)
  {
    FlatMapAppend(a, b, FileChunks);
  }

  lemma KnowledgeChunksOne(f: SourceFile)
    ensures KnowledgeChunks([f]) == FileChunks(f)
  {
    assert [f][..0] == [];
    assert KnowledgeChunks([f]) == FlatMap([], FileChunks) + FileChunks(f);
  }

  /** Listing `f` between `a` and `b` inserts its chunks between theirs. */
  lemma KnowledgeChunksInsert(a: seq<SourceFile>, f: SourceFile, b: seq<SourceFile>)
    ensures KnowledgeChunks(a + [f] + b) == KnowledgeChunks(a) + FileChunks(f) + KnowledgeChunks(b)
  {
    KnowledgeChunksAppend(a + [f], b);
    KnowledgeChunksAppend(a, [f]);
    KnowledgeChunksOne(f);
  }

  /** A skipped file leaves the result exactly as if it were not listed. */
  lemma SkippedFileContributesNothing(a: seq<SourceFile>, f: SourceFile, b: seq<SourceFile>)
    requires !Included(f)
    ensures KnowledgeChunks(a + [f] + b) == KnowledgeChunks(a + b)
  {
    KnowledgeChunksInsert(a, f, b);
    KnowledgeChunksAppend(a, b);
  }

  /** An included file contributes exactly its chunker output, in its place. */
  lemma IncludedFileContributesItsChunks(a: seq<SourceFile>, f: SourceFile, b: seq<SourceFile>)
    requires !StartsWith(f.name, ".") && Content(f) != ""
    ensures KnowledgeChunks(a + [f] + b)
         == KnowledgeChunks(a) + Chunks(Content(f), Tag(f.name), DefaultMaxChunkSize) + KnowledgeChunks(b)
  {
    KnowledgeChunksInsert(a, f, b);
    assert Included(f);
    assert FileChunks(f) == Chunks(Content(f), Tag(f.name), DefaultMaxChunkSize);
  }

  /** Every chunk of the knowledge base carries the tag of an included file it came from. */
  lemma {:induction false} EveryKnowledgeChunkTagged(files: seq<SourceFile>)
    ensures forall k :: 0 <= k < |KnowledgeChunks(files)| ==>
      exists f :: f in files && Included(f) && StartsWith(KnowledgeChunks(files)[k], TagPrefix(Tag(f.name)))
    decreases |files|
  {
    if files != [] {
      var init := files[..|files| - 1];
      var f := files[|files| - 1];
      assert files == init + [f];
      EveryKnowledgeChunkTagged(init);
      KnowledgeChunksAppend(init, [f]);
      KnowledgeChunksOne(f);
      var all := KnowledgeChunks(files);
      var head := KnowledgeChunks(init);
      var last := FileChunks(f);
      assert all == head + last;
      if Included(f) {
        EveryChunkTagged(LookaheadSplit(Content(f)), Tag(f.name), DefaultMaxChunkSize);
      }
      forall k | 0 <= k < |all|
        ensures exists g :: g in files && Included(g) && StartsWith(all[k], TagPrefix(Tag(g.name)))
      {
        if k < |head| {
          var g :| g in init && Included(g) && StartsWith(head[k], TagPrefix(Tag(g.name)));
          assert all[k] == head[k];
          assert g in files && Included(g) && StartsWith(all[k], TagPrefix(Tag(g.name)));
        } else {
          assert Included(f);
          assert all[k] == last[k - |head|];
          assert f in files && StartsWith(all[k], TagPrefix(Tag(f.name)));
        }
      }
    } else {
      assert KnowledgeChunks(files) == [];
    }
  }

  // ---------------------------------------------------------------------
  // The source tag
  // ---------------------------------------------------------------------

  /** `s.replace('_', ' ')` */
  function Spaced(s: string): (r: string)
    ensures |r| == |s| && '_' !in r
    ensures forall i :: 0 <= i < |s| ==> r[i] == (if s[i] == '_' then ' ' else s[i])
  {
    seq(|s|, i requires 0 <= i < |s| => if s[i] == '_' then ' ' else s[i])
  }

  lemma SpacedAppend(x: string, y: string)
    ensures Spaced(x + y) == Spaced(x) + Spaced(y)
  {
  }

  /** Title-casing changes letters only. */
  lemma TitleKeepsNonLetters(s: string, i: nat)
    requires i < |s| && !IsCased(s[i])
    ensures |Title(s)| == |s| && Title(s)[i] == s[i]
  {
  }

  /** Title-casing two strings apart is the same as together unless a letter follows a letter at the seam. */
  lemma TitleAppend(x: string, y: string)
    requires x == [] || y == [] || !IsCased(x[|x| - 1]) || !IsCased(y[0])
    ensures Title(x + y) == Title(x) + Title(y)
  {
    var s := x + y;
    forall i | 0 <= i < |s| ensures Title(s)[i] == (Title(x) + Title(y))[i] {
      if i < |x| {
        assert s[i] == x[i];
        if i > 0 { assert s[i - 1] == x[i - 1]; }
      } else if i == |x| {
        assert s[i] == y[0];
        if i > 0 { assert s[i - 1] == x[|x| - 1]; }
      } else if i > |x| {
        assert s[i] == y[i - |x|] && s[i - 1] == y[i - |x| - 1];
      }
    }
  }

  /** The tag never contains an underscore: every `_` became a space. */
  lemma TagHasNoUnderscore(name: string)
    ensures '_' !in Tag(name)
  {
    var s := ReplaceAll(ReplaceAll(name, ".txt", ""), ".pdf", "");
    ReplaceCharIsMap(s, '_', ' ');
    var t := Spaced(s);
    assert ReplaceAll(s, "_", " ") == t;
    forall i | 0 <= i < |t| ensures Title(t)[i] != '_' {
      if !IsCased(t[i]) {
        TitleKeepsNonLetters(t, i);
      }
    }
  }

  /** A base name without dots loses its `.txt` extension and is title-cased with spaces. */
  lemma TxtTag(base: string)
    requires '.' !in base
    ensures Tag(base + ".txt") == Title(Spaced(base))
  {
    ReplaceSkipsPrefixWithoutLead(base, ".txt", ".txt", "");
    assert ReplaceAll(".txt", ".txt", "") == "";
    assert base + "" == base;
    ReplaceSkipsPrefixWithoutLead(base, [], ".pdf", "");
    assert base + [] == base;
    ReplaceCharIsMap(base, '_', ' ');
  }

  /** The same for `.pdf`. */
  lemma PdfTag(base: string)
    requires '.' !in base
    ensures Tag(base + ".pdf") == Title(Spaced(base))
  {
    ReplaceSkipsPrefixWithoutLead(base, ".pdf", ".txt", "");
    assert ".pdf"[1] != ".txt"[1];
    ReplaceMiss(".pdf", ".txt", "");
    ReplaceSkipsPrefixWithoutLead(base, ".pdf", ".pdf", "");
    assert ReplaceAll(".pdf", ".pdf", "") == "";
    assert base + "" == base;
    ReplaceCharIsMap(base, '_', ' ');
  }

  /** Image extensions are not removed: they stay in the tag, title-cased. */
  lemma PngTag(base: string)
    requires '.' !in base
    ensures Tag(base + ".png") == Title(Spaced(base)) + ".Png"
  {
    var e := ".png";
    PngSurvivesRemovals(base);
    ReplaceCharIsMap(base + e, '_', ' ');
    SpacedAppend(base, e);
    assert Spaced(e) == e;
    TitleAppend(Spaced(base), e);
    TitlePng();
  }

  lemma PngSurvivesRemovals(base: string)
    requires '.' !in base
    ensures ReplaceAll(ReplaceAll(base + ".png", ".txt", ""), ".pdf", "") == base + ".png"
  {
    var e := ".png";
    ReplaceSkipsPrefixWithoutLead(base, e, ".txt", "");
    assert e[1] != ".txt"[1];
    ReplaceMiss(e, ".txt", "");
    ReplaceSkipsPrefixWithoutLead(base, e, ".pdf", "");
    assert e[2] != ".pdf"[2];
    ReplaceMiss(e, ".pdf", "");
  }

  lemma TitlePng()
    ensures Title(".png") == ".Png"
  {
  }

  lemma SpacedInventory()
    ensures Spaced("campus_room_inventory") == "campus room inventory"
  {
    SpacedAppend("campus", "_room");
    SpacedAppend("campus_room", "_inventory");
    assert "campus" + "_room" == "campus_room";
    assert "campus_room" + "_inventory" == "campus_room_inventory";
    assert Spaced("campus") == "campus";
    assert Spaced("_room") == " room";
    assert Spaced("_inventory") == " inventory";
  }

  /** A lower-case word is title-cased by capitalising its first letter. */
  lemma TitleWord(w: string)
    requires |w| > 0 && forall i :: 0 <= i < |w| ==> 'a' <= w[i] <= 'z'
    ensures Title(w) == [UpperChar(w[0])] + w[1..]
  {
  }

  lemma TitleCampus()
    ensures Title("campus ") == "Campus "
  {
    TitleWord("campus");
    TitleAppend("campus", " ");
    assert "campus" + " " == "campus ";
  }

  lemma TitleCampusRoom()
    ensures Title("campus room ") == "Campus Room "
  {
    TitleCampus();
    TitleWord("room");
    TitleAppend("campus ", "room ");
    assert "campus " + "room " == "campus room ";
    assert Title("room ") == "Room " by {
      TitleAppend("room", " ");
      assert "room" + " " == "room ";
    }
  }

  lemma TitleInventory()
    ensures Title("campus room inventory") == "Campus Room Inventory"
  {
    TitleCampusRoom();
    TitleWord("inventory");
    TitleAppend("campus room ", "inventory");
    assert "campus room " + "inventory" == "campus room inventory";
  }

  /** The inventory file is tagged `Campus Room Inventory`, the name retrieval looks for. */
  lemma InventoryFileTag()
    ensures Tag("campus_room_inventory.txt") == "Campus Room Inventory"
  {
    var base := "campus_room_inventory";
    assert '.' !in base;
    TxtTag(base);
    assert base + ".txt" == "campus_room_inventory.txt";
    SpacedInventory();
    TitleInventory();
  }

  lemma ReplaceTail()
    ensures ReplaceAll(".t.txtxt", ".txt", "") == ".txt"
  {
    assert ReplaceAll("xt", ".txt", "") == "xt";
    assert ".txtxt"[..4] == ".txt" && ".txtxt"[4..] == "xt";
    assert ReplaceAll(".txtxt", ".txt", "") == "xt";
    assert "t.txtxt"[..4] != ".txt" && "t.txtxt"[1..] == ".txtxt";
    assert ReplaceAll("t.txtxt", ".txt", "") == "t" + "xt";
    assert ".t.txtxt"[..4][2] != ".txt"[2];
    assert ".t.txtxt"[1..] == "t.txtxt";
  }

  lemma TitleNotesTxt()
    ensures Title("notes.txt") == "Notes.Txt"
  {
    TitleWord("txt");
    TitleAppend(".", "txt");
    assert "." + "txt" == ".txt";
    TitleWord("notes");
    TitleAppend("notes", ".txt");
    assert "notes" + ".txt" == "notes.txt";
  }

  lemma NotesTxtHasNoPdf()
    ensures ReplaceAll("notes.txt", ".pdf", "") == "notes.txt"
  {
    ReplaceSkipsPrefixWithoutLead("notes", ".txt", ".pdf", "");
    assert ".txt"[1] != ".pdf"[1];
    ReplaceMiss(".txt", ".pdf", "");
    assert "notes" + ".txt" == "notes.txt";
  }

  lemma NotesTxtHasNoUnderscore()
    ensures ReplaceAll("notes.txt", "_", " ") == "notes.txt"
  {
    ReplaceSkipsPrefixWithoutLead("notes.txt", "", "_", " ");
    assert "notes.txt" + "" == "notes.txt";
  }

  /**
   * The removals are single left-to-right passes, so a name can still hold
   * `.txt` after the first one: `notes.t.txtxt` is tagged `Notes.Txt`.
   */
  lemma ReplaceIsSinglePass()
    ensures ReplaceAll("notes.t.txtxt", ".txt", "") == "notes.txt"
    ensures Tag("notes.t.txtxt") == "Notes.Txt"
  {
    assert ReplaceAll("notes.t.txtxt", ".txt", "") == "notes.txt" by {
      ReplaceSkipsPrefixWithoutLead("notes", ".t.txtxt", ".txt", "");
      ReplaceTail();
      assert "notes" + ".t.txtxt" == "notes.t.txtxt";
      assert "notes" + ".txt" == "notes.txt";
    }
    NotesTxtHasNoPdf();
    NotesTxtHasNoUnderscore();
    TitleNotesTxt();
  }
}
