/** The bundle renderer of the `bundle` command (fib/Program.cs, lines 74-91). The output is
    modelled as the arguments of the successive `WriteLine` calls; the bundle's text is those
    arguments each followed by "\n" (`Unlines`). */
module Writer {
  import opened Wrappers
  import opened Text
  import Paths
  import Collector

  /** The options that shape the text of a bundle. */
  datatype Options = Options(note: bool, remove: bool, author: Option<string>)

  function AuthorLine(author: string): string {
    "// ====== the author: " + author + " ======"
  }

  function StartLine(name: string): string {
    "// ====== Start of " + name + " ======"
  }

  function EndMarker(name: string): string {
    "// ====== End of " + name + " ======"
  }

  /** The end marker is written with its own "\n", so an empty line follows it. */
  function EndLine(name: string): string {
    EndMarker(name) + "\n"
  }

  /** The writes for one file's text: its non-blank lines when empty lines are removed, else its
      whole text in a single write (which `WriteLine` ends with one more newline). */
  function Body(remove: bool, content: string): (writes: seq<string>)
    ensures remove ==> forall w <- writes :: !IsBlank(w) && HasNoBreak(w)
    ensures remove ==> forall l :: multiset(writes)[l] == if IsBlank(l) then 0 else multiset(ReadLines(content))[l]
    ensures remove ==> writes == NonBlank(ReadLines(content))
    ensures !remove ==> Unlines(writes) == content + "\n"
  {
    if remove then
      var lines := ReadLines(content);
      var kept := NonBlank(lines);
      NonBlankCount(lines);
      assert forall w <- kept :: w in multiset(lines);
      kept
    else [content]
  }

  /** The writes for one file: its body, bracketed by the start and end markers under `note`. */
  function Block(o: Options, f: Collector.FileEntry): (writes: seq<string>)
    ensures o.note ==>
      && |writes| >= 2
      && writes[0] == StartLine(Paths.FileName(f.path))
      && writes[|writes| - 1] == EndLine(Paths.FileName(f.path))
      && writes[1..|writes| - 1] == Body(o.remove, f.content)
    ensures !o.note ==> writes == Body(o.remove, f.content)
  {
    var name := Paths.FileName(f.path);
    var body := Body(o.remove, f.content);
    if o.note then
      var writes := [StartLine(name)] + body + [EndLine(name)];
      assert writes[1..|writes| - 1] == body;
      writes
    else body
  }

  /** The writes for the files, in list order. */
  function Blocks(o: Options, files: seq<Collector.FileEntry>): seq<string>
    decreases |files|
  {
    if |files| == 0 then [] else Block(o, files[0]) + Blocks(o, files[1..])
  }

  /** Every file contributes one block, in list order. */
  lemma {:induction false} BlocksAppend(o: Options, a: seq<Collector.FileEntry>, b: seq<Collector.FileEntry>)
    ensures Blocks(o, a + b) == Blocks(o, a) + Blocks(o, b)
    decreases |a|
  {
    if |a| == 0 {
      assert a + b == b;
    } else {
      assert (a + b)[0] == a[0];
      assert (a + b)[1..] == a[1..] + b;
      BlocksAppend(o, a[1..], b);
    }
  }

  /** The writes of a bundle: the author line, when there is an author, then the blocks. */
  function Render(o: Options, files: seq<Collector.FileEntry>): (writes: seq<string>)
    ensures o.author.Some? ==> |writes| >= 1 && writes[0] == AuthorLine(o.author.value) && writes[1..] == Blocks(o, files)
    ensures o.author.None? ==> writes == Blocks(o, files)
  {
    var header := if o.author.Some? then [AuthorLine(o.author.value)] else [];
    assert (header + Blocks(o, files))[|header|..] == Blocks(o, files);
    header + Blocks(o, files)
  }

  /** The text of a bundle. */
  function BundleText(o: Options, files: seq<Collector.FileEntry>): string {
    Unlines(Render(o, files))
  }

  // ---- The bundle as lines ----

  /** What a reader sees of one file's block, line by line, when empty lines are removed. */
  function BlockLines(o: Options, f: Collector.FileEntry): seq<string> {
    var name := Paths.FileName(f.path);
    (if o.note then [StartLine(name)] else [])
    + NonBlank(ReadLines(f.content))
    + (if o.note then [EndMarker(name), ""] else [])
  }

  function FilesLines(o: Options, files: seq<Collector.FileEntry>): seq<string>
    decreases |files|
  {
    if |files| == 0 then [] else BlockLines(o, files[0]) + FilesLines(o, files[1..])
  }

  /** The lines of a bundle made with empty lines removed: the author line, then for each file
      its start marker, its non-blank lines and its end marker followed by one empty line (the
      markers only under `note`). */
  function BundleLines(o: Options, files: seq<Collector.FileEntry>): seq<string> {
    (if o.author.Some? then [AuthorLine(o.author.value)] else []) + FilesLines(o, files)
  }

  /** Author and file names with no line break in them. */
  predicate SingleLineNames(o: Options, files: seq<Collector.FileEntry>) {
    && (o.author.Some? ==> HasNoBreak(o.author.value))
    && forall f <- files :: HasNoBreak(Paths.FileName(f.path))
  }

  lemma MarkersHaveNoBreak(name: string)
    requires HasNoBreak(name)
    ensures HasNoBreak(StartLine(name)) && HasNoBreak(EndMarker(name))
  {
    var s := StartLine(name);
    forall i | 0 <= i < |s| ensures !IsLineBreak(s[i]) {
      if i < 19 { assert s[i] == "// ====== Start of "[i]; }
      else if i < 19 + |name| { assert s[i] == name[i - 19]; }
      else { assert s[i] == " ======"[i - 19 - |name|]; }
    }
    var e := EndMarker(name);
    forall i | 0 <= i < |e| ensures !IsLineBreak(e[i]) {
      if i < 17 { assert e[i] == "// ====== End of "[i]; }
      else if i < 17 + |name| { assert e[i] == name[i - 17]; }
      else { assert e[i] == " ======"[i - 17 - |name|]; }
    }
  }

  lemma AuthorLineHasNoBreak(author: string)
    requires HasNoBreak(author)
    ensures HasNoBreak(AuthorLine(author))
  {
    var s := AuthorLine(author);
    forall i | 0 <= i < |s| ensures !IsLineBreak(s[i]) {
      if i < 22 { assert s[i] == "// ====== the author: "[i]; }
      else if i < 22 + |author| { assert s[i] == author[i - 22]; }
      else { assert s[i] == " ======"[i - 22 - |author|]; }
    }
  }

  lemma UnlinesOne(line: string)
    ensures Unlines([line]) == line + "\n"
  {
    assert [line][1..] == [];
  }

  /** With empty lines removed, a block's text is its lines, the end marker's own newline
      giving the empty line after it. */
  lemma BlockText(o: Options, f: Collector.FileEntry)
    requires o.remove
    ensures Unlines(Block(o, f)) == Unlines(BlockLines(o, f))
  {
    var name := Paths.FileName(f.path);
    var body := NonBlank(ReadLines(f.content));
    if o.note {
      assert Block(o, f) == [StartLine(name)] + body + [EndMarker(name) + "\n"];
      assert BlockLines(o, f) == [StartLine(name)] + body + [EndMarker(name), ""];
      EndLineText([StartLine(name)] + body, EndMarker(name));
    } else {
      assert Block(o, f) == body;
      assert BlockLines(o, f) == [] + body + [] == body;
    }
  }

  /** A last write that ends in its own newline reads as that line and one empty line. */
  lemma EndLineText(front: seq<string>, last: string)
    ensures Unlines(front + [last + "\n"]) == Unlines(front + [last, ""])
  {
    UnlinesAppend(front, [last + "\n"]);
    UnlinesAppend(front, [last, ""]);
    UnlinesOne(last + "\n");
    assert [last, ""] == [last] + [""];
    UnlinesAppend([last], [""]);
    UnlinesOne(last);
    UnlinesOne("");
  }

  lemma {:induction false} FilesText(o: Options, files: seq<Collector.FileEntry>)
    requires o.remove
    ensures Unlines(Blocks(o, files)) == Unlines(FilesLines(o, files))
    decreases |files|
  {
    if |files| > 0 {
      FilesText(o, files[1..]);
      BlockText(o, files[0]);
      UnlinesAppend(Block(o, files[0]), Blocks(o, files[1..]));
      UnlinesAppend(BlockLines(o, files[0]), FilesLines(o, files[1..]));
    }
  }

  lemma {:induction false} FilesLinesHaveNoBreak(o: Options, files: seq<Collector.FileEntry>)
    requires forall f <- files :: HasNoBreak(Paths.FileName(f.path))
    ensures forall l <- FilesLines(o, files) :: HasNoBreak(l)
    decreases |files|
  {
    if |files| > 0 {
      var name := Paths.FileName(files[0].path);
      assert files[0] in files;
      MarkersHaveNoBreak(name);
      assert HasNoBreak("");
      assert forall f <- files[1..] :: f in files;
      FilesLinesHaveNoBreak(o, files[1..]);
    }
  }

  /** Read back line by line, a bundle made with empty lines removed is exactly `BundleLines`. */
  lemma ReadBackWithoutEmptyLines(o: Options, files: seq<Collector.FileEntry>)
    requires o.remove && SingleLineNames(o, files)
    ensures ReadLines(BundleText(o, files)) == BundleLines(o, files)
  {
    var header := if o.author.Some? then [AuthorLine(o.author.value)] else [];
    FilesText(o, files);
    UnlinesAppend(header, Blocks(o, files));
    UnlinesAppend(header, FilesLines(o, files));
    assert Render(o, files) == header + Blocks(o, files);
    if o.author.Some? {
      AuthorLineHasNoBreak(o.author.value);
    }
    FilesLinesHaveNoBreak(o, files);
    ReadLinesUnlines(BundleLines(o, files));
  }

  /** Without markers, no line of a bundle made with empty lines removed is blank. */
  lemma {:induction false} NoBlankLineWithoutNotes(o: Options, files: seq<Collector.FileEntry>)
    requires o.remove && !o.note && SingleLineNames(o, files)
    ensures forall l <- ReadLines(BundleText(o, files)) :: !IsBlank(l)
  {
    ReadBackWithoutEmptyLines(o, files);
    FilesLinesNonBlank(o, files);
    if o.author.Some? {
      var a := AuthorLine(o.author.value);
      assert a[0] == '/';
    }
  }

  lemma {:induction false} FilesLinesNonBlank(o: Options, files: seq<Collector.FileEntry>)
    requires !o.note
    ensures forall l <- FilesLines(o, files) :: !IsBlank(l)
    decreases |files|
  {
    if |files| > 0 {
      FilesLinesNonBlank(o, files[1..]);
      assert BlockLines(o, files[0]) == NonBlank(ReadLines(files[0].content));
    }
  }

  /** Without removal, a file's text is written whole, followed by one newline; under `note` it
      is preceded by the start marker line and followed by the end marker and an empty line. */
  lemma RawBlockText(o: Options, f: Collector.FileEntry)
    requires !o.remove
    ensures var name := Paths.FileName(f.path);
      Unlines(Block(o, f)) ==
        (if o.note then StartLine(name) + "\n" else "")
        + f.content + "\n"
        + (if o.note then EndMarker(name) + "\n\n" else "")
  {
    var name := Paths.FileName(f.path);
    if o.note {
      UnlinesAppend([StartLine(name)] + [f.content], [EndLine(name)]);
      UnlinesAppend([StartLine(name)], [f.content]);
      UnlinesOne(StartLine(name));
      UnlinesOne(f.content);
      UnlinesOne(EndLine(name));
    } else {
      UnlinesOne(f.content);
    }
  }
}
