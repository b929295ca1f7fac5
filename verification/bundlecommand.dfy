/** The `bundle` handler as a whole (fib/Program.cs, lines 40-91): resolve the extensions,
    stop on the first one not allowed, select and order the enumerated files, stop when none
    is selected, and otherwise render the bundle. The directory listing is an input; the
    bundle is returned as text instead of being written to the destination file. */
module BundleCommand {
  import opened Wrappers
  import opened Text
  import Languages
  import Collector
  import StableSort
  import Writer

  /** The option values of one run that shape its result. */
  datatype Args = Args(language: Option<string>, note: bool, sort: Option<string>, remove: bool, author: Option<string>)

  /** How a run ends: the error it reports, no files to bundle (nothing is written), or the
      files it bundled, in order, with the text of the bundle. */
  datatype Outcome =
    | InvalidLanguage(message: string)
    | NoFiles
    | Written(files: seq<Collector.FileEntry>, text: string)

  function OptionsOf(a: Args): Writer.Options {
    Writer.Options(a.note, a.remove, a.author)
  }

  function Run(a: Args, listing: seq<Collector.FileEntry>): (r: Outcome)
    ensures r.InvalidLanguage? <==> exists e <- Languages.Candidates(a.language) :: !Languages.IsAllowed(e)
    ensures r.InvalidLanguage? ==>
      exists i :: 0 <= i < |Languages.Candidates(a.language)|
                  && r.message == Languages.ErrorMessage(Languages.Candidates(a.language)[i])
                  && !Languages.IsAllowed(Languages.Candidates(a.language)[i])
                  && forall j :: 0 <= j < i ==> Languages.IsAllowed(Languages.Candidates(a.language)[j])
    ensures r.NoFiles? <==>
      && (forall e <- Languages.Candidates(a.language) :: Languages.IsAllowed(e))
      && forall f <- listing :: !Collector.Matches(Languages.Candidates(a.language), f)
    ensures r.Written? ==>
      && (forall f :: multiset(r.files)[f] ==
            if Collector.Matches(Languages.Candidates(a.language), f) then multiset(listing)[f] else 0)
      && r.files != []
      && r.text == Writer.BundleText(OptionsOf(a), r.files)
    ensures r.Written? ==>
      && r.files == Collector.Collect(Languages.Candidates(a.language), a.sort, listing)
      && StableSort.Sorted(Collector.KeyOf(Collector.ModeOf(a.sort)), r.files)
  {
    match Languages.Resolve(a.language)
    case Failure(message) => InvalidLanguage(message)
    case Success(exts) =>
      var files := Collector.Collect(exts, a.sort, listing);
      if files == [] then NoFiles
      else Written(files, Writer.BundleText(OptionsOf(a), files))
  }

  /** An absent language, or a lone `all`, never fails. */
  lemma DefaultNeverFails(a: Args, listing: seq<Collector.FileEntry>)
    requires Languages.IsDefault(a.language)
    ensures !Run(a, listing).InvalidLanguage?
  {
    Languages.DefaultResolves(a.language);
  }

  /** The pieces of a blank text split on ' ' are blank. */
  lemma {:induction false} SplitOfBlank(s: string)
    requires IsBlank(s)
    ensures forall p <- SplitOn(s, ' ') :: IsBlank(p)
    decreases |s|
  {
    if ' ' in s {
      var i := IndexOf(s, ' ');
      assert IsBlank(s[i + 1..]);
      SplitOfBlank(s[i + 1..]);
      assert IsBlank(s[..i]);
    }
  }

  lemma {:induction false} KeepTrimmedOfBlank(parts: seq<string>)
    requires forall p <- parts :: IsBlank(p)
    ensures Languages.KeepTrimmed(parts) == []
    decreases |parts|
  {
    if |parts| > 0 {
      assert parts[0] in parts;
      assert forall p <- parts[1..] :: p in parts;
      KeepTrimmedOfBlank(parts[1..]);
    }
  }

  /** A language text that is empty or white space only gives no extension at all, so the
      run selects no file and writes nothing, whatever the directory holds. */
  lemma BlankLanguageSelectsNothing(a: Args, listing: seq<Collector.FileEntry>)
    requires a.language.Some? && IsBlank(a.language.value)
    ensures Run(a, listing) == NoFiles
  {
    SplitOfBlank(a.language.value);
    KeepTrimmedOfBlank(SplitOn(a.language.value, ' '));
    assert Languages.Candidates(a.language) == [];
  }

  /** With an author, the bundle's first line is the author line; without one, the bundle is
      the files' blocks alone. */
  lemma AuthorHeader(a: Args, files: seq<Collector.FileEntry>)
    ensures a.author.Some? ==>
      var header := Writer.AuthorLine(a.author.value) + "\n";
      |header| <= |Writer.BundleText(OptionsOf(a), files)|
      && Writer.BundleText(OptionsOf(a), files)[..|header|] == header
    ensures a.author.None? ==> Writer.BundleText(OptionsOf(a), files) == Unlines(Writer.Blocks(OptionsOf(a), files))
  {
    var o := OptionsOf(a);
    if a.author.Some? {
      var w := Writer.Render(o, files);
      assert w == [w[0]] + w[1..];
      UnlinesAppend([w[0]], w[1..]);
      Writer.UnlinesOne(w[0]);
    }
  }

  /** Language `exe` is refused, naming `.exe`. */
  lemma ExeIsRefused(a: Args, listing: seq<Collector.FileEntry>)
    requires a.language == Some("exe")
    ensures Run(a, listing) == InvalidLanguage("language is not valid: .exe")
  {
    Languages.ExeResolves(a.language);
  }

  /** `all` next to another token is not the default: it becomes `.all` and is refused. */
  lemma AllWithOthersIsRefused(a: Args, listing: seq<Collector.FileEntry>)
    requires a.language == Some("all cs")
    ensures Run(a, listing) == InvalidLanguage("language is not valid: .all")
  {
    Languages.AllWithOthersResolves(a.language);
  }
}
