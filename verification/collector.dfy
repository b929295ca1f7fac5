/** The file selector and orderer of the `bundle` command (fib/Program.cs, lines 61-64): the
    enumerated files whose extension is one of the resolved ones, ignoring case, put in order
    by a stable sort on the path, or on the extension when the sort option is `code`. */
module Collector {
  import opened Wrappers
  import opened Text
  import Paths
  import StableSort

  /** One file found under the current directory: its full path and its text. */
  datatype FileEntry = FileEntry(path: string, content: string)

  /** What the files are ordered by. */
  datatype SortMode = ByPath | ByExtension

  /** `sort == "code"`, compared exactly: any other text, or none, orders by path. */
  function ModeOf(sort: Option<string>): SortMode {
    if sort == Some("code") then ByExtension else ByPath
  }

  function Key(mode: SortMode, f: FileEntry): string {
    match mode
    case ByPath => f.path
    case ByExtension => Paths.Extension(f.path)
  }

  /** The sort key as a function value, for the generic stable sort. */
  function KeyOf(mode: SortMode): FileEntry -> string {
    f => Key(mode, f)
  }

  /** The file's extension equals one of `exts`, ignoring case. */
  predicate Matches(exts: seq<string>, f: FileEntry) {
    exists e <- exts :: EqualsIgnoreCase(Paths.Extension(f.path), e)
  }

  // ---- Selection ----

  /** The files that match, in enumeration order. */
  function Select(exts: seq<string>, files: seq<FileEntry>): (chosen: seq<FileEntry>)
    ensures forall f <- chosen :: Matches(exts, f)
    decreases |files|
  {
    if |files| == 0 then []
    else (if Matches(exts, files[0]) then [files[0]] else []) + Select(exts, files[1..])
  }

  /** Each matching file is selected as many times as it was enumerated, and no other file. */
  lemma {:induction false} SelectCount(exts: seq<string>, files: seq<FileEntry>)
    ensures forall f :: multiset(Select(exts, files))[f] == if Matches(exts, f) then multiset(files)[f] else 0
    decreases |files|
  {
    if |files| > 0 {
      SelectCount(exts, files[1..]);
      assert files == [files[0]] + files[1..];
    }
  }

  /** Selection keeps enumeration order: it distributes over concatenation. */
  lemma {:induction false} SelectAppend(exts: seq<string>, a: seq<FileEntry>, b: seq<FileEntry>)
    ensures Select(exts, a + b) == Select(exts, a) + Select(exts, b)
    decreases |a|
  {
    if |a| == 0 {
      assert a + b == b;
    } else {
      assert (a + b)[0] == a[0];
      assert (a + b)[1..] == a[1..] + b;
      SelectAppend(exts, a[1..], b);
    }
  }

  /** Keeping one key commutes with selection. */
  lemma {:induction false} WithKeySelect(key: FileEntry -> string, exts: seq<string>, s: seq<FileEntry>, k: string)
    ensures StableSort.WithKey(key, Select(exts, s), k) == Select(exts, StableSort.WithKey(key, s, k))
    decreases |s|
  {
    if |s| > 0 {
      WithKeySelect(key, exts, s[1..], k);
      var head := if Matches(exts, s[0]) then [s[0]] else [];
      StableSort.WithKeyAppend(key, head, Select(exts, s[1..]), k);
      var keyed := if key(s[0]) == k then [s[0]] else [];
      SelectAppend(exts, keyed, StableSort.WithKey(key, s[1..], k));
    }
  }

  // ---- The collector ----

  /** The files a `bundle` run writes, in the order it writes them. */
  function Collect(exts: seq<string>, sort: Option<string>, files: seq<FileEntry>): (r: seq<FileEntry>)
    ensures forall f :: multiset(r)[f] == if Matches(exts, f) then multiset(files)[f] else 0
    ensures StableSort.Sorted(KeyOf(ModeOf(sort)), r)
    ensures r == [] <==> forall f <- files :: !Matches(exts, f)
  {
    SelectCount(exts, files);
    var r := StableSort.Order(KeyOf(ModeOf(sort)), Select(exts, files));
    assert r == [] <==> forall f <- files :: !Matches(exts, f) by {
      if r != [] {
        assert r[0] in multiset(r);
      }
      if exists f <- files :: Matches(exts, f) {
        var f :| f in files && Matches(exts, f);
        assert f in multiset(files);
        assert f in multiset(r);
      }
    }
    r
  }

  /** Files that share a key are written in the order they were enumerated. */
  lemma CollectKeepsEnumerationOrder(exts: seq<string>, sort: Option<string>, files: seq<FileEntry>, k: string)
    ensures var key := KeyOf(ModeOf(sort));
      StableSort.WithKey(key, Collect(exts, sort, files), k) == Select(exts, StableSort.WithKey(key, files, k))
  {
    var key := KeyOf(ModeOf(sort));
    StableSort.OrderWithKey(key, Select(exts, files), k);
    WithKeySelect(key, exts, files, k);
  }
}
