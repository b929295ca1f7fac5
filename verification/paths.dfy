/** The two `System.IO.Path` queries the bundler makes, for Unix paths ('/' separates
    directories). Their properties are stated as lemmas, so that reasoning about file keys
    only unfolds the definitions when asked to. */
module Paths {

  const Separator: char := '/'

  /** `Path.GetFileName`: what follows the last separator. */
  function FileName(path: string): string
    decreases |path|
  {
    if |path| == 0 || path[|path| - 1] == Separator then ""
    else FileName(path[..|path| - 1]) + [path[|path| - 1]]
  }

  /** The file name is the longest separator-free tail of the path. */
  lemma {:induction false} FileNameIsLastSegment(path: string)
    ensures var name := FileName(path);
      && Separator !in name
      && |name| <= |path| && name == path[|path| - |name|..]
      && (|name| < |path| ==> path[|path| - |name| - 1] == Separator)
    decreases |path|
  {
    if |path| > 0 && path[|path| - 1] != Separator {
      var init := path[..|path| - 1];
      FileNameIsLastSegment(init);
      var name := FileName(path);
      assert name == FileName(init) + [path[|path| - 1]];
      assert init[|init| - |FileName(init)|..] + [path[|path| - 1]] == path[|path| - |name|..];
      if |name| < |path| {
        assert path[|path| - |name| - 1] == init[|init| - |FileName(init)| - 1];
      }
    }
  }

  /** Position of the last '.' in `name`, or -1 when there is none. */
  function LastDot(name: string): (i: int)
    ensures -1 <= i < |name|
    decreases |name|
  {
    if |name| == 0 then -1
    else if name[|name| - 1] == '.' then |name| - 1
    else LastDot(name[..|name| - 1])
  }

  lemma {:induction false} LastDotIsLast(name: string)
    ensures LastDot(name) >= 0 ==> name[LastDot(name)] == '.'
    ensures forall k :: LastDot(name) < k < |name| ==> name[k] != '.'
    decreases |name|
  {
    if |name| > 0 && name[|name| - 1] != '.' {
      LastDotIsLast(name[..|name| - 1]);
    }
  }

  /** The extension part of a file name. */
  function NameExtension(name: string): string {
    var i := LastDot(name);
    if i < 0 || i == |name| - 1 then "" else name[i..]
  }

  /** `Path.GetExtension`: from the last '.' of the file name to the end; empty when the file name
      has no '.' or ends with one. */
  function Extension(path: string): string {
    NameExtension(FileName(path))
  }

  /** The extension of a file name is empty exactly when the name has no '.' or ends with one. */
  lemma NameExtensionEmpty(name: string)
    ensures NameExtension(name) == "" <==> ('.' !in name || name[|name| - 1] == '.')
  {
    LastDotIsLast(name);
    if '.' in name {
      var k :| 0 <= k < |name| && name[k] == '.';
      assert LastDot(name) >= k;
    }
  }

  /** A non-empty extension is the tail of the name from its last '.', which is followed by at
      least one character and no further '.'. */
  lemma NameExtensionTail(name: string)
    ensures var ext := NameExtension(name);
      && (ext == "" || (|ext| >= 2 && ext[0] == '.' && '.' !in ext[1..]))
      && |ext| <= |name| && ext == name[|name| - |ext|..]
  {
    LastDotIsLast(name);
    var i := LastDot(name);
    if 0 <= i < |name| - 1 {
      assert name[i..][1..] == name[i + 1..];
    }
  }

  /** The extension of a file name is empty exactly when the name has no '.' or ends with one;
      otherwise it is the tail of the name from its last '.'. */
  lemma NameExtensionShape(name: string)
    ensures var ext := NameExtension(name);
      && (ext == "" || (|ext| >= 2 && ext[0] == '.' && '.' !in ext[1..]))
      && (ext == "" <==> ('.' !in name || name[|name| - 1] == '.'))
      && |ext| <= |name| && ext == name[|name| - |ext|..]
  {
    NameExtensionEmpty(name);
    NameExtensionTail(name);
  }

  lemma NameExtensionKeepsOut(name: string, c: char)
    requires c !in name
    ensures c !in NameExtension(name)
  {
    NameExtensionShape(name);
    var ext := NameExtension(name);
    assert forall k :: 0 <= k < |ext| ==> ext[k] == name[|name| - |ext| + k];
  }

  lemma FileNameHasNoSeparator(path: string)
    ensures Separator !in FileName(path)
  {
    FileNameIsLastSegment(path);
  }

  /** An extension is empty, or a '.' followed by at least one character and no further '.' or
      separator. */
  lemma ExtensionShape(path: string)
    ensures var ext := Extension(path);
      ext == "" || (|ext| >= 2 && ext[0] == '.' && '.' !in ext[1..] && Separator !in ext)
  {
    FileNameHasNoSeparator(path);
    NameExtensionKeepsOut(FileName(path), Separator);
    NameExtensionShape(FileName(path));
  }
}
