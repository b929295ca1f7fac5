# A verified model of the `fib` file bundler

`fib` is a small command-line tool (fib/Program.cs). Its `bundle` command joins the source
files of a directory tree into one text file. It chooses the files by extension, orders them,
and can drop empty lines, bracket every file with marker lines and add an author line.
Its `create-rsp` command asks a few questions and writes a response file for `bundle`.

This project models the logic of both commands as pure Dafny functions over strings and
sequences, and proves what they do:

- `Text`: the .NET string primitives the tool relies on. These are `char.IsWhiteSpace`,
  `Trim`, ASCII case folding, `Split` on one character, `File.ReadLines` and the newline that
  `WriteLine` adds.
- `Paths`: `Path.GetFileName` and `Path.GetExtension`.
- `Ordinal`: the string order that `OrderBy` sorts with.
- `StableSort`: `OrderBy` itself, a stable sort by key.
- `Languages`: the extension resolver, which turns the `--language` text into extensions
  checked against the allow-list.
- `Collector`: selection of the enumerated files by extension, and their ordering.
- `Writer`: the bundle renderer, which produces the author line, the marker lines and the
  file bodies.
- `BundleCommand`: the whole `bundle` handler. It returns one of three outcomes: the
  language error, "no files", or the bundle written.
- `ResponseFile`: the `create-rsp` line builder, together with an independent reader of the
  response-file layout.

The directory listing is an input sequence of `FileEntry(path, content)` in enumeration
order. The bundle is returned as its text, which is the sequence of `WriteLine` arguments,
each followed by "\n". Console answers are `Option<string>` parameters, where `None` stands
for an input that had ended.

Where the code differs from what a user would likely expect, the model follows the code:

- Duplicate extensions are kept. `cs CS` resolves to `.cs .cs`.
- `all` next to another token is not the default. It becomes `.all`, which is refused.
- The `code` sort orders by extension only. Files with the same extension keep their
  enumeration order, because `OrderBy` is stable; they are not ordered by path.
- Without `--remove-empty-lines`, a file's text is written with `WriteLine`, so one newline
  is appended to it.
- `create-rsp` replaces only a missing languages answer by `all`. An empty answer is written
  as an empty line after `--language`.

## Model

| member | source | states |
|---|---|---|
| Text.Trim | fib/Program.cs:40 | the result is the input with only the white space at its two ends removed: an infix of the input with blank text before and after it, itself without white space at either end; it is empty exactly when the input is blank |
| Text.SplitOn | fib/Program.cs:40 | splitting on a separator gives at least one piece, no piece contains the separator, and the pieces joined by the separator are the input |
| Text.SplitOnJoin | fib/Program.cs:40 | splitting a join of separator-free pieces returns those pieces |
| Text.Lower | fib/Program.cs:49 | lowering gives a string with no upper-case letter that equals the input ignoring case |
| Text.LowerUnique | fib/Program.cs:49 | a lower-case string equal to `s` ignoring case is the lowering of `s` |
| Text.ReadLines | fib/Program.cs:84 | no line that `File.ReadLines` yields contains a line break |
| Text.ReadLinesCons | fib/Program.cs:84 | a line without breaks followed by "\n", "\r\n" or a lone "\r" is read as that line, then the lines of the rest |
| Text.ReadLinesLastLine | fib/Program.cs:84 | a non-empty last line with no terminator is still read as a line |
| Text.ReadLinesUnlines | fib/Program.cs:84-87 | lines written one per `WriteLine` are read back unchanged |
| Text.UnlinesReadLines | fib/Program.cs:84-87 | a "\n"-terminated text is rebuilt exactly by writing its lines back |
| Text.NonBlank | fib/Program.cs:85 | the kept lines include no blank line |
| Text.NonBlankCount | fib/Program.cs:85 | each non-blank line is kept exactly as many times as it occurs, and blank lines never |
| Text.NonBlankAppend | fib/Program.cs:85 | dropping blank lines distributes over concatenation, so the kept lines stay in their original order |
| Ordinal.LeqMeaning | fib/Program.cs:63 | `a` sorts at or before `b` exactly when `a` is a prefix of `b` or the two first differ where `a` has the smaller character |
| Ordinal.Reflexive | fib/Program.cs:63 | every string sorts at or before itself |
| Ordinal.Antisymmetric | fib/Program.cs:63 | two strings that each sort at or before the other are equal |
| Ordinal.Transitive | fib/Program.cs:63 | the string order is transitive |
| Ordinal.Total | fib/Program.cs:63 | any two strings are comparable |
| Paths.FileNameIsLastSegment | fib/Program.cs:81 | the file name is the tail of the path after its last separator and contains no separator |
| Paths.LastDotIsLast | fib/Program.cs:62 | the position found holds a '.' and no later character is a '.' |
| Paths.NameExtensionShape | fib/Program.cs:62 | a file name's extension is empty exactly when the name has no '.' or ends with one; otherwise it is the tail of the name from its last '.' |
| Paths.ExtensionShape | fib/Program.cs:62-63 | an extension is empty, or it is a '.' followed by at least one character with no further '.' and no separator |
| Languages.Tokens | fib/Program.cs:40 | every token is non-empty, has no white space at either end and contains no space |
| Languages.TokensOfJoin | fib/Program.cs:40 | tokens joined by single spaces split back into exactly those tokens |
| Languages.TokensNoSpace | fib/Program.cs:40 | a text with no space is no token when it is blank and otherwise one token, the text trimmed |
| Languages.TokensAppend | fib/Program.cs:40 | the tokens of a text split at a space are the tokens before it followed by the tokens after it, so runs of spaces and padding yield no token |
| Languages.AbsentIsAll | fib/Program.cs:40 | an absent language is read as the single token `all` |
| Languages.Normalize | fib/Program.cs:49 | a token becomes a lower-case extension that starts with '.' and equals the token, or '.' plus the token, ignoring case |
| Languages.NormalizeAll | fib/Program.cs:48-50 | there is one extension per token, in token order, each normalized from its own token |
| Languages.Candidates | fib/Program.cs:40-51 | an absent language or a lone `all` in any case gives exactly the five default extensions in order; otherwise there is one entry per token, in order and with duplicates, each normalized from its token; every entry is lower case and starts with '.' |
| Languages.FirstInvalid | fib/Program.cs:55-58 | nothing is found exactly when every extension is allowed; what is found is the first extension not allowed |
| Languages.FirstInvalidNames | fib/Program.cs:55-58 | the extension reported is the first one outside the allow-list |
| Languages.Resolve | fib/Program.cs:40-59 | resolution fails exactly when some candidate is outside the allow-list, and its message then names the first such candidate; on success the result is the candidates, all allowed |
| Languages.ResolveNamesFirstInvalid | fib/Program.cs:55-58 | when the i-th candidate is the first one not allowed, the run fails with the message naming it |
| Languages.DefaultResolves | fib/Program.cs:42-44 | the default request resolves to the five default extensions |
| Languages.ExeResolves | fib/Program.cs:54-58 | language `exe` fails with "language is not valid: .exe" |
| Languages.AllWithOthersResolves | fib/Program.cs:40-58 | language `all cs` fails with "language is not valid: .all" |
| Languages.MixedCaseResolves | fib/Program.cs:48-50 | language `CS .Md cs` resolves to `.cs .md .cs`: tokens are lowered, a '.' is added where it is missing, and duplicates stay |
| StableSort.Insert | fib/Program.cs:63 | inserting into a sorted sequence keeps it sorted and adds exactly the new element |
| StableSort.InsertWithKey | fib/Program.cs:63 | an inserted element goes after every element that shares its key |
| StableSort.Order | fib/Program.cs:63 | the sorted result has non-decreasing keys and is a permutation of the input |
| StableSort.OrderWithKey | fib/Program.cs:63 | the elements of each key keep their original relative order |
| StableSort.SortedUnique | fib/Program.cs:63 | two sorted sequences that order the elements of every key the same way are equal |
| StableSort.StableSortIsOrder | fib/Program.cs:63 | every stable sort by the key gives the same result as `Order` |
| StableSort.SortedGroupsContiguous | fib/Program.cs:63 | in a sorted sequence, the elements sharing a key sit next to each other |
| Collector.Select | fib/Program.cs:62 | every selected file has an extension equal to a resolved one, ignoring case |
| Collector.SelectCount | fib/Program.cs:62 | each matching file is selected as many times as it was enumerated, and no other file is selected |
| Collector.SelectAppend | fib/Program.cs:62 | selection distributes over concatenation, so it keeps enumeration order |
| Collector.Collect | fib/Program.cs:61-64 | the files written are a permutation of the matching enumerated files, ordered by path, or by extension under `code`; the result is empty exactly when no file matches |
| Collector.CollectKeepsEnumerationOrder | fib/Program.cs:61-64 | files with the same sort key are written in their enumeration order |
| Writer.Body | fib/Program.cs:83-88 | with `remove`, the writes are the file's non-blank lines in their original order, each as often as it occurs and none with a line break; without it, the writes produce the whole text plus one newline |
| Writer.Block | fib/Program.cs:80-90 | with `note`, a file's writes are its start marker, then its body, then its end marker with an extra newline; without `note`, they are the body alone |
| Writer.BlocksAppend | fib/Program.cs:78-91 | every file contributes one block, in list order |
| Writer.Render | fib/Program.cs:76-91 | with an author, the first write is the author line and the blocks follow; without one, the writes are the blocks alone |
| Writer.BlockText | fib/Program.cs:80-90 | with `remove`, a block's text is its marker lines and non-blank lines, and the end marker's own newline gives one empty line after it |
| Writer.ReadBackWithoutEmptyLines | fib/Program.cs:76-90 | with `remove`, the bundle read line by line is: the author line, then per file its start marker, its non-blank lines, its end marker and one empty line |
| Writer.NoBlankLineWithoutNotes | fib/Program.cs:83-87 | with `remove` and no `note`, the bundle contains no blank line |
| Writer.RawBlockText | fib/Program.cs:80-90 | without `remove`, a block's text is the optional start marker line, the file's text, one newline, and the optional end marker followed by an empty line |
| BundleCommand.Run | fib/Program.cs:40-91 | a run fails exactly when some extension is not allowed, naming the first; it writes nothing exactly when no enumerated file matches; otherwise it writes the matching files, none missing, in the collector's stable order by the sort key, as the rendered bundle |
| BundleCommand.DefaultNeverFails | fib/Program.cs:40-59 | an absent language or a lone `all` never fails |
| BundleCommand.BlankLanguageSelectsNothing | fib/Program.cs:40-70 | an empty or white-space-only language gives no extension, so no file is written whatever the directory holds |
| BundleCommand.AuthorHeader | fib/Program.cs:76 | with an author, the bundle text begins with the author line and a newline; without one, it is the blocks' text alone |
| BundleCommand.ExeIsRefused | fib/Program.cs:54-58 | a run with language `exe` ends with the error naming `.exe` and writes nothing |
| BundleCommand.AllWithOthersIsRefused | fib/Program.cs:40-58 | a run with language `all cs` ends with the error naming `.all` |
| ResponseFile.RspLines | fib/Program.cs:139-143 | the lines begin with `bundle`, `--language` and the languages answer, or `all` when the input had ended |
| ResponseFile.CreateRsp | fib/Program.cs:110-115 | the command is refused exactly when the file name answer is missing or blank; otherwise the file is named after the trimmed answer plus `.rsp` and holds the lines for the other answers |
| ResponseFile.ReadLayout | fib/Program.cs:139-158 | every request is read back from its layout, whatever its values |
| ResponseFile.ReadRequestRebuilds | fib/Program.cs:139-158 | lines that the reader accepts are exactly the layout of what it reads |
| ResponseFile.RspLinesLayout | fib/Program.cs:145-158 | each optional part is written exactly when its answer is neither missing nor white space, and each flag exactly when it was answered `yes` |
| ResponseFile.ReadRequestOfRspLines | fib/Program.cs:139-158 | reading the response file back gives the language, each optional value exactly when it was given and not white space, and each flag exactly when it was answered `yes` |
| ResponseFile.ReadRequestIsInjective | fib/Program.cs:139-158 | lines that read as the same request as a response file are that file's lines, so the file holds nothing else |
| ResponseFile.EmptyLanguagesStayEmpty | fib/Program.cs:142 | an empty languages answer is written as an empty value, not as `all` |

## Left out

- The System.CommandLine wiring is not modelled: option and command declarations, aliases, `@file` argument expansion and `InvokeAsync` (fib/Program.cs:1-33, 99, 174-179). It is a library outside this model. Option values reach `BundleCommand.Run` as parameters.
- How `bundle` parses a response file through `@file` expansion is not modelled. `ResponseFile.ReadRequest` is an independent reader of the layout that `create-rsp` writes, not a model of that parser. In particular, the model does not say what an empty `--language` line becomes there.
- The file system is not modelled. `Directory.GetFiles` becomes an input sequence of path and content pairs. `File.ReadLines` and `ReadAllText` read the `content` field. The `StreamWriter` becomes the returned text.
- The destination path is not modelled. This covers the default `bundle-output.txt` under the current directory, and `File.WriteAllLinesAsync` together with the way it separates lines in the response file. Only the name of the response file is modelled.
- Console output and the interactive prompts are not modelled (fib/Program.cs:38, 68, 72, 107-136, 164-165). The answers are parameters.
- The catch-all error printing is not modelled (fib/Program.cs:95-98, 167-171). A refused language is the `InvalidLanguage` outcome carrying the exception's message.
- The `output.FullName` dereference at fib/Program.cs:93 is not modelled. It throws when `--output` is omitted, but only after the bundle has been written, so it affects the report only.
- I/O failures are not modelled: unreadable files, a destination that cannot be opened, and a bundle left partly written.
- `OrderBy`'s default comparer is culture-sensitive. It is modelled as the ordinal character order (`Ordinal.Leq`).
- `ToLowerInvariant`, `ToLower` and `OrdinalIgnoreCase` are modelled as ASCII case folding. Every allowed extension is ASCII, so this cannot change whether a language is accepted or which files match. It can only change how non-ASCII letters appear in an error message.
- `Path.GetExtension` and `GetFileName` use '/' as the only separator, and they do not treat invalid path characters or drive roots specially.
- `WriteLine` writes "\n" as the newline.
