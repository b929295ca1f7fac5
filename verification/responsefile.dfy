/** The `create-rsp` command (fib/Program.cs, lines 107-162): the answers typed at the prompts
    become the lines of a response file for `bundle`. The prompts are left out; each answer is
    the line `Console.ReadLine` returned, `None` when the input had ended. */
module ResponseFile {
  import opened Wrappers
  import opened Text

  /** The raw answers, in the order they are asked for. */
  datatype Answers = Answers(
    fileName: Option<string>,
    outputPath: Option<string>,
    languages: Option<string>,
    note: Option<string>,
    sortOrder: Option<string>,
    removeEmpty: Option<string>,
    author: Option<string>)

  /** A response file: its name and its lines. */
  datatype RspFile = RspFile(name: string, lines: seq<string>)

  /** `Console.ReadLine()?.Trim()`. */
  function Answer(line: Option<string>): Option<string> {
    match line
    case None => None
    case Some(s) => Some(Trim(s))
  }

  /** `string.IsNullOrWhiteSpace`. */
  predicate IsNullOrWhiteSpace(v: Option<string>) {
    v.None? || IsBlank(v.value)
  }

  /** `Console.ReadLine()?.Trim().ToLower() == "yes"`. */
  predicate SaysYes(line: Option<string>) {
    line.Some? && Lower(Trim(line.value)) == "yes"
  }

  /** The answers once read: the trimmed text answers and the two yes/no answers. */
  datatype Collected = Collected(
    outputPath: Option<string>,
    languages: Option<string>,
    note: bool,
    sortOrder: Option<string>,
    remove: bool,
    author: Option<string>)

  function ReadAnswers(a: Answers): Collected {
    Collected(Answer(a.outputPath), Answer(a.languages), SaysYes(a.note), Answer(a.sortOrder),
              SaysYes(a.removeEmpty), Answer(a.author))
  }

  /** An option and its value, written only when the value is not null or white space. */
  function Pair(option: string, v: Option<string>): seq<string> {
    if IsNullOrWhiteSpace(v) then [] else [option, v.value]
  }

  /** A flag, written only when it is set. */
  function Flag(flag: string, on: bool): seq<string> {
    if on then [flag] else []
  }

  /** The lines of the response file: the command and its language (`all` when the input had
      ended), then the output path, the sort order and the author when given, then the two
      flags when answered `yes`. */
  function RspLines(c: Collected): (lines: seq<string>)
    ensures |lines| >= 3 && lines[..3] == ["bundle", "--language", c.languages.GetOr("all")]
  {
    var head := ["bundle", "--language", c.languages.GetOr("all")];
    var lines := head
      + (Pair("--output", c.outputPath)
      + (Pair("--sort", c.sortOrder)
      + (Pair("--author", c.author)
      + (Flag("--note", c.note)
      + Flag("--remove-empty-lines", c.remove)))));
    assert lines[..3] == head;
    lines
  }

  /** The whole command: refused when the file name is missing or blank, otherwise the file
      `<name>.rsp` holding the lines for the other answers. */
  function CreateRsp(a: Answers): (r: Result<RspFile, string>)
    ensures r.Failure? <==> a.fileName.None? || IsBlank(a.fileName.value)
    ensures r.Failure? ==> r.error == "Invalid file name."
    ensures r.Success? ==>
      && |r.value.name| > 4
      && r.value.name[..|r.value.name| - 4] == Trim(a.fileName.value)
      && r.value.name[|r.value.name| - 4..] == ".rsp"
      && IsTrimmed(r.value.name[..|r.value.name| - 4])
      && r.value.lines == RspLines(ReadAnswers(a))
  {
    var name := Answer(a.fileName);
    if IsNullOrWhiteSpace(name) then Failure("Invalid file name.")
    else
      var file := name.value + ".rsp";
      assert file[..|file| - 4] == name.value;
      assert file[|file| - 4..] == ".rsp";
      Success(RspFile(file, RspLines(ReadAnswers(a))))
  }

  // ---- Reading a response file back ----

  /** What a response file asks `bundle` for. */
  datatype Request = Request(
    language: string,
    output: Option<string>,
    sort: Option<string>,
    author: Option<string>,
    note: bool,
    remove: bool)

  /** An option and its value when there is one. */
  function Optional(option: string, v: Option<string>): seq<string> {
    if v.Some? then [option, v.value] else []
  }

  /** The lines after the language: each optional part in its fixed place. */
  function Tail(q: Request): seq<string> {
    Optional("--output", q.output)
    + (Optional("--sort", q.sort)
    + (Optional("--author", q.author)
    + (Flag("--note", q.note)
    + Flag("--remove-empty-lines", q.remove))))
  }

  /** The lines a request is written as. */
  function Layout(q: Request): seq<string> {
    ["bundle", "--language", q.language] + Tail(q)
  }

  /** An option with its value at the head of `lines`, if it is there. */
  function TakePair(option: string, lines: seq<string>): (Option<string>, seq<string>) {
    if |lines| >= 2 && lines[0] == option then (Some(lines[1]), lines[2..]) else (None, lines)
  }

  /** A flag at the head of `lines`, if it is there. */
  function TakeFlag(flag: string, lines: seq<string>): (bool, seq<string>) {
    if |lines| >= 1 && lines[0] == flag then (true, lines[1..]) else (false, lines)
  }

  /** The optional parts, each looked for in its place, with nothing left after the last. */
  function ReadTail(language: string, rest: seq<string>): Option<Request> {
    var (output, r1) := TakePair("--output", rest);
    var (sort, r2) := TakePair("--sort", r1);
    var (author, r3) := TakePair("--author", r2);
    var (note, r4) := TakeFlag("--note", r3);
    var (remove, r5) := TakeFlag("--remove-empty-lines", r4);
    if r5 == [] then Some(Request(language, output, sort, author, note, remove)) else None
  }

  /** A reader of response files, written independently of the writer: the command, the
      language option and its value, then the optional parts. */
  function ReadRequest(lines: seq<string>): Option<Request> {
    if |lines| < 3 || lines[0] != "bundle" || lines[1] != "--language" then None
    else ReadTail(lines[2], lines[3..])
  }

  lemma TakePairOf(option: string, v: Option<string>, rest: seq<string>)
    requires rest == [] || rest[0] != option
    ensures TakePair(option, Optional(option, v) + rest) == (v, rest)
  {
    if v.Some? {
      assert (Optional(option, v) + rest)[2..] == rest;
    } else {
      assert Optional(option, v) + rest == rest;
    }
  }

  lemma TakeFlagOf(flag: string, on: bool, rest: seq<string>)
    requires rest == [] || rest[0] != flag
    ensures TakeFlag(flag, Flag(flag, on) + rest) == (on, rest)
  {
    if on {
      assert (Flag(flag, on) + rest)[1..] == rest;
    } else {
      assert Flag(flag, on) + rest == rest;
    }
  }

  lemma ReadTailOfTail(q: Request)
    ensures ReadTail(q.language, Tail(q)) == Some(q)
  {
    var remove := Flag("--remove-empty-lines", q.remove);
    var flags := Flag("--note", q.note) + remove;
    var r2 := Optional("--author", q.author) + flags;
    var r1 := Optional("--sort", q.sort) + r2;
    TakeFlagOf("--remove-empty-lines", q.remove, []);
    assert remove + [] == remove;
    TakeFlagOf("--note", q.note, remove);
    TakePairOf("--author", q.author, flags);
    TakePairOf("--sort", q.sort, r2);
    TakePairOf("--output", q.output, r1);
  }

  /** Every request is read back from its layout, whatever its values: no value is ever taken
      for an option, since each value follows its own option. */
  lemma ReadLayout(q: Request)
    ensures ReadRequest(Layout(q)) == Some(q)
  {
    assert Layout(q)[3..] == Tail(q);
    ReadTailOfTail(q);
  }

  lemma TakePairRebuilds(option: string, lines: seq<string>)
    ensures Optional(option, TakePair(option, lines).0) + TakePair(option, lines).1 == lines
  {
    if |lines| >= 2 && lines[0] == option {
      assert lines == [lines[0], lines[1]] + lines[2..];
    }
  }

  lemma TakeFlagRebuilds(flag: string, lines: seq<string>)
    ensures Flag(flag, TakeFlag(flag, lines).0) + TakeFlag(flag, lines).1 == lines
  {
    if |lines| >= 1 && lines[0] == flag {
      assert lines == [lines[0]] + lines[1..];
    }
  }

  /** The five lookups `ReadTail` makes, one after the other. */
  lemma ReadTailSteps(language: string, rest: seq<string>)
    requires ReadTail(language, rest).Some?
    ensures var t1 := TakePair("--output", rest);
      var t2 := TakePair("--sort", t1.1);
      var t3 := TakePair("--author", t2.1);
      var t4 := TakeFlag("--note", t3.1);
      var t5 := TakeFlag("--remove-empty-lines", t4.1);
      t5.1 == [] && ReadTail(language, rest).value == Request(language, t1.0, t2.0, t3.0, t4.0, t5.0)
  {
  }

  lemma ReadTailRebuilds(language: string, rest: seq<string>)
    requires ReadTail(language, rest).Some?
    ensures Tail(ReadTail(language, rest).value) == rest
  {
    ReadTailSteps(language, rest);
    var t1 := TakePair("--output", rest);
    var t2 := TakePair("--sort", t1.1);
    var t3 := TakePair("--author", t2.1);
    var t4 := TakeFlag("--note", t3.1);
    var t5 := TakeFlag("--remove-empty-lines", t4.1);
    TakePairRebuilds("--output", rest);
    TakePairRebuilds("--sort", t1.1);
    TakePairRebuilds("--author", t2.1);
    TakeFlagRebuilds("--note", t3.1);
    TakeFlagRebuilds("--remove-empty-lines", t4.1);
    assert Flag("--remove-empty-lines", t5.0) + [] == Flag("--remove-empty-lines", t5.0);
  }

  /** Whatever reads as a request is exactly that request's layout: the reader accepts nothing
      but the fixed order, with nothing before, between or after its parts. */
  lemma ReadRequestRebuilds(lines: seq<string>)
    requires ReadRequest(lines).Some?
    ensures Layout(ReadRequest(lines).value) == lines
  {
    ReadTailRebuilds(lines[2], lines[3..]);
    assert lines == [lines[0], lines[1], lines[2]] + lines[3..];
  }

  // ---- The answers as a request ----

  /** The value of an optional answer as the response file carries it: absent when null or
      white space. */
  function Given(v: Option<string>): Option<string> {
    if IsNullOrWhiteSpace(v) then None else v
  }

  lemma PairIsOptionalGiven(option: string, v: Option<string>)
    ensures Pair(option, v) == Optional(option, Given(v))
  {
  }

  /** The answers as the request they make. */
  function RequestOf(c: Collected): Request {
    Request(c.languages.GetOr("all"), Given(c.outputPath), Given(c.sortOrder), Given(c.author),
            c.note, c.remove)
  }

  lemma RspLinesLayout(c: Collected)
    ensures RspLines(c) == Layout(RequestOf(c))
  {
    PairIsOptionalGiven("--output", c.outputPath);
    PairIsOptionalGiven("--sort", c.sortOrder);
    PairIsOptionalGiven("--author", c.author);
  }

  /** Reading the response file back gives every answer in its place: the language (`all`
      when the input had ended), each optional value exactly when it was given and not white
      space, and each flag exactly when it was answered `yes`; nothing else is in the file. */
  lemma ReadRequestOfRspLines(c: Collected)
    ensures ReadRequest(RspLines(c)) == Some(Request(
      c.languages.GetOr("all"),
      if IsNullOrWhiteSpace(c.outputPath) then None else c.outputPath,
      if IsNullOrWhiteSpace(c.sortOrder) then None else c.sortOrder,
      if IsNullOrWhiteSpace(c.author) then None else c.author,
      c.note,
      c.remove))
  {
    RspLinesLayout(c);
    ReadLayout(RequestOf(c));
  }

  /** Lines that read as the same request as a response file are that file's lines. */
  lemma ReadRequestIsInjective(lines: seq<string>, c: Collected)
    requires ReadRequest(lines) == ReadRequest(RspLines(c))
    ensures lines == RspLines(c)
  {
    ReadRequestOfRspLines(c);
    ReadRequestRebuilds(lines);
    ReadRequestRebuilds(RspLines(c));
  }

  /** An empty languages answer is kept as an empty value; only an ended input gives `all`. */
  lemma EmptyLanguagesStayEmpty(c: Collected)
    requires c.languages == Some("")
    ensures RspLines(c)[2] == ""
  {
  }
}
