/** The extension resolver of the `bundle` command (fib/Program.cs, lines 40-59): the
    `--language` text becomes a list of extensions, every one of which must be allowed. */
module Languages {
  import opened Wrappers
  import opened Text

  /** What a lone `all` stands for. */
  const Defaults: seq<string> := [".cs", ".js", ".ts", ".html", ".css"]

  /** The only extensions a bundle may be made of. */
  const Allowed: seq<string> := [".cs", ".js", ".ts", ".html", ".css", ".json", ".md"]

  predicate IsAllowed(ext: string) {
    ext in Allowed
  }

  /** The pieces that are not empty once trimmed, trimmed. */
  function KeepTrimmed(parts: seq<string>): (tokens: seq<string>)
    ensures forall t <- tokens :: t != [] && IsTrimmed(t)
    ensures (forall p <- parts :: ' ' !in p) ==> forall t <- tokens :: ' ' !in t
    decreases |parts|
  {
    if |parts| == 0 then []
    else
      var t := Trim(parts[0]);
      assert parts[0] in parts;
      assert forall p <- parts[1..] :: p in parts;
      (if t == [] then [] else [t]) + KeepTrimmed(parts[1..])
  }

  lemma {:induction false} KeepTrimmedOfTrimmed(parts: seq<string>)
    requires forall p <- parts :: p != [] && IsTrimmed(p)
    ensures KeepTrimmed(parts) == parts
    decreases |parts|
  {
    if |parts| > 0 {
      assert parts[0] in parts;
      assert forall p <- parts[1..] :: p in parts;
      KeepTrimmedOfTrimmed(parts[1..]);
      assert parts == [parts[0]] + parts[1..];
    }
  }

  /** `s.Split(' ', RemoveEmptyEntries | TrimEntries)`: split on the space character only,
      trim every piece, drop the pieces left empty. */
  function Tokens(s: string): (tokens: seq<string>)
    ensures forall t <- tokens :: t != [] && IsTrimmed(t) && ' ' !in t
  {
    KeepTrimmed(SplitOn(s, ' '))
  }

  /** Tokens joined by single spaces split back into the same tokens. */
  lemma TokensOfJoin(tokens: seq<string>)
    requires forall t <- tokens :: t != [] && IsTrimmed(t) && ' ' !in t
    ensures Tokens(Join(tokens, ' ')) == tokens
  {
    if |tokens| == 0 {
      assert SplitOn("", ' ') == [""];
    } else {
      SplitOnJoin(tokens, ' ');
      KeepTrimmedOfTrimmed(tokens);
    }
  }

  lemma {:induction false} KeepTrimmedAppend(p: seq<string>, q: seq<string>)
    ensures KeepTrimmed(p + q) == KeepTrimmed(p) + KeepTrimmed(q)
    decreases |p|
  {
    if |p| > 0 {
      var pq := p + q;
      assert pq[0] == p[0];
      assert pq[1..] == p[1..] + q;
      KeepTrimmedAppend(p[1..], q);
      var t := Trim(p[0]);
      var head := if t == [] then [] else [t];
      assert KeepTrimmed(pq) == head + (KeepTrimmed(p[1..]) + KeepTrimmed(q));
      assert KeepTrimmed(p) == head + KeepTrimmed(p[1..]);
    } else {
      assert p + q == q;
    }
  }

  /** A text without spaces is one token, trimmed, unless it is blank. */
  lemma TokensNoSpace(s: string)
    requires ' ' !in s
    ensures Tokens(s) == if IsBlank(s) then [] else [Trim(s)]
  {
    assert SplitOn(s, ' ') == [s];
    var t := Trim(s);
    assert [s][0] == s && [s][1..] == [];
    assert KeepTrimmed([s]) == (if t == [] then [] else [t]) + KeepTrimmed([]);
  }

  /** Splitting at a space gives the tokens before it, then the tokens after it: runs of spaces
      and the white space around the tokens are dropped. */
  lemma TokensAppend(a: string, b: string)
    ensures Tokens(a + " " + b) == Tokens(a) + Tokens(b)
  {
    var pa, pb := SplitOn(a, ' '), SplitOn(b, ' ');
    JoinAppend(pa, pb, ' ');
    assert forall x <- pa + pb :: x in pa || x in pb;
    SplitOnJoin(pa + pb, ' ');
    assert a + " " + b == a + [' '] + b;
    KeepTrimmedAppend(pa, pb);
  }

  /** An absent language text reads as the single token `all`. */
  lemma AbsentIsAll()
    ensures Tokens("all") == ["all"]
  {
    assert Join(["all"], ' ') == "all";
    TokensOfJoin(["all"]);
  }

  /** The language text selects the default extensions: it is absent (read as `all`) or it is
      the single token `all` in any letter case. */
  predicate IsDefault(lan: Option<string>) {
    || lan.None?
    || (var tokens := Tokens(lan.value); |tokens| == 1 && EqualsIgnoreCase(tokens[0], "all"))
  }

  /** `e` is token `t` read as an extension: lower case, and equal to `t` ignoring case when `t`
      starts with '.', to '.' followed by `t` otherwise. */
  predicate NormalizedFrom(e: string, t: string) {
    && IsLowerCase(e)
    && if |t| > 0 && t[0] == '.' then EqualsIgnoreCase(e, t) else EqualsIgnoreCase(e, "." + t)
  }

  function Normalize(t: string): (e: string)
    ensures NormalizedFrom(e, t)
    ensures |e| > 0 && e[0] == '.'
  {
    if |t| > 0 && t[0] == '.' then Lower(t)
    else
      var e := "." + Lower(t);
      assert forall i :: 1 <= i < |e| ==> e[i] == Lower(t)[i - 1];
      e
  }

  function NormalizeAll(tokens: seq<string>): (exts: seq<string>)
    ensures |exts| == |tokens|
    ensures forall i :: 0 <= i < |tokens| ==> NormalizedFrom(exts[i], tokens[i])
    ensures forall e <- exts :: |e| > 0 && e[0] == '.' && IsLowerCase(e)
  {
    seq(|tokens|, i requires 0 <= i < |tokens| => Normalize(tokens[i]))
  }

  lemma DefaultsAreExtensions()
    ensures forall e <- Defaults :: |e| > 0 && e[0] == '.' && IsLowerCase(e)
  {
  }

  /** The extensions asked for, before the allow-list check: duplicates are kept. */
  function Candidates(lan: Option<string>): (exts: seq<string>)
    ensures IsDefault(lan) ==> exts == Defaults
    ensures !IsDefault(lan) ==>
      && |exts| == |Tokens(lan.value)|
      && forall i :: 0 <= i < |exts| ==> NormalizedFrom(exts[i], Tokens(lan.value)[i])
    ensures forall e <- exts :: |e| > 0 && e[0] == '.' && IsLowerCase(e)
  {
    var tokens := Tokens(lan.GetOr("all"));
    AbsentIsAll();
    DefaultsAreExtensions();
    if |tokens| == 1 && EqualsIgnoreCase(tokens[0], "all") then Defaults
    else NormalizeAll(tokens)
  }

  /** The first extension outside the allow-list, if any. */
  function FirstInvalid(exts: seq<string>): (bad: Option<string>)
    ensures bad.None? <==> forall e <- exts :: IsAllowed(e)
    ensures bad.Some? ==>
      exists i :: 0 <= i < |exts| && exts[i] == bad.value && !IsAllowed(bad.value)
                  && forall j :: 0 <= j < i ==> IsAllowed(exts[j])
    decreases |exts|
  {
    if |exts| == 0 then None
    else if !IsAllowed(exts[0]) then Some(exts[0])
    else
      var bad := FirstInvalid(exts[1..]);
      assert exts == [exts[0]] + exts[1..];
      assert bad.Some? ==>
        exists i :: 0 <= i < |exts| && exts[i] == bad.value && !IsAllowed(bad.value)
                    && forall j :: 0 <= j < i ==> IsAllowed(exts[j])
      by {
        if bad.Some? {
        var i :| 0 <= i < |exts[1..]| && exts[1..][i] == bad.value && !IsAllowed(bad.value)
                 && forall j :: 0 <= j < i ==> IsAllowed(exts[1..][j]);
        assert exts[i + 1] == bad.value;
        assert forall j :: 0 <= j < i + 1 ==> IsAllowed(exts[j]) by {
          forall j | 0 <= j < i + 1 ensures IsAllowed(exts[j]) {
            if j > 0 { assert exts[j] == exts[1..][j - 1]; }
          }
        }
        }
      }
      bad
  }

  /** The first entry outside the allow-list is the one reported. */
  lemma {:induction false} FirstInvalidNames(exts: seq<string>, i: nat)
    requires i < |exts| && !IsAllowed(exts[i])
    requires forall j :: 0 <= j < i ==> IsAllowed(exts[j])
    ensures FirstInvalid(exts) == Some(exts[i])
    decreases i
  {
    if i > 0 {
      assert IsAllowed(exts[0]);
      var tail := exts[1..];
      forall j | 0 <= j < i - 1
        ensures IsAllowed(tail[j])
      {
        assert tail[j] == exts[j + 1];
      }
      FirstInvalidNames(tail, i - 1);
    }
  }

  function ErrorMessage(ext: string): string {
    "language is not valid: " + ext
  }

  /** The extensions of one `bundle` run, or the message naming the first one not allowed. */
  function Resolve(lan: Option<string>): (r: Result<seq<string>, string>)
    ensures r.Failure? <==> exists e <- Candidates(lan) :: !IsAllowed(e)
    ensures r.Success? ==> r.value == Candidates(lan) && forall e <- r.value :: IsAllowed(e)
    ensures r.Failure? ==>
      exists i :: 0 <= i < |Candidates(lan)| && r.error == ErrorMessage(Candidates(lan)[i])
                  && !IsAllowed(Candidates(lan)[i])
                  && forall j :: 0 <= j < i ==> IsAllowed(Candidates(lan)[j])
  {
    var exts := Candidates(lan);
    var bad := FirstInvalid(exts);
    if bad.Some? then
      assert exists i :: 0 <= i < |exts| && ErrorMessage(bad.value) == ErrorMessage(exts[i])
                         && !IsAllowed(exts[i]) && forall j :: 0 <= j < i ==> IsAllowed(exts[j]);
      Failure(ErrorMessage(bad.value))
    else
      Success(exts)
  }

  /** The run is refused with the first candidate outside the allow-list. */
  lemma ResolveNamesFirstInvalid(lan: Option<string>)
    ensures forall i :: 0 <= i < |Candidates(lan)| && !IsAllowed(Candidates(lan)[i])
                        && (forall j :: 0 <= j < i ==> IsAllowed(Candidates(lan)[j]))
                        ==> Resolve(lan) == Failure(ErrorMessage(Candidates(lan)[i]))
  {
    var exts := Candidates(lan);
    forall i | 0 <= i < |exts| && !IsAllowed(exts[i]) && (forall j :: 0 <= j < i ==> IsAllowed(exts[j]))
      ensures Resolve(lan) == Failure(ErrorMessage(exts[i]))
    {
      FirstInvalidNames(exts, i);
    }
  }

  /** The default extensions are all allowed, so the default request never fails. */
  lemma DefaultResolves(lan: Option<string>)
    requires IsDefault(lan)
    ensures Resolve(lan) == Success(Defaults)
  {
    assert forall e <- Defaults :: IsAllowed(e);
  }

  /** A language text whose tokens are not the lone `all` gives the tokens' extensions. */
  lemma CandidatesOfTokens(lan: Option<string>, tokens: seq<string>)
    requires lan.Some? && Tokens(lan.value) == tokens
    requires |tokens| != 1 || !EqualsIgnoreCase(tokens[0], "all")
    ensures Candidates(lan) == NormalizeAll(tokens)
  {
  }

  /** A token already in lower case only gains its '.'. */
  lemma NormalizeLower(t: string, e: string)
    requires |t| > 0 && t[0] != '.' && IsLowerCase(t) && e == "." + t
    ensures Normalize(t) == e
  {
    LowerUnique(t, t);
  }

  // ---- Examples ----

  lemma ExeTokens()
    ensures Tokens("exe") == ["exe"]
  {
    assert Join(["exe"], ' ') == "exe";
    TokensOfJoin(["exe"]);
  }

  lemma ExeNormalized()
    ensures NormalizeAll(["exe"]) == [".exe"]
  {
    NormalizeLower("exe", ".exe");
  }

  lemma ExeCandidates(lan: Option<string>)
    requires lan == Some("exe")
    ensures Candidates(lan) == [".exe"]
  {
    ExeTokens();
    assert LowerChar("exe"[0]) != LowerChar("all"[0]);
    CandidatesOfTokens(lan, ["exe"]);
    ExeNormalized();
  }

  lemma DotExeIsNotAllowed()
    ensures !IsAllowed(".exe")
  {
  }

  lemma ExeMessage()
    ensures ErrorMessage(".exe") == "language is not valid: .exe"
  {
  }

  lemma AllMessage()
    ensures ErrorMessage(".all") == "language is not valid: .all"
  {
  }

  /** Language `exe` names an extension outside the allow-list. */
  lemma ExeResolves(lan: Option<string>)
    requires lan == Some("exe")
    ensures Resolve(lan) == Failure("language is not valid: .exe")
  {
    ExeCandidates(lan);
    DotExeIsNotAllowed();
    ResolveNamesFirstInvalid(lan);
    ExeMessage();
  }

  lemma AllWithOthersTokens()
    ensures Tokens("all cs") == ["all", "cs"]
  {
    assert Join(["all", "cs"], ' ') == "all cs";
    TokensOfJoin(["all", "cs"]);
  }

  lemma AllWithOthersNormalized()
    ensures NormalizeAll(["all", "cs"]) == [".all", ".cs"]
  {
    NormalizeLower("all", ".all");
    NormalizeLower("cs", ".cs");
  }

  lemma AllWithOthersCandidates(lan: Option<string>)
    requires lan == Some("all cs")
    ensures Candidates(lan) == [".all", ".cs"]
  {
    AllWithOthersTokens();
    CandidatesOfTokens(lan, ["all", "cs"]);
    AllWithOthersNormalized();
  }

  lemma DotAllIsNotAllowed()
    ensures !IsAllowed(".all")
  {
  }

  lemma AllWithOthersRefused(lan: Option<string>)
    requires lan == Some("all cs")
    ensures Resolve(lan) == Failure(ErrorMessage(".all"))
  {
    AllWithOthersCandidates(lan);
    DotAllIsNotAllowed();
    ResolveNamesFirstInvalid(lan);
  }

  /** `all` next to another token is read as the extension `.all`, which is refused. */
  lemma AllWithOthersResolves(lan: Option<string>)
    requires lan == Some("all cs")
    ensures Resolve(lan) == Failure("language is not valid: .all")
  {
    AllWithOthersRefused(lan);
    AllMessage();
  }

  lemma MixedCaseTokens()
    ensures Tokens("CS .Md cs") == ["CS", ".Md", "cs"]
  {
    assert Join(["CS", ".Md", "cs"], ' ') == "CS .Md cs";
    TokensOfJoin(["CS", ".Md", "cs"]);
  }

  lemma MixedCaseNormalized()
    ensures NormalizeAll(["CS", ".Md", "cs"]) == [".cs", ".md", ".cs"]
  {
    LowerUnique("cs", "CS");
    LowerUnique(".md", ".Md");
    NormalizeLower("cs", ".cs");
  }

  lemma MixedCaseCandidates(lan: Option<string>)
    requires lan == Some("CS .Md cs")
    ensures Candidates(lan) == [".cs", ".md", ".cs"]
  {
    MixedCaseTokens();
    CandidatesOfTokens(lan, ["CS", ".Md", "cs"]);
    MixedCaseNormalized();
  }

  /** Tokens are lowered, a '.' is added where missing, and duplicates are kept. */
  lemma MixedCaseResolves(lan: Option<string>)
    requires lan == Some("CS .Md cs")
    ensures Resolve(lan) == Success([".cs", ".md", ".cs"])
  {
    MixedCaseCandidates(lan);
    assert IsAllowed(".cs") && IsAllowed(".md");
  }
}
