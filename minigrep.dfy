/**
  The library of the `minigrep` command-line tool: the line-filter search
  in its two modes, the construction of the configuration from the
  command-line arguments, and the choice of mode that `run` makes.

  Results are modelled as sequences of line contents rather than as
  borrowed slices of the text.
 */
module Minigrep {
  import opened Text
  import opened Filtering

  datatype Option<T> = None | Some(value: T)

  /** Success with a value, or failure with a static error message. */
  datatype Result<T> = Ok(value: T) | Err(error: string)

  // ---------------------------------------------------------------------------
  // Search engine
  // ---------------------------------------------------------------------------

  /** The filter of the case-sensitive search: the line contains `query`. */
  function ContainsQuery(query: string): string -> bool {
    line => Contains(line, query)
  }

  /** The filter of the case-insensitive search: the upper-cased line contains the upper-cased `query`. */
  function ContainsQueryIgnoringCase(query: string): string -> bool {
    line => Contains(ToUpper(line), ToUpper(query))
  }

  /** The lines of `contents` that contain `query`; at most one result per line. */
  function Search(query: string, contents: string): (r: seq<string>)
    ensures |r| <= |Lines(contents)|
  {
    Filter(ContainsQuery(query), Lines(contents))
  }

  /** The lines of `contents` that contain `query` when both are upper-cased; at most one result per line. */
  function SearchCaseInsensitive(query: string, contents: string): (r: seq<string>)
    ensures |r| <= |Lines(contents)|
  {
    Filter(ContainsQueryIgnoringCase(query), Lines(contents))
  }

  /**
    `Search` returns exactly the lines of `contents` that contain `query`,
    in their original order: every returned line contains it, every line
    that contains it is returned, and the order is that of the text.
   */
  lemma SearchSelectsMatchingLines(query: string, contents: string)
    ensures forall l :: l in Search(query, contents) <==> l in Lines(contents) && Contains(l, query)
    ensures KeepsExactly(Search(query, contents), Lines(contents), ContainsQuery(query))
  {
    FilterMembership(ContainsQuery(query), Lines(contents));
    FilterKeepsExactly(ContainsQuery(query), Lines(contents));
  }

  /**
    `SearchCaseInsensitive` returns exactly the lines of `contents` whose
    upper-cased form contains the upper-cased `query`, in their original order.
   */
  lemma SearchCaseInsensitiveSelectsMatchingLines(query: string, contents: string)
    ensures forall l :: l in SearchCaseInsensitive(query, contents) <==>
      l in Lines(contents) && Contains(ToUpper(l), ToUpper(query))
    ensures KeepsExactly(SearchCaseInsensitive(query, contents), Lines(contents), ContainsQueryIgnoringCase(query))
  {
    FilterMembership(ContainsQueryIgnoringCase(query), Lines(contents));
    FilterKeepsExactly(ContainsQueryIgnoringCase(query), Lines(contents));
  }

  /**
    Both searches return a subsequence of the lines, so no more results than
    there are lines, and no result contains a line feed.
   */
  lemma SearchResultsAreLines(query: string, contents: string)
    ensures IsSubsequence(Search(query, contents), Lines(contents))
    ensures IsSubsequence(SearchCaseInsensitive(query, contents), Lines(contents))
    ensures |Search(query, contents)| <= |Lines(contents)|
    ensures |SearchCaseInsensitive(query, contents)| <= |Lines(contents)|
    ensures forall l :: l in Search(query, contents) ==> '\n' !in l
    ensures forall l :: l in SearchCaseInsensitive(query, contents) ==> '\n' !in l
  {
    FilterIsSubsequence(ContainsQuery(query), Lines(contents));
    FilterIsSubsequence(ContainsQueryIgnoringCase(query), Lines(contents));
    LinesHaveNoNewline(contents);
  }

  /** The empty query matches every line: `Search` returns all lines, in order. */
  lemma SearchEmptyQuery(contents: string)
    ensures Search("", contents) == Lines(contents)
  {
    forall l | l in Lines(contents) ensures ContainsQuery("")(l) {
      ContainsEmpty(l);
    }
    FilterAll(ContainsQuery(""), Lines(contents));
  }

  /**
    Every case-sensitive match is a case-insensitive match: `Search` is what
    remains of `SearchCaseInsensitive` after the case-sensitive filter, and
    so is a subsequence of it.
   */
  lemma SearchWithinCaseInsensitive(query: string, contents: string)
    ensures Search(query, contents) == Filter(ContainsQuery(query), SearchCaseInsensitive(query, contents))
    ensures IsSubsequence(Search(query, contents), SearchCaseInsensitive(query, contents))
  {
    var ls := Lines(contents);
    forall l | l in ls && ContainsQuery(query)(l) ensures ContainsQueryIgnoringCase(query)(l) {
      ContainsToUpper(l, query);
    }
    FilterOfFilter(ContainsQuery(query), ContainsQueryIgnoringCase(query), ls);
    FilterIsSubsequence(ContainsQuery(query), SearchCaseInsensitive(query, contents));
  }

  /**
    The case of the query does not matter to the case-insensitive search:
    searching for its upper-cased form gives the same lines.
   */
  lemma SearchCaseInsensitiveIgnoresQueryCase(query: string, contents: string)
    ensures SearchCaseInsensitive(ToUpper(query), contents) == SearchCaseInsensitive(query, contents)
  {
    ToUpperIdempotent(query);
    FilterAgree(ContainsQueryIgnoringCase(ToUpper(query)), ContainsQueryIgnoringCase(query), Lines(contents));
  }

  /**
    The case-insensitive search treats 'a'..'z' and 'A'..'Z' alike in the
    query: two queries that differ only in ASCII letter case find the same lines.
   */
  lemma SearchCaseInsensitiveSameQuery(q1: string, q2: string, contents: string)
    requires EqualIgnoringCase(q1, q2)
    ensures SearchCaseInsensitive(q1, contents) == SearchCaseInsensitive(q2, contents)
  {
    ToUpperEqual(q1, q2);
    assert ContainsQueryIgnoringCase(q1) == ContainsQueryIgnoringCase(q2);
  }

  // ---------------------------------------------------------------------------
  // Configuration
  // ---------------------------------------------------------------------------

  /** The settings of one run. */
  datatype Config = Config(query: string, filename: string, isCaseSensitive: bool)

  const NotEnoughArguments: string := "Not enough arguments."
  const NoQueryString: string := "Didn't get a query string."
  const NoFileName: string := "Didn't get a file name."

  /** The item at position `pos` of the argument iterator, if there is one. */
  function Next(args: seq<string>, pos: nat): Option<string> {
    if pos < |args| then Some(args[pos]) else None
  }

  /**
    Builds the configuration from the arguments (the program name first).
    `envLookupFailed` is the outcome of reading the `CASE_INSENSITIVE`
    environment variable: true when the lookup failed. The two `None`
    branches are never taken once at least three arguments are present.
   */
  function NewConfig(args: seq<string>, envLookupFailed: bool): (r: Result<Config>)
    ensures r.Err? <==> |args| < 3
    ensures r.Err? ==> r.error == NotEnoughArguments
    ensures r.Ok? ==> r.value.query == args[1] && r.value.filename == args[2]
    ensures r.Ok? ==> (r.value.isCaseSensitive <==> envLookupFailed)
  {
    if |args| < 3 then Err(NotEnoughArguments)
    else
      // position 0, the program name, is skipped
      match Next(args, 1)
      case None => Err(NoQueryString)
      case Some(query) =>
        match Next(args, 2)
        case None => Err(NoFileName)
        case Some(filename) => Ok(Config(query, filename, envLookupFailed))
  }

  // ---------------------------------------------------------------------------
  // Mode dispatch
  // ---------------------------------------------------------------------------

  /** The lines `run` prints for `contents`, searched in the mode `config` selects. */
  function Results(config: Config, contents: string): (r: seq<string>)
    ensures IsSubsequence(r, Lines(contents))
    ensures config.isCaseSensitive ==> KeepsExactly(r, Lines(contents), ContainsQuery(config.query))
    ensures !config.isCaseSensitive ==>
      KeepsExactly(r, Lines(contents), ContainsQueryIgnoringCase(config.query))
    ensures config.isCaseSensitive ==>
      forall l :: l in r <==> l in Lines(contents) && Contains(l, config.query)
    ensures !config.isCaseSensitive ==>
      forall l :: l in r <==> l in Lines(contents) && Contains(ToUpper(l), ToUpper(config.query))
  {
    SearchResultsAreLines(config.query, contents);
    SearchSelectsMatchingLines(config.query, contents);
    SearchCaseInsensitiveSelectsMatchingLines(config.query, contents);
    if config.isCaseSensitive then
      Search(config.query, contents)
    else
      SearchCaseInsensitive(config.query, contents)
  }

  /**
    From arguments to results: with a query and a file name given, the
    search is case-insensitive exactly when the `CASE_INSENSITIVE` lookup
    succeeded, whatever the variable's value.
   */
  lemma ArgumentsSelectSearch(args: seq<string>, envLookupFailed: bool, contents: string)
    requires |args| >= 3
    ensures NewConfig(args, envLookupFailed).Ok?
    ensures Results(NewConfig(args, envLookupFailed).value, contents)
      == if envLookupFailed then Search(args[1], contents) else SearchCaseInsensitive(args[1], contents)
  {
  }

  // ---------------------------------------------------------------------------
  // Examples
  // ---------------------------------------------------------------------------

  /** A case-sensitive search: "Duct" does not match "duct". */
  lemma SearchExample(contents: string)
    requires contents == "Rust:" + "\n" + "safe, fast, productive." + "\n" + "Duct three."
    ensures Search("duct", contents) == ["safe, fast, productive."]
  {
    var a, b, c := "Rust:", "safe, fast, productive.", "Duct three.";
    UnlinesCons(a, [b]);
    UnlinesCons(b, []);
    assert [a] + [b] == [a, b] && [b] + [] == [b];
    assert Unlines([a, b]) + c == contents;
    LinesOfUnterminated([a, b], c);
    SearchOfExampleLines(contents);
  }

  /** The filtering step of `SearchExample`, given the lines. */
  lemma SearchOfExampleLines(contents: string)
    requires Lines(contents) == ["Rust:", "safe, fast, productive.", "Duct three."]
    ensures Search("duct", contents) == ["safe, fast, productive."]
  {
    var a, b, c := "Rust:", "safe, fast, productive.", "Duct three.";
    var p := ContainsQuery("duct");
    ExampleDuctMatches();
    assert !p(a) && p(b) && !p(c);
    FilterOfThree(p, a, b, c);
  }

  /** `Filter` of three elements, written out. */
  lemma FilterOfThree<T>(p: T -> bool, a: T, b: T, c: T)
    ensures Filter(p, [a, b, c])
      == (if p(a) then [a] else []) + (if p(b) then [b] else []) + (if p(c) then [c] else [])
  {
    assert [a][..0] == [];
    assert Filter(p, [a]) == (if p(a) then [a] else []);
    assert [a, b][..1] == [a];
    assert Filter(p, [a, b]) == Filter(p, [a]) + (if p(b) then [b] else []);
    assert [a, b, c][..2] == [a, b];
  }

  /** `Filter` of four elements, written out. */
  lemma FilterOfFour<T>(p: T -> bool, a: T, b: T, c: T, d: T)
    ensures Filter(p, [a, b, c, d])
      == (if p(a) then [a] else []) + (if p(b) then [b] else [])
       + (if p(c) then [c] else []) + (if p(d) then [d] else [])
  {
    FilterOfThree(p, a, b, c);
    assert [a, b, c, d][..3] == [a, b, c];
  }

  /** `Unlines` of a line followed by more lines, written out. */
  lemma UnlinesCons(l: string, ls: seq<string>)
    ensures Unlines([l] + ls) == l + "\n" + Unlines(ls)
  {
    assert ([l] + ls)[1..] == ls;
  }

  /** Which lines of `SearchExample` contain "duct". */
  lemma ExampleDuctMatches()
    ensures !Contains("Rust:", "duct")
    ensures Contains("safe, fast, productive.", "duct")
    ensures !Contains("Duct three.", "duct")
  {
    var a, b, c := "Rust:", "safe, fast, productive.", "Duct three.";
    forall i | 0 <= i <= |a| - 4 ensures !OccursAt(a, "duct", i) {
      Mismatch(a, "duct", i, 0);
    }
    assert OccursAt(b, "duct", 15);
    forall i | 0 <= i <= |c| - 4 ensures !OccursAt(c, "duct", i) {
      Mismatch(c, "duct", i, 0);
    }
  }

  /** A case-insensitive search finds "Rust" and "Trust" for "RusT". */
  lemma SearchCaseInsensitiveExample(contents: string)
    requires contents
      == "Rust:" + "\n" + "safe, fast, productive." + "\n" + "Pick three." + "\n" + "Trust me."
    ensures SearchCaseInsensitive("RusT", contents) == ["Rust:", "Trust me."]
  {
    var a, b, c, d := "Rust:", "safe, fast, productive.", "Pick three.", "Trust me.";
    UnlinesCons(a, [b, c]);
    UnlinesCons(b, [c]);
    UnlinesCons(c, []);
    assert [a] + [b, c] == [a, b, c] && [b] + [c] == [b, c] && [c] + [] == [c];
    assert Unlines([a, b, c]) + d == contents;
    LinesOfUnterminated([a, b, c], d);
    SearchCaseInsensitiveOfExampleLines(contents);
  }

  /** The filtering step of `SearchCaseInsensitiveExample`, given the lines. */
  lemma SearchCaseInsensitiveOfExampleLines(contents: string)
    requires Lines(contents) == ["Rust:", "safe, fast, productive.", "Pick three.", "Trust me."]
    ensures SearchCaseInsensitive("RusT", contents) == ["Rust:", "Trust me."]
  {
    var a, b, c, d := "Rust:", "safe, fast, productive.", "Pick three.", "Trust me.";
    var p := ContainsQueryIgnoringCase("RusT");
    ExampleRustMatches();
    ExampleRustMisses();
    assert p(a) && !p(b) && !p(c) && p(d);
    FilterOfFour(p, a, b, c, d);
  }

  /** "Rust:" and "Trust me." contain "RUST" once upper-cased. */
  lemma ExampleRustMatches()
    ensures Contains(ToUpper("Rust:"), ToUpper("RusT"))
    ensures Contains(ToUpper("Trust me."), ToUpper("RusT"))
  {
    assert ToUpper("RusT") == "RUST";
    assert ToUpper("Rust:") == "RUST:";
    assert OccursAt("RUST:", "RUST", 0);
    assert ToUpper("Trust me.") == "TRUST ME.";
    assert OccursAt("TRUST ME.", "RUST", 1);
  }

  /** The other two lines of `SearchCaseInsensitiveExample` do not contain "RUST" once upper-cased. */
  lemma ExampleRustMisses()
    ensures !Contains(ToUpper("safe, fast, productive."), ToUpper("RusT"))
    ensures !Contains(ToUpper("Pick three."), ToUpper("RusT"))
  {
    assert ToUpper("RusT") == "RUST";
    NoRustIn("SAFE, FAST, PRODUCTIVE.");
    assert ToUpper("safe, fast, productive.") == "SAFE, FAST, PRODUCTIVE.";
    NoRustIn("PICK THREE.");
    assert ToUpper("Pick three.") == "PICK THREE.";
  }

  /** A string in which no 'R' is followed by 'U' does not contain "RUST". */
  lemma NoRustIn(s: string)
    requires forall i :: 0 <= i < |s| - 1 ==> s[i] != 'R' || s[i + 1] != 'U'
    ensures !Contains(s, "RUST")
  {
    forall i | 0 <= i <= |s| - 4 ensures !OccursAt(s, "RUST", i) {
      if s[i] != 'R' { Mismatch(s, "RUST", i, 0); } else { Mismatch(s, "RUST", i, 1); }
    }
  }
}
