/** `get_commits_list`, written identically in both tools: the argument
    vector handed to `git rev-list`, and the commit identifiers read back
    from its output. */
module RevList {
  import opened Wrappers
  import opened Text

  /** Runs `git rev-list` in a repository with the given argument vector
      and returns its decoded standard output; git itself is not modelled. */
  type RevListRunner = (string, seq<string>) -> string

  /** Python truthiness of an `Optional[str]` filter: `None` and the empty
      string (the command-line default) both mean "not given". */
  predicate Given(arg: Option<string>) {
    arg.Some? && arg.value != ""
  }

  function AuthorFlag(author: string): string {
    "--author=" + author
  }

  function AfterFlag(after: string): string {
    "--after=" + after
  }

  /** The filter options, in the order they are appended. */
  function FilterOptions(author: Option<string>, after: Option<string>): seq<string> {
    (if Given(author) then [AuthorFlag(author.value)] else []) +
    (if Given(after) then [AfterFlag(after.value)] else [])
  }

  /** The extra arguments: the whitespace tokens of the string, if given. */
  function ExtraArgs(revListArgs: Option<string>): seq<string> {
    if Given(revListArgs) then Tokens(revListArgs.value) else []
  }

  /** The command line `["git", "rev-list"] + args + ["HEAD"]`. */
  function RevListArgv(author: Option<string>, after: Option<string>, revListArgs: Option<string>): seq<string> {
    ["git", "rev-list"] + FilterOptions(author, after) + ExtraArgs(revListArgs) + ["HEAD"]
  }

  /** The argument list as the source builds it: start empty, append the
      author flag, append the after flag, extend with the extra tokens. */
  method BuildRevListArgv(author: Option<string>, after: Option<string>, revListArgs: Option<string>)
    returns (argv: seq<string>)
    ensures argv == RevListArgv(author, after, revListArgs)
  {
    var args: seq<string> := [];
    if Given(author) {
      args := args + [AuthorFlag(author.value)];
    }
    if Given(after) {
      args := args + [AfterFlag(after.value)];
    }
    if Given(revListArgs) {
      args := args + Tokens(revListArgs.value);
    }
    argv := ["git", "rev-list"] + args + ["HEAD"];
  }

  /** The commit identifiers in the output of `git rev-list`. */
  function CommitsList(revListOutput: string): (commits: seq<string>)
    ensures forall i :: 0 <= i < |commits| ==> commits[i] != [] && NoneOf(commits[i], IsNewline)
  {
    Lines(revListOutput)
  }

  /** `get_commits_list` as a whole: build the command line, run it in the
      repository, keep the non-empty output lines. */
  method GetCommitsList(repo: string, author: Option<string>, after: Option<string>,
                        revListArgs: Option<string>, revList: RevListRunner)
    returns (commits: seq<string>)
    ensures commits == CommitsList(revList(repo, RevListArgv(author, after, revListArgs)))
  {
    var argv := BuildRevListArgv(author, after, revListArgs);
    var output := revList(repo, argv);
    commits := CommitsList(output);
  }

  /** A commit identifier together with the repository it was listed in. */
  datatype Revision = Revision(repo: string, id: string)

  /** The commits of one repository, tagged with that repository. */
  function RepoRevisions(repo: string, commits: seq<string>): (r: seq<Revision>)
    ensures |r| == |commits|
    ensures forall k :: 0 <= k < |r| ==> r[k] == Revision(repo, commits[k])
  {
    if commits == [] then [] else [Revision(repo, commits[0])] + RepoRevisions(repo, commits[1..])
  }

  /** What the nested loop `for repo in repo_paths for revision in
      get_commits_list(repo, ...)` visits: each repository in argument
      order, and within it each listed commit in rev-list order. */
  function Revisions(repos: seq<string>, argv: seq<string>, revList: RevListRunner): (r: seq<Revision>)
    ensures forall k :: 0 <= k < |r| ==> r[k].repo in repos && r[k].id != []
  {
    if repos == [] then []
    else
      var here := RepoRevisions(repos[0], CommitsList(revList(repos[0], argv)));
      var rest := Revisions(repos[1..], argv, revList);
      assert forall k :: 0 <= k < |rest| ==> rest[k].repo in repos;
      here + rest
  }

  /** The enumeration over `a + b` is that over `a` followed by that over
      `b`: no repository's commits are merged with or dropped for another's. */
  lemma {:induction false} RevisionsAppend(a: seq<string>, b: seq<string>, argv: seq<string>, revList: RevListRunner)
    ensures Revisions(a + b, argv, revList) == Revisions(a, argv, revList) + Revisions(b, argv, revList)
  {
    if a == [] {
      assert a + b == b;
    } else {
      assert (a + b)[0] == a[0];
      assert (a + b)[1..] == a[1..] + b;
      RevisionsAppend(a[1..], b, argv, revList);
    }
  }

  // ---------------------------------------------------------------------
  // What the command line looks like

  /** The fixed frame: `git rev-list` first, `HEAD` last, the filter
      options right after `rev-list`, then the extra tokens in order. */
  lemma ArgvLayout(author: Option<string>, after: Option<string>, revListArgs: Option<string>)
    ensures var argv := RevListArgv(author, after, revListArgs);
      var n := |FilterOptions(author, after)|;
      && |argv| == 3 + n + |ExtraArgs(revListArgs)|
      && argv[..2] == ["git", "rev-list"]
      && argv[|argv| - 1] == "HEAD"
      && argv[2..2 + n] == FilterOptions(author, after)
      && argv[2 + n..|argv| - 1] == ExtraArgs(revListArgs)
  {
    var argv := RevListArgv(author, after, revListArgs);
    var opts := FilterOptions(author, after);
    var extra := ExtraArgs(revListArgs);
    assert argv == ["git", "rev-list"] + opts + extra + ["HEAD"];
    assert argv[2..2 + |opts|] == opts;
    assert argv[2 + |opts|..|argv| - 1] == extra;
  }

  /** The author flag is the first filter option when an author is given
      and absent when it is not; the after flag follows it when a date is
      given. Nothing else appears among the filter options. */
  lemma FilterOptionsIff(author: Option<string>, after: Option<string>)
    ensures var opts := FilterOptions(author, after);
      && |opts| == (if Given(author) then 1 else 0) + (if Given(after) then 1 else 0)
      && (Given(author) <==> exists x :: x in opts && IsAuthorFlag(x))
      && (Given(after) <==> exists x :: x in opts && IsAfterFlag(x))
      && (Given(author) ==> opts[0] == AuthorFlag(author.value))
      && (Given(after) ==> opts[|opts| - 1] == AfterFlag(after.value))
  {
    var opts := FilterOptions(author, after);
    forall x | x in opts ensures IsAuthorFlag(x) <==> Given(author) && x == AuthorFlag(author.value) {
      if Given(after) && x == AfterFlag(after.value) {
        assert x[3] == 'f';
      }
    }
    forall x | x in opts ensures IsAfterFlag(x) <==> Given(after) && x == AfterFlag(after.value) {
      if Given(author) && x == AuthorFlag(author.value) {
        assert x[3] == 'u';
      }
    }
    if Given(author) {
      assert IsAuthorFlag(AuthorFlag(author.value));
    }
    if Given(after) {
      assert IsAfterFlag(AfterFlag(after.value));
    }
  }

  predicate IsAuthorFlag(x: string) {
    |x| >= 9 && x[..9] == "--author="
  }

  predicate IsAfterFlag(x: string) {
    |x| >= 8 && x[..8] == "--after="
  }

  /** An extra-argument string that is only whitespace contributes nothing,
      exactly as one that is not given; otherwise its tokens are appended
      in order, none of them empty or holding whitespace. */
  lemma ExtraArgsTokens(revListArgs: Option<string>)
    ensures var extra := ExtraArgs(revListArgs);
      && (extra == [] <==> !revListArgs.Some? || AllSpace(revListArgs.value))
      && (revListArgs.Some? ==> extra == NonEmpty(Split(revListArgs.value, IsSpace)))
      && (forall i :: 0 <= i < |extra| ==> extra[i] != [] && NoneOf(extra[i], IsSpace))
  {
    if revListArgs.Some? {
      TokensEmptyIff(revListArgs.value);
      TokensAsSplit(revListArgs.value);
      if revListArgs.value == "" {
        assert Split("", IsSpace) == [""];
        assert NonEmpty([""]) == NonEmpty([]);
      }
    }
  }

  /** No element of the command line is an empty string. */
  lemma ArgvNoEmpty(author: Option<string>, after: Option<string>, revListArgs: Option<string>)
    ensures var argv := RevListArgv(author, after, revListArgs);
      forall i :: 0 <= i < |argv| ==> argv[i] != []
  {
    var argv := RevListArgv(author, after, revListArgs);
    var opts := FilterOptions(author, after);
    var extra := ExtraArgs(revListArgs);
    forall i | 0 <= i < |argv| ensures argv[i] != [] {
      if 2 <= i < 2 + |opts| {
        assert argv[i] == opts[i - 2];
      } else if 2 + |opts| <= i < |argv| - 1 {
        assert argv[i] == extra[i - 2 - |opts|];
      }
    }
  }

  /** An example: author and extra arguments given, the date left at the
      command-line default `""`. */
  lemma ArgvExample()
    ensures RevListArgv(Some("alice"), Some(""), Some("-n 5"))
         == ["git", "rev-list", "--author=alice", "-n", "5", "HEAD"]
  {
    ExampleTokens();
    ExampleOptions();
  }

  lemma ExampleTokens()
    ensures ExtraArgs(Some("-n 5")) == ["-n", "5"]
  {
    assert "-n 5" == "-n" + " " + "5";
    TwoWords("-n", "5");
  }

  /** Two words with one space between them split into those two words. */
  lemma TwoWords(a: string, b: string)
    requires a != [] && NoneOf(a, IsSpace)
    requires b != [] && NoneOf(b, IsSpace)
    ensures Tokens(a + " " + b) == [a, b]
  {
    assert a + " " + b == a + [' '] + b;
    TokensAppend(a, ' ', b);
    SingleToken(a);
    SingleToken(b);
  }

  lemma ExampleOptions()
    ensures FilterOptions(Some("alice"), Some("")) == ["--author=alice"]
  {
    assert !Given(Some(""));
    assert AuthorFlag("alice") == "--author=alice";
  }

  lemma SingleToken(w: string)
    requires w != [] && NoneOf(w, IsSpace)
    ensures Tokens(w) == [w]
  {
    TokensAsSplit(w);
    SplitNoSeparator(w, IsSpace);
    NonEmptyKeepsNonEmpty([w]);
  }
}
