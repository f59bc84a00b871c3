/** The message-length report of message_stats.py: read every commit's
    full message, strip it, and summarise the lengths by count, minimum,
    maximum, median and mean. */
module MessageStats {
  import opened Wrappers
  import opened Text
  import opened RevList
  import opened Statistics

  /** Runs `git show --no-patch --format=%B <revision>` in a repository and
      returns its decoded standard output; git itself is not modelled. */
  type ShowRunner = (string, string) -> string

  /** `get_commit_message`: the output of `git show` with surrounding
      whitespace stripped. An all-whitespace message becomes empty. */
  function CommitMessage(showOutput: string): (m: string)
    ensures m == [] || (!IsSpace(m[0]) && !IsSpace(m[|m| - 1]))
    ensures m == [] <==> AllSpace(showOutput)
  {
    StripEmptyIff(showOutput);
    Strip(showOutput)
  }

  function MessageLength(repo: string, revision: string, show: ShowRunner): nat {
    |CommitMessage(show(repo, revision))|
  }

  /** `lengths = [len(m) for m in messages]`, where `messages` visits the
      enumerated revisions in order: repository by repository in argument
      order and, within one, in rev-list order. */
  function MessageLengths(revs: seq<Revision>, show: ShowRunner): seq<int> {
    if revs == [] then []
    else [MessageLength(revs[0].repo, revs[0].id, show)] + MessageLengths(revs[1..], show)
  }

  /** The five numbers of the report. */
  datatype Stats = Stats(count: nat, min: int, max: int, median: real, mean: real)

  /** `min([])` raises before anything is printed. */
  datatype StatsError = EmptySample

  /** The `return` of `get_length_stats`: `len`, `min`, `max`,
      `statistics.median` and `statistics.mean` of the lengths. */
  function Summary(lengths: seq<int>): (r: Result<Stats, StatsError>)
    ensures r.Err? <==> lengths == []
    ensures r.Ok? ==>
      var st := r.value;
      && st.count == |lengths|
      && st.min in lengths && st.max in lengths
      && (forall i :: 0 <= i < |lengths| ==> st.min <= lengths[i] <= st.max)
      && st.min as real <= st.median <= st.max as real
      && st.min as real <= st.mean <= st.max as real
      && st.mean == Sum(lengths) as real / |lengths| as real
  {
    if lengths == [] then Err(EmptySample)
    else Ok(Stats(|lengths|, Min(lengths), Max(lengths), Median(lengths), Mean(lengths)))
  }

  /** `get_length_stats` with the git calls given as functions. The
      report fails exactly when no commit was listed in any repository.
      Otherwise it counts every listed commit, its minimum and maximum are
      the lengths of the shortest and the longest stripped message among
      them, the median lies between the two, and the mean is the average
      message length. */
  function LengthStats(repos: seq<string>, author: Option<string>, after: Option<string>,
                       revListArgs: Option<string>, revList: RevListRunner, show: ShowRunner)
    : (r: Result<Stats, StatsError>)
    ensures var revs := Revisions(repos, RevListArgv(author, after, revListArgs), revList);
      && (r.Err? <==> revs == [])
      && (r.Ok? ==> r.value.count == |revs|)
    ensures var revs := Revisions(repos, RevListArgv(author, after, revListArgs), revList);
      r.Ok? ==> CommitsSummary(revs, show, r.value)
  {
    var revs := Revisions(repos, RevListArgv(author, after, revListArgs), revList);
    MessageLengthsPerCommit(revs, show);
    SummaryOfCommits(revs, show);
    Summary(MessageLengths(revs, show))
  }

  /** What the report says about the commits `revs`: the minimum and the
      maximum bound every commit's message length and are each the length
      of some commit's message, the median lies between them, and the mean
      is the sum of the lengths over the number of commits. */
  predicate CommitsSummary(revs: seq<Revision>, show: ShowRunner, st: Stats) {
    && (forall k :: 0 <= k < |revs| ==> st.min <= MessageLength(revs[k].repo, revs[k].id, show) <= st.max)
    && (exists k :: 0 <= k < |revs| && st.min == MessageLength(revs[k].repo, revs[k].id, show))
    && (exists k :: 0 <= k < |revs| && st.max == MessageLength(revs[k].repo, revs[k].id, show))
    && st.min as real <= st.median <= st.max as real
    && st.mean == Sum(MessageLengths(revs, show)) as real / |revs| as real
  }

  // ---------------------------------------------------------------------

  /** The summary of the commits' message lengths describes the commits. */
  lemma SummaryOfCommits(revs: seq<Revision>, show: ShowRunner)
    ensures var r := Summary(MessageLengths(revs, show));
      r.Ok? ==> CommitsSummary(revs, show, r.value)
  {
    var lengths := MessageLengths(revs, show);
    MessageLengthsPerCommit(revs, show);
    if lengths != [] {
      var st := Summary(lengths).value;
      var j :| 0 <= j < |lengths| && lengths[j] == st.min;
      var l :| 0 <= l < |lengths| && lengths[l] == st.max;
      assert st.min == MessageLength(revs[j].repo, revs[j].id, show);
      assert st.max == MessageLength(revs[l].repo, revs[l].id, show);
    }
  }

  /** There is one length per enumerated commit, in enumeration order, and
      each is the length of that commit's stripped message. */
  lemma MessageLengthsPerCommit(revs: seq<Revision>, show: ShowRunner)
    ensures var lengths := MessageLengths(revs, show);
      && |lengths| == |revs|
      && forall k :: 0 <= k < |lengths| ==> lengths[k] == MessageLength(revs[k].repo, revs[k].id, show)
  {
    LengthsCount(revs, show);
    forall k | 0 <= k < |revs|
      ensures MessageLengths(revs, show)[k] == MessageLength(revs[k].repo, revs[k].id, show)
    {
      LengthAt(revs, show, k);
    }
  }

  lemma {:induction false} LengthsCount(revs: seq<Revision>, show: ShowRunner)
    ensures |MessageLengths(revs, show)| == |revs|
  {
    if revs != [] { LengthsCount(revs[1..], show); }
  }

  lemma {:induction false} LengthAt(revs: seq<Revision>, show: ShowRunner, k: nat)
    requires k < |revs|
    ensures |MessageLengths(revs, show)| == |revs|
    ensures MessageLengths(revs, show)[k] == MessageLength(revs[k].repo, revs[k].id, show)
  {
    LengthsCount(revs, show);
    if k > 0 {
      LengthAt(revs[1..], show, k - 1);
    }
  }

  /** Repositories contribute in argument order: the lengths for the
      repositories `a + b` are those for `a` followed by those for `b`. */
  lemma MessageLengthsAppend(a: seq<string>, b: seq<string>, argv: seq<string>, revList: RevListRunner, show: ShowRunner)
    ensures MessageLengths(Revisions(a + b, argv, revList), show)
         == MessageLengths(Revisions(a, argv, revList), show) + MessageLengths(Revisions(b, argv, revList), show)
  {
    RevisionsAppend(a, b, argv, revList);
    LengthsAppend(Revisions(a, argv, revList), Revisions(b, argv, revList), show);
  }

  lemma {:induction false} LengthsAppend(a: seq<Revision>, b: seq<Revision>, show: ShowRunner)
    ensures MessageLengths(a + b, show) == MessageLengths(a, show) + MessageLengths(b, show)
  {
    if a == [] {
      assert a + b == b;
    } else {
      assert (a + b)[1..] == a[1..] + b;
      LengthsAppend(a[1..], b, show);
    }
  }

  /** The report does not depend on the order the lengths come in. */
  lemma SummaryOrderFree(a: seq<int>, b: seq<int>)
    requires multiset(a) == multiset(b)
    ensures Summary(a) == Summary(b)
  {
    if a != [] {
      StatisticsOrderFree(a, b);
    } else {
      assert |b| == |multiset(b)| == 0;
    }
  }

  /** Lengths 1, 3, 5, 7: count 4, min 1, max 7, median (3 + 5) / 2 = 4,
      mean 16 / 4 = 4. */
  lemma SummaryFourExample()
    ensures Summary([1, 3, 5, 7]) == Ok(Stats(4, 1, 7, 4.0, 4.0))
  {
    FourMean();
    FourExtremes();
    FourMedian();
  }

  lemma FourMean()
    ensures Mean([1, 3, 5, 7]) == 4.0
  {
    var s := [1, 3, 5, 7];
    assert s[1..] == [3, 5, 7];
    assert s[1..][1..] == [5, 7];
    assert s[1..][1..][1..] == [7];
    assert s[1..][1..][1..][1..] == [];
    assert Sum(s) == 16;
  }

  lemma FourExtremes()
    ensures Min([1, 3, 5, 7]) == 1 && Max([1, 3, 5, 7]) == 7
  {
    var s := [1, 3, 5, 7];
    assert Min(s) <= s[0] && Max(s) >= s[3];
    assert Min(s) in s && Max(s) in s;
  }

  lemma FourMedian()
    ensures Median([1, 3, 5, 7]) == 4.0
  {
    MedianOfSorted([1, 3, 5, 7]);
    FourMiddle();
  }

  lemma FourMiddle()
    ensures Middle([1, 3, 5, 7]) == 4.0
  {
  }


  /** A single length 5: every statistic is 5. */
  lemma SummaryOneExample()
    ensures Summary([5]) == Ok(Stats(1, 5, 5, 5.0, 5.0))
  {
    var s := [5];
    assert Sort(s) == s;
    assert Median(s) == Middle(s);
    assert s[1..] == [];
  }
}
