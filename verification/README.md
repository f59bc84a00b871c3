# Commit-message statistics and touched-file entropy

Two small command-line tools read a set of git repositories.

- `message_stats.py` lists each repository's commits with `git rev-list`, filtered by author, date and extra arguments. It reads each commit's full message with `git show`, strips it, and reports the count, minimum, maximum, median and mean of the message lengths.
- `entropy.py` lists the same commits. For each one, `git diff-tree` gives the files it changed. The tool counts how often each (repository, file) pair was touched, divides every count by the total, and feeds the resulting distribution to an entropy formula.

This Dafny project models the logic between git's text output and the numbers the tools report:

- `RevList` builds the `git rev-list` command line and reads commit identifiers back from its output. The function is written identically in both tools, so it is modelled once.
- `Text` covers the Python string operations applied to that output.
- `Statistics` covers `min`, `max`, `statistics.median` and `statistics.mean`.
- `MessageStats` covers the length report.
- `Entropy` covers the tally and its normalisation.

Each git invocation becomes a function parameter from its arguments to the decoded standard output. Examples are `revList(repo, argv)`, `show(repo, revision)` and `diffTree(repo, revision)`. Every statement is therefore proved for every possible git behaviour.

Python's truthiness of `Optional[str]` filters is modelled as `Given`. `None` and the command-line default `""` both mean "not given". Whitespace for `split()` and `strip()` is Python's `str.isspace()`, written out by code point in `Text.IsSpace`.

Median and mean are exact `real` values. For integer lengths, Python's values agree with them except in one case. `statistics.median` of an odd count returns the middle element itself, an `int`. For an even count it returns `(a + b) / 2`, a float that is exact for integer lengths. `statistics.mean` returns an `int` when the mean is a whole number. Only a mean that is not a whole number is rounded to a float.

The `Counter` is modelled as a sequence of `(key, count)` entries in order of first insertion, which is how a Python dict iterates. That order fixes the order of `values()` and so the order of the probability sequence. `Entropy.TallyOrderFree` and `Entropy.ProbabilitiesOrderFree` then show that only the multiset of entries matters. `Entropy.Lookup` plays the role of `counter[key]`.

When no commit is listed, `get_length_stats` has no special "no commits" result. `min([])` raises `ValueError` before anything is printed. The model returns `Err(EmptySample)` exactly when the length list is empty.

## Model

| member | source | states |
|---|---|---|
| RevList.BuildRevListArgv | message_stats.py:17-25 | building the argument list step by step (author flag, after flag, extra tokens, under their `if`s) gives exactly `["git", "rev-list"] + options + tokens + ["HEAD"]`; the same lines are entropy.py:22-30 |
| RevList.GetCommitsList | message_stats.py:11-29 | the commits returned are the lines of what `git rev-list` prints for the argv built from the filters, run in the given repository; identical to entropy.py:16-34 |
| RevList.CommitsList | message_stats.py:29 | every commit identifier read back is non-empty and holds no newline |
| RevList.FilterOptions | message_stats.py:18-21 | the filter options; `RevList.FilterOptionsIff` states which ones appear and in what order |
| RevList.ExtraArgs | message_stats.py:22-23 | the extra arguments; `RevList.ExtraArgsTokens` states that they are the whitespace tokens of the string |
| RevList.RevListArgv | message_stats.py:17-25 | the whole command line; `RevList.ArgvLayout` states its layout and `RevList.ArgvNoEmpty` that no element is empty |
| RevList.ArgvLayout | message_stats.py:17-25 | the argv has length 3 + options + tokens, starts with `git rev-list`, ends with `HEAD`, and has the filter options right after `rev-list` followed by the extra tokens in order |
| RevList.FilterOptionsIff | message_stats.py:18-21 | an `--author=` option is present iff the author is given (not None and not `""`), likewise `--after=`; the author flag comes first, the after flag last; the number of options is the number of filters given |
| RevList.ExtraArgsTokens | message_stats.py:22-23 | the extra tokens are the non-empty whitespace-separated pieces of the string in order; none is empty or holds whitespace; there are none iff the string is absent or all whitespace |
| RevList.ArgvNoEmpty | message_stats.py:17-25 | no element of the command line is the empty string |
| RevList.ArgvExample | message_stats.py:17-25 | author `alice`, after `""` (the command-line default), extra `-n 5` give `git rev-list --author=alice -n 5 HEAD` |
| RevList.ExampleTokens | message_stats.py:22-23 | the extra-argument string `-n 5` gives the tokens `-n` and `5` |
| RevList.ExampleOptions | message_stats.py:18-21 | author `alice` with after `""` gives only the option `--author=alice` |
| RevList.TwoWords | message_stats.py:23 | two whitespace-free words with one space between them split into exactly those two words |
| RevList.SingleToken | message_stats.py:23 | a non-empty word without whitespace splits to just itself |
| RevList.RepoRevisions | message_stats.py:49-50 | one revision per listed commit, in rev-list order, each tagged with its repository |
| RevList.Revisions | message_stats.py:49-50 | every enumerated revision belongs to one of the given repositories and has a non-empty identifier |
| RevList.RevisionsAppend | message_stats.py:49-50 | repositories are visited in argument order: the enumeration over `a + b` is that over `a` followed by that over `b` |
| Text.Split | message_stats.py:29 | `split` gives at least one piece (`"".split("\n") == [""]`) and no piece contains a separator |
| Text.SplitNoSeparator | message_stats.py:29 | a text without separators is a single piece |
| Text.SplitAtSeparator | message_stats.py:29 | splitting `a + sep + b` gives the pieces of `a` followed by those of `b` |
| Text.SplitAtFirst | message_stats.py:29 | the first piece runs up to the first separator |
| Text.JoinSplit | message_stats.py:29 | joining the pieces with `"\n"` gives back the text, so splitting loses nothing |
| Text.SplitJoin | message_stats.py:29 | splitting the newline-join of newline-free pieces gives back the pieces |
| Text.NonEmpty | message_stats.py:29 | `filter(None, ...)` keeps no empty piece, and a string occurs in the result iff it is a non-empty piece of the input |
| Text.NonEmptyAppend | message_stats.py:29 | the filter distributes over concatenation, keeping order |
| Text.NonEmptyKeepsNonEmpty | message_stats.py:29 | pieces that are all non-empty pass the filter unchanged |
| Text.Lines | message_stats.py:29 | every line read is non-empty and holds no newline |
| Text.LinesAppend | message_stats.py:29 | the lines of `a + "\n" + b` are the lines of `a` followed by those of `b` |
| Text.TrailingNewline | message_stats.py:29 | a trailing newline adds no line |
| Text.LinesOfEmpty | message_stats.py:29 | empty output has no lines |
| Text.LinesOfJoin | message_stats.py:29 | the newline-join of non-empty, newline-free lines reads back as exactly those lines in order |
| Text.LinesEmptyIff | message_stats.py:29 | there are no lines iff the output is made of newlines only |
| Text.WordLen | message_stats.py:23 | the leading word is whitespace-free and is ended by whitespace or by the end of the text |
| Text.Tokens | message_stats.py:23 | every token of `split()` is non-empty and whitespace-free |
| Text.TokensAsSplit | message_stats.py:23 | `split()` equals splitting at every whitespace character and dropping the empty pieces |
| Text.TokensAppend | message_stats.py:23 | whitespace between two texts separates their tokens |
| Text.TokensEmptyIff | message_stats.py:23 | a text has no tokens iff it is all whitespace |
| Text.StripLeft | message_stats.py:38 | the result is no longer than the input and does not start with whitespace, and only whitespace was removed from the front |
| Text.StripRight | message_stats.py:38 | the result is no longer than the input and does not end with whitespace, and only whitespace was removed from the back |
| Text.StripLeftSuffix | message_stats.py:38 | what `lstrip()` keeps is a suffix of the text |
| Text.StripRightPrefix | message_stats.py:38 | what `rstrip()` keeps is a prefix of the text |
| Text.Strip | message_stats.py:38 | the stripped text neither starts nor ends with whitespace and is no longer than the input |
| Text.StripIsTrim | message_stats.py:38 | `strip()` is determined uniquely: for any split of `s` into whitespace, a core that is empty or starts and ends with non-whitespace, and whitespace, it returns that core |
| Text.StripIdempotent | message_stats.py:38 | stripping twice is the same as stripping once |
| Text.StripEmptyIff | message_stats.py:38 | a text strips to nothing iff it is all whitespace |
| Statistics.Min | message_stats.py:55 | `min` is an element of the list and no larger than any element |
| Statistics.Max | message_stats.py:56 | `max` is an element of the list and no smaller than any element |
| Statistics.Insert | message_stats.py:57 | inserting into an ascending list keeps it ascending and adds exactly that element |
| Statistics.ConsSorted | message_stats.py:57 | putting a value no larger than the head in front of an ascending list keeps it ascending |
| Statistics.Sort | message_stats.py:57 | the sorted list is ascending and a permutation of the input |
| Statistics.SortedUnique | message_stats.py:57 | two ascending lists with the same elements are equal, so sorting is unique |
| Statistics.SortSorted | message_stats.py:57 | an ascending list sorts to itself |
| Statistics.SortOrderFree | message_stats.py:57 | reordering the input does not change the sorted list |
| Statistics.Median | message_stats.py:57 | the median lies between the minimum and the maximum |
| Statistics.MedianOfSorted | message_stats.py:57 | the median of an ascending list is its middle element, or the average of its two middle elements |
| Statistics.MedianRank | message_stats.py:57 | for an odd count the median is the sorted list's middle element, with at most half of the values strictly below it and at most half strictly above |
| Statistics.MedianEven | message_stats.py:57 | for an even, non-zero count the median is the average of the two middle values `lo <= hi` of the sorted sample |
| Statistics.RankEven | message_stats.py:57 | for an even count, fewer than half of the values lie below the lower middle value and fewer than half above the upper one |
| Statistics.MiddleEven | message_stats.py:57 | the middle of an ascending list of even length `2h` is the average of its elements `h - 1` and `h`, the first no larger than the second |
| Statistics.Mean | message_stats.py:58 | the mean lies between the minimum and the maximum |
| Statistics.MeanFacts | message_stats.py:58 | sum divided by count lies between the minimum and the maximum |
| Statistics.SumBounds | message_stats.py:58 | the sum of `n` values lies between `n` times their minimum and `n` times their maximum |
| Statistics.SumAppend | message_stats.py:58 | the sum of a concatenation is the sum of the sums |
| Statistics.SumOrderFree | message_stats.py:58 | the sum depends only on the multiset of values |
| Statistics.StatisticsOrderFree | message_stats.py:55-58 | min, max, median and mean depend only on the multiset of values |
| MessageStats.CommitMessage | message_stats.py:38 | a collected message has no leading or trailing whitespace, and it is empty iff `git show` printed only whitespace |
| MessageStats.MessageLength | message_stats.py:52 | `len(m)` of one stripped message; `MessageStats.MessageLengthsPerCommit` states which message each length measures |
| MessageStats.MessageLengths | message_stats.py:47-52 | the list of lengths; `MessageStats.MessageLengthsPerCommit` states one length per enumerated revision, in order, and `MessageStats.MessageLengthsAppend` that repositories contribute in argument order |
| MessageStats.Summary | message_stats.py:53-59 | the report fails iff there are no lengths; otherwise count is the number of lengths, min and max are attained and bound every length, median and mean lie between them, and mean is sum / count |
| MessageStats.MessageLengthsPerCommit | message_stats.py:47-52 | there is one length per enumerated revision, in enumeration order, each the stripped length of that revision's message |
| MessageStats.LengthsCount | message_stats.py:52 | there are as many lengths as revisions |
| MessageStats.LengthAt | message_stats.py:47-52 | the k-th length is the stripped length of the k-th revision's message |
| MessageStats.LengthsAppend | message_stats.py:47-52 | the lengths of concatenated revision lists are the concatenated lengths |
| MessageStats.MessageLengthsAppend | message_stats.py:47-52 | repositories contribute their lengths in argument order: the lengths for repositories `a + b` are those for `a` followed by those for `b` |
| MessageStats.LengthStats | message_stats.py:41-59 | the report fails iff no commit was listed in any repository; otherwise the count is the total number of commits over all repositories, min and max bound every commit's stripped message length and are each some commit's length, the median lies between them, and the mean is the sum of the lengths over the number of commits; the median's exact value is `Statistics.MedianRank` and `Statistics.MedianEven` applied to the lengths |
| MessageStats.SummaryOfCommits | message_stats.py:47-59 | the summary of the commits' lengths has min and max bounding and attained by commits' message lengths, the median between them, and the mean as the average length |
| MessageStats.SummaryOrderFree | message_stats.py:53-59 | the report does not depend on the order of the lengths |
| MessageStats.SummaryFourExample | message_stats.py:53-59 | lengths 1, 3, 5, 7 give count 4, min 1, max 7, median 4 and mean 4 |
| MessageStats.SummaryOneExample | message_stats.py:53-59 | a single length 5 gives 5 for every statistic |
| Entropy.ChangedFiles | entropy.py:37-43 | every changed file read from `git diff-tree` is non-empty and holds no newline |
| Entropy.RevisionTouchesShape | entropy.py:54-56 | one (repo, revision, file) triple per changed file of a revision, in order |
| Entropy.KeysAppend | entropy.py:52-57 | the keys of concatenated triples are the concatenated keys |
| Entropy.KeysLength | entropy.py:52-57 | there is one key per triple |
| Entropy.TouchesCount | entropy.py:52-58 | the number of triples is the sum of the per-revision changed-file counts |
| Entropy.TouchesEmptyIff | entropy.py:52-60 | there are no triples iff no enumerated revision changed a file, including when no revision was listed |
| Entropy.Bump | entropy.py:52-57 | `counter[k] += 1` keeps every existing key in its place and adds at most one entry, `(k, 1)`, at the end |
| Entropy.BumpLookup | entropy.py:52-57 | the count of `k` goes up by one and no other count changes |
| Entropy.BumpTotal | entropy.py:52-58 | the sum of the counts goes up by one |
| Entropy.BumpKeys | entropy.py:52-57 | `k` becomes a key, and the counter grows by an entry iff `k` was not yet a key |
| Entropy.BumpCounts | entropy.py:52-57 | all counts stay positive |
| Entropy.BumpDistinct | entropy.py:52-57 | bumping keeps every key in the counter once |
| Entropy.BumpWellFormed | entropy.py:52-57 | every key stays present once, with a positive count |
| Entropy.KeyInKeySet | entropy.py:52-57 | every entry's key is a key of the counter |
| Entropy.KeySetHas | entropy.py:52-57 | every key of the counter has an entry |
| Entropy.TallyCounts | entropy.py:52-58 | `Counter(keys)` maps every key to its number of occurrences; its keys are exactly those counted, each once with a count of at least 1; the counts add up to the number of keys |
| Entropy.KeysMultiset | entropy.py:52-57 | the number of occurrences of a key is the number of triples with that repository and file |
| Entropy.TallyCountsTouches | entropy.py:52-57 | each key counts the triples with its repository and file, whatever the revision, so one relative path under two different repository strings gives two separate counts (two strings, not necessarily two directories: see `os.path` under Left out); a key is present iff it was touched at least once |
| Entropy.FileTally | entropy.py:52-58 | the tally of `get_entropy` holds each key once with a positive count; the count of every (repository, file) key is the number of triples with that repository and file, a key is present iff it was touched, and the total is the number of (repository, revision, file) triples |
| Entropy.TallyLookupAll | entropy.py:52-57 | for every (repository, file) key at once: its count is its number of triples, and it is present iff touched |
| Entropy.Tally | entropy.py:52-57 | `Counter(keys)`; `Entropy.TallyCounts` states what it counts and `Entropy.TallyOrderFree` that order does not matter |
| Entropy.Touches | entropy.py:54-56 | the triples of the generator; `Entropy.TouchesCount`, `Entropy.TouchesEmptyIff` and `Entropy.RevisionTouchesShape` state how many there are and in what order |
| Entropy.Keys | entropy.py:53 | one key per triple; `Entropy.KeysLength` and `Entropy.KeysMultiset` state its length and its occurrences |
| Entropy.Total | entropy.py:58 | `sum(counter.values())`; `Entropy.TallyCounts`, `Entropy.BumpTotal` and `Entropy.CountAtMostTotal` state its value and bounds |
| Entropy.Lookup | entropy.py:52-57 | `counter[key]`; `Entropy.BumpLookup`, `Entropy.LookupEntry` and `Entropy.TallyCounts` state its value |
| Entropy.Normalise | entropy.py:61 | there is one normalised value per counter entry |
| Entropy.NormaliseAt | entropy.py:61 | the i-th value is the i-th count divided by the total |
| Entropy.NormaliseSum | entropy.py:61 | the normalised values add up to the sum of the counts divided by the total |
| Entropy.CountAtMostTotal | entropy.py:58 | no count exceeds the total |
| Entropy.DivisionInUnit | entropy.py:61 | a count between 1 and the total, divided by the total, lies in (0, 1] |
| Entropy.NormaliseBounds | entropy.py:61 | each positive count divided by the total lies in (0, 1] |
| Entropy.NormaliseDistribution | entropy.py:61 | positive counts divided by their total lie in (0, 1] and add up to 1 |
| Entropy.NormaliseTouches | entropy.py:61 | for a tally whose lookups count triples, each entry's value is its key's number of triples over the number of triples |
| Entropy.NoTouchesIff | entropy.py:52-59 | the number of triples is 0 exactly when no enumerated revision changed a file |
| Entropy.Probabilities | entropy.py:46-61 | the error is raised iff no enumerated revision changed a file (or none was listed); otherwise there is one probability per distinct (repository, file) key, the i-th being that key's number of triples divided by the number of all triples (`v / total`), each in (0, 1], and together they sum to 1 |
| Entropy.LookupEntry | entropy.py:52-57 | with distinct keys, looking up an entry's key gives its count |
| Entropy.SameEntry | entropy.py:52-57 | two counters with distinct keys that agree on every lookup and on the keys present hold the same entries |
| Entropy.DistinctMultiset | entropy.py:52-57 | a sequence without repeats holds each of its elements once |
| Entropy.TallyOrderFree | entropy.py:52-58 | the tally depends only on the multiset of keys: reordering repositories, commits or files yields the same entries, at most in another order, and the same total |
| Entropy.NormaliseAppend | entropy.py:61 | normalising a concatenation concatenates the normalised parts |
| Entropy.NormaliseOrderFree | entropy.py:61 | reordering the entries only reorders the normalised values |
| Entropy.ProbabilitiesOrderFree | entropy.py:52-61 | the total and the multiset of probabilities depend only on the multiset of (repository, file) keys of the triples |

## Left out

- `subprocess.run` and git itself: which commits `git rev-list` lists, how it matches author and date, and what `git show --format=%B` and `git diff-tree` print. They are external processes, so each becomes a function parameter returning its standard output.
- UTF-8 decoding of process output is library behaviour. Output is taken as already-decoded text, a sequence of code points.
- `os.path.abspath` and `os.path.join` depend on the file system and the working directory. The key is the pair `FileKey(repo, file)` of the repository string as given and the relative path, and the working directory of each git call is the repository argument as given. Python's key is the joined absolute path, so it merges counts that the model keeps apart: `repo` and `repo/`, a relative and an absolute spelling of one directory, and nested repositories (`/x` with `sub/f` and `/x/sub` with `f`). `Entropy.TallyCountsTouches` and `Entropy.Probabilities` hold for distinct repository strings, not distinct directories.
- `subprocess.run` is called without `check=True` (message_stats.py:24-28, 33-37; entropy.py:29-33, 38-42), so a failing git call is not an error. The runners return standard output only, so an existing directory that is not a repository contributes whatever git printed there, normally nothing, and no commits.
- A repository path that does not exist or is not a directory is a dropped error path. There `subprocess.run(..., cwd=os.path.abspath(repo_path))` raises `FileNotFoundError` or `NotADirectoryError` before git starts (message_stats.py:24-28, 33-37; entropy.py:29-33, 38-42), and the tool fails. In the model the runner still returns a string, so such a path contributes no commits, and the report can succeed.
- `compute_entropy` (entropy.py:12-13) uses floating-point `log2`, which has no exact counterpart. The model stops at the probability sequence handed to it, `Entropy.Probabilities`.
- Entropy.Normalise: `v / total` is exact real division, while Python rounds each quotient to a float. `RealSum(...) == 1.0` in `Entropy.Probabilities` and `Entropy.NormaliseDistribution` holds for the exact values; the rounded floats may sum to a value that differs slightly from 1.
- Statistics.Mean: a mean that is not a whole number is rounded by Python to the nearest float, while the model keeps the exact rational. The median and a whole-number mean need no rounding for integer lengths. The `int`/`float` distinction between Python's results and the `{:7.2f}`/`{:4d}` report formatting are not modelled.
- The argparse handling and the `__main__` blocks (message_stats.py:62-88, entropy.py:64-84) are left out, apart from the `""` defaults of the filters, which `Given` treats as "not given".
- Python's iterator laziness (generators and `filter` objects) is not modelled; sequences are built whole, which gives the same values in the same order.
- `RuntimeError` and `ValueError` are modelled as `Err` results rather than exceptions.
