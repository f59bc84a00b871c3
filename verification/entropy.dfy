/** The touched-file distribution of entropy.py: every (repository,
    revision, file) triple from `git diff-tree`, tallied by (repository,
    file) with a `Counter`, and the tally normalised by its total. The
    entropy formula applied to the result is not part of this model. */
module Entropy {
  import opened Wrappers
  import opened Text
  import opened RevList
  import Statistics

  /** Runs `git diff-tree --no-commit-id --name-only -r <revision>` in a
      repository and returns its decoded standard output; git itself is
      not modelled. */
  type DiffTreeRunner = (string, string) -> string

  /** `get_changed_files`: the non-empty lines of the diff-tree output. */
  function ChangedFiles(diffTreeOutput: string): (files: seq<string>)
    ensures forall i :: 0 <= i < |files| ==> files[i] != [] && NoneOf(files[i], IsNewline)
  {
    Lines(diffTreeOutput)
  }

  /** One file touched by one revision of one repository. */
  datatype Touch = Touch(repo: string, revision: string, file: string)

  /** The tally key, standing for `os.path.join(os.path.abspath(repo), f)`. */
  datatype FileKey = FileKey(repo: string, file: string)

  function KeyOf(t: Touch): FileKey {
    FileKey(t.repo, t.file)
  }

  function RevisionTouches(rev: Revision, files: seq<string>): seq<Touch> {
    if files == [] then [] else [Touch(rev.repo, rev.id, files[0])] + RevisionTouches(rev, files[1..])
  }

  /** The innermost loop `for f in get_changed_files(repo, revision)`, run
      for every enumerated revision in order. */
  function Touches(revs: seq<Revision>, diffTree: DiffTreeRunner): seq<Touch> {
    if revs == [] then []
    else
      RevisionTouches(revs[0], ChangedFiles(diffTree(revs[0].repo, revs[0].id))) +
      Touches(revs[1..], diffTree)
  }

  function Keys(ts: seq<Touch>): seq<FileKey> {
    if ts == [] then [] else [KeyOf(ts[0])] + Keys(ts[1..])
  }

  // ---------------------------------------------------------------------
  // The Counter: a dictionary that remembers insertion order

  datatype Entry<K> = Entry(key: K, count: nat)

  /** `counter[k]`, which is 0 for a key never seen. */
  function Lookup<K(==)>(c: seq<Entry<K>>, k: K): nat {
    if c == [] then 0 else if c[0].key == k then c[0].count else Lookup(c[1..], k)
  }

  function KeySet<K>(c: seq<Entry<K>>): set<K> {
    if c == [] then {} else {c[0].key} + KeySet(c[1..])
  }

  predicate DistinctKeys<K(==)>(c: seq<Entry<K>>) {
    forall i, j :: 0 <= i < j < |c| ==> c[i].key != c[j].key
  }

  predicate PositiveCounts<K(==)>(c: seq<Entry<K>>) {
    forall i :: 0 <= i < |c| ==> c[i].count >= 1
  }

  /** `sum(counter.values())`, in insertion order. */
  function Total<K(==)>(c: seq<Entry<K>>): nat {
    if c == [] then 0 else c[0].count + Total(c[1..])
  }

  /** `counter[k] += 1`: a key already present is counted once more where
      it stands; a new key is appended with count 1. */
  function Bump<K(==)>(c: seq<Entry<K>>, k: K): (r: seq<Entry<K>>)
    ensures |r| == |c| || (|r| == |c| + 1 && r[|c|] == Entry(k, 1))
    ensures forall i :: 0 <= i < |c| ==> r[i].key == c[i].key
  {
    if c == [] then [Entry(k, 1)]
    else if c[0].key == k then [Entry(k, c[0].count + 1)] + c[1..]
    else [c[0]] + Bump(c[1..], k)
  }

  /** The count of `k` goes up by one; no other count changes. */
  lemma {:induction false} BumpLookup<K>(c: seq<Entry<K>>, k: K)
    ensures forall j :: Lookup(Bump(c, k), j) == Lookup(c, j) + (if j == k then 1 else 0)
  {
    if c != [] && c[0].key != k {
      BumpLookup(c[1..], k);
      assert Bump(c, k)[1..] == Bump(c[1..], k);
    }
  }

  lemma {:induction false} BumpTotal<K>(c: seq<Entry<K>>, k: K)
    ensures Total(Bump(c, k)) == Total(c) + 1
  {
    if c != [] {
      if c[0].key == k {
        assert Bump(c, k)[1..] == c[1..];
      } else {
        BumpTotal(c[1..], k);
        assert Bump(c, k)[1..] == Bump(c[1..], k);
      }
    }
  }

  /** `k` becomes a key; it is a new entry exactly when it was not one. */
  lemma {:induction false} BumpKeys<K>(c: seq<Entry<K>>, k: K)
    ensures KeySet(Bump(c, k)) == KeySet(c) + {k}
    ensures |Bump(c, k)| == |c| + (if k in KeySet(c) then 0 else 1)
  {
    if c != [] {
      if c[0].key == k {
        assert Bump(c, k)[1..] == c[1..];
      } else {
        BumpKeys(c[1..], k);
        assert Bump(c, k)[1..] == Bump(c[1..], k);
      }
    }
  }

  /** Bumping keeps every key once and every count positive. */
  lemma BumpWellFormed<K>(c: seq<Entry<K>>, k: K)
    requires DistinctKeys(c) && PositiveCounts(c)
    ensures DistinctKeys(Bump(c, k)) && PositiveCounts(Bump(c, k))
  {
    BumpDistinct(c, k);
    BumpCounts(c, k);
  }

  lemma BumpDistinct<K>(c: seq<Entry<K>>, k: K)
    requires DistinctKeys(c)
    ensures DistinctKeys(Bump(c, k))
  {
    var r := Bump(c, k);
    BumpKeys(c, k);
    if |r| == |c| + 1 {
      forall i | 0 <= i < |c| ensures c[i].key != k {
        KeyInKeySet(c, i);
      }
      forall i, j | 0 <= i < j < |r| ensures r[i].key != r[j].key {
        if j == |c| {
          assert r[j].key == k && r[i].key == c[i].key;
        } else {
          assert r[i].key == c[i].key && r[j].key == c[j].key;
        }
      }
    } else {
      forall i, j | 0 <= i < j < |r| ensures r[i].key != r[j].key {
        assert r[i].key == c[i].key && r[j].key == c[j].key;
      }
    }
  }

  lemma {:induction false} BumpCounts<K>(c: seq<Entry<K>>, k: K)
    requires PositiveCounts(c)
    ensures PositiveCounts(Bump(c, k))
  {
    if c != [] && c[0].key != k {
      BumpCounts(c[1..], k);
      assert Bump(c, k)[1..] == Bump(c[1..], k);
    }
  }

  lemma {:induction false} KeyInKeySet<K>(c: seq<Entry<K>>, i: nat)
    requires i < |c|
    ensures c[i].key in KeySet(c)
  {
    if i > 0 { KeyInKeySet(c[1..], i - 1); }
  }

  lemma {:induction false} KeySetHas<K>(c: seq<Entry<K>>, x: K) returns (i: nat)
    requires x in KeySet(c)
    ensures i < |c| && c[i].key == x
  {
    if c[0].key == x {
      i := 0;
    } else {
      var j := KeySetHas(c[1..], x);
      i := j + 1;
    }
  }

  /** `Counter(keys)`, which counts the keys one after another. */
  function Tally<K(==)>(ks: seq<K>): seq<Entry<K>> {
    if ks == [] then [] else Bump(Tally(ks[..|ks| - 1]), ks[|ks| - 1])
  }

  /** For every key, the tally holds the number of times it occurs; the
      keys are those counted, each once and
      each with a count of at least 1; the counts add up to the number of
      keys counted. */
  lemma {:induction false} TallyCounts<K>(ks: seq<K>)
    ensures var c := Tally(ks);
      && (forall k :: Lookup(c, k) == multiset(ks)[k])
      && (forall k :: k in KeySet(c) <==> k in ks)
      && DistinctKeys(c) && PositiveCounts(c)
      && Total(c) == |ks|
  {
    if ks != [] {
      var init, last := ks[..|ks| - 1], ks[|ks| - 1];
      assert ks == init + [last];
      TallyCounts(init);
      BumpLookup(Tally(init), last);
      BumpKeys(Tally(init), last);
      BumpWellFormed(Tally(init), last);
      BumpTotal(Tally(init), last);
      assert forall k :: k in ks <==> k in init || k == last;
    }
  }

  /** `v / total` for every value, in the Counter's order. */
  function Normalise<K(==)>(c: seq<Entry<K>>, total: nat): (ps: seq<real>)
    requires total > 0
    ensures |ps| == |c|
  {
    if c == [] then [] else [c[0].count as real / total as real] + Normalise(c[1..], total)
  }

  function RealSum(ps: seq<real>): real {
    if ps == [] then 0.0 else ps[0] + RealSum(ps[1..])
  }

  // ---------------------------------------------------------------------
  // get_entropy

  /** `RuntimeError("No changed files for the query")`. */
  datatype EntropyError = NoChangedFiles

  /** `tally_counter_files` for the given repositories and filters: each
      (repository, file) key counts the triples with that repository and
      file, a key is present exactly when it was touched, and the total is
      the number of triples. */
  function FileTally(repos: seq<string>, author: Option<string>, after: Option<string>,
                     revListArgs: Option<string>, revList: RevListRunner, diffTree: DiffTreeRunner)
    : (c: seq<Entry<FileKey>>)
    ensures DistinctKeys(c) && PositiveCounts(c)
    ensures var ts := Touches(Revisions(repos, RevListArgv(author, after, revListArgs), revList), diffTree);
      && Total(c) == |ts|
      && (forall repo, file :: Lookup(c, FileKey(repo, file)) == CountTouches(ts, repo, file))
      && (forall repo, file :: FileKey(repo, file) in KeySet(c) <==> CountTouches(ts, repo, file) >= 1)
  {
    var ts := Touches(Revisions(repos, RevListArgv(author, after, revListArgs), revList), diffTree);
    KeysLength(ts);
    TallyCounts(Keys(ts));
    TallyLookupAll(ts);
    Tally(Keys(ts))
  }

  /** No enumerated revision changed a file (which includes there being
      no revision at all). */
  predicate NoFileChanged(revs: seq<Revision>, diffTree: DiffTreeRunner) {
    forall i :: 0 <= i < |revs| ==> ChangedFiles(diffTree(revs[i].repo, revs[i].id)) == []
  }

  /** What `get_entropy` hands to the entropy formula: the normalised
      counts, or the error raised when the total is 0. The error comes
      exactly when no listed commit changed a file (or none was listed);
      otherwise there is one probability per distinct (repository, file)
      key, its number of triples divided by the number of all triples,
      each in (0, 1], and together they sum to 1. */
  function Probabilities(repos: seq<string>, author: Option<string>, after: Option<string>,
                         revListArgs: Option<string>, revList: RevListRunner, diffTree: DiffTreeRunner)
    : (r: Result<seq<real>, EntropyError>)
    ensures r.Err? <==> NoFileChanged(Revisions(repos, RevListArgv(author, after, revListArgs), revList), diffTree)
    ensures r.Ok? ==>
      && |r.value| == |FileTally(repos, author, after, revListArgs, revList, diffTree)|
      && (forall i :: 0 <= i < |r.value| ==> 0.0 < r.value[i] <= 1.0)
      && RealSum(r.value) == 1.0
    ensures r.Ok? ==>
      var ts := Touches(Revisions(repos, RevListArgv(author, after, revListArgs), revList), diffTree);
      var tally := FileTally(repos, author, after, revListArgs, revList, diffTree);
      forall i :: 0 <= i < |r.value| ==>
        r.value[i] == CountTouches(ts, tally[i].key.repo, tally[i].key.file) as real / |ts| as real
  {
    var revs := Revisions(repos, RevListArgv(author, after, revListArgs), revList);
    var tally := FileTally(repos, author, after, revListArgs, revList, diffTree);
    var total := Total(tally);
    NoTouchesIff(revs, diffTree);
    if total == 0 then Err(NoChangedFiles)
    else
      NormaliseDistribution(tally);
      NormaliseTouches(tally, Touches(revs, diffTree));
      Ok(Normalise(tally, total))
  }

  // ---------------------------------------------------------------------
  // The triples

  lemma {:induction false} KeysAppend(a: seq<Touch>, b: seq<Touch>)
    ensures Keys(a + b) == Keys(a) + Keys(b)
  {
    if a == [] {
      assert a + b == b;
    } else {
      assert (a + b)[1..] == a[1..] + b;
      KeysAppend(a[1..], b);
    }
  }

  lemma {:induction false} RevisionTouchesShape(rev: Revision, files: seq<string>)
    ensures var ts := RevisionTouches(rev, files);
      |ts| == |files| && forall i :: 0 <= i < |ts| ==> ts[i] == Touch(rev.repo, rev.id, files[i])
  {
    if files != [] {
      RevisionTouchesShape(rev, files[1..]);
    }
  }

  /** The number of changed files of each revision, in enumeration order. */
  function FileCounts(revs: seq<Revision>, diffTree: DiffTreeRunner): seq<int> {
    if revs == [] then []
    else [|ChangedFiles(diffTree(revs[0].repo, revs[0].id))|] + FileCounts(revs[1..], diffTree)
  }

  /** There is one triple per changed file per revision: their number is
      the sum of the per-revision changed-file counts. */
  lemma {:induction false} TouchesCount(revs: seq<Revision>, diffTree: DiffTreeRunner)
    ensures |Touches(revs, diffTree)| == Statistics.Sum(FileCounts(revs, diffTree))
  {
    if revs != [] {
      TouchesCount(revs[1..], diffTree);
      RevisionTouchesShape(revs[0], ChangedFiles(diffTree(revs[0].repo, revs[0].id)));
    }
  }

  /** There are no triples exactly when no enumerated revision changed a
      file, which covers there being no revision at all. */
  lemma {:induction false} TouchesEmptyIff(revs: seq<Revision>, diffTree: DiffTreeRunner)
    ensures Touches(revs, diffTree) == [] <==>
      forall i :: 0 <= i < |revs| ==> ChangedFiles(diffTree(revs[i].repo, revs[i].id)) == []
  {
    if revs != [] {
      TouchesEmptyIff(revs[1..], diffTree);
      RevisionTouchesShape(revs[0], ChangedFiles(diffTree(revs[0].repo, revs[0].id)));
      assert forall i :: 1 <= i < |revs| ==> revs[i] == revs[1..][i - 1];
    }
  }

  /** How many triples name repository `repo` and file `file`, whatever
      the revision. */
  function CountTouches(ts: seq<Touch>, repo: string, file: string): nat {
    if ts == [] then 0
    else (if ts[0].repo == repo && ts[0].file == file then 1 else 0) + CountTouches(ts[1..], repo, file)
  }

  lemma {:induction false} KeysMultiset(ts: seq<Touch>, repo: string, file: string)
    ensures multiset(Keys(ts))[FileKey(repo, file)] == CountTouches(ts, repo, file)
  {
    if ts != [] {
      KeysMultiset(ts[1..], repo, file);
      assert Keys(ts) == [KeyOf(ts[0])] + Keys(ts[1..]);
    }
  }

  /** Each key of the tally counts the triples with that repository and
      that file; so the same relative path under two repositories gives
      two separate counts. Every key in the tally has a count of at least
      one, and only touched files are keys. */
  lemma TallyCountsTouches(ts: seq<Touch>, repo: string, file: string)
    ensures Lookup(Tally(Keys(ts)), FileKey(repo, file)) == CountTouches(ts, repo, file)
    ensures FileKey(repo, file) in KeySet(Tally(Keys(ts))) <==> CountTouches(ts, repo, file) >= 1
  {
    KeysMultiset(ts, repo, file);
    var ks := Keys(ts);
    TallyCounts(ks);
    if FileKey(repo, file) in multiset(ks) {
      assert FileKey(repo, file) in ks;
    }
  }

  /** The number of triples is 0 exactly when no revision changed a file. */
  lemma NoTouchesIff(revs: seq<Revision>, diffTree: DiffTreeRunner)
    ensures |Touches(revs, diffTree)| == 0 <==> NoFileChanged(revs, diffTree)
  {
    TouchesEmptyIff(revs, diffTree);
  }

  /** `TallyCountsTouches` for every (repository, file) key at once. */
  lemma TallyLookupAll(ts: seq<Touch>)
    ensures forall repo, file :: Lookup(Tally(Keys(ts)), FileKey(repo, file)) == CountTouches(ts, repo, file)
    ensures forall repo, file :: FileKey(repo, file) in KeySet(Tally(Keys(ts))) <==> CountTouches(ts, repo, file) >= 1
  {
    forall repo, file
      ensures Lookup(Tally(Keys(ts)), FileKey(repo, file)) == CountTouches(ts, repo, file)
      ensures FileKey(repo, file) in KeySet(Tally(Keys(ts))) <==> CountTouches(ts, repo, file) >= 1
    {
      TallyCountsTouches(ts, repo, file);
    }
  }

  lemma {:induction false} KeysLength(ts: seq<Touch>)
    ensures |Keys(ts)| == |ts|
  {
    if ts != [] { KeysLength(ts[1..]); }
  }

  // ---------------------------------------------------------------------
  // Normalisation

  lemma {:induction false} CountAtMostTotal<K>(c: seq<Entry<K>>, i: nat)
    requires i < |c|
    ensures c[i].count <= Total(c)
  {
    if i > 0 { CountAtMostTotal(c[1..], i - 1); }
  }

  lemma {:induction false} NormaliseSum<K>(c: seq<Entry<K>>, total: nat)
    requires total > 0
    ensures RealSum(Normalise(c, total)) == Total(c) as real / total as real
  {
    if c != [] {
      NormaliseSum(c[1..], total);
      var t := total as real;
      assert c[0].count as real / t + Total(c[1..]) as real / t == (c[0].count + Total(c[1..])) as real / t;
    }
  }

  lemma {:induction false} NormaliseAt<K>(c: seq<Entry<K>>, total: nat, i: nat)
    requires total > 0 && i < |c|
    ensures Normalise(c, total)[i] == c[i].count as real / total as real
  {
    if i > 0 { NormaliseAt(c[1..], total, i - 1); }
  }

  /** `v / total` for a tally whose lookups count triples: each entry's
      value is its key's number of triples over the number of triples. */
  lemma NormaliseTouches(c: seq<Entry<FileKey>>, ts: seq<Touch>)
    requires DistinctKeys(c) && |ts| > 0
    requires forall repo, file :: Lookup(c, FileKey(repo, file)) == CountTouches(ts, repo, file)
    ensures forall i :: 0 <= i < |c| ==>
      Normalise(c, |ts|)[i] == CountTouches(ts, c[i].key.repo, c[i].key.file) as real / |ts| as real
  {
    forall i | 0 <= i < |c|
      ensures Normalise(c, |ts|)[i] == CountTouches(ts, c[i].key.repo, c[i].key.file) as real / |ts| as real
    {
      NormaliseAt(c, |ts|, i);
      LookupEntry(c, i);
      assert c[i].key == FileKey(c[i].key.repo, c[i].key.file);
    }
  }

  /** Normalising positive counts by their total gives values in (0, 1]
      that add up to 1. */
  lemma NormaliseDistribution<K>(c: seq<Entry<K>>)
    requires Total(c) > 0 && PositiveCounts(c)
    ensures var ps := Normalise(c, Total(c));
      && (forall i :: 0 <= i < |ps| ==> 0.0 < ps[i] <= 1.0)
      && RealSum(ps) == 1.0
  {
    var t := Total(c);
    NormaliseSum(c, t);
    assert t as real / t as real == 1.0;
    NormaliseBounds(c);
  }

  lemma NormaliseBounds<K>(c: seq<Entry<K>>)
    requires Total(c) > 0 && PositiveCounts(c)
    ensures forall i :: 0 <= i < |c| ==> 0.0 < Normalise(c, Total(c))[i] <= 1.0
  {
    var t := Total(c);
    forall i | 0 <= i < |c| ensures 0.0 < Normalise(c, t)[i] <= 1.0 {
      NormaliseAt(c, t, i);
      CountAtMostTotal(c, i);
      DivisionInUnit(c[i].count, t);
    }
  }

  lemma DivisionInUnit(v: nat, t: nat)
    requires 1 <= v <= t
    ensures 0.0 < v as real / t as real <= 1.0
  {
    var q := v as real / t as real;
    assert q * t as real == v as real;
  }

  // ---------------------------------------------------------------------
  // Independence from order

  lemma {:induction false} LookupEntry<K>(c: seq<Entry<K>>, i: nat)
    requires DistinctKeys(c) && i < |c|
    ensures Lookup(c, c[i].key) == c[i].count
  {
    if i > 0 {
      assert c[0].key != c[i].key;
      LookupEntry(c[1..], i - 1);
    }
  }

  lemma {:induction false} DistinctMultiset<T>(s: seq<T>, x: T)
    requires forall i, j :: 0 <= i < j < |s| ==> s[i] != s[j]
    ensures multiset(s)[x] == if x in s then 1 else 0
  {
    if s != [] {
      assert s == [s[0]] + s[1..];
      DistinctMultiset(s[1..], x);
      if x == s[0] {
        assert x !in s[1..];
      }
    }
  }

  /** The tally depends only on the multiset of keys: any reordering of
      the commits, of the repositories or of the files within a commit
      yields the same entries, at most in another order. */
  lemma TallyOrderFree<K(!new)>(a: seq<K>, b: seq<K>)
    requires multiset(a) == multiset(b)
    ensures multiset(Tally(a)) == multiset(Tally(b))
    ensures Total(Tally(a)) == Total(Tally(b))
  {
    var ca, cb := Tally(a), Tally(b);
    TallyCounts(a);
    TallyCounts(b);
    forall k ensures k in a <==> k in b {
      assert k in a <==> k in multiset(a);
      assert k in b <==> k in multiset(b);
    }
    forall e | e in ca ensures e in cb {
      SameEntry(ca, cb, e);
    }
    forall e | e in cb ensures e in ca {
      SameEntry(cb, ca, e);
    }
    forall e ensures multiset(ca)[e] == multiset(cb)[e] {
      EntriesDistinct(ca);
      EntriesDistinct(cb);
      DistinctMultiset(ca, e);
      DistinctMultiset(cb, e);
    }
  }

  lemma SameEntry<K>(c: seq<Entry<K>>, d: seq<Entry<K>>, e: Entry<K>)
    requires DistinctKeys(c) && DistinctKeys(d)
    requires forall k :: k in KeySet(c) ==> k in KeySet(d)
    requires forall k :: Lookup(c, k) == Lookup(d, k)
    requires e in c
    ensures e in d
  {
    var i :| 0 <= i < |c| && c[i] == e;
    LookupEntry(c, i);
    KeyInKeySet(c, i);
    var j := KeySetHas(d, e.key);
    LookupEntry(d, j);
    assert d[j] == e;
  }

  lemma EntriesDistinct<K>(c: seq<Entry<K>>)
    requires DistinctKeys(c)
    ensures forall i, j :: 0 <= i < j < |c| ==> c[i] != c[j]
  {
  }

  /** Reordering the entries only reorders the probabilities. */
  lemma {:induction false} NormaliseOrderFree<K>(c: seq<Entry<K>>, d: seq<Entry<K>>, total: nat)
    requires total > 0 && multiset(c) == multiset(d)
    ensures multiset(Normalise(c, total)) == multiset(Normalise(d, total))
    decreases |c|
  {
    assert |c| == |multiset(c)| == |multiset(d)| == |d|;
    if c != [] {
      var j := Statistics.PickFirst(c, d);
      var rest := d[..j] + d[j + 1..];
      NormaliseOrderFree(c[1..], rest, total);
      NormaliseAppend(d[..j] + [d[j]], d[j + 1..], total);
      NormaliseAppend(d[..j], [d[j]], total);
      NormaliseAppend(d[..j], d[j + 1..], total);
    }
  }

  lemma {:induction false} NormaliseAppend<K>(a: seq<Entry<K>>, b: seq<Entry<K>>, total: nat)
    requires total > 0
    ensures Normalise(a + b, total) == Normalise(a, total) + Normalise(b, total)
  {
    if a == [] {
      assert a + b == b;
    } else {
      assert (a + b)[1..] == a[1..] + b;
      NormaliseAppend(a[1..], b, total);
    }
  }

  /** The probabilities depend only on the multiset of triples, not on the
      order of repositories, commits or files. */
  lemma ProbabilitiesOrderFree(a: seq<Touch>, b: seq<Touch>)
    requires multiset(Keys(a)) == multiset(Keys(b))
    ensures Total(Tally(Keys(a))) == Total(Tally(Keys(b)))
    ensures Total(Tally(Keys(a))) > 0 ==>
      multiset(Normalise(Tally(Keys(a)), Total(Tally(Keys(a)))))
        == multiset(Normalise(Tally(Keys(b)), Total(Tally(Keys(b)))))
  {
    TallyOrderFree(Keys(a), Keys(b));
    if Total(Tally(Keys(a))) > 0 {
      NormaliseOrderFree(Tally(Keys(a)), Tally(Keys(b)), Total(Tally(Keys(a))));
    }
  }
}
