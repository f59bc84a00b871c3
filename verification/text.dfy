/** The Python string operations the two tools apply to git's output:
    `s.split("\n")`, `filter(None, ...)`, `s.split()` and `s.strip()`.
    Strings are sequences of Unicode scalar values, as Python's `str` is a
    sequence of code points. */
module Text {

  /** Python's `str.isspace()` for one character: the characters that
      `split()` and `strip()` without arguments treat as whitespace. */
  predicate IsSpace(c: char) {
    var n := c as int;
    (0x09 <= n <= 0x0D) || (0x1C <= n <= 0x20) || n == 0x85 || n == 0xA0 ||
    n == 0x1680 || (0x2000 <= n <= 0x200A) || n == 0x2028 || n == 0x2029 ||
    n == 0x202F || n == 0x205F || n == 0x3000
  }

  predicate IsNewline(c: char) {
    c == '\n'
  }

  predicate NoneOf(s: string, isSep: char -> bool) {
    forall k :: 0 <= k < |s| ==> !isSep(s[k])
  }

  predicate AllSpace(s: string) {
    forall k :: 0 <= k < |s| ==> IsSpace(s[k])
  }

  /** Python's `s.split(sep)` for a one-character separator, generalised to
      a class of separator characters: the pieces between separators, in
      order. There is always at least one piece (`"".split("\n") == [""]`),
      and no piece contains a separator. */
  function Split(s: string, isSep: char -> bool): (r: seq<string>)
    ensures |r| >= 1
    ensures forall i :: 0 <= i < |r| ==> NoneOf(r[i], isSep)
  {
    if s == [] then [""]
    else
      var rest := Split(s[1..], isSep);
      if isSep(s[0]) then [""] + rest
      else [[s[0]] + rest[0]] + rest[1..]
  }

  /** The pieces put back together with `sep` between them. */
  function Join(pieces: seq<string>, sep: string): string {
    if pieces == [] then ""
    else if |pieces| == 1 then pieces[0]
    else pieces[0] + sep + Join(pieces[1..], sep)
  }

  /** `filter(None, pieces)`: the non-empty pieces, in their order. */
  function NonEmpty(pieces: seq<string>): (r: seq<string>)
    ensures forall i :: 0 <= i < |r| ==> r[i] != []
    ensures forall x :: x in r <==> x in pieces && x != []
  {
    if pieces == [] then []
    else if pieces[0] == [] then NonEmpty(pieces[1..])
    else [pieces[0]] + NonEmpty(pieces[1..])
  }

  /** `filter(None, s.split("\n"))`, the line reader both tools apply to
      the output of `git rev-list` and `git diff-tree`. */
  function Lines(s: string): (r: seq<string>)
    ensures forall i :: 0 <= i < |r| ==> r[i] != [] && NoneOf(r[i], IsNewline)
  {
    var pieces := Split(s, IsNewline);
    var r := NonEmpty(pieces);
    assert forall i :: 0 <= i < |r| ==> r[i] in pieces;
    r
  }

  /** Length of the leading run of non-whitespace characters. */
  function WordLen(s: string): (n: nat)
    ensures n <= |s|
    ensures NoneOf(s[..n], IsSpace)
    ensures n < |s| ==> IsSpace(s[n])
  {
    if s == [] || IsSpace(s[0]) then 0 else 1 + WordLen(s[1..])
  }

  /** Python's `s.split()` with no separator, as CPython computes it: skip
      a run of whitespace, take the following maximal run of
      non-whitespace as a token, repeat. */
  function Tokens(s: string): (r: seq<string>)
    ensures forall i :: 0 <= i < |r| ==> r[i] != [] && NoneOf(r[i], IsSpace)
    decreases |s|
  {
    if s == [] then []
    else if IsSpace(s[0]) then Tokens(s[1..])
    else
      var n := WordLen(s);
      [s[..n]] + Tokens(s[n..])
  }

  /** `s.lstrip()`: drop the leading whitespace. */
  function StripLeft(s: string): (r: string)
    ensures |r| <= |s|
    ensures AllSpace(s[..|s| - |r|])
    ensures r == [] || !IsSpace(r[0])
  {
    if s != [] && IsSpace(s[0]) then StripLeft(s[1..]) else s
  }

  /** `s.rstrip()`: drop the trailing whitespace. */
  function StripRight(s: string): (r: string)
    ensures |r| <= |s|
    ensures AllSpace(s[|r|..])
    ensures r == [] || !IsSpace(r[|r| - 1])
  {
    if s != [] && IsSpace(s[|s| - 1]) then StripRight(s[..|s| - 1]) else s
  }

  /** What `lstrip()` keeps is a suffix of the text. */
  lemma {:induction false} StripLeftSuffix(s: string)
    ensures StripLeft(s) == s[|s| - |StripLeft(s)|..]
  {
    if s != [] && IsSpace(s[0]) {
      StripLeftSuffix(s[1..]);
    }
  }

  /** What `rstrip()` keeps is a prefix of the text. */
  lemma {:induction false} StripRightPrefix(s: string)
    ensures StripRight(s) == s[..|StripRight(s)|]
  {
    if s != [] && IsSpace(s[|s| - 1]) {
      StripRightPrefix(s[..|s| - 1]);
    }
  }

  /** `s.strip()`: drop whitespace at both ends. The result neither starts
      nor ends with whitespace and is a contiguous part of `s`. */
  function Strip(s: string): (r: string)
    ensures r == [] || (!IsSpace(r[0]) && !IsSpace(r[|r| - 1]))
    ensures |r| <= |s|
  {
    StripRightPrefix(StripLeft(s));
    StripRight(StripLeft(s))
  }

  // ---------------------------------------------------------------------
  // Splitting on a separator

  /** A string with no separator is one piece. */
  lemma {:induction false} SplitNoSeparator(s: string, isSep: char -> bool)
    requires NoneOf(s, isSep)
    ensures Split(s, isSep) == [s]
  {
    if s != [] {
      SplitNoSeparator(s[1..], isSep);
      assert [s[0]] + s[1..] == s;
    }
  }

  /** Splitting `a + sep + b` gives the pieces of `a` followed by those of
      `b`: the separator ends the last piece of `a`. */
  lemma {:induction false} SplitAtSeparator(a: string, c: char, b: string, isSep: char -> bool)
    requires isSep(c)
    ensures Split(a + [c] + b, isSep) == Split(a, isSep) + Split(b, isSep)
  {
    var s := a + [c] + b;
    if a == [] {
      assert s[1..] == b;
    } else {
      assert s[1..] == a[1..] + [c] + b;
      SplitAtSeparator(a[1..], c, b, isSep);
    }
  }

  /** Splitting then joining with the newline gives the text back. */
  lemma {:induction false} JoinSplit(s: string)
    ensures Join(Split(s, IsNewline), "\n") == s
  {
    if s != [] {
      JoinSplit(s[1..]);
      var rest := Split(s[1..], IsNewline);
      if IsNewline(s[0]) {
        assert Split(s, IsNewline) == [""] + rest;
        assert s == "\n" + s[1..];
      } else {
        var r := Split(s, IsNewline);
        assert r == [[s[0]] + rest[0]] + rest[1..];
        if |rest| == 1 {
          assert r == [[s[0]] + rest[0]];
        } else {
          assert r[1..] == rest[1..];
          assert Join(r, "\n") == [s[0]] + rest[0] + "\n" + Join(rest[1..], "\n");
        }
        assert s == [s[0]] + s[1..];
      }
    }
  }

  /** And joining newline-free pieces then splitting gives the pieces back. */
  lemma {:induction false} SplitJoin(pieces: seq<string>)
    requires |pieces| >= 1
    requires forall i :: 0 <= i < |pieces| ==> NoneOf(pieces[i], IsNewline)
    ensures Split(Join(pieces, "\n"), IsNewline) == pieces
  {
    if |pieces| == 1 {
      SplitNoSeparator(pieces[0], IsNewline);
    } else {
      SplitJoin(pieces[1..]);
      SplitAtSeparator(pieces[0], '\n', Join(pieces[1..], "\n"), IsNewline);
      SplitNoSeparator(pieces[0], IsNewline);
      assert pieces[0] + "\n" + Join(pieces[1..], "\n") == pieces[0] + ['\n'] + Join(pieces[1..], "\n");
      assert pieces == [pieces[0]] + pieces[1..];
    }
  }

  /** When the first `n` characters hold no separator and the next one is a
      separator (or the text ends there), the first piece is `s[..n]`. */
  lemma {:induction false} SplitAtFirst(s: string, n: nat, isSep: char -> bool)
    requires n <= |s|
    requires NoneOf(s[..n], isSep)
    requires n < |s| ==> isSep(s[n])
    ensures Split(s, isSep) == if n == |s| then [s] else [s[..n]] + Split(s[n + 1..], isSep)
  {
    if n == |s| {
      assert s[..n] == s;
      SplitNoSeparator(s, isSep);
    } else {
      assert s == s[..n] + [s[n]] + s[n + 1..];
      SplitAtSeparator(s[..n], s[n], s[n + 1..], isSep);
      SplitNoSeparator(s[..n], isSep);
    }
  }

  // ---------------------------------------------------------------------
  // Filtering out the empty pieces

  /** `filter(None, ...)` distributes over concatenation: it keeps the
      order and drops exactly the empty pieces. */
  lemma {:induction false} NonEmptyAppend(a: seq<string>, b: seq<string>)
    ensures NonEmpty(a + b) == NonEmpty(a) + NonEmpty(b)
  {
    if a == [] {
      assert a + b == b;
    } else {
      assert (a + b)[0] == a[0];
      assert (a + b)[1..] == a[1..] + b;
      NonEmptyAppend(a[1..], b);
      if a[0] == [] {
        assert NonEmpty(a + b) == NonEmpty(a[1..] + b);
        assert NonEmpty(a) == NonEmpty(a[1..]);
      } else {
        assert NonEmpty(a + b) == [a[0]] + NonEmpty(a[1..] + b);
        assert NonEmpty(a) == [a[0]] + NonEmpty(a[1..]);
      }
    }
  }

  /** The lines of `a + "\n" + b` are the lines of `a` followed by those
      of `b`. */
  lemma LinesAppend(a: string, b: string)
    ensures Lines(a + "\n" + b) == Lines(a) + Lines(b)
  {
    assert a + "\n" + b == a + ['\n'] + b;
    SplitAtSeparator(a, '\n', b, IsNewline);
    NonEmptyAppend(Split(a, IsNewline), Split(b, IsNewline));
  }

  /** A trailing newline, as git prints after its last line, adds no line. */
  lemma TrailingNewline(s: string)
    ensures Lines(s + "\n") == Lines(s)
  {
    LinesAppend(s, "");
    assert s + "\n" + "" == s + "\n";
    LinesOfEmpty();
    assert Lines(s) + [] == Lines(s);
  }

  lemma LinesOfEmpty()
    ensures Lines("") == []
  {
    assert Split("", IsNewline) == [""];
    assert [""][1..] == [];
  }

  /** The lines are exactly the newline-separated pieces of the output
      with the empty ones left out, in their order: `Lines` applied to the
      newline-join of non-empty, newline-free lines gives them back. */
  lemma LinesOfJoin(lines: seq<string>)
    requires forall i :: 0 <= i < |lines| ==> lines[i] != [] && NoneOf(lines[i], IsNewline)
    ensures Lines(Join(lines, "\n")) == lines
  {
    if lines == [] {
      LinesOfEmpty();
    } else {
      SplitJoin(lines);
      NonEmptyKeepsNonEmpty(lines);
    }
  }

  lemma {:induction false} NonEmptyKeepsNonEmpty(pieces: seq<string>)
    requires forall i :: 0 <= i < |pieces| ==> pieces[i] != []
    ensures NonEmpty(pieces) == pieces
  {
    if pieces != [] {
      NonEmptyKeepsNonEmpty(pieces[1..]);
      assert pieces == [pieces[0]] + pieces[1..];
    }
  }

  /** Output that holds nothing but newlines has no lines, and any other
      output has at least one. */
  lemma LinesEmptyIff(s: string)
    ensures Lines(s) == [] <==> forall k :: 0 <= k < |s| ==> IsNewline(s[k])
  {
    var pieces := Split(s, IsNewline);
    assert Lines(s) == NonEmpty(pieces);
    NonEmptyNilIff(pieces);
    PiecesEmptyIff(s);
    assert (forall i :: 0 <= i < |Split(s, IsNewline)| ==> Split(s, IsNewline)[i] == [])
        <==> forall k :: 0 <= k < |s| ==> IsNewline(s[k]);
    assert (forall i :: 0 <= i < |pieces| ==> pieces[i] == []) <==> forall k :: 0 <= k < |s| ==> IsNewline(s[k]);
    assert NonEmpty(pieces) == [] <==> forall i :: 0 <= i < |pieces| ==> pieces[i] == [];
  }

  lemma NonEmptyNilIff(pieces: seq<string>)
    ensures NonEmpty(pieces) == [] <==> forall i :: 0 <= i < |pieces| ==> pieces[i] == []
  {
    var r := NonEmpty(pieces);
    if r != [] {
      assert r[0] in pieces;
    }
  }

  lemma {:induction false} PiecesEmptyIff(s: string)
    ensures (forall i :: 0 <= i < |Split(s, IsNewline)| ==> Split(s, IsNewline)[i] == [])
        <==> forall k :: 0 <= k < |s| ==> IsNewline(s[k])
  {
    if s != [] {
      PiecesEmptyIff(s[1..]);
      var rest := Split(s[1..], IsNewline);
      var pieces := Split(s, IsNewline);
      if IsNewline(s[0]) {
        assert pieces == [""] + rest;
        assert forall i :: 0 < i < |pieces| ==> pieces[i] == rest[i - 1];
        assert (forall i :: 0 <= i < |pieces| ==> pieces[i] == [])
            <==> forall i :: 0 <= i < |rest| ==> rest[i] == [] by {
          if forall i :: 0 <= i < |rest| ==> rest[i] == [] {
            forall i | 0 <= i < |pieces| ensures pieces[i] == [] {
              if i > 0 { assert pieces[i] == rest[i - 1]; }
            }
          }
          if forall i :: 0 <= i < |pieces| ==> pieces[i] == [] {
            forall i | 0 <= i < |rest| ensures rest[i] == [] {
              assert rest[i] == pieces[i + 1];
            }
          }
        }
        assert (forall k :: 0 <= k < |s| ==> IsNewline(s[k]))
            <==> forall k :: 0 <= k < |s[1..]| ==> IsNewline(s[1..][k]) by {
          assert forall k :: 0 < k < |s| ==> s[k] == s[1..][k - 1];
        }
      } else {
        assert pieces[0] == [s[0]] + rest[0];
      }
    }
  }

  // ---------------------------------------------------------------------
  // Whitespace tokens

  /** Python's definition of `split()` with no argument: the whitespace
      pieces with the empty ones dropped, so that runs of whitespace count
      as one separator and leading or trailing whitespace gives no empty
      token. The scanning `Tokens` agrees with it. */
  lemma {:induction false} TokensAsSplit(s: string)
    ensures Tokens(s) == NonEmpty(Split(s, IsSpace))
    decreases |s|
  {
    if s == [] {
    } else if IsSpace(s[0]) {
      TokensAsSplit(s[1..]);
      assert Split(s, IsSpace) == [""] + Split(s[1..], IsSpace);
      NonEmptyAppend([""], Split(s[1..], IsSpace));
    } else {
      var n := WordLen(s);
      SplitAtFirst(s, n, IsSpace);
      assert s[..n] != [];
      if n == |s| {
        assert s[n..] == [];
        NonEmptyKeepsNonEmpty([s]);
        assert s[..n] == s;
      } else {
        assert s[n..][0] == s[n];
        assert s[n..][1..] == s[n + 1..];
        TokensAsSplit(s[n + 1..]);
        NonEmptyAppend([s[..n]], Split(s[n + 1..], IsSpace));
      }
    }
  }

  /** Whitespace between two texts separates their tokens. */
  lemma TokensAppend(a: string, c: char, b: string)
    requires IsSpace(c)
    ensures Tokens(a + [c] + b) == Tokens(a) + Tokens(b)
  {
    TokensAsSplit(a + [c] + b);
    TokensAsSplit(a);
    TokensAsSplit(b);
    SplitAtSeparator(a, c, b, IsSpace);
    NonEmptyAppend(Split(a, IsSpace), Split(b, IsSpace));
  }

  /** A string has no tokens exactly when it is all whitespace. */
  lemma {:induction false} TokensEmptyIff(s: string)
    ensures Tokens(s) == [] <==> AllSpace(s)
    decreases |s|
  {
    if s != [] {
      TokensEmptyIff(s[1..]);
      if IsSpace(s[0]) {
        assert AllSpace(s) <==> AllSpace(s[1..]) by {
          if AllSpace(s[1..]) {
            forall k | 0 <= k < |s| ensures IsSpace(s[k]) {
              if k > 0 { assert s[k] == s[1..][k - 1]; }
            }
          }
        }
      }
    }
  }

  // ---------------------------------------------------------------------
  // Stripping

  /** `strip()` is fully determined: whenever `s` is whitespace, then
      `s[i..j]`, then whitespace, and `s[i..j]` is empty or starts and ends
      with non-whitespace, `strip()` returns `s[i..j]`. */
  lemma StripIsTrim(s: string, i: nat, j: nat)
    requires i <= j <= |s|
    requires AllSpace(s[..i]) && AllSpace(s[j..])
    requires i < j ==> !IsSpace(s[i]) && !IsSpace(s[j - 1])
    ensures Strip(s) == s[i..j]
  {
    if i < j {
      StripMiddle(s, i, j);
    } else {
      AllSpaceSplit(s, i);
      StripLeftAllSpace(s);
    }
  }

  lemma StripMiddle(s: string, i: nat, j: nat)
    requires i < j <= |s|
    requires AllSpace(s[..i]) && AllSpace(s[j..])
    requires !IsSpace(s[i]) && !IsSpace(s[j - 1])
    ensures StripRight(StripLeft(s)) == s[i..j]
  {
    StripLeftAt(s, i);
    StripRightOfSuffix(s, i, j);
  }

  lemma StripRightOfSuffix(s: string, i: nat, j: nat)
    requires i < j <= |s|
    requires AllSpace(s[j..]) && !IsSpace(s[j - 1])
    ensures StripRight(s[i..]) == s[i..j]
  {
    var l := s[i..];
    assert l[j - i..] == s[j..];
    assert l[j - i - 1] == s[j - 1];
    StripRightAt(l, j - i);
    assert l[..j - i] == s[i..j];
  }

  lemma {:induction false} StripLeftAt(s: string, i: nat)
    requires i < |s| && AllSpace(s[..i]) && !IsSpace(s[i])
    ensures StripLeft(s) == s[i..]
  {
    if i > 0 {
      assert s[1..][..i - 1] == s[1..i];
      assert forall k :: 0 <= k < i - 1 ==> s[1..][k] == s[..i][k + 1];
      StripLeftAt(s[1..], i - 1);
      assert s[1..][i - 1..] == s[i..];
      assert s[..i][0] == s[0];
    }
  }

  lemma {:induction false} StripRightAt(s: string, j: nat)
    requires 0 < j <= |s| && AllSpace(s[j..]) && !IsSpace(s[j - 1])
    ensures StripRight(s) == s[..j]
    decreases |s|
  {
    if j < |s| {
      assert s[j..][|s| - 1 - j] == s[|s| - 1];
      var t := s[..|s| - 1];
      assert t[j..] == s[j..|s| - 1];
      assert forall k :: 0 <= k < |t| - j ==> t[j..][k] == s[j..][k];
      assert t[j - 1] == s[j - 1];
      StripRightAt(t, j);
      assert t[..j] == s[..j];
    }
  }

  lemma AllSpaceSplit(s: string, i: nat)
    requires i <= |s| && AllSpace(s[..i]) && AllSpace(s[i..])
    ensures AllSpace(s)
  {
    forall k | 0 <= k < |s| ensures IsSpace(s[k]) {
      if k < i { assert s[k] == s[..i][k]; } else { assert s[k] == s[i..][k - i]; }
    }
  }

  lemma {:induction false} StripLeftAllSpace(s: string)
    requires AllSpace(s)
    ensures StripLeft(s) == []
  {
    if s != [] {
      assert s[1..][..] == s[1..];
      assert forall k :: 0 <= k < |s| - 1 ==> s[1..][k] == s[k + 1];
      StripLeftAllSpace(s[1..]);
    }
  }

  /** Stripping twice strips nothing more. */
  lemma StripIdempotent(s: string)
    ensures Strip(Strip(s)) == Strip(s)
  {
    var r := Strip(s);
    assert r[..0] == [] && r[|r|..] == [];
    StripIsTrim(r, 0, |r|);
  }

  /** A message strips to nothing exactly when it is all whitespace. */
  lemma StripEmptyIff(s: string)
    ensures Strip(s) == [] <==> AllSpace(s)
  {
    if AllSpace(s) {
      StripLeftAllSpace(s);
    }
  }
}
