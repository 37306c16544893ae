/**
 Splitting a text at newline characters, as the inline suggestion does with
 `str::split('\n')` (all pieces) and `str::split_once('\n')` (the first piece).
 */
module Lines {

  const Newline: char := '\n'

  /** Number of occurrences of `c` in `s`. */
  function Occurrences(s: string, c: char): nat
    decreases |s|
  {
    if s == [] then 0 else (if s[0] == c then 1 else 0) + Occurrences(s[1..], c)
  }

  lemma {:induction false} OccurrencesAppend(a: string, b: string, c: char)
    ensures Occurrences(a + b, c) == Occurrences(a, c) + Occurrences(b, c)
    decreases |a|
  {
    if a == [] {
      assert a + b == b;
    } else {
      assert (a + b)[1..] == a[1..] + b;
      OccurrencesAppend(a[1..], b, c);
    }
  }

  lemma {:induction false} OccurrencesAbsent(s: string, c: char)
    requires c !in s
    ensures Occurrences(s, c) == 0
    decreases |s|
  {
    if s != [] {
      assert s[0] != c;
      assert forall k :: 0 <= k < |s[1..]| ==> s[1..][k] == s[k + 1];
      OccurrencesAbsent(s[1..], c);
    }
  }

  /** Index of the first occurrence of `c` in `s`. */
  function IndexOf(s: string, c: char): (i: nat)
    requires c in s
    ensures i < |s| && s[i] == c && c !in s[..i]
    decreases |s|
  {
    if s[0] == c then 0
    else
      var j := IndexOf(s[1..], c);
      assert s[..j + 1] == [s[0]] + s[1..][..j];
      j + 1
  }

  /** The first occurrence is the only position holding `c` with no `c` before it. */
  lemma IndexOfUnique(s: string, c: char, i: nat)
    requires i < |s| && s[i] == c && c !in s[..i]
    ensures IndexOf(s, c) == i
  {
  }

  /**
   `split_once('\n')`'s first half, or the whole text when it has no newline:
   the longest prefix of `s` that holds no newline.
   */
  function FirstLine(s: string): (r: string)
    ensures r <= s
    ensures Newline !in r
    ensures |r| < |s| ==> s[|r|] == Newline
  {
    if Newline in s then s[..IndexOf(s, Newline)] else s
  }

  /** The texts joined with a newline between neighbours. */
  function Join(parts: seq<string>): string
    requires |parts| >= 1
    decreases |parts|
  {
    if |parts| == 1 then parts[0] else parts[0] + [Newline] + Join(parts[1..])
  }

  /** No piece holds a newline. */
  predicate NoNewlines(parts: seq<string>)
  {
    forall k :: 0 <= k < |parts| ==> Newline !in parts[k]
  }

  /**
   `split('\n')`: the pieces between newlines. There is one more piece than
   there are newlines, no piece holds a newline, joining them gives the text
   back, and the first piece is `FirstLine(s)`.
   */
  function Split(s: string): (parts: seq<string>)
    ensures |parts| == Occurrences(s, Newline) + 1
    ensures NoNewlines(parts)
    ensures Join(parts) == s
    ensures parts[0] == FirstLine(s)
    decreases |s|
  {
    if Newline !in s then
      OccurrencesAbsent(s, Newline);
      [s]
    else
      var i := IndexOf(s, Newline);
      var rest := Split(s[i + 1..]);
      assert s == s[..i] + [Newline] + s[i + 1..];
      OccurrencesAppend(s[..i] + [Newline], s[i + 1..], Newline);
      OccurrencesAppend(s[..i], [Newline], Newline);
      OccurrencesAbsent(s[..i], Newline);
      assert ([s[..i]] + rest)[1..] == rest;
      [s[..i]] + rest
  }

  /** Splitting undoes joining, for pieces without newlines. */
  lemma {:induction false} SplitJoin(parts: seq<string>)
    requires |parts| >= 1 && NoNewlines(parts)
    ensures Split(Join(parts)) == parts
    decreases |parts|
  {
    if |parts| > 1 {
      var s := Join(parts);
      JoinHead(parts);
      SplitUnfold(s);
      NoNewlinesTail(parts);
      SplitJoin(parts[1..]);
      assert parts == [parts[0]] + parts[1..];
    }
  }

  /** A join of several newline-free pieces: its first newline ends the first piece. */
  lemma JoinHead(parts: seq<string>)
    requires |parts| > 1 && NoNewlines(parts)
    ensures var s := Join(parts);
            && Newline in s
            && IndexOf(s, Newline) == |parts[0]|
            && s[..|parts[0]|] == parts[0]
            && s[|parts[0]| + 1..] == Join(parts[1..])
  {
    var s := Join(parts);
    var p := parts[0];
    assert s == p + [Newline] + Join(parts[1..]);
    assert s[|p|] == Newline;
    assert s[..|p|] == p;
    IndexOfUnique(s, Newline, |p|);
  }

  /** `split` of a text holding a newline: the text before it, then the split of the rest. */
  lemma SplitUnfold(s: string)
    requires Newline in s
    ensures Split(s) == [s[..IndexOf(s, Newline)]] + Split(s[IndexOf(s, Newline) + 1..])
  {
  }

  lemma NoNewlinesTail(parts: seq<string>)
    requires |parts| >= 1 && NoNewlines(parts)
    ensures NoNewlines(parts[1..])
  {
    forall k | 0 <= k < |parts[1..]|
      ensures Newline !in parts[1..][k]
    {
      assert parts[1..][k] == parts[k + 1];
    }
  }
}
