/** Strings and separators. A C array `char str[N]` is its content, N - 1 characters, with a NUL after it. */
module Text {

  const NUL: char := 0 as char

  /** `str[i]` for the array that holds s and its terminating NUL. */
  function At(s: string, i: nat): char
    requires i <= |s|
  {
    if i < |s| then s[i] else NUL
  }

  predicate Free(s: string, c: char) {
    forall i :: 0 <= i < |s| ==> s[i] != c
  }

  /** Where the component that starts at `from` ends: at the next separator or at the end of the text. */
  function TokenEnd(s: string, from: nat, sep: char): (k: nat)
    requires from <= |s|
    ensures from <= k <= |s| && (k < |s| ==> s[k] == sep)
    decreases |s| - from
  {
    if from == |s| || s[from] == sep then from else TokenEnd(s, from + 1, sep)
  }

  function Token(s: string, from: nat, sep: char): string
    requires from <= |s|
  {
    s[from..TokenEnd(s, from, sep)]
  }

  /** The last c before position `end`, or -1. */
  function LastBefore(s: string, end: int, c: char): (k: int)
    requires end <= |s|
    ensures -1 <= k && (k >= 0 ==> k < end && s[k] == c)
    decreases end
  {
    if end <= 0 then -1 else if s[end - 1] == c then end - 1 else LastBefore(s, end - 1, c)
  }

  /** The parts of s[lo..hi] between the separators: n separators make n + 1 parts. */
  function Parts(s: string, lo: nat, hi: nat, sep: char): (parts: seq<string>)
    requires lo <= hi <= |s|
    ensures |parts| > 0
    decreases hi
  {
    var d := LastBefore(s, hi, sep);
    if d < lo then [s[lo..hi]] else Parts(s, lo, d, sep) + [s[d + 1..hi]]
  }

  function Split(s: string, sep: char): (parts: seq<string>)
    ensures |parts| > 0
  {
    Parts(s, 0, |s|, sep)
  }

  function Join(parts: seq<string>, sep: char): string
    requires |parts| > 0
  {
    if |parts| == 1 then parts[0]
    else Join(parts[..|parts| - 1], sep) + [sep] + parts[|parts| - 1]
  }

  // ----- Tokens and the last separator, declaratively -----

  lemma {:induction false} TokenIsFree(s: string, from: nat, sep: char)
    requires from <= |s|
    ensures Free(Token(s, from, sep), sep)
    decreases |s| - from
  {
    if from == |s| || s[from] == sep {
    } else {
      TokenIsFree(s, from + 1, sep);
      assert Token(s, from, sep) == [s[from]] + Token(s, from + 1, sep);
    }
  }

  lemma {:induction false} TokenEndIs(s: string, from: nat, end: nat, sep: char)
    requires from <= end <= |s| && Free(s[from..end], sep)
    requires end < |s| ==> s[end] == sep
    ensures TokenEnd(s, from, sep) == end
    decreases end - from
  {
    if from == end {
    } else {
      assert s[from..end][0] == s[from];
      assert s[from + 1..end] == s[from..end][1..];
      TokenEndIs(s, from + 1, end, sep);
    }
  }

  lemma {:induction false} FreeAfterLast(s: string, end: nat, c: char)
    requires end <= |s|
    ensures Free(s[LastBefore(s, end, c) + 1..end], c)
    decreases end
  {
    if end == 0 || s[end - 1] == c {
    } else {
      FreeAfterLast(s, end - 1, c);
      var d := LastBefore(s, end, c);
      assert s[d + 1..end] == s[d + 1..end - 1] + [s[end - 1]];
    }
  }

  lemma {:induction false} LastBeforeIs(s: string, end: nat, k: int, c: char)
    requires end <= |s| && -1 <= k < end
    requires k >= 0 ==> s[k] == c
    requires Free(s[k + 1..end], c)
    ensures LastBefore(s, end, c) == k
    decreases end
  {
    if k + 1 == end {
    } else {
      assert s[k + 1..end][end - k - 2] == s[end - 1];
      assert s[k + 1..end - 1] == s[k + 1..end][..end - k - 2];
      LastBeforeIs(s, end - 1, k, c);
    }
  }

  /** A token that starts after the last separator before `end`, and ends there. */
  lemma LastToken(s: string, from: nat, end: nat, sep: char)
    requires from <= end <= |s| && LastBefore(s, end, sep) < from
    requires end < |s| ==> s[end] == sep
    ensures TokenEnd(s, from, sep) == end
  {
    FreeAfterLast(s, end, sep);
    FreeSuffix(s, LastBefore(s, end, sep) + 1, from, end, sep);
    TokenEndIs(s, from, end, sep);
  }

  // ----- Putting texts together -----

  function Concat(texts: seq<string>): string {
    if texts == [] then "" else texts[0] + Concat(texts[1..])
  }

  lemma Associate(a: string, b: string, c: string)
    ensures a + (b + c) == a + b + c
  {
  }

  lemma ConcatCons(first: string, rest: seq<string>)
    ensures Concat([first] + rest) == first + Concat(rest)
  {
    assert ([first] + rest)[1..] == rest;
  }

  lemma {:induction false} ConcatSnoc(texts: seq<string>, last: string)
    ensures Concat(texts + [last]) == Concat(texts) + last
  {
    if texts == [] {
      assert [] + [last] == [last] && [last][1..] == [];
    } else {
      ConcatSnoc(texts[1..], last);
      assert (texts + [last])[1..] == texts[1..] + [last];
      Associate(texts[0], Concat(texts[1..]), last);
    }
  }

  // ----- Splitting and joining are inverse -----

  lemma {:induction false} PartIsFree(s: string, lo: nat, hi: nat, sep: char, i: nat)
    requires lo <= hi <= |s| && i < |Parts(s, lo, hi, sep)|
    ensures Free(Parts(s, lo, hi, sep)[i], sep)
    decreases hi
  {
    hide Free;
    var d := LastBefore(s, hi, sep);
    if d >= lo && i < |Parts(s, lo, d, sep)| {
      PartIsFree(s, lo, d, sep, i);
    } else {
      LastPartIsFree(s, lo, hi, sep);
    }
  }

  lemma LastPartIsFree(s: string, lo: nat, hi: nat, sep: char)
    requires lo <= hi <= |s|
    ensures var p := Parts(s, lo, hi, sep); Free(p[|p| - 1], sep)
  {
    FreeAfterLast(s, hi, sep);
    var d := LastBefore(s, hi, sep);
    if d < lo {
      FreeSuffix(s, d + 1, lo, hi, sep);
    }
  }

  lemma FreeSuffix(s: string, from: nat, lo: nat, hi: nat, c: char)
    requires from <= lo <= hi <= |s| && Free(s[from..hi], c)
    ensures Free(s[lo..hi], c)
  {
    assert s[lo..hi] == s[from..hi][lo - from..];
  }

  lemma {:induction false} JoinParts(s: string, hi: nat, sep: char)
    requires hi <= |s|
    ensures Join(Parts(s, 0, hi, sep), sep) == s[..hi]
    decreases hi
  {
    var d := LastBefore(s, hi, sep);
    if d < 0 {
    } else {
      JoinParts(s, d, sep);
      var parts := Parts(s, 0, hi, sep);
      assert parts[..|parts| - 1] == Parts(s, 0, d, sep);
      assert s[..d] + [sep] + s[d + 1..hi] == s[..hi];
    }
  }

  lemma JoinSplit(s: string, sep: char)
    ensures Join(Split(s, sep), sep) == s
    ensures forall i :: 0 <= i < |Split(s, sep)| ==> Free(Split(s, sep)[i], sep)
  {
    JoinParts(s, |s|, sep);
    forall i | 0 <= i < |Split(s, sep)| ensures Free(Split(s, sep)[i], sep) {
      PartIsFree(s, 0, |s|, sep, i);
    }
  }

  lemma {:induction false} SplitJoin(parts: seq<string>, sep: char)
    requires |parts| > 0
    requires forall i :: 0 <= i < |parts| ==> Free(parts[i], sep)
    ensures Split(Join(parts, sep), sep) == parts
  {
    var s := Join(parts, sep);
    if |parts| > 1 {
      var front := parts[..|parts| - 1];
      SplitJoin(front, sep);
      SplitSnoc(Join(front, sep), parts[|parts| - 1], sep);
    } else {
      assert s[0..|s|] == s;
      LastBeforeIs(s, |s|, -1, sep);
    }
  }

  lemma SplitSnoc(front: string, last: string, sep: char)
    requires Free(last, sep)
    ensures Split(front + [sep] + last, sep) == Split(front, sep) + [last]
  {
    var s, n := front + [sep] + last, |front|;
    assert s[n + 1..|s|] == last && s[..n] == front == front[..n];
    LastBeforeIs(s, |s|, n, sep);
    PartsOfPrefix(s, front, n, sep);
  }

  lemma JoinOne(t: string, sep: char)
    ensures Join([t], sep) == t
  {
  }

  lemma JoinSnoc(front: seq<string>, last: string, sep: char)
    requires front != []
    ensures Join(front + [last], sep) == Join(front, sep) + [sep] + last
  {
    assert (front + [last])[..|front|] == front;
  }

  lemma {:induction false} JoinCons(t: string, rest: seq<string>, sep: char)
    requires rest != []
    ensures Join([t] + rest, sep) == t + [sep] + Join(rest, sep)
  {
    hide Join;
    var front, last := rest[..|rest| - 1], rest[|rest| - 1];
    assert rest == front + [last];
    if |rest| == 1 {
      JoinOne(t, sep);
      JoinOne(last, sep);
      JoinSnoc([t], last, sep);
    } else {
      JoinCons(t, front, sep);
      JoinSnoc(front, last, sep);
      JoinSnoc([t] + front, last, sep);
      assert [t] + rest == [t] + front + [last];
      assert t + [sep] + (Join(front, sep) + [sep] + last) == t + [sep] + Join(front, sep) + [sep] + last;
    }
  }

  /** A first part, a separator, and the rest. */
  lemma SplitCons(first: string, rest: string, sep: char)
    requires Free(first, sep)
    ensures Split(first + [sep] + rest, sep) == [first] + Split(rest, sep)
  {
    hide Split, Join, Free;
    JoinSplit(rest, sep);
    JoinCons(first, Split(rest, sep), sep);
    SplitJoin([first] + Split(rest, sep), sep);
  }

  lemma {:induction false} PartsOfPrefix(s: string, t: string, hi: nat, sep: char)
    requires hi <= |s| && hi <= |t| && s[..hi] == t[..hi]
    ensures Parts(s, 0, hi, sep) == Parts(t, 0, hi, sep)
    decreases hi
  {
    LastOfPrefix(s, t, hi, sep);
    var d := LastBefore(s, hi, sep);
    if d >= 0 {
      assert s[..d] == s[..hi][..d] && t[..d] == t[..hi][..d];
      PartsOfPrefix(s, t, d, sep);
      assert s[d + 1..hi] == s[..hi][d + 1..] && t[d + 1..hi] == t[..hi][d + 1..];
    } else {
      assert s[0..hi] == s[..hi] && t[0..hi] == t[..hi];
    }
  }

  lemma {:induction false} LastOfPrefix(s: string, t: string, hi: nat, sep: char)
    requires hi <= |s| && hi <= |t| && s[..hi] == t[..hi]
    ensures LastBefore(s, hi, sep) == LastBefore(t, hi, sep)
    decreases hi
  {
    if hi == 0 {
    } else {
      assert s[hi - 1] == s[..hi][hi - 1] && t[hi - 1] == t[..hi][hi - 1];
      assert s[..hi - 1] == s[..hi][..hi - 1] && t[..hi - 1] == t[..hi][..hi - 1];
      LastOfPrefix(s, t, hi - 1, sep);
    }
  }

  // ----- Working at an index is working on the suffix -----

  lemma {:induction false} TokenEndOfSuffix(s: string, idx: nat, from: nat, sep: char)
    requires idx <= from <= |s|
    ensures TokenEnd(s[idx..], from - idx, sep) == TokenEnd(s, from, sep) - idx
    decreases |s| - from
  {
    if from == |s| || s[from] == sep {
    } else {
      TokenEndOfSuffix(s, idx, from + 1, sep);
    }
  }

  lemma {:induction false} LastOfSuffix(s: string, idx: nat, end: nat, sep: char)
    requires idx <= end <= |s|
    ensures var d := LastBefore(s, end, sep);
            LastBefore(s[idx..], end - idx, sep) == if d < idx then -1 else d - idx
    decreases end
  {
    if end == idx {
    } else {
      assert s[idx..][end - 1 - idx] == s[end - 1];
      if s[end - 1] != sep {
        LastOfSuffix(s, idx, end - 1, sep);
      }
    }
  }

  lemma PartsStep(s: string, lo: nat, hi: nat, sep: char)
    requires lo <= hi <= |s|
    ensures var d := LastBefore(s, hi, sep);
            Parts(s, lo, hi, sep) == if d < lo then [s[lo..hi]] else Parts(s, lo, d, sep) + [s[d + 1..hi]]
  {
  }

  lemma {:induction false} PartsOfSuffix(s: string, idx: nat, hi: nat, sep: char)
    requires idx <= hi <= |s|
    ensures Parts(s[idx..], 0, hi - idx, sep) == Parts(s, idx, hi, sep)
    decreases hi
  {
    hide LastBefore, Parts;
    LastOfSuffix(s, idx, hi, sep);
    PartsStep(s, idx, hi, sep);
    PartsStep(s[idx..], 0, hi - idx, sep);
    var d := LastBefore(s, hi, sep);
    if d >= idx {
      PartsOfSuffix(s, idx, d, sep);
      SliceOfSuffix(s, idx, d + 1, hi);
    } else {
      SliceOfSuffix(s, idx, idx, hi);
    }
  }

  lemma SliceOfSuffix(s: string, idx: nat, lo: nat, hi: nat)
    requires idx <= lo <= hi <= |s|
    ensures s[idx..][lo - idx..hi - idx] == s[lo..hi]
  {
  }

  // ----- The search loops -----

  /** `find_chr`: the first c from `from` on, or -1. */
  method FindChr(s: string, from: nat, c: char) returns (r: int)
    requires from <= |s| && c != NUL
    ensures r == if TokenEnd(s, from, c) < |s| then TokenEnd(s, from, c) else -1
  {
    var i := from;
    while i < |s| + 1
      invariant from <= i <= |s| + 1
      invariant i <= |s| ==> TokenEnd(s, from, c) == TokenEnd(s, i, c)
      invariant i > |s| ==> TokenEnd(s, from, c) == |s|
    {
      if At(s, i) == c {
        return i;
      }
      i := i + 1;
    }
    return -1;
  }

  /** `rfind_chr`: the last c at or before `from`, or -1; a negative `from` is a search that has run out. */
  method RFindChr(s: string, from: int, c: char) returns (r: int)
    requires from <= |s| && c != NUL
    ensures r == LastBefore(s, if from < |s| then from + 1 else |s|, c)
  {
    var i := from;
    while i >= 0
      invariant i <= from && (i < -1 ==> i == from)
      invariant LastBefore(s, if from < |s| then from + 1 else |s|, c)
                == LastBefore(s, if i < |s| then i + 1 else |s|, c)
    {
      if At(s, i) == c {
        return i;
      }
      i := i - 1;
    }
    return -1;
  }
}
