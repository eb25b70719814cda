/** What the line buffer promises over whole streams. */
module LineBufferLaws {
  import opened Machine
  import opened Text
  import opened LineBuffer

  // ----- Nothing is lost -----

  /** The input that the pieces were made of. */
  function Input(pieces: seq<Piece>): string {
    if pieces == [] then "" else InputOf(pieces[0]) + Input(pieces[1..])
  }

  function InputOf(p: Piece): string {
    if p.Line? then p.text + [p.terminator] else p.text
  }

  lemma InputCons(p: Piece, rest: seq<Piece>)
    ensures Input([p] + rest) == InputOf(p) + Input(rest)
  {
    assert ([p] + rest)[1..] == rest;
  }

  lemma {:induction false} InputOfBoth(p: seq<Piece>, q: seq<Piece>)
    ensures Input(p + q) == Input(p) + Input(q)
  {
    hide InputOf;
    if p == [] {
      assert p + q == q;
    } else {
      var rest := p[1..];
      InputOfBoth(rest, q);
      assert (p + q)[1..] == rest + q;
      InputCons(p[0], rest);
      InputCons(p[0], rest + q);
      hide Input;
      assert [p[0]] + rest == p && [p[0]] + (rest + q) == p + q;
      Associate(InputOf(p[0]), Input(rest), Input(q));
    }
  }

  lemma {:induction false} ScanKeepsAll(search: EolSearch, d: string, p: nat, pending: string)
    requires Legal(search) && p <= |d|
    ensures var r := Scan(search, d, p, pending); Input(r.pieces) + r.rest == pending + d[p..]
    decreases |d| - p
  {
    hide Scan, Input;
    ScanUnfold(search, d, p, pending);
    NoInput();
    if search(d, p).None? {
    } else {
      var n := search(d, p).value;
      var r := Scan(search, d, n + 1, "");
      ScanKeepsAll(search, d, n + 1, "");
      InputCons(Line(pending + d[p..n], d[n]), r.pieces);
      Reassemble(pending, d, p, n, Input(r.pieces), r.rest);
    }
  }

  lemma Reassemble(pending: string, d: string, p: nat, n: nat, x: string, y: string)
    requires p <= n < |d| && x + y == "" + d[n + 1..]
    ensures pending + d[p..n] + [d[n]] + x + y == pending + d[p..]
  {
    assert pending + d[p..n] + [d[n]] + x + y == pending + (d[p..n] + [d[n]] + (x + y));
    assert d[p..n] + [d[n]] + d[n + 1..] == d[p..];
  }

  lemma FeedKeepsAll(search: EolSearch, max: nat, data: string, chunk: string)
    requires Legal(search)
    ensures var r := Feed(search, max, data, chunk); Input(r.pieces) + r.rest == data + chunk && |r.rest| <= max
  {
    ScanKeepsAll(search, chunk, 0, data);
    hide Scan;
    assert chunk[0..] == chunk;
    var r := Scan(search, chunk, 0, data);
    InputOfBoth(r.pieces, [Overflow(r.rest)]);
    assert [Overflow(r.rest)][1..] == [];
  }

  /** For every legal search and every chunking: the input is the pieces, with their terminators, and the buffer. */
  lemma {:induction false} NothingIsLost(search: EolSearch, max: nat, data: string, chunks: seq<string>)
    requires Legal(search)
    ensures var r := FeedAll(search, max, data, chunks);
            Input(r.pieces) + r.rest == data + Concat(chunks) && (chunks != [] ==> |r.rest| <= max)
    decreases |chunks|
  {
    hide Feed, Input;
    if chunks != [] {
      var r := Feed(search, max, data, chunks[0]);
      var s := FeedAll(search, max, r.rest, chunks[1..]);
      FeedKeepsAll(search, max, data, chunks[0]);
      NothingIsLost(search, max, r.rest, chunks[1..]);
      InputOfBoth(r.pieces, s.pieces);
      assert Input(r.pieces) + Input(s.pieces) + s.rest == Input(r.pieces) + (Input(s.pieces) + s.rest);
      assert data + (chunks[0] + Concat(chunks[1..])) == data + chunks[0] + Concat(chunks[1..]);
    } else {
      assert Input([]) + data == data + "" by { NoInput(); }
    }
  }

  lemma NoInput()
    ensures Input([]) == ""
  {
  }

  /** Each piece is reported with its text, and as complete exactly if it is a line. */
  lemma CallsSay(pieces: seq<Piece>, k: nat)
    requires k < |pieces|
    ensures Calls(pieces)[k].text == pieces[k].text && (Calls(pieces)[k].complete <==> pieces[k].Line?)
  {
  }

  // ----- The default search, in one pass -----

  /** A line feed, or a carriage return that no line feed follows; and nothing of the kind before it. */
  lemma {:induction false} FirstLineEnd(d: string, p: nat, n: nat)
    requires p <= |d|
    ensures DefaultSearch(d, p) == Some(n)
            <==> && p <= n < |d| && (d[n] == '\n' || (d[n] == '\r' && (n == |d| - 1 || d[n + 1] != '\n')))
                 && forall i :: p <= i < n ==> d[i] != '\n' && (d[i] == '\r' ==> i == n - 1 && d[n] == '\n')
    decreases |d| - p
  {
    if p == |d| || EndsAt(d, p) {
    } else {
      FirstLineEnd(d, p + 1, n);
    }
  }


  predicate HasEol(s: string) {
    exists i :: 0 <= i < |s| && (s[i] == '\n' || s[i] == '\r')
  }

  /** Lines and remainder, character by character. */
  function OnePass(pending: string, d: string): Outcome
    decreases |d|
  {
    if d == "" then Outcome([], pending)
    else if EndsAt(d, 0) then
      var r := OnePass("", d[1..]);
      Outcome([Line(pending, d[0])] + r.pieces, r.rest)
    else OnePass(pending + [d[0]], d[1..])
  }

  lemma EndsAtSuffix(d: string, p: nat)
    requires p < |d|
    ensures EndsAt(d[p..], 0) == EndsAt(d, p)
    ensures d[p..][1..] == d[p + 1..] && d[p..][0] == d[p]
  {
  }

  /** The searches over a chunk find the lines of one pass. */
  lemma {:induction false} ScanIsOnePass(d: string, p: nat, q: nat, pending: string)
    requires p <= q <= |d|
    requires DefaultSearch(d, p) == DefaultSearch(d, q)
    ensures Scan(DefaultSearch, d, p, pending) == OnePass(pending + d[p..q], d[q..])
    decreases |d| - q
  {
    hide OnePass, Scan, EndsAt, DefaultSearch;
    ScanUnfold(DefaultSearch, d, p, pending);
    SearchStep(d, q);
    if q == |d| {
      assert d[p..q] == d[p..] && d[q..] == "";
      OnePassEnd(pending + d[p..q]);
    } else {
      EndsAtSuffix(d, q);
      OnePassStep(pending + d[p..q], d[q..]);
      if EndsAt(d, q) {
        ScanIsOnePass(d, q + 1, q + 1, "");
        assert "" + d[q + 1..q + 1] == "";
      } else {
        ScanIsOnePass(d, p, q + 1, pending);
        OneCharacterMore(pending, d, p, q);
      }
    }
  }

  lemma SearchStep(d: string, q: nat)
    requires q <= |d|
    ensures DefaultSearch(d, q)
            == if q == |d| then None else if EndsAt(d, q) then Some(q) else DefaultSearch(d, q + 1)
  {
  }

  lemma OneCharacterMore(pending: string, d: string, p: nat, q: nat)
    requires p <= q < |d|
    ensures pending + d[p..q + 1] == pending + d[p..q] + [d[q]]
  {
  }

  lemma OnePassEnd(pending: string)
    ensures OnePass(pending, "") == Outcome([], pending)
  {
  }

  lemma OnePassStep(pending: string, d: string)
    requires d != ""
    ensures var r := OnePass("", d[1..]);
            OnePass(pending, d) == if EndsAt(d, 0) then Outcome([Line(pending, d[0])] + r.pieces, r.rest)
                                   else OnePass(pending + [d[0]], d[1..])
  {
  }

  lemma FeedIsOnePass(max: nat, data: string, chunk: string)
    ensures Feed(DefaultSearch, max, data, chunk) == Limit(max, OnePass(data, chunk))
  {
    hide OnePass, Scan;
    ScanIsOnePass(chunk, 0, 0, data);
    assert data + chunk[0..0] == data && chunk[0..] == chunk;
  }

  // ----- The shape of lines and remainders -----

  /** A carriage return only in last place, and no line feed. */
  predicate IsLineText(t: string) {
    forall i :: 0 <= i < |t| ==> t[i] != '\n' && (t[i] == '\r' ==> i == |t| - 1)
  }

  /** A line as a search can have found it. */
  predicate IsLine(p: Piece) {
    && p.Line? && IsLineText(p.text)
    && (p.terminator == '\n' || (p.terminator == '\r' && '\r' !in p.text))
  }

  predicate AllLines(pieces: seq<Piece>) {
    forall k :: 0 <= k < |pieces| ==> IsLine(pieces[k])
  }

  /** A pending text before d: a carriage return in it is the last character, and a line feed follows. */
  predicate Pending(pending: string, d: string) {
    IsLineText(pending) && (pending != "" && pending[|pending| - 1] == '\r' ==> d != "" && d[0] == '\n')
  }

  lemma {:induction false} ShapeOfOnePass(pending: string, d: string)
    requires Pending(pending, d)
    ensures var r := OnePass(pending, d); AllLines(r.pieces) && !HasEol(r.rest)
    decreases |d|
  {
    if d == "" {
    } else {
      if EndsAt(d, 0) {
        ShapeOfOnePass("", d[1..]);
      } else {
        ShapeOfOnePass(pending + [d[0]], d[1..]);
      }
    }
  }

  /** Lines end with their terminator; what overflows is longer than the limit and holds no line end. */
  ghost predicate WellShaped(max: nat, pieces: seq<Piece>) {
    forall k :: 0 <= k < |pieces| ==>
      if pieces[k].Line? then IsLine(pieces[k]) else !HasEol(pieces[k].text) && |pieces[k].text| > max
  }

  /** Over any chunks: no reported text holds a line end, but for the CR of a CRLF, and no remainder does. */
  lemma {:induction false} ShapeOfFeedAll(max: nat, data: string, chunks: seq<string>)
    requires !HasEol(data)
    ensures var r := FeedAll(DefaultSearch, max, data, chunks); WellShaped(max, r.pieces) && !HasEol(r.rest)
    decreases |chunks|
  {
    hide OnePass, Feed, HasEol, IsLineText, Pending;
    if chunks == [] {
    } else {
      var r := Feed(DefaultSearch, max, data, chunks[0]);
      FeedIsOnePass(max, data, chunks[0]);
      IdleIsPending(data, chunks[0]);
      ShapeOfOnePass(data, chunks[0]);
      EmptyHasNoEol();
      ShapeOfFeedAll(max, r.rest, chunks[1..]);
    }
  }

  lemma EmptyHasNoEol()
    ensures !HasEol("")
  {
  }

  lemma IdleIsPending(data: string, d: string)
    requires !HasEol(data)
    ensures Pending(data, d)
  {
  }

  function TextsOf(pieces: seq<Piece>): (texts: seq<string>)
    ensures |texts| == |pieces|
  {
    seq(|pieces|, k requires 0 <= k < |pieces| => pieces[k].text)
  }

  /** Without carriage returns the lines and the remainder are the parts between the line feeds. */
  lemma {:induction false} LinesAreSplit(pending: string, d: string)
    requires '\r' !in d && Free(pending, '\n')
    ensures var r := OnePass(pending, d); TextsOf(r.pieces) + [r.rest] == Split(pending + d, '\n')
    decreases |d|
  {
    hide Split, OnePass;
    if d == "" {
      OnePassEnd(pending);
      JoinOne(pending, '\n');
      SplitJoin([pending], '\n');
      assert pending + d == pending && TextsOf([]) + [pending] == [pending];
    } else {
      OnePassStep(pending, d);
      if EndsAt(d, 0) {
        LinesAreSplit("", d[1..]);
        var r, parts := OnePass("", d[1..]), Split(d[1..], '\n');
        assert "" + d[1..] == d[1..];
        SplitCons(pending, d[1..], '\n');
        assert pending + d == pending + ['\n'] + d[1..];
        assert TextsOf([Line(pending, d[0])] + r.pieces) == [pending] + TextsOf(r.pieces);
      } else {
        LinesAreSplit(pending + [d[0]], d[1..]);
        assert pending + d == pending + [d[0]] + d[1..];
      }
    }
  }

  // ----- Chunks -----

  function Append(r: Outcome, s: Outcome): Outcome {
    Outcome(r.pieces + s.pieces, s.rest)
  }

  /** The boundary between a and b parts a carriage return from its line feed. */
  predicate Cuts(a: string, b: string) {
    a != "" && a[|a| - 1] == '\r' && b != "" && b[0] == '\n'
  }

  lemma {:induction false} OnePassOfBoth(pending: string, a: string, b: string)
    requires !Cuts(a, b)
    ensures OnePass(pending, a + b) == Append(OnePass(pending, a), OnePass(OnePass(pending, a).rest, b))
    decreases |a|
  {
    hide OnePass, EndsAt;
    if a == "" {
      OnePassEnd(pending);
      assert a + b == b;
    } else {
      assert (a + b)[1..] == a[1..] + b && (a + b)[0] == a[0];
      SameEnd(a, b);
      OnePassStep(pending, a);
      OnePassStep(pending, a + b);
      OnePassOfBoth(if EndsAt(a, 0) then "" else pending + [a[0]], a[1..], b);
      if EndsAt(a, 0) {
        var r := OnePass("", a[1..]);
        assert [Line(pending, a[0])] + r.pieces + OnePass(r.rest, b).pieces
            == [Line(pending, a[0])] + (r.pieces + OnePass(r.rest, b).pieces);
      }
    }
  }

  lemma SameEnd(a: string, b: string)
    requires a != "" && !Cuts(a, b)
    ensures EndsAt(a + b, 0) == EndsAt(a, 0)
  {
  }

  /** Chunk boundaries cannot be seen, as long as none of them parts a CRLF and no remainder overflows at one. */
  lemma {:induction false} ChunksAreOneStream(max: nat, data: string, chunks: seq<string>)
    requires |data| <= max
    requires forall s :: s in chunks ==> '\r' !in s
    requires '\n' !in data && '\r' !in data && FitsInto(max, data + Concat(chunks))
    ensures FeedAll(DefaultSearch, max, data, chunks) == OnePass(data, Concat(chunks))
    decreases |chunks|
  {
    hide OnePass, Feed;
    if chunks == [] {
      OnePassEnd(data);
    } else {
      var a, b := chunks[0], Concat(chunks[1..]);
      FeedIsOnePass(max, data, a);
      RemainderFits(max, data, a, b);
      var rest := OnePass(data, a).rest;
      ChunksAreOneStream(max, rest, chunks[1..]);
      OnePassOfBoth(data, a, b);
    }
  }

  /** No more than max characters without a line feed among them. */
  ghost predicate FitsInto(max: nat, s: string) {
    forall i, j {:trigger s[i..j]} :: 0 <= i <= j <= |s| && '\n' !in s[i..j] ==> j - i <= max
  }

  lemma {:induction false} RemainderIsSuffix(data: string, a: string)
    requires '\n' !in data && '\r' !in data && '\r' !in a
    ensures var rest := OnePass(data, a).rest;
            '\n' !in rest && '\r' !in rest && |rest| <= |data + a| && rest == (data + a)[|data + a| - |rest|..]
    decreases |a|
  {
    hide OnePass;
    if a == "" {
      OnePassEnd(data);
      assert data + a == data;
    } else {
      var pending := if EndsAt(a, 0) then "" else data + [a[0]];
      OnePassStep(data, a);
      assert '\r' !in a[1..];
      RemainderIsSuffix(pending, a[1..]);
      assert pending + a[1..] == (data + a)[|data + a| - |pending + a[1..]|..];
      SuffixOfSuffix(data + a, pending + a[1..], OnePass(pending, a[1..]).rest);
    }
  }

  lemma SuffixOfSuffix(s: string, t: string, rest: string)
    requires |rest| <= |t| <= |s| && t == s[|s| - |t|..] && rest == t[|t| - |rest|..]
    ensures rest == s[|s| - |rest|..]
  {
  }

  lemma RemainderFits(max: nat, data: string, a: string, b: string)
    requires '\n' !in data && '\r' !in data && '\r' !in a && FitsInto(max, data + (a + b))
    ensures var rest := OnePass(data, a).rest;
            |rest| <= max && '\n' !in rest && '\r' !in rest && FitsInto(max, rest + b)
  {
    RemainderIsSuffix(data, a);
    hide OnePass, FitsInto;
    var rest := OnePass(data, a).rest;
    var s, from := data + (a + b), |data + a| - |rest|;
    assert s == data + a + b;
    assert s[from..from + |rest|] == rest;
    assert s[from..] == rest + b;
    FitsSuffix(max, s, from);
    FitsSlice(max, s, from, from + |rest|);
  }

  lemma FitsSlice(max: nat, s: string, i: nat, j: nat)
    requires FitsInto(max, s) && i <= j <= |s| && '\n' !in s[i..j]
    ensures j - i <= max
  {
  }

  lemma FitsSuffix(max: nat, s: string, from: nat)
    requires FitsInto(max, s) && from <= |s|
    ensures FitsInto(max, s[from..])
  {
    forall i, j | 0 <= i <= j <= |s[from..]| && '\n' !in s[from..][i..j] ensures j - i <= max {
      assert s[from..][i..j] == s[from + i..from + j];
    }
  }

  lemma FitsPrefix(max: nat, s: string, t: string)
    requires FitsInto(max, s + t)
    ensures FitsInto(max, s)
  {
    forall i, j | 0 <= i <= j <= |s| && '\n' !in s[i..j] ensures j - i <= max {
      assert (s + t)[i..j] == s[i..j];
    }
  }

  // ----- When two chunks are one -----

  function Observed(r: Outcome): (seq<Call>, string) {
    (Calls(r.pieces), r.rest)
  }

  lemma TwoChunks(max: nat, data: string, a: string, b: string)
    ensures var first := Limit(max, OnePass(data, a));
            FeedAll(DefaultSearch, max, data, [a, b]) == Append(first, Limit(max, OnePass(first.rest, b)))
  {
    hide OnePass, Feed, Limit;
    var first := Limit(max, OnePass(data, a));
    FeedIsOnePass(max, data, a);
    FeedIsOnePass(max, first.rest, b);
    assert [a, b][1..] == [b] && [b][1..] == [];
    var second := Feed(DefaultSearch, max, first.rest, b);
    assert FeedAll(DefaultSearch, max, second.rest, []) == Outcome([], second.rest);
    assert FeedAll(DefaultSearch, max, first.rest, [b]) == Outcome(second.pieces + [], second.rest);
    assert second.pieces + [] == second.pieces;
  }

  lemma CallsOfBoth(p: seq<Piece>, q: seq<Piece>)
    ensures Calls(p + q) == Calls(p) + Calls(q)
  {
  }

  lemma LimitBehind(max: nat, r: Outcome, s: Outcome)
    ensures Limit(max, Append(r, s)) == Append(r, Limit(max, s))
  {
    assert r.pieces + s.pieces + [Overflow(s.rest)] == r.pieces + (s.pieces + [Overflow(s.rest)]);
  }

  /** Behind a CRLF that is cut, the carriage return has ended the line, and the line feed ends another, empty one. */
  lemma CutCrlf(max: nat, data: string, a: string, b: string)
    ensures var before, after := OnePass(data, a), Limit(max, OnePass("", b));
            var x := before.rest;
            && FeedAll(DefaultSearch, max, data, [a + "\r", "\n" + b])
               == Outcome(before.pieces + [Line(x, '\r'), Line("", '\n')] + after.pieces, after.rest)
            && Feed(DefaultSearch, max, data, a + "\r" + ("\n" + b))
               == Outcome(before.pieces + [Line(x + "\r", '\n')] + after.pieces, after.rest)
  {
    hide OnePass, Feed, FeedAll, Limit;
    var before, last := OnePass(data, a), OnePass("", b);
    var x := before.rest;
    CutTail(x, b);
    OnePassOfBoth(data, a, "\r");
    TwoChunks(max, data, a + "\r", "\n" + b);
    LimitEmpty(max, before.pieces + [Line(x, '\r')]);
    LimitBehind(max, Outcome([Line("", '\n')], ""), last);
    assert before.pieces + [Line(x, '\r')] + ([Line("", '\n')] + Limit(max, last).pieces)
        == before.pieces + [Line(x, '\r'), Line("", '\n')] + Limit(max, last).pieces;
    OnePassOfBoth(data, a, "\r\n" + b);
    assert a + "\r" + ("\n" + b) == a + ("\r\n" + b);
    FeedIsOnePass(max, data, a + "\r" + ("\n" + b));
    LimitBehind(max, Outcome(before.pieces + [Line(x + "\r", '\n')], ""), last);
    assert before.pieces + ([Line(x + "\r", '\n')] + last.pieces)
        == before.pieces + [Line(x + "\r", '\n')] + last.pieces;
  }

  lemma LimitEmpty(max: nat, pieces: seq<Piece>)
    ensures Limit(max, Outcome(pieces, "")) == Outcome(pieces, "")
  {
  }

  lemma CutTail(x: string, b: string)
    ensures OnePass(x, "\r") == Outcome([Line(x, '\r')], "")
    ensures OnePass("", "\n" + b) == Append(Outcome([Line("", '\n')], ""), OnePass("", b))
    ensures OnePass(x, "\r\n" + b) == Append(Outcome([Line(x + "\r", '\n')], ""), OnePass("", b))
  {
    assert ("\n" + b)[1..] == b && ("\r\n" + b)[1..] == "\n" + b && "\r"[1..] == "";
    hide OnePass;
    OnePassStep(x, "\r");
    OnePassEnd("");
    OnePassStep("", "\n" + b);
    OnePassStep(x, "\r\n" + b);
    OnePassStep(x + "\r", "\n" + b);
    assert [Line(x, '\r')] + [] == [Line(x, '\r')];
  }

  lemma OverflowShows(max: nat, rest: string, b: string)
    requires |rest| > max && b != ""
    ensures [Call(rest, false)] + Calls(Limit(max, OnePass("", b)).pieces) != Calls(Limit(max, OnePass(rest, b)).pieces)
  {
    hide OnePass, Limit;
    FirstCall(max, rest, b);
    var calls := Calls(Limit(max, OnePass(rest, b)).pieces);
    assert calls[0] != Call(rest, false);
  }

  lemma NothingFollows(max: nat, rest: string)
    requires |rest| > max
    ensures Observed(Limit(max, OnePass(rest, ""))) == ([Call(rest, false)], "")
    ensures Observed(Limit(max, OnePass("", ""))) == ([], "")
  {
    hide Calls;
    NoCalls();
    CallsSnoc([], Overflow(rest));
    assert [] + [Call(rest, false)] == [Call(rest, false)];
    assert Observed(Outcome([], "")) == ([], "");
  }

  lemma FirstCall(max: nat, rest: string, b: string)
    requires |rest| > max && b != ""
    ensures var r := Limit(max, OnePass(rest, b)); r.pieces != [] && CallOf(r.pieces[0]) != Call(rest, false)
  {
    Grows(rest, b);
  }

  lemma {:induction false} Grows(pending: string, b: string)
    ensures var r := OnePass(pending, b);
            if r.pieces == [] then |r.rest| == |pending| + |b| else r.pieces[0].Line?
    decreases |b|
  {
    if b == "" || EndsAt(b, 0) {
    } else {
      Grows(pending + [b[0]], b[1..]);
    }
  }

  /**
   Where a chunk boundary can be seen: feeding a and then b has the outcome of feeding both at once exactly if the
   boundary cuts no CRLF, and nothing follows it or the remainder of a is not overlong.
   */
  lemma ChunkingIsInvisible(max: nat, data: string, a: string, b: string)
    ensures Observed(FeedAll(DefaultSearch, max, data, [a, b])) == Observed(Feed(DefaultSearch, max, data, a + b))
            <==> !Cuts(a, b) && (|OnePass(data, a).rest| <= max || b == "")
  {
    hide OnePass, Feed, FeedAll;
    if Cuts(a, b) {
      CutIsVisible(max, data, a, b);
    } else {
      TwoChunks(max, data, a, b);
      FeedIsOnePass(max, data, a + b);
      OnePassOfBoth(data, a, b);
      var first := OnePass(data, a);
      LimitBehind(max, first, OnePass(first.rest, b));
      if |first.rest| > max {
        OverflowIsVisible(max, first, b);
      }
    }
  }

  lemma OverflowIsVisible(max: nat, first: Outcome, b: string)
    requires |first.rest| > max
    ensures Observed(Append(Limit(max, first), Limit(max, OnePass("", b))))
            == Observed(Append(first, Limit(max, OnePass(first.rest, b))))
            <==> b == ""
  {
    hide OnePass, Calls;
    var later, joined := Limit(max, OnePass("", b)), Limit(max, OnePass(first.rest, b));
    hide Limit;
    if b == "" {
      NothingFollows(max, first.rest);
    } else {
      OverflowShows(max, first.rest, b);
    }
    LimitStep(max, first);
    CallsSnoc(first.pieces, Overflow(first.rest));
    CallsOfBoth(first.pieces + [Overflow(first.rest)], later.pieces);
    CallsOfBoth(first.pieces, joined.pieces);
    assert Calls(first.pieces) + [Call(first.rest, false)] + Calls(later.pieces)
        == Calls(first.pieces) + ([Call(first.rest, false)] + Calls(later.pieces));
    SamePrefix(Calls(first.pieces), [Call(first.rest, false)] + Calls(later.pieces), Calls(joined.pieces));
  }

  lemma SamePrefix<T>(a: seq<T>, b: seq<T>, c: seq<T>)
    ensures a + b == a + c <==> b == c
  {
    if a + b == a + c {
      assert b == (a + b)[|a|..] && c == (a + c)[|a|..];
    }
  }

  lemma CutIsVisible(max: nat, data: string, a: string, b: string)
    requires Cuts(a, b)
    ensures Observed(FeedAll(DefaultSearch, max, data, [a, b])) != Observed(Feed(DefaultSearch, max, data, a + b))
  {
    hide OnePass, Feed, FeedAll, Limit;
    var a', b' := a[..|a| - 1], b[1..];
    assert a == a' + "\r" && b == "\n" + b';
    CutCrlf(max, data, a', b');
    var k := |OnePass(data, a').pieces|;
    assert Observed(FeedAll(DefaultSearch, max, data, [a, b])).0[k] == Call(OnePass(data, a').rest, true);
    assert Observed(Feed(DefaultSearch, max, data, a + b)).0[k] == Call(OnePass(data, a').rest + "\r", true);
  }

  // ----- Any number of chunks, cut anywhere -----

  /** Puts back together what a boundary inside a CRLF has parted. */
  function Merge(pieces: seq<Piece>): seq<Piece>
    decreases |pieces|
  {
    if |pieces| < 2 then pieces
    else if pieces[0] == Line(pieces[0].text, '\r') && pieces[1] == Line("", '\n') then
      [Line(pieces[0].text + "\r", '\n')] + Merge(pieces[2..])
    else [pieces[0]] + Merge(pieces[1..])
  }

  lemma {:induction false} ReadLine(pending: string, x: string, c: char, t: string)
    requires IsLine(Line(x, c)) && (c == '\r' ==> t == "" || t[0] != '\n')
    ensures OnePass(pending, x + [c] + t) == Append(Outcome([Line(pending + x, c)], ""), OnePass("", t))
    decreases |x|
  {
    hide OnePass;
    var d := x + [c] + t;
    OnePassStep(pending, d);
    if x == "" {
      assert d[1..] == t && pending + x == pending;
    } else {
      assert d[1..] == x[1..] + [c] + t && d[0] == x[0] && d[1] == (if |x| > 1 then x[1] else c);
      assert !EndsAt(d, 0);
      ReadLine(pending + [x[0]], x[1..], c, t);
      assert pending + [x[0]] + x[1..] == pending + x;
    }
  }

  lemma {:induction false} ReadRest(pending: string, rest: string)
    requires !HasEol(rest)
    ensures OnePass(pending, rest) == Outcome([], pending + rest)
    decreases |rest|
  {
    if rest == "" {
      assert pending + rest == pending;
    } else {
      forall i | 0 <= i < |rest[1..]| ensures rest[1..][i] != '\n' && rest[1..][i] != '\r' {
        assert rest[1..][i] == rest[i + 1];
      }
      ReadRest(pending + [rest[0]], rest[1..]);
      assert pending + [rest[0]] + rest[1..] == pending + rest;
    }
  }

  lemma FirstCharacter(pieces: seq<Piece>, rest: string)
    requires AllLines(pieces) && !HasEol(rest) && !(pieces != [] && pieces[0] == Line("", '\n'))
    ensures var t := Input(pieces) + rest; t == "" || t[0] != '\n'
  {
    if pieces != [] {
      assert IsLine(pieces[0]);
    }
  }

  /** Lines whose CRLFs are put back together are the lines of one pass over what they were made of. */
  lemma {:induction false} MergedIsOnePass(pieces: seq<Piece>, rest: string)
    requires AllLines(pieces) && !HasEol(rest)
    ensures OnePass("", Input(pieces) + rest) == Outcome(Merge(pieces), rest)
    decreases |pieces|
  {
    hide OnePass, HasEol, IsLineText;
    if pieces == [] {
      assert Input([]) + rest == rest && "" + rest == rest;
      ReadRest("", rest);
    } else {
      var p, others := pieces[0], pieces[1..];
      assert IsLine(p);
      if |pieces| > 1 && p.terminator == '\r' && pieces[1] == Line("", '\n') {
        MergedIsOnePass(pieces[2..], rest);
        MergeCut(pieces, rest);
      } else {
        MergedIsOnePass(others, rest);
        FirstCharacterBehind(p, others, rest);
        ReadLine("", p.text, p.terminator, Input(others) + rest);
        hide Input, Merge;
        assert "" + p.text == p.text;
        OneLineInput(p, others, rest, pieces);
        MergeKeeps(pieces);
      }
    }
  }

  lemma FirstCharacterBehind(p: Piece, others: seq<Piece>, rest: string)
    requires AllLines(others) && !HasEol(rest)
    requires p.Line? && !(others != [] && p.terminator == '\r' && others[0] == Line("", '\n'))
    ensures var t := Input(others) + rest; p.terminator == '\r' ==> t == "" || t[0] != '\n'
  {
    if p.terminator == '\r' {
      FirstCharacter(others, rest);
    }
  }

  lemma OneLineInput(p: Piece, others: seq<Piece>, rest: string, pieces: seq<Piece>)
    requires pieces != [] && p == pieces[0] && others == pieces[1..] && p.Line?
    ensures Input(pieces) + rest == p.text + [p.terminator] + (Input(others) + rest)
  {
    assert pieces == [p] + others;
    InputCons(p, others);
    hide Input;
    Associate(p.text + [p.terminator], Input(others), rest);
  }

  lemma MergeKeeps(pieces: seq<Piece>)
    requires pieces != [] && pieces[0].Line?
    requires !(|pieces| > 1 && pieces[0].terminator == '\r' && pieces[1] == Line("", '\n'))
    ensures Merge(pieces) == [pieces[0]] + Merge(pieces[1..])
  {
  }

  lemma MergeCut(pieces: seq<Piece>, rest: string)
    requires |pieces| > 1 && IsLine(pieces[0]) && pieces[0].terminator == '\r' && pieces[1] == Line("", '\n')
    requires OnePass("", Input(pieces[2..]) + rest) == Outcome(Merge(pieces[2..]), rest)
    ensures OnePass("", Input(pieces) + rest) == Outcome(Merge(pieces), rest)
  {
    var x, others := pieces[0].text, pieces[2..];
    var t := Input(others) + rest;
    assert pieces[1..][1..] == others;
    ReadLine("", x + "\r", '\n', t);
    assert "" + (x + "\r") == x + "\r";
    hide OnePass;
    OneLineInput(pieces[1], others, rest, pieces[1..]);
    OneLineInput(pieces[0], pieces[1..], rest, pieces);
    hide Input;
    assert Input(pieces) + rest == x + ['\r'] + ("" + ['\n'] + t);
    assert x + ['\r'] + ("" + ['\n'] + t) == x + "\r" + ['\n'] + t;
  }

  /**
   All chunkings of a stream agree: unless a remainder overflows, the lines of any chunking, with parted CRLFs put
   back together, are the lines of the whole stream, and the buffer holds what is left of it.
   */
  lemma AnyChunking(max: nat, chunks: seq<string>)
    ensures var r := FeedAll(DefaultSearch, max, "", chunks);
            (forall k :: 0 <= k < |r.pieces| ==> r.pieces[k].Line?) ==>
              OnePass("", Concat(chunks)) == Outcome(Merge(r.pieces), r.rest)
  {
    hide OnePass, FeedAll, HasEol, IsLine, Merge;
    EmptyHasNoEol();
    ShapeOfFeedAll(max, "", chunks);
    DefaultIsLegal();
    NothingIsLost(DefaultSearch, max, "", chunks);
    var r := FeedAll(DefaultSearch, max, "", chunks);
    assert "" + Concat(chunks) == Concat(chunks);
    if forall k :: 0 <= k < |r.pieces| ==> r.pieces[k].Line? {
      MergedIsOnePass(r.pieces, r.rest);
    }
  }
}
