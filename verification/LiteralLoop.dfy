/**
 The loop of `conn_data_in_cb` as it stands: the search goes on at the terminator it has found, not behind it.
 This module shows when that makes a difference.
 */
module LiteralLoop {
  import opened Machine
  import opened LineBuffer
  import opened LineBufferLaws

  datatype State = State(strpos: nat, data: string, calls: seq<Call>, running: bool)

  /** One iteration. */
  function Iterate(search: EolSearch, d: string, s: State): (t: State)
    requires Legal(search) && s.strpos <= |d|
    ensures s.strpos <= t.strpos <= |d|
  {
    if !s.running then s
    else match search(d, s.strpos)
      case None => State(s.strpos, s.data + d[s.strpos..], s.calls, false)
      case Some(n) => State(n, "", s.calls + [Call(s.data + d[s.strpos..n], true)], true)
  }

  /** The state after n iterations. */
  function After(search: EolSearch, d: string, data: string, n: nat): (s: State)
    requires Legal(search)
    ensures s.strpos <= |d|
  {
    if n == 0 then State(0, data, [], true) else Iterate(search, d, After(search, d, data, n - 1))
  }

  // ----- Any search -----

  function Reported(calls: seq<Call>): string {
    if calls == [] then "" else Reported(calls[..|calls| - 1]) + calls[|calls| - 1].text
  }

  /** The loop as it stands drops no character, not even the terminators. */
  lemma {:induction false} LiteralKeepsAll(search: EolSearch, d: string, data: string, n: nat)
    requires Legal(search)
    ensures var s := After(search, d, data, n);
            Reported(s.calls) + s.data == data + d[..if s.running then s.strpos else |d|]
  {
    hide Legal;
    if n == 0 {
      assert "" + data == data + d[..0];
    } else {
      var s := After(search, d, data, n - 1);
      LiteralKeepsAll(search, d, data, n - 1);
      var next := Iterate(search, d, s);
      if s.running && next.running {
        assert next.calls[..|next.calls| - 1] == s.calls;
        Continued(Reported(s.calls), s.data, data, d, s.strpos, next.strpos);
      } else if s.running {
        Continued(Reported(s.calls), s.data, data, d, s.strpos, |d|);
      }
    }
  }

  lemma Continued(r: string, x: string, data: string, d: string, p: nat, n: nat)
    requires p <= n <= |d| && r + x == data + d[..p]
    ensures r + (x + d[p..n]) + "" == r + (x + d[p..n]) == data + d[..n]
    ensures n == |d| ==> d[p..n] == d[p..]
  {
    assert r + (x + d[p..n]) == r + x + d[p..n];
    assert d[..p] + d[p..n] == d[..n];
  }

  /** Lines as they should be reported drop one character each. */
  lemma {:induction false} TextsAreShorter(pieces: seq<Piece>)
    requires forall k :: 0 <= k < |pieces| ==> pieces[k].Line?
    ensures |Input(pieces)| == |Reported(Calls(pieces))| + |pieces|
  {
    if pieces == [] {
    } else {
      var front, last := pieces[..|pieces| - 1], pieces[|pieces| - 1];
      assert pieces == front + [last];
      TextsAreShorter(front);
      InputOfBoth(front, [last]);
      InputOfOne(last);
      CallsSnoc(front, last);
      hide Input, Calls;
      assert Calls(pieces)[..|pieces| - 1] == Calls(front);
    }
  }

  lemma InputOfOne(p: Piece)
    ensures Input([p]) == InputOf(p)
  {
    assert [p][1..] == [];
  }

  lemma {:induction false} ScanHasLines(search: EolSearch, d: string, p: nat, pending: string)
    requires Legal(search) && p <= |d|
    ensures var pieces := Scan(search, d, p, pending).pieces;
            && (forall k :: 0 <= k < |pieces| ==> pieces[k].Line?)
            && (pieces == [] <==> search(d, p) == None)
    decreases |d| - p
  {
    hide Scan;
    ScanUnfold(search, d, p, pending);
    if search(d, p) == None {
    } else {
      ScanHasLines(search, d, search(d, p).value + 1, "");
    }
  }

  /** The loop has ended with the lines and the remainder of the loop as it should be. */
  ghost predicate EndsAsItShould(search: EolSearch, d: string, data: string, n: nat)
    requires Legal(search)
  {
    var s, r := After(search, d, data, n), Scan(search, d, 0, data);
    !s.running && s.calls == Calls(r.pieces) && s.data == r.rest
  }

  /** For every search: the loop ends as it should exactly for chunks in which the search finds nothing. */
  lemma EndsAsItShouldIfNothingIsFound(search: EolSearch, d: string, data: string)
    requires Legal(search)
    ensures (exists n :: EndsAsItShould(search, d, data, n)) <==> search(d, 0) == None
  {
    hide Legal, Scan, After, Calls, Input, Reported, EndsAsItShould;
    if search(d, 0) == None {
      NothingIsFound(search, d, data);
    } else {
      forall n ensures !EndsAsItShould(search, d, data, n) {
        SomethingIsFound(search, d, data, n);
      }
    }
  }

  lemma {:induction false} Stopped(search: EolSearch, d: string, data: string, n: nat)
    requires Legal(search) && search(d, 0) == None && n > 0
    ensures After(search, d, data, n) == State(0, Scan(search, d, 0, data).rest, [], false)
  {
    hide Scan;
    ScanUnfold(search, d, 0, data);
    if n == 1 {
      assert After(search, d, data, 0) == State(0, data, [], true);
    } else {
      Stopped(search, d, data, n - 1);
    }
  }

  lemma NothingIsFound(search: EolSearch, d: string, data: string)
    requires Legal(search) && search(d, 0) == None
    ensures EndsAsItShould(search, d, data, 1)
  {
    hide Scan, After;
    ScanUnfold(search, d, 0, data);
    Stopped(search, d, data, 1);
  }

  lemma SomethingIsFound(search: EolSearch, d: string, data: string, n: nat)
    requires Legal(search) && search(d, 0).Some?
    ensures !EndsAsItShould(search, d, data, n)
  {
    hide Legal, Scan, After, Calls, Input, Reported;
    var s, r := After(search, d, data, n), Scan(search, d, 0, data);
    LiteralKeepsAll(search, d, data, n);
    ScanKeepsAll(search, d, 0, data);
    ScanHasLines(search, d, 0, data);
    TextsAreShorter(r.pieces);
    assert !s.running ==> |Reported(s.calls)| + |s.data| == |data| + |d|;
    assert |Input(r.pieces)| + |r.rest| == |data| + |d|;
  }

  // ----- The default search -----

  lemma {:induction false} SearchFindsEol(d: string, p: nat)
    ensures DefaultSearch(d, p).Some? <==> exists i :: p <= i < |d| && (d[i] == '\n' || d[i] == '\r')
    decreases |d| - p
  {
    if p >= |d| || EndsAt(d, p) {
    } else {
      SearchFindsEol(d, p + 1);
    }
  }

  function Repeat(n: nat): (calls: seq<Call>)
    ensures |calls| == n
  {
    seq(n, _ => Call("", true))
  }

  /** Once a line end is found, every further iteration finds it again and reports one more empty line. */
  lemma {:induction false} FoundForEver(d: string, data: string, n: nat)
    requires DefaultSearch(d, 0).Some? && n > 0
    ensures var k := DefaultSearch(d, 0).value;
            After(DefaultSearch, d, data, n) == State(k, "", [Call(data + d[..k], true)] + Repeat(n - 1), true)
  {
    var k := DefaultSearch(d, 0).value;
    assert DefaultSearch(d, k) == Some(k);
    if n == 1 {
      assert After(DefaultSearch, d, data, 0) == State(0, data, [], true);
      assert d[0..k] == d[..k];
    } else {
      FoundForEver(d, data, n - 1);
      assert "" + d[k..k] == "";
      assert Repeat(n - 2) + [Call("", true)] == Repeat(n - 1);
      assert [Call(data + d[..k], true)] + Repeat(n - 2) + [Call("", true)]
          == [Call(data + d[..k], true)] + Repeat(n - 1);
    }
  }

  /** With the default search the loop comes to an end exactly for chunks without a line end, and as it should. */
  lemma LoopEndsWithoutLineEnds(d: string, data: string)
    ensures (exists n :: !After(DefaultSearch, d, data, n).running) <==> !HasEol(d)
    ensures (exists n :: EndsAsItShould(DefaultSearch, d, data, n)) <==> !HasEol(d)
    ensures !HasEol(d) ==> forall n :: n > 0 ==>
              After(DefaultSearch, d, data, n) == State(0, Scan(DefaultSearch, d, 0, data).rest, [], false)
  {
    hide After, DefaultSearch, EndsAsItShould, Scan;
    SearchFindsEol(d, 0);
    DefaultIsLegal();
    EndsAsItShouldIfNothingIsFound(DefaultSearch, d, data);
    if HasEol(d) {
      forall n: nat ensures After(DefaultSearch, d, data, n).running {
        if n == 0 {
          Begin(d, data);
        } else {
          FoundForEver(d, data, n);
        }
      }
    } else {
      forall n: nat | n > 0
        ensures After(DefaultSearch, d, data, n) == State(0, Scan(DefaultSearch, d, 0, data).rest, [], false)
      {
        Stopped(DefaultSearch, d, data, n);
      }
      assert !After(DefaultSearch, d, data, 1).running;
    }
  }

  lemma Begin(d: string, data: string)
    ensures After(DefaultSearch, d, data, 0).running
  {
  }

  /** A single line feed keeps the loop running for ever. */
  lemma LineFeedLoops()
    ensures forall n :: After(DefaultSearch, "\n", "", n).running
  {
    hide After;
    LoopEndsWithoutLineEnds("\n", "");
    assert "\n"[0] == '\n';
  }
}
