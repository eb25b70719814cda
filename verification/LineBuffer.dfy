/** `connection_line_buffer`: lines out of chunks. */
module LineBuffer {
  import opened Machine

  /** One call of the line callback: its text, and whether a terminator ended it. */
  datatype Call = Call(text: string, complete: bool)

  /** A search function; `None` is `npos`. */
  type EolSearch = (string, nat) -> Option<nat>

  ghost predicate Legal(search: EolSearch) {
    forall d: string, p: nat :: p <= |d| && search(d, p).Some? ==> p <= search(d, p).value < |d|
  }

  /** A line ends at i: at a line feed, or at a carriage return that no line feed follows. */
  predicate EndsAt(d: string, i: nat)
    requires i < |d|
  {
    d[i] == '\n' || (d[i] == '\r' && !(i + 1 < |d| && d[i + 1] == '\n'))
  }

  /** The first line end at or after p. */
  function DefaultSearch(d: string, p: nat): (r: Option<nat>)
    ensures r.Some? ==> p <= r.value < |d| && EndsAt(d, r.value)
    decreases |d| - p
  {
    if p >= |d| then None else if EndsAt(d, p) then Some(p) else DefaultSearch(d, p + 1)
  }

  lemma DefaultIsLegal()
    ensures Legal(DefaultSearch)
  {
  }

  /** `default_eol_search`. */
  method DefaultEolSearch(d: string, start: nat) returns (r: Option<nat>)
    ensures r == DefaultSearch(d, start)
  {
    var i := start;
    while i < |d|
      invariant start <= i && DefaultSearch(d, start) == DefaultSearch(d, i)
    {
      if d[i] == '\r' {
        if i < |d| - 1 {
          if d[i + 1] == '\n' {
            i := i + 1;
          }
        }
        return Some(i);
      } else if d[i] == '\n' {
        return Some(i);
      }
      i := i + 1;
    }
    return None;
  }

  // ----- One chunk -----

  /** A piece of the input: a line with the one character that ended it, or an overlong remainder. */
  datatype Piece = Line(text: string, terminator: char) | Overflow(text: string)

  datatype Outcome = Outcome(pieces: seq<Piece>, rest: string)

  function CallOf(p: Piece): Call {
    Call(p.text, p.Line?)
  }

  function Calls(pieces: seq<Piece>): (calls: seq<Call>)
    ensures |calls| == |pieces|
  {
    seq(|pieces|, k requires 0 <= k < |pieces| => CallOf(pieces[k]))
  }

  /** The lines of d from p on, the first one prefixed with what is pending, and what remains. */
  function Scan(search: EolSearch, d: string, p: nat, pending: string): Outcome
    requires p <= |d|
    decreases |d| - p
  {
    var found := search(d, p);
    if found.Some? && p <= found.value < |d| then
      var n := found.value;
      var r := Scan(search, d, n + 1, "");
      Outcome([Line(pending + d[p..n], d[n])] + r.pieces, r.rest)
    else Outcome([], pending + d[p..])
  }

  /** What a remainder longer than the limit turns into. */
  function Limit(max: nat, r: Outcome): Outcome {
    if |r.rest| > max then Outcome(r.pieces + [Overflow(r.rest)], "") else r
  }

  function Feed(search: EolSearch, max: nat, data: string, chunk: string): Outcome
  {
    Limit(max, Scan(search, chunk, 0, data))
  }

  /** All chunks in turn. */
  function FeedAll(search: EolSearch, max: nat, data: string, chunks: seq<string>): Outcome
    decreases |chunks|
  {
    if chunks == [] then Outcome([], data)
    else
      var r := Feed(search, max, data, chunks[0]);
      var s := FeedAll(search, max, r.rest, chunks[1..]);
      Outcome(r.pieces + s.pieces, s.rest)
  }

  class ConnectionLineBuffer {
    const search: EolSearch
    const max: nat
    var data: string
    /** The calls of `found_next_line_cb` so far. */
    var calls: seq<Call>

    constructor (search: EolSearch, max: nat)
      ensures this.search == search && this.max == max && data == "" && calls == []
    {
      this.search, this.max := search, max;
      data, calls := "", [];
    }

    /**
     `conn_data_in_cb`, with the search resumed behind the terminator. The code resumes it at the terminator and
     finds that again for ever: see `LiteralLoop`.
     */
    method ConnDataInCb(dataIn: string)
      requires Legal(search)
      modifies this
      ensures var r := Feed(search, max, old(data), dataIn);
              calls == old(calls) + Calls(r.pieces) && data == r.rest
      ensures |data| <= max
    {
      hide Scan, Calls, Limit, Legal;
      var strpos := 0;
      ghost var all, done := Scan(search, dataIn, 0, data), [];
      ghost var before := calls;
      NoCalls();
      while true
        invariant 0 <= strpos <= |dataIn| && |done| >= 0
        invariant all.pieces == done + Scan(search, dataIn, strpos, data).pieces
        invariant all.rest == Scan(search, dataIn, strpos, data).rest
        invariant calls == before + Calls(done)
        decreases |dataIn| - strpos
      {
        ScanStep(search, dataIn, strpos, data, done);
        var nextpos := search(dataIn, strpos);
        if nextpos.None? {
          data := data + dataIn[strpos..];
          break;
        }
        ghost var line := Line(data + dataIn[strpos..nextpos.value], dataIn[nextpos.value]);
        CallsSnoc(done, line);
        done := done + [line];
        calls := calls + [Call(data + dataIn[strpos..nextpos.value], true)];
        data := "";
        strpos := nextpos.value + 1;
      }
      LimitStep(max, Outcome(done, data));
      if |data| > max {
        CallsSnoc(done, Overflow(data));
        calls := calls + [Call(data, false)];
        data := "";
      }
    }
  }

  lemma NoCalls()
    ensures Calls([]) == []
  {
  }

  lemma CallsSnoc(pieces: seq<Piece>, last: Piece)
    ensures Calls(pieces + [last]) == Calls(pieces) + [CallOf(last)]
  {
  }

  lemma ScanStep(search: EolSearch, d: string, p: nat, pending: string, done: seq<Piece>)
    requires Legal(search) && p <= |d|
    ensures match search(d, p)
            case None =>
              && done + Scan(search, d, p, pending).pieces == done
              && Scan(search, d, p, pending).rest == pending + d[p..]
            case Some(n) =>
              && p <= n < |d|
              && done + Scan(search, d, p, pending).pieces
                 == done + [Line(pending + d[p..n], d[n])] + Scan(search, d, n + 1, "").pieces
              && Scan(search, d, p, pending).rest == Scan(search, d, n + 1, "").rest
  {
  }

  lemma ScanUnfold(search: EolSearch, d: string, p: nat, pending: string)
    requires p <= |d| && (search(d, p).Some? ==> p <= search(d, p).value < |d|)
    ensures match search(d, p)
            case None => Scan(search, d, p, pending) == Outcome([], pending + d[p..])
            case Some(n) =>
              && p <= n < |d|
              && Scan(search, d, p, pending)
                 == Outcome([Line(pending + d[p..n], d[n])] + Scan(search, d, n + 1, "").pieces,
                            Scan(search, d, n + 1, "").rest)
  {
  }

  lemma LimitStep(max: nat, r: Outcome)
    ensures Limit(max, r)
            == if |r.rest| > max then Outcome(r.pieces + [Overflow(r.rest)], "") else r
  {
  }
}
