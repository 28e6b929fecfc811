/** A console session's output: a rolling buffer of the last `cap` bytes with absolute offsets, and what a
    reader that passes back `next` gets. Each method is one critical section of the session's lock; the
    waiting of a long poll is left to the caller, and bytes are not decoded. */
module ConsoleSessions {
  import opened Bytes

  function Max(a: int, b: int): int {
    if a > b then a else b
  }

  /** What one read returns. */
  datatype Output = Output(data: bytes, next: nat, lost: nat, open: bool, reason: string)

  /** Reading a stream of which only the last cap bytes are kept, from an offset. */
  function ReadAt(stream: bytes, cap: nat, after: nat): (nat, bytes) {
    var start := Max(0, |stream| - cap);
    (Max(0, start - after), if after > |stream| then [] else stream[Max(after, start)..])
  }

  class TextSession {
    const cap: nat
    var start: nat
    var data: bytes
    var closedReason: string
    var lastUsed: real
    ghost var stream: bytes

    ghost predicate Valid()
      reads this
    {
      start == Max(0, |stream| - cap) && data == stream[start..]
    }

    constructor (cap: nat, now: real)
      ensures Valid() && stream == [] && this.cap == cap && closedReason == "" && lastUsed == now
    {
      this.cap, start, data, closedReason, lastUsed, stream := cap, 0, [], "", now, [];
    }

    function End(): nat
      reads this
    {
      start + |data|
    }

    /** `_feed` */
    method Feed(chunk: bytes)
      requires Valid()
      modifies this
      ensures Valid() && stream == old(stream) + chunk && closedReason == old(closedReason) && lastUsed == old(lastUsed)
    {
      data := data + chunk;
      stream := stream + chunk;
      assert data == stream[start..];
      if |data| > cap {
        var drop := |data| - cap;
        data := data[drop..];
        start := start + drop;
      }
    }

    /** `read`, once it stops waiting. */
    method Read(after: nat, now: real) returns (o: Output)
      requires Valid()
      modifies this`lastUsed
      ensures Valid() && lastUsed == now
      ensures (o.lost, o.data) == ReadAt(stream, cap, after) && o.next == |stream|
      ensures o.open == (closedReason == "") && o.reason == closedReason
    {
      lastUsed := now;
      var lost := Max(0, start - after);
      var begin := Max(after, start);
      var chunk := if begin - start > |data| then [] else data[begin - start..];
      o := Output(chunk, End(), lost, closedReason == "", closedReason);
    }

    /** `close`, and the end of `_pump`: the first reason given stays. */
    method Close(reason: string)
      requires Valid() && reason != ""
      modifies this`closedReason
      ensures Valid() && closedReason == if old(closedReason) == "" then reason else old(closedReason)
    {
      if closedReason == "" {
        closedReason := reason;
      }
    }
  }

  // --- a reader over a whole run ------------------------------------------------------------

  /** Output arrives, or the reader reads from where its last read said. */
  datatype Event = Fed(chunk: bytes) | Polled

  datatype Piece = Piece(lost: nat, data: bytes)

  datatype Reader = Reader(stream: bytes, pos: nat, pieces: seq<Piece>)

  function Next(r: Reader, e: Event, cap: nat): Reader {
    match e
    case Fed(chunk) => r.(stream := r.stream + chunk)
    case Polled =>
      var (lost, data) := ReadAt(r.stream, cap, r.pos);
      Reader(r.stream, |r.stream|, r.pieces + [Piece(lost, data)])
  }

  function After(events: seq<Event>, cap: nat): Reader {
    if events == [] then Reader([], 0, []) else Next(After(events[..|events| - 1], cap), events[|events| - 1], cap)
  }

  /** The same run on a session object. */
  method Replay(events: seq<Event>, cap: nat) returns (pos: nat, pieces: seq<Piece>)
    ensures pos == After(events, cap).pos && pieces == After(events, cap).pieces
  {
    var s := new TextSession(cap, 0.0);
    pos, pieces := 0, [];
    for i := 0 to |events|
      invariant s.Valid() && s.cap == cap && Reader(s.stream, pos, pieces) == After(events[..i], cap)
    {
      assert events[..i + 1][..i] == events[..i];
      match events[i]
      case Fed(chunk) => s.Feed(chunk);
      case Polled =>
        var o := s.Read(pos, 0.0);
        pos, pieces := o.next, pieces + [Piece(o.lost, o.data)];
    }
    assert events[..|events|] == events;
  }

  function Total(pieces: seq<Piece>): nat {
    if pieces == [] then 0
    else Total(pieces[..|pieces| - 1]) + pieces[|pieces| - 1].lost + |pieces[|pieces| - 1].data|
  }

  function Lost(pieces: seq<Piece>): nat {
    if pieces == [] then 0 else Lost(pieces[..|pieces| - 1]) + pieces[|pieces| - 1].lost
  }

  function Delivered(pieces: seq<Piece>): bytes {
    if pieces == [] then [] else Delivered(pieces[..|pieces| - 1]) + pieces[|pieces| - 1].data
  }

  ghost predicate IsAt(data: bytes, begin: nat, stream: bytes) {
    begin + |data| <= |stream| && data == stream[begin..begin + |data|]
  }

  /** Laid end to end, each after a gap of its lost bytes, the pieces are the stream. */
  ghost predicate FillIn(pieces: seq<Piece>, stream: bytes) {
    pieces == []
    || (var (front, p) := (pieces[..|pieces| - 1], pieces[|pieces| - 1]);
        FillIn(front, stream) && IsAt(p.data, Total(front) + p.lost, stream))
  }

  lemma IsAtMore(data: bytes, begin: nat, stream: bytes, chunk: bytes)
    requires IsAt(data, begin, stream)
    ensures IsAt(data, begin, stream + chunk)
  {
    assert (stream + chunk)[begin..begin + |data|] == stream[begin..begin + |data|];
  }

  lemma {:induction false} FillInMore(pieces: seq<Piece>, stream: bytes, chunk: bytes)
    requires FillIn(pieces, stream)
    ensures FillIn(pieces, stream + chunk)
  {
    hide Total, IsAt;
    if pieces != [] {
      var (front, p) := (pieces[..|pieces| - 1], pieces[|pieces| - 1]);
      FillInMore(front, stream, chunk);
      IsAtMore(p.data, Total(front) + p.lost, stream, chunk);
    }
  }

  lemma OneMorePiece(pieces: seq<Piece>, p: Piece, stream: bytes)
    ensures Total(pieces + [p]) == Total(pieces) + p.lost + |p.data|
    ensures Lost(pieces + [p]) == Lost(pieces) + p.lost
    ensures Delivered(pieces + [p]) == Delivered(pieces) + p.data
    ensures FillIn(pieces + [p], stream) <==> FillIn(pieces, stream) && IsAt(p.data, Total(pieces) + p.lost, stream)
  {
    hide IsAt;
    assert (pieces + [p])[..|pieces|] == pieces;
  }

  /** A read from an offset in the stream returns the rest of it, less what is no longer kept. */
  lemma ReadFrom(stream: bytes, cap: nat, pos: nat)
    requires pos <= |stream|
    ensures var (lost, data) := ReadAt(stream, cap, pos);
            && IsAt(data, pos + lost, stream) && pos + lost + |data| == |stream|
            && (lost == 0 <==> |stream| - pos <= cap)
            && (lost == 0 ==> stream[..pos] + data == stream)
  {
  }

  /** Whatever arrives and whenever the reader reads: what it got, with gaps of the lost bytes, is the
      stream up to its offset, and delivered plus lost bytes are that offset. */
  lemma {:induction false} ReaderSeesStream(events: seq<Event>, cap: nat)
    ensures var r := After(events, cap);
            && FillIn(r.pieces, r.stream) && Total(r.pieces) == r.pos <= |r.stream|
            && Lost(r.pieces) + |Delivered(r.pieces)| == r.pos
  {
    hide FillIn, Total, Lost, Delivered, IsAt, ReadAt;
    NoPieces();
    if events != [] {
      var (front, e) := (events[..|events| - 1], events[|events| - 1]);
      var r := After(front, cap);
      ReaderSeesStream(front, cap);
      match e
      case Fed(chunk) => FillInMore(r.pieces, r.stream, chunk);
      case Polled =>
        var (lost, data) := ReadAt(r.stream, cap, r.pos);
        ReadFrom(r.stream, cap, r.pos);
        OneMorePiece(r.pieces, Piece(lost, data), r.stream);
    }
  }

  lemma NoPieces()
    ensures FillIn([], []) && Total([]) == 0 && Lost([]) == 0 && Delivered([]) == []
  {
  }

  /** At every read the reader was at most the buffer behind. */
  ghost predicate KeptUp(events: seq<Event>, cap: nat) {
    forall i :: 0 <= i < |events| && events[i] == Polled ==>
      var r := After(events[..i], cap);
      |r.stream| - r.pos <= cap
  }

  /** Nothing is lost exactly when the reader never was more than the buffer behind; then it has the
      stream, byte for byte, up to its offset. */
  lemma {:induction false} LosesNothingWhenKeptUp(events: seq<Event>, cap: nat)
    ensures var r := After(events, cap);
            && (Lost(r.pieces) == 0 <==> KeptUp(events, cap))
            && (KeptUp(events, cap) ==> r.pos <= |r.stream| && Delivered(r.pieces) == r.stream[..r.pos])
  {
    hide FillIn, Total, Lost, Delivered, IsAt, ReadAt, KeptUp;
    NoPieces();
    if events == [] {
      assert KeptUp([], cap) by { NeverPolled(cap); }
    } else {
      var (front, e) := (events[..|events| - 1], events[|events| - 1]);
      var r := After(front, cap);
      LosesNothingWhenKeptUp(front, cap);
      ReaderSeesStream(front, cap);
      KeptUpStep(events, cap);
      match e
      case Fed(chunk) => assert (r.stream + chunk)[..r.pos] == r.stream[..r.pos];
      case Polled =>
        var (lost, data) := ReadAt(r.stream, cap, r.pos);
        ReadFrom(r.stream, cap, r.pos);
        OneMorePiece(r.pieces, Piece(lost, data), r.stream);
        assert r.stream[..|r.stream|] == r.stream;
    }
  }

  lemma NeverPolled(cap: nat)
    ensures KeptUp([], cap)
  {
  }

  lemma KeptUpStep(events: seq<Event>, cap: nat)
    requires events != []
    ensures var (front, e) := (events[..|events| - 1], events[|events| - 1]);
            KeptUp(events, cap) <==>
              KeptUp(front, cap) && (e == Polled ==> |After(front, cap).stream| - After(front, cap).pos <= cap)
  {
    var front := events[..|events| - 1];
    assert forall i :: 0 <= i < |front| ==> events[..i] == front[..i] && events[i] == front[i];
  }
}
