/** What the sealed stream format guarantees: which byte strings open, under a log made by any
    history of seal calls, and what they open to. */
module SealProofs {
  import opened Wrappers
  import opened Bytes
  import opened Seal

  // --- an archive's chunks, by number -------------------------------------------------------

  predicate HasChunk(a: Archive, i: nat) {
    i == 0 || i * CHUNK < |a.plain|
  }

  predicate IsLast(a: Archive, i: nat) {
    |a.plain| <= (i + 1) * CHUNK
  }

  function Chunk(a: Archive, i: nat): bytes
    requires HasChunk(a, i)
  {
    if IsLast(a, i) then a.plain[i * CHUNK..] else a.plain[i * CHUNK..(i + 1) * CHUNK]
  }

  /** What the i-th encryption of a sealing puts in the log. */
  function Entry(enc: Encryptor, a: Archive, i: nat): (Slot, bytes)
    requires HasChunk(a, i) && i < LIMIT32
  {
    (SlotOf(a, i, IsLast(a, i)), enc(SlotOf(a, i, IsLast(a, i)), Chunk(a, i)))
  }

  /** No two sealings with one key drew the same salt and prefix. */
  ghost predicate DistinctDraws(h: set<Archive>) {
    && (forall a :: a in h ==> WellSized(a))
    && forall a, b :: a in h && b in h && a.key == b.key && a.salt == b.salt && a.prefix == b.prefix ==> a == b
  }

  ghost predicate Explains(enc: Encryptor, a: Archive, i: nat, e: (Slot, bytes), p: bytes) {
    HasChunk(a, i) && i < LIMIT32 && e == Entry(enc, a, i) && p == Chunk(a, i)
  }

  /** Everything in the log was encrypted by one of h's sealings. */
  ghost predicate LoggedBy(log: Log, enc: Encryptor, h: set<Archive>) {
    forall e :: e in log ==> exists a, i :: a in h && Explains(enc, a, i, e, log[e])
  }

  /** All of a's chunks that have a number, from n on, are in the log. */
  ghost predicate LoggedFrom(log: Log, enc: Encryptor, a: Archive, n: nat) {
    forall i: nat :: n <= i && HasChunk(a, i) && i < LIMIT32 ==> Entry(enc, a, i) in log
  }

  ghost predicate InLog(log: Log, enc: Encryptor, a: Archive) {
    LoggedFrom(log, enc, a, 0)
  }

  lemma SameSlot(a: Archive, i: nat, x: bool, b: Archive, j: nat, y: bool)
    requires WellSized(a) && WellSized(b) && i < LIMIT32 && j < LIMIT32
    requires SlotOf(a, i, x) == SlotOf(b, j, y)
    ensures a.key == b.key && a.salt == b.salt && a.prefix == b.prefix && i == j && x == y
  {
    var m, n := a.prefix + BE32(i), b.prefix + BE32(j);
    assert m[..8] == a.prefix && n[..8] == b.prefix;
    assert m[8..] == BE32(i) && n[8..] == BE32(j);
  }

  /** Under a's salt and prefix, the log answers only for a's own chunk of that number and flag. */
  lemma LookupFindsChunk(log: Log, enc: Encryptor, h: set<Archive>, a: Archive, n: nat, last: bool, ct: bytes)
    requires DistinctDraws(h) && LoggedBy(log, enc, h) && a in h && n < LIMIT32
    ensures Lookup(log, SlotOf(a, n, last), ct).Some?
        ==> Explains(enc, a, n, (SlotOf(a, n, last), ct), Lookup(log, SlotOf(a, n, last), ct).value)
  {
    var e := (SlotOf(a, n, last), ct);
    if e in log {
      var b, j :| b in h && Explains(enc, b, j, e, log[e]);
      SameSlot(a, n, last, b, j, IsLast(b, j));
    }
  }

  /** Under a salt and prefix nobody drew, it answers for nothing. */
  lemma LookupFindsNothing(log: Log, enc: Encryptor, h: set<Archive>, key: bytes, salt: bytes, prefix: bytes, n: nat,
                           last: bool, ct: bytes)
    requires DistinctDraws(h) && LoggedBy(log, enc, h) && |salt| == 16 && |prefix| == 8 && n < LIMIT32
    requires forall a :: a in h ==> !(a.key == key && a.salt == salt && a.prefix == prefix)
    ensures Lookup(log, Slot(key, salt, prefix + BE32(n), last), ct) == None
  {
    var z := Archive(key, salt, prefix, []);
    var e := (SlotOf(z, n, last), ct);
    if e in log {
      var b, j :| b in h && Explains(enc, b, j, e, log[e]);
      SameSlot(z, n, last, b, j, IsLast(b, j));
    }
  }

  lemma Unfold(enc: Encryptor, a: Archive, n: nat, p: bytes, claim: nat)
    requires n < LIMIT32 && claim < LIMIT32
    ensures if |p| <= CHUNK then
              && FramesFrom(enc, a, n, p, claim) == BE32(claim) + enc(SlotOf(a, n, true), p)
              && ChunkCount(|p|) == 1 && LastLength(|p|) == |p|
            else
              && FramesFrom(enc, a, n, p, claim)
                 == BE32(CHUNK + TAG) + enc(SlotOf(a, n, false), p[..CHUNK])
                    + FramesFrom(enc, a, n + 1, p[CHUNK..], claim)
              && ChunkCount(|p|) == 1 + ChunkCount(|p[CHUNK..]|) && LastLength(|p|) == LastLength(|p[CHUNK..]|)
  {
  }

  // --- soundness ----------------------------------------------------------------------------

  /** p is what a has left from chunk n on. */
  ghost predicate LeftFrom(a: Archive, n: nat, p: bytes) {
    HasChunk(a, n) && n * CHUNK <= |a.plain| && p == a.plain[n * CHUNK..]
  }

  lemma FirstChunk(a: Archive, n: nat, p: bytes)
    requires LeftFrom(a, n, p)
    ensures IsLast(a, n) <==> |p| <= CHUNK
    ensures Chunk(a, n) == Take(p, CHUNK)
    ensures |p| > CHUNK ==> LeftFrom(a, n + 1, p[CHUNK..])
  {
  }

  /** Only a prefix of what a has left is written, and if the frames open they are a's, but for a last
      length field that may claim too much. */
  ghost predicate SoundFrom(log: Log, enc: Encryptor, a: Archive, n: nat, p: bytes, b: bytes, claim: nat) {
    var o := OpenFrames(log, a.key, a.salt, a.prefix, n, b);
    && o.written <= p
    && (o.outcome == Opened ==>
          && n + ChunkCount(|p|) <= LIMIT32
          && LastLength(|p|) + TAG <= claim < LIMIT32
          && o.written == p && b == FramesFrom(enc, a, n, p, claim)
          && LoggedFrom(log, enc, a, n))
  }

  lemma InnerFrameSound(log: Log, enc: Encryptor, a: Archive, n: nat, p: bytes, b: bytes, claim: nat)
    requires n < LIMIT32 && |b| >= 4 && LeftFrom(a, n, p)
    requires var (said, c, slot) := (UnBE32(b[..4]), b[4..], SlotOf(a, n, false));
             && Lookup(log, slot, Take(c, said)).Some?
             && Explains(enc, a, n, (slot, Take(c, said)), Lookup(log, slot, Take(c, said)).value)
             && |p| > CHUNK && SoundFrom(log, enc, a, n + 1, p[CHUNK..], Drop(c, said), claim)
    ensures SoundFrom(log, enc, a, n, p, b, claim)
  {
    hide OpenFrames, FramesFrom, ChunkCount, LastLength, BE32, UnBE32, HasChunk, Lookup;
    var said := UnBE32(b[..4]);
    var ct, rest := Take(b[4..], said), Drop(b[4..], said);
    assert Take(b, 4) == b[..4] && Drop(b, 4) == b[4..];
    OpenStep(log, a.key, a.salt, a.prefix, n, b);
    FirstChunk(a, n, p);
    var o := OpenFrames(log, a.key, a.salt, a.prefix, n + 1, rest);
    assert p == p[..CHUNK] + p[CHUNK..];
    FoundIsLogged(log, SlotOf(a, n, false), ct);
    OneMoreLoggedFrom(log, enc, a, n);
    if o.outcome == Opened {
      Unfold(enc, a, n, p, claim);
      OpenStep(log, a.key, a.salt, a.prefix, n + 1, rest);
      assert rest != [] && said == |ct| == CHUNK + TAG;
      BE32OfUnBE32(b[..4]);
      assert b == b[..4] + ct + rest;
    }
  }

  lemma LastFrameSound(log: Log, enc: Encryptor, a: Archive, n: nat, p: bytes, b: bytes)
    requires n < LIMIT32 && |b| >= 4 && LeftFrom(a, n, p) && |p| <= CHUNK
    requires var ct := Take(b[4..], UnBE32(b[..4]));
             && Lookup(log, SlotOf(a, n, false), ct) == None && Lookup(log, SlotOf(a, n, true), ct).Some?
             && Explains(enc, a, n, (SlotOf(a, n, true), ct), Lookup(log, SlotOf(a, n, true), ct).value)
    ensures SoundFrom(log, enc, a, n, p, b, UnBE32(b[..4]))
  {
    hide OpenFrames, FramesFrom, ChunkCount, LastLength, BE32, UnBE32, HasChunk, Lookup;
    var said := UnBE32(b[..4]);
    var ct := Take(b[4..], said);
    assert Take(b, 4) == b[..4] && Drop(b, 4) == b[4..];
    OpenStep(log, a.key, a.salt, a.prefix, n, b);
    FirstChunk(a, n, p);
    Unfold(enc, a, n, p, said);
    BE32OfUnBE32(b[..4]);
    FoundIsLogged(log, SlotOf(a, n, true), ct);
    LastLogged(log, enc, a, n);
    if Drop(b[4..], said) == [] {
      assert b == b[..4] + ct;
    }
  }

  lemma FoundIsLogged(log: Log, s: Slot, ct: bytes)
    ensures Lookup(log, s, ct).Some? ==> (s, ct) in log
  {
  }

  lemma OneMoreLoggedFrom(log: Log, enc: Encryptor, a: Archive, n: nat)
    requires HasChunk(a, n) && n < LIMIT32 && Entry(enc, a, n) in log
    ensures LoggedFrom(log, enc, a, n + 1) ==> LoggedFrom(log, enc, a, n)
  {
  }

  lemma LastLogged(log: Log, enc: Encryptor, a: Archive, n: nat)
    requires HasChunk(a, n) && n < LIMIT32 && IsLast(a, n) && Entry(enc, a, n) in log
    ensures LoggedFrom(log, enc, a, n)
  {
  }

  lemma NoFrameSound(log: Log, enc: Encryptor, a: Archive, n: nat, p: bytes, b: bytes)
    requires |b| >= 4 && n < LIMIT32 ==>
               var ct := Take(b[4..], UnBE32(b[..4]));
               Lookup(log, SlotOf(a, n, false), ct) == None && Lookup(log, SlotOf(a, n, true), ct) == None
    ensures SoundFrom(log, enc, a, n, p, b, 0)
  {
    hide OpenFrames, FramesFrom, ChunkCount, LastLength, BE32, UnBE32, Lookup;
    if |b| >= 4 {
      assert Take(b, 4) == b[..4] && Drop(b, 4) == b[4..];
    }
    OpenStep(log, a.key, a.salt, a.prefix, n, b);
  }

  /** Whatever the frames are. */
  lemma {:induction false} OpenFramesSound(log: Log, enc: Encryptor, h: set<Archive>, a: Archive, n: nat, p: bytes,
                                          b: bytes) returns (claim: nat)
    requires DistinctDraws(h) && LoggedBy(log, enc, h) && a in h && LeftFrom(a, n, p)
    ensures SoundFrom(log, enc, a, n, p, b, claim)
    decreases |b|
  {
    hide OpenFrames, SoundFrom, BE32, UnBE32, HasChunk, DistinctDraws, LoggedBy, Lookup;
    claim := 0;
    if |b| >= 4 && n < LIMIT32 {
      var said := UnBE32(b[..4]);
      var ct := Take(b[4..], said);
      LookupFindsChunk(log, enc, h, a, n, false, ct);
      LookupFindsChunk(log, enc, h, a, n, true, ct);
      FirstChunk(a, n, p);
      if Lookup(log, SlotOf(a, n, false), ct).Some? {
        claim := OpenFramesSound(log, enc, h, a, n + 1, p[CHUNK..], Drop(b[4..], said));
        InnerFrameSound(log, enc, a, n, p, b, claim);
        return;
      }
      if Lookup(log, SlotOf(a, n, true), ct).Some? {
        LastFrameSound(log, enc, a, n, p, b);
        return said;
      }
    }
    NoFrameSound(log, enc, a, n, p, b);
  }

  lemma OpenFramesNothing(log: Log, enc: Encryptor, h: set<Archive>, key: bytes, salt: bytes, prefix: bytes, b: bytes)
    requires DistinctDraws(h) && LoggedBy(log, enc, h) && |salt| == 16 && |prefix| == 8
    requires forall a :: a in h ==> !(a.key == key && a.salt == salt && a.prefix == prefix)
    ensures var o := OpenFrames(log, key, salt, prefix, 0, b); o.written == [] && o.outcome != Opened
  {
    var ct := Take(Drop(b, 4), if |b| < 4 then 0 else UnBE32(b[..4]));
    LookupFindsNothing(log, enc, h, key, salt, prefix, 0, false, ct);
    LookupFindsNothing(log, enc, h, key, salt, prefix, 0, true, ct);
    if |b| >= 4 {
      assert Take(b, 4) == b[..4] && Drop(b, 4) == b[4..];
    }
    OpenStep(log, key, salt, prefix, 0, b);
  }

  /** b is a's archive, but for a last length field that may claim more bytes than there are. */
  predicate ArchiveClaiming(enc: Encryptor, a: Archive, claim: nat, b: bytes) {
    Fits(|a.plain|) && TrueClaim(a) <= claim < LIMIT32 && b == SealedWith(enc, a, claim)
  }

  /** Opening anything at all: what is written is a prefix of one sealed plaintext, and it ends well
      only on that sealing's archive. */
  lemma OpenSound(log: Log, enc: Encryptor, h: set<Archive>, key: bytes, b: bytes)
    requires DistinctDraws(h) && LoggedBy(log, enc, h)
    ensures var o := Open(log, key, b);
            && (o.written != [] ==> exists a :: a in h && a.key == key && o.written <= a.plain)
            && (o.outcome == Opened ==>
                  exists a, claim :: a in h && a.key == key && o.written == a.plain && InLog(log, enc, a)
                                     && ArchiveClaiming(enc, a, claim, b))
  {
    if |b| >= HEAD && MAGIC <= b {
      var salt, prefix := b[12..28], b[28..36];
      if a :| a in h && a.key == key && a.salt == salt && a.prefix == prefix {
        var claim := OpenFramesSound(log, enc, h, a, 0, a.plain, b[HEAD..]);
        assert b == MAGIC + salt + prefix + b[HEAD..];
        if Open(log, key, b).outcome == Opened {
          assert ArchiveClaiming(enc, a, claim, b);
        }
      } else {
        OpenFramesNothing(log, enc, h, key, salt, prefix, b[HEAD..]);
      }
    }
  }

  // --- completeness -------------------------------------------------------------------------

  lemma {:induction false} OpenFramesComplete(log: Log, enc: Encryptor, h: set<Archive>, a: Archive, n: nat, p: bytes,
                                             claim: nat)
    requires DistinctDraws(h) && LoggedBy(log, enc, h) && a in h && LeftFrom(a, n, p) && InLog(log, enc, a)
    requires n + ChunkCount(|p|) <= LIMIT32 && LastLength(|p|) + TAG <= claim < LIMIT32
    ensures OpenFrames(log, a.key, a.salt, a.prefix, n, FramesFrom(enc, a, n, p, claim)) == Opening(p, Opened)
    decreases |p|
  {
    hide OpenFrames, FramesFrom, ChunkCount, LastLength, BE32, UnBE32, HasChunk;
    Unfold(enc, a, n, p, claim);
    var b := FramesFrom(enc, a, n, p, claim);
    FirstChunk(a, n, p);
    assert Entry(enc, a, n) in log;
    var ct, said, more := Entry(enc, a, n).1, if |p| <= CHUNK then claim else CHUNK + TAG, b;
    if |p| <= CHUNK {
      more := [];
      assert b == BE32(said) + ct + more;
    } else {
      more := FramesFrom(enc, a, n + 1, p[CHUNK..], claim);
      OpenFramesComplete(log, enc, h, a, n + 1, p[CHUNK..], claim);
      assert p == p[..CHUNK] + p[CHUNK..];
    }
    assert b[..4] == BE32(said) && b[4..] == ct + more;
    assert Take(b, 4) == b[..4] && Drop(b, 4) == b[4..];
    assert Take(b[4..], said) == ct && Drop(b[4..], said) == more;
    OpenStep(log, a.key, a.salt, a.prefix, n, b);
    LookupFindsChunk(log, enc, h, a, n, false, ct);
    LookupFindsChunk(log, enc, h, a, n, true, ct);
  }

  lemma OpenComplete(log: Log, enc: Encryptor, h: set<Archive>, a: Archive, claim: nat, b: bytes)
    requires DistinctDraws(h) && LoggedBy(log, enc, h) && a in h && InLog(log, enc, a)
    requires ArchiveClaiming(enc, a, claim, b)
    ensures Open(log, a.key, b) == Opening(a.plain, Opened)
  {
    HeaderOf(enc, a, claim);
    OpenFramesComplete(log, enc, h, a, 0, a.plain, claim);
  }

  lemma HeaderOf(enc: Encryptor, a: Archive, claim: nat)
    requires WellSized(a) && claim < LIMIT32
    ensures var b := SealedWith(enc, a, claim);
            && |b| >= HEAD && MAGIC <= b && b[12..28] == a.salt && b[28..36] == a.prefix
            && b[HEAD..] == FramesFrom(enc, a, 0, a.plain, claim)
  {
  }

  // --- histories of seal calls --------------------------------------------------------------

  /** A seal call, and how many chunks it encrypted before it ended or an I/O error stopped it. */
  datatype Sealing = Sealing(archive: Archive, chunks: nat)

  /** It got to the last chunk: only then is there a whole archive. */
  predicate Whole(s: Sealing) {
    s.chunks >= ChunkCount(|s.archive.plain|)
  }

  /** The log after encrypting p's chunks, numbered from n, up to but not including number `stop`. */
  function LogUpTo(log: Log, enc: Encryptor, a: Archive, n: nat, p: bytes, stop: nat): Log
    decreases |p|
  {
    if n >= LIMIT32 || n >= stop then log
    else if |p| <= CHUNK then log[(SlotOf(a, n, true), enc(SlotOf(a, n, true), p)) := p]
    else
      var (s, c) := (SlotOf(a, n, false), p[..CHUNK]);
      LogUpTo(log[(s, enc(s, c)) := c], enc, a, n + 1, p[CHUNK..], stop)
  }

  /** A seal call that isn't stopped logs what sealing logs. */
  lemma {:induction false} LogUpToEnd(log: Log, enc: Encryptor, a: Archive, n: nat, p: bytes, stop: nat)
    requires stop >= LIMIT32
    ensures LogUpTo(log, enc, a, n, p, stop) == LogFrom(log, enc, a, n, p)
    decreases |p|
  {
    if n < LIMIT32 && |p| > CHUNK {
      var (s, c) := (SlotOf(a, n, false), p[..CHUNK]);
      LogUpToEnd(log[(s, enc(s, c)) := c], enc, a, n + 1, p[CHUNK..], stop);
    }
  }

  /** The log after these sealings, in order. */
  function History(enc: Encryptor, sealings: seq<Sealing>): Log {
    if sealings == [] then map[]
    else
      var s := sealings[|sealings| - 1];
      LogUpTo(History(enc, sealings[..|sealings| - 1]), enc, s.archive, 0, s.archive.plain, s.chunks)
  }

  ghost function Archives(sealings: seq<Sealing>): set<Archive> {
    set s | s in sealings :: s.archive
  }

  /** Everything in the log was encrypted by one of the sealings before it stopped. */
  ghost predicate MadeBy(log: Log, enc: Encryptor, sealings: seq<Sealing>) {
    forall e :: e in log ==> exists s, i :: s in sealings && Makes(enc, s, i, e, log[e])
  }

  ghost predicate Makes(enc: Encryptor, s: Sealing, i: nat, e: (Slot, bytes), p: bytes) {
    i < s.chunks && Explains(enc, s.archive, i, e, p)
  }

  lemma OneMoreMade(log: Log, enc: Encryptor, sealings: seq<Sealing>, s: Sealing, n: nat)
    requires MadeBy(log, enc, sealings) && s in sealings && HasChunk(s.archive, n) && n < LIMIT32 && n < s.chunks
    ensures MadeBy(log[Entry(enc, s.archive, n) := Chunk(s.archive, n)], enc, sealings)
  {
    var e := Entry(enc, s.archive, n);
    var log' := log[e := Chunk(s.archive, n)];
    assert Makes(enc, s, n, e, Chunk(s.archive, n));
    MadeOneMore(log, enc, sealings, s, n, e, Chunk(s.archive, n));
  }

  lemma MadeOneMore(log: Log, enc: Encryptor, sealings: seq<Sealing>, s: Sealing, n: nat, e: (Slot, bytes), p: bytes)
    requires MadeBy(log, enc, sealings) && s in sealings && Makes(enc, s, n, e, p)
    ensures MadeBy(log[e := p], enc, sealings)
  {
    hide Makes;
    var log' := log[e := p];
    forall x | x in log' ensures exists t, i :: t in sealings && Makes(enc, t, i, x, log'[x]) {
      if x != e {
        var t, i :| t in sealings && Makes(enc, t, i, x, log[x]);
        assert Makes(enc, t, i, x, log'[x]);
      }
    }
  }

  lemma {:induction false} LogUpToGrows(log: Log, enc: Encryptor, sealings: seq<Sealing>, s: Sealing, n: nat, p: bytes)
    requires MadeBy(log, enc, sealings) && s in sealings && LeftFrom(s.archive, n, p)
    ensures var l := LogUpTo(log, enc, s.archive, n, p, s.chunks);
            && MadeBy(l, enc, sealings) && log.Keys <= l.Keys
            && forall i :: n <= i < LIMIT32 && i < s.chunks && HasChunk(s.archive, i) ==> Entry(enc, s.archive, i) in l
    decreases |p|
  {
    hide BE32, Explains, Makes;
    var a := s.archive;
    if n < LIMIT32 && n < s.chunks {
      FirstChunk(a, n, p);
      var e := Entry(enc, a, n);
      var log' := log[e := Chunk(a, n)];
      OneMoreMade(log, enc, sealings, s, n);
      if |p| > CHUNK {
        LogUpToGrows(log', enc, sealings, s, n + 1, p[CHUNK..]);
      }
    }
  }

  lemma OneMoreSealing(enc: Encryptor, past: seq<Sealing>, a: Archive)
    ensures History(enc, past + [Sealing(a, LIMIT32)]) == LogFrom(History(enc, past), enc, a, 0, a.plain)
  {
    hide LogUpTo, LogFrom;
    assert (past + [Sealing(a, LIMIT32)])[..|past|] == past;
    LogUpToEnd(History(enc, past), enc, a, 0, a.plain, LIMIT32);
  }

  lemma MadeByMore(log: Log, enc: Encryptor, front: seq<Sealing>, s: Sealing)
    requires MadeBy(log, enc, front)
    ensures MadeBy(log, enc, front + [s])
  {
    hide Makes;
    forall e | e in log ensures exists t, i :: t in front + [s] && Makes(enc, t, i, e, log[e]) {
      var t, i :| t in front && Makes(enc, t, i, e, log[e]);
      assert t in front + [s];
    }
  }

  lemma WholeIsLogged(log: Log, enc: Encryptor, s: Sealing)
    requires Whole(s)
    requires forall i :: 0 <= i < LIMIT32 && i < s.chunks && HasChunk(s.archive, i) ==> Entry(enc, s.archive, i) in log
    ensures InLog(log, enc, s.archive)
  {
    hide ChunkCount;
    ChunkCountIs(|s.archive.plain|);
    forall i: nat | HasChunk(s.archive, i) && i < LIMIT32 ensures Entry(enc, s.archive, i) in log {
      assert i < s.chunks;
    }
  }

  lemma StillInLog(log: Log, log': Log, enc: Encryptor, a: Archive)
    requires InLog(log, enc, a) && log.Keys <= log'.Keys
    ensures InLog(log', enc, a)
  {
  }

  lemma {:induction false} HistoryLogs(enc: Encryptor, sealings: seq<Sealing>)
    ensures MadeBy(History(enc, sealings), enc, sealings)
    ensures forall s :: s in sealings && Whole(s) ==> InLog(History(enc, sealings), enc, s.archive)
  {
    hide LogUpTo, InLog, Whole, MadeBy, Entry;
    if sealings == [] {
      NothingMade(enc);
    } else {
      var (front, s) := (sealings[..|sealings| - 1], sealings[|sealings| - 1]);
      HistoryLogs(enc, front);
      var (log, log') := (History(enc, front), History(enc, sealings));
      assert sealings == front + [s];
      MadeByMore(log, enc, front, s);
      LogUpToGrows(log, enc, sealings, s, 0, s.archive.plain);
      forall t | t in sealings && Whole(t) ensures InLog(log', enc, t.archive) {
        if t in front {
          StillInLog(log, log', enc, t.archive);
        } else {
          WholeIsLogged(log', enc, t);
        }
      }
    }
  }

  lemma NothingMade(enc: Encryptor)
    ensures MadeBy(map[], enc, [])
  {
  }

  lemma MadeIsLogged(log: Log, enc: Encryptor, sealings: seq<Sealing>)
    requires MadeBy(log, enc, sealings)
    ensures LoggedBy(log, enc, Archives(sealings))
  {
    hide Explains;
    forall e | e in log ensures exists a, i :: a in Archives(sealings) && Explains(enc, a, i, e, log[e]) {
      var s, i :| s in sealings && Makes(enc, s, i, e, log[e]);
      assert s.archive in Archives(sealings);
    }
  }

  /** An archive all of whose chunks are in the log was sealed to its end. */
  lemma LoggedIsWhole(log: Log, enc: Encryptor, sealings: seq<Sealing>, a: Archive)
    requires DistinctDraws(Archives(sealings)) && MadeBy(log, enc, sealings) && a in Archives(sealings)
    requires InLog(log, enc, a) && Fits(|a.plain|)
    ensures exists s :: s in sealings && s.archive == a && Whole(s)
  {
    hide ChunkCount, BE32;
    ChunkCountIs(|a.plain|);
    var last := ChunkCount(|a.plain|) - 1;
    assert HasChunk(a, last) && last < LIMIT32;
    var e := Entry(enc, a, last);
    var s, i :| s in sealings && Makes(enc, s, i, e, log[e]);
    assert s.archive in Archives(sealings);
    SameSlot(a, last, IsLast(a, last), s.archive, i, IsLast(s.archive, i));
  }

  // --- main results -------------------------------------------------------------------------

  /** For every history of sealings with distinct draws, stopped halfway or not, every key and every input: it
      opens exactly when it is the archive of one of that key's sealings that got to its end (whose last length
      field may claim too much), and then to that archive's plaintext; whatever else happens, only a prefix of a
      sealed plaintext is written. */
  lemma OpensExactlyArchives(enc: Encryptor, sealings: seq<Sealing>, key: bytes, b: bytes)
    requires DistinctDraws(Archives(sealings))
    ensures var o := Open(History(enc, sealings), key, b);
            && (o.outcome == Opened <==> exists s, claim :: SealedAs(enc, sealings, key, b, s, claim))
            && (forall s, claim :: SealedAs(enc, sealings, key, b, s, claim) ==> o.written == s.archive.plain)
            && (o.written != [] ==> exists s :: s in sealings && s.archive.key == key && o.written <= s.archive.plain)
  {
    hide Open, History, ArchiveClaiming, Whole, InLog, MadeBy, LoggedBy, DistinctDraws;
    HistoryLogs(enc, sealings);
    var log, h := History(enc, sealings), Archives(sealings);
    MadeIsLogged(log, enc, sealings);
    OpenSound(log, enc, h, key, b);
    if Open(log, key, b).outcome == Opened {
      var a, claim :| a in h && a.key == key && InLog(log, enc, a) && ArchiveClaiming(enc, a, claim, b);
      ClaimingFits(enc, a, claim, b);
      LoggedIsWhole(log, enc, sealings, a);
      var s :| s in sealings && s.archive == a && Whole(s);
      assert SealedAs(enc, sealings, key, b, s, claim);
    }
    forall s, claim | SealedAs(enc, sealings, key, b, s, claim)
      ensures Open(log, key, b) == Opening(s.archive.plain, Opened)
    {
      OpenComplete(log, enc, h, s.archive, claim, b);
    }
  }

  /** b is the archive of a sealing with this key that got to its end, but for a last length field that may claim
      too much. */
  ghost predicate SealedAs(enc: Encryptor, sealings: seq<Sealing>, key: bytes, b: bytes, s: Sealing, claim: nat) {
    s in sealings && Whole(s) && s.archive.key == key && ArchiveClaiming(enc, s.archive, claim, b)
  }

  lemma ClaimingFits(enc: Encryptor, a: Archive, claim: nat, b: bytes)
    requires ArchiveClaiming(enc, a, claim, b)
    ensures Fits(|a.plain|)
  {
  }

  /** unseal(seal(p)) == p, for every plaintext the chunk counter allows. */
  lemma RoundTrip(enc: Encryptor, sealings: seq<Sealing>, s: Sealing)
    requires DistinctDraws(Archives(sealings)) && s in sealings && Whole(s) && Fits(|s.archive.plain|)
    ensures Open(History(enc, sealings), s.archive.key, Sealed(enc, s.archive)) == Opening(s.archive.plain, Opened)
  {
    HistoryLogs(enc, sealings);
    MadeIsLogged(History(enc, sealings), enc, sealings);
    var a := s.archive;
    OpenComplete(History(enc, sealings), enc, Archives(sealings), a, TrueClaim(a), Sealed(enc, a));
  }

  /** Every length field fits in what is left after it. */
  predicate FramesFit(b: bytes)
    decreases |b|
  {
    b == [] || (|b| >= 4 && 4 + UnBE32(b[..4]) <= |b| && FramesFit(b[4 + UnBE32(b[..4])..]))
  }

  lemma {:induction false} FramesFitWhenTrue(enc: Encryptor, a: Archive, n: nat, p: bytes, claim: nat)
    requires LastLength(|p|) + TAG <= claim < LIMIT32
    ensures n + ChunkCount(|p|) <= LIMIT32 || claim == LastLength(|p|) + TAG
        ==> (FramesFit(FramesFrom(enc, a, n, p, claim)) <==> claim == LastLength(|p|) + TAG)
    decreases |p|
  {
    hide BE32, UnBE32;
    if n < LIMIT32 {
      var b := FramesFrom(enc, a, n, p, claim);
      if |p| <= CHUNK {
        var ct := enc(SlotOf(a, n, true), p);
        assert b[..4] == BE32(claim) && b[4..] == ct;
      } else {
        var (ct, more) := (enc(SlotOf(a, n, false), p[..CHUNK]), FramesFrom(enc, a, n + 1, p[CHUNK..], claim));
        assert b[..4] == BE32(CHUNK + TAG) && b[4 + (CHUNK + TAG)..] == more;
        FramesFitWhenTrue(enc, a, n + 1, p[CHUNK..], claim);
      }
    }
  }

  /** An input that opens is, byte for byte, what some seal call wrote, exactly when its length
      fields fit. */
  lemma ExactWhenFramesFit(enc: Encryptor, sealings: seq<Sealing>, key: bytes, b: bytes)
    requires DistinctDraws(Archives(sealings)) && Open(History(enc, sealings), key, b).outcome == Opened
    ensures (exists s :: s in sealings && Whole(s) && s.archive.key == key && b == Sealed(enc, s.archive))
        <==> FramesFit(b[HEAD..])
  {
    hide FramesFrom, OpenFrames, Open, FramesFit, LastLength, ChunkCount, BE32, UnBE32, History, Whole;
    OpensExactlyArchives(enc, sealings, key, b);
    var s, claim :| SealedAs(enc, sealings, key, b, s, claim);
    HeaderOf(enc, s.archive, claim);
    FramesFitWhenTrue(enc, s.archive, 0, s.archive.plain, claim);
    forall c | c in sealings && b == Sealed(enc, c.archive) ensures FramesFit(b[HEAD..]) {
      assert c.archive in Archives(sealings);
      HeaderOf(enc, c.archive, TrueClaim(c.archive));
      FramesFitWhenTrue(enc, c.archive, 0, c.archive.plain, TrueClaim(c.archive));
    }
  }

  /** Not every input that opens was written by seal: raising the last length field changes the archive,
      which still opens. */
  lemma OverclaimStillOpens(enc: Encryptor, sealings: seq<Sealing>, s: Sealing)
    requires DistinctDraws(Archives(sealings)) && s in sealings && Whole(s) && Fits(|s.archive.plain|)
    ensures var (a, b) := (s.archive, SealedWith(enc, s.archive, TrueClaim(s.archive) + 1));
            && Open(History(enc, sealings), a.key, b) == Opening(a.plain, Opened)
            && forall c :: c in Archives(sealings) ==> b != Sealed(enc, c)
  {
    hide FramesFrom, OpenFrames, Open, FramesFit, LastLength, ChunkCount, BE32, UnBE32, History, Whole;
    var a := s.archive;
    var b := SealedWith(enc, a, TrueClaim(a) + 1);
    HistoryLogs(enc, sealings);
    MadeIsLogged(History(enc, sealings), enc, sealings);
    OpenComplete(History(enc, sealings), enc, Archives(sealings), a, TrueClaim(a) + 1, b);
    HeaderOf(enc, a, TrueClaim(a) + 1);
    FramesFitWhenTrue(enc, a, 0, a.plain, TrueClaim(a) + 1);
    forall c | c in Archives(sealings) ensures b != Sealed(enc, c) {
      HeaderOf(enc, c, TrueClaim(c));
      FramesFitWhenTrue(enc, c, 0, c.plain, TrueClaim(c));
    }
  }

  lemma CutAfter(head: bytes, x: bytes, k: nat)
    requires k + 4 <= |x|
    ensures (head + x)[..|head| + k] == head + x[..k] && (head + x)[|head| + k + 4..] == x[k + 4..]
  {
  }

  /** Where an archive's last length field is. */
  lemma {:induction false} OnlyLastFieldDiffers(enc: Encryptor, a: Archive, n: nat, p: bytes, claim: nat, other: nat)
    requires claim < LIMIT32 && other < LIMIT32 && n + ChunkCount(|p|) <= LIMIT32
    ensures var (x, y) := (FramesFrom(enc, a, n, p, claim), FramesFrom(enc, a, n, p, other));
            var k := |x| - (LastLength(|p|) + TAG) - 4;
            && |x| == |y| && k >= 0 && x[..k] == y[..k] && x[k + 4..] == y[k + 4..]
    decreases |p|
  {
    hide BE32, UnBE32;
    if |p| > CHUNK {
      OnlyLastFieldDiffers(enc, a, n + 1, p[CHUNK..], claim, other);
      var head := BE32(CHUNK + TAG) + enc(SlotOf(a, n, false), p[..CHUNK]);
      var (x, y) := (FramesFrom(enc, a, n + 1, p[CHUNK..], claim), FramesFrom(enc, a, n + 1, p[CHUNK..], other));
      var k := |x| - (LastLength(|p|) + TAG) - 4;
      CutAfter(head, x, k);
      CutAfter(head, y, k);
    }
  }

  /** Any change to an archive's body is refused, unless all that changed is its last length field:
      flipped, cut, extended, reordered, repeated or spliced-in chunks don't open. */
  lemma DamageIsRefused(enc: Encryptor, sealings: seq<Sealing>, a: Archive, b: bytes)
    requires DistinctDraws(Archives(sealings)) && a in Archives(sealings)
    requires |b| >= HEAD && b[..HEAD] == Header(a)
    ensures var (o, whole) := (Open(History(enc, sealings), a.key, b), Sealed(enc, a));
            && o.written <= a.plain
            && (o.outcome == Opened ==>
                  var k := |whole| - TrueClaim(a) - 4;
                  |b| == |whole| && k >= 0 && b[..k] == whole[..k] && b[k + 4..] == whole[k + 4..])
  {
    hide OpenFrames, Open, FramesFrom, History, BE32, UnBE32, LastLength, ChunkCount, Header;
    HistoryLogs(enc, sealings);
    MadeIsLogged(History(enc, sealings), enc, sealings);
    var log, h := History(enc, sealings), Archives(sealings);
    OpenAfterHeader(log, a, b);
    var claim := OpenFramesSound(log, enc, h, a, 0, a.plain, b[HEAD..]);
    if Open(log, a.key, b).outcome == Opened {
      OnlyLastFieldDiffers(enc, a, 0, a.plain, claim, TrueClaim(a));
    }
  }

  lemma OpenAfterHeader(log: Log, a: Archive, b: bytes)
    requires WellSized(a) && |b| >= HEAD && b[..HEAD] == Header(a)
    ensures Open(log, a.key, b) == OpenFrames(log, a.key, a.salt, a.prefix, 0, b[HEAD..])
    ensures b == Header(a) + b[HEAD..] && |Header(a)| == HEAD
  {
    hide OpenFrames;
    var hd := Header(a);
    assert MAGIC <= hd && hd[12..28] == a.salt && hd[28..36] == a.prefix;
    assert MAGIC <= b && b[12..28] == a.salt && b[28..36] == a.prefix;
  }

  /** A cut or an extended archive never opens, and what was written by then is a prefix. */
  lemma CutOrExtendedIsRefused(enc: Encryptor, sealings: seq<Sealing>, a: Archive, b: bytes)
    requires DistinctDraws(Archives(sealings)) && a in Archives(sealings)
    requires b < Sealed(enc, a) || Sealed(enc, a) < b
    ensures var o := Open(History(enc, sealings), a.key, b); o.outcome != Opened && o.written <= a.plain
  {
    HeaderOf(enc, a, TrueClaim(a));
    if |b| >= HEAD {
      assert Sealed(enc, a)[..HEAD] == Header(a);
      DamageIsRefused(enc, sealings, a, b);
    }
  }

  // --- the chunks a sealing writes ----------------------------------------------------------

  lemma {:induction false} ChunkCountIs(len: nat)
    ensures ChunkCount(len) == if len == 0 then 1 else (len + CHUNK - 1) / CHUNK
    decreases len
  {
    if len > CHUNK {
      ChunkCountIs(len - CHUNK);
    }
  }

  /** The i-th frame, from the plaintext: only the chunk that reaches the end carries the last flag. */
  function Frame(enc: Encryptor, a: Archive, i: nat): bytes
    requires HasChunk(a, i) && i < LIMIT32
  {
    BE32(|Chunk(a, i)| + TAG) + Entry(enc, a, i).1
  }

  function Frames(enc: Encryptor, a: Archive, i: nat, count: nat): bytes
    requires i <= count <= LIMIT32
    requires forall k :: i <= k < count ==> HasChunk(a, k)
    decreases count - i
  {
    if i == count then [] else Frame(enc, a, i) + Frames(enc, a, i + 1, count)
  }

  lemma ChunkNumbers(a: Archive, n: nat, p: bytes)
    requires LeftFrom(a, n, p)
    ensures forall i :: n <= i < n + ChunkCount(|p|) ==>
              HasChunk(a, i) && (IsLast(a, i) <==> i == n + ChunkCount(|p|) - 1)
  {
    hide ChunkCount;
    ChunkCountIs(|p|);
  }

  lemma FrameIs(enc: Encryptor, a: Archive, n: nat, p: bytes)
    requires LeftFrom(a, n, p) && n < LIMIT32
    ensures Frame(enc, a, n) == if |p| <= CHUNK then BE32(|p| + TAG) + enc(SlotOf(a, n, true), p)
                                else BE32(CHUNK + TAG) + enc(SlotOf(a, n, false), p[..CHUNK])
  {
    hide BE32;
    FirstChunk(a, n, p);
  }

  lemma {:induction false} FramesFromAreFrames(enc: Encryptor, a: Archive, n: nat, p: bytes)
    requires LeftFrom(a, n, p) && n + ChunkCount(|p|) <= LIMIT32
    requires forall i :: n <= i < n + ChunkCount(|p|) ==> HasChunk(a, i)
    ensures FramesFrom(enc, a, n, p, LastLength(|p|) + TAG) == Frames(enc, a, n, n + ChunkCount(|p|))
    decreases |p|
  {
    hide FramesFrom, ChunkCount, LastLength, BE32, HasChunk, Frame;
    Unfold(enc, a, n, p, LastLength(|p|) + TAG);
    FirstChunk(a, n, p);
    FrameIs(enc, a, n, p);
    if |p| > CHUNK {
      FramesFromAreFrames(enc, a, n + 1, p[CHUNK..]);
    }
  }

  /** An archive is its header and max(1, ceil(len / CHUNK)) frames, of which only the last one carries
      the last flag. */
  lemma SealedIsChunks(enc: Encryptor, a: Archive)
    requires Fits(|a.plain|)
    ensures var count := if a.plain == [] then 1 else (|a.plain| + CHUNK - 1) / CHUNK;
            && count <= LIMIT32
            && (forall i :: 0 <= i < count ==> HasChunk(a, i) && (IsLast(a, i) <==> i == count - 1))
            && Sealed(enc, a) == Header(a) + Frames(enc, a, 0, count)
  {
    hide FramesFrom, Frames, ChunkCount, LastLength;
    ChunkCountIs(|a.plain|);
    ChunkNumbers(a, 0, a.plain);
    FramesFromAreFrames(enc, a, 0, a.plain);
  }

  /** Sealing into a buffer and opening that buffer again, whatever the streams' reads return. */
  method SealThenUnseal(data: bytes, key: bytes, salt: bytes, prefix: bytes, aead: Aead, ghost past: seq<Sealing>)
    returns (back: bytes, sealedTotal: SealResult, outcome: Outcome, openedTotal: nat)
    requires aead.log == History(aead.enc, past)
    requires DistinctDraws(Archives(past + [Sealing(Archive(key, salt, prefix, data), LIMIT32)]))
    modifies aead
    ensures Fits(|data|) ==> back == data && outcome == Opened && sealedTotal == Total(openedTotal)
    ensures !Fits(|data|) ==> sealedTotal == SealOverflow
    ensures aead.log == History(aead.enc, past + [Sealing(Archive(key, salt, prefix, data), LIMIT32)])
  {
    hide History, LogFrom, Open, Sealed, ChunkCount;
    ghost var a := Archive(key, salt, prefix, data);
    var src := new Source(data);
    var dst := new Sink();
    sealedTotal := SealStream(src, dst, aead, key, salt, prefix);
    assert aead.log == LogFrom(History(aead.enc, past), aead.enc, a, 0, data);
    assert dst.written == Sealed(aead.enc, a);
    OneMoreSealing(aead.enc, past, a);
    ghost var all := past + [Sealing(a, LIMIT32)];
    assert aead.log == History(aead.enc, all);
    var src' := new Source(dst.written);
    var dst' := new Sink();
    outcome, openedTotal := UnsealStream(src', dst', aead, key);
    back := dst'.written;
    if Fits(|data|) {
      assert Sealing(a, LIMIT32) in all;
      RoundTrip(aead.enc, all, Sealing(a, LIMIT32));
    }
  }
}
