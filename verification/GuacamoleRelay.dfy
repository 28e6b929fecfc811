/** guacd's side of a session: reading one instruction during the handshake, and relaying what guacd
    sends to the browser in messages of whole instructions. Text arrives already decoded. */
module GuacamoleRelay {
  import opened Wrappers
  import opened Sequences
  import opened Guacamole

  function Concat(ts: seq<string>): string {
    if ts == [] then "" else Concat(ts[..|ts| - 1]) + ts[|ts| - 1]
  }

  lemma ConcatSnoc(ts: seq<string>, t: string)
    ensures Concat(ts + [t]) == Concat(ts) + t
  {
    assert (ts + [t])[..|ts|] == ts;
  }

  /** guacd's connection: what each read returns, then end of file (an empty read) for ever. */
  class Reader {
    var chunks: seq<string>

    ghost predicate Valid()
      reads this
    {
      "" !in chunks
    }

    constructor (chunks: seq<string>)
      requires "" !in chunks
      ensures Valid() && this.chunks == chunks
    {
      this.chunks := chunks;
    }

    method Read() returns (data: string)
      requires Valid()
      modifies this
      ensures Valid()
      ensures data == "" <==> old(chunks) == []
      ensures if old(chunks) == [] then chunks == [] else [data] + chunks == old(chunks)
    {
      if chunks == [] {
        data := "";
      } else {
        data, chunks := chunks[0], chunks[1..];
      }
    }
  }

  // --- the handshake ------------------------------------------------------------------------

  datatype Handshake = First(elements: Instruction) | Closed | Refused(fault: Fault)

  class Buffer {
    var text: string

    constructor (text: string)
      ensures this.text == text
    {
      this.text := text;
    }
  }

  /** `_read_instruction`: reads until a whole instruction is there, and takes as much text off the
      buffer as that instruction prints to. `taken` are its reads, and `got` their text. */
  method TakeInstruction(reader: Reader, buf: Buffer)
    returns (r: Handshake, ghost got: string, ghost taken: seq<string>)
    requires reader.Valid()
    modifies reader, buf
    ensures reader.Valid() && old(reader.chunks) == taken + reader.chunks && got == Concat(taken)
    ensures r.First? ==> TookFirst(old(buf.text) + got, r.elements, buf.text)
    ensures !r.First? ==> buf.text == old(buf.text) + got
    ensures StillWaiting(old(buf.text), taken)
    ensures r == Closed ==> reader.chunks == [] && Parse(buf.text) == Parsed([], buf.text)
    ensures r.Refused? ==> Parse(buf.text) == Raised(r.fault)
  {
    hide ReadInstruction, Parse, Encode, PlainLengths, TookFirst, Concat, StillWaiting;
    got, taken := "", [];
    ghost var c0, b0 := reader.chunks, buf.text;
    NothingRead();
    WithNothing(c0);
    WithNothing(b0);
    NothingAwaited(b0);
    while true
      invariant reader.Valid() && c0 == taken + reader.chunks && got == Concat(taken) && buf.text == b0 + got
      invariant StillWaiting(b0, taken)
      decreases |reader.chunks|
    {
      var p := ParseText(buf.text);
      if p.Raised? {
        return Refused(p.fault), got, taken;
      }
      if p.instructions != [] {
        var first := p.instructions[0];
        FirstIsTaken(buf.text, p);
        buf.text := buf.text[|Encode(first)|..];
        return First(first), got, taken;
      }
      NoneIsTaken(buf.text, p);
      var data := reader.Read();
      if data == "" {
        return Closed, got, taken;
      }
      Assoc(taken, [data], reader.chunks);
      ConcatSnoc(taken, data);
      Assoc(b0, got, data);
      WaitedOnceMore(b0, taken, data);
      got, taken := got + data, taken + [data];
      buf.text := buf.text + data;
    }
  }

  /** Before each of these reads, the text had no whole instruction, and no fault. */
  ghost predicate StillWaiting(text: string, taken: seq<string>) {
    forall k :: 0 <= k < |taken| ==> NoneYet(text + Concat(taken[..k]))
  }

  predicate NoneYet(text: string) {
    Parse(text) == Parsed([], text)
  }

  lemma NothingAwaited(text: string)
    ensures StillWaiting(text, [])
  {
  }

  lemma WaitedOnceMore(text: string, taken: seq<string>, data: string)
    requires StillWaiting(text, taken) && NoneYet(text + Concat(taken))
    ensures StillWaiting(text, taken + [data])
  {
    hide NoneYet, Concat;
    var more := taken + [data];
    forall k | 0 <= k < |more| ensures NoneYet(text + Concat(more[..k])) {
      if k < |taken| {
        assert more[..k] == taken[..k];
      } else {
        assert more[..k] == taken;
      }
    }
  }

  lemma NothingRead()
    ensures Concat([]) == ""
  {
  }

  /** es was the first instruction of text, and left is what remained: the text after it, exactly when
      its lengths are plain. */
  ghost predicate TookFirst(text: string, es: Instruction, left: string) {
    && ReadInstruction(text).Whole? && es == ReadInstruction(text).elements && Parse(text).Parsed?
    && |Encode(es)| <= |text| && left == text[|Encode(es)|..]
    && (left == text[ReadInstruction(text).used..] <==> PlainLengths(text))
  }

  lemma FirstIsTaken(text: string, p: Parsed)
    requires p == Parse(text) && p.Parsed? && p.instructions != []
    ensures |Encode(p.instructions[0])| <= |text|
    ensures TookFirst(text, p.instructions[0], text[|Encode(p.instructions[0])|..])
  {
    hide ReadInstruction, Parse, Encode, TookFirst;
    FirstOfWhole(text);
    TakesWhole(text);
  }

  lemma FirstOfWhole(text: string)
    requires Parse(text).Parsed? && Parse(text).instructions != []
    ensures ReadInstruction(text).Whole? && Parse(text).instructions[0] == ReadInstruction(text).elements
  {
    hide ReadInstruction, Parse, Prepend;
    FirstInstruction(text);
    var r := ReadInstruction(text);
    if r.Whole? {
      PrependedFirst(r.elements, Parse(text[r.used..]));
    }
  }

  lemma PrependedFirst(es: Instruction, p: Parsed)
    ensures Prepend([es], p).Parsed? ==> p.Parsed? && Prepend([es], p).instructions[0] == es
  {
  }

  lemma TakesWhole(text: string)
    requires Parse(text).Parsed? && ReadInstruction(text).Whole?
    ensures var es := ReadInstruction(text).elements;
            |Encode(es)| <= |text| && TookFirst(text, es, text[|Encode(es)|..])
  {
    hide ReadInstruction, Parse, Encode, PlainLengths;
    LeavesTheRest(text);
  }

  lemma NoneIsTaken(text: string, p: Parsed)
    requires p == Parse(text) && p.Parsed? && p.instructions == []
    ensures p.rest == text
  {
    hide ReadInstruction, Parse;
    FirstInstruction(text);
  }

  /** What the peer printed is taken instruction by instruction, with nothing lost. */
  lemma TakesPrinted(es: Instruction, t: string, taken: Instruction, left: string)
    requires es != [] && TookFirst(Encode(es) + t, taken, left)
    ensures taken == es && left == t
  {
    hide ReadInstruction, Parse, Encode, PlainLengths;
    ReadEncoded(es, t);
    EncodedIsPlain(es, t);
  }

  // --- the relay ----------------------------------------------------------------------------

  /** The browser's socket, as the messages sent on it. */
  class WebSocket {
    var sent: seq<string>

    constructor ()
      ensures sent == []
    {
      sent := [];
    }

    method SendText(message: string)
      modifies this
      ensures sent == old(sent) + [message]
    {
      sent := sent + [message];
    }
  }

  /** The instructions in these messages, each parsed by itself. */
  function Instructions(messages: seq<string>): seq<Instruction> {
    if messages == [] then []
    else
      var p := Parse(messages[|messages| - 1]);
      Instructions(messages[..|messages| - 1]) + if p.Parsed? then p.instructions else []
  }

  lemma InstructionsSnoc(messages: seq<string>, m: string)
    requires Parse(m).Parsed?
    ensures Instructions(messages + [m]) == Instructions(messages) + Parse(m).instructions
  {
    assert (messages + [m])[..|messages|] == messages;
  }

  /** A message of one or more whole instructions and nothing else. */
  predicate WholeMessage(m: string) {
    var p := Parse(m);
    p.Parsed? && p.instructions != [] && p.rest == ""
  }

  /** These messages and the pending text account for `text`: nothing lost, added, or cut inside an
      instruction, and the instructions are those of parsing all of it at once. */
  ghost predicate Relayed(messages: seq<string>, pending: string, text: string) {
    && Concat(messages) + pending == text
    && (forall m :: m in messages ==> WholeMessage(m))
    && Parse(text) == Parsed(Instructions(messages), pending)
  }

  predicate IsError(i: Instruction) {
    i != [] && i[0] == "error"
  }

  datatype Ending = RemoteClosed | Failed(why: string) | BadText(fault: Fault)

  function FailureText(i: Instruction): string {
    if |i| > 1 then i[1] else "error"
  }

  /** The message holds an error instruction, and why is what its first one says. */
  predicate ReportsError(m: string, why: string) {
    var p := Parse(m);
    p.Parsed? && exists k :: 0 <= k < |p.instructions| && IsError(p.instructions[k])
                             && (forall j :: 0 <= j < k ==> !IsError(p.instructions[j]))
                             && why == FailureText(p.instructions[k])
  }

  predicate NoErrors(m: string) {
    var p := Parse(m);
    p.Parsed? && forall k :: 0 <= k < |p.instructions| ==> !IsError(p.instructions[k])
  }

  /** What guacd prints: instructions with an opcode each. The message reports the first whose opcode is error, by
      its first argument, or as "error" if it has none; and nothing if there's no such instruction. */
  lemma PrintedErrors(before: seq<Instruction>, args: Instruction, more: seq<Instruction>, why: string)
    requires forall i :: i in before ==> i != [] && i[0] != "error"
    requires forall i :: i in more ==> i != []
    ensures NoErrors(EncodeAll(before)) && !ReportsError(EncodeAll(before), why)
    ensures var m := EncodeAll(before + [["error"] + args] + more);
            !NoErrors(m) && (ReportsError(m, why) <==> why == (if args == [] then "error" else args[0]))
  {
    hide Parse, EncodeAll;
    var error := ["error"] + args;
    var all := before + [error] + more;
    forall k | 0 <= k < |all| ensures all[k] != [] {
      assert k < |before| ==> all[k] in before;
      assert k > |before| ==> all[k] in more;
    }
    forall k | 0 <= k < |before| ensures all[k] == before[k] && before[k] != [] && !IsError(before[k]) {
      assert before[k] in before;
    }
    ParseInvertsEncode(before);
    ParseInvertsEncode(all);
    assert all[|before|] == error && IsError(error);
    if args != [] {
      assert error[1] == args[0];
    }
  }

  method FindError(whole: string) returns (why: Option<string>)
    requires Parse(whole).Parsed?
    ensures if why.Some? then ReportsError(whole, why.value) else NoErrors(whole)
  {
    hide Parse;
    var p := ParseText(whole);
    for k := 0 to |p.instructions|
      invariant forall j :: 0 <= j < k ==> !IsError(p.instructions[j])
    {
      if IsError(p.instructions[k]) {
        return Some(FailureText(p.instructions[k]));
      }
    }
    return None;
  }

  /** What sending on the whole part of the pending text and new data does. */
  lemma SentWhole(messages: seq<string>, pending: string, text: string, data: string, whole: string, rest: string,
                  ls: seq<Instruction>)
    requires Relayed(messages, pending, text) && Parse(pending + data) == Parsed(ls, rest)
    requires whole + rest == pending + data && Parse(whole) == Parsed(ls, "") && whole != ""
    ensures Relayed(messages + [whole], rest, text + data)
  {
    hide Parse, Instructions, Concat, WholeMessage;
    ParseContinues(text, data);
    ConcatSnoc(messages, whole);
    InstructionsSnoc(messages, whole);
    NonEmptyWhole(whole, ls);
    Assoc(Concat(messages), pending, data);
    Assoc(Concat(messages), whole, rest);
  }

  lemma SentNothing(messages: seq<string>, pending: string, text: string, data: string, rest: string,
                    ls: seq<Instruction>)
    requires Relayed(messages, pending, text) && Parse(pending + data) == Parsed(ls, rest)
    requires rest == pending + data && Parse("") == Parsed(ls, "")
    ensures Relayed(messages, rest, text + data)
  {
    hide Parse, Instructions, Concat, WholeMessage, Prepend;
    ParseContinues(text, data);
    NothingToRead();
    Assoc(Concat(messages), pending, data);
    PrependNothing(Instructions(messages), rest);
  }

  lemma PrependNothing(ls: seq<Instruction>, rest: string)
    ensures Prepend(ls, Parsed([], rest)) == Parsed(ls, rest)
  {
  }

  lemma NonEmptyWhole(whole: string, ls: seq<Instruction>)
    requires Parse(whole) == Parsed(ls, "") && whole != ""
    ensures WholeMessage(whole)
  {
    hide ReadInstruction;
  }

  /** Sends on the whole instructions of the pending text, if there are any. */
  method ForwardWhole(ws: WebSocket, buffer: string) returns (whole: string, rest: string, fault: Option<Fault>)
    modifies ws
    ensures if fault.Some? then Parse(buffer) == Raised(fault.value) && ws.sent == old(ws.sent)
            else
              && Parse(buffer).Parsed? && whole == WholeText(buffer)
              && SendWhole(old(ws.sent), buffer) == Some((ws.sent, rest))
    ensures fault == None ==> Parse(whole).Parsed?
  {
    hide Parse, WholeText;
    whole, rest, fault := CompletePrefix(buffer);
    if fault == None && whole != "" {
      ws.SendText(whole);
    }
  }

  /** What `relay` sends on before it reads from guacd: the whole instructions the handshake left over,
      which it doesn't look at. */
  function SentBefore(leftover: string): seq<string> {
    if Parse(leftover).Parsed? && WholeText(leftover) != "" then [WholeText(leftover)] else []
  }

  /** The messages sent and the text pending after the handshake's leftover and these reads; None once parse has
      raised. Each read's whole part goes out before the next read. */
  function AfterReads(leftover: string, taken: seq<string>): Option<(seq<string>, string)> {
    if taken == [] then
      if Parse(leftover).Parsed? then Some((SentBefore(leftover), Parse(leftover).rest)) else None
    else
      match AfterReads(leftover, taken[..|taken| - 1])
      case None => None
      case Some((sent, pending)) => SendWhole(sent, pending + taken[|taken| - 1])
  }

  function SendWhole(sent: seq<string>, buffer: string): Option<(seq<string>, string)> {
    if Parse(buffer).Raised? then None
    else Some((if WholeText(buffer) == "" then sent else sent + [WholeText(buffer)], Parse(buffer).rest))
  }

  lemma NextRead(leftover: string, taken: seq<string>, data: string)
    requires AfterReads(leftover, taken).Some?
    ensures var (sent, pending) := AfterReads(leftover, taken).value;
            AfterReads(leftover, taken + [data]) == SendWhole(sent, pending + data)
  {
    hide SendWhole;
    assert (taken + [data])[..|taken|] == taken;
  }

  /** Whatever was read, sent and pending account for it. */
  lemma {:induction false} ReadsAreRelayed(leftover: string, taken: seq<string>)
    ensures AfterReads(leftover, taken).Some? ==>
              var (sent, pending) := AfterReads(leftover, taken).value; Relayed(sent, pending, leftover + Concat(taken))
  {
    hide Parse, Relayed, Concat, WholeText;
    if taken == [] {
      NoReads(leftover);
      if Parse(leftover).Parsed? {
        NothingRelayed();
        assert "" + leftover == leftover;
        SendsWhole([], "", "", leftover);
      }
    } else {
      var (front, data) := (taken[..|taken| - 1], taken[|taken| - 1]);
      ReadsAreRelayed(leftover, front);
      assert taken == front + [data];
      ConcatSnoc(front, data);
      Assoc(leftover, Concat(front), data);
      if AfterReads(leftover, taken).Some? {
        var (sent, pending) := AfterReads(leftover, front).value;
        SendsWhole(sent, pending, leftover + Concat(front), data);
      }
    }
  }

  lemma SendsWhole(sent: seq<string>, pending: string, text: string, data: string)
    requires Relayed(sent, pending, text) && Parse(pending + data).Parsed?
    ensures var (sent', rest) := SendWhole(sent, pending + data).value; Relayed(sent', rest, text + data)
  {
    hide Parse, Relayed, WholeText;
    var buffer := pending + data;
    ParseWholePart(buffer);
    var (ls, rest) := (Parse(buffer).instructions, Parse(buffer).rest);
    if WholeText(buffer) == "" {
      SentNothing(sent, pending, text, data, rest, ls);
    } else {
      SentWhole(sent, pending, text, data, WholeText(buffer), rest, ls);
    }
  }

  /** The messages are the first ones, and then some without an error instruction. */
  ghost predicate QuietSince(first: seq<string>, messages: seq<string>) {
    first <= messages && forall k :: |first| <= k < |messages| ==> NoErrors(messages[k])
  }

  lemma QuietSoFar(first: seq<string>)
    ensures QuietSince(first, first)
  {
  }

  lemma OneMoreQuiet(first: seq<string>, messages: seq<string>, m: string)
    requires QuietSince(first, messages)
    ensures (messages + [m])[..|messages + [m]| - 1] == messages
    ensures NoErrors(m) ==> QuietSince(first, messages + [m])
  {
    hide NoErrors;
  }

  /** The last read's message is the first of guacd's that holds an error instruction. */
  ghost predicate EndedBy(leftover: string, taken: seq<string>, sent: seq<string>, why: string) {
    && taken != [] && sent != []
    && var before := AfterReads(leftover, taken[..|taken| - 1]);
       before.Some? && sent[..|sent| - 1] == before.value.0 && ReportsError(sent[|sent| - 1], why)
  }

  /** `relay`'s guacd side: what the handshake left over first, then `from_guacd` until guacd closes, an
      error instruction was sent on, or parse raises. `taken` are its reads from guacd. */
  method RelayFromGuacd(reader: Reader, ws: WebSocket, leftover: string)
    returns (why: Ending, pending: string, ghost taken: seq<string>)
    requires reader.Valid() && ws.sent == []
    modifies reader, ws
    ensures reader.Valid() && old(reader.chunks) == taken + reader.chunks
    ensures !why.BadText? ==>
      && AfterReads(leftover, taken) == Some((ws.sent, pending))
      && Relayed(ws.sent, pending, leftover + Concat(taken))
    ensures why == RemoteClosed ==> reader.chunks == []
    ensures why.Failed? ==> EndedBy(leftover, taken, ws.sent, why.why)
    ensures why.BadText? ==>
      && AfterReads(leftover, taken) == None && Parse(leftover + Concat(taken)) == Raised(why.fault)
      && if taken == [] then ws.sent == [] else SentBy(leftover, taken[..|taken| - 1], ws.sent)
    ensures QuietSince(SentBefore(leftover), if why.Failed? then ws.sent[..|ws.sent| - 1] else ws.sent)
  {
    hide Parse, Instructions, Concat, Relayed, ReportsError, NoErrors, WholeText, QuietSince, SendWhole, AfterReads,
         EndedBy, SentBy, SentBefore;
    taken := [];
    ghost var first, chunks := SentBefore(leftover), reader.chunks;
    WithNothing(chunks);
    QuietSoFar(first);
    var fault: Option<Fault>, whole: string;
    whole, pending, fault := ForwardWhole(ws, leftover);
    NoReads(leftover);
    if fault.Some? {
      return BadText(fault.value), leftover, taken;
    }
    while true
      invariant reader.Valid() && chunks == taken + reader.chunks
      invariant AfterReads(leftover, taken) == Some((ws.sent, pending)) && QuietSince(first, ws.sent)
      decreases |reader.chunks|
    {
      var data := reader.Read();
      if data == "" {
        ReadsAreRelayed(leftover, taken);
        return RemoteClosed, pending, taken;
      }
      Assoc(taken, [data], reader.chunks);
      ghost var before, sent := taken, ws.sent;
      whole, pending, fault := ForwardRead(ws, pending, data, leftover, taken);
      taken := taken + [data];
      assert taken[..|taken| - 1] == before;
      WasSent(leftover, before, sent);
      if fault.Some? {
        return BadText(fault.value), pending, taken;
      }
      OneMoreQuiet(first, sent, whole);
      if whole != "" {
        var error := FindError(whole);
        if error.Some? {
          ReadsAreRelayed(leftover, taken);
          EndsWith(leftover, taken, sent, whole, error.value);
          return Failed(error.value), pending, taken;
        }
      }
    }
  }

  /** One read of guacd's text, added to what is pending. */
  method ForwardRead(ws: WebSocket, pending: string, data: string, ghost leftover: string, ghost taken: seq<string>)
    returns (whole: string, rest: string, fault: Option<Fault>)
    requires AfterReads(leftover, taken) == Some((ws.sent, pending))
    modifies ws
    ensures fault.Some? ==>
      && AfterReads(leftover, taken + [data]) == None && ws.sent == old(ws.sent)
      && Parse(leftover + Concat(taken + [data])) == Raised(fault.value)
    ensures fault == None ==>
      && AfterReads(leftover, taken + [data]) == Some((ws.sent, rest)) && Parse(whole).Parsed?
      && ws.sent == if whole == "" then old(ws.sent) else old(ws.sent) + [whole]
  {
    hide Parse, Concat, Relayed, WholeText, SendWhole, AfterReads;
    NextRead(leftover, taken, data);
    ReadAndText(leftover, taken, data);
    ReadsAreRelayed(leftover, taken);
    ghost var sent := ws.sent;
    whole, rest, fault := ForwardWhole(ws, pending + data);
    if fault.Some? {
      ParseContinuesRelayed(sent, pending, leftover + Concat(taken), data);
      NothingSent(sent, pending + data);
    } else {
      WhatIsSent(sent, pending + data);
    }
  }

  /** These are the messages sent once these reads were taken. */
  ghost predicate SentBy(leftover: string, taken: seq<string>, sent: seq<string>) {
    var after := AfterReads(leftover, taken);
    after.Some? && after.value.0 == sent
  }

  lemma WasSent(leftover: string, taken: seq<string>, sent: seq<string>)
    ensures SentBy(leftover, taken, sent)
        <==> AfterReads(leftover, taken).Some? && AfterReads(leftover, taken).value.0 == sent
  {
    hide AfterReads;
  }

  lemma EndsWith(leftover: string, taken: seq<string>, sent: seq<string>, m: string, why: string)
    requires taken != [] && SentBy(leftover, taken[..|taken| - 1], sent) && ReportsError(m, why)
    ensures EndedBy(leftover, taken, sent + [m], why)
  {
    hide AfterReads, ReportsError;
    assert (sent + [m])[..|sent|] == sent;
  }

  lemma NoReads(leftover: string)
    ensures AfterReads(leftover, []) == SendWhole([], leftover) && leftover + Concat([]) == leftover
    ensures Parse(leftover).Parsed? ==> SendWhole([], leftover).value.0 == SentBefore(leftover)
    ensures Parse(leftover).Raised? ==> SendWhole([], leftover) == None && SentBefore(leftover) == []
  {
    hide Parse, WholeText;
    if Parse(leftover).Parsed? {
      assert [] + [WholeText(leftover)] == [WholeText(leftover)];
    }
  }

  lemma ReadAndText(leftover: string, taken: seq<string>, data: string)
    ensures leftover + Concat(taken + [data]) == leftover + Concat(taken) + data
  {
    ConcatSnoc(taken, data);
    Assoc(leftover, Concat(taken), data);
  }

  lemma NothingSent(sent: seq<string>, buffer: string)
    requires Parse(buffer).Raised?
    ensures SendWhole(sent, buffer) == None
  {
  }

  lemma WhatIsSent(sent: seq<string>, buffer: string)
    requires Parse(buffer).Parsed?
    ensures SendWhole(sent, buffer).Some?
    ensures SendWhole(sent, buffer).value.0
         == if WholeText(buffer) == "" then sent else sent + [WholeText(buffer)]
  {
    hide Parse, WholeText;
  }

  lemma NothingRelayed()
    ensures Relayed([], "", "")
  {
    NothingToRead();
  }

  lemma ParseContinuesRelayed(messages: seq<string>, pending: string, text: string, data: string)
    requires Relayed(messages, pending, text)
    ensures Parse(pending + data).Raised? ==> Parse(text + data) == Parse(pending + data)
  {
    hide Parse, Instructions, Concat;
    ParseContinues(text, data);
  }

  /** However the same text is split over reads and messages, the same instructions are sent on and the
      same text is left pending. */
  lemma SplitsDontMatter(ms: seq<string>, p: string, ms': seq<string>, p': string, text: string)
    requires Relayed(ms, p, text) && Relayed(ms', p', text)
    ensures Instructions(ms) == Instructions(ms') && p == p' && Concat(ms) == Concat(ms')
  {
    hide Parse, Instructions, Concat;
    var (a, b) := (Concat(ms), Concat(ms'));
    assert |a| == |b| && a == text[..|a|] && b == text[..|b|];
  }
}
