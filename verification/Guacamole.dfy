/** The Guacamole protocol's instructions: LENGTH.VALUE,LENGTH.VALUE,...; and their incremental parser. */
module Guacamole {
  import opened Wrappers
  import opened Sequences
  import opened Text
  import opened Digits

  type Instruction = seq<string>

  datatype Fault = BadLength | NegativeLength | BadSeparator

  // --- printing -----------------------------------------------------------------------------

  function Field(e: string): string {
    Dec(|e|) + "." + e
  }

  /** `encode`: the fields joined with commas, and a semicolon. */
  function Encode(es: Instruction): (s: string)
    ensures |s| >= 1
  {
    if es == [] then ";"
    else if |es| == 1 then Field(es[0]) + ";"
    else Field(es[0]) + "," + Encode(es[1..])
  }

  function Fields(es: Instruction): (fs: seq<string>)
    ensures |fs| == |es| && forall i :: 0 <= i < |es| ==> fs[i] == Field(es[i])
  {
    seq(|es|, i requires 0 <= i < |es| => Field(es[i]))
  }

  /** ",".join(fields) + ";" */
  lemma {:induction false} EncodeJoins(es: Instruction)
    ensures Encode(es) == Join(Fields(es), ',') + ";"
  {
    hide Field;
    if |es| > 1 {
      EncodeJoins(es[1..]);
      assert Fields(es)[1..] == Fields(es[1..]);
      Assoc(Field(es[0]) + ",", Join(Fields(es[1..]), ','), ";");
    }
  }

  function EncodeAll(ls: seq<Instruction>): string {
    if ls == [] then "" else Encode(ls[0]) + EncodeAll(ls[1..])
  }

  // --- parsing ------------------------------------------------------------------------------

  /** One field at the start of s, its separator, and how much text that was. */
  datatype Element = Elem(value: string, sep: char, used: nat) | Unfinished | Faulty(fault: Fault)

  function ReadElement(s: string): (r: Element)
    ensures r.Elem? ==> 0 < r.used <= |s| && r.sep == s[r.used - 1]
  {
    match Find(s, '.', 0)
    case None => Unfinished
    case Some(dot) =>
      match IntOf(s[..dot])
      case None => Faulty(BadLength)
      case Some(n) =>
        if n < 0 then Faulty(NegativeLength)
        else if dot + 1 + n >= |s| then Unfinished
        else Elem(s[dot + 1..dot + 1 + n], s[dot + 1 + n], dot + 2 + n)
  }

  /** One instruction at the start of s, and how much text that was. */
  datatype Reading = Whole(elements: Instruction, used: nat) | Partial | Bad(fault: Fault)

  function AfterElement(e: string, used: nat, r: Reading): Reading {
    if r.Whole? then Whole([e] + r.elements, used + r.used) else r
  }

  function ReadInstruction(s: string): (r: Reading)
    ensures r.Whole? ==> r.elements != [] && 0 < r.used <= |s|
    decreases |s|
  {
    match ReadElement(s)
    case Unfinished => Partial
    case Faulty(f) => Bad(f)
    case Elem(v, sep, used) =>
      if sep == ';' then Whole([v], used)
      else if sep == ',' then AfterElement(v, used, ReadInstruction(s[used..]))
      else Bad(BadSeparator)
  }

  /** What `parse` returns, or that it raises. */
  datatype Parsed = Parsed(instructions: seq<Instruction>, rest: string) | Raised(fault: Fault)

  function Prepend(ls: seq<Instruction>, p: Parsed): Parsed {
    if p.Parsed? then Parsed(ls + p.instructions, p.rest) else p
  }

  function Parse(s: string): (p: Parsed)
    ensures p.Parsed? ==> |p.rest| <= |s| && p.rest == s[|s| - |p.rest|..]
    decreases |s|
  {
    match ReadInstruction(s)
    case Partial => Parsed([], s)
    case Bad(f) => Raised(f)
    case Whole(es, used) => Prepend([es], Parse(s[used..]))
  }

  lemma PrependPrepend(a: seq<Instruction>, b: seq<Instruction>, p: Parsed)
    ensures Prepend(a, Prepend(b, p)) == Prepend(a + b, p) && Prepend([], p) == p
  {
  }

  /** An instruction whose first fields are already read. */
  function AfterElements(es: seq<string>, used: nat, r: Reading): Reading {
    if r.Whole? then Whole(es + r.elements, used + r.used) else r
  }

  lemma AfterOneMore(es: seq<string>, k: nat, v: string, used: nat, r: Reading)
    ensures AfterElements(es, k, AfterElement(v, used, r)) == AfterElements(es + [v], k + used, r)
    ensures AfterElements(es, k, Whole([v], used)) == Whole(es + [v], k + used)
    ensures AfterElements([], 0, r) == r
  {
    if r.Whole? {
      assert es + ([v] + r.elements) == es + [v] + r.elements;
      assert [] + r.elements == r.elements;
    }
  }

  /** The inner loop of `parse`: one instruction from position pos on. */
  method ParseInstruction(buffer: string, pos: nat) returns (r: Reading)
    requires pos <= |buffer|
    ensures r == ReadInstruction(buffer[pos..])
  {
    hide ReadInstruction, ReadElement, Find, IntOf, AfterElement, AfterElements;
    ghost var whole := ReadInstruction(buffer[pos..]);
    var elems: seq<string>, p := [], pos;
    AfterOneMore([], 0, "", 0, whole);
    while true
      invariant pos <= p <= |buffer|
      invariant whole == AfterElements(elems, p - pos, ReadInstruction(buffer[p..]))
      decreases |buffer| - p
    {
      ghost var here := ReadInstruction(buffer[p..]);
      FirstElement(buffer, p);
      ElementAt(buffer, p);
      StaysUnread(elems, p - pos, here);
      var dot := Find(buffer, '.', p);
      if dot == None {
        return Partial;
      }
      var n := IntOf(buffer[p..dot.value]);
      if n == None {
        return Bad(BadLength);
      }
      if n.value < 0 {
        return Bad(NegativeLength);
      }
      var end := dot.value + 1 + n.value;
      if end >= |buffer| {
        return Partial;
      }
      var e, sep := buffer[dot.value + 1..end], buffer[end];
      AfterOneMore(elems, p - pos, e, end + 1 - p, ReadInstruction(buffer[end + 1..]));
      elems := elems + [e];
      p := end + 1;
      if sep == ';' {
        return Whole(elems, p - pos);
      }
      if sep != ',' {
        return Bad(BadSeparator);
      }
    }
  }

  lemma StaysUnread(es: seq<string>, k: nat, r: Reading)
    ensures !r.Whole? ==> AfterElements(es, k, r) == r
  {
  }

  /** `parse`. */
  method ParseText(buffer: string) returns (r: Parsed)
    ensures r == Parse(buffer)
  {
    hide Parse, ReadInstruction;
    var out: seq<Instruction>, pos := [], 0;
    PrependPrepend([], [], Parse(buffer));
    assert buffer[0..] == buffer;
    while true
      invariant pos <= |buffer| && Parse(buffer) == Prepend(out, Parse(buffer[pos..]))
      decreases |buffer| - pos
    {
      FirstInstruction(buffer[pos..]);
      var one := ParseInstruction(buffer, pos);
      match one
      case Partial =>
        assert out + [] == out;
        return Parsed(out, buffer[pos..]);
      case Bad(f) =>
        return Raised(f);
      case Whole(elems, used) =>
        assert buffer[pos..][used..] == buffer[pos + used..];
        PrependPrepend(out, [elems], Parse(buffer[pos + used..]));
        out, pos := out + [elems], pos + used;
    }
  }

  lemma FirstInstruction(s: string)
    ensures var r := ReadInstruction(s);
            Parse(s) == if r.Whole? then Prepend([r.elements], Parse(s[r.used..]))
                        else if r.Partial? then Parsed([], s)
                        else Raised(r.fault)
  {
    hide ReadInstruction;
  }

  lemma InstructionStep(s: string)
    ensures var e := ReadElement(s);
            ReadInstruction(s) == if e.Unfinished? then Partial
                                  else if e.Faulty? then Bad(e.fault)
                                  else if e.sep == ';' then Whole([e.value], e.used)
                                  else if e.sep == ',' then AfterElement(e.value, e.used, ReadInstruction(s[e.used..]))
                                  else Bad(BadSeparator)
  {
    hide ReadElement;
  }

  lemma ElementIs(t: string, dot: nat, n: Option<int>)
    requires Find(t, '.', 0) == Some(dot) && IntOf(t[..dot]) == n
    ensures n == None ==> ReadElement(t) == Faulty(BadLength)
    ensures n.Some? && n.value < 0 ==> ReadElement(t) == Faulty(NegativeLength)
    ensures n.Some? && n.value >= 0 ==>
      var end := dot + 1 + n.value;
      ReadElement(t) == if end >= |t| then Unfinished else Elem(t[dot + 1..end], t[end], end + 1)
  {
    hide Find, IntOf;
  }

  lemma NoElementAt(t: string)
    requires Find(t, '.', 0) == None
    ensures ReadElement(t) == Unfinished
  {
    hide Find, IntOf;
  }

  lemma ElementAt(s: string, p: nat)
    requires p <= |s|
    ensures var (r, dot) := (ReadElement(s[p..]), Find(s, '.', p));
            && (dot == None ==> r == Unfinished)
            && (dot.Some? ==>
                  var (n, start) := (IntOf(s[p..dot.value]), dot.value + 1);
                  && (n == None ==> r == Faulty(BadLength))
                  && (n.Some? && n.value < 0 ==> r == Faulty(NegativeLength))
                  && (n.Some? && n.value >= 0 && start + n.value >= |s| ==> r == Unfinished)
                  && (n.Some? && n.value >= 0 && start + n.value < |s| ==>
                        r == Elem(s[start..start + n.value], s[start + n.value], start + n.value + 1 - p)))
  {
    hide Find, IntOf, ReadElement;
    FindInSuffix(s, '.', p);
    var dot := Find(s, '.', p);
    if dot.Some? {
      assert s[p..][..dot.value - p] == s[p..dot.value];
      var n := IntOf(s[p..dot.value]);
      ElementIs(s[p..], dot.value - p, n);
      if n.Some? && n.value >= 0 {
        LongElementAt(s, p, dot.value, n.value);
      }
    } else {
      NoElementAt(s[p..]);
    }
  }

  lemma LongElementAt(s: string, p: nat, dot: nat, n: nat)
    requires p <= dot < |s| && Find(s[p..], '.', 0) == Some(dot - p) && IntOf(s[p..dot]) == Some(n)
    ensures ReadElement(s[p..]) == if dot + 1 + n >= |s| then Unfinished
                                   else Elem(s[dot + 1..dot + 1 + n], s[dot + 1 + n], dot + 2 + n - p)
  {
    hide Find, IntOf, ReadElement;
    assert s[p..][..dot - p] == s[p..dot];
    ElementIs(s[p..], dot - p, Some(n));
    if dot + 1 + n < |s| {
      SliceOfSuffix(s, p, dot + 1, dot + 1 + n);
    }
  }

  lemma SliceOfSuffix(s: string, p: nat, i: nat, j: nat)
    requires p <= i <= j < |s|
    ensures s[p..][i - p..j - p] == s[i..j] && s[p..][j - p] == s[j]
  {
  }

  /** What the inner loop finds at position p. */
  lemma FirstElement(s: string, p: nat)
    requires p <= |s|
    ensures var (r, e) := (ReadInstruction(s[p..]), ReadElement(s[p..]));
            r == if e.Unfinished? then Partial
                 else if e.Faulty? then Bad(e.fault)
                 else if e.sep == ';' then Whole([e.value], e.used)
                 else if e.sep == ',' then AfterElement(e.value, e.used, ReadInstruction(s[p + e.used..]))
                 else Bad(BadSeparator)
  {
    hide ReadElement, ReadInstruction;
    InstructionStep(s[p..]);
    var e := ReadElement(s[p..]);
    if e.Elem? {
      assert s[p..][e.used..] == s[p + e.used..];
    }
  }

  /** `complete_prefix`: the text made of whole instructions, and the rest. None when parse raises. */
  method CompletePrefix(buffer: string) returns (whole: string, rest: string, fault: Option<Fault>)
    ensures match Parse(buffer)
            case Raised(f) => fault == Some(f)
            case Parsed(ls, r) =>
              fault == None && rest == r && whole == WholeText(buffer) && whole + rest == buffer
              && Parse(whole) == Parsed(ls, "")
  {
    var p := ParseText(buffer);
    match p
    case Raised(f) => return "", "", Some(f);
    case Parsed(ls, r) =>
      ParseWholePart(buffer);
      assert buffer[..|buffer| - |r|] == WholeText(buffer);
      return buffer[..|buffer| - |r|], r, None;
  }

  lemma NothingToRead()
    ensures ReadInstruction("") == Partial && Parse("") == Parsed([], "")
  {
  }

  // --- more text only adds to what was read -------------------------------------------------

  lemma ElementExtends(s: string, t: string)
    requires !ReadElement(s).Unfinished?
    ensures ReadElement(s + t) == ReadElement(s)
  {
    hide Find, IntOf;
    FindExtends(s, t, '.', 0);
    var dot := Find(s, '.', 0).value;
    assert (s + t)[..dot] == s[..dot];
    if ReadElement(s).Elem? {
      var end := ReadElement(s).used - 1;
      assert (s + t)[dot + 1..end] == s[dot + 1..end] && (s + t)[end] == s[end];
    }
  }

  lemma {:induction false} InstructionExtends(s: string, t: string)
    requires ReadInstruction(s) != Partial
    ensures ReadInstruction(s + t) == ReadInstruction(s)
    decreases |s|
  {
    hide ReadInstruction, ReadElement;
    InstructionStep(s);
    InstructionStep(s + t);
    ElementExtends(s, t);
    if ReadElement(s).Elem? && ReadElement(s).sep == ',' {
      var used := ReadElement(s).used;
      assert (s + t)[used..] == s[used..] + t;
      InstructionExtends(s[used..], t);
    }
  }

  /** Parsing more text goes on from what the text so far left over; a fault stays one. */
  lemma {:induction false} ParseContinues(a: string, b: string)
    ensures match Parse(a)
            case Raised(f) => Parse(a + b) == Raised(f)
            case Parsed(ls, rest) => Parse(a + b) == Prepend(ls, Parse(rest + b))
    decreases |a|
  {
    hide Parse, ReadInstruction;
    FirstInstruction(a);
    FirstInstruction(a + b);
    match ReadInstruction(a)
    case Partial => PrependPrepend([], [], Parse(a + b));
    case Bad(_) => InstructionExtends(a, b);
    case Whole(es, used) =>
      InstructionExtends(a, b);
      assert (a + b)[used..] == a[used..] + b;
      ParseContinues(a[used..], b);
      var p := Parse(a[used..]);
      if p.Parsed? {
        PrependPrepend([es], p.instructions, Parse(p.rest + b));
      }
  }

  /** The part of a that is whole instructions. */
  function WholeText(a: string): string
    requires Parse(a).Parsed?
  {
    a[..|a| - |Parse(a).rest|]
  }

  lemma WholeTextStep(a: string, es: Instruction, used: nat)
    requires Parse(a).Parsed? && ReadInstruction(a) == Whole(es, used)
    ensures Parse(a[used..]).Parsed? && Parse(a) == Parsed([es] + Parse(a[used..]).instructions, Parse(a[used..]).rest)
    ensures WholeText(a) == a[..used] + WholeText(a[used..])
  {
    hide Parse, ReadInstruction;
    FirstInstruction(a);
  }

  /** The whole instructions' text parses by itself, with nothing left; the rest holds none. */
  lemma {:induction false} ParseWholePart(a: string)
    requires Parse(a).Parsed?
    ensures WholeText(a) + Parse(a).rest == a
    ensures Parse(WholeText(a)) == Parsed(Parse(a).instructions, "")
    ensures Parse(Parse(a).rest) == Parsed([], Parse(a).rest)
    ensures WholeText(a) == "" <==> Parse(a).instructions == []
    decreases |a|
  {
    hide Parse, ReadInstruction, WholeText;
    var r := ReadInstruction(a);
    FirstInstruction(a);
    WholeTextAndRest(a);
    if r.Whole? {
      WholeTextStep(a, r.elements, r.used);
      ParseWholePart(a[r.used..]);
      ParseFirstThen(a, WholeText(a[r.used..]));
    } else {
      NothingToRead();
    }
  }

  lemma WholeTextAndRest(a: string)
    requires Parse(a).Parsed?
    ensures WholeText(a) + Parse(a).rest == a
    ensures Parse(a).rest == a ==> WholeText(a) == ""
  {
    hide Parse;
  }

  lemma ParseFirstThen(a: string, more: string)
    requires ReadInstruction(a).Whole?
    ensures var Whole(es, used) := ReadInstruction(a); Parse(a[..used] + more) == Prepend([es], Parse(more))
  {
    hide Parse, ReadInstruction;
    var used := ReadInstruction(a).used;
    InstructionIsItsText(a);
    InstructionExtends(a[..used], more);
    FirstInstruction(a[..used] + more);
    assert (a[..used] + more)[used..] == more;
  }

  /** An instruction is read from its own text alone. */
  lemma {:induction false} InstructionIsItsText(s: string)
    requires ReadInstruction(s).Whole?
    ensures ReadInstruction(s[..ReadInstruction(s).used]) == ReadInstruction(s)
    decreases |s|
  {
    hide ReadInstruction, ReadElement;
    InstructionStep(s);
    InstructionStep(s[..ReadInstruction(s).used]);
    var e := ReadElement(s);
    var used := ReadInstruction(s).used;
    var t := s[..used];
    if e.sep == ',' {
      InstructionIsItsText(s[e.used..]);
      assert t[e.used..] == s[e.used..][..used - e.used];
    }
    ElementIsItsText(s, used);
  }

  lemma ElementIsItsText(s: string, n: nat)
    requires ReadElement(s).Elem? && ReadElement(s).used <= n <= |s|
    ensures ReadElement(s[..n]) == ReadElement(s)
  {
    hide Find, IntOf;
    var (t, e) := (s[..n], ReadElement(s));
    var dot := Find(s, '.', 0).value;
    assert t + s[n..] == s;
    assert t[dot] == '.';
    assert Find(t, '.', 0).Some?;
    FindExtends(t, s[n..], '.', 0);
    assert t[..dot] == s[..dot];
    assert t[dot + 1..e.used - 1] == s[dot + 1..e.used - 1];
  }

  // --- round trips --------------------------------------------------------------------------

  lemma ReadField(e: string, sep: char, t: string)
    ensures ReadElement(Field(e) + [sep] + t) == Elem(e, sep, |Field(e)| + 1)
  {
    hide IntOf, Find, Dec;
    var (d, s) := (Dec(|e|), Field(e) + [sep] + t);
    assert s[..|d|] == d && s[|d|] == '.';
    forall i | 0 <= i < |d| ensures s[i] != '.' {
      assert s[i] == d[i] && IsDigit(d[i]);
    }
    assert Find(s, '.', 0) == Some(|d|);
    IntOfDec(|e|);
    var end := |d| + 1 + |e|;
    assert s[|d| + 1..end] == e && s[end] == sep;
  }

  /** Elements may hold any text, separators and dots included. */
  lemma {:induction false} ReadEncoded(es: Instruction, t: string)
    requires es != []
    ensures ReadInstruction(Encode(es) + t) == Whole(es, |Encode(es)|)
    decreases |es|
  {
    hide ReadInstruction, ReadElement, Field;
    InstructionStep(Encode(es) + t);
    var f := Field(es[0]);
    if |es| == 1 {
      assert Encode(es) + t == f + [';'] + t;
      ReadField(es[0], ';', t);
      assert es == [es[0]];
    } else {
      var more := Encode(es[1..]) + t;
      assert Encode(es) + t == f + [','] + more;
      ReadField(es[0], ',', more);
      assert (f + [','] + more)[|f| + 1..] == more;
      ReadEncoded(es[1..], t);
      assert es == [es[0]] + es[1..];
    }
  }

  lemma EncodeAllStep(ls: seq<Instruction>, t: string)
    requires ls != []
    ensures EncodeAll(ls) + t == Encode(ls[0]) + (EncodeAll(ls[1..]) + t)
  {
  }

  /** Printed instructions, followed by any text, read back first. */
  lemma {:induction false} ParseEncoded(ls: seq<Instruction>, t: string)
    requires forall i :: 0 <= i < |ls| ==> ls[i] != []
    ensures Parse(EncodeAll(ls) + t) == Prepend(ls, Parse(t))
    decreases |ls|
  {
    hide Parse, ReadInstruction, Encode, EncodeAll;
    if ls == [] {
      NothingEncoded(t);
      PrependPrepend([], [], Parse(t));
    } else {
      var (first, more) := (Encode(ls[0]), EncodeAll(ls[1..]) + t);
      EncodeAllStep(ls, t);
      FirstInstruction(first + more);
      ReadEncoded(ls[0], more);
      assert (first + more)[|first|..] == more;
      ParseEncoded(ls[1..], t);
      PrependPrepend([ls[0]], ls[1..], Parse(t));
      assert ls == [ls[0]] + ls[1..];
    }
  }

  lemma NothingEncoded(t: string)
    ensures EncodeAll([]) + t == t
  {
  }

  /** parse(encode(...) + encode(...) + ...) gives the lists back, with nothing left. */
  lemma ParseInvertsEncode(ls: seq<Instruction>)
    requires forall i :: 0 <= i < |ls| ==> ls[i] != []
    ensures Parse(EncodeAll(ls)) == Parsed(ls, "")
  {
    hide Parse, EncodeAll;
    ParseEncoded(ls, "");
    NothingToRead();
    WithNothing(EncodeAll(ls));
    WithNothing(ls);
  }

  /** Cut anywhere inside an instruction, its text is unfinished. */
  lemma CutInstructionIsPartial(es: Instruction, c: nat)
    requires es != [] && c < |Encode(es)|
    ensures Parse(Encode(es)[..c]) == Parsed([], Encode(es)[..c])
  {
    hide Parse, ReadInstruction, Encode;
    FirstInstruction(Encode(es)[..c]);
    var cut := Encode(es)[..c];
    assert cut + Encode(es)[c..] == Encode(es);
    assert Encode(es) + "" == Encode(es);
    ReadEncoded(es, "");
    if ReadInstruction(cut) != Partial {
      InstructionExtends(cut, Encode(es)[c..]);
    }
  }

  lemma OneMoreWhole(ls: seq<Instruction>, c: nat, k: seq<Instruction>, rest: string)
    requires ls != [] && |Encode(ls[0])| <= c <= |EncodeAll(ls)| && k <= ls[1..]
    requires EncodeAll(k) + rest == EncodeAll(ls[1..])[..c - |Encode(ls[0])|]
    ensures EncodeAll([ls[0]] + k) + rest == EncodeAll(ls)[..c] && [ls[0]] + k <= ls
  {
    hide Encode;
    var (first, more) := (Encode(ls[0]), EncodeAll(ls[1..]));
    assert ([ls[0]] + k)[1..] == k;
    assert (first + more)[..c] == first + more[..c - |first|];
    Assoc(first, EncodeAll(k), rest);
  }

  /** The instructions that are whole within the first c characters, and the text after those. */
  function WholeWithin(ls: seq<Instruction>, c: nat): (r: (seq<Instruction>, string))
    requires c <= |EncodeAll(ls)|
    ensures EncodeAll(r.0) + r.1 == EncodeAll(ls)[..c] && r.0 <= ls
    ensures |r.0| < |ls| ==> |r.1| < |Encode(ls[|r.0|])| && r.1 <= Encode(ls[|r.0|])
    ensures |r.0| == |ls| ==> r.1 == ""
  {
    if ls == [] then ([], "")
    else
      var (first, more) := (Encode(ls[0]), EncodeAll(ls[1..]));
      if c < |first| then
        assert (first + more)[..c] == first[..c];
        ([], first[..c])
      else
        var (k, rest) := WholeWithin(ls[1..], c - |first|);
        OneMoreWhole(ls, c, k, rest);
        ([ls[0]] + k, rest)
  }

  /** The first c characters of a stream of printed instructions parse to exactly those. */
  lemma ParsePrefix(ls: seq<Instruction>, c: nat)
    requires c <= |EncodeAll(ls)| && forall i :: 0 <= i < |ls| ==> ls[i] != []
    ensures Parse(EncodeAll(ls)[..c]) == Parsed(WholeWithin(ls, c).0, WholeWithin(ls, c).1)
  {
    hide Parse, Encode, EncodeAll;
    var (k, rest) := WholeWithin(ls, c);
    ParseEncoded(k, rest);
    assert k + [] == k;
    if |k| < |ls| {
      assert Encode(ls[|k|])[..|rest|] == rest;
      CutInstructionIsPartial(ls[|k|], |rest|);
    } else {
      NothingToRead();
    }
  }

  /** An instruction without elements prints as ";", which no reader takes as an instruction. */
  lemma NoElementsDontReadBack(t: string)
    ensures !ReadInstruction(Encode([]) + t).Whole?
  {
    var s := Encode([]) + t;
    var dot := Find(s, '.', 0);
    if dot.Some? {
      var f := s[..dot.value];
      assert dot.value > 0 && f[0] == ';';
      assert StripLeft(f) == f && Strip(f) <= f;
      assert IntOf(f) == None;
    }
  }

  // --- how much text an instruction took ----------------------------------------------------

  /** Every length of the first instruction is written the way str() writes it. */
  predicate PlainLengths(s: string)
    decreases |s|
  {
    var (e, dot) := (ReadElement(s), Find(s, '.', 0));
    && e.Elem? && dot.Some? && s[..dot.value] == Dec(|e.value|)
    && (e.sep == ',' ==> PlainLengths(s[e.used..]))
  }

  lemma ElementIsNoShorter(s: string)
    requires ReadElement(s).Elem?
    ensures var e := ReadElement(s);
            && |Field(e.value)| + 1 <= e.used && Find(s, '.', 0).Some?
            && (|Field(e.value)| + 1 == e.used <==> s[..Find(s, '.', 0).value] == Dec(|e.value|))
  {
    hide Find, IntOf, Dec;
    var dot := Find(s, '.', 0).value;
    IntOfIsLonger(s[..dot], |ReadElement(s).value|);
  }

  /** Printing what was read never takes more text, and takes as much exactly when its lengths are plain. */
  lemma {:induction false} PrintsNoLonger(s: string)
    requires ReadInstruction(s).Whole?
    ensures var r := ReadInstruction(s);
            && |Encode(r.elements)| <= r.used <= |s|
            && (|Encode(r.elements)| == r.used <==> PlainLengths(s))
    decreases |s|
  {
    hide ReadElement, ReadInstruction, Find, Field;
    InstructionStep(s);
    ElementIsNoShorter(s);
    var e := ReadElement(s);
    if e.sep == ',' {
      var tail := s[e.used..];
      PrintsNoLonger(tail);
      var es := [e.value] + ReadInstruction(tail).elements;
      assert es[1..] == ReadInstruction(tail).elements;
      assert Encode(es) == Field(e.value) + "," + Encode(es[1..]);
    }
  }

  /** Dropping as much text as the first instruction prints to leaves exactly the text after it when,
      and only when, its lengths are plain. */
  lemma LeavesTheRest(s: string)
    requires ReadInstruction(s).Whole?
    ensures var r := ReadInstruction(s);
            |Encode(r.elements)| <= |s| && (s[|Encode(r.elements)|..] == s[r.used..] <==> PlainLengths(s))
  {
    hide ReadInstruction, PlainLengths, Encode;
    PrintsNoLonger(s);
    var r := ReadInstruction(s);
    assert |s[|Encode(r.elements)|..]| - |s[r.used..]| == r.used - |Encode(r.elements)|;
  }

  /** What encode printed has plain lengths. */
  lemma EncodedIsPlain(es: Instruction, t: string)
    requires es != []
    ensures PlainLengths(Encode(es) + t) && (Encode(es) + t)[|Encode(es)|..] == t
  {
    hide ReadInstruction, PlainLengths, Encode;
    ReadEncoded(es, t);
    PrintsNoLonger(Encode(es) + t);
  }

  /** A length with a leading zero is read, and leaves a piece of its instruction behind. */
  lemma PaddedLengthLeavesText()
    ensures var s := "01.a;2.xy;";
            ReadInstruction(s) == Whole(["a"], 5) && s[|Encode(["a"])|..] == ";2.xy;"
  {
    hide IntOf, Find;
    var s := "01.a;2.xy;";
    PaddedOne();
    DotAfterTwo(s);
    assert s[..2] == "01" && s[3..4] == "a" && s[4] == ';';
    ElementIs(s, 2, Some(1));
    assert Encode(["a"]) == Field("a") + ";" == "1.a;";
  }

  lemma PaddedOne()
    ensures IntOf("01") == Some(1)
  {
    assert NatOf("01") == 1 by { assert "01"[..1] == "0"; assert "0"[..0] == ""; }
    PlainDigits("01");
    StripPlain("01");
  }

  lemma DotAfterTwo(s: string)
    requires |s| > 2 && s[0] != '.' && s[1] != '.' && s[2] == '.'
    ensures Find(s, '.', 0) == Some(2)
  {
    assert Find(s, '.', 0) == Find(s, '.', 1) == Find(s, '.', 2) == Some(2);
  }
}
