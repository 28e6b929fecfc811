/** The loop of `parse` as Python runs it, turn by turn, on any text. A negative length makes it go back, and
    index and slice the text from its end; then it may never end. */
module GuacamoleLoop {
  import opened Wrappers
  import opened Sequences
  import opened Text
  import opened Digits
  import opened Guacamole

  /** Where a slice bound or a search's start is in s: a negative one counts from the end. */
  function Clamp(s: string, i: int): (k: nat)
    ensures k <= |s|
  {
    if i > |s| then |s| else if i >= 0 then i else if i + |s| >= 0 then i + |s| else 0
  }

  /** s[i:j] */
  function Slice(s: string, i: int, j: int): string {
    var (a, b) := (Clamp(s, i), Clamp(s, j));
    if a <= b then s[a..b] else ""
  }

  datatype Result =
    | Returned(instructions: seq<Instruction>, rest: string) | RaisedLength | RaisedSeparator | RaisedIndex

  /** The local variables of `parse` at the top of its inner loop, or how it ended. */
  datatype State = Looping(out: seq<Instruction>, elems: seq<string>, p: int, pos: int) | Ended(result: Result)

  /** The field that starts at p; `end` is where its separator is looked for. */
  datatype Field = NoDot | NotANumber | Field(dot: nat, length: int)

  function FieldAt(s: string, p: nat): (f: Field)
    ensures f.Field? ==> p <= f.dot < |s|
  {
    match Find(s, '.', p)
    case None => NoDot
    case Some(dot) => var n := IntOf(s[p..dot]); if n == None then NotANumber else Field(dot, n.value)
  }

  /** One turn of the inner loop, and of the outer one when an instruction ends. */
  function Turn(s: string, l: State): State {
    if l.Ended? then l
    else
      match FieldAt(s, Clamp(s, l.p))
      case NoDot => Ended(Returned(l.out, s[Clamp(s, l.pos)..]))
      case NotANumber => Ended(RaisedLength)
      case Field(dot, n) =>
        var end := dot + 1 + n;
        if end >= |s| then Ended(Returned(l.out, s[Clamp(s, l.pos)..]))
        else if end + |s| < 0 then Ended(RaisedIndex)
        else
          var (elems, sep) := (l.elems + [Slice(s, dot + 1, end)], s[if end < 0 then end + |s| else end]);
          if sep == ';' then Looping(l.out + [elems], [], end + 1, end + 1)
          else if sep == ',' then Looping(l.out, elems, end + 1, l.pos)
          else Ended(RaisedSeparator)
  }

  function Turns(s: string, l: State, k: nat): State {
    if k == 0 then l else Turn(s, Turns(s, l, k - 1))
  }

  const START := Looping([], [], 0, 0)

  // --- going back ---------------------------------------------------------------------------

  /** A bound counted from the end is where what is counted starts, and one further back is the text's start. */
  lemma SliceFromEnd(s: string, a: string, b: string, i: int, j: int)
    requires s == a + b && b != "" && i <= -|s| && j >= |s|
    ensures Slice(s, 0, -|b|) == a && Slice(s, -|b|, j) == b && Slice(s, i, j) == s
    ensures Slice(s, |a|, j) == b && Slice(s, i, |a|) == a && Slice(s, -|b|, i) == ""
  {
    assert s[..|a|] == a && s[|a|..] == b && s[0..] == s;
  }

  /** A field whose length leads |b| + 1 characters before the end: its separator is the one there, its value what is
      between, if it lies ahead, and the loop goes on with what follows it. */
  lemma TurnGoesBack(s: string, l: State, dot: nat, n: int, a: string, sep: char, b: string)
    requires l.Looping? && FieldAt(s, Clamp(s, l.p)) == Field(dot, n) && s == a + [sep] + b && dot + n + 2 == -|b|
    ensures var v := if dot < |a| then s[dot + 1..|a|] else "";
            Turn(s, l) == if sep == ';' then Looping(l.out + [l.elems + [v]], [], -|b|, -|b|)
                          else if sep == ',' then Looping(l.out, l.elems + [v], -|b|, l.pos)
                          else Ended(RaisedSeparator)
    ensures b != "" ==> s[Clamp(s, -|b|)..] == b
  {
    hide FieldAt;
    assert s[|a|] == sep;
    assert s[|a| + 1..] == b;
  }

  /** And one that leads before the start of the text raises. */
  lemma TurnRaisesIndex(s: string, l: State, dot: nat, n: int)
    requires l.Looping? && FieldAt(s, Clamp(s, l.p)) == Field(dot, n)
    ensures Turn(s, l) == Ended(RaisedIndex) <==> dot + 1 + n < -|s|
  {
    hide FieldAt;
  }

  // --- without negative lengths, it is Parse ------------------------------------------------

  /** What is left to do from the top of the inner loop. */
  function Remaining(s: string, l: State): Parsed
    requires l.Looping? && 0 <= l.pos <= l.p <= |s|
  {
    Rest(s, l.out, l.pos, AfterElements(l.elems, l.p - l.pos, ReadInstruction(s[l.p..])))
  }

  /** r is the instruction at pos. */
  function Rest(s: string, out: seq<Instruction>, pos: nat, r: Reading): Parsed
    requires pos <= |s|
  {
    match r
    case Partial => Parsed(out, s[pos..])
    case Bad(f) => Raised(f)
    case Whole(es, used) =>
      if pos + used <= |s| then Prepend(out + [es], Parse(s[pos + used..])) else Raised(BadSeparator)
  }

  function ResultOf(p: Parsed): Result
    requires p != Raised(NegativeLength)
  {
    match p
    case Parsed(ls, rest) => Returned(ls, rest)
    case Raised(f) => if f == BadLength then RaisedLength else RaisedSeparator
  }

  /** The turn's field has a negative length. */
  predicate GoesBack(s: string, l: State) {
    l.Looping? && var f := FieldAt(s, Clamp(s, l.p)); f.Field? && f.length < 0
  }

  lemma TurnReadsElement(s: string, l: State)
    requires l.Looping? && 0 <= l.pos <= l.p <= |s|
    ensures var e := ReadElement(s[l.p..]);
            && (e == Unfinished ==> Turn(s, l) == Ended(Returned(l.out, s[l.pos..])))
            && (e == Faulty(BadLength) ==> Turn(s, l) == Ended(RaisedLength))
            && (e == Faulty(NegativeLength) ==> GoesBack(s, l))
            && e != Faulty(Fault.BadSeparator)
            && (e.Elem? ==>
                  var (elems, p) := (l.elems + [e.value], l.p + e.used);
                  Turn(s, l) == if e.sep == ';' then Looping(l.out + [elems], [], p, p)
                                else if e.sep == ',' then Looping(l.out, elems, p, l.pos)
                                else Ended(RaisedSeparator))
  {
    hide Find, IntOf, ReadElement;
    ElementAt(s, l.p);
  }

  lemma RemainingWithout(s: string, l: State)
    requires l.Looping? && 0 <= l.pos <= l.p <= |s| && !ReadElement(s[l.p..]).Elem?
    ensures var e := ReadElement(s[l.p..]);
            Remaining(s, l) == if e == Unfinished then Parsed(l.out, s[l.pos..]) else Raised(e.fault)
  {
    hide ReadElement, ReadInstruction, Parse, AfterElement, AfterElements;
    FirstElement(s, l.p);
    StaysUnread(l.elems, l.p - l.pos, ReadInstruction(s[l.p..]));
  }

  lemma RemainingWith(s: string, l: State)
    requires l.Looping? && 0 <= l.pos <= l.p <= |s| && ReadElement(s[l.p..]).Elem?
    ensures var e := ReadElement(s[l.p..]);
            var (elems, p) := (l.elems + [e.value], l.p + e.used);
            p <= |s|
            && Remaining(s, l) == if e.sep == ';' then Remaining(s, Looping(l.out + [elems], [], p, p))
                                  else if e.sep == ',' then Remaining(s, Looping(l.out, elems, p, l.pos))
                                  else Raised(Fault.BadSeparator)
  {
    hide ReadElement, ReadInstruction, Parse, AfterElement, AfterElements, Rest, Prepend;
    FirstElement(s, l.p);
    var e := ReadElement(s[l.p..]);
    var p := l.p + e.used;
    AfterOneMore(l.elems, l.p - l.pos, e.value, e.used, ReadInstruction(s[p..]));
    if e.sep == ';' {
      RemainingWhole(s, l.out + [l.elems + [e.value]], p);
      RestWhole(s, l.out, l.pos, l.elems + [e.value], p - l.pos);
    } else if e.sep != ',' {
      StaysUnread(l.elems, l.p - l.pos, ReadInstruction(s[l.p..]));
      RestBad(s, l.out, l.pos);
    }
  }

  lemma RestWhole(s: string, out: seq<Instruction>, pos: nat, es: Instruction, used: nat)
    requires pos + used <= |s|
    ensures Rest(s, out, pos, Whole(es, used)) == Prepend(out + [es], Parse(s[pos + used..]))
  {
    hide Parse, Prepend;
  }

  lemma RestBad(s: string, out: seq<Instruction>, pos: nat)
    requires pos <= |s|
    ensures Rest(s, out, pos, Bad(Fault.BadSeparator)) == Raised(Fault.BadSeparator)
  {
  }

  /** Between two instructions, what is left is parsing the rest. */
  lemma RemainingWhole(s: string, out: seq<Instruction>, p: nat)
    requires p <= |s|
    ensures Remaining(s, Looping(out, [], p, p)) == Prepend(out, Parse(s[p..]))
  {
    hide ReadInstruction, Parse;
    var r := ReadInstruction(s[p..]);
    AfterOneMore([], 0, "", 0, r);
    FirstInstruction(s[p..]);
    if r.Whole? {
      assert s[p..][r.used..] == s[p + r.used..];
      PrependPrepend(out, [r.elements], Parse(s[p + r.used..]));
    } else if r.Partial? {
      WithNothing(out);
    }
  }

  lemma {:induction false} TurnFirst(s: string, l: State, k: nat)
    ensures Turns(s, Turn(s, l), k) == Turns(s, l, k + 1)
  {
    hide Turn;
    if k > 0 {
      TurnFirst(s, l, k - 1);
    }
  }

  /** From the top of the loop on, in at most a turn for each character left and one more: what is left is
      done, or a negative length is reached. */
  lemma {:induction false} LoopReaches(s: string, l: State) returns (k: nat)
    requires l.Looping? && 0 <= l.pos <= l.p <= |s|
    ensures k <= |s| - l.p + 1
    ensures if Remaining(s, l) == Raised(NegativeLength) then GoesBack(s, Turns(s, l, k))
            else Turns(s, l, k) == Ended(ResultOf(Remaining(s, l)))
    decreases |s| - l.p
  {
    hide Turn, Remaining, GoesBack, ReadElement;
    TurnReadsElement(s, l);
    var e := ReadElement(s[l.p..]);
    if e.Elem? {
      RemainingWith(s, l);
    } else {
      RemainingWithout(s, l);
    }
    if e == Faulty(NegativeLength) {
      k := 0;
    } else if e.Elem? && (e.sep == ';' || e.sep == ',') {
      var n := LoopReaches(s, Turn(s, l));
      TurnFirst(s, l, n);
      k := n + 1;
    } else {
      assert Turns(s, l, 0) == l;
      k := 1;
    }
  }

  /** On text without negative lengths the loop returns or raises what Parse says, in at most a turn for each
      character and one more; on any other text it gets to a negative length. */
  lemma LoopIsParse(s: string)
    ensures exists k: nat :: k <= |s| + 1
              && if Parse(s) == Raised(NegativeLength) then GoesBack(s, Turns(s, START, k))
                 else Turns(s, START, k) == Ended(ResultOf(Parse(s)))
  {
    hide Turns, GoesBack, Parse, Remaining;
    var k := LoopReaches(s, START);
    RemainingWhole(s, [], 0);
    PrependPrepend([], [], Parse(s));
    assert s[0..] == s;
  }

  // --- when it ends -------------------------------------------------------------------------

  /** Both ended, or both about to read at the same place: what happens next doesn't depend on more. */
  predicate Alike(s: string, l: State, m: State) {
    l.Ended? == m.Ended? && (l.Looping? ==> Clamp(s, l.p) == Clamp(s, m.p))
  }

  lemma TurnsAlike(s: string, l: State, m: State)
    requires Alike(s, l, m)
    ensures Alike(s, Turn(s, l), Turn(s, m))
  {
    hide FieldAt;
  }

  lemma {:induction false} StaysSo(s: string, l: State, i: nat, j: nat)
    requires i <= j && Turns(s, l, i).Ended?
    ensures Turns(s, l, j) == Turns(s, l, i)
  {
    hide FieldAt;
    if i < j {
      StaysSo(s, l, i, j - 1);
    }
  }

  /** Once it reads at a place a second time, it goes round for ever. */
  lemma {:induction false} GoesRound(s: string, i: nat, j: nat, n: nat)
    requires i < j && Turns(s, START, i).Looping? && Turns(s, START, j).Looping?
    requires Alike(s, Turns(s, START, i), Turns(s, START, j))
    ensures Turns(s, START, n).Looping?
    ensures n >= j ==> Alike(s, Turns(s, START, n - (j - i)), Turns(s, START, n))
  {
    hide Turn, Alike;
    if n <= j {
      if Turns(s, START, n).Ended? {
        StaysSo(s, START, n, j);
      }
    } else {
      GoesRound(s, i, j, n - 1);
      GoesRound(s, i, j, n - (j - i));
      TurnsAlike(s, Turns(s, START, n - 1 - (j - i)), Turns(s, START, n - 1));
      AlikeEnd(s, Turns(s, START, n - (j - i)), Turns(s, START, n));
    }
  }

  lemma AlikeEnd(s: string, l: State, m: State)
    requires Alike(s, l, m)
    ensures l.Ended? == m.Ended?
  {
  }

  ghost predicate Ends(s: string) {
    exists k: nat :: Turns(s, START, k).Ended?
  }

  /** Two turns start reading at the same place. */
  ghost predicate ReadsTwice(s: string) {
    exists i: nat, j: nat :: i < j && Turns(s, START, i).Looping? && Turns(s, START, j).Looping?
                             && Alike(s, Turns(s, START, i), Turns(s, START, j))
  }

  /** `parse` ends, on any text, exactly when no two turns start reading at the same place, and then within
      one turn for each character and one more. */
  lemma EndsExactly(s: string)
    ensures Ends(s) <==> !ReadsTwice(s)
    ensures Ends(s) <==> Turns(s, START, |s| + 1).Ended?
  {
    hide Turns, Alike;
    if ReadsTwice(s) {
      var i: nat, j: nat :| i < j && Turns(s, START, i).Looping? && Turns(s, START, j).Looping?
                            && Alike(s, Turns(s, START, i), Turns(s, START, j));
      forall n: nat ensures Turns(s, START, n).Looping? {
        GoesRound(s, i, j, n);
      }
    }
    if Turns(s, START, |s| + 1).Looping? {
      LongRunReadsTwice(s);
    }
  }

  /** `parse` on any text, its loop left after a turn for each character and one more: by then it has ended, or
      never does (None). */
  method RunLoop(s: string) returns (r: Option<Result>)
    ensures r.Some? <==> Ends(s)
    ensures r.Some? ==> exists k: nat :: Turns(s, START, k) == Ended(r.value)
    ensures Parse(s) != Raised(NegativeLength) ==> r == Some(ResultOf(Parse(s)))
  {
    hide Turn, Parse;
    var l := START;
    for k := 0 to |s| + 1
      invariant l == Turns(s, START, k)
    {
      l := Turn(s, l);
    }
    EndsExactly(s);
    EndsAsParse(s, l);
    return if l.Ended? then Some(l.result) else None;
  }

  lemma EndsAsParse(s: string, l: State)
    requires l == Turns(s, START, |s| + 1)
    ensures Parse(s) != Raised(NegativeLength) ==> l == Ended(ResultOf(Parse(s)))
  {
    hide Turns, Parse;
    LoopIsParse(s);
    if Parse(s) != Raised(NegativeLength) {
      var k: nat :| k <= |s| + 1 && Turns(s, START, k) == Ended(ResultOf(Parse(s)));
      StaysSo(s, START, k, |s| + 1);
    }
  }

  lemma LongRunReadsTwice(s: string)
    requires Turns(s, START, |s| + 1).Looping?
    ensures ReadsTwice(s)
  {
    hide Turns;
    var n := |s| + 2;
    forall i: nat | i < n ensures Turns(s, START, i).Looping? {
      if Turns(s, START, i).Ended? {
        StaysSo(s, START, i, |s| + 1);
      }
    }
    var places := seq(n, i requires 0 <= i < n => Clamp(s, Turns(s, START, i).p));
    Pigeonhole(places, |s| + 1);
    var i, j :| 0 <= i < j < n && places[i] == places[j];
    assert Alike(s, Turns(s, START, i), Turns(s, START, j));
  }

  /** A field of length -4 sends the loop back to itself: it never ends. */
  lemma NegativeLengthLoops()
    ensures !Ends("0.,-4.x")
  {
    var s := "0.,-4.x";
    FirstTurns(s);
    assert Turns(s, START, 1) == Turn(s, START);
    assert Turns(s, START, 2) == Turn(s, Turns(s, START, 1));
    assert Alike(s, Turns(s, START, 1), Turns(s, START, 2));
    assert ReadsTwice(s);
    EndsExactly(s);
  }

  lemma FirstTurns(s: string)
    requires s == "0.,-4.x"
    ensures Turn(s, START) == Looping([], [""], 3, 0)
    ensures Turn(s, Looping([], [""], 3, 0)) == Looping([], ["", ""], 3, 0)
  {
    hide FieldAt;
    FirstFields(s);
    assert Slice(s, 2, 2) == "" && Slice(s, 6, 2) == "" && s[2] == ',';
    assert [""] + [""] == ["", ""] && [] + [""] == [""];
  }

  lemma FirstFields(s: string)
    requires s == "0.,-4.x"
    ensures FieldAt(s, 0) == Field(1, 0) && FieldAt(s, 3) == Field(5, -4)
  {
    hide IntOf;
    assert Find(s, '.', 0) == Some(1);
    assert Find(s, '.', 3) == Find(s, '.', 4) == Find(s, '.', 5) == Some(5);
    assert s[0..1] == "0" && s[3..5] == "-4";
    Zero();
    MinusFour();
  }

  lemma Zero()
    ensures IntOf("0") == Some(0)
  {
    hide IntOf;
    assert Dec(0) == "0";
    IntOfDec(0);
  }

  lemma MinusFour()
    ensures IntOf("-4") == Some(-4)
  {
    StripPlain("-4");
    PlainDigits("4");
    assert "-4"[1..] == "4" && "4"[..0] == "" && NatOf("4") == 4;
  }
}
