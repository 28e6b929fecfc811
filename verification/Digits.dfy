/** Decimal numbers as text: Python's str() of a natural number, and int() of a string.
    int() also takes surrounding white space, a sign, leading zeros and single underscores. */
module Digits {
  import opened Wrappers
  import opened Text

  predicate IsDigit(c: char) {
    '0' <= c <= '9'
  }

  predicate AllDigits(s: string) {
    forall i :: 0 <= i < |s| ==> IsDigit(s[i])
  }

  function DigitOf(d: nat): (c: char)
    requires d < 10
    ensures IsDigit(c) && ValueOf(c) == d
  {
    '0' + d as char
  }

  function ValueOf(c: char): (d: nat)
    requires IsDigit(c)
    ensures d < 10
  {
    c as int - '0' as int
  }

  lemma DigitOfValue(c: char)
    requires IsDigit(c)
    ensures DigitOf(ValueOf(c)) == c
  {
  }

  /** str(n) */
  function Dec(n: nat): (s: string)
    ensures |s| >= 1 && AllDigits(s)
  {
    if n < 10 then [DigitOf(n)] else Dec(n / 10) + [DigitOf(n % 10)]
  }

  function NatOf(s: string): nat
    requires AllDigits(s)
  {
    if s == [] then 0 else NatOf(s[..|s| - 1]) * 10 + ValueOf(s[|s| - 1])
  }

  lemma {:induction false} NatOfDec(n: nat)
    ensures NatOf(Dec(n)) == n
  {
    var s := Dec(n);
    if n >= 10 {
      NatOfDec(n / 10);
      assert s[..|s| - 1] == Dec(n / 10);
    } else {
      assert s[..|s| - 1] == [];
    }
  }

  /** A number is never longer in canonical form, and as long only when it is in canonical form. */
  lemma {:induction false} CanonicalIsShortest(s: string)
    requires AllDigits(s) && s != []
    ensures |Dec(NatOf(s))| <= |s|
    ensures |Dec(NatOf(s))| == |s| <==> s == Dec(NatOf(s))
  {
    var (front, d) := (s[..|s| - 1], s[|s| - 1]);
    assert s == front + [d];
    DigitOfValue(d);
    if front != [] {
      CanonicalIsShortest(front);
      var (n, m) := (NatOf(s), NatOf(front));
      assert n / 10 == m && n % 10 == ValueOf(d);
      if m == 0 {
        assert |Dec(n)| == 1;
      } else {
        assert Dec(n) == Dec(m) + [d];
        assert Dec(n)[..|Dec(m)|] == Dec(m);
        if s == Dec(n) {
          assert |front| == |Dec(m)|;
        }
      }
    }
  }

  // --- int() --------------------------------------------------------------------------------

  /** The digits of a number with single underscores between some of them. */
  function WithoutUnderscores(t: string): (r: Option<string>)
    ensures r.Some? ==> AllDigits(r.value) && r.value != [] && |r.value| <= |t| && (|r.value| == |t| ==> r.value == t)
  {
    if t == [] || !IsDigit(t[0]) then None
    else if |t| == 1 then Some(t)
    else
      match WithoutUnderscores(if t[1] == '_' then t[2..] else t[1..])
      case Some(r) => Some([t[0]] + r)
      case None => None
  }

  lemma {:induction false} PlainDigits(t: string)
    requires t != [] && AllDigits(t)
    ensures WithoutUnderscores(t) == Some(t)
  {
    if |t| > 1 {
      assert t[1] != '_';
      PlainDigits(t[1..]);
      assert t == [t[0]] + t[1..];
    }
  }

  /** The four separators str.strip() takes as white space and int() doesn't. */
  predicate HasSeparator(s: string) {
    exists i :: 0 <= i < |s| && 28 as char <= s[i] <= 31 as char
  }

  /** int(s); None is ValueError. */
  function IntOf(s: string): Option<int> {
    var t := Strip(s);
    var signed := t != [] && (t[0] == '-' || t[0] == '+');
    if HasSeparator(s) then None
    else
      match WithoutUnderscores(if signed then t[1..] else t)
      case None => None
      case Some(d) => Some(if signed && t[0] == '-' then -(NatOf(d) as int) else NatOf(d) as int)
  }

  // --- what int() reads ---------------------------------------------------------------------

  /** Groups of digits with an underscore between each two. */
  predicate IsNumeral(u: string) {
    Groups(Split(u, '_'))
  }

  predicate Groups(parts: seq<string>) {
    forall i :: 0 <= i < |parts| ==> parts[i] != "" && AllDigits(parts[i])
  }

  lemma GroupsStep(first: string, more: seq<string>)
    ensures Groups([first] + more) <==> first != "" && AllDigits(first) && Groups(more)
  {
    var all := [first] + more;
    assert all[0] == first;
    if Groups(all) {
      forall i | 0 <= i < |more| ensures more[i] != "" && AllDigits(more[i]) {
        assert all[i + 1] == more[i];
      }
    }
  }

  function Dropping(u: string, c: char): (r: string)
    ensures c !in r
  {
    if u == "" then "" else (if u[0] == c then "" else [u[0]]) + Dropping(u[1..], c)
  }

  lemma SplitDigit(u: string)
    requires u != "" && IsDigit(u[0])
    ensures var more := Split(u[1..], '_'); Split(u, '_') == [[u[0]] + more[0]] + more[1..]
  {
  }

  /** The first part of the rest, after the first digit. */
  lemma AfterDigit(u: string)
    requires u != "" && IsDigit(u[0])
    ensures |u| == 1 ==> Split(u[1..], '_') == [""]
    ensures |u| > 1 && u[1] == '_' ==> Split(u[1..], '_') == [""] + Split(u[2..], '_')
    ensures |u| > 1 && u[1] != '_' ==> Split(u[1..], '_')[0] != ""
  {
    if |u| == 1 {
      EmptyPart();
      assert u[1..] == "";
    } else if u[1] == '_' {
      assert u[1..][1..] == u[2..];
    } else {
      FirstOfPart(u[1..]);
    }
  }

  /** Single underscores, and those only between digits, are dropped. */
  lemma {:induction false} UnderscoresBetween(u: string)
    ensures WithoutUnderscores(u) == if IsNumeral(u) then Some(Dropping(u, '_')) else None
    decreases |u|
  {
    hide Split;
    if u == "" {
      EmptyPart();
    } else if !IsDigit(u[0]) {
      FirstOfPart(u);
    } else {
      SplitDigit(u);
      AfterDigit(u);
      var more := Split(u[1..], '_');
      if |u| == 1 {
        assert Dropping(u[1..], '_') == "";
        assert [u[0]] + more[0] == u && more[1..] == [];
        assert [u[0]] + "" == u;
        GroupsStep(u, []);
      } else if u[1] == '_' {
        assert u[1..][1..] == u[2..];
        UnderscoresBetween(u[2..]);
        assert more[0] == "" && more[1..] == Split(u[2..], '_') && [u[0]] + "" == [u[0]];
        GroupsStep([u[0]], Split(u[2..], '_'));
        assert Dropping(u[1..], '_') == Dropping(u[2..], '_');
      } else {
        UnderscoresBetween(u[1..]);
        assert more == [more[0]] + more[1..];
        GroupsStep(more[0], more[1..]);
        GroupsStep([u[0]] + more[0], more[1..]);
        assert AllDigits([u[0]] + more[0]) <==> AllDigits(more[0]) by { DigitFirst(u[0], more[0]); }
      }
    }
  }

  lemma DigitFirst(c: char, s: string)
    requires IsDigit(c)
    ensures AllDigits([c] + s) <==> AllDigits(s)
  {
    if AllDigits([c] + s) {
      assert forall i :: 0 <= i < |s| ==> ([c] + s)[i + 1] == s[i];
    }
  }

  lemma EmptyPart()
    ensures Split("", '_') == [""] && !IsNumeral("")
  {
    assert Split("", '_')[0] == "";
  }

  lemma FirstOfPart(u: string)
    requires u != ""
    ensures if u[0] == '_' then Split(u, '_')[0] == "" else Split(u, '_')[0] != "" && Split(u, '_')[0][0] == u[0]
    ensures !IsDigit(u[0]) ==> !IsNumeral(u)
  {
    var first := Split(u, '_')[0];
    assert u[0] != '_' ==> first[0] == u[0];
  }

  function NumeralValue(u: string): nat
    requires IsNumeral(u)
  {
    UnderscoresBetween(u);
    NatOf(Dropping(u, '_'))
  }

  /** The white space around a number may not have a separator in it. */
  predicate PlainSpace(s: string) {
    AllSpace(s) && forall i :: 0 <= i < |s| ==> !(28 as char <= s[i] <= 31 as char)
  }

  /** What int() reads: white space, a sign or none, a numeral, and white space again. */
  lemma IntOfReads(pre: string, sign: string, u: string, post: string)
    requires AllSpace(pre) && AllSpace(post) && sign in {"", "+", "-"} && IsNumeral(u)
    ensures IntOf(pre + sign + u + post)
            == if !PlainSpace(pre) || !PlainSpace(post) then None
               else if sign == "-" then Some(-(NumeralValue(u) as int)) else Some(NumeralValue(u))
  {
    hide IntOf, IsNumeral, Strip, NumeralValue, HasSeparator, PlainSpace, AllSpace, IsSpace;
    var t := sign + u;
    Assoc4(pre, sign, u, post);
    SignedChars(sign, u);
    StripPadded(pre, t, post);
    Separators(pre, t, post);
    IntOfStripped(pre + t + post, sign, u);
  }

  lemma IntOfStripped(s: string, sign: string, u: string)
    requires Strip(s) == sign + u && sign in {"", "+", "-"} && IsNumeral(u)
    ensures IntOf(s) == if HasSeparator(s) then None
                        else if sign == "-" then Some(-(NumeralValue(u) as int)) else Some(NumeralValue(u))
  {
    hide IntOf, IsNumeral, Strip, WithoutUnderscores, NatOf, NumeralValue, HasSeparator;
    UnsignedPart(sign, u);
    ValueIs(u);
    IntOfParts(s);
  }

  lemma IntOfParts(s: string)
    ensures var t := Strip(s);
            var signed := t != [] && (t[0] == '-' || t[0] == '+');
            var d := WithoutUnderscores(if signed then t[1..] else t);
            IntOf(s) == if HasSeparator(s) || d == None then None
                        else if signed && t[0] == '-' then Some(-(NatOf(d.value) as int)) else Some(NatOf(d.value))
  {
  }

  lemma ValueIs(u: string)
    requires IsNumeral(u)
    ensures WithoutUnderscores(u).Some? && NatOf(WithoutUnderscores(u).value) == NumeralValue(u)
  {
    hide IsNumeral;
    UnderscoresBetween(u);
  }

  lemma UnsignedPart(sign: string, u: string)
    requires sign in {"", "+", "-"} && IsNumeral(u)
    ensures var t := sign + u;
            var signed := t != [] && (t[0] == '-' || t[0] == '+');
            && (signed <==> sign != "") && (if signed then t[1..] else t) == u
            && (signed && t[0] == '-' <==> sign == "-")
  {
    hide IsNumeral, IsSpace;
    SignedChars(sign, u);
    var t := sign + u;
    assert sign == "-" ==> t[0] == '-';
    assert sign == "+" ==> t[0] == '+';
  }

  lemma SignedChars(sign: string, u: string)
    requires sign in {"", "+", "-"} && IsNumeral(u)
    ensures var t := sign + u;
            && t != [] && !IsSpace(t[0]) && !IsSpace(t[|t| - 1])
            && (forall i :: 0 <= i < |t| ==> !(28 as char <= t[i] <= 31 as char))
            && (sign == "" ==> t == u && t[0] != '-' && t[0] != '+') && (sign != "" ==> t[0] == sign[0] && t[1..] == u)
  {
    hide IsNumeral;
    NumeralChars(u);
    var t := sign + u;
    assert t[|t| - 1] == u[|u| - 1];
  }

  lemma Separators(pre: string, t: string, post: string)
    requires AllSpace(pre) && AllSpace(post) && forall i :: 0 <= i < |t| ==> !(28 as char <= t[i] <= 31 as char)
    ensures HasSeparator(pre + t + post) <==> !PlainSpace(pre) || !PlainSpace(post)
  {
    var s := pre + t + post;
    assert forall i :: 0 <= i < |pre| ==> s[i] == pre[i];
    assert forall i :: 0 <= i < |t| ==> s[|pre| + i] == t[i];
    assert forall i :: 0 <= i < |post| ==> s[|pre| + |t| + i] == post[i];
    assert forall i :: |pre| <= i < |pre| + |t| ==> s[i] == t[i - |pre|];
    assert forall i :: |pre| + |t| <= i < |s| ==> s[i] == post[i - |pre| - |t|];
  }

  lemma NumeralChars(u: string)
    requires IsNumeral(u)
    ensures u != "" && IsDigit(u[0]) && IsDigit(u[|u| - 1])
    ensures forall i :: 0 <= i < |u| ==> IsDigit(u[i]) || u[i] == '_'
  {
    JoinSplit(u, '_');
    JoinedGroups(Split(u, '_'));
  }

  lemma {:induction false} JoinedGroups(parts: seq<string>)
    requires parts != [] && Groups(parts)
    ensures var u := Join(parts, '_');
            && u != "" && IsDigit(u[0]) && IsDigit(u[|u| - 1])
            && forall i :: 0 <= i < |u| ==> IsDigit(u[i]) || u[i] == '_'
  {
    if |parts| > 1 {
      JoinedGroups(parts[1..]);
    }
  }

  /** And nothing else: what int() reads is of that form. */
  lemma IntOfReadsOnly(s: string) returns (pre: string, sign: string, u: string, post: string)
    requires IntOf(s).Some?
    ensures s == pre + sign + u + post && PlainSpace(pre) && PlainSpace(post)
    ensures sign in {"", "+", "-"} && IsNumeral(u)
  {
    hide WithoutUnderscores, IsNumeral, Strip, NatOf, HasSeparator, PlainSpace;
    pre, post := StripTakes(s);
    var t := Strip(s);
    var signed := t != [] && (t[0] == '-' || t[0] == '+');
    sign, u := if signed then [t[0]] else "", if signed then t[1..] else t;
    UnderscoresBetween(u);
    PlainAround(pre, t, post);
    assert t == sign + u;
    Assoc4(pre, sign, u, post);
    assert s == pre + t + post;
  }

  lemma Assoc4(a: string, b: string, c: string, d: string)
    ensures a + (b + c) + d == a + b + c + d
  {
  }

  lemma PlainAround(pre: string, t: string, post: string)
    requires AllSpace(pre) && AllSpace(post) && !HasSeparator(pre + t + post)
    ensures PlainSpace(pre) && PlainSpace(post)
  {
    var s := pre + t + post;
    assert forall i :: 0 <= i < |pre| ==> s[i] == pre[i];
    assert forall i :: 0 <= i < |post| ==> s[|pre| + |t| + i] == post[i];
  }

  lemma IntOfDec(n: nat)
    ensures IntOf(Dec(n)) == Some(n)
  {
    var s := Dec(n);
    assert IsDigit(s[0]) && IsDigit(s[|s| - 1]);
    StripPlain(s);
    PlainDigits(s);
    NatOfDec(n);
  }

  /** Text that int() reads as n is at least as long as str(n), and as long only when it is str(n). */
  lemma IntOfIsLonger(s: string, n: nat)
    requires IntOf(s) == Some(n)
    ensures |Dec(n)| <= |s| && (|Dec(n)| == |s| <==> s == Dec(n))
  {
    var t := Strip(s);
    var signed := t != [] && (t[0] == '-' || t[0] == '+');
    var d := WithoutUnderscores(if signed then t[1..] else t).value;
    CanonicalIsShortest(d);
    assert NatOf(d) == n;
  }
}
