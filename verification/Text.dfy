/** Python string methods: find, strip and split. */
module Text {
  import opened Wrappers

  /** s.find(c, from) */
  function Find(s: string, c: char, from: nat): (r: Option<nat>)
    ensures r.Some? ==> from <= r.value < |s| && s[r.value] == c && forall i :: from <= i < r.value ==> s[i] != c
    ensures r.None? ==> forall i :: from <= i < |s| ==> s[i] != c
    decreases |s| - from
  {
    if from >= |s| then None else if s[from] == c then Some(from) else Find(s, c, from + 1)
  }

  lemma FindInSuffix(s: string, c: char, p: nat)
    requires p <= |s|
    ensures var (r, t) := (Find(s, c, p), Find(s[p..], c, 0));
            r.Some? == t.Some? && (r.Some? ==> t.value == r.value - p)
  {
  }

  lemma FindExtends(s: string, t: string, c: char, from: nat)
    requires Find(s, c, from).Some?
    ensures Find(s + t, c, from) == Find(s, c, from)
  {
    assert (s + t)[Find(s, c, from).value] == c;
  }

  /** ASCII white space, as str.strip() sees it. */
  predicate IsSpace(c: char) {
    9 as char <= c <= 13 as char || 28 as char <= c <= 32 as char
  }

  function StripLeft(s: string): (t: string)
    ensures |t| <= |s| && (|t| == |s| ==> t == s)
    ensures t != [] ==> !IsSpace(t[0])
  {
    if s != [] && IsSpace(s[0]) then StripLeft(s[1..]) else s
  }

  function StripRight(s: string): (t: string)
    ensures |t| <= |s| && t <= s
    ensures t != [] ==> !IsSpace(t[|t| - 1])
  {
    if s != [] && IsSpace(s[|s| - 1]) then StripRight(s[..|s| - 1]) else s
  }

  /** s.strip() */
  function Strip(s: string): (t: string)
    ensures |t| <= |s| && (|t| == |s| ==> t == s)
    ensures t != [] ==> !IsSpace(t[0]) && !IsSpace(t[|t| - 1])
  {
    StripRight(StripLeft(s))
  }

  lemma StripPlain(s: string)
    requires s != [] && !IsSpace(s[0]) && !IsSpace(s[|s| - 1])
    ensures Strip(s) == s
  {
  }

  predicate AllSpace(s: string) {
    forall i :: 0 <= i < |s| ==> IsSpace(s[i])
  }

  lemma {:induction false} StripLeftOf(pre: string, s: string)
    requires AllSpace(pre) && s != [] && !IsSpace(s[0])
    ensures StripLeft(pre + s) == s
  {
    if pre == [] {
      assert pre + s == s;
    } else {
      StripLeftOf(pre[1..], s);
      assert (pre + s)[1..] == pre[1..] + s;
    }
  }

  lemma {:induction false} StripRightOf(s: string, post: string)
    requires AllSpace(post) && s != [] && !IsSpace(s[|s| - 1])
    ensures StripRight(s + post) == s
  {
    if post == [] {
      assert s + post == s;
    } else {
      StripRightOf(s, post[..|post| - 1]);
      assert (s + post)[..|s + post| - 1] == s + post[..|post| - 1];
    }
  }

  /** White space around text is what strip takes, and nothing else. */
  lemma StripPadded(pre: string, s: string, post: string)
    requires AllSpace(pre) && AllSpace(post) && s != [] && !IsSpace(s[0]) && !IsSpace(s[|s| - 1])
    ensures Strip(pre + s + post) == s
  {
    assert pre + s + post == pre + (s + post);
    StripLeftOf(pre, s + post);
    StripRightOf(s, post);
  }

  lemma {:induction false} LeftPart(s: string) returns (pre: string)
    ensures s == pre + StripLeft(s) && AllSpace(pre)
  {
    pre := "";
    if s != [] && IsSpace(s[0]) {
      var more := LeftPart(s[1..]);
      pre := [s[0]] + more;
    }
  }

  lemma {:induction false} RightPart(s: string) returns (post: string)
    ensures s == StripRight(s) + post && AllSpace(post)
  {
    post := "";
    if s != [] && IsSpace(s[|s| - 1]) {
      var more := RightPart(s[..|s| - 1]);
      post := more + [s[|s| - 1]];
    }
  }

  /** What strip takes is white space. */
  lemma StripTakes(s: string) returns (pre: string, post: string)
    ensures s == pre + Strip(s) + post && AllSpace(pre) && AllSpace(post)
  {
    pre := LeftPart(s);
    post := RightPart(StripLeft(s));
  }

  lemma StripTwice(s: string)
    ensures Strip(Strip(s)) == Strip(s)
  {
    if Strip(s) != [] {
      StripPlain(Strip(s));
    }
  }

  /** s.split(c) */
  function Split(s: string, c: char): (parts: seq<string>)
    ensures |parts| >= 1
  {
    if s == "" then [""]
    else
      var more := Split(s[1..], c);
      if s[0] == c then [""] + more else [[s[0]] + more[0]] + more[1..]
  }

  /** c.join(parts) */
  function Join(parts: seq<string>, c: char): string {
    if parts == [] then "" else if |parts| == 1 then parts[0] else parts[0] + [c] + Join(parts[1..], c)
  }

  lemma {:induction false} JoinSplit(s: string, c: char)
    ensures Join(Split(s, c), c) == s
    ensures forall i :: 0 <= i < |Split(s, c)| ==> c !in Split(s, c)[i]
  {
    if s != "" {
      JoinSplit(s[1..], c);
      var more := Split(s[1..], c);
      if s[0] == c {
        assert ([""] + more)[1..] == more;
      } else {
        assert ([[s[0]] + more[0]] + more[1..])[1..] == more[1..];
      }
    }
  }

  lemma {:induction false} SplitPart(p: string, c: char, rest: string)
    requires c !in p
    ensures Split(p, c) == [p] && Split(p + [c] + rest, c) == [p] + Split(rest, c)
  {
    if p == "" {
      assert p + [c] + rest == [c] + rest;
      assert ([c] + rest)[1..] == rest;
    } else {
      SplitPart(p[1..], c, rest);
      assert (p + [c] + rest)[1..] == p[1..] + [c] + rest;
      assert p == [p[0]] + p[1..];
    }
  }

  lemma {:induction false} SplitJoin(parts: seq<string>, c: char)
    requires parts != [] && forall i :: 0 <= i < |parts| ==> c !in parts[i]
    ensures Split(Join(parts, c), c) == parts
  {
    if |parts| == 1 {
      SplitPart(parts[0], c, "");
    } else {
      SplitJoin(parts[1..], c);
      SplitPart(parts[0], c, Join(parts[1..], c));
      assert parts == [parts[0]] + parts[1..];
    }
  }
}
