/** What a catalog export takes along: the chosen items and everything their packages include, directly or
    through other packages. Packages may include each other. */
module CatalogClosure {
  import opened Wrappers
  import opened Sequences

  /** A row of catalog_items; `includes` is a definition's list of (kind, name). */
  datatype Item = Item(kind: string, name: string, includes: seq<(string, string)>)

  type Catalog = map<int, Item>

  /** The table's unique constraint. */
  ghost predicate UniqueNames(c: Catalog) {
    forall x, y :: x in c && y in c && c[x].kind == c[y].kind && c[x].name == c[y].name ==> x == y
  }

  predicate IsNamed(c: Catalog, id: int, ref: (string, string)) {
    id in c && c[id].kind == ref.0 && c[id].name == ref.1
  }

  method FindItem(c: Catalog, ref: (string, string)) returns (r: Option<int>)
    ensures if r.Some? then IsNamed(c, r.value, ref) else forall id :: id in c ==> !IsNamed(c, id, ref)
  {
    if id :| id in c && IsNamed(c, id, ref) {
      return Some(id);
    }
    return None;
  }

  /** Package x includes item y. */
  ghost predicate Includes(c: Catalog, x: int, y: int) {
    x in c && c[x].kind == "package" && exists k :: 0 <= k < |c[x].includes| && IsNamed(c, y, c[x].includes[k])
  }

  /** Only packages include items, and an item by its kind and name. */
  lemma IncludesByName(c: Catalog, x: int, y: int)
    requires x in c && y in c
    ensures Includes(c, x, y) <==> c[x].kind == "package" && (c[y].kind, c[y].name) in c[x].includes
  {
    forall k | 0 <= k < |c[x].includes|
      ensures IsNamed(c, y, c[x].includes[k]) <==> c[x].includes[k] == (c[y].kind, c[y].name)
    {
    }
  }

  /** A chain of packages from one of the chosen items to y. */
  ghost predicate IsChain(c: Catalog, chosen: seq<int>, path: seq<int>, y: int) {
    && path != [] && path[0] in chosen && path[|path| - 1] == y
    && forall i :: 0 <= i < |path| - 1 ==> Includes(c, path[i], path[i + 1])
  }

  ghost predicate Reached(c: Catalog, chosen: seq<int>, y: int) {
    exists path :: IsChain(c, chosen, path, y)
  }

  lemma ChosenIsReached(c: Catalog, chosen: seq<int>, y: int)
    requires y in chosen
    ensures Reached(c, chosen, y)
  {
    assert IsChain(c, chosen, [y], y);
  }

  lemma IncludedIsReached(c: Catalog, chosen: seq<int>, x: int, y: int)
    requires Reached(c, chosen, x) && Includes(c, x, y)
    ensures Reached(c, chosen, y)
  {
    var path :| IsChain(c, chosen, path, x);
    assert IsChain(c, chosen, path + [y], y);
  }

  /** A set that holds the chosen items and whatever its packages include holds everything reached. */
  lemma {:induction false} ClosedHoldsReached(c: Catalog, chosen: seq<int>, out: seq<int>, path: seq<int>, y: int)
    requires forall x :: x in chosen ==> x in out
    requires forall x, z :: x in out && Includes(c, x, z) ==> z in out
    requires IsChain(c, chosen, path, y)
    ensures y in out
    decreases |path|
  {
    if |path| > 1 {
      var front := path[..|path| - 1];
      forall i | 0 <= i < |front| - 1 ensures Includes(c, front[i], front[i + 1]) {
        assert Includes(c, path[i], path[i + 1]);
      }
      ClosedHoldsReached(c, chosen, out, front, front[|front| - 1]);
      assert Includes(c, path[|path| - 2], path[|path| - 2 + 1]);
    }
  }

  lemma LeftToAdd(c: Catalog, out: seq<int>, more: seq<int>)
    requires forall y :: y in more ==> y in c && y !in out
    ensures more == [] ==> out + more == out
    ensures more != [] ==> c.Keys - Elements(out + more) < c.Keys - Elements(out)
  {
    if more != [] {
      var y := more[0];
      assert y in more && y in out + more;
      assert y in c.Keys - Elements(out) && y !in c.Keys - Elements(out + more);
    }
  }

  /** `_closure`: ends on any catalog, and returns each item that is chosen or reached from a chosen one
      once, and no other; the chosen ones come first. */
  method Closure(c: Catalog, chosen: seq<int>) returns (out: seq<int>)
    requires UniqueNames(c) && forall x :: x in chosen ==> x in c
    ensures forall y :: y in out <==> Reached(c, chosen, y)
    ensures Distinct(out) && Once(chosen) <= out
  {
    hide IsChain, Reached, Once, IsNamed;
    out := FirstOut(c, chosen);
    var queue := chosen;
    while queue != []
      invariant Distinct(out) && Once(chosen) <= out
      invariant (forall x :: x in queue ==> x in out) && (forall x :: x in chosen ==> x in out)
      invariant forall x :: x in out ==> x in c && Reached(c, chosen, x)
      invariant forall x, z :: x in out && x !in queue && Includes(c, x, z) ==> z in out
      decreases c.Keys - Elements(out), |queue|
    {
      ghost var out0 := out;
      var x := queue[|queue| - 1];
      assert queue == queue[..|queue| - 1] + [x];
      var more;
      out, more := AddIncluded(c, chosen, out, x);
      queue := queue[..|queue| - 1] + more;
      LeftToAdd(c, out0, more);
    }
    forall y ensures y in out <==> Reached(c, chosen, y) {
      if Reached(c, chosen, y) {
        AllReachedAreIn(c, chosen, out, y);
      }
    }
  }

  lemma AllReachedAreIn(c: Catalog, chosen: seq<int>, out: seq<int>, y: int)
    requires forall x :: x in chosen ==> x in out
    requires forall x, z :: x in out && Includes(c, x, z) ==> z in out
    requires Reached(c, chosen, y)
    ensures y in out
  {
    var path :| IsChain(c, chosen, path, y);
    ClosedHoldsReached(c, chosen, out, path, y);
  }

  method FirstOut(c: Catalog, chosen: seq<int>) returns (out: seq<int>)
    requires forall x :: x in chosen ==> x in c
    ensures out == Once(chosen) && Distinct(out)
    ensures forall x :: x in out <==> x in chosen
    ensures forall x :: x in out ==> x in c && Reached(c, chosen, x)
  {
    hide Reached;
    out := [];
    for i := 0 to |chosen|
      invariant out == Once(chosen[..i]) && Distinct(out)
      invariant forall x :: x in out <==> x in chosen[..i]
    {
      assert chosen[..i + 1][..i] == chosen[..i];
      out := Add(out, chosen[i]);
    }
    assert chosen[..|chosen|] == chosen;
    forall x | x in out ensures Reached(c, chosen, x) {
      ChosenIsReached(c, chosen, x);
    }
  }

  /** One turn of the worklist: what item x includes and isn't out yet is added to both lists. */
  method AddIncluded(c: Catalog, ghost chosen: seq<int>, out: seq<int>, x: int) returns (out': seq<int>, more: seq<int>)
    requires UniqueNames(c) && Distinct(out) && x in c && Reached(c, chosen, x)
    requires forall y :: y in out ==> y in c && Reached(c, chosen, y)
    ensures out' == out + more && Distinct(out')
    ensures forall y :: y in out' ==> y in c && Reached(c, chosen, y)
    ensures forall y :: y in more ==> y !in out
    ensures forall z :: Includes(c, x, z) ==> z in out'
  {
    hide Reached, IsNamed;
    out', more := out, [];
    if c[x].kind != "package" {
      return;
    }
    var refs := c[x].includes;
    for k := 0 to |refs|
      invariant out' == out + more && Distinct(out')
      invariant forall y :: y in out' ==> y in c && Reached(c, chosen, y)
      invariant forall y :: y in more ==> y !in out
      invariant forall j, z :: 0 <= j < k && IsNamed(c, z, refs[j]) ==> z in out'
    {
      var ref := FindItem(c, refs[k]);
      if ref.Some? {
        OnlyOneNamed(c, ref.value, refs[k]);
        if ref.value !in out' {
          assert Includes(c, x, ref.value);
          IncludedIsReached(c, chosen, x, ref.value);
          out', more := out' + [ref.value], more + [ref.value];
        }
      } else {
        NoneNamed(c, refs[k]);
      }
    }
  }

  lemma OnlyOneNamed(c: Catalog, id: int, ref: (string, string))
    requires UniqueNames(c) && IsNamed(c, id, ref)
    ensures id in c && forall z :: IsNamed(c, z, ref) ==> z == id
  {
  }

  lemma NoneNamed(c: Catalog, ref: (string, string))
    requires forall id :: id in c ==> !IsNamed(c, id, ref)
    ensures forall z :: !IsNamed(c, z, ref)
  {
  }
}
