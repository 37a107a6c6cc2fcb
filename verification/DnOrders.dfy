// When two orders show a distinguished name in the same way.

module DnOrders {
  import opened Text
  import opened DnPrinter
  import opened DnReorder

  // Whether the order shows the attributes with this name at all
  predicate Shows(name: string, order: seq<string>) {
    Appearances(name, order) > 0
  }

  // Both orders show the same attributes of dn, and place any two of them in the same way.
  predicate SameRanking(dn: seq<Attribute>, a: seq<string>, b: seq<string>) {
    && (forall i :: 0 <= i < |dn| ==> (Shows(dn[i].name, a) <==> Shows(dn[i].name, b)))
    && (forall i, j :: 0 <= i < j < |dn| && Shows(dn[i].name, a) && Shows(dn[j].name, a) ==>
          (Rank(dn[i].name, a) <= Rank(dn[j].name, a) <==> Rank(dn[i].name, b) <= Rank(dn[j].name, b)))
  }

  lemma InReordered(dn: seq<Attribute>, order: seq<string>, a: Attribute)
    ensures a in Reordered(dn, order) <==> a in dn && Shows(a.name, order)
  {
    Multiplicity(dn, order, a);
    PositiveProduct(multiset(dn)[a], Appearances(a.name, order));
  }

  lemma PositiveProduct(m: nat, k: nat)
    ensures m * k > 0 <==> m > 0 && k > 0
  {
  }

  // Another attribute in front, which the order does not show, changes nothing.
  lemma UnshownInFront(x: Attribute, dn: seq<Attribute>, order: seq<string>)
    requires !Shows(x.name, order)
    ensures Reordered([x] + dn, order) == Reordered(dn, order)
  {
    var longer := [x] + dn;
    assert longer[1..] == dn;
    ArrangeDependsOnGroups(longer, dn, Unknown(longer, order), Unknown(dn, order), order);
  }

  lemma TailUnchanged(x: Attribute, dn: seq<Attribute>, unknown: seq<Attribute>, tail: seq<string>)
    requires x.name !in tail
    ensures Arrange([x] + dn, unknown, tail) == Arrange(dn, unknown, tail)
  {
    assert ([x] + dn)[1..] == dn;
    ArrangeDependsOnGroups([x] + dn, dn, unknown, unknown, tail);
  }

  lemma ShownHasPlace(name: string, order: seq<string>)
    requires Shows(name, order)
    ensures name != REST && Rank(name, order) < |order|
    ensures order[Rank(name, order)] == if name in order then name else REST
  {
    var c := if name in order then name else REST;
    IndexOfIsFirst(order, c);
    assert order[..|order|] == order;
  }

  // What the name at place k of an order contributes, and the unknown attributes left for
  // the names behind it
  function GroupOf(dn: seq<Attribute>, unknown: seq<Attribute>, name: string): seq<Attribute> {
    if name == REST then unknown else Named(dn, name)
  }

  function LeftFor(unknown: seq<Attribute>, name: string): seq<Attribute> {
    if name == REST then [] else unknown
  }

  lemma ArrangeStep(dn: seq<Attribute>, unknown: seq<Attribute>, order: seq<string>, k: nat)
    requires k < |order|
    ensures Arrange(dn, unknown, order[k..]) ==
            GroupOf(dn, unknown, order[k]) + Arrange(dn, LeftFor(unknown, order[k]), order[k + 1..])
  {
    assert order[k..][0] == order[k] && order[k..][1..] == order[k + 1..];
  }

  // With x in front, only the group of its own rank changes: it starts with x.
  lemma GroupWithFront(
      x: Attribute, dn: seq<Attribute>, unknown: seq<Attribute>, order: seq<string>, k: nat)
    requires NoDuplicates(order) && Shows(x.name, order) && k < |order|
    ensures var longer := if x.name in order then unknown else [x] + unknown;
            GroupOf([x] + dn, longer, order[k]) ==
              if k == Rank(x.name, order) then [x] + GroupOf(dn, unknown, order[k])
              else GroupOf(dn, unknown, order[k])
  {
    ShownHasPlace(x.name, order);
    RankOfPlace(order, k);
    assert ([x] + dn)[1..] == dn;
    assert [] + Named(dn, order[k]) == Named(dn, order[k]);
  }

  // A shown attribute in front goes before all attributes of its rank, and behind all those
  // of a lower rank.
  lemma {:induction false} ShownInFrontFrom(
      x: Attribute, dn: seq<Attribute>, unknown: seq<Attribute>, order: seq<string>, k: nat)
    returns (low: seq<Attribute>, high: seq<Attribute>)
    requires NoDuplicates(order) && Shows(x.name, order) && k <= Rank(x.name, order)
    requires forall a :: a in unknown ==> a.name !in order
    ensures Arrange(dn, unknown, order[k..]) == low + high
    ensures Arrange([x] + dn, if x.name in order then unknown else [x] + unknown, order[k..]) == low + ([x] + high)
    ensures forall a :: a in low ==> Rank(a.name, order) < Rank(x.name, order)
    ensures forall a :: a in high ==> Rank(x.name, order) <= Rank(a.name, order)
    decreases |order| - k
  {
    ShownHasPlace(x.name, order);
    var group, left := GroupOf(dn, unknown, order[k]), LeftFor(unknown, order[k]);
    GroupWithFront(x, dn, unknown, order, k);
    ArrangeStep(dn, unknown, order, k);
    ArrangeStep([x] + dn, if x.name in order then unknown else [x] + unknown, order, k);
    if k == Rank(x.name, order) {
      low, high := [], Arrange(dn, unknown, order[k..]);
      ArrangeIsRanked(dn, unknown, order, k);
      TailUnchanged(x, dn, left, order[k + 1..]);
      ConcatAssociates([x], group, Arrange(dn, left, order[k + 1..]));
    } else {
      GroupIsRanked(dn, unknown, order, k);
      var l;
      l, high := ShownInFrontFrom(x, dn, left, order, k + 1);
      low := group + l;
      ConcatAssociates(group, l, high);
      ConcatAssociates(group, l, [x] + high);
    }
  }

  lemma GroupIsRanked(dn: seq<Attribute>, unknown: seq<Attribute>, order: seq<string>, k: nat)
    requires NoDuplicates(order) && k < |order| && forall a :: a in unknown ==> a.name !in order
    ensures forall a :: a in GroupOf(dn, unknown, order[k]) ==> Rank(a.name, order) == k
  {
    RankOfPlace(order, k);
    NamedHasName(dn, order[k]);
  }

  lemma ShownInFront(x: Attribute, dn: seq<Attribute>, order: seq<string>)
    returns (low: seq<Attribute>, high: seq<Attribute>)
    requires NoDuplicates(order) && Shows(x.name, order)
    ensures Reordered(dn, order) == low + high
    ensures Reordered([x] + dn, order) == low + ([x] + high)
    ensures forall a :: a in low ==> Rank(a.name, order) < Rank(x.name, order)
    ensures forall a :: a in high ==> Rank(x.name, order) <= Rank(a.name, order)
  {
    UnknownIsUnknown(dn, order);
    assert order[0..] == order && ([x] + dn)[1..] == dn;
    assert [] + Unknown(dn, order) == Unknown(dn, order);
    low, high := ShownInFrontFrom(x, dn, Unknown(dn, order), order, 0);
  }

  lemma FirstPlaceIsUnique(x: Attribute, a: seq<Attribute>, b: seq<Attribute>, c: seq<Attribute>, d: seq<Attribute>)
    requires a + ([x] + b) == c + ([x] + d) && x !in a && x !in c
    ensures a == c && b == d
  {
    var s := a + ([x] + b);
    IndexOfSeparator(a, x, b);
    IndexOfSeparator(c, x, d);
    assert a + [x] + b == s && c + [x] + d == s;
  }

  lemma {:induction false} RanksOfSplit(
      x: Attribute, dn: seq<Attribute>, order: seq<string>, low: seq<Attribute>, high: seq<Attribute>, a: Attribute)
    requires NoDuplicates(order) && Reordered(dn, order) == low + high
    requires forall b :: b in low ==> Rank(b.name, order) < Rank(x.name, order)
    requires forall b :: b in high ==> Rank(x.name, order) <= Rank(b.name, order)
    requires a in dn && Shows(a.name, order)
    ensures Rank(x.name, order) <= Rank(a.name, order) <==> a in high
  {
    InReordered(dn, order, a);
  }

  lemma ShowsOfTail(dn: seq<Attribute>, a: seq<string>, b: seq<string>)
    requires dn != []
    ensures SameRanking(dn, a, b) <==>
            && (Shows(dn[0].name, a) <==> Shows(dn[0].name, b)) && SameRanking(dn[1..], a, b)
            && (Shows(dn[0].name, a) ==> SamePlace(dn[0], dn[1..], a, b))
  {
    var x, t := dn[0], dn[1..];
    assert forall i :: 0 <= i < |t| ==> t[i] == dn[i + 1];
    if SameRanking(dn, a, b) {
      forall i, j | 0 <= i < j < |t| && Shows(t[i].name, a) && Shows(t[j].name, a)
        ensures Rank(t[i].name, a) <= Rank(t[j].name, a) <==> Rank(t[i].name, b) <= Rank(t[j].name, b)
      {
        assert t[i] == dn[i + 1] && t[j] == dn[j + 1];
      }
    }
    if SameRanking(t, a, b) {
      forall i, j | 0 < i < j < |dn| && Shows(dn[i].name, a) && Shows(dn[j].name, a)
        ensures Rank(dn[i].name, a) <= Rank(dn[j].name, a) <==> Rank(dn[i].name, b) <= Rank(dn[j].name, b)
      {
        assert t[i - 1] == dn[i] && t[j - 1] == dn[j];
      }
    }
  }

  // Both orders place x in the same way among the attributes behind it.
  predicate SamePlace(x: Attribute, t: seq<Attribute>, a: seq<string>, b: seq<string>) {
    forall j :: 0 <= j < |t| && Shows(t[j].name, a) ==>
      (Rank(x.name, a) <= Rank(t[j].name, a) <==> Rank(x.name, b) <= Rank(t[j].name, b))
  }

  // With x in front, two lists are the same if and only if they were and x has the same place.
  lemma FrontExact(x: Attribute, t: seq<Attribute>, a: seq<string>, b: seq<string>)
    requires NoDuplicates(a) && NoDuplicates(b) && Shows(x.name, a) && Shows(x.name, b)
    requires forall i :: 0 <= i < |t| ==> (Shows(t[i].name, a) <==> Shows(t[i].name, b))
    ensures Reordered([x] + t, a) == Reordered([x] + t, b)
       <==> Reordered(t, a) == Reordered(t, b) && SamePlace(x, t, a, b)
  {
    var l, h := ShownInFront(x, t, a);
    var m, k := ShownInFront(x, t, b);
    if l + ([x] + h) == m + ([x] + k) {
      FirstPlaceIsUnique(x, l, h, m, k);
      forall j | 0 <= j < |t| && Shows(t[j].name, a)
        ensures Rank(x.name, a) <= Rank(t[j].name, a) <==> Rank(x.name, b) <= Rank(t[j].name, b)
      {
        RanksOfSplit(x, t, a, l, h, t[j]);
        RanksOfSplit(x, t, b, m, k, t[j]);
      }
    }
    if Reordered(t, a) == Reordered(t, b) && SamePlace(x, t, a, b) {
      CutIsSame(x, t, a, b, l, h, m, k);
    }
  }

  lemma CutIsSame(
      x: Attribute, t: seq<Attribute>, a: seq<string>, b: seq<string>,
      l: seq<Attribute>, h: seq<Attribute>, m: seq<Attribute>, k: seq<Attribute>)
    requires SamePlace(x, t, a, b)
    requires Reordered(t, a) == l + h && Reordered(t, b) == m + k && l + h == m + k
    requires forall e :: e in l ==> Rank(e.name, a) < Rank(x.name, a)
    requires forall e :: e in h ==> Rank(x.name, a) <= Rank(e.name, a)
    requires forall e :: e in m ==> Rank(e.name, b) < Rank(x.name, b)
    requires forall e :: e in k ==> Rank(x.name, b) <= Rank(e.name, b)
    ensures l == m && h == k
  {
    if |l| < |m| {
      assert (l + h)[|l|] == h[0] && (m + k)[|l|] == m[|l|];
      InReordered(t, a, h[0]);
      assert false;
    }
    if |m| < |l| {
      assert (m + k)[|m|] == k[0] && (l + h)[|m|] == l[|m|];
      InReordered(t, a, k[0]);
      assert false;
    }
    assert l == (l + h)[..|l|] && m == (m + k)[..|l|];
    assert h == (l + h)[|l|..] && k == (m + k)[|l|..];
  }

  // Two orders without duplicates show dn in the same way if and only if they show the same
  // attributes and place any two of them alike.
  lemma {:induction false} SameListExact(dn: seq<Attribute>, a: seq<string>, b: seq<string>)
    requires NoDuplicates(a) && NoDuplicates(b)
    ensures Reordered(dn, a) == Reordered(dn, b) <==> SameRanking(dn, a, b)
  {
    if dn == [] {
      NothingToShow(a);
      NothingToShow(b);
    } else {
      var x, t := dn[0], dn[1..];
      assert dn == [x] + t;
      SameListExact(t, a, b);
      ShowsOfTail(dn, a, b);
      InReordered(dn, a, x);
      InReordered(dn, b, x);
      if !Shows(x.name, a) && !Shows(x.name, b) {
        UnshownInFront(x, t, a);
        UnshownInFront(x, t, b);
      } else if Shows(x.name, a) && Shows(x.name, b) {
        if Reordered(dn, a) == Reordered(dn, b) {
          SameShown(dn, a, b);
          assert forall i :: 0 <= i < |t| ==> t[i] == dn[i + 1];
        }
        if Reordered(t, a) == Reordered(t, b) {
          SameShown(t, a, b);
        }
        if forall i :: 0 <= i < |t| ==> (Shows(t[i].name, a) <==> Shows(t[i].name, b)) {
          FrontExact(x, t, a, b);
        }
      }
    }
  }

  lemma SameShown(dn: seq<Attribute>, a: seq<string>, b: seq<string>)
    requires Reordered(dn, a) == Reordered(dn, b)
    ensures forall i :: 0 <= i < |dn| ==> (Shows(dn[i].name, a) <==> Shows(dn[i].name, b))
  {
    forall i | 0 <= i < |dn| ensures Shows(dn[i].name, a) <==> Shows(dn[i].name, b) {
      InReordered(dn, a, dn[i]);
      InReordered(dn, b, dn[i]);
    }
  }

  lemma NothingToShow(order: seq<string>)
    ensures Reordered([], order) == []
  {
    if Reordered([], order) != [] {
      InReordered([], order, Reordered([], order)[0]);
      assert false;
    }
  }

  // ---------- Any two orders

  function NamesOf(dn: seq<Attribute>): (r: seq<string>)
    ensures |r| == |dn|
  {
    seq(|dn|, i requires 0 <= i < |dn| => dn[i].name)
  }

  // Attributes with these names, and nothing else
  function Blanked(names: seq<string>): (r: seq<Attribute>)
    ensures |r| == |names|
  {
    seq(|names|, i requires 0 <= i < |names| => Attribute(names[i], ""))
  }

  // The names that an order shows for attributes with these names
  function Layout(names: seq<string>, order: seq<string>): seq<string> {
    NamesOf(Reordered(Blanked(names), order))
  }

  function WithoutValues(dn: seq<Attribute>): seq<Attribute> {
    Blanked(NamesOf(dn))
  }

  lemma BlankConcat(a: seq<Attribute>, b: seq<Attribute>)
    ensures WithoutValues(a + b) == WithoutValues(a) + WithoutValues(b)
  {
  }

  lemma BlankSplits(dn: seq<Attribute>)
    requires dn != []
    ensures WithoutValues(dn)[0] == Attribute(dn[0].name, "") && WithoutValues(dn)[1..] == WithoutValues(dn[1..])
  {
  }

  lemma {:induction false} BlankNamed(dn: seq<Attribute>, name: string)
    ensures Named(WithoutValues(dn), name) == WithoutValues(Named(dn, name))
  {
    if dn != [] {
      BlankSplits(dn);
      BlankNamed(dn[1..], name);
      BlankConcat(if dn[0].name == name then [dn[0]] else [], Named(dn[1..], name));
    }
  }

  lemma {:induction false} BlankUnknown(dn: seq<Attribute>, order: seq<string>)
    ensures Unknown(WithoutValues(dn), order) == WithoutValues(Unknown(dn, order))
  {
    if dn != [] {
      BlankSplits(dn);
      BlankUnknown(dn[1..], order);
      BlankConcat(if dn[0].name !in order then [dn[0]] else [], Unknown(dn[1..], order));
    }
  }

  lemma {:induction false} BlankArrange(dn: seq<Attribute>, unknown: seq<Attribute>, order: seq<string>)
    ensures Arrange(WithoutValues(dn), WithoutValues(unknown), order) == WithoutValues(Arrange(dn, unknown, order))
    decreases |order|
  {
    if order != [] {
      if order[0] == REST {
        BlankArrange(dn, [], order[1..]);
        BlankConcat(unknown, Arrange(dn, [], order[1..]));
      } else {
        BlankNamed(dn, order[0]);
        BlankArrange(dn, unknown, order[1..]);
        BlankConcat(Named(dn, order[0]), Arrange(dn, unknown, order[1..]));
      }
    }
  }

  // The values play no part in where an attribute goes.
  lemma NamesOfReordered(dn: seq<Attribute>, order: seq<string>)
    ensures NamesOf(Reordered(dn, order)) == Layout(NamesOf(dn), order)
  {
    BlankUnknown(dn, order);
    BlankArrange(dn, Unknown(dn, order), order);
    assert NamesOf(WithoutValues(Reordered(dn, order))) == NamesOf(Reordered(dn, order));
  }

  // A list is determined by its names and, for each name, the attributes with it.
  lemma {:induction false} NamesAndGroupsDetermine(r: seq<Attribute>, s: seq<Attribute>)
    requires NamesOf(r) == NamesOf(s) && forall n :: Named(r, n) == Named(s, n)
    ensures r == s
  {
    if r != [] {
      var x, y := r[0], s[0];
      assert x.name == NamesOf(r)[0] == NamesOf(s)[0] == y.name;
      assert x == Named(r, x.name)[0] == Named(s, x.name)[0] == y;
      assert NamesOf(r[1..]) == NamesOf(r)[1..] == NamesOf(s)[1..] == NamesOf(s[1..]);
      forall n ensures Named(r[1..], n) == Named(s[1..], n) {
        var head := if x.name == n then [x] else [];
        assert head + Named(r[1..], n) == Named(r, n) == Named(s, n) == head + Named(s[1..], n);
        assert Named(r[1..], n) == Named(r, n)[|head|..] && Named(s[1..], n) == Named(s, n)[|head|..];
      }
      NamesAndGroupsDetermine(r[1..], s[1..]);
    }
  }

  lemma {:induction false} NamedLength(r: seq<Attribute>, n: string)
    ensures |Named(r, n)| == |Named(WithoutValues(r), n)|
  {
    BlankNamed(r, n);
  }

  lemma SameGroups(dn: seq<Attribute>, a: seq<string>, b: seq<string>, n: string)
    requires NamesOf(Reordered(dn, a)) == NamesOf(Reordered(dn, b))
    ensures Named(Reordered(dn, a), n) == Named(Reordered(dn, b), n)
  {
    var g, j, k := Named(dn, n), Appearances(n, a), Appearances(n, b);
    GroupsAreKept(dn, a, n);
    GroupsAreKept(dn, b, n);
    NamedLength(Reordered(dn, a), n);
    NamedLength(Reordered(dn, b), n);
    TimesLength(g, j);
    TimesLength(g, k);
    if g == [] {
      TimesOfNothing(j);
      TimesOfNothing(k);
    } else {
      SameFactor(|g|, j, k);
    }
  }

  lemma {:induction false} TimesOfNothing(k: nat)
    ensures Times([], k) == []
  {
    if k > 0 {
      TimesOfNothing(k - 1);
    }
  }

  lemma SameFactor(m: nat, j: nat, k: nat)
    requires m > 0 && m * j == m * k
    ensures j == k
  {
    assert m * (j - k) == 0;
  }

  // Any two orders show dn in the same way if and only if they lay out its names in the same
  // way.
  lemma {:induction false} SameLayoutExact(dn: seq<Attribute>, a: seq<string>, b: seq<string>)
    ensures Reordered(dn, a) == Reordered(dn, b) <==> Layout(NamesOf(dn), a) == Layout(NamesOf(dn), b)
  {
    NamesOfReordered(dn, a);
    NamesOfReordered(dn, b);
    if NamesOf(Reordered(dn, a)) == NamesOf(Reordered(dn, b)) {
      forall n ensures Named(Reordered(dn, a), n) == Named(Reordered(dn, b), n) {
        SameGroups(dn, a, b, n);
      }
      NamesAndGroupsDetermine(Reordered(dn, a), Reordered(dn, b));
    }
  }

  // Orders that show dn alike. This is seen from the names alone, and for orders without
  // duplicates from their places.
  predicate Agree(dn: seq<Attribute>, a: seq<string>, b: seq<string>) {
    if NoDuplicates(a) && NoDuplicates(b) then SameRanking(dn, a, b)
    else Layout(NamesOf(dn), a) == Layout(NamesOf(dn), b)
  }

  lemma {:induction false} AgreeExact(dn: seq<Attribute>, a: seq<string>, b: seq<string>)
    ensures Agree(dn, a, b) <==> Reordered(dn, a) == Reordered(dn, b)
  {
    if NoDuplicates(a) && NoDuplicates(b) {
      SameListExact(dn, a, b);
    } else {
      SameLayoutExact(dn, a, b);
    }
  }
}
