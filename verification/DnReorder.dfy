// Reordering the attributes of a distinguished name (reorder_dn in src/dn.cpp).

module DnReorder {
  import opened Text
  import opened DnPrinter

  // In an order, this name stands for all attributes that the order does not name.
  const REST := "_X_"

  // The attributes with one name, in their order
  function Named(dn: seq<Attribute>, name: string): seq<Attribute> {
    if dn == [] then []
    else (if dn[0].name == name then [dn[0]] else []) + Named(dn[1..], name)
  }

  // The attributes that the order does not name
  function Unknown(dn: seq<Attribute>, order: seq<string>): seq<Attribute> {
    if dn == [] then []
    else (if dn[0].name !in order then [dn[0]] else []) + Unknown(dn[1..], order)
  }

  // What the order makes of dn; the unknown attributes are used up by the first REST.
  function Arrange(dn: seq<Attribute>, unknown: seq<Attribute>, order: seq<string>): seq<Attribute>
    decreases |order|
  {
    if order == [] then []
    else if order[0] == REST then unknown + Arrange(dn, [], order[1..])
    else Named(dn, order[0]) + Arrange(dn, unknown, order[1..])
  }

  function Reordered(dn: seq<Attribute>, order: seq<string>): seq<Attribute> {
    Arrange(dn, Unknown(dn, order), order)
  }

  lemma {:induction false} NamedConcat(a: seq<Attribute>, b: seq<Attribute>, name: string)
    ensures Named(a + b, name) == Named(a, name) + Named(b, name)
  {
    if a == [] {
      assert a + b == b;
    } else {
      assert (a + b)[1..] == a[1..] + b;
      NamedConcat(a[1..], b, name);
      ConcatAssociates(if a[0].name == name then [a[0]] else [], Named(a[1..], name), Named(b, name));
    }
  }

  lemma {:induction false} UnknownConcat(a: seq<Attribute>, b: seq<Attribute>, order: seq<string>)
    ensures Unknown(a + b, order) == Unknown(a, order) + Unknown(b, order)
  {
    if a == [] {
      assert a + b == b;
    } else {
      assert (a + b)[1..] == a[1..] + b;
      UnknownConcat(a[1..], b, order);
      ConcatAssociates(if a[0].name !in order then [a[0]] else [], Unknown(a[1..], order), Unknown(b, order));
    }
  }

  method ReorderDn(dn: seq<Attribute>, attrOrder: seq<string>) returns (result: seq<Attribute>)
    ensures result == Reordered(dn, attrOrder)
  {
    var unknownEntries: seq<Attribute> := [];
    for i := 0 to |dn|
      invariant unknownEntries == Unknown(dn[..i], attrOrder)
    {
      UnknownConcat(dn[..i], [dn[i]], attrOrder);
      assert dn[..i + 1] == dn[..i] + [dn[i]];
      if dn[i].name !in attrOrder {
        unknownEntries := unknownEntries + [dn[i]];
      }
    }
    assert dn[..|dn|] == dn;

    result := [];
    for o := 0 to |attrOrder|
      invariant result + Arrange(dn, unknownEntries, attrOrder[o..]) == Reordered(dn, attrOrder)
    {
      ghost var before := result;
      assert attrOrder[o..][1..] == attrOrder[o + 1..];
      if attrOrder[o] == REST {
        ConcatAssociates(before, unknownEntries, Arrange(dn, [], attrOrder[o + 1..]));
        result := result + unknownEntries;
        unknownEntries := [];
      } else {
        for i := 0 to |dn|
          invariant result == before + Named(dn[..i], attrOrder[o])
        {
          NamedConcat(dn[..i], [dn[i]], attrOrder[o]);
          assert dn[..i + 1] == dn[..i] + [dn[i]];
          if dn[i].name == attrOrder[o] {
            result := result + [dn[i]];
          }
        }
        assert dn[..|dn|] == dn;
        ConcatAssociates(before, Named(dn, attrOrder[o]), Arrange(dn, unknownEntries, attrOrder[o + 1..]));
      }
    }
    assert result + [] == result;
  }

  // ---------- What becomes of each attribute

  // How often the attributes with this name appear in the result
  function Appearances(name: string, order: seq<string>): nat {
    if name == REST then 0
    else if name in order then multiset(order)[name]
    else if REST in order then 1
    else 0
  }

  function Times(s: seq<Attribute>, k: nat): seq<Attribute> {
    if k == 0 then [] else s + Times(s, k - 1)
  }

  lemma {:induction false} TimesLength(s: seq<Attribute>, k: nat)
    ensures |Times(s, k)| == |s| * k
  {
    if k > 0 {
      TimesLength(s, k - 1);
      MultiplyStep(|s|, k);
    }
  }

  lemma MultiplyStep(m: nat, k: nat)
    requires k > 0
    ensures m + m * (k - 1) == m * k
  {
  }

  lemma {:induction false} NamedOfNamed(dn: seq<Attribute>, m: string, n: string)
    ensures Named(Named(dn, m), n) == if m == n then Named(dn, n) else []
  {
    if dn != [] {
      NamedConcat(if dn[0].name == m then [dn[0]] else [], Named(dn[1..], m), n);
      NamedOfNamed(dn[1..], m, n);
    }
  }

  lemma {:induction false} NamedOfUnknown(dn: seq<Attribute>, order: seq<string>, n: string)
    ensures Named(Unknown(dn, order), n) == if n in order then [] else Named(dn, n)
  {
    if dn != [] {
      NamedConcat(if dn[0].name !in order then [dn[0]] else [], Unknown(dn[1..], order), n);
      NamedOfUnknown(dn[1..], order, n);
    }
  }

  lemma {:induction false} NamedOfArrange(dn: seq<Attribute>, unknown: seq<Attribute>, order: seq<string>, n: string)
    requires Named(unknown, n) == [] || n !in order
    ensures Named(Arrange(dn, unknown, order), n) ==
            if n == REST then (if REST in order then Named(unknown, n) else [])
            else if n in order then Times(Named(dn, n), multiset(order)[n])
            else if REST in order then Named(unknown, n)
            else []
    decreases |order|
  {
    if order != [] {
      var tail := order[1..];
      CountSplits(order, n);
      if order[0] == REST {
        NamedConcat(unknown, Arrange(dn, [], tail), n);
        NamedOfArrange(dn, [], tail, n);
      } else {
        NamedConcat(Named(dn, order[0]), Arrange(dn, unknown, tail), n);
        NamedOfNamed(dn, order[0], n);
        NamedOfArrange(dn, unknown, tail, n);
      }
    }
  }

  lemma CountSplits(order: seq<string>, n: string)
    requires order != []
    ensures multiset(order)[n] == multiset(order[1..])[n] + if order[0] == n then 1 else 0
    ensures n in order <==> n == order[0] || n in order[1..]
    ensures n !in order[1..] ==> multiset(order[1..])[n] == 0
  {
    assert order == [order[0]] + order[1..];
  }

  // For every name, the attributes with it appear together in their old order, as many
  // times over as the order says.
  lemma GroupsAreKept(dn: seq<Attribute>, order: seq<string>, name: string)
    ensures Named(Reordered(dn, order), name) == Times(Named(dn, name), Appearances(name, order))
  {
    NamedOfUnknown(dn, order, name);
    NamedOfArrange(dn, Unknown(dn, order), order, name);
    assert Times(Named(dn, name), 1) == Named(dn, name);
  }

  // ---------- When nothing is lost or doubled

  lemma {:induction false} CountOfNamed(s: seq<Attribute>, a: Attribute)
    ensures multiset(s)[a] == multiset(Named(s, a.name))[a]
  {
    if s != [] {
      assert s == [s[0]] + s[1..];
      CountOfNamed(s[1..], a);
    }
  }

  lemma {:induction false} CountOfTimes(s: seq<Attribute>, k: nat, a: Attribute)
    ensures multiset(Times(s, k))[a] == multiset(s)[a] * k
  {
    if k > 0 {
      CountOfTimes(s, k - 1, a);
      MultiplyStep(multiset(s)[a], k);
      assert multiset(Times(s, k)) == multiset(s) + multiset(Times(s, k - 1));
    }
  }

  // Each attribute comes out as often as it went in, times its appearances.
  lemma Multiplicity(dn: seq<Attribute>, order: seq<string>, a: Attribute)
    ensures multiset(Reordered(dn, order))[a] == multiset(dn)[a] * Appearances(a.name, order)
  {
    GroupsAreKept(dn, order, a.name);
    CountOfNamed(dn, a);
    CountOfNamed(Reordered(dn, order), a);
    CountOfTimes(Named(dn, a.name), Appearances(a.name, order), a);
  }

  // Reordering is a permutation if and only if the order accounts for every attribute
  // exactly once.
  lemma PermutationExact(dn: seq<Attribute>, order: seq<string>)
    ensures multiset(Reordered(dn, order)) == multiset(dn)
       <==> forall a :: a in dn ==> Appearances(a.name, order) == 1
  {
    var r := Reordered(dn, order);
    if forall a :: a in dn ==> Appearances(a.name, order) == 1 {
      forall a: Attribute ensures multiset(r)[a] == multiset(dn)[a] {
        Multiplicity(dn, order, a);
        if a !in dn {
          assert multiset(dn)[a] == 0;
        }
      }
      assert multiset(r) == multiset(dn);
    }
    if multiset(r) == multiset(dn) {
      forall a | a in dn ensures Appearances(a.name, order) == 1 {
        Multiplicity(dn, order, a);
        OnlyOneKeeps(multiset(dn)[a], Appearances(a.name, order));
      }
    }
  }

  lemma OnlyOneKeeps(m: nat, k: nat)
    requires m > 0 && m == m * k
    ensures k == 1
  {
    assert m * (k - 1) == 0;
  }

  lemma {:induction false} UnknownOfNamed(dn: seq<Attribute>, name: string, order: seq<string>)
    requires name in order
    ensures Unknown(Named(dn, name), order) == []
  {
    if dn != [] {
      UnknownConcat(if dn[0].name == name then [dn[0]] else [], Named(dn[1..], name), order);
      UnknownOfNamed(dn[1..], name, order);
    }
  }

  lemma {:induction false} UnknownTwice(dn: seq<Attribute>, order: seq<string>)
    ensures Unknown(Unknown(dn, order), order) == Unknown(dn, order)
  {
    if dn != [] {
      UnknownConcat(if dn[0].name !in order then [dn[0]] else [], Unknown(dn[1..], order), order);
      UnknownTwice(dn[1..], order);
    }
  }

  lemma {:induction false} UnknownOfArrange(
      dn: seq<Attribute>, unknown: seq<Attribute>, part: seq<string>, order: seq<string>)
    requires forall name :: name in part ==> name in order
    ensures Unknown(Arrange(dn, unknown, part), order) == if REST in part then Unknown(unknown, order) else []
    decreases |part|
  {
    if part != [] {
      var tail := part[1..];
      assert part == [part[0]] + tail;
      if part[0] == REST {
        UnknownConcat(unknown, Arrange(dn, [], tail), order);
        UnknownOfArrange(dn, [], tail, order);
      } else {
        UnknownConcat(Named(dn, part[0]), Arrange(dn, unknown, tail), order);
        UnknownOfNamed(dn, part[0], order);
        UnknownOfArrange(dn, unknown, tail, order);
      }
    }
  }

  // The unknown attributes keep their order among themselves, or all go.
  lemma UnknownAreKept(dn: seq<Attribute>, order: seq<string>)
    ensures Unknown(Reordered(dn, order), order) == if REST in order then Unknown(dn, order) else []
  {
    UnknownOfArrange(dn, Unknown(dn, order), order, order);
    UnknownTwice(dn, order);
  }

  lemma {:induction false} ArrangeDependsOnGroups(
      a: seq<Attribute>, b: seq<Attribute>, u: seq<Attribute>, v: seq<Attribute>, order: seq<string>)
    requires forall name :: name in order && name != REST ==> Named(a, name) == Named(b, name)
    requires REST in order ==> u == v
    ensures Arrange(a, u, order) == Arrange(b, v, order)
    decreases |order|
  {
    if order != [] {
      assert order[0] in order;
      if order[0] == REST {
        ArrangeDependsOnGroups(a, b, [], [], order[1..]);
      } else {
        ArrangeDependsOnGroups(a, b, u, v, order[1..]);
      }
    }
  }

  lemma {:induction false} NamedNonEmpty(dn: seq<Attribute>, name: string)
    ensures Named(dn, name) != [] <==> exists a :: a in dn && a.name == name
  {
    if dn != [] {
      NamedNonEmpty(dn[1..], name);
      if dn[0].name == name {
        assert dn[0] in dn;
      }
    }
  }

  // Reordering a second time changes nothing if and only if no attribute was doubled.
  lemma IdempotentExact(dn: seq<Attribute>, order: seq<string>)
    ensures Reordered(Reordered(dn, order), order) == Reordered(dn, order)
       <==> forall a :: a in dn ==> Appearances(a.name, order) <= 1
  {
    var r := Reordered(dn, order);
    if forall a :: a in dn ==> Appearances(a.name, order) <= 1 {
      forall name | name in order && name != REST ensures Named(r, name) == Named(dn, name) {
        GroupsAreKept(dn, order, name);
        NamedNonEmpty(dn, name);
        if Named(dn, name) == [] {
          TimesLength([], Appearances(name, order));
        } else {
          assert Appearances(name, order) == 1;
          assert Times(Named(dn, name), 1) == Named(dn, name);
        }
      }
      UnknownAreKept(dn, order);
      ArrangeDependsOnGroups(r, dn, Unknown(r, order), Unknown(dn, order), order);
    }
    if Reordered(r, order) == r {
      forall a | a in dn ensures Appearances(a.name, order) <= 1 {
        var k := Appearances(a.name, order);
        GroupsAreKept(dn, order, a.name);
        GroupsAreKept(r, order, a.name);
        NamedNonEmpty(dn, a.name);
        TimesLength(Named(dn, a.name), k);
        TimesLength(Named(r, a.name), k);
        if k > 1 {
          OnlyOneKeeps(|Named(dn, a.name)| * k, k);
        }
      }
    }
  }

  // ---------- The order of the groups

  // The place that the order gives to a name
  function Rank(name: string, order: seq<string>): nat {
    IndexOf(order, if name in order then name else REST)
  }

  predicate RankedFrom(s: seq<Attribute>, order: seq<string>, k: nat) {
    && (forall i :: 0 <= i < |s| ==> k <= Rank(s[i].name, order))
    && (forall i, j :: 0 <= i < j < |s| ==> Rank(s[i].name, order) <= Rank(s[j].name, order))
  }

  predicate NoDuplicates(order: seq<string>) {
    forall i, j :: 0 <= i < j < |order| ==> order[i] != order[j]
  }

  lemma {:induction false} NamedHasName(dn: seq<Attribute>, name: string)
    ensures forall a :: a in Named(dn, name) ==> a.name == name
  {
    if dn != [] {
      NamedHasName(dn[1..], name);
    }
  }

  lemma {:induction false} UnknownIsUnknown(dn: seq<Attribute>, order: seq<string>)
    ensures forall a :: a in Unknown(dn, order) ==> a.name !in order
  {
    if dn != [] {
      UnknownIsUnknown(dn[1..], order);
    }
  }

  lemma RankOfPlace(order: seq<string>, k: nat)
    requires NoDuplicates(order) && k < |order|
    ensures IndexOf(order, order[k]) == k
  {
    IndexOfUnique(order, order[k], k);
  }

  lemma RankedConcat(group: seq<Attribute>, tail: seq<Attribute>, order: seq<string>, k: nat)
    requires forall a :: a in group ==> Rank(a.name, order) == k
    requires RankedFrom(tail, order, k + 1)
    ensures RankedFrom(group + tail, order, k)
  {
    var s := group + tail;
    forall i | 0 <= i < |group| ensures Rank(s[i].name, order) == k {
      assert s[i] == group[i] && group[i] in group;
    }
  }

  lemma {:induction false} ArrangeIsRanked(
      dn: seq<Attribute>, unknown: seq<Attribute>, order: seq<string>, k: nat)
    requires NoDuplicates(order) && k <= |order|
    requires forall a :: a in unknown ==> a.name !in order
    ensures RankedFrom(Arrange(dn, unknown, order[k..]), order, k)
    decreases |order| - k
  {
    if k < |order| {
      assert order[k..][0] == order[k] && order[k..][1..] == order[k + 1..];
      RankOfPlace(order, k);
      if order[k] == REST {
        ArrangeIsRanked(dn, [], order, k + 1);
        RankedConcat(unknown, Arrange(dn, [], order[k + 1..]), order, k);
      } else {
        NamedHasName(dn, order[k]);
        ArrangeIsRanked(dn, unknown, order, k + 1);
        RankedConcat(Named(dn, order[k]), Arrange(dn, unknown, order[k + 1..]), order, k);
      }
    }
  }

  // For an order without duplicates the result is sorted by it, unknown attributes at REST.
  lemma ResultIsSorted(dn: seq<Attribute>, order: seq<string>)
    requires NoDuplicates(order)
    ensures RankedFrom(Reordered(dn, order), order, 0)
  {
    UnknownIsUnknown(dn, order);
    assert order[0..] == order;
    ArrangeIsRanked(dn, Unknown(dn, order), order, 0);
  }
}
