// Merging the public and the secret key list (src/qgpgmelistallkeysjob.cpp).

module KeyMerge {
  import opened Text

  // A key: the place of its fingerprint in the order that the library compares by, and
  // whatever else it holds. Merging is a library operation: any one that keeps the fingerprint.
  datatype Key = Key(fpr: int, details: string)

  type Merger = (Key, Key) -> Key

  ghost predicate KeepsFingerprint(m: Merger) {
    forall a, b :: m(a, b).fpr == a.fpr
  }

  predicate Sorted(s: seq<Key>) {
    forall i, j :: 0 <= i < j < |s| ==> s[i].fpr <= s[j].fpr
  }

  predicate StrictlySorted(s: seq<Key>) {
    forall i, j :: 0 <= i < j < |s| ==> s[i].fpr < s[j].fpr
  }

  // std::merge: stable, and the first range goes first among equals
  function StdMerge(a: seq<Key>, b: seq<Key>): (r: seq<Key>)
    ensures |r| == |a| + |b|
  {
    if a == [] then b
    else if b == [] then a
    else if b[0].fpr < a[0].fpr then [b[0]] + StdMerge(a, b[1..])
    else [a[0]] + StdMerge(a[1..], b)
  }

  // Every key merged into the one before it as long as the fingerprints agree
  function Compress(s: seq<Key>, m: Merger): seq<Key>
    decreases |s|
  {
    if |s| < 2 then s
    else if s[0].fpr == s[1].fpr then Compress([m(s[0], s[1])] + s[2..], m)
    else [s[0]] + Compress(s[1..], m)
  }

  // std::adjacent_find: the first place with the same fingerprint as the next one
  function AdjacentFind(s: seq<Key>): (i: nat)
    ensures i <= |s|
    ensures i < |s| ==> i + 1 < |s| && s[i].fpr == s[i + 1].fpr
  {
    if |s| < 2 then |s|
    else if s[0].fpr == s[1].fpr then 0
    else
      var i := AdjacentFind(s[1..]);
      1 + i
  }

  lemma FirstBehindHead(s: seq<Key>, t: seq<Key>, j: nat)
    requires s != [] && t == s[1..] && j <= |t|
    ensures s[..j + 1] == [s[0]] + t[..j] && s[j + 1..] == t[j..]
  {
  }

  lemma {:induction false} CompressSkips(s: seq<Key>, m: Merger)
    ensures var i := AdjacentFind(s);
            Compress(s, m) == s[..i] + Compress(s[i..], m)
  {
    var i := AdjacentFind(s);
    if |s| < 2 {
      assert s[..i] + [] == s && s[i..] == [];
    } else if i == 0 {
      assert s[..i] == [] && s[i..] == s;
    } else {
      var t := s[1..];
      var j := AdjacentFind(t);
      CompressSkips(t, m);
      FirstBehindHead(s, t, j);
      ConcatAssociates([s[0]], t[..j], Compress(t[j..], m));
    }
  }

  // In place, with two cursors: dest trails first.
  method UniqueByMerge(a: array<Key>, m: Merger) returns (end: nat)
    modifies a
    ensures end <= a.Length
    ensures a[..end] == Compress(old(a[..]), m)
  {
    ghost var s := a[..];
    var first := AdjacentFind(a[..]);
    CompressSkips(s, m);
    if first == a.Length {
      assert s[..first] == s;
      return a.Length;
    }
    var dest := first;
    first := first + 1;
    CompressStart(s, dest, m);
    a[dest] := m(a[dest], a[first]);
    first := first + 1;
    assert a[..dest] == s[..dest] && a[first..] == s[first..];
    end := MergeRuns(a, dest, first, m);
  }

  // The loop: dest is the last key kept so far, and first the next one to look at.
  method MergeRuns(a: array<Key>, dest0: nat, first0: nat, m: Merger) returns (end: nat)
    requires dest0 < first0 <= a.Length
    modifies a
    ensures end <= a.Length
    ensures a[..end] == old(a[..dest0]) + Compress([old(a[dest0])] + old(a[first0..]), m)
  {
    ghost var s, done := a[..], a[..dest0];
    var dest, first := dest0, first0;
    while first != a.Length
      invariant 0 <= dest < first <= a.Length
      invariant a[first..] == s[first..]
      invariant a[..dest] == done
      invariant done + Compress([a[dest]] + s[first..], m) == old(a[..dest0]) + Compress([s[dest0]] + s[first0..], m)
      decreases a.Length - first
    {
      assert a[first] == s[first] && a[first + 1..] == s[first + 1..];
      CompressStep(s, first, done, a[dest], m);
      if a[dest].fpr == a[first].fpr {
        a[dest] := m(a[dest], a[first]);
      } else {
        done := done + [a[dest]];
        dest := dest + 1;
        a[dest] := a[first];
      }
      first := first + 1;
    }
    end := dest + 1;
    CompressEnd(s, first, a[dest], m);
  }

  lemma CompressEnd(s: seq<Key>, first: nat, x: Key, m: Merger)
    requires first == |s|
    ensures Compress([x] + s[first..], m) == [x]
  {
    assert [x] + s[first..] == [x];
  }

  lemma CompressStart(s: seq<Key>, i: nat, m: Merger)
    requires i + 1 < |s| && s[i].fpr == s[i + 1].fpr
    ensures Compress(s[i..], m) == Compress([m(s[i], s[i + 1])] + s[i + 2..], m)
  {
    assert s[i..][2..] == s[i + 2..];
  }

  // One turn: x stands at dest, after the finished prefix, and s[first] comes next.
  lemma CompressStep(s: seq<Key>, first: nat, prefix: seq<Key>, x: Key, m: Merger)
    requires first < |s|
    ensures prefix + Compress([x] + s[first..], m) ==
            if x.fpr == s[first].fpr then prefix + Compress([m(x, s[first])] + s[first + 1..], m)
            else prefix + [x] + Compress([s[first]] + s[first + 1..], m)
  {
    var y, tail := s[first], s[first + 1..];
    assert s[first..] == [y] + tail;
    CompressTwo(x, y, tail, m);
    ConcatAssociates(prefix, [x], Compress([y] + tail, m));
  }

  lemma CompressTwo(x: Key, y: Key, tail: seq<Key>, m: Merger)
    ensures Compress([x] + ([y] + tail), m) ==
            if x.fpr == y.fpr then Compress([m(x, y)] + tail, m)
            else [x] + Compress([y] + tail, m)
  {
    var s := [x] + ([y] + tail);
    assert s[2..] == tail && s[1..] == [y] + tail;
  }

  method MergeKeys(pub: seq<Key>, sec: seq<Key>, m: Merger) returns (merged: seq<Key>)
    ensures merged == Compress(StdMerge(pub, sec), m)
  {
    var all := StdMerge(pub, sec);
    var a := new Key[|all|](i requires 0 <= i < |all| => all[i]);
    assert a[..] == all;
    var end := UniqueByMerge(a, m);
    merged := a[..end];
  }

  // ---------- What the merged list holds

  // The keys with one fingerprint, in their order
  function Group(s: seq<Key>, f: int): seq<Key> {
    if s == [] then []
    else if s[0].fpr == f then [s[0]] + Group(s[1..], f)
    else Group(s[1..], f)
  }

  function FoldLeft(x: Key, s: seq<Key>, m: Merger): Key
    decreases |s|
  {
    if s == [] then x else FoldLeft(m(x, s[0]), s[1..], m)
  }

  // One key made of all in the group, or nothing
  function MergedGroup(g: seq<Key>, m: Merger): seq<Key> {
    if g == [] then [] else [FoldLeft(g[0], g[1..], m)]
  }

  lemma {:induction false} NoSmallerGroup(s: seq<Key>, f: int)
    requires forall i :: 0 <= i < |s| ==> f < s[i].fpr
    ensures Group(s, f) == []
  {
    if s != [] {
      NoSmallerGroup(s[1..], f);
    }
  }

  // Merging keeps every group together, public keys first.
  lemma {:induction false} GroupsOfMerge(a: seq<Key>, b: seq<Key>, f: int)
    requires Sorted(a) && Sorted(b)
    ensures Group(StdMerge(a, b), f) == Group(a, f) + Group(b, f)
  {
    if a == [] {
      assert [] + Group(b, f) == Group(b, f);
    } else if b == [] {
      assert Group(a, f) + [] == Group(a, f);
    } else if b[0].fpr < a[0].fpr {
      GroupsOfMerge(a, b[1..], f);
      SecondGoesFirst(a, b, f);
    } else {
      GroupsOfMerge(a[1..], b, f);
      FirstGoesFirst(a, b, f);
    }
  }

  lemma SecondGoesFirst(a: seq<Key>, b: seq<Key>, f: int)
    requires Sorted(a) && a != [] && b != [] && b[0].fpr < a[0].fpr
    requires Group(StdMerge(a, b[1..]), f) == Group(a, f) + Group(b[1..], f)
    ensures Group(StdMerge(a, b), f) == Group(a, f) + Group(b, f)
  {
    GroupCons(b[0], StdMerge(a, b[1..]), f);
    if b[0].fpr == f {
      NoSmallerGroup(a, f);
      assert [] + Group(b[1..], f) == Group(b[1..], f);
    }
  }

  lemma FirstGoesFirst(a: seq<Key>, b: seq<Key>, f: int)
    requires a != [] && b != [] && a[0].fpr <= b[0].fpr
    requires Group(StdMerge(a[1..], b), f) == Group(a[1..], f) + Group(b, f)
    ensures Group(StdMerge(a, b), f) == Group(a, f) + Group(b, f)
  {
    GroupCons(a[0], StdMerge(a[1..], b), f);
    ConcatAssociates([a[0]], Group(a[1..], f), Group(b, f));
  }

  lemma GroupCons(k: Key, s: seq<Key>, f: int)
    ensures Group([k] + s, f) == if k.fpr == f then [k] + Group(s, f) else Group(s, f)
  {
    assert ([k] + s)[1..] == s;
  }

  lemma {:induction false} MergeIsSorted(a: seq<Key>, b: seq<Key>)
    requires Sorted(a) && Sorted(b)
    ensures Sorted(StdMerge(a, b))
    ensures forall k :: k in StdMerge(a, b) ==> k in a || k in b
  {
    if a != [] && b != [] {
      if b[0].fpr < a[0].fpr {
        MergeIsSorted(a, b[1..]);
        HeadFirst(b[0], StdMerge(a, b[1..]));
      } else {
        MergeIsSorted(a[1..], b);
        HeadFirst(a[0], StdMerge(a[1..], b));
      }
    }
  }

  lemma HeadFirst(k: Key, s: seq<Key>)
    requires Sorted(s) && forall x :: x in s ==> k.fpr <= x.fpr
    ensures Sorted([k] + s)
  {
    var r := [k] + s;
    forall i, j | 0 <= i < j < |r| ensures r[i].fpr <= r[j].fpr {
      assert r[j] == s[j - 1] && s[j - 1] in s;
    }
  }

  // Compressing a sorted list leaves one key for each group: its left fold.
  lemma {:induction false} CompressFolds(s: seq<Key>, m: Merger, f: int)
    requires Sorted(s) && KeepsFingerprint(m)
    ensures Group(Compress(s, m), f) == MergedGroup(Group(s, f), m)
    decreases |s|
  {
    if |s| < 2 {
      GroupOfFew(s, f, m);
    } else if s[0].fpr == s[1].fpr {
      var x := m(s[0], s[1]);
      var t := [x] + s[2..];
      assert x.fpr == s[0].fpr;
      CompressFolds(t, m, f);
      GroupMergesHead(s, x, m, f);
    } else {
      var tail := s[1..];
      CompressFolds(tail, m, f);
      assert ([s[0]] + Compress(tail, m))[1..] == Compress(tail, m);
      if s[0].fpr == f {
        NoSmallerGroup(tail, f);
        assert Group(s, f) == [s[0]] + [];
        assert MergedGroup([s[0]], m) == [s[0]];
      }
    }
  }

  lemma GroupOfFew(s: seq<Key>, f: int, m: Merger)
    requires |s| < 2
    ensures Group(s, f) == MergedGroup(Group(s, f), m)
  {
  }

  lemma GroupMergesHead(s: seq<Key>, x: Key, m: Merger, f: int)
    requires |s| >= 2 && s[0].fpr == s[1].fpr == x.fpr && x == m(s[0], s[1])
    ensures MergedGroup(Group([x] + s[2..], f), m) == MergedGroup(Group(s, f), m)
  {
    var rest := Group(s[2..], f);
    var t := [x] + s[2..];
    assert t[1..] == s[2..] && s[1..][1..] == s[2..];
    if x.fpr == f {
      var g := [s[0]] + ([s[1]] + rest);
      assert Group(s, f) == g && Group(t, f) == [x] + rest;
      assert g[1..] == [s[1]] + rest && g[1..][1..] == rest && ([x] + rest)[1..] == rest;
    }
  }

  lemma {:induction false} CompressIsStrict(s: seq<Key>, m: Merger)
    requires Sorted(s) && KeepsFingerprint(m)
    ensures StrictlySorted(Compress(s, m))
    ensures s != [] ==> Compress(s, m) != [] && Compress(s, m)[0].fpr == s[0].fpr
    decreases |s|
  {
    if |s| >= 2 {
      if s[0].fpr == s[1].fpr {
        CompressIsStrict([m(s[0], s[1])] + s[2..], m);
      } else {
        var r := Compress(s[1..], m);
        CompressIsStrict(s[1..], m);
        forall i, j | 0 <= i < j < |[s[0]] + r| ensures ([s[0]] + r)[i].fpr < ([s[0]] + r)[j].fpr {
          if i == 0 {
            assert r[0].fpr <= r[j - 1].fpr;
          }
        }
      }
    }
  }

  // From sorted lists: strictly increasing fingerprints, and for every fingerprint one key,
  // the left fold over all public and then all secret keys that have it.
  lemma MergedList(pub: seq<Key>, sec: seq<Key>, m: Merger)
    requires Sorted(pub) && Sorted(sec) && KeepsFingerprint(m)
    ensures var merged := Compress(StdMerge(pub, sec), m);
            StrictlySorted(merged) &&
            forall f :: Group(merged, f) == MergedGroup(Group(pub, f) + Group(sec, f), m)
  {
    MergeIsSorted(pub, sec);
    CompressIsStrict(StdMerge(pub, sec), m);
    forall f ensures Group(Compress(StdMerge(pub, sec), m), f) == MergedGroup(Group(pub, f) + Group(sec, f), m) {
      CompressFolds(StdMerge(pub, sec), m, f);
      GroupsOfMerge(pub, sec, f);
    }
  }

  lemma {:induction false} GroupMembers(s: seq<Key>, f: int)
    ensures Group(s, f) != [] <==> exists k :: k in s && k.fpr == f
  {
    if s != [] {
      GroupMembers(s[1..], f);
      if s[0].fpr == f {
        assert s[0] in s;
      }
    }
  }

  // These two facts leave only one list: strictly increasing lists with the same groups
  // are equal.
  lemma {:induction false} GroupsDetermine(s: seq<Key>, t: seq<Key>)
    requires StrictlySorted(s) && StrictlySorted(t)
    requires forall f :: Group(s, f) == Group(t, f)
    ensures s == t
  {
    if s == [] {
      if t != [] {
        SameHead(t, s);
      }
    } else {
      SameHead(s, t);
      forall g ensures Group(s[1..], g) == Group(t[1..], g) {
        assert Group(s, g) == Group(t, g);
        assert s[0].fpr == g ==> Group(s, g)[1..] == Group(s[1..], g) && Group(t, g)[1..] == Group(t[1..], g);
      }
      GroupsDetermine(s[1..], t[1..]);
    }
  }

  lemma SameHead(s: seq<Key>, t: seq<Key>)
    requires StrictlySorted(s) && StrictlySorted(t) && s != []
    requires forall f :: Group(s, f) == Group(t, f)
    ensures t != [] && s[0] == t[0]
  {
    var f := s[0].fpr;
    assert Group(t, f) == Group(s, f) != [];
    var g := t[0].fpr;
    assert Group(s, g) == Group(t, g) != [];
    GroupMembers(s, g);
    GroupMembers(t, f);
    assert f == g;
    assert Group(s, f)[0] == s[0] && Group(t, f)[0] == t[0];
  }

  // ---------- Lists as they come, sorted in any way

  // std::sort may leave keys with one fingerprint in any order.
  ghost predicate IsSortOf(t: seq<Key>, s: seq<Key>) {
    Sorted(t) && multiset(t) == multiset(s)
  }

  ghost predicate Sorts(sort: seq<Key> -> seq<Key>) {
    forall s :: IsSortOf(sort(s), s)
  }

  method ListKeysLegacy(pubKeys: seq<Key>, secKeys: seq<Key>, mergeKeys: bool, sort: seq<Key> -> seq<Key>, m: Merger)
    returns (merged: seq<Key>, sec: seq<Key>)
    requires Sorts(sort)
    ensures IsSortOf(sec, secKeys) && sec == sort(secKeys)
    ensures mergeKeys ==> merged == Compress(StdMerge(sort(pubKeys), sec), m)
    ensures !mergeKeys ==> IsSortOf(merged, pubKeys)
  {
    var pub := sort(pubKeys);
    sec := sort(secKeys);
    if mergeKeys {
      merged := MergeKeys(pub, sec, m);
    } else {
      merged := pub;
    }
  }

  lemma {:induction false} CountInGroup(s: seq<Key>, f: int, k: Key)
    ensures multiset(Group(s, f))[k] == if k.fpr == f then multiset(s)[k] else 0
  {
    if s != [] {
      assert s == [s[0]] + s[1..];
      CountInGroup(s[1..], f, k);
    }
  }

  lemma GroupOfSort(t: seq<Key>, s: seq<Key>, f: int)
    requires multiset(t) == multiset(s)
    ensures multiset(Group(t, f)) == multiset(Group(s, f))
  {
    forall k: Key ensures multiset(Group(t, f))[k] == multiset(Group(s, f))[k] {
      CountInGroup(t, f, k);
      CountInGroup(s, f, k);
    }
  }

  // The key for f is the left fold over all public and then all secret keys that have it, each
  // in some order.
  ghost predicate IsMergeOf(merged: seq<Key>, f: int, pubKeys: seq<Key>, secKeys: seq<Key>, m: Merger) {
    exists p, q :: multiset(p) == multiset(Group(pubKeys, f)) && multiset(q) == multiset(Group(secKeys, f))
                   && Group(merged, f) == MergedGroup(p + q, m)
  }

  // However the lists come and are sorted, fingerprints strictly increase, and every one of
  // either list has one key, made of all keys that have it.
  lemma MergedFromAny(pubKeys: seq<Key>, secKeys: seq<Key>, sort: seq<Key> -> seq<Key>, m: Merger)
    requires Sorts(sort) && KeepsFingerprint(m)
    ensures var merged := Compress(StdMerge(sort(pubKeys), sort(secKeys)), m);
            && StrictlySorted(merged)
            && forall f :: IsMergeOf(merged, f, pubKeys, secKeys, m)
  {
    var pub, sec := sort(pubKeys), sort(secKeys);
    var merged := Compress(StdMerge(pub, sec), m);
    assert IsSortOf(pub, pubKeys) && IsSortOf(sec, secKeys);
    MergedList(pub, sec, m);
    forall f ensures IsMergeOf(merged, f, pubKeys, secKeys, m) {
      GroupOfSort(pub, pubKeys, f);
      GroupOfSort(sec, secKeys, f);
      assert Group(merged, f) == MergedGroup(Group(pub, f) + Group(sec, f), m);
    }
  }

  ghost predicate OneOfEach(s: seq<Key>) {
    forall f :: |Group(s, f)| <= 1
  }

  lemma ShortGroupIsSame(t: seq<Key>, s: seq<Key>, f: int)
    requires multiset(t) == multiset(s) && |Group(s, f)| <= 1
    ensures Group(t, f) == Group(s, f)
  {
    var g, h := Group(t, f), Group(s, f);
    GroupOfSort(t, s, f);
    assert |g| == |multiset(g)| == |multiset(h)| == |h|;
    if |h| == 1 {
      assert g == [g[0]] && h == [h[0]];
      assert g[0] in multiset(h);
    }
  }

  // Where no list has a fingerprint twice, any two ways to sort give the same result.
  lemma SortDoesNotMatter(
      pubKeys: seq<Key>, secKeys: seq<Key>, a: seq<Key> -> seq<Key>, b: seq<Key> -> seq<Key>, m: Merger)
    requires Sorts(a) && Sorts(b) && KeepsFingerprint(m) && OneOfEach(pubKeys) && OneOfEach(secKeys)
    ensures Compress(StdMerge(a(pubKeys), a(secKeys)), m) == Compress(StdMerge(b(pubKeys), b(secKeys)), m)
  {
    var x, y := Compress(StdMerge(a(pubKeys), a(secKeys)), m), Compress(StdMerge(b(pubKeys), b(secKeys)), m);
    assert IsSortOf(a(pubKeys), pubKeys) && IsSortOf(a(secKeys), secKeys);
    assert IsSortOf(b(pubKeys), pubKeys) && IsSortOf(b(secKeys), secKeys);
    MergedList(a(pubKeys), a(secKeys), m);
    MergedList(b(pubKeys), b(secKeys), m);
    forall f ensures Group(x, f) == Group(y, f) {
      ShortGroupIsSame(a(pubKeys), pubKeys, f);
      ShortGroupIsSame(a(secKeys), secKeys, f);
      ShortGroupIsSame(b(pubKeys), pubKeys, f);
      ShortGroupIsSame(b(secKeys), secKeys, f);
    }
    GroupsDetermine(x, y);
  }

  // ---------- Two keys

  // A public and a secret key with one fingerprint: the secret one is merged into the public one.
  lemma PublicTakesSecret(p: Key, s: Key, m: Merger)
    ensures Compress(StdMerge([p], [s]), m) ==
            if p.fpr == s.fpr then [m(p, s)] else if p.fpr < s.fpr then [p, s] else [s, p]
  {
    assert [p][1..] == [] && [s][1..] == [];
    var none: seq<Key> := [];
    assert StdMerge([p], none) == [p] && StdMerge(none, [s]) == [s];
    var merged := StdMerge([p], [s]);
    assert merged == if s.fpr < p.fpr then [s] + [p] else [p] + [s];
    assert merged[2..] == none && merged[1..] == if s.fpr < p.fpr then [p] else [s];
    assert [m(p, s)] + [] == [m(p, s)];
  }
}
