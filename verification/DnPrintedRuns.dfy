// When everything printed in a run is what a printer without a cache would print (class DN in
// src/dn.cpp).

module DnPrintedRuns {
  import opened DnHandle
  import opened DnMachine
  import opened DnOrders
  import opened DnPrinter
  import opened DnReorder
  import opened DnRoundTrip

  // For each object, the order that its cache was filled under
  type Orders = seq<seq<string>>

  predicate Prints(op: Op, st: State) {
    Enabled(op, st.env.Keys) && (op.Pretty? || op.PrettyList?)
  }

  // A print fills an empty cache, under the order of that moment.
  function FilledAfter(op: Op, st: State, under: Orders): (r: Orders)
    requires WellFormed(st) && |under| == |st.objects|
    ensures |r| == |Turn(op, st).objects|
  {
    if |Turn(op, st).objects| > |under| then under + [[]]
    else if Prints(op, st) && ObjectOf(st, op.x).cache == [] then under[st.env[op.x] := ObjectOf(st, op.x).order]
    else under
  }

  // Every cache holds what it was filled with.
  predicate Filled(st: State, under: Orders) {
    && |under| == |st.objects|
    && forall i :: 0 <= i < |under| ==> FilledUnder(st.objects[i], under[i])
  }

  predicate FilledUnder(o: Object, order: seq<string>) {
    o.cache == [] || o.cache == Reordered(o.attributes, order)
  }

  // What is printed goes by the list of an uncached reordering.
  predicate PrintsRight(op: Op, st: State)
    requires WellFormed(st)
  {
    Prints(op, st) ==>
      var o := ObjectOf(st, op.x);
      ListOf(o) == Reordered(o.attributes, o.order)
  }

  predicate AllPrintsRight(ops: seq<Op>, st: State)
    requires WellFormed(st)
  {
    ops == [] || (PrintsRight(ops[0], st) && AllPrintsRight(ops[1..], Turn(ops[0], st)))
  }

  // Nothing is cached, or the order shows the attributes as that did under which the cache was
  // filled.
  predicate PrintsInTime(op: Op, st: State, under: Orders)
    requires WellFormed(st) && |under| == |st.objects|
  {
    Prints(op, st) ==>
      var o := ObjectOf(st, op.x);
      o.cache == [] || Agree(o.attributes, under[st.env[op.x]], o.order)
  }

  predicate AllPrintsInTime(ops: seq<Op>, st: State, under: Orders)
    requires WellFormed(st) && |under| == |st.objects|
  {
    ops == [] ||
    (PrintsInTime(ops[0], st, under) && AllPrintsInTime(ops[1..], Turn(ops[0], st), FilledAfter(ops[0], st, under)))
  }

  lemma PrintExact(op: Op, st: State, under: Orders)
    requires WellFormed(st) && Filled(st, under)
    ensures PrintsRight(op, st) <==> PrintsInTime(op, st, under)
  {
    if Prints(op, st) {
      var o, k := ObjectOf(st, op.x), st.env[op.x];
      assert FilledUnder(st.objects[k], under[k]);
      AgreeExact(o.attributes, under[k], o.order);
    }
  }

  lemma FilledMade(st: State, x: nat, o: Object, under: Orders)
    requires WellFormed(st) && Filled(st, under) && o.cache == []
    ensures Filled(Made(st, x, o), under + [[]])
  {
  }

  lemma FilledChanged(st: State, x: nat, o: Object, under: Orders, order: seq<string>)
    requires WellFormed(st) && Filled(st, under) && x in st.env && FilledUnder(o, order)
    ensures Filled(Changed(st, x, o), under[st.env[x] := order])
  {
  }

  lemma FilledStep(op: Op, st: State, under: Orders)
    requires WellFormed(st) && Filled(st, under)
    ensures Filled(Turn(op, st), FilledAfter(op, st, under))
  {
    if Enabled(op, st.env.Keys) {
      match op
      case New(x) => FilledMade(st, x, Object([], [], []), under);
      case FromText(x, text) => FilledMade(st, x, Object(AttributesOf(text), [], []), under);
      case Copy(_, _) =>
      case Assign(_, _) =>
      case Destroy(_) =>
      case _ => FilledByOne(op, st, under);
    }
  }

  lemma FilledByOne(op: Op, st: State, under: Orders)
    requires WellFormed(st) && Filled(st, under) && Enabled(op, st.env.Keys)
    requires op.Append? || op.SetOrder? || op.Pretty? || op.PrettyList?
    ensures Filled(Next(op, st), FilledAfter(op, st, under))
  {
    var x := op.x;
    var k, o := st.env[x], ObjectOf(st, x);
    var filled := if o.cache == [] then o.order else under[k];
    assert FilledUnder(st.objects[k], under[k]) && under[k := under[k]] == under;
    match op
    case Append(_, attr) =>
      if Users(st, k) == {x} {
        FilledChanged(st, x, Object(o.attributes + [attr], [], o.order), under, under[k]);
      } else {
        FilledMade(st, x, Object(o.attributes + [attr], [], DEFAULT_ORDER), under);
      }
    case SetOrder(_, order) => FilledChanged(st, x, o.(order := order), under, under[k]);
    case Pretty(_) => FilledChanged(st, x, o.(cache := ListOf(o)), under, filled);
    case PrettyList(_) => FilledChanged(st, x, o.(cache := ListOf(o)), under, filled);
  }

  // In a run all that is printed goes by the uncached list, if and only if at each print
  // nothing is cached or the order agrees with the one under which the cache was filled.
  lemma {:induction false} PrintsExact(ops: seq<Op>, st: State, under: Orders)
    requires WellFormed(st) && Filled(st, under)
    ensures AllPrintsRight(ops, st) <==> AllPrintsInTime(ops, st, under)
  {
    if ops != [] {
      PrintExact(ops[0], st, under);
      FilledStep(ops[0], st, under);
      PrintsExact(ops[1..], Turn(ops[0], st), FilledAfter(ops[0], st, under));
    }
  }

  // ---------- Texts

  lemma {:induction false} RightPrintsUncached(ops: seq<Op>, st: State)
    requires WellFormed(st) && AllPrintsRight(ops, st)
    ensures forall e :: e in LogOf(ops, st) ==> Uncached(e)
  {
    if ops != [] {
      RightPrintsUncached(ops[1..], Turn(ops[0], st));
    }
  }

  // Attributes whose printed text is read back
  predicate Readable(dn: seq<Attribute>) {
    AllConstructed(dn) && forall a :: a in dn ==> Survives(a)
  }

  predicate AllPrintsReadable(ops: seq<Op>, st: State)
    requires WellFormed(st)
  {
    ops == [] ||
    (&& (Prints(ops[0], st) ==> Readable(ObjectOf(st, ops[0].x).attributes))
     && AllPrintsReadable(ops[1..], Turn(ops[0], st)))
  }

  lemma ReadableReordered(dn: seq<Attribute>, order: seq<string>)
    requires Readable(dn)
    ensures Readable(Reordered(dn, order))
  {
    forall a | a in Reordered(dn, order) ensures Constructed(a) && Survives(a) {
      InReordered(dn, order, a);
    }
  }

  // Readable lists that are printed alike are equal.
  lemma TextDetermines(a: seq<Attribute>, b: seq<Attribute>)
    requires Readable(a) && Readable(b) && Serialised(a, ",") == Serialised(b, ",")
    ensures a == b
  {
    RoundTrip(a, ",");
    RoundTrip(b, ",");
  }

  lemma AnswerExact(op: Op, st: State, under: Orders)
    requires WellFormed(st) && Filled(st, under) && Prints(op, st)
    requires Readable(ObjectOf(st, op.x).attributes)
    ensures (forall e :: e in AnswerTo(op, st) ==> Uncached(e)) <==> PrintsRight(op, st)
  {
    var o, k := ObjectOf(st, op.x), st.env[op.x];
    assert FilledUnder(st.objects[k], under[k]);
    ReadableReordered(o.attributes, under[k]);
    ReadableReordered(o.attributes, o.order);
    var e := if op.Pretty? then TextOf(o) else ItemsOf(o);
    assert AnswerTo(op, st) == [e];
    if Uncached(e) {
      TextDetermines(ListOf(o), Reordered(o.attributes, o.order));
    }
  }

  lemma {:induction false} UncachedPrintsRight(ops: seq<Op>, st: State, under: Orders)
    requires WellFormed(st) && Filled(st, under) && AllPrintsReadable(ops, st)
    requires forall e :: e in LogOf(ops, st) ==> Uncached(e)
    ensures AllPrintsRight(ops, st)
  {
    if ops != [] {
      assert forall e :: e in AnswerTo(ops[0], st) ==> e in LogOf(ops, st);
      if Prints(ops[0], st) {
        AnswerExact(ops[0], st, under);
      }
      FilledStep(ops[0], st, under);
      UncachedPrintsRight(ops[1..], Turn(ops[0], st), FilledAfter(ops[0], st, under));
    }
  }

  // In a run of the program every text and list that is printed is the uncached one, if each
  // print is in time; and only if, where the printed attributes can be read back.
  lemma {:induction false} LogExact(ops: seq<Op>)
    ensures AllPrintsInTime(ops, START, []) ==> forall e :: e in LogOf(ops, START) ==> Uncached(e)
    ensures AllPrintsReadable(ops, START) ==>
              (AllPrintsInTime(ops, START, []) <==> forall e :: e in LogOf(ops, START) ==> Uncached(e))
  {
    PrintsExact(ops, START, []);
    if AllPrintsInTime(ops, START, []) {
      RightPrintsUncached(ops, START);
    } else if AllPrintsReadable(ops, START) && forall e :: e in LogOf(ops, START) ==> Uncached(e) {
      UncachedPrintsRight(ops, START, []);
    }
  }
}
