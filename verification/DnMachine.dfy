// Runs of DN variables as a machine over values: what sharing an object makes visible, and
// what it does not (class DN in src/dn.cpp).

module DnMachine {
  import opened DnHandle
  import opened DnOrders
  import opened DnPrinter
  import opened DnReorder

  // What a shared object holds
  datatype Object = Object(attributes: seq<Attribute>, cache: seq<Attribute>, order: seq<string>)

  // The object each live variable points to, by its number, and every object ever made
  datatype State = State(env: map<nat, nat>, objects: seq<Object>)

  const START := State(map[], [])

  predicate WellFormed(st: State) {
    forall x :: x in st.env ==> st.env[x] < |st.objects|
  }

  function ObjectOf(st: State, x: nat): Object
    requires WellFormed(st) && x in st.env
  {
    st.objects[st.env[x]]
  }

  // The variables on an object; without any it has been freed.
  function Users(st: State, i: nat): set<nat> {
    set x | x in st.env && st.env[x] == i
  }

  datatype Op =
    | New(x: nat)
    | FromText(x: nat, text: string)
    | Copy(x: nat, y: nat)
    | Assign(x: nat, y: nat)
    | Destroy(x: nat)
    | Append(x: nat, attr: Attribute)
    | SetOrder(x: nat, order: seq<string>)
    | Pretty(x: nat)
    | PrettyList(x: nat)

  // Constructors need a free variable, everything else a live one.
  predicate Enabled(op: Op, live: set<nat>) {
    match op
    case New(x) => x !in live
    case FromText(x, _) => x !in live
    case Copy(x, y) => x !in live && y in live
    case Assign(x, y) => x in live && y in live
    case _ => op.x in live
  }

  // The list that the printers go by: the cached one if there is one
  function ListOf(o: Object): seq<Attribute> {
    if o.cache == [] then Reordered(o.attributes, o.order) else o.cache
  }

  function Made(st: State, x: nat, o: Object): State {
    State(st.env[x := |st.objects|], st.objects + [o])
  }

  function Changed(st: State, x: nat, o: Object): State
    requires WellFormed(st) && x in st.env
  {
    st.(objects := st.objects[st.env[x] := o])
  }

  // A shared object is left to the others, and the copy gets the default order.
  function Next(op: Op, st: State): State
    requires WellFormed(st) && Enabled(op, st.env.Keys)
  {
    match op
    case New(x) => Made(st, x, Object([], [], []))
    case FromText(x, text) => Made(st, x, Object(AttributesOf(text), [], []))
    case Copy(x, y) => st.(env := st.env[x := st.env[y]])
    case Assign(x, y) => st.(env := st.env[x := st.env[y]])
    case Destroy(x) => st.(env := st.env - {x})
    case Append(x, attr) =>
      var o := ObjectOf(st, x);
      if Users(st, st.env[x]) == {x} then Changed(st, x, Object(o.attributes + [attr], [], o.order))
      else Made(st, x, Object(o.attributes + [attr], [], DEFAULT_ORDER))
    case SetOrder(x, order) => Changed(st, x, ObjectOf(st, x).(order := order))
    case Pretty(x) => Changed(st, x, ObjectOf(st, x).(cache := ListOf(ObjectOf(st, x))))
    case PrettyList(x) => Changed(st, x, ObjectOf(st, x).(cache := ListOf(ObjectOf(st, x))))
  }

  // An operation that is not enabled is no program step and is passed over.
  function Turn(op: Op, st: State): (r: State)
    requires WellFormed(st)
    ensures WellFormed(r)
  {
    if Enabled(op, st.env.Keys) then Next(op, st) else st
  }

  function After(ops: seq<Op>, st: State): (r: State)
    requires WellFormed(st)
    ensures WellFormed(r)
  {
    if ops == [] then st else After(ops[1..], Turn(ops[0], st))
  }

  // ---------- What is printed

  // One answer of a printer, with the attributes and the order at that time
  datatype Shown =
    | Printed(attributes: seq<Attribute>, order: seq<string>, text: string)
    | Listed(attributes: seq<Attribute>, order: seq<string>, items: seq<string>)

  function TextOf(o: Object): Shown {
    Printed(o.attributes, o.order, Serialised(ListOf(o), ","))
  }

  function ItemsOf(o: Object): Shown {
    Listed(o.attributes, o.order, Items(ListOf(o)))
  }

  function AnswerTo(op: Op, st: State): seq<Shown>
    requires WellFormed(st)
  {
    if !Enabled(op, st.env.Keys) then []
    else
      match op
      case Pretty(x) => [TextOf(ObjectOf(st, x))]
      case PrettyList(x) => [ItemsOf(ObjectOf(st, x))]
      case _ => []
  }

  // Everything that is printed in a run
  function LogOf(ops: seq<Op>, st: State): seq<Shown>
    requires WellFormed(st)
  {
    if ops == [] then [] else AnswerTo(ops[0], st) + LogOf(ops[1..], Turn(ops[0], st))
  }

  // What a printer without a cache would have answered
  predicate Uncached(e: Shown) {
    match e
    case Printed(attributes, order, text) => text == Serialised(Reordered(attributes, order), ",")
    case Listed(attributes, order, items) => items == Items(Reordered(attributes, order))
  }

  // ---------- Sharing is not visible in the attributes

  // The meaning of an operation when every variable holds a list of its own
  function Meaning(op: Op, s: map<nat, seq<Attribute>>): map<nat, seq<Attribute>>
    requires Enabled(op, s.Keys)
  {
    match op
    case New(x) => s[x := []]
    case FromText(x, text) => s[x := AttributesOf(text)]
    case Copy(x, y) => s[x := s[y]]
    case Assign(x, y) => s[x := s[y]]
    case Destroy(x) => s - {x}
    case Append(x, attr) => s[x := s[x] + [attr]]
    case _ => s
  }

  function MeaningOfRun(ops: seq<Op>, s: map<nat, seq<Attribute>>): map<nat, seq<Attribute>> {
    if ops == [] then s
    else MeaningOfRun(ops[1..], if Enabled(ops[0], s.Keys) then Meaning(ops[0], s) else s)
  }

  function Seen(st: State): (r: map<nat, seq<Attribute>>)
    requires WellFormed(st)
    ensures r.Keys == st.env.Keys
  {
    map x | x in st.env :: ObjectOf(st, x).attributes
  }

  lemma SeenMade(st: State, x: nat, o: Object)
    requires WellFormed(st)
    ensures WellFormed(Made(st, x, o)) && Seen(Made(st, x, o)) == Seen(st)[x := o.attributes]
  {
  }

  lemma SeenChanged(st: State, x: nat, o: Object)
    requires WellFormed(st) && x in st.env
    requires o.attributes == ObjectOf(st, x).attributes || Users(st, st.env[x]) == {x}
    ensures WellFormed(Changed(st, x, o)) && Seen(Changed(st, x, o)) == Seen(st)[x := o.attributes]
  {
    if Users(st, st.env[x]) == {x} {
      forall y | y in st.env && y != x ensures st.env[y] != st.env[x] {
        assert y !in Users(st, st.env[x]);
      }
    }
  }

  lemma SeenMoved(st: State, x: nat, y: nat)
    requires WellFormed(st) && y in st.env
    ensures var t := st.(env := st.env[x := st.env[y]]);
            WellFormed(t) && Seen(t) == Seen(st)[x := Seen(st)[y]]
  {
  }

  lemma {:induction false} SeenStep(op: Op, st: State)
    requires WellFormed(st) && Enabled(op, st.env.Keys)
    ensures Seen(Next(op, st)) == Meaning(op, Seen(st))
  {
    match op
    case New(x) => SeenMade(st, x, Object([], [], []));
    case FromText(x, text) => SeenMade(st, x, Object(AttributesOf(text), [], []));
    case Copy(x, y) => SeenMoved(st, x, y);
    case Assign(x, y) => SeenMoved(st, x, y);
    case Destroy(x) =>
    case Append(x, attr) =>
      var o := ObjectOf(st, x);
      if Users(st, st.env[x]) == {x} {
        SeenChanged(st, x, Object(o.attributes + [attr], [], o.order));
      } else {
        SeenMade(st, x, Object(o.attributes + [attr], [], DEFAULT_ORDER));
      }
    case SetOrder(x, order) => SeenStays(st, x, ObjectOf(st, x).(order := order));
    case Pretty(x) => SeenStays(st, x, ObjectOf(st, x).(cache := ListOf(ObjectOf(st, x))));
    case PrettyList(x) => SeenStays(st, x, ObjectOf(st, x).(cache := ListOf(ObjectOf(st, x))));
  }

  lemma SeenStays(st: State, x: nat, o: Object)
    requires WellFormed(st) && x in st.env && o.attributes == ObjectOf(st, x).attributes
    ensures WellFormed(Changed(st, x, o)) && Seen(Changed(st, x, o)) == Seen(st)
  {
    SeenChanged(st, x, o);
  }

  // In every run the variables show the lists they would show if each had its own.
  lemma {:induction false} SharingIsInvisible(ops: seq<Op>, st: State)
    requires WellFormed(st)
    ensures Seen(After(ops, st)) == MeaningOfRun(ops, Seen(st))
  {
    if ops != [] {
      if Enabled(ops[0], st.env.Keys) {
        SeenStep(ops[0], st);
      }
      SharingIsInvisible(ops[1..], Turn(ops[0], st));
    }
  }

  // ---------- Freed objects

  lemma FreedStep(op: Op, st: State, i: nat)
    requires WellFormed(st) && i < |st.objects| && Users(st, i) == {}
    ensures var t := Turn(op, st);
            i < |t.objects| && Users(t, i) == {} && t.objects[i] == st.objects[i]
  {
    forall x | x in st.env ensures st.env[x] != i {
      assert x !in Users(st, i);
    }
  }

  // An object whose last variable has gone is never seen again, nor touched.
  lemma {:induction false} FreedForGood(ops: seq<Op>, st: State, i: nat)
    requires WellFormed(st) && i < |st.objects| && Users(st, i) == {}
    ensures var t := After(ops, st);
            i < |t.objects| && Users(t, i) == {} && t.objects[i] == st.objects[i]
  {
    if ops != [] {
      FreedStep(ops[0], st, i);
      FreedForGood(ops[1..], Turn(ops[0], st), i);
    }
  }

  // ---------- When the caches stay right

  predicate Coherent(o: Object) {
    o.cache == [] || o.cache == Reordered(o.attributes, o.order)
  }

  // No variable sees a wrong cache.
  predicate AllCoherent(st: State)
    requires WellFormed(st)
  {
    forall x :: x in st.env ==> Coherent(ObjectOf(st, x))
  }

  // ... at no point of the run
  predicate CoherentThroughout(ops: seq<Op>, st: State)
    requires WellFormed(st)
  {
    AllCoherent(st) && (ops == [] || CoherentThroughout(ops[1..], Turn(ops[0], st)))
  }

  // An order is set while nothing is cached, or shows the attributes as the old one did.
  predicate SetsSafely(op: Op, st: State)
    requires WellFormed(st)
  {
    Enabled(op, st.env.Keys) && op.SetOrder? ==>
      var o := ObjectOf(st, op.x);
      o.cache == [] || Agree(o.attributes, o.order, op.order)
  }

  predicate AllSetsSafe(ops: seq<Op>, st: State)
    requires WellFormed(st)
  {
    ops == [] || (SetsSafely(ops[0], st) && AllSetsSafe(ops[1..], Turn(ops[0], st)))
  }

  // A stricter rule: orders are only set while nothing is cached.
  predicate SetsOnlyOverEmpty(ops: seq<Op>, st: State)
    requires WellFormed(st)
  {
    ops == [] ||
    (&& (Enabled(ops[0], st.env.Keys) && ops[0].SetOrder? ==> ObjectOf(st, ops[0].x).cache == [])
     && SetsOnlyOverEmpty(ops[1..], Turn(ops[0], st)))
  }

  lemma {:induction false} CoherentStep(op: Op, st: State)
    requires WellFormed(st) && AllCoherent(st)
    ensures AllCoherent(Turn(op, st)) <==> SetsSafely(op, st)
  {
    var t := Turn(op, st);
    if Enabled(op, st.env.Keys) && op.SetOrder? {
      var o := ObjectOf(st, op.x);
      AgreeExact(o.attributes, o.order, op.order);
      assert ObjectOf(t, op.x) == o.(order := op.order);
      if SetsSafely(op, st) {
        forall y | y in t.env ensures Coherent(ObjectOf(t, y)) {
          assert Coherent(ObjectOf(st, y)) && Coherent(o);
        }
      }
    } else {
      forall y | y in t.env ensures Coherent(ObjectOf(t, y)) {
        if y in st.env {
          assert Coherent(ObjectOf(st, y));
        }
      }
    }
  }

  // In a run no variable ever sees a wrong cache if and only if every order is set safely.
  lemma {:induction false} CachesRightExact(ops: seq<Op>, st: State)
    requires WellFormed(st) && AllCoherent(st)
    ensures CoherentThroughout(ops, st) <==> AllSetsSafe(ops, st)
  {
    if ops != [] {
      CoherentStep(ops[0], st);
      if AllCoherent(Turn(ops[0], st)) {
        CachesRightExact(ops[1..], Turn(ops[0], st));
      }
    }
  }

  lemma {:induction false} CoherentPrintsUncached(ops: seq<Op>, st: State)
    requires WellFormed(st) && CoherentThroughout(ops, st)
    ensures forall e :: e in LogOf(ops, st) ==> Uncached(e)
  {
    if ops != [] {
      CoherentPrintsUncached(ops[1..], Turn(ops[0], st));
    }
  }

  lemma {:induction false} EmptyIsSafe(ops: seq<Op>, st: State)
    requires WellFormed(st) && SetsOnlyOverEmpty(ops, st)
    ensures AllSetsSafe(ops, st)
  {
    if ops != [] {
      EmptyIsSafe(ops[1..], Turn(ops[0], st));
    }
  }

  // So everything printed is what a printer without a cache would print, if every order is
  // set safely, and in particular if orders are only set while nothing is cached.
  lemma {:induction false} NothingStale(ops: seq<Op>)
    requires AllSetsSafe(ops, START) || SetsOnlyOverEmpty(ops, START)
    ensures forall e :: e in LogOf(ops, START) ==> Uncached(e)
  {
    if SetsOnlyOverEmpty(ops, START) {
      EmptyIsSafe(ops, START);
    }
    CachesRightExact(ops, START);
    CoherentPrintsUncached(ops, START);
  }

  // ---------- What sharing does show

  // An order set through one variable is the order of every variable on the same object.
  lemma OrderIsShared(st: State, x: nat, y: nat, order: seq<string>)
    requires WellFormed(st) && x in st.env && y in st.env
    ensures ObjectOf(Next(SetOrder(x, order), st), y).order ==
            if y in Users(st, st.env[x]) then order else ObjectOf(st, y).order
  {
  }

  lemma AfterCons(op: Op, ops: seq<Op>, st: State)
    requires WellFormed(st)
    ensures After([op] + ops, st) == After(ops, Turn(op, st))
    ensures LogOf([op] + ops, st) == AnswerTo(op, st) + LogOf(ops, Turn(op, st))
  {
    assert ([op] + ops)[1..] == ops;
  }
}
