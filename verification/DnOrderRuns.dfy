// When the orders seen in a run are those of variables with an order each (class DN in
// src/dn.cpp).

module DnOrderRuns {
  import opened DnHandle
  import opened DnMachine
  import opened DnPrinter

  function OrdersSeen(st: State): (r: map<nat, seq<string>>)
    requires WellFormed(st)
    ensures r.Keys == st.env.Keys
  {
    map x | x in st.env :: ObjectOf(st, x).order
  }

  // The meaning of an operation for variables that hold an order each, and keep it until it
  // is set or assigned over
  function OwnOrders(op: Op, s: map<nat, seq<string>>): map<nat, seq<string>> {
    if !Enabled(op, s.Keys) then s
    else
      match op
      case New(x) => s[x := []]
      case FromText(x, _) => s[x := []]
      case Copy(x, y) => s[x := s[y]]
      case Assign(x, y) => s[x := s[y]]
      case Destroy(x) => s - {x}
      case SetOrder(x, order) => s[x := order]
      case _ => s
  }

  // The orders seen are those, at every point of the run.
  predicate OwnThroughout(ops: seq<Op>, st: State, s: map<nat, seq<string>>)
    requires WellFormed(st)
  {
    OrdersSeen(st) == s && (ops == [] || OwnThroughout(ops[1..], Turn(ops[0], st), OwnOrders(ops[0], s)))
  }

  // An order is only set, and an attribute only appended, through a variable alone on its
  // object; unless the order is there already, or it is the default, which the copy gets.
  predicate KeepsOwn(op: Op, st: State)
    requires WellFormed(st)
  {
    Enabled(op, st.env.Keys) ==>
      match op
      case SetOrder(x, order) => Users(st, st.env[x]) == {x} || ObjectOf(st, x).order == order
      case Append(x, _) => Users(st, st.env[x]) == {x} || ObjectOf(st, x).order == DEFAULT_ORDER
      case _ => true
  }

  predicate AllKeepOwn(ops: seq<Op>, st: State)
    requires WellFormed(st)
  {
    ops == [] || (KeepsOwn(ops[0], st) && AllKeepOwn(ops[1..], Turn(ops[0], st)))
  }

  lemma SetExact(st: State, x: nat, order: seq<string>)
    requires WellFormed(st) && x in st.env
    ensures OrdersSeen(Turn(SetOrder(x, order), st)) == OrdersSeen(st)[x := order] <==> KeepsOwn(SetOrder(x, order), st)
  {
    var t := Turn(SetOrder(x, order), st);
    var seen, own := OrdersSeen(t), OrdersSeen(st)[x := order];
    var users := Users(st, st.env[x]);
    assert x in users;
    if KeepsOwn(SetOrder(x, order), st) {
      forall y | y in st.env ensures seen[y] == own[y] {
        OrderIsShared(st, x, y, order);
        assert users == {x} ==> (y in users <==> y == x);
      }
      assert seen == own;
    } else {
      var y :| y in users && y != x;
      OrderIsShared(st, x, y, order);
      assert seen[y] == order && own[y] == ObjectOf(st, y).order;
    }
  }

  lemma AppendExact(st: State, x: nat, attr: Attribute)
    requires WellFormed(st) && x in st.env
    ensures OrdersSeen(Turn(Append(x, attr), st)) == OrdersSeen(st) <==> KeepsOwn(Append(x, attr), st)
  {
    var t := Turn(Append(x, attr), st);
    var o, k := ObjectOf(st, x), st.env[x];
    if Users(st, k) == {x} {
      OrdersStay(st, x, Object(o.attributes + [attr], [], o.order));
    } else {
      OrdersMade(st, x, Object(o.attributes + [attr], [], DEFAULT_ORDER));
      assert OrdersSeen(t)[x] == DEFAULT_ORDER && OrdersSeen(st)[x] == o.order;
      assert o.order == DEFAULT_ORDER ==> OrdersSeen(st)[x := DEFAULT_ORDER] == OrdersSeen(st);
    }
  }

  lemma OrdersMade(st: State, x: nat, o: Object)
    requires WellFormed(st)
    ensures WellFormed(Made(st, x, o)) && OrdersSeen(Made(st, x, o)) == OrdersSeen(st)[x := o.order]
  {
  }

  lemma OrdersMoved(st: State, x: nat, y: nat)
    requires WellFormed(st) && y in st.env
    ensures var t := st.(env := st.env[x := st.env[y]]);
            WellFormed(t) && OrdersSeen(t) == OrdersSeen(st)[x := OrdersSeen(st)[y]]
  {
  }

  lemma OrdersStay(st: State, x: nat, o: Object)
    requires WellFormed(st) && x in st.env && o.order == ObjectOf(st, x).order
    ensures WellFormed(Changed(st, x, o)) && OrdersSeen(Changed(st, x, o)) == OrdersSeen(st)
  {
  }

  lemma OthersKeepOwn(op: Op, st: State)
    requires WellFormed(st) && Enabled(op, st.env.Keys) && !op.SetOrder? && !op.Append?
    ensures OrdersSeen(Next(op, st)) == OwnOrders(op, OrdersSeen(st))
  {
    match op
    case New(x) => OrdersMade(st, x, Object([], [], []));
    case FromText(x, text) => OrdersMade(st, x, Object(AttributesOf(text), [], []));
    case Copy(x, y) => OrdersMoved(st, x, y);
    case Assign(x, y) => OrdersMoved(st, x, y);
    case Destroy(x) =>
    case Pretty(x) => OrdersStay(st, x, ObjectOf(st, x).(cache := ListOf(ObjectOf(st, x))));
    case PrettyList(x) => OrdersStay(st, x, ObjectOf(st, x).(cache := ListOf(ObjectOf(st, x))));
  }

  lemma OwnStep(op: Op, st: State)
    requires WellFormed(st)
    ensures OrdersSeen(Turn(op, st)) == OwnOrders(op, OrdersSeen(st)) <==> KeepsOwn(op, st)
  {
    if Enabled(op, st.env.Keys) {
      match op
      case SetOrder(x, order) => SetExact(st, x, order);
      case Append(x, attr) => AppendExact(st, x, attr);
      case _ => OthersKeepOwn(op, st);
    }
  }

  // At every point of a run each variable has its own order, if and only if orders are set and
  // attributes appended as above.
  lemma {:induction false} OrdersExact(ops: seq<Op>, st: State)
    requires WellFormed(st)
    ensures OwnThroughout(ops, st, OrdersSeen(st)) <==> AllKeepOwn(ops, st)
  {
    if ops != [] {
      OwnStep(ops[0], st);
      if KeepsOwn(ops[0], st) {
        OrdersExact(ops[1..], Turn(ops[0], st));
      }
    }
  }
}
