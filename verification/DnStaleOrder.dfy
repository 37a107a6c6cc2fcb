// Runs of DN variables in which an order shows up elsewhere, or is stored and not followed
// (class DN in src/dn.cpp).

module DnStaleOrder {
  import opened DnHandle
  import opened DnMachine
  import opened DnPrinter
  import opened DnReorder
  import opened Text

  // The state of one variable on one object
  function Single(o: Object): State {
    State(map[0 := 0], [o])
  }

  // A run in which the order set through variable 0 becomes that of variable 1
  lemma OrderOfAnother(order: seq<string>)
    ensures var st := After([New(0), Copy(1, 0), SetOrder(0, order)], START);
            1 in st.env && ObjectOf(st, 1).order == order
  {
    var o := Object([], [], []);
    var copied := State(map[0 := 0, 1 := 0], [o]);
    assert [New(0), Copy(1, 0), SetOrder(0, order)] == [New(0)] + ([Copy(1, 0)] + ([SetOrder(0, order)] + []));
    AfterCons(New(0), [Copy(1, 0)] + ([SetOrder(0, order)] + []), START);
    assert Turn(New(0), START) == Single(o);
    AfterCons(Copy(1, 0), [SetOrder(0, order)] + [], Single(o));
    assert Turn(Copy(1, 0), Single(o)) == copied;
    AfterCons(SetOrder(0, order), [], copied);
    OrderIsShared(copied, 0, 1, order);
  }

  // Whether a copy exists decides which order an appended attribute is shown by: without one
  // the order that was set, with one the default.
  lemma CopyResetsOrder(order: seq<string>, attr: Attribute)
    ensures var alone := After([New(0), SetOrder(0, order), Append(0, attr)], START);
            var shared := After([New(0), SetOrder(0, order), Copy(1, 0), Append(0, attr)], START);
            && 0 in alone.env && ObjectOf(alone, 0) == Object([attr], [], order)
            && 0 in shared.env && ObjectOf(shared, 0) == Object([attr], [], DEFAULT_ORDER)
            && 1 in shared.env && ObjectOf(shared, 1) == Object([], [], order)
  {
    var o := Object([], [], order);
    var append: seq<Op> := [Append(0, attr)];
    var setup: seq<Op> := [New(0), SetOrder(0, order)];
    AfterNewAndOrder(order, append);
    AfterOne(Append(0, attr), Single(o));
    SingleTurn(o, Append(0, attr));
    assert setup + append == [New(0), SetOrder(0, order), Append(0, attr)];
    assert [] + [attr] == [attr];

    var two := State(map[0 := 0, 1 := 0], [o]);
    AfterNewAndOrder(order, [Copy(1, 0)] + append);
    AfterCons(Copy(1, 0), append, Single(o));
    assert Turn(Copy(1, 0), Single(o)) == two;
    AfterOne(Append(0, attr), two);
    assert 1 in Users(two, 0) && ObjectOf(two, 0) == o;
    assert Turn(Append(0, attr), two) == Made(two, 0, Object([attr], [], DEFAULT_ORDER));
    assert setup + ([Copy(1, 0)] + append) == [New(0), SetOrder(0, order), Copy(1, 0), Append(0, attr)];
  }

  lemma AfterOne(op: Op, st: State)
    requires WellFormed(st)
    ensures After([op], st) == Turn(op, st)
  {
    assert [op] + [] == [op];
    AfterCons(op, [], st);
  }

  lemma AfterNewAndOrder(order: seq<string>, rest: seq<Op>)
    ensures After([New(0), SetOrder(0, order)] + rest, START) == After(rest, Single(Object([], [], order)))
  {
    var o := Object([], [], []);
    assert [New(0), SetOrder(0, order)] + rest == [New(0)] + ([SetOrder(0, order)] + rest);
    AfterCons(New(0), [SetOrder(0, order)] + rest, START);
    assert Turn(New(0), START) == Single(o);
    AfterCons(SetOrder(0, order), rest, Single(o));
    SingleTurn(o, SetOrder(0, order));
  }

  function Stepped(o: Object, op: Op): Object {
    match op
    case Append(_, attr) => Object(o.attributes + [attr], [], o.order)
    case SetOrder(_, order) => o.(order := order)
    case _ => o.(cache := ListOf(o))
  }

  lemma SingleTurn(o: Object, op: Op)
    requires op.x == 0 && (op.Append? || op.SetOrder? || op.Pretty?)
    ensures Turn(op, Single(o)) == Single(Stepped(o, op))
    ensures AnswerTo(op, Single(o)) ==
            if op.Pretty? then [Printed(o.attributes, o.order, Serialised(ListOf(o), ","))] else []
  {
    assert Users(Single(o), 0) == {0};
    assert ObjectOf(Single(o), 0) == o;
  }

  lemma SilentStep(o: Object, op: Op, rest: seq<Op>)
    requires op.x == 0 && (op.Append? || op.SetOrder?)
    ensures LogOf([op] + rest, Single(o)) == LogOf(rest, Single(Stepped(o, op)))
  {
    AfterCons(op, rest, Single(o));
    SingleTurn(o, op);
  }

  lemma PrettyStep(o: Object, rest: seq<Op>)
    ensures LogOf([Pretty(0)] + rest, Single(o)) ==
            [Printed(o.attributes, o.order, Serialised(ListOf(o), ","))] + LogOf(rest, Single(Stepped(o, Pretty(0))))
  {
    AfterCons(Pretty(0), rest, Single(o));
    SingleTurn(o, Pretty(0));
  }

  lemma PrintSetPrint(o: Object, order: seq<string>)
    requires o.cache == [] && ListOf(o) != []
    ensures LogOf([Pretty(0), SetOrder(0, order), Pretty(0)], Single(o)) ==
            [Printed(o.attributes, o.order, Serialised(ListOf(o), ",")),
             Printed(o.attributes, order, Serialised(ListOf(o), ","))]
  {
    var cached := o.(cache := ListOf(o));
    PrettyStep(o, [SetOrder(0, order), Pretty(0)]);
    SilentStep(cached, SetOrder(0, order), [Pretty(0)]);
    PrettyStep(cached.(order := order), []);
    assert [Pretty(0)] + [SetOrder(0, order), Pretty(0)] == [Pretty(0), SetOrder(0, order), Pretty(0)];
    assert [SetOrder(0, order)] + [Pretty(0)] == [SetOrder(0, order), Pretty(0)] && [Pretty(0)] + [] == [Pretty(0)];
  }

  // Two attributes in one variable, and an order
  function Setup(a: Attribute, b: Attribute, order: seq<string>): seq<Op> {
    [New(0), Append(0, a), Append(0, b), SetOrder(0, order)]
  }

  lemma AfterSetup(a: Attribute, b: Attribute, order: seq<string>, rest: seq<Op>)
    ensures LogOf(Setup(a, b, order) + rest, START) == LogOf(rest, Single(Object([a, b], [], order)))
  {
    var from3 := [SetOrder(0, order)] + rest;
    var from2 := [Append(0, b)] + from3;
    var from1 := [Append(0, a)] + from2;
    assert Setup(a, b, order) + rest == [New(0)] + from1;
    AfterCons(New(0), from1, START);
    assert Turn(New(0), START) == Single(Object([], [], []));
    SilentStep(Object([], [], []), Append(0, a), from2);
    SilentStep(Object([a], [], []), Append(0, b), from3);
    SilentStep(Object([a, b], [], []), SetOrder(0, order), rest);
    assert [] + [a] == [a] && [a] + [b] == [a, b];
  }

  lemma ReorderedTwo(a: Attribute, b: Attribute)
    requires a.name != b.name && a.name != REST && b.name != REST
    ensures Reordered([a, b], [a.name, b.name]) == [a, b] == Reordered([b, a], [a.name, b.name])
  {
    assert [a, b] == [a] + [b] && [b, a] == [b] + [a];
    NamedOne(a, a.name);
    NamedOne(a, b.name);
    NamedOne(b, a.name);
    NamedOne(b, b.name);
    NamedConcat([a], [b], a.name);
    NamedConcat([a], [b], b.name);
    NamedConcat([b], [a], a.name);
    NamedConcat([b], [a], b.name);
    ArrangeOfTwo([a, b], a, b);
    ArrangeOfTwo([b, a], a, b);
  }

  lemma NamedOne(a: Attribute, name: string)
    ensures Named([a], name) == if a.name == name then [a] else []
  {
  }

  lemma ArrangeOfTwo(dn: seq<Attribute>, a: Attribute, b: Attribute)
    requires Named(dn, a.name) == [a] && Named(dn, b.name) == [b] && a.name != REST && b.name != REST
    ensures Reordered(dn, [a.name, b.name]) == [a, b]
  {
    var unknown := Unknown(dn, [a.name, b.name]);
    assert [a.name, b.name][1..] == [b.name] && [b.name][1..] == [];
    assert Arrange(dn, unknown, [b.name]) == [b] + [];
    assert Arrange(dn, unknown, [a.name, b.name]) == [a] + [b];
  }

  lemma SerialisedTwo(a: Attribute, b: Attribute)
    requires IsPrinted(a) && IsPrinted(b)
    ensures Serialised([a, b], ",") == ItemText(a) + "," + ItemText(b)
  {
    assert [a, b] == [a] + [b];
    ItemsConcat([a], [b]);
    assert Items([a]) == [ItemText(a)] && Items([b]) == [ItemText(b)];
    assert Items([a, b]) == [ItemText(a), ItemText(b)];
    assert [ItemText(a), ItemText(b)][1..] == [ItemText(b)];
    assert Join([ItemText(b)], ",") == ItemText(b);
  }

  // A run that prints a stale text, for any two attributes: the second order is stored, and
  // the text is still that of the first.
  lemma StaleRun(a: Attribute, b: Attribute)
    requires a.name != b.name && a.name != REST && b.name != REST && IsPrinted(a) && IsPrinted(b)
    ensures var first, second := [a.name, b.name], [b.name, a.name];
            var text := ItemText(a) + "," + ItemText(b);
            && LogOf(Setup(a, b, first) + [Pretty(0), SetOrder(0, second), Pretty(0)], START)
                 == [Printed([a, b], first, text), Printed([a, b], second, text)]
            && (Uncached(Printed([a, b], second, text)) <==> text == ItemText(b) + "," + ItemText(a))
  {
    var first, second := [a.name, b.name], [b.name, a.name];
    ReorderedTwo(a, b);
    ReorderedTwo(b, a);
    SerialisedTwo(a, b);
    SerialisedTwo(b, a);
    AfterSetup(a, b, first, [Pretty(0), SetOrder(0, second), Pretty(0)]);
    PrintSetPrint(Object([a, b], [], first), second);
  }

  lemma PlainItem(n: char, v: char)
    requires n !in WHITESPACE && v !in WHITESPACE && !NeedsBackslash(v)
    ensures ItemText(Attribute([n], [v])) == [n, '=', v]
  {
    assert Trim([n], WHITESPACE) == [n] && Trim([v], WHITESPACE) == [v];
    assert Escape([v]) == [v] + Escape([]);
  }

  // The second text that is printed is this one, and not that of the second order.
  predicate PrintsStale(a: Attribute, b: Attribute, text: string) {
    var first, second := [a.name, b.name], [b.name, a.name];
    var log := LogOf(Setup(a, b, first) + [Pretty(0), SetOrder(0, second), Pretty(0)], START);
    |log| == 2 && log[1] == Printed([a, b], second, text) && !Uncached(log[1])
  }

  lemma StaleOfChars(n: char, v: char, m: char, w: char)
    requires n != m && {n, v, m, w} !! WHITESPACE && !NeedsBackslash(v) && !NeedsBackslash(w)
    ensures PrintsStale(Attribute([n], [v]), Attribute([m], [w]), [n, '=', v, ',', m, '=', w])
  {
    var a, b := Attribute([n], [v]), Attribute([m], [w]);
    assert a.name[0] != b.name[0] && |REST| == 3;
    TwoItems(n, v, m, w);
    TwoItems(m, w, n, v);
    assert [n, '=', v, ',', m, '=', w][0] != [m, '=', w, ',', n, '=', v][0];
    StaleRun(a, b);
  }

  lemma TwoItems(n: char, v: char, m: char, w: char)
    requires {n, v, m, w} !! WHITESPACE && !NeedsBackslash(v) && !NeedsBackslash(w)
    ensures ItemText(Attribute([n], [v])) + "," + ItemText(Attribute([m], [w])) == [n, '=', v, ',', m, '=', w]
  {
    PlainItem(n, v);
    PlainItem(m, w);
  }

  // For instance, "C=a,O=b" is still printed after the order was set to O and C.
  lemma StaleExample()
    ensures PrintsStale(Attribute("C", "a"), Attribute("O", "b"), "C=a,O=b")
  {
    StaleOfChars('C', 'a', 'O', 'b');
  }
}
