// Whole runs over any number of DN variables, on the heap: they act as the machine, with the
// counters right and every object freed when its last variable goes (class DN in src/dn.cpp).

module DnSession {
  import opened DnHandle
  import opened DnMachine
  import opened DnPrinter
  import opened Text

  // The live handles, one for each variable
  ghost function Handles(vars: map<nat, DN>): set<DN> {
    set x | x in vars :: vars[x]
  }

  ghost function Objects(objs: seq<Private>): set<Private> {
    set p | p in objs
  }

  ghost function Contents(p: Private): Object
    reads p`attributes, p`reorderedAttributes, p`order
  {
    Object(p.attributes, p.reorderedAttributes, p.order)
  }

  ghost predicate Distinct(objs: seq<Private>) {
    forall i, j :: 0 <= i < j < |objs| ==> objs[i] != objs[j]
  }

  ghost predicate OneEach(vars: map<nat, DN>) {
    forall x, y :: x in vars && y in vars && x != y ==> vars[x] != vars[y]
  }

  // The variables point to the objects as the machine says.
  ghost predicate Points(vars: map<nat, DN>, objs: seq<Private>, env: map<nat, nat>)
    reads Handles(vars)
  {
    && vars.Keys == env.Keys
    && forall x :: x in vars ==> env[x] < |objs| && vars[x].d == objs[env[x]]
  }

  // The objects, also those that have been freed, hold what the machine says.
  ghost predicate Hold(objs: seq<Private>, objects: seq<Object>)
    reads objs
  {
    |objs| == |objects| && forall i :: 0 <= i < |objs| ==> Contents(objs[i]) == objects[i]
  }

  ghost predicate Represents(vars: map<nat, DN>, objs: seq<Private>, st: State)
    reads Handles(vars), objs
  {
    && OneEach(vars) && Distinct(objs)
    && Points(vars, objs, st.env) && Hold(objs, st.objects)
  }

  // In a sound heap there are no handles but those of the variables.
  ghost predicate Valid(vars: map<nat, DN>, objs: seq<Private>, st: State)
    reads Handles(vars), Objects(objs), objs
  {
    && WellFormed(st) && Represents(vars, objs, st)
    && Sound(Handles(vars), Objects(objs))
  }

  // Every counter is the number of variables on the object, and it has been freed if and
  // only if there is none.
  ghost predicate Counts(objs: seq<Private>, st: State)
    reads objs
  {
    forall i :: 0 <= i < |objs| ==>
      objs[i].mRefCount == |Users(st, i)| && (objs[i].freed <==> Users(st, i) == {})
  }

  // ---------- Handles and variables

  lemma SharersAreUsers(vars: map<nat, DN>, objs: seq<Private>, st: State, i: nat)
    requires Valid(vars, objs, st) && i < |objs|
    ensures objs[i].sharers == set x | x in Users(st, i) :: vars[x]
  {
    var p := objs[i];
    assert p in Objects(objs);
    forall h | h in p.sharers ensures h in set x | x in Users(st, i) :: vars[x] {
      assert h in Handles(vars) && h.d == p;
      var x :| x in vars && vars[x] == h;
      assert st.env[x] == i;
      assert x in Users(st, i);
    }
    forall x | x in Users(st, i) ensures vars[x] in p.sharers {
      assert vars[x] in Handles(vars);
    }
  }

  lemma {:induction false} ImageSize(vars: map<nat, DN>, xs: set<nat>)
    requires OneEach(vars) && xs <= vars.Keys
    ensures |set x | x in xs :: vars[x]| == |xs|
  {
    if xs != {} {
      var y :| y in xs;
      ImageSize(vars, xs - {y});
      assert (set x | x in xs :: vars[x]) == (set x | x in xs - {y} :: vars[x]) + {vars[y]};
    }
  }

  lemma CountsRight(vars: map<nat, DN>, objs: seq<Private>, st: State)
    requires Valid(vars, objs, st)
    ensures Counts(objs, st)
  {
    forall i | 0 <= i < |objs|
      ensures objs[i].mRefCount == |Users(st, i)| && (objs[i].freed <==> Users(st, i) == {})
    {
      SharersAreUsers(vars, objs, st, i);
      ImageSize(vars, Users(st, i));
      assert objs[i] in Objects(objs) && Counted(objs[i]);
    }
  }

  lemma AloneExact(vars: map<nat, DN>, objs: seq<Private>, st: State, x: nat)
    requires Valid(vars, objs, st) && x in vars
    ensures vars[x].d.sharers == {vars[x]} <==> Users(st, st.env[x]) == {x}
  {
    SharersAreUsers(vars, objs, st, st.env[x]);
    var users := Users(st, st.env[x]);
    assert x in users;
    if vars[x].d.sharers == {vars[x]} {
      forall y | y in users ensures y == x {
        assert vars[y] in vars[x].d.sharers;
      }
    }
  }

  lemma HandlesOfMore(vars: map<nat, DN>, x: nat, h: DN)
    requires x !in vars
    ensures Handles(vars[x := h]) == Handles(vars) + {h}
  {
    var more := vars[x := h];
    assert more[x] == h;
    forall y | y in vars ensures vars[y] in Handles(more) {
      assert more[y] == vars[y];
    }
  }

  lemma HandlesOfFewer(vars: map<nat, DN>, x: nat)
    requires OneEach(vars) && x in vars
    ensures Handles(vars - {x}) == Handles(vars) - {vars[x]}
  {
    var fewer := vars - {x};
    forall y | y in vars && y != x ensures vars[y] in Handles(fewer) {
      assert fewer[y] == vars[y];
    }
  }

  lemma ObjectsOfMore(objs: seq<Private>, p: Private)
    ensures Objects(objs + [p]) == Objects(objs) + {p}
  {
  }

  // ---------- One step

  // A new variable on a new object
  lemma ValidWithNew(vars: map<nat, DN>, objs: seq<Private>, st: State, x: nat, h: DN, p: Private)
    requires WellFormed(st) && Represents(vars, objs, st) && x !in vars
    requires h !in Handles(vars) && h.d == p && p !in objs
    requires Sound(Handles(vars) + {h}, Objects(objs) + {p})
    ensures Valid(vars[x := h], objs + [p], Made(st, x, Contents(p)))
  {
    HandlesOfMore(vars, x, h);
    ObjectsOfMore(objs, p);
    forall y | y in vars ensures vars[y] != h {
      assert vars[y] in Handles(vars);
    }
  }

  method Create(vars: map<nat, DN>, x: nat, ghost objs: seq<Private>, ghost st: State)
    returns (vars': map<nat, DN>, ghost objs': seq<Private>)
    requires Valid(vars, objs, st) && x !in vars
    ensures Valid(vars', objs', Next(New(x), st))
    ensures fresh(Handles(vars') - Handles(vars)) && fresh(Objects(objs') - Objects(objs))
  {
    var h := new DN(Handles(vars), Objects(objs));
    vars', objs' := vars[x := h], objs + [h.d];
    ValidWithNew(vars, objs, st, x, h, h.d);
    HandlesOfMore(vars, x, h);
  }

  method CreateFromText(vars: map<nat, DN>, x: nat, text: string, ghost objs: seq<Private>, ghost st: State)
    returns (vars': map<nat, DN>, ghost objs': seq<Private>)
    requires Valid(vars, objs, st) && x !in vars
    ensures Valid(vars', objs', Next(FromText(x, text), st))
    ensures fresh(Handles(vars') - Handles(vars)) && fresh(Objects(objs') - Objects(objs))
  {
    var h := DN.FromText(text, Handles(vars), Objects(objs));
    vars', objs' := vars[x := h], objs + [h.d];
    ValidWithNew(vars, objs, st, x, h, h.d);
    HandlesOfMore(vars, x, h);
  }

  // All variables but x point where they did.
  ghost predicate OthersPoint(vars: map<nat, DN>, objs: seq<Private>, env: map<nat, nat>, x: nat)
    reads Handles(vars)
  {
    && vars.Keys == env.Keys
    && forall y :: y in vars && y != x ==> env[y] < |objs| && vars[y].d == objs[env[y]]
  }

  // All objects but the k-th hold what they did.
  ghost predicate OthersHold(objs: seq<Private>, objects: seq<Object>, k: nat)
    reads objs
  {
    |objs| == |objects| && forall i :: 0 <= i < |objs| && i != k ==> Contents(objs[i]) == objects[i]
  }

  // x points to another object, with nothing else changed.
  lemma ValidAfterMove(vars: map<nat, DN>, objs: seq<Private>, st: State, x: nat, k: nat)
    requires WellFormed(st) && OneEach(vars) && Distinct(objs) && x in st.env && k < |objs|
    requires OthersPoint(vars, objs, st.env, x) && vars[x].d == objs[k] && Hold(objs, st.objects)
    requires Sound(Handles(vars), Objects(objs))
    ensures Valid(vars, objs, st.(env := st.env[x := k]))
  {
  }

  // The object of x changes, with nothing else changed.
  lemma ValidAfterChange(vars: map<nat, DN>, objs: seq<Private>, st: State, x: nat)
    requires WellFormed(st) && OneEach(vars) && Distinct(objs) && x in st.env
    requires Points(vars, objs, st.env) && OthersHold(objs, st.objects, st.env[x])
    requires Sound(Handles(vars), Objects(objs))
    ensures Valid(vars, objs, Changed(st, x, Contents(objs[st.env[x]])))
  {
  }

  // x points to a new object, with nothing else changed.
  lemma ValidAfterSplit(vars: map<nat, DN>, objs: seq<Private>, st: State, x: nat, p: Private)
    requires WellFormed(st) && OneEach(vars) && Distinct(objs) && x in st.env && p !in objs
    requires OthersPoint(vars, objs, st.env, x) && vars[x].d == p && Hold(objs, st.objects)
    requires Sound(Handles(vars), Objects(objs) + {p})
    ensures Valid(vars, objs + [p], Made(st, x, Contents(p)))
  {
    ObjectsOfMore(objs, p);
  }

  // A new variable on the object of y
  lemma ValidWithCopy(vars: map<nat, DN>, objs: seq<Private>, st: State, x: nat, y: nat, h: DN)
    requires WellFormed(st) && Represents(vars, objs, st) && x !in vars && y in vars
    requires h !in Handles(vars) && h.d == vars[y].d && Sound(Handles(vars) + {h}, Objects(objs))
    ensures Valid(vars[x := h], objs, st.(env := st.env[x := st.env[y]]))
  {
    HandlesOfMore(vars, x, h);
    forall z | z in vars ensures vars[z] != h {
      assert vars[z] in Handles(vars);
    }
  }

  lemma ValidWithout(vars: map<nat, DN>, objs: seq<Private>, st: State, x: nat)
    requires WellFormed(st) && Represents(vars, objs, st) && x in vars
    requires Sound(Handles(vars) - {vars[x]}, Objects(objs))
    ensures Valid(vars - {x}, objs, st.(env := st.env - {x}))
  {
    HandlesOfFewer(vars, x);
  }

  method CreateCopy(vars: map<nat, DN>, x: nat, y: nat, ghost objs: seq<Private>, ghost st: State)
    returns (vars': map<nat, DN>)
    requires Valid(vars, objs, st) && x !in vars && y in vars
    modifies Objects(objs)
    ensures Valid(vars', objs, Next(Copy(x, y), st))
    ensures fresh(Handles(vars') - Handles(vars))
  {
    assert Next(Copy(x, y), st) == st.(env := st.env[x := st.env[y]]);
    var h := new DN.Copy(vars[y], Handles(vars), Objects(objs));
    assert Hold(objs, st.objects) && Points(vars, objs, st.env);
    ValidWithCopy(vars, objs, st, x, y, h);
    vars' := vars[x := h];
    HandlesOfMore(vars, x, h);
  }

  method AssignTo(vars: map<nat, DN>, x: nat, y: nat, ghost objs: seq<Private>, ghost st: State)
    requires Valid(vars, objs, st) && x in vars && y in vars
    modifies Handles(vars), Objects(objs)
    ensures Valid(vars, objs, Next(Assign(x, y), st))
  {
    assert Next(Assign(x, y), st) == st.(env := st.env[x := st.env[y]]);
    vars[x].Assign(vars[y], Handles(vars), Objects(objs));
    assert Hold(objs, st.objects) by {
      assert forall i :: 0 <= i < |objs| ==> objs[i] in Objects(objs);
    }
    ValidAfterMove(vars, objs, st, x, st.env[y]);
  }

  // The destructor changes neither what the variables point to nor what the objects hold.
  method DestroyOne(vars: map<nat, DN>, x: nat, ghost objs: seq<Private>, ghost st: State)
    requires Valid(vars, objs, st) && x in vars
    modifies Objects(objs)
    ensures Represents(vars, objs, st) && Sound(Handles(vars) - {vars[x]}, Objects(objs))
  {
    vars[x].Destroy(Handles(vars), Objects(objs));
  }

  method DestroyOf(vars: map<nat, DN>, x: nat, ghost objs: seq<Private>, ghost st: State)
    returns (vars': map<nat, DN>)
    requires Valid(vars, objs, st) && x in vars
    modifies Objects(objs)
    ensures Valid(vars', objs, Next(Destroy(x), st))
    ensures fresh(Handles(vars') - Handles(vars))
  {
    HandlesOfFewer(vars, x);
    DestroyOne(vars, x, objs, st);
    ValidWithout(vars, objs, st, x);
    vars' := vars - {x};
  }

  // What appending through h makes of its object, which held o: a longer one if h was alone on
  // it, else a longer copy.
  ghost predicate Appended(
      h: DN, objs: seq<Private>, objs': seq<Private>, k: nat, o: Object, attr: Attribute, alone: bool)
    requires k < |objs|
    reads h, h.d, objs
  {
    && h.d != null
    && if alone then
         && objs' == objs && h.d == objs[k]
         && Contents(h.d) == Object(o.attributes + [attr], [], o.order)
       else
         && objs' == objs + [h.d] && h.d !in objs && Contents(objs[k]) == o
         && Contents(h.d) == Object(o.attributes + [attr], [], DEFAULT_ORDER)
  }

  method AppendThrough(
      h: DN, attr: Attribute, ghost handles: set<DN>, ghost objs: seq<Private>, ghost objects: seq<Object>,
      ghost k: nat, ghost alone: bool)
    returns (ghost objs': seq<Private>)
    requires Sound(handles, Objects(objs)) && Distinct(objs) && Hold(objs, objects)
    requires h in handles && k < |objs| && h.d == objs[k] && (alone <==> objs[k].sharers == {h})
    modifies h, objs[k]
    ensures Sound(handles, Objects(objs')) && fresh(Objects(objs') - Objects(objs))
    ensures OthersHold(objs, objects, k) && Appended(h, objs, objs', k, objects[k], attr, alone)
  {
    h.Append(attr, handles, Objects(objs));
    if h.d == objs[k] {
      objs' := objs;
      assert Objects(objs) + {h.d} == Objects(objs);
    } else {
      objs' := objs + [h.d];
      ObjectsOfMore(objs, h.d);
    }
  }

  lemma ValidAfterAppend(
      vars: map<nat, DN>, objs: seq<Private>, objs': seq<Private>, st: State, x: nat, attr: Attribute)
    requires WellFormed(st) && OneEach(vars) && Distinct(objs) && x in st.env
    requires OthersPoint(vars, objs, st.env, x) && OthersHold(objs, st.objects, st.env[x])
    requires Appended(vars[x], objs, objs', st.env[x], ObjectOf(st, x), attr, Users(st, st.env[x]) == {x})
    requires Sound(Handles(vars), Objects(objs'))
    ensures Valid(vars, objs', Next(Append(x, attr), st))
  {
    var o := ObjectOf(st, x);
    if Users(st, st.env[x]) == {x} {
      assert Next(Append(x, attr), st) == Changed(st, x, Object(o.attributes + [attr], [], o.order));
      ValidAfterChange(vars, objs, st, x);
    } else {
      assert Next(Append(x, attr), st) == Made(st, x, Object(o.attributes + [attr], [], DEFAULT_ORDER));
      ObjectsOfMore(objs, vars[x].d);
      ValidAfterSplit(vars, objs, st, x, vars[x].d);
    }
  }

  // ... seen from all variables
  method AppendThroughOne(
      vars: map<nat, DN>, x: nat, attr: Attribute, ghost objs: seq<Private>, ghost st: State, ghost alone: bool)
    returns (ghost objs': seq<Private>)
    requires Valid(vars, objs, st) && x in vars && (alone <==> vars[x].d.sharers == {vars[x]})
    modifies vars[x], objs[st.env[x]]
    ensures OthersPoint(vars, objs, st.env, x) && OthersHold(objs, st.objects, st.env[x])
    ensures Appended(vars[x], objs, objs', st.env[x], ObjectOf(st, x), attr, alone)
    ensures Sound(Handles(vars), Objects(objs')) && fresh(Objects(objs') - Objects(objs))
  {
    objs' := AppendThrough(vars[x], attr, Handles(vars), objs, st.objects, st.env[x], alone);
  }

  method AppendTo(vars: map<nat, DN>, x: nat, attr: Attribute, ghost objs: seq<Private>, ghost st: State)
    returns (ghost objs': seq<Private>)
    requires Valid(vars, objs, st) && x in vars
    modifies Handles(vars), Objects(objs)
    ensures Valid(vars, objs', Next(Append(x, attr), st))
    ensures fresh(Objects(objs') - Objects(objs))
  {
    AloneExact(vars, objs, st, x);
    objs' := AppendThroughOne(vars, x, attr, objs, st, Users(st, st.env[x]) == {x});
    ValidAfterAppend(vars, objs, objs', st, x, attr);
  }

  method SetOrderOf(vars: map<nat, DN>, x: nat, order: seq<string>, ghost objs: seq<Private>, ghost st: State)
    requires Valid(vars, objs, st) && x in vars
    modifies Objects(objs)
    ensures Valid(vars, objs, Next(SetOrder(x, order), st))
  {
    ghost var o := ObjectOf(st, x).(order := order);
    assert Next(SetOrder(x, order), st) == Changed(st, x, o);
    vars[x].SetAttributeOrder(order, Handles(vars), Objects(objs));
    assert Contents(vars[x].d) == o;
    ValidAfterChange(vars, objs, st, x);
  }

  method ShowText(vars: map<nat, DN>, x: nat, ghost objs: seq<Private>, ghost st: State) returns (e: Shown)
    requires Valid(vars, objs, st) && x in vars
    modifies Objects(objs)
    ensures Valid(vars, objs, Next(Pretty(x), st)) && AnswerTo(Pretty(x), st) == [e]
  {
    ghost var o := ObjectOf(st, x);
    ghost var cached := o.(cache := ListOf(o));
    assert Next(Pretty(x), st) == Changed(st, x, cached) && AnswerTo(Pretty(x), st) == [TextOf(o)];
    assert Contents(vars[x].d) == o;
    var text := vars[x].PrettyDN(Handles(vars), Objects(objs));
    e := Printed(vars[x].d.attributes, vars[x].d.order, text);
    assert Contents(vars[x].d) == cached && e == TextOf(o);
    ValidAfterChange(vars, objs, st, x);
  }

  method ShowList(vars: map<nat, DN>, x: nat, ghost objs: seq<Private>, ghost st: State) returns (e: Shown)
    requires Valid(vars, objs, st) && x in vars
    modifies Objects(objs)
    ensures Valid(vars, objs, Next(PrettyList(x), st)) && AnswerTo(PrettyList(x), st) == [e]
  {
    ghost var o := ObjectOf(st, x);
    ghost var cached := o.(cache := ListOf(o));
    assert Next(PrettyList(x), st) == Changed(st, x, cached) && AnswerTo(PrettyList(x), st) == [ItemsOf(o)];
    assert Contents(vars[x].d) == o;
    var items := vars[x].PrettyAttributes(Handles(vars), Objects(objs));
    e := Listed(vars[x].d.attributes, vars[x].d.order, items);
    assert Contents(vars[x].d) == cached && e == ItemsOf(o);
    ValidAfterChange(vars, objs, st, x);
  }

  method Step(op: Op, vars: map<nat, DN>, ghost objs: seq<Private>, ghost st: State)
    returns (vars': map<nat, DN>, ghost objs': seq<Private>, shown: seq<Shown>)
    requires Valid(vars, objs, st) && Enabled(op, vars.Keys)
    modifies Handles(vars), Objects(objs)
    ensures Valid(vars', objs', Next(op, st))
    ensures fresh(Handles(vars') - Handles(vars)) && fresh(Objects(objs') - Objects(objs))
    ensures shown == AnswerTo(op, st)
  {
    vars', objs', shown := vars, objs, [];
    match op
    case New(x) =>
      vars', objs' := Create(vars, x, objs, st);
    case FromText(x, text) =>
      vars', objs' := CreateFromText(vars, x, text, objs, st);
    case Copy(x, y) =>
      vars' := CreateCopy(vars, x, y, objs, st);
    case Assign(x, y) =>
      AssignTo(vars, x, y, objs, st);
    case Destroy(x) =>
      vars' := DestroyOf(vars, x, objs, st);
    case Append(x, attr) =>
      objs' := AppendTo(vars, x, attr, objs, st);
    case SetOrder(x, order) =>
      SetOrderOf(vars, x, order, objs, st);
    case Pretty(x) =>
      var e := ShowText(vars, x, objs, st);
      shown := [e];
    case PrettyList(x) =>
      var e := ShowList(vars, x, objs, st);
      shown := [e];
  }

  method TakeTurn(op: Op, vars: map<nat, DN>, ghost objs: seq<Private>, ghost st: State)
    returns (vars': map<nat, DN>, ghost objs': seq<Private>, shown: seq<Shown>)
    requires Valid(vars, objs, st)
    modifies Handles(vars), Objects(objs)
    ensures Valid(vars', objs', Turn(op, st))
    ensures fresh(Handles(vars') - Handles(vars)) && fresh(Objects(objs') - Objects(objs))
    ensures shown == AnswerTo(op, st)
  {
    vars', objs', shown := vars, objs, [];
    if Enabled(op, vars.Keys) {
      vars', objs', shown := Step(op, vars, objs, st);
    }
  }

  lemma LogTurn(ops: seq<Op>, i: nat, st: State, log: seq<Shown>)
    requires WellFormed(st) && i < |ops|
    ensures After(ops[i..], st) == After(ops[i + 1..], Turn(ops[i], st))
    ensures log + LogOf(ops[i..], st) == log + AnswerTo(ops[i], st) + LogOf(ops[i + 1..], Turn(ops[i], st))
  {
    assert ops[i..] == [ops[i]] + ops[i + 1..];
    AfterCons(ops[i], ops[i + 1..], st);
    ConcatAssociates(log, AnswerTo(ops[i], st), LogOf(ops[i + 1..], Turn(ops[i], st)));
  }

  // Every run on the heap ends in the state of the machine, with all counters right and
  // exactly the objects freed that no variable is on, and prints what the machine prints.
  method Run(ops: seq<Op>) returns (vars: map<nat, DN>, ghost objs: seq<Private>, log: seq<Shown>)
    ensures var st := After(ops, START);
            Valid(vars, objs, st) && Counts(objs, st)
    ensures log == LogOf(ops, START)
  {
    vars, objs, log := map[], [], [];
    ghost var st := START;
    var i := 0;
    while i < |ops|
      invariant 0 <= i <= |ops| && Valid(vars, objs, st)
      invariant fresh(Handles(vars)) && fresh(Objects(objs))
      invariant After(ops[i..], st) == After(ops, START)
      invariant log + LogOf(ops[i..], st) == LogOf(ops, START)
    {
      LogTurn(ops, i, st, log);
      var shown;
      vars, objs, shown := TakeTurn(ops[i], vars, objs, st);
      log, st, i := log + shown, Turn(ops[i], st), i + 1;
    }
    assert ops[i..] == [] && log + [] == log;
    CountsRight(vars, objs, st);
  }
}
