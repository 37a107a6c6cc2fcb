// Reading the answer of an Active Directory query, whose values may be folded onto several
// lines (parse_query_result in src/qgpgmeadqueryjob.cpp).

module AdQuery {
  import opened Text
  import Split

  datatype Attribute = Attribute(name: string, value: string)

  // What one line does to the attributes found so far
  function AddLine(found: seq<Attribute>, line: string): seq<Attribute> {
    if line == "" then found
    else if line[0] == ' ' then
      if found == [] then found
      else
        var last := found[|found| - 1];
        found[..|found| - 1] + [last.(value := last.value + line[1..])]
    else
      var nameEnd := IndexOf(line, ':');
      if nameEnd + 1 >= |line| || line[nameEnd + 1] != ' ' then found
      else found + [Attribute(line[..nameEnd], line[nameEnd + 2..])]
  }

  function AddLines(found: seq<Attribute>, lines: seq<string>): seq<Attribute>
    decreases |lines|
  {
    if lines == [] then found else AddLines(AddLine(found, lines[0]), lines[1..])
  }

  function Parsed(data: string): seq<Attribute> {
    AddLines([], Pieces(data, '\n'))
  }

  method ParseQueryResult(resultData: string) returns (result: seq<Attribute>)
    ensures result == Parsed(resultData)
  {
    result := [];
    var lines := Split.Split(resultData, '\n');
    var i := 0;
    while i < |lines|
      invariant 0 <= i <= |lines|
      invariant AddLines(result, lines[i..]) == Parsed(resultData)
    {
      var line := lines[i];
      assert lines[i..][0] == line && lines[i..][1..] == lines[i + 1..];
      i := i + 1;
      if line == "" {
        continue;
      }
      if line[0] == ' ' {
        if result != [] {
          var last := result[|result| - 1];
          result := result[..|result| - 1] + [last.(value := last.value + line[1..])];
        }
      } else {
        var nameEnd := IndexOf(line, ':');
        if nameEnd == |line| || nameEnd + 1 == |line| || line[nameEnd + 1] != ' ' {
          continue;
        }
        result := result + [Attribute(line[..nameEnd], line[nameEnd + 2..])];
      }
    }
  }

  // ---------- Writing folded values

  function Concat(pieces: seq<string>): string {
    if pieces == [] then "" else pieces[0] + Concat(pieces[1..])
  }

  // An attribute, and the pieces that its value is cut into; there is at least one.
  datatype Folded = Folded(attribute: Attribute, first: string, more: seq<string>)

  predicate IsFolding(f: Folded) {
    f.attribute.value == f.first + Concat(f.more)
  }

  function Continuations(more: seq<string>): seq<string> {
    seq(|more|, i requires 0 <= i < |more| => " " + more[i])
  }

  function LinesOf(f: Folded): seq<string> {
    [f.attribute.name + ": " + f.first] + Continuations(f.more)
  }

  function Lines(fs: seq<Folded>): seq<string> {
    if fs == [] then [] else LinesOf(fs[0]) + Lines(fs[1..])
  }

  function Attributes(fs: seq<Folded>): (r: seq<Attribute>)
    ensures |r| == |fs|
  {
    seq(|fs|, i requires 0 <= i < |fs| => fs[i].attribute)
  }

  function Written(fs: seq<Folded>): string {
    Join(Lines(fs), "\n")
  }

  // What the line format can carry
  predicate Clean(a: Attribute) {
    && ':' !in a.name && '\n' !in a.name && (a.name == "" || a.name[0] != ' ')
    && '\n' !in a.value
  }

  // ---------- Reading them back

  lemma {:induction false} AddLinesConcat(found: seq<Attribute>, a: seq<string>, b: seq<string>)
    ensures AddLines(found, a + b) == AddLines(AddLines(found, a), b)
    decreases |a|
  {
    if a == [] {
      assert a + b == b;
    } else {
      assert (a + b)[1..] == a[1..] + b;
      AddLinesConcat(AddLine(found, a[0]), a[1..], b);
    }
  }

  lemma FirstLineIsRead(found: seq<Attribute>, name: string, first: string)
    requires ':' !in name && (name == "" || name[0] != ' ')
    ensures AddLine(found, name + ": " + first) == found + [Attribute(name, first)]
  {
    var line := name + ": " + first;
    assert line == name + [':'] + (" " + first);
    IndexOfSeparator(name, ':', " " + first);
    assert line[|name| + 1..] == " " + first;
    assert line[|name| + 2..] == first;
  }

  lemma {:induction false} ContinuationsAreRead(found: seq<Attribute>, name: string, value: string, more: seq<string>)
    ensures AddLines(found + [Attribute(name, value)], Continuations(more)) ==
            found + [Attribute(name, value + Concat(more))]
    decreases |more|
  {
    if more == [] {
      assert value + "" == value;
    } else {
      var lines := Continuations(more);
      var s := found + [Attribute(name, value)];
      assert lines[0][1..] == more[0] && lines[1..] == Continuations(more[1..]);
      assert s[..|s| - 1] == found;
      ContinuationsAreRead(found, name, value + more[0], more[1..]);
      ConcatAssociates(value, more[0], Concat(more[1..]));
    }
  }

  lemma {:induction false} LinesAreRead(found: seq<Attribute>, fs: seq<Folded>)
    requires forall f :: f in fs ==> IsFolding(f) && Clean(f.attribute)
    ensures AddLines(found, Lines(fs)) == found + Attributes(fs)
    decreases |fs|
  {
    if fs == [] {
      assert found + [] == found;
    } else {
      var f := fs[0];
      var name := f.attribute.name;
      assert f in fs;
      var lines := LinesOf(f);
      AddLinesConcat(found, lines, Lines(fs[1..]));
      FirstLineIsRead(found, name, f.first);
      assert lines[1..] == Continuations(f.more);
      ContinuationsAreRead(found, name, f.first, f.more);
      LinesAreRead(found + [f.attribute], fs[1..]);
      assert [f.attribute] + Attributes(fs[1..]) == Attributes(fs);
      ConcatAssociates(found, [f.attribute], Attributes(fs[1..]));
    }
  }

  lemma {:induction false} ConcatKeeps(pieces: seq<string>, c: char)
    requires c !in Concat(pieces)
    ensures forall p :: p in pieces ==> c !in p
  {
    if pieces != [] {
      forall x | x in pieces[0] ensures x != c {
        assert x in Concat(pieces);
      }
      forall x | x in Concat(pieces[1..]) ensures x != c {
        assert x in Concat(pieces);
      }
      ConcatKeeps(pieces[1..], c);
    }
  }

  lemma LinesOfAreLines(f: Folded)
    requires IsFolding(f) && Clean(f.attribute)
    ensures forall line :: line in LinesOf(f) ==> '\n' !in line
  {
    assert forall x :: x in f.first ==> x in f.attribute.value;
    assert forall x :: x in Concat(f.more) ==> x in f.attribute.value;
    ConcatKeeps(f.more, '\n');
    forall line | line in LinesOf(f) ensures '\n' !in line {
      var i :| 0 <= i < |LinesOf(f)| && LinesOf(f)[i] == line;
      if i > 0 {
        assert f.more[i - 1] in f.more;
      }
    }
  }

  lemma {:induction false} LinesHaveNoBreak(fs: seq<Folded>)
    requires forall f :: f in fs ==> IsFolding(f) && Clean(f.attribute)
    ensures forall line :: line in Lines(fs) ==> '\n' !in line
  {
    if fs != [] {
      assert fs[0] in fs;
      LinesOfAreLines(fs[0]);
      LinesHaveNoBreak(fs[1..]);
    }
  }

  // Whatever the text, only clean attributes are ever read from it.
  lemma AddLineIsClean(found: seq<Attribute>, line: string)
    requires '\n' !in line && forall a :: a in found ==> Clean(a)
    ensures forall a :: a in AddLine(found, line) ==> Clean(a)
  {
    if line != "" {
      if line[0] == ' ' {
        if found != [] {
          var last := found[|found| - 1];
          assert last in found;
          assert forall x :: x in line[1..] ==> x in line;
          assert Clean(last.(value := last.value + line[1..]));
        }
      } else {
        var nameEnd := IndexOf(line, ':');
        IndexOfIsFirst(line, ':');
        assert forall x :: x in line[..nameEnd] ==> x in line;
        if nameEnd + 1 < |line| {
          assert forall x :: x in line[nameEnd + 2..] ==> x in line;
        }
      }
    }
  }

  lemma {:induction false} AddLinesAreClean(found: seq<Attribute>, lines: seq<string>)
    requires forall line :: line in lines ==> '\n' !in line
    requires forall a :: a in found ==> Clean(a)
    ensures forall a :: a in AddLines(found, lines) ==> Clean(a)
    decreases |lines|
  {
    if lines != [] {
      AddLineIsClean(found, lines[0]);
      AddLinesAreClean(AddLine(found, lines[0]), lines[1..]);
    }
  }

  // Folding is invisible: however the values are cut, the text is read back as the
  // attributes, if and only if all of them are clean.
  lemma FoldingIsInvisible(fs: seq<Folded>)
    requires forall f :: f in fs ==> IsFolding(f)
    ensures Parsed(Written(fs)) == Attributes(fs) <==> forall f :: f in fs ==> Clean(f.attribute)
  {
    if forall f :: f in fs ==> Clean(f.attribute) {
      LinesHaveNoBreak(fs);
      LinesAreRead([], fs);
      assert [] + Attributes(fs) == Attributes(fs);
      if fs != [] {
        PiecesOfJoin(Lines(fs), '\n');
      }
    }
    if Parsed(Written(fs)) == Attributes(fs) {
      PiecesJoin(Written(fs), '\n');
      AddLinesAreClean([], Pieces(Written(fs), '\n'));
      forall f | f in fs ensures Clean(f.attribute) {
        var i :| 0 <= i < |fs| && fs[i] == f;
        assert Attributes(fs)[i] in Parsed(Written(fs));
      }
    }
  }

  // A final line break changes nothing.
  lemma FinalBreakIsIgnored(data: string)
    ensures Parsed(data + "\n") == Parsed(data)
  {
    var lines := Pieces(data, '\n');
    PiecesJoin(data, '\n');
    JoinSnoc(lines, "", "\n");
    assert Join(lines + [""], "\n") == data + "\n";
    PiecesOfJoin(lines + [""], '\n');
    AddLinesConcat([], lines, [""]);
  }

  // ---------- Lines one by one

  // A line that is neither empty nor a continuation adds an attribute if and only if it is one: a
  // name without a colon, a colon and a space, and the value. Every other one is skipped.
  lemma LineExact(found: seq<Attribute>, line: string, a: Attribute)
    requires line != "" && line[0] != ' '
    ensures AddLine(found, line) == found + [a] <==> ':' !in a.name && line == a.name + ": " + a.value
    ensures AddLine(found, line) == found || exists b :: AddLine(found, line) == found + [b]
  {
    var k := IndexOf(line, ':');
    IndexOfIsFirst(line, ':');
    if ':' !in a.name && line == a.name + ": " + a.value {
      FirstLineIsRead(found, a.name, a.value);
    }
    if k + 1 < |line| && line[k + 1] == ' ' {
      var b := Attribute(line[..k], line[k + 2..]);
      assert AddLine(found, line) == found + [b];
      assert line == b.name + ": " + b.value;
      if found + [b] == found + [a] {
        assert (found + [b])[|found|] == (found + [a])[|found|];
      }
    } else {
      assert |found| != |found + [a]|;
    }
  }

  // An empty line changes nothing; a continuation extends the last value, if there is one.
  lemma OtherLinesExact(found: seq<Attribute>, last: Attribute, more: string)
    ensures AddLine(found, "") == found && AddLine([], " " + more) == []
    ensures AddLine(found + [last], " " + more) == found + [Attribute(last.name, last.value + more)]
  {
    var all, line := found + [last], " " + more;
    assert line[1..] == more && all[..|all| - 1] == found;
  }
}
