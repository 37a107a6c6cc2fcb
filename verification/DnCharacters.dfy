// The characters and names that the parser and the printer of distinguished names go by,
// spelled out (src/dn.cpp; sections 2.4 and 3 of RFC 2253).

module DnCharacters {
  import opened DnGrammar
  import opened DnHandle
  import opened DnParser
  import opened DnPrinter
  import opened DnReorder
  import opened DnRoundTrip
  import opened DnSpelling
  import opened Text

  // ---------- Separators

  // A name with a quoted value
  function QuotedAttribute(name: string, v: string): string
    requires Quotable(v)
  {
    name + ['='] + (Written(Quoted(QuotedUnits(v))) + [])
  }

  // A name that can stand behind any character without being taken for blanks or a separator
  predicate PlainName(name: string) {
    && name != "" && '=' !in name && AttributeName(name) != ""
    && name[0] != ' ' && name[0] != ',' && name[0] != ';' && name[0] != '+'
  }

  function PairWith(name: string, v: string): Pair {
    Pair(AttributeName(name), v)
  }

  // One quoted attribute, and whatever follows
  lemma QuotedIsCut(name: string, v: string, rest: string)
    requires PlainName(name) && Quotable(v)
    ensures var s := name + ['='] + (Written(Quoted(QuotedUnits(v))) + rest);
            TrimStart(s, SPACE) == s && ReadPart(s) == Some(Part(rest, PairWith(name, v)))
  {
    QuotedUnitsMean(v);
    AttributeIsRead(name, Quoted(QuotedUnits(v)), rest);
  }

  lemma LastQuotedIsRead(name: string, v: string)
    requires PlainName(name) && Quotable(v) && v != ""
    ensures ReadDn(QuotedAttribute(name, v)) == Some([PairWith(name, v)])
  {
    QuotedIsCut(name, v, []);
  }

  lemma QuotedGoesOn(name: string, v: string, rest: string)
    requires PlainName(name) && Quotable(v)
    ensures ReadDn(name + ['='] + (Written(Quoted(QuotedUnits(v))) + rest)) ==
            Continue(Part(rest, PairWith(name, v)))
  {
    QuotedIsCut(name, v, rest);
  }

  // What a character between two attributes does
  lemma BetweenExact(p: Pair, c: char, tail: string)
    requires tail != "" && tail[0] != ' ' && tail[0] != ',' && tail[0] != ';' && tail[0] != '+'
    ensures Continue(Part([c] + tail, p)) ==
            if (c == ',' || c == ';' || c == '+') && ReadDn(tail).Some? then Some(Kept(p) + ReadDn(tail).value)
            else None
  {
    var rest := [c] + tail;
    assert rest[1..] == tail;
    assert TrimStart(tail, SPACE) == tail;
    assert TrimStart(rest, SPACE) == if c == ' ' then tail else rest;
  }

  // Two attributes with a character between them are both read if and only if that is a comma,
  // a semicolon or a plus sign; behind any other the parser gives up.
  lemma SeparatorExact(a: string, v: string, c: char, b: string, w: string)
    requires PlainName(a) && Quotable(v) && v != "" && PlainName(b) && Quotable(w) && w != ""
    ensures var s := a + ['='] + (Written(Quoted(QuotedUnits(v))) + ([c] + QuotedAttribute(b, w)));
            ReadDn(s) == if c == ',' || c == ';' || c == '+' then Some([PairWith(a, v), PairWith(b, w)]) else None
  {
    var tail := QuotedAttribute(b, w);
    QuotedGoesOn(a, v, [c] + tail);
    LastQuotedIsRead(b, w);
    assert tail[0] == b[0];
    BetweenExact(PairWith(a, v), c, tail);
    assert [PairWith(a, v)] + [PairWith(b, w)] == [PairWith(a, v), PairWith(b, w)];
  }

  // Between quotes, a value without quotes and backslashes is written as it is.
  lemma {:induction false} QuotedAsWritten(v: string)
    requires '"' !in v && '\\' !in v
    ensures Quotable(v) && Written(Quoted(QuotedUnits(v))) == "\"" + v + "\""
  {
    NoBackslashIsQuotable(v);
    UnitsAsWritten(v);
  }

  lemma {:induction false} UnitsAsWritten(v: string)
    requires '"' !in v && '\\' !in v && Quotable(v)
    ensures RenderUnits(QuotedUnits(v)) == v
  {
    if v != [] {
      UnitsAsWritten(v[1..]);
      assert QuotedUnits(v)[1..] == QuotedUnits(v[1..]);
    }
  }

  // For instance, NAME="value" and another one
  lemma TwoQuotedExact(a: string, v: string, c: char, b: string, w: string)
    requires PlainName(a) && v != "" && '"' !in v && '\\' !in v
    requires PlainName(b) && w != "" && '"' !in w && '\\' !in w
    ensures ParsedDn(a + "=" + ("\"" + v + "\"" + ([c] + (b + "=" + ("\"" + w + "\""))))) ==
            if c == ',' || c == ';' || c == '+' then [PairWith(a, v), PairWith(b, w)] else []
  {
    QuotedAsWritten(v);
    QuotedAsWritten(w);
    SeparatorExact(a, v, c, b, w);
    assert "\"" + w + "\"" + [] == "\"" + w + "\"";
  }

  // Each of the three can be printed between attributes.
  lemma RoundTripOfThree(dn: seq<Attribute>)
    requires AllConstructed(dn) && forall a :: a in dn ==> Survives(a)
    ensures AttributesOf(Serialised(dn, ",")) == dn
    ensures AttributesOf(Serialised(dn, ";")) == dn
    ensures AttributesOf(Serialised(dn, "+")) == dn
  {
    RoundTrip(dn, ",");
    RoundTrip(dn, ";");
    RoundTrip(dn, "+");
  }

  // ---------- Characters of a plain value

  lemma ScanOne(c: char)
    requires !IsStop(c) && c != '\\' && c != '"'
    ensures ScanPlain([c]) == Some(Scanned([Raw(c)], []))
  {
    assert [c][1..] == [];
    assert [Raw(c)] + [] == [Raw(c)];
  }

  // In the middle of a plain value these seven end it, a bare quote or a backslash that escapes
  // nothing is an error, and everything else is part of it.
  lemma PlainCharacterExact(c: char)
    ensures ReadValue(['x', c, 'y']) ==
            if c == ',' || c == '=' || c == '+' || c == '<' || c == '>' || c == '#' || c == ';'
            then Some(Value([c, 'y'], "x"))
            else if c == '"' || c == '\\' then None
            else Some(Value("", ['x', c, 'y']))
  {
    var s := ['x', c, 'y'];
    assert s[1..] == [c, 'y'] && s[1..][1..] == ['y'];
    ScanOne('y');
    assert [Raw('x')] + [] == [Raw('x')];
    if !IsStop(c) && c != '"' && c != '\\' {
      var ts := [Raw('x'), Raw(c), Raw('y')];
      assert [Raw('x')] + ([Raw(c)] + [Raw('y')]) == ts;
      assert ScanPlain(s) == Some(Scanned(ts, []));
      PlainValueExact(ts);
      assert Meaning(ts) == s;
    } else if c != '"' && c != '\\' {
      var ts := [Raw('x')];
      assert ScanPlain(s) == Some(Scanned(ts, [c, 'y']));
      PlainValueExact(ts);
      assert Meaning(ts) == "x";
    } else {
      assert ScanPlain([c, 'y']) == None;
      assert ScanPlain(s) == None;
    }
  }

  // A backslash alone makes one of these ten a character of the value.
  lemma EscapedCharacterExact(c: char)
    ensures ReadValue(['\\', c]) ==
            if c == ',' || c == '=' || c == '+' || c == '<' || c == '>' || c == '#' || c == ';'
               || c == '\\' || c == '"' || c == ' '
            then Some(Value("", [c]))
            else None
  {
    var s := ['\\', c];
    assert s[2..] == [];
    if IsEscapable(c) {
      var ts := [Escaped(c)];
      assert ts + [] == ts;
      assert ScanPlain(s) == Some(Scanned(ts, []));
      PlainValueExact(ts);
      assert Meaning(ts) == [c];
    }
  }

  // A plain value is what its tokens stand for, less spaces at the end: all of them, or none
  // behind an escaped space.
  lemma PlainValueIsTrimmed(ts: seq<Token>) returns (spaces: string)
    requires WellFormed(ts)
    ensures Meaning(ts) == PlainValue(ts) + spaces && forall i :: 0 <= i < |spaces| ==> spaces[i] == ' '
    ensures ts != [] && ts[|ts| - 1] == Escaped(' ') ==> spaces == ""
    ensures ts != [] && ts[|ts| - 1] != Escaped(' ') && PlainValue(ts) != "" ==>
              PlainValue(ts)[|PlainValue(ts)| - 1] != ' '
  {
    var m, v := Meaning(ts), PlainValue(ts);
    TrimEndCuts(m, SPACE);
    spaces := m[|v|..];
  }

  // ---------- Characters of the printer

  // One character of a printed value; `EscapeConcat` makes it the law for all values.
  lemma EscapedExact(c: char)
    ensures Escape([c]) ==
            if c == ',' || c == '+' || c == '"' || c == '\\' || c == '<' || c == '>' || c == ';' then ['\\', c]
            else [c]
  {
    assert [c][1..] == [];
  }

  // An attribute without a name or a value is not printed; every other is, as its trimmed name, an
  // equals sign, and its trimmed and escaped value.
  lemma ItemExact(a: Attribute)
    ensures Items([a]) ==
            if a.name == "" || a.value == "" then []
            else [Trim(a.name, WHITESPACE) + "=" + Escape(Trim(a.value, WHITESPACE))]
  {
    assert [a][1..] == [];
  }

  // ---------- Names

  // The names of the object identifiers, and of ST
  const NAME_OF: map<string, string> :=
    map["ST" := "SP",
        "0.2.262.1.10.7.20" := "NameDistinguisher",
        "1.2.840.113549.1.9.1" := "EMAIL",
        "2.5.4.3" := "CN",
        "2.5.4.4" := "SN",
        "2.5.4.5" := "SerialNumber",
        "2.5.4.12" := "T",
        "2.5.4.13" := "D",
        "2.5.4.15" := "BC",
        "2.5.4.16" := "ADDR",
        "2.5.4.17" := "PC",
        "2.5.4.42" := "GN",
        "2.5.4.65" := "Pseudo"]

  lemma RowIsListed(i: nat)
    requires i < OID_ROWS
    ensures OidRow(i).oid in NAME_OF && NAME_OF[OidRow(i).oid] == OidRow(i).shown
  {
  }

  // The first row with an identifier is its only one.
  lemma {:induction false} LookupListed(i: nat, j: nat)
    requires i <= j < OID_ROWS
    ensures Lookup(OidRow(j).oid, i) == OidRow(j).shown
    decreases j - i
  {
    if i < j {
      RowsDiffer(i, j);
      LookupListed(i + 1, j);
    }
  }

  lemma RowsDiffer(i: nat, j: nat)
    requires i < j < OID_ROWS
    ensures OidRow(i).oid != OidRow(j).oid
  {
  }

  lemma {:induction false} ListedIsRow(oid: string) returns (j: nat)
    requires oid in NAME_OF
    ensures j < OID_ROWS && OidRow(j).oid == oid
  {
    j := if oid == "ST" then 0
         else if oid == "0.2.262.1.10.7.20" then 1
         else if oid == "1.2.840.113549.1.9.1" then 2
         else if oid == "2.5.4.3" then 3
         else if oid == "2.5.4.4" then 4
         else if oid == "2.5.4.5" then 5
         else if oid == "2.5.4.12" then 6
         else if oid == "2.5.4.13" then 7
         else if oid == "2.5.4.15" then 8
         else if oid == "2.5.4.16" then 9
         else if oid == "2.5.4.17" then 10
         else if oid == "2.5.4.42" then 11
         else 12;
  }

  lemma LookupIsListed(oid: string)
    ensures Lookup(oid, 0) == if oid in NAME_OF then NAME_OF[oid] else ""
    ensures oid in NAME_OF ==> NAME_OF[oid] != ""
  {
    if oid in NAME_OF {
      var j := ListedIsRow(oid);
      LookupListed(0, j);
      RowIsListed(j);
    } else if Lookup(oid, 0) != "" {
      var k := LookupFinds(oid, 0);
      RowIsListed(k);
      assert false;
    }
  }

  // The name that is reported for the text before an equals sign: identifiers, with OID. in front
  // or not, and ST become the names above, and everything else stays as it is.
  lemma AttributeNameExact(text: string)
    ensures var key := TrimEnd(text, SPACE);
            var oid := if "OID." <= key || "oid." <= key then key[4..] else key;
            AttributeName(text) == if oid in NAME_OF then NAME_OF[oid] else key
  {
    var key := TrimEnd(text, SPACE);
    var oid := StripOidPrefix(key);
    assert oid == if "OID." <= key || "oid." <= key then key[4..] else key;
    LookupIsListed(oid);
  }

  // ---------- The default order

  lemma OneByOne(dn: seq<Attribute>, unknown: seq<Attribute>, name: string, order: seq<string>)
    ensures Arrange(dn, unknown, [name] + order) ==
            if name == "_X_" then unknown + Arrange(dn, [], order) else Named(dn, name) + Arrange(dn, unknown, order)
  {
    assert ([name] + order)[1..] == order;
  }

  lemma ThreeNames(dn: seq<Attribute>, unknown: seq<Attribute>, a: string, b: string, c: string)
    requires a != "_X_" && b != "_X_" && c != "_X_"
    ensures Arrange(dn, unknown, [a, b, c]) == Named(dn, a) + (Named(dn, b) + Named(dn, c))
  {
    OneByOne(dn, unknown, a, [b, c]);
    OneByOne(dn, unknown, b, [c]);
    OneByOne(dn, unknown, c, []);
    assert [a] + [b, c] == [a, b, c] && [b] + [c] == [b, c] && [c] + [] == [c];
    assert Named(dn, c) + [] == Named(dn, c);
  }

  lemma AroundRest(
      dn: seq<Attribute>, unknown: seq<Attribute>, a: string, b: string, c: string, d: string, e: string)
    requires a != "_X_" && b != "_X_" && c != "_X_" && d != "_X_" && e != "_X_"
    ensures Arrange(dn, unknown, [a, b, "_X_", c, d, e]) ==
            Named(dn, a) + (Named(dn, b) + (unknown + (Named(dn, c) + (Named(dn, d) + Named(dn, e)))))
  {
    var tail := [c, d, e];
    OneByOne(dn, unknown, a, [b] + (["_X_"] + tail));
    OneByOne(dn, unknown, b, ["_X_"] + tail);
    OneByOne(dn, unknown, "_X_", tail);
    ThreeNames(dn, [], c, d, e);
    assert [a] + ([b] + (["_X_"] + tail)) == [a, b, "_X_", c, d, e];
  }

  // By the order that a copy gets, CN and L come first, and OU, O and C last.
  lemma DefaultOrderExact(dn: seq<Attribute>)
    ensures Reordered(dn, DEFAULT_ORDER) ==
            Named(dn, "CN") + (Named(dn, "L") +
            (Unknown(dn, ["CN", "L", "_X_", "OU", "O", "C"]) +
            (Named(dn, "OU") + (Named(dn, "O") + Named(dn, "C")))))
  {
    AroundRest(dn, Unknown(dn, DEFAULT_ORDER), "CN", "L", "OU", "O", "C");
  }
}
