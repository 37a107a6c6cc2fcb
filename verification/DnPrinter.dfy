// The printer of src/dn.cpp, and when the parser undoes it.

module DnPrinter {
  import opened Text
  import opened DnGrammar
  import opened DnParser
  import opened DnSpelling

  // The constructor of the source upper-cases the name.
  datatype Attribute = Attribute(name: string, value: string)

  predicate Constructed(a: Attribute) {
    Upper(a.name) == a.name
  }

  predicate AllConstructed(dn: seq<Attribute>) {
    forall a :: a in dn ==> Constructed(a)
  }

  function ToAttribute(p: Pair): Attribute {
    Attribute(Upper(p.name), p.value)
  }

  function ToAttributes(pairs: seq<Pair>): (r: seq<Attribute>)
    ensures |r| == |pairs|
  {
    seq(|pairs|, i requires 0 <= i < |pairs| => ToAttribute(pairs[i]))
  }

  // The attributes that a text reads as
  function AttributesOf(s: string): seq<Attribute> {
    ToAttributes(ParsedDn(s))
  }

  method ParseDn(view: string) returns (list: seq<Attribute>)
    ensures list == AttributesOf(view)
  {
    var parsed := ParseString(view);
    list := [];
    for i := 0 to |parsed|
      invariant list == ToAttributes(parsed)[..i]
    {
      list := list + [ToAttribute(parsed[i])];
    }
  }

  // ---------- Printing

  predicate NeedsBackslash(c: char) {
    c == ',' || c == '+' || c == '"' || c == '\\' || c == '<' || c == '>' || c == ';'
  }

  function EscapeChar(c: char): string {
    if NeedsBackslash(c) then ['\\', c] else [c]
  }

  function Escape(s: string): string {
    if s == [] then [] else EscapeChar(s[0]) + Escape(s[1..])
  }

  lemma {:induction false} EscapeConcat(s: string, t: string)
    ensures Escape(s + t) == Escape(s) + Escape(t)
  {
    if s == [] {
      assert s + t == t;
    } else {
      assert (s + t)[1..] == s[1..] + t;
      EscapeConcat(s[1..], t);
      ConcatAssociates(EscapeChar(s[0]), Escape(s[1..]), Escape(t));
    }
  }

  method DnEscape(s: string) returns (result: string)
    ensures result == Escape(s)
  {
    result := "";
    for i := 0 to |s|
      invariant result == Escape(s[..i])
    {
      var ch := s[i];
      EscapeConcat(s[..i], [ch]);
      assert s[..i + 1] == s[..i] + [ch];
      if NeedsBackslash(ch) {
        result := result + "\\";
      }
      result := result + [ch];
    }
    assert s[..|s|] == s;
  }

  function ItemText(a: Attribute): string {
    Trim(a.name, WHITESPACE) + ['='] + Escape(Trim(a.value, WHITESPACE))
  }

  predicate IsPrinted(a: Attribute) {
    a.name != "" && a.value != ""
  }

  function Items(dn: seq<Attribute>): seq<string> {
    if dn == [] then []
    else (if IsPrinted(dn[0]) then [ItemText(dn[0])] else []) + Items(dn[1..])
  }

  lemma {:induction false} ItemsConcat(dn: seq<Attribute>, more: seq<Attribute>)
    ensures Items(dn + more) == Items(dn) + Items(more)
  {
    if dn == [] {
      assert dn + more == more;
    } else {
      assert (dn + more)[1..] == dn[1..] + more;
      ItemsConcat(dn[1..], more);
      ConcatAssociates(if IsPrinted(dn[0]) then [ItemText(dn[0])] else [], Items(dn[1..]), Items(more));
    }
  }

  method ListAttributes(dn: seq<Attribute>) returns (result: seq<string>)
    ensures result == Items(dn)
  {
    result := [];
    for i := 0 to |dn|
      invariant result == Items(dn[..i])
    {
      ItemsConcat(dn[..i], [dn[i]]);
      assert dn[..i + 1] == dn[..i] + [dn[i]];
      if dn[i].name != "" && dn[i].value != "" {
        var value := DnEscape(Trim(dn[i].value, WHITESPACE));
        result := result + [Trim(dn[i].name, WHITESPACE) + ['='] + value];
      }
    }
    assert dn[..|dn|] == dn;
  }

  function Serialised(dn: seq<Attribute>, sep: string): string {
    Join(Items(dn), sep)
  }

  method Serialise(dn: seq<Attribute>, sep: string) returns (result: string)
    ensures result == Serialised(dn, sep)
  {
    var items := ListAttributes(dn);
    result := Join(items, sep);
  }

  // ---------- What can be read back

  predicate Trimmed(s: string) {
    s == [] || (s[0] !in WHITESPACE && s[|s| - 1] !in WHITESPACE)
  }

  lemma TrimIsTrimmed(s: string)
    ensures Trimmed(Trim(s, WHITESPACE))
    ensures |Trim(s, WHITESPACE)| <= |s|
    ensures |Trim(s, WHITESPACE)| == |s| ==> Trim(s, WHITESPACE) == s
  {
    TrimStartCuts(s, WHITESPACE);
    TrimEndCuts(TrimStart(s, WHITESPACE), WHITESPACE);
  }

  predicate Survives(a: Attribute) {
    && a.name != "" && Trimmed(a.name) && '=' !in a.name && AttributeNameForOid(a.name) == ""
    && a.value != "" && Trimmed(a.value) && '=' !in a.value && '#' !in a.value
  }

  // A separator followed by any number of spaces
  predicate IsSeparatorText(sep: string) {
    sep != [] && IsSeparator(sep[0]) && Blank(sep[1..])
  }

  // What may follow an item: nothing, or text that starts with a separator
  predicate Follows(tail: string) {
    tail == [] || IsSeparator(tail[0])
  }

  function EscapeTokens(s: string): seq<Token> {
    seq(|s|, i requires 0 <= i < |s| => if NeedsBackslash(s[i]) then Escaped(s[i]) else Raw(s[i]))
  }

  lemma {:induction false} EscapeIsRendered(s: string)
    ensures Render(EscapeTokens(s)) == Escape(s)
  {
    if s != [] {
      assert EscapeTokens(s)[1..] == EscapeTokens(s[1..]);
      EscapeIsRendered(s[1..]);
    }
  }

  // The printed value is read up to the first '=' or '#', for nothing else stops the reader.
  lemma EscapedIsRead(s: string, rest: string)
    requires s != [] && s[0] != ' ' && '=' !in s && '#' !in s && Boundary(rest)
    ensures ReadValue(Escape(s) + rest) == Some(Value(rest, TrimEnd(s, SPACE)))
  {
    var ts := EscapeTokens(s);
    forall t | t in ts ensures WellFormedToken(t) {
      var i :| 0 <= i < |ts| && ts[i] == t;
      assert s[i] in s;
    }
    assert Meaning(ts) == s;
    assert !KeepsTrailingSpaces(ts);
    EscapeIsRendered(s);
    PlainIsRead(ts, rest);
  }

  lemma TrimEndOfTrimmed(s: string)
    requires Trimmed(s)
    ensures TrimEnd(s, SPACE) == s
  {
  }

  // One item that survives is read back whole.
  lemma ItemIsRead(a: Attribute, tail: string)
    requires Survives(a) && Follows(tail)
    ensures ReadPart(ItemText(a) + tail) == Some(Part(tail, Pair(a.name, a.value)))
  {
    var ts := EscapeTokens(a.value);
    TrimIsItself(a.name);
    TrimIsItself(a.value);
    EscapeIsRendered(a.value);
    forall t | t in ts ensures WellFormedToken(t) {
      var i :| 0 <= i < |ts| && ts[i] == t;
      assert a.value[i] in a.value;
    }
    assert Meaning(ts) == a.value;
    TrimEndOfTrimmed(a.name);
    TrimEndOfTrimmed(a.value);
    AttributeIsRead(a.name, Plain(ts), tail);
    ConcatAssociates(a.name + ['='], Escape(a.value), tail);
  }

  lemma TrimIsItself(s: string)
    requires Trimmed(s)
    ensures Trim(s, WHITESPACE) == s
  {
  }
}
