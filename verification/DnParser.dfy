// The RFC 2253 parser of src/dn.cpp.

module DnParser {
  import opened Text
  import opened DnGrammar

  datatype Pair = Pair(name: string, value: string)

  // ---------- Attribute names

  datatype Row = Row(shown: string, oid: string)

  const OID_ROWS: nat := 13

  // The table of shown names and object identifiers. The first row rewrites ST to SP.
  function OidRow(i: nat): Row
    requires i < OID_ROWS
  {
    match i
    case 0 => Row("SP", "ST")
    case 1 => Row("NameDistinguisher", "0.2.262.1.10.7.20")
    case 2 => Row("EMAIL", "1.2.840.113549.1.9.1")
    case 3 => Row("CN", "2.5.4.3")
    case 4 => Row("SN", "2.5.4.4")
    case 5 => Row("SerialNumber", "2.5.4.5")
    case 6 => Row("T", "2.5.4.12")
    case 7 => Row("D", "2.5.4.13")
    case 8 => Row("BC", "2.5.4.15")
    case 9 => Row("ADDR", "2.5.4.16")
    case 10 => Row("PC", "2.5.4.17")
    case 11 => Row("GN", "2.5.4.42")
    case _ => Row("Pseudo", "2.5.4.65")
  }

  function StripOidPrefix(oid: string): string {
    if |oid| >= 4 && (oid[..4] == "OID." || oid[..4] == "oid.") then oid[4..] else oid
  }

  // The name in the first row, from the i-th on, with this identifier
  function Lookup(oid: string, i: nat): string
    requires i <= OID_ROWS
    decreases OID_ROWS - i, |oid|
  {
    if i == OID_ROWS then ""
    else if oid == OidRow(i).oid then OidRow(i).shown
    else Lookup(oid, i + 1)
  }

  function AttributeNameForOid(oid: string): string {
    Lookup(StripOidPrefix(oid), 0)
  }

  // The name the parser reports for the text before the equals sign
  function AttributeName(text: string): string {
    var key := TrimEnd(text, SPACE);
    var name := AttributeNameForOid(key);
    if name != "" then name else key
  }

  // ---------- One attribute

  datatype Value = Value(rest: string, value: string)

  // The value at the head of s, which is not empty and starts with no space
  function ReadValue(s: string): Option<Value>
    requires s != []
  {
    if s[0] == '#' then
      var n := HexPrefix(s[1..]);
      var v := HexValue(s[1..][..n]);
      if v.None? then None else Some(Value(s[1..][n..], v.value))
    else if s[0] == '"' then
      var q := ScanQuoted(s[1..]);
      if q.None? then None else Some(Value(q.value.rest, UnitsMeaning(q.value.units)))
    else
      var p := ScanPlain(s);
      if p.None? then None
      else
        ScanPlainSound(s);
        Some(Value(p.value.rest, PlainValue(p.value.tokens)))
  }

  datatype Part = Part(rest: string, pair: Pair)

  // The text before the equals sign, and the value and the rest behind it
  datatype Cut = Cut(key: string, v: Value)

  function CutPart(s: string): Option<Cut> {
    var eq := IndexOf(s, '=');
    if eq == 0 || eq == |s| then None
    else
      var text := TrimStart(s[eq + 1..], SPACE);
      if text == [] then None
      else
        var v := ReadValue(text);
        if v.None? then None else Some(Cut(s[..eq], v.value))
  }

  function Mapped(c: Cut): Part {
    Part(c.v.rest, Pair(AttributeName(c.key), c.v.value))
  }

  // What one call of the attribute parser yields: the unread text and the pair, or None
  function ReadPart(s: string): Option<Part> {
    match CutPart(s)
    case None => None
    case Some(c) => Some(Mapped(c))
  }

  // The loop over a quoted value: consumes stringv, pushes onto value
  method ScanQuotedValue(text: string) returns (r: Option<Value>)
    ensures r == var q := ScanQuoted(text);
                 if q.None? then None else Some(Value(q.value.rest, UnitsMeaning(q.value.units)))
  {
    var stringv, value, stop := text, "", false;
    ghost var done: seq<QuotedUnit> := [];
    AfterNothing(ScanQuoted(text));
    while stringv != [] && !stop
      invariant value == UnitsMeaning(done)
      invariant !stop ==> ScanQuoted(text) == After(done, ScanQuoted(stringv))
      invariant stop ==> ScanQuoted(text) == Some(ScannedUnits(done, stringv))
      decreases |stringv|, !stop
    {
      if stringv[0] == '\\' {
        if |stringv| < 2 {
          return None;
        }
        var unit := if stringv[1] == '"' then QuoteMark else Verbatim(stringv[1]);
        UnitsMeaningSnoc(done, unit);
        AfterSnoc(done, unit, ScanQuoted(stringv[2..]));
        done := done + [unit];
        value := value + (if stringv[1] == '"' then ['"'] else [stringv[0], stringv[1]]);
        stringv := stringv[2..];
      } else if stringv[0] == '"' {
        assert done + [] == done;
        stop := true;
        stringv := stringv[1..];
      } else {
        UnitsMeaningSnoc(done, Literal(stringv[0]));
        AfterSnoc(done, Literal(stringv[0]), ScanQuoted(stringv[1..]));
        done := done + [Literal(stringv[0])];
        value := value + [stringv[0]];
        stringv := stringv[1..];
      }
    }
    if !stop {
      return None;
    }
    r := Some(Value(stringv, value));
  }

  ghost function After(done: seq<QuotedUnit>, r: Option<ScannedUnits>): Option<ScannedUnits> {
    if r.None? then None else Some(ScannedUnits(done + r.value.units, r.value.rest))
  }

  lemma AfterNothing(r: Option<ScannedUnits>)
    ensures After([], r) == r
  {
    if r.Some? {
      assert [] + r.value.units == r.value.units;
    }
  }

  lemma AfterSnoc(done: seq<QuotedUnit>, u: QuotedUnit, r: Option<ScannedUnits>)
    ensures After(done, PrependUnit(u, r)) == After(done + [u], r)
  {
    if r.Some? {
      assert done + ([u] + r.value.units) == (done + [u]) + r.value.units;
    }
  }

  // The loop over a plain value: consumes stringv, pushes onto value
  method ScanPlainValue(text: string) returns (r: Option<Value>)
    ensures ScanPlain(text).None? ==> r.None?
    ensures ScanPlain(text).Some? ==>
              var p := ScanPlain(text).value;
              WellFormed(p.tokens) && r == Some(Value(p.rest, PlainValue(p.tokens)))
  {
    var stringv, value, stop, lastAddedEscapedSpace := text, "", false, false;
    ghost var done: seq<Token> := [];
    AfterNoTokens(ScanPlain(text));
    while stringv != [] && !stop
      invariant WellFormed(done) && value == Meaning(done)
      invariant lastAddedEscapedSpace == KeepsTrailingSpaces(done)
      invariant ScanPlain(text) == AfterTokens(done, ScanPlain(stringv))
      invariant stop ==> stringv != [] && IsStop(stringv[0])
      decreases |stringv|, !stop
    {
      if stringv[0] == '\\' {
        if |stringv| < 2 {
          return None;
        }
        var c := stringv[1];
        if IsEscapable(c) {
          lastAddedEscapedSpace := c == ' ';
          AfterTokensSnoc(done, Escaped(c), ScanPlain(stringv[2..]));
          done := done + [Escaped(c)];
          value := value + [c];
          stringv := stringv[2..];
        } else {
          if |stringv| < 3 {
            return None;
          }
          if IsHex(c) && IsHex(stringv[2]) {
            lastAddedEscapedSpace := false;
            AfterTokensSnoc(done, HexPair(c, stringv[2]), ScanPlain(stringv[3..]));
            done := done + [HexPair(c, stringv[2])];
            value := value + [Byte(c, stringv[2])];
            stringv := stringv[3..];
          } else {
            return None;
          }
        }
      } else if stringv[0] == '"' {
        return None;
      } else if IsStop(stringv[0]) {
        stop := true;
      } else {
        lastAddedEscapedSpace := false;
        AfterTokensSnoc(done, Raw(stringv[0]), ScanPlain(stringv[1..]));
        done := done + [Raw(stringv[0])];
        value := value + [stringv[0]];
        stringv := stringv[1..];
      }
    }
    assert done + [] == done;
    if !lastAddedEscapedSpace {
      value := TrimEnd(value, SPACE);
    }
    r := Some(Value(stringv, value));
  }

  ghost function AfterTokens(done: seq<Token>, r: Option<Scanned>): Option<Scanned> {
    if r.None? then None else Some(Scanned(done + r.value.tokens, r.value.rest))
  }

  lemma AfterNoTokens(r: Option<Scanned>)
    ensures AfterTokens([], r) == r
  {
    if r.Some? {
      assert [] + r.value.tokens == r.value.tokens;
    }
  }

  lemma AfterTokensSnoc(done: seq<Token>, t: Token, r: Option<Scanned>)
    ensures AfterTokens(done, Prepend(t, r)) == AfterTokens(done + [t], r)
  {
    if r.Some? {
      assert done + ([t] + r.value.tokens) == (done + [t]) + r.value.tokens;
    }
  }

  // One of the three forms, by its first character
  method ParseValue(text: string) returns (r: Option<Value>)
    requires text != []
    ensures r == ReadValue(text)
  {
    if text[0] == '#' {
      var stringv := text[1..];
      var endHex := HexPrefix(stringv);
      var value := ParseHexString(stringv[..endHex]);
      if value.None? {
        return None;
      }
      r := Some(Value(stringv[endHex..], value.value));
    } else if text[0] == '"' {
      r := ScanQuotedValue(text[1..]);
    } else {
      r := ScanPlainValue(text);
    }
  }

  method ParseDnPart(text: string) returns (r: Option<Part>)
    ensures r == ReadPart(text)
  {
    var stringv := text;
    var separatorPos := IndexOf(stringv, '=');
    if separatorPos == 0 || separatorPos == |stringv| {
      return None;
    }
    var key := stringv[..separatorPos];
    stringv := TrimStart(stringv[separatorPos + 1..], SPACE);
    if stringv == [] {
      return None;
    }
    var v := ParseValue(stringv);
    if v.None? {
      return None;
    }
    key := MapName(key);
    r := Some(Part(v.value.rest, Pair(key, v.value.value)));
  }

  // Object identifiers become names.
  method MapName(text: string) returns (key: string)
    ensures key == AttributeName(text)
  {
    key := TrimEnd(text, SPACE);
    var name := AttributeNameForOid(key);
    if name != "" {
      key := name;
    }
  }

  lemma CutConsumes(s: string)
    requires CutPart(s).Some?
    ensures var c := CutPart(s).value;
            && |c.v.rest| < |s| && c.v.rest == s[|s| - |c.v.rest|..]
            && |c.v.value| < |s| - |c.v.rest|
            && '=' !in c.key
  {
    var eq := IndexOf(s, '=');
    TextConsumes(s, eq, TrimStart(s[eq + 1..], SPACE));
    IndexOfIsFirst(s, '=');
  }

  // A successful parse leaves a proper suffix, and the value is never longer than
  // the text it was read from.
  lemma PartConsumes(s: string)
    requires ReadPart(s).Some?
    ensures var p := ReadPart(s).value;
            && |p.rest| < |s| && p.rest == s[|s| - |p.rest|..]
            && |p.pair.value| < |s| - |p.rest|
  {
    CutConsumes(s);
  }

  lemma PartName(s: string)
    requires ReadPart(s).Some?
    ensures '=' !in ReadPart(s).value.pair.name
  {
    CutConsumes(s);
    NameHasNoEquals(CutPart(s).value.key);
  }

  // The same for the text behind the equals sign
  lemma TextConsumes(s: string, eq: nat, text: string)
    requires eq < |s| && text == TrimStart(s[eq + 1..], SPACE)
    requires text != [] && ReadValue(text).Some?
    ensures var v := ReadValue(text).value;
            && |v.rest| < |s| && v.rest == s[|s| - |v.rest|..]
            && |v.value| < |s| - |v.rest|
  {
    ReadValueConsumes(text);
    SuffixOfRest(s, eq + 1, |ReadValue(text).value.rest|);
  }

  lemma SuffixOfRest(s: string, k: nat, n: nat)
    requires k <= |s| && n <= |TrimStart(s[k..], SPACE)|
    ensures var text := TrimStart(s[k..], SPACE);
            text[|text| - n..] == s[|s| - n..]
  {
    var text := TrimStart(s[k..], SPACE);
    TrimStartCuts(s[k..], SPACE);
    DropTwice(s, k, |s| - k - |text|);
    DropTwice(s, |s| - |text|, |text| - n);
  }

  lemma NameHasNoEquals(text: string)
    requires '=' !in text
    ensures '=' !in AttributeName(text)
  {
    var key := TrimEnd(text, SPACE);
    TrimEndCuts(text, SPACE);
    if AttributeNameForOid(key) != "" {
      var i := LookupFinds(StripOidPrefix(key), 0);
      RowHasNoEquals(i);
    }
  }

  lemma {:induction false} LookupFinds(oid: string, i: nat) returns (k: nat)
    requires i <= OID_ROWS && Lookup(oid, i) != ""
    ensures k < OID_ROWS && oid == OidRow(k).oid && Lookup(oid, i) == OidRow(k).shown
    decreases OID_ROWS - i
  {
    if oid == OidRow(i).oid {
      k := i;
    } else {
      k := LookupFinds(oid, i + 1);
    }
  }

  lemma RowHasNoEquals(i: nat)
    requires i < OID_ROWS
    ensures '=' !in OidRow(i).shown
  {
    var shown := OidRow(i).shown;
    assert forall k :: 0 <= k < |shown| ==> shown[k] != '=';
  }

  lemma ReadValueConsumes(s: string)
    requires s != [] && ReadValue(s).Some?
    ensures var v := ReadValue(s).value;
            |v.rest| <= |s| && v.rest == s[|s| - |v.rest|..] && |v.value| <= |s| - |v.rest|
  {
    if s[0] == '#' {
    } else if s[0] == '"' {
      var q := ScanQuoted(s[1..]).value;
      ScanQuotedSound(s[1..]);
      UnitsNoLonger(q.units);
    } else {
      var p := ScanPlain(s).value;
      ScanPlainSound(s);
      TokensNoLonger(p.tokens);
    }
  }

  lemma {:induction false} TokensNoLonger(ts: seq<Token>)
    ensures |ts| <= |Render(ts)|
  {
    if ts != [] {
      TokensNoLonger(ts[1..]);
    }
  }

  lemma {:induction false} UnitsNoLonger(us: seq<QuotedUnit>)
    ensures |UnitsMeaning(us)| <= |RenderUnits(us)|
  {
    if us != [] {
      UnitsNoLonger(us[1..]);
    }
  }

  // ---------- The whole name

  predicate IsSeparator(c: char) {
    c == ',' || c == ';' || c == '+'
  }

  // The pair, unless its name or its value is empty
  function Kept(pair: Pair): seq<Pair> {
    if pair.name != "" && pair.value != "" then [pair] else []
  }

  // The attributes of s, or None where the parser gives up
  function ReadDn(s: string): Option<seq<Pair>>
    decreases |s|, 1
  {
    var t := TrimStart(s, SPACE);
    if t == [] then Some([])
    else
      var c := CutPart(t);
      if c.None? then None
      else
        CutConsumes(t);
        Continue(Mapped(c.value))
  }

  // How it goes on after one attribute
  function Continue(p: Part): Option<seq<Pair>>
    decreases |p.rest|, 0
  {
    var u := TrimStart(p.rest, SPACE);
    if u == [] then Some(Kept(p.pair))
    else if !IsSeparator(u[0]) then None
    else
      var tail := ReadDn(u[1..]);
      if tail.None? then None else Some(Kept(p.pair) + tail.value)
  }

  // The parser's result: a text it gives up on reads as the empty list.
  function ParsedDn(s: string): seq<Pair> {
    match ReadDn(s)
    case None => []
    case Some(pairs) => pairs
  }

  ghost function Onto(done: seq<Pair>, r: Option<seq<Pair>>): Option<seq<Pair>> {
    if r.None? then None else Some(done + r.value)
  }

  // One turn of the parser's loop, after an attribute has been read
  lemma ContinueTurn(p: Part, done: seq<Pair>)
    ensures var u := TrimStart(p.rest, SPACE);
            && (u == [] ==> Onto(done, Continue(p)) == Some(done + Kept(p.pair)))
            && (u != [] && !IsSeparator(u[0]) ==> Continue(p) == None)
            && (u != [] && IsSeparator(u[0]) ==>
                  Onto(done, Continue(p)) == Onto(done + Kept(p.pair), ReadDn(u[1..])))
  {
    var u := TrimStart(p.rest, SPACE);
    if u != [] && IsSeparator(u[0]) && ReadDn(u[1..]).Some? {
      ConcatAssociates(done, Kept(p.pair), ReadDn(u[1..]).value);
    }
  }

  method ParseString(text: string) returns (result: seq<Pair>)
    ensures result == ParsedDn(text)
  {
    var s := text;
    result := [];
    assert Onto([], ReadDn(s)) == ReadDn(s) by {
      if ReadDn(s).Some? {
        assert [] + ReadDn(s).value == ReadDn(s).value;
      }
    }
    while s != []
      invariant ReadDn(text) == Onto(result, ReadDn(s))
      decreases |s|
    {
      s := TrimStart(s, SPACE);
      if s == [] {
        break;
      }
      var part := ParseDnPart(s);
      if part.None? {
        return [];
      }
      PartConsumes(s);
      ContinueTurn(part.value, result);
      if part.value.pair.name != "" && part.value.pair.value != "" {
        result := result + [part.value.pair];
      } else {
        assert result + [] == result;
      }
      s := TrimStart(part.value.rest, SPACE);
      if s == [] {
        break;
      }
      if !IsSeparator(s[0]) {
        return [];
      }
      s := s[1..];
    }
    assert result + [] == result;
  }

  predicate AllComplete(pairs: seq<Pair>) {
    forall p :: p in pairs ==> p.name != "" && p.value != "" && '=' !in p.name
  }

  lemma {:induction false} ContinueIsComplete(p: Part)
    requires '=' !in p.pair.name
    ensures Continue(p).Some? ==> AllComplete(Continue(p).value)
    decreases |p.rest|, 0
  {
    var u := TrimStart(p.rest, SPACE);
    if u != [] && IsSeparator(u[0]) {
      ReadIsComplete(u[1..]);
    }
  }

  lemma {:induction false} ReadIsComplete(s: string)
    ensures ReadDn(s).Some? ==> AllComplete(ReadDn(s).value)
    decreases |s|, 1
  {
    var t := TrimStart(s, SPACE);
    if t != [] && ReadPart(t).Some? {
      PartConsumes(t);
      PartName(t);
      ContinueIsComplete(ReadPart(t).value);
    }
  }

  // Whatever the input, every pair returned has a name without '=' and a value, and
  // neither is empty.
  lemma PairsAreComplete(s: string)
    ensures AllComplete(ParsedDn(s))
  {
    ReadIsComplete(s);
  }
}
