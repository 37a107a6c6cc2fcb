// Which texts the attribute parser accepts, and what each of them means: the parser is
// exactly the grammar of the three value forms of RFC 2253, section 3.

module DnSpelling {
  import opened Text
  import opened DnGrammar
  import opened DnParser

  datatype Spelling =
    | Plain(tokens: seq<Token>)
    | Hex(digits: string)
    | Quoted(units: seq<QuotedUnit>)

  function Written(sp: Spelling): string {
    match sp
    case Plain(ts) => Render(ts)
    case Hex(digits) => ['#'] + digits
    case Quoted(us) => ['"'] + (RenderUnits(us) + ['"'])
  }

  predicate ValidSpelling(sp: Spelling) {
    match sp
    case Plain(ts) => WellFormed(ts) && (ts != [] ==> ts[0] != Raw(' '))
    case Hex(digits) => digits != [] && |digits| % 2 == 0 && AllHex(digits)
    case Quoted(us) => WellFormedUnits(us)
  }

  // The texts that may follow the value without becoming part of it
  predicate Ends(sp: Spelling, rest: string) {
    match sp
    case Plain(ts) => Boundary(rest) && (ts == [] ==> rest != [] && rest[0] != '#')
    case Hex(_) => rest == [] || !IsHex(rest[0])
    case Quoted(_) => true
  }

  function Denoted(sp: Spelling): string
    requires ValidSpelling(sp)
  {
    match sp
    case Plain(ts) => PlainValue(ts)
    case Hex(digits) => HexBytes(digits)
    case Quoted(us) => UnitsMeaning(us)
  }

  predicate Spells(sp: Spelling, s: string, v: Value) {
    ValidSpelling(sp) && Ends(sp, v.rest) && s == Written(sp) + v.rest && v.value == Denoted(sp)
  }

  lemma PlainIsRead(ts: seq<Token>, rest: string)
    requires ValidSpelling(Plain(ts)) && Ends(Plain(ts), rest)
    ensures var s := Render(ts) + rest;
            s != [] && s[0] != ' ' && ReadValue(s) == Some(Value(rest, PlainValue(ts)))
  {
    var s := Render(ts) + rest;
    ScanPlainComplete(ts, rest);
    if ts == [] {
      assert s == rest;
    } else {
      assert s[0] == TokenText(ts[0])[0];
      assert WellFormedToken(ts[0]);
    }
  }

  lemma HexIsRead(digits: string, rest: string)
    requires ValidSpelling(Hex(digits)) && Ends(Hex(digits), rest)
    ensures ReadValue(['#'] + digits + rest) == Some(Value(rest, HexBytes(digits)))
  {
    var s := ['#'] + digits + rest;
    assert s[1..] == digits + rest;
    assert (digits + rest)[..|digits|] == digits;
    assert (digits + rest)[|digits|..] == rest;
    HexPrefixUnique(s[1..], |digits|);
  }

  lemma QuotedIsRead(us: seq<QuotedUnit>, rest: string)
    requires ValidSpelling(Quoted(us))
    ensures ReadValue(['"'] + (RenderUnits(us) + ['"']) + rest) == Some(Value(rest, UnitsMeaning(us)))
  {
    var s := ['"'] + (RenderUnits(us) + ['"']) + rest;
    assert s[1..] == RenderUnits(us) + ['"'] + rest;
    ScanQuotedComplete(us, rest);
  }

  lemma SpellingIsRead(sp: Spelling, s: string, v: Value)
    requires Spells(sp, s, v)
    ensures s != [] && s[0] != ' ' && ReadValue(s) == Some(v)
  {
    match sp
    case Plain(ts) => PlainIsRead(ts, v.rest);
    case Hex(digits) => HexIsRead(digits, v.rest);
    case Quoted(us) => QuotedIsRead(us, v.rest);
  }

  lemma HexIsSpelled(s: string) returns (sp: Spelling)
    requires s != [] && s[0] == '#' && ReadValue(s).Some?
    ensures Spells(sp, s, ReadValue(s).value)
  {
    var n := HexPrefix(s[1..]);
    sp := Hex(s[1..][..n]);
    assert s == ['#'] + (s[1..][..n] + s[1..][n..]);
    ConcatAssociates(['#'], s[1..][..n], s[1..][n..]);
  }

  lemma QuotedIsSpelled(s: string) returns (sp: Spelling)
    requires s != [] && s[0] == '"' && ReadValue(s).Some?
    ensures Spells(sp, s, ReadValue(s).value)
  {
    var q := ScanQuoted(s[1..]).value;
    sp := Quoted(q.units);
    ScanQuotedSound(s[1..]);
    assert s == ['"'] + s[1..];
    ConcatAssociates(['"'], RenderUnits(q.units) + ['"'], q.rest);
  }

  lemma PlainIsSpelled(s: string) returns (sp: Spelling)
    requires s != [] && s[0] != ' ' && s[0] != '#' && s[0] != '"' && ReadValue(s).Some?
    ensures Spells(sp, s, ReadValue(s).value)
  {
    var p := ScanPlain(s).value;
    sp := Plain(p.tokens);
    ScanPlainSound(s);
    if sp.tokens == [] {
      assert s == p.rest;
    } else {
      assert s[0] == TokenText(sp.tokens[0])[0];
    }
  }

  lemma ReadIsSpelled(s: string, v: Value) returns (sp: Spelling)
    requires s != [] && s[0] != ' ' && ReadValue(s) == Some(v)
    ensures Spells(sp, s, v)
  {
    if s[0] == '#' {
      sp := HexIsSpelled(s);
    } else if s[0] == '"' {
      sp := QuotedIsSpelled(s);
    } else {
      sp := PlainIsSpelled(s);
    }
  }

  // The value reader accepts exactly the spellings, and returns what they denote.
  lemma ReadValueExact(s: string, v: Value)
    requires s != [] && s[0] != ' '
    ensures ReadValue(s) == Some(v) <==> exists sp :: Spells(sp, s, v)
  {
    if ReadValue(s) == Some(v) {
      var sp := ReadIsSpelled(s, v);
    }
    if sp :| Spells(sp, s, v) {
      SpellingIsRead(sp, s, v);
    }
  }

  predicate Blank(s: string) {
    forall i :: 0 <= i < |s| ==> s[i] == ' '
  }

  lemma {:induction false} TrimStartDropsBlanks(pad: string, s: string)
    requires Blank(pad) && s != [] && s[0] != ' '
    ensures TrimStart(pad + s, SPACE) == s
  {
    if pad == [] {
      assert pad + s == s;
    } else {
      assert (pad + s)[0] == pad[0];
      assert (pad + s)[1..] == pad[1..] + s;
      TrimStartDropsBlanks(pad[1..], s);
    }
  }

  // A whole attribute: any name without '=', and after the sign a text that, its leading
  // blanks removed, spells v
  lemma ReadPartOfSpelling(name: string, text: string, sp: Spelling, v: Value)
    requires name != [] && '=' !in name && Spells(sp, TrimStart(text, SPACE), v)
    ensures ReadPart(name + ['='] + text) == Some(Part(v.rest, Pair(AttributeName(name), v.value)))
  {
    SpellingIsRead(sp, TrimStart(text, SPACE), v);
    IndexOfSeparator(name, '=', text);
  }

  // ---------- All spellings of one value

  // Every special character and every space behind a backslash
  function BackslashTokens(v: string): seq<Token> {
    seq(|v|, i requires 0 <= i < |v| => if IsEscapable(v[i]) then Escaped(v[i]) else Raw(v[i]))
  }

  function HexDigit(n: nat): (c: char)
    requires n < 16
    ensures IsHex(c) && Xtoi(c) == n
  {
    if n < 10 then '0' + n as char else 'A' + (n - 10) as char
  }

  predicate Bytes(v: string) {
    forall i :: 0 <= i < |v| ==> v[i] as int < 256
  }

  // Every character as a backslash and two digits
  function PairTokens(v: string): seq<Token>
    requires Bytes(v)
  {
    seq(|v|, i requires 0 <= i < |v| => HexPair(HexDigit(v[i] as int / 16), HexDigit(v[i] as int % 16)))
  }

  // h holds, two digits for each, the codes of v
  predicate HexSpells(h: string, v: string) {
    && |h| == 2 * |v| && AllHex(h)
    && forall i {:trigger v[i]} :: 0 <= i < |v| ==>
         Byte(h[2 * i], h[2 * i + 1]) == v[i]
  }

  // Between quotes a backslash always takes the next character with it, and that may
  // not be a quote. These are the values that have a quoted spelling.
  predicate Quotable(v: string)
    decreases |v|
  {
    v == [] ||
    if v[0] == '\\' then |v| >= 2 && v[1] != '"' && Quotable(v[2..]) else Quotable(v[1..])
  }

  function QuotedUnits(v: string): (us: seq<QuotedUnit>)
    requires Quotable(v)
    decreases |v|
  {
    if v == [] then []
    else if v[0] == '\\' then [Verbatim(v[1])] + QuotedUnits(v[2..])
    else if v[0] == '"' then [QuoteMark] + QuotedUnits(v[1..])
    else [Literal(v[0])] + QuotedUnits(v[1..])
  }

  lemma {:induction false} QuotedUnitsMean(v: string)
    requires Quotable(v)
    ensures WellFormedUnits(QuotedUnits(v)) && UnitsMeaning(QuotedUnits(v)) == v
    decreases |v|
  {
    if v != [] {
      var n := if v[0] == '\\' then 2 else 1;
      QuotedUnitsMean(v[n..]);
      assert v == v[..n] + v[n..];
      assert QuotedUnits(v)[1..] == QuotedUnits(v[n..]);
    }
  }

  lemma {:induction false} MeaningsAreQuotable(us: seq<QuotedUnit>)
    requires WellFormedUnits(us)
    ensures Quotable(UnitsMeaning(us))
  {
    if us != [] {
      MeaningsAreQuotable(us[1..]);
      var v, n := UnitsMeaning(us), |UnitMeaning(us[0])|;
      assert WellFormedUnit(us[0]);
      assert v[n..] == UnitsMeaning(us[1..]);
      assert v[..n] == UnitMeaning(us[0]);
      assert v[0] == UnitMeaning(us[0])[0];
      assert n == 2 ==> v[1] == UnitMeaning(us[0])[1];
    }
  }

  // A value can be written between quotes if and only if it is quotable.
  lemma QuotedSpellingExists(v: string)
    ensures Quotable(v) <==> exists us :: WellFormedUnits(us) && UnitsMeaning(us) == v
  {
    if Quotable(v) {
      QuotedUnitsMean(v);
    }
    if us :| WellFormedUnits(us) && UnitsMeaning(us) == v {
      MeaningsAreQuotable(us);
    }
  }

  // Without a backslash a value is quotable.
  lemma {:induction false} NoBackslashIsQuotable(v: string)
    requires '\\' !in v
    ensures Quotable(v)
  {
    if v != [] {
      NoBackslashIsQuotable(v[1..]);
    }
  }

  lemma AttributeIsRead(name: string, sp: Spelling, rest: string)
    requires name != [] && '=' !in name
    requires ValidSpelling(sp) && Ends(sp, rest)
    ensures ReadPart(name + ['='] + (Written(sp) + rest))
         == Some(Part(rest, Pair(AttributeName(name), Denoted(sp))))
  {
    var v := Value(rest, Denoted(sp));
    SpellingIsRead(sp, Written(sp) + rest, v);
    ReadPartOfSpelling(name, Written(sp) + rest, sp, v);
  }

  // The spelling, put behind any name and before any separator or the end, reads back as v.
  ghost predicate ReadsBack(sp: Spelling, v: string) {
    forall name: string, rest: string | name != [] && '=' !in name && (rest == [] || IsSeparator(rest[0])) ::
      ReadsBackBetween(sp, v, name, rest)
  }

  predicate ReadsBackBetween(sp: Spelling, v: string, name: string, rest: string) {
    ReadPart(name + ['='] + (Written(sp) + rest)) == Some(Part(rest, Pair(AttributeName(name), v)))
  }

  lemma DenotedReadsBackBetween(sp: Spelling, v: string, name: string, rest: string)
    requires name != [] && '=' !in name
    requires ValidSpelling(sp) && Ends(sp, rest)
    ensures ReadsBackBetween(sp, v, name, rest) <==> Denoted(sp) == v
  {
    AttributeIsRead(name, sp, rest);
  }

  lemma DenotedReadsBack(sp: Spelling, v: string)
    requires ValidSpelling(sp) && (sp.Plain? ==> sp.tokens != [])
    ensures ReadsBack(sp, v) <==> Denoted(sp) == v
  {
    forall name: string, rest: string | name != [] && '=' !in name && (rest == [] || IsSeparator(rest[0]))
      ensures ReadsBackBetween(sp, v, name, rest) <==> Denoted(sp) == v
    {
      DenotedReadsBackBetween(sp, v, name, rest);
    }
    assert ReadsBackBetween(sp, v, "C", []) <==> Denoted(sp) == v;
  }

  lemma BackslashIsSpelling(v: string)
    requires v != []
    ensures ValidSpelling(Plain(BackslashTokens(v))) && Denoted(Plain(BackslashTokens(v))) == v
    ensures BackslashTokens(v) != []
  {
    var ts := BackslashTokens(v);
    assert WellFormed(ts);
    assert Meaning(ts) == v;
    PlainValueExact(ts);
  }

  // Every way of writing a value reads back as it, whatever separator or end follows:
  // with every special character and space behind a backslash,
  lemma {:induction false} BackslashSpelling(v: string)
    requires v != []
    ensures ReadsBack(Plain(BackslashTokens(v)), v)
  {
    BackslashIsSpelling(v);
    DenotedReadsBack(Plain(BackslashTokens(v)), v);
  }

  // as # and hexadecimal digits of either case,
  lemma {:induction false} HexSpelling(v: string, h: string)
    requires v != [] && HexSpells(h, v)
    ensures ReadsBack(Hex(h), v)
  {
    assert HexBytes(h) == v;
    DenotedReadsBack(Hex(h), v);
  }

  // between quotes, if it is quotable,
  lemma {:induction false} QuotedSpelling(v: string)
    requires Quotable(v)
    ensures ReadsBack(Quoted(QuotedUnits(v)), v)
  {
    QuotedUnitsMean(v);
    DenotedReadsBack(Quoted(QuotedUnits(v)), v);
  }

  // which every value without a backslash is,
  lemma {:induction false} NoBackslashSpelling(v: string)
    requires '\\' !in v
    ensures Quotable(v) && ReadsBack(Quoted(QuotedUnits(v)), v)
  {
    NoBackslashIsQuotable(v);
    QuotedSpelling(v);
  }

  // and as hexadecimal pairs, if and only if it does not end in a space.
  lemma {:induction false} PairSpelling(v: string)
    requires v != [] && Bytes(v)
    ensures ReadsBack(Plain(PairTokens(v)), v) <==> v[|v| - 1] != ' '
  {
    var ts := PairTokens(v);
    assert WellFormed(ts);
    assert Meaning(ts) == v;
    PlainValueExact(ts);
    DenotedReadsBack(Plain(ts), v);
  }
}
