// Printing a distinguished name and parsing it again: when this gives back the attributes.

module DnRoundTrip {
  import opened Text
  import opened DnGrammar
  import opened DnParser
  import opened DnSpelling
  import opened DnPrinter

  function Pairs(dn: seq<Attribute>): (r: seq<Pair>)
    ensures |r| == |dn|
  {
    seq(|dn|, i requires 0 <= i < |dn| => Pair(dn[i].name, dn[i].value))
  }

  lemma ReadDnStep(pad: string, text: string)
    requires Blank(pad) && text != [] && text[0] != ' '
    ensures ReadDn(pad + text) == if ReadPart(text).None? then None else Continue(ReadPart(text).value)
  {
    TrimStartDropsBlanks(pad, text);
  }

  // What stands after the first item
  function Tail(dn: seq<Attribute>, sep: string): string
    requires dn != []
  {
    if |dn| == 1 then [] else sep + Serialised(dn[1..], sep)
  }

  lemma SerialisedSplits(dn: seq<Attribute>, sep: string)
    requires dn != [] && forall a :: a in dn ==> IsPrinted(a)
    ensures Serialised(dn, sep) == ItemText(dn[0]) + Tail(dn, sep)
    ensures |dn| > 1 && sep != [] ==>
              && Tail(dn, sep) != [] && Tail(dn, sep)[0] == sep[0]
              && Tail(dn, sep)[1..] == sep[1..] + Serialised(dn[1..], sep)
  {
    var items := Items(dn);
    assert dn[0] in dn;
    assert items == [ItemText(dn[0])] + Items(dn[1..]);
    assert items[1..] == Items(dn[1..]);
    if |dn| > 1 {
      assert IsPrinted(dn[1]);
      assert Items(dn[1..]) != [];
      assert Tail(dn, sep) == sep + Serialised(dn[1..], sep);
    } else {
      assert ItemText(dn[0]) + [] == ItemText(dn[0]);
    }
  }

  lemma {:induction false} BlankIsTrimmedAway(pad: string)
    requires Blank(pad)
    ensures TrimStart(pad, SPACE) == []
  {
    if pad != [] {
      BlankIsTrimmedAway(pad[1..]);
    }
  }

  lemma ContinueAtTail(p: Part)
    requires Follows(p.rest) && p.pair.name != "" && p.pair.value != ""
    requires p.rest == [] || ReadDn(p.rest[1..]).Some?
    ensures Continue(p) == Some([p.pair] + if p.rest == [] then [] else ReadDn(p.rest[1..]).value)
  {
    TrimStartOfTail(p.rest);
    assert [p.pair] + [] == [p.pair];
  }

  // The step for one attribute that is read whole
  lemma HeadIsRead(a: Attribute, tail: string, pad: string)
    requires Survives(a) && Follows(tail) && Blank(pad)
    requires tail == [] || ReadDn(tail[1..]).Some?
    ensures ReadDn(pad + (ItemText(a) + tail))
         == Some([Pair(a.name, a.value)] + if tail == [] then [] else ReadDn(tail[1..]).value)
  {
    ItemIsRead(a, tail);
    ItemStart(a, tail);
    ReadDnStep(pad, ItemText(a) + tail);
    ContinueAtTail(Part(tail, Pair(a.name, a.value)));
  }

  lemma {:induction false} SurvivorsAreRead(dn: seq<Attribute>, sep: string, pad: string)
    requires forall a :: a in dn ==> Survives(a)
    requires IsSeparatorText(sep) && Blank(pad)
    ensures ReadDn(pad + Serialised(dn, sep)) == Some(Pairs(dn))
  {
    if dn == [] {
      assert pad + Serialised(dn, sep) == pad;
      BlankIsRead(pad);
    } else {
      SerialisedSplits(dn, sep);
      if |dn| > 1 {
        SurvivorsAreRead(dn[1..], sep, sep[1..]);
      }
      HeadIsRead(dn[0], Tail(dn, sep), pad);
      PairsSplit(dn);
    }
  }

  lemma BlankIsRead(pad: string)
    requires Blank(pad)
    ensures ReadDn(pad) == Some([])
  {
    BlankIsTrimmedAway(pad);
  }

  lemma PairsSplit(dn: seq<Attribute>)
    requires dn != []
    ensures Pairs(dn) == [Pair(dn[0].name, dn[0].value)] + Pairs(dn[1..])
  {
  }

  lemma PairsMakeAttributes(dn: seq<Attribute>)
    requires AllConstructed(dn)
    ensures ToAttributes(Pairs(dn)) == dn
  {
    forall i | 0 <= i < |dn| ensures ToAttribute(Pairs(dn)[i]) == dn[i] {
      assert dn[i] in dn;
    }
  }

  // The item's text starts with its trimmed name, or with the equals sign.
  lemma ItemStart(a: Attribute, tail: string)
    ensures var text := ItemText(a) + tail;
            text != [] && text[0] != ' '
  {
    TrimIsTrimmed(a.name);
  }

  // ---------- The condition is needed

  // A separator in escaped text always follows a backslash.
  lemma {:induction false} EscapedSeparator(s: string, j: nat)
    requires j < |Escape(s)| && IsSeparator(Escape(s)[j])
    ensures j > 0 && Escape(s)[j - 1] == '\\'
  {
    var n := |EscapeChar(s[0])|;
    if j >= n {
      assert Escape(s)[j] == Escape(s[1..])[j - n];
      EscapedSeparator(s[1..], j - n);
      assert Escape(s)[j - 1] == Escape(s[1..])[j - n - 1];
    }
  }

  lemma {:induction false} EscapeLength(s: string)
    ensures |s| <= |Escape(s)| <= 2 * |s|
    ensures s != [] ==> |Escape(s)| <= 2 * |s| && Escape(s)[|Escape(s)| - 1] == s[|s| - 1]
  {
    if s != [] {
      EscapeLength(s[1..]);
    }
  }

  // What the parser finds after one item: either exactly the tail, or something that
  // makes it give up.
  predicate EndsAt(rest: string, tail: string) {
    var u := TrimStart(rest, SPACE);
    u == tail || (u != [] && !IsSeparator(u[0]))
  }

  lemma HexRun(t: string, tail: string)
    requires t != [] && t[0] == '#' && Follows(tail)
    ensures var n := HexPrefix(Escape(t)[1..] + tail);
            n < |Escape(t)| && Escape(t)[n] != '\\'
  {
    var e := Escape(t);
    var s := e[1..] + tail;
    var n := HexPrefix(s);
    HexPrefixIsHex(s);
    assert forall i :: 0 <= i < n ==> s[i] in s[..n];
    assert tail != [] ==> s[|e| - 1] == tail[0] && !IsHex(tail[0]);
    assert n <= |e| - 1;
    assert n > 0 ==> s[n - 1] == e[n];
  }

  lemma HashReads(s: string)
    requires s != [] && s[0] == '#' && ReadValue(s).Some?
    ensures var v, n := ReadValue(s).value, HexPrefix(s[1..]);
            |v.value| == n / 2 && v.rest == s[1..][n..]
  {
  }

  lemma HashIsRead(s: string, t: string, tail: string)
    requires t != [] && Trimmed(t) && t[0] == '#' && Follows(tail) && s == Escape(t) + tail
    requires ReadValue(s).Some?
    ensures EndsAt(ReadValue(s).value.rest, tail) && |ReadValue(s).value.value| < |t|
  {
    HashStart(s, t, tail);
    HashEndsAt(t, tail);
    HashReads(s);
  }

  lemma HashStart(s: string, t: string, tail: string)
    requires t != [] && t[0] == '#' && s == Escape(t) + tail
    ensures s[0] == '#' && s[1..] == Escape(t)[1..] + tail
  {
    DropOfConcat(Escape(t), tail, 1);
  }

  lemma HashEndsAt(t: string, tail: string)
    requires t != [] && Trimmed(t) && t[0] == '#' && Follows(tail)
    ensures var n := HexPrefix(Escape(t)[1..] + tail);
            n / 2 < |t| && EndsAt((Escape(t)[1..] + tail)[n..], tail)
  {
    var e := Escape(t);
    EscapeLength(t);
    HexRun(t, tail);
    var n := HexPrefix(e[1..] + tail);
    DropOfConcat(e[1..], tail, n);
    DropTwice(e, 1, n);
    if n == |e| - 1 {
      assert e[1 + n..] + tail == tail;
      TrimStartOfTail(tail);
    } else {
      RestGivesUp(t, 1 + n, tail);
    }
  }

  lemma TrimStartOfTail(tail: string)
    requires Follows(tail)
    ensures TrimStart(tail, SPACE) == tail
  {
  }

  // From a place after the first '#' and hexadecimal digits, the first character that
  // is not a space is no separator.
  lemma RestGivesUp(t: string, k: nat, tail: string)
    requires t != [] && Trimmed(t)
    requires 0 < k < |Escape(t)|
    requires Escape(t)[k - 1] != '\\'
    ensures var u := TrimStart(Escape(t)[k..] + tail, SPACE);
            u != [] && !IsSeparator(u[0])
  {
    var e := Escape(t);
    var s := e[k..] + tail;
    EscapeLength(t);
    var u := TrimStart(s, SPACE);
    TrimStartCuts(s, SPACE);
    var j := |s| - |u|;
    var last := |e| - k - 1;
    assert s[last] == e[|e| - 1] && s[last] !in SPACE;
    assert j <= last;
    assert u[0] == e[k + j];
    assert j > 0 ==> s[j - 1] == e[k + j - 1] && s[j - 1] in SPACE;
    if IsSeparator(u[0]) {
      EscapedSeparator(t, k + j);
      assert false;
    }
  }

  // The place of the first '=' or '#'
  function FirstBreak(t: string): (k: nat)
    ensures k <= |t|
    ensures k < |t| ==> t[k] == '=' || t[k] == '#'
  {
    if t == [] || t[0] == '=' || t[0] == '#' then 0 else 1 + FirstBreak(t[1..])
  }

  lemma {:induction false} NoBreakBefore(t: string)
    ensures '=' !in t[..FirstBreak(t)] && '#' !in t[..FirstBreak(t)]
  {
    var k := FirstBreak(t);
    if k > 0 {
      NoBreakBefore(t[1..]);
      assert t[..k] == [t[0]] + t[1..][..k - 1];
    }
  }

  // The printed value is read up to its first '=' or '#'.
  lemma ReadToBreak(head: string, broken: string, tail: string)
    requires head + broken != [] && Trimmed(head + broken) && (head + broken)[0] != '#'
    requires '=' !in head && '#' !in head
    requires broken != [] ==> broken[0] == '=' || broken[0] == '#'
    requires Follows(tail)
    ensures ReadValue(Escape(head + broken) + tail) ==
            Some(Value(Escape(broken) + tail, TrimEnd(head, SPACE)))
  {
    var rest := Escape(broken) + tail;
    EscapeConcat(head, broken);
    ConcatAssociates(Escape(head), Escape(broken), tail);
    BreakIsBoundary(broken, tail);
    if head == [] {
      assert Escape(head) + rest == rest;
      EmptyIsRead(rest);
    } else {
      EscapedIsRead(head, rest);
    }
  }

  lemma BreakIsBoundary(t: string, tail: string)
    requires Follows(tail) && (t != [] ==> t[0] == '=' || t[0] == '#')
    ensures Boundary(Escape(t) + tail)
    ensures t != [] ==> (Escape(t) + tail)[0] == t[0]
  {
  }

  // Where the value should start there is a stop: an empty value
  lemma EmptyIsRead(rest: string)
    requires rest != [] && IsStop(rest[0]) && rest[0] != '#'
    ensures ReadValue(rest) == Some(Value(rest, []))
  {
    PlainIsRead([], rest);
    assert Render([]) + rest == rest;
  }

  lemma PlainPrintIsRead(t: string, tail: string)
    requires t != [] && Trimmed(t) && t[0] != '#' && Follows(tail)
    ensures ReadValue(Escape(t) + tail).Some?
    ensures var v := ReadValue(Escape(t) + tail).value;
            EndsAt(v.rest, tail) && (v.value == t ==> '=' !in t && '#' !in t) && |v.value| <= |t|
  {
    var k := FirstBreak(t);
    var head, broken := t[..k], t[k..];
    NoBreakBefore(t);
    assert t == head + broken;
    ReadToBreak(head, broken, tail);
    BreakEnds(broken, tail);
    if broken == [] {
      assert head == t;
    } else {
      assert |TrimEnd(head, SPACE)| < |t|;
    }
  }

  lemma BreakGivesUp(rest: string)
    requires rest != [] && (rest[0] == '=' || rest[0] == '#')
    ensures forall tail :: EndsAt(rest, tail)
  {
  }

  // What is left unread from a break on ends at the tail, or makes the parser give up.
  lemma BreakEnds(broken: string, tail: string)
    requires Follows(tail) && (broken != [] ==> broken[0] == '=' || broken[0] == '#')
    ensures EndsAt(Escape(broken) + tail, tail)
  {
    if broken == [] {
      assert Escape(broken) + tail == tail;
      TrimStartOfTail(tail);
    } else {
      BreakIsBoundary(broken, tail);
      BreakGivesUp(Escape(broken) + tail);
    }
  }

  // The printed value, wherever the tail starts with a separator or is empty
  lemma PrintedValueIsRead(t: string, tail: string)
    requires Trimmed(t) && Follows(tail) && Escape(t) + tail != []
    requires ReadValue(Escape(t) + tail).Some?
    ensures var v := ReadValue(Escape(t) + tail).value;
            EndsAt(v.rest, tail) && (t == [] ==> v.value == []) &&
            (v.value == t ==> '=' !in t && '#' !in t) && |v.value| <= |t|
  {
    if t == [] {
      assert Escape(t) + tail == tail;
      EmptyIsRead(tail);
      TrimStartOfTail(tail);
    } else if t[0] == '#' {
      HashIsRead(Escape(t) + tail, t, tail);
    } else {
      PlainPrintIsRead(t, tail);
    }
  }

  lemma ItemReads(a: Attribute, tail: string)
    requires a.name != "" && '=' !in a.name && Follows(tail)
    ensures var n, t := Trim(a.name, WHITESPACE), Trim(a.value, WHITESPACE);
            ReadPart(ItemText(a) + tail) ==
              if n == [] || Escape(t) + tail == [] then None
              else
                var v := ReadValue(Escape(t) + tail);
                if v.None? then None else Some(Part(v.value.rest, Pair(AttributeName(n), v.value.value)))
  {
    var n, t := Trim(a.name, WHITESPACE), Trim(a.value, WHITESPACE);
    TrimIsTrimmed(a.value);
    EqualsStaysOut(a.name);
    ConcatAssociates(n + ['='], Escape(t), tail);
    IndexOfSeparator(n, '=', Escape(t) + tail);
    EscapedStart(t, tail);
  }

  lemma ItemOutcome(a: Attribute, tail: string)
    requires a.name != "" && '=' !in a.name && a.value != "" && Follows(tail)
    requires ReadPart(ItemText(a) + tail).Some?
    ensures var p := ReadPart(ItemText(a) + tail).value;
            && EndsAt(p.rest, tail)
            && (ToAttribute(p.pair) == a ==> Survives(a))
  {
    var n, t := Trim(a.name, WHITESPACE), Trim(a.value, WHITESPACE);
    ItemReads(a, tail);
    TrimIsTrimmed(a.name);
    TrimIsTrimmed(a.value);
    PrintedValueIsRead(t, tail);
    TrimEndOfTrimmed(n);
    if Upper(AttributeName(n)) == a.name {
      NameIsKept(n, a.name);
    }
  }

  lemma EqualsStaysOut(s: string)
    requires '=' !in s
    ensures '=' !in Trim(s, WHITESPACE)
  {
    TrimStartCuts(s, WHITESPACE);
    TrimEndCuts(TrimStart(s, WHITESPACE), WHITESPACE);
  }

  lemma EscapedStart(t: string, tail: string)
    requires Trimmed(t) && Follows(tail)
    ensures TrimStart(Escape(t) + tail, SPACE) == Escape(t) + tail
  {
    if t == [] {
      assert Escape(t) + tail == tail;
    }
  }

  // A name is read back only if the table does not rewrite it.
  lemma NameIsKept(n: string, name: string)
    requires n == Trim(name, WHITESPACE) && TrimEnd(n, SPACE) == n
    requires Upper(AttributeName(n)) == name
    ensures n == name && AttributeNameForOid(name) == ""
  {
    TrimIsTrimmed(name);
    if AttributeNameForOid(n) != "" {
      var i := LookupFinds(StripOidPrefix(n), 0);
      RewritesElsewhere(i, n);
      assert false;
    }
  }

  // No shown name, upper-cased and trimmed, is itself listed as an identifier.
  lemma RewritesElsewhere(i: nat, n: string)
    requires i < OID_ROWS && StripOidPrefix(n) == OidRow(i).oid
    ensures n != Trim(Upper(OidRow(i).shown), WHITESPACE)
  {
    var name, oid := Upper(OidRow(i).shown), OidRow(i).oid;
    TrimStartCuts(name, WHITESPACE);
    TrimEndCuts(TrimStart(name, WHITESPACE), WHITESPACE);
    OidTable(i);
    assert forall c :: c in Trim(name, WHITESPACE) ==> c in name;
    assert forall c :: c in oid ==> c in n;
  }

  // In the table a dot marks the identifiers, and only ST has none.
  lemma OidTable(i: nat)
    requires i < OID_ROWS
    ensures '.' !in Upper(OidRow(i).shown)
    ensures ('T' in OidRow(i).oid && 'T' !in Upper(OidRow(i).shown)) || '.' in OidRow(i).oid
  {
    var row := OidRow(i);
    assert row.oid[1] == if i == 0 then 'T' else '.';
    assert forall k :: 0 <= k < |row.shown| ==> row.shown[k] != '.';
  }

  // What printing and parsing one attribute before the others can give
  lemma HeadOutcome(a: Attribute, tail: string, pad: string) returns (pair: Pair)
    requires a.name != "" && '=' !in a.name && a.value != "" && Follows(tail) && Blank(pad)
    requires ReadDn(pad + (ItemText(a) + tail)).Some?
    ensures ToAttribute(pair) == a ==> Survives(a)
    ensures tail != [] ==> ReadDn(tail[1..]).Some?
    ensures ReadDn(pad + (ItemText(a) + tail)).value
         == Kept(pair) + if tail == [] then [] else ReadDn(tail[1..]).value
  {
    var text := ItemText(a) + tail;
    ItemStart(a, tail);
    ReadDnStep(pad, text);
    ItemOutcome(a, tail);
    var p := ReadPart(text).value;
    ContinueOutcome(p, tail);
    pair := p.pair;
    assert Kept(p.pair) + [] == Kept(p.pair);
  }

  lemma ContinueOutcome(p: Part, tail: string)
    requires Follows(tail) && EndsAt(p.rest, tail) && Continue(p).Some?
    ensures if tail == [] then Continue(p).value == Kept(p.pair)
            else ReadDn(tail[1..]).Some? && Continue(p).value == Kept(p.pair) + ReadDn(tail[1..]).value
  {
  }

  predicate Complete(a: Attribute) {
    a.name != "" && '=' !in a.name && a.value != ""
  }

  // The text is read as at most as many attributes as the list has; and when it is read as
  // the list itself, all of them survive.
  predicate OnlySurvivors(text: string, dn: seq<Attribute>) {
    var r := ReadDn(text);
    r.Some? ==>
      && |r.value| <= |dn|
      && (ToAttributes(r.value) == dn ==> forall a :: a in dn ==> Survives(a))
  }

  lemma OnlySurvivorsStep(dn: seq<Attribute>, tail: string, pad: string)
    requires dn != [] && Complete(dn[0]) && Follows(tail) && Blank(pad)
    requires tail == [] ==> |dn| == 1
    requires tail != [] ==> OnlySurvivors(tail[1..], dn[1..])
    ensures OnlySurvivors(pad + (ItemText(dn[0]) + tail), dn)
  {
    if ReadDn(pad + (ItemText(dn[0]) + tail)).Some? {
      var pair := HeadOutcome(dn[0], tail, pad);
      AllSurvive(dn, pair, if tail == [] then [] else ReadDn(tail[1..]).value);
    }
  }

  lemma {:induction false} OnlySurvivorsAreRead(dn: seq<Attribute>, sep: string, pad: string)
    requires forall a :: a in dn ==> Complete(a)
    requires IsSeparatorText(sep) && Blank(pad)
    ensures OnlySurvivors(pad + Serialised(dn, sep), dn)
  {
    if dn == [] {
      assert pad + Serialised(dn, sep) == pad;
      BlankIsRead(pad);
    } else {
      SerialisedSplits(dn, sep);
      if |dn| > 1 {
        OnlySurvivorsAreRead(dn[1..], sep, sep[1..]);
      }
      OnlySurvivorsStep(dn, Tail(dn, sep), pad);
    }
  }

  lemma AllSurvive(dn: seq<Attribute>, pair: Pair, rest: seq<Pair>)
    requires dn != [] && |rest| < |dn|
    requires ToAttribute(pair) == dn[0] ==> Survives(dn[0])
    requires ToAttributes(rest) == dn[1..] ==> forall a :: a in dn[1..] ==> Survives(a)
    ensures ToAttributes(Kept(pair) + rest) == dn ==> forall a :: a in dn ==> Survives(a)
  {
    var r := Kept(pair) + rest;
    if ToAttributes(r) == dn {
      assert |r| == |dn|;
      assert ToAttribute(r[0]) == dn[0];
      assert ToAttributes(r)[1..] == ToAttributes(rest);
      assert dn == [dn[0]] + dn[1..];
    }
  }

  lemma AttributesAreComplete(s: string)
    ensures forall a :: a in AttributesOf(s) ==> Complete(a)
  {
    PairsAreComplete(s);
    PairsBecomeComplete(ParsedDn(s));
  }

  lemma PairsBecomeComplete(pairs: seq<Pair>)
    requires AllComplete(pairs)
    ensures forall a :: a in ToAttributes(pairs) ==> Complete(a)
  {
    forall a | a in ToAttributes(pairs) ensures Complete(a) {
      var i :| 0 <= i < |pairs| && a == ToAttribute(pairs[i]);
      assert pairs[i] in pairs;
    }
  }

  // Printing and parsing again gives back the attributes if and only if each survives.
  lemma RoundTrip(dn: seq<Attribute>, sep: string)
    requires AllConstructed(dn) && IsSeparatorText(sep)
    ensures AttributesOf(Serialised(dn, sep)) == dn <==> forall a :: a in dn ==> Survives(a)
  {
    var s := Serialised(dn, sep);
    assert [] + s == s;
    if forall a :: a in dn ==> Survives(a) {
      SurvivorsAreRead(dn, sep, []);
      PairsMakeAttributes(dn);
    }
    if AttributesOf(s) == dn && dn != [] {
      AttributesAreComplete(s);
      OnlySurvivorsAreRead(dn, sep, []);
    }
  }

  // A text with one attribute, spelled in any way
  lemma OneAttribute(name: string, sp: Spelling)
    requires name != [] && name[0] != ' ' && '=' !in name && AttributeName(name) != []
    requires ValidSpelling(sp) && Ends(sp, []) && Denoted(sp) != []
    ensures AttributesOf(name + ['='] + (Written(sp) + [])) == [ToAttribute(Pair(AttributeName(name), Denoted(sp)))]
  {
    var text := name + ['='] + (Written(sp) + []);
    var pair := Pair(AttributeName(name), Denoted(sp));
    AttributeIsRead(name, sp, []);
    OnePart(text, pair);
  }

  lemma OnePart(text: string, pair: Pair)
    requires text != [] && text[0] != ' ' && ReadPart(text) == Some(Part([], pair))
    requires pair.name != [] && pair.value != []
    ensures AttributesOf(text) == [ToAttribute(pair)]
  {
    assert [] + text == text;
    ReadDnStep([], text);
    ContinueAtTail(Part([], pair));
    assert [pair] + [] == [pair];
  }

  lemma UpperTwice(s: string)
    ensures Upper(Upper(s)) == Upper(s)
  {
  }

  // The parser accepts an escaped equals sign, but the printer does not escape it: whatever
  // the name, no value with an equals sign is read back from what is printed for it.
  lemma {:induction false} EqualsSignIsLost(name: string, v: string)
    requires name != [] && name[0] != ' ' && '=' !in name && AttributeName(name) != []
    requires '=' in v
    ensures var dn := AttributesOf(name + ['='] + (Written(Plain(BackslashTokens(v))) + []));
            && dn == [ToAttribute(Pair(AttributeName(name), v))]
            && AttributesOf(Serialised(dn, ",")) != dn
  {
    var a := ToAttribute(Pair(AttributeName(name), v));
    BackslashIsSpelling(v);
    OneAttribute(name, Plain(BackslashTokens(v)));
    UpperTwice(AttributeName(name));
    EqualsDoesNotSurvive(a);
  }

  lemma EqualsDoesNotSurvive(a: Attribute)
    requires Constructed(a) && '=' in a.value
    ensures AttributesOf(Serialised([a], ",")) != [a]
  {
    assert a in [a] && !Survives(a);
    RoundTrip([a], ",");
  }
}
