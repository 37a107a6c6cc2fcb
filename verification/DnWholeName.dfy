// Which texts the parser accepts as a whole distinguished name, and what they mean: blanks,
// attributes and separators (sections 3 and 4 of RFC 2253, as src/dn.cpp reads them).

module DnWholeName {
  import opened DnParser
  import opened DnSpelling
  import opened Text

  // An attribute as it is written: blanks, a name, an equals sign, blanks, a spelling of the
  // value, blanks
  datatype Item = Item(lead: string, name: string, pad: string, sp: Spelling, trail: string)

  // A name is empty, or ends with an attribute, or goes on behind a separator; that may be
  // nothing.
  datatype Name = Nothing(blanks: string) | Last(item: Item) | More(item: Item, sep: char, tail: Name)

  function Behind(item: Item, rest: string): string {
    item.name + ['='] + (item.pad + (Written(item.sp) + (item.trail + rest)))
  }

  function WrittenName(n: Name): string {
    match n
    case Nothing(blanks) => blanks
    case Last(item) => item.lead + Behind(item, [])
    case More(item, sep, tail) => item.lead + Behind(item, [sep] + WrittenName(tail))
  }

  predicate ValidItem(item: Item, rest: string) {
    && Blank(item.lead) && Blank(item.pad) && Blank(item.trail)
    && item.name != [] && item.name[0] != ' ' && '=' !in item.name
    && ValidSpelling(item.sp) && Ends(item.sp, item.trail + rest)
  }

  predicate ValidName(n: Name) {
    match n
    case Nothing(blanks) => Blank(blanks)
    case Last(item) => ValidItem(item, [])
    case More(item, sep, tail) =>
      IsSeparator(sep) && ValidItem(item, [sep] + WrittenName(tail)) && ValidName(tail)
  }

  function PairOf(item: Item): Pair
    requires ValidSpelling(item.sp)
  {
    Pair(AttributeName(item.name), Denoted(item.sp))
  }

  // The pairs with a name and a value
  function PairsOf(n: Name): seq<Pair>
    requires ValidName(n)
  {
    match n
    case Nothing(_) => []
    case Last(item) => Kept(PairOf(item))
    case More(item, _, tail) => Kept(PairOf(item)) + PairsOf(tail)
  }

  ghost predicate Spelled(s: string, n: Name, pairs: seq<Pair>) {
    ValidName(n) && s == WrittenName(n) && pairs == PairsOf(n)
  }

  // ---------- What is written is read

  lemma {:induction false} BlanksAreTrimmed(blanks: string)
    requires Blank(blanks)
    ensures TrimStart(blanks, SPACE) == []
  {
    if blanks != [] {
      BlanksAreTrimmed(blanks[1..]);
    }
  }

  // One attribute is cut off, up to the blanks behind its value.
  lemma ItemIsCut(item: Item, rest: string)
    requires ValidItem(item, rest)
    ensures TrimStart(item.lead + Behind(item, rest), SPACE) == Behind(item, rest) != []
    ensures ReadPart(Behind(item, rest)) == Some(Part(item.trail + rest, PairOf(item)))
  {
    var v := Value(item.trail + rest, Denoted(item.sp));
    var text := Written(item.sp) + v.rest;
    SpellingIsRead(item.sp, text, v);
    TrimStartDropsBlanks(item.pad, text);
    ReadPartOfSpelling(item.name, item.pad + text, item.sp, v);
    TrimStartDropsBlanks(item.lead, Behind(item, rest));
  }

  lemma LastIsRead(item: Item)
    requires ValidItem(item, [])
    ensures ReadDn(item.lead + Behind(item, [])) == Some(Kept(PairOf(item)))
  {
    ItemIsCut(item, []);
    assert item.trail + [] == item.trail;
    BlanksAreTrimmed(item.trail);
  }

  lemma MoreIsRead(item: Item, sep: char, rest: string)
    requires IsSeparator(sep) && ValidItem(item, [sep] + rest)
    ensures ReadDn(item.lead + Behind(item, [sep] + rest)) ==
            if ReadDn(rest).None? then None else Some(Kept(PairOf(item)) + ReadDn(rest).value)
  {
    ItemIsCut(item, [sep] + rest);
    TrimStartDropsBlanks(item.trail, [sep] + rest);
    assert ([sep] + rest)[1..] == rest;
  }

  lemma {:induction false} SpelledIsRead(n: Name)
    requires ValidName(n)
    ensures ReadDn(WrittenName(n)) == Some(PairsOf(n))
  {
    match n
    case Nothing(blanks) => BlanksAreTrimmed(blanks);
    case Last(item) => LastIsRead(item);
    case More(item, sep, tail) =>
      SpelledIsRead(tail);
      MoreIsRead(item, sep, WrittenName(tail));
  }

  // ---------- What is read was written

  lemma BlanksInFront(s: string) returns (blanks: string)
    ensures Blank(blanks) && s == blanks + TrimStart(s, SPACE)
  {
    TrimStartCuts(s, SPACE);
    blanks := s[..|s| - |TrimStart(s, SPACE)|];
  }

  lemma CutAtEquals(t: string) returns (name: string, behind: string)
    requires t != [] && t[0] != ' ' && CutPart(t).Some?
    ensures name != [] && name[0] != ' ' && '=' !in name && t == name + ['='] + behind
    ensures var text := TrimStart(behind, SPACE);
            text != [] && ReadValue(text).Some? && CutPart(t) == Some(Cut(name, ReadValue(text).value))
  {
    var eq := IndexOf(t, '=');
    IndexOfIsFirst(t, '=');
    name, behind := t[..eq], t[eq + 1..];
  }

  // The attribute at the head of t, and the text behind it
  lemma ItemAtHead(lead: string, t: string) returns (item: Item, u: string)
    requires Blank(lead) && t != [] && t[0] != ' ' && CutPart(t).Some?
    ensures item.lead == lead && t == Behind(item, u) && ValidItem(item, u)
    ensures Mapped(CutPart(t).value) == Part(item.trail + u, PairOf(item))
    ensures u == TrimStart(item.trail + u, SPACE)
  {
    var name, behind := CutAtEquals(t);
    var pad := BlanksInFront(behind);
    var text := TrimStart(behind, SPACE);
    var v := ReadValue(text).value;
    var sp := ReadIsSpelled(text, v);
    var trail := BlanksInFront(v.rest);
    u := TrimStart(v.rest, SPACE);
    item := Item(lead, name, pad, sp, trail);
  }

  lemma LastIsSpelled(item: Item)
    requires ValidItem(item, [])
    ensures Spelled(item.lead + Behind(item, []), Last(item), Kept(PairOf(item)))
  {
  }

  lemma MoreIsSpelled(item: Item, u: string, tail: Name, pairs: seq<Pair>)
    requires ValidItem(item, u) && u != [] && IsSeparator(u[0]) && Spelled(u[1..], tail, pairs)
    ensures Spelled(item.lead + Behind(item, u), More(item, u[0], tail), Kept(PairOf(item)) + pairs)
  {
    assert u == [u[0]] + u[1..];
  }

  lemma {:induction false} ReadNameIsSpelled(s: string) returns (n: Name)
    requires ReadDn(s).Some?
    ensures Spelled(s, n, ReadDn(s).value)
    decreases |s|
  {
    var lead := BlanksInFront(s);
    var t := TrimStart(s, SPACE);
    if t == [] {
      assert lead + [] == lead;
      n := Nothing(s);
    } else {
      var item, u := ItemAtHead(lead, t);
      CutConsumes(t);
      if u == [] {
        LastIsSpelled(item);
        n := Last(item);
      } else {
        var tail := ReadNameIsSpelled(u[1..]);
        MoreIsSpelled(item, u, tail, ReadDn(u[1..]).value);
        n := More(item, u[0], tail);
      }
    }
  }

  // A text reads as these pairs, and is not given up on, if and only if it is written so.
  lemma ReadDnExact(s: string, pairs: seq<Pair>)
    ensures ReadDn(s) == Some(pairs) <==> exists n :: Spelled(s, n, pairs)
  {
    if ReadDn(s) == Some(pairs) {
      var n := ReadNameIsSpelled(s);
    }
    if n :| Spelled(s, n, pairs) {
      SpelledIsRead(n);
    }
  }
}
