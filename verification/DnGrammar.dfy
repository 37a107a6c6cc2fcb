// The three ways a value may be written in a distinguished name (section 3 of
// RFC 2253), and the scanners of src/dn.cpp that read them. Each scanner is proved to
// accept exactly the texts of its grammar.

module DnGrammar {
  import opened Text

  // ---------- Character classes

  // Unescaped, these end a plain value.
  predicate IsStop(c: char) {
    c == ',' || c == '=' || c == '+' || c == '<' || c == '>' || c == '#' || c == ';'
  }

  // A backslash may stand before these.
  predicate IsEscapable(c: char) {
    IsStop(c) || c == '\\' || c == '"' || c == ' '
  }

  // ---------- Plain values

  // One step of a plain value; each stands for a single character.
  datatype Token = Raw(c: char) | Escaped(c: char) | HexPair(hi: char, lo: char)

  predicate WellFormedToken(t: Token) {
    match t
    case Raw(c) => !IsStop(c) && c != '\\' && c != '"'
    case Escaped(c) => IsEscapable(c)
    case HexPair(hi, lo) => IsHex(hi) && IsHex(lo)
  }

  predicate WellFormed(ts: seq<Token>) {
    forall t :: t in ts ==> WellFormedToken(t)
  }

  function TokenText(t: Token): string {
    match t
    case Raw(c) => [c]
    case Escaped(c) => ['\\', c]
    case HexPair(hi, lo) => ['\\', hi, lo]
  }

  // How the tokens are written
  function Render(ts: seq<Token>): string {
    if ts == [] then [] else TokenText(ts[0]) + Render(ts[1..])
  }

  function Denotes(t: Token): char
    requires WellFormedToken(t)
  {
    match t
    case Raw(c) => c
    case Escaped(c) => c
    case HexPair(hi, lo) => Byte(hi, lo)
  }

  // The characters the tokens stand for
  function Meaning(ts: seq<Token>): (r: string)
    requires WellFormed(ts)
    ensures |r| == |ts|
  {
    seq(|ts|, i requires 0 <= i < |ts| => Denotes(ts[i]))
  }

  // The parser drops trailing spaces unless the last token is an escaped space.
  predicate KeepsTrailingSpaces(ts: seq<Token>) {
    ts != [] && ts[|ts| - 1] == Escaped(' ')
  }

  function PlainValue(ts: seq<Token>): string
    requires WellFormed(ts)
  {
    if KeepsTrailingSpaces(ts) then Meaning(ts) else TrimEnd(Meaning(ts), SPACE)
  }

  datatype Scanned = Scanned(tokens: seq<Token>, rest: string)

  // The tokens at the head of s, up to a stop or the end; None on a bad escape or a bare quote
  function ScanPlain(s: string): Option<Scanned>
    decreases |s|
  {
    if s == [] then Some(Scanned([], s))
    else if s[0] == '\\' then
      if |s| < 2 then None
      else if IsEscapable(s[1]) then Prepend(Escaped(s[1]), ScanPlain(s[2..]))
      else if |s| < 3 then None
      else if IsHex(s[1]) && IsHex(s[2]) then Prepend(HexPair(s[1], s[2]), ScanPlain(s[3..]))
      else None
    else if s[0] == '"' then None
    else if IsStop(s[0]) then Some(Scanned([], s))
    else Prepend(Raw(s[0]), ScanPlain(s[1..]))
  }

  function Prepend(t: Token, r: Option<Scanned>): Option<Scanned> {
    if r.None? then None else Some(Scanned([t] + r.value.tokens, r.value.rest))
  }

  // Where a plain value may end
  predicate Boundary(rest: string) {
    rest == [] || IsStop(rest[0])
  }

  lemma RenderCons(t: Token, ts: seq<Token>, rest: string)
    ensures Render([t] + ts) + rest == TokenText(t) + (Render(ts) + rest)
  {
    assert ([t] + ts)[1..] == ts;
  }

  lemma {:induction false} ScanPlainSound(s: string)
    requires ScanPlain(s).Some?
    ensures var r := ScanPlain(s).value;
            WellFormed(r.tokens) && Boundary(r.rest) && s == Render(r.tokens) + r.rest
    decreases |s|
  {
    if s == [] || IsStop(s[0]) {
    } else {
      var t := if s[0] != '\\' then Raw(s[0])
               else if IsEscapable(s[1]) then Escaped(s[1]) else HexPair(s[1], s[2]);
      var tail := s[|TokenText(t)|..];
      ScanPlainSound(tail);
      RenderCons(t, ScanPlain(tail).value.tokens, ScanPlain(tail).value.rest);
      assert s == TokenText(t) + tail;
    }
  }

  lemma {:induction false} ScanPlainComplete(ts: seq<Token>, rest: string)
    requires WellFormed(ts) && Boundary(rest)
    ensures ScanPlain(Render(ts) + rest) == Some(Scanned(ts, rest))
  {
    if ts == [] {
      assert Render(ts) + rest == rest;
    } else {
      var t, tail := ts[0], Render(ts[1..]) + rest;
      ScanPlainComplete(ts[1..], rest);
      assert [t] + ts[1..] == ts;
      RenderCons(t, ts[1..], rest);
      ScanPlainStep(t, tail);
    }
  }

  lemma ScanPlainStep(t: Token, tail: string)
    requires WellFormedToken(t)
    ensures ScanPlain(TokenText(t) + tail) == Prepend(t, ScanPlain(tail))
  {
    var s := TokenText(t) + tail;
    assert s[|TokenText(t)|..] == tail;
  }

  // The scanner accepts exactly the well-formed token texts, and reads each as its tokens.
  lemma ScanPlainExact(s: string, ts: seq<Token>, rest: string)
    ensures ScanPlain(s) == Some(Scanned(ts, rest))
       <==> WellFormed(ts) && Boundary(rest) && s == Render(ts) + rest
  {
    if ScanPlain(s) == Some(Scanned(ts, rest)) {
      ScanPlainSound(s);
    }
    if WellFormed(ts) && Boundary(rest) {
      ScanPlainComplete(ts, rest);
    }
  }

  // Where every character survives: nothing is lost unless a trailing space is written
  // in any other way than as backslash-space in the last place.
  lemma PlainValueExact(ts: seq<Token>)
    requires WellFormed(ts)
    ensures PlainValue(ts) == Meaning(ts)
       <==> ts == [] || Denotes(ts[|ts| - 1]) != ' ' || ts[|ts| - 1] == Escaped(' ')
  {
    var m := Meaning(ts);
    if ts != [] {
      assert m[|m| - 1] == Denotes(ts[|ts| - 1]);
    }
  }

  // ---------- Quoted values

  // One step between double quotes: an ordinary character, an escaped quote, or a
  // backslash and another character, which are both kept.
  datatype QuotedUnit = Literal(c: char) | QuoteMark | Verbatim(c: char)

  predicate WellFormedUnit(u: QuotedUnit) {
    match u
    case Literal(c) => c != '"' && c != '\\'
    case QuoteMark => true
    case Verbatim(c) => c != '"'
  }

  predicate WellFormedUnits(us: seq<QuotedUnit>) {
    forall u :: u in us ==> WellFormedUnit(u)
  }

  function UnitText(u: QuotedUnit): string {
    match u
    case Literal(c) => [c]
    case QuoteMark => ['\\', '"']
    case Verbatim(c) => ['\\', c]
  }

  function RenderUnits(us: seq<QuotedUnit>): string {
    if us == [] then [] else UnitText(us[0]) + RenderUnits(us[1..])
  }

  function UnitMeaning(u: QuotedUnit): string {
    match u
    case Literal(c) => [c]
    case QuoteMark => ['"']
    case Verbatim(c) => ['\\', c]
  }

  function UnitsMeaning(us: seq<QuotedUnit>): string {
    if us == [] then [] else UnitMeaning(us[0]) + UnitsMeaning(us[1..])
  }

  lemma {:induction false} UnitsMeaningSnoc(us: seq<QuotedUnit>, u: QuotedUnit)
    ensures UnitsMeaning(us + [u]) == UnitsMeaning(us) + UnitMeaning(u)
  {
    if us == [] {
      assert us + [u] == [u];
    } else {
      assert (us + [u])[1..] == us[1..] + [u];
      UnitsMeaningSnoc(us[1..], u);
    }
  }

  datatype ScannedUnits = ScannedUnits(units: seq<QuotedUnit>, rest: string)

  // The text after an opening quote, up to and with the closing one
  function ScanQuoted(s: string): Option<ScannedUnits>
    decreases |s|
  {
    if s == [] then None
    else if s[0] == '\\' then
      if |s| < 2 then None
      else if s[1] == '"' then PrependUnit(QuoteMark, ScanQuoted(s[2..]))
      else PrependUnit(Verbatim(s[1]), ScanQuoted(s[2..]))
    else if s[0] == '"' then Some(ScannedUnits([], s[1..]))
    else PrependUnit(Literal(s[0]), ScanQuoted(s[1..]))
  }

  function PrependUnit(u: QuotedUnit, r: Option<ScannedUnits>): Option<ScannedUnits> {
    if r.None? then None else Some(ScannedUnits([u] + r.value.units, r.value.rest))
  }

  lemma RenderUnitsCons(u: QuotedUnit, us: seq<QuotedUnit>, rest: string)
    ensures RenderUnits([u] + us) + ['"'] + rest == UnitText(u) + (RenderUnits(us) + ['"'] + rest)
  {
    assert ([u] + us)[1..] == us;
  }

  lemma {:induction false} ScanQuotedSound(s: string)
    requires ScanQuoted(s).Some?
    ensures var r := ScanQuoted(s).value;
            WellFormedUnits(r.units) && s == RenderUnits(r.units) + ['"'] + r.rest
    decreases |s|
  {
    if s[0] == '"' {
      assert s == ['"'] + s[1..];
    } else {
      var u := if s[0] != '\\' then Literal(s[0])
               else if s[1] == '"' then QuoteMark else Verbatim(s[1]);
      var tail := s[|UnitText(u)|..];
      ScanQuotedSound(tail);
      RenderUnitsCons(u, ScanQuoted(tail).value.units, ScanQuoted(tail).value.rest);
      assert s == UnitText(u) + tail;
    }
  }

  lemma ScanQuotedStep(u: QuotedUnit, tail: string)
    requires WellFormedUnit(u)
    ensures ScanQuoted(UnitText(u) + tail) == PrependUnit(u, ScanQuoted(tail))
  {
    var s := UnitText(u) + tail;
    assert s[|UnitText(u)|..] == tail;
  }

  lemma {:induction false} ScanQuotedComplete(us: seq<QuotedUnit>, rest: string)
    requires WellFormedUnits(us)
    ensures ScanQuoted(RenderUnits(us) + ['"'] + rest) == Some(ScannedUnits(us, rest))
  {
    if us == [] {
      assert (['"'] + rest)[1..] == rest;
      assert RenderUnits(us) + ['"'] + rest == ['"'] + rest;
    } else {
      var u, tail := us[0], RenderUnits(us[1..]) + ['"'] + rest;
      ScanQuotedComplete(us[1..], rest);
      assert [u] + us[1..] == us;
      RenderUnitsCons(u, us[1..], rest);
      ScanQuotedStep(u, tail);
    }
  }

  lemma ScanQuotedExact(s: string, us: seq<QuotedUnit>, rest: string)
    ensures ScanQuoted(s) == Some(ScannedUnits(us, rest))
       <==> WellFormedUnits(us) && s == RenderUnits(us) + ['"'] + rest
  {
    if ScanQuoted(s) == Some(ScannedUnits(us, rest)) {
      ScanQuotedSound(s);
    }
    if WellFormedUnits(us) {
      ScanQuotedComplete(us, rest);
    }
  }

  // ---------- Hexadecimal values

  predicate AllHex(s: string) {
    forall c :: c in s ==> IsHex(c)
  }

  // The length of the longest hexadecimal head of s
  function HexPrefix(s: string): (n: nat)
    ensures n <= |s|
    ensures n < |s| ==> !IsHex(s[n])
  {
    if s == [] || !IsHex(s[0]) then 0 else 1 + HexPrefix(s[1..])
  }

  lemma {:induction false} HexPrefixIsHex(s: string)
    ensures AllHex(s[..HexPrefix(s)])
  {
    if s != [] && IsHex(s[0]) {
      HexPrefixIsHex(s[1..]);
      assert s[..HexPrefix(s)] == [s[0]] + s[1..][..HexPrefix(s[1..])];
    }
  }

  // A hexadecimal run ends where the digits do.
  lemma {:induction false} HexPrefixUnique(s: string, k: nat)
    requires k <= |s| && AllHex(s[..k])
    requires k < |s| ==> !IsHex(s[k])
    ensures HexPrefix(s) == k
  {
    if k > 0 {
      assert s[0] in s[..k];
      assert s[1..][..k - 1] == s[..k][1..];
      HexPrefixUnique(s[1..], k - 1);
    }
  }

  // The bytes that pairs of digits write
  function HexBytes(s: string): (r: string)
    requires |s| % 2 == 0 && AllHex(s)
    ensures |r| == |s| / 2
  {
    seq(|s| / 2, i requires 0 <= i < |s| / 2 => Byte(s[2 * i], s[2 * i + 1]))
  }

  // What parseHexString promises: the bytes of a non-empty even run of digits
  function HexValue(s: string): Option<string> {
    if |s| == 0 || |s| % 2 == 1 || !AllHex(s) then None else Some(HexBytes(s))
  }

  method ParseHexString(view: string) returns (r: Option<string>)
    ensures r == HexValue(view)
  {
    var size := |view|;
    if size == 0 || size % 2 == 1 {
      return None;
    }
    if HexPrefix(view) != |view| {
      assert view[HexPrefix(view)] in view;
      return None;
    }
    HexPrefixIsHex(view);
    assert view[..|view|] == view;
    var result := "";
    var i := 0;
    while i < size - 1
      invariant 0 <= i <= size && i % 2 == 0
      invariant |result| == i / 2
      invariant forall k :: 0 <= k < |result| ==> result[k] == HexBytes(view)[k]
    {
      result := result + [Byte(view[i], view[i + 1])];
      i := i + 2;
    }
    assert result == HexBytes(view);
    r := Some(result);
  }
}
