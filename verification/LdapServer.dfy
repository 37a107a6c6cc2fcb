// The text form of an LDAP server in the configuration: host, port, user name, password, base
// DN and flags, separated by colons (src/qgpgmenewcryptoconfig.cpp, argument type 33).

module LdapServer {
  import opened Text

  const MAX_PORT: nat := 65535

  // The parts of the URL. No port stands for the default port; the base DN is kept in the
  // query and the flags in the fragment.
  datatype Url = Url(
    host: string, port: Option<nat>, userName: string, password: string, query: string, fragment: string)

  predicate ValidPort(u: Url) {
    u.port.Some? ==> u.port.value <= MAX_PORT
  }

  // ---------- One part

  // QString::replace of one character
  function ReplaceAll(s: string, c: char, sub: string): string {
    if s == [] then []
    else (if s[0] == c then sub else [s[0]]) + ReplaceAll(s[1..], c, sub)
  }

  function EncodeChar(c: char): string {
    if c == '%' then "%25" else if c == ':' then "%3a" else [c]
  }

  // Both characters replaced at once
  function Encoded(s: string): string {
    if s == [] then [] else EncodeChar(s[0]) + Encoded(s[1..])
  }

  lemma {:induction false} ReplaceAllConcat(s: string, t: string, c: char, sub: string)
    ensures ReplaceAll(s + t, c, sub) == ReplaceAll(s, c, sub) + ReplaceAll(t, c, sub)
  {
    if s == [] {
      assert s + t == t;
    } else {
      assert (s + t)[1..] == s[1..] + t;
      ReplaceAllConcat(s[1..], t, c, sub);
      ConcatAssociates(if s[0] == c then sub else [s[0]], ReplaceAll(s[1..], c, sub), ReplaceAll(t, c, sub));
    }
  }

  lemma {:induction false} TwoReplacementsAreOne(s: string)
    ensures ReplaceAll(ReplaceAll(s, '%', "%25"), ':', "%3a") == Encoded(s)
  {
    if s != [] {
      var first := if s[0] == '%' then "%25" else [s[0]];
      ReplaceAllConcat(first, ReplaceAll(s[1..], '%', "%25"), ':', "%3a");
      assert ReplaceAll(first, ':', "%3a") == EncodeChar(s[0]) by {
        assert first[1..] == if s[0] == '%' then "25" else "";
        assert s[0] == '%' ==> first[1..][1..] == "5" && first[1..][1..][1..] == "";
      }
      TwoReplacementsAreOne(s[1..]);
    }
  }

  method UrlPartEncode(str: string) returns (enc: string)
    ensures enc == Encoded(str)
  {
    enc := str;
    enc := ReplaceAll(enc, '%', "%25");  // first!
    enc := ReplaceAll(enc, ':', "%3a");
    TwoReplacementsAreOne(str);
  }

  // Percent decoding: a percent sign and two hexadecimal digits stand for one byte.
  function Decoded(s: string): string
    decreases |s|
  {
    if s == [] then []
    else if s[0] == '%' && |s| > 2 && IsHex(s[1]) && IsHex(s[2]) then
      [Byte(s[1], s[2])] + Decoded(s[3..])
    else [s[0]] + Decoded(s[1..])
  }

  lemma {:induction false} DecodeEncoded(s: string)
    ensures Decoded(Encoded(s)) == s
    ensures ':' !in Encoded(s)
  {
    if s != [] {
      var head, tail := EncodeChar(s[0]), Encoded(s[1..]);
      var e := head + tail;
      DecodeEncoded(s[1..]);
      assert e[|head|..] == tail;
      if |head| == 3 {
        assert e[0] == '%' && e[1] == head[1] && e[2] == head[2];
        assert Byte('2', '5') == '%' && Byte('3', 'a') == ':';
      }
      assert Decoded(e) == [s[0]] + Decoded(tail);
    }
  }

  // ---------- The port

  function Digit(n: nat): char
    requires n < 10
  {
    '0' + n as char
  }

  // QString::number
  function Number(n: nat): (s: string)
    ensures s != []
    ensures forall c :: c in s ==> '0' <= c <= '9'
  {
    if n < 10 then [Digit(n)] else Number(n / 10) + [Digit(n % 10)]
  }

  function DigitsToNumber(s: string): Option<nat> {
    if s == [] || exists i :: 0 <= i < |s| && !('0' <= s[i] <= '9') then None else Some(NumberOf(s))
  }

  // QString::toInt: blanks around it, a sign, and digits of a number that an int can hold
  function ToInt(s: string): Option<int> {
    var t := Trim(s, WHITESPACE);
    var signed := t != [] && (t[0] == '-' || t[0] == '+');
    match DigitsToNumber(if signed then t[1..] else t)
    case None => None
    case Some(n) =>
      var size: int := n;
      var value := if signed && t[0] == '-' then -size else size;
      if -0x8000_0000 <= value < 0x8000_0000 then Some(value) else None
  }

  function NumberOf(s: string): nat
    requires forall i :: 0 <= i < |s| ==> '0' <= s[i] <= '9'
  {
    if s == [] then 0 else 10 * NumberOf(s[..|s| - 1]) + (s[|s| - 1] as int - '0' as int)
  }

  lemma {:induction false} ToIntOfNumber(n: nat)
    requires n < 0x8000_0000
    ensures ToInt(Number(n)) == Some(n)
  {
    NumberOfNumber(n);
    NumberIsBare(Number(n));
  }

  lemma NumberIsBare(s: string)
    requires s != [] && forall c :: c in s ==> '0' <= c <= '9'
    ensures Trim(s, WHITESPACE) == s && s[0] != '-' && s[0] != '+'
  {
    assert s[0] in s && s[|s| - 1] in s;
    assert TrimStart(s, WHITESPACE) == s;
  }

  lemma {:induction false} NumberOfNumber(n: nat)
    ensures forall i :: 0 <= i < |Number(n)| ==> '0' <= Number(n)[i] <= '9'
    ensures NumberOf(Number(n)) == n
  {
    if n >= 10 {
      NumberOfNumber(n / 10);
      var s := Number(n);
      assert s[..|s| - 1] == Number(n / 10);
    } else {
      var s := Number(n);
      assert s[..0] == [];
    }
  }

  function PortToString(port: Option<nat>): string {
    match port
    case None => ""
    case Some(n) => Number(n)
  }

  // The port field of a text; what is no number is ignored, and QUrl takes no port below zero
  // or beyond the largest.
  function PortOf(text: string): Option<nat> {
    match ToInt(text)
    case None => None
    case Some(n) => if 0 <= n <= MAX_PORT then Some(n) else None
  }

  // ---------- The whole text

  function Fields(u: Url): seq<string> {
    [Encoded(u.host), PortToString(u.port), Encoded(u.userName), Encoded(u.password),
     Encoded(u.query), Encoded(u.fragment)]
  }

  method SplitUrl(u: Url) returns (text: string)
    ensures text == Join(Fields(u), ":")
  {
    var host := UrlPartEncode(u.host);
    var userName := UrlPartEncode(u.userName);
    var password := UrlPartEncode(u.password);
    var query := UrlPartEncode(u.query);
    var fragment := UrlPartEncode(u.fragment);
    text := Join([host, PortToString(u.port), userName, password, query, fragment], ":");
  }

  // A server, or a text that is left to the general URL parser
  datatype Parsed = Server(url: Url) | GeneralUrl(text: string)

  predicate StartsWith(s: string, prefix: string) {
    prefix <= s
  }

  function FromItems(items: seq<string>): Url
    requires |items| >= 5
  {
    Url(Decoded(items[0]), PortOf(items[1]), Decoded(items[2]), Decoded(items[3]), Decoded(items[4]),
        if |items| >= 6 then Decoded(items[5]) else "")
  }

  function ParsedUrl(str: string): Parsed {
    if StartsWith(str, "ldap://") || StartsWith(str, "ldaps://") then GeneralUrl(str)
    else
      var items := Pieces(if StartsWith(str, "ldap:") then str[5..] else str, ':');
      if |items| >= 5 then Server(FromItems(items)) else GeneralUrl(str)
  }

  // The URL is filled step by step; a part that is empty is left unset.
  method ParseUrl(str: string) returns (r: Parsed)
    ensures r == ParsedUrl(str)
  {
    var isLdapUrl := StartsWith(str, "ldap://") || StartsWith(str, "ldaps://");
    if !isLdapUrl {
      var hasOptionalPrefix := StartsWith(str, "ldap:");
      var items := if hasOptionalPrefix then Pieces(str[5..], ':') else Pieces(str, ':');
      if |items| >= 5 {
        var url := Url(Decoded(items[0]), None, "", "", "", "");
        if items[1] != "" {
          var port := ToInt(items[1]);
          if port.Some? {
            url := url.(port := if 0 <= port.value <= MAX_PORT then Some(port.value) else None);
          }
        }
        var userName := Decoded(items[2]);
        if userName != "" {
          url := url.(userName := userName);
        }
        var password := Decoded(items[3]);
        if password != "" {
          url := url.(password := password);
        }
        var baseDn := Decoded(items[4]);
        if baseDn != "" {
          url := url.(query := baseDn);
        }
        if |items| >= 6 {
          var flags := Decoded(items[5]);
          if flags != "" {
            url := url.(fragment := flags);
          }
        }
        return Server(url);
      }
    }
    r := GeneralUrl(str);
  }

  // ---------- Round trips

  lemma FieldsHaveNoColon(u: Url)
    ensures forall f :: f in Fields(u) ==> ':' !in f
  {
    DecodeEncoded(u.host);
    DecodeEncoded(u.userName);
    DecodeEncoded(u.password);
    DecodeEncoded(u.query);
    DecodeEncoded(u.fragment);
  }

  lemma FieldsAreRead(u: Url, more: seq<string>)
    requires ValidPort(u)
    ensures FromItems(Fields(u) + more) == u
  {
    DecodeEncoded(u.host);
    DecodeEncoded(u.userName);
    DecodeEncoded(u.password);
    DecodeEncoded(u.query);
    DecodeEncoded(u.fragment);
    if u.port.Some? {
      ToIntOfNumber(u.port.value);
    }
  }

  // The text is the host, a colon, and the other fields.
  lemma TextSplits(u: Url)
    ensures Join(Fields(u), ":") == Encoded(u.host) + [':'] + Join(Fields(u)[1..], ":")
    ensures ':' !in Encoded(u.host)
    ensures Pieces(Join(Fields(u), ":"), ':') == Fields(u)
    ensures Pieces(Join(Fields(u)[1..], ":"), ':') == Fields(u)[1..]
  {
    FieldsHaveNoColon(u);
    DecodeEncoded(u.host);
    PiecesOfJoin(Fields(u), ':');
    PiecesOfJoin(Fields(u)[1..], ':');
  }

  lemma PrefixOfFields(h: string, tail: string, p: string, q: string)
    requires ':' !in h && ':' !in p
    ensures StartsWith(h + [':'] + tail, p + [':'] + q) <==> h == p && StartsWith(tail, q)
  {
    var s, t := h + [':'] + tail, p + [':'] + q;
    if StartsWith(s, t) {
      IndexOfSeparator(h, ':', tail);
      assert forall i :: 0 <= i < |p| ==> s[i] == p[i] && s[i] in p;
      assert s[|p|] == t[|p|] == ':';
      assert ':' !in s[..|p|];
      IndexOfUnique(s, ':', |p|);
      assert forall i :: 0 <= i < |h| ==> h[i] == s[i] == p[i];
      assert forall i :: 0 <= i < |q| ==> tail[i] == s[|p| + 1 + i] == t[|p| + 1 + i] == q[i];
    }
  }

  lemma TwoSlashes(s: string)
    ensures StartsWith(s, "//") <==> |s| >= 2 && s[0] == '/' && s[1] == '/'
  {
  }

  lemma {:induction false} EncodedIsInjective(s: string, t: string)
    ensures Encoded(s) == Encoded(t) <==> s == t
  {
    DecodeEncoded(s);
    DecodeEncoded(t);
  }

  lemma EncodedLdap()
    ensures Encoded("ldap") == "ldap"
  {
    assert Encoded("p") == "p" && Encoded("ap") == "ap" && Encoded("dap") == "dap";
  }

  // What follows the host starts with a digit or a colon, never with a slash.
  lemma AfterHost(u: Url)
    ensures !StartsWith(Join(Fields(u)[1..], ":"), "//")
  {
    var tail := Join(Fields(u)[1..], ":");
    var port := PortToString(u.port);
    assert tail == port + ":" + Join(Fields(u)[2..], ":");
    assert tail[0] == if port == "" then ':' else port[0];
    if port != "" {
      assert port[0] in port;
    }
    TwoSlashes(tail);
  }

  // Which of the three prefixes the text starts with
  lemma Prefixes(h: string, tail: string)
    requires ':' !in h
    ensures StartsWith(h + [':'] + tail, "ldap://") <==> h == "ldap" && StartsWith(tail, "//")
    ensures StartsWith(h + [':'] + tail, "ldaps://") <==> h == "ldaps" && StartsWith(tail, "//")
    ensures StartsWith(h + [':'] + tail, "ldap:") <==> h == "ldap"
  {
    PrefixOfFields(h, tail, "ldap", "//");
    PrefixOfFields(h, tail, "ldaps", "//");
    PrefixOfFields(h, tail, "ldap", "");
    assert "ldap" + [':'] + "//" == "ldap://" && "ldaps" + [':'] + "//" == "ldaps://";
    assert "ldap" + [':'] + "" == "ldap:";
  }

  // What is written is read back if and only if the host is not "ldap": the parser then
  // takes it for the optional prefix.
  lemma RoundTripExact(u: Url)
    requires ValidPort(u)
    ensures ParsedUrl(Join(Fields(u), ":")) == Server(u) <==> u.host != "ldap"
  {
    var str, tail := Join(Fields(u), ":"), Join(Fields(u)[1..], ":");
    TextSplits(u);
    AfterHost(u);
    Prefixes(Encoded(u.host), tail);
    EncodedLdap();
    EncodedIsInjective(u.host, "ldap");
    if u.host == "ldap" {
      assert str[5..] == tail;
      PortIsNoHost(u.port);
      assert ParsedUrl(str) == Server(FromItems(Fields(u)[1..]));
    } else {
      FieldsAreRead(u, []);
      assert Fields(u) + [] == Fields(u);
    }
  }

  lemma PortIsNoHost(port: Option<nat>)
    ensures Decoded(PortToString(port)) != "ldap"
  {
    var s := PortToString(port);
    if s != "" {
      assert s[0] in s;
      assert Decoded(s)[0] == s[0];
    }
  }

  // Behind an explicit prefix every host is read back, unless it starts with two slashes.
  lemma PrefixedRoundTripExact(u: Url)
    requires ValidPort(u)
    ensures ParsedUrl("ldap:" + Join(Fields(u), ":")) == Server(u) <==> !StartsWith(u.host, "//")
  {
    var text := Join(Fields(u), ":");
    var str := "ldap:" + text;
    assert str == "ldap" + [':'] + text;
    Prefixes("ldap", text);
    TextSplits(u);
    SlashesStay(u.host, Join(Fields(u)[1..], ":"));
    FieldsAreRead(u, []);
    assert Fields(u) + [] == Fields(u) && str[5..] == text;
  }

  lemma SlashesStay(host: string, tail: string)
    ensures StartsWith(Encoded(host) + [':'] + tail, "//") <==> StartsWith(host, "//")
  {
    var s := Encoded(host) + [':'] + tail;
    TwoSlashes(s);
    TwoSlashes(host);
    if host != "" {
      assert Encoded(host) == EncodeChar(host[0]) + Encoded(host[1..]);
      if host[0] == '/' && |host| >= 2 {
        assert Encoded(host[1..]) == EncodeChar(host[1]) + Encoded(host[2..]);
      }
    }
  }

  // Fields behind the sixth are ignored, such as the one behind a last colon.
  lemma MoreFieldsAreIgnored(u: Url, more: string)
    requires ValidPort(u) && u.host != "ldap"
    ensures ParsedUrl(Join(Fields(u), ":") + ":" + more) == Server(u)
  {
    var str := Join(Fields(u), ":") + ":" + more;
    NoPrefix(u, more);
    FieldsHaveNoColon(u);
    PiecesConcat(Fields(u), more);
    FieldsAreRead(u, Pieces(more, ':'));
  }

  lemma MoreBehind(head: string, tail: string, more: string)
    ensures head + tail + ":" + more == head + (tail + ":" + more)
  {
    ConcatAssociates(head, tail, ":" + more);
    ConcatAssociates(tail, ":", more);
    ConcatAssociates(head + tail, ":", more);
  }

  lemma NoPrefix(u: Url, more: string)
    requires u.host != "ldap"
    ensures var str := Join(Fields(u), ":") + ":" + more;
            !StartsWith(str, "ldap://") && !StartsWith(str, "ldaps://") && !StartsWith(str, "ldap:")
  {
    var tail := Join(Fields(u)[1..], ":");
    TextSplits(u);
    MoreBehind(Encoded(u.host) + [':'], tail, more);
    Prefixes(Encoded(u.host), tail + ":" + more);
    EncodedLdap();
    EncodedIsInjective(u.host, "ldap");
    TailStart(u, more);
  }

  lemma TailStart(u: Url, more: string)
    ensures !StartsWith(Join(Fields(u)[1..], ":") + ":" + more, "//")
  {
    var tail := Join(Fields(u)[1..], ":");
    var port := PortToString(u.port);
    assert tail == port + ":" + Join(Fields(u)[2..], ":");
    var s := tail + ":" + more;
    assert s[0] == if port == "" then ':' else port[0];
    if port != "" {
      assert port[0] in port;
    }
    TwoSlashes(s);
  }

  lemma {:induction false} PiecesConcat(fields: seq<string>, more: string)
    requires fields != [] && forall f :: f in fields ==> ':' !in f
    ensures Pieces(Join(fields, ":") + ":" + more, ':') == fields + Pieces(more, ':')
  {
    var s := Join(fields, ":") + ":" + more;
    var f := fields[0];
    var tail := if |fields| == 1 then more else Join(fields[1..], ":") + ":" + more;
    assert s == f + [':'] + tail;
    IndexOfSeparator(f, ':', tail);
    if |fields| > 1 {
      PiecesConcat(fields[1..], more);
      ConcatAssociates([f], fields[1..], Pieces(more, ':'));
      assert [f] + fields[1..] == fields;
    }
  }

  // ---------- The formats, field by field

  // The older format, with five fields
  function FiveFields(u: Url): seq<string> {
    [Encoded(u.host), PortToString(u.port), Encoded(u.userName), Encoded(u.password), Encoded(u.query)]
  }

  lemma FiveAreRead(u: Url)
    requires ValidPort(u) && u.fragment == ""
    ensures FromItems(FiveFields(u)) == u
  {
    FieldsAreRead(u, []);
    assert Fields(u) + [] == Fields(u);
  }

  lemma FiveSplit(u: Url)
    ensures Pieces(Join(FiveFields(u), ":"), ':') == FiveFields(u)
    ensures Join(FiveFields(u), ":") == Encoded(u.host) + [':'] + Join(FiveFields(u)[1..], ":")
    ensures Pieces(Join(FiveFields(u)[1..], ":"), ':') == FiveFields(u)[1..]
    ensures !StartsWith(Join(FiveFields(u)[1..], ":"), "//") && ':' !in Encoded(u.host)
  {
    FieldsHaveNoColon(u);
    assert forall f :: f in FiveFields(u) ==> f in Fields(u);
    PiecesOfJoin(FiveFields(u), ':');
    PiecesOfJoin(FiveFields(u)[1..], ':');
    assert Encoded(u.host) in Fields(u);
    var tail, port := Join(FiveFields(u)[1..], ":"), PortToString(u.port);
    assert tail == port + ":" + Join(FiveFields(u)[2..], ":");
    assert tail[0] == if port == "" then ':' else port[0];
    if port != "" {
      assert port[0] in port;
    }
    TwoSlashes(tail);
  }

  // A server without flags is read back from its five fields if and only if the host is not
  // "ldap"; then the text is one field short, and is left to the general parser.
  lemma FiveFieldsExact(u: Url)
    requires ValidPort(u) && u.fragment == ""
    ensures var text := Join(FiveFields(u), ":");
            ParsedUrl(text) == if u.host != "ldap" then Server(u) else GeneralUrl(text)
  {
    var text, tail := Join(FiveFields(u), ":"), Join(FiveFields(u)[1..], ":");
    FiveSplit(u);
    Prefixes(Encoded(u.host), tail);
    EncodedLdap();
    EncodedIsInjective(u.host, "ldap");
    if u.host == "ldap" {
      assert text[5..] == tail;
    } else {
      FiveAreRead(u);
    }
  }

  // Texts that are left to the general parser: those of an LDAP URL, and those that have, behind
  // an optional prefix, fewer than five fields, that is, fewer than four colons.
  lemma GeneralExact(text: string)
    ensures var fields := Pieces(if "ldap:" <= text then text[5..] else text, ':');
            ParsedUrl(text) == GeneralUrl(text) <==> "ldap://" <= text || "ldaps://" <= text || |fields| <= 4
  {
  }

  // Without characters to encode, the text is the parts themselves, in this order.
  lemma {:induction false} PlainIsItself(s: string)
    requires ':' !in s && '%' !in s
    ensures Encoded(s) == s
  {
    if s != [] {
      PlainIsItself(s[1..]);
    }
  }

  predicate PlainPart(s: string) {
    ':' !in s && '%' !in s
  }

  lemma TextExact(u: Url)
    requires PlainPart(u.host) && PlainPart(u.userName) && PlainPart(u.password)
    requires PlainPart(u.query) && PlainPart(u.fragment)
    ensures Join(Fields(u), ":") ==
            u.host + ":" + (PortToString(u.port) + ":" + (u.userName + ":" + (u.password + ":" +
            (u.query + ":" + u.fragment))))
  {
    PlainIsItself(u.host);
    PlainIsItself(u.userName);
    PlainIsItself(u.password);
    PlainIsItself(u.query);
    PlainIsItself(u.fragment);
    JoinOfSix(u.host, PortToString(u.port), u.userName, u.password, u.query, u.fragment);
  }

  lemma JoinOfSix(a: string, b: string, c: string, d: string, e: string, f: string)
    ensures Join([a, b, c, d, e, f], ":") == a + ":" + (b + ":" + (c + ":" + (d + ":" + (e + ":" + f))))
  {
    assert [a, b, c, d, e, f][1..] == [b, c, d, e, f] && [b, c, d, e, f][1..] == [c, d, e, f];
    assert [c, d, e, f][1..] == [d, e, f] && [d, e, f][1..] == [e, f] && [e, f][1..] == [f];
    assert Join([e, f], ":") == e + ":" + f;
    assert Join([c, d, e, f], ":") == c + ":" + (d + ":" + (e + ":" + f));
  }

  // HOSTNAME:PORT:USERNAME:PASSWORD:BASE_DN, as it stands
  lemma ServerAsWritten(host: string, port: nat, userName: string, password: string, baseDn: string)
    requires PlainPart(host) && PlainPart(userName) && PlainPart(password) && PlainPart(baseDn)
    requires host != "ldap" && port <= 65535
    ensures ParsedUrl(host + ":" + (Number(port) + ":" + (userName + ":" + (password + ":" + baseDn)))) ==
            Server(Url(host, Some(port), userName, password, baseDn, ""))
  {
    var u := Url(host, Some(port), userName, password, baseDn, "");
    PlainIsItself(host);
    PlainIsItself(userName);
    PlainIsItself(password);
    PlainIsItself(baseDn);
    FiveFieldsExact(u);
    JoinOfFive(host, Number(port), userName, password, baseDn);
  }

  lemma JoinOfFive(a: string, b: string, c: string, d: string, e: string)
    ensures Join([a, b, c, d, e], ":") == a + ":" + (b + ":" + (c + ":" + (d + ":" + e)))
  {
    assert [a, b, c, d, e][1..] == [b, c, d, e] && [b, c, d, e][1..] == [c, d, e];
    assert [c, d, e][1..] == [d, e] && [d, e][1..] == [e];
    assert Join([d, e], ":") == d + ":" + e;
    assert Join([c, d, e], ":") == c + ":" + (d + ":" + e);
  }

  const DECIMAL: string := "0123456789"

  // Numbers are written in decimal digits.
  lemma NumberExact(n: nat)
    ensures |DECIMAL| == 10
    ensures Number(n) == (if n < 10 then "" else Number(n / 10)) + [DECIMAL[n % 10]]
  {
    assert forall i :: 0 <= i < 10 ==> DECIMAL[i] == Digit(i);
  }

  // No port beyond the largest is taken.
  lemma PortExact(n: nat)
    requires n < 0x8000_0000
    ensures PortOf(Number(n)) == if n <= 65535 then Some(n) else None
  {
    ToIntOfNumber(n);
  }

  // ---------- Percent decoding

  // A text in which any characters are written as a percent sign and two digits
  datatype Coded = Bare(c: char) | Percent(high: char, low: char)

  predicate ValidCode(k: Coded) {
    match k
    case Bare(c) => c != '%'
    case Percent(high, low) => IsHex(high) && IsHex(low)
  }

  function CodeText(k: Coded): string {
    match k
    case Bare(c) => [c]
    case Percent(high, low) => ['%', high, low]
  }

  function CodedText(ks: seq<Coded>): string {
    if ks == [] then [] else CodeText(ks[0]) + CodedText(ks[1..])
  }

  function CodeMeaning(k: Coded): char
    requires ValidCode(k)
  {
    match k
    case Bare(c) => c
    case Percent(high, low) => (16 * Xtoi(high) + Xtoi(low)) as char
  }

  function CodedMeaning(ks: seq<Coded>): string
    requires forall k :: k in ks ==> ValidCode(k)
  {
    if ks == [] then [] else [CodeMeaning(ks[0])] + CodedMeaning(ks[1..])
  }

  // All of them are decoded, in either case of the digits.
  lemma {:induction false} DecodedExact(ks: seq<Coded>)
    requires forall k :: k in ks ==> ValidCode(k)
    ensures Decoded(CodedText(ks)) == CodedMeaning(ks)
  {
    if ks != [] {
      DecodedExact(ks[1..]);
      var s, tail := CodedText(ks), CodedText(ks[1..]);
      assert ks[0] in ks;
      assert s[|CodeText(ks[0])|..] == tail;
      assert Decoded(s) == [CodeMeaning(ks[0])] + Decoded(tail);
    }
  }
}
