// String helpers shared by the components: trimming, finding, joining and splitting.

module Text {

  datatype Option<+T> = None | Some(value: T)

  // The one character that the DN parser trims (std::string_view code).
  const SPACE: set<char> := {' '}

  // The ASCII characters that QString::trimmed and QByteArray::trimmed remove.
  const WHITESPACE: set<char> := {' ', '\t', '\n', '\U{0B}', '\U{0C}', '\r'}

  // s without the leading characters that are in blanks
  function TrimStart(s: string, blanks: set<char>): (r: string)
    ensures |r| <= |s|
    ensures r != [] ==> r[0] !in blanks
  {
    if s == [] || s[0] !in blanks then s else TrimStart(s[1..], blanks)
  }

  // s without the trailing characters that are in blanks
  function TrimEnd(s: string, blanks: set<char>): (r: string)
    ensures |r| <= |s|
    ensures r != [] ==> r[|r| - 1] !in blanks
  {
    if s == [] || s[|s| - 1] !in blanks then s else TrimEnd(s[..|s| - 1], blanks)
  }

  lemma {:induction false} TrimStartCuts(s: string, blanks: set<char>)
    ensures var r := TrimStart(s, blanks);
            r == s[|s| - |r|..] && forall i :: 0 <= i < |s| - |r| ==> s[i] in blanks
  {
    if s != [] && s[0] in blanks {
      TrimStartCuts(s[1..], blanks);
    }
  }

  lemma {:induction false} TrimEndCuts(s: string, blanks: set<char>)
    ensures var r := TrimEnd(s, blanks);
            r == s[..|r|] && forall i :: |r| <= i < |s| ==> s[i] in blanks
  {
    if s != [] && s[|s| - 1] in blanks {
      TrimEndCuts(s[..|s| - 1], blanks);
    }
  }

  function Trim(s: string, blanks: set<char>): string {
    TrimEnd(TrimStart(s, blanks), blanks)
  }

  // The first position of c in s, or |s| when there is none
  function IndexOf<T(==)>(s: seq<T>, c: T): (i: nat)
    ensures i <= |s|
    ensures i < |s| ==> s[i] == c
  {
    if s == [] || s[0] == c then 0 else 1 + IndexOf(s[1..], c)
  }

  lemma {:induction false} IndexOfIsFirst<T>(s: seq<T>, c: T)
    ensures c !in s[..IndexOf(s, c)]
  {
    if s != [] && s[0] != c {
      IndexOfIsFirst(s[1..], c);
      var i := IndexOf(s, c);
      assert s[..i] == [s[0]] + s[1..][..i - 1];
    }
  }

  lemma {:induction false} IndexOfUnique<T>(s: seq<T>, c: T, k: nat)
    requires k <= |s| && c !in s[..k]
    requires k < |s| ==> s[k] == c
    ensures IndexOf(s, c) == k
  {
    if k > 0 {
      assert s[0] in s[..k];
      assert s[1..][..k - 1] == s[..k][1..];
      IndexOfUnique(s[1..], c, k - 1);
    }
  }

  lemma IndexOfSeparator<T>(head: seq<T>, c: T, tail: seq<T>)
    requires c !in head
    ensures var s := head + [c] + tail;
            IndexOf(s, c) == |head| && s[..|head|] == head && s[|head| + 1..] == tail
  {
    var s := head + [c] + tail;
    assert s[..|head|] == head;
    IndexOfUnique(s, c, |head|);
  }

  // Upper-casing, on ASCII letters
  function UpperChar(c: char): char {
    if 'a' <= c <= 'z' then c - 'a' + 'A' else c
  }

  function LowerChar(c: char): char {
    if 'A' <= c <= 'Z' then c - 'A' + 'a' else c
  }

  function Lower(s: string): string {
    seq(|s|, i requires 0 <= i < |s| => LowerChar(s[i]))
  }

  function Upper(s: string): (r: string)
    ensures |r| == |s|
  {
    seq(|s|, i requires 0 <= i < |s| => UpperChar(s[i]))
  }

  // ---------- Hexadecimal digits

  predicate IsHex(c: char) {
    '0' <= c <= '9' || 'A' <= c <= 'F' || 'a' <= c <= 'f'
  }

  // The value of one hexadecimal digit
  function Xtoi(c: char): (n: nat)
    requires IsHex(c)
    ensures n < 16
  {
    if c <= '9' then c as int - '0' as int
    else if c <= 'F' then c as int - 'A' as int + 10
    else c as int - 'a' as int + 10
  }

  // The byte written by two hexadecimal digits
  function Byte(first: char, second: char): (c: char)
    requires IsHex(first) && IsHex(second)
    ensures c as int == 16 * Xtoi(first) + Xtoi(second)
  {
    (16 * Xtoi(first) + Xtoi(second)) as char
  }

  // ---------- Joining and splitting

  // The pieces written one after the other, with sep between neighbours
  function Join<T>(pieces: seq<seq<T>>, sep: seq<T>): seq<T> {
    if pieces == [] then []
    else if |pieces| == 1 then pieces[0]
    else pieces[0] + sep + Join(pieces[1..], sep)
  }

  // The pieces of s between occurrences of d; there is always at least one.
  function Pieces<T(==)>(s: seq<T>, d: T): (r: seq<seq<T>>)
    ensures |r| > 0
    decreases |s|
  {
    var i := IndexOf(s, d);
    if i == |s| then [s] else [s[..i]] + Pieces(s[i + 1..], d)
  }

  // Joined again they give s, and no piece holds d.
  lemma {:induction false} PiecesJoin<T>(s: seq<T>, d: T)
    ensures Join(Pieces(s, d), [d]) == s
    ensures forall p :: p in Pieces(s, d) ==> d !in p
    decreases |s|
  {
    var i := IndexOf(s, d);
    IndexOfIsFirst(s, d);
    if i == |s| {
      assert s[..i] == s;
    } else {
      PiecesJoin(s[i + 1..], d);
      assert s == s[..i] + [d] + s[i + 1..];
      assert ([s[..i]] + Pieces(s[i + 1..], d))[1..] == Pieces(s[i + 1..], d);
    }
  }

  // Pieces is the only way to undo Join.
  lemma {:induction false} PiecesOfJoin<T>(pieces: seq<seq<T>>, d: T)
    requires |pieces| > 0
    requires forall p :: p in pieces ==> d !in p
    ensures Pieces(Join(pieces, [d]), d) == pieces
  {
    var s := Join(pieces, [d]);
    var p := pieces[0];
    assert s[..|p|] == p;
    IndexOfUnique(s, d, |p|);
    if |pieces| > 1 {
      assert s[|p| + 1..] == Join(pieces[1..], [d]);
      PiecesOfJoin(pieces[1..], d);
    }
  }

  lemma ConcatAssociates<T>(a: seq<T>, b: seq<T>, c: seq<T>)
    ensures (a + b) + c == a + (b + c)
  {
  }

  lemma DropOfConcat<T>(a: seq<T>, b: seq<T>, n: nat)
    requires n <= |a|
    ensures (a + b)[n..] == a[n..] + b
  {
  }

  lemma TakeOfDrop<T>(a: seq<T>, m: nat, n: nat)
    requires m + n <= |a|
    ensures a[m..][..n] == a[m..m + n]
  {
  }

  lemma DropTwice<T>(a: seq<T>, m: nat, n: nat)
    requires m + n <= |a|
    ensures a[m..][n..] == a[m + n..]
  {
  }

  lemma {:induction false} JoinSnoc<T>(pieces: seq<seq<T>>, last: seq<T>, sep: seq<T>)
    requires |pieces| > 0
    ensures Join(pieces + [last], sep) == Join(pieces, sep) + sep + last
  {
    if |pieces| > 1 {
      assert (pieces + [last])[1..] == pieces[1..] + [last];
      JoinSnoc(pieces[1..], last, sep);
    } else {
      assert (pieces + [last])[1..] == [last];
    }
  }
}
