// The characters and numbers behind the components, spelled out.

module Alphabets {
  import opened Text

  const LOWER: string := "abcdefghijklmnopqrstuvwxyz"
  const UPPER: string := "ABCDEFGHIJKLMNOPQRSTUVWXYZ"

  // Letters change to the one at the same place, and nothing else changes.
  lemma CasesExact(c: char)
    ensures |LOWER| == |UPPER| == 26
    ensures forall i :: 0 <= i < 26 ==> UpperChar(LOWER[i]) == UPPER[i] && LowerChar(UPPER[i]) == LOWER[i]
    ensures c !in LOWER ==> UpperChar(c) == c
    ensures c !in UPPER ==> LowerChar(c) == c
  {
    PlacesOfLetters();
    if 'a' <= c <= 'z' {
      assert LOWER[c as int - 'a' as int] == c;
    }
    if 'A' <= c <= 'Z' {
      assert UPPER[c as int - 'A' as int] == c;
    }
  }

  lemma PlacesOfLetters()
    ensures forall i :: 0 <= i < 26 ==> LOWER[i] as int == 'a' as int + i && UPPER[i] as int == 'A' as int + i
  {
  }

  const HEX_LOWER: string := "0123456789abcdef"
  const HEX_UPPER: string := "0123456789ABCDEF"

  // A digit stands for its place among the sixteen, in either case; there are no others.
  lemma HexDigitsExact(c: char)
    ensures |HEX_LOWER| == |HEX_UPPER| == 16
    ensures forall i :: 0 <= i < 16 ==>
              IsHex(HEX_LOWER[i]) && Xtoi(HEX_LOWER[i]) == i && IsHex(HEX_UPPER[i]) && Xtoi(HEX_UPPER[i]) == i
    ensures IsHex(c) ==> c in HEX_LOWER || c in HEX_UPPER
  {
    if IsHex(c) {
      assert HEX_LOWER[Xtoi(c)] == c || HEX_UPPER[Xtoi(c)] == c;
    }
  }

  // Two digits write the byte with these two halves, the higher first.
  lemma ByteExact(high: nat, low: nat)
    requires high < 16 && low < 16
    ensures IsHex(HEX_LOWER[high]) && IsHex(HEX_UPPER[low])
    ensures Byte(HEX_LOWER[high], HEX_UPPER[low]) as int == 16 * high + low
  {
    HexDigitsExact(HEX_LOWER[high]);
  }

  // Blanks: tab, line feed, vertical tab, form feed, carriage return and space
  lemma BlanksExact(c: char)
    ensures c in WHITESPACE <==> 9 <= c as int <= 13 || c as int == 32
    ensures c in SPACE <==> c as int == 32
  {
  }

  predicate AllIn(s: string, blanks: set<char>) {
    forall i :: 0 <= i < |s| ==> s[i] in blanks
  }

  lemma FrontOff(s: string, blanks: set<char>) returns (front: string)
    ensures s == front + TrimStart(s, blanks) && AllIn(front, blanks)
  {
    TrimStartCuts(s, blanks);
    front := s[..|s| - |TrimStart(s, blanks)|];
  }

  lemma BackOff(s: string, blanks: set<char>) returns (back: string)
    ensures s == TrimEnd(s, blanks) + back && AllIn(back, blanks)
  {
    TrimEndCuts(s, blanks);
    back := s[|TrimEnd(s, blanks)|..];
  }

  // Trimming takes blanks off both ends, and all of them.
  lemma TrimExact(s: string, blanks: set<char>) returns (front: string, back: string)
    ensures s == front + (Trim(s, blanks) + back) && AllIn(front, blanks) && AllIn(back, blanks)
    ensures Trim(s, blanks) != "" ==>
              Trim(s, blanks)[0] !in blanks && Trim(s, blanks)[|Trim(s, blanks)| - 1] !in blanks
  {
    front := FrontOff(s, blanks);
    back := BackOff(TrimStart(s, blanks), blanks);
    if Trim(s, blanks) != "" {
      FirstStays(TrimStart(s, blanks), Trim(s, blanks), back);
    }
  }

  lemma FirstStays(t: string, r: string, back: string)
    requires t == r + back && r != ""
    ensures t[0] == r[0]
  {
  }

  // The pieces of two lists joined are those of the first, the separator, and those of the
  // second.
  lemma {:induction false} JoinOfConcat<T>(a: seq<seq<T>>, b: seq<seq<T>>, sep: seq<T>)
    requires a != [] && b != []
    ensures Join(a + b, sep) == Join(a, sep) + sep + Join(b, sep)
    ensures |a| == 1 ==> Join(a, sep) == a[0]
  {
    if |a| == 1 {
      assert (a + b)[1..] == b;
    } else {
      assert (a + b)[1..] == a[1..] + b;
      JoinOfConcat(a[1..], b, sep);
    }
  }
}
