// Random characters for the names of temporary files (getRandomCharacters in src/util.cpp).

module RandomName {
  import opened Alphabets
  import opened Text

  // A 32-bit number from the generator
  type Draw = n: nat | n < 0x1_0000_0000

  // The character for six bits; 62 and 63 stand for none.
  function Letter(bits: nat): (s: string)
    requires bits < 64
    ensures |s| <= 1
  {
    if bits < 26 then ['A' + bits as char]
    else if bits < 52 then ['a' + (bits - 26) as char]
    else if bits < 62 then ['0' + (bits - 52) as char]
    else []
  }

  // rnd, shifted right k times by six bits
  function Shifted(rnd: nat, k: nat): nat {
    if k == 0 then rnd else Shifted(rnd, k - 1) / 64
  }

  // The k-th group of six bits, low bits first
  function Group(d: Draw, k: nat): (bits: nat)
    ensures bits < 64
  {
    Shifted(d, k) % 64
  }

  // The letters of the five groups of a draw, from the k-th on
  function LettersFrom(d: Draw, k: nat): string
    requires k <= 5
    decreases 5 - k
  {
    if k == 5 then [] else Letter(Group(d, k)) + LettersFrom(d, k + 1)
  }

  // The capital letters, the small ones, and the digits
  const ALPHABET: string := UPPER + LOWER + DIGITS
  const DIGITS: string := "0123456789"

  // Six bits stand for the letter at their place; there are 62, and 62 and 63 stand for none.
  lemma LetterExact(bits: nat)
    requires bits < 64
    ensures |ALPHABET| == 62
    ensures Letter(bits) == if bits < 62 then [ALPHABET[bits]] else ""
  {
    PlacesOfLetters();
    assert forall i :: 0 <= i < 10 ==> DIGITS[i] as int == '0' as int + i;
    if bits < 26 {
      assert ALPHABET[bits] == UPPER[bits];
    } else if bits < 52 {
      assert ALPHABET[bits] == LOWER[bits - 26];
    } else if bits < 62 {
      assert ALPHABET[bits] == DIGITS[bits - 52];
    }
  }

  // The five groups are the lowest digits of a draw to the base 64, the lowest first; its two
  // highest bits are in none.
  lemma GroupExact(d: Draw) returns (high: nat)
    ensures high < 4
    ensures d == Group(d, 0) + 64 * Group(d, 1) + 4096 * Group(d, 2) + 262144 * Group(d, 3)
                 + 16777216 * Group(d, 4) + 1073741824 * high
  {
    var s1, s2, s3, s4 := Shifted(d, 1), Shifted(d, 2), Shifted(d, 3), Shifted(d, 4);
    high := s4 / 64;
    assert Shifted(d, 0) == d;
    assert s1 == d / 64 && s2 == s1 / 64 && s3 == s2 / 64 && s4 == s3 / 64;
    assert d == Group(d, 0) + 64 * s1 && s1 == Group(d, 1) + 64 * s2 && s2 == Group(d, 2) + 64 * s3;
    assert s3 == Group(d, 3) + 64 * s4 && s4 == Group(d, 4) + 64 * high;
  }

  // All letters of a series of draws
  function Stream(draws: seq<Draw>): string {
    if draws == [] then [] else LettersFrom(draws[0], 0) + Stream(draws[1..])
  }

  // The highest bit is set to mark the end.
  function Marked(d: Draw): nat {
    if d < 0x8000_0000 then d + 0x8000_0000 else d
  }

  // The place of the mark after k shifts
  function Mark(k: nat): nat
    requires k <= 5
  {
    [0x8000_0000, 0x200_0000, 0x8_0000, 0x2000, 0x80, 2][k]
  }

  lemma {:induction false} MarkMoves(d: Draw, k: nat)
    requires k <= 5
    ensures Mark(k) <= Shifted(Marked(d), k) < 2 * Mark(k)
    ensures Shifted(Marked(d), k) == Shifted(d, k) + if d < 0x8000_0000 then Mark(k) else 0
  {
    if k > 0 {
      MarkMoves(d, k - 1);
      assert Mark(k - 1) == 64 * Mark(k);
    }
  }

  // The mark is left over after exactly five groups, and is in none of them.
  lemma MarkIsNeverUsed(d: Draw, k: nat)
    requires k <= 5
    ensures Shifted(Marked(d), k) > 3 <==> k < 5
    ensures k < 5 ==> Shifted(Marked(d), k) % 64 == Group(d, k)
  {
    MarkMoves(d, k);
    if k < 5 {
      assert Mark(k) == 64 * Mark(k + 1);
    }
  }

  // The letters of one draw, until there are enough
  function Take(chars: string, d: Draw, k: nat, count: nat): string
    requires k <= 5
    decreases 5 - k
  {
    if k == 5 then chars
    else
      var more := chars + Letter(Group(d, k));
      if |more| >= count then more else Take(more, d, k + 1, count)
  }

  lemma {:induction false} TakeIsHead(chars: string, d: Draw, k: nat, count: nat)
    requires k <= 5 && |chars| < count
    ensures var all := chars + LettersFrom(d, k);
            Take(chars, d, k, count) == if |all| >= count then all[..count] else all
    decreases 5 - k
  {
    if k == 5 {
      assert chars + [] == chars;
    } else {
      var more := chars + Letter(Group(d, k));
      ConcatAssociates(chars, Letter(Group(d, k)), LettersFrom(d, k + 1));
      if |more| >= count {
        assert (more + LettersFrom(d, k + 1))[..count] == more;
      } else {
        TakeIsHead(more, d, k + 1, count);
      }
    }
  }

  // The inner loop
  method TakeLetters(chars: string, d: Draw, count: nat) returns (randomChars: string)
    ensures randomChars == Take(chars, d, 0, count)
  {
    randomChars := chars;
    var rnd := Marked(d);
    ghost var k := 0;
    MarkIsNeverUsed(d, 0);
    while rnd > 3
      invariant 0 <= k <= 5 && rnd == Shifted(Marked(d), k)
      invariant Take(randomChars, d, k, count) == Take(chars, d, 0, count)
      invariant rnd > 3 <==> k < 5
      decreases 5 - k
    {
      ghost var before := randomChars;
      MarkIsNeverUsed(d, k);
      var ch := rnd % 64;
      if ch < 26 {
        randomChars := randomChars + ['A' + ch as char];
      } else if ch < 26 + 26 {
        randomChars := randomChars + ['a' + (ch - 26) as char];
      } else if ch < 26 + 26 + 10 {
        randomChars := randomChars + ['0' + (ch - 26 - 26) as char];
      } else {
        assert randomChars + [] == randomChars;
      }
      assert randomChars == before + Letter(Group(d, k));
      if |randomChars| >= count {
        return;
      }
      MarkIsNeverUsed(d, k + 1);
      rnd := rnd / 64;
      k := k + 1;
    }
  }

  // The generator is a series of draws that holds enough letters.
  method GetRandomCharacters(count: int, draws: seq<Draw>) returns (randomChars: string)
    requires draws != [] && |Stream(draws)| >= count
    ensures count < 0 ==> randomChars == ""
    ensures count == 0 ==> randomChars == Letter(Group(draws[0], 0))
    ensures count > 0 ==> randomChars == Stream(draws)[..count]
  {
    if count < 0 {
      return "";
    }
    var n := 0;
    randomChars := TakeLetters("", draws[n], count);
    if count > 0 {
      TakeNext("", draws, count);
      assert "" + Stream(draws) == Stream(draws);
    }
    while |randomChars| < count
      invariant 0 <= n < |draws|
      invariant count == 0 ==> randomChars == Letter(Group(draws[0], 0))
      invariant count > 0 ==> |randomChars| <= count
      invariant |randomChars| < count ==> Stream(draws) == randomChars + Stream(draws[n + 1..])
      invariant 0 < count == |randomChars| ==> randomChars == Stream(draws)[..count]
      decreases |draws| - n
    {
      assert draws[n + 1..] != [];
      n := n + 1;
      TakeNext(randomChars, draws[n..], count);
      assert draws[n..][1..] == draws[n + 1..] && draws[n..][0] == draws[n];
      randomChars := TakeLetters(randomChars, draws[n], count);
    }
  }

  // What one more draw adds
  lemma TakeNext(chars: string, draws: seq<Draw>, count: nat)
    requires draws != [] && |chars| < count
    ensures var r, all := Take(chars, draws[0], 0, count), chars + Stream(draws);
            && |r| <= count
            && (|r| < count ==> all == r + Stream(draws[1..]))
            && (|r| == count ==> |all| >= count && r == all[..count])
  {
    var part := chars + LettersFrom(draws[0], 0);
    TakeIsHead(chars, draws[0], 0, count);
    ConcatAssociates(chars, LettersFrom(draws[0], 0), Stream(draws[1..]));
    if |part| >= count {
      assert (part + Stream(draws[1..]))[..count] == part[..count];
    }
  }
}
