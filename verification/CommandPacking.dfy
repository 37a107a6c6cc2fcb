// Packing patterns onto the command lines of a chain of gpgsm processes
// (startAProcess in src/qgpgmerefreshsmimekeysjob.cpp).

module CommandPacking {
  import opened Alphabets
  import opened Text

  const MAX_CMD_LENGTH: nat := 32768

  const FIXED_ARGUMENTS: seq<string> :=
    ["-k", "--with-validation", "--force-crl-refresh", "--enable-crl-checks"]

  // A word on the command line takes its length and one more byte.
  function Cost(words: seq<string>): nat {
    if words == [] then 0 else |words[0]| + 1 + Cost(words[1..])
  }

  function CommandLineLength(arguments: seq<string>): nat {
    Cost(["gpgsm"] + FIXED_ARGUMENTS + arguments)
  }

  const BUDGET: nat := MAX_CMD_LENGTH - (5 + 1 + 2 + 1 + 17 + 1 + 19 + 1 + 19 + 1)

  function Cleaned(pattern: string): string {
    Trim(pattern, WHITESPACE)
  }

  // What one process takes, and what is left to do
  datatype Packed = Packed(args: seq<string>, rest: seq<string>)

  function Pack(patterns: seq<string>, room: nat): Packed {
    if patterns == [] then Packed([], [])
    else
      var pat := Cleaned(patterns[0]);
      if |pat| >= room then Packed([], patterns)
      else if pat == [] then Pack(patterns[1..], room)
      else
        var p := Pack(patterns[1..], room - (|pat| + 1));
        Packed([pat] + p.args, p.rest)
  }

  // The loop of startAProcess: pops patterns and counts down the room. The room is unsigned
  // in the source; as a nat it is shown never to fall below zero.
  method TakePatterns(patterns: seq<string>) returns (arguments: seq<string>, patternsToDo: seq<string>)
    ensures Packed(arguments, patternsToDo) == Pack(patterns, BUDGET)
  {
    arguments, patternsToDo := [], patterns;
    var commandLineLength: nat := BUDGET;
    while patternsToDo != []
      invariant var p := Pack(patternsToDo, commandLineLength);
                Packed(arguments + p.args, p.rest) == Pack(patterns, BUDGET)
      decreases |patternsToDo|
    {
      var pat := Cleaned(patternsToDo[0]);
      if |pat| >= commandLineLength {
        assert arguments + [] == arguments;
        break;
      }
      ghost var left := if pat == [] then commandLineLength else commandLineLength - (|pat| + 1);
      ghost var after := Pack(patternsToDo[1..], left);
      patternsToDo := patternsToDo[1..];
      if pat == [] {
        continue;
      }
      ConcatAssociates(arguments, [pat], after.args);
      arguments := arguments + [pat];
      commandLineLength := commandLineLength - (|pat| + 1);
    }
    assert arguments + [] == arguments;
  }

  // ---------- One process

  function NonBlank(patterns: seq<string>): seq<string> {
    if patterns == [] then []
    else if Cleaned(patterns[0]) == [] then NonBlank(patterns[1..])
    else [Cleaned(patterns[0])] + NonBlank(patterns[1..])
  }

  lemma {:induction false} PackLeavesEnd(patterns: seq<string>, room: nat)
    ensures var rest := Pack(patterns, room).rest;
            |rest| <= |patterns| && rest == patterns[|patterns| - |rest|..]
  {
    if patterns != [] {
      var pat := Cleaned(patterns[0]);
      if |pat| < room {
        PackLeavesEnd(patterns[1..], if pat == [] then room else room - (|pat| + 1));
      }
    }
  }

  lemma CostCons(word: string, words: seq<string>)
    ensures Cost([word] + words) == |word| + 1 + Cost(words)
  {
    assert ([word] + words)[1..] == words;
  }

  lemma {:induction false} PackedFits(patterns: seq<string>, room: nat)
    ensures Cost(Pack(patterns, room).args) <= room
  {
    if patterns != [] {
      var pat := Cleaned(patterns[0]);
      if |pat| < room {
        var left := if pat == [] then room else room - (|pat| + 1);
        PackedFits(patterns[1..], left);
        CostCons(pat, Pack(patterns[1..], left).args);
      }
    }
  }

  lemma {:induction false} PackedWords(patterns: seq<string>, room: nat)
    ensures var p := Pack(patterns, room);
            NonBlank(patterns) == p.args + NonBlank(p.rest)
  {
    if patterns != [] {
      var pat := Cleaned(patterns[0]);
      if |pat| < room {
        var left := if pat == [] then room else room - (|pat| + 1);
        var p := Pack(patterns[1..], left);
        PackedWords(patterns[1..], left);
        ConcatAssociates([pat], p.args, NonBlank(p.rest));
      }
    }
  }

  // One process takes the first non-blank patterns, within the room.
  lemma {:induction false} PackConserves(patterns: seq<string>, room: nat)
    ensures var p := Pack(patterns, room);
            NonBlank(patterns) == p.args + NonBlank(p.rest) && Cost(p.args) <= room
  {
    PackedFits(patterns, room);
    PackedWords(patterns, room);
  }

  lemma {:induction false} CostConcat(a: seq<string>, b: seq<string>)
    ensures Cost(a + b) == Cost(a) + Cost(b)
  {
    if a == [] {
      assert a + b == b;
    } else {
      assert (a + b)[1..] == a[1..] + b;
      CostConcat(a[1..], b);
    }
  }

  // No command line is longer than allowed.
  lemma CommandLineFits(patterns: seq<string>)
    ensures CommandLineLength(Pack(patterns, BUDGET).args) <= MAX_CMD_LENGTH
  {
    PackConserves(patterns, BUDGET);
    PartFits(Pack(patterns, BUDGET).args);
  }

  lemma FixedCost()
    ensures Cost(["gpgsm"] + FIXED_ARGUMENTS) == MAX_CMD_LENGTH - BUDGET
  {
    var w := ["gpgsm"] + FIXED_ARGUMENTS;
    assert Cost(w[4..]) == 20 by { assert w[4..][1..] == []; }
    assert w[3..][1..] == w[4..] && w[2..][1..] == w[3..] && w[1..][1..] == w[2..];
    assert Cost(w[3..]) == 40;
    assert Cost(w[2..]) == 58;
    assert Cost(w[1..]) == 61;
  }

  // ---------- The chain

  predicate Fits(pattern: string) {
    |Cleaned(pattern)| < BUDGET
  }

  predicate AllFit(patterns: seq<string>) {
    forall p :: p in patterns ==> Fits(p)
  }

  lemma PackAdvances(patterns: seq<string>)
    requires patterns != [] && Fits(patterns[0])
    ensures |Pack(patterns, BUDGET).rest| < |patterns|
  {
    var pat := Cleaned(patterns[0]);
    PackLeavesEnd(patterns[1..], if pat == [] then BUDGET else BUDGET - (|pat| + 1));
  }

  lemma RestFits(patterns: seq<string>)
    requires patterns != [] && AllFit(patterns)
    ensures var rest := Pack(patterns, BUDGET).rest;
            |rest| < |patterns| && AllFit(rest)
  {
    var rest := Pack(patterns, BUDGET).rest;
    assert patterns[0] in patterns;
    PackAdvances(patterns);
    PackLeavesEnd(patterns, BUDGET);
    forall p | p in rest ensures Fits(p) {
      assert p in patterns;
    }
  }

  // The argument lists of the processes, each started when the one before has ended
  function Chain(patterns: seq<string>): seq<seq<string>>
    requires AllFit(patterns)
    decreases |patterns|
  {
    if patterns == [] then []
    else
      RestFits(patterns);
      [Pack(patterns, BUDGET).args] + Chain(Pack(patterns, BUDGET).rest)
  }

  function Flatten(lists: seq<seq<string>>): seq<string> {
    if lists == [] then [] else lists[0] + Flatten(lists[1..])
  }

  // Over the whole chain every non-blank pattern is passed once, trimmed and in order, and
  // every command line is short enough.
  lemma {:induction false} ChainConserves(patterns: seq<string>)
    requires AllFit(patterns)
    ensures Flatten(Chain(patterns)) == NonBlank(patterns)
    ensures forall args :: args in Chain(patterns) ==> CommandLineLength(args) <= MAX_CMD_LENGTH
    decreases |patterns|
  {
    if patterns != [] {
      var p := Pack(patterns, BUDGET);
      PackAdvances(patterns);
      PackLeavesEnd(patterns, BUDGET);
      PackConserves(patterns, BUDGET);
      CommandLineFits(patterns);
      ChainConserves(p.rest);
    }
  }

  // What is left after so many processes, fitting or not
  function Left(patterns: seq<string>, n: nat): seq<string>
    decreases n
  {
    if n == 0 then patterns else Left(Pack(patterns, BUDGET).rest, n - 1)
  }

  lemma {:induction false} FittingIsDone(patterns: seq<string>, n: nat)
    requires AllFit(patterns) && |patterns| <= n
    ensures Left(patterns, n) == []
    decreases n
  {
    if n > 0 {
      PackLeavesEnd(patterns, BUDGET);
      if patterns != [] {
        PackAdvances(patterns);
      }
      FittingIsDone(Pack(patterns, BUDGET).rest, n - 1);
    }
  }

  lemma {:induction false} TooLongStays(patterns: seq<string>, room: nat, k: nat)
    requires room <= BUDGET && k < |patterns| && !Fits(patterns[k])
    ensures |patterns| - k <= |Pack(patterns, room).rest|
  {
    if k > 0 && |Cleaned(patterns[0])| < room {
      var pat := Cleaned(patterns[0]);
      TooLongStays(patterns[1..], if pat == [] then room else room - (|pat| + 1), k - 1);
    }
  }

  lemma EndHolds(all: seq<string>, end: seq<string>, k: nat)
    requires |end| <= |all| && end == all[|all| - |end|..] && |all| - |end| <= k < |all|
    ensures all[k] in end
  {
    assert end[k - (|all| - |end|)] == all[k];
  }

  lemma TooLongIsLeft(patterns: seq<string>)
    requires !AllFit(patterns)
    ensures !AllFit(Pack(patterns, BUDGET).rest)
  {
    var k :| 0 <= k < |patterns| && !Fits(patterns[k]);
    var rest := Pack(patterns, BUDGET).rest;
    TooLongStays(patterns, BUDGET, k);
    PackLeavesEnd(patterns, BUDGET);
    EndHolds(patterns, rest, k);
  }

  lemma {:induction false} TooLongIsNeverDone(patterns: seq<string>, n: nat)
    requires !AllFit(patterns)
    ensures Left(patterns, n) != []
    decreases n
  {
    if n > 0 {
      TooLongIsLeft(patterns);
      TooLongIsNeverDone(Pack(patterns, BUDGET).rest, n - 1);
    }
  }

  // The chain comes to an end if and only if every pattern fits a fresh command line.
  lemma ChainEndsExact(patterns: seq<string>)
    ensures (exists n :: Left(patterns, n) == []) <==> AllFit(patterns)
  {
    if AllFit(patterns) {
      FittingIsDone(patterns, |patterns|);
    } else {
      forall n ensures Left(patterns, n) != [] {
        TooLongIsNeverDone(patterns, n);
      }
    }
  }

  // ---------- Optimality

  // Trimmed, not blank, and short enough
  predicate Ready(words: seq<string>) {
    forall w :: w in words ==> Cleaned(w) == w && w != [] && Fits(w)
  }

  // How many words go into the room
  function Taken(words: seq<string>, room: nat): (n: nat)
    ensures n <= |words|
  {
    if words == [] || |words[0]| >= room then 0
    else 1 + Taken(words[1..], room - (|words[0]| + 1))
  }

  lemma {:induction false} PackTakes(words: seq<string>, room: nat)
    requires Ready(words)
    ensures var n := Taken(words, room);
            Pack(words, room) == Packed(words[..n], words[n..])
  {
    if words != [] {
      assert words[0] in words;
      if |words[0]| < room {
        PackTakes(words[1..], room - (|words[0]| + 1));
        var n := Taken(words, room);
        assert words[..n] == [words[0]] + words[1..][..n - 1];
      }
    }
  }

  // As many as possible: a head of the list goes in if and only if it is no longer than this.
  lemma {:induction false} TakenIsMost(words: seq<string>, room: nat, k: nat)
    requires k <= |words|
    ensures Cost(words[..k]) <= room <==> k <= Taken(words, room)
  {
    if k > 0 {
      assert words[..k][1..] == words[1..][..k - 1];
      if |words[0]| < room {
        TakenIsMost(words[1..], room - (|words[0]| + 1), k - 1);
      }
    }
  }

  lemma ChainOfReady(words: seq<string>)
    requires Ready(words) && words != []
    ensures var n := Taken(words, BUDGET);
            0 < n && AllFit(words) && Ready(words[n..]) && Chain(words) == [words[..n]] + Chain(words[n..])
  {
    assert words[0] in words;
    PackTakes(words, BUDGET);
  }

  lemma ChainLength(words: seq<string>)
    requires Ready(words) && words != []
    ensures var n := Taken(words, BUDGET);
            0 < n && AllFit(words) && Ready(words[n..]) && |Chain(words)| == 1 + |Chain(words[n..])|
  {
    ChainOfReady(words);
  }

  // Starting later never takes more processes.
  lemma {:induction false} LaterIsNoLonger(words: seq<string>, k: nat)
    requires Ready(words) && k <= |words|
    ensures AllFit(words) && |Chain(words[k..])| <= |Chain(words)|
    decreases |words|
  {
    if k < |words| {
      var tail := words[k..];
      var n, t := Taken(words, BUDGET), Taken(tail, BUDGET);
      ChainLength(words);
      ChainLength(tail);
      if k <= n {
        TakenReaches(words, k);
        assert tail[t..] == words[n..][k + t - n..];
        LaterIsNoLonger(words[n..], k + t - n);
      } else {
        assert tail == words[n..][k - n..];
        LaterIsNoLonger(words[n..], k - n);
      }
    }
  }

  // From a later start the room reaches at least as far.
  lemma TakenReaches(words: seq<string>, k: nat)
    requires k <= Taken(words, BUDGET)
    ensures Taken(words, BUDGET) <= k + Taken(words[k..], BUDGET)
  {
    var n := Taken(words, BUDGET);
    TakenIsMost(words, BUDGET, n);
    assert words[..n] == words[..k] + words[k..][..n - k];
    CostConcat(words[..k], words[k..][..n - k]);
    TakenIsMost(words[k..], BUDGET, n - k);
  }

  // Among all ways to cut the words, in order, into command lines that are short enough,
  // the chain is one with the fewest.
  lemma {:induction false} ChainIsOptimal(words: seq<string>, split: seq<seq<string>>)
    requires Ready(words) && Flatten(split) == words
    requires forall part :: part in split ==> CommandLineLength(part) <= MAX_CMD_LENGTH
    ensures AllFit(words) && |Chain(words)| <= |split|
    decreases |split|
  {
    if words != [] {
      var part := split[0];
      PartFits(part);
      assert words[..|part|] == part && words[|part|..] == Flatten(split[1..]);
      TakenIsMost(words, BUDGET, |part|);
      var n := Taken(words, BUDGET);
      ChainOfReady(words);
      LaterIsNoLonger(words[|part|..], n - |part|);
      DropTwice(words, |part|, n - |part|);
      ChainIsOptimal(words[|part|..], split[1..]);
    }
  }

  lemma PartFits(part: seq<string>)
    ensures CommandLineLength(part) <= MAX_CMD_LENGTH <==> Cost(part) <= BUDGET
  {
    CostConcat(["gpgsm"] + FIXED_ARGUMENTS, part);
    FixedCost();
  }

  // ---------- Blank patterns

  lemma {:induction false} TrimmedTwice(s: string)
    ensures Cleaned(Cleaned(s)) == Cleaned(s)
  {
    TrimStartCuts(s, WHITESPACE);
    TrimEndCuts(TrimStart(s, WHITESPACE), WHITESPACE);
  }

  lemma {:induction false} NonBlankIsReady(patterns: seq<string>)
    requires AllFit(patterns)
    ensures Ready(NonBlank(patterns))
  {
    if patterns != [] {
      TrimmedTwice(patterns[0]);
      assert patterns[0] in patterns;
      NonBlankIsReady(patterns[1..]);
    }
  }

  // Blank patterns do not change what a process takes.
  lemma {:induction false} PackIgnoresBlanks(patterns: seq<string>, room: nat)
    ensures Pack(NonBlank(patterns), room) == Packed(Pack(patterns, room).args, NonBlank(Pack(patterns, room).rest))
  {
    if patterns != [] {
      var pat := Cleaned(patterns[0]);
      if pat == [] {
        if room > 0 {
          PackIgnoresBlanks(patterns[1..], room);
        } else {
          PackNothing(NonBlank(patterns));
        }
      } else {
        TrimmedTwice(patterns[0]);
        if |pat| < room {
          PackIgnoresBlanks(patterns[1..], room - (|pat| + 1));
        }
        PackWord(pat, NonBlank(patterns[1..]), room);
      }
    }
  }

  lemma PackWord(word: string, words: seq<string>, room: nat)
    requires Cleaned(word) == word && word != []
    ensures Pack([word] + words, room) ==
            if |word| >= room then Packed([], [word] + words)
            else
              var p := Pack(words, room - (|word| + 1));
              Packed([word] + p.args, p.rest)
  {
    assert ([word] + words)[1..] == words;
  }

  lemma PackNothing(patterns: seq<string>)
    ensures Pack(patterns, 0) == Packed([], patterns)
  {
  }

  // Whether the last non-blank pattern exactly used up the room of its process, or there
  // was none
  predicate ExactlyFull(words: seq<string>)
    requires AllFit(words)
  {
    words == [] || (var chain := Chain(words); Cost(chain[|chain| - 1]) == BUDGET)
  }

  // Blank patterns are left over behind an exactly full command line.
  predicate BlanksLeftOver(patterns: seq<string>)
    requires AllFit(NonBlank(patterns))
  {
    patterns != [] && Cleaned(patterns[|patterns| - 1]) == [] && ExactlyFull(NonBlank(patterns))
  }

  lemma ChainOfNonBlank(patterns: seq<string>)
    requires AllFit(patterns) && NonBlank(patterns) != []
    ensures var p := Pack(patterns, BUDGET);
            && AllFit(NonBlank(patterns)) && AllFit(p.rest) && AllFit(NonBlank(p.rest))
            && |p.rest| < |patterns|
            && Chain(patterns) == [p.args] + Chain(p.rest)
            && Chain(NonBlank(patterns)) == [p.args] + Chain(NonBlank(p.rest))
  {
    var words := NonBlank(patterns);
    NonBlankIsReady(patterns);
    PackAdvances(patterns);
    PackLeavesEnd(patterns, BUDGET);
    PackIgnoresBlanks(patterns, BUDGET);
    assert words[0] in words;
    PackAdvances(words);
    NonBlankIsReady(Pack(patterns, BUDGET).rest);
  }

  lemma LeftOverStep(patterns: seq<string>)
    requires AllFit(patterns) && NonBlank(patterns) != []
    ensures var rest := Pack(patterns, BUDGET).rest;
            && AllFit(NonBlank(patterns)) && AllFit(NonBlank(rest))
            && (BlanksLeftOver(patterns) <==> BlanksLeftOver(rest))
  {
    var p := Pack(patterns, BUDGET);
    ChainOfNonBlank(patterns);
    PackLeavesEnd(patterns, BUDGET);
    if p.rest == [] {
      PackPastBlank(patterns, BUDGET);
    } else if NonBlank(p.rest) == [] {
      AllBlank(p.rest, BUDGET);
      PackStops(patterns, BUDGET);
      PackConserves(patterns, BUDGET);
    }
  }

  // A process that is given no pattern at all, which makes it work on every key, is started
  // if and only if blank patterns are left over; it is then the last one.
  lemma {:induction false} ExtraProcessExact(patterns: seq<string>)
    requires AllFit(patterns)
    ensures AllFit(NonBlank(patterns))
    ensures Chain(patterns) == Chain(NonBlank(patterns)) + (if BlanksLeftOver(patterns) then [[]] else [])
    decreases |patterns|
  {
    NonBlankIsReady(patterns);
    if patterns == [] {
    } else if NonBlank(patterns) == [] {
      AllBlank(patterns, BUDGET);
      assert Chain(patterns) == [[]] + Chain([]);
    } else {
      var p := Pack(patterns, BUDGET);
      ChainOfNonBlank(patterns);
      LeftOverStep(patterns);
      ExtraProcessExact(p.rest);
      ConcatAssociates([p.args], Chain(NonBlank(p.rest)), if BlanksLeftOver(p.rest) then [[]] else []);
    }
  }

  // For instance, a blank pattern behind one that just fits
  lemma BlankBehindFull(word: string)
    requires Cleaned(word) == word && |word| == BUDGET - 1
    ensures AllFit([word, " "]) && Chain([word, " "]) == [[word], []]
  {
    assert Cleaned(" ") == "";
    var both := [word, " "];
    assert both[1..] == [" "] && [" "][1..] == [];
    assert Pack([" "], 0) == Packed([], [" "]);
    assert Pack(both, BUDGET) == Packed([word] + [], [" "]);
    assert Pack([" "], BUDGET) == Packed([], []);
    var none: seq<string> := [];
    assert Chain(none) == [];
    assert Chain([" "]) == [none] + Chain(none);
    assert [word] + none == [word];
    assert Chain(both) == [[word]] + Chain([" "]);
  }

  lemma {:induction false} AllBlank(patterns: seq<string>, room: nat)
    requires NonBlank(patterns) == [] && patterns != [] && room > 0
    ensures Pack(patterns, room) == Packed([], [])
    ensures Cleaned(patterns[0]) == [] && Cleaned(patterns[|patterns| - 1]) == []
  {
    if |patterns| > 1 {
      AllBlank(patterns[1..], room);
    }
  }

  // A process stops taking patterns at the first that does not fit.
  lemma {:induction false} PackStops(patterns: seq<string>, room: nat)
    ensures var p := Pack(patterns, room);
            p.rest != [] ==> |Cleaned(p.rest[0])| + Cost(p.args) >= room
  {
    if patterns != [] {
      var pat := Cleaned(patterns[0]);
      if |pat| < room {
        if pat == [] {
          PackStops(patterns[1..], room);
        } else {
          PackStops(patterns[1..], room - (|pat| + 1));
          CostCons(pat, Pack(patterns[1..], room - (|pat| + 1)).args);
        }
      }
    }
  }

  // A last blank pattern is only passed over while there is room.
  lemma {:induction false} PackPastBlank(patterns: seq<string>, room: nat)
    requires patterns != [] && Pack(patterns, room).rest == []
    ensures Cleaned(patterns[|patterns| - 1]) == [] ==> Cost(Pack(patterns, room).args) < room
  {
    var pat := Cleaned(patterns[0]);
    if |patterns| > 1 {
      if pat == [] {
        PackPastBlank(patterns[1..], room);
      } else {
        PackPastBlank(patterns[1..], room - (|pat| + 1));
        CostCons(pat, Pack(patterns[1..], room - (|pat| + 1)).args);
      }
    }
  }

  // ---------- Numbers

  // A pattern is passed on without the blanks at both ends, and with all others.
  lemma CleanedExact(pattern: string) returns (front: string, back: string)
    ensures pattern == front + (Cleaned(pattern) + back)
    ensures forall i :: 0 <= i < |front| ==> 9 <= front[i] as int <= 13 || front[i] == ' '
    ensures forall i :: 0 <= i < |back| ==> 9 <= back[i] as int <= 13 || back[i] == ' '
    ensures var p := Cleaned(pattern);
            p != "" ==> p[0] !in WHITESPACE && p[|p| - 1] !in WHITESPACE
  {
    front, back := TrimExact(pattern, WHITESPACE);
  }

  // One pattern alone: its words are those of the fixed command line, and it fits if and only if
  // with blanks taken off it has at most 32700 characters.
  lemma OnePatternExact(pattern: string)
    ensures CommandLineLength([pattern]) ==
            |"gpgsm -k --with-validation --force-crl-refresh --enable-crl-checks "| + |pattern| + 1
    ensures Fits(pattern) <==> |Cleaned(pattern)| <= 32700
    ensures MAX_CMD_LENGTH == 32768
  {
    CostConcat(["gpgsm"] + FIXED_ARGUMENTS, [pattern]);
    FixedCost();
    assert [pattern][1..] == [];
  }
}
