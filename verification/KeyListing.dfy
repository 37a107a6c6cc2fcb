// Listing keys in chunks of patterns whose size is halved when the line to the backend gets
// too long (list_keys in src/qgpgmekeylistjob.cpp).

module KeyListing {
  import opened Text

  datatype Code = Ok | LineTooLong | Eof | Other(n: int)

  // The backend's answer to one chunk: it may hand out keys and still report an error.
  datatype Answer = Answer(keys: seq<string>, code: Code)

  // The backend: what it answers may depend on the number of the call.
  type Backend = (nat, seq<string>) -> Answer

  // What the job returns, and for the statements also the patterns whose keys it returns and
  // the last size of the chunks
  datatype Outcome = Outcome(code: Code, keys: seq<string>, listed: seq<string>, chunkSize: nat)

  function Min(a: nat, b: nat): nat {
    if a <= b then a else b
  }

  // The run from a state of the loop: n calls made, pats left, and what this attempt has so
  // far. That this function is defined for every backend is the termination of the job.
  function ListFrom(
      backend: Backend, n: nat, pats: seq<string>, chunkSize: nat, keys: seq<string>, listed: seq<string>): Outcome
    requires pats != [] && chunkSize > 0
    decreases chunkSize, |pats|
  {
    var size := Min(chunkSize, |pats|);
    var answer := backend(n, pats[..size]);
    match answer.code
    case LineTooLong =>
      if chunkSize / 2 < 1 then Outcome(LineTooLong, keys + answer.keys, listed, 0)
      else ListFrom(backend, n + 1, pats, chunkSize / 2, [], [])
    case Eof => Outcome(Ok, [], [], chunkSize)
    case Other(code) => Outcome(Other(code), keys + answer.keys, listed, chunkSize)
    case Ok =>
      if size == |pats| then Outcome(Ok, keys + answer.keys, listed + pats, chunkSize)
      else ListFrom(backend, n + 1, pats[size..], chunkSize, keys + answer.keys, listed + pats[..size])
  }

  method ListKeys(patterns: seq<string>, backend: Backend) returns (code: Code, keys: seq<string>)
    ensures |patterns| < 2 ==> Answer(keys, code) == backend(0, patterns)
    ensures |patterns| >= 2 ==>
              var o := ListFrom(backend, 0, patterns, |patterns|, [], []);
              code == o.code && keys == o.keys
  {
    if |patterns| < 2 {
      var answer := backend(0, patterns);
      return answer.code, answer.keys;
    }
    var pats, chunkSize, calls := patterns, |patterns|, 0;
    ghost var goal := ListFrom(backend, 0, patterns, |patterns|, [], []);
    label retry:
    while true
      invariant pats != [] && chunkSize > 0
      invariant goal == ListFrom(backend, calls, pats, chunkSize, [], [])
      decreases chunkSize
    {
      keys, code := [], Ok;
      ghost var listed: seq<string> := [];
      while true
        invariant pats != [] && chunkSize > 0
        invariant goal == ListFrom(backend, calls, pats, chunkSize, keys, listed)
        decreases |pats|
      {
        var size := Min(chunkSize, |pats|);
        var answer := backend(calls, pats[..size]);
        calls := calls + 1;
        keys := keys + answer.keys;
        if answer.code == LineTooLong {
          chunkSize := chunkSize / 2;
          if chunkSize < 1 {
            return LineTooLong, keys;
          }
          continue retry;
        } else if answer.code == Eof {
          return Ok, [];
        }
        code := answer.code;
        if code != Ok {
          return;
        }
        listed := listed + pats[..size];
        pats := pats[size..];
        if pats == [] {
          return;
        }
      }
    }
  }

  // ---------- What is returned

  // The keys for the chunks of this size, in order
  function AnswersFor(backend: Backend, n: nat, pats: seq<string>, chunkSize: nat): seq<string>
    requires chunkSize > 0
    decreases |pats|
  {
    if pats == [] then []
    else
      var size := Min(chunkSize, |pats|);
      backend(n, pats[..size]).keys + AnswersFor(backend, n + 1, pats[size..], chunkSize)
  }

  // The length of so many full chunks
  function LengthOfFull(count: nat, chunkSize: nat): nat {
    if count == 0 then 0 else chunkSize + LengthOfFull(count - 1, chunkSize)
  }

  lemma {:induction false} AnswersForOneMore(
      backend: Backend, m: nat, count: nat, done: seq<string>, chunk: seq<string>, chunkSize: nat)
    requires chunkSize > 0 && |done| == LengthOfFull(count, chunkSize) && 0 < |chunk| <= chunkSize
    ensures AnswersFor(backend, m, done + chunk, chunkSize) ==
            AnswersFor(backend, m, done, chunkSize) + backend(m + count, chunk).keys
    decreases count
  {
    var all := done + chunk;
    if count == 0 {
      assert all == chunk && all[..|chunk|] == chunk && all[|chunk|..] == [];
      assert backend(m, chunk).keys + [] == backend(m, chunk).keys;
    } else {
      var head, tail := done[..chunkSize], done[chunkSize..];
      assert all[..chunkSize] == head && all[chunkSize..] == tail + chunk;
      AnswersForOneMore(backend, m + 1, count - 1, tail, chunk, chunkSize);
      ConcatAssociates(backend(m, head).keys, AnswersFor(backend, m + 1, tail, chunkSize),
                       backend(m + count, chunk).keys);
    }
  }

  // The keys are those for the listed patterns, asked for from the k-th call on.
  predicate HasKeysFrom(backend: Backend, o: Outcome, k: nat) {
    o.chunkSize > 0 && o.keys == AnswersFor(backend, k, o.listed, o.chunkSize)
  }

  lemma {:induction false} KeysOfListedFrom(
      backend: Backend, m: nat, count: nat, pats: seq<string>, chunkSize: nat, keys: seq<string>, listed: seq<string>)
    returns (k: nat)
    requires pats != [] && chunkSize > 0 && |listed| == LengthOfFull(count, chunkSize)
    requires keys == AnswersFor(backend, m, listed, chunkSize)
    requires ListFrom(backend, m + count, pats, chunkSize, keys, listed).code == Ok
    ensures HasKeysFrom(backend, ListFrom(backend, m + count, pats, chunkSize, keys, listed), k)
    decreases chunkSize, |pats|
  {
    k := m;
    var n, size := m + count, Min(chunkSize, |pats|);
    var chunk, answer := pats[..size], backend(n, pats[..size]);
    if answer.code == LineTooLong {
      k := KeysOfListedFrom(backend, n + 1, 0, pats, chunkSize / 2, [], []);
    } else if answer.code == Ok {
      AnswersForOneMore(backend, m, count, listed, chunk, chunkSize);
      if size < |pats| {
        k := KeysOfListedFrom(backend, m, count + 1, pats[size..], chunkSize, keys + answer.keys, listed + chunk);
      } else {
        assert chunk == pats;
      }
    }
  }

  predicate IsEndOf(part: seq<string>, all: seq<string>) {
    |part| <= |all| && part == all[|all| - |part|..]
  }

  lemma EndOfLonger(part: seq<string>, front: seq<string>, all: seq<string>)
    requires IsEndOf(part, all)
    ensures IsEndOf(part, front + all)
  {
  }

  lemma {:induction false} ListedIsEnd(
      backend: Backend, n: nat, pats: seq<string>, chunkSize: nat, keys: seq<string>, listed: seq<string>)
    requires pats != [] && chunkSize > 0
    requires ListFrom(backend, n, pats, chunkSize, keys, listed).code == Ok
    ensures IsEndOf(ListFrom(backend, n, pats, chunkSize, keys, listed).listed, listed + pats)
    decreases chunkSize, |pats|
  {
    var size := Min(chunkSize, |pats|);
    var answer := backend(n, pats[..size]);
    if answer.code == LineTooLong {
      ListedIsEnd(backend, n + 1, pats, chunkSize / 2, [], []);
      var part := ListFrom(backend, n + 1, pats, chunkSize / 2, [], []).listed;
      assert [] + pats == pats;
      EndOfLonger(part, listed, pats);
    } else if answer.code == Ok && size < |pats| {
      ListedIsEnd(backend, n + 1, pats[size..], chunkSize, keys + answer.keys, listed + pats[..size]);
      assert listed + pats[..size] + pats[size..] == listed + pats;
    }
  }

  // The outcome is that of the patterns from the i-th on, asked for from the k-th call on.
  predicate IsListing(backend: Backend, pats: seq<string>, o: Outcome, i: nat, k: nat)
    requires o.chunkSize > 0
  {
    i <= |pats| && o.listed == pats[i..] && o.keys == AnswersFor(backend, k, pats[i..], o.chunkSize)
  }

  // Whatever the backend does, a successful job returns the keys for an end of the list, chunk
  // after chunk: what is lost is in front.
  lemma {:induction false} KeysOfListed(backend: Backend, pats: seq<string>)
    requires pats != []
    ensures var o := ListFrom(backend, 0, pats, |pats|, [], []);
            o.code == Ok ==> o.chunkSize > 0 && exists i, k :: IsListing(backend, pats, o, i, k)
  {
    if ListFrom(backend, 0, pats, |pats|, [], []).code == Ok {
      var k := KeysOfListedFrom(backend, 0, 0, pats, |pats|, [], []);
      ListedIsEnd(backend, 0, pats, |pats|, [], []);
      assert [] + pats == pats;
      EndIsListing(backend, pats, ListFrom(backend, 0, pats, |pats|, [], []), k);
    }
  }

  lemma EndIsListing(backend: Backend, pats: seq<string>, o: Outcome, k: nat)
    requires HasKeysFrom(backend, o, k) && IsEndOf(o.listed, pats)
    ensures o.chunkSize > 0 && IsListing(backend, pats, o, |pats| - |o.listed|, k)
  {
  }

  // ---------- The calls and their answers

  // The chunks that the backend is asked for, in order
  function Asked(backend: Backend, n: nat, pats: seq<string>, chunkSize: nat): (r: seq<seq<string>>)
    requires pats != [] && chunkSize > 0
    ensures |r| > 0
    decreases chunkSize, |pats|
  {
    var size := Min(chunkSize, |pats|);
    [pats[..size]] +
    match backend(n, pats[..size]).code
    case LineTooLong => if chunkSize / 2 < 1 then [] else Asked(backend, n + 1, pats, chunkSize / 2)
    case Ok => if size == |pats| then [] else Asked(backend, n + 1, pats[size..], chunkSize)
    case _ => []
  }

  function AnswersTo(backend: Backend, n: nat, chunks: seq<seq<string>>): (r: seq<Answer>)
    ensures |r| == |chunks|
  {
    seq(|chunks|, i requires 0 <= i < |chunks| => backend(n + i, chunks[i]))
  }

  function KeysOf(answers: seq<Answer>): seq<string> {
    if answers == [] then [] else answers[0].keys + KeysOf(answers[1..])
  }

  // The answers from the i-th on are those of the last attempt.
  predicate LastAttempt(a: seq<Answer>, i: nat) {
    && i < |a|
    && (i > 0 ==> a[i - 1].code == LineTooLong)
    && forall j :: i <= j < |a| - 1 ==> a[j].code == Ok
  }

  // The last answer decides: its code is the job's, with the end of a listing taken for success
  // without keys.
  predicate Decides(last: Answer, o: Outcome) {
    match last.code
    case Eof => o.code == Ok && o.keys == []
    case code => o.code == code
  }

  predicate GoesOn(code: Code) {
    code == Ok || code == LineTooLong
  }

  lemma AnswersSplit(backend: Backend, n: nat, chunk: seq<string>, chunks: seq<seq<string>>)
    ensures AnswersTo(backend, n, [chunk] + chunks) == [backend(n, chunk)] + AnswersTo(backend, n + 1, chunks)
  {
  }

  // What the answers of a job say of its outcome, when these keys were collected before
  predicate Told(a: seq<Answer>, i: nat, keys: seq<string>, o: Outcome) {
    && LastAttempt(a, i)
    && (forall j :: 0 <= j < |a| - 1 ==> GoesOn(a[j].code))
    && Decides(a[|a| - 1], o)
    && (a[|a| - 1].code != Eof ==> o.keys == (if i == 0 then keys else []) + KeysOf(a[i..]))
  }

  lemma ToldLast(last: Answer, keys: seq<string>, o: Outcome)
    requires Decides(last, o) && (last.code != Eof ==> o.keys == keys + last.keys)
    ensures Told([last], 0, keys, o)
  {
    assert [last][0..] == [last];
    assert KeysOf([last]) == last.keys + [];
    assert last.keys + [] == last.keys;
  }

  lemma ToldAfterRefusal(first: Answer, rest: seq<Answer>, i: nat, keys: seq<string>, o: Outcome)
    requires first.code == LineTooLong && Told(rest, i, [], o)
    ensures Told([first] + rest, i + 1, keys, o)
  {
    var a := [first] + rest;
    assert a[i + 1..] == rest[i..] && a[|a| - 1] == rest[|rest| - 1];
  }

  lemma ToldAfterSuccess(first: Answer, rest: seq<Answer>, i: nat, keys: seq<string>, o: Outcome)
    requires first.code == Ok && Told(rest, i, keys + first.keys, o)
    ensures Told([first] + rest, if i == 0 then 0 else i + 1, keys, o)
  {
    var a := [first] + rest;
    assert a[|a| - 1] == rest[|rest| - 1];
    if i == 0 {
      assert a[1..] == rest && a[0..] == a && rest[0..] == rest;
      ConcatAssociates(keys, first.keys, KeysOf(rest));
    } else {
      assert a[i + 1..] == rest[i..];
      assert a[i] == rest[i - 1];
    }
  }

  // One call: a refusal that is followed by another attempt, a success that leaves patterns, or
  // the last answer
  lemma TellAgain(
      backend: Backend, n: nat, pats: seq<string>, chunkSize: nat, keys: seq<string>, listed: seq<string>, i: nat)
    requires pats != [] && chunkSize >= 2 && backend(n, pats[..Min(chunkSize, |pats|)]).code == LineTooLong
    requires Told(AnswersTo(backend, n + 1, Asked(backend, n + 1, pats, chunkSize / 2)), i, [],
                  ListFrom(backend, n + 1, pats, chunkSize / 2, [], []))
    ensures Told(AnswersTo(backend, n, Asked(backend, n, pats, chunkSize)), i + 1, keys,
                 ListFrom(backend, n, pats, chunkSize, keys, listed))
  {
    var asked, o := Asked(backend, n + 1, pats, chunkSize / 2), ListFrom(backend, n + 1, pats, chunkSize / 2, [], []);
    var chunk := pats[..Min(chunkSize, |pats|)];
    AnswersSplit(backend, n, chunk, asked);
    ToldAfterRefusal(backend(n, chunk), AnswersTo(backend, n + 1, asked), i, keys, o);
  }

  lemma TellOn(
      backend: Backend, n: nat, pats: seq<string>, chunkSize: nat, keys: seq<string>, listed: seq<string>, i: nat)
    requires 0 < chunkSize < |pats| && backend(n, pats[..chunkSize]).code == Ok
    requires Told(AnswersTo(backend, n + 1, Asked(backend, n + 1, pats[chunkSize..], chunkSize)), i,
                  keys + backend(n, pats[..chunkSize]).keys,
                  ListFrom(backend, n + 1, pats[chunkSize..], chunkSize, keys + backend(n, pats[..chunkSize]).keys,
                           listed + pats[..chunkSize]))
    ensures Told(AnswersTo(backend, n, Asked(backend, n, pats, chunkSize)), if i == 0 then 0 else i + 1, keys,
                 ListFrom(backend, n, pats, chunkSize, keys, listed))
  {
    var chunk, rest := pats[..chunkSize], pats[chunkSize..];
    var answer, asked := backend(n, chunk), Asked(backend, n + 1, rest, chunkSize);
    var o := ListFrom(backend, n + 1, rest, chunkSize, keys + answer.keys, listed + chunk);
    AnswersSplit(backend, n, chunk, asked);
    ToldAfterSuccess(answer, AnswersTo(backend, n + 1, asked), i, keys, o);
  }

  lemma TellLast(backend: Backend, n: nat, pats: seq<string>, chunkSize: nat, keys: seq<string>, listed: seq<string>)
    requires pats != [] && chunkSize > 0
    requires var code := backend(n, pats[..Min(chunkSize, |pats|)]).code;
             !(code == LineTooLong && chunkSize >= 2) && !(code == Ok && chunkSize < |pats|)
    ensures Told(AnswersTo(backend, n, Asked(backend, n, pats, chunkSize)), 0, keys,
                 ListFrom(backend, n, pats, chunkSize, keys, listed))
  {
    var chunk := pats[..Min(chunkSize, |pats|)];
    AnswersSplit(backend, n, chunk, []);
    assert AnswersTo(backend, n, Asked(backend, n, pats, chunkSize)) == [backend(n, chunk)];
    ToldLast(backend(n, chunk), keys, ListFrom(backend, n, pats, chunkSize, keys, listed));
  }

  // What the loop has collected before counts only for the attempt it is in.
  lemma {:induction false} AnswersDecideFrom(
      backend: Backend, n: nat, pats: seq<string>, chunkSize: nat, keys: seq<string>, listed: seq<string>)
    returns (i: nat)
    requires pats != [] && chunkSize > 0
    ensures Told(AnswersTo(backend, n, Asked(backend, n, pats, chunkSize)), i, keys,
                 ListFrom(backend, n, pats, chunkSize, keys, listed))
    decreases chunkSize, |pats|
  {
    var chunk := pats[..Min(chunkSize, |pats|)];
    var answer := backend(n, chunk);
    if answer.code == LineTooLong && chunkSize >= 2 {
      var j := AnswersDecideFrom(backend, n + 1, pats, chunkSize / 2, [], []);
      TellAgain(backend, n, pats, chunkSize, keys, listed, j);
      i := j + 1;
    } else if answer.code == Ok && chunkSize < |pats| {
      var j := AnswersDecideFrom(backend, n + 1, pats[chunkSize..], chunkSize, keys + answer.keys, listed + chunk);
      TellOn(backend, n, pats, chunkSize, keys, listed, j);
      i := if j == 0 then 0 else j + 1;
    } else {
      i := 0;
      TellLast(backend, n, pats, chunkSize, keys, listed);
    }
  }

  // Over the calls of a job and their answers: only success and a refusal go on; the last answer
  // decides the code, so the first other error is what the job returns; and the keys are those of
  // the answers since the last refusal that was followed by another attempt, up to the last answer.
  lemma {:induction false} AnswersDecide(backend: Backend, pats: seq<string>)
    requires pats != []
    ensures var a := AnswersTo(backend, 0, Asked(backend, 0, pats, |pats|));
            var o := ListFrom(backend, 0, pats, |pats|, [], []);
            && (forall j :: 0 <= j < |a| - 1 ==> GoesOn(a[j].code))
            && Decides(a[|a| - 1], o)
            && exists i: nat :: LastAttempt(a, i) && (a[|a| - 1].code != Eof ==> o.keys == KeysOf(a[i..]))
  {
    var a := AnswersTo(backend, 0, Asked(backend, 0, pats, |pats|));
    var i := AnswersDecideFrom(backend, 0, pats, |pats|, [], []);
    assert LastAttempt(a, i);
    assert [] + KeysOf(a[i..]) == KeysOf(a[i..]);
  }

  // ---------- Any backend

  // The size, halved until the first chunk is not refused; 0 if even a single pattern is
  function FirstAnswered(backend: Backend, n: nat, pats: seq<string>, chunkSize: nat): (c: nat)
    requires pats != []
    ensures c <= chunkSize
    decreases chunkSize
  {
    if chunkSize == 0 || backend(n, pats[..Min(chunkSize, |pats|)]).code != LineTooLong then chunkSize
    else FirstAnswered(backend, n + 1, pats, chunkSize / 2)
  }

  // The number of the call with that chunk
  function CallAnswered(backend: Backend, n: nat, pats: seq<string>, chunkSize: nat): nat
    requires pats != []
    decreases chunkSize
  {
    if chunkSize == 0 || backend(n, pats[..Min(chunkSize, |pats|)]).code != LineTooLong then n
    else CallAnswered(backend, n + 1, pats, chunkSize / 2)
  }

  // From the n-th call on, all chunks of this size are taken.
  predicate AllAnswered(backend: Backend, n: nat, pats: seq<string>, chunkSize: nat)
    requires chunkSize > 0
    decreases |pats|
  {
    pats == [] ||
    (var size := Min(chunkSize, |pats|);
     backend(n, pats[..size]).code == Ok && AllAnswered(backend, n + 1, pats[size..], chunkSize))
  }

  // An attempt whose chunks are all taken returns everything.
  lemma {:induction false} AttemptSucceeds(
      backend: Backend, n: nat, pats: seq<string>, chunkSize: nat, keys: seq<string>, listed: seq<string>)
    requires pats != [] && chunkSize > 0 && AllAnswered(backend, n, pats, chunkSize)
    ensures ListFrom(backend, n, pats, chunkSize, keys, listed) ==
            Outcome(Ok, keys + AnswersFor(backend, n, pats, chunkSize), listed + pats, chunkSize)
    decreases |pats|
  {
    var size := Min(chunkSize, |pats|);
    var answer := backend(n, pats[..size]);
    if size == |pats| {
      assert pats[size..] == [];
      assert answer.keys + [] == answer.keys && pats[..size] == pats;
    } else {
      AttemptSucceeds(backend, n + 1, pats[size..], chunkSize, keys + answer.keys, listed + pats[..size]);
      ConcatAssociates(keys, answer.keys, AnswersFor(backend, n + 1, pats[size..], chunkSize));
      assert listed + pats[..size] + pats[size..] == listed + pats;
    }
  }

  // Never more is returned than was still to do.
  lemma {:induction false} NoMoreThanLeft(
      backend: Backend, n: nat, pats: seq<string>, chunkSize: nat, keys: seq<string>, listed: seq<string>)
    requires pats != [] && chunkSize > 0
    ensures |ListFrom(backend, n, pats, chunkSize, keys, listed).listed| <= |listed| + |pats|
    decreases chunkSize, |pats|
  {
    var size := Min(chunkSize, |pats|);
    var answer := backend(n, pats[..size]);
    match answer.code
    case LineTooLong =>
      if chunkSize / 2 >= 1 {
        NoMoreThanLeft(backend, n + 1, pats, chunkSize / 2, [], []);
      }
    case Eof =>
    case Other(_) =>
    case Ok =>
      if size < |pats| {
        NoMoreThanLeft(backend, n + 1, pats[size..], chunkSize, keys + answer.keys, listed + pats[..size]);
      }
  }

  // Not all of an attempt's patterns are listed with success.
  ghost predicate Loses(o: Outcome, attempted: nat) {
    o.code != Ok || |o.listed| < attempted
  }

  // A chunk that is not taken after one was: the patterns of the attempt are lost for good.
  lemma {:induction false} LateRefusalLoses(
      backend: Backend, n: nat, pats: seq<string>, chunkSize: nat, keys: seq<string>, listed: seq<string>)
    requires pats != [] && chunkSize > 0 && !AllAnswered(backend, n, pats, chunkSize) && listed != []
    ensures Loses(ListFrom(backend, n, pats, chunkSize, keys, listed), |listed| + |pats|)
    decreases |pats|
  {
    var size := Min(chunkSize, |pats|);
    var answer := backend(n, pats[..size]);
    match answer.code
    case LineTooLong =>
      if chunkSize / 2 >= 1 {
        NoMoreThanLeft(backend, n + 1, pats, chunkSize / 2, [], []);
      }
    case Eof =>
    case Other(_) =>
    case Ok =>
      LateRefusalLoses(backend, n + 1, pats[size..], chunkSize, keys + answer.keys, listed + pats[..size]);
  }

  lemma FirstAnswerLoses(backend: Backend, n: nat, pats: seq<string>, c: nat)
    requires pats != [] && c > 0 && !AllAnswered(backend, n, pats, c)
    requires backend(n, pats[..Min(c, |pats|)]).code != LineTooLong
    ensures Loses(ListFrom(backend, n, pats, c, [], []), |pats|)
  {
    var size := Min(c, |pats|);
    var answer := backend(n, pats[..size]);
    if answer.code == Ok {
      LateRefusalLoses(backend, n + 1, pats[size..], c, [] + answer.keys, [] + pats[..size]);
    }
  }

  // The halvings up to the first chunk that is not refused
  lemma {:induction false} HalvesToAnswer(backend: Backend, n: nat, pats: seq<string>, chunkSize: nat, c: nat, k: nat)
    requires pats != [] && chunkSize > 0
    requires c == FirstAnswered(backend, n, pats, chunkSize) && k == CallAnswered(backend, n, pats, chunkSize)
    ensures c == 0 ==> ListFrom(backend, n, pats, chunkSize, [], []).code == LineTooLong
    ensures c > 0 ==>
              && ListFrom(backend, n, pats, chunkSize, [], []) == ListFrom(backend, k, pats, c, [], [])
              && backend(k, pats[..Min(c, |pats|)]).code != LineTooLong
    decreases chunkSize
  {
    if backend(n, pats[..Min(chunkSize, |pats|)]).code == LineTooLong && chunkSize / 2 >= 1 {
      HalvesToAnswer(backend, n + 1, pats, chunkSize / 2, c, k);
    }
  }

  // Whatever the backend does, the job succeeds for all patterns if and only if, cut at the
  // first size whose first chunk is not refused, all chunks are taken from then on; and then it
  // returns their keys, chunk after chunk.
  lemma {:induction false} CompleteForAny(backend: Backend, pats: seq<string>)
    requires pats != []
    ensures var o := ListFrom(backend, 0, pats, |pats|, [], []);
            var c, k := FirstAnswered(backend, 0, pats, |pats|), CallAnswered(backend, 0, pats, |pats|);
            if c > 0 && AllAnswered(backend, k, pats, c)
            then o == Outcome(Ok, AnswersFor(backend, k, pats, c), pats, c)
            else Loses(o, |pats|)
  {
    var c, k := FirstAnswered(backend, 0, pats, |pats|), CallAnswered(backend, 0, pats, |pats|);
    HalvesToAnswer(backend, 0, pats, |pats|, c, k);
    if c > 0 {
      if AllAnswered(backend, k, pats, c) {
        AttemptSucceeds(backend, k, pats, c, [], []);
        assert [] + pats == pats && [] + AnswersFor(backend, k, pats, c) == AnswersFor(backend, k, pats, c);
      } else {
        FirstAnswerLoses(backend, k, pats, c);
      }
    }
  }

  // ---------- Backends that go by the chunk alone

  // The backend takes or refuses a chunk by looking at it, and never fails otherwise.
  ghost predicate GoesBy(backend: Backend, accepts: seq<string> -> bool) {
    forall n, chunk :: backend(n, chunk).code == if accepts(chunk) then Ok else LineTooLong
  }

  // The size, halved until the first chunk is taken; 0 if even a single pattern is refused
  function FirstFit(pats: seq<string>, chunkSize: nat, accepts: seq<string> -> bool): (c: nat)
    requires pats != []
    ensures c <= chunkSize
    ensures c > 0 ==> accepts(pats[..Min(c, |pats|)])
  {
    if chunkSize == 0 || accepts(pats[..Min(chunkSize, |pats|)]) then chunkSize
    else FirstFit(pats, chunkSize / 2, accepts)
  }

  // How many chunks are refused until then
  function Refusals(pats: seq<string>, chunkSize: nat, accepts: seq<string> -> bool): nat
    requires pats != []
  {
    if chunkSize == 0 || accepts(pats[..Min(chunkSize, |pats|)]) then 0
    else 1 + Refusals(pats, chunkSize / 2, accepts)
  }

  // Cut into chunks of this size, all are taken.
  predicate AllTaken(pats: seq<string>, chunkSize: nat, accepts: seq<string> -> bool)
    requires chunkSize > 0
    decreases |pats|
  {
    pats == [] ||
    (var size := Min(chunkSize, |pats|);
     accepts(pats[..size]) && AllTaken(pats[size..], chunkSize, accepts))
  }

  lemma {:induction false} FitIsAnswered(
      backend: Backend, accepts: seq<string> -> bool, n: nat, pats: seq<string>, chunkSize: nat)
    requires GoesBy(backend, accepts) && pats != []
    ensures FirstAnswered(backend, n, pats, chunkSize) == FirstFit(pats, chunkSize, accepts)
    ensures CallAnswered(backend, n, pats, chunkSize) == n + Refusals(pats, chunkSize, accepts)
    decreases chunkSize
  {
    if chunkSize > 0 && !accepts(pats[..Min(chunkSize, |pats|)]) {
      FitIsAnswered(backend, accepts, n + 1, pats, chunkSize / 2);
    }
  }

  lemma {:induction false} TakenIsAnswered(
      backend: Backend, accepts: seq<string> -> bool, n: nat, pats: seq<string>, chunkSize: nat)
    requires GoesBy(backend, accepts) && chunkSize > 0
    ensures AllAnswered(backend, n, pats, chunkSize) <==> AllTaken(pats, chunkSize, accepts)
    decreases |pats|
  {
    if pats != [] {
      TakenIsAnswered(backend, accepts, n + 1, pats[Min(chunkSize, |pats|)..], chunkSize);
    }
  }

  // For these the condition can be seen from the patterns.
  lemma {:induction false} CompleteExact(backend: Backend, accepts: seq<string> -> bool, pats: seq<string>)
    requires GoesBy(backend, accepts) && pats != []
    ensures var o := ListFrom(backend, 0, pats, |pats|, [], []);
            var c := FirstFit(pats, |pats|, accepts);
            && (o.code == Ok && o.listed == pats <==> c > 0 && AllTaken(pats, c, accepts))
            && (c > 0 && AllTaken(pats, c, accepts) ==>
                  o.keys == AnswersFor(backend, Refusals(pats, |pats|, accepts), pats, c) && o.chunkSize == c)
  {
    var c, k := FirstFit(pats, |pats|, accepts), Refusals(pats, |pats|, accepts);
    FitIsAnswered(backend, accepts, 0, pats, |pats|);
    if c > 0 {
      TakenIsAnswered(backend, accepts, k, pats, c);
    }
    CompleteForAny(backend, pats);
  }

  // ---------- A limit on the number of patterns

  // The size, halved until it is within the limit
  function HalvedTo(n: nat, limit: nat): (c: nat)
    requires limit > 0
    ensures c <= limit && c <= n
  {
    if n <= limit then n else HalvedTo(n / 2, limit)
  }

  function Power2(j: nat): (p: nat)
    ensures p > 0
  {
    if j == 0 then 1 else 2 * Power2(j - 1)
  }

  // How many halvings that takes
  function Halvings(n: nat, limit: nat): nat
    requires limit > 0
  {
    if n <= limit then 0 else 1 + Halvings(n / 2, limit)
  }

  // It is the first of n, n/2, n/4, ... within the limit, and not below half the limit.
  lemma {:induction false} HalvedToExact(n: nat, limit: nat)
    requires limit > 0
    ensures var j := Halvings(n, limit);
            && HalvedTo(n, limit) == n / Power2(j)
            && (forall i: nat :: i < j ==> n / Power2(i) > limit)
    ensures Min(n, (limit + 1) / 2) <= HalvedTo(n, limit)
  {
    if n > limit {
      HalvedToExact(n / 2, limit);
      var j := Halvings(n, limit);
      forall i: nat | i < j ensures n / Power2(i) > limit {
        if i > 0 {
          DivideTwice(n, Power2(i - 1));
        }
      }
      DivideTwice(n, Power2(j - 1));
    }
  }

  lemma DivideTwice(n: nat, p: nat)
    requires p > 0
    ensures n / 2 / p == n / (2 * p)
  {
    var q := n / (2 * p);
    var r := n % (2 * p);
    assert n == 2 * p * q + r;
    assert n / 2 == p * q + r / 2;
    assert r / 2 < p;
    DivideUnique(n / 2, p, q, r / 2);
  }

  lemma DivideUnique(n: nat, p: nat, q: nat, r: nat)
    requires p > 0 && r < p && n == p * q + r
    ensures n / p == q
  {
    var d := n / p - q;
    assert n == p * (n / p) + n % p;
    assert p * d == r - n % p;
    assert 0 - p < p * d < p;
  }

  lemma {:induction false} SmallChunksAreTaken(pats: seq<string>, chunkSize: nat, limit: nat)
    requires 0 < chunkSize <= limit
    ensures AllTaken(pats, chunkSize, chunk => |chunk| <= limit)
    decreases |pats|
  {
    if pats != [] {
      SmallChunksAreTaken(pats[Min(chunkSize, |pats|)..], chunkSize, limit);
    }
  }

  lemma {:induction false} FirstFitHalves(pats: seq<string>, chunkSize: nat, limit: nat)
    requires pats != [] && chunkSize <= |pats| && limit > 0
    ensures FirstFit(pats, chunkSize, chunk => |chunk| <= limit) == HalvedTo(chunkSize, limit)
  {
    if chunkSize > limit {
      FirstFitHalves(pats, chunkSize / 2, limit);
    }
  }

  lemma {:induction false} RefusalsHalve(pats: seq<string>, chunkSize: nat, limit: nat)
    requires pats != [] && chunkSize <= |pats| && limit > 0
    ensures Refusals(pats, chunkSize, chunk => |chunk| <= limit) == Halvings(chunkSize, limit)
  {
    if chunkSize > limit {
      RefusalsHalve(pats, chunkSize / 2, limit);
    }
  }

  // A backend with a limit on the number of patterns gets them all, once and in order, and
  // the keys for them are what is returned.
  lemma {:induction false} LimitIsFound(backend: Backend, pats: seq<string>, limit: nat)
    requires limit > 0 && pats != []
    requires GoesBy(backend, chunk => |chunk| <= limit)
    ensures var c := HalvedTo(|pats|, limit);
            c > 0 && ListFrom(backend, 0, pats, |pats|, [], []) ==
                     Outcome(Ok, AnswersFor(backend, Halvings(|pats|, limit), pats, c), pats, c)
  {
    var accepts := (chunk: seq<string>) => |chunk| <= limit;
    FirstFitHalves(pats, |pats|, limit);
    RefusalsHalve(pats, |pats|, limit);
    var c := HalvedTo(|pats|, limit);
    HalvedToExact(|pats|, limit);
    SmallChunksAreTaken(pats, c, limit);
    CompleteExact(backend, accepts, pats);
  }

  // ---------- A limit on the length of the line

  function LineLength(chunk: seq<string>): nat {
    if chunk == [] then 0 else |chunk[0]| + 1 + LineLength(chunk[1..])
  }

  lemma TwoPatterns(backend: Backend, accepts: seq<string> -> bool, n: nat, c: string, d: string)
    requires GoesBy(backend, accepts) && accepts([c]) && accepts([d])
    ensures ListFrom(backend, n, [c, d], 1, [], []) ==
            Outcome(Ok, backend(n, [c]).keys + backend(n + 1, [d]).keys, [c, d], 1)
  {
    assert [c, d][..1] == [c] && [c, d][1..] == [d] && [d][..1] == [d];
    var keys := backend(n, [c]).keys;
    assert [] + keys == keys && [] + [c] == [c];
    assert ListFrom(backend, n, [c, d], 1, [], []) == ListFrom(backend, n + 1, [d], 1, keys, [c]);
    assert [c] + [d] == [c, d];
  }

  // Of four patterns, the second pair is refused after the first was taken: the first pair is
  // lost, and the job still reports success, with the keys of the second pair alone.
  lemma PairIsLost(backend: Backend, accepts: seq<string> -> bool, a: string, b: string, c: string, d: string)
    requires GoesBy(backend, accepts) && !accepts([a, b, c, d]) && accepts([a, b])
    requires !accepts([c, d]) && accepts([c]) && accepts([d])
    ensures ListFrom(backend, 0, [a, b, c, d], 4, [], []) ==
            Outcome(Ok, backend(3, [c]).keys + backend(4, [d]).keys, [c, d], 1)
  {
    var pats := [a, b, c, d];
    assert pats[..4] == pats && pats[..2] == [a, b] && pats[2..] == [c, d];
    assert [c, d][..2] == [c, d];
    var keys := [] + backend(1, [a, b]).keys;
    assert ListFrom(backend, 0, pats, 4, [], []) == ListFrom(backend, 1, pats, 2, [], []);
    assert ListFrom(backend, 1, pats, 2, [], []) == ListFrom(backend, 2, [c, d], 2, keys, [] + [a, b]);
    assert ListFrom(backend, 2, [c, d], 2, keys, [] + [a, b]) == ListFrom(backend, 3, [c, d], 1, [], []);
    TwoPatterns(backend, accepts, 3, c, d);
  }

  // With a limit on the length of the line, this happens to short patterns before long
  // ones: here the keys of "a" and "b" are missing from a successful result.
  lemma ShortPatternsAreLost(backend: Backend)
    requires GoesBy(backend, chunk => LineLength(chunk) <= 9)
    ensures var o := ListFrom(backend, 0, ["a", "b", "cccc", "dddd"], 4, [], []);
            && o.code == Ok && o.listed == ["cccc", "dddd"]
            && o.keys == backend(3, ["cccc"]).keys + backend(4, ["dddd"]).keys
  {
    LengthOfFour("a", "b", "cccc", "dddd");
    PairIsLost(backend, chunk => LineLength(chunk) <= 9, "a", "b", "cccc", "dddd");
  }

  lemma LengthOfFour(a: string, b: string, c: string, d: string)
    ensures LineLength([a, b, c, d]) == |a| + |b| + |c| + |d| + 4
    ensures LineLength([a, b]) == |a| + |b| + 2 && LineLength([c, d]) == |c| + |d| + 2
    ensures LineLength([c]) == |c| + 1 && LineLength([d]) == |d| + 1
  {
    assert [d][1..] == [] && [c][1..] == [] && [b][1..] == [];
    assert [c, d][1..] == [d] && [a, b][1..] == [b];
    assert [b, c, d][1..] == [c, d] && [a, b, c, d][1..] == [b, c, d];
    assert LineLength([c]) == |c| + 1 && LineLength([d]) == |d| + 1 && LineLength([b]) == |b| + 1;
    assert LineLength([c, d]) == |c| + 1 + LineLength([d]) && LineLength([a, b]) == |a| + 1 + LineLength([b]);
    assert LineLength([b, c, d]) == |b| + 1 + LineLength([c, d]);
  }
}
