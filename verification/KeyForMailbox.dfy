// Choosing the key for a mail address (src/qgpgmekeyformailboxjob.cpp).

module KeyForMailbox {
  import opened Text

  datatype Subkey = Subkey(canEncrypt: bool, revoked: bool, invalid: bool, disabled: bool, creationTime: int)

  datatype UserId = UserId(email: string, validity: nat, revoked: bool, invalid: bool)

  datatype Key = Key(
    expired: bool, revoked: bool, invalid: bool, disabled: bool, canEncrypt: bool,
    userIds: seq<UserId>, subkeys: seq<Subkey>)

  predicate KeyIsOk(k: Key) {
    !k.expired && !k.revoked && !k.invalid && !k.disabled
  }

  predicate SubkeyIsOk(s: Subkey) {
    !s.revoked && !s.invalid && !s.disabled
  }

  // A user ID together with the key it belongs to
  datatype Candidate = Candidate(key: Key, uid: UserId)

  predicate IsOk(c: Candidate) {
    KeyIsOk(c.key) && !c.uid.revoked && !c.uid.invalid
  }

  predicate Counts(s: Subkey, canEncrypt: bool) {
    canEncrypt && s.canEncrypt && SubkeyIsOk(s)
  }

  // The creation time of the last subkey that counts, or 0
  function LastTime(subkeys: seq<Subkey>, canEncrypt: bool): int {
    if subkeys == [] then 0
    else
      var last := subkeys[|subkeys| - 1];
      if Counts(last, canEncrypt) then last.creationTime else LastTime(subkeys[..|subkeys| - 1], canEncrypt)
  }

  // A subkey that can be used to encrypt to
  predicate Usable(s: Subkey) {
    s.canEncrypt && !s.revoked && !s.invalid && !s.disabled
  }

  // The time is that of a usable subkey behind which there is no other, or 0 without any.
  ghost predicate IsTimeOf(subkeys: seq<Subkey>, canEncrypt: bool, time: int) {
    || (exists i :: 0 <= i < |subkeys| && canEncrypt && Usable(subkeys[i]) && time == subkeys[i].creationTime
                    && forall j :: i < j < |subkeys| ==> !Usable(subkeys[j]))
    || (time == 0 && forall i :: 0 <= i < |subkeys| ==> !canEncrypt || !Usable(subkeys[i]))
  }

  lemma {:induction false} LastTimeExact(subkeys: seq<Subkey>, canEncrypt: bool)
    ensures IsTimeOf(subkeys, canEncrypt, LastTime(subkeys, canEncrypt))
  {
    if subkeys != [] {
      var n := |subkeys| - 1;
      var head := subkeys[..n];
      LastTimeExact(head, canEncrypt);
      if canEncrypt && Usable(subkeys[n]) {
        assert LastTime(subkeys, canEncrypt) == subkeys[n].creationTime;
      } else {
        assert LastTime(subkeys, canEncrypt) == LastTime(head, canEncrypt);
        assert forall i :: 0 <= i < n ==> head[i] == subkeys[i];
        if i :| 0 <= i < n && canEncrypt && Usable(head[i]) && LastTime(head, canEncrypt) == head[i].creationTime
                && forall j :: i < j < n ==> !Usable(head[j]) {
          assert Usable(subkeys[i]) && forall j :: i < j < |subkeys| ==> !Usable(subkeys[j]);
        }
      }
    }
  }

  method TimeOf(k: Key, canEncrypt: bool) returns (time: int)
    ensures time == LastTime(k.subkeys, canEncrypt) && IsTimeOf(k.subkeys, canEncrypt, time)
  {
    LastTimeExact(k.subkeys, canEncrypt);
    time := 0;
    for i := 0 to |k.subkeys|
      invariant time == LastTime(k.subkeys[..i], canEncrypt)
    {
      assert k.subkeys[..i + 1][..i] == k.subkeys[..i];
      var s := k.subkeys[i];
      if canEncrypt && s.canEncrypt && SubkeyIsOk(s) {
        time := s.creationTime;
      }
    }
    assert k.subkeys[..|k.subkeys|] == k.subkeys;
  }

  function Time(c: Candidate, canEncrypt: bool): int {
    LastTime(c.key.subkeys, canEncrypt)
  }

  // When the source replaces its choice
  predicate Replaces(u: Candidate, choice: Candidate, canEncrypt: bool) {
    || (!IsOk(choice) && IsOk(u))
    || choice.uid.validity < u.uid.validity
    || (choice.uid.validity == u.uid.validity && IsOk(u) && Time(u, canEncrypt) > Time(choice, canEncrypt))
  }

  // The choice after looking at candidates in their order
  function Choice(cs: seq<Candidate>, canEncrypt: bool): (r: Option<Candidate>)
    ensures r.None? <==> cs == []
    ensures r.Some? ==> r.value in cs
  {
    if cs == [] then None
    else
      var before := Choice(cs[..|cs| - 1], canEncrypt);
      var u := cs[|cs| - 1];
      if before.None? || Replaces(u, before.value, canEncrypt) then Some(u) else before
  }

  predicate Matches(u: UserId, mailbox: string) {
    Lower(u.email) == Lower(mailbox)
  }

  function CandidatesOf(k: Key, uids: seq<UserId>, mailbox: string): seq<Candidate> {
    if uids == [] then []
    else
      var last := uids[|uids| - 1];
      CandidatesOf(k, uids[..|uids| - 1], mailbox) + if Matches(last, mailbox) then [Candidate(k, last)] else []
  }

  // All user IDs that match, over the keys that can be used
  function Candidates(keys: seq<Key>, mailbox: string, canEncrypt: bool): seq<Candidate> {
    if keys == [] then []
    else
      var k := keys[|keys| - 1];
      Candidates(keys[..|keys| - 1], mailbox, canEncrypt) +
      if canEncrypt && !k.canEncrypt then [] else CandidatesOf(k, k.userIds, mailbox)
  }

  method DoWork(keys: seq<Key>, mailbox: string, canEncrypt: bool) returns (choice: Option<Candidate>)
    ensures choice == Choice(Candidates(keys, mailbox, canEncrypt), canEncrypt)
  {
    choice := None;
    for i := 0 to |keys|
      invariant choice == Choice(Candidates(keys[..i], mailbox, canEncrypt), canEncrypt)
    {
      var k := keys[i];
      assert keys[..i + 1][..i] == keys[..i];
      ghost var before := Candidates(keys[..i], mailbox, canEncrypt);
      if canEncrypt && !k.canEncrypt {
        assert before + [] == before;
        continue;
      }
      choice := ConsiderKey(choice, k, mailbox, canEncrypt, before);
    }
    assert keys[..|keys|] == keys;
  }

  lemma CandidatesOfOneMore(k: Key, uids: seq<UserId>, j: nat, mailbox: string)
    requires j < |uids|
    ensures CandidatesOf(k, uids[..j + 1], mailbox) ==
            CandidatesOf(k, uids[..j], mailbox) + if Matches(uids[j], mailbox) then [Candidate(k, uids[j])] else []
  {
    assert uids[..j + 1][..j] == uids[..j];
  }

  // The inner loop, over the user IDs of one key
  method ConsiderKey(choice: Option<Candidate>, k: Key, mailbox: string, canEncrypt: bool, ghost before: seq<Candidate>)
    returns (r: Option<Candidate>)
    requires choice == Choice(before, canEncrypt)
    ensures r == Choice(before + CandidatesOf(k, k.userIds, mailbox), canEncrypt)
  {
    r := choice;
    assert before + [] == before;
    for j := 0 to |k.userIds|
      invariant r == Choice(before + CandidatesOf(k, k.userIds[..j], mailbox), canEncrypt)
    {
      var u := k.userIds[j];
      CandidatesOfOneMore(k, k.userIds, j, mailbox);
      ghost var some := CandidatesOf(k, k.userIds[..j], mailbox);
      if Lower(u.email) == Lower(mailbox) {
        ChoiceSnoc(before, some, Candidate(k, u), canEncrypt);
        r := Consider(r, Candidate(k, u), canEncrypt);
      } else {
        assert some + [] == some;
      }
    }
    assert k.userIds[..|k.userIds|] == k.userIds;
  }

  lemma ChoiceSnoc(before: seq<Candidate>, some: seq<Candidate>, u: Candidate, canEncrypt: bool)
    ensures var choice := Choice(before + some, canEncrypt);
            Choice(before + (some + [u]), canEncrypt) ==
              if choice.None? || Replaces(u, choice.value, canEncrypt) then Some(u) else choice
  {
    var now := before + (some + [u]);
    assert now[..|now| - 1] == before + some;
  }

  method Consider(choice: Option<Candidate>, u: Candidate, canEncrypt: bool) returns (r: Option<Candidate>)
    ensures r == if choice.None? || Replaces(u, choice.value, canEncrypt) then Some(u) else choice
  {
    r := choice;
    if choice.None? {
      r := Some(u);
    } else if (!IsOk(choice.value) && IsOk(u)) || choice.value.uid.validity < u.uid.validity {
      r := Some(u);
    } else if choice.value.uid.validity == u.uid.validity && IsOk(u) {
      var oldTime := TimeOf(choice.value.key, canEncrypt);
      var newTime := TimeOf(u.key, canEncrypt);
      if newTime > oldTime {
        r := Some(u);
      }
    }
  }

  // ---------- What is chosen

  lemma {:induction false} CandidatesOfExact(k: Key, uids: seq<UserId>, mailbox: string, c: Candidate)
    ensures c in CandidatesOf(k, uids, mailbox) <==> c.key == k && c.uid in uids && Matches(c.uid, mailbox)
  {
    if uids != [] {
      CandidatesOfExact(k, uids[..|uids| - 1], mailbox, c);
      assert uids == uids[..|uids| - 1] + [uids[|uids| - 1]];
    }
  }

  lemma {:induction false} CandidatesExact(keys: seq<Key>, mailbox: string, canEncrypt: bool, c: Candidate)
    ensures c in Candidates(keys, mailbox, canEncrypt) <==>
            && c.key in keys && (canEncrypt ==> c.key.canEncrypt)
            && c.uid in c.key.userIds && Matches(c.uid, mailbox)
  {
    if keys != [] {
      var k := keys[|keys| - 1];
      CandidatesExact(keys[..|keys| - 1], mailbox, canEncrypt, c);
      CandidatesOfExact(k, k.userIds, mailbox, c);
      assert keys == keys[..|keys| - 1] + [k];
    }
  }

  // The choice matches and belongs to its key, which is one that can be used; and nothing is
  // chosen only where nothing matches.
  lemma ChoiceMatches(keys: seq<Key>, mailbox: string, canEncrypt: bool)
    ensures var r := Choice(Candidates(keys, mailbox, canEncrypt), canEncrypt);
            && (r.Some? ==>
                  && r.value.key in keys && (canEncrypt ==> r.value.key.canEncrypt)
                  && r.value.uid in r.value.key.userIds && Matches(r.value.uid, mailbox))
            && (r.None? <==> forall k, u :: k in keys && (canEncrypt ==> k.canEncrypt) && u in k.userIds ==>
                               !Matches(u, mailbox))
  {
    var cs := Candidates(keys, mailbox, canEncrypt);
    var r := Choice(cs, canEncrypt);
    if r.Some? {
      CandidatesExact(keys, mailbox, canEncrypt, r.value);
    } else {
      forall k, u | k in keys && (canEncrypt ==> k.canEncrypt) && u in k.userIds ensures !Matches(u, mailbox) {
        CandidatesExact(keys, mailbox, canEncrypt, Candidate(k, u));
      }
    }
  }

  // ---------- When it is the best

  // The place of the choice
  function ChoiceAt(cs: seq<Candidate>, canEncrypt: bool): (r: nat)
    requires cs != []
    ensures r < |cs|
  {
    var n := |cs| - 1;
    if n == 0 then 0
    else
      var before := ChoiceAt(cs[..n], canEncrypt);
      if Replaces(cs[n], cs[before], canEncrypt) then n else before
  }

  lemma {:induction false} ChoiceIsThere(cs: seq<Candidate>, canEncrypt: bool)
    requires cs != []
    ensures Choice(cs, canEncrypt) == Some(cs[ChoiceAt(cs, canEncrypt)])
  {
    if |cs| > 1 {
      ChoiceIsThere(cs[..|cs| - 1], canEncrypt);
    }
  }

  // Usable before unusable, then by validity, then, among usable ones, by time
  predicate Above(a: Candidate, b: Candidate, canEncrypt: bool) {
    if IsOk(a) != IsOk(b) then IsOk(a)
    else
      || a.uid.validity > b.uid.validity
      || (a.uid.validity == b.uid.validity && IsOk(a) && Time(a, canEncrypt) > Time(b, canEncrypt))
  }

  // The first of the highest
  ghost predicate IsFirstBest(cs: seq<Candidate>, b: nat, canEncrypt: bool) {
    && b < |cs|
    && (forall i :: 0 <= i < |cs| ==> !Above(cs[i], cs[b], canEncrypt))
    && (forall i :: 0 <= i < b ==> Above(cs[b], cs[i], canEncrypt))
  }

  lemma BestOfOneMore(cs: seq<Candidate>, n: nat, b: nat, canEncrypt: bool)
    requires n == |cs| - 1 && IsFirstBest(cs[..n], b, canEncrypt)
    ensures IsFirstBest(cs, if Above(cs[n], cs[b], canEncrypt) then n else b, canEncrypt)
  {
    forall i | 0 <= i < n
      ensures !Above(cs[i], cs[b], canEncrypt) && (i < b ==> Above(cs[b], cs[i], canEncrypt))
    {
      assert !Above(cs[..n][i], cs[..n][b], canEncrypt);
      assert i < b ==> Above(cs[..n][b], cs[..n][i], canEncrypt);
    }
  }

  lemma {:induction false} BestExists(cs: seq<Candidate>, canEncrypt: bool) returns (b: nat)
    requires cs != []
    ensures IsFirstBest(cs, b, canEncrypt)
  {
    var n := |cs| - 1;
    if n == 0 {
      b := 0;
    } else {
      b := BestExists(cs[..n], canEncrypt);
      BestOfOneMore(cs, n, b, canEncrypt);
      b := if Above(cs[n], cs[b], canEncrypt) then n else b;
    }
  }

  lemma ChoiceAtStep(cs: seq<Candidate>, n: nat, canEncrypt: bool)
    requires 0 < n < |cs|
    ensures var before := ChoiceAt(cs[..n], canEncrypt);
            ChoiceAt(cs[..n + 1], canEncrypt) == if Replaces(cs[n], cs[before], canEncrypt) then n else before
  {
    assert cs[..n + 1][..n] == cs[..n];
  }

  // The first best is chosen when the search gets to it.
  lemma BestIsReached(cs: seq<Candidate>, b: nat, canEncrypt: bool)
    requires IsFirstBest(cs, b, canEncrypt)
    ensures ChoiceAt(cs[..b + 1], canEncrypt) == b
  {
    if b > 0 {
      ChoiceAtStep(cs, b, canEncrypt);
      assert Above(cs[b], cs[ChoiceAt(cs[..b], canEncrypt)], canEncrypt);
    }
  }

  // Nothing between b and n replaces b.
  ghost predicate Undisturbed(cs: seq<Candidate>, b: nat, n: nat, canEncrypt: bool)
    requires b < n <= |cs|
  {
    forall i :: b < i < n ==> !Replaces(cs[i], cs[b], canEncrypt)
  }

  lemma UndisturbedStep(cs: seq<Candidate>, b: nat, n: nat, canEncrypt: bool)
    requires b < n < |cs|
    ensures Undisturbed(cs, b, n + 1, canEncrypt) <==>
            Undisturbed(cs, b, n, canEncrypt) && !Replaces(cs[n], cs[b], canEncrypt)
  {
  }

  // One more candidate: b stays the choice unless it is replaced, and does not become it.
  lemma StaysStep(cs: seq<Candidate>, b: nat, n: nat, canEncrypt: bool)
    requires b < n < |cs|
    ensures ChoiceAt(cs[..n + 1], canEncrypt) == b <==>
            ChoiceAt(cs[..n], canEncrypt) == b && !Replaces(cs[n], cs[b], canEncrypt)
  {
    ChoiceAtStep(cs, n, canEncrypt);
  }

  // The best stays the choice as long as nothing replaces it, and is never chosen again.
  lemma {:induction false} StaysExact(cs: seq<Candidate>, b: nat, n: nat, canEncrypt: bool)
    requires IsFirstBest(cs, b, canEncrypt) && b < n <= |cs|
    ensures ChoiceAt(cs[..n], canEncrypt) == b <==> Undisturbed(cs, b, n, canEncrypt)
    decreases n
  {
    if n == b + 1 {
      BestIsReached(cs, b, canEncrypt);
    } else {
      var m := n - 1;
      StaysExact(cs, b, m, canEncrypt);
      UndisturbedStep(cs, b, m, canEncrypt);
      StaysStep(cs, b, m, canEncrypt);
      assert m + 1 == n;
    }
  }

  lemma ReplacesBestExact(cs: seq<Candidate>, b: nat, i: nat, canEncrypt: bool)
    requires IsFirstBest(cs, b, canEncrypt) && i < |cs|
    ensures Replaces(cs[i], cs[b], canEncrypt) <==>
            IsOk(cs[b]) && !IsOk(cs[i]) && cs[b].uid.validity < cs[i].uid.validity
  {
    assert !Above(cs[i], cs[b], canEncrypt);
  }

  // The choice is the first best if and only if that is unusable, or no unusable candidate
  // behind it has a higher validity.
  lemma {:induction false} BestExact(cs: seq<Candidate>, b: nat, canEncrypt: bool)
    requires IsFirstBest(cs, b, canEncrypt)
    ensures Choice(cs, canEncrypt) == Some(cs[ChoiceAt(cs, canEncrypt)])
    ensures ChoiceAt(cs, canEncrypt) == b
       <==> (IsOk(cs[b]) ==> forall i :: b < i < |cs| && !IsOk(cs[i]) ==> cs[i].uid.validity <= cs[b].uid.validity)
  {
    ChoiceIsThere(cs, canEncrypt);
    assert cs[..|cs|] == cs;
    StaysExact(cs, b, |cs|, canEncrypt);
    forall i | b < i < |cs|
      ensures Replaces(cs[i], cs[b], canEncrypt) <==>
              IsOk(cs[b]) && !IsOk(cs[i]) && cs[b].uid.validity < cs[i].uid.validity
    {
      ReplacesBestExact(cs, b, i, canEncrypt);
    }
  }

  // For instance, of a usable user ID and a revoked one of higher validity behind it, the
  // revoked one is chosen.
  lemma RevokedIsChosen(k: Key, email: string, canEncrypt: bool)
    requires KeyIsOk(k)
    ensures var good, bad := Candidate(k, UserId(email, 1, false, false)), Candidate(k, UserId(email, 2, true, false));
            && IsFirstBest([good, bad], 0, canEncrypt)
            && Choice([good, bad], canEncrypt) == Some(bad)
  {
    var good, bad := Candidate(k, UserId(email, 1, false, false)), Candidate(k, UserId(email, 2, true, false));
    assert [good, bad][..1] == [good] && [good][..0] == [];
    assert Choice([good], canEncrypt) == Some(good);
  }

  // Among user IDs that are all usable the first with the highest validity and, among
  // those, the latest time is chosen.
  lemma {:induction false} BestAmongUsable(cs: seq<Candidate>, canEncrypt: bool)
    requires cs != [] && forall c :: c in cs ==> IsOk(c)
    ensures var b := ChoiceAt(cs, canEncrypt);
            Choice(cs, canEncrypt) == Some(cs[b]) &&
            forall i :: 0 <= i < |cs| ==>
              || cs[i].uid.validity < cs[b].uid.validity
              || (cs[i].uid.validity == cs[b].uid.validity &&
                  (if i < b then Time(cs[i], canEncrypt) < Time(cs[b], canEncrypt)
                   else Time(cs[i], canEncrypt) <= Time(cs[b], canEncrypt)))
  {
    var b := BestExists(cs, canEncrypt);
    BestExact(cs, b, canEncrypt);
    forall i | 0 <= i < |cs| ensures IsOk(cs[i]) && !Above(cs[i], cs[b], canEncrypt) {
      assert cs[i] in cs;
    }
  }

  // ---------- Letter by letter, and flag by flag

  predicate SameLetter(a: char, b: char) {
    || a == b
    || ('a' <= a <= 'z' && a as int - b as int == 32)
    || ('A' <= a <= 'Z' && b as int - a as int == 32)
  }

  lemma SameLetterExact(a: char, b: char)
    ensures LowerChar(a) == LowerChar(b) <==> SameLetter(a, b)
  {
  }

  // An address matches if and only if it is the same but for the case of its letters.
  lemma MatchesExact(u: UserId, mailbox: string)
    ensures Matches(u, mailbox) <==>
            |u.email| == |mailbox| && forall i :: 0 <= i < |mailbox| ==> SameLetter(u.email[i], mailbox[i])
  {
    var a, b := Lower(u.email), Lower(mailbox);
    assert |a| == |u.email| && |b| == |mailbox|;
    if |a| == |b| {
      forall i | 0 <= i < |b| ensures a[i] == b[i] <==> SameLetter(u.email[i], mailbox[i]) {
        SameLetterExact(u.email[i], mailbox[i]);
      }
    }
  }

  // Any of these makes a user ID unusable.
  predicate IsFlagged(c: Candidate) {
    || c.key.expired || c.key.revoked || c.key.invalid || c.key.disabled
    || c.uid.revoked || c.uid.invalid
  }

  // Of two user IDs the second is chosen if and only if only the first is flagged, or the second has
  // the higher validity, or the same one, no flag, and a later time.
  lemma ChoiceOfTwo(c: Candidate, d: Candidate, canEncrypt: bool)
    ensures ChoiceAt([c, d], canEncrypt) == 1 <==>
            || (IsFlagged(c) && !IsFlagged(d))
            || c.uid.validity < d.uid.validity
            || (c.uid.validity == d.uid.validity && !IsFlagged(d) && Time(c, canEncrypt) < Time(d, canEncrypt))
    ensures IsTimeOf(c.key.subkeys, canEncrypt, Time(c, canEncrypt))
    ensures IsTimeOf(d.key.subkeys, canEncrypt, Time(d, canEncrypt))
  {
    LastTimeExact(c.key.subkeys, canEncrypt);
    LastTimeExact(d.key.subkeys, canEncrypt);
    assert [c, d][..1] == [c];
  }

  // For instance, of two keys that differ in their subkeys, the one with the later last subkey
  lemma LaterKeyIsChosen(k: Key, uid: UserId)
    requires KeyIsOk(k) && !uid.revoked && !uid.invalid
    ensures var s := (time: int) => Subkey(true, false, false, false, time);
            var first, second := k.(subkeys := [s(200)]), k.(subkeys := [s(100), s(300)]);
            Choice([Candidate(first, uid), Candidate(second, uid)], true) == Some(Candidate(second, uid))
  {
    var a, b, c := Subkey(true, false, false, false, 200), Subkey(true, false, false, false, 100),
                   Subkey(true, false, false, false, 300);
    assert LastTime([a], true) == 200 && LastTime([b, c], true) == 300;
    var first, second := Candidate(k.(subkeys := [a]), uid), Candidate(k.(subkeys := [b, c]), uid);
    assert Replaces(second, first, true);
    assert [first, second][..1] == [first] && [first][..0] == [];
    assert Choice([first], true) == Some(first);
  }

  // ---------- When it is the best at every point of the search

  ghost predicate ChoosesBest(cs: seq<Candidate>, canEncrypt: bool)
    requires cs != []
  {
    IsFirstBest(cs, ChoiceAt(cs, canEncrypt), canEncrypt)
  }

  // An unusable candidate, after usable ones, with a validity higher than all of theirs
  ghost predicate Intrudes(cs: seq<Candidate>, i: nat)
    requires i < |cs|
  {
    && !IsOk(cs[i])
    && (exists j :: 0 <= j < i && IsOk(cs[j]))
    && (forall j :: 0 <= j < i && IsOk(cs[j]) ==> cs[j].uid.validity < cs[i].uid.validity)
  }

  lemma OnlyOneBest(cs: seq<Candidate>, a: nat, b: nat, canEncrypt: bool)
    requires IsFirstBest(cs, a, canEncrypt) && IsFirstBest(cs, b, canEncrypt)
    ensures a == b
  {
    assert !Above(cs[a], cs[b], canEncrypt) && !Above(cs[b], cs[a], canEncrypt);
  }

  // Where an unusable candidate displaces the best of the first n, it intrudes.
  lemma DisplacedByIntruder(cs: seq<Candidate>, n: nat, canEncrypt: bool) returns (i: nat)
    requires 0 < n <= |cs| && !ChoosesBest(cs[..n], canEncrypt)
    ensures i < n && Intrudes(cs, i)
  {
    var part := cs[..n];
    var b := BestExists(part, canEncrypt);
    BestExact(part, b, canEncrypt);
    i :| b < i < n && IsOk(part[b]) && !IsOk(part[i]) && part[b].uid.validity < part[i].uid.validity;
    assert IsOk(cs[b]);
    forall j | 0 <= j < i && IsOk(cs[j]) ensures cs[j].uid.validity < cs[i].uid.validity {
      assert !Above(part[j], part[b], canEncrypt);
    }
  }

  // An intruder displaces the usable choice before it.
  lemma IntruderDisplaces(cs: seq<Candidate>, i: nat, canEncrypt: bool)
    requires i < |cs| && Intrudes(cs, i)
    ensures !ChoosesBest(cs[..i + 1], canEncrypt)
  {
    var part := cs[..i + 1];
    var b := BestExists(part, canEncrypt);
    var j :| 0 <= j < i && IsOk(cs[j]);
    assert !Above(part[j], part[b], canEncrypt);
    assert IsOk(part[b]) && b != i && cs[b].uid.validity < cs[i].uid.validity;
    assert part[i] == cs[i];
    BestExact(part, b, canEncrypt);
    if ChoosesBest(part, canEncrypt) {
      OnlyOneBest(part, b, ChoiceAt(part, canEncrypt), canEncrypt);
      assert false;
    }
  }

  // At every point of the search the choice so far is the first best, if and only if no
  // unusable candidate intrudes.
  lemma {:induction false} BestThroughoutExact(cs: seq<Candidate>, canEncrypt: bool)
    ensures (forall n: nat :: 0 < n <= |cs| ==> ChoosesBest(cs[..n], canEncrypt))
       <==> forall i: nat :: i < |cs| ==> !Intrudes(cs, i)
  {
    if n: nat :| 0 < n <= |cs| && !ChoosesBest(cs[..n], canEncrypt) {
      var i := DisplacedByIntruder(cs, n, canEncrypt);
    }
    if i: nat :| i < |cs| && Intrudes(cs, i) {
      IntruderDisplaces(cs, i, canEncrypt);
    }
  }
}
