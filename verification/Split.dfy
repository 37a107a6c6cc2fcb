// The splitter of src/util.h.

module Split {
  import opened Text

  // The pieces between the delimiters. Joined again they give s, and none holds the delimiter;
  // by PiecesOfJoin no other list is like that.
  method Split(s: string, delimiter: char) returns (result: seq<string>)
    ensures result == Pieces(s, delimiter)
    ensures Join(result, [delimiter]) == s && forall p :: p in result ==> delimiter !in p
  {
    result := [];
    var start, end := 0, 0;
    ghost var rest := s;
    while true
      invariant 0 <= start <= |s| && rest == s[start..]
      invariant result + Pieces(rest, delimiter) == Pieces(s, delimiter)
      decreases |s| - start
    {
      end := start + IndexOf(s[start..], delimiter);
      var piece := s[start..end];
      TakeOfDrop(s, start, end - start);
      PiecesStep(result, rest, piece, delimiter);
      result := result + [piece];
      if end == |s| {
        break;
      }
      DropTwice(s, start, end + 1 - start);
      rest := rest[end + 1 - start..];
      start := end + 1;
    }
    PiecesJoin(s, delimiter);
  }

  lemma PiecesStep(done: seq<string>, rest: string, piece: string, delimiter: char)
    requires piece == rest[..IndexOf(rest, delimiter)]
    ensures var i := IndexOf(rest, delimiter);
            done + Pieces(rest, delimiter) ==
              if i == |rest| then done + [piece]
              else done + [piece] + Pieces(rest[i + 1..], delimiter)
  {
    var i := IndexOf(rest, delimiter);
    if i == |rest| {
      assert rest[..i] == rest;
    } else {
      ConcatAssociates(done, [piece], Pieces(rest[i + 1..], delimiter));
    }
  }
}
