// The provider of a list of file names, separated by zero bytes (src/filelistdataprovider.cpp).

module FileList {
  import opened Text
  import opened ByteArrayProvider

  function NonEmpty(names: seq<string>): seq<string> {
    if names == [] then []
    else if names[0] == "" then NonEmpty(names[1..])
    else [names[0]] + NonEmpty(names[1..])
  }

  // Each non-empty name and a zero byte
  function Packed(names: seq<string>): string {
    if names == [] then ""
    else (if names[0] == "" then "" else names[0] + [NUL]) + Packed(names[1..])
  }

  lemma {:induction false} PackedConcat(a: seq<string>, b: seq<string>)
    ensures Packed(a + b) == Packed(a) + Packed(b)
  {
    if a == [] {
      assert a + b == b;
    } else {
      assert (a + b)[1..] == a[1..] + b;
      PackedConcat(a[1..], b);
      ConcatAssociates(if a[0] == "" then "" else a[0] + [NUL], Packed(a[1..]), Packed(b));
    }
  }

  // The zero bytes end up between the names once the last one is cut off.
  lemma {:induction false} PackedIsJoined(names: seq<string>)
    ensures Packed(names) == if NonEmpty(names) == [] then "" else Join(NonEmpty(names), [NUL]) + [NUL]
  {
    if names != [] && names[0] == "" {
      PackedIsJoined(names[1..]);
    } else if names != [] {
      PackedIsJoined(names[1..]);
      var rest := NonEmpty(names[1..]);
      assert NonEmpty(names)[1..] == rest;
      if rest != [] {
        ConcatAssociates(names[0] + [NUL], Join(rest, [NUL]), [NUL]);
      } else {
        assert names[0] + [NUL] + "" == names[0] + [NUL];
      }
    }
  }

  method EncodeFilenames(filenames: seq<string>) returns (ret: string)
    ensures ret == Join(NonEmpty(filenames), [NUL])
  {
    ret := "";
    if filenames == [] {
      return;
    }
    for i := 0 to |filenames|
      invariant ret == Packed(filenames[..i])
    {
      PackedConcat(filenames[..i], [filenames[i]]);
      assert filenames[..i + 1] == filenames[..i] + [filenames[i]];
      assert Packed([filenames[i]]) == if filenames[i] == "" then "" else filenames[i] + [NUL];
      if filenames[i] != "" {
        ret := ret + (filenames[i] + [NUL]);
      }
    }
    assert filenames[..|filenames|] == filenames;
    PackedIsJoined(filenames);
    // remove the trailing zero byte
    if ret != "" {
      ret := ret[..|ret| - 1];
    }
  }

  class Provider {
    const mProvider: ByteArrayProvider.Provider

    constructor (filenames: seq<string>)
      ensures fresh(mProvider) && mProvider.Valid()
      ensures mProvider.Contents() == File(Join(NonEmpty(filenames), [NUL]), 0)
    {
      var bytes := EncodeFilenames(filenames);
      mProvider := new ByteArrayProvider.Provider(bytes);
    }

    method Read(buffer: array?<char>, bufSize: nat) returns (n: int)
      requires mProvider.Valid() && (buffer != null ==> bufSize <= buffer.Length)
      modifies mProvider`mOff, buffer
      ensures mProvider.Valid() && mProvider.mArray == old(mProvider.mArray)
      ensures bufSize > 0 && buffer == null ==> n == -1 && mProvider.mOff == old(mProvider.mOff)
      ensures buffer != null ==>
                && 0 <= n <= buffer.Length && mProvider.mOff == old(mProvider.mOff) + n
                && buffer[..n] == ReadFrom(old(mProvider.Contents()), bufSize)
    {
      n := mProvider.Read(buffer, bufSize);
    }
  }

  lemma ReadIsSlice(content: string, at: nat, size: nat)
    ensures var r := ReadFrom(File(content, at), size);
            if at >= |content| then r == "" else at + |r| <= |content| && r == content[at..at + |r|]
  {
  }

  // A reader that asks for any sizes it likes until there is no more
  method ReadToEnd(p: Provider, sizes: nat -> nat) returns (data: string)
    requires p.mProvider.Valid() && forall i :: sizes(i) > 0
    modifies p.mProvider`mOff
    ensures p.mProvider.Valid() && p.mProvider.mArray == old(p.mProvider.mArray)
    ensures data == if old(p.mProvider.mOff) <= |p.mProvider.mArray|
                    then p.mProvider.mArray[old(p.mProvider.mOff)..] else ""
  {
    data := "";
    ghost var content, start := p.mProvider.mArray, p.mProvider.mOff;
    var i := 0;
    while true
      invariant p.mProvider.Valid() && p.mProvider.mArray == content && start <= p.mProvider.mOff
      invariant start <= |content| ==> p.mProvider.mOff <= |content| && data == content[start..p.mProvider.mOff]
      invariant start > |content| ==> data == ""
      decreases |content| - p.mProvider.mOff
    {
      var buffer := new char[sizes(i)](_ => NUL);
      ghost var at := p.mProvider.mOff;
      var n := p.Read(buffer, sizes(i));
      if n == 0 {
        break;
      }
      assert buffer[..n] == ReadFrom(File(content, at), sizes(i));
      ReadIsSlice(content, at, sizes(i));
      data := data + buffer[..n];
      i := i + 1;
    }
  }

  // What the reader of the other end gets: the list, cut at the zero bytes.
  method ReadNames(filenames: seq<string>, sizes: nat -> nat) returns (names: seq<string>)
    requires forall i :: sizes(i) > 0
    ensures names == Pieces(Join(NonEmpty(filenames), [NUL]), NUL)
  {
    var p := new Provider(filenames);
    var data := ReadToEnd(p, sizes);
    names := Pieces(data, NUL);
  }

  // It is the list of the non-empty names if and only if there is one and none of them
  // holds a zero byte.
  lemma NamesExact(filenames: seq<string>)
    ensures Pieces(Join(NonEmpty(filenames), [NUL]), NUL) == NonEmpty(filenames)
       <==> NonEmpty(filenames) != [] && forall name :: name in NonEmpty(filenames) ==> NUL !in name
  {
    var names := NonEmpty(filenames);
    PiecesJoin(Join(names, [NUL]), NUL);
    if names != [] && forall name :: name in names ==> NUL !in name {
      PiecesOfJoin(names, NUL);
    }
  }

  // ---------- Names one by one

  lemma {:induction false} NonEmptyConcat(a: seq<string>, b: seq<string>)
    ensures NonEmpty(a + b) == NonEmpty(a) + NonEmpty(b)
  {
    if a == [] {
      assert a + b == b;
    } else {
      assert (a + b)[1..] == a[1..] + b;
      NonEmptyConcat(a[1..], b);
    }
  }

  // An empty name leaves no trace, and any two others have a zero byte between them.
  lemma TwoNamesExact(a: string, b: string)
    ensures Join(NonEmpty([a, b]), [NUL]) == if a == "" then b else if b == "" then a else a + ['\0'] + b
  {
    NonEmptyConcat([a], [b]);
    assert [a] + [b] == [a, b] && [a][1..] == [] && [b][1..] == [];
    assert [a, b][1..] == [b];
  }
}
