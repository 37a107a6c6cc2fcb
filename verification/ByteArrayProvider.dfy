// The data provider over a byte array (src/dataprovider.cpp), and what it is as a file.
// Bytes are characters here.

module ByteArrayProvider {
  import opened Text

  const NUL: char := '\0'

  // ---------- The abstract file

  datatype File = File(content: string, pos: nat)

  // The byte at a place; behind the end everything reads as zero.
  function At(content: string, i: nat): char {
    if i < |content| then content[i] else NUL
  }

  function Max(a: nat, b: nat): nat {
    if a >= b then a else b
  }

  // What writing data at pos means: those bytes change, and nothing else.
  ghost predicate IsWritten(content: string, pos: nat, data: string, after: string) {
    && |after| == (if data == "" then |content| else Max(|content|, pos + |data|))
    && (forall i: nat :: At(after, i) == if pos <= i < pos + |data| then data[i - pos] else At(content, i))
  }

  // It means one thing only.
  lemma WrittenOnce(content: string, pos: nat, data: string, a: string, b: string)
    requires IsWritten(content, pos, data, a) && IsWritten(content, pos, data, b)
    ensures a == b
  {
    forall i | 0 <= i < |a| ensures a[i] == b[i] {
      assert At(a, i) == At(b, i);
    }
  }

  function ReadFrom(f: File, n: nat): string {
    if f.pos >= |f.content| then ""
    else if f.pos + n <= |f.content| then f.content[f.pos..f.pos + n]
    else f.content[f.pos..]
  }

  datatype Whence = Set | Current | End | Unknown

  // The conversion of a 64-bit offset to int
  function ToInt32(n: int): (r: int)
    ensures -0x8000_0000 <= r < 0x8000_0000
    ensures -0x8000_0000 <= n < 0x8000_0000 ==> r == n
  {
    (n + 0x8000_0000) % 0x1_0000_0000 - 0x8000_0000
  }

  // ---------- The provider

  class Provider {
    var mArray: string
    var mOff: int

    // Where a negative seek does not leave it
    predicate Valid()
      reads this
    {
      mOff >= 0
    }

    function Contents(): File
      reads this
      requires Valid()
    {
      File(mArray, mOff)
    }

    constructor (initialData: string)
      ensures Valid() && Contents() == File(initialData, 0)
    {
      mArray, mOff := initialData, 0;
    }

    method Read(buffer: array?<char>, bufSize: nat) returns (n: int)
      requires Valid() && (buffer != null ==> bufSize <= buffer.Length)
      modifies this`mOff, buffer
      ensures Valid() && mArray == old(mArray)
      ensures bufSize > 0 && buffer == null ==> n == -1 && mOff == old(mOff)
      ensures bufSize == 0 ==> n == 0 && mOff == old(mOff)
      ensures bufSize > 0 && buffer != null ==>
                n == |ReadFrom(old(Contents()), bufSize)| && mOff == old(mOff) + n
      ensures buffer != null ==>
                && 0 <= n <= buffer.Length
                && buffer[..n] == ReadFrom(old(Contents()), bufSize)
                && buffer[n..] == old(buffer[..])[n..]
    {
      if bufSize == 0 {
        return 0;
      }
      if buffer == null {
        return -1;
      }
      if mOff >= |mArray| {
        return 0;
      }
      var amount := if bufSize <= |mArray| - mOff then bufSize else |mArray| - mOff;
      forall i | 0 <= i < amount {
        buffer[i] := mArray[mOff + i];
      }
      mOff := mOff + amount;
      n := amount;
    }

    // A write may not start inside the data and end behind it: the source asserts this.
    predicate Straddles(bufSize: nat)
      reads this
    {
      mOff < |mArray| < mOff + bufSize
    }

    method Write(buffer: array?<char>, bufSize: nat) returns (n: int)
      requires Valid() && (buffer != null ==> bufSize <= buffer.Length && !Straddles(bufSize))
      modifies this
      ensures Valid()
      ensures buffer == null && bufSize > 0 ==> n == -1 && unchanged(this)
      ensures bufSize == 0 ==> n == 0 && unchanged(this)
      ensures buffer != null ==> n == bufSize && mOff == old(mOff) + n
      ensures buffer != null ==> IsWritten(old(mArray), old(mOff), buffer[..bufSize], mArray)
    {
      if bufSize == 0 {
        return 0;
      }
      if buffer == null {
        return -1;
      }
      if mOff >= |mArray| {
        mArray := ResizeAndInit(mArray, mOff + bufSize);
      }
      ghost var before := mArray;
      mArray := mArray[..mOff] + buffer[..bufSize] + mArray[mOff + bufSize..];
      mOff := mOff + bufSize;
      n := bufSize;
    }

    method Seek(offset: int, whence: Whence) returns (r: int)
      modifies `mOff
      ensures whence == Unknown ==> r == -1 && mOff == old(mOff)
      ensures whence != Unknown ==>
                r == mOff == ToInt32(match whence
                                     case Set => offset
                                     case Current => ToInt32(old(mOff)) + offset
                                     case _ => |mArray| + offset)
    {
      var newOffset := ToInt32(mOff);
      match whence {
        case Set => newOffset := ToInt32(offset);
        case Current => newOffset := ToInt32(newOffset + offset);
        case End => newOffset := ToInt32(|mArray| + offset);
        case Unknown => return -1;
      }
      mOff := newOffset;
      r := mOff;
    }

    method Release()
      modifies `mArray
      ensures mArray == ""
    {
      mArray := "";
    }
  }

  // Longer, and zero where it is new
  method ResizeAndInit(ba: string, newSize: nat) returns (r: string)
    requires |ba| <= newSize
    ensures |r| == newSize && forall i: nat :: At(r, i) == At(ba, i)
  {
    r := ba + seq(newSize - |ba|, i => NUL);
  }

  // ---------- Whole runs

  datatype Op = Read(n: nat) | Write(data: string) | Seek(offset: int, whence: Whence)

  function Target(f: File, offset: int, whence: Whence): int {
    match whence
    case Set => offset
    case Current => f.pos + offset
    case _ => |f.content| + offset
  }

  // Seeks to a place below 2^31, and writes that do not straddle the end
  predicate Enabled(f: File, op: Op) {
    match op
    case Read(_) => true
    case Write(data) => !(f.pos < |f.content| < f.pos + |data|)
    case Seek(offset, whence) =>
      && (whence != Unknown ==> 0 <= Target(f, offset, whence) < 0x8000_0000)
      && (whence == Current ==> f.pos < 0x8000_0000)
  }

  // The file after a write: every byte is given by its place.
  function WriteTo(f: File, data: string): (g: File)
    ensures IsWritten(f.content, f.pos, data, g.content) && g.pos == f.pos + |data|
  {
    var size := if data == "" then |f.content| else Max(|f.content|, f.pos + |data|);
    File(seq(size, i requires 0 <= i < size =>
                     if f.pos <= i < f.pos + |data| then data[i - f.pos] else At(f.content, i)),
         f.pos + |data|)
  }

  function After(f: File, op: Op): File
    requires Enabled(f, op)
  {
    match op
    case Read(n) => f.(pos := f.pos + |ReadFrom(f, n)|)
    case Write(data) => WriteTo(f, data)
    case Seek(offset, whence) => if whence == Unknown then f else f.(pos := Target(f, offset, whence))
  }

  function AfterAll(f: File, ops: seq<Op>): File
    decreases |ops|
  {
    if ops == [] then f
    else AfterAll(if Enabled(f, ops[0]) then After(f, ops[0]) else f, ops[1..])
  }

  // The data that the reads of a run return
  function AllRead(f: File, ops: seq<Op>): string
    decreases |ops|
  {
    if ops == [] then ""
    else if !Enabled(f, ops[0]) then AllRead(f, ops[1..])
    else (if ops[0].Read? then ReadFrom(f, ops[0].n) else "") + AllRead(After(f, ops[0]), ops[1..])
  }

  method Step(p: Provider, op: Op) returns (data: string)
    requires p.Valid() && Enabled(p.Contents(), op)
    modifies p
    ensures p.Valid() && p.Contents() == After(old(p.Contents()), op)
    ensures data == if op.Read? then ReadFrom(old(p.Contents()), op.n) else ""
  {
    data := "";
    match op
    case Read(n) =>
      var buffer := new char[n](_ => NUL);
      var got := p.Read(buffer, n);
      data := buffer[..got];
    case Write(text) =>
      var buffer := new char[|text|](i requires 0 <= i < |text| => text[i]);
      assert buffer[..|text|] == text;
      ghost var f := p.Contents();
      var _ := p.Write(buffer, |text|);
      WrittenOnce(f.content, f.pos, text, p.mArray, WriteTo(f, text).content);
    case Seek(offset, whence) =>
      var _ := p.Seek(offset, whence);
  }

  // In every run the provider behaves as the file.
  method Run(p: Provider, ops: seq<Op>) returns (data: string)
    requires p.Valid()
    modifies p
    ensures p.Valid() && p.Contents() == AfterAll(old(p.Contents()), ops)
    ensures data == AllRead(old(p.Contents()), ops)
  {
    data := "";
    ghost var start := p.Contents();
    var i := 0;
    while i < |ops|
      invariant 0 <= i <= |ops| && p.Valid()
      invariant AfterAll(p.Contents(), ops[i..]) == AfterAll(start, ops)
      invariant data + AllRead(p.Contents(), ops[i..]) == AllRead(start, ops)
    {
      assert ops[i..][0] == ops[i] && ops[i..][1..] == ops[i + 1..];
      if Allowed(p, ops[i]) {
        ghost var f := p.Contents();
        var more := Step(p, ops[i]);
        ConcatAssociates(data, more, AllRead(After(f, ops[i]), ops[i + 1..]));
        data := data + more;
      }
      i := i + 1;
    }
    assert data + "" == data;
  }

  predicate Allowed(p: Provider, op: Op)
    reads p
    requires p.Valid()
  {
    Enabled(p.Contents(), op)
  }

  // What is written comes back: after a seek to where it was written, reading gives it.
  lemma WriteThenRead(f: File, data: string)
    ensures var g := WriteTo(f, data);
            ReadFrom(g.(pos := f.pos), |data|) == data
  {
    var g := WriteTo(f, data);
    var r := ReadFrom(g.(pos := f.pos), |data|);
    if data != "" {
      forall i | 0 <= i < |data| ensures r[i] == data[i] {
        assert At(g.content, f.pos + i) == data[i];
      }
    }
  }

  // ---------- Reading and seeking, by places

  // Reading takes what there is, up to the size, byte by byte.
  lemma ReadExact(f: File, n: nat)
    ensures var r := ReadFrom(f, n);
            && |r| == (if f.pos >= |f.content| then 0 else if f.pos + n <= |f.content| then n else |f.content| - f.pos)
            && forall i: nat :: i < |r| ==> r[i] == At(f.content, f.pos + i)
  {
  }

  // Going to the start, all is read; going back as far as was read, the same is read again; going
  // to the end less some bytes, the last ones are read.
  lemma SeekExact(f: File, n: nat)
    requires f.pos + n <= |f.content| < 0x8000_0000
    ensures Enabled(f, Seek(0, Set)) && ReadFrom(After(f, Seek(0, Set)), |f.content|) == f.content
    ensures var g := After(f, Read(n));
            && Enabled(g, Seek(-(n as int), Current))
            && ReadFrom(After(g, Seek(-(n as int), Current)), n) == ReadFrom(f, n) == f.content[f.pos..f.pos + n]
    ensures Enabled(f, Seek(-(n as int), End))
         && ReadFrom(After(f, Seek(-(n as int), End)), n) == f.content[|f.content| - n..]
  {
  }
}
