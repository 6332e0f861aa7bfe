/** Buffered byte streams as fast forms of a plain one: reading from a file, reading from an input
    stream, and writing to a file. */
module BufferedStreams {
  import opened Encodings

  function Min(a: nat, b: nat): nat {
    if a < b then a else b
  }

  /** An open file: its bytes and how many were read. */
  class SourceFile {
    const bytes: seq<Byte>
    var position: nat

    constructor (bytes: seq<Byte>)
      ensures this.bytes == bytes && position == 0
    {
      this.bytes, this.position := bytes, 0;
    }

    /** fread, and the read and gcount of an input stream: as many bytes as there are, up to n. */
    method Read(buffer: array<Byte>, n: nat) returns (count: nat)
      requires position <= |bytes| && n <= buffer.Length
      modifies this, buffer
      ensures count == Min(n, |bytes| - old(position)) && position == old(position) + count
      ensures buffer[..count] == bytes[old(position)..position]
    {
      count := Min(n, |bytes| - position);
      var i := 0;
      while i < count
        invariant i <= count && position == old(position) && buffer[..i] == bytes[position..position + i]
      {
        buffer[i] := bytes[position + i];
        i := i + 1;
      }
      position := position + count;
    }
  }

  class FileReadStream {
    const fp: SourceFile
    const buffer: array<Byte>
    var bufferLast: int
    var current: nat
    var readCount: nat
    var count: nat
    var eof: bool

    /** The buffer holds the part of the file that starts at `count`; at the end of the file a zero
        stands behind it. */
    ghost predicate Valid()
      reads this, fp, buffer
    {
      && buffer.Length >= 4
      && count + readCount == fp.position <= |fp.bytes|
      && readCount <= buffer.Length
      && buffer[..readCount] == fp.bytes[count..count + readCount]
      && current <= bufferLast
      && (if eof then fp.position == |fp.bytes| && readCount < buffer.Length && bufferLast == readCount
                      && buffer[readCount] == 0
          else readCount == buffer.Length && bufferLast == readCount - 1)
    }

    constructor (fp: SourceFile, buffer: array<Byte>)
      requires fp.position == 0 && buffer.Length >= 4
      modifies fp, buffer
      ensures this.fp == fp && this.buffer == buffer && Valid() && Tell() == 0
    {
      this.fp, this.buffer := fp, buffer;
      bufferLast, current, readCount, count, eof := -1, 0, 0, 0, false;
      new;
      Read();
    }

    /** The byte at the read position of the file, zero at its end. */
    function Peek(): (c: Byte)
      requires Valid()
      reads this, fp, buffer
      ensures c == At(fp.bytes, Tell())
    {
      assert current < readCount ==> buffer[..readCount][current] == fp.bytes[count..count + readCount][current];
      buffer[current]
    }

    function Tell(): (position: nat)
      requires Valid()
      reads this, fp, buffer
      ensures position <= |fp.bytes|
    {
      count + current
    }

    /** Delivers the byte at the read position and moves past it, but never past the end. */
    method Take() returns (c: Byte)
      requires Valid()
      modifies this, fp, buffer
      ensures Valid() && c == At(fp.bytes, old(Tell())) && Tell() == Min(old(Tell()) + 1, |fp.bytes|)
    {
      c := Peek();
      Read();
    }

    method Read()
      requires Valid() || (buffer.Length >= 4 && !eof && current == 0 && bufferLast == -1 && readCount == 0
                           && count == 0 && fp.position == 0)
      modifies this, fp, buffer
      ensures Valid()
      ensures old(Valid()) ==> Tell() == Min(old(Tell()) + 1, |fp.bytes|)
      ensures !old(Valid()) ==> Tell() == 0
    {
      if current < bufferLast {
        current := current + 1;
      } else if !eof {
        Refill();
      }
    }

    /** The next part of the file; behind its end, a zero. */
    method Refill()
      requires buffer.Length >= 4 && !eof && count + readCount == fp.position <= |fp.bytes|
      modifies this, fp, buffer
      ensures Valid() && Tell() == old(count + readCount)
    {
      count := count + readCount;
      readCount := fp.Read(buffer, buffer.Length);
      bufferLast := readCount - 1;
      current := 0;
      if readCount < buffer.Length {
        buffer[readCount] := 0;
        bufferLast := bufferLast + 1;
        eof := true;
        assert buffer[..readCount] == fp.bytes[count..count + readCount];
      }
    }

    /** Non-null exactly when the buffer still holds four bytes of the file from here on; these are
        the next four bytes. */
    method Peek4() returns (p: Option<nat>)
      requires Valid()
      ensures p.Some? <==> current + 4 <= readCount
      ensures p.Some? ==> p.value + 4 <= buffer.Length && Tell() + 4 <= |fp.bytes|
                          && buffer[p.value..p.value + 4] == fp.bytes[Tell()..Tell() + 4]
    {
      if current + 4 - (if eof then 0 else 1) <= bufferLast {
        p := Some(current);
        SubSlice(buffer[..], 0, readCount, current, current + 4);
        SubSlice(fp.bytes, count, count + readCount, current, current + 4);
      } else {
        p := None;
      }
    }
  }

  lemma SubSlice<T>(s: seq<T>, a: nat, b: nat, i: nat, j: nat)
    requires a <= b <= |s| && i <= j <= b - a
    ensures s[a..b][i..j] == s[a + i..a + j]
  {
    assert forall k | 0 <= k < j - i :: s[a..b][i..j][k] == s[a..b][i + k] == s[a + i + k];
  }

  /** The same interface over an input stream whose read reports failure when it got too little. */
  class IStreamWrapper {
    const stream: SourceFile
    const buffer: array<Byte>
    var bufferLast: int
    var current: nat
    var readCount: nat
    var count: nat
    var eof: bool

    ghost predicate Valid()
      reads this, stream, buffer
    {
      && buffer.Length >= 4
      && count + readCount == stream.position <= |stream.bytes|
      && readCount <= buffer.Length
      && buffer[..readCount] == stream.bytes[count..count + readCount]
      && current <= bufferLast
      && (if eof then stream.position == |stream.bytes| && readCount < buffer.Length && bufferLast == readCount
                      && buffer[readCount] == 0
          else readCount == buffer.Length && bufferLast == readCount - 1)
    }

    constructor (stream: SourceFile, buffer: array<Byte>)
      requires stream.position == 0 && buffer.Length >= 4
      modifies stream, buffer
      ensures this.stream == stream && this.buffer == buffer && Valid() && Tell() == 0
    {
      this.stream, this.buffer := stream, buffer;
      bufferLast, current, readCount, count, eof := -1, 0, 0, 0, false;
      new;
      Read();
    }

    /** The wrapper's own four-byte buffer. */
    constructor WithOwnBuffer(stream: SourceFile)
      requires stream.position == 0
      modifies stream
      ensures this.stream == stream && fresh(buffer) && Valid() && Tell() == 0
    {
      this.stream, this.buffer := stream, new Byte[4];
      bufferLast, current, readCount, count, eof := -1, 0, 0, 0, false;
      new;
      Read();
    }

    function Peek(): (c: Byte)
      requires Valid()
      reads this, stream, buffer
      ensures c == At(stream.bytes, Tell())
    {
      assert current < readCount ==> buffer[..readCount][current] == stream.bytes[count..count + readCount][current];
      buffer[current]
    }

    function Tell(): (position: nat)
      requires Valid()
      reads this, stream, buffer
      ensures position <= |stream.bytes|
    {
      count + current
    }

    method Take() returns (c: Byte)
      requires Valid()
      modifies this, stream, buffer
      ensures Valid() && c == At(stream.bytes, old(Tell())) && Tell() == Min(old(Tell()) + 1, |stream.bytes|)
    {
      c := Peek();
      Read();
    }

    method Read()
      requires Valid() || (buffer.Length >= 4 && !eof && current == 0 && bufferLast == -1 && readCount == 0
                           && count == 0 && stream.position == 0)
      modifies this, stream, buffer
      ensures Valid()
      ensures old(Valid()) ==> Tell() == Min(old(Tell()) + 1, |stream.bytes|)
      ensures !old(Valid()) ==> Tell() == 0
    {
      if current < bufferLast {
        current := current + 1;
      } else if !eof {
        Refill();
      }
    }

    method Refill()
      requires buffer.Length >= 4 && !eof && count + readCount == stream.position <= |stream.bytes|
      modifies this, stream, buffer
      ensures Valid() && Tell() == old(count + readCount)
    {
      count := count + readCount;
      readCount := buffer.Length;
      bufferLast := readCount - 1;
      current := 0;
      var got := stream.Read(buffer, buffer.Length);
      if got != buffer.Length {
        readCount := got;
        bufferLast := readCount;
        buffer[readCount] := 0;
        eof := true;
        assert buffer[..readCount] == stream.bytes[count..count + readCount];
      }
    }
  }

  /** The plain stream: byte i of the file, or zero past its end. */
  function PlainTakes(bytes: seq<Byte>, n: nat): seq<Byte> {
    seq(n, i requires 0 <= i < n => At(bytes, i))
  }

  lemma PlainTakesAppend(bytes: seq<Byte>, n: nat)
    ensures PlainTakes(bytes, n + 1) == PlainTakes(bytes, n) + [At(bytes, Min(n, |bytes|))]
  {
  }

  /** n Takes deliver the first n bytes and zeros past the end, and Tell stops at the length of the file,
      whatever the size of the buffer. */
  method TakeFromFile(bytes: seq<Byte>, size: nat, n: nat) returns (taken: seq<Byte>, position: nat)
    requires size >= 4
    ensures taken == PlainTakes(bytes, n) && position == Min(n, |bytes|)
  {
    var file := new SourceFile(bytes);
    var buffer := new Byte[size];
    var stream := new FileReadStream(file, buffer);
    taken := [];
    var i := 0;
    while i < n
      invariant i <= n && stream.Valid() && stream.fp == file && stream.buffer == buffer && file.bytes == bytes
      invariant stream.Tell() == Min(i, |bytes|) && taken == PlainTakes(bytes, i)
    {
      var c := stream.Take();
      PlainTakesAppend(bytes, i);
      taken, i := taken + [c], i + 1;
    }
    position := stream.Tell();
  }

  method TakeFromWrapper(bytes: seq<Byte>, size: nat, n: nat) returns (taken: seq<Byte>, position: nat)
    requires size >= 4
    ensures taken == PlainTakes(bytes, n) && position == Min(n, |bytes|)
  {
    var source := new SourceFile(bytes);
    var buffer := new Byte[size];
    var stream := new IStreamWrapper(source, buffer);
    taken := [];
    var i := 0;
    while i < n
      invariant i <= n && stream.Valid() && stream.stream == source && stream.buffer == buffer && source.bytes == bytes
      invariant stream.Tell() == Min(i, |bytes|) && taken == PlainTakes(bytes, i)
    {
      var c := stream.Take();
      PlainTakesAppend(bytes, i);
      taken, i := taken + [c], i + 1;
    }
    position := stream.Tell();
  }

  // ------------------------------------------------------------------ writing

  class SinkFile {
    var bytes: seq<Byte>

    constructor ()
      ensures bytes == []
    {
      bytes := [];
    }

    method Write(bs: seq<Byte>)
      modifies this
      ensures bytes == old(bytes) + bs
    {
      bytes := bytes + bs;
    }
  }

  class FileWriteStream {
    const fp: SinkFile
    const buffer: array<Byte>
    var current: nat

    ghost predicate Valid()
      reads this
    {
      buffer.Length > 0 && current <= buffer.Length
    }

    /** Everything put so far: what the file has and what the buffer holds back. */
    ghost function Written(): seq<Byte>
      requires Valid()
      reads this, fp, buffer
    {
      fp.bytes + buffer[..current]
    }

    constructor (fp: SinkFile, buffer: array<Byte>)
      requires buffer.Length > 0
      ensures this.fp == fp && this.buffer == buffer && Valid() && Written() == fp.bytes
    {
      this.fp, this.buffer, current := fp, buffer, 0;
    }

    method Put(c: Byte)
      requires Valid()
      modifies this, fp, buffer
      ensures Valid() && Written() == old(Written()) + [c]
    {
      if current >= buffer.Length {
        Flush();
      }
      ghost var before := Written();
      buffer[current] := c;
      current := current + 1;
      assert buffer[..current] == buffer[..current - 1] + [c];
    }

    /** n copies of a byte.  The loop ends even when it starts with a full buffer: that round writes
        nothing but empties the buffer. */
    method PutN(c: Byte, n: nat)
      requires Valid()
      modifies this, fp, buffer
      ensures Valid() && Written() == old(Written()) + Copies(c, n)
    {
      var left, avail := n, buffer.Length - current;
      assert Written() == old(Written()) + Copies(c, 0);
      while left > avail
        invariant Valid() && 0 <= left <= n && avail == buffer.Length - current
        invariant Written() == old(Written()) + Copies(c, n - left)
        decreases left, if avail == 0 then 1 else 0
      {
        Fill(c, avail);
        Flush();
        CopiesAppend(old(Written()), c, n - left, avail);
        left := left - avail;
        avail := buffer.Length - current;
      }
      if left > 0 {
        Fill(c, left);
        CopiesAppend(old(Written()), c, n - left, left);
      }
    }

    /** The memset, and the move of the write position. */
    method Fill(c: Byte, n: nat)
      requires Valid() && current + n <= buffer.Length
      modifies this, buffer
      ensures Valid() && current == old(current) + n && Written() == old(Written()) + Copies(c, n)
    {
      var i := 0;
      while i < n
        invariant i <= n && current == old(current) && fp.bytes == old(fp.bytes)
        invariant buffer[..current + i] == old(buffer[..current]) + Copies(c, i)
      {
        buffer[current + i] := c;
        i := i + 1;
      }
      current := current + n;
    }

    method Flush()
      requires Valid()
      modifies this, fp
      ensures Valid() && current == 0 && fp.bytes == old(Written()) && Written() == old(Written())
    {
      if current != 0 {
        fp.Write(buffer[..current]);
        current := 0;
      }
    }
  }

  function Copies(c: Byte, n: nat): seq<Byte> {
    seq(n, _ => c)
  }

  lemma CopiesAppend(s: seq<Byte>, c: Byte, m: nat, n: nat)
    ensures s + Copies(c, m) + Copies(c, n) == s + Copies(c, m + n)
  {
    ConcatAssoc(s, Copies(c, m), Copies(c, n));
    assert Copies(c, m) + Copies(c, n) == Copies(c, m + n);
  }
}
