/**
 The network buffer: a growable array with a readable region that compacts in place,
 and integers in network byte order on top of it. The buffer refines the sequence of
 its readable bytes.
 */
module Buffer {

  type Byte = b: int | 0 <= b < 0x100
  type Bytes = seq<Byte>

  type Int16 = x: int | -0x8000 <= x < 0x8000
  type Int32 = x: int | -0x8000_0000 <= x < 0x8000_0000
  type UInt16 = x: int | 0 <= x < 0x1_0000
  type UInt32 = x: int | 0 <= x < 0x1_0000_0000

  // ---- Network byte order ----

  function Be16(u: UInt16): (b: Bytes)
    ensures |b| == 2
  {
    [u / 0x100, u % 0x100]
  }

  function Be32(u: UInt32): (b: Bytes)
    ensures |b| == 4
  {
    Be16(u / 0x1_0000) + Be16(u % 0x1_0000)
  }

  function AsUInt16(b: Bytes): UInt16
    requires |b| >= 2
  {
    b[0] as int * 0x100 + b[1] as int
  }

  function AsUInt32(b: Bytes): UInt32
    requires |b| >= 4
  {
    AsUInt16(b) as int * 0x1_0000 + AsUInt16(b[2..]) as int
  }

  /** The two's-complement reading of a word, and its inverse. */
  function Signed32(u: UInt32): Int32 {
    if u < 0x8000_0000 then u else u - 0x1_0000_0000
  }

  function Unsigned32(x: Int32): UInt32 {
    if x >= 0 then x else x + 0x1_0000_0000
  }

  function Signed16(u: UInt16): Int16 {
    if u < 0x8000 then u else u - 0x1_0000
  }

  function Unsigned16(x: Int16): UInt16 {
    if x >= 0 then x else x + 0x1_0000
  }

  function Net32(x: Int32): (b: Bytes)
    ensures |b| == 4
  {
    Be32(Unsigned32(x))
  }

  function Net16(x: Int16): (b: Bytes)
    ensures |b| == 2
  {
    Be16(Unsigned16(x))
  }

  function Host32(b: Bytes): Int32
    requires |b| >= 4
  {
    Signed32(AsUInt32(b))
  }

  function Host16(b: Bytes): Int16
    requires |b| >= 2
  {
    Signed16(AsUInt16(b))
  }

  lemma Be16RoundTrip(u: UInt16, rest: Bytes)
    ensures AsUInt16(Be16(u) + rest) == u
  {
  }

  lemma Be32RoundTrip(u: UInt32, rest: Bytes)
    ensures AsUInt32(Be32(u) + rest) == u
  {
    var b := Be32(u) + rest;
    assert b[2..] == Be16(u % 0x1_0000) + rest;
    Be16RoundTrip(u % 0x1_0000, rest);
    assert b == Be16(u / 0x1_0000) + (Be16(u % 0x1_0000) + rest);
    Be16RoundTrip(u / 0x1_0000, Be16(u % 0x1_0000) + rest);
  }

  /** What was written as an integer reads back as that integer, whatever follows it. */
  lemma Net32RoundTrip(x: Int32, rest: Bytes)
    ensures Host32(Net32(x) + rest) == x && (Net32(x) + rest)[4..] == rest
  {
    Be32RoundTrip(Unsigned32(x), rest);
  }

  lemma Net16RoundTrip(x: Int16, rest: Bytes)
    ensures Host16(Net16(x) + rest) == x && (Net16(x) + rest)[2..] == rest
  {
    Be16RoundTrip(Unsigned16(x), rest);
  }

  /** And any four bytes are what their integer is written as. */
  lemma Host32RoundTrip(b: Bytes)
    requires |b| == 4
    ensures Net32(Host32(b)) == b
  {
    var hi, lo := AsUInt16(b), AsUInt16(b[2..]);
    var u := AsUInt32(b);
    assert u / 0x1_0000 == hi && u % 0x1_0000 == lo;
    assert Be16(hi) == b[..2] && Be16(lo) == b[2..];
  }

  /** The most significant byte comes first, and negative numbers are two's complement. */
  lemma BytesOf32(x: Int32)
    ensures var b := Net32(x);
            |b| == 4 && b[0] as int * 0x100_0000 + b[1] as int * 0x1_0000 + b[2] as int * 0x100 + b[3] as int ==
                        if x < 0 then x + 0x1_0000_0000 else x
  {
    var u := Unsigned32(x);
    var hi, lo := u / 0x1_0000, u % 0x1_0000;
    assert Be32(u) == [hi / 0x100, hi % 0x100, lo / 0x100, lo % 0x100];
  }

  lemma BytesOf16(x: Int16)
    ensures var b := Net16(x);
            |b| == 2 && b[0] as int * 0x100 + b[1] as int == if x < 0 then x + 0x1_0000 else x
  {
    var u := Unsigned16(x);
    assert Be16(u) == [u / 0x100, u % 0x100];
  }

  // ---- The buffer ----

  const CHEAP_PREPEND := 8
  const INITIAL_SIZE := 1024

  class NetBuffer {
    var data: array<Byte>
    var readerIndex: nat
    var writerIndex: nat

    ghost predicate Valid()
      reads this
    {
      && CHEAP_PREPEND <= data.Length && readerIndex <= writerIndex <= data.Length
      && (readerIndex == writerIndex ==> readerIndex == CHEAP_PREPEND)
    }

    /** The readable bytes. */
    ghost function Content(): Bytes
      reads this, data
      requires Valid()
    {
      data[readerIndex..writerIndex]
    }

    constructor ()
      ensures Valid() && fresh(data) && Content() == []
      ensures readerIndex == CHEAP_PREPEND && WritableBytes() == INITIAL_SIZE
    {
      data := new Byte[CHEAP_PREPEND + INITIAL_SIZE](_ => 0);
      readerIndex, writerIndex := CHEAP_PREPEND, CHEAP_PREPEND;
    }

    function ReadableBytes(): nat
      reads this
      requires Valid()
    {
      writerIndex - readerIndex
    }

    function WritableBytes(): nat
      reads this
      requires Valid()
    {
      data.Length - writerIndex
    }

    function PrependableBytes(): nat
      reads this
    {
      readerIndex
    }

    /** Makes room for `len` bytes, by growing or by moving the readable bytes down. */
    method MakeSpace(len: nat)
      requires Valid() && WritableBytes() < len
      modifies this, data
      ensures Valid() && (data == old(data) || fresh(data))
      ensures Content() == old(Content()) && WritableBytes() >= len
      ensures readerIndex == old(readerIndex) || readerIndex == CHEAP_PREPEND
      ensures if old(WritableBytes()) + old(PrependableBytes()) < len + CHEAP_PREPEND
              then fresh(data) && readerIndex == old(readerIndex) && WritableBytes() == len
              else data == old(data) && readerIndex == CHEAP_PREPEND
    {
      ghost var content := Content();
      if WritableBytes() + PrependableBytes() < len + CHEAP_PREPEND {
        var grown := new Byte[writerIndex + len](i reads this, data =>
          if 0 <= i < data.Length then data[i] else 0);
        data := grown;
      } else {
        assert CHEAP_PREPEND < readerIndex;
        var readable := ReadableBytes();
        forall i | 0 <= i < readable {
          data[CHEAP_PREPEND + i] := data[readerIndex + i];
        }
        readerIndex := CHEAP_PREPEND;
        writerIndex := readerIndex + readable;
      }
      assert Content() == content;
    }

    method EnsureWritableBytes(len: nat)
      requires Valid()
      modifies this, data
      ensures Valid() && (data == old(data) || fresh(data))
      ensures Content() == old(Content()) && WritableBytes() >= len
      ensures readerIndex == old(readerIndex) || readerIndex == CHEAP_PREPEND
    {
      if WritableBytes() < len {
        MakeSpace(len);
      }
    }

    method Append(bytes: Bytes)
      requires Valid()
      modifies this, data
      ensures Valid() && (data == old(data) || fresh(data))
      ensures Content() == old(Content()) + bytes
      ensures readerIndex == old(readerIndex) || readerIndex == CHEAP_PREPEND
    {
      EnsureWritableBytes(|bytes|);
      AppendWithin(bytes);
    }

    /** Writes in front of the readable bytes; the source demands that there is room. */
    method Prepend(bytes: Bytes)
      requires Valid() && |bytes| <= PrependableBytes()
      modifies this, data
      ensures Valid() && data == old(data) && writerIndex == old(writerIndex)
      ensures Content() == bytes + old(Content())
    {
      ghost var content := Content();
      readerIndex := readerIndex - |bytes|;
      forall i | 0 <= i < |bytes| {
        data[readerIndex + i] := bytes[i];
      }
      var mid := readerIndex + |bytes|;
      assert data[readerIndex..mid] == bytes && data[mid..writerIndex] == content;
      assert Content() == data[readerIndex..mid] + data[mid..writerIndex];
    }

    method RetrieveAll()
      requires data.Length >= CHEAP_PREPEND
      modifies this
      ensures Valid() && data == old(data) && Content() == []
    {
      readerIndex, writerIndex := CHEAP_PREPEND, CHEAP_PREPEND;
    }

    /** Drops bytes from the front; emptying the buffer resets it. */
    method Retrieve(len: nat)
      requires Valid() && len <= ReadableBytes()
      modifies this
      ensures Valid() && data == old(data)
      ensures Content() == old(Content())[len..]
    {
      if len < ReadableBytes() {
        readerIndex := readerIndex + len;
      } else {
        RetrieveAll();
      }
    }

    method RetrieveAsString(len: nat) returns (s: Bytes)
      requires Valid() && len <= ReadableBytes()
      modifies this
      ensures Valid() && data == old(data)
      ensures s + Content() == old(Content()) && |s| == len
    {
      s := data[readerIndex..readerIndex + len];
      Retrieve(len);
    }

    // ---- Integers in network byte order ----

    method AppendInt32(x: Int32)
      requires Valid()
      modifies this, data
      ensures Valid() && (data == old(data) || fresh(data))
      ensures Content() == old(Content()) + Net32(x)
      ensures readerIndex == old(readerIndex) || readerIndex == CHEAP_PREPEND
    {
      Append(Net32(x));
    }

    method AppendInt16(x: Int16)
      requires Valid()
      modifies this, data
      ensures Valid() && (data == old(data) || fresh(data))
      ensures Content() == old(Content()) + Net16(x)
      ensures readerIndex == old(readerIndex) || readerIndex == CHEAP_PREPEND
    {
      Append(Net16(x));
    }

    method PrependInt32(x: Int32)
      requires Valid() && 4 <= PrependableBytes()
      modifies this, data
      ensures Valid() && data == old(data) && Content() == Net32(x) + old(Content())
    {
      Prepend(Net32(x));
    }

    method PeekInt32() returns (x: Int32)
      requires Valid() && ReadableBytes() >= 4
      ensures x == Host32(Content())
    {
      x := Host32(data[readerIndex..writerIndex]);
    }

    /** Reading takes exactly the bytes that the integer read is written as. */
    method ReadInt32() returns (x: Int32)
      requires Valid() && ReadableBytes() >= 4
      modifies this
      ensures Valid() && data == old(data)
      ensures old(Content()) == Net32(x) + Content()
    {
      ghost var content := Content();
      x := PeekInt32();
      Retrieve(4);
      var head := content[..4];
      assert content == head + content[4..];
      Host32RoundTrip(head);
      assert Host32(content) == Host32(head) by {
        assert content[2..][..2] == head[2..];
      }
    }

    method PeekInt16() returns (x: Int16)
      requires Valid() && ReadableBytes() >= 2
      ensures x == Host16(Content())
    {
      x := Host16(data[readerIndex..writerIndex]);
    }

    method ReadInt16() returns (x: Int16)
      requires Valid() && ReadableBytes() >= 2
      modifies this
      ensures Valid() && data == old(data)
      ensures old(Content()) == Net16(x) + Content()
    {
      ghost var content := Content();
      x := PeekInt16();
      Retrieve(2);
      assert content == content[..2] + content[2..];
      assert Net16(x) == content[..2];
    }

    /** Re-allocates with just the readable bytes and `reserve` more; nothing readable changes. */
    method Shrink(reserve: nat)
      requires Valid()
      modifies this, data
      ensures Valid() && fresh(data)
      ensures Content() == old(Content()) && WritableBytes() >= reserve
    {
      var other := new NetBuffer();
      other.EnsureWritableBytes(ReadableBytes() + reserve);
      other.AppendWithin(data[readerIndex..writerIndex]);
      data, readerIndex, writerIndex := other.data, other.readerIndex, other.writerIndex;
    }

    /** Append when there is room already: nothing moves and nothing is allocated. */
    method AppendWithin(bytes: Bytes)
      requires Valid() && |bytes| <= WritableBytes()
      modifies this, data
      ensures Valid() && data == old(data) && readerIndex == old(readerIndex)
      ensures Content() == old(Content()) + bytes && WritableBytes() == old(WritableBytes()) - |bytes|
    {
      ghost var content := Content();
      forall i | 0 <= i < |bytes| {
        data[writerIndex + i] := bytes[i];
      }
      assert data[readerIndex..writerIndex] == content;
      assert data[writerIndex..writerIndex + |bytes|] == bytes;
      writerIndex := writerIndex + |bytes|;
      assert Content() == data[readerIndex..writerIndex - |bytes|] + data[writerIndex - |bytes|..writerIndex];
    }
  }
}
