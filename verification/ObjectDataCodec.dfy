/**
 The codec object: fills an empty buffer with the frame of its registered attributes
 and parses frames back into them.
 */
module ObjectDataCodec {
  import opened Sequences
  import opened Buffer
  import opened Codec

  datatype ErrorCode = NoError | BadLength | MarshalError

  class PlayerCodec {
    var attrs: seq<Attr>   // the registration map in key order

    ghost predicate Valid() reads this {
      Registered(attrs)
    }

    constructor ()
      ensures Valid() && attrs == []
    {
      attrs := [];
    }

    /** Registers an attribute under a type that is not registered yet. */
    method RegisterAttr(a: Attr)
      requires Valid() && forall i :: 0 <= i < |attrs| ==> attrs[i].ty != a.ty
      modifies this
      ensures Valid()
      ensures exists p :: 0 <= p <= |old(attrs)| && attrs == Spliced(old(attrs), p, a)
    {
      var p := 0;
      while p < |attrs| && attrs[p].ty < a.ty
        invariant p <= |attrs| && forall i :: 0 <= i < p ==> attrs[i].ty < a.ty
      {
        p := p + 1;
      }
      ghost var before := attrs;
      attrs := Spliced(attrs, p, a);
      forall i, j | 0 <= i < j < |attrs| ensures attrs[i].ty < attrs[j].ty {
        if i == p && p < j - 1 {
          assert before[p].ty < before[j - 1].ty;
        }
      }
    }

    /** Appends one record; stops after the type when Marshal fails. */
    method AppendRecord(buf: NetBuffer, a: Attr) returns (ok: bool)
      requires buf.Valid()
      modifies buf, buf.data
      ensures buf.Valid() && (buf.data == old(buf.data) || fresh(buf.data))
      ensures buf.readerIndex == old(buf.readerIndex) || buf.readerIndex == CHEAP_PREPEND
      ensures ok == a.marshals
      ensures buf.Content() == old(buf.Content()) + if ok then Record(a) else Be16(a.ty)
    {
      ghost var content := buf.Content();
      buf.AppendInt16(Signed16(a.ty));
      if !a.marshals {
        return false;
      }
      var size := |a.content| % 0x1_0000_0000;
      buf.AppendInt32(Signed32(size));
      buf.EnsureWritableBytes(|a.content|);
      buf.Append(a.content);
      Joined(content, Be16(a.ty), Be32(size), a.content);
      return true;
    }

    /** Appends the records up to the first attribute that does not marshal. */
    method AppendRecords(buf: NetBuffer, ghost head: Bytes) returns (ok: bool)
      requires buf.Valid() && buf.readerIndex == CHEAP_PREPEND && buf.Content() == head
      modifies buf, buf.data
      ensures buf.Valid() && buf.readerIndex == CHEAP_PREPEND && (buf.data == old(buf.data) || fresh(buf.data))
      ensures ok <==> AllMarshal(attrs)
      ensures ok ==> buf.Content() == head + Records(attrs, |attrs|)
      ensures !ok ==> Stopped(attrs, head, buf.Content())
    {
      for i := 0 to |attrs|
        invariant buf.Valid() && (buf.data == old(buf.data) || fresh(buf.data))
        invariant buf.readerIndex == CHEAP_PREPEND
        invariant forall j :: 0 <= j < i ==> attrs[j].marshals
        invariant buf.Content() == head + Records(attrs, i)
      {
        ok := AppendRecord(buf, attrs[i]);
        if !ok {
          OneMore(head, Records(attrs, i), Be16(attrs[i].ty));
          assert CutOff(attrs, i, head, buf.Content());
          return;
        }
        OneMore(head, Records(attrs, i), Record(attrs[i]));
      }
      ok := true;
    }

    method PrependLength(buf: NetBuffer)
      requires buf.Valid() && buf.readerIndex == CHEAP_PREPEND && buf.Content() == Body(attrs)
      modifies buf, buf.data
      ensures buf.Valid() && buf.Content() == Frame(attrs)
    {
      var total := buf.ReadableBytes() % 0x1_0000_0000;
      buf.Prepend(Net32(Signed32(total)));
    }

    /**
     Writes the whole frame, or stops at the first attribute that does not marshal, with
     all up to its type written and no length in front.
     */
    method FillEmptyBuffer(buf: NetBuffer) returns (err: ErrorCode)
      requires Valid() && buf.Valid() && buf.ReadableBytes() == 0
      modifies buf, buf.data
      ensures buf.Valid() && err in {NoError, MarshalError}
      ensures err == NoError <==> AllMarshal(attrs)
      ensures err == NoError ==> buf.Content() == Frame(attrs)
      ensures err == MarshalError ==> Stopped(attrs, Be16(|attrs| % TYPES), buf.Content())
    {
      var count := |attrs| % TYPES;
      buf.AppendInt16(Signed16(count));
      assert buf.Content() == Be16(count);
      var ok := AppendRecords(buf, Be16(count));
      if !ok {
        return MarshalError;
      }
      PrependLength(buf);
      return NoError;
    }

    /**
     Parses a frame into the registered attributes. The source asserts that the frame
     is well formed and that every type is registered.
     */
    method ParseObjectData(b: Bytes) returns (err: ErrorCode)
      requires Valid() && !Parse(attrs, b).Aborted?
      modifies this
      ensures err in {NoError, BadLength} && (err == BadLength <==> |b| <= 12 || |b| > 0x20_0000)
      ensures err == NoError ==> Parse(old(attrs), b) == Parsed(attrs)
      ensures err == BadLength ==> Parse(old(attrs), b) == InvalidLength && attrs == old(attrs)
    {
      if |b| <= MIN_PACKET_LEN || |b| > MAX_PACKET_LEN {
        return BadLength;
      }
      ghost var result := Parse(attrs, b);
      var count: nat := AsUInt16(b[TOTAL_LEN..]);
      var at: nat := TOTAL_LEN + COUNT_LEN;
      for i := 0 to count
        invariant ParseFrom(attrs, b, at, count - i) == result && result != Aborted
      {
        at := ParseRecord(b, at, count - i);
      }
      return NoError;
    }

    /** Parses the record at `at` into its attribute; `left` records are still to come. */
    method ParseRecord(b: Bytes, at: nat, ghost left: nat) returns (next: nat)
      requires left > 0 && ParseFrom(attrs, b, at, left) != Aborted
      modifies this
      ensures ParseFrom(attrs, b, next, left - 1) == ParseFrom(old(attrs), b, at, left)
    {
      var ty, len := AsUInt16(b[at..]), Host32(b[at + 2..]);
      var p := Find(ty);
      attrs := attrs[p := attrs[p].(content := b[at + HEAD_LEN..at + HEAD_LEN + len])];
      next := at + HEAD_LEN + len;
    }

    method Find(ty: UInt16) returns (p: nat)
      ensures p == FindFrom(attrs, ty, 0)
    {
      p := 0;
      while p < |attrs| && attrs[p].ty != ty
        invariant p <= |attrs| && FindFrom(attrs, ty, p) == FindFrom(attrs, ty, 0)
      {
        p := p + 1;
      }
    }
  }

  lemma OneMore(a: Bytes, b: Bytes, c: Bytes)
    ensures (a + b) + c == a + (b + c)
  {
  }

  lemma Joined(a: Bytes, b: Bytes, c: Bytes, d: Bytes)
    ensures a + b + c + d == a + (b + c + d)
  {
  }

  /**
   Saving and loading: what one codec fills into an empty buffer, another with the
   same registrations parses back, as long as the frame is within the limits.
   */
  method SaveAndLoad(from: PlayerCodec, into: PlayerCodec, buf: NetBuffer) returns (restored: bool)
    requires from != into && from.Valid() && into.Valid() && SameTypes(from.attrs, into.attrs)
    requires AllMarshal(from.attrs) && |from.attrs| < TYPES
    requires buf.Valid() && buf.ReadableBytes() == 0
    requires MIN_PACKET_LEN < |Frame(from.attrs)| <= MAX_PACKET_LEN
    modifies into, buf, buf.data
    ensures restored && FilledTo(from.attrs, into.attrs, |from.attrs|)
    ensures buf.Valid() && buf.Content() == []
  {
    var err := from.FillEmptyBuffer(buf);
    var b := buf.RetrieveAsString(buf.ReadableBytes());
    assert b == Frame(from.attrs);
    RoundTripExactly(from.attrs, into.attrs, b);
    err := into.ParseObjectData(b);
    restored := err == NoError;
  }
}
