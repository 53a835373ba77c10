/**
 The player-data frame: a length, a count, and per attribute its type, its length and
 its content, all integers in network byte order.
 */
module Codec {
  import opened Buffer

  /** A registered attribute; `marshals` is whether its Marshal succeeds. */
  datatype Attr = Attr(ty: UInt16, content: Bytes, marshals: bool)

  const TOTAL_LEN := 4
  const COUNT_LEN := 2
  const HEAD_LEN := 6          // type and length of one attribute
  const MIN_PACKET_LEN := 12
  const MAX_PACKET_LEN := 0x20_0000
  const TYPES := 0x1_0000

  /** The registration map in key order. */
  ghost predicate Registered(attrs: seq<Attr>) {
    forall i, j :: 0 <= i < j < |attrs| ==> attrs[i].ty < attrs[j].ty
  }

  ghost predicate AllMarshal(attrs: seq<Attr>) {
    forall i :: 0 <= i < |attrs| ==> attrs[i].marshals
  }

  function Record(a: Attr): (r: Bytes)
    ensures |r| == HEAD_LEN + |a.content|
  {
    Be16(a.ty) + Be32(|a.content| % 0x1_0000_0000) + a.content
  }

  function Records(attrs: seq<Attr>, n: nat): Bytes
    requires n <= |attrs|
  {
    if n == 0 then [] else Records(attrs, n - 1) + Record(attrs[n - 1])
  }

  /** The count is a 16-bit word, so it wraps around. */
  function Body(attrs: seq<Attr>): Bytes {
    Be16(|attrs| % TYPES) + Records(attrs, |attrs|)
  }

  /** What is written when `k` is the first attribute that does not marshal: after the head, all up to its type. */
  ghost predicate CutOff(attrs: seq<Attr>, k: nat, head: Bytes, written: Bytes)
    requires k < |attrs|
  {
    && !attrs[k].marshals && (forall j :: 0 <= j < k ==> attrs[j].marshals)
    && written == head + (Records(attrs, k) + Be16(attrs[k].ty))
  }

  ghost predicate Stopped(attrs: seq<Attr>, head: Bytes, written: Bytes) {
    exists k :: 0 <= k < |attrs| && CutOff(attrs, k, head, written)
  }

  function Frame(attrs: seq<Attr>): Bytes {
    Be32(|Body(attrs)| % 0x1_0000_0000) + Body(attrs)
  }

  // ---- Parsing ----

  /** `Aborted` stands for a failed assertion or a read past the end of the frame. */
  datatype Parsed = Parsed(attrs: seq<Attr>) | InvalidLength | Aborted

  function FindFrom(attrs: seq<Attr>, ty: UInt16, i: nat): (p: nat)
    requires i <= |attrs|
    ensures i <= p <= |attrs|
    ensures forall k :: i <= k < p ==> attrs[k].ty != ty
    ensures p < |attrs| ==> attrs[p].ty == ty
    decreases |attrs| - i
  {
    if i == |attrs| || attrs[i].ty == ty then i else FindFrom(attrs, ty, i + 1)
  }

  /** The attribute loop: `left` records to go from position `at`. */
  function ParseFrom(attrs: seq<Attr>, b: Bytes, at: nat, left: nat): (r: Parsed)
    ensures r != InvalidLength
    decreases left
  {
    if left == 0 then (if at == |b| then Parsed(attrs) else Aborted)
    else if at + HEAD_LEN > |b| then Aborted
    else
      var ty, len := AsUInt16(b[at..]), Host32(b[at + 2..]);
      var p := FindFrom(attrs, ty, 0);
      if len < 0 || at + HEAD_LEN + len > |b| || p == |attrs| then Aborted
      else
        var content := b[at + HEAD_LEN..at + HEAD_LEN + len];
        ParseFrom(attrs[p := attrs[p].(content := content)], b, at + HEAD_LEN + len, left - 1)
  }

  /** Parsing a frame into the registered attributes. */
  function Parse(attrs: seq<Attr>, b: Bytes): Parsed {
    if |b| <= MIN_PACKET_LEN || |b| > MAX_PACKET_LEN then InvalidLength
    else if Host32(b) + TOTAL_LEN != |b| then Aborted
    else ParseFrom(attrs, b, TOTAL_LEN + COUNT_LEN, AsUInt16(b[TOTAL_LEN..]))
  }

  // ---- Round trip ----

  lemma {:induction false} TypesBound(attrs: seq<Attr>, i: nat)
    requires Registered(attrs) && i < |attrs|
    ensures i <= attrs[i].ty && |attrs| - i <= TYPES - attrs[i].ty
  {
    TypesAtLeast(attrs, i);
    TypesAtMost(attrs, i);
  }

  lemma {:induction false} TypesAtLeast(attrs: seq<Attr>, i: nat)
    requires Registered(attrs) && i < |attrs|
    ensures i <= attrs[i].ty
  {
    if i > 0 {
      TypesAtLeast(attrs, i - 1);
    }
  }

  lemma {:induction false} TypesAtMost(attrs: seq<Attr>, i: nat)
    requires Registered(attrs) && i < |attrs|
    ensures |attrs| - i <= TYPES - attrs[i].ty
    decreases |attrs| - i
  {
    if i + 1 < |attrs| {
      TypesAtMost(attrs, i + 1);
    }
  }

  lemma {:induction false} RecordsSplit(attrs: seq<Attr>, k: nat, n: nat)
    requires k <= n <= |attrs|
    ensures |Records(attrs, k)| <= |Records(attrs, n)|
    ensures Records(attrs, n)[..|Records(attrs, k)|] == Records(attrs, k)
    decreases n
  {
    if k < n {
      RecordsSplit(attrs, k, n - 1);
      var m := |Records(attrs, k)|;
      assert Records(attrs, n)[..m] == Records(attrs, n - 1)[..m];
    }
  }

  lemma {:induction false} RecordsAtLeast(attrs: seq<Attr>, n: nat)
    requires n <= |attrs|
    ensures |Records(attrs, n)| >= HEAD_LEN * n
  {
    if n > 0 {
      RecordsAtLeast(attrs, n - 1);
    }
  }

  /** Where record `k` begins in the frame. */
  function Start(attrs: seq<Attr>, k: nat): nat
    requires k <= |attrs|
  {
    if k == 0 then TOTAL_LEN + COUNT_LEN else Start(attrs, k - 1) + HEAD_LEN + |attrs[k - 1].content|
  }

  lemma {:induction false} RecordsLength(attrs: seq<Attr>, k: nat)
    requires k <= |attrs|
    ensures TOTAL_LEN + COUNT_LEN + |Records(attrs, k)| == Start(attrs, k)
  {
    if k > 0 {
      RecordsLength(attrs, k - 1);
    }
  }

  lemma FrameShape(attrs: seq<Attr>)
    ensures var b := Frame(attrs);
            && |b| == Start(attrs, |attrs|) && |b| == TOTAL_LEN + |Body(attrs)|
            && b[TOTAL_LEN..] == Body(attrs)
            && b[TOTAL_LEN + COUNT_LEN..] == Records(attrs, |attrs|)
  {
    RecordsLength(attrs, |attrs|);
  }

  /** The frame around record `k`. */
  lemma FrameAround(attrs: seq<Attr>, k: nat) returns (before: Bytes, after: Bytes)
    requires k < |attrs|
    ensures Frame(attrs) == before + (Record(attrs[k]) + after)
    ensures |before| == Start(attrs, k) && Start(attrs, k + 1) <= |Frame(attrs)|
  {
    var head, after' := FrameHead(attrs, k + 1);
    var own := Records(attrs, k);
    RecordsLength(attrs, k);
    before, after := head + own, after';
    Regroup(head, own, Record(attrs[k]), after);
  }

  lemma FrameHead(attrs: seq<Attr>, n: nat) returns (head: Bytes, after: Bytes)
    requires n <= |attrs|
    ensures |head| == TOTAL_LEN + COUNT_LEN && Frame(attrs) == head + (Records(attrs, n) + after)
    ensures Start(attrs, n) <= |Frame(attrs)|
  {
    head := Frame(attrs)[..TOTAL_LEN + COUNT_LEN];
    var all := Records(attrs, |attrs|);
    FrameShape(attrs);
    RecordsSplit(attrs, n, |attrs|);
    RecordsLength(attrs, n);
    after := all[|Records(attrs, n)|..];
    assert all == Records(attrs, n) + after;
    assert Frame(attrs) == head + all;
  }

  // ---- The layout ----

  /** The unsigned number that the two, or four, bytes at position `at` are, high bytes first. */
  function Word(b: Bytes, at: nat): int
    requires at + 2 <= |b|
  {
    b[at] as int * 0x100 + b[at + 1] as int
  }

  function Long(b: Bytes, at: nat): int
    requires at + 4 <= |b|
  {
    Word(b, at) * 0x1_0000 + Word(b, at + 2)
  }

  lemma Be32Long(u: UInt32)
    ensures Long(Be32(u), 0) == u
  {
    var hi, lo := u / 0x1_0000, u % 0x1_0000;
    assert Be32(u) == [hi / 0x100, hi % 0x100, lo / 0x100, lo % 0x100];
  }

  /** What stands `from` bytes into a part of the frame stands there in the frame. */
  lemma Within(b: Bytes, at: nat, part: Bytes, from: nat, len: nat)
    requires at + |part| <= |b| && b[at..at + |part|] == part && from + len <= |part|
    ensures b[at + from..at + from + len] == part[from..from + len]
    ensures len == 2 ==> Word(b, at + from) == Word(part, from)
    ensures len == 4 ==> Long(b, at + from) == Long(part, from)
  {
    assert forall i :: 0 <= i < |part| ==> part[i] == b[at + i];
  }

  lemma RecordLayout(a: Attr)
    ensures Word(Record(a), 0) == a.ty && Long(Record(a), 2) == |a.content| % 0x1_0000_0000
    ensures Record(a)[HEAD_LEN..] == a.content
  {
    ghost var r, ty, len := Record(a), Be16(a.ty), Be32(|a.content| % 0x1_0000_0000);
    assert r == ty + len + a.content;
    assert r[2..6] == len;
    Be32Long(|a.content| % 0x1_0000_0000);
    Within(r, 2, len, 0, 4);
  }

  /**
   The frame byte by byte: four bytes with the length of the rest, two with the number of
   attributes, and per attribute two with its type, four with its length, and its content.
   */
  lemma FrameLayout(attrs: seq<Attr>, k: nat)
    requires k < |attrs|
    ensures var b, at := Frame(attrs), Start(attrs, k);
            && |b| == Start(attrs, |attrs|) && Start(attrs, 0) == 6
            && Start(attrs, k + 1) == at + 6 + |attrs[k].content| <= |b|
            && Long(b, 0) == (|b| - 4) % 0x1_0000_0000 && Word(b, 4) == |attrs| % 0x1_0000
            && Word(b, at) == attrs[k].ty && Long(b, at + 2) == |attrs[k].content| % 0x1_0000_0000
            && b[at + 6..at + 6 + |attrs[k].content|] == attrs[k].content
  {
    FrameHeader(attrs);
    var before, after := FrameAround(attrs, k);
    RecordInFrame(attrs[k], Frame(attrs), Start(attrs, k), before, after);
  }

  lemma RecordInFrame(a: Attr, b: Bytes, at: nat, before: Bytes, after: Bytes)
    requires b == before + (Record(a) + after) && at == |before|
    ensures Word(b, at) == a.ty && Long(b, at + 2) == |a.content| % 0x1_0000_0000
    ensures b[at + 6..at + 6 + |a.content|] == a.content
  {
    ghost var r := Record(a);
    assert b[at..at + |r|] == r;
    RecordLayout(a);
    Within(b, at, r, 0, 2);
    Within(b, at, r, 2, 4);
    Within(b, at, r, HEAD_LEN, |a.content|);
    assert r[HEAD_LEN..HEAD_LEN + |a.content|] == a.content;
  }

  lemma FrameHeader(attrs: seq<Attr>)
    ensures var b := Frame(attrs);
            && |b| == Start(attrs, |attrs|) && |b| >= 6
            && Long(b, 0) == (|b| - 4) % 0x1_0000_0000 && Word(b, 4) == |attrs| % 0x1_0000
  {
    FrameShape(attrs);
    ghost var b, len := Frame(attrs), Be32(|Body(attrs)| % 0x1_0000_0000);
    assert b[0..4] == len;
    Be32Long(|Body(attrs)| % 0x1_0000_0000);
    Within(b, 0, len, 0, 4);
    assert b[4..6] == Be16(|attrs| % TYPES);
    Within(b, 4, Be16(|attrs| % TYPES), 0, 2);
  }

  lemma Regroup(a: Bytes, b: Bytes, c: Bytes, d: Bytes)
    ensures a + (b + c + d) == a + b + (c + d)
  {
  }

  lemma TypeDecodes(before: Bytes, a: Attr, len: Bytes, after: Bytes, b: Bytes)
    requires b == before + (Be16(a.ty) + len + a.content + after)
    ensures AsUInt16(b[|before|..]) == a.ty
  {
    ghost var rest := len + a.content + after;
    assert b[|before|..] == Be16(a.ty) + rest;
    Be16RoundTrip(a.ty, rest);
  }

  lemma ContentLengthDecodes(before: Bytes, a: Attr, after: Bytes, b: Bytes)
    requires |a.content| < 0x8000_0000 && b == before + (Be32(|a.content|) + a.content + after)
    ensures Host32(b[|before|..]) == |a.content|
  {
    ghost var rest := a.content + after;
    assert b[|before|..] == Be32(|a.content|) + rest;
    Be32RoundTrip(|a.content|, rest);
  }

  /** A record at position |before| of a frame decodes to its type, length and content. */
  lemma RecordDecodes(before: Bytes, a: Attr, after: Bytes, b: Bytes)
    requires b == before + (Record(a) + after) && |a.content| < 0x8000_0000
    ensures AsUInt16(b[|before|..]) == a.ty
    ensures Host32(b[|before| + 2..]) == |a.content|
    ensures b[|before| + HEAD_LEN..|before| + HEAD_LEN + |a.content|] == a.content
  {
    ghost var ty, len := Be16(a.ty), Be32(|a.content|);
    assert Record(a) == ty + len + a.content;
    TypeDecodes(before, a, len, after, b);
    Regroup(before, ty, len + a.content, after);
    ghost var head := before + ty;
    assert b == head + (len + a.content + after);
    ContentLengthDecodes(head, a, after, b);
  }

  /** Registered under the same types in the same order. */
  ghost predicate SameTypes(attrs: seq<Attr>, into: seq<Attr>) {
    |into| == |attrs| && forall i :: 0 <= i < |attrs| ==> into[i].ty == attrs[i].ty
  }

  /** `attrs` with its first `k` contents, and what `into` held for the rest. */
  ghost predicate FilledTo(attrs: seq<Attr>, into: seq<Attr>, k: nat) {
    SameTypes(attrs, into) && k <= |attrs| && forall i :: 0 <= i < k ==> into[i].content == attrs[i].content
  }

  ghost predicate Small(attrs: seq<Attr>) {
    forall i :: 0 <= i < |attrs| ==> |attrs[i].content| < 0x8000_0000
  }

  ghost predicate Restored(attrs: seq<Attr>, r: Parsed) {
    r.Parsed? && FilledTo(attrs, r.attrs, |attrs|)
  }

  /** At position `at` of `b` there is a record of type `ty` with this content. */
  predicate DecodesAt(b: Bytes, at: nat, ty: UInt16, content: Bytes) {
    && at + HEAD_LEN + |content| <= |b|
    && AsUInt16(b[at..]) == ty && Host32(b[at + 2..]) == |content|
    && b[at + HEAD_LEN..at + HEAD_LEN + |content|] == content
  }

  /** One turn of the attribute loop. */
  lemma ParseStep(cur: seq<Attr>, b: Bytes, at: nat, left: nat, p: nat, content: Bytes,
                  next: seq<Attr>, at': nat, left': nat)
    requires p < |cur| && FindFrom(cur, cur[p].ty, 0) == p && DecodesAt(b, at, cur[p].ty, content)
    requires next == cur[p := cur[p].(content := content)] && at' == at + HEAD_LEN + |content| && left == left' + 1
    ensures ParseFrom(cur, b, at, left) == ParseFrom(next, b, at', left')
  {
  }

  lemma RecordAtStart(attrs: seq<Attr>, k: nat)
    requires k < |attrs| && Small(attrs)
    ensures DecodesAt(Frame(attrs), Start(attrs, k), attrs[k].ty, attrs[k].content)
    ensures Start(attrs, k + 1) == Start(attrs, k) + HEAD_LEN + |attrs[k].content|
  {
    var before, after := FrameAround(attrs, k);
    RecordDecodes(before, attrs[k], after, Frame(attrs));
  }

  /** All records of `attrs` stand in `b`, one after the other, up to its end. */
  ghost predicate Framed(attrs: seq<Attr>, b: Bytes) {
    && |b| == Start(attrs, |attrs|)
    && forall k :: 0 <= k < |attrs| ==> RecordAt(attrs, b, k)
  }

  ghost predicate RecordAt(attrs: seq<Attr>, b: Bytes, k: nat)
    requires k < |attrs|
  {
    && DecodesAt(b, Start(attrs, k), attrs[k].ty, attrs[k].content)
    && Start(attrs, k + 1) == Start(attrs, k) + HEAD_LEN + |attrs[k].content|
  }

  lemma FrameIsFramed(attrs: seq<Attr>)
    requires Small(attrs)
    ensures Framed(attrs, Frame(attrs))
  {
    FrameShape(attrs);
    forall k | 0 <= k < |attrs| ensures RecordAt(attrs, Frame(attrs), k) {
      RecordAtStart(attrs, k);
    }
  }

  function WithContent(into: seq<Attr>, k: nat, content: Bytes): seq<Attr>
    requires k < |into|
  {
    into[k := into[k].(content := content)]
  }

  ghost predicate HasType(into: seq<Attr>, ty: UInt16) {
    exists p :: 0 <= p < |into| && into[p].ty == ty
  }

  /** The types of the frame, from record `k` on, are all registered. */
  ghost predicate Covers(attrs: seq<Attr>, k: nat, into: seq<Attr>) {
    forall j :: k <= j < |attrs| ==> HasType(into, attrs[j].ty)
  }

  /** `r` is `into` with the contents of the first `k` attributes of the frame. */
  ghost predicate Stores(attrs: seq<Attr>, into: seq<Attr>, r: seq<Attr>, k: nat)
    requires k <= |attrs|
  {
    |r| == |into| && forall p :: 0 <= p < |into| ==> StoresOne(attrs, into[p], r[p], k)
  }

  ghost predicate StoresOne(attrs: seq<Attr>, was: Attr, now: Attr, k: nat)
    requires k <= |attrs|
  {
    && now == was.(content := now.content)
    && (forall j :: 0 <= j < k && attrs[j].ty == was.ty ==> now.content == attrs[j].content)
    && ((forall j :: 0 <= j < k ==> attrs[j].ty != was.ty) ==> now.content == was.content)
  }

  /** `into` with the contents of the first `k` attributes stored one after the other. */
  function Stored(attrs: seq<Attr>, into: seq<Attr>, k: nat): (r: seq<Attr>)
    requires k <= |attrs|
    ensures |r| == |into| && forall i :: 0 <= i < |into| ==> r[i] == into[i].(content := r[i].content)
  {
    if k == 0 then into
    else
      var r := Stored(attrs, into, k - 1);
      var p := FindFrom(r, attrs[k - 1].ty, 0);
      if p == |r| then r else WithContent(r, p, attrs[k - 1].content)
  }

  lemma {:induction false} StoredStores(attrs: seq<Attr>, into: seq<Attr>, k: nat)
    requires k <= |attrs| && Registered(attrs) && Registered(into)
    ensures Stores(attrs, into, Stored(attrs, into, k), k)
  {
    if k > 0 {
      StoredStores(attrs, into, k - 1);
      ghost var cur, next, a := Stored(attrs, into, k - 1), Stored(attrs, into, k), attrs[k - 1];
      ghost var p := FindFrom(cur, a.ty, 0);
      forall i | 0 <= i < |into| ensures StoresOne(attrs, into[i], next[i], k) {
        assert StoresOne(attrs, into[i], cur[i], k - 1);
        if i == p {
          assert next[i].content == a.content;
        } else {
          assert next[i] == cur[i] && into[i].ty != a.ty;
        }
      }
    }
  }

  /** What one record of a registered type does to the attributes. */
  predicate TurnsTo(a: Attr, cur: seq<Attr>, next: seq<Attr>) {
    var p := FindFrom(cur, a.ty, 0);
    p < |cur| && next == WithContent(cur, p, a.content)
  }

  /** The parser between two records: the attributes so far, where it stands, and how many are to come. */
  datatype Stage = Stage(attrs: seq<Attr>, at: nat, left: nat)

  ghost predicate Same(b: Bytes, c: Stage, d: Stage) {
    ParseFrom(c.attrs, b, c.at, c.left) == ParseFrom(d.attrs, b, d.at, d.left)
  }

  /** Stages of the parser that all come to the same. */
  lemma {:induction false} SameThroughout(b: Bytes, stages: seq<Stage>, k: nat)
    requires k < |stages| && forall i :: 0 <= i < k ==> Same(b, stages[i], stages[i + 1])
    ensures Same(b, stages[0], stages[k])
  {
    if k > 0 {
      SameThroughout(b, stages, k - 1);
      assert Same(b, stages[k - 1], stages[k - 1 + 1]);
    }
  }

  /** A type that is not registered stops the parser. */
  lemma UnknownType(attrs: seq<Attr>, cur: seq<Attr>, k: nat, b: Bytes, at: nat, left: nat)
    requires k < |attrs| && FindFrom(cur, attrs[k].ty, 0) == |cur|
    requires at == Start(attrs, k) && RecordAt(attrs, b, k) && left > 0
    ensures ParseFrom(cur, b, at, left) == Aborted
  {
  }

  lemma StoredTurns(attrs: seq<Attr>, into: seq<Attr>, k: nat)
    requires k < |attrs| && HasType(into, attrs[k].ty)
    ensures TurnsTo(attrs[k], Stored(attrs, into, k), Stored(attrs, into, k + 1))
  {
    FindsType(attrs, into, k, Stored(attrs, into, k));
  }

  /** The record `k` is found among the registrations exactly if its type is registered. */
  lemma FindsType(attrs: seq<Attr>, into: seq<Attr>, k: nat, cur: seq<Attr>)
    requires k < |attrs| && cur == Stored(attrs, into, k)
    ensures HasType(into, attrs[k].ty) <==> FindFrom(cur, attrs[k].ty, 0) < |cur|
  {
  }

  lemma ParseEnds(into: seq<Attr>, b: Bytes)
    ensures ParseFrom(into, b, |b|, 0) == Parsed(into)
  {
  }

  function StageOf(attrs: seq<Attr>, into: seq<Attr>, k: nat): Stage
    requires k <= |attrs|
  {
    Stage(Stored(attrs, into, k), Start(attrs, k), |attrs| - k)
  }

  lemma StageTurn(attrs: seq<Attr>, into: seq<Attr>, k: nat, b: Bytes)
    requires k < |attrs| && HasType(into, attrs[k].ty) && RecordAt(attrs, b, k)
    ensures Same(b, StageOf(attrs, into, k), StageOf(attrs, into, k + 1))
  {
    ghost var c, d, a := StageOf(attrs, into, k), StageOf(attrs, into, k + 1), attrs[k];
    StoredTurns(attrs, into, k);
    ParseStep(c.attrs, b, c.at, c.left, FindFrom(c.attrs, a.ty, 0), a.content, d.attrs, d.at, d.left);
  }

  /** As long as types are registered, the contents are stored one after the other. */
  lemma ParseStored(attrs: seq<Attr>, into: seq<Attr>, m: nat, b: Bytes)
    requires Framed(attrs, b) && m <= |attrs| && forall j :: 0 <= j < m ==> HasType(into, attrs[j].ty)
    ensures Same(b, StageOf(attrs, into, 0), StageOf(attrs, into, m))
  {
    ghost var stages := seq(m + 1, k requires 0 <= k <= m => StageOf(attrs, into, k));
    forall k | 0 <= k < m ensures Same(b, stages[k], stages[k + 1]) {
      assert RecordAt(attrs, b, k);
      StageTurn(attrs, into, k, b);
      assert stages[k] == StageOf(attrs, into, k) && stages[k + 1] == StageOf(attrs, into, k + 1);
    }
    SameThroughout(b, stages, m);
  }

  lemma {:induction false} FirstUnknown(attrs: seq<Attr>, into: seq<Attr>, k: nat) returns (m: nat)
    requires k <= |attrs| && !Covers(attrs, k, into)
    ensures k <= m < |attrs| && !HasType(into, attrs[m].ty) && forall j :: k <= j < m ==> HasType(into, attrs[j].ty)
    decreases |attrs| - k
  {
    if HasType(into, attrs[k].ty) {
      m := FirstUnknown(attrs, into, k + 1);
    } else {
      m := k;
    }
  }

  /**
   The records of a frame: if all their types are registered, the contents are stored one
   after the other up to the frame's end; otherwise the parser stops at the first that is not.
   */
  lemma ParseFromStores(attrs: seq<Attr>, into: seq<Attr>, b: Bytes, at: nat, r: Parsed)
    requires Framed(attrs, b) && at == Start(attrs, 0) && r == ParseFrom(into, b, at, |attrs|)
    ensures r == if Covers(attrs, 0, into) then Parsed(Stored(attrs, into, |attrs|)) else Aborted
  {
    if Covers(attrs, 0, into) {
      ParseStored(attrs, into, |attrs|, b);
      ParseEnds(Stored(attrs, into, |attrs|), b);
    } else {
      var m := FirstUnknown(attrs, into, 0);
      ghost var stage := StageOf(attrs, into, m);
      ParseStored(attrs, into, m, b);
      assert RecordAt(attrs, b, m);
      FindsType(attrs, into, m, stage.attrs);
      UnknownType(attrs, stage.attrs, m, b, stage.at, stage.left);
    }
  }

  lemma ParseOpens(into: seq<Attr>, b: Bytes, count: nat)
    requires MIN_PACKET_LEN < |b| <= MAX_PACKET_LEN
    requires Host32(b) + TOTAL_LEN == |b| && AsUInt16(b[TOTAL_LEN..]) == count
    ensures Parse(into, b) == ParseFrom(into, b, TOTAL_LEN + COUNT_LEN, count)
  {
  }

  lemma SmallWithin(attrs: seq<Attr>)
    requires |Frame(attrs)| <= MAX_PACKET_LEN
    ensures Small(attrs)
  {
    forall i | 0 <= i < |attrs| ensures |attrs[i].content| < 0x8000_0000 {
      var before, after := FrameAround(attrs, i);
    }
  }

  lemma LengthDecodes(body: Bytes, b: Bytes)
    requires |body| < 0x8000_0000 && b == Be32(|body| % 0x1_0000_0000) + body
    ensures Host32(b) == |body|
  {
    Be32RoundTrip(|body|, body);
  }

  lemma CountDecodes(attrs: seq<Attr>, body: Bytes)
    requires body == Body(attrs)
    ensures |body| >= COUNT_LEN && AsUInt16(body) == |attrs| % TYPES
  {
    ghost var count: UInt16 := |attrs| % TYPES;
    Be16RoundTrip(count, Records(attrs, |attrs|));
  }

  lemma HeaderDecodes(attrs: seq<Attr>)
    requires |Frame(attrs)| <= MAX_PACKET_LEN
    ensures var b := Frame(attrs);
            && |b| >= TOTAL_LEN + COUNT_LEN
            && Host32(b) + TOTAL_LEN == |b| && AsUInt16(b[TOTAL_LEN..]) == |attrs| % TYPES
  {
    ghost var body, b := Body(attrs), Frame(attrs);
    FrameShape(attrs);
    assert Host32(b) == |body| by { LengthDecodes(body, b); }
    assert AsUInt16(body) == |attrs| % TYPES by { CountDecodes(attrs, body); }
  }

  /** With all 65536 types registered the frame claims no attributes and parsing aborts. */
  lemma AllTypesAbort(attrs: seq<Attr>, into: seq<Attr>, b: Bytes)
    requires Registered(attrs) && |attrs| >= TYPES && b == Frame(attrs) && |b| <= MAX_PACKET_LEN
    ensures Parse(into, b) == Aborted
  {
    TypesBound(attrs, 0);
    FrameShape(attrs);
    HeaderDecodes(attrs);
    RecordsAtLeast(attrs, |attrs|);
    RecordsLength(attrs, |attrs|);
    ParseOpens(into, b, 0);
  }

  /**
   Loading into other registrations: a frame within the limits is parsed exactly when all
   its types are registered. Each of those then has the content from the frame, and any
   other attribute what it had before.
   */
  lemma LoadExactly(attrs: seq<Attr>, into: seq<Attr>, b: Bytes)
    requires Registered(attrs) && Registered(into) && |attrs| < TYPES && b == Frame(attrs)
    requires MIN_PACKET_LEN < |b| <= MAX_PACKET_LEN
    ensures Parse(into, b).Parsed? <==> Covers(attrs, 0, into)
    ensures Covers(attrs, 0, into) ==> Stores(attrs, into, Parse(into, b).attrs, |attrs|)
    ensures !Covers(attrs, 0, into) ==> Parse(into, b) == Aborted
  {
    HeaderDecodes(attrs);
    SmallWithin(attrs);
    FrameIsFramed(attrs);
    ParseOpens(into, b, |attrs|);
    ParseFromStores(attrs, into, b, TOTAL_LEN + COUNT_LEN, Parse(into, b));
    StoredStores(attrs, into, |attrs|);
  }

  lemma FewerTypesRestore(attrs: seq<Attr>, into: seq<Attr>, b: Bytes)
    requires Registered(attrs) && SameTypes(attrs, into) && |attrs| < TYPES && b == Frame(attrs)
    requires MIN_PACKET_LEN < |b| <= MAX_PACKET_LEN
    ensures Restored(attrs, Parse(into, b))
  {
    LoadExactly(attrs, into, b);
    ghost var r := Parse(into, b);
    assert forall i :: 0 <= i < |attrs| ==> into[i].ty == attrs[i].ty;
    assert forall i :: 0 <= i < |attrs| ==> StoresOne(attrs, into[i], r.attrs[i], |attrs|);
  }

  /**
   Round trip, and its exact limits: parsing a filled frame into a codec with the same
   registrations restores every content exactly when the frame is longer than the
   minimum, no longer than the maximum, and the registered types are not all of the
   65536 there are; then the count wraps around to 0.
   */
  lemma RoundTripExactly(attrs: seq<Attr>, into: seq<Attr>, b: Bytes)
    requires Registered(attrs) && SameTypes(attrs, into) && b == Frame(attrs)
    ensures Restored(attrs, Parse(into, b))
            <==> MIN_PACKET_LEN < |b| <= MAX_PACKET_LEN && |attrs| < TYPES
  {
    if MIN_PACKET_LEN < |b| <= MAX_PACKET_LEN {
      if |attrs| < TYPES {
        FewerTypesRestore(attrs, into, b);
      } else {
        AllTypesAbort(attrs, into, b);
      }
    }
  }

  lemma {:induction false} EmptyRecords(attrs: seq<Attr>, k: nat)
    requires k <= |attrs| && forall i :: 0 <= i < |attrs| ==> attrs[i].content == []
    ensures Start(attrs, k) == TOTAL_LEN + COUNT_LEN + HEAD_LEN * k
  {
    if k > 0 {
      EmptyRecords(attrs, k - 1);
    }
  }

  /** Such lists exist: every type registered once, each with nothing to say. */
  lemma AllTypesExample(n: nat, into: seq<Attr>) returns (attrs: seq<Attr>)
    requires n == TYPES
    ensures Registered(attrs) && AllMarshal(attrs) && |attrs| == n
    ensures MIN_PACKET_LEN < |Frame(attrs)| <= MAX_PACKET_LEN
    ensures SameTypes(attrs, into) ==> !Restored(attrs, Parse(into, Frame(attrs)))
  {
    attrs := seq(n, i requires 0 <= i < n => Attr(i, [], true));
    FrameShape(attrs);
    EmptyRecords(attrs, n);
    AllTypesAbort(attrs, into, Frame(attrs));
  }
}
