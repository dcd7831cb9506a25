/**
  * The byte-level gate for CDR messages: a cursor walks the buffer, aligning and checking as it goes.
  * Alignment and strings follow section 9.3 of OMG CORBA 3.3 Part 2, the encapsulation header
  * section 10 of OMG DDSI-RTPS 2.2.
  */
module Cdr {
  import opened Sequences
  import opened Wrappers

  type UInt32 = n: int | 0 <= n < 0x1_0000_0000

  /** Whether bytes decode as UTF-8 text; text is kept as its bytes. */
  type Utf8 = seq<Byte> -> bool

  /** PLAIN CDR, little-endian. */
  const CDR_LE_HEADER: seq<Byte> := [0, 1, 0, 0]

  /** The four bytes of a number, least significant first... */
  function U32(n: UInt32): (r: seq<Byte>)
    ensures |r| == 4
  {
    [n % 0x100, n / 0x100 % 0x100, n / 0x100 / 0x100 % 0x100, n / 0x100 / 0x100 / 0x100]
  }

  /** ...and the number four bytes stand for: `struct.unpack_from("<I", b, pos)`, in bounds. */
  function U32At(b: seq<Byte>, pos: nat): UInt32
    requires pos + 4 <= |b|
  {
    b[pos] as int + 0x100 * (b[pos + 1] as int + 0x100 * (b[pos + 2] as int + 0x100 * (b[pos + 3] as int)))
  }

  lemma LittleEndian(b: seq<Byte>, pos: nat)
    requires pos + 4 <= |b|
    ensures U32At(b, pos) == b[pos] as int + 0x100 * b[pos + 1] as int + 0x1_0000 * b[pos + 2] as int
                             + 0x100_0000 * b[pos + 3] as int
  {
  }

  lemma LowByte(low: Byte, rest: nat)
    ensures (low as int + 0x100 * rest) % 0x100 == low && (low as int + 0x100 * rest) / 0x100 == rest
  {
  }

  lemma U32OfBytes(b0: Byte, b1: Byte, b2: Byte, b3: Byte)
    ensures U32(U32At([b0, b1, b2, b3], 0)) == [b0, b1, b2, b3]
  {
    var rest3: int := b3;
    var rest2 := b2 as int + 0x100 * rest3;
    var rest1 := b1 as int + 0x100 * rest2;
    LowByte(b2, rest3);
    LowByte(b1, rest2);
    LowByte(b0, rest1);
  }

  lemma BytesOfU32(n: UInt32)
    ensures U32At(U32(n), 0) == n
  {
    var n1 := n / 0x100;
    var n2 := n1 / 0x100;
    assert n == n % 0x100 + 0x100 * n1 && n1 == n1 % 0x100 + 0x100 * n2 && n2 == n2 % 0x100 + 0x100 * (n2 / 0x100);
  }

  /** `_align(pos, 4)`, the one alignment the walkers ask for. */
  function Align(pos: nat): nat
  {
    var rem := pos % 4;
    pos + (4 - rem) % 4
  }

  /** The same without remainders. */
  function Align4(pos: nat): nat
  {
    if pos == 0 then 0 else if pos <= 4 then 4 else 4 + Align4(pos - 4)
  }

  /** It is the first multiple of four at or after pos. */
  lemma {:induction false} Align4Exact(pos: nat)
    ensures Align4(pos) == Align(pos)
    ensures Align4(pos) % 4 == 0 && pos <= Align4(pos) < pos + 4
  {
    Align4At(pos / 4, pos % 4);
  }

  lemma {:induction false} Align4At(q: nat, r: nat)
    requires r < 4
    ensures Align4(4 * q + r) == 4 * q + if r == 0 then 0 else 4
  {
    if q > 0 {
      Align4At(q - 1, r);
    }
  }

  /** Behind an aligned field of four bytes the cursor is aligned. */
  lemma {:induction false} Align4Again(pos: nat)
    ensures Align4(Align4(pos) + 4) == Align4(pos) + 4 && Align4(Align4(pos) + 8) == Align4(pos) + 8
    ensures Align4(Align4(pos)) == Align4(pos)
  {
    if pos > 4 {
      Align4Again(pos - 4);
    }
  }

  // --- the walk ---

  datatype Reject =
    | BadHeader | Malformed | ShortString | ShortData
    | WrongWidth | WrongHeight | WrongEncoding | WrongStep | WrongDataLength | NotTerminated | WrongText

  /** `unpack_from` raises past the end of the buffer. */
  function ReadU32(body: seq<Byte>, pos: nat): (r: Result<UInt32, Reject>)
    ensures r.Success? <==> pos + 4 <= |body|
  {
    if pos + 4 <= |body| then Success(U32At(body, pos)) else Failure(Malformed)
  }

  /** The raw string without its null terminator, if it has one. */
  function Text(raw: seq<Byte>): seq<Byte>
  {
    if raw != [] && raw[|raw| - 1] == 0 then raw[..|raw| - 1] else raw
  }

  /** These bytes are read as this text: with a terminator, or without one if the text does not end in a null itself. */
  predicate Spells(raw: seq<Byte>, text: seq<Byte>)
  {
    raw == text + [0] || (raw == text && (text == [] || text[|text| - 1] != 0))
  }

  lemma TextExact(raw: seq<Byte>, text: seq<Byte>)
    ensures Text(raw) == text <==> Spells(raw, text)
  {
    if raw != [] && raw[|raw| - 1] == 0 {
      assert raw == raw[..|raw| - 1] + [0];
    }
    assert (text + [0])[..|text|] == text;
  }

  /** `_read_cdr_string`: the text and the new offset. */
  function ReadString(utf8: Utf8, body: seq<Byte>, pos0: nat): (r: Result<(seq<Byte>, nat), Reject>)
    ensures r.Success? ==> pos0 < r.value.1 <= |body|
  {
    Align4Exact(pos0);
    var pos := Align4(pos0);
    var length :- ReadU32(body, pos);
    if pos + 4 + length > |body| then Failure(ShortString)
    else
      var raw := body[pos + 4..pos + 4 + length];
      if utf8(Text(raw)) then Success((Text(raw), pos + 4 + length)) else Failure(Malformed)
  }

  /** What the walk decodes, and where the data begins. */
  datatype Fields = Fields(
    frameId: seq<Byte>,
    height: UInt32,
    width: UInt32,
    encoding: seq<Byte>,
    isBigendian: Byte,
    step: UInt32,
    dataLen: UInt32,
    pos: nat)

  /** One aligned 32-bit field: the value and the offset behind it. */
  function Take(body: seq<Byte>, pos: nat): (r: Result<(UInt32, nat), Reject>)
    ensures r.Success? ==> pos < r.value.1 <= |body|
  {
    Align4Exact(pos);
    var n :- ReadU32(body, Align4(pos));
    Success((n, Align4(pos) + 4))
  }

  datatype Head = Head(frameId: seq<Byte>, height: UInt32, width: UInt32, encoding: seq<Byte>, pos: nat)

  /** The fields up to the encoding... */
  function WalkHead(utf8: Utf8, body: seq<Byte>): Result<Head, Reject>
  {
    var (frameId, p1) :- ReadString(utf8, body, 8);
    var (height, p2) :- Take(body, p1);
    var (width, p3) :- Take(body, p2);
    var (encoding, p4) :- ReadString(utf8, body, p3);
    Success(Head(frameId, height, width, encoding, p4))
  }

  /** ...those behind it... */
  function WalkTail(body: seq<Byte>, h: Head): Result<Fields, Reject>
  {
    if h.pos >= |body| then Failure(Malformed)
    else
      var (step, p5) :- Take(body, h.pos + 1);
      var (dataLen, p6) :- Take(body, p5);
      Success(Fields(h.frameId, h.height, h.width, h.encoding, body[h.pos], step, dataLen, p6))
  }

  /** ...and all of them. */
  function Walk(utf8: Utf8, body: seq<Byte>): Result<Fields, Reject>
  {
    var h :- WalkHead(utf8, body);
    WalkTail(body, h)
  }

  datatype Expected = Expected(width: nat, height: nat, step: nat, encoding: seq<Byte>)

  function Judge(f: Fields, available: int, e: Expected): Result<Fields, Reject>
  {
    if available < f.dataLen then Failure(ShortData)
    else if f.width != e.width then Failure(WrongWidth)
    else if f.height != e.height then Failure(WrongHeight)
    else if f.encoding != e.encoding then Failure(WrongEncoding)
    else if f.step != e.step then Failure(WrongStep)
    else if f.dataLen != f.step * f.height then Failure(WrongDataLength)
    else Success(f)
  }

  function Gate(utf8: Utf8, buf: seq<Byte>, e: Expected): Result<Fields, Reject>
  {
    if !(CDR_LE_HEADER <= buf) then Failure(BadHeader)
    else
      var f :- Walk(utf8, buf[4..]);
      Judge(f, |buf| - 4 - f.pos, e)
  }

  // --- the walkers of the gate, with their cursors ---

  method ReadCdrString(utf8: Utf8, body: seq<Byte>, pos0: nat)
    returns (r: Result<(seq<Byte>, nat), Reject>)
    ensures r == ReadString(utf8, body, pos0)
  {
    var pos := Align4(pos0);
    if pos + 4 > |body| {
      return Failure(Malformed);
    }
    var length := U32At(body, pos);
    pos := pos + 4;
    var raw := body[pos..if pos + length <= |body| then pos + length else |body|];
    if |raw| != length {
      return Failure(ShortString);
    }
    pos := pos + length;
    if !utf8(Text(raw)) {
      return Failure(Malformed);
    }
    r := Success((Text(raw), pos));
  }

  method TakeU32(body: seq<Byte>, pos0: nat) returns (r: Result<(UInt32, nat), Reject>)
    ensures r == Take(body, pos0)
  {
    var pos := Align4(pos0);
    if pos + 4 > |body| {
      return Failure(Malformed);
    }
    r := Success((U32At(body, pos), pos + 4));
  }

  method AssertImage(utf8: Utf8, buf: seq<Byte>, e: Expected) returns (r: Result<Fields, Reject>)
    ensures r == Gate(utf8, buf, e)
  {
    if |buf| < 4 || buf[0..4] != CDR_LE_HEADER {
      return Failure(BadHeader);
    }
    var body := buf[4..];
    var decoded := WalkImage(utf8, body);
    if decoded.Failure? {
      return Failure(decoded.error);
    }
    var f := decoded.value;
    if |body| - f.pos < f.dataLen {
      return Failure(ShortData);
    }
    if f.width != e.width {
      return Failure(WrongWidth);
    }
    if f.height != e.height {
      return Failure(WrongHeight);
    }
    if f.encoding != e.encoding {
      return Failure(WrongEncoding);
    }
    if f.step != e.step {
      return Failure(WrongStep);
    }
    if f.dataLen != f.step * f.height {
      return Failure(WrongDataLength);
    }
    r := Success(f);
  }

  /** The guarded part of `assert_image`: the cursor from field to field. */
  method WalkImage(utf8: Utf8, body: seq<Byte>) returns (r: Result<Fields, Reject>)
    ensures r == Walk(utf8, body)
  {
    var pos: nat := 0;
    pos := Align4(pos) + 4;
    pos := Align4(pos) + 4;
    var frame :- ReadCdrString(utf8, body, pos);
    pos := frame.1;
    var height :- TakeU32(body, pos);
    pos := height.1;
    var width :- TakeU32(body, pos);
    pos := width.1;
    var encoding :- ReadCdrString(utf8, body, pos);
    pos := encoding.1;
    if pos >= |body| {
      return Failure(Malformed);
    }
    var isBigendian := body[pos];
    pos := pos + 1;
    var step :- TakeU32(body, pos);
    pos := step.1;
    var dataLen :- TakeU32(body, pos);
    pos := dataLen.1;
    r := Success(Fields(frame.0, height.0, width.0, encoding.0, isBigendian, step.0, dataLen.0, pos));
  }

  // --- the wire format, written down as what it consists of ---

  /** Pieces one after the other. */
  function Flatten(pieces: seq<seq<Byte>>): seq<Byte>
  {
    if pieces == [] then [] else Flatten(pieces[..|pieces| - 1]) + pieces[|pieces| - 1]
  }

  /** The parts of an Image body: padding bytes may hold anything, and anything may follow the data. */
  datatype Wire = Wire(
    stamp: seq<Byte>,
    frame: seq<Byte>,
    pad1: seq<Byte>,
    height: UInt32,
    width: UInt32,
    encoding: seq<Byte>,
    isBigendian: Byte,
    pad2: seq<Byte>,
    step: UInt32,
    data: seq<Byte>,
    tail: seq<Byte>)
  {
    predicate WellFormed()
    {
      && |stamp| == 8
      && |frame| < 0x1_0000_0000 && |encoding| < 0x1_0000_0000 && |data| < 0x1_0000_0000
      && HeightAt() == Align4(12 + |frame|) && StepAt() == Align4(FlagAt() + 1)
    }

    function Pieces(): seq<seq<Byte>>
      requires WellFormed()
    {
      [stamp, U32(|frame|), frame, pad1, U32(height), U32(width), U32(|encoding|), encoding,
       [isBigendian], pad2, U32(step), U32(|data|), data, tail]
    }

    function Render(): seq<Byte>
      requires WellFormed()
    {
      Flatten(Pieces())
    }

    // where the height, the byte after the encoding and the step begin
    function HeightAt(): nat
    {
      12 + |frame| + |pad1|
    }

    function FlagAt(): nat
    {
      HeightAt() + 12 + |encoding|
    }

    function StepAt(): nat
    {
      FlagAt() + 1 + |pad2|
    }

    function Decoded(): Fields
      requires WellFormed()
    {
      Fields(Text(frame), height, width, Text(encoding), isBigendian, step, |data|, StepAt() + 8)
    }

    predicate IsText(utf8: Utf8)
    {
      utf8(Text(frame)) && utf8(Text(encoding))
    }
  }

  // --- pieces and the places where they lie ---

  predicate At(body: seq<Byte>, pos: nat, piece: seq<Byte>)
  {
    pos + |piece| <= |body| && body[pos..pos + |piece|] == piece
  }

  function Offset(pieces: seq<seq<Byte>>, i: nat): nat
    requires i <= |pieces|
  {
    if i == 0 then 0 else Offset(pieces, i - 1) + |pieces[i - 1]|
  }

  lemma {:induction false} OffsetOfPrefix(pieces: seq<seq<Byte>>, k: nat, i: nat)
    requires i <= k <= |pieces|
    ensures Offset(pieces[..k], i) == Offset(pieces, i)
  {
    if i > 0 {
      OffsetOfPrefix(pieces, k, i - 1);
    }
  }

  lemma {:induction false} FlattenLength(pieces: seq<seq<Byte>>)
    ensures |Flatten(pieces)| == Offset(pieces, |pieces|)
  {
    if pieces != [] {
      FlattenLength(pieces[..|pieces| - 1]);
      OffsetOfPrefix(pieces, |pieces| - 1, |pieces| - 1);
    }
  }

  lemma {:induction false} PieceAt(pieces: seq<seq<Byte>>, i: nat)
    requires i < |pieces|
    ensures At(Flatten(pieces), Offset(pieces, i), pieces[i])
  {
    var front, last := pieces[..|pieces| - 1], pieces[|pieces| - 1];
    FlattenLength(front);
    OffsetOfPrefix(pieces, |front|, |front|);
    if i < |front| {
      PieceAt(front, i);
      OffsetOfPrefix(pieces, |front|, i);
      var pos, n := Offset(pieces, i), |pieces[i]|;
      assert Flatten(pieces)[pos..pos + n] == Flatten(front)[pos..pos + n];
    }
  }

  /** The first k pieces lie at their places. */
  predicate AllAt(body: seq<Byte>, pieces: seq<seq<Byte>>, k: nat)
    requires k <= |pieces|
  {
    k == 0 || (AllAt(body, pieces, k - 1) && At(body, Offset(pieces, k - 1), pieces[k - 1]))
  }

  /** Then the body begins with these pieces, one after the other. */
  lemma {:induction false} Reassemble(body: seq<Byte>, pieces: seq<seq<Byte>>, k: nat)
    requires k <= |pieces| && AllAt(body, pieces, k)
    ensures Offset(pieces, k) <= |body| && Flatten(pieces[..k]) == body[..Offset(pieces, k)]
  {
    if k > 0 {
      var pos, last := Offset(pieces, k - 1), pieces[k - 1];
      Reassemble(body, pieces, k - 1);
      assert pieces[..k][..k - 1] == pieces[..k - 1];
      assert body[..pos + |last|] == body[..pos] + body[pos..pos + |last|];
    }
  }

  predicate NumberAt(body: seq<Byte>, pos: nat, n: UInt32)
  {
    pos + 4 <= |body| && U32At(body, pos) == n
  }

  lemma NumberAtExact(body: seq<Byte>, pos: nat, n: UInt32)
    ensures NumberAt(body, pos, n) <==> At(body, pos, U32(n))
  {
    BytesOfU32(n);
    if pos + 4 <= |body| {
      var b := body[pos..pos + 4];
      assert b == [body[pos], body[pos + 1], body[pos + 2], body[pos + 3]];
      U32OfBytes(b[0], b[1], b[2], b[3]);
    }
  }

  /** The layout of a body, with explicit offsets. */
  predicate Laid(body: seq<Byte>, w: Wire)
    requires w.WellFormed()
  {
    && At(body, 0, w.stamp) && NumberAt(body, 8, |w.frame|) && At(body, 12, w.frame)
    && At(body, 12 + |w.frame|, w.pad1)
    && NumberAt(body, w.HeightAt(), w.height) && NumberAt(body, w.HeightAt() + 4, w.width)
    && NumberAt(body, w.HeightAt() + 8, |w.encoding|) && At(body, w.HeightAt() + 12, w.encoding)
    && At(body, w.FlagAt(), [w.isBigendian]) && At(body, w.FlagAt() + 1, w.pad2)
    && NumberAt(body, w.StepAt(), w.step) && NumberAt(body, w.StepAt() + 4, |w.data|)
    && At(body, w.StepAt() + 8, w.data) && At(body, w.StepAt() + 8 + |w.data|, w.tail)
    && |body| == w.StepAt() + 8 + |w.data| + |w.tail|
  }

  lemma NumbersAtExact(body: seq<Byte>, w: Wire)
    requires w.WellFormed()
    ensures NumberAt(body, 8, |w.frame|) <==> At(body, 8, U32(|w.frame|))
    ensures NumberAt(body, w.HeightAt(), w.height) <==> At(body, w.HeightAt(), U32(w.height))
    ensures NumberAt(body, w.HeightAt() + 4, w.width) <==> At(body, w.HeightAt() + 4, U32(w.width))
    ensures NumberAt(body, w.HeightAt() + 8, |w.encoding|) <==> At(body, w.HeightAt() + 8, U32(|w.encoding|))
    ensures NumberAt(body, w.StepAt(), w.step) <==> At(body, w.StepAt(), U32(w.step))
    ensures NumberAt(body, w.StepAt() + 4, |w.data|) <==> At(body, w.StepAt() + 4, U32(|w.data|))
  {
    NumberAtExact(body, 8, |w.frame|);
    NumberAtExact(body, w.HeightAt(), w.height);
    NumberAtExact(body, w.HeightAt() + 4, w.width);
    NumberAtExact(body, w.HeightAt() + 8, |w.encoding|);
    NumberAtExact(body, w.StepAt(), w.step);
    NumberAtExact(body, w.StepAt() + 4, |w.data|);
  }

  lemma Offsets(w: Wire)
    requires w.WellFormed()
    ensures var p := w.Pieces();
            && |p| == 14 && Offset(p, 0) == 0 && Offset(p, 1) == 8 && Offset(p, 2) == 12
            && Offset(p, 3) == 12 + |w.frame| && Offset(p, 4) == w.HeightAt()
            && Offset(p, 5) == w.HeightAt() + 4 && Offset(p, 6) == w.HeightAt() + 8
            && Offset(p, 7) == w.HeightAt() + 12 && Offset(p, 8) == w.FlagAt() && Offset(p, 9) == w.FlagAt() + 1
            && Offset(p, 10) == w.StepAt() && Offset(p, 11) == w.StepAt() + 4 && Offset(p, 12) == w.StepAt() + 8
            && Offset(p, 13) == w.StepAt() + 8 + |w.data|
            && Offset(p, 14) == w.StepAt() + 8 + |w.data| + |w.tail|
  {
    var p := w.Pieces();
    assert Offset(p, 3) == Offset(p, 2) + |p[2]|;
    assert Offset(p, 6) == Offset(p, 5) + |p[5]|;
    assert Offset(p, 9) == Offset(p, 8) + |p[8]|;
    assert Offset(p, 12) == Offset(p, 11) + |p[11]|;
  }

  lemma RenderIsLaid(w: Wire)
    requires w.WellFormed()
    ensures Laid(w.Render(), w)
  {
    var p := w.Pieces();
    Offsets(w);
    FlattenLength(p);
    forall i | 0 <= i < 14 ensures At(w.Render(), Offset(p, i), p[i]) {
      PieceAt(p, i);
    }
    NumbersAtExact(w.Render(), w);
    assert p[0] == w.stamp && p[1] == U32(|w.frame|) && p[2] == w.frame && p[3] == w.pad1;
  }

  lemma LaidIsRender(body: seq<Byte>, w: Wire)
    requires w.WellFormed() && Laid(body, w)
    ensures body == w.Render()
  {
    var p := w.Pieces();
    Offsets(w);
    NumbersAtExact(body, w);
    assert AllAt(body, p, 2);
    assert AllAt(body, p, 4);
    assert AllAt(body, p, 6);
    assert AllAt(body, p, 8);
    assert AllAt(body, p, 10);
    assert AllAt(body, p, 12);
    Reassemble(body, p, 14);
    assert p[..14] == p && body[..|body|] == body;
  }

  // --- reading what lies at a place ---

  lemma {:induction false} TakeAt(body: seq<Byte>, pos0: nat, pos: nat, n: UInt32)
    requires NumberAt(body, pos, n) && pos == Align4(pos0)
    ensures Take(body, pos0) == Success((n, pos + 4))
  {
  }

  lemma {:induction false} ReadStringAt(utf8: Utf8, body: seq<Byte>, pos: nat, raw: seq<Byte>)
    requires |raw| < 0x1_0000_0000 && NumberAt(body, pos, |raw|) && At(body, pos + 4, raw)
    requires pos == Align4(pos) && utf8(Text(raw))
    ensures ReadString(utf8, body, pos) == Success((Text(raw), pos + 4 + |raw|))
  {
    assert ReadU32(body, pos) == Success(|raw|);
    assert body[pos + 4..pos + 4 + |raw|] == raw;
  }

  /** Where the four fields that the head walk reads end. */
  predicate HeadEnds(utf8: Utf8, body: seq<Byte>, r: Head, p1: nat, p2: nat, p3: nat)
  {
    && ReadString(utf8, body, 8) == Success((r.frameId, p1))
    && Take(body, p1) == Success((r.height, p2)) && Take(body, p2) == Success((r.width, p3))
    && ReadString(utf8, body, p3) == Success((r.encoding, r.pos))
  }

  lemma HeadEndsWalked(utf8: Utf8, body: seq<Byte>, r: Head, p1: nat, p2: nat, p3: nat)
    requires HeadEnds(utf8, body, r, p1, p2, p3)
    ensures WalkHead(utf8, body) == Success(r)
  {
  }

  lemma HeadAt(utf8: Utf8, w: Wire, body: seq<Byte>)
    requires w.WellFormed() && w.IsText(utf8) && Laid(body, w)
    ensures WalkHead(utf8, body) == Success(Head(Text(w.frame), w.height, w.width, Text(w.encoding), w.FlagAt()))
  {
    var r := Head(Text(w.frame), w.height, w.width, Text(w.encoding), w.FlagAt());
    LaidHead(body, w, r);
    HeadWalked(utf8, body, w.frame, w.encoding, w.HeightAt(), r);
  }

  /** The head of a body, with the height at h. */
  predicate HeadPlaces(body: seq<Byte>, frame: seq<Byte>, encoding: seq<Byte>, h: nat, r: Head)
  {
    && |frame| < 0x1_0000_0000 && |encoding| < 0x1_0000_0000
    && NumberAt(body, 8, |frame|) && At(body, 12, frame)
    && NumberAt(body, h, r.height) && NumberAt(body, h + 4, r.width)
    && NumberAt(body, h + 8, |encoding|) && At(body, h + 12, encoding)
    && r.frameId == Text(frame) && r.encoding == Text(encoding) && r.pos == h + 12 + |encoding|
  }

  lemma LaidHead(body: seq<Byte>, w: Wire, r: Head)
    requires w.WellFormed() && Laid(body, w)
    requires r == Head(Text(w.frame), w.height, w.width, Text(w.encoding), w.FlagAt())
    ensures HeadPlaces(body, w.frame, w.encoding, w.HeightAt(), r)
  {
  }

  lemma {:induction false} HeadLaid(utf8: Utf8, body: seq<Byte>, frame: seq<Byte>, encoding: seq<Byte>, h: nat, r: Head)
    requires HeadPlaces(body, frame, encoding, h, r) && h == Align4(12 + |frame|)
    requires utf8(r.frameId) && utf8(r.encoding)
    ensures HeadEnds(utf8, body, r, 12 + |frame|, h + 4, h + 8)
  {
    Align4Again(12 + |frame|);
    ReadStringAt(utf8, body, 8, frame);
    TakeAt(body, 12 + |frame|, h, r.height);
    RestLaid(utf8, body, encoding, h, r);
  }

  lemma {:induction false} HeadWalked(utf8: Utf8, body: seq<Byte>, frame: seq<Byte>, encoding: seq<Byte>, h: nat,
                                      r: Head)
    requires HeadPlaces(body, frame, encoding, h, r) && h == Align4(12 + |frame|)
    requires utf8(r.frameId) && utf8(r.encoding)
    ensures WalkHead(utf8, body) == Success(r)
  {
    HeadLaid(utf8, body, frame, encoding, h, r);
    HeadEndsWalked(utf8, body, r, 12 + |frame|, h + 4, h + 8);
  }

  /** The width and the encoding, behind the aligned height. */
  lemma RestLaid(utf8: Utf8, body: seq<Byte>, encoding: seq<Byte>, h: nat, r: Head)
    requires |encoding| < 0x1_0000_0000 && Align4(h + 4) == h + 4 && Align4(h + 8) == h + 8
    requires NumberAt(body, h + 4, r.width) && NumberAt(body, h + 8, |encoding|)
    requires utf8(Text(encoding)) && At(body, h + 12, encoding)
    ensures Take(body, h + 4) == Success((r.width, h + 8))
    ensures ReadString(utf8, body, h + 8) == Success((Text(encoding), h + 12 + |encoding|))
  {
    TakeAt(body, h + 4, h + 4, r.width);
    ReadStringAt(utf8, body, h + 8, encoding);
  }

  lemma TailAt(w: Wire, body: seq<Byte>, h: Head)
    requires w.WellFormed() && Laid(body, w) && h.pos == w.FlagAt()
    ensures WalkTail(body, h) == Success(Fields(h.frameId, h.height, h.width, h.encoding, w.isBigendian,
                                                w.step, |w.data|, w.StepAt() + 8))
  {
    var flag, step := w.FlagAt(), w.StepAt();
    assert body[flag] == body[flag..flag + 1][0];
    Align4Again(flag + 1);
    TakeAt(body, flag + 1, step, w.step);
    TakeAt(body, step + 4, step + 4, |w.data|);
  }

  /** Walking a rendered body recovers its parts. */
  lemma WalkRender(utf8: Utf8, w: Wire)
    requires w.WellFormed() && w.IsText(utf8)
    ensures Walk(utf8, w.Render()) == Success(w.Decoded())
  {
    RenderIsLaid(w);
    WalkLaid(utf8, w, w.Render());
  }

  lemma WalkLaid(utf8: Utf8, w: Wire, body: seq<Byte>)
    requires w.WellFormed() && w.IsText(utf8) && Laid(body, w)
    ensures Walk(utf8, body) == Success(w.Decoded())
  {
    var h := Head(Text(w.frame), w.height, w.width, Text(w.encoding), w.FlagAt());
    HeadAt(utf8, w, body);
    TailAt(w, body, h);
    WalkInParts(utf8, body, h);
  }

  lemma WalkInParts(utf8: Utf8, body: seq<Byte>, h: Head)
    requires WalkHead(utf8, body) == Success(h)
    ensures Walk(utf8, body) == WalkTail(body, h)
  {
  }

  // --- a body that is walked through is a rendered one ---

  /** The parts of a body that the walk accepts and that holds the data it declares. */
  lemma Parts(utf8: Utf8, body: seq<Byte>) returns (w: Wire)
    requires Walk(utf8, body).Success?
    requires Walk(utf8, body).value.pos + Walk(utf8, body).value.dataLen <= |body|
    ensures w.WellFormed() && w.IsText(utf8) && w.Render() == body
    ensures Walk(utf8, body).value == w.Decoded()
  {
    var r := WalkHead(utf8, body).value;
    var p1, p2, p3 := WalkHeadEnds(utf8, body);
    HeadParts(utf8, body, r, p1, p2, p3);
    w := TailParts(body, r, p1, Align4(p1));
    LaidIsRender(body, w);
  }

  /** Where the frame id ends and the height begins, with what the walk has read so far. */
  predicate Separated(body: seq<Byte>, r: Head, end: nat, h: nat)
  {
    && 12 <= end <= h == Align4(end) && h + 12 <= r.pos <= |body|
    && end - 12 < 0x1_0000_0000 && r.pos - (h + 12) < 0x1_0000_0000
    && NumberAt(body, 8, end - 12) && NumberAt(body, h, r.height) && NumberAt(body, h + 4, r.width)
    && NumberAt(body, h + 8, r.pos - (h + 12))
    && r.frameId == Text(body[12..end]) && r.encoding == Text(body[h + 12..r.pos])
  }

  lemma {:induction false} TakeParts(body: seq<Byte>, pos: nat)
    requires Take(body, pos).Success?
    ensures var (n, end) := Take(body, pos).value;
            pos <= Align4(pos) && end == Align4(pos) + 4 <= |body| && NumberAt(body, Align4(pos), n)
  {
    Align4Exact(pos);
  }

  lemma {:induction false} StringParts(utf8: Utf8, body: seq<Byte>, pos: nat)
    requires ReadString(utf8, body, pos).Success? && Align4(pos) == pos
    ensures var (text, end) := ReadString(utf8, body, pos).value;
            && pos + 4 <= end <= |body| && end - pos - 4 < 0x1_0000_0000
            && NumberAt(body, pos, end - pos - 4) && text == Text(body[pos + 4..end]) && utf8(text)
  {
  }

  lemma WalkHeadEnds(utf8: Utf8, body: seq<Byte>) returns (p1: nat, p2: nat, p3: nat)
    requires WalkHead(utf8, body).Success?
    ensures HeadEnds(utf8, body, WalkHead(utf8, body).value, p1, p2, p3)
  {
    p1 := ReadString(utf8, body, 8).value.1;
    p2 := Take(body, p1).value.1;
    p3 := Take(body, p2).value.1;
  }

  lemma {:induction false} HeadParts(utf8: Utf8, body: seq<Byte>, r: Head, p1: nat, p2: nat, p3: nat)
    requires HeadEnds(utf8, body, r, p1, p2, p3)
    ensures Separated(body, r, p1, Align4(p1)) && utf8(r.frameId) && utf8(r.encoding)
  {
    StringParts(utf8, body, 8);
    TakeParts(body, p1);
    Align4Again(p1);
    TakeParts(body, p2);
    StringParts(utf8, body, p3);
  }

  lemma TailParts(body: seq<Byte>, r: Head, end: nat, h: nat) returns (w: Wire)
    requires Separated(body, r, end, h) && WalkTail(body, r).Success?
    requires WalkTail(body, r).value.pos + WalkTail(body, r).value.dataLen <= |body|
    ensures w.WellFormed() && Laid(body, w) && WalkTail(body, r).value == w.Decoded()
    ensures w.frame == body[12..end] && w.encoding == body[h + 12..r.pos]
  {
    var f, step := WalkTail(body, r).value, Align4(r.pos + 1);
    TakeParts(body, r.pos + 1);
    Align4Again(r.pos + 1);
    TakeParts(body, step + 4);
    w := Cut(body, r, end, h, step, f.step, f.dataLen);
  }

  lemma Cut(body: seq<Byte>, r: Head, end: nat, h: nat, step: nat, stepValue: UInt32, n: UInt32) returns (w: Wire)
    requires Separated(body, r, end, h)
    requires r.pos < step == Align4(r.pos + 1) && step + 8 + n <= |body|
    requires NumberAt(body, step, stepValue) && NumberAt(body, step + 4, n)
    ensures w.WellFormed() && Laid(body, w)
    ensures w.frame == body[12..end] && w.encoding == body[h + 12..r.pos]
    ensures w.Decoded() == Fields(r.frameId, r.height, r.width, r.encoding, body[r.pos], stepValue, n, step + 8)
  {
    w := Wire(body[..8], body[12..end], body[end..h], r.height, r.width, body[h + 12..r.pos], body[r.pos],
              body[r.pos + 1..step], stepValue, body[step + 8..step + 8 + n], body[step + 8 + n..]);
    CutLengths(body, w, end, h, r.pos, step);
    CutIsLaid(body, w, end, h, r.pos, step);
  }

  lemma CutLengths(body: seq<Byte>, w: Wire, end: nat, h: nat, flag: nat, step: nat)
    requires 12 <= end <= h && h + 12 <= flag < step && step + 8 <= |body|
    requires w.frame == body[12..end] && w.pad1 == body[end..h] && w.encoding == body[h + 12..flag]
    requires w.pad2 == body[flag + 1..step]
    ensures Places(w, end, h, flag, step)
  {
  }

  predicate Places(w: Wire, end: nat, h: nat, flag: nat, step: nat)
  {
    12 + |w.frame| == end && w.HeightAt() == h && w.FlagAt() == flag && w.StepAt() == step
  }

  lemma CutIsLaid(body: seq<Byte>, w: Wire, end: nat, h: nat, flag: nat, step: nat)
    requires w.WellFormed() && Places(w, end, h, flag, step) && step + 8 + |w.data| <= |body|
    requires w.stamp == body[..8] && NumberAt(body, 8, |w.frame|) && w.frame == body[12..end]
    requires w.pad1 == body[end..h] && NumberAt(body, h, w.height) && NumberAt(body, h + 4, w.width)
    requires NumberAt(body, h + 8, |w.encoding|) && w.encoding == body[h + 12..flag]
    requires w.isBigendian == body[flag] && w.pad2 == body[flag + 1..step]
    requires NumberAt(body, step, w.step) && NumberAt(body, step + 4, |w.data|)
    requires w.data == body[step + 8..step + 8 + |w.data|] && w.tail == body[step + 8 + |w.data|..]
    ensures Laid(body, w)
  {
  }

  /** What the gate demands of the parts. */
  predicate Meets(w: Wire, utf8: Utf8, e: Expected)
  {
    && w.WellFormed() && w.IsText(utf8)
    && w.width == e.width && w.height == e.height && w.step == e.step && Spells(w.encoding, e.encoding)
    && |w.data| == w.step * w.height
  }

  /** The gate accepts exactly the header followed by a rendered body that meets the expectation. */
  lemma GateExact(utf8: Utf8, buf: seq<Byte>, e: Expected)
    ensures Gate(utf8, buf, e).Success? <==>
            exists w: Wire :: Meets(w, utf8, e) && buf == [0, 1, 0, 0] + w.Render()
  {
    if Gate(utf8, buf, e).Success? {
      var w := Parts(utf8, buf[4..]);
      TextExact(w.encoding, e.encoding);
      assert buf == CDR_LE_HEADER + w.Render() && Meets(w, utf8, e);
    }
    if w: Wire :| Meets(w, utf8, e) && buf == [0, 1, 0, 0] + w.Render() {
      assert buf[4..] == w.Render();
      GateAccepts(utf8, buf, w, e);
    }
  }

  lemma GateAccepts(utf8: Utf8, buf: seq<Byte>, w: Wire, e: Expected)
    requires Meets(w, utf8, e) && CDR_LE_HEADER <= buf && buf[4..] == w.Render()
    ensures Gate(utf8, buf, e).Success?
  {
    WalkRender(utf8, w);
    RenderIsLaid(w);
    TextExact(w.encoding, e.encoding);
  }

  // --- truncation ---

  lemma TailGrows(w: Wire, more: seq<Byte>)
    requires w.WellFormed()
    ensures var w' := w.(tail := w.tail + more);
            w'.WellFormed() && w'.Render() == w.Render() + more && w'.Decoded() == w.Decoded()
  {
    var w' := w.(tail := w.tail + more);
    assert w'.Pieces()[..13] == w.Pieces()[..13];
  }

  /** A message without a tail is no shorter than what it is an extension of. */
  lemma ExtendedParts(utf8: Utf8, w: Wire, v: Wire, more: seq<Byte>)
    requires w.WellFormed() && w.IsText(utf8) && w.tail == []
    requires v.WellFormed() && v.IsText(utf8) && v.Render() + more == w.Render()
    ensures more == []
  {
    TailGrows(v, more);
    WalkRender(utf8, v.(tail := v.tail + more));
    WalkRender(utf8, w);
    assert v.Decoded() == w.Decoded();
    RenderIsLaid(w);
    RenderIsLaid(v);
  }

  /** No strict prefix of a message without a tail passes the gate, whatever is expected. */
  lemma TruncationRejected(utf8: Utf8, w: Wire, k: nat, e: Expected)
    requires w.WellFormed() && w.IsText(utf8) && w.tail == []
    requires k < 4 + |w.Render()|
    ensures Gate(utf8, (CDR_LE_HEADER + w.Render())[..k], e).Failure?
  {
    var body, buf := w.Render(), (CDR_LE_HEADER + w.Render())[..k];
    if Gate(utf8, buf, e).Success? {
      Shortened(body, k);
      var v := Parts(utf8, buf[4..]);
      ExtendedParts(utf8, w, v, body[k - 4..]);
    }
  }

  lemma Shortened(body: seq<Byte>, k: nat)
    requires 4 <= k <= 4 + |body|
    ensures (CDR_LE_HEADER + body)[..k][4..] == body[..k - 4]
    ensures body[..k - 4] + body[k - 4..] == body
  {
  }

  // --- the encoder ---

  datatype Image = Image(
    sec: int,
    nanosec: UInt32,
    frameId: seq<Byte>,
    height: UInt32,
    width: UInt32,
    encoding: seq<Byte>,
    isBigendian: Byte,
    step: UInt32,
    data: seq<Byte>)
  {
    /** The lengths, with the null terminators, fit the 32-bit prefixes; seconds are an int32. */
    predicate Encodable()
    {
      && -0x8000_0000 <= sec < 0x8000_0000
      && |frameId| + 1 < 0x1_0000_0000 && |encoding| + 1 < 0x1_0000_0000 && |data| < 0x1_0000_0000
    }
  }

  /** Zero bytes up to the next multiple of four. */
  function Padding(n: nat): (p: seq<Byte>)
    ensures n + |p| == Align4(n)
  {
    Align4Exact(n);
    seq(Align4(n) - n, _ => 0)
  }

  /** Each string carries its terminator, each 32-bit field starts at a multiple of four. */
  function ToWire(m: Image): (w: Wire)
    requires m.Encodable()
    ensures w.WellFormed()
  {
    Wire(U32(m.sec % 0x1_0000_0000) + U32(m.nanosec), m.frameId + [0], Padding(12 + |m.frameId| + 1),
         m.height, m.width, m.encoding + [0], m.isBigendian,
         Padding(Align4(12 + |m.frameId| + 1) + 12 + |m.encoding| + 2), m.step, m.data, [])
  }

  function Encode(m: Image): seq<Byte>
    requires m.Encodable()
  {
    CDR_LE_HEADER + ToWire(m).Render()
  }

  /** Walking an encoded Image recovers its fields, whatever the lengths of its strings. */
  lemma WalkEncode(utf8: Utf8, m: Image)
    requires m.Encodable() && utf8(m.frameId) && utf8(m.encoding)
    ensures var body, r := Encode(m)[4..], Walk(utf8, Encode(m)[4..]);
            && r.Success? && r.value.pos <= |body|
            && r.value.frameId == m.frameId && r.value.encoding == m.encoding
            && r.value.height == m.height && r.value.width == m.width
            && r.value.isBigendian == m.isBigendian && r.value.step == m.step
            && r.value.dataLen == |m.data| && body[r.value.pos..] == m.data
  {
    var w := ToWire(m);
    assert Text(w.frame) == m.frameId && Text(w.encoding) == m.encoding;
    WalkRender(utf8, w);
    assert Encode(m)[4..] == w.Render();
    RenderIsLaid(w);
  }

  /** The stamp stands in front of what the walk reads: seconds in two's complement, then nanoseconds. */
  lemma StampEncode(m: Image)
    requires m.Encodable()
    ensures var body := Encode(m)[4..];
            && NumberAt(body, 0, if m.sec < 0 then m.sec + 0x1_0000_0000 else m.sec)
            && NumberAt(body, 4, m.nanosec)
  {
    TwosComplement(m.sec);
    StampAt(ToWire(m));
    TwoNumbers(ToWire(m).Render(), m.sec % 0x1_0000_0000, m.nanosec);
    assert Encode(m)[4..] == ToWire(m).Render();
  }

  lemma TwosComplement(n: int)
    requires -0x8000_0000 <= n < 0x8000_0000
    ensures n % 0x1_0000_0000 == if n < 0 then n + 0x1_0000_0000 else n
  {
  }

  lemma StampAt(w: Wire)
    requires w.WellFormed()
    ensures At(w.Render(), 0, w.stamp)
  {
    RenderIsLaid(w);
  }

  lemma TwoNumbers(body: seq<Byte>, a: UInt32, b: UInt32)
    requires At(body, 0, U32(a) + U32(b))
    ensures NumberAt(body, 0, a) && NumberAt(body, 4, b)
  {
    assert body[0..4] == body[0..8][..4] && body[4..8] == body[0..8][4..];
    NumberAtExact(body, 0, a);
    NumberAtExact(body, 4, b);
  }

  /** The gate passes an encoded Image exactly when its fields are the expected ones and the data fill it. */
  lemma GateEncode(utf8: Utf8, m: Image, e: Expected)
    requires m.Encodable() && utf8(m.frameId) && utf8(m.encoding)
    ensures Gate(utf8, Encode(m), e).Success? <==>
            && m.width == e.width && m.height == e.height && m.step == e.step && m.encoding == e.encoding
            && |m.data| == m.step * m.height
  {
    WalkEncode(utf8, m);
    assert |Encode(m)| == 4 + |Encode(m)[4..]|;
  }

  /** Otherwise it names the first of its fields that differs, in the order width, height, encoding, step. */
  lemma GateReports(utf8: Utf8, m: Image, e: Expected)
    requires m.Encodable() && utf8(m.frameId) && utf8(m.encoding)
    ensures var r := Gate(utf8, Encode(m), e);
            && (m.width != e.width ==> r == Failure(WrongWidth))
            && (m.width == e.width && m.height != e.height ==> r == Failure(WrongHeight))
            && (m.width == e.width && m.height == e.height && m.encoding != e.encoding ==> r == Failure(WrongEncoding))
            && (m.width == e.width && m.height == e.height && m.encoding == e.encoding && m.step != e.step ==>
                  r == Failure(WrongStep))
            && (e == Expected(m.width, m.height, m.step, m.encoding) && |m.data| != m.step * m.height ==>
                  r == Failure(WrongDataLength))
  {
    WalkEncode(utf8, m);
    assert |Encode(m)| == 4 + |Encode(m)[4..]|;
  }

  /** A body that is cut off within its data is reported as such, whatever else is wrong with it. */
  lemma ShortDataReported(utf8: Utf8, buf: seq<Byte>, f: Fields, e: Expected)
    requires [0, 1, 0, 0] <= buf && Walk(utf8, buf[4..]) == Success(f)
    ensures Gate(utf8, buf, e) == Failure(ShortData) <==> |buf| < 4 + f.pos + f.dataLen
  {
  }

  /** Only the first four bytes decide whether the header is bad. */
  lemma HeaderReported(utf8: Utf8, buf: seq<Byte>, e: Expected)
    ensures Gate(utf8, buf, e) == Failure(BadHeader) <==> |buf| < 4 || buf[..4] != [0, 1, 0, 0]
  {
    if CDR_LE_HEADER <= buf {
      WalkErrors(utf8, buf[4..]);
    }
  }

  lemma WalkErrors(utf8: Utf8, body: seq<Byte>)
    ensures Walk(utf8, body).Failure? ==> Walk(utf8, body).error in {Malformed, ShortString}
  {
  }

  // --- the String gate ---

  function GateString(utf8: Utf8, buf: seq<Byte>, expected: seq<Byte>): Result<seq<Byte>, Reject>
  {
    if !(CDR_LE_HEADER <= buf) then Failure(BadHeader)
    else if |buf| < 8 then Failure(Malformed)
    else
      var length := U32At(buf, 4);
      if |buf| < 8 + length then Failure(ShortString)
      else if length == 0 || buf[8 + length - 1] != 0 then Failure(NotTerminated)
      else
        var text := buf[8..8 + length - 1];
        if !utf8(text) then Failure(Malformed)
        else if !(expected <= text) then Failure(WrongText) else Success(text)
  }

  method AssertString(utf8: Utf8, buf: seq<Byte>, expected: seq<Byte>) returns (r: Result<seq<Byte>, Reject>)
    ensures r == GateString(utf8, buf, expected)
  {
    if |buf| < 4 || buf[0..4] != CDR_LE_HEADER {
      return Failure(BadHeader);
    }
    if |buf| < 8 {
      return Failure(Malformed);
    }
    var length := U32At(buf, 4);
    var body := buf[8..if 8 + length <= |buf| then 8 + length else |buf|];
    if |body| != length {
      return Failure(ShortString);
    }
    if length == 0 || body[|body| - 1] != 0 {
      return Failure(NotTerminated);
    }
    var text := body[..|body| - 1];
    assert text == buf[8..8 + length - 1];
    if !utf8(text) {
      return Failure(Malformed);
    }
    if !(expected <= text) {
      return Failure(WrongText);
    }
    r := Success(text);
  }

  /** A String passes exactly when it is header, length, text, terminator, and then anything. */
  lemma GateStringExact(utf8: Utf8, buf: seq<Byte>, expected: seq<Byte>, text: seq<Byte>)
    ensures GateString(utf8, buf, expected) == Success(text) <==>
            && utf8(text) && expected <= text && |text| + 1 < 0x1_0000_0000
            && [0, 1, 0, 0] + U32(|text| + 1) + text + [0] <= buf
  {
    if GateString(utf8, buf, expected) == Success(text) {
      NumberAtExact(buf, 4, |text| + 1);
      assert buf[..8 + |text| + 1] == CDR_LE_HEADER + U32(|text| + 1) + text + [0];
    }
    if |text| + 1 < 0x1_0000_0000 && [0, 1, 0, 0] + U32(|text| + 1) + text + [0] <= buf {
      StringPlaces(buf, text);
    }
  }

  /** Behind the header and a length, the first of these to apply is reported. */
  lemma {:induction false} GateStringReports(utf8: Utf8, n: UInt32, rest: seq<Byte>, expected: seq<Byte>)
    ensures GateString(utf8, [0, 1, 0, 0] + U32(n) + rest, expected) ==
            if |rest| < n then Failure(ShortString)
            else if n == 0 || rest[n - 1] != 0 then Failure(NotTerminated)
            else if !utf8(rest[..n - 1]) then Failure(Malformed)
            else if !(expected <= rest[..n - 1]) then Failure(WrongText)
            else Success(rest[..n - 1])
  {
    var buf := [0, 1, 0, 0] + U32(n) + rest;
    assert buf[..4] == CDR_LE_HEADER && buf[4..8] == U32(n) && buf[8..] == rest;
    NumberAtExact(buf, 4, n);
    if 0 < n <= |rest| {
      assert buf[8..8 + n - 1] == rest[..n - 1];
    }
  }

  /** A string fails as short exactly if its length is there and runs past the end; all other failures are malformed. */
  lemma {:induction false} ReadStringReports(utf8: Utf8, body: seq<Byte>, pos: nat)
    requires ReadString(utf8, body, pos).Failure?
    ensures ReadString(utf8, body, pos).error == Malformed || ReadString(utf8, body, pos).error == ShortString
    ensures ReadString(utf8, body, pos).error == ShortString <==>
              Align4(pos) + 4 <= |body| && |body| < Align4(pos) + 4 + U32At(body, Align4(pos))
  {
  }

  lemma StringPlaces(buf: seq<Byte>, text: seq<Byte>)
    requires |text| + 1 < 0x1_0000_0000 && [0, 1, 0, 0] + U32(|text| + 1) + text + [0] <= buf
    ensures CDR_LE_HEADER <= buf && NumberAt(buf, 4, |text| + 1) && 9 + |text| <= |buf|
    ensures buf[8..8 + |text|] == text && buf[8 + |text|] == 0
  {
    var whole := CDR_LE_HEADER + U32(|text| + 1) + text + [0];
    assert whole == buf[..|whole|];
    assert buf[4..8] == whole[4..8] == U32(|text| + 1);
    NumberAtExact(buf, 4, |text| + 1);
    assert buf[8..8 + |text|] == whole[8..8 + |text|] == text;
    assert buf[8 + |text|] == whole[8 + |text|] == 0;
    assert buf[..4] == whole[..4];
  }
}
