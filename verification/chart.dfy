/** The note chart: a byte file read forward four bytes (one per lane) per
    25 ms frame, each byte unpacked into eight note slots, low bit first.
    Slot 7 is the note that is due now; lower slots are still approaching.
 */
module Chart {
  import opened CArith

  const LANES: nat := 4
  const SLOTS: nat := 8

  /** One `unsigned char` read from the note file. */
  type Byte = x: int | 0 <= x < 256

  /** One lane of a frame: `bool[8]`, slot i set when a note is at position i. */
  type Lane = seq<bool>

  /** The `notes[4][8]` array: four lanes of eight slots. */
  type Frame = seq<Lane>

  predicate WellFormed(f: Frame)
  {
    |f| == LANES && forall i :: 0 <= i < |f| ==> |f[i]| == SLOTS
  }

  /** A lane with no notes. */
  function EmptyLane(): (l: Lane)
    ensures |l| == SLOTS
    ensures forall j :: 0 <= j < SLOTS ==> !l[j]
  {
    seq(SLOTS, _ => false)
  }

  /** The frame with no notes anywhere. */
  function EmptyFrame(): (f: Frame)
    ensures WellFormed(f)
    ensures forall i, j :: 0 <= i < LANES && 0 <= j < SLOTS ==> !f[i][j]
  {
    seq(LANES, _ => EmptyLane())
  }

  /** `(c & (1 << i)) != 0`: bit i of c is set. */
  predicate BitSet(c: nat, i: nat)
  {
    (c / Pow2(i)) % 2 == 1
  }

  /** byteToArr: unpack one chart byte into eight slots, slot i from bit i. */
  function ByteToArr(c: Byte): (b: Lane)
    ensures |b| == SLOTS
  {
    seq(SLOTS, i requires 0 <= i < SLOTS => BitSet(c, i))
  }

  /** The number a slot array stands for: the sum of 2^i over its set slots. */
  function Weight(b: seq<bool>): nat
  {
    if |b| == 0 then 0
    else Weight(b[..|b| - 1]) + (if b[|b| - 1] then Pow2(|b| - 1) else 0)
  }

  /** Taking one more low bit of c adds that bit's place value to the remainder. */
  lemma ModPow2Step(c: nat, k: nat)
    ensures c % Pow2(k + 1) == c % Pow2(k) + (if BitSet(c, k) then Pow2(k) else 0)
  {
    var p := Pow2(k);
    assert Pow2(k + 1) == 2 * p;
    var q, r := c / p, c % p;
    assert c == q * p + r;
    var h, l := q / 2, q % 2;
    assert q == 2 * h + l;
    var low := if l == 1 then p else 0;
    assert l * p == low;
    assert q * p == h * (2 * p) + low by {
      Distribute(2 * h, l, p);
      assert (2 * h) * p == h * (2 * p);
    }
    DivModUnique(c, 2 * p, h, low + r);
    assert BitSet(c, k) <==> l == 1;
  }

  /** (a + b) * c == a * c + b * c, stated once for the arithmetic above. */
  lemma Distribute(a: int, b: int, c: int)
    ensures (a + b) * c == a * c + b * c
  {
  }

  /** The first k slots of the unpacked byte add up to the byte's k low bits. */
  lemma {:induction false} WeightOfPrefix(c: Byte, k: nat)
    requires k <= SLOTS
    ensures Weight(ByteToArr(c)[..k]) == c % Pow2(k)
  {
    if k > 0 {
      var b := ByteToArr(c);
      assert b[..k][..k - 1] == b[..k - 1];
      WeightOfPrefix(c, k - 1);
      ModPow2Step(c, k - 1);
    }
  }

  /** byteToArr loses nothing: the slots read back as the byte they came from. */
  lemma ByteToArrWeight(c: Byte)
    ensures Weight(ByteToArr(c)) == c
  {
    WeightOfPrefix(c, SLOTS);
    assert ByteToArr(c)[..SLOTS] == ByteToArr(c);
    assert Pow2(8) == 256 by {
      assert Pow2(4) == 16;
    }
  }

  /** Distinct bytes unpack to distinct slot arrays. */
  lemma ByteToArrInjective(c1: Byte, c2: Byte)
    ensures ByteToArr(c1) == ByteToArr(c2) <==> c1 == c2
  {
    ByteToArrWeight(c1);
    ByteToArrWeight(c2);
  }

  /** Unpacking 0x00 gives an all-false lane. */
  lemma ByteToArrZero()
    ensures ByteToArr(0) == EmptyLane()
  {
    forall i | 0 <= i < SLOTS
      ensures !ByteToArr(0)[i]
    {
      assert 0 / Pow2(i) == 0;
    }
  }

  /** The open note file: its contents and the read cursor. */
  datatype NoteFile = NoteFile(bytes: seq<Byte>, pos: nat)
  {
    predicate Valid()
    {
      pos <= |bytes|
    }

    /** `note_file.available()` */
    predicate Available()
    {
      pos < |bytes|
    }
  }

  /** A freshly opened file; a missing file is an empty one that is never available. */
  function Open(bytes: seq<Byte>): (f: NoteFile)
    ensures f.Valid() && f.bytes == bytes && f.pos == 0
    ensures f.Available() <==> |bytes| > 0
  {
    NoteFile(bytes, 0)
  }

  /** What the lane read at file offset k holds: that byte, or 0x00 past the end. */
  function LaneAt(bytes: seq<Byte>, k: nat): (l: Lane)
    ensures |l| == SLOTS
  {
    if k < |bytes| then ByteToArr(bytes[k]) else ByteToArr(0)
  }

  datatype FrameRead = FrameRead(frame: Frame, rest: NoteFile)

  /** The first n iterations of updateNoteData's loop: lane i reads the next
      byte if the file has one and unpacks 0x00 otherwise. */
  function {:induction false} ReadLanes(file: NoteFile, n: nat): (r: FrameRead)
    requires file.Valid()
    ensures r.rest.Valid() && r.rest.bytes == file.bytes
    ensures r.rest.pos == Min(file.pos + n, |file.bytes|)
    ensures |r.frame| == n
    ensures forall i :: 0 <= i < n ==> r.frame[i] == LaneAt(file.bytes, file.pos + i)
    decreases n
  {
    if n == 0 then FrameRead([], file)
    else
      var prev := ReadLanes(file, n - 1);
      var f := prev.rest;
      if f.Available() then
        FrameRead(prev.frame + [ByteToArr(f.bytes[f.pos])], f.(pos := f.pos + 1))
      else
        FrameRead(prev.frame + [ByteToArr(0)], f)
  }

  /** Where one frame read leaves the file: the cursor a whole frame on, or at the end. */
  function Advance(file: NoteFile): (f: NoteFile)
    requires file.Valid()
    ensures f.Valid() && f.bytes == file.bytes
  {
    file.(pos := Min(file.pos + LANES, |file.bytes|))
  }

  /** updateNoteData: read the next frame, lanes 0..3 in file order. */
  function UpdateNoteData(file: NoteFile): (r: FrameRead)
    requires file.Valid()
    ensures WellFormed(r.frame)
    ensures r.rest.Valid() && r.rest.bytes == file.bytes
    ensures file.pos <= r.rest.pos <= file.pos + LANES
    ensures r.rest.pos == Min(file.pos + LANES, |file.bytes|) && r.rest == Advance(file)
    ensures forall i :: 0 <= i < LANES ==> r.frame[i] == LaneAt(file.bytes, file.pos + i)
    ensures forall i :: 0 <= i < LANES && file.pos + i < |file.bytes| ==>
              r.frame[i] == ByteToArr(file.bytes[file.pos + i])
    ensures forall i, j :: 0 <= i < LANES && |file.bytes| <= file.pos + i && 0 <= j < SLOTS ==>
              !r.frame[i][j]
    ensures !file.Available() ==> r.frame == EmptyFrame() && r.rest == file
  {
    var r := ReadLanes(file, LANES);
    assert !file.Available() ==> r.frame == EmptyFrame() by {
      ByteToArrZero();
    }
    r
  }

  /** Chart frame k as the file lays it out: bytes 4k..4k+3, zero-padded past the end. */
  function ChartFrame(bytes: seq<Byte>, k: nat): (f: Frame)
    ensures WellFormed(f)
  {
    var f := seq(LANES, i requires 0 <= i < LANES => LaneAt(bytes, LANES * k + i));
    assert forall i :: 0 <= i < LANES ==> f[i] == LaneAt(bytes, LANES * k + i);
    f
  }

  /** A frame lying wholly inside the file is exactly its four bytes unpacked. */
  lemma ChartFrameInside(bytes: seq<Byte>, k: nat)
    requires LANES * k + LANES <= |bytes|
    ensures forall i :: 0 <= i < LANES ==> ChartFrame(bytes, k)[i] == ByteToArr(bytes[LANES * k + i])
  {
    forall i | 0 <= i < LANES
      ensures ChartFrame(bytes, k)[i] == ByteToArr(bytes[LANES * k + i])
    {
      assert ChartFrame(bytes, k)[i] == LaneAt(bytes, LANES * k + i);
      assert LANES * k + i < |bytes|;
    }
  }

  /** A frame wholly past the end of the file has no notes. */
  lemma ChartFrameExhausted(bytes: seq<Byte>, k: nat)
    requires |bytes| <= LANES * k
    ensures ChartFrame(bytes, k) == EmptyFrame()
  {
    ByteToArrZero();
    forall i | 0 <= i < LANES
      ensures ChartFrame(bytes, k)[i] == EmptyFrame()[i]
    {
      assert LaneAt(bytes, LANES * k + i) == ByteToArr(0);
    }
  }

  /** The file after n successive calls of updateNoteData, each of which leaves
      the file at Advance of the one before. */
  function Calls(file: NoteFile, n: nat): (f: NoteFile)
    requires file.Valid()
    ensures f.Valid() && f.bytes == file.bytes
  {
    if n == 0 then file else Advance(Calls(file, n - 1))
  }

  /** Each call on a fresh file advances the cursor by a whole frame until the end. */
  lemma {:induction false} CallsPosition(bytes: seq<Byte>, k: nat)
    ensures Calls(Open(bytes), k).pos == Min(LANES * k, |bytes|)
  {
    if k > 0 {
      CallsPosition(bytes, k - 1);
      assert LANES * k == LANES * (k - 1) + LANES;
    }
  }

  /** A cursor standing at frame k's offset (or at the end) reads chart frame k. */
  lemma ReadAtFrame(f: NoteFile, k: nat)
    requires f.Valid() && f.pos == Min(LANES * k, |f.bytes|)
    ensures UpdateNoteData(f).frame == ChartFrame(f.bytes, k)
  {
    var r := UpdateNoteData(f);
    var c := ChartFrame(f.bytes, k);
    forall i | 0 <= i < LANES
      ensures r.frame[i] == c[i]
    {
      assert r.frame[i] == LaneAt(f.bytes, f.pos + i);
      assert c[i] == LaneAt(f.bytes, LANES * k + i);
    }
  }

  /** Reading a fresh file frame by frame: call k + 1 returns chart frame k, in order,
      and once the file is exhausted every further call returns the empty frame. */
  lemma StreamYieldsChart(bytes: seq<Byte>, k: nat)
    ensures UpdateNoteData(Calls(Open(bytes), k)).frame == ChartFrame(bytes, k)
  {
    CallsPosition(bytes, k);
    ReadAtFrame(Calls(Open(bytes), k), k);
  }

  /** After the file runs out the stream keeps producing the empty frame. */
  lemma StreamEndsEmpty(bytes: seq<Byte>, k: nat)
    requires |bytes| <= LANES * k
    ensures UpdateNoteData(Calls(Open(bytes), k)).frame == EmptyFrame()
  {
    StreamYieldsChart(bytes, k);
    ChartFrameExhausted(bytes, k);
  }
}
