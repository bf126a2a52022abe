/** The display wire protocol.

    Two shift-register chains are bit-banged: the note chain (a 4x8 LED matrix,
    four row-select bits then eight lane bits) and the score chain (a 3-digit
    seven-segment display, three digit-select bits then eight segment bits).
    Each send is modelled as a Burst: the data-line level present at every
    clock pulse on that chain's clock line, in order, and the number of pulses
    on its latch line afterwards.
 */
module Display {
  import opened CArith
  import opened Chart

  datatype Option<T> = None | Some(value: T)

  /** What one send puts on a chain: data bits as clocked in, then latch pulses. */
  datatype Burst = Burst(bits: seq<bool>, latches: nat)

  /** A send that touches no line of the chain. */
  const Silent: Burst := Burst([], 0)

  /** The index of the single set bit, or None when no bit or more than one is set. */
  function OneHot(s: seq<bool>): Option<nat>
  {
    if |s| == 0 then None
    else if s[0] then (if NoneSet(s[1..]) then Some(0) else None)
    else match OneHot(s[1..])
      case Some(i) => Some(i + 1)
      case None => None
  }

  predicate NoneSet(s: seq<bool>)
  {
    forall i :: 0 <= i < |s| ==> !s[i]
  }

  /** OneHot finds k exactly when bit k is the one and only set bit. */
  lemma {:induction false} OneHotSpec(s: seq<bool>, k: nat)
    ensures OneHot(s) == Some(k) <==> k < |s| && forall i :: 0 <= i < |s| ==> s[i] == (i == k)
  {
    if |s| > 0 {
      var t := s[1..];
      if s[0] {
        if k > 0 {
          assert s[0] != (0 == k);
        }
      } else {
        if k == 0 {
          assert s[0] != (0 == k);
        } else {
          OneHotSpec(t, k - 1);
          if OneHot(s) == Some(k) {
            assert OneHot(t) == Some(k - 1);
            forall i | 0 <= i < |s|
              ensures s[i] == (i == k)
            {
              if i > 0 {
                assert s[i] == t[i - 1];
              }
            }
          }
          if k < |s| && forall i :: 0 <= i < |s| ==> s[i] == (i == k) {
            forall i | 0 <= i < |t|
              ensures t[i] == (i == k - 1)
            {
              assert t[i] == s[i + 1];
            }
            assert OneHot(t) == Some(k - 1);
          }
        }
      }
    }
  }

  /** The selector with only bit k set decodes to k. */
  lemma OneHotOfSelector(n: nat, k: nat)
    requires k < n
    ensures OneHot(seq(n, i => i == k)) == Some(k)
  {
    OneHotSpec(seq(n, i => i == k), k);
  }

  // ---------------------------------------------------------------------------
  // Seven-segment table

  /** Number of segment bits: a, b, c, d, e, f, g, then dp at index 7. */
  const SEGMENTS: nat := 8

  /** Active-low levels: LIT drives a segment on, DARK leaves it off. */
  const LIT: bool := false
  const DARK: bool := true

  /** intToSevenSegment: the active-low segment pattern for a digit, blank otherwise. */
  function IntToSevenSegment(n: int): (b: seq<bool>)
    ensures |b| == SEGMENTS
    ensures b[7] == DARK
    ensures !(0 <= n <= 9) ==> forall i :: 0 <= i < SEGMENTS ==> b[i] == DARK
    ensures n == 8 ==> forall i :: 0 <= i < 7 ==> b[i] == LIT
    ensures n == 0 ==> forall i :: 0 <= i < SEGMENTS ==> (b[i] == DARK <==> i >= 6)
  {
    match n
    //      a     b     c     d     e     f     g     dp
    case 0 => [LIT,  LIT,  LIT,  LIT,  LIT,  LIT,  DARK, DARK]
    case 1 => [DARK, LIT,  LIT,  DARK, DARK, DARK, DARK, DARK]
    case 2 => [LIT,  LIT,  DARK, LIT,  LIT,  DARK, LIT,  DARK]
    case 3 => [LIT,  LIT,  LIT,  LIT,  DARK, DARK, LIT,  DARK]
    case 4 => [DARK, LIT,  LIT,  DARK, DARK, LIT,  LIT,  DARK]
    case 5 => [LIT,  DARK, LIT,  LIT,  DARK, LIT,  LIT,  DARK]
    case 6 => [LIT,  DARK, LIT,  LIT,  LIT,  LIT,  LIT,  DARK]
    case 7 => [LIT,  LIT,  LIT,  DARK, DARK, DARK, DARK, DARK]
    case 8 => [LIT,  LIT,  LIT,  LIT,  LIT,  LIT,  LIT,  DARK]
    case 9 => [LIT,  LIT,  LIT,  DARK, DARK, LIT,  LIT,  DARK]
    case _ => [DARK, DARK, DARK, DARK, DARK, DARK, DARK, DARK]
  }

  /** What a digit position shows for n: n itself when it is a single digit, else blank. */
  function Shown(n: int): Option<int>
  {
    if 0 <= n <= 9 then Some(n) else None
  }

  /** Reading a pattern back: the digit it shows, or None for blank or an unknown glyph. */
  function SegmentsToDigit(b: seq<bool>): Option<int>
  {
    FindDigit(b, 0)
  }

  function FindDigit(b: seq<bool>, k: nat): Option<int>
    decreases 10 - k
  {
    if k > 9 then None
    else if IntToSevenSegment(k) == b then Some(k)
    else FindDigit(b, k + 1)
  }

  /** Every digit has its own glyph and none of them is blank: the digit shown
      reads back as the digit sent, and anything else reads back as blank. */
  lemma SevenSegmentRoundTrip(n: int)
    ensures SegmentsToDigit(IntToSevenSegment(n)) == Shown(n)
  {
    // Each case pins the argument to a literal, so the table search is evaluated.
    match n
    case 0 => assert SegmentsToDigit(IntToSevenSegment(0)) == Some(0);
    case 1 => assert SegmentsToDigit(IntToSevenSegment(1)) == Some(1);
    case 2 => assert SegmentsToDigit(IntToSevenSegment(2)) == Some(2);
    case 3 => assert SegmentsToDigit(IntToSevenSegment(3)) == Some(3);
    case 4 => assert SegmentsToDigit(IntToSevenSegment(4)) == Some(4);
    case 5 => assert SegmentsToDigit(IntToSevenSegment(5)) == Some(5);
    case 6 => assert SegmentsToDigit(IntToSevenSegment(6)) == Some(6);
    case 7 => assert SegmentsToDigit(IntToSevenSegment(7)) == Some(7);
    case 8 => assert SegmentsToDigit(IntToSevenSegment(8)) == Some(8);
    case 9 => assert SegmentsToDigit(IntToSevenSegment(9)) == Some(9);
    case _ =>
      assert IntToSevenSegment(n) == IntToSevenSegment(-1);
      assert SegmentsToDigit(IntToSevenSegment(-1)) == None;
  }

  // ---------------------------------------------------------------------------
  // Note chain

  /** The lane shown in one LED column, as a receiver of the note chain sees it. */
  datatype ColumnImage = ColumnImage(column: int, lane: Lane)

  /** The eight lane bits of a note burst, slot 7 first. */
  function LaneBitsHighFirst(lane: Lane): seq<bool>
    requires |lane| == SLOTS
  {
    seq(SLOTS, y requires 0 <= y < SLOTS => lane[7 - y])
  }

  /** sendNoteData: the one-hot row select for `column`, then lane 3 - column
      from slot 7 down to slot 0, then one pulse on the note latch. */
  function SendNoteData(notes: Frame, column: int): (w: Burst)
    requires WellFormed(notes) && 0 <= column < LANES
    ensures |w.bits| == LANES + SLOTS && w.latches == 1
    ensures DecodeNoteColumn(w.bits) == Some(ColumnImage(column, notes[3 - column]))
  {
    var w := Burst(seq(LANES, r => r == column) + LaneBitsHighFirst(notes[3 - column]), 1);
    assert w.bits[..LANES] == seq(LANES, r => r == column);
    OneHotOfSelector(LANES, column);
    assert seq(SLOTS, j requires 0 <= j < SLOTS => w.bits[11 - j]) == notes[3 - column];
    w
  }

  /** What the LED matrix makes of twelve clocked bits: the selected column and the
      lane it shows; None unless exactly one row-select bit is set. */
  function DecodeNoteColumn(bits: seq<bool>): Option<ColumnImage>
  {
    if |bits| != LANES + SLOTS then None
    else match OneHot(bits[..LANES])
      case None => None
      case Some(c) => Some(ColumnImage(c, seq(SLOTS, j requires 0 <= j < SLOTS => bits[11 - j])))
  }

  /** The other direction: any decodable note burst is exactly what sendNoteData
      emits for its column and lane. */
  lemma NoteColumnDecodeSound(bits: seq<bool>, notes: Frame)
    requires DecodeNoteColumn(bits).Some?
    requires WellFormed(notes)
    requires 0 <= DecodeNoteColumn(bits).value.column < LANES
    requires notes[3 - DecodeNoteColumn(bits).value.column] == DecodeNoteColumn(bits).value.lane
    ensures SendNoteData(notes, DecodeNoteColumn(bits).value.column).bits == bits
  {
    var img := DecodeNoteColumn(bits).value;
    OneHotSpec(bits[..LANES], img.column);
    var w := SendNoteData(notes, img.column).bits;
    forall i | 0 <= i < |bits|
      ensures w[i] == bits[i]
    {
      if i < LANES {
        assert bits[..LANES][i] == bits[i];
      } else {
        assert w[i] == notes[3 - img.column][7 - (i - LANES)];
      }
    }
  }

  /** A decodable note burst always selects one of the four columns. */
  lemma NoteColumnDecodeRange(bits: seq<bool>)
    requires DecodeNoteColumn(bits).Some?
    ensures 0 <= DecodeNoteColumn(bits).value.column < LANES
  {
    OneHotSpec(bits[..LANES], DecodeNoteColumn(bits).value.column);
  }

  // ---------------------------------------------------------------------------
  // Score chain

  /** The digit shown at one position, as a receiver of the score chain sees it;
      `digit` is None when the position is blank. */
  datatype DigitImage = DigitImage(position: int, digit: Option<int>)

  function Lows(k: nat): seq<bool>
  {
    seq(k, _ => false)
  }

  /** The digit-select bits sendDigit clocks out for position d. */
  function SelectBits(d: int): seq<bool>
  {
    var lead: nat := if d < 2 then 2 - d else 0;
    var trail: nat := if d > 0 then d else 0;
    Lows(lead) + [true] + Lows(trail)
  }

  /** For the three real positions the select is three bits, one-hot at 2 - d. */
  lemma SelectBitsOneHot(d: int)
    requires 0 <= d <= 2
    ensures SelectBits(d) == seq(3, i => i == 2 - d)
  {
  }

  /** The segment bits of a digit burst: dp first, a last. */
  function SegmentBitsHighFirst(n: int): seq<bool>
  {
    var seg := IntToSevenSegment(n);
    seq(SEGMENTS, i requires 0 <= i < SEGMENTS => seg[7 - i])
  }

  /** sendDigit(n, d): 2 - d low bits, one high bit, d low bits (the digit
      select), then segments dp down to a, then one pulse on the score latch. */
  function SendDigit(n: int, d: int): (w: Burst)
    ensures w.latches == 1
    ensures 0 <= d <= 2 ==> |w.bits| == 3 + SEGMENTS
  {
    Burst(SelectBits(d) + SegmentBitsHighFirst(n), 1)
  }

  /** A digit burst for a real position reads back as that position and the digit
      sent, or as blank when the number is not a single digit. */
  lemma SendDigitRoundTrip(n: int, d: int)
    requires 0 <= d <= 2
    ensures DecodeDigit(SendDigit(n, d).bits) == Some(DigitImage(d, Shown(n)))
  {
    DigitBurstSelect(n, d);
    DigitBurstSegments(n, d);
    SevenSegmentRoundTrip(n);
  }

  lemma DigitBurstSelect(n: int, d: int)
    requires 0 <= d <= 2
    ensures OneHot(SendDigit(n, d).bits[..3]) == Some(2 - d)
  {
    SelectBitsOneHot(d);
    assert SendDigit(n, d).bits[..3] == SelectBits(d);
    OneHotOfSelector(3, 2 - d);
  }

  lemma DigitBurstSegments(n: int, d: int)
    requires 0 <= d <= 2
    ensures ReadSegments(SendDigit(n, d).bits) == IntToSevenSegment(n)
  {
  }

  /** What the digit display makes of eleven clocked bits: the selected position
      and the digit its segments show. */
  function DecodeDigit(bits: seq<bool>): Option<DigitImage>
  {
    if |bits| != 3 + SEGMENTS then None
    else match OneHot(bits[..3])
      case None => None
      case Some(k) => Some(DigitImage(2 - k, SegmentsToDigit(ReadSegments(bits))))
  }

  /** The segment pattern a digit burst carries, put back in a..dp order. */
  function ReadSegments(bits: seq<bool>): (seg: seq<bool>)
    requires |bits| == 3 + SEGMENTS
    ensures |seg| == SEGMENTS
  {
    seq(SEGMENTS, j requires 0 <= j < SEGMENTS => bits[10 - j])
  }

  /** The other direction: any score burst showing a digit is exactly what
      sendDigit emits for that digit and position. */
  lemma DigitDecodeSound(bits: seq<bool>)
    requires DecodeDigit(bits).Some? && DecodeDigit(bits).value.digit.Some?
    ensures 0 <= DecodeDigit(bits).value.position <= 2
    ensures SendDigit(DecodeDigit(bits).value.digit.value, DecodeDigit(bits).value.position).bits == bits
  {
    var img := DecodeDigit(bits).value;
    var k := 2 - img.position;
    OneHotSpec(bits[..3], k);
    var segs := ReadSegments(bits);
    FindDigitSound(segs, 0);
    var w := SendDigit(img.digit.value, img.position).bits;
    forall i | 0 <= i < |bits|
      ensures w[i] == bits[i]
    {
      if i < 3 {
        assert bits[..3][i] == bits[i];
      } else {
        assert w[i] == IntToSevenSegment(img.digit.value)[7 - (i - 3)];
        assert segs[7 - (i - 3)] == bits[i];
      }
    }
  }

  /** A digit found by the table search really has the pattern searched for. */
  lemma {:induction false} FindDigitSound(b: seq<bool>, k: nat)
    requires FindDigit(b, k).Some?
    ensures 0 <= FindDigit(b, k).value <= 9
    ensures IntToSevenSegment(FindDigit(b, k).value) == b
    decreases 10 - k
  {
  }

  // ---------------------------------------------------------------------------
  // Multiplexing tick

  /** Everything one timer tick puts on the wires, and the column cursor afterwards. */
  datatype MuxOutput = MuxOutput(next: int, noteBus: Burst, scoreBus: Burst)

  /** The column a tick refreshes: the cursor, reset to 0 once it has passed 3. */
  function ActiveColumn(column: int): (c: int)
    requires 0 <= column
    ensures 0 <= c < LANES
    ensures column < LANES ==> c == column
    ensures column >= LANES ==> c == 0
  {
    if column > 3 then 0 else column
  }

  /** The number sendData hands to sendDigit at digit position `position`, as written. */
  function DigitValue(score: int, position: int): int
    requires 0 <= position <= 2
  {
    if position == 0 then CMod(score, 100)
    else if position == 1 then CMod(CDiv(score, 10), 10)
    else CDiv(score, 100)
  }

  /** sendData: refresh one LED column and, for columns 0 to 2, one score digit;
      then advance the cursor. */
  function SendData(column: int, score: int, notes: Frame): (out: MuxOutput)
    requires WellFormed(notes) && 0 <= column
    ensures 1 <= out.next <= LANES
    ensures out.next - 1 == ActiveColumn(column)
    ensures DecodeNoteColumn(out.noteBus.bits)
            == Some(ColumnImage(out.next - 1, notes[LANES - out.next]))
    ensures out.next <= 3 <==> out.scoreBus.latches == 1
    ensures out.next == 4 ==> out.scoreBus == Silent
  {
    var c := ActiveColumn(column);
    var scoreBus := if c < 3 then SendDigit(DigitValue(score, c), c) else Silent;
    MuxOutput(c + 1, SendNoteData(notes, c), scoreBus)
  }

  /** The cursor after k ticks. */
  function CursorAfter(column: nat, k: nat): (c: nat)
  {
    if k == 0 then column else ActiveColumn(CursorAfter(column, k - 1)) + 1
  }

  /** Successive ticks refresh the columns round-robin, 0, 1, 2, 3, 0, ...,
      whatever the score and the notes are. */
  lemma {:induction false} TicksCycleColumns(column: nat, k: nat)
    ensures ActiveColumn(CursorAfter(column, k)) == (ActiveColumn(column) + k) % LANES
  {
    if k > 0 {
      TicksCycleColumns(column, k - 1);
    }
  }

  /** What the score chain shows after a tick at a digit position: the number
      sendData picked for that position, or blank when it is not a single digit.
      This includes cursor 4, which column 3's tick leaves behind and which the
      next tick resets to the ones position. */
  lemma TickShowsDigitValue(column: int, score: int, notes: Frame)
    requires 0 <= column && ActiveColumn(column) <= 2 && WellFormed(notes)
    ensures var c := ActiveColumn(column);
            DecodeDigit(SendData(column, score, notes).scoreBus.bits)
            == Some(DigitImage(c, Shown(DigitValue(score, c))))
  {
    var c := ActiveColumn(column);
    SendDigitRoundTrip(DigitValue(score, c), c);
  }

  /** Decimal digits of a three-digit number: tens and hundreds as sendData computes them. */
  lemma DecimalDigits(score: int)
    requires 0 <= score <= 999
    ensures (score / 10) % 10 == (score % 100) / 10
    ensures (score / 10) / 10 == score / 100
    ensures 0 <= score / 100 <= 9
    ensures 100 * (score / 100) + 10 * ((score / 10) % 10) + score % 10 == score
  {
    var q, r := score / 100, score % 100;
    assert score == 100 * q + r;
    DivModUnique(score, 10, 10 * q + r / 10, r % 10);
    DivModUnique(score / 10, 10, q, r / 10);
    assert 100 * q <= 999;
  }

  /** The digit the score chain shows for a score in 0..999, as written: the tens and
      hundreds digits are right, but position 0 is blank unless score % 100 < 10. */
  lemma DisplayedDigitsAsWritten(score: int, notes: Frame)
    requires 0 <= score <= 999 && WellFormed(notes)
    ensures DecodeDigit(SendData(1, score, notes).scoreBus.bits)
            == Some(DigitImage(1, Some((score / 10) % 10)))
    ensures DecodeDigit(SendData(2, score, notes).scoreBus.bits)
            == Some(DigitImage(2, Some(score / 100)))
    ensures DecodeDigit(SendData(0, score, notes).scoreBus.bits)
            == Some(DigitImage(0, if score % 100 < 10 then Some(score % 10) else None))
  {
    CDivModNonNegative(score, 100);
    CDivModNonNegative(score, 10);
    CDivModNonNegative(score / 10, 10);
    DecimalDigits(score);
    assert DigitValue(score, 0) == score % 100;
    assert DigitValue(score, 1) == (score / 10) % 10;
    assert DigitValue(score, 2) == score / 100;
    TickShowsDigitValue(0, score, notes);
    TickShowsDigitValue(1, score, notes);
    TickShowsDigitValue(2, score, notes);
    if score % 100 < 10 {
      DivModUnique(score, 10, 10 * (score / 100), score % 100);
    }
  }

  /** The first score where the ones digit goes dark although the score is in range. */
  lemma OnesDigitBlankAsWritten(notes: Frame)
    requires WellFormed(notes)
    ensures DecodeDigit(SendData(0, 12, notes).scoreBus.bits) == Some(DigitImage(0, None))
  {
    CDivModNonNegative(12, 100);
    TickShowsDigitValue(0, 12, notes);
  }

  /** Negative scores under C's truncating division: -1..-99 shows 0 in the hundreds
      position, a blank ones position, and 0 in the tens position only above -10. */
  lemma NegativeScoreDisplay(score: int, notes: Frame)
    requires -99 <= score <= -1 && WellFormed(notes)
    ensures DecodeDigit(SendData(2, score, notes).scoreBus.bits) == Some(DigitImage(2, Some(0)))
    ensures DecodeDigit(SendData(0, score, notes).scoreBus.bits) == Some(DigitImage(0, None))
    ensures DecodeDigit(SendData(1, score, notes).scoreBus.bits)
            == Some(DigitImage(1, if score > -10 then Some(0) else None))
  {
    CDivModNegate(score, 100);
    CDivModNonNegative(-score, 100);
    CDivModNegate(score, 10);
    CDivModNonNegative(-score, 10);
    var t := CDiv(score, 10);
    assert -9 <= t <= 0;
    CDivModNegate(t, 10);
    CDivModNonNegative(-t, 10);
    assert DigitValue(score, 2) == 0;
    assert DigitValue(score, 0) == score;
    assert DigitValue(score, 1) == t;
    assert t == 0 <==> score > -10;
    TickShowsDigitValue(0, score, notes);
    TickShowsDigitValue(1, score, notes);
    TickShowsDigitValue(2, score, notes);
  }

  /** The evidently intended digit: position 0 carries score % 10. */
  function DigitValueIntended(score: int, position: int): int
    requires 0 <= position <= 2
  {
    if position == 0 then CMod(score, 10)
    else if position == 1 then CMod(CDiv(score, 10), 10)
    else CDiv(score, 100)
  }

  /** sendData with the intended ones digit; identical otherwise. */
  function SendDataIntended(column: int, score: int, notes: Frame): (out: MuxOutput)
    requires WellFormed(notes) && 0 <= column
    ensures out.next - 1 == ActiveColumn(column)
    ensures out.noteBus == SendData(column, score, notes).noteBus
    ensures ActiveColumn(column) != 0 ==> out.scoreBus == SendData(column, score, notes).scoreBus
  {
    var c := ActiveColumn(column);
    var scoreBus := if c < 3 then SendDigit(DigitValueIntended(score, c), c) else Silent;
    MuxOutput(c + 1, SendNoteData(notes, c), scoreBus)
  }

  /** With the intended ones digit, every score in 0..999 is spelled out by the
      three positions: reading them back gives the score. */
  lemma IntendedDigitsSpellScore(score: int, notes: Frame)
    requires 0 <= score <= 999 && WellFormed(notes)
    ensures exists h, t, o ::
              && DecodeDigit(SendDataIntended(2, score, notes).scoreBus.bits) == Some(DigitImage(2, Some(h)))
              && DecodeDigit(SendDataIntended(1, score, notes).scoreBus.bits) == Some(DigitImage(1, Some(t)))
              && DecodeDigit(SendDataIntended(0, score, notes).scoreBus.bits) == Some(DigitImage(0, Some(o)))
              && 100 * h + 10 * t + o == score
  {
    CDivModNonNegative(score, 100);
    CDivModNonNegative(score, 10);
    CDivModNonNegative(score / 10, 10);
    DecimalDigits(score);
    var o, t, h := score % 10, (score / 10) % 10, score / 100;
    assert DigitValueIntended(score, 0) == o;
    assert DigitValueIntended(score, 1) == t;
    assert DigitValueIntended(score, 2) == h;
    SendDigitRoundTrip(o, 0);
    SendDigitRoundTrip(t, 1);
    SendDigitRoundTrip(h, 2);
  }
}
