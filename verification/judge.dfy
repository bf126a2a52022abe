/** Hit judgment and the analog reference level, both read off the current frame.

    The judgment looks at the current frame only; no earlier frame is kept.
 */
module Judge {
  import opened Chart

  /** Slot 7, the slot whose note is due now. */
  const DUE: nat := 7

  /** Slot 6, the slot whose note is due on the next frame. */
  const NEXT: nat := 6

  /** Some lane has a note due now. */
  predicate DueNow(notes: Frame)
    requires WellFormed(notes)
  {
    exists i :: 0 <= i < LANES && notes[i][DUE]
  }

  /** Some lane has a note due now or one frame from now: the margin of error. */
  predicate Nearby(notes: Frame)
    requires WellFormed(notes)
  {
    exists i :: 0 <= i < LANES && (notes[i][NEXT] || notes[i][DUE])
  }

  /** checkNoteHit's decision, as the change it makes to the score.
      `pinLow` is the level read from the note input pin: LOW means the buttons
      held down are the right ones. */
  function HitDelta(notes: Frame, pinLow: bool): (delta: int)
    requires WellFormed(notes)
    ensures pinLow && DueNow(notes) ==> delta == 1
    ensures pinLow && !DueNow(notes) ==> delta == 0
    ensures !pinLow && Nearby(notes) ==> delta == 0
    ensures !pinLow && !Nearby(notes) ==> delta == -1
  {
    if pinLow then
      if notes[0][7] || notes[1][7] || notes[2][7] || notes[3][7] then 1 else 0
    else if notes[0][6] || notes[1][6] || notes[2][6] || notes[3][6]
         || notes[0][7] || notes[1][7] || notes[2][7] || notes[3][7] then 0
    else -1
  }

  /** Slots 0 to 5 never influence the judgment. */
  lemma HitDeltaReadsOnlySlots67(a: Frame, b: Frame, pinLow: bool)
    requires WellFormed(a) && WellFormed(b)
    requires forall i :: 0 <= i < LANES ==> a[i][NEXT] == b[i][NEXT] && a[i][DUE] == b[i][DUE]
    ensures HitDelta(a, pinLow) == HitDelta(b, pinLow)
  {
  }

  /** The voltage references, out of 255, one per lane. */
  const REFERENCES: seq<int> := [144, 97, 69, 34]

  /** The reference level contributed by the first n lanes, in loop order. */
  function ReferenceSum(notes: Frame, n: nat): int
    requires WellFormed(notes) && n <= LANES
  {
    if n == 0 then 0
    else ReferenceSum(notes, n - 1) + (if notes[n - 1][DUE] then REFERENCES[n - 1] else 0)
  }

  /** updateNoteReference: the level written to the reference output. */
  function UpdateNoteReference(notes: Frame): (out: int)
    requires WellFormed(notes)
    ensures 0 <= out <= 144 + 97 + 69 + 34
    ensures out == 0 <==> !DueNow(notes)
    ensures forall i :: 0 <= i < LANES && notes[i][DUE] ==> out >= REFERENCES[i]
  {
    ReferenceSumUnrolled(notes);
    ReferenceSum(notes, LANES)
  }

  /** The loop written out lane by lane. */
  lemma ReferenceSumUnrolled(notes: Frame)
    requires WellFormed(notes)
    ensures ReferenceSum(notes, LANES)
            == (if notes[0][DUE] then 144 else 0) + (if notes[1][DUE] then 97 else 0)
             + (if notes[2][DUE] then 69 else 0) + (if notes[3][DUE] then 34 else 0)
  {
    assert ReferenceSum(notes, 1) == (if notes[0][DUE] then 144 else 0);
    assert ReferenceSum(notes, 2) == ReferenceSum(notes, 1) + (if notes[1][DUE] then 97 else 0);
    assert ReferenceSum(notes, 3) == ReferenceSum(notes, 2) + (if notes[2][DUE] then 69 else 0);
  }

  /** The level leaves the 8-bit range of the reference output exactly when lanes 0
      and 1 are both due together with lane 2 or lane 3. */
  lemma ReferenceAboveByte(notes: Frame)
    requires WellFormed(notes)
    ensures UpdateNoteReference(notes) > 255
            <==> notes[0][DUE] && notes[1][DUE] && (notes[2][DUE] || notes[3][DUE])
  {
    ReferenceSumUnrolled(notes);
  }

  /** The level tells exactly which lanes have a note due: no two sets of due lanes
      share a level. */
  lemma ReferenceIdentifiesLanes(a: Frame, b: Frame)
    requires WellFormed(a) && WellFormed(b)
    ensures UpdateNoteReference(a) == UpdateNoteReference(b)
            <==> forall i :: 0 <= i < LANES ==> a[i][DUE] == b[i][DUE]
  {
    ReferenceSumUnrolled(a);
    ReferenceSumUnrolled(b);
    if forall i :: 0 <= i < LANES ==> a[i][DUE] == b[i][DUE] {
      assert a[0][DUE] == b[0][DUE] && a[1][DUE] == b[1][DUE];
      assert a[2][DUE] == b[2][DUE] && a[3][DUE] == b[3][DUE];
    }
  }
}
