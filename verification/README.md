# Miniature rhythm game controller: game logic and display wire protocol

A Dafny model of the game core of `final_project.c`, the Arduino Due firmware of a
small four-button rhythm game. A chart file is read forward four bytes per 25 ms
frame, one byte per lane, each byte unpacked into eight note slots (slot 7 = due
now). A button edge raises a flag. On the next pass of the main loop the press or
release is judged against the current frame, and the score moves by +1, 0 or -1. A
song-change button raises another flag, which moves to the next of seven songs and
resets the score. A 1 kHz timer interrupt multiplexes two shift-register chains:
one LED column of the 4x8 note matrix per tick, and one digit of the 3-digit
seven-segment score display on three ticks out of four.

Modules, one per part of the program:

- `CArith` (`carith.dfy`): C's truncating `/` and `%` on Dafny's Euclidean integers, and powers of two.
- `Chart` (`chart.dfy`): `byteToArr`, the note file as bytes plus a read cursor, and `updateNoteData`.
- `Judge` (`judge.dfy`): the `checkNoteHit` decision table and `updateNoteReference`.
- `Display` (`display.dfy`): `intToSevenSegment`, `sendNoteData`, `sendDigit` and `sendData`.
  Each send is a `Burst`: the data-line level at every clock pulse on that chain, and the number of latch pulses after it.
  Decoders read a burst back the way the display hardware does.
- `Session` (`session.dfy`): the global state, the two interrupt handlers (flag setters), `changeSong` and one pass of `loop`.

Behaviour of the program that a reader might not expect, each stated by a lemma:

- The hit judgment reads only the current frame's slots 6 and 7 and keeps no previous frame. A release during
  the frame that held the scored note costs nothing, but a release once a frame with nothing in slots 6 and 7 is
  up costs a point, even right after a hit (`Session.ReleaseDuringHitFrameIsFree`, `Session.NoLookback`,
  `Session.ReleaseAfterHitIsPenalised`).
- There is no pause/resume toggle. `song_playing` is written but never read (`Session.SongPlayingIsWriteOnly`).
- Running out of chart bytes does not end the song. The frames just become empty (`Chart.StreamEndsEmpty`). Only
  the audio file running out clears `song_playing`, and nothing reads that flag.
- A song change loads the new song's first frame but does not call `updateNoteReference`, so the reference level
  stays at the old song's value until the first frame tick (`Session.ChangeSong` keeps `reference`).
- The score is not clamped. Negative scores are displayed through C's truncating division (`Display.NegativeScoreDisplay`).

## Model

| member | source | states |
|---|---|---|
| CArith.CDiv | final_project.c:205-211 | C quotient: magnitude is abs(a) / abs(b), and it is negative only when the operand signs differ (truncation toward zero) |
| CArith.CMod | final_project.c:205-211 | C remainder: quotient * b + remainder == a, abs(remainder) < abs(b), and a non-zero remainder has the dividend's sign |
| CArith.CDivModNonNegative | final_project.c:205-211 | for a >= 0 and b > 0, C and Euclidean division and remainder agree |
| CArith.CDivModNegate | final_project.c:205-211 | C division and remainder are odd in the dividend: negating a negates both |
| Chart.ByteToArr | final_project.c:69-74 | one byte unpacks into exactly eight slots |
| Chart.WeightOfPrefix | final_project.c:69-74 | the first k slots, weighted 2^i for slot i, add up to the byte's k low bits (c mod 2^k) |
| Chart.ByteToArrWeight | final_project.c:69-74 | slot i is bit i, low bit first: the sum of 2^i over the set slots is the byte itself |
| Chart.ByteToArrInjective | final_project.c:69-74 | two bytes unpack to the same slots iff they are the same byte |
| Chart.ByteToArrZero | final_project.c:186 | unpacking 0x00 gives a lane with no notes |
| Chart.Open | final_project.c:173-177 | a newly opened note file is read from offset 0, and it is available iff it has bytes (a missing file has none) |
| Chart.ReadLanes | final_project.c:182-188 | after n lane reads, lane i holds the byte at cursor + i, or 0x00 past the end, and the cursor has moved to min(cursor + n, length) |
| Chart.UpdateNoteData | final_project.c:181-189 | lanes 0..3 take the next unread bytes in order; at most 4 bytes are consumed; a lane with no byte left is all false; on an exhausted file the frame is empty and the file is unchanged; the cursor ends at min(pos + 4, length) |
| Chart.CallsPosition | final_project.c:181-189 | after k frame reads from a fresh file, the cursor is at min(4k, length) |
| Chart.ReadAtFrame | final_project.c:181-189 | a cursor at frame k's offset (or at the end) reads exactly chart frame k |
| Chart.StreamYieldsChart | final_project.c:181-189 | the (k+1)-th read of a fresh file returns chart frame k, i.e. bytes 4k..4k+3 in lane order |
| Chart.ChartFrameInside | final_project.c:183-184 | a frame that lies wholly inside the file is its four bytes unpacked |
| Chart.ChartFrameExhausted | final_project.c:185-186 | a frame that lies wholly past the end of the file is the empty frame |
| Chart.StreamEndsEmpty | final_project.c:183-187 | once the file is used up, every further read gives the empty frame |
| Judge.HitDelta | final_project.c:131-158 | the decision table: pressed with a slot-7 note scores +1; pressed with no slot-7 note scores 0; released with a note in slot 6 or 7 scores 0; released with nothing in slots 6 and 7 scores -1 |
| Judge.HitDeltaReadsOnlySlots67 | final_project.c:135-146 | two frames that agree on slots 6 and 7 of every lane are judged the same |
| Judge.ReferenceSumUnrolled | final_project.c:408-413 | the reference loop adds 144, 97, 69 and 34 for lanes 0..3 whose slot 7 holds a note |
| Judge.UpdateNoteReference | final_project.c:407-415 | the level is between 0 and 344; it is 0 iff no note is due; it is at least REFERENCES[i] for every due lane i |
| Judge.ReferenceAboveByte | final_project.c:407-415 | the level exceeds 255 iff lanes 0 and 1 are both due and lane 2 or lane 3 is due too |
| Judge.ReferenceIdentifiesLanes | final_project.c:407-415 | two frames give the same level iff they have the same set of due lanes |
| Display.IntToSevenSegment | final_project.c:285-399 | eight active-low bits; dp is always off; 8 lights a..g; 0 leaves only g and dp dark; anything outside 0..9 is all dark |
| Display.SevenSegmentRoundTrip | final_project.c:285-399 | the ten digit glyphs are pairwise distinct and none is blank: reading a pattern back gives n for 0..9 and blank otherwise |
| Display.SendNoteData | final_project.c:224-246 | 12 data bits and one latch pulse; the display decodes exactly one selected row, `column`, showing lane 3 - column bit for bit |
| Display.NoteColumnDecodeRange | final_project.c:226-233 | any burst the matrix accepts selects one of the four columns |
| Display.NoteColumnDecodeSound | final_project.c:224-246 | any burst the matrix accepts is exactly what sendNoteData emits for that column and lane |
| Display.SelectBitsOneHot | final_project.c:253-265 | for d in 0..2 the digit select is three bits with the single 1 at index 2 - d |
| Display.SendDigit | final_project.c:252-280 | one latch pulse; for d in 0..2 exactly 11 data bits |
| Display.SendDigitRoundTrip | final_project.c:252-280 | for d in 0..2 the digit display decodes position d showing n when n is a digit, and blank otherwise |
| Display.DigitDecodeSound | final_project.c:252-280 | any score burst that shows a digit is exactly what sendDigit emits for that digit and position |
| Display.ActiveColumn | final_project.c:194-197 | the column a tick uses is always in 0..3; a cursor in 0..3 is kept and one past 3 is reset to 0 |
| Display.SendData | final_project.c:193-217 | the cursor afterwards is in 1..4, one more than the column used; the note chain shows that column; the score chain is latched on columns 0..2 and silent on column 3 |
| Display.TicksCycleColumns | final_project.c:193-217 | successive ticks use the columns round-robin: after k ticks the column is (start + k) mod 4 |
| Display.TickShowsDigitValue | final_project.c:202-213 | a tick whose cursor resolves to a digit position (0..2, or cursor 4 reset to 0) makes that position show the value sendData picked, or blank if it is not a single digit |
| Display.DisplayedDigitsAsWritten | final_project.c:203-213 | for scores 0..999, tens and hundreds are shown correctly; the ones position shows score mod 10 only when score mod 100 < 10, and is blank otherwise |
| Display.OnesDigitBlankAsWritten | final_project.c:204-206 | with score 12 the ones position is blank |
| Display.NegativeScoreDisplay | final_project.c:203-213 | for scores -1..-99: hundreds shows 0, ones is blank, tens shows 0 above -10 and is blank otherwise |
| Display.SendDataIntended | final_project.c:193-217 | identical to sendData except at the ones position |
| Display.IntendedDigitsSpellScore | final_project.c:203-213 | with score mod 10 at the ones position, the three positions of any score 0..999 show digits h, t, o with 100h + 10t + o == score |
| Session.Boot | final_project.c:45-62 | the program starts in a valid state |
| Session.ChangeSongIsr | final_project.c:91-93 | the interrupt sets the song-change flag and changes nothing else |
| Session.CheckNoteIsr | final_project.c:95-97 | the interrupt sets the note-check flag and changes nothing else |
| Session.ChangeSong | final_project.c:102-124 | song becomes old mod 7 + 1, in 1..7 (7 wraps to 1); score 0, playing, flag cleared, frame clock restarted at now; the note-check flag and reference are untouched |
| Session.ChangeSongStartsChart | final_project.c:117-118 | after a song change, the new song's chart frame 0 is loaded and the cursor stands past it, at frame 1 |
| Session.SongAfterCycles | final_project.c:111-114 | from a song in 1..7, k changes give song (song - 1 + k) mod 7 + 1 |
| Session.ChangeSongTimesSong | final_project.c:110-114 | repeated song changes move the song number only through the increment-and-wrap |
| Session.ChangeSongCycles | final_project.c:110-114 | from a song in 1..7, k changes land k places further round the 7-song cycle |
| Session.SongsWrapAfterSeven | final_project.c:111-114 | the first change after boot plays song 1, and seven further changes return to song 1 |
| Session.CheckNoteHit | final_project.c:131-158 | clears the note-check flag and changes the score by the decision table; nothing else changes |
| Session.FrameTick | final_project.c:466-471 | once now > frame time + 25: the frame time moves by exactly 25, the notes are the next frame read from the file, the cursor advances one frame (or to the end), and the reference is the level of the new notes; otherwise nothing changes; score, song and flags are never touched |
| Session.Loop | final_project.c:455-481 | both flags are clear afterwards; playing == (was playing or changing song) and audio available; with a song change the song advances, the frame clock is now, the new song's chart frame 0 is up with the cursor at frame 1, the reference keeps its old value, and the score is 0 without a pending check; otherwise the frame clock moves by exactly 25 iff now > frame time + 25, else it stays; the score moves by at most 1, and not at all without a pending check; when the timer fires the reference is the level of the new frame, and when it does not the notes, the file and the reference are untouched; a pass with both a song change and a pending check scores the check against the new song's first frame |
| Session.PassFollowsChart | final_project.c:466-471 | without a song change, a pass moves the notes to the next chart frame exactly when the timer fires, and keeps them otherwise |
| Session.PressJudgedBeforeFrameAdvance | final_project.c:461-471 | a pending check is judged against the frame that was up before this pass's frame advance |
| Session.SongPlayingIsWriteOnly | final_project.c:473-480 | the result of a pass does not depend on song_playing, apart from song_playing itself |
| Session.FrameTimerNoCatchUp | final_project.c:466-468 | however far behind the clock is, a pass advances the frame clock by one frame only, and the next pass fires again |
| Session.NoLookback | final_project.c:131-158 | releasing the buttons once a frame with nothing in slots 6 and 7 is up costs a point, whatever the frame before held |
| Session.ReleaseDuringHitFrameIsFree | final_project.c:131-158 | on the chart [0x80, 0, 0, 0, 0, 0, 0, 0], a press on the first frame scores 1, and a release before the frame timer fires leaves the score at 1 |
| Session.ReleaseAfterHitIsPenalised | final_project.c:131-158 | on the chart [0x80,0,0,0,0,0,0,0], a correct press then a release on the next frame gives scores 1 then 0 |

## Findings

| source | as written | input that shows it | evidently intended | confidence | as-written member | corrected member |
|---|---|---|---|---|---|---|
| final_project.c:204-206 | the ones position (column 0) is sent `score % 100` | score 12: `sendDigit(12, 0)` blanks the ones position, so 12 shows as "0", "1" and a blank | `score % 10`, which makes the three positions spell every score 0..999 | high; not executed | Display.OnesDigitBlankAsWritten | Display.IntendedDigitsSpellScore |

`Display.SendData` models the code as written, and `Display.DisplayedDigitsAsWritten` states the defect for every
score in 0..999. `Display.SendDataIntended` changes only that position.

## Left out

- SD card set-up, file-name building (`sprintf`/`strcat`), `File` handles and their closing (final_project.c:106-108, 162-179). The note files on the card are a `Library` from song number to bytes. A missing file is an empty one.
- Audio: `Audio.begin/prepare/write` and the 1024-sample buffer (final_project.c:167, 474-477). Whether the music file still has samples is a boolean input of each loop pass.
- `digitalWrite`, `digitalRead`, `analogWrite`, `pinMode` and the pin numbers. Pin writes become bursts. The note pin read is the `pinLow` input. The reference level is a state field.
- `setup` (final_project.c:418-453): pin modes, interrupt attachment, `Serial` logging, and the path where the SD card fails. Only its final `changeSong()` is modelled (`Session.SongsWrapAfterSeven` starts from `Session.Boot`).
- Preemption: the timer interrupt runs `sendData` in the middle of a loop pass, and button edges can interrupt anywhere. `Display.SendData` is one atomic step. The interrupt handlers are flag setters applied between passes.
- `Session.Loop`: `millis()` is sampled once per pass. In the code, `changeSong` and the frame check each read it, and the two readings can differ by the time `changeSong` takes.
- `Session.Loop`: integers are unbounded. The wrap of the unsigned 32-bit `millis()` after about 49.7 days is not modelled, nor the overflow of the signed 32-bit `long cur_frame_time` (final_project.c:52) at 2^31 ms, about 24.8 days, which is undefined behaviour in C though in practice the bit pattern keeps tracking `millis()`.
- `Session.CheckNoteHit`: the score is unbounded. The 32-bit `int` overflow after 2^31 consecutive hits or misses is not modelled.
- `Judge.UpdateNoteReference`: the model gives the level handed to `analogWrite`. The level is above 255 when lanes 0 and 1 are both due together with lane 2 or lane 3 (275, 310 or 344; `Judge.ReferenceAboveByte`), and what the PWM hardware does with it is platform code outside this model.
- `Display.SendDigit`: the function is total in d, but its contracts describe only the positions 0..2 that `sendData` uses.
- note_display.py, note_record.py and note_convert.py: desktop tools for audio playback, terminal drawing, key capture and floating-point chart generation. They are not part of the firmware core.
