/** The game session: the firmware's global state, the two interrupt handlers
    (which only raise a flag), changeSong, checkNoteHit and one pass of the
    main loop.

    The SD card, the audio output and the pins are not modelled: the note files
    on the card are a Library, the pin read and the clock are inputs of a loop
    pass, and whether the music file still has samples is a boolean input.
 */
module Session {
  import opened CArith
  import opened Chart
  import opened Judge

  const NUM_SONGS: int := 7

  /** Length of one note frame, in milliseconds. */
  const FRAME_MS: int := 25

  /** The note files on the card, by song number; a song without an entry has no
      file, and opening it yields a file that is never available. */
  type Library = map<int, seq<Byte>>

  function ChartOf(lib: Library, song: int): seq<Byte>
  {
    if song in lib then lib[song] else []
  }

  /** The firmware's globals that the game logic reads or writes. */
  datatype State = State(
    score: int,
    songNum: int,
    songPlaying: bool,
    notes: Frame,
    curFrameTime: int,
    noteFile: NoteFile,
    reference: int,           // last level written to the note reference output
    shouldChangeSong: bool,
    shouldCheckNoteHit: bool)

  /** What every reachable state satisfies. */
  predicate Valid(s: State)
  {
    WellFormed(s.notes) && s.noteFile.Valid() && 0 <= s.songNum <= NUM_SONGS
  }

  /** The globals as the program starts, before setup runs. */
  function Boot(): (s: State)
    ensures Valid(s)
  {
    State(0, 0, true, EmptyFrame(), 0, Open([]), 0, false, false)
  }

  /** changeSongISR: the song-change button only raises the flag. */
  function ChangeSongIsr(s: State): (t: State)
    requires Valid(s)
    ensures Valid(t) && t.shouldChangeSong
    ensures t.(shouldChangeSong := s.shouldChangeSong) == s
  {
    s.(shouldChangeSong := true)
  }

  /** checkNoteISR: any edge on the note input only raises the flag. */
  function CheckNoteIsr(s: State): (t: State)
    requires Valid(s)
    ensures Valid(t) && t.shouldCheckNoteHit
    ensures t.(shouldCheckNoteHit := s.shouldCheckNoteHit) == s
  {
    s.(shouldCheckNoteHit := true)
  }

  /** The song number after one changeSong: 1-based, 7 wraps to 1. */
  function NextSong(song: int): int
  {
    if song + 1 > NUM_SONGS then 1 else song + 1
  }

  /** changeSong: clear the flag, move to the next song, reset the score, open
      the new note file and read its first frame, restart the frame clock.
      It does not call updateNoteReference: the reference level keeps the value
      written for the old song until the first frame tick of the new one. */
  function ChangeSong(s: State, lib: Library, now: int): (t: State)
    requires Valid(s)
    ensures Valid(t)
    ensures 1 <= t.songNum <= NUM_SONGS
    ensures t.songNum == s.songNum % NUM_SONGS + 1 == NextSong(s.songNum)
    ensures t.score == 0 && t.songPlaying && !t.shouldChangeSong
    ensures t.curFrameTime == now
    ensures t.shouldCheckNoteHit == s.shouldCheckNoteHit && t.reference == s.reference
  {
    var song := NextSong(s.songNum);
    var read := UpdateNoteData(Open(ChartOf(lib, song)));
    s.(shouldChangeSong := false, songNum := song, score := 0,
       notes := read.frame, noteFile := read.rest, curFrameTime := now, songPlaying := true)
  }

  /** The state after k successive song changes. */
  function ChangeSongTimes(s: State, lib: Library, now: int, k: nat): (t: State)
    requires Valid(s)
    ensures Valid(t)
  {
    if k == 0 then s else ChangeSong(ChangeSongTimes(s, lib, now, k - 1), lib, now)
  }

  /** The song number after k changes, counted on the number alone. */
  function SongAfter(song: int, k: nat): int
  {
    if k == 0 then song else NextSong(SongAfter(song, k - 1))
  }

  /** From a song in 1..7, k changes land on the song k places further round the cycle. */
  lemma {:induction false} SongAfterCycles(song: int, k: nat)
    requires 1 <= song <= NUM_SONGS
    ensures SongAfter(song, k) == (song - 1 + k) % NUM_SONGS + 1
  {
    if k > 0 {
      SongAfterCycles(song, k - 1);
      var x := song - 1 + k - 1;
      var m := x % NUM_SONGS;
      assert x == NUM_SONGS * (x / NUM_SONGS) + m;
      if m + 1 < NUM_SONGS {
        DivModUnique(x + 1, NUM_SONGS, x / NUM_SONGS, m + 1);
      } else {
        DivModUnique(x + 1, NUM_SONGS, x / NUM_SONGS + 1, 0);
      }
    }
  }

  /** Song changes affect the song number only through NextSong. */
  lemma {:induction false} ChangeSongTimesSong(s: State, lib: Library, now: int, k: nat)
    requires Valid(s)
    ensures ChangeSongTimes(s, lib, now, k).songNum == SongAfter(s.songNum, k)
  {
    if k > 0 {
      var p := ChangeSongTimes(s, lib, now, k - 1);
      ChangeSongTimesSong(s, lib, now, k - 1);
      assert ChangeSongTimes(s, lib, now, k).songNum == NextSong(p.songNum);
    }
  }

  /** From a song in 1..7, k changes land on the song k places further round the cycle. */
  lemma ChangeSongCycles(s: State, lib: Library, now: int, k: nat)
    requires Valid(s) && 1 <= s.songNum
    ensures ChangeSongTimes(s, lib, now, k).songNum == (s.songNum - 1 + k) % NUM_SONGS + 1
  {
    ChangeSongTimesSong(s, lib, now, k);
    var song := SongAfter(s.songNum, k);
    SongAfterCycles(s.songNum, k);
    assert song == (s.songNum - 1 + k) % NUM_SONGS + 1;
  }

  /** The first change after boot plays song 1, and seven further changes come back to it. */
  lemma SongsWrapAfterSeven(lib: Library, now: int)
    ensures ChangeSong(Boot(), lib, now).songNum == 1
    ensures ChangeSongTimes(ChangeSong(Boot(), lib, now), lib, now, 7).songNum == 1
  {
    ChangeSongCycles(ChangeSong(Boot(), lib, now), lib, now, 7);
  }

  /** checkNoteHit: clear the flag and apply the judgment to the score, reading the
      note input pin now (`pinLow`: the buttons held are the right ones). */
  function CheckNoteHit(s: State, pinLow: bool): (t: State)
    requires Valid(s)
    ensures Valid(t)
    ensures t.(score := s.score, shouldCheckNoteHit := s.shouldCheckNoteHit) == s
    ensures !t.shouldCheckNoteHit
    ensures pinLow && DueNow(s.notes) ==> t.score == s.score + 1
    ensures pinLow && !DueNow(s.notes) ==> t.score == s.score
    ensures !pinLow && Nearby(s.notes) ==> t.score == s.score
    ensures !pinLow && !Nearby(s.notes) ==> t.score == s.score - 1
  {
    s.(shouldCheckNoteHit := false, score := s.score + HitDelta(s.notes, pinLow))
  }

  /** The timed part of a pass: once the clock is past the current frame time plus
      25 ms, move the frame time on by exactly one frame, read the next frame and
      rewrite the reference level. */
  function FrameTick(s: State, now: int): (t: State)
    requires Valid(s)
    ensures Valid(t)
    ensures t.(curFrameTime := s.curFrameTime, notes := s.notes, noteFile := s.noteFile,
               reference := s.reference) == s
    ensures now <= s.curFrameTime + FRAME_MS ==> t == s
    ensures now > s.curFrameTime + FRAME_MS ==>
              && t.curFrameTime == s.curFrameTime + FRAME_MS
              && t.notes == UpdateNoteData(s.noteFile).frame
              && t.noteFile == Advance(s.noteFile)
              && t.reference == UpdateNoteReference(t.notes)
  {
    if now > s.curFrameTime + FRAME_MS then
      var read := UpdateNoteData(s.noteFile);
      s.(curFrameTime := s.curFrameTime + FRAME_MS, notes := read.frame, noteFile := read.rest,
         reference := UpdateNoteReference(read.frame))
    else s
  }

  /** The inputs of one pass of loop: the clock, the note input pin, and whether the
      music file still has samples. */
  datatype PassInput = PassInput(now: int, pinLow: bool, audioAvailable: bool)

  /** loop: pending song change, pending note check, frame timer, audio. */
  function Loop(s: State, lib: Library, input: PassInput): (t: State)
    requires Valid(s)
    ensures Valid(t)
    ensures !t.shouldChangeSong && !t.shouldCheckNoteHit
    ensures t.songPlaying == ((s.songPlaying || s.shouldChangeSong) && input.audioAvailable)
    ensures s.shouldChangeSong ==>
              t.songNum == s.songNum % NUM_SONGS + 1 && t.curFrameTime == input.now
              && -1 <= t.score <= 1
    ensures !s.shouldChangeSong ==>
              && t.songNum == s.songNum
              && (t.curFrameTime == s.curFrameTime + FRAME_MS <==> input.now > s.curFrameTime + FRAME_MS)
              && (t.curFrameTime == s.curFrameTime <==> input.now <= s.curFrameTime + FRAME_MS)
              && s.score - 1 <= t.score <= s.score + 1
    ensures !s.shouldChangeSong && !s.shouldCheckNoteHit ==> t.score == s.score
    ensures !s.shouldChangeSong && input.now > s.curFrameTime + FRAME_MS ==>
              t.reference == UpdateNoteReference(t.notes)
    ensures !s.shouldChangeSong && input.now <= s.curFrameTime + FRAME_MS ==>
              t.notes == s.notes && t.noteFile == s.noteFile && t.reference == s.reference
    ensures s.shouldChangeSong ==>
              InStep(t, ChartOf(lib, t.songNum), 0) && t.reference == s.reference
    ensures s.shouldChangeSong && !s.shouldCheckNoteHit ==> t.score == 0
    ensures s.shouldChangeSong && s.shouldCheckNoteHit ==> t.score == HitDelta(t.notes, input.pinLow)
  {
    var s1 := if s.shouldChangeSong then (ChangeSongStartsChart(s, lib, input.now); ChangeSong(s, lib, input.now))
              else s;
    var s2 := if s1.shouldCheckNoteHit then CheckNoteHit(s1, input.pinLow) else s1;
    var s3 := FrameTick(s2, input.now);
    if input.audioAvailable then s3 else s3.(songPlaying := false)
  }

  /** The note frame and the file cursor agree with frame k of the song's chart. */
  predicate InStep(s: State, bytes: seq<Byte>, k: nat)
  {
    s.notes == ChartFrame(bytes, k) && s.noteFile == Calls(Open(bytes), k + 1)
  }

  /** A song starts on chart frame 0. */
  lemma ChangeSongStartsChart(s: State, lib: Library, now: int)
    requires Valid(s)
    ensures InStep(ChangeSong(s, lib, now), ChartOf(lib, ChangeSong(s, lib, now).songNum), 0)
  {
    StreamYieldsChart(ChartOf(lib, ChangeSong(s, lib, now).songNum), 0);
  }

  /** A pass without a song change moves the notes one chart frame on exactly when
      the frame timer fires, and leaves them alone otherwise; at the end of the
      chart the frames are empty. */
  lemma PassFollowsChart(s: State, lib: Library, input: PassInput, bytes: seq<Byte>, k: nat)
    requires Valid(s) && !s.shouldChangeSong && InStep(s, bytes, k)
    ensures input.now > s.curFrameTime + FRAME_MS ==> InStep(Loop(s, lib, input), bytes, k + 1)
    ensures input.now <= s.curFrameTime + FRAME_MS ==> InStep(Loop(s, lib, input), bytes, k)
  {
    StreamYieldsChart(bytes, k + 1);
  }

  /** A press is judged against the frame on display before this pass's frame
      advance: the judgment and the timer never see each other's frame. */
  lemma PressJudgedBeforeFrameAdvance(s: State, lib: Library, input: PassInput)
    requires Valid(s) && !s.shouldChangeSong
    ensures Loop(CheckNoteIsr(s), lib, input).score == s.score + HitDelta(s.notes, input.pinLow)
  {
  }

  /** `song_playing` is written but never read: a pass computes the same state
      whatever it was, apart from the flag itself. */
  lemma SongPlayingIsWriteOnly(s: State, lib: Library, input: PassInput, playing: bool)
    requires Valid(s)
    ensures Loop(s.(songPlaying := playing), lib, input).(songPlaying := false)
            == Loop(s, lib, input).(songPlaying := false)
  {
    var t := s.(songPlaying := playing);
    if s.shouldChangeSong {
      assert ChangeSong(t, lib, input.now) == ChangeSong(s, lib, input.now);
    } else {
      var s2 := if s.shouldCheckNoteHit then CheckNoteHit(s, input.pinLow) else s;
      var t2 := if t.shouldCheckNoteHit then CheckNoteHit(t, input.pinLow) else t;
      assert t2 == s2.(songPlaying := playing);
      FrameTickKeepsPlaying(s2, input.now, playing);
    }
  }

  /** The frame timer neither reads nor writes `song_playing`. */
  lemma FrameTickKeepsPlaying(s: State, now: int, playing: bool)
    requires Valid(s)
    ensures FrameTick(s.(songPlaying := playing), now) == FrameTick(s, now).(songPlaying := playing)
  {
    var t := s.(songPlaying := playing);
    assert t.noteFile == s.noteFile && t.curFrameTime == s.curFrameTime;
    if now > s.curFrameTime + FRAME_MS {
      var read := UpdateNoteData(s.noteFile);
      assert FrameTick(t, now).notes == read.frame == FrameTick(s, now).notes;
    }
  }

  /** The frame timer never catches up: however far behind the clock is, a pass
      advances by a single frame, and the next pass fires again. */
  lemma FrameTimerNoCatchUp(s: State, lib: Library, input: PassInput)
    requires Valid(s) && !s.shouldChangeSong && input.now > s.curFrameTime + 2 * FRAME_MS
    ensures Loop(s, lib, input).curFrameTime == s.curFrameTime + FRAME_MS
    ensures input.now > Loop(s, lib, input).curFrameTime + FRAME_MS
  {
  }

  /** The two frames of the chart [0x80, 0, 0, 0, 0, 0, 0, 0]. */
  lemma TwoFrameChart(bytes: seq<Byte>)
    requires bytes == [128, 0, 0, 0, 0, 0, 0, 0]
    ensures WellFormed(ChartFrame(bytes, 0)) && ChartFrame(bytes, 0)[0][DUE]
    ensures ChartFrame(bytes, 1) == EmptyFrame()
  {
    assert Pow2(7) == 128 by {
      assert Pow2(3) == 8;
    }
    assert ChartFrame(bytes, 0)[0] == LaneAt(bytes, 0) == ByteToArr(128);
    ByteToArrZero();
    forall i | 0 <= i < LANES
      ensures ChartFrame(bytes, 1)[i] == EmptyFrame()[i]
    {
      assert ChartFrame(bytes, 1)[i] == LaneAt(bytes, LANES + i);
      assert bytes[LANES + i] == 0;
    }
  }

  /** Whatever the frame before held, releasing the buttons once a frame with no
      note in slots 6 and 7 is up costs a point: no earlier frame is consulted. */
  lemma NoLookback(s: State, lib: Library, bytes: seq<Byte>, k: nat, now: int)
    requires Valid(s) && !s.shouldChangeSong && !s.shouldCheckNoteHit && InStep(s, bytes, k)
    requires now > s.curFrameTime + FRAME_MS
    requires !Nearby(ChartFrame(bytes, k + 1))
    ensures var s1 := Loop(s, lib, PassInput(now, false, true));
            Loop(CheckNoteIsr(s1), lib, PassInput(now, false, true)).score == s.score - 1
  {
    var input := PassInput(now, false, true);
    PassFollowsChart(s, lib, input, bytes, k);
    var s1 := Loop(s, lib, input);
    assert s1.score == s.score;
    PressJudgedBeforeFrameAdvance(s1, lib, input);
  }

  /** A two-frame chart, lane 0 due on the first frame and nothing on the second:
      a correct press on the first frame scores, and releasing the buttons once the
      second frame is up costs the point again. */
  lemma ReleaseAfterHitIsPenalised(lib: Library, t0: int)
    requires ChartOf(lib, 1) == [128, 0, 0, 0, 0, 0, 0, 0]
    ensures var s0 := ChangeSong(Boot(), lib, t0);
            var s1 := Loop(CheckNoteIsr(s0), lib, PassInput(t0, true, true));
            var s2 := Loop(s1, lib, PassInput(t0 + 26, false, true));
            var s3 := Loop(CheckNoteIsr(s2), lib, PassInput(t0 + 26, false, true));
            s1.score == 1 && s3.score == 0
  {
    var bytes := ChartOf(lib, 1);
    TwoFrameChart(bytes);
    var s0 := ChangeSong(Boot(), lib, t0);
    ChangeSongStartsChart(Boot(), lib, t0);
    var in1 := PassInput(t0, true, true);
    PressJudgedBeforeFrameAdvance(s0, lib, in1);
    assert DueNow(s0.notes);
    PassFollowsChart(CheckNoteIsr(s0), lib, in1, bytes, 0);
    var s1 := Loop(CheckNoteIsr(s0), lib, in1);
    assert !Nearby(EmptyFrame());
    NoLookback(s1, lib, bytes, 0, t0 + 26);
  }

  /** On the same two-frame chart, releasing the buttons while the scored note's frame
      is still up costs nothing: slot 7 of lane 0 still holds the note. */
  lemma ReleaseDuringHitFrameIsFree(lib: Library, t0: int)
    requires ChartOf(lib, 1) == [128, 0, 0, 0, 0, 0, 0, 0]
    ensures var s0 := ChangeSong(Boot(), lib, t0);
            var s1 := Loop(CheckNoteIsr(s0), lib, PassInput(t0, true, true));
            var s2 := Loop(CheckNoteIsr(s1), lib, PassInput(t0 + 1, false, true));
            s1.score == 1 && s2.score == 1
  {
    var bytes := ChartOf(lib, 1);
    TwoFrameChart(bytes);
    var s0 := ChangeSong(Boot(), lib, t0);
    ChangeSongStartsChart(Boot(), lib, t0);
    var in1 := PassInput(t0, true, true);
    PressJudgedBeforeFrameAdvance(s0, lib, in1);
    assert DueNow(s0.notes);
    var s1 := Loop(CheckNoteIsr(s0), lib, in1);
    assert s1.notes == s0.notes;
    PressJudgedBeforeFrameAdvance(s1, lib, PassInput(t0 + 1, false, true));
    assert Nearby(s1.notes);
  }
}
