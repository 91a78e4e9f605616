/**
 The player's two tasks together.  The first has the higher priority and does not wait within
 an iteration, so an iteration is one step; it may come before any assignment of the second.
 */
module Preemption {
  import opened Bytes
  import opened Playback

  /** Where the second task is: waiting for a click, or with `done` assignments of one made. */
  datatype Pc = Waiting | Clicked(click: Click, done: nat)

  /**
   What has happened, as far as the properties speak of it: the flags when the last click began;
   whether the first task has iterated since the last click ended; for each block sent since a
   stop last reset the counter, its song; the samples of these blocks; and the song last sent.
   */
  datatype History = History(before: Flags, ticked: bool, played: seq<int>, heard: seq<byte>, lastSong: int)

  datatype System = System(state: State, pc: Pc, history: History)

  datatype Event = Iterate | Begin(click: Click) | Store

  const INITIAL: System :=
    System(State(Flags(0, 0, 0), 0, FREQ_NOMINAL, 0), Waiting, History(Flags(0, 0, 0), true, [], [], 0))

  function Recorded(sys: System, songs: seq<Tape>, size: int): History
    requires |songs| == 3 && size > 0
  {
    var h := sys.history.(ticked := sys.history.ticked || sys.pc.Waiting?);
    match ModeOf(sys.state.flags)
    case Playing =>
      var song := sys.state.whichSong;
      h.(played := h.played + [song], heard := h.heard + Sent(sys.state, songs, size), lastSong := song)
    case Stopping => h.(played := [], heard := [])
    case _ => h
  }

  /** An event that cannot happen where the second task is changes nothing. */
  function Step(sys: System, e: Event, songs: seq<Tape>, size: int): System
    requires |songs| == 3 && size > 0
  {
    match e
    case Iterate => System(Iterated(sys.state, size), sys.pc, Recorded(sys, songs, size))
    case Begin(c) =>
      if sys.pc.Waiting? then
        sys.(pc := Clicked(c, 0), history := sys.history.(before := sys.state.flags, ticked := false))
      else sys
    case Store =>
      if sys.pc.Waiting? || sys.pc.done >= |Writes(sys.pc.click)| then sys
      else
        var done := sys.pc.done + 1;
        System(Written(sys.state, Writes(sys.pc.click)[done - 1]),
               if done == |Writes(sys.pc.click)| then Waiting else Clicked(sys.pc.click, done), sys.history)
  }

  function RunFrom(sys: System, events: seq<Event>, songs: seq<Tape>, size: int): System
    requires |songs| == 3 && size > 0
  {
    if events == [] then sys
    else Step(RunFrom(sys, events[..|events| - 1], songs, size), events[|events| - 1], songs, size)
  }

  function Run(events: seq<Event>, songs: seq<Tape>, size: int): System
    requires |songs| == 3 && size > 0
  {
    RunFrom(INITIAL, events, songs, size)
  }

  lemma StartIs(songs: seq<Tape>, size: int)
    requires |songs| == 3 && size > 0
    ensures var s := Run([], songs, size).state;
            && s.flags.play == 0 && s.flags.pause == 0 && s.flags.stop == 0
            && s.whichSong == 0 && s.freqReader == 44000 && s.addressCounter == 0
    ensures var sys := Run([], songs, size); sys.pc == Waiting && sys.history.played == [] && sys.history.heard == []
  {
  }

  /**
   An iteration of the first task, wherever the second one is: with the play flag up a block of the
   chosen song is sent and the counter moves on; with just the stop flag up the counter is reset.
   */
  lemma IterationIs(sys: System, songs: seq<Tape>, size: int)
    requires |songs| == 3 && size > 0 && 0 <= sys.state.whichSong <= 2
    ensures var now, was := Step(sys, Iterate, songs, size), sys;
            && now.pc == was.pc
            && now.state == was.state.(addressCounter := now.state.addressCounter)
            && if was.state.flags.play == 1 then
                 && now.history.played == was.history.played + [was.state.whichSong]
                 && BlockSent(was.history.heard, now.history.heard, songs[was.state.whichSong], size,
                              was.state.addressCounter)
                 && now.state.addressCounter
                    == if was.state.addressCounter < size then was.state.addressCounter + 1000 else 0
               else if was.state.flags.pause != 1 && was.state.flags.stop == 1 then
                 now.history.played == [] && now.history.heard == [] && now.state.addressCounter == 0
               else
                 && now.history.played == was.history.played && now.history.heard == was.history.heard
                 && now.state.addressCounter == was.state.addressCounter
  {
    BlockIsSent(sys.history.heard, songs[sys.state.whichSong], size, sys.state.addressCounter);
  }

  // ----- a click

  /** What `k` assignments of a click have made of the state. */
  ghost predicate AfterStores(was: State, now: State, c: Click, k: nat) {
    && now.addressCounter == was.addressCounter
    && now.flags.play
       == (if k < 1 || c == Back || c == Forward then was.flags.play else if c == Play then 1 else 0)
    && now.flags.pause
       == (if k < 2 || c == Back || c == Forward then was.flags.pause else if c == Pause then 1 else 0)
    && now.flags.stop
       == (if k < 3 || c == Back || c == Forward then was.flags.stop else if c == Play || c == Pause then 0 else 1)
    && now.whichSong
       == (if k < 4 then was.whichSong
           else if c == Next && was.whichSong < 2 then was.whichSong + 1
           else if c == Previous && was.whichSong > 0 then was.whichSong - 1
           else was.whichSong)
    && now.freqReader
       == if c == Back && k == 1 then was.freqReader - 100
          else if c == Back && k == 2 then (if was.freqReader < 200 then 100 else was.freqReader - 100)
          else if c == Forward && k == 1 then was.freqReader + 100
          else if c == Forward && k == 2 then (if was.freqReader > 87900 then 88000 else was.freqReader + 100)
          else was.freqReader
  }

  /** The beginning of a click and `k` of its assignments. */
  function ClickUpTo(c: Click, k: nat): seq<Event> {
    [Begin(c)] + seq<Event>(k, _ => Store)
  }

  /** A click, assignment by assignment: four for Next and Previous, two for Back and Forward, else three. */
  lemma {:induction false} ClickInSteps(sys: System, c: Click, k: nat, songs: seq<Tape>, size: int)
    requires |songs| == 3 && size > 0 && sys.pc.Waiting?
    requires k <= if c == Next || c == Previous then 4 else if c == Back || c == Forward then 2 else 3
    ensures var now := RunFrom(sys, ClickUpTo(c, k), songs, size);
            && AfterStores(sys.state, now.state, c, k)
            && now.pc == (if k == (if c == Next || c == Previous then 4 else if c == Back || c == Forward then 2 else 3)
                          then Waiting else Clicked(c, k))
            && now.history.heard == sys.history.heard && now.history.played == sys.history.played
  {
    if k == 0 {
      assert ClickUpTo(c, 0) == [Begin(c)] && [Begin(c)][..0] == [];
      assert RunFrom(sys, [], songs, size) == sys;
    } else {
      ClickInSteps(sys, c, k - 1, songs, size);
      assert ClickUpTo(c, k)[..k] == ClickUpTo(c, k - 1);
      NextStore(sys.state, RunFrom(sys, ClickUpTo(c, k - 1), songs, size), c, k, songs, size);
    }
  }

  lemma NextStore(was: State, sys: System, c: Click, k: nat, songs: seq<Tape>, size: int)
    requires |songs| == 3 && size > 0
    requires 0 < k <= if c == Next || c == Previous then 4 else if c == Back || c == Forward then 2 else 3
    requires AfterStores(was, sys.state, c, k - 1) && sys.pc == Clicked(c, k - 1)
    ensures AfterStores(was, Step(sys, Store, songs, size).state, c, k)
  {
  }

  // ----- flags

  /** At most one button is down. */
  predicate Settled(f: Flags) {
    f in {Flags(0, 0, 0), Flags(1, 0, 0), Flags(0, 1, 0), Flags(0, 0, 1)}
  }

  /** Each flag is as in one or the other. */
  predicate Mixture(f: Flags, a: Flags, b: Flags) {
    f.play in {a.play, b.play} && f.pause in {a.pause, b.pause} && f.stop in {a.stop, b.stop}
  }

  /**
   A half-written change of buttons acts as the old one, the new one or none, in whatever order the
   flags are written.
   */
  lemma MixtureActsAsEither(f: Flags, a: Flags, b: Flags)
    requires Settled(a) && Settled(b) && Mixture(f, a, b)
    ensures ModeOf(f) in {ModeOf(a), ModeOf(b), Idle}
  {
  }

  /** The flags once `done` assignments of a click have been made. */
  function FlagsAfter(f: Flags, c: Click, done: nat): Flags {
    match c
    case Play => Flags(if done >= 1 then 1 else f.play, if done >= 2 then 0 else f.pause,
                       if done >= 3 then 0 else f.stop)
    case Pause => Flags(if done >= 1 then 0 else f.play, if done >= 2 then 1 else f.pause,
                        if done >= 3 then 0 else f.stop)
    case Back => f
    case Forward => f
    case _ => Flags(if done >= 1 then 0 else f.play, if done >= 2 then 0 else f.pause, if done >= 3 then 1 else f.stop)
  }

  lemma {:induction false} FlagsAfterWrites(s: State, c: Click, done: nat)
    requires done <= |Writes(c)|
    ensures WrittenAll(s, Writes(c)[..done]).flags == FlagsAfter(s.flags, c, done)
  {
    if done > 0 {
      FlagsAfterWrites(s, c, done - 1);
      assert Writes(c)[..done][..done - 1] == Writes(c)[..done - 1];
    }
  }

  // ----- what holds in every run

  ghost predicate FreqInBounds(s: State, pc: Pc) {
    && (if pc == Clicked(Back, 1) then 0 else 100) <= s.freqReader
    && s.freqReader <= if pc == Clicked(Forward, 1) then 88100 else 88000
  }

  ghost predicate FlagsFit(s: State, pc: Pc, before: Flags) {
    && Settled(before)
    && match pc
       case Waiting => Settled(s.flags)
       case Clicked(c, done) => done < |Writes(c)| && s.flags == FlagsAfter(before, c, done)
  }

  /**
   One of the three songs is chosen; the counter follows from the number of blocks sent since the
   last reset; the flags are those of one button, or on the way from one to another.
   */
  ghost predicate Inv(sys: System, size: int)
    requires size > 0
  {
    && 0 <= sys.state.whichSong <= 2
    && sys.state.addressCounter == CounterAfter(size, |sys.history.played|)
    && FlagsFit(sys.state, sys.pc, sys.history.before)
    && FreqInBounds(sys.state, sys.pc)
  }

  lemma StepKeepsInv(sys: System, e: Event, songs: seq<Tape>, size: int)
    requires |songs| == 3 && size > 0 && Inv(sys, size)
    ensures Inv(Step(sys, e, songs, size), size)
  {
    CounterStep(size, |sys.history.played|);
  }

  lemma {:induction false} InvInEveryRun(events: seq<Event>, songs: seq<Tape>, size: int)
    requires |songs| == 3 && size > 0
    ensures Inv(Run(events, songs, size), size)
  {
    if events == [] {
      CounterStep(size, 0);
    } else {
      InvInEveryRun(events[..|events| - 1], songs, size);
      StepKeepsInv(Run(events[..|events| - 1], songs, size), events[|events| - 1], songs, size);
    }
  }

  /** The flags the current click leads to. */
  function Target(sys: System): Flags
    requires sys.pc.Clicked?
  {
    WrittenAll(sys.state.(flags := sys.history.before), Writes(sys.pc.click)).flags
  }

  /** Whenever the first task runs, it acts as before the current click, as after it, or does nothing. */
  lemma NoSpuriousAction(events: seq<Event>, songs: seq<Tape>, size: int)
    requires |songs| == 3 && size > 0
    ensures var sys := Run(events, songs, size);
            && (sys.pc.Waiting? ==> Settled(sys.state.flags))
            && (sys.pc.Clicked? ==> ModeOf(sys.state.flags) in {ModeOf(sys.history.before), ModeOf(Target(sys)), Idle})
  {
    var sys := Run(events, songs, size);
    InvInEveryRun(events, songs, size);
    if sys.pc.Clicked? {
      var ws := Writes(sys.pc.click);
      FlagsAfterWrites(sys.state.(flags := sys.history.before), sys.pc.click, |ws|);
      assert ws[..|ws|] == ws;
      MixtureActsAsEither(sys.state.flags, sys.history.before, Target(sys));
    }
  }

  /** The chosen song changes only by an assignment made while just the stop flag is up. */
  lemma SongChangesOnlyWhenStopped(events: seq<Event>, e: Event, songs: seq<Tape>, size: int)
    requires |songs| == 3 && size > 0
    ensures 0 <= Run(events, songs, size).state.whichSong <= 2
    ensures Run(events + [e], songs, size).state.whichSong != Run(events, songs, size).state.whichSong
        ==> e == Store && Run(events, songs, size).state.flags == Flags(0, 0, 1)
  {
    InvInEveryRun(events, songs, size);
    assert (events + [e])[..|events|] == events;
  }

  /**
   The counter in any run, whatever pauses it had: 1000 for each block sent since the last reset,
   back to 0 after the one past the end.
   */
  lemma CounterLaw(events: seq<Event>, songs: seq<Tape>, size: int)
    requires |songs| == 3 && size > 0
    ensures var sys := Run(events, songs, size);
            && sys.state.addressCounter == 1000 * (|sys.history.played| % ((size + 999) / 1000 + 1))
            && 0 <= sys.state.addressCounter < size + 1000
  {
    InvInEveryRun(events, songs, size);
    CounterStep(size, |Run(events, songs, size).history.played|);
  }
}
