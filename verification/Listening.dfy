/** What is heard of the songs in a run of the two tasks, and where the next block starts. */
module Listening {
  import opened Bytes
  import opened Playback
  import opened Preemption

  // ----- what is heard

  ghost predicate AreSongs(played: seq<int>) {
    forall j :: 0 <= j < |played| ==> 0 <= played[j] < 3
  }

  /** The blocks of these songs, sent one after another from a reset on. */
  function Stream(played: seq<int>, songs: seq<Tape>, size: int): (r: seq<byte>)
    requires |songs| == 3 && size > 0 && AreSongs(played)
    ensures |r| == SAMPLES * |played|
  {
    if played == [] then []
    else
      var n := |played| - 1;
      Stream(played[..n], songs, size) + Block(songs[played[n]], size, CounterAfter(size, n))
  }

  lemma {:induction false} StreamAt(played: seq<int>, songs: seq<Tape>, size: int, j: nat, i: nat)
    requires |songs| == 3 && size > 0 && AreSongs(played) && j < |played| && i < SAMPLES
    ensures Stream(played, songs, size)[SAMPLES * j + i] == songs[played[j]](Index(size, CounterAfter(size, j), i))
  {
    if j < |played| - 1 {
      StreamAt(played[..|played| - 1], songs, size, j, i);
    }
  }

  /** In every run the samples sent since the last reset are the stream of the songs that were sent. */
  lemma {:induction false} HeardIsTheStream(events: seq<Event>, songs: seq<Tape>, size: int)
    requires |songs| == 3 && size > 0
    ensures var h := Run(events, songs, size).history;
            AreSongs(h.played) && h.heard == Stream(h.played, songs, size)
  {
    if events != [] {
      var front := events[..|events| - 1];
      HeardIsTheStream(front, songs, size);
      InvInEveryRun(front, songs, size);
      StepKeepsStream(Run(front, songs, size), events[|events| - 1], songs, size);
    }
  }

  lemma StepKeepsStream(sys: System, e: Event, songs: seq<Tape>, size: int)
    requires |songs| == 3 && size > 0 && Inv(sys, size)
    requires AreSongs(sys.history.played) && sys.history.heard == Stream(sys.history.played, songs, size)
    ensures var h := Step(sys, e, songs, size).history;
            AreSongs(h.played) && h.heard == Stream(h.played, songs, size)
  {
    var played, song := sys.history.played, sys.state.whichSong;
    assert (played + [song])[..|played|] == played;
  }

  /**
   Sample i of the j-th block since a reset, in every run: of the song chosen when the block was
   sent, and, while whole blocks remain, its sample 1000j + i.
   */
  lemma HeardSample(events: seq<Event>, songs: seq<Tape>, size: int, j: nat, i: nat)
    requires |songs| == 3 && size > 0
    requires j < |Run(events, songs, size).history.played| && i < 1000
    ensures var h := Run(events, songs, size).history;
            && |h.heard| == 1000 * |h.played| && 0 <= h.played[j] < 3
            && h.heard[1000 * j + i]
               == songs[h.played[j]]((1000 * (j % ((size + 999) / 1000 + 1))) % size + i % size)
            && (j < size / 1000 ==> h.heard[1000 * j + i] == songs[h.played[j]](1000 * j + i))
  {
    var h := Run(events, songs, size).history;
    HeardIsTheStream(events, songs, size);
    StreamAt(h.played, songs, size, j, i);
    BlockOf(songs[h.played[j]], size, j, i);
    BlockAt(songs[h.played[j]], size, CounterAfter(size, j), i);
    if j < size / SAMPLES {
      WholeBlock(songs[h.played[j]], size, j, i);
    }
  }

  ghost predicate AllOf(played: seq<int>, song: int) {
    forall j :: 0 <= j < |played| ==> played[j] == song
  }

  /** So if only one song was sent since the reset, what was heard is its opening, in order, without gap or repeat. */
  lemma HeardIsTheOpening(events: seq<Event>, song: int, songs: seq<Tape>, size: int)
    requires |songs| == 3 && size > 0 && 0 <= song < 3
    requires AllOf(Run(events, songs, size).history.played, song)
    requires |Run(events, songs, size).history.played| <= size / SAMPLES
    ensures var h := Run(events, songs, size).history;
            && |h.heard| == 1000 * |h.played|
            && forall k :: 0 <= k < |h.heard| ==> h.heard[k] == songs[song](k)
  {
    var h := Run(events, songs, size).history;
    HeardIsTheStream(events, songs, size);
    forall k | 0 <= k < |h.heard| ensures h.heard[k] == songs[song](k) {
      HeardSample(events, songs, size, k / SAMPLES, k % SAMPLES);
    }
  }

  /** That is so in every run in which neither Next nor Previous is clicked, however quick the other clicks. */
  lemma {:induction false} UnchangedSongAlone(events: seq<Event>, songs: seq<Tape>, size: int)
    requires |songs| == 3 && size > 0
    requires Begin(Next) !in events && Begin(Previous) !in events
    ensures var sys := Run(events, songs, size);
            sys.state.whichSong == 0 && AllOf(sys.history.played, 0)
    ensures Run(events, songs, size).pc.Clicked? ==> Run(events, songs, size).pc.click !in {Next, Previous}
  {
    if events != [] {
      UnchangedSongAlone(events[..|events| - 1], songs, size);
      assert events[|events| - 1] in events;
    }
  }

  // ----- runs in which the first task gets to run between clicks

  /** Every click finds that the first task has iterated since the click before it ended. */
  ghost predicate Patient(events: seq<Event>, songs: seq<Tape>, size: int)
    requires |songs| == 3 && size > 0
  {
    events == [] ||
    (var front, last := Run(events[..|events| - 1], songs, size), events[|events| - 1];
     && Patient(events[..|events| - 1], songs, size)
     && (last.Begin? && front.pc.Waiting? ==> front.history.ticked))
  }

  /** A song has just been chosen, and the first task has not iterated since. */
  ghost predicate JustChosen(sys: System) {
    sys.pc.Waiting? && !sys.history.ticked && sys.state.flags == Flags(0, 0, 1)
  }

  /** What was sent since the last reset is of the chosen song, unless that has just changed and a reset is due. */
  ghost predicate OneSong(sys: System) {
    && (sys.pc.Clicked? ==> !sys.history.ticked)
    && AllOf(sys.history.played, sys.history.lastSong)
    && (sys.history.played != [] && sys.history.lastSong != sys.state.whichSong ==> JustChosen(sys))
  }

  lemma StepKeepsOneSong(sys: System, e: Event, songs: seq<Tape>, size: int)
    requires |songs| == 3 && size > 0 && Inv(sys, size) && OneSong(sys)
    requires e.Begin? && sys.pc.Waiting? ==> sys.history.ticked
    ensures OneSong(Step(sys, e, songs, size))
  {
  }

  /** In such runs only one song is sent between two resets. */
  lemma {:induction false} PatientPlaysOneSong(events: seq<Event>, songs: seq<Tape>, size: int)
    requires |songs| == 3 && size > 0 && Patient(events, songs, size)
    ensures OneSong(Run(events, songs, size))
  {
    if events != [] {
      var front, last := events[..|events| - 1], events[|events| - 1];
      PatientPlaysOneSong(front, songs, size);
      InvInEveryRun(front, songs, size);
      StepKeepsOneSong(Run(front, songs, size), last, songs, size);
    }
  }

  /** And a song other than the one last sent starts at its beginning. */
  lemma NewSongStartsOver(events: seq<Event>, songs: seq<Tape>, size: int)
    requires |songs| == 3 && size > 0 && Patient(events, songs, size)
    ensures var sys := Run(events, songs, size);
            ModeOf(sys.state.flags).Playing? && sys.state.whichSong != sys.history.lastSong
            ==> sys.state.addressCounter == 0
  {
    PatientPlaysOneSong(events, songs, size);
    InvInEveryRun(events, songs, size);
    CounterStep(size, 0);
  }

  // ----- where the next block starts, in any run

  ghost predicate Acts(sys: System, events: seq<Event>, i: nat, mode: Mode, songs: seq<Tape>, size: int)
    requires |songs| == 3 && size > 0 && i < |events|
  {
    events[i] == Iterate && ModeOf(RunFrom(sys, events[..i], songs, size).state.flags) == mode
  }

  /** At some moment among these events the first task iterates and acts in this mode. */
  ghost predicate ActsSometime(sys: System, events: seq<Event>, mode: Mode, songs: seq<Tape>, size: int)
    requires |songs| == 3 && size > 0
  {
    exists i :: 0 <= i < |events| && Acts(sys, events, i, mode, songs, size)
  }

  ghost predicate NothingSent(sys: System, events: seq<Event>, songs: seq<Tape>, size: int)
    requires |songs| == 3 && size > 0
  {
    !ActsSometime(sys, events, Playing, songs, size)
  }

  /** The first task iterates at a moment when it finds the stop flag up and the play and pause flags down. */
  ghost predicate ResetOccurs(sys: System, events: seq<Event>, songs: seq<Tape>, size: int)
    requires |songs| == 3 && size > 0
  {
    ActsSometime(sys, events, Stopping, songs, size)
  }

  lemma ActsInFront(sys: System, front: seq<Event>, rest: seq<Event>, i: nat, mode: Mode, songs: seq<Tape>, size: int)
    requires |songs| == 3 && size > 0 && i < |front|
    ensures Acts(sys, front + rest, i, mode, songs, size) <==> Acts(sys, front, i, mode, songs, size)
  {
    assert (front + rest)[..i] == front[..i];
  }

  lemma ActsInRest(sys: System, front: seq<Event>, rest: seq<Event>, i: nat, mode: Mode, songs: seq<Tape>, size: int)
    requires |songs| == 3 && size > 0 && i < |rest|
    ensures Acts(sys, front + rest, |front| + i, mode, songs, size)
       <==> Acts(RunFrom(sys, front, songs, size), rest, i, mode, songs, size)
  {
    assert (front + rest)[..|front| + i] == front + rest[..i];
    RunAppend(sys, front, rest[..i], songs, size);
  }

  lemma ActsSplits(sys: System, front: seq<Event>, rest: seq<Event>, mode: Mode, songs: seq<Tape>, size: int)
    requires |songs| == 3 && size > 0
    ensures ActsSometime(sys, front + rest, mode, songs, size)
       <==> ActsSometime(sys, front, mode, songs, size)
            || ActsSometime(RunFrom(sys, front, songs, size), rest, mode, songs, size)
  {
    if ActsSometime(sys, front + rest, mode, songs, size) {
      var i :| 0 <= i < |front + rest| && Acts(sys, front + rest, i, mode, songs, size);
      ActsInEither(sys, front, rest, i, mode, songs, size);
    } else {
      ActsInWhole(sys, front, rest, mode, songs, size);
    }
  }

  lemma ActsInEither(sys: System, front: seq<Event>, rest: seq<Event>, i: nat, mode: Mode, songs: seq<Tape>, size: int)
    requires |songs| == 3 && size > 0 && i < |front + rest| && Acts(sys, front + rest, i, mode, songs, size)
    ensures ActsSometime(sys, front, mode, songs, size)
            || ActsSometime(RunFrom(sys, front, songs, size), rest, mode, songs, size)
  {
    if i < |front| {
      ActsInFront(sys, front, rest, i, mode, songs, size);
    } else {
      var k := i - |front|;
      ActsInRest(sys, front, rest, k, mode, songs, size);
      assert |front| + k == i;
    }
  }

  lemma ActsInWhole(sys: System, front: seq<Event>, rest: seq<Event>, mode: Mode, songs: seq<Tape>, size: int)
    requires |songs| == 3 && size > 0 && !ActsSometime(sys, front + rest, mode, songs, size)
    ensures !ActsSometime(sys, front, mode, songs, size)
    ensures !ActsSometime(RunFrom(sys, front, songs, size), rest, mode, songs, size)
  {
    forall i | 0 <= i < |front| ensures !Acts(sys, front, i, mode, songs, size) {
      ActsInFront(sys, front, rest, i, mode, songs, size);
      assert !Acts(sys, front + rest, i, mode, songs, size);
    }
    forall i | 0 <= i < |rest| ensures !Acts(RunFrom(sys, front, songs, size), rest, i, mode, songs, size) {
      ActsInRest(sys, front, rest, i, mode, songs, size);
      assert !Acts(sys, front + rest, |front| + i, mode, songs, size);
    }
  }

  lemma OneEvent(sys: System, e: Event, mode: Mode, songs: seq<Tape>, size: int)
    requires |songs| == 3 && size > 0
    ensures ActsSometime(sys, [e], mode, songs, size) <==> e == Iterate && ModeOf(sys.state.flags) == mode
  {
    assert [e][..0] == [];
    if e == Iterate && ModeOf(sys.state.flags) == mode {
      assert Acts(sys, [e], 0, mode, songs, size);
    }
  }

  /** One more event, of which it is clear whether the first task acts. */
  lemma ActsLast(sys: System, events: seq<Event>, mode: Mode, songs: seq<Tape>, size: int)
    requires |songs| == 3 && size > 0 && events != []
    ensures var front := events[..|events| - 1];
            ActsSometime(sys, events, mode, songs, size)
            <==> ActsSometime(sys, front, mode, songs, size)
                 || (events[|events| - 1] == Iterate && ModeOf(RunFrom(sys, front, songs, size).state.flags) == mode)
  {
    var front, last := events[..|events| - 1], events[|events| - 1];
    assert events == front + [last];
    ActsSplits(sys, front, [last], mode, songs, size);
    OneEvent(RunFrom(sys, front, songs, size), last, mode, songs, size);
  }

  lemma CounterAtStep(sys: System, e: Event, songs: seq<Tape>, size: int)
    requires |songs| == 3 && size > 0 && !(e == Iterate && ModeOf(sys.state.flags) == Playing)
    ensures Step(sys, e, songs, size).state.addressCounter
         == if e == Iterate && ModeOf(sys.state.flags) == Stopping then 0 else sys.state.addressCounter
  {
  }

  /**
   As long as no block is sent, the counter is 0 once a reset has occurred, and otherwise what it
   was, whatever is clicked.
   */
  lemma {:induction false} CounterUntilSent(sys: System, events: seq<Event>, songs: seq<Tape>, size: int)
    requires |songs| == 3 && size > 0 && NothingSent(sys, events, songs, size)
    ensures RunFrom(sys, events, songs, size).state.addressCounter
         == if ResetOccurs(sys, events, songs, size) then 0 else sys.state.addressCounter
  {
    if events != [] {
      ActsLast(sys, events, Playing, songs, size);
      ActsLast(sys, events, Stopping, songs, size);
      CounterUntilSent(sys, events[..|events| - 1], songs, size);
      CounterAtStep(RunFrom(sys, events[..|events| - 1], songs, size), events[|events| - 1], songs, size);
    }
  }

  /**
   From any point of any run, say where a song was chosen: the next block sent starts at the
   beginning exactly when the counter was 0 at that point or a reset has occurred since.
   */
  lemma NextBlockStartsOverIff(events: seq<Event>, n: nat, songs: seq<Tape>, size: int)
    requires |songs| == 3 && size > 0 && n <= |events|
    requires NothingSent(Run(events[..n], songs, size), events[n..], songs, size)
    ensures Run(events, songs, size).state.addressCounter == 0
       <==> Run(events[..n], songs, size).state.addressCounter == 0
            || ResetOccurs(Run(events[..n], songs, size), events[n..], songs, size)
  {
    CounterUntilSent(Run(events[..n], songs, size), events[n..], songs, size);
    RunSplits(events, n, songs, size);
  }

  /** The song's own assignment, the last one of a click on Next or Previous, comes at event `n`. */
  ghost predicate ChosenAt(events: seq<Event>, n: nat, songs: seq<Tape>, size: int)
    requires |songs| == 3 && size > 0
  {
    n < |events| && events[n] == Store && Run(events[..n], songs, size).pc in {Clicked(Next, 3), Clicked(Previous, 3)}
  }

  /**
   If the first task iterates between clicks, every chosen song starts at its beginning, the one that
   played before included.
   */
  lemma ChosenSongStartsOver(events: seq<Event>, n: nat, songs: seq<Tape>, size: int)
    requires |songs| == 3 && size > 0 && Patient(events, songs, size) && ChosenAt(events, n, songs, size)
    requires NothingSent(Run(events[..n + 1], songs, size), events[n + 1..], songs, size)
    requires ModeOf(Run(events, songs, size).state.flags).Playing?
    ensures Run(events, songs, size).state.addressCounter == 0
  {
    ChosenThenReset(events, n, songs, size);
    NextBlockStartsOverIff(events, n + 1, songs, size);
  }

  lemma {:induction false} ChosenThenReset(events: seq<Event>, n: nat, songs: seq<Tape>, size: int)
    requires |songs| == 3 && size > 0 && Patient(events, songs, size) && ChosenAt(events, n, songs, size)
    ensures ChosenOrReset(events, n + 1, songs, size)
  {
    var front := events[..|events| - 1];
    assert front == events[..|front|];
    if |front| == n {
      ChosenNow(front, songs, size);
    } else {
      assert front[..n] == events[..n];
      ChosenThenReset(front, n, songs, size);
      ChosenOrResetKept(events, n + 1, songs, size);
    }
  }

  ghost predicate ChosenOrReset(events: seq<Event>, k: nat, songs: seq<Tape>, size: int)
    requires |songs| == 3 && size > 0 && k <= |events|
  {
    JustChosen(Run(events, songs, size)) || ResetOccurs(Run(events[..k], songs, size), events[k..], songs, size)
  }

  lemma ChosenOrResetKept(events: seq<Event>, k: nat, songs: seq<Tape>, size: int)
    requires |songs| == 3 && size > 0 && k < |events| && Patient(events, songs, size)
    requires ChosenOrReset(events[..|events| - 1], k, songs, size)
    ensures ChosenOrReset(events, k, songs, size)
  {
    var front, last := events[..|events| - 1], events[|events| - 1];
    ResetSince(events, k, songs, size);
    if JustChosen(Run(front, songs, size)) {
      ChoiceStands(Run(front, songs, size), last, songs, size);
    }
  }

  lemma ChosenNow(front: seq<Event>, songs: seq<Tape>, size: int)
    requires |songs| == 3 && size > 0 && Patient(front, songs, size)
    requires Run(front, songs, size).pc in {Clicked(Next, 3), Clicked(Previous, 3)}
    ensures JustChosen(Step(Run(front, songs, size), Store, songs, size))
  {
    InvInEveryRun(front, songs, size);
    PatientPlaysOneSong(front, songs, size);
    ChoiceMade(Run(front, songs, size), songs, size);
  }

  lemma ResetSince(events: seq<Event>, k: nat, songs: seq<Tape>, size: int)
    requires |songs| == 3 && size > 0 && k < |events|
    ensures var front := events[..|events| - 1];
            ResetOccurs(Run(events[..k], songs, size), events[k..], songs, size)
            <==> ResetOccurs(Run(front[..k], songs, size), front[k..], songs, size)
                 || (events[|events| - 1] == Iterate && ModeOf(Run(front, songs, size).state.flags) == Stopping)
  {
    var front := events[..|events| - 1];
    assert front[..k] == events[..k] && events[k..][..|events| - k - 1] == front[k..];
    RunSplits(front, k, songs, size);
    ActsLast(Run(events[..k], songs, size), events[k..], Stopping, songs, size);
  }

  lemma ChoiceMade(sys: System, songs: seq<Tape>, size: int)
    requires |songs| == 3 && size > 0 && Inv(sys, size) && OneSong(sys)
    requires sys.pc in {Clicked(Next, 3), Clicked(Previous, 3)}
    ensures JustChosen(Step(sys, Store, songs, size))
  {
  }

  lemma ChoiceStands(sys: System, e: Event, songs: seq<Tape>, size: int)
    requires |songs| == 3 && size > 0 && JustChosen(sys) && (e.Begin? ==> sys.history.ticked)
    ensures JustChosen(Step(sys, e, songs, size)) || (e == Iterate && ModeOf(sys.state.flags) == Stopping)
  {
  }

  lemma RunSplits(events: seq<Event>, n: nat, songs: seq<Tape>, size: int)
    requires |songs| == 3 && size > 0 && n <= |events|
    ensures Run(events, songs, size) == RunFrom(Run(events[..n], songs, size), events[n..], songs, size)
  {
    assert events == events[..n] + events[n..];
    RunAppend(INITIAL, events[..n], events[n..], songs, size);
  }

  // ----- a click and the next block

  function Iterations(n: nat): seq<Event> {
    seq<Event>(n, _ => Iterate)
  }

  lemma {:induction false} RunAppend(sys: System, a: seq<Event>, b: seq<Event>, songs: seq<Tape>, size: int)
    requires |songs| == 3 && size > 0
    ensures RunFrom(sys, a + b, songs, size) == RunFrom(RunFrom(sys, a, songs, size), b, songs, size)
  {
    if b == [] {
      assert a + b == a;
    } else {
      assert (a + b)[..|a + b| - 1] == a + b[..|b| - 1];
      RunAppend(sys, a, b[..|b| - 1], songs, size);
    }
  }

  lemma RunLast(sys: System, front: seq<Event>, e: Event, songs: seq<Tape>, size: int)
    requires |songs| == 3 && size > 0
    ensures RunFrom(sys, front + [e], songs, size) == Step(RunFrom(sys, front, songs, size), e, songs, size)
  {
    assert (front + [e])[..|front|] == front;
  }

  lemma RunTwo(sys: System, d: Event, e: Event, songs: seq<Tape>, size: int)
    requires |songs| == 3 && size > 0
    ensures RunFrom(sys, [d, e], songs, size) == Step(Step(sys, d, songs, size), e, songs, size)
  {
    RunLast(sys, [], d, songs, size);
    RunLast(sys, [d], e, songs, size);
    assert [] + [d] == [d] && [d] + [e] == [d, e];
  }

  /** Nothing is sent or reset without an iteration. */
  lemma NoIteration(sys: System, events: seq<Event>, mode: Mode, songs: seq<Tape>, size: int)
    requires |songs| == 3 && size > 0 && Iterate !in events
    ensures !ActsSometime(sys, events, mode, songs, size)
  {
    forall i | 0 <= i < |events| ensures !Acts(sys, events, i, mode, songs, size) {
      assert events[i] in events;
    }
  }

  lemma {:induction false} StoppedIterations(sys: System, n: nat, songs: seq<Tape>, size: int)
    requires |songs| == 3 && size > 0 && ModeOf(sys.state.flags) == Stopping
    ensures var end := RunFrom(sys, Iterations(n), songs, size);
            && end.state.flags == sys.state.flags && end.state.whichSong == sys.state.whichSong && end.pc == sys.pc
            && end.history.lastSong == sys.history.lastSong
    ensures NothingSent(sys, Iterations(n), songs, size)
    ensures ResetOccurs(sys, Iterations(n), songs, size) <==> n > 0
  {
    if n > 0 {
      assert Iterations(n)[..n - 1] == Iterations(n - 1);
      StoppedIterations(sys, n - 1, songs, size);
      ActsLast(sys, Iterations(n), Playing, songs, size);
      ActsLast(sys, Iterations(n), Stopping, songs, size);
    }
  }

  /** A click on Next or Previous up to its last assignment. */
  function Flagging(c: Click): seq<Event> {
    [Begin(c), Store] + [Store, Store]
  }

  /** The first assignment of a click on Play. */
  const RESUME: seq<Event> := [Begin(Play), Store]

  /** The song after such a click. */
  function Chosen(c: Click, song: int): int {
    if c == Next && song < 2 then song + 1 else if c == Previous && song > 0 then song - 1 else song
  }

  /** A whole such click, with `m` iterations before its last assignment. */
  function Change(c: Click, m: nat): seq<Event> {
    Flagging(c) + Iterations(m) + [Store]
  }

  lemma Flagged(sys: System, c: Click, songs: seq<Tape>, size: int)
    requires |songs| == 3 && size > 0 && sys.pc.Waiting? && c in {Next, Previous}
    ensures var end := RunFrom(sys, Flagging(c), songs, size);
            && end.pc == Clicked(c, 3) && end.history.lastSong == sys.history.lastSong
            && end.state == sys.state.(flags := Flags(0, 0, 1))
    ensures NothingSent(sys, Flagging(c), songs, size) && !ResetOccurs(sys, Flagging(c), songs, size)
  {
    RunAppend(sys, [Begin(c), Store], [Store, Store], songs, size);
    RunTwo(sys, Begin(c), Store, songs, size);
    RunTwo(RunFrom(sys, [Begin(c), Store], songs, size), Store, Store, songs, size);
    NoIteration(sys, Flagging(c), Playing, songs, size);
    NoIteration(sys, Flagging(c), Stopping, songs, size);
  }

  /** More events after some in which nothing was sent. */
  lemma Extend(sys: System, front: seq<Event>, rest: seq<Event>, songs: seq<Tape>, size: int)
    requires |songs| == 3 && size > 0 && NothingSent(sys, front, songs, size)
    requires NothingSent(RunFrom(sys, front, songs, size), rest, songs, size)
    ensures RunFrom(sys, front + rest, songs, size) == RunFrom(RunFrom(sys, front, songs, size), rest, songs, size)
    ensures NothingSent(sys, front + rest, songs, size)
    ensures ResetOccurs(sys, front + rest, songs, size)
       <==> ResetOccurs(sys, front, songs, size) || ResetOccurs(RunFrom(sys, front, songs, size), rest, songs, size)
  {
    RunAppend(sys, front, rest, songs, size);
    ActsSplits(sys, front, rest, Playing, songs, size);
    ActsSplits(sys, front, rest, Stopping, songs, size);
  }

  lemma Waited(sys: System, c: Click, m: nat, songs: seq<Tape>, size: int)
    requires |songs| == 3 && size > 0 && sys.pc.Waiting? && c in {Next, Previous}
    ensures var end := RunFrom(sys, Flagging(c) + Iterations(m), songs, size);
            && end.pc == Clicked(c, 3) && end.state.flags == Flags(0, 0, 1)
            && end.state.whichSong == sys.state.whichSong && end.history.lastSong == sys.history.lastSong
    ensures NothingSent(sys, Flagging(c) + Iterations(m), songs, size)
    ensures ResetOccurs(sys, Flagging(c) + Iterations(m), songs, size) <==> m > 0
  {
    Flagged(sys, c, songs, size);
    StoppedIterations(RunFrom(sys, Flagging(c), songs, size), m, songs, size);
    Extend(sys, Flagging(c), Iterations(m), songs, size);
  }

  lemma Changed(sys: System, c: Click, m: nat, songs: seq<Tape>, size: int)
    requires |songs| == 3 && size > 0 && sys.pc.Waiting? && c in {Next, Previous}
    ensures var end := RunFrom(sys, Change(c, m), songs, size);
            && end.pc.Waiting? && end.state.flags == Flags(0, 0, 1)
            && end.state.whichSong == Chosen(c, sys.state.whichSong) && end.history.lastSong == sys.history.lastSong
    ensures NothingSent(sys, Change(c, m), songs, size)
    ensures ResetOccurs(sys, Change(c, m), songs, size) <==> m > 0
  {
    Waited(sys, c, m, songs, size);
    LastStore(RunFrom(sys, Flagging(c) + Iterations(m), songs, size), songs, size);
    Extend(sys, Flagging(c) + Iterations(m), [Store], songs, size);
  }

  lemma Played(sys: System, n: nat, songs: seq<Tape>, size: int)
    requires |songs| == 3 && size > 0 && sys.pc.Waiting? && sys.state.flags == Flags(0, 0, 1)
    ensures var end := RunFrom(sys, Iterations(n) + RESUME, songs, size);
            && ModeOf(end.state.flags).Playing? && end.state.whichSong == sys.state.whichSong
            && end.history.lastSong == sys.history.lastSong
    ensures NothingSent(sys, Iterations(n) + RESUME, songs, size)
    ensures ResetOccurs(sys, Iterations(n) + RESUME, songs, size) <==> n > 0
  {
    StoppedIterations(sys, n, songs, size);
    Resumed(RunFrom(sys, Iterations(n), songs, size), songs, size);
    Extend(sys, Iterations(n), RESUME, songs, size);
  }

  /**
   A song chosen with Next or Previous, from any state, and then played starts at its beginning
   exactly when the first task iterated after the stop flag went up, or the counter was 0.
   */
  lemma FirstBlockAfterChange(sys: System, c: Click, m: nat, n: nat, songs: seq<Tape>, size: int)
    requires |songs| == 3 && size > 0 && sys.pc.Waiting? && c in {Next, Previous}
    ensures var end := RunFrom(sys, Change(c, m) + (Iterations(n) + RESUME), songs, size);
            && ModeOf(end.state.flags).Playing?
            && end.state.whichSong == Chosen(c, sys.state.whichSong) && end.history.lastSong == sys.history.lastSong
            && (end.state.addressCounter == 0 <==> m > 0 || n > 0 || sys.state.addressCounter == 0)
  {
    Changed(sys, c, m, songs, size);
    Played(RunFrom(sys, Change(c, m), songs, size), n, songs, size);
    Extend(sys, Change(c, m), Iterations(n) + RESUME, songs, size);
    CounterUntilSent(sys, Change(c, m) + (Iterations(n) + RESUME), songs, size);
  }

  lemma LastStore(sys: System, songs: seq<Tape>, size: int)
    requires |songs| == 3 && size > 0 && sys.pc in {Clicked(Next, 3), Clicked(Previous, 3)}
    ensures var end := RunFrom(sys, [Store], songs, size);
            && end.pc.Waiting? && end.state.whichSong == Chosen(sys.pc.click, sys.state.whichSong)
            && end.state.flags == sys.state.flags && end.history.lastSong == sys.history.lastSong
    ensures NothingSent(sys, [Store], songs, size) && !ResetOccurs(sys, [Store], songs, size)
  {
    RunLast(sys, [], Store, songs, size);
    assert [] + [Store] == [Store];
    NoIteration(sys, [Store], Playing, songs, size);
    NoIteration(sys, [Store], Stopping, songs, size);
  }

  lemma Resumed(sys: System, songs: seq<Tape>, size: int)
    requires |songs| == 3 && size > 0 && sys.pc.Waiting?
    ensures var end := RunFrom(sys, RESUME, songs, size);
            && ModeOf(end.state.flags).Playing? && end.state.whichSong == sys.state.whichSong
            && end.history.lastSong == sys.history.lastSong
    ensures NothingSent(sys, RESUME, songs, size) && !ResetOccurs(sys, RESUME, songs, size)
  {
    RunTwo(sys, Begin(Play), Store, songs, size);
    NoIteration(sys, RESUME, Playing, songs, size);
    NoIteration(sys, RESUME, Stopping, songs, size);
  }

  /** So without such an iteration a run may start the second song past its beginning. */
  lemma HastySwitch(songs: seq<Tape>, size: int) returns (events: seq<Event>)
    requires |songs| == 3 && size > 0
    ensures var sys := Run(events, songs, size);
            && ModeOf(sys.state.flags).Playing? && sys.state.whichSong == 1 && sys.history.lastSong == 0
            && sys.state.addressCounter != 0
  {
    var first := StartAndPlay(songs, size);
    FirstBlockAfterChange(Run(first, songs, size), Next, 0, 0, songs, size);
    RunAppend(INITIAL, first, Change(Next, 0) + (Iterations(0) + RESUME), songs, size);
    events := first + (Change(Next, 0) + (Iterations(0) + RESUME));
  }

  lemma StartAndPlay(songs: seq<Tape>, size: int) returns (events: seq<Event>)
    requires |songs| == 3 && size > 0
    ensures var sys := Run(events, songs, size);
            && sys.pc.Waiting? && sys.state.whichSong == 0 && sys.history.lastSong == 0
            && sys.state.addressCounter == SAMPLES
  {
    events := [Begin(Play), Store] + [Store, Store] + [Iterate];
    RunTwo(INITIAL, Begin(Play), Store, songs, size);
    RunAppend(INITIAL, [Begin(Play), Store], [Store, Store], songs, size);
    RunTwo(RunFrom(INITIAL, [Begin(Play), Store], songs, size), Store, Store, songs, size);
    RunLast(INITIAL, [Begin(Play), Store] + [Store, Store], Iterate, songs, size);
  }

  // ----- round and round

  /** Everything heard since the last reset is what playing round and round gives, each block of its song. */
  ghost predicate HeardInLoop(h: History, songs: seq<Tape>, size: int)
    requires |songs| == 3 && size > 0
  {
    && AreSongs(h.played) && |h.heard| == 1000 * |h.played|
    && forall k :: 0 <= k < |h.heard| ==> h.heard[k] == songs[h.played[k / 1000]](k % size)
  }

  /** That is so in every run, for all songs of a size, exactly if the size divides a block. */
  lemma HeardLoopsIff(size: int)
    requires size > 0
    ensures (forall events: seq<Event>, songs: seq<Tape> :: |songs| == 3 ==>
               HeardInLoop(Run(events, songs, size).history, songs, size))
       <==> 1000 % size == 0
  {
    if SAMPLES % size == 0 {
      forall events: seq<Event>, songs: seq<Tape> | |songs| == 3
        ensures HeardInLoop(Run(events, songs, size).history, songs, size)
      {
        LoopHeard(events, songs, size);
      }
    } else {
      var events, songs := LoopBroken(size);
      assert !HeardInLoop(Run(events, songs, size).history, songs, size);
    }
  }

  lemma LoopHeard(events: seq<Event>, songs: seq<Tape>, size: int)
    requires |songs| == 3 && size > 0 && SAMPLES % size == 0
    ensures HeardInLoop(Run(events, songs, size).history, songs, size)
  {
    var h := Run(events, songs, size).history;
    HeardIsTheStream(events, songs, size);
    forall k | 0 <= k < |h.heard| ensures h.heard[k] == songs[h.played[k / 1000]](k % size) {
      var n, i := k / SAMPLES, k % SAMPLES;
      StreamAt(h.played, songs, size, n, i);
      LoopsWhenDividing(songs[h.played[n]], size, n, i);
      BlockAt(songs[h.played[n]], size, CounterAfter(size, n), i);
    }
  }

  /** Otherwise playing long enough from the start leaves the loop. */
  lemma LoopBroken(size: int) returns (events: seq<Event>, songs: seq<Tape>)
    requires size > 0 && SAMPLES % size != 0
    ensures |songs| == 3 && !HeardInLoop(Run(events, songs, size).history, songs, size)
  {
    var n, i := LeavesTheLoop(size);
    var x := Index(size, CounterAfter(size, n), i);
    songs := [Marker(x), Marker(x), Marker(x)];
    events := RESUME + Iterations(n + 1);
    PlayedFor(n + 1, songs, size);
    var h := Run(events, songs, size).history;
    HeardSample(events, songs, size, n, i);
    var k := SAMPLES * n + i;
    assert k / SAMPLES == n && h.heard[k] == Marker(x)(x) == 1 && Marker(x)(k % size) == 0;
  }

  lemma PlayedFor(n: nat, songs: seq<Tape>, size: int)
    requires |songs| == 3 && size > 0
    ensures |Run(RESUME + Iterations(n), songs, size).history.played| == n
  {
    RunTwo(INITIAL, Begin(Play), Store, songs, size);
    PlayingIterations(RunFrom(INITIAL, RESUME, songs, size), n, songs, size);
    RunAppend(INITIAL, RESUME, Iterations(n), songs, size);
  }

  lemma {:induction false} PlayingIterations(sys: System, n: nat, songs: seq<Tape>, size: int)
    requires |songs| == 3 && size > 0 && ModeOf(sys.state.flags) == Playing
    ensures RunFrom(sys, Iterations(n), songs, size).state.flags == sys.state.flags
    ensures |RunFrom(sys, Iterations(n), songs, size).history.played| == |sys.history.played| + n
  {
    if n > 0 {
      assert Iterations(n)[..n - 1] == Iterations(n - 1);
      PlayingIterations(sys, n - 1, songs, size);
    }
  }
}
