/** The audio player's two tasks, after `hello_ucosii.c`: what each reads, writes and sends. */
module Playback {
  import opened Arithmetic
  import opened Bytes

  /** Samples sent in one go. */
  const SAMPLES: int := 1000

  const FREQ_INCREMENT: int := 100
  const FREQ_NOMINAL: int := 44000
  const FREQ_MAX: int := 2 * FREQ_NOMINAL

  /** A song as memory holds it, with whatever lies before and behind it. */
  type Tape = int -> byte

  datatype Flags = Flags(play: byte, pause: byte, stop: byte)

  datatype State = State(flags: Flags, whichSong: int, freqReader: int, addressCounter: int)

  datatype Mode = Playing | Pausing | Stopping | Idle

  /** The order in which the first task looks at the flags. */
  function ModeOf(f: Flags): Mode {
    if f.play == 1 then Playing else if f.pause == 1 then Pausing else if f.stop == 1 then Stopping else Idle
  }

  /** Where the i-th sample of a block is read. */
  function Index(size: int, at: int, i: int): int
    requires size > 0
  {
    at % size + i % size
  }

  function Block(tape: Tape, size: int, at: int): (b: seq<byte>)
    requires size > 0
    ensures |b| == SAMPLES
  {
    seq<byte>(SAMPLES, i requires 0 <= i < SAMPLES => tape(Index(size, at, i)))
  }

  /** A thousand samples have been sent, read from the part of the tape that starts at `at`. */
  ghost predicate BlockSent(was: seq<byte>, now: seq<byte>, tape: Tape, size: int, at: int)
    requires size > 0
  {
    && |now| == |was| + 1000 && now[..|was|] == was
    && forall i :: 0 <= i < 1000 ==> now[|was| + i] == tape(at % size + i % size)
  }

  lemma BlockIsSent(was: seq<byte>, tape: Tape, size: int, at: int)
    requires size > 0
    ensures BlockSent(was, was + Block(tape, size, at), tape, size, at)
  {
    forall i | 0 <= i < 1000
      ensures (was + Block(tape, size, at))[|was| + i] == tape(at % size + i % size)
    {
      BlockAt(tape, size, at, i);
    }
  }

  function NextCounter(size: int, counter: int): int {
    if counter < size then counter + SAMPLES else 0
  }

  /** What one iteration of the first task makes of the state. */
  function Iterated(s: State, size: int): State {
    match ModeOf(s.flags)
    case Playing => s.(addressCounter := NextCounter(size, s.addressCounter))
    case Stopping => s.(addressCounter := 0)
    case _ => s
  }

  /** What one iteration of the first task sends. */
  function Sent(s: State, songs: seq<Tape>, size: int): seq<byte>
    requires |songs| == 3 && size > 0
  {
    if ModeOf(s.flags).Playing? && 0 <= s.whichSong < 3 then Block(songs[s.whichSong], size, s.addressCounter) else []
  }

  /** The buttons that act on the player. */
  datatype Click = Play | Stop | Pause | Back | Forward | Next | Previous

  /** The assignments of the second task; the first task may run before each. */
  datatype Write =
    | SetPlay(value: byte)
    | SetPause(value: byte)
    | SetStop(value: byte)
    | NextSong
    | PreviousSong
    | Slower
    | AtLeast
    | Faster
    | AtMost

  function Written(s: State, w: Write): State {
    match w
    case SetPlay(v) => s.(flags := s.flags.(play := v))
    case SetPause(v) => s.(flags := s.flags.(pause := v))
    case SetStop(v) => s.(flags := s.flags.(stop := v))
    case NextSong => if s.whichSong < 2 then s.(whichSong := s.whichSong + 1) else s
    case PreviousSong => if s.whichSong > 0 then s.(whichSong := s.whichSong - 1) else s
    case Slower => s.(freqReader := s.freqReader - FREQ_INCREMENT)
    case AtLeast => if s.freqReader < FREQ_INCREMENT then s.(freqReader := FREQ_INCREMENT) else s
    case Faster => s.(freqReader := s.freqReader + FREQ_INCREMENT)
    case AtMost => if s.freqReader > FREQ_MAX then s.(freqReader := FREQ_MAX) else s
  }

  function WrittenAll(s: State, ws: seq<Write>): State {
    if ws == [] then s else Written(WrittenAll(s, ws[..|ws| - 1]), ws[|ws| - 1])
  }

  function Writes(c: Click): seq<Write> {
    match c
    case Play => [SetPlay(1), SetPause(0), SetStop(0)]
    case Stop => [SetPlay(0), SetPause(0), SetStop(1)]
    case Pause => [SetPlay(0), SetPause(1), SetStop(0)]
    case Back => [Slower, AtLeast]
    case Forward => [Faster, AtMost]
    case Next => [SetPlay(0), SetPause(0), SetStop(1), NextSong]
    case Previous => [SetPlay(0), SetPause(0), SetStop(1), PreviousSong]
  }

  /** The globals the tasks share, the first task's counter, and the FIFO it feeds. */
  class Player {
    var playSong: byte
    var pauseSong: byte
    var stopSong: byte
    var whichSong: int
    var freqReader: int
    var addressCounter: int
    var fifo: seq<byte>
    const songs: seq<Tape>
    const sizeSong: int

    constructor (songs: seq<Tape>, sizeSong: int)
      requires |songs| == 3 && sizeSong > 0
      ensures Valid() && this.songs == songs && this.sizeSong == sizeSong && fifo == []
      ensures playSong == 0 && pauseSong == 0 && stopSong == 0
      ensures whichSong == 0 && freqReader == 44000 && addressCounter == 0
    {
      playSong, pauseSong, stopSong, whichSong, freqReader, addressCounter := 0, 0, 0, 0, FREQ_NOMINAL, 0;
      fifo := [];
      this.songs, this.sizeSong := songs, sizeSong;
    }

    ghost predicate Valid() {
      |songs| == 3 && sizeSong > 0
    }

    ghost function View(): State
      reads this
    {
      State(Flags(playSong, pauseSong, stopSong), whichSong, freqReader, addressCounter)
    }

    /** `send_audio_fifo` on the part of a song that starts at the counter. */
    method SendAudioFifo(tape: Tape)
      requires Valid()
      modifies this`fifo
      ensures fifo == old(fifo) + Block(tape, sizeSong, addressCounter)
      ensures BlockSent(old(fifo), fifo, tape, sizeSong, addressCounter)
    {
      ghost var block := Block(tape, sizeSong, addressCounter);
      for i := 0 to SAMPLES
        invariant fifo == old(fifo) + block[..i]
      {
        assert block[..i + 1] == block[..i] + [block[i]] && block[i] == tape(Index(sizeSong, addressCounter, i));
        fifo := fifo + [tape(addressCounter % sizeSong + i % sizeSong)];
      }
      BlockIsSent(old(fifo), tape, sizeSong, addressCounter);
    }

    /** One iteration of the first task. */
    method Task1Iteration()
      requires Valid()
      modifies this`fifo, this`addressCounter
      ensures View() == Iterated(old(View()), sizeSong)
      ensures fifo == old(fifo) + Sent(old(View()), songs, sizeSong)
      ensures if playSong == 1 && 0 <= whichSong <= 2
              then BlockSent(old(fifo), fifo, songs[whichSong], sizeSong, old(addressCounter))
              else fifo == old(fifo)
      ensures addressCounter
           == if playSong == 1 then (if old(addressCounter) < sizeSong then old(addressCounter) + 1000 else 0)
              else if pauseSong != 1 && stopSong == 1 then 0
              else old(addressCounter)
    {
      if playSong == 1 {
        if whichSong == 0 {
          SendAudioFifo(songs[0]);
        } else if whichSong == 1 {
          SendAudioFifo(songs[1]);
        } else if whichSong == 2 {
          SendAudioFifo(songs[2]);
        }
        if addressCounter < sizeSong {
          addressCounter := addressCounter + SAMPLES;
        } else {
          addressCounter := 0;
        }
      } else if pauseSong == 1 {
      } else if stopSong == 1 {
        addressCounter := 0;
      }
    }

    /** What the second task does for a click, if the first task does not run in between. */
    method Task2Click(c: Click)
      modifies this`playSong, this`pauseSong, this`stopSong, this`whichSong, this`freqReader
      ensures View() == WrittenAll(old(View()), Writes(c))
      ensures c == Play ==> playSong == 1 && pauseSong == 0 && stopSong == 0
      ensures c == Pause ==> playSong == 0 && pauseSong == 1 && stopSong == 0
      ensures c == Stop || c == Next || c == Previous ==> playSong == 0 && pauseSong == 0 && stopSong == 1
      ensures c == Back || c == Forward
              ==> playSong == old(playSong) && pauseSong == old(pauseSong) && stopSong == old(stopSong)
      ensures whichSong == if c == Next && old(whichSong) < 2 then old(whichSong) + 1
                           else if c == Previous && old(whichSong) > 0 then old(whichSong) - 1
                           else old(whichSong)
      ensures freqReader == if c == Back then (if old(freqReader) < 200 then 100 else old(freqReader) - 100)
                            else if c == Forward then (if old(freqReader) > 87900 then 88000 else old(freqReader) + 100)
                            else old(freqReader)
    {
      ghost var was := View();
      match c
      case Play =>
        playSong := 1;
        pauseSong := 0;
        stopSong := 0;
        WrittenThree(was, SetPlay(1), SetPause(0), SetStop(0));
      case Stop =>
        playSong := 0;
        pauseSong := 0;
        stopSong := 1;
        WrittenThree(was, SetPlay(0), SetPause(0), SetStop(1));
      case Pause =>
        playSong := 0;
        pauseSong := 1;
        stopSong := 0;
        WrittenThree(was, SetPlay(0), SetPause(1), SetStop(0));
      case Back =>
        freqReader := freqReader - FREQ_INCREMENT;
        if freqReader < FREQ_INCREMENT {
          freqReader := FREQ_INCREMENT;
        }
        WrittenTwo(was, Slower, AtLeast);
      case Forward =>
        freqReader := freqReader + FREQ_INCREMENT;
        if freqReader > FREQ_MAX {
          freqReader := FREQ_MAX;
        }
        WrittenTwo(was, Faster, AtMost);
      case Next =>
        playSong := 0;
        pauseSong := 0;
        stopSong := 1;
        if whichSong < 2 {
          whichSong := whichSong + 1;
        }
        WrittenFour(was, SetPlay(0), SetPause(0), SetStop(1), NextSong);
      case Previous =>
        playSong := 0;
        pauseSong := 0;
        stopSong := 1;
        if whichSong > 0 {
          whichSong := whichSong - 1;
        }
        WrittenFour(was, SetPlay(0), SetPause(0), SetStop(1), PreviousSong);
    }
  }

  lemma WrittenLast(s: State, ws: seq<Write>, w: Write)
    ensures WrittenAll(s, ws + [w]) == Written(WrittenAll(s, ws), w)
  {
    assert (ws + [w])[..|ws|] == ws;
  }

  lemma WrittenTwo(s: State, v: Write, w: Write)
    ensures WrittenAll(s, [v, w]) == Written(Written(s, v), w)
  {
    assert WrittenAll(s, []) == s;
    WrittenLast(s, [], v);
    WrittenLast(s, [v], w);
    assert [] + [v] == [v];
    assert [v] + [w] == [v, w];
  }

  lemma WrittenThree(s: State, u: Write, v: Write, w: Write)
    ensures WrittenAll(s, [u, v, w]) == Written(Written(Written(s, u), v), w)
  {
    WrittenTwo(s, u, v);
    WrittenLast(s, [u, v], w);
    assert [u, v] + [w] == [u, v, w];
  }

  lemma WrittenFour(s: State, t: Write, u: Write, v: Write, w: Write)
    ensures WrittenAll(s, [t, u, v, w]) == Written(Written(Written(Written(s, t), u), v), w)
  {
    WrittenThree(s, t, u, v);
    WrittenLast(s, [t, u, v], w);
    assert [t, u, v] + [w] == [t, u, v, w];
  }

  // ----- where playback is

  /** Blocks needed to cover a song. */
  function Blocks(size: int): int {
    (size + SAMPLES - 1) / SAMPLES
  }

  /** The counter after `n` blocks have been sent since it was last set to 0. */
  function CounterAfter(size: int, n: int): int
    requires size > 0
  {
    SAMPLES * (n % (Blocks(size) + 1))
  }

  lemma RemainderIs(n: int, m: int, q: int, r: int)
    requires 0 <= r < m && n == m * q + r
    ensures n % m == r
  {
    var d := n / m - q;
    assert m * d == r - n % m by {
      assert m * (n / m) - m * q == m * d;
    }
    if d >= 1 {
      MulMonotone(1, d, m);
    } else if d <= -1 {
      MulMonotone(d, -1, m);
    }
  }

  lemma NextRemainder(n: int, m: int)
    requires m > 0
    ensures (n + 1) % m == if n % m == m - 1 then 0 else n % m + 1
  {
    var q := n / m;
    if n % m == m - 1 {
      MulAdd(q, 1, m);
      RemainderIs(n + 1, m, q + 1, 0);
    } else {
      RemainderIs(n + 1, m, q, n % m + 1);
    }
  }

  /** The counter runs 0, 1000, ... up to the first multiple of 1000 that is not below the size, and back to 0. */
  lemma CounterStep(size: int, n: int)
    requires size > 0
    ensures NextCounter(size, CounterAfter(size, n)) == CounterAfter(size, n + 1)
    ensures CounterAfter(size, 0) == 0 && 0 <= CounterAfter(size, n) < size + SAMPLES
  {
    NextRemainder(n, Blocks(size) + 1);
    RemainderIs(0, Blocks(size) + 1, 0, 0);
  }

  /** Sample `i` of the n-th block since the counter was last 0, as a place on the tape. */
  lemma BlockOf(tape: Tape, size: int, n: nat, i: nat)
    requires size > 0 && i < 1000
    ensures CounterAfter(size, n) == 1000 * (n % ((size + 999) / 1000 + 1))
    ensures Block(tape, size, CounterAfter(size, n))[i]
         == tape((1000 * (n % ((size + 999) / 1000 + 1))) % size + i % size)
  {
    BlockAt(tape, size, CounterAfter(size, n), i);
  }

  /** While whole blocks remain, the n-th block is samples 1000n to 1000n + 999 of the song. */
  lemma WholeBlock(tape: Tape, size: int, n: nat, i: nat)
    requires 1000 * (n + 1) <= size && i < 1000
    ensures CounterAfter(size, n) == 1000 * n
    ensures Block(tape, size, CounterAfter(size, n))[i] == tape(1000 * n + i)
  {
    RemainderIs(n, Blocks(size) + 1, 0, n);
    RemainderIs(SAMPLES * n, size, 0, SAMPLES * n);
    RemainderIs(i, size, 0, i);
    assert Index(size, SAMPLES * n, i) == SAMPLES * n + i;
  }

  /** Every sample ever read lies in the song exactly when the size is a multiple of a block, or divides one. */
  lemma ReadsStayInside(size: int)
    requires size > 0
    ensures (forall n: nat, i: nat :: i < 1000 ==> Index(size, CounterAfter(size, n), i) < size)
       <==> size % 1000 == 0 || 1000 % size == 0
  {
    if size % SAMPLES == 0 || SAMPLES % size == 0 {
      forall n: nat, i: nat | i < SAMPLES ensures Index(size, CounterAfter(size, n), i) < size {
        ReadInside(size, n, i);
      }
    } else {
      var n, i := ReadOutside(size);
      assert !(Index(size, CounterAfter(size, n), i) < size);
    }
  }

  lemma ReadInside(size: int, n: nat, i: nat)
    requires size > 0 && (size % SAMPLES == 0 || SAMPLES % size == 0) && i < SAMPLES
    ensures Index(size, CounterAfter(size, n), i) < size
  {
    var c := CounterAfter(size, n);
    if size % SAMPLES == 0 {
      if c < size {
        assert c <= size - SAMPLES;
        RemainderIs(c, size, 0, c);
        RemainderIs(i, size, 0, i);
      } else {
        RemainderIs(c, size, 1, 0);
      }
    } else {
      assert Blocks(size) == 1;
      if c == 0 {
        RemainderIs(c, size, 0, 0);
      } else {
        assert c == SAMPLES;
      }
    }
  }

  lemma ReadOutside(size: int) returns (n: nat, i: nat)
    requires size > 0 && size % SAMPLES != 0 && SAMPLES % size != 0
    ensures i < SAMPLES && Index(size, CounterAfter(size, n), i) >= size
  {
    if size > SAMPLES {
      n, i := size / SAMPLES, SAMPLES - 1;
      RemainderIs(n, Blocks(size) + 1, 0, n);
      RemainderIs(SAMPLES * n, size, 0, SAMPLES * n);
      RemainderIs(i, size, 0, i);
    } else {
      n, i := 1, size - 1;
      RemainderIs(1, Blocks(size) + 1, 0, 1);
      RemainderIs(i, size, 0, i);
    }
  }

  // ----- starting over

  /** A tape that tells position `x` from all others. */
  function Marker(x: int): Tape {
    i => if i == x then 1 else 0
  }

  lemma SameReads(tape: Tape, size: int, a: int, b: int)
    requires size > 0 && a % size == b % size
    ensures Block(tape, size, a) == Block(tape, size, b)
  {
    forall i | 0 <= i < SAMPLES ensures Block(tape, size, a)[i] == Block(tape, size, b)[i] {
      assert Index(size, a, i) == Index(size, b, i);
    }
  }

  /** The counter past the song is at the song's beginning for two kinds of sizes only. */
  lemma PastTheEnd(size: int)
    requires size > 0
    ensures CounterAfter(size, Blocks(size)) % size == 0 <==> size % SAMPLES == 0 || SAMPLES % size == 0
    ensures CounterAfter(size, Blocks(size) + 1) == 0
  {
    var n, c := Blocks(size), SAMPLES * Blocks(size);
    RemainderIs(n, n + 1, 0, n);
    RemainderIs(n + 1, n + 1, 1, 0);
    if size >= SAMPLES {
      if size % SAMPLES == 0 {
        RemainderIs(c, size, 1, 0);
      } else {
        RemainderIs(c, size, 1, c - size);
        RemainderIs(SAMPLES, size, 0, SAMPLES);
      }
    }
  }

  lemma BlockAt(tape: Tape, size: int, at: int, i: nat)
    requires size > 0 && i < SAMPLES
    ensures Block(tape, size, at)[i] == tape(Index(size, at, i))
  {
  }

  lemma StartsElsewhere(size: int, at: int)
    requires size > 0 && at % size != 0
    ensures Block(Marker(0), size, at) != Block(Marker(0), size, 0)
  {
    RemainderIs(0, size, 0, 0);
    BlockAt(Marker(0), size, at, 0);
    BlockAt(Marker(0), size, 0, 0);
  }

  /**
   The block before the counter returns to 0 is the song's opening, which is then sent again, for all
   songs of a size exactly if the size is a multiple of a block or divides one.
   */
  lemma OpeningIsSentTwice(size: int)
    requires size > 0
    ensures forall tape: Tape :: Block(tape, size, CounterAfter(size, Blocks(size) + 1)) == Block(tape, size, 0)
    ensures (forall tape: Tape :: Block(tape, size, CounterAfter(size, Blocks(size))) == Block(tape, size, 0))
       <==> size % 1000 == 0 || 1000 % size == 0
  {
    PastTheEnd(size);
    RemainderIs(0, size, 0, 0);
    var c := CounterAfter(size, Blocks(size));
    if c % size == 0 {
      forall tape: Tape ensures Block(tape, size, c) == Block(tape, size, 0) {
        SameReads(tape, size, c, 0);
      }
    } else {
      StartsElsewhere(size, c);
    }
  }

  /** Sample `i` of block `n` is the one that follows if the song is played round and round. */
  predicate InLoop(tape: Tape, size: int, n: nat, i: nat)
    requires size > 0 && i < SAMPLES
  {
    Block(tape, size, CounterAfter(size, n))[i] == tape((1000 * n + i) % size)
  }

  /** The song is played round and round, without gap or repeat, exactly if its size divides a block. */
  lemma LoopsIff(size: int)
    requires size > 0
    ensures (forall tape: Tape, n: nat, i: nat :: i < 1000 ==> InLoop(tape, size, n, i)) <==> 1000 % size == 0
  {
    if SAMPLES % size == 0 {
      forall tape: Tape, n: nat, i: nat | i < SAMPLES ensures InLoop(tape, size, n, i) {
        LoopsWhenDividing(tape, size, n, i);
      }
    } else {
      var n, i := LeavesTheLoop(size);
      var x := Index(size, CounterAfter(size, n), i);
      BlockAt(Marker(x), size, CounterAfter(size, n), i);
      assert !InLoop(Marker(x), size, n, i);
    }
  }

  lemma LoopsWhenDividing(tape: Tape, size: int, n: nat, i: nat)
    requires size > 0 && SAMPLES % size == 0 && i < SAMPLES
    ensures InLoop(tape, size, n, i)
  {
    CounterWhenDividing(size, n);
    BlockAt(tape, size, CounterAfter(size, n), i);
    PlaceWhenDividing(size, SAMPLES / size, n, i);
  }

  lemma CounterWhenDividing(size: int, n: nat)
    requires size > 0 && SAMPLES % size == 0
    ensures CounterAfter(size, n) % size == 0
  {
    assert Blocks(size) == 1;
    RemainderIs(0, size, 0, 0);
  }

  lemma PlaceWhenDividing(size: int, q: int, n: nat, i: nat)
    requires size > 0 && SAMPLES == size * q
    ensures (SAMPLES * n + i) % size == i % size
  {
    Regroup(size, q, n, i / size);
    RemainderIs(SAMPLES * n + i, size, q * n + i / size, i % size);
  }

  lemma Regroup(size: int, q: int, n: int, k: int)
    ensures (size * q) * n + size * k == size * (q * n + k)
  {
  }

  /** Where playback leaves the loop. */
  lemma LeavesTheLoop(size: int) returns (n: nat, i: nat)
    requires size > 0 && SAMPLES % size != 0
    ensures i < SAMPLES && Index(size, CounterAfter(size, n), i) != (SAMPLES * n + i) % size
  {
    if size < SAMPLES {
      n, i := 1, size - SAMPLES % size;
      LeavesShort(size);
    } else if size % SAMPLES != 0 {
      n, i := size / SAMPLES, size % SAMPLES;
      LeavesLong(size);
    } else {
      n, i := size / SAMPLES + 1, 0;
      LeavesEven(size);
    }
  }

  lemma LeavesShort(size: int)
    requires 0 < size < SAMPLES && SAMPLES % size != 0
    ensures var i := size - SAMPLES % size;
            Index(size, CounterAfter(size, 1), i) == size && (SAMPLES + i) % size == 0
  {
    var i := size - SAMPLES % size;
    RemainderIs(1, Blocks(size) + 1, 0, 1);
    RemainderIs(i, size, 0, i);
    MulAdd(SAMPLES / size, 1, size);
    RemainderIs(SAMPLES + i, size, SAMPLES / size + 1, 0);
  }

  lemma LeavesLong(size: int)
    requires size > SAMPLES && size % SAMPLES != 0
    ensures var n, i := size / SAMPLES, size % SAMPLES;
            Index(size, CounterAfter(size, n), i) == size && (SAMPLES * n + i) % size == 0
  {
    var n, i := size / SAMPLES, size % SAMPLES;
    RemainderIs(n, Blocks(size) + 1, 0, n);
    RemainderIs(SAMPLES * n, size, 0, SAMPLES * n);
    RemainderIs(i, size, 0, i);
    RemainderIs(size, size, 1, 0);
  }

  lemma LeavesEven(size: int)
    requires size > SAMPLES && size % SAMPLES == 0
    ensures var n := size / SAMPLES + 1;
            Index(size, CounterAfter(size, n), 0) == 0 && (SAMPLES * n + 0) % size == SAMPLES
  {
    PastTheEnd(size);
    RemainderIs(0, size, 0, 0);
    RemainderIs(size + SAMPLES, size, 1, SAMPLES);
  }
}
