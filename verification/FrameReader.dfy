/**
 The frame reader of `vip_fr.c`: two frame buffers, which of them is on the screen, and the
 device registers that mirror the driver's fields.
 */
module FrameReader {
  import opened Arithmetic
  import opened Bytes
  import opened Copying

  // ----- the driver's fields and the device registers

  /** The state of the driver: `regs` are the registers at the device's base address. */
  datatype Driver = Driver(frame0: int, frame1: int, displayFrame: int, width: int, height: int,
                           bytesPerPixel: int, colorDepth: int, interlace: int, regs: map<int, int>)

  datatype Op = SetFrameSize(width: int, height: int) | ActiveDrawFrame | Go(on: bool)

  /** The registers after the six that describe one frame, from `first` on, have been set. */
  function SetFrame(regs: map<int, int>, first: int, base: int, words: int, width: int, height: int,
                    interlace: int): map<int, int> {
    var three := regs[first := base][first + 1 := words][first + 2 := words];
    three[first + 4 := width][first + 5 := height][first + 6 := interlace]
  }

  predicate ShowsFrame(regs: map<int, int>, first: int, base: int, words: int, width: int, height: int,
                       interlace: int) {
    && {first, first + 1, first + 2, first + 4, first + 5, first + 6} <= regs.Keys
    && regs[first] == base && regs[first + 1] == words && regs[first + 2] == words
    && regs[first + 4] == width && regs[first + 5] == height && regs[first + 6] == interlace
  }

  lemma SetFrameShows(regs: map<int, int>, first: int, base: int, words: int, width: int, height: int, interlace: int)
    ensures ShowsFrame(SetFrame(regs, first, base, words, width, height, interlace), first, base, words, width,
                       height, interlace)
    ensures forall k :: k in regs && (k < first || k == first + 3 || first + 6 < k) ==>
              k in SetFrame(regs, first, base, words, width, height, interlace)
              && SetFrame(regs, first, base, words, width, height, interlace)[k] == regs[k]
  {
  }

  function Apply(d: Driver, op: Op): Driver {
    match op
    case SetFrameSize(w, h) =>
      var words := ToU32(Product(w, h));
      var one := SetFrame(d.regs, 4, ToU32(d.frame0), words, ToU32(w), ToU32(h), ToU32(d.interlace));
      var two := SetFrame(one, 11, ToU32(d.frame1), words, ToU32(w), ToU32(h), ToU32(d.interlace));
      d.(width := w, height := h, regs := two)
    case ActiveDrawFrame =>
      var next := (d.displayFrame + 1) % 2;
      d.(displayFrame := next, regs := d.regs[3 := next])
    case Go(on) =>
      d.(regs := d.regs[0 := if on then 1 else 0])
  }

  function Run(d: Driver, ops: seq<Op>): Driver {
    if ops == [] then d else Apply(Run(d, ops[..|ops| - 1]), ops[|ops| - 1])
  }

  /** The device shows what the driver's fields say. */
  predicate Mirrors(d: Driver) {
    && (d.displayFrame == 0 || d.displayFrame == 1)
    && 3 in d.regs && d.regs[3] == d.displayFrame
    && ShowsFrame(d.regs, 4, ToU32(d.frame0), ToU32(Product(d.width, d.height)), ToU32(d.width), ToU32(d.height),
                  ToU32(d.interlace))
    && ShowsFrame(d.regs, 11, ToU32(d.frame1), ToU32(Product(d.width, d.height)), ToU32(d.width), ToU32(d.height),
                  ToU32(d.interlace))
  }

  /** The frame that is being drawn on. */
  function DrawBase(d: Driver): int {
    if d.displayFrame == 0 then d.frame1 else d.frame0
  }

  /** The frame that is on the screen. */
  function ShownBase(d: Driver): int {
    if d.displayFrame == 0 then d.frame0 else d.frame1
  }

  function FrameBytes(d: Driver): nat {
    ToNat(Product(Product(d.width, d.height), d.bytesPerPixel))
  }

  function Flips(ops: seq<Op>): nat {
    if ops == [] then 0
    else Flips(ops[..|ops| - 1]) + if ops[|ops| - 1].ActiveDrawFrame? then 1 else 0
  }

  /** The last frame size set, `start` if none was. */
  function LastSize(ops: seq<Op>, start: (int, int)): (int, int) {
    if ops == [] then start
    else
      var op := ops[|ops| - 1];
      if op.SetFrameSize? then (op.width, op.height) else LastSize(ops[..|ops| - 1], start)
  }

  lemma MirrorsKept(d: Driver, op: Op)
    requires Mirrors(d)
    ensures Mirrors(Apply(d, op))
    ensures Apply(d, op).displayFrame == (d.displayFrame + if op.ActiveDrawFrame? then 1 else 0) % 2
    ensures (Apply(d, op).width, Apply(d, op).height)
         == if op.SetFrameSize? then (op.width, op.height) else (d.width, d.height)
    ensures SameFrames(d, Apply(d, op))
  {
    if op.SetFrameSize? {
      SizedMirrors(d, op.width, op.height);
    }
  }

  /** What no operation changes. */
  predicate SameFrames(d: Driver, e: Driver) {
    && e.frame0 == d.frame0 && e.frame1 == d.frame1
    && e.bytesPerPixel == d.bytesPerPixel && e.colorDepth == d.colorDepth && e.interlace == d.interlace
  }

  /** Setting the size makes both frames' registers agree with the fields and touches none but theirs. */
  lemma SizedMirrors(d: Driver, w: int, h: int)
    ensures var e := Apply(d, SetFrameSize(w, h)); var words := ToU32(Product(w, h));
            && ShowsFrame(e.regs, 4, ToU32(e.frame0), words, ToU32(w), ToU32(h), ToU32(e.interlace))
            && ShowsFrame(e.regs, 11, ToU32(e.frame1), words, ToU32(w), ToU32(h), ToU32(e.interlace))
            && forall k :: k in d.regs && k !in {4, 5, 6, 8, 9, 10, 11, 12, 13, 15, 16, 17} ==>
                 k in e.regs && e.regs[k] == d.regs[k]
  {
    var words := ToU32(Product(w, h));
    SetFrameShows(d.regs, 4, ToU32(d.frame0), words, ToU32(w), ToU32(h), ToU32(d.interlace));
    SetFrameShows(SetFrame(d.regs, 4, ToU32(d.frame0), words, ToU32(w), ToU32(h), ToU32(d.interlace)),
                  11, ToU32(d.frame1), words, ToU32(w), ToU32(h), ToU32(d.interlace));
  }

  /** The driver after initialisation: reader stopped, size set, frame 0 selected, reader started. */
  function Initial(device: map<int, int>, frame0: int, frame1: int, width: int, height: int): Driver {
    var d := Apply(Apply(Driver(frame0, frame1, 0, 0, 0, 4, 32, 0, device), Go(false)), SetFrameSize(width, height));
    Apply(d.(regs := d.regs[3 := 0]), Go(true))
  }

  /** The registers of both frames, and the one that selects a frame, hold these values, each cut to 32 bits. */
  ghost predicate RegistersHold(regs: map<int, int>, displayFrame: int, frame0: int, frame1: int, width: int,
                                height: int, interlace: int) {
    && {3, 4, 5, 6, 8, 9, 10, 11, 12, 13, 15, 16, 17} <= regs.Keys && regs[3] == displayFrame
    && IsWord(regs[4], frame0) && IsWord(regs[5], width * height) && IsWord(regs[6], width * height)
    && IsWord(regs[8], width) && IsWord(regs[9], height) && IsWord(regs[10], interlace)
    && IsWord(regs[11], frame1) && IsWord(regs[12], width * height) && IsWord(regs[13], width * height)
    && IsWord(regs[15], width) && IsWord(regs[16], height) && IsWord(regs[17], interlace)
  }

  /** What mirroring means, register by register. */
  lemma MirrorsInNumbers(d: Driver)
    requires Mirrors(d)
    ensures RegistersHold(d.regs, d.displayFrame, d.frame0, d.frame1, d.width, d.height, d.interlace)
  {
    ProductIs(d.width, d.height);
    WordIs(d.width * d.height);
    WordIs(d.frame0);
    WordIs(d.frame1);
    WordIs(d.width);
    WordIs(d.height);
    WordIs(d.interlace);
  }

  /** Whatever the device held before, it mirrors the driver after initialisation, and it is running. */
  lemma InitialMirrors(device: map<int, int>, frame0: int, frame1: int, width: int, height: int)
    ensures Mirrors(Initial(device, frame0, frame1, width, height))
    ensures var d := Initial(device, frame0, frame1, width, height);
            && d.displayFrame == 0 && d.width == width && d.height == height && 0 in d.regs && d.regs[0] == 1
            && d.colorDepth == 32 && d.bytesPerPixel == 4 && d.interlace == 0 && d.frame0 == frame0
            && d.frame1 == frame1
  {
    SizedMirrors(Apply(Driver(frame0, frame1, 0, 0, 0, 4, 32, 0, device), Go(false)), width, height);
  }

  /** One operation more. */
  lemma ParityKept(d: Driver, first: int, flips: int, op: Op)
    requires Mirrors(d) && d.displayFrame == (first + flips) % 2
    ensures Apply(d, op).displayFrame == (first + flips + if op.ActiveDrawFrame? then 1 else 0) % 2
  {
  }

  /**
   After any operations the registers still mirror the fields, the selected frame has the parity of
   the flips, and the geometry is the last one set.
   */
  lemma {:induction false} MirrorsAfterAnyRun(d: Driver, ops: seq<Op>)
    requires Mirrors(d)
    ensures Mirrors(Run(d, ops))
    ensures Run(d, ops).displayFrame == (d.displayFrame + Flips(ops)) % 2 == Run(d, ops).regs[3]
    ensures (Run(d, ops).width, Run(d, ops).height) == LastSize(ops, (d.width, d.height))
    ensures SameFrames(d, Run(d, ops))
    ensures DrawBase(Run(d, ops)) == if (d.displayFrame + Flips(ops)) % 2 == 0 then d.frame1 else d.frame0
  {
    if ops != [] {
      MirrorsAfterAnyRun(d, ops[..|ops| - 1]);
      MirrorsKept(Run(d, ops[..|ops| - 1]), ops[|ops| - 1]);
      ParityKept(Run(d, ops[..|ops| - 1]), d.displayFrame, Flips(ops[..|ops| - 1]), ops[|ops| - 1]);
    }
  }

  /** The firmware without and with ENABLE_DMA. */
  datatype Build = Plain | Dma(order: Arguments)

  /** The C struct, the device and the memory the frames lie in. */
  class VipFrameReader {
    const ram: array<byte>
    var frame0Base: int
    var frame1Base: int
    var displayFrame: int
    var colorDepth: int
    var width: int
    var height: int
    var bytesPerPixel: int
    var interlace: int
    var regs: map<int, int>

    function View(): Driver
      reads this
    {
      Driver(frame0Base, frame1Base, displayFrame, width, height, bytesPerPixel, colorDepth, interlace, regs)
    }

    /** Takes over a device whose registers are `device`. */
    constructor (memory: array<byte>, device: map<int, int>, frame0: int, frame1: int, frameWidth: int,
                 frameHeight: int)
      ensures ram == memory
      ensures View() == Initial(device, frame0, frame1, frameWidth, frameHeight)
      ensures frame0Base == frame0 && frame1Base == frame1 && displayFrame == 0
      ensures width == frameWidth && height == frameHeight
      ensures bytesPerPixel == 4 && colorDepth == 32 && interlace == 0
    {
      ram := memory;
      frame0Base, frame1Base, displayFrame := frame0, frame1, 0;
      bytesPerPixel, colorDepth, interlace := 4, 32, 0;
      width, height := 0, 0;
      regs := device;
      new;
      VipGo(false);
      SetSize(frameWidth, frameHeight);
      SelectFrame();
      VipGo(true);
    }

    method SetSize(w: int, h: int)
      modifies this
      ensures View() == Apply(old(View()), SetFrameSize(w, h))
      ensures width == w && height == h
    {
      ProductIs(w, h);
      var words := ToU32(w * h);
      width, height := w, h;
      WriteFrame(4, ToU32(frame0Base), words, words, ToU32(width), ToU32(height), ToU32(interlace));
      WriteFrame(11, ToU32(frame1Base), words, words, ToU32(width), ToU32(height), ToU32(interlace));
    }

    /** The two frame set-up routines of the driver; they differ in their first register. */
    method WriteFrame(first: int, base: int, words: int, cycle: int, w: int, h: int, lace: int)
      requires cycle == words
      modifies this`regs
      ensures regs == SetFrame(old(regs), first, base, words, w, h, lace)
    {
      IoWr(first, base);
      IoWr(first + 1, words);
      IoWr(first + 2, cycle);
      IoWr(first + 4, w);
      IoWr(first + 5, h);
      IoWr(first + 6, lace);
    }

    method IoWr(reg: int, value: int)
      modifies this`regs
      ensures regs == old(regs)[reg := value]
    {
      regs := regs[reg := value];
    }

    method SelectFrame()
      modifies this`regs
      ensures regs == old(regs)[3 := displayFrame]
    {
      IoWr(3, displayFrame);
    }

    method VipGo(on: bool)
      modifies this`regs
      ensures View() == Apply(old(View()), Go(on))
      ensures regs == old(regs)[0 := if on then 1 else 0]
    {
      IoWr(0, if on then 1 else 0);
    }

    /** The frame to draw on; it is the one the device does not select. */
    method GetDrawFrame() returns (base: int)
      ensures base == DrawBase(View())
      ensures base == if displayFrame == 0 then frame1Base else frame0Base
    {
      if displayFrame == 0 {
        return frame1Base;
      }
      return frame0Base;
    }

    method Activate()
      modifies this`displayFrame, this`regs
      ensures View() == Apply(old(View()), ActiveDrawFrame)
      ensures old(displayFrame) == 0 ==> displayFrame == 1
      ensures old(displayFrame) == 1 ==> displayFrame == 0
      ensures regs == old(regs)[3 := displayFrame]
    {
      displayFrame := (displayFrame + 1) % 2;
      SelectFrame();
    }

    /**
     Copies the frame on the screen to the one to be drawn on; but with DMA and a driver that takes the
     place to read first, the other way.
     */
    method ReserveBackground(build: Build)
      requires Product(Product(width, height), bytesPerPixel) >= if build.Dma? then 1 else 0
      requires Copyable(DrawBase(View()), ShownBase(View()), FrameBytes(View()), ram.Length)
      modifies ram
      ensures build != Dma(ReadFirst) ==>
                ram[..] == Copy(old(ram[..]), DrawBase(View()), ShownBase(View()), FrameBytes(View()))
      ensures build == Dma(ReadFirst) ==>
                ram[..] == Copy(old(ram[..]), ShownBase(View()), DrawBase(View()), FrameBytes(View()))
      ensures var shown, draw := if displayFrame == 0 then frame0Base else frame1Base,
                if displayFrame == 0 then frame1Base else frame0Base;
              var to, from := if build == Dma(ReadFirst) then shown else draw,
                if build == Dma(ReadFirst) then draw else shown;
              Moved(old(ram[..]), ram[..], to, from, width * height * bytesPerPixel)
    {
      ProductIs(width, height);
      ProductIs(Product(width, height), bytesPerPixel);
      var size := width * height * bytesPerPixel;
      var src, des := frame0Base, frame1Base;
      if displayFrame != 0 {
        src, des := frame1Base, frame0Base;
      }
      if build.Dma? {
        DmaMemCpy(build.order, ram, des, src, size);
      } else {
        MemCpy(ram, des, src, size);
      }
    }
  }

  // ----- double buffering

  /** A byte stored in a frame, at an offset from the frame's start. */
  datatype Write = Write(at: nat, value: byte)

  ghost predicate AllWithin(ws: seq<Write>, size: nat) {
    forall i :: 0 <= i < |ws| ==> ws[i].at < size
  }

  function PutAll(mem: seq<byte>, base: int, ws: seq<Write>): (m: seq<byte>)
    ensures |m| == |mem|
  {
    if ws == [] then mem
    else
      var w := ws[|ws| - 1];
      Splice(PutAll(mem, base, ws[..|ws| - 1]), base + w.at, 1, [w.value])
  }

  /** The picture on the screen. */
  function Shown(mem: seq<byte>, d: Driver): seq<byte> {
    Slice(mem, ShownBase(d), FrameBytes(d))
  }

  datatype Screen = Screen(mem: seq<byte>, driver: Driver)

  /** The memory once the background has been reserved. */
  function Reserved(s: Screen): (m: seq<byte>)
    ensures |m| == |s.mem|
  {
    Copy(s.mem, DrawBase(s.driver), ShownBase(s.driver), FrameBytes(s.driver))
  }

  /** One round of a program that draws by double buffering: reserve the background, draw, flip. */
  function Round(s: Screen, ws: seq<Write>): Screen {
    Screen(PutAll(Reserved(s), DrawBase(s.driver), ws), Apply(s.driver, ActiveDrawFrame))
  }

  function Rounds(s: Screen, rounds: seq<seq<Write>>): Screen {
    if rounds == [] then s else Round(Rounds(s, rounds[..|rounds| - 1]), rounds[|rounds| - 1])
  }

  /** The same drawing done on one buffer. */
  function OneBuffer(picture: seq<byte>, rounds: seq<seq<Write>>): seq<byte> {
    if rounds == [] then picture
    else PutAll(OneBuffer(picture, rounds[..|rounds| - 1]), 0, rounds[|rounds| - 1])
  }

  ghost predicate ValidScreen(s: Screen) {
    && (s.driver.displayFrame == 0 || s.driver.displayFrame == 1)
    && Copyable(s.driver.frame0, s.driver.frame1, FrameBytes(s.driver), |s.mem|)
  }

  lemma {:induction false} PutAllShifts(mem: seq<byte>, base: int, size: nat, ws: seq<Write>)
    requires AllWithin(ws, size) && Within(base, size, |mem|)
    ensures Slice(PutAll(mem, base, ws), base, size) == PutAll(Slice(mem, base, size), 0, ws)
  {
    if ws != [] {
      var w := ws[|ws| - 1];
      PutAllShifts(mem, base, size, ws[..|ws| - 1]);
      var m := PutAll(mem, base, ws[..|ws| - 1]);
      var n := Splice(m, base + w.at, 1, [w.value]);
      forall k | 0 <= k < size ensures Slice(n, base, size)[k] == Splice(Slice(m, base, size), w.at, 1, [w.value])[k] {
        assert Slice(n, base, size)[k] == Peek(n, base + k);
        assert Slice(m, base, size)[k] == Peek(m, base + k);
      }
    }
  }

  /** Writes to a frame leave a disjoint frame alone. */
  lemma {:induction false} PutAllApart(mem: seq<byte>, base: int, other: int, size: nat, ws: seq<Write>)
    requires AllWithin(ws, size) && Disjoint(base, other, size)
    ensures Slice(PutAll(mem, base, ws), other, size) == Slice(mem, other, size)
  {
    if ws != [] {
      var m := PutAll(mem, base, ws[..|ws| - 1]);
      PutAllApart(mem, base, other, size, ws[..|ws| - 1]);
      SliceSame(PutAll(mem, base, ws), m, other, size);
    }
  }

  /** The target of a copy holds what was to be copied. */
  lemma CopiedSlice(mem: seq<byte>, to: int, from: int, n: nat)
    requires Within(to, n, |mem|)
    ensures Slice(Copy(mem, to, from, n), to, n) == Slice(mem, from, n)
  {
    var copied := Copy(mem, to, from, n);
    forall k | 0 <= k < n ensures Slice(copied, to, n)[k] == Slice(mem, from, n)[k] {
      CopyAt(mem, to, from, n, to + k);
      assert Slice(copied, to, n)[k] == Peek(copied, to + k);
      assert Slice(mem, from, n)[k] == Peek(mem, from + k);
    }
  }

  lemma RoundShows(s: Screen, ws: seq<Write>)
    requires ValidScreen(s) && AllWithin(ws, FrameBytes(s.driver))
    ensures ValidScreen(Round(s, ws)) && FrameBytes(Round(s, ws).driver) == FrameBytes(s.driver)
    ensures Shown(Round(s, ws).mem, Round(s, ws).driver) == PutAll(Shown(s.mem, s.driver), 0, ws)
  {
    var d := s.driver;
    var to, from, n := DrawBase(d), ShownBase(d), FrameBytes(d);
    var reserved := Copy(s.mem, to, from, n);
    CopiedSlice(s.mem, to, from, n);
    PutAllShifts(reserved, to, n, ws);
  }

  /** At every flip the screen shows what one buffer that received all the writes would hold. */
  lemma {:induction false} DoubleBufferRefinesSingle(s: Screen, rounds: seq<seq<Write>>)
    requires ValidScreen(s)
    requires forall i :: 0 <= i < |rounds| ==> AllWithin(rounds[i], FrameBytes(s.driver))
    ensures ValidScreen(Rounds(s, rounds)) && FrameBytes(Rounds(s, rounds).driver) == FrameBytes(s.driver)
    ensures Shown(Rounds(s, rounds).mem, Rounds(s, rounds).driver) == OneBuffer(Shown(s.mem, s.driver), rounds)
  {
    if rounds != [] {
      DoubleBufferRefinesSingle(s, rounds[..|rounds| - 1]);
      RoundShows(Rounds(s, rounds[..|rounds| - 1]), rounds[|rounds| - 1]);
    }
  }

  /** The value last written at an offset, `was` if none was. */
  function LastWritten(ws: seq<Write>, at: nat, was: byte): byte {
    if ws == [] then was
    else
      var w := ws[|ws| - 1];
      if w.at == at then w.value else LastWritten(ws[..|ws| - 1], at, was)
  }

  /** The writes of all rounds, one after another. */
  function AllWrites(rounds: seq<seq<Write>>): seq<Write> {
    if rounds == [] then [] else AllWrites(rounds[..|rounds| - 1]) + rounds[|rounds| - 1]
  }

  lemma {:induction false} LastWrittenSplits(us: seq<Write>, ws: seq<Write>, at: nat, was: byte)
    ensures LastWritten(us + ws, at, was) == LastWritten(ws, at, LastWritten(us, at, was))
  {
    if ws == [] {
      assert us + ws == us;
    } else {
      assert (us + ws)[..|us + ws| - 1] == us + ws[..|ws| - 1];
      LastWrittenSplits(us, ws[..|ws| - 1], at, was);
    }
  }

  lemma {:induction false} PutAllAt(mem: seq<byte>, ws: seq<Write>, at: nat)
    requires at < |mem|
    ensures PutAll(mem, 0, ws)[at] == LastWritten(ws, at, mem[at])
  {
    if ws != [] {
      PutAllAt(mem, ws[..|ws| - 1], at);
    }
  }

  lemma {:induction false} OneBufferAt(picture: seq<byte>, rounds: seq<seq<Write>>, at: nat)
    requires at < |picture|
    ensures |OneBuffer(picture, rounds)| == |picture|
    ensures OneBuffer(picture, rounds)[at] == LastWritten(AllWrites(rounds), at, picture[at])
  {
    if rounds != [] {
      var front, last := rounds[..|rounds| - 1], rounds[|rounds| - 1];
      OneBufferAt(picture, front, at);
      PutAllAt(OneBuffer(picture, front), last, at);
      LastWrittenSplits(AllWrites(front), last, at, picture[at]);
    }
  }

  lemma FrameBytesIs(d: Driver)
    ensures FrameBytes(d)
         == if d.width * d.height * d.bytesPerPixel < 0 then 0 else d.width * d.height * d.bytesPerPixel
  {
    ProductIs(d.width, d.height);
    ProductIs(Product(d.width, d.height), d.bytesPerPixel);
  }

  /** The bytes of the frame on the screen. */
  lemma ShownBytes(mem: seq<byte>, d: Driver)
    requires 0 <= d.width * d.height * d.bytesPerPixel
    ensures |Shown(mem, d)| == d.width * d.height * d.bytesPerPixel
    ensures var base := if d.displayFrame == 0 then d.frame0 else d.frame1;
            0 <= base && base + d.width * d.height * d.bytesPerPixel <= |mem| ==>
              Shown(mem, d) == mem[base..base + d.width * d.height * d.bytesPerPixel]
  {
    FrameBytesIs(d);
    var base := if d.displayFrame == 0 then d.frame0 else d.frame1;
    if 0 <= base && base + d.width * d.height * d.bytesPerPixel <= |mem| {
      IsSlice(mem, base, d.width * d.height * d.bytesPerPixel);
    }
  }

  /**
   After any rounds, each byte of the frame on the screen is the value last written at its offset in any
   round, or what the screen showed at first; the frame has changed with each round.
   */
  lemma RoundsInBytes(s: Screen, rounds: seq<seq<Write>>, at: nat)
    requires ValidScreen(s) && at < s.driver.width * s.driver.height * s.driver.bytesPerPixel
    requires forall i :: 0 <= i < |rounds| ==> AllWithin(rounds[i], FrameBytes(s.driver))
    ensures var t := Rounds(s, rounds); var d := s.driver;
            var base := if t.driver.displayFrame == 0 then d.frame0 else d.frame1;
            var first := if d.displayFrame == 0 then d.frame0 else d.frame1;
            && t.driver.displayFrame == (d.displayFrame + |rounds|) % 2 && |t.mem| == |s.mem|
            && 0 <= base && base + at < |s.mem| && 0 <= first && first + at < |s.mem|
            && t.mem[base + at] == LastWritten(AllWrites(rounds), at, s.mem[first + at])
  {
    FrameBytesIs(s.driver);
    FlipsPerRound(s, rounds);
    RoundsAt(s, rounds, at);
  }

  lemma RoundsAt(s: Screen, rounds: seq<seq<Write>>, at: nat)
    requires ValidScreen(s) && at < FrameBytes(s.driver)
    requires forall i :: 0 <= i < |rounds| ==> AllWithin(rounds[i], FrameBytes(s.driver))
    ensures var t := Rounds(s, rounds);
            && 0 <= ShownBase(t.driver) && ShownBase(t.driver) + at < |t.mem|
            && 0 <= ShownBase(s.driver) && ShownBase(s.driver) + at < |s.mem|
            && t.mem[ShownBase(t.driver) + at] == LastWritten(AllWrites(rounds), at, s.mem[ShownBase(s.driver) + at])
  {
    var t := Rounds(s, rounds);
    DoubleBufferRefinesSingle(s, rounds);
    FlipsPerRound(s, rounds);
    ShownAt(s.mem, s.driver, at);
    ShownAt(t.mem, t.driver, at);
    OneBufferAt(Shown(s.mem, s.driver), rounds, at);
  }

  lemma ShownAt(mem: seq<byte>, d: Driver, at: nat)
    requires at < FrameBytes(d) && Within(ShownBase(d), FrameBytes(d), |mem|)
    ensures Shown(mem, d)[at] == mem[ShownBase(d) + at]
  {
    assert Shown(mem, d)[at] == Peek(mem, ShownBase(d) + at);
  }

  lemma {:induction false} FlipsPerRound(s: Screen, rounds: seq<seq<Write>>)
    requires s.driver.displayFrame == 0 || s.driver.displayFrame == 1
    ensures var t := Rounds(s, rounds);
            && t.driver.displayFrame == (s.driver.displayFrame + |rounds|) % 2 && |t.mem| == |s.mem|
            && t.driver.frame0 == s.driver.frame0 && t.driver.frame1 == s.driver.frame1
  {
    if rounds != [] {
      FlipsPerRound(s, rounds[..|rounds| - 1]);
    }
  }

  /** Drawing never shows before the flip exactly when the two frames do not share a byte. */
  lemma SteadyIffDisjoint(mem: seq<byte>, d: Driver)
    requires FrameBytes(d) > 0
    requires Within(d.frame0, FrameBytes(d), |mem|) && Within(d.frame1, FrameBytes(d), |mem|)
    ensures (forall ws :: AllWithin(ws, FrameBytes(d)) ==> Shown(PutAll(mem, DrawBase(d), ws), d) == Shown(mem, d))
       <==> Disjoint(d.frame0, d.frame1, FrameBytes(d))
  {
    var to, from, n := DrawBase(d), ShownBase(d), FrameBytes(d);
    if Disjoint(d.frame0, d.frame1, n) {
      forall ws | AllWithin(ws, n) ensures Shown(PutAll(mem, to, ws), d) == Shown(mem, d) {
        PutAllApart(mem, to, from, n, ws);
      }
    } else {
      var ws := OverlapShows(mem, to, from, n);
      assert Shown(PutAll(mem, to, ws), d) != Shown(mem, d);
    }
  }

  lemma OverlapShows(mem: seq<byte>, to: int, from: int, n: nat) returns (ws: seq<Write>)
    requires n > 0 && Within(to, n, |mem|) && Within(from, n, |mem|) && !Disjoint(to, from, n)
    ensures AllWithin(ws, n) && Slice(PutAll(mem, to, ws), from, n) != Slice(mem, from, n)
  {
    var a := if to < from then from else to;
    var value: byte := if mem[a] == 0 then 1 else 0;
    ws := [Write(a - to, value)];
    var m := Splice(mem, a, 1, [value]);
    assert PutAll(mem, to, ws) == m by {
      assert ws[..0] == [];
      assert PutAll(mem, to, ws[..0]) == mem;
    }
    assert m[a] == value;
    assert Slice(m, from, n)[a - from] == Peek(m, from + (a - from));
    assert Slice(mem, from, n)[a - from] == Peek(mem, from + (a - from));
  }

  /**
   The background copy, which comes between flips too, leaves the picture on the screen alone, after
   each byte copied.
   */
  lemma ReserveKeepsShown(s: Screen, n: nat)
    requires ValidScreen(s) && n <= FrameBytes(s.driver)
    ensures Shown(Copy(s.mem, DrawBase(s.driver), ShownBase(s.driver), n), s.driver) == Shown(s.mem, s.driver)
  {
    var d := s.driver;
    if DrawBase(d) == ShownBase(d) {
      SpliceSelf(s.mem, ShownBase(d), n);
    } else {
      SliceSame(Copy(s.mem, DrawBase(d), ShownBase(d), n), s.mem, ShownBase(d), FrameBytes(d));
    }
  }

  /**
   If the copy goes the other way, the screen shows the draw frame's picture at once; so it stays steady
   exactly when the two frames held the same picture.
   */
  lemma ReversedCopyShows(s: Screen)
    requires ValidScreen(s)
    ensures var d := s.driver; var n := FrameBytes(d);
            var reversed := Copy(s.mem, ShownBase(d), DrawBase(d), n);
            && Shown(reversed, d) == Slice(s.mem, DrawBase(d), n)
            && Slice(reversed, DrawBase(d), n) == Slice(s.mem, DrawBase(d), n)
            && (Shown(reversed, d) == Shown(s.mem, d) <==> Slice(s.mem, DrawBase(d), n) == Shown(s.mem, d))
  {
    var d, n := s.driver, FrameBytes(s.driver);
    var to, from := ShownBase(d), DrawBase(d);
    CopiedSlice(s.mem, to, from, n);
    if to == from {
      SpliceSelf(s.mem, to, n);
    } else {
      SliceSame(Copy(s.mem, to, from, n), s.mem, from, n);
    }
  }

  /** Reserving and drawing never show before the flip exactly when the two frames do not share a byte. */
  lemma RoundSteadyIffDisjoint(s: Screen)
    requires ValidScreen(s) && FrameBytes(s.driver) > 0
    ensures (forall ws :: AllWithin(ws, FrameBytes(s.driver)) ==>
               Shown(PutAll(Reserved(s), DrawBase(s.driver), ws), s.driver) == Shown(s.mem, s.driver))
       <==> Disjoint(s.driver.frame0, s.driver.frame1, FrameBytes(s.driver))
  {
    ReserveKeepsShown(s, FrameBytes(s.driver));
    SteadyIffDisjoint(Reserved(s), s.driver);
  }

  /** The memory in round `k`, when the background has been reserved and `n` of the round's bytes have been drawn. */
  function MidRound(s: Screen, rounds: seq<seq<Write>>, k: nat, n: nat): seq<byte>
    requires k < |rounds| && n <= |rounds[k]|
  {
    var t := Rounds(s, rounds[..k]);
    PutAll(Reserved(t), DrawBase(t.driver), rounds[k][..n])
  }

  /** On disjoint frames the screen shows, after each byte drawn in any round, the picture of the flip before. */
  lemma ShownUntilFlip(s: Screen, rounds: seq<seq<Write>>, k: nat, n: nat)
    requires ValidScreen(s) && Disjoint(s.driver.frame0, s.driver.frame1, FrameBytes(s.driver))
    requires forall i :: 0 <= i < |rounds| ==> AllWithin(rounds[i], FrameBytes(s.driver))
    requires k < |rounds| && n <= |rounds[k]|
    ensures var t := Rounds(s, rounds[..k]);
            && Shown(t.mem, t.driver) == OneBuffer(Shown(s.mem, s.driver), rounds[..k])
            && Shown(Reserved(t), t.driver) == Shown(t.mem, t.driver)
            && Shown(MidRound(s, rounds, k, n), t.driver) == Shown(t.mem, t.driver)
  {
    var t := Rounds(s, rounds[..k]);
    DoubleBufferRefinesSingle(s, rounds[..k]);
    SameBases(s, rounds[..k]);
    ReserveKeepsShown(t, FrameBytes(t.driver));
    PutAllApart(Reserved(t), DrawBase(t.driver), ShownBase(t.driver), FrameBytes(t.driver), rounds[k][..n]);
  }

  lemma {:induction false} SameBases(s: Screen, rounds: seq<seq<Write>>)
    ensures Rounds(s, rounds).driver.frame0 == s.driver.frame0 && Rounds(s, rounds).driver.frame1 == s.driver.frame1
  {
    if rounds != [] {
      SameBases(s, rounds[..|rounds| - 1]);
    }
  }
}
