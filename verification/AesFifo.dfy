/**
 The conversation between the AES driver and the engine through two FIFOs of 16 words, as a machine whose steps
 may come in any order.
 */
module AesFifo {
  import opened Bitwise
  import opened Aes

  /** Where the driver is: polling, or in the middle of writing or reading a block word by word. */
  datatype Pc = Idle | Feeding(left: nat) | Draining(left: nat)

  /** What a batch has to do: n blocks from src to dst of the memory ws, beginning with chaining value v. */
  datatype Job = Job(c: Cipher, m: Mode, v: nat, ws: seq<word>, dst: nat, src: nat, n: nat)

  /**
   Memory, the driver, the words written and read so far, the FIFOs,
   and the engine: blocks done and chaining value.
   */
  datatype State = State(mem: seq<word>, pc: Pc, fw: nat, dw: nat, wf: seq<word>, rf: seq<word>, e: nat, chain: nat)

  const FIFO := 16

  predicate JobOk(j: Job) {
    j.v < TWO128 && j.src + 4 * j.n <= |j.ws| && j.dst + 4 * j.n <= |j.ws| && Overlap(j.dst, j.src, j.n)
  }

  function Init(j: Job): State { State(j.ws, Idle, 0, 0, [], [], 0, j.v) }

  // ---------- steps ----------

  predicate CanStartFeed(j: Job, s: State) { s.pc.Idle? && s.fw < 4 * j.n && |s.wf| <= 12 }
  function StartFeed(s: State): State { s.(pc := Feeding(4)) }

  predicate CanFeed(j: Job, s: State) { s.pc.Feeding? && s.pc.left > 0 && j.src + s.fw < |s.mem| }
  function Feed(j: Job, s: State): State
    requires CanFeed(j, s)
  {
    s.(wf := s.wf + [s.mem[j.src + s.fw]], fw := s.fw + 1,
       pc := if s.pc.left == 1 then Idle else Feeding(s.pc.left - 1))
  }

  predicate CanStartDrain(j: Job, s: State) { s.pc.Idle? && s.dw < 4 * j.n && |s.rf| >= 4 }
  function StartDrain(s: State): State { s.(pc := Draining(4)) }

  predicate CanDrain(j: Job, s: State) { s.pc.Draining? && s.pc.left > 0 && s.rf != [] && j.dst + s.dw < |s.mem| }
  function Drain(j: Job, s: State): State
    requires CanDrain(j, s)
  {
    s.(mem := s.mem[j.dst + s.dw := s.rf[0]], rf := s.rf[1..], dw := s.dw + 1,
       pc := if s.pc.left == 1 then Idle else Draining(s.pc.left - 1))
  }

  predicate CanWork(s: State) { |s.wf| >= 4 && |s.rf| <= FIFO - 4 && s.chain < TWO128 }
  function Work(j: Job, s: State): State
    requires CanWork(s)
  {
    s.(wf := s.wf[4..], rf := s.rf + Out(j.c, j.m, s.chain, s.wf[..4]), e := s.e + 1,
       chain := Aes.Next(j.c, j.m, s.chain, s.wf[..4]))
  }

  ghost predicate Step(j: Job, s: State, t: State) {
    || (CanStartFeed(j, s) && t == StartFeed(s))
    || (CanFeed(j, s) && t == Feed(j, s))
    || (CanStartDrain(j, s) && t == StartDrain(s))
    || (CanDrain(j, s) && t == Drain(j, s))
    || (CanWork(s) && t == Work(j, s))
  }

  /** Nothing can go on. */
  ghost predicate Final(j: Job, s: State) {
    forall t :: !Step(j, s, t)
  }

  // ---------- what every step keeps ----------

  /** The i-th word of the result. */
  function OutWord(j: Job, i: nat): word
    requires JobOk(j) && i < 4 * j.n
  {
    OutAt(j.c, j.m, j.v, j.ws, j.src, i / 4)[i % 4]
  }

  /** Words are counted right, and the FIFOs neither overfill nor run empty in the middle of a block. */
  predicate Counts(j: Job, s: State) {
    && s.dw <= 4 * s.e <= s.fw <= 4 * j.n
    && |s.wf| == s.fw - 4 * s.e <= FIFO && |s.rf| == 4 * s.e - s.dw <= FIFO
    && match s.pc
       case Idle => s.fw % 4 == 0 && s.dw % 4 == 0
       case Feeding(k) =>
         1 <= k <= 4 && (s.fw + k) % 4 == 0 && s.dw % 4 == 0 && s.fw + k <= 4 * j.n && |s.wf| + k <= FIFO
       case Draining(k) => 1 <= k <= 4 && (s.dw + k) % 4 == 0 && s.fw % 4 == 0 && k <= |s.rf|
  }

  /** Blocks go through the FIFOs in order, and memory holds the words read back so far. */
  ghost predicate Contents(j: Job, s: State)
    requires JobOk(j) && Counts(j, s)
  {
    && s.chain == ChainAt(j.c, j.m, j.v, j.ws, j.src, s.e)
    && (forall i | 0 <= i < |s.wf| :: s.wf[i] == j.ws[j.src + 4 * s.e + i])
    && (forall i | 0 <= i < |s.rf| :: s.rf[i] == OutWord(j, s.dw + i))
    && |s.mem| == |j.ws|
    && forall i | 0 <= i < |j.ws| :: s.mem[i] == if j.dst <= i < j.dst + s.dw then OutWord(j, i - j.dst) else j.ws[i]
  }

  ghost predicate Inv(j: Job, s: State) {
    JobOk(j) && Counts(j, s) && Contents(j, s)
  }

  lemma InitInv(j: Job)
    requires JobOk(j)
    ensures Inv(j, Init(j))
  {
  }

  lemma FeedInv(j: Job, s: State)
    requires Inv(j, s) && s.pc.Feeding?
    ensures |s.wf| < FIFO && CanFeed(j, s) && Inv(j, Feed(j, s))
  {
    hide ChainAt, OutWord;
    assert s.mem[j.src + s.fw] == j.ws[j.src + s.fw];
  }

  lemma DrainInv(j: Job, s: State)
    requires Inv(j, s) && s.pc.Draining?
    ensures s.rf != [] && CanDrain(j, s) && Inv(j, Drain(j, s))
  {
    hide ChainAt, OutWord;
  }

  lemma WorkCounts(j: Job, s: State)
    requires Counts(j, s) && CanWork(s)
    ensures Counts(j, Work(j, s)) && s.e < j.n && Work(j, s).e == s.e + 1
  {
    hide Out, Aes.Next;
  }

  lemma WorkInv(j: Job, s: State)
    requires Inv(j, s) && CanWork(s)
    ensures Inv(j, Work(j, s))
  {
    WorkCounts(j, s);
    WorkContents(j, s);
  }

  lemma WorkContents(j: Job, s: State)
    requires JobOk(j) && Counts(j, s) && Contents(j, s) && CanWork(s) && s.e < j.n && Counts(j, Work(j, s))
    ensures Contents(j, Work(j, s))
  {
    hide Out, Aes.Next, Counts, OutWord, OutAt;
    CountsOf(j, s);
    CountsOf(j, Work(j, s));
    var b := s.wf[..4];
    assert b == BlockAt(j.ws, j.src, s.e);
    var o, t := Out(j.c, j.m, s.chain, b), Work(j, s);
    OutWords(j, s.e);
    assert t.chain == ChainAt(j.c, j.m, j.v, j.ws, j.src, s.e + 1);
    forall i | 0 <= i < |t.rf|
      ensures t.rf[i] == OutWord(j, t.dw + i)
    {
      if i >= |s.rf| {
        assert t.rf[i] == o[i - |s.rf|] && t.dw + i == 4 * s.e + (i - |s.rf|);
      }
    }
  }

  lemma OutWords(j: Job, k: nat)
    requires JobOk(j) && k < j.n
    ensures OutAt(j.c, j.m, j.v, j.ws, j.src, k) ==
      Out(j.c, j.m, ChainAt(j.c, j.m, j.v, j.ws, j.src, k), BlockAt(j.ws, j.src, k))
    ensures forall i | 0 <= i < 4 :: OutWord(j, 4 * k + i) == OutAt(j.c, j.m, j.v, j.ws, j.src, k)[i]
  {
    hide Out;
  }

  lemma CountsOf(j: Job, s: State)
    requires Counts(j, s)
    ensures s.dw <= 4 * s.e <= s.fw <= 4 * j.n && |s.wf| == s.fw - 4 * s.e && |s.rf| == 4 * s.e - s.dw
  {
  }

  lemma StepInv(j: Job, s: State, t: State)
    requires Inv(j, s) && Step(j, s, t)
    ensures Inv(j, t)
  {
    hide Contents, Feed, Drain, Work;
    if CanFeed(j, s) && t == Feed(j, s) {
      FeedInv(j, s);
    } else if CanDrain(j, s) && t == Drain(j, s) {
      DrainInv(j, s);
    } else if CanWork(s) && t == Work(j, s) {
      WorkInv(j, s);
    } else {
      StartInv(j, s);
    }
  }

  lemma StartInv(j: Job, s: State)
    requires Inv(j, s)
    ensures CanStartFeed(j, s) ==> Inv(j, StartFeed(s))
    ensures CanStartDrain(j, s) ==> Inv(j, StartDrain(s))
  {
    hide Contents;
    if CanStartFeed(j, s) {
      SamePc(j, s, Feeding(4));
    }
    if CanStartDrain(j, s) {
      SamePc(j, s, Draining(4));
    }
  }

  lemma SamePc(j: Job, s: State, pc: Pc)
    requires JobOk(j) && Counts(j, s) && Contents(j, s) && Counts(j, s.(pc := pc))
    ensures Contents(j, s.(pc := pc))
  {
    hide Counts, ChainAt, OutWord;
    CountsOf(j, s);
  }

  // ---------- runs ----------

  ghost predicate IsRun(j: Job, run: seq<State>) {
    run != [] && run[0] == Init(j) && forall i | 0 <= i < |run| - 1 :: Step(j, run[i], run[i + 1])
  }

  /** How much there is to do at most. */
  function Left(j: Job, s: State): int {
    2 * (4 * j.n - s.fw) + 2 * (4 * j.n - s.dw) + (j.n - s.e) + if s.pc.Idle? then 1 else 0
  }

  lemma StepLess(j: Job, s: State, t: State)
    requires Step(j, s, t)
    ensures Left(j, t) < Left(j, s)
  {
  }

  /** In every state of every run the FIFOs are in order; and no run is longer than 17 steps a block and one. */
  lemma {:induction false} RunInv(j: Job, run: seq<State>)
    requires JobOk(j) && IsRun(j, run)
    ensures forall i | 0 <= i < |run| :: Inv(j, run[i])
    ensures Left(j, run[|run| - 1]) + |run| - 1 <= 17 * j.n + 1
  {
    hide Inv, Step;
    if |run| == 1 {
      InitInv(j);
    } else {
      var init := run[..|run| - 1];
      RunInv(j, init);
      assert Step(j, run[|run| - 2], run[|run| - 1]);
      StepInv(j, run[|run| - 2], run[|run| - 1]);
      StepLess(j, run[|run| - 2], run[|run| - 1]);
      forall i | 0 <= i < |run|
        ensures Inv(j, run[i])
      {
        assert i < |run| - 1 ==> init[i] == run[i];
      }
    }
  }

  lemma RunIsShort(j: Job, run: seq<State>)
    requires JobOk(j) && IsRun(j, run)
    ensures |run| <= 17 * j.n + 2
  {
    RunInv(j, run);
    assert Inv(j, run[|run| - 1]);
  }

  /** As long as words are missing, some step can be taken: driver and engine never wait for each other. */
  lemma NotStuck(j: Job, s: State)
    requires Inv(j, s) && s.dw < 4 * j.n
    ensures exists t :: Step(j, s, t)
  {
    hide Contents, Work, Feed, Drain;
    if s.pc.Feeding? {
      FeedInv(j, s);
      assert Step(j, s, Feed(j, s));
    } else if s.pc.Draining? {
      DrainInv(j, s);
      assert Step(j, s, Drain(j, s));
    } else if |s.rf| >= 4 {
      assert Step(j, s, StartDrain(s));
    } else if |s.wf| >= 4 {
      assert s.chain < TWO128 by { ChainFits(j, s); }
      assert Step(j, s, Work(j, s));
    } else {
      assert Step(j, s, StartFeed(s));
    }
  }

  lemma ChainFits(j: Job, s: State)
    requires Inv(j, s)
    ensures s.chain < TWO128 && |s.mem| == |j.ws|
  {
    hide ChainAt, OutWord;
  }

  /** Every run that cannot go on has put the whole result into memory, as if the source had been read first. */
  lemma RunResult(j: Job, run: seq<State>)
    requires JobOk(j) && IsRun(j, run) && Final(j, run[|run| - 1])
    ensures run[|run| - 1].mem == OneShot(j.c, j.m, j.v, j.ws, j.dst, j.src, j.n)
  {
    hide Inv, Step, Final;
    RunInv(j, run);
    var s := run[|run| - 1];
    assert Inv(j, s);
    if s.dw < 4 * j.n {
      NotStuckOr(j, s);
    }
    DoneResult(j, s);
  }

  lemma NotStuckOr(j: Job, s: State)
    requires Inv(j, s) && Final(j, s)
    ensures s.dw >= 4 * j.n
  {
    if s.dw < 4 * j.n {
      NotStuck(j, s);
    }
  }

  lemma DoneResult(j: Job, s: State)
    requires Inv(j, s) && s.dw >= 4 * j.n
    ensures s.mem == OneShot(j.c, j.m, j.v, j.ws, j.dst, j.src, j.n) && s.e == j.n
    ensures s.wf == [] && s.rf == [] && s.chain == ChainAt(j.c, j.m, j.v, j.ws, j.src, j.n)
  {
    hide ChainAt, OutAt;
  }
}
