/**
 The network input of the example eNodeB in MBSFN mode: one thread cuts the received bytes
 into blocks and publishes each in `data_mbms`, the transmit loop takes it, and a semaphore
 of value one hands the buffer back. Both threads are a state machine over their accesses
 to shared variables, in every interleaving.
 */
module Mbsfn {
  import opened Bits

  function Flatten(blocks: seq<seq<Byte>>): seq<Byte> {
    if blocks == [] then [] else Flatten(blocks[..|blocks| - 1]) + blocks[|blocks| - 1]
  }

  lemma FlattenNothing()
    ensures Flatten([]) == []
  {
  }

  lemma FlattenSnoc(blocks: seq<seq<Byte>>, b: seq<Byte>)
    ensures Flatten(blocks + [b]) == Flatten(blocks) + b
  {
    assert (blocks + [b])[..|blocks|] == blocks;
  }

  lemma Flat(all: seq<Byte>, n: nat)
    requires n <= |all|
    ensures all[..n] + all[n..] == all
  {
  }

  // ----- framing -----

  /** DATA_BUFF_SZ. */
  const BUFFER := 1024 * 1024

  /** Bytes of a transport block of `tbs` bits; the division truncates towards zero. */
  function BlockBytes(tbs: nat): (n: nat)
    ensures if tbs == 0 then n == 1 else tbs <= 8 * n < tbs + 8
  {
    if tbs == 0 then 1 else 1 + (tbs - 1) / 8
  }

  /** `data2` and the number of bytes at its front that are not delivered yet (`rpm`). */
  class Framer {
    var data2: array<Byte>
    var rpm: nat

    ghost predicate Valid()
      reads this
    {
      rpm <= data2.Length
    }

    constructor (capacity: nat)
      ensures Valid() && rpm == 0 && data2.Length == capacity
    {
      data2 := new Byte[capacity];
      rpm := 0;
    }

    /** One positive read of the network, placed behind the bytes left over, and its framing. */
    method Receive(chunk: seq<Byte>, nbytes: nat) returns (blocks: seq<seq<Byte>>)
      requires Valid() && 0 < nbytes && |chunk| <= data2.Length - rpm
      modifies this`rpm, data2
      ensures Valid() && rpm < nbytes
      ensures forall i :: 0 <= i < |blocks| ==> |blocks[i]| == nbytes
      ensures Flatten(blocks) + data2[..rpm] == old(data2[..rpm]) + chunk
    {
      ghost var all := data2[..rpm] + chunk;
      Append(chunk);
      var wpm;
      blocks, wpm := Cut(nbytes);
      Flat(all, wpm);
      if wpm > 0 {
        Move(wpm);
      }
    }

    /** The bytes read, behind the bytes left over. */
    method Append(chunk: seq<Byte>)
      requires Valid() && |chunk| <= data2.Length - rpm
      modifies this`rpm, data2
      ensures Valid() && rpm == old(rpm) + |chunk| && data2[..rpm] == old(data2[..rpm]) + chunk
    {
      forall i | 0 <= i < |chunk| {
        data2[rpm + i] := chunk[i];
      }
      rpm := rpm + |chunk|;
    }

    /** The blocks from the front; `rpm` bytes from `wpm` on are left. */
    method Cut(nbytes: nat) returns (blocks: seq<seq<Byte>>, wpm: nat)
      requires Valid() && 0 < nbytes
      modifies this`rpm
      ensures wpm + rpm == old(rpm) && rpm < nbytes
      ensures forall i :: 0 <= i < |blocks| ==> |blocks[i]| == nbytes
      ensures Flatten(blocks) == data2[..old(rpm)][..wpm]
    {
      hide Flatten;
      var all := data2[..rpm];
      wpm := 0;
      blocks := [];
      FlattenNothing();
      while rpm >= nbytes
        invariant wpm + rpm == |all| == old(rpm)
        invariant Flatten(blocks) == all[..wpm]
        invariant forall i :: 0 <= i < |blocks| ==> |blocks[i]| == nbytes
        decreases rpm
      {
        var block := all[wpm..wpm + nbytes];
        FlattenSnoc(blocks, block);
        assert all[..wpm + nbytes] == all[..wpm] + block;
        blocks := blocks + [block];
        rpm := rpm - nbytes;
        wpm := wpm + nbytes;
      }
    }

    /** The bytes left, to the front. */
    method Move(wpm: nat)
      requires wpm + rpm <= data2.Length
      modifies data2
      ensures data2[..rpm] == old(data2[wpm..wpm + rpm])
    {
      forall i | 0 <= i < rpm {
        data2[i] := data2[wpm + i];
      }
    }

    /** A read of zero bytes drops what was left over. */
    method Reset()
      requires Valid()
      modifies this`rpm
      ensures Valid() && rpm == 0
    {
      rpm := 0;
    }
  }

  // ----- the two threads -----

  /** Where the network thread stands. */
  datatype Producer =
    | Reading                  // before the network read
    | Framing                  // at the loop condition `rpm >= nbytes`
    | Waiting                  // at `sem_wait`
    | Holding                  // before the copy into `data_mbms`
    | Copied                   // before `net_packet_ready = true`

  /** Where the transmit loop stands in an MBSFN subframe. */
  datatype Consumer =
    | Idle                     // before it samples `net_packet_ready`
    | Sending                  // before it fills and encodes `data_mbms`
    | Encoded                  // before it samples `net_packet_ready` again
    | Clearing                 // before `net_packet_ready = false`
    | Releasing                // before `sem_post`

  /**
   The shared variables (with the size in bits of the grant), where both threads stand, the bytes
   not delivered yet and the block size their reader works with, and the histories: bytes received
   since the last reset, blocks published, the size each was cut to, blocks as they stood when the
   transmit loop found them, blocks as they were encoded, and the grant each was encoded under.
   */
  datatype State = State(
    sem: nat, ready: bool, mbms: seq<Byte>, tbs: nat,
    p: Producer, pending: seq<Byte>, nbytes: nat, c: Consumer,
    received: seq<Byte>, published: seq<seq<Byte>>, sizes: seq<nat>, epoch: nat,
    taken: seq<seq<Byte>>, sent: seq<seq<Byte>>, grants: seq<nat>, cleared: nat)

  /** `Encode` comes with the grant that the transmit loop sets up for the subframe. */
  datatype Step =
    | Read(chunk: seq<Byte>) | ReadNothing | FrameMore | FrameDone | Wait | Copy | Publish
    | Sample | Encode(grant: nat) | Resample | Clear | Post

  predicate OfConsumer(a: Step) {
    a.Sample? || a.Encode? || a.Resample? || a.Clear? || a.Post?
  }

  function Init(tbs: nat): State {
    State(1, false, [], tbs, Reading, [], BlockBytes(tbs), Idle, [], [], [], 0, [], [], [], 0)
  }

  /** The step is the next one of its thread, and `sem_wait` does not block. */
  predicate Enabled(s: State, a: Step) {
    match a
    case Read(chunk) => s.p.Reading? && 0 < |chunk| <= BUFFER - |s.pending|
    case ReadNothing => s.p.Reading?
    case FrameMore => s.p.Framing? && |s.pending| >= s.nbytes
    case FrameDone => s.p.Framing? && |s.pending| < s.nbytes
    case Wait => s.p.Waiting? && s.sem > 0
    case Copy => s.p.Holding?
    case Publish => s.p.Copied?
    case Sample => s.c.Idle?
    case Encode(_) => s.c.Sending?
    case Resample => s.c.Encoded?
    case Clear => s.c.Clearing?
    case Post => s.c.Releasing?
  }

  function Front(b: seq<Byte>, n: nat): seq<Byte> {
    if n <= |b| then b[..n] else b
  }

  function Back(b: seq<Byte>, n: nat): seq<Byte> {
    if n <= |b| then b[n..] else []
  }

  /** The test pattern that the transmit loop writes over the first `n` bytes of the block. */
  function Patterned(b: seq<Byte>, n: nat): seq<Byte> {
    seq(|b|, i requires 0 <= i < |b| => if i < n then i % 255 else b[i])
  }

  function Do(s: State, a: Step): State
    requires Enabled(s, a)
  {
    match a
    case Read(chunk) =>
      s.(p := Framing, pending := s.pending + chunk, nbytes := BlockBytes(s.tbs), received := s.received + chunk)
    case ReadNothing => s.(pending := [], received := [], epoch := |s.published|)
    case FrameMore => s.(p := Waiting)
    case FrameDone => s.(p := Reading)
    case Wait => s.(p := Holding, sem := s.sem - 1)
    case Copy => s.(p := Copied, mbms := Front(s.pending, s.nbytes))
    case Publish =>
      s.(p := Framing, ready := true, pending := Back(s.pending, s.nbytes),
         published := s.published + [Front(s.pending, s.nbytes)], sizes := s.sizes + [s.nbytes])
    case Sample => if s.ready then s.(c := Sending, taken := s.taken + [s.mbms]) else s
    case Encode(grant) =>
      var block := Patterned(s.mbms, grant / 8);
      s.(c := Encoded, tbs := grant, mbms := block, sent := s.sent + [block], grants := s.grants + [grant])
    case Resample => if s.ready then s.(c := Clearing) else s.(c := Idle)
    case Clear => s.(c := Releasing, ready := false, cleared := s.cleared + 1)
    case Post => s.(c := Idle, sem := s.sem + 1)
  }

  function Count(b: bool): nat {
    if b then 1 else 0
  }

  /** The network thread may touch `data_mbms`. */
  predicate ProducerHolds(s: State) {
    s.p.Holding? || s.p.Copied?
  }

  /** The transmit loop may touch `data_mbms`. */
  predicate ConsumerHolds(s: State) {
    s.c.Sending? || s.c.Encoded? || s.c.Clearing?
  }

  /** One token: in the semaphore, with the network thread, in the ready flag, or on its way back. */
  predicate OneToken(s: State) {
    && s.sem + Count(ProducerHolds(s)) + Count(s.ready) + Count(s.c.Releasing?) == 1
    && (ConsumerHolds(s) ==> s.ready)
  }

  /** Blocks and leftover are the bytes received since the last reset, each block of its own size. */
  ghost predicate Framed(s: State) {
    && 0 < s.nbytes
    && (s.p.Waiting? || ProducerHolds(s) ==> |s.pending| >= s.nbytes)
    && (s.p.Reading? ==> |s.pending| < s.nbytes)
    && |s.pending| <= BUFFER
    && s.epoch <= |s.published| == |s.sizes|
    && (forall i :: 0 <= i < |s.published| ==> |s.published[i]| == s.sizes[i])
    && s.received == Flatten(s.published[s.epoch..]) + s.pending
  }

  /** Blocks are taken and encoded in the order of publication, each once. */
  ghost predicate Handed(s: State) {
    && |s.published| == s.cleared + Count(s.ready)
    && |s.taken| == s.cleared + Count(ConsumerHolds(s))
    && |s.sent| == |s.grants| == s.cleared + Count(s.c.Encoded? || s.c.Clearing?)
    && s.taken <= s.published
    && (forall i :: 0 <= i < |s.sent| ==> s.sent[i] == Patterned(s.published[i], s.grants[i] / 8))
    && (s.p.Copied? ==> s.mbms == Front(s.pending, s.nbytes))
    && (s.ready && (s.c.Idle? || s.c.Sending?) ==> s.mbms == s.published[|s.published| - 1])
  }

  ghost predicate Inv(s: State) {
    OneToken(s) && Framed(s) && Handed(s)
  }

  lemma InitInv(tbs: nat)
    ensures Inv(Init(tbs))
  {
  }

  lemma StepKeepsToken(s: State, a: Step)
    requires OneToken(s) && Enabled(s, a)
    ensures OneToken(Do(s, a))
  {
    hide Patterned, BlockBytes;
  }

  lemma PublishKeepsFraming(s: State)
    requires Framed(s) && s.p.Copied?
    ensures Framed(Do(s, Publish))
  {
    hide Flatten;
    var t := Do(s, Publish);
    var earlier := s.published[s.epoch..];
    var block := s.pending[..s.nbytes];
    FlattenSnoc(earlier, block);
    assert t.published[s.epoch..] == earlier + [block];
    assert block + t.pending == s.pending;
    assert Flatten(earlier) + (block + t.pending) == Flatten(earlier) + block + t.pending;
  }

  lemma StepKeepsFraming(s: State, a: Step)
    requires Framed(s) && Enabled(s, a)
    ensures Framed(Do(s, a))
  {
    if a.Publish? {
      PublishKeepsFraming(s);
    } else {
      hide Patterned;
      if a.Read? {
        assert Flatten(s.published[s.epoch..]) + (s.pending + a.chunk) == s.received + a.chunk;
      } else if a.ReadNothing? {
        assert s.published[|s.published|..] == [];
      }
    }
  }

  lemma StepKeepsHanding(s: State, a: Step)
    requires OneToken(s) && Handed(s) && Enabled(s, a)
    ensures Handed(Do(s, a))
  {
    hide Patterned, BlockBytes, Front, Back;
  }

  lemma StepKeepsInv(s: State, a: Step)
    requires Inv(s) && Enabled(s, a)
    ensures Inv(Do(s, a))
  {
    hide OneToken, Framed, Handed, Do;
    StepKeepsToken(s, a);
    StepKeepsFraming(s, a);
    StepKeepsHanding(s, a);
  }

  // ----- runs -----

  /** The steps can be taken one after the other. */
  ghost predicate Legal(s: State, run: seq<Step>)
    decreases |run|
  {
    run == [] || (Enabled(s, run[0]) && Legal(Do(s, run[0]), run[1..]))
  }

  ghost function After(s: State, run: seq<Step>): State
    requires Legal(s, run)
    decreases |run|
  {
    if run == [] then s else After(Do(s, run[0]), run[1..])
  }

  lemma {:induction false} RunKeepsInv(s: State, run: seq<Step>)
    requires Inv(s) && Legal(s, run)
    ensures Inv(After(s, run))
    decreases |run|
  {
    hide Inv, Do, Enabled;
    if run != [] {
      StepKeepsInv(s, run[0]);
      RunKeepsInv(Do(s, run[0]), run[1..]);
    }
  }

  // ----- what the histories are, by the steps of the run alone -----

  /** The grant in force behind a run: that of its last `Encode`, or the first one. */
  function GrantOf(tbs: nat, run: seq<Step>): nat {
    if run == [] then tbs
    else if run[|run| - 1].Encode? then run[|run| - 1].grant
    else GrantOf(tbs, run[..|run| - 1])
  }

  /** The block size sampled at the last read: that of the grant in force then. */
  function SizeOf(tbs: nat, run: seq<Step>): nat {
    if run == [] then BlockBytes(tbs)
    else if run[|run| - 1].Read? then BlockBytes(GrantOf(tbs, run[..|run| - 1]))
    else SizeOf(tbs, run[..|run| - 1])
  }

  /** The size in force at each `Publish`. */
  function SizesOf(tbs: nat, run: seq<Step>): seq<nat> {
    if run == [] then []
    else
      var before := run[..|run| - 1];
      if run[|run| - 1].Publish? then SizesOf(tbs, before) + [SizeOf(tbs, before)] else SizesOf(tbs, before)
  }

  /** The chunks of the reads behind the last empty read. */
  function ReceivedOf(run: seq<Step>): seq<Byte> {
    if run == [] then []
    else
      var before, last := run[..|run| - 1], run[|run| - 1];
      if last.ReadNothing? then [] else if last.Read? then ReceivedOf(before) + last.chunk else ReceivedOf(before)
  }

  /** How many blocks were published before the last empty read. */
  function EpochOf(run: seq<Step>): nat {
    if run == [] then 0
    else if run[|run| - 1].ReadNothing? then PublishesOf(run[..|run| - 1])
    else EpochOf(run[..|run| - 1])
  }

  function PublishesOf(run: seq<Step>): nat {
    if run == [] then 0 else PublishesOf(run[..|run| - 1]) + Count(run[|run| - 1].Publish?)
  }

  function ClearsOf(run: seq<Step>): nat {
    if run == [] then 0 else ClearsOf(run[..|run| - 1]) + Count(run[|run| - 1].Clear?)
  }

  function GrantsOf(run: seq<Step>): seq<nat> {
    if run == [] then []
    else
      var before, last := run[..|run| - 1], run[|run| - 1];
      if last.Encode? then GrantsOf(before) + [last.grant] else GrantsOf(before)
  }

  /** The state agrees with the steps that led to it. */
  ghost predicate Tells(s: State, tbs: nat, run: seq<Step>) {
    && s.tbs == GrantOf(tbs, run) && s.nbytes == SizeOf(tbs, run) && s.sizes == SizesOf(tbs, run)
    && s.received == ReceivedOf(run) && s.epoch == EpochOf(run)
    && |s.published| == PublishesOf(run) && s.cleared == ClearsOf(run) && s.grants == GrantsOf(run)
  }

  lemma StepTells(s: State, tbs: nat, run: seq<Step>, a: Step)
    requires Tells(s, tbs, run) && Enabled(s, a)
    ensures Tells(Do(s, a), tbs, run + [a])
  {
    OneMore(tbs, run, a);
    hide Patterned, BlockBytes, Front, Back;
    hide GrantOf, SizeOf, SizesOf, ReceivedOf, EpochOf, PublishesOf, ClearsOf, GrantsOf;
  }

  /** What one more step adds to what the run tells. */
  lemma OneMore(tbs: nat, run: seq<Step>, a: Step)
    ensures var more := run + [a];
      && GrantOf(tbs, more) == (if a.Encode? then a.grant else GrantOf(tbs, run))
      && SizeOf(tbs, more) == (if a.Read? then BlockBytes(GrantOf(tbs, run)) else SizeOf(tbs, run))
      && SizesOf(tbs, more) == (if a.Publish? then SizesOf(tbs, run) + [SizeOf(tbs, run)] else SizesOf(tbs, run))
      && (a.ReadNothing? ==> ReceivedOf(more) == []) && (a.Read? ==> ReceivedOf(more) == ReceivedOf(run) + a.chunk)
      && (!a.ReadNothing? && !a.Read? ==> ReceivedOf(more) == ReceivedOf(run))
      && EpochOf(more) == (if a.ReadNothing? then PublishesOf(run) else EpochOf(run))
      && PublishesOf(more) == PublishesOf(run) + Count(a.Publish?)
      && ClearsOf(more) == ClearsOf(run) + Count(a.Clear?)
      && GrantsOf(more) == (if a.Encode? then GrantsOf(run) + [a.grant] else GrantsOf(run))
  {
    hide BlockBytes;
    var more := run + [a];
    assert more[..|more| - 1] == run && more[|more| - 1] == a;
  }

  /** A run ends with its last step. */
  lemma {:induction false} LastStep(s: State, run: seq<Step>)
    requires run != [] && Legal(s, run)
    ensures var before, a := run[..|run| - 1], run[|run| - 1];
      Legal(s, before) && Enabled(After(s, before), a) && After(s, run) == Do(After(s, before), a)
    decreases |run|
  {
    hide Do, Enabled;
    var before, t, rest := run[..|run| - 1], Do(s, run[0]), run[1..];
    if |run| > 1 {
      LastStep(t, rest);
      assert before[1..] == rest[..|rest| - 1];
      assert rest[|rest| - 1] == run[|run| - 1];
    } else {
      assert rest == [];
    }
  }

  lemma {:induction false} RunTells(tbs: nat, run: seq<Step>)
    requires Legal(Init(tbs), run)
    ensures Tells(After(Init(tbs), run), tbs, run)
    decreases |run|
  {
    if run != [] {
      hide Tells, Do, Enabled, Legal, After, Init;
      var before, a := run[..|run| - 1], run[|run| - 1];
      LastStep(Init(tbs), run);
      RunTells(tbs, before);
      StepTells(After(Init(tbs), before), tbs, before, a);
      assert before + [a] == run;
    }
  }

  /**
   In every interleaving, whatever grants the transmit loop sets up on its way: the token is in
   exactly one place, the threads never hold `data_mbms` together, the blocks found by the transmit
   loop are the blocks published, in order and each once, each is cleared once, and blocks (each of
   the size in force at the read that completed it) and leftover are the bytes received since the
   last reset. What was received, published and cleared is read off the steps of the run.
   */
  lemma EveryRunIsSafe(tbs: nat, run: seq<Step>)
    requires Legal(Init(tbs), run)
    ensures var s := After(Init(tbs), run);
      && s.sem + Count(ProducerHolds(s)) + Count(s.ready) + Count(s.c.Releasing?) == 1
      && !(ProducerHolds(s) && ConsumerHolds(s))
      && s.taken <= s.published
      && ClearsOf(run) <= |s.taken| <= |s.published| <= ClearsOf(run) + 1
      && EpochOf(run) <= |s.published| == PublishesOf(run) == |SizesOf(tbs, run)|
      && Flatten(s.published[EpochOf(run)..]) + s.pending == ReceivedOf(run)
      && (forall i :: 0 <= i < |s.published| ==> |s.published[i]| == SizesOf(tbs, run)[i])
      && (s.p.Reading? ==> |s.pending| < SizeOf(tbs, run))
      && (s.c.Encoded? ==> s.ready)
  {
    InitInv(tbs);
    RunTells(tbs, run);
    hide Legal, After, Init, GrantOf, SizeOf, SizesOf, ReceivedOf, EpochOf, PublishesOf, ClearsOf, GrantsOf;
    RunKeepsInv(Init(tbs), run);
  }

  /** A read works with the block size of the last grant, and an empty read drops what was left over. */
  lemma ReadSamplesGrant(tbs: nat, run: seq<Step>, chunk: seq<Byte>)
    requires Legal(Init(tbs), run)
    ensures Legal(Init(tbs), run + [Read(chunk)]) ==>
      After(Init(tbs), run + [Read(chunk)]).nbytes == BlockBytes(GrantOf(tbs, run))
    ensures Legal(Init(tbs), run + [ReadNothing]) ==> After(Init(tbs), run + [ReadNothing]).pending == []
  {
    hide Legal, After, Init;
    var more, none := run + [Read(chunk)], run + [ReadNothing];
    assert more[..|more| - 1] == run && none[..|none| - 1] == run;
    if Legal(Init(tbs), more) {
      RunTells(tbs, more);
    }
    if Legal(Init(tbs), none) {
      LastStep(Init(tbs), none);
    }
  }

  /** One grant, and all blocks of its size. */
  ghost predicate Steady(s: State, tbs: nat) {
    && s.tbs == tbs && s.nbytes == BlockBytes(tbs)
    && (forall i :: 0 <= i < |s.sizes| ==> s.sizes[i] == BlockBytes(tbs))
  }

  lemma StepStaysSteady(s: State, a: Step, tbs: nat)
    requires Steady(s, tbs) && Enabled(s, a) && (a.Encode? ==> a.grant == tbs)
    ensures Steady(Do(s, a), tbs)
  {
    hide Patterned, BlockBytes, Front, Back;
  }

  lemma {:induction false} RunStaysSteady(s: State, run: seq<Step>, tbs: nat)
    requires Steady(s, tbs) && Legal(s, run)
    requires forall i :: 0 <= i < |run| && run[i].Encode? ==> run[i].grant == tbs
    ensures Steady(After(s, run), tbs)
    decreases |run|
  {
    hide Steady, Do, Enabled;
    if run != [] {
      StepStaysSteady(s, run[0], tbs);
      RunStaysSteady(Do(s, run[0]), run[1..], tbs);
    }
  }

  /** While the transmit loop keeps to one grant, every block has its size, and so what is left over. */
  lemma SteadyGrant(tbs: nat, run: seq<Step>)
    requires Legal(Init(tbs), run)
    requires forall i :: 0 <= i < |run| && run[i].Encode? ==> run[i].grant == tbs
    ensures var s := After(Init(tbs), run);
      && (forall i :: 0 <= i < |s.published| ==> |s.published[i]| == BlockBytes(tbs))
      && (s.p.Reading? ==> |s.pending| < BlockBytes(tbs))
  {
    InitInv(tbs);
    RunKeepsInv(Init(tbs), run);
    RunStaysSteady(Init(tbs), run, tbs);
  }

  /** The test pattern changes nothing exactly when the block already is the pattern. */
  lemma PatternKeeps(b: seq<Byte>, n: nat)
    ensures Patterned(b, n) == b <==> forall i :: 0 <= i < |b| && i < n ==> b[i] == i % 255
  {
    if forall i :: 0 <= i < |b| && i < n ==> b[i] == i % 255 {
      assert Patterned(b, n) == b;
    } else {
      var i :| 0 <= i < |b| && i < n && b[i] != i % 255;
      assert Patterned(b, n)[i] != b[i];
    }
  }

  lemma SentBlock(s: State, k: nat)
    requires Inv(s) && k < |s.sent|
    ensures |s.sent| <= |s.published| && |s.sent| == |s.grants|
    ensures var b, n := s.published[k], s.grants[k] / 8;
      && (s.sent[k] == b <==> forall i :: 0 <= i < |b| && i < n ==> b[i] == i % 255)
      && (n >= |b| ==> s.sent[k] == seq(|b|, i => i % 255))
  {
    hide Flatten;
    PatternKeeps(s.published[k], s.grants[k] / 8);
  }

  /**
   What is encoded, in every run: block after block the published one under the test pattern. It
   is the published block exactly when that block already is the pattern on its first bytes, one
   for every eight bits of the grant; and where the grant covers the block, as for one size that is
   a multiple of eight, nothing of the published block is left.
   */
  lemma EncodedUnderPattern(tbs: nat, run: seq<Step>, k: nat)
    requires Legal(Init(tbs), run) && k < |After(Init(tbs), run).sent|
    ensures var s := After(Init(tbs), run);
      && |s.sent| <= |s.published| && |s.sent| == |GrantsOf(run)|
      && var b, n := s.published[k], GrantsOf(run)[k] / 8;
         && (s.sent[k] == b <==> forall i :: 0 <= i < |b| && i < n ==> b[i] == i % 255)
         && (n >= |b| ==> s.sent[k] == seq(|b|, i => i % 255))
  {
    InitInv(tbs);
    RunTells(tbs, run);
    hide Legal, After, Framed, Handed, Init, GrantOf, SizeOf, SizesOf, ReceivedOf, EpochOf, PublishesOf, GrantsOf;
    RunKeepsInv(Init(tbs), run);
    SentBlock(After(Init(tbs), run), k);
  }

  /** One block of one byte, received as one and sent as zero: seven steps from the start. */
  lemma ReceivedButNotSent()
    ensures var run := [Read([1]), FrameMore, Wait, Copy, Publish, Sample, Encode(8)];
      Legal(Init(8), run) && var s := After(Init(8), run); s.published == [[1]] && s.sent == [[0]]
  {
    hide Legal, After, Init;
    var first, second := [Read([1]), FrameMore, Wait, Copy, Publish], [Sample, Encode(8)];
    OnePublished();
    OneEncoded();
    RunOn(Init(8), first, second);
    assert first + second == [Read([1]), FrameMore, Wait, Copy, Publish, Sample, Encode(8)];
  }

  /** The state with the byte one published. */
  function WithOne(): State {
    State(0, true, [1], 8, Framing, [], 1, Idle, [1], [[1]], [1], 0, [], [], [], 0)
  }

  lemma OnePublished()
    ensures var run := [Read([1]), FrameMore, Wait, Copy, Publish];
      Legal(Init(8), run) && After(Init(8), run) == WithOne()
  {
    hide Legal, After, Do, Enabled, Init, WithOne;
    var s1 := OneReceived();
    var s2 := s1.(p := Waiting);
    var s3 := s2.(p := Holding, sem := 0);
    var s4 := s3.(p := Copied, mbms := [1]);
    FirstSteps(s1, s2, s3);
    LastSteps(s3, s4);
    Nothing(WithOne());
    Then(s4, Publish, [], [Publish]);
    Then(s3, Copy, [Publish], [Copy, Publish]);
    Then(s2, Wait, [Copy, Publish], [Wait, Copy, Publish]);
    Then(s1, FrameMore, [Wait, Copy, Publish], [FrameMore, Wait, Copy, Publish]);
    Then(Init(8), Read([1]), [FrameMore, Wait, Copy, Publish], [Read([1]), FrameMore, Wait, Copy, Publish]);
  }

  function OneReceived(): State {
    State(1, false, [], 8, Framing, [1], 1, Idle, [1], [], [], 0, [], [], [], 0)
  }

  lemma FirstSteps(s1: State, s2: State, s3: State)
    requires s1 == OneReceived() && s2 == s1.(p := Waiting) && s3 == s2.(p := Holding, sem := 0)
    ensures Enabled(Init(8), Read([1])) && Do(Init(8), Read([1])) == s1
    ensures Enabled(s1, FrameMore) && Do(s1, FrameMore) == s2
    ensures Enabled(s2, Wait) && Do(s2, Wait) == s3
  {
    assert [] + [1] == [1];
  }

  lemma LastSteps(s3: State, s4: State)
    requires s3 == OneReceived().(p := Holding, sem := 0) && s4 == s3.(p := Copied, mbms := [1])
    ensures Enabled(s3, Copy) && Do(s3, Copy) == s4
    ensures Enabled(s4, Publish) && Do(s4, Publish) == WithOne()
  {
    assert Front([1], 1) == [1] && Back([1], 1) == [];
  }

  lemma OneEncoded()
    ensures var run := [Sample, Encode(8)];
      Legal(WithOne(), run) && var s := After(WithOne(), run); s.published == [[1]] && s.sent == [[0]]
  {
    hide Legal, After;
    var s := Do(WithOne(), Sample);
    assert s.mbms == [1] && Patterned([1], 1) == [0];
    var t := Do(s, Encode(8));
    assert t.published == [[1]] && t.sent == [[0]];
    hide Do;
    Nothing(t);
    Then(s, Encode(8), [], [Encode(8)]);
    Then(WithOne(), Sample, [Encode(8)], [Sample, Encode(8)]);
  }

  lemma Nothing(s: State)
    ensures Legal(s, []) && After(s, []) == s
  {
  }

  /** A step in front of a run. */
  lemma Then(s: State, a: Step, rest: seq<Step>, run: seq<Step>)
    requires run == [a] + rest && Enabled(s, a) && Legal(Do(s, a), rest)
    ensures Legal(s, run) && After(s, run) == After(Do(s, a), rest)
  {
    hide Do, Enabled;
    assert run[1..] == rest;
  }

  /** Two runs, one after the other. */
  lemma {:induction false} RunOn(s: State, run: seq<Step>, more: seq<Step>)
    requires Legal(s, run) && Legal(After(s, run), more)
    ensures Legal(s, run + more) && After(s, run + more) == After(After(s, run), more)
    decreases |run|
  {
    hide Do, Enabled;
    if run == [] {
      assert run + more == more;
    } else {
      RunOn(Do(s, run[0]), run[1..], more);
      assert (run + more)[1..] == run[1..] + more;
    }
  }

  // ----- no lost wake-up -----

  /**
   In every run each thread has its next step: the network thread may read up to the end of its
   buffer or read nothing, it goes on framing while a block is there and goes back to reading
   otherwise, and nothing but an empty semaphore stops it; nothing stops the transmit loop.
   */
  lemma ThreadsGoOn(tbs: nat, run: seq<Step>, chunk: seq<Byte>, grant: nat)
    requires Legal(Init(tbs), run)
    ensures var s := After(Init(tbs), run);
      && (s.p.Reading? ==> Enabled(s, ReadNothing))
      && (Enabled(s, Read(chunk)) <==> s.p.Reading? && 0 < |chunk| <= 1048576 - |s.pending|)
      && (s.p.Framing? ==> if |s.pending| >= SizeOf(tbs, run) then Enabled(s, FrameMore) else Enabled(s, FrameDone))
      && (s.p.Waiting? ==> (Enabled(s, Wait) <==> s.sem == 1))
      && (ProducerHolds(s) ==> Enabled(s, Copy) || Enabled(s, Publish))
      && (Enabled(s, Sample) || Enabled(s, Encode(grant)) || Enabled(s, Resample) || Enabled(s, Clear)
          || Enabled(s, Post))
  {
    InitInv(tbs);
    RunTells(tbs, run);
    hide Legal, After, Init, GrantOf, SizeOf, SizesOf, ReceivedOf, EpochOf, PublishesOf, ClearsOf, GrantsOf;
    hide Framed, Handed, Enabled;
    RunKeepsInv(Init(tbs), run);
    StateGoesOn(After(Init(tbs), run), chunk, grant);
  }

  lemma StateGoesOn(s: State, chunk: seq<Byte>, grant: nat)
    requires OneToken(s)
    ensures s.p.Reading? ==> Enabled(s, ReadNothing)
    ensures Enabled(s, Read(chunk)) <==> s.p.Reading? && 0 < |chunk| <= 1048576 - |s.pending|
    ensures s.p.Framing? ==> if |s.pending| >= s.nbytes then Enabled(s, FrameMore) else Enabled(s, FrameDone)
    ensures s.p.Waiting? ==> (Enabled(s, Wait) <==> s.sem == 1)
    ensures ProducerHolds(s) ==> Enabled(s, Copy) || Enabled(s, Publish)
    ensures Enabled(s, Sample) || Enabled(s, Encode(grant)) || Enabled(s, Resample) || Enabled(s, Clear)
      || Enabled(s, Post)
  {
  }

  /** What the transmit loop still has to do before it posts, under the grant given. */
  function Rest(c: Consumer, grant: nat): seq<Step> {
    match c
    case Idle => [Sample, Encode(grant), Resample, Clear, Post]
    case Sending => [Encode(grant), Resample, Clear, Post]
    case Encoded => [Resample, Clear, Post]
    case Clearing => [Clear, Post]
    case Releasing => [Post]
  }

  /**
   Wherever a run leaves the network thread blocked in `sem_wait`, the transmit loop alone
   frees it, in at most five steps and without changing what the thread waits to copy.
   */
  lemma BlockedProducerIsFreed(tbs: nat, run: seq<Step>, grant: nat)
    requires Legal(Init(tbs), run)
    ensures var s := After(Init(tbs), run);
      var rest := Rest(s.c, grant);
      s.p.Waiting? && s.sem == 0 ==>
        && (forall i :: 0 <= i < |rest| ==> OfConsumer(rest[i]))
        && Legal(s, rest)
        && var t := After(s, rest);
           Enabled(t, Wait) && t.pending == s.pending && t.nbytes == s.nbytes && t.published == s.published
  {
    InitInv(tbs);
    hide Legal, After, Framed, Handed, Do, Init;
    RunKeepsInv(Init(tbs), run);
    var s := After(Init(tbs), run);
    if s.p.Waiting? && s.sem == 0 {
      RestFrees(s, grant);
    }
  }

  lemma RestFrees(s: State, grant: nat)
    requires s.sem == 0 && s.p.Waiting? && (s.ready || s.c.Releasing?)
    ensures var rest := Rest(s.c, grant);
      && Legal(s, rest)
      && (forall i :: 0 <= i < |rest| ==> OfConsumer(rest[i]))
      && var t := After(s, rest);
         && t.sem == 1 && t.p.Waiting?
         && t.pending == s.pending && t.nbytes == s.nbytes && t.published == s.published
    decreases |Rest(s.c, grant)|
  {
    hide Patterned;
    var rest := Rest(s.c, grant);
    var t := Do(s, rest[0]);
    if s.c.Releasing? {
      assert rest[1..] == [];
    } else {
      assert rest[1..] == Rest(t.c, grant);
      RestFrees(t, grant);
    }
  }
}
