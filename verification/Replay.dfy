/**
 The register-trace replayer (gr_replay_run with checkpointing and validation
 off): what it makes the hardware see for a recorded list of register accesses.
 */
module Replay {
  import opened PteCodec
  import opened PhysMem
  import opened TableTree
  import opened TableDump
  import opened Regions
  import opened DumpLoop
  import opened AddressSpace
  import opened MemInit
  import opened GpuIo
  import opened LiveContext
  import opened EndToEnd
  import opened JobHead

  type Reg = x: nat | x < 0x1_0000_0000

  const GPU_IRQ_MASK: Reg := 0x28
  const GPU_COMMAND: Reg := 0x30
  const LATEST_FLUSH: Reg := 0x38
  /** JOB_SLOT_REG(1, r) */
  const JS_HEAD_NEXT_LO: Reg := 0x18C0
  const JS_HEAD_NEXT_HI: Reg := 0x18C4
  const JS_COMMAND_NEXT: Reg := 0x18E0
  const JS_FLUSH_ID_NEXT: Reg := 0x18F0
  /** MMU_AS_REG(0, r) */
  const AS_TRANSTAB_LO: Reg := 0x2400
  const AS_TRANSTAB_HI: Reg := 0x2404
  const AS_STATUS: Reg := 0x2428

  const AS_STATUS_AS_INACTIVE: Reg := 0
  const AS_STATUS_AS_ACTIVE: Reg := 1
  const GPU_COMMAND_SOFT_RESET: Reg := 1
  const RESET_IRQ_MASK: Reg := 0x100
  const MAX_LOOPS: nat := 100_000_000

  /** struct reg_io. */
  datatype RegIo = RegIo(isRead: bool, offset: Reg, value: Reg)

  /** ZeroJob records the eight bytes of the job header before and after the copy. */
  datatype Effect =
    | Read(offset: Reg, value: Reg)
    | Write(offset: Reg, value: Reg)
    | ZeroJob(gaddr: nat, before: seq<Byte>, after: seq<Byte>)
    | WaitJobIrq

  /**
   How a run ends: at the end of the recording, in a wait that gives up, or in a
   job header copy that does not succeed.
   */
  datatype Stop = Completed | Stuck | BadHead(v: Outcome)

  /** i-th access: recorded reads that refresh the flush id. */
  predicate Refreshes(io: RegIo) {
    io.isRead && (io.offset == LATEST_FLUSH || io.offset == AS_STATUS)
  }

  /** What a run starts from. */
  datatype Start = Start(rs: seq<Region>, transtab: nat, flush: Reg, lo: Reg)

  /** The value first read by the last refreshing read before access i; init if there is none. */
  function LastFlush(ios: seq<RegIo>, segs: seq<seq<Effect>>, i: nat, init: Reg): Reg
    requires i <= |ios| && i <= |segs|
  {
    if i == 0 then init
    else if Refreshes(ios[i - 1]) && segs[i - 1] != [] && segs[i - 1][0].Read? then segs[i - 1][0].value
    else LastFlush(ios, segs, i - 1, init)
  }

  /** The value of the last write to JS_HEAD_NEXT_LO before access i; init if there is none. */
  function LastLo(ios: seq<RegIo>, i: nat, init: Reg): Reg
    requires i <= |ios|
  {
    if i == 0 then init
    else if !ios[i - 1].isRead && ios[i - 1].offset == JS_HEAD_NEXT_LO then ios[i - 1].value
    else LastLo(ios, i - 1, init)
  }

  /** The value a recorded write is replayed with. */
  function Adjusted(io: RegIo, transtab: nat, flush: Reg): Reg {
    if io.offset == JS_FLUSH_ID_NEXT then flush
    else if io.offset == AS_TRANSTAB_LO then transtab % 0x1_0000_0000
    else if io.offset == AS_TRANSTAB_HI then transtab / 0x1_0000_0000 % 0x1_0000_0000
    else io.value
  }

  predicate SoftReset(io: RegIo) {
    io.offset == GPU_COMMAND && io.value == GPU_COMMAND_SOFT_RESET
  }

  /** A recorded read that saw the address space busy. */
  predicate AwaitsIdle(io: RegIo) {
    io.offset == AS_STATUS && io.value == AS_STATUS_AS_ACTIVE
  }

  /** The job header address made of its two words. */
  function JobAddr(hi: Reg, lo: Reg): nat {
    hi * 0x1_0000_0000 + lo
  }

  predicate SetsHead(io: RegIo) {
    !io.isRead && io.offset == JS_HEAD_NEXT_HI
  }

  predicate Submits(io: RegIo) {
    !io.isRead && io.offset == JS_COMMAND_NEXT
  }

  /** What follows the write itself. */
  function Aftermath(io: RegIo): seq<Effect> {
    if io.offset == JS_COMMAND_NEXT then [WaitJobIrq]
    else if SoftReset(io) then [Write(GPU_IRQ_MASK, RESET_IRQ_MASK)]
    else []
  }

  function HeadEffect(gaddr: nat, before: seq<Byte>): Effect
    requires |before| == HEAD_SIZE
  {
    ZeroJob(gaddr, before, ZeroedHead(gaddr, before))
  }

  /** Everything a recorded write causes, when the job header holds the bytes before. */
  function WriteSegment(io: RegIo, transtab: nat, flush: Reg, lo: Reg, before: seq<Byte>): seq<Effect>
    requires |before| == HEAD_SIZE
  {
    (if io.offset == JS_HEAD_NEXT_HI then [HeadEffect(JobAddr(io.value, lo), before)] else [])
    + [Write(io.offset, Adjusted(io, transtab, flush))]
    + Aftermath(io)
  }

  /**
   ws are the reads of a wait for value: all but the last saw something else, and
   it gives up after MAX_LOOPS reads.
   */
  ghost predicate WaitReads(ws: seq<Effect>, offset: Reg, value: Reg, stuck: bool) {
    && 0 < |ws| <= MAX_LOOPS && (stuck <==> |ws| == MAX_LOOPS)
    && (forall j :: 0 <= j < |ws| ==> ws[j].Read? && ws[j].offset == offset)
    && (forall j :: 0 <= j < |ws| - 1 ==> ws[j].value != value)
    && (!stuck ==> ws[|ws| - 1].value == value)
  }

  ghost predicate ReadSegment(io: RegIo, seg: seq<Effect>, stop: Stop) {
    && seg != [] && seg[0].Read? && seg[0].offset == io.offset
    && if AwaitsIdle(io) then WaitReads(seg[1..], AS_STATUS, AS_STATUS_AS_INACTIVE, stop.Stuck?) && !stop.BadHead?
       else |seg| == 1 && stop.Completed?
  }

  /** The old job header bytes a segment speaks of. */
  function BeforeOf(seg: seq<Effect>): (b: seq<Byte>)
    ensures |b| == HEAD_SIZE
  {
    if seg != [] && seg[0].ZeroJob? && |seg[0].before| == HEAD_SIZE then seg[0].before else HeadZeros()
  }

  /** A write of the high word of a job address stops the run exactly when the header copy does not succeed. */
  ghost predicate WriteOk(io: RegIo, rs: seq<Region>, transtab: nat, flush: Reg, lo: Reg, seg: seq<Effect>, stop: Stop)
  {
    var v := OutcomeAt(rs, JobAddr(io.value, lo), HEAD_SIZE);
    if SetsHead(io) && !v.Done? then seg == [] && stop == BadHead(v)
    else seg == WriteSegment(io, transtab, flush, lo, BeforeOf(seg)) && stop.Completed?
  }

  /** segs[i] is what access i may cause, given everything before it. */
  ghost predicate SegmentOk(ios: seq<RegIo>, segs: seq<seq<Effect>>, i: nat, st: Start, stop: Stop) {
    && i < |ios| && i < |segs|
    && if ios[i].isRead then ReadSegment(ios[i], segs[i], stop)
       else WriteOk(ios[i], st.rs, st.transtab, LastFlush(ios, segs, i, st.flush), LastLo(ios, i, st.lo), segs[i], stop)
  }

  /** Jobs may rewrite pages of the regions. */
  ghost predicate JobsRan(rs: seq<Region>, mem: Mem, mem': Mem) {
    exists ws :: mem' == GpuWrites(mem, rs, ws)
  }

  /**
   What access io does to memory. A job header is zeroed before its address is
   written, and nothing else changes then; jobs may rewrite pages of the regions;
   any other access leaves memory alone.
   */
  ghost predicate MemStep(rs: seq<Region>, io: RegIo, lo: Reg, mem: Mem, mem': Mem, seg: seq<Effect>) {
    var gaddr := JobAddr(io.value, lo);
    if SetsHead(io) then
      && Written(mem, mem', rs, gaddr, HeadZeros(), HeadZeros(), HEAD_SIZE)
      && (OutcomeAt(rs, gaddr, HEAD_SIZE).Done? ==>
        seg != [] && seg[0] == ZeroJob(gaddr, HeadBytes(mem, rs, gaddr), HeadBytes(mem', rs, gaddr)))
      && (!OutcomeAt(rs, gaddr, HEAD_SIZE).Done? ==> mem' == mem)
    else if Submits(io) then JobsRan(rs, mem, mem')
    else mem' == mem
  }

  function TuneTrace(rs: seq<Region>, gaddr: nat, v: Outcome, mem: Mem, mem': Mem): seq<Effect> {
    if v.Done? then [ZeroJob(gaddr, HeadBytes(mem, rs, gaddr), HeadBytes(mem', rs, gaddr))] else []
  }

  lemma Regroup(a: seq<Effect>, b: seq<Effect>, c: seq<Effect>, d: seq<Effect>)
    ensures a + b + c + d == a + (b + c + d)
  {
  }

  lemma HeadSegment(rs: seq<Region>, io: RegIo, transtab: nat, flush: Reg, lo: Reg, mem: Mem, mem': Mem, v: Outcome,
                    seg: seq<Effect>)
    requires SetsHead(io) && HeadTuned(rs, JobAddr(io.value, lo), v, mem, mem')
    requires seg == TuneTrace(rs, JobAddr(io.value, lo), v, mem, mem')
      + if v.Done? then [Write(io.offset, Adjusted(io, transtab, flush))] + Aftermath(io) else []
    ensures WriteOk(io, rs, transtab, flush, lo, seg, if v.Done? then Completed else BadHead(v))
    ensures MemStep(rs, io, lo, mem, mem', seg)
  {
    if v.Done? {
      var before := HeadBytes(mem, rs, JobAddr(io.value, lo));
      assert seg[0].before == before && BeforeOf(seg) == before;
      assert seg == WriteSegment(io, transtab, flush, lo, before);
    }
  }

  lemma OtherSegment(rs: seq<Region>, io: RegIo, transtab: nat, flush: Reg, lo: Reg, mem: Mem, mem': Mem,
                     seg: seq<Effect>)
    requires !io.isRead && !SetsHead(io) && seg == [Write(io.offset, Adjusted(io, transtab, flush))] + Aftermath(io)
    requires if Submits(io) then JobsRan(rs, mem, mem') else mem' == mem
    ensures WriteOk(io, rs, transtab, flush, lo, seg, Completed) && MemStep(rs, io, lo, mem, mem', seg)
  {
  }

  /** The GPU, through its tables, finds b at gaddr, as far as the region is backed. */
  ghost predicate HeadSeen(pgd: Word, mem: Mem, rs: seq<Region>, gaddr: nat, b: seq<Byte>)
    requires RegionAt(rs, gaddr) >= 0
  {
    var r := rs[RegionAt(rs, gaddr)];
    |b| == HEAD_SIZE && forall k: nat :: k < HEAD_SIZE && gaddr - r.gmStart + k < PAGE_SIZE * Backed(r) ==>
      Reads(mem, pgd, gaddr + k, b[k])
  }

  lemma HeadIsSeen(root: Shadow, mem: Mem, rs: seq<Region>, gaddr: nat)
    requires Live(root, mem, rs) && RegionAt(rs, gaddr) >= 0
    ensures HeadSeen(root.phys, mem, rs, gaddr, HeadBytes(mem, rs, gaddr))
  {
    var i := RegionAt(rs, gaddr);
    forall k: nat | k < HEAD_SIZE && gaddr - rs[i].gmStart + k < PAGE_SIZE * Backed(rs[i])
      ensures Reads(mem, root.phys, gaddr + k, HeadBytes(mem, rs, gaddr)[k])
    {
      GpuReadsHead(root, mem, rs, gaddr, k);
    }
  }

  ghost predicate StepAt(ios: seq<RegIo>, segs: seq<seq<Effect>>, mems: seq<Mem>, st: Start, i: nat)
    requires i < |ios| && i < |segs| && i + 1 < |mems|
  {
    MemStep(st.rs, ios[i], LastLo(ios, i, st.lo), mems[i], mems[i + 1], segs[i])
  }

  /** mems[i] is the memory before access i: it changes step by step, and the context stays live. */
  ghost predicate MemRun(ios: seq<RegIo>, segs: seq<seq<Effect>>, mems: seq<Mem>, root: Shadow, st: Start) {
    && |mems| == |segs| + 1 <= |ios| + 1
    && (forall i :: 0 <= i < |mems| ==> Live(root, mems[i], st.rs))
    && forall i :: 0 <= i < |segs| ==> StepAt(ios, segs, mems, st, i)
  }

  function Concat(segs: seq<seq<Effect>>): seq<Effect> {
    if segs == [] then [] else Concat(segs[..|segs| - 1]) + segs[|segs| - 1]
  }

  class Replayer {
    const ctx: ReplayContext
    const transtab: nat
    /** What the hardware answers to the n-th register read. */
    const answers: nat -> Reg
    /** What the n-th job leaves in memory. */
    const results: nat -> seq<PageWrite>
    var readCount: nat
    var jobCount: nat
    /** These two outlive a run. */
    var latestFlushId: Reg
    var jcLo: Reg
    var trace: seq<Effect>

    ghost predicate Valid()
      reads this, ctx, ctx.m
    {
      ctx.m.Valid() && Live(ctx.root, ctx.m.mem, ctx.regions)
    }

    constructor (ctx: ReplayContext, answers: nat -> Reg, results: nat -> seq<PageWrite>)
      requires ctx.m.Valid() && Live(ctx.root, ctx.m.mem, ctx.regions)
      ensures Valid() && this.ctx == ctx && transtab == ctx.root.phys as nat
      ensures this.answers == answers && this.results == results
      ensures readCount == 0 && jobCount == 0 && latestFlushId == 0 && jcLo == 0 && trace == []
    {
      this.ctx, this.answers, this.results := ctx, answers, results;
      transtab := ctx.root.phys as nat;
      readCount, jobCount, latestFlushId, jcLo, trace := 0, 0, 0, 0, [];
    }

    method RegRead(offset: Reg) returns (v: Reg)
      modifies this`readCount, this`trace
      ensures v == answers(old(readCount)) && readCount == old(readCount) + 1
      ensures trace == old(trace) + [Read(offset, v)]
    {
      v := answers(readCount);
      readCount := readCount + 1;
      trace := trace + [Read(offset, v)];
    }

    method RegWrite(offset: Reg, value: Reg)
      modifies this`trace
      ensures trace == old(trace) + [Write(offset, value)]
    {
      trace := trace + [Write(offset, value)];
    }

    /** reg_read_wait; stuck is the abort. */
    method RegReadWait(offset: Reg, value: Reg) returns (stuck: bool, ghost ws: seq<Effect>)
      modifies this`readCount, this`trace
      ensures trace == old(trace) + ws && WaitReads(ws, offset, value, stuck)
    {
      var maxLoops := MAX_LOOPS;
      var newValue := RegRead(offset);
      ws := [Read(offset, newValue)];
      maxLoops := maxLoops - 1;
      while maxLoops != 0 && newValue != value
        invariant 0 <= maxLoops == MAX_LOOPS - |ws|
        invariant trace == old(trace) + ws && ws != [] && ws[|ws| - 1] == Read(offset, newValue)
        invariant forall j :: 0 <= j < |ws| ==> ws[j].Read? && ws[j].offset == offset
        invariant forall j :: 0 <= j < |ws| - 1 ==> ws[j].value != value
      {
        newValue := RegRead(offset);
        ws := ws + [Read(offset, newValue)];
        maxLoops := maxLoops - 1;
      }
      stuck := maxLoops == 0;
    }

    /** gr_js_tune: the low word is kept; with the high word, the header at the whole address is zeroed. */
    method JsTune(offset: Reg, value: Reg) returns (v: Outcome)
      requires Valid()
      modifies this`jcLo, this`trace, ctx.m`mem
      ensures Valid()
      ensures offset == JS_HEAD_NEXT_LO ==>
        v.Done? && jcLo == value && trace == old(trace) && ctx.m.mem == old(ctx.m.mem)
      ensures offset != JS_HEAD_NEXT_LO ==>
        && jcLo == old(jcLo)
        && HeadTuned(ctx.regions, JobAddr(value, old(jcLo)), v, old(ctx.m.mem), ctx.m.mem)
        && trace == old(trace) + TuneTrace(ctx.regions, JobAddr(value, old(jcLo)), v, old(ctx.m.mem), ctx.m.mem)
    {
      v := Done;
      if offset == JS_HEAD_NEXT_LO {
        jcLo := value;
      } else {
        v := CopyToHead(JobAddr(value, jcLo));
      }
    }

    method CopyToHead(gaddr: nat) returns (v: Outcome)
      requires Valid()
      modifies this`trace, ctx.m`mem
      ensures Valid() && HeadTuned(ctx.regions, gaddr, v, old(ctx.m.mem), ctx.m.mem)
      ensures trace == old(trace) + TuneTrace(ctx.regions, gaddr, v, old(ctx.m.mem), ctx.m.mem)
    {
      var mem := ctx.m.mem;
      v := ZeroHead(ctx.m, ctx.root, ctx.regions, gaddr);
      trace := trace + TuneTrace(ctx.regions, gaddr, v, mem, ctx.m.mem);
    }

    method ReplayRead(io: RegIo) returns (stop: Stop, ghost seg: seq<Effect>)
      requires io.isRead
      modifies this`readCount, this`latestFlushId, this`trace
      ensures trace == old(trace) + seg && ReadSegment(io, seg, stop)
      ensures stop.Completed? ==> latestFlushId == if Refreshes(io) then seg[0].value else old(latestFlushId)
    {
      stop := Completed;
      var newValue := RegRead(io.offset);
      seg := [Read(io.offset, newValue)];
      if io.offset == AS_STATUS {
        if io.value == AS_STATUS_AS_ACTIVE {
          var stuck;
          ghost var ws;
          stuck, ws := RegReadWait(io.offset, AS_STATUS_AS_INACTIVE);
          seg := seg + ws;
          assert seg[1..] == ws;
          if stuck {
            return Stuck, seg;
          }
        }
        latestFlushId := newValue;
      } else if io.offset == LATEST_FLUSH {
        latestFlushId := newValue;
      }
    }

    /** The job just submitted runs, and the replayer waits for its interrupt. */
    method WaitForJob()
      requires Valid()
      modifies this`jobCount, this`trace, ctx.m`mem
      ensures Valid() && trace == old(trace) + [WaitJobIrq] && jobCount == old(jobCount) + 1
      ensures ctx.m.mem == GpuWrites(old(ctx.m.mem), ctx.regions, results(old(jobCount)))
    {
      GpuKeepsLive(ctx.root, ctx.m.mem, ctx.regions, results(jobCount));
      ctx.m.mem := GpuWrites(ctx.m.mem, ctx.regions, results(jobCount));
      jobCount := jobCount + 1;
      trace := trace + [WaitJobIrq];
    }

    /** The switch before the write: the value to write, and the job header copy. */
    method Adjust(io: RegIo) returns (v: Outcome, value: Reg)
      requires Valid() && !io.isRead
      modifies this`jcLo, this`trace, ctx.m`mem
      ensures Valid() && value == Adjusted(io, transtab, latestFlushId)
      ensures jcLo == if io.offset == JS_HEAD_NEXT_LO then io.value else old(jcLo)
      ensures io.offset == JS_HEAD_NEXT_HI ==>
        && HeadTuned(ctx.regions, JobAddr(io.value, old(jcLo)), v, old(ctx.m.mem), ctx.m.mem)
        && trace == old(trace) + TuneTrace(ctx.regions, JobAddr(io.value, old(jcLo)), v, old(ctx.m.mem), ctx.m.mem)
      ensures io.offset != JS_HEAD_NEXT_HI ==> v.Done? && trace == old(trace) && ctx.m.mem == old(ctx.m.mem)
    {
      v, value := Done, io.value;
      if io.offset == JS_HEAD_NEXT_LO || io.offset == JS_HEAD_NEXT_HI {
        v := JsTune(io.offset, io.value);
      } else if io.offset == JS_FLUSH_ID_NEXT {
        value := latestFlushId;
      } else if io.offset == AS_TRANSTAB_LO {
        value := transtab % 0x1_0000_0000;
      } else if io.offset == AS_TRANSTAB_HI {
        value := transtab / 0x1_0000_0000 % 0x1_0000_0000;
      }
    }

    /** The switch after the write. */
    method Synchronize(io: RegIo, value: Reg)
      requires Valid() && !io.isRead && (io.offset == GPU_COMMAND ==> value == io.value)
      modifies this`jobCount, this`trace, ctx.m`mem
      ensures Valid() && trace == old(trace) + Aftermath(io)
      ensures if Submits(io) then JobsRan(ctx.regions, old(ctx.m.mem), ctx.m.mem) else ctx.m.mem == old(ctx.m.mem)
    {
      if io.offset == JS_COMMAND_NEXT {
        WaitForJob();
      } else if io.offset == GPU_COMMAND && value == GPU_COMMAND_SOFT_RESET {
        RegWrite(GPU_IRQ_MASK, RESET_IRQ_MASK);
      }
    }

    method ReplayWrite(io: RegIo) returns (stop: Stop, ghost seg: seq<Effect>)
      requires Valid() && !io.isRead
      modifies this`jcLo, this`jobCount, this`trace, ctx.m`mem
      ensures Valid() && trace == old(trace) + seg
      ensures WriteOk(io, ctx.regions, transtab, latestFlushId, old(jcLo), seg, stop)
      ensures MemStep(ctx.regions, io, old(jcLo), old(ctx.m.mem), ctx.m.mem, seg)
      ensures jcLo == if io.offset == JS_HEAD_NEXT_LO then io.value else old(jcLo)
    {
      ghost var mem0, lo := ctx.m.mem, jcLo;
      var v, value := Adjust(io);
      ghost var zero := [];
      if SetsHead(io) {
        zero := TuneTrace(ctx.regions, JobAddr(io.value, lo), v, mem0, ctx.m.mem);
      }
      stop, seg := if v.Done? then Completed else BadHead(v), zero;
      if v.Done? {
        RegWrite(io.offset, value);
        Synchronize(io, value);
        seg := zero + [Write(io.offset, value)] + Aftermath(io);
        Regroup(old(trace), zero, [Write(io.offset, value)], Aftermath(io));
      }
      if SetsHead(io) {
        HeadSegment(ctx.regions, io, transtab, latestFlushId, lo, mem0, ctx.m.mem, v, seg);
      } else {
        OtherSegment(ctx.regions, io, transtab, latestFlushId, lo, mem0, ctx.m.mem, seg);
      }
    }

    /** Where a run would start from now. */
    ghost function Now(): Start
      reads this, ctx
    {
      Start(ctx.regions, transtab, latestFlushId, jcLo)
    }

    method ReplayOne(io: RegIo) returns (stop: Stop, ghost seg: seq<Effect>)
      requires Valid()
      modifies this, ctx.m`mem
      ensures Valid() && trace == old(trace) + seg
      ensures SegmentFor(io, old(Now()), old(latestFlushId), old(jcLo), seg, stop)
      ensures MemStep(ctx.regions, io, old(jcLo), old(ctx.m.mem), ctx.m.mem, seg)
      ensures stop.Completed? ==>
        && latestFlushId == Remembered(io, seg, old(latestFlushId))
        && jcLo == RememberedLo(io, old(jcLo))
    {
      if io.isRead {
        stop, seg := ReplayRead(io);
      } else {
        stop, seg := ReplayWrite(io);
      }
    }

    /**
     gr_replay_run. The hardware sees one segment per access, each determined by
     the access, by the last flush id read, by the last job address low word
     written before it and by the job header in memory; memory changes only as
     MemRun says, and the page tables never; the run stops early only in a wait
     that gives up or at a job header outside the regions.
     */
    method Run(ios: seq<RegIo>) returns (stop: Stop, ghost segs: seq<seq<Effect>>, ghost mems: seq<Mem>)
      requires Valid()
      modifies this, ctx.m`mem
      ensures Valid() && (stop.Completed? ==> |segs| == |ios|) && (!stop.Completed? ==> segs != [])
      ensures trace == old(trace) + Concat(segs) && SegmentsEnd(ios, segs, old(Now()), stop)
      ensures MemTrail(ios, segs, mems, ctx.root, old(Now()), old(ctx.m.mem), ctx.m.mem)
      ensures stop.Completed? ==>
        latestFlushId == LastFlush(ios, segs, |ios|, old(latestFlushId)) && jcLo == LastLo(ios, |ios|, old(jcLo))
    {
      segs, mems := [], [ctx.m.mem];
      ghost var st, mem0, tr0 := Now(), ctx.m.mem, trace;
      for i := 0 to |ios|
        invariant Valid() && ctx.regions == st.rs && |segs| == i
        invariant Tracing(ios, segs, st, tr0, latestFlushId, jcLo, trace)
        invariant MemTrail(ios, segs, mems, ctx.root, st, mem0, ctx.m.mem)
      {
        ghost var seg, flush, lo, mem, tr := [], latestFlushId, jcLo, ctx.m.mem, trace;
        stop, seg := ReplayOne(ios[i]);
        NextSegment(ios, segs, seg, st, stop, tr0, flush, lo, tr);
        MemRunNext(ios, segs, seg, mems, mem0, mem, ctx.m.mem, ctx.root, st, lo);
        segs, mems := segs + [seg], mems + [ctx.m.mem];
        if !stop.Completed? {
          return;
        }
      }
      stop := Completed;
      CompletedEnd(ios, segs, st);
    }
  }

  /** Loop state of a run: the accesses so far are replayed in full, and flush and lo are what the code remembers. */
  ghost predicate Tracing(ios: seq<RegIo>, segs: seq<seq<Effect>>, st: Start, tr0: seq<Effect>, flush: Reg, lo: Reg,
                          tr: seq<Effect>)
  {
    && |segs| <= |ios| && AllOk(ios, segs, |segs|, st) && tr == tr0 + Concat(segs)
    && flush == LastFlush(ios, segs, |segs|, st.flush) && lo == LastLo(ios, |segs|, st.lo)
  }

  /** The memory has gone from mem0 to mem. */
  ghost predicate MemTrail(ios: seq<RegIo>, segs: seq<seq<Effect>>, mems: seq<Mem>, root: Shadow, st: Start, mem0: Mem,
                           mem: Mem)
  {
    MemRun(ios, segs, mems, root, st) && mems[0] == mem0 && mems[|segs|] == mem
  }

  /** seg is what access io may cause. */
  ghost predicate SegmentFor(io: RegIo, st: Start, flush: Reg, lo: Reg, seg: seq<Effect>, stop: Stop) {
    if io.isRead then ReadSegment(io, seg, stop) else WriteOk(io, st.rs, st.transtab, flush, lo, seg, stop)
  }

  function Remembered(io: RegIo, seg: seq<Effect>, flush: Reg): Reg {
    if Refreshes(io) && seg != [] && seg[0].Read? then seg[0].value else flush
  }

  function RememberedLo(io: RegIo, lo: Reg): Reg {
    if !io.isRead && io.offset == JS_HEAD_NEXT_LO then io.value else lo
  }

  lemma CompletedEnd(ios: seq<RegIo>, segs: seq<seq<Effect>>, st: Start)
    requires |segs| <= |ios| && AllOk(ios, segs, |segs|, st)
    ensures SegmentsEnd(ios, segs, st, Completed)
  {
  }

  lemma MemRunNext(ios: seq<RegIo>, segs: seq<seq<Effect>>, seg: seq<Effect>, mems: seq<Mem>, mem0: Mem, mem: Mem,
                   mem': Mem, root: Shadow, st: Start, lo: Reg)
    requires MemTrail(ios, segs, mems, root, st, mem0, mem) && |segs| < |ios| && Live(root, mem', st.rs)
    requires lo == LastLo(ios, |segs|, st.lo) && MemStep(st.rs, ios[|segs|], lo, mem, mem', seg)
    ensures MemTrail(ios, segs + [seg], mems + [mem'], root, st, mem0, mem')
  {
    var segs', mems' := segs + [seg], mems + [mem'];
    forall i | 0 <= i < |segs'|
      ensures StepAt(ios, segs', mems', st, i)
    {
      assert i < |segs| ==> StepAt(ios, segs, mems, st, i);
    }
    forall i | 0 <= i < |mems'|
      ensures Live(root, mems'[i], st.rs)
    {
    }
  }

  lemma {:induction false} LastFlushKept(ios: seq<RegIo>, segs: seq<seq<Effect>>, seg: seq<Effect>, i: nat, init: Reg)
    requires i <= |segs| && i <= |ios|
    ensures LastFlush(ios, segs + [seg], i, init) == LastFlush(ios, segs, i, init)
  {
    if i > 0 {
      LastFlushKept(ios, segs, seg, i - 1, init);
    }
  }

  /** The first n accesses are replayed in full. */
  ghost predicate AllOk(ios: seq<RegIo>, segs: seq<seq<Effect>>, n: nat, st: Start) {
    n <= |segs| && forall i :: 0 <= i < n ==> SegmentOk(ios, segs, i, st, Completed)
  }

  /** The accesses of segs are replayed in full, except that the last ends with stop. */
  ghost predicate SegmentsEnd(ios: seq<RegIo>, segs: seq<seq<Effect>>, st: Start, stop: Stop) {
    |segs| <= |ios| && (segs != [] ==> AllOk(ios, segs, |segs| - 1, st) && SegmentOk(ios, segs, |segs| - 1, st, stop))
  }

  lemma NextSegment(ios: seq<RegIo>, segs: seq<seq<Effect>>, seg: seq<Effect>, st: Start, stop: Stop, tr0: seq<Effect>,
                    flush: Reg, lo: Reg, tr: seq<Effect>)
    requires |segs| < |ios| && Tracing(ios, segs, st, tr0, flush, lo, tr)
    requires SegmentFor(ios[|segs|], st, flush, lo, seg, stop)
    ensures SegmentsEnd(ios, segs + [seg], st, stop) && tr + seg == tr0 + Concat(segs + [seg])
    ensures var flush', lo' := Remembered(ios[|segs|], seg, flush), RememberedLo(ios[|segs|], lo);
            stop.Completed? ==> Tracing(ios, segs + [seg], st, tr0, flush', lo', tr + seg)
  {
    SegmentAppended(ios, segs, seg, st, stop, flush, lo);
    TraceAppended(segs, seg, tr0, tr);
  }

  lemma TraceAppended(segs: seq<seq<Effect>>, seg: seq<Effect>, tr0: seq<Effect>, tr: seq<Effect>)
    requires tr == tr0 + Concat(segs)
    ensures tr + seg == tr0 + Concat(segs + [seg])
  {
    assert (segs + [seg])[..|segs|] == segs;
    assert tr0 + Concat(segs) + seg == tr0 + (Concat(segs) + seg);
  }

  lemma SegmentAppended(ios: seq<RegIo>, segs: seq<seq<Effect>>, seg: seq<Effect>, st: Start, stop: Stop, flush: Reg,
                        lo: Reg)
    requires |segs| < |ios| && AllOk(ios, segs, |segs|, st)
    requires flush == LastFlush(ios, segs, |segs|, st.flush) && lo == LastLo(ios, |segs|, st.lo)
    requires SegmentFor(ios[|segs|], st, flush, lo, seg, stop)
    ensures SegmentsEnd(ios, segs + [seg], st, stop)
    ensures stop.Completed? ==> AllOk(ios, segs + [seg], |segs + [seg]|, st)
    ensures LastFlush(ios, segs + [seg], |segs + [seg]|, st.flush) == Remembered(ios[|segs|], seg, flush)
    ensures LastLo(ios, |segs + [seg]|, st.lo) == RememberedLo(ios[|segs|], lo)
  {
    forall j: nat | j <= |segs|
      ensures LastFlush(ios, segs + [seg], j, st.flush) == LastFlush(ios, segs, j, st.flush)
    {
      LastFlushKept(ios, segs, seg, j, st.flush);
    }
    forall i | 0 <= i < |segs|
      ensures SegmentOk(ios, segs + [seg], i, st, Completed)
    {
      assert SegmentOk(ios, segs, i, st, Completed);
    }
    assert SegmentOk(ios, segs + [seg], |segs|, st, stop);
  }

  /** The register writes of a trace. */
  function Writes(tr: seq<Effect>): seq<(Reg, Reg)> {
    if tr == [] then []
    else Writes(tr[..|tr| - 1]) + if tr[|tr| - 1].Write? then [(tr[|tr| - 1].offset, tr[|tr| - 1].value)] else []
  }

  lemma {:induction false} WritesConcat(a: seq<Effect>, b: seq<Effect>)
    ensures Writes(a + b) == Writes(a) + Writes(b)
    decreases |b|
  {
    if b == [] {
      assert a + b == a;
    } else {
      WritesConcat(a, b[..|b| - 1]);
      assert (a + b)[..|a + b| - 1] == a + b[..|b| - 1];
    }
  }

  /** Access i as recorded: one write or none. */
  function RecordedAt(io: RegIo): seq<(Reg, Reg)> {
    if io.isRead then [] else [(io.offset, io.value)]
  }

  /** The recorded writes. */
  function Recorded(ios: seq<RegIo>): seq<(Reg, Reg)> {
    if ios == [] then []
    else Recorded(ios[..|ios| - 1]) + RecordedAt(ios[|ios| - 1])
  }

  /** The writes to registers the replayer never touches on its own. */
  function Plain(ws: seq<(Reg, Reg)>): seq<(Reg, Reg)> {
    if ws == [] then []
    else
      var own := {JS_FLUSH_ID_NEXT, AS_TRANSTAB_LO, AS_TRANSTAB_HI, GPU_IRQ_MASK};
      Plain(ws[..|ws| - 1]) + if ws[|ws| - 1].0 in own then [] else [ws[|ws| - 1]]
  }

  lemma {:induction false} PlainConcat(a: seq<(Reg, Reg)>, b: seq<(Reg, Reg)>)
    ensures Plain(a + b) == Plain(a) + Plain(b)
    decreases |b|
  {
    if b == [] {
      assert a + b == a;
    } else {
      PlainConcat(a, b[..|b| - 1]);
      assert (a + b)[..|a + b| - 1] == a + b[..|b| - 1];
    }
  }

  /** A complete run's segments. */
  ghost predicate Replays(ios: seq<RegIo>, segs: seq<seq<Effect>>, st: Start) {
    |segs| == |ios| && AllOk(ios, segs, |segs|, st)
  }

  /** What access i makes the hardware see in register writes. */
  function Emitted(ios: seq<RegIo>, segs: seq<seq<Effect>>, i: nat, st: Start): seq<(Reg, Reg)>
    requires i < |ios| && i < |segs|
  {
    var io := ios[i];
    if io.isRead then []
    else
      [(io.offset, Adjusted(io, st.transtab, LastFlush(ios, segs, i, st.flush)))]
      + (if SoftReset(io) then [(GPU_IRQ_MASK, RESET_IRQ_MASK)] else [])
  }

  lemma AllReads(io: RegIo, seg: seq<Effect>, stop: Stop)
    requires ReadSegment(io, seg, stop)
    ensures forall j :: 0 <= j < |seg| ==> seg[j].Read?
  {
    forall j | 0 < j < |seg|
      ensures seg[j].Read?
    {
      assert seg[1..][j - 1] == seg[j];
    }
  }

  lemma {:induction false} ReadsWriteNothing(seg: seq<Effect>)
    requires forall j :: 0 <= j < |seg| ==> seg[j].Read?
    ensures Writes(seg) == []
  {
    if seg != [] {
      ReadsWriteNothing(seg[..|seg| - 1]);
    }
  }

  /** Each access emits its own write, adjusted, and a soft reset one more. */
  lemma SegmentWrites(ios: seq<RegIo>, segs: seq<seq<Effect>>, i: nat, st: Start)
    requires SegmentOk(ios, segs, i, st, Completed)
    ensures Writes(segs[i]) == Emitted(ios, segs, i, st)
  {
    var io, flush, lo := ios[i], LastFlush(ios, segs, i, st.flush), LastLo(ios, i, st.lo);
    if io.isRead {
      AllReads(io, segs[i], Completed);
      ReadsWriteNothing(segs[i]);
    } else {
      WriteSegmentWrites(io, st.transtab, flush, lo, BeforeOf(segs[i]));
    }
  }

  lemma WriteSegmentWrites(io: RegIo, transtab: nat, flush: Reg, lo: Reg, before: seq<Byte>)
    requires |before| == HEAD_SIZE
    ensures Writes(WriteSegment(io, transtab, flush, lo, before)) ==
      [(io.offset, Adjusted(io, transtab, flush))] + if SoftReset(io) then [(GPU_IRQ_MASK, RESET_IRQ_MASK)] else []
  {
    var head := if io.offset == JS_HEAD_NEXT_HI then [HeadEffect(JobAddr(io.value, lo), before)] else [];
    var main := [Write(io.offset, Adjusted(io, transtab, flush))];
    WritesConcat(head + main, Aftermath(io));
    WritesConcat(head, main);
  }

  /** The register writes of the first n accesses. */
  function EmittedUpTo(ios: seq<RegIo>, segs: seq<seq<Effect>>, n: nat, st: Start): seq<(Reg, Reg)>
    requires n <= |ios| && n <= |segs|
  {
    if n == 0 then [] else EmittedUpTo(ios, segs, n - 1, st) + Emitted(ios, segs, n - 1, st)
  }

  /**
   The writes the hardware sees are exactly the adjusted recorded ones, in order,
   plus the interrupt masks after soft resets.
   */
  lemma {:induction false} RegisterWrites(ios: seq<RegIo>, segs: seq<seq<Effect>>, n: nat, st: Start)
    requires Replays(ios, segs, st) && n <= |ios|
    ensures Writes(Concat(segs[..n])) == EmittedUpTo(ios, segs, n, st)
  {
    if n == 0 {
      assert segs[..0] == [];
    } else {
      RegisterWrites(ios, segs, n - 1, st);
      NextWrites(ios, segs, n - 1, st);
    }
  }

  lemma NextWrites(ios: seq<RegIo>, segs: seq<seq<Effect>>, i: nat, st: Start)
    requires Replays(ios, segs, st) && i < |ios|
    ensures Writes(Concat(segs[..i + 1])) == Writes(Concat(segs[..i])) + Emitted(ios, segs, i, st)
  {
    ConcatUpTo(segs, i);
    WritesConcat(Concat(segs[..i]), segs[i]);
    SegmentWrites(ios, segs, i, st);
  }

  lemma ConcatUpTo(segs: seq<seq<Effect>>, i: nat)
    requires i < |segs|
    ensures Concat(segs[..i + 1]) == Concat(segs[..i]) + segs[i]
  {
    assert segs[..i + 1][..i] == segs[..i];
  }

  lemma PlainEmitted(ios: seq<RegIo>, segs: seq<seq<Effect>>, i: nat, st: Start)
    requires i < |ios| && i < |segs|
    ensures Plain(Emitted(ios, segs, i, st)) == Plain(RecordedAt(ios[i]))
  {
    var ws := Emitted(ios, segs, i, st);
    if !ios[i].isRead {
      PlainConcat(ws[..1], ws[1..]);
      assert ws == ws[..1] + ws[1..];
      if |ws| > 1 {
        assert ws[1..] == [(GPU_IRQ_MASK, RESET_IRQ_MASK)];
      }
    }
  }

  lemma {:induction false} PlainEmittedUpTo(ios: seq<RegIo>, segs: seq<seq<Effect>>, n: nat, st: Start)
    requires n <= |ios| && n <= |segs|
    ensures Plain(EmittedUpTo(ios, segs, n, st)) == Plain(Recorded(ios[..n]))
  {
    if n > 0 {
      PlainEmittedUpTo(ios, segs, n - 1, st);
      PlainEmitted(ios, segs, n - 1, st);
      PlainConcat(EmittedUpTo(ios, segs, n - 1, st), Emitted(ios, segs, n - 1, st));
      assert ios[..n][..n - 1] == ios[..n - 1];
      PlainConcat(Recorded(ios[..n - 1]), RecordedAt(ios[n - 1]));
    }
  }

  /** Outside four registers the hardware sees the recorded writes verbatim and in order. */
  lemma PlainWritesVerbatim(ios: seq<RegIo>, segs: seq<seq<Effect>>, st: Start)
    requires Replays(ios, segs, st)
    ensures Plain(Writes(Concat(segs))) == Plain(Recorded(ios))
  {
    RegisterWrites(ios, segs, |ios|, st);
    PlainEmittedUpTo(ios, segs, |ios|, st);
    assert segs[..|ios|] == segs && ios[..|ios|] == ios;
  }

  /** The hardware is never pointed at the recorded page table. */
  lemma OnlyNewTable(ios: seq<RegIo>, segs: seq<seq<Effect>>, i: nat, st: Start, e: Effect)
    requires st.transtab < 0x1_0000_0000_0000_0000
    requires SegmentOk(ios, segs, i, st, Completed) && e in segs[i] && e.Write?
    ensures e.offset == AS_TRANSTAB_LO ==> e.value == st.transtab % 0x1_0000_0000
    ensures e.offset == AS_TRANSTAB_HI ==> e.value == st.transtab / 0x1_0000_0000
  {
    if ios[i].isRead {
      AllReads(ios[i], segs[i], Completed);
    }
  }

  /** Job submissions wait for the job interrupt before anything else happens. */
  ghost predicate SubmitsWait(tr: seq<Effect>) {
    forall k :: 0 <= k < |tr| && tr[k].Write? && tr[k].offset == JS_COMMAND_NEXT ==>
      k + 1 < |tr| && tr[k + 1] == WaitJobIrq
  }

  lemma {:induction false} EverySubmitWaits(ios: seq<RegIo>, segs: seq<seq<Effect>>, n: nat, st: Start)
    requires Replays(ios, segs, st) && n <= |ios|
    ensures SubmitsWait(Concat(segs[..n]))
  {
    if n > 0 {
      EverySubmitWaits(ios, segs, n - 1, st);
      var tr, seg := Concat(segs[..n - 1]), segs[n - 1];
      assert segs[..n][..n - 1] == segs[..n - 1];
      SegmentSubmitWaits(ios, segs, n - 1, st);
      var both: seq<Effect> := tr + seg;
      forall k | 0 <= k < |both| && both[k].Write? && both[k].offset == JS_COMMAND_NEXT
        ensures k + 1 < |both| && both[k + 1] == WaitJobIrq
      {
        if k < |tr| {
          assert tr[k + 1] == WaitJobIrq;
        } else {
          assert seg[k - |tr|].offset == JS_COMMAND_NEXT;
        }
      }
    }
  }

  lemma SegmentSubmitWaits(ios: seq<RegIo>, segs: seq<seq<Effect>>, i: nat, st: Start)
    requires SegmentOk(ios, segs, i, st, Completed)
    ensures SubmitsWait(segs[i])
  {
    if ios[i].isRead {
      AllReads(ios[i], segs[i], Completed);
    }
  }

  /**
   What each recorded write makes the hardware see, register by register. The value
   of a write to 0x18F0 and the address of a job header are those of FlushSeen and
   HeadAddressSeen.
   */
  lemma WriteSeen(ios: seq<RegIo>, segs: seq<seq<Effect>>, i: nat, st: Start)
    requires SegmentOk(ios, segs, i, st, Completed) && !ios[i].isRead
    ensures var o, v, seg := ios[i].offset, ios[i].value, segs[i];
            if o == 0x18C4 then |seg| == 2 && seg[0].ZeroJob? && seg[1] == Write(0x18C4, v)
            else if o == 0x18E0 then seg == [Write(0x18E0, v), WaitJobIrq]
            else if o == 0x18F0 then |seg| == 1 && seg[0].Write? && seg[0].offset == 0x18F0
            else if o == 0x2400 then seg == [Write(0x2400, st.transtab % 0x1_0000_0000)]
            else if o == 0x2404 then seg == [Write(0x2404, st.transtab / 0x1_0000_0000 % 0x1_0000_0000)]
            else if o == 0x30 && v == 1 then seg == [Write(0x30, 1), Write(0x28, 0x100)]
            else seg == [Write(o, v)]
  {
  }

  /** Access j is a recorded read of the flush id or of the address-space status. */
  predicate ReadsFlush(ios: seq<RegIo>, j: int) {
    0 <= j < |ios| && ios[j].isRead && (ios[j].offset == 0x38 || ios[j].offset == 0x2428)
  }

  /** The value written to 0x18F0 is the first answer to the last such read before it, or the initial one. */
  lemma FlushSeen(ios: seq<RegIo>, segs: seq<seq<Effect>>, i: nat, j: int, st: Start)
    requires AllOk(ios, segs, i + 1, st) && i < |ios| && !ios[i].isRead && ios[i].offset == 0x18F0
    requires -1 <= j < i && (j >= 0 ==> ReadsFlush(ios, j)) && forall k :: j < k < i ==> !ReadsFlush(ios, k)
    ensures j >= 0 ==> segs[j] != [] && segs[j][0].Read? && segs[j][0].offset == ios[j].offset
    ensures segs[i] == [Write(0x18F0, if j >= 0 then segs[j][0].value else st.flush)]
  {
    assert SegmentOk(ios, segs, i, st, Completed);
    if j >= 0 {
      assert SegmentOk(ios, segs, j, st, Completed);
    }
    LastFlushIs(ios, segs, i, j, st.flush);
  }

  lemma {:induction false} LastFlushIs(ios: seq<RegIo>, segs: seq<seq<Effect>>, i: nat, j: int, init: Reg)
    requires i <= |ios| && i <= |segs| && -1 <= j < i && forall k :: j < k < i ==> !ReadsFlush(ios, k)
    requires j >= 0 ==> ReadsFlush(ios, j) && segs[j] != [] && segs[j][0].Read?
    ensures LastFlush(ios, segs, i, init) == if j >= 0 then segs[j][0].value else init
  {
    if j < i - 1 {
      assert !ReadsFlush(ios, i - 1);
      LastFlushIs(ios, segs, i - 1, j, init);
    }
  }

  /** Access j is a recorded write of the low word of a job address. */
  predicate WritesLow(ios: seq<RegIo>, j: int) {
    0 <= j < |ios| && !ios[j].isRead && ios[j].offset == 0x18C0
  }

  /** A job address is made of its high word and the last low word written before it, or before the run. */
  lemma HeadAddressSeen(ios: seq<RegIo>, segs: seq<seq<Effect>>, i: nat, j: int, st: Start)
    requires SegmentOk(ios, segs, i, st, Completed) && !ios[i].isRead && ios[i].offset == 0x18C4
    requires -1 <= j < i && (j >= 0 ==> WritesLow(ios, j)) && forall k :: j < k < i ==> !WritesLow(ios, k)
    ensures |segs[i]| == 2 && segs[i][0].ZeroJob?
    ensures segs[i][0].gaddr == ios[i].value * 0x1_0000_0000 + if j >= 0 then ios[j].value else st.lo
  {
    LastLoIs(ios, i, j, st.lo);
  }

  lemma {:induction false} LastLoIs(ios: seq<RegIo>, i: nat, j: int, init: Reg)
    requires i <= |ios| && -1 <= j < i && (j >= 0 ==> WritesLow(ios, j)) && forall k :: j < k < i ==> !WritesLow(ios, k)
    ensures LastLo(ios, i, init) == if j >= 0 then ios[j].value else init
  {
    if j < i - 1 {
      assert !WritesLow(ios, i - 1);
      LastLoIs(ios, i - 1, j, init);
    }
  }

  /**
   What a recorded read makes the hardware see: one read, and where the recording saw
   the address space busy further ones of its status, up to the first that shows it idle
   and fewer than 100,000,000 of them.
   */
  lemma ReadSeen(ios: seq<RegIo>, segs: seq<seq<Effect>>, i: nat, st: Start)
    requires SegmentOk(ios, segs, i, st, Completed) && ios[i].isRead
    ensures var seg := segs[i];
            && seg != [] && (forall k :: 0 <= k < |seg| ==> seg[k].Read? && seg[k].offset == ios[i].offset)
            && if ios[i].offset == 0x2428 && ios[i].value == 1 then
                 && 2 <= |seg| <= 100_000_000 && seg[|seg| - 1].value == 0
                 && forall k :: 0 < k < |seg| - 1 ==> seg[k].value != 0
               else |seg| == 1
  {
    WaitSeen(ios[i], segs[i], Completed);
  }

  lemma WaitSeen(io: RegIo, seg: seq<Effect>, stop: Stop)
    requires ReadSegment(io, seg, stop)
    ensures forall k :: 0 <= k < |seg| ==> seg[k].Read? && seg[k].offset == io.offset
    ensures AwaitsIdle(io) ==> forall k :: 0 < k < |seg| - 1 ==> seg[k].value != 0
  {
    forall k | 0 < k < |seg|
      ensures seg[k].Read? && seg[k].offset == io.offset && (AwaitsIdle(io) && k < |seg| - 1 ==> seg[k].value != 0)
    {
      assert seg[1..][k - 1] == seg[k];
    }
  }

  /**
   How a run gets stuck: 100,000,000 further reads of a status recorded as busy, of which at
   most the last shows it idle. It stops at a job header only where the high word is written.
   */
  lemma StuckSeen(ios: seq<RegIo>, segs: seq<seq<Effect>>, i: nat, st: Start, stop: Stop)
    requires SegmentOk(ios, segs, i, st, stop)
    ensures stop.Stuck? ==>
      && ios[i].isRead && ios[i].offset == 0x2428 && ios[i].value == 1 && |segs[i]| == 100_000_001
      && (forall k :: 0 <= k <= 100_000_000 ==> segs[i][k].Read? && segs[i][k].offset == 0x2428)
      && (forall k :: 0 < k < 100_000_000 ==> segs[i][k].value != 0)
    ensures stop.BadHead? ==> !ios[i].isRead && ios[i].offset == 0x18C4 && segs[i] == []
  {
    if ios[i].isRead {
      WaitSeen(ios[i], segs[i], stop);
    }
  }

  /** Memory changes only when a job header is copied to or a job runs. */
  lemma MemoryKept(ios: seq<RegIo>, segs: seq<seq<Effect>>, mems: seq<Mem>, root: Shadow, st: Start, i: nat)
    requires MemRun(ios, segs, mems, root, st) && i < |segs|
    requires ios[i].isRead || (ios[i].offset != 0x18C4 && ios[i].offset != 0x18E0)
    ensures mems[i + 1] == mems[i]
  {
    assert StepAt(ios, segs, mems, st, i);
  }

  /**
   Whenever a job address is completed, the header was copied to just before: its
   eight bytes, read by the GPU through its tables, are then zero unless they cross
   a page, and then only if the part in the next page was zero already.
   */
  lemma EveryHeadZeroed(ios: seq<RegIo>, segs: seq<seq<Effect>>, mems: seq<Mem>, root: Shadow, st: Start, i: nat)
    requires Replays(ios, segs, st) && MemRun(ios, segs, mems, root, st)
    requires i < |ios| && !ios[i].isRead && ios[i].offset == 0x18C4
    ensures |segs[i]| == 2 && segs[i][0].ZeroJob? && segs[i][1] == Write(0x18C4, ios[i].value)
    ensures var gaddr, before, after := segs[i][0].gaddr, segs[i][0].before, segs[i][0].after;
            && |before| == |after| == 8 && RegionAt(st.rs, gaddr) >= 0
            && before == HeadBytes(mems[i], st.rs, gaddr) && HeadSeen(root.phys, mems[i + 1], st.rs, gaddr, after)
            && ((forall k :: 0 <= k < 8 ==> after[k] == 0) <==>
              gaddr % 4096 <= 4088 || forall k :: 4096 - gaddr % 4096 <= k < 8 ==> before[k] == 0)
  {
    var gaddr, seg := JobAddr(ios[i].value, LastLo(ios, i, st.lo)), segs[i];
    assert SegmentOk(ios, segs, i, st, Completed);
    assert StepAt(ios, segs, mems, st, i);
    ZeroedHeadIff(gaddr, BeforeOf(seg));
    HeadIsSeen(root, mems[i + 1], st.rs, gaddr);
    AllZero(seg[0].after);
  }

  lemma AllZero(b: seq<Byte>)
    requires |b| == 8
    ensures b == HeadZeros() <==> forall k :: 0 <= k < 8 ==> b[k] == 0
  {
    if b == HeadZeros() {
      forall k | 0 <= k < 8
        ensures b[k] == 0
      {
        assert b[k] == HeadZeros()[k];
      }
    }
  }

  /** Every translation is right in every memory of a run. */
  lemma TranslatesThroughout(ios: seq<RegIo>, segs: seq<seq<Effect>>, mems: seq<Mem>, root: Shadow, st: Start)
    requires MemRun(ios, segs, mems, root, st) && root.Shadow?
    ensures forall i :: 0 <= i < |mems| ==> TranslatesAll(mems[i], root.phys, st.rs)
  {
    forall i | 0 <= i < |mems|
      ensures TranslatesAll(mems[i], root.phys, st.rs)
    {
      assert Live(root, mems[i], st.rs);
      MappedTranslates(root, mems[i], st.rs);
    }
  }

  /** gr_rctx_init. */
  method InitReplayer(m: Machine, dump: seq<Word>, ghost t: Tree, recs: seq<RegionRecord>,
                      answers: nat -> Reg, results: nat -> seq<PageWrite>)
    returns (r: Replayer)
    requires t.Node? && WfTree(t, 0) && DumpAt(dump, 0, t) && DumpsAgree(t, recs)
    requires m.Valid() && Count(t) + TotalEnts(recs) <= |m.supply|
    modifies m
    ensures fresh(r) && r.ctx.m == m && r.Valid() && Initialised(t, r.ctx.root, m.mem, r.ctx.regions, recs)
    ensures r.trace == [] && r.Now() == Start(r.ctx.regions, r.ctx.root.phys as nat, 0, 0)
  {
    var ctx := InitReady(m, dump, t, recs);
    r := new Replayer(ctx, answers, results);
  }

  /**
   gr_rctx_init and gr_replay_run: from the two dumps and the register log to what
   the hardware sees. The run starts from the recorded contents, and before every
   access, whatever jobs have done, every backed page translates to the page that
   backs it.
   */
  method InitThenReplay(m: Machine, dump: seq<Word>, ghost t: Tree, recs: seq<RegionRecord>, ios: seq<RegIo>,
                        answers: nat -> Reg, results: nat -> seq<PageWrite>)
    returns (r: Replayer, stop: Stop, ghost segs: seq<seq<Effect>>, ghost mems: seq<Mem>, ghost st: Start)
    requires t.Node? && WfTree(t, 0) && DumpAt(dump, 0, t) && DumpsAgree(t, recs)
    requires m.Valid() && Count(t) + TotalEnts(recs) <= |m.supply|
    modifies m
    ensures r.Valid() && r.trace == Concat(segs) && st == Start(r.ctx.regions, r.ctx.root.phys as nat, 0, 0)
    ensures SegmentsEnd(ios, segs, st, stop) && (stop.Completed? ==> Replays(ios, segs, st))
    ensures MemRun(ios, segs, mems, r.ctx.root, st) && Initialised(t, r.ctx.root, mems[0], st.rs, recs)
    ensures forall i :: 0 <= i < |mems| ==> TranslatesAll(mems[i], r.ctx.root.phys, st.rs)
  {
    r := InitReplayer(m, dump, t, recs, answers, results);
    st := r.Now();
    stop, segs, mems := r.Run(ios);
    TranslatesThroughout(ios, segs, mems, r.ctx.root, st);
    assert [] + Concat(segs) == Concat(segs);
  }
}
