/** `FileVaultSource::read_at` (core/src/vfs.rs) under any number of threads and any interleaving: a
    state machine over the steps of the poison-recovering lock and of the read it guards. */
module Concurrency {
  import opened Wrappers
  import opened Bytes
  import opened Device
  import opened Plaintext

  datatype Request = Request(offset: nat, len: nat)

  /** Where a thread is in its call. The lock is held in `Locked`, `Reading` and `Fetched`. */
  datatype Phase =
    | Idle
    | Waiting(req: Request)
    | Locked(req: Request)
    | Reading(req: Request, region: seq<byte>, filled: nat)
    | Fetched(req: Request, region: seq<byte>)
    | Done(req: Request, bytes: seq<byte>)
    | Failed
    | Dead

  datatype Env = Env(data: seq<byte>, v: Layout)

  /** The shared reader's cursor, the lock, its poison flag, and the threads. */
  datatype State = State(cursor: nat, holder: Option<nat>, poisoned: bool, threads: seq<Phase>)

  datatype Action =
    | Ask(t: nat, req: Request)
    | Acquire(t: nat)
    | Begin(t: nat)
    | Transfer(t: nat, n: nat)
    | Interrupt(t: nat)
    | Finish(t: nat)
    | Fault(t: nat)
    | Decode(t: nat)
    | Panic(t: nat, cursor: nat)

  predicate Holding(p: Phase) {
    p.Locked? || p.Reading? || p.Fetched?
  }

  function Wanted(env: Env, req: Request): nat {
    Count(env.v.size, req.offset, req.len)
  }

  function Origin(env: Env, req: Request): nat {
    Physical(env.v.base, req.offset / 512)
  }

  /** Byte `k` of a fetched region, decrypted with `first` as its first sector. */
  function CutByte(v: Layout, region: seq<byte>, first: nat, k: nat): byte
    requires |region| % 512 == 0 && k < |region|
  {
    SectorBounds(k, |region|);
    v.unit(first + k / 512, region[k / 512 * 512..k / 512 * 512 + 512])[k % 512]
  }

  /** Decrypt a fetched region with its first sector as tweak and cut the requested window. */
  function Cut(v: Layout, region: seq<byte>, offset: nat, want: nat): (r: seq<byte>)
    requires want > 0 && |region| == RegionLength(offset, want)
    ensures |r| == want
    ensures forall i :: 0 <= i < want ==> r[i] == CutByte(v, region, offset / 512, offset % 512 + i)
  {
    seq<byte>(want, i requires 0 <= i < want => CutByte(v, region, offset / 512, offset % 512 + i))
  }

  predicate Enabled(env: Env, s: State, a: Action) {
    && a.t < |s.threads|
    && var p := s.threads[a.t];
       match a
       case Ask(_, _) => p.Idle? || p.Done? || p.Failed?
       case Acquire(_) => p.Waiting? && s.holder.None?
       case Begin(_) => p.Locked?
       case Transfer(_, n) => p.Reading? && 0 < n && p.filled <= |p.region|
                              && n <= |Window(env.data, s.cursor, |p.region| - p.filled)|
       case Interrupt(_) => p.Reading?
       case Finish(_) => p.Reading? && p.filled <= |p.region|
                         && Window(env.data, s.cursor, |p.region| - p.filled) == []
       case Fault(_) => p.Locked? || p.Reading?
       case Decode(_) => p.Fetched? && 0 < Wanted(env, p.req)
                         && |p.region| == RegionLength(p.req.offset, Wanted(env, p.req))
       case Panic(_, _) => Holding(p)
  }

  /** One step. A lock is granted whether or not it is poisoned; a panic leaves the cursor anywhere. */
  function Apply(env: Env, s: State, a: Action): State
    requires Enabled(env, s, a)
  {
    var p := s.threads[a.t];
    match a
    case Ask(t, req) =>
      s.(threads := s.threads[t := if env.v.size <= req.offset then Done(req, []) else Waiting(req)])
    case Acquire(t) => s.(holder := Some(t), threads := s.threads[t := Locked(p.req)])
    case Begin(t) =>
      if Wanted(env, p.req) == 0 then Release(s, t, Done(p.req, []))
      else s.(cursor := Origin(env, p.req),
              threads := s.threads[t := Reading(p.req, Zeros(RegionLength(p.req.offset, Wanted(env, p.req))), 0)])
    case Transfer(t, n) =>
      var region := p.region[..p.filled] + Window(env.data, s.cursor, n) + p.region[p.filled + n..];
      s.(cursor := s.cursor + n, threads := s.threads[t := Reading(p.req, region, p.filled + n)])
    case Interrupt(t) => s
    case Finish(t) => s.(threads := s.threads[t := Fetched(p.req, p.region)])
    case Fault(t) => Release(s, t, Failed)
    case Decode(t) => Release(s, t, Done(p.req, Cut(env.v, p.region, p.req.offset, Wanted(env, p.req))))
    case Panic(t, c) => Release(s, t, Dead).(poisoned := true, cursor := c)
  }

  function Release(s: State, t: nat, p: Phase): State
    requires t < |s.threads|
  {
    s.(holder := None, threads := s.threads[t := p])
  }

  function Execute(env: Env, s: State, actions: seq<Action>): Option<State>
    decreases |actions|
  {
    if actions == [] then Some(s)
    else if !Enabled(env, s, actions[0]) then None
    else Execute(env, Apply(env, s, actions[0]), actions[1..])
  }

  function Initial(n: nat, cursor: nat): State {
    State(cursor, None, false, seq(n, i => Idle))
  }

  /** The fetched prefix of a region: stored bytes up to `filled`, untouched zeros after it. */
  ghost predicate Prefix(env: Env, req: Request, region: seq<byte>, filled: nat) {
    && 0 < Wanted(env, req)
    && |region| == RegionLength(req.offset, Wanted(env, req))
    && filled <= |region|
    && (filled > 0 ==> Origin(env, req) + filled <= |env.data|)
    && (forall j :: 0 <= j < filled ==> region[j] == Stored(env.data, Origin(env, req) + j))
    && (forall j :: filled <= j < |region| ==> region[j] == 0)
  }

  ghost predicate Complete(env: Env, req: Request, region: seq<byte>) {
    && 0 < Wanted(env, req)
    && |region| == RegionLength(req.offset, Wanted(env, req))
    && (forall j :: 0 <= j < |region| ==> region[j] == Stored(env.data, Origin(env, req) + j))
  }

  ghost predicate PhaseOk(env: Env, cursor: nat, p: Phase) {
    match p
    case Reading(req, region, filled) => Prefix(env, req, region, filled) && cursor == Origin(env, req) + filled
    case Fetched(req, region) => Complete(env, req, region)
    case Done(req, bytes) => bytes == ReadBytes(env.data, env.v, req.offset, req.len)
    case _ => true
  }

  /** Exactly the lock holder is inside, and every thread's progress is that of a solo read. */
  ghost predicate Inv(env: Env, s: State) {
    && (s.holder.Some? ==> s.holder.value < |s.threads|)
    && (forall t :: 0 <= t < |s.threads| ==> (Holding(s.threads[t]) <==> s.holder == Some(t)))
    && (forall t :: 0 <= t < |s.threads| ==> PhaseOk(env, s.cursor, s.threads[t]))
  }

  lemma WindowStored(data: seq<byte>, pos: nat, n: nat, j: nat)
    requires n <= |Window(data, pos, n)| && j < n
    ensures Window(data, pos, n)[j] == Stored(data, pos + j) && pos + n <= |data|
  {
  }

  lemma TransferOk(env: Env, req: Request, region: seq<byte>, filled: nat, n: nat)
    requires Prefix(env, req, region, filled) && 0 < n
    requires n <= |Window(env.data, Origin(env, req) + filled, |region| - filled)|
    ensures Prefix(env, req, region[..filled] + Window(env.data, Origin(env, req) + filled, n) + region[filled + n..],
                   filled + n)
  {
    WindowSplit(env.data, Origin(env, req) + filled, |region| - filled, n);
    var w, from := Window(env.data, Origin(env, req) + filled, n), Origin(env, req) + filled;
    forall j | 0 <= j < |w| ensures w[j] == Stored(env.data, from + j) {
      WindowStored(env.data, from, n, j);
    }
  }

  lemma BeginOk(env: Env, req: Request)
    requires 0 < Wanted(env, req)
    ensures Prefix(env, req, Zeros(RegionLength(req.offset, Wanted(env, req))), 0)
  {
  }

  lemma FinishOk(env: Env, req: Request, region: seq<byte>, filled: nat)
    requires Prefix(env, req, region, filled)
    requires Window(env.data, Origin(env, req) + filled, |region| - filled) == []
    ensures Complete(env, req, region)
  {
    WindowLength(env.data, Origin(env, req) + filled, |region| - filled);
  }

  lemma CutRegionByte(env: Env, region: seq<byte>, pos: nat, first: nat, k: nat)
    requires |region| % 512 == 0 && k < |region|
    requires forall j :: 0 <= j < |region| ==> region[j] == Stored(env.data, pos + j)
    ensures CutByte(env.v, region, first, k) == RegionByte(env.data, env.v, pos, first, k)
  {
    SectorBounds(k, |region|);
    RegionSector(env.data, pos, region, k / 512 * 512);
  }

  lemma DecodeOk(env: Env, req: Request, region: seq<byte>)
    requires Complete(env, req, region)
    ensures Cut(env.v, region, req.offset, Wanted(env, req)) == ReadBytes(env.data, env.v, req.offset, req.len)
  {
    hide CutByte, RegionByte, Cut, ReadBytes;
    var want := Wanted(env, req);
    forall i | 0 <= i < want
      ensures Cut(env.v, region, req.offset, want)[i] == ReadBytes(env.data, env.v, req.offset, req.len)[i]
    {
      CutRegionByte(env, region, Origin(env, req), req.offset / 512, req.offset % 512 + i);
    }
  }

  lemma TransferPhase(env: Env, s: State, t: nat, n: nat)
    requires Enabled(env, s, Transfer(t, n)) && PhaseOk(env, s.cursor, s.threads[t])
    ensures var s' := Apply(env, s, Transfer(t, n)); PhaseOk(env, s'.cursor, s'.threads[t])
  {
    var p := s.threads[t];
    TransferOk(env, p.req, p.region, p.filled, n);
  }

  lemma DecodePhase(env: Env, s: State, t: nat)
    requires Enabled(env, s, Decode(t)) && PhaseOk(env, s.cursor, s.threads[t])
    ensures var s' := Apply(env, s, Decode(t)); PhaseOk(env, s'.cursor, s'.threads[t])
  {
    var p := s.threads[t];
    DecodeOk(env, p.req, p.region);
  }

  lemma FinishPhase(env: Env, s: State, t: nat)
    requires Enabled(env, s, Finish(t)) && PhaseOk(env, s.cursor, s.threads[t])
    ensures var s' := Apply(env, s, Finish(t)); PhaseOk(env, s'.cursor, s'.threads[t])
  {
    var p := s.threads[t];
    FinishOk(env, p.req, p.region, p.filled);
  }

  lemma BeginPhase(env: Env, s: State, t: nat)
    requires Enabled(env, s, Begin(t))
    ensures var s' := Apply(env, s, Begin(t)); PhaseOk(env, s'.cursor, s'.threads[t])
  {
    var p := s.threads[t];
    if Wanted(env, p.req) > 0 { BeginOk(env, p.req); }
  }

  /** The phase a step gives its own thread is sound. */
  lemma OwnPhase(env: Env, s: State, a: Action)
    requires Enabled(env, s, a) && PhaseOk(env, s.cursor, s.threads[a.t])
    ensures PhaseOk(env, Apply(env, s, a).cursor, Apply(env, s, a).threads[a.t])
  {
    match a
    case Transfer(t, n) => TransferPhase(env, s, t, n);
    case Finish(t) => FinishPhase(env, s, t);
    case Decode(t) => DecodePhase(env, s, t);
    case Begin(t) => BeginPhase(env, s, t);
    case Ask(_, _) =>
    case Acquire(_) =>
    case Interrupt(_) =>
    case Fault(_) =>
    case Panic(_, _) =>
  }

  /** Every step keeps the invariant. A step moves the cursor only from inside the lock, and no other
      thread inside the lock is there to be disturbed. */
  lemma StepKeepsInv(env: Env, s: State, a: Action)
    requires Inv(env, s) && Enabled(env, s, a)
    ensures Inv(env, Apply(env, s, a))
  {
    var s' := Apply(env, s, a);
    OwnPhase(env, s, a);
    forall t | 0 <= t < |s'.threads|
      ensures Holding(s'.threads[t]) <==> s'.holder == Some(t)
      ensures PhaseOk(env, s'.cursor, s'.threads[t])
    {
      assert Holding(s.threads[t]) <==> s.holder == Some(t);
      assert Holding(s.threads[a.t]) <==> s.holder == Some(a.t);
      assert PhaseOk(env, s.cursor, s.threads[t]);
    }
  }

  lemma {:induction false} RunKeepsInv(env: Env, s: State, actions: seq<Action>)
    requires Inv(env, s)
    ensures Execute(env, s, actions).Some? ==> Inv(env, Execute(env, s, actions).value)
    decreases |actions|
  {
    if actions != [] && Enabled(env, s, actions[0]) {
      StepKeepsInv(env, s, actions[0]);
      RunKeepsInv(env, Apply(env, s, actions[0]), actions[1..]);
    }
  }

  /** For any number of threads, any initial cursor and any interleaving, abandoned reads and poisoned
      locks included, every completed read returns the count and bytes of a solo read. */
  lemma CompletedReadsAreSolo(env: Env, n: nat, cursor: nat, actions: seq<Action>, t: nat)
    requires var r := Execute(env, Initial(n, cursor), actions);
             r.Some? && t < |r.value.threads| && r.value.threads[t].Done?
    ensures var done := Execute(env, Initial(n, cursor), actions).value.threads[t];
            && |done.bytes| == Count(env.v.size, done.req.offset, done.req.len)
            && done.bytes == ReadBytes(env.data, env.v, done.req.offset, done.req.len)
  {
    RunKeepsInv(env, Initial(n, cursor), actions);
    var s := Execute(env, Initial(n, cursor), actions).value;
    assert PhaseOk(env, s.cursor, s.threads[t]);
  }

  /** Two threads are never inside the lock together. */
  lemma MutualExclusion(env: Env, n: nat, cursor: nat, actions: seq<Action>, t: nat, u: nat)
    requires var r := Execute(env, Initial(n, cursor), actions);
             && r.Some? && t < |r.value.threads| && u < |r.value.threads|
             && Holding(r.value.threads[t]) && Holding(r.value.threads[u])
    ensures t == u
  {
    RunKeepsInv(env, Initial(n, cursor), actions);
  }

  /** The request a phase works on. */
  function Asked(p: Phase): Option<Request> {
    if p.Idle? || p.Failed? || p.Dead? then None else Some(p.req)
  }

  predicate IsAsk(a: Action, t: nat) { a.Ask? && a.t == t }

  lemma StepKeepsRequest(env: Env, s: State, a: Action, t: nat)
    requires Enabled(env, s, a) && t < |s.threads|
    ensures var s' := Apply(env, s, a);
            && |s'.threads| == |s.threads|
            && (if IsAsk(a, t) then Asked(s'.threads[t]) == Some(a.req)
                else Asked(s'.threads[t]).None? || Asked(s'.threads[t]) == Asked(s.threads[t]))
  {
    hide Cut, Wanted, Origin, Window;
  }

  lemma {:induction false} RunKeepsRequest(env: Env, s: State, actions: seq<Action>, t: nat) returns (i: int)
    requires Execute(env, s, actions).Some? && t < |s.threads|
    ensures var s' := Execute(env, s, actions).value;
            && |s'.threads| == |s.threads| && -1 <= i < |actions|
            && (forall j :: i < j < |actions| ==> !IsAsk(actions[j], t))
            && (i >= 0 ==> IsAsk(actions[i], t))
            && (Asked(s'.threads[t]).Some? ==>
                  Asked(s'.threads[t]) == if i >= 0 then Some(actions[i].req) else Asked(s.threads[t]))
    decreases |actions|
  {
    hide Apply, Enabled;
    i := -1;
    if actions != [] {
      StepKeepsRequest(env, s, actions[0], t);
      var k := RunKeepsRequest(env, Apply(env, s, actions[0]), actions[1..], t);
      i := if k >= 0 then k + 1 else if IsAsk(actions[0], t) then 0 else -1;
      assert forall j :: 1 <= j < |actions| ==> actions[j] == actions[1..][j - 1];
    }
  }

  /** A completed read answers the request that its thread made last. */
  lemma AnswersLastRequest(env: Env, n: nat, cursor: nat, actions: seq<Action>, t: nat) returns (i: nat)
    requires var r := Execute(env, Initial(n, cursor), actions);
             r.Some? && t < |r.value.threads| && r.value.threads[t].Done?
    ensures i < |actions| && actions[i] == Ask(t, Execute(env, Initial(n, cursor), actions).value.threads[t].req)
    ensures forall j :: i < j < |actions| ==> !(actions[j].Ask? && actions[j].t == t)
  {
    hide Execute;
    SameThreads(env, Initial(n, cursor), actions);
    var k := RunKeepsRequest(env, Initial(n, cursor), actions, t);
    i := k;
  }

  lemma {:induction false} SameThreads(env: Env, s: State, actions: seq<Action>)
    requires Execute(env, s, actions).Some?
    ensures |Execute(env, s, actions).value.threads| == |s.threads|
    decreases |actions|
  {
    hide Cut, Wanted, Origin, Window;
    if actions != [] { SameThreads(env, Apply(env, s, actions[0]), actions[1..]); }
  }

  predicate AnyDead(s: State) { exists t :: 0 <= t < |s.threads| && s.threads[t].Dead? }

  lemma StepPoisons(env: Env, s: State, a: Action)
    requires Enabled(env, s, a) && (s.poisoned <==> AnyDead(s))
    ensures var s' := Apply(env, s, a); s'.poisoned <==> AnyDead(s')
  {
    hide Cut, Wanted, Origin, Window;
    var s' := Apply(env, s, a);
    if AnyDead(s) {
      var t :| 0 <= t < |s.threads| && s.threads[t].Dead?;
      assert s'.threads[t].Dead?;
    }
    if a.Panic? { assert s'.threads[a.t].Dead?; }
  }

  /** The lock is poisoned exactly when a thread has died inside it. */
  lemma {:induction false} PoisonedIff(env: Env, s: State, actions: seq<Action>)
    requires (s.poisoned <==> AnyDead(s)) && Execute(env, s, actions).Some?
    ensures var s' := Execute(env, s, actions).value; s'.poisoned <==> AnyDead(s')
    decreases |actions|
  {
    hide Apply, Enabled, AnyDead;
    if actions != [] {
      StepPoisons(env, s, actions[0]);
      PoisonedIff(env, Apply(env, s, actions[0]), actions[1..]);
    }
  }

  // Possible progress.

  /** The step with which a thread inside the lock moves on. */
  function Next(env: Env, s: State, t: nat): Action
    requires t < |s.threads| && Holding(s.threads[t])
  {
    match s.threads[t]
    case Locked(_) => Begin(t)
    case Reading(_, region, filled) =>
      var w := if filled <= |region| then Window(env.data, s.cursor, |region| - filled) else [];
      if w == [] then Finish(t) else Transfer(t, |w|)
    case Fetched(_, _) => Decode(t)
  }

  /** How many such steps a thread still has to make, at most. */
  function Steps(env: Env, s: State, t: nat): nat
    requires t < |s.threads|
  {
    match s.threads[t]
    case Locked(_) => 4
    case Reading(_, region, filled) =>
      if filled <= |region| && Window(env.data, s.cursor, |region| - filled) != [] then 3 else 2
    case Fetched(_, _) => 1
    case _ => 0
  }

  lemma WholeTransfer(env: Env, s: State, t: nat)
    requires t < |s.threads| && s.threads[t].Reading? && s.threads[t].filled <= |s.threads[t].region|
    requires var p := s.threads[t]; Window(env.data, s.cursor, |p.region| - p.filled) != []
    ensures var a := Next(env, s, t); Enabled(env, s, a) && Steps(env, Apply(env, s, a), t) == 2
  {
    var p := s.threads[t];
    var w := Window(env.data, s.cursor, |p.region| - p.filled);
    WindowSplit(env.data, s.cursor, |p.region| - p.filled, |w|);
    assert |p.region[..p.filled] + w + p.region[p.filled + |w|..]| == |p.region|;
  }

  /** A thread inside the lock can always move on, and each step brings it nearer to its answer, for the same
      request and without touching any other thread. */
  lemma NextStep(env: Env, s: State, t: nat)
    requires Inv(env, s) && t < |s.threads| && Holding(s.threads[t])
    ensures var a := Next(env, s, t);
            && Enabled(env, s, a)
            && var s' := Apply(env, s, a);
               && |s'.threads| == |s.threads| && Steps(env, s', t) < Steps(env, s, t)
               && (forall u :: 0 <= u < |s.threads| && u != t ==> s'.threads[u] == s.threads[u])
               && (Holding(s'.threads[t]) || s'.threads[t].Done?) && s'.threads[t].req == s.threads[t].req
  {
    hide Cut, ReadBytes, Window, RegionLength;
    var p := s.threads[t];
    assert PhaseOk(env, s.cursor, p);
    if p.Reading? && Window(env.data, s.cursor, |p.region| - p.filled) != [] {
      WholeTransfer(env, s, t);
    }
  }

  lemma ExecuteCons(env: Env, s: State, a: Action, rest: seq<Action>)
    requires Enabled(env, s, a)
    ensures Execute(env, s, [a] + rest) == Execute(env, Apply(env, s, a), rest)
  {
    assert ([a] + rest)[0] == a && ([a] + rest)[1..] == rest;
  }

  lemma {:induction false} ExecuteConcat(env: Env, s: State, a: seq<Action>, b: seq<Action>)
    requires Execute(env, s, a).Some?
    ensures Execute(env, s, a + b) == Execute(env, Execute(env, s, a).value, b)
    decreases |a|
  {
    if a == [] {
      assert a + b == b;
    } else {
      ExecuteConcat(env, Apply(env, s, a[0]), a[1..], b);
      assert (a + b)[0] == a[0] && (a + b)[1..] == a[1..] + b;
    }
  }

  /** Left alone, the thread inside the lock answers and releases it. */
  lemma {:induction false} HolderCompletes(env: Env, s: State, t: nat) returns (run: seq<Action>)
    requires Inv(env, s) && t < |s.threads| && Holding(s.threads[t])
    ensures Execute(env, s, run).Some?
    ensures var s' := Execute(env, s, run).value;
            && Inv(env, s') && |s'.threads| == |s.threads|
            && s'.threads[t].Done? && s'.threads[t].req == s.threads[t].req
            && s'.holder.None?
            && (forall u :: 0 <= u < |s.threads| && u != t ==> s'.threads[u] == s.threads[u])
    decreases Steps(env, s, t)
  {
    hide Next, Apply, Enabled, Steps, PhaseOk;
    var a := Next(env, s, t);
    NextStep(env, s, t);
    StepKeepsInv(env, s, a);
    var s' := Apply(env, s, a);
    run := [];
    if Holding(s'.threads[t]) {
      run := HolderCompletes(env, s', t);
    } else {
      Released(env, s, s', t);
    }
    ExecuteCons(env, s, a, run);
    run := [a] + run;
  }

  /** Nobody is inside once the holder has left and no other thread moved. */
  lemma Released(env: Env, s: State, s': State, t: nat)
    requires Inv(env, s) && Inv(env, s') && t < |s.threads| == |s'.threads|
    requires Holding(s.threads[t]) && !Holding(s'.threads[t])
    requires forall u :: 0 <= u < |s.threads| && u != t ==> s'.threads[u] == s.threads[u]
    ensures s'.holder.None?
  {
  }

  /** No deadlock, poisoned or not: from every reachable state, a pending read has a continuation of the run in
      which it completes, and then with the bytes of a solo read. */
  lemma PendingReadsCanComplete(env: Env, n: nat, cursor: nat, actions: seq<Action>, t: nat) returns (more: seq<Action>)
    requires var r := Execute(env, Initial(n, cursor), actions);
             r.Some? && t < |r.value.threads| && (r.value.threads[t].Waiting? || Holding(r.value.threads[t]))
    ensures var req := Execute(env, Initial(n, cursor), actions).value.threads[t].req;
            var r := Execute(env, Initial(n, cursor), actions + more);
            r.Some? && t < |r.value.threads| && r.value.threads[t] == Done(req, ReadBytes(env.data, env.v, req.offset, req.len))
  {
    hide Execute, Enabled, Apply;
    RunKeepsInv(env, Initial(n, cursor), actions);
    var s := Execute(env, Initial(n, cursor), actions).value;
    more := CompletesFrom(env, s, t);
    ExecuteConcat(env, Initial(n, cursor), actions, more);
  }

  lemma CompletesFrom(env: Env, s: State, t: nat) returns (run: seq<Action>)
    requires Inv(env, s) && t < |s.threads| && (s.threads[t].Waiting? || Holding(s.threads[t]))
    ensures Execute(env, s, run).Some?
    ensures var s', req := Execute(env, s, run).value, s.threads[t].req;
            t < |s'.threads| && s'.threads[t] == Done(req, ReadBytes(env.data, env.v, req.offset, req.len))
  {
    if Holding(s.threads[t]) {
      run := HolderCompletes(env, s, t);
      DoneIsSolo(env, Execute(env, s, run).value, t);
    } else {
      var first := [];
      if s.holder.Some? {
        var h := s.holder.value;
        assert Holding(s.threads[h]) <==> s.holder == Some(h);
        first := HolderCompletes(env, s, h);
      }
      var free := Execute(env, s, first).value;
      assert free.threads[t] == s.threads[t] && free.holder.None?;
      var second := AcquireAndComplete(env, free, t);
      ExecuteConcat(env, s, first, second);
      run := first + second;
    }
  }

  lemma AcquireAndComplete(env: Env, s: State, t: nat) returns (run: seq<Action>)
    requires Inv(env, s) && t < |s.threads| && s.threads[t].Waiting? && s.holder.None?
    ensures Execute(env, s, run).Some?
    ensures var s', req := Execute(env, s, run).value, s.threads[t].req;
            t < |s'.threads| && s'.threads[t] == Done(req, ReadBytes(env.data, env.v, req.offset, req.len))
  {
    hide PhaseOk, Execute;
    var a := Acquire(t);
    StepKeepsInv(env, s, a);
    var locked := Apply(env, s, a);
    var rest := HolderCompletes(env, locked, t);
    ExecuteCons(env, s, a, rest);
    run := [a] + rest;
    DoneIsSolo(env, Execute(env, locked, rest).value, t);
  }

  lemma DoneIsSolo(env: Env, s: State, t: nat)
    requires Inv(env, s) && t < |s.threads| && s.threads[t].Done?
    ensures var p := s.threads[t]; p == Done(p.req, ReadBytes(env.data, env.v, p.req.offset, p.req.len))
  {
    assert PhaseOk(env, s.cursor, s.threads[t]);
  }
}
