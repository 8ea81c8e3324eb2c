/** The kernel request protocol (daemon/indirect.c:552-890, daemon/direct.c:951-1494).

    A handler reads a packet and either answers the kernel itself or hands the packet's token
    to a detached worker, through a `pending_args` block that it frees once the worker has
    signalled that it took its copy.  Each handler and worker is a thread of small steps
    between which any other thread may run; system calls and lookups are choices of the
    environment.
 */
module KernelRequests {
  import opened Options

  datatype Kind = MissingIndirect | ExpireIndirect | MissingDirect | ExpireDirect

  predicate Missing(k: Kind) { k.MissingIndirect? || k.MissingDirect? }
  predicate Direct(k: Kind) { k.MissingDirect? || k.ExpireDirect? }

  datatype Reply = Ready | Fail(status: int)

  /** One send_ready or send_fail on a token. */
  datatype Answer = Answer(token: nat, reply: Reply)

  const ENOENT := 2
  const ENOMEM := 12
  const EINVAL := 22
  const ENAMETOOLONG := 36

  // ----- locks

  datatype Mode = Read | Write
  datatype Hold = Hold(mc: nat, mode: Mode)

  /** What one thread holds: the master mutex, the source lock of its point, a map entry cache
      lock, and the mutex of its request's pending arguments. */
  datatype Locks = Locks(master: bool, source: Option<Mode>, cache: Option<Hold>, pending: bool)

  const NOTHING := Locks(false, None, None, false)

  // ----- threads

  /** Why a handler is finished. */
  datatype End = Handed | Answered(reply: Reply) | Silent

  datatype Pc =
    | WantMaster
    | Check
    | WantSource
    | Scan(maps: seq<nat>)
    | WantCache(maps: seq<nat>)
    | Peek(maps: seq<nat>)
    | Found(mc: nat)
    | Opened(mc: nat)
    | Alloc
    | Create
    | Release
    | Clear
    | Test
    | Waiting
    | Done(end: End)

  /** The worker's own copy of the pending arguments. */
  datatype Copy = Copy(token: nat, mc: nat)

  datatype WorkerPc =
    | NoWorker
    | WantPending
    | Locked
    | Working(args: Copy)
    | WantEntry(args: Copy)
    | AtEntry(args: Copy)
    | Exiting(args: Copy, status: int)
    | WantAfter(args: Copy, reply: Reply)
    | AtAfter(args: Copy, reply: Reply)
    | Ended(reply: Reply)

  /** The pending_args block. */
  datatype Block = Unallocated | Block(token: nat, mc: nat, signaled: bool) | Freed

  datatype Req = Req(
    kind: Kind, ap: nat, token: nat, maps: seq<nat>, sourceMode: Mode,
    h: Pc, held: Locks, mc: nat,
    block: Block,
    w: WorkerPc, wheld: Locks)

  /** What the environment decides at a step. */
  datatype Outcome = Works | Fails(errno: int) | TooLong | NotATrigger | Cancelled

  datatype Env = Env(
    stale: bool, found: bool, shutdown: bool, refused: bool, tooLong: bool,
    hasFd: bool, opens: bool, allocates: bool, garbage: bool, createError: nat,
    outcome: Outcome)

  /** The mode in which the source lock and the cache locks are taken. */
  function SourceMode(k: Kind, newKernel: bool): Mode {
    if k.MissingDirect? && newKernel then Read else Write
  }

  function CacheMode(k: Kind): Mode {
    if k.ExpireDirect? then Write else Read
  }

  /** A packet just read from the kernel. */
  function Arrived(kind: Kind, ap: nat, token: nat, maps: seq<nat>, newKernel: bool): Req {
    Req(kind, ap, token, maps, SourceMode(kind, newKernel),
        if Missing(kind) then WantMaster else if kind.ExpireDirect? then WantSource else Alloc,
        NOTHING, 0, Unallocated, NoWorker, NOTHING)
  }

  // ----- handlers

  /** Unlock the cache, the source and the master locks, as the kind of request took them. */
  function UnlockAll(r: Req): Locks {
    match r.kind
    case MissingIndirect => r.held.(master := false)
    case ExpireIndirect => r.held
    case MissingDirect => r.held.(cache := None, source := None, master := false)
    case ExpireDirect => r.held.(cache := None, source := None)
  }

  function Answering(r: Req, held: Locks, reply: Reply): (Req, seq<Answer>) {
    (r.(h := Done(Answered(reply)), held := held), [Answer(r.token, reply)])
  }

  function Quiet(r: Req, held: Locks): (Req, seq<Answer>) {
    (r.(h := Done(Silent), held := held), [])
  }

  function Going(r: Req, h: Pc): (Req, seq<Answer>) {
    (r.(h := h), [])
  }

  /** The lock the handler's next step has to wait for. */
  function HandlerWants(r: Req): Locks {
    match r.h
    case WantMaster => NOTHING.(master := true)
    case WantSource => NOTHING.(source := Some(r.sourceMode))
    case WantCache(maps) => if maps == [] then NOTHING else NOTHING.(cache := Some(Hold(maps[0], CacheMode(r.kind))))
    case Waiting => NOTHING.(pending := true)
    case _ => NOTHING
  }

  /** The map source is searched for the entry, each cache locked while it is looked at. */
  function SearchStep(r: Req, e: Env): (Req, seq<Answer>)
    requires r.h.Scan? || r.h.WantCache? || r.h.Peek?
  {
    match r.h
    case Scan(maps) =>
      if maps == [] then
        (match r.kind
         case MissingDirect => Quiet(r, r.held.(source := None, master := false))
         case ExpireDirect => Quiet(r, r.held.(source := None))
         case _ => Going(r, Alloc))
      else if r.kind.MissingDirect? && e.stale then Going(r, Scan(maps[1..]))
      else Going(r, WantCache(maps))
    case WantCache(maps) =>
      if maps == [] then Going(r, Scan([]))
      else Going(r.(held := r.held.(cache := Some(Hold(maps[0], CacheMode(r.kind))))), Peek(maps))
    case Peek(maps) =>
      if maps == [] then Going(r, Scan([]))
      else if e.found then Going(r, Found(maps[0]))
      else Going(r.(held := r.held.(cache := None)), Scan(maps[1..]))
  }

  /** The entry is there: refuse the request, answer it at once, or go on. */
  function EntryStep(r: Req, e: Env): (Req, seq<Answer>)
    requires r.h.Found? || r.h.Opened?
  {
    match r.h
    case Found(mc) =>
      (match r.kind
       case MissingDirect => if !e.opens then Quiet(r, UnlockAll(r)) else Going(r, Opened(mc))
       case ExpireDirect =>
         if e.tooLong then Quiet(r, UnlockAll(r))
         else if e.hasFd then Going(r.(mc := mc), Alloc)
         else if !e.opens then Quiet(r, UnlockAll(r))
         else Answering(r, UnlockAll(r), Ready)
       case _ =>
         if e.refused then Answering(r, r.held.(cache := None, master := false), Fail(-ENOENT))
         else Going(r.(held := r.held.(cache := None)), Alloc))
    case Opened(mc) =>
      if e.shutdown || e.refused then Answering(r, UnlockAll(r), Fail(-ENOENT))
      else if e.tooLong then Answering(r, UnlockAll(r), Fail(-ENAMETOOLONG))
      else Going(r.(mc := mc), Alloc)
  }

  /** From the allocation of the pending arguments to their release. */
  function HandOffStep(r: Req, e: Env): (Req, seq<Answer>)
    requires r.h.Alloc? || r.h.Create? || r.h.Release? || r.h.Clear? || r.h.Test? || r.h.Waiting?
  {
    match r.h
    case Alloc =>
      if !e.allocates then Answering(r, UnlockAll(r), Fail(-ENOMEM))
      else Going(r.(block := Block(r.token, r.mc, !Missing(r.kind) && e.garbage),
                    held := r.held.(pending := true)), Create)
    case Create =>
      if e.createError != 0 then
        Answering(r.(block := Freed), UnlockAll(r).(pending := false), Fail(0 - e.createError))
      else Going(r.(w := WantPending), Release)
    case Release => Going(r.(held := UnlockAll(r)), Clear)
    case Clear => Going(if r.block.Block? then r.(block := r.block.(signaled := false)) else r, Test)
    case Test =>
      var r' := r.(held := r.held.(pending := false));
      if r.block.Block? && r.block.signaled then Going(r'.(block := Freed), Done(Handed)) else Going(r', Waiting)
    case Waiting => Going(r.(held := r.held.(pending := true)), Test)
  }

  function HandlerStep(r: Req, e: Env): (Req, seq<Answer>) {
    match r.h
    case WantMaster =>
      Going(r.(held := r.held.(master := true)), if r.kind.MissingDirect? then WantSource else Check)
    case Check =>
      if e.shutdown then Answering(r, r.held.(master := false), Fail(-ENOENT)) else Going(r, Scan(r.maps))
    case WantSource => Going(r.(held := r.held.(source := Some(r.sourceMode))), Scan(r.maps))
    case Scan(_) => SearchStep(r, e)
    case WantCache(_) => SearchStep(r, e)
    case Peek(_) => SearchStep(r, e)
    case Found(_) => EntryStep(r, e)
    case Opened(_) => EntryStep(r, e)
    case Done(_) => (r, [])
    case _ => HandOffStep(r, e)
  }

  // ----- workers

  function WorkerWants(r: Req): Locks {
    match r.w
    case WantPending => NOTHING.(pending := true)
    case WantEntry(a) => NOTHING.(cache := Some(Hold(a.mc, Write)))
    case WantAfter(a, _) => NOTHING.(cache := Some(Hold(a.mc, Read)))
    case _ => NOTHING
  }

  function Sending(r: Req, a: Copy, reply: Reply): (Req, seq<Answer>) {
    (r.(w := Ended(reply)), [Answer(a.token, reply)])
  }

  /** The mount or the expire itself, do_mount_* and do_expire_*; a check that the kind of
      request does not make counts as an exit like that of a cancelled thread */
  function WorkStep(r: Req, a: Copy, o: Outcome): (Req, seq<Answer>) {
    match o
    case Cancelled => (r.(w := Exiting(a, 0)), [])
    case TooLong =>
      if r.kind.MissingIndirect? then (r.(w := Exiting(a, -ENAMETOOLONG)), []) else (r.(w := Exiting(a, 0)), [])
    case NotATrigger =>
      if r.kind.MissingDirect? then (r.(w := Exiting(a, -EINVAL)), []) else (r.(w := Exiting(a, 0)), [])
    case Works => if Direct(r.kind) then (r.(w := WantEntry(a)), []) else Sending(r, a, Ready)
    case Fails(errno) =>
      if r.kind.MissingDirect? then (r.(w := WantAfter(a, Fail(-ENOENT))), [Answer(a.token, Fail(-ENOENT))])
      else if r.kind.ExpireIndirect? then Sending(r, a, Fail(-errno))
      else Sending(r, a, Fail(-ENOENT))
  }

  /** The cleanup handlers mount_send_status and expire_send_fail */
  function CleanupReply(k: Kind, status: int): Reply {
    if !Missing(k) then Fail(-ENOENT) else if status != 0 then Fail(status) else Ready
  }

  function WorkerStep(r: Req, e: Env): (Req, seq<Answer>) {
    match r.w
    case NoWorker => (r, [])
    case WantPending => (r.(w := Locked, wheld := r.wheld.(pending := true)), [])
    case Locked =>
      if !r.block.Block? then (r, [])
      else (r.(w := Working(Copy(r.block.token, r.block.mc)), block := r.block.(signaled := true),
               wheld := r.wheld.(pending := false)), [])
    case Working(a) => WorkStep(r, a, e.outcome)
    case WantEntry(a) => (r.(w := AtEntry(a), wheld := r.wheld.(cache := Some(Hold(a.mc, Write)))), [])
    case AtEntry(a) => Sending(r.(wheld := r.wheld.(cache := None)), a, Ready)
    case Exiting(a, status) => Sending(r, a, CleanupReply(r.kind, status))
    case WantAfter(a, x) => (r.(w := AtAfter(a, x), wheld := r.wheld.(cache := Some(Hold(a.mc, Read)))), [])
    case AtAfter(a, x) => (r.(w := Ended(x), wheld := r.wheld.(cache := None)), [])
    case Ended(_) => (r, [])
  }

  // ----- the system

  /** Every request so far and every answer sent. */
  datatype Sys = Sys(reqs: seq<Req>, log: seq<Answer>)

  predicate Both(a: Option<Mode>, b: Option<Mode>) {
    a.Some? && b.Some? && (a.value.Write? || b.value.Write?)
  }

  /** The two lock sets cannot be held at once; `same` says that the request is the same. */
  predicate Clash(ap: nat, a: Locks, bp: nat, b: Locks, same: bool) {
    || (a.master && b.master)
    || (ap == bp && Both(a.source, b.source))
    || (a.cache.Some? && b.cache.Some? && a.cache.value.mc == b.cache.value.mc
        && (a.cache.value.mode.Write? || b.cache.value.mode.Write?))
    || (same && a.pending && b.pending)
  }

  predicate Clear1(i: nat, ap: nat, want: Locks, j: nat, q: Req) {
    !Clash(ap, want, q.ap, q.held, i == j) && !Clash(ap, want, q.ap, q.wheld, i == j)
  }

  /** A lock that request `i` wants is free. */
  predicate Free(s: Sys, i: nat, want: Locks)
    requires i < |s.reqs|
  {
    forall j :: 0 <= j < |s.reqs| ==> Clear1(i, s.reqs[i].ap, want, j, s.reqs[j])
  }

  datatype Event =
    | Packet(kind: Kind, ap: nat, token: nat, maps: seq<nat>, newKernel: bool)
    | Handler(i: nat, e: Env)
    | Worker(i: nat, e: Env)

  /** A step needs the lock it waits for; a packet's token is not that of another request. */
  predicate Enabled(s: Sys, ev: Event) {
    match ev
    case Packet(_, _, token, _, _) => forall j :: 0 <= j < |s.reqs| ==> s.reqs[j].token != token
    case Handler(i, _) => i < |s.reqs| && Free(s, i, HandlerWants(s.reqs[i]))
    case Worker(i, _) => i < |s.reqs| && Free(s, i, WorkerWants(s.reqs[i]))
  }

  function Update(s: Sys, i: nat, x: (Req, seq<Answer>)): Sys
    requires i < |s.reqs|
  {
    Sys(s.reqs[i := x.0], s.log + x.1)
  }

  function Step(s: Sys, ev: Event): Sys
    requires Enabled(s, ev)
  {
    match ev
    case Packet(kind, ap, token, maps, newKernel) =>
      s.(reqs := s.reqs + [Arrived(kind, ap, token, maps, newKernel)])
    case Handler(i, e) => Update(s, i, HandlerStep(s.reqs[i], e))
    case Worker(i, e) => Update(s, i, WorkerStep(s.reqs[i], e))
  }

  predicate Feasible(s: Sys, evs: seq<Event>)
    decreases |evs|
  {
    evs == [] || (Enabled(s, evs[0]) && Feasible(Step(s, evs[0]), evs[1..]))
  }

  function Run(s: Sys, evs: seq<Event>): Sys
    requires Feasible(s, evs)
    decreases |evs|
  {
    if evs == [] then s else Run(Step(s, evs[0]), evs[1..])
  }

  const EMPTY := Sys([], [])
}
