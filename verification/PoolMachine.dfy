/**
  DynamicObjectPool under any interleaving of threads. A step is what one thread does between two
  points at which another may run: taking the mutex, one piece of work under it, and the `new`
  and `delete` that happen after the mutex was released.
 */
module PoolMachine {
  import opened Wrappers
  import opened ObjectPool
  import Recency

  type Tid = nat

  /** Where a thread is: Wait and Late points are outside the mutex, the others inside. */
  datatype Pc =
    | Idle
    | Wait(request: Request)
    | Locked(request: Request)
    /** setMaxSize and clear: about to test the loop condition, or between `delete top` and `pop`. */
    | Trim(request: Request)
    | TrimPop(request: Request)
    | Fill(request: Request, i: nat)
    /** acquire: about to create; release: about to delete. */
    | LateNew
    | LateDelete(late: Obj)

  datatype State = State(
    lock: Option<Tid>,
    pool: Pool,
    created: nat,
    held: set<Obj>,
    /** The objects given to `delete`, in order. */
    deleted: seq<Obj>,
    pcs: map<Tid, Pc>,
    /** The pool as it was when the mutex was last taken, and the number of objects then. */
    entry: Pool,
    since: nat)

  predicate Critical(pc: Pc) {
    pc.Locked? || pc.Trim? || pc.TrimPop? || pc.Fill?
  }

  /** The object a thread has in hand, neither pooled nor held by the program. */
  function Carried(pc: Pc): Option<Obj> {
    match pc
    case Wait(Release(o)) => Some(o)
    case Locked(Release(o)) => Some(o)
    case LateDelete(o) => Some(o)
    case _ => None
  }

  datatype Action = Call(request: Request) | Go

  /** A program releases only what it holds; a waiting thread goes on only when the mutex is free. */
  predicate Enabled(s: State, t: Tid, a: Action) {
    && t in s.pcs
    && match a
       case Call(req) => s.pcs[t].Idle? && (req.Release? ==> req.obj in s.held)
       case Go => !s.pcs[t].Idle? && (s.pcs[t].Wait? ==> s.lock.None?)
  }

  function At(s: State, t: Tid, pc: Pc): State {
    s.(pcs := s.pcs[t := pc])
  }

  function Leave(s: State, t: Tid, pc: Pc): State {
    At(s, t, pc).(lock := None)
  }

  function Top(p: Pool): Obj {
    if p.stack == [] then 0 else p.stack[|p.stack| - 1]
  }

  function Begin(s: State, t: Tid, req: Request): State {
    var s' := At(s, t, Wait(req));
    if req.Release? then s'.(held := s'.held - {req.obj}) else s'
  }

  /** The first piece of work under the mutex. */
  function Work(s: State, t: Tid, req: Request): State {
    match req
    case Acquire =>
      if s.pool.stack == [] then Leave(s, t, LateNew)
      else Leave(s, t, Idle).(pool := s.pool.(stack := Popped(s.pool.stack)), held := s.held + {Top(s.pool)})
    case Release(o) =>
      if HasRoom(s.pool) then Leave(s, t, Idle).(pool := s.pool.(stack := s.pool.stack + [o]))
      else Leave(s, t, LateDelete(o))
    case SetMaxSize(m) => At(s, t, Trim(req)).(pool := s.pool.(max := m))
    case Preallocate(count) =>
      if s.pool.max < count then Leave(s, t, Idle) else At(s, t, Fill(req, |s.pool.stack|))
    case Clear => At(s, t, Trim(req))
  }

  predicate TrimGoesOn(p: Pool, req: Request) {
    if req.SetMaxSize? then |p.stack| > p.max else p.stack != []
  }

  function Proceed(s: State, t: Tid): State
    requires t in s.pcs
  {
    match s.pcs[t]
    case Idle => s
    case Wait(req) => At(s, t, Locked(req)).(lock := Some(t), entry := s.pool, since := s.created)
    case Locked(req) => Work(s, t, req)
    case Trim(req) =>
      if TrimGoesOn(s.pool, req) then At(s, t, TrimPop(req)).(deleted := s.deleted + [Top(s.pool)])
      else Leave(s, t, Idle)
    case TrimPop(req) =>
      if s.pool.stack == [] then s
      else At(s, t, Trim(req)).(pool := s.pool.(stack := Popped(s.pool.stack)))
    case Fill(req, i) =>
      if req.Preallocate? && i < req.count then
        At(s, t, Fill(req, i + 1)).(pool := s.pool.(stack := s.pool.stack + [s.created]), created := s.created + 1)
      else Leave(s, t, Idle)
    case LateNew => At(s, t, Idle).(created := s.created + 1, held := s.held + {s.created})
    case LateDelete(o) => At(s, t, Idle).(deleted := s.deleted + [o])
  }

  function Next(s: State, t: Tid, a: Action): State
    requires Enabled(s, t, a)
  {
    match a
    case Call(req) => Begin(s, t, req)
    case Go => Proceed(s, t)
  }

  // ---------- the invariant ----------

  /** A deleted object is still on the stack between `delete top` and `pop`, and only then. */
  predicate Popping(s: State) {
    s.lock.Some? && s.lock.value in s.pcs && s.pcs[s.lock.value].TrimPop?
  }

  function Pooled(s: State): seq<Obj> {
    if Popping(s) && s.pool.stack != [] then Popped(s.pool.stack) else s.pool.stack
  }

  ghost predicate Carries(s: State, t: Tid, o: Obj) {
    t in s.pcs && Carried(s.pcs[t]) == Some(o)
  }

  /** Exactly the holder of the mutex is at a point inside it. */
  ghost predicate LockOk(s: State) {
    && (s.lock.Some? ==> s.lock.value in s.pcs)
    && forall t :: t in s.pcs ==> (Critical(s.pcs[t]) <==> s.lock == Some(t))
  }

  /** Pooled, held, carried and deleted objects are created, and no object is in two of these places. */
  ghost predicate Apart(s: State) {
    && Recency.NoDup(s.pool.stack)
    && (forall o :: o in Pooled(s) ==> o < s.created && o !in s.held && o !in s.deleted)
    && (forall o :: o in s.held ==> o < s.created && o !in s.deleted)
    && (forall o :: o in s.deleted ==> o < s.created)
    && (forall t: Tid, o: Obj :: Carries(s, t, o) ==>
          o < s.created && o !in s.held && o !in s.deleted && o !in Pooled(s))
    && (forall t: Tid, u: Tid, o: Obj :: Carries(s, t, o) && Carries(s, u, o) ==> t == u)
    && (Popping(s) ==> s.pool.stack != [] && Top(s.pool) in s.deleted)
  }

  /** No created object is lost. */
  ghost predicate Accounted(s: State) {
    forall o: Obj :: o < s.created ==>
      o in Pooled(s) || o in s.held || o in s.deleted || exists t: Tid :: Carries(s, t, o)
  }

  /** Whoever holds the mutex has only made the changes of its own call since it took it. */
  ghost predicate Underway(entry: Pool, now: Pool, pc: Pc) {
    match pc
    case Locked(_) => now == entry
    case Trim(SetMaxSize(m)) =>
      now.max == m && now.stack <= entry.stack && (now.stack == entry.stack || |now.stack| >= m)
    case TrimPop(SetMaxSize(m)) =>
      now.max == m && now.stack <= entry.stack && |now.stack| > m
    case Trim(Clear) => now.max == entry.max && now.stack <= entry.stack
    case TrimPop(Clear) => now.max == entry.max && now.stack <= entry.stack && now.stack != []
    case Fill(Preallocate(count), i) =>
      && now.max == entry.max && count <= now.max
      && i == |now.stack| && entry.stack <= now.stack
      && (now.stack == entry.stack || |now.stack| <= count)
    case _ => false
  }

  ghost predicate Sized(s: State) {
    && (s.lock.None? ==> WithinMax(s.pool))
    && (s.lock.Some? ==> WithinMax(s.entry) && s.lock.value in s.pcs && Underway(s.entry, s.pool, s.pcs[s.lock.value]))
  }

  /** What the holder of the mutex found in the pool is older than what it makes. */
  ghost predicate Dated(s: State) {
    s.lock.Some? && s.lock.value in s.pcs ==>
      && s.since <= s.created
      && (forall o :: o in s.entry.stack ==> o < s.since)
      && (s.pcs[s.lock.value].Fill? ==> NewObjects(Added(s), s.since, s.created))
  }

  /** What is on the stack above what the holder of the mutex found. */
  function Added(s: State): seq<Obj> {
    if |s.entry.stack| <= |s.pool.stack| then s.pool.stack[|s.entry.stack|..] else []
  }

  ghost predicate Inv(s: State) {
    LockOk(s) && Recency.NoDup(s.deleted) && Apart(s) && Accounted(s) && Sized(s) && Dated(s)
  }

  /** A new pool of some maximum, with any number of threads. */
  ghost predicate Init(s: State) {
    && s.lock.None? && s.pool.stack == [] && s.created == 0 && s.held == {} && s.deleted == []
    && forall t :: t in s.pcs ==> s.pcs[t].Idle?
  }

  lemma InitInv(s: State)
    requires Init(s)
    ensures Inv(s)
  {
  }

  // ---------- every step keeps it ----------

  lemma LockStep(s: State, t: Tid, a: Action)
    requires LockOk(s) && Enabled(s, t, a)
    ensures LockOk(Next(s, t, a))
  {
  }

  lemma TrimSized(s: State, t: Tid)
    requires LockOk(s) && Sized(s) && Enabled(s, t, Go) && (s.pcs[t].Trim? || s.pcs[t].TrimPop?)
    ensures Sized(Next(s, t, Go))
  {
    assert s.lock == Some(t);
    assert Underway(s.entry, s.pool, s.pcs[t]);
  }

  lemma FillSized(s: State, t: Tid)
    requires LockOk(s) && Sized(s) && Enabled(s, t, Go) && s.pcs[t].Fill?
    ensures Sized(Next(s, t, Go))
  {
    assert s.lock == Some(t);
    assert Underway(s.entry, s.pool, s.pcs[t]);
  }

  lemma WorkSized(s: State, t: Tid)
    requires LockOk(s) && Sized(s) && Enabled(s, t, Go) && s.pcs[t].Locked?
    ensures Sized(Next(s, t, Go))
  {
    assert s.lock == Some(t);
    assert Underway(s.entry, s.pool, s.pcs[t]);
  }

  lemma SizedStep(s: State, t: Tid, a: Action)
    requires LockOk(s) && Sized(s) && Enabled(s, t, a)
    ensures Sized(Next(s, t, a))
  {
    if a.Go? && s.pcs[t].Locked? {
      WorkSized(s, t);
    } else if a.Go? && s.pcs[t].Fill? {
      FillSized(s, t);
    } else if a.Go? && Critical(s.pcs[t]) {
      TrimSized(s, t);
    } else {
      assert s.lock != Some(t);
    }
  }

  lemma WorkMovesOne(s: State, t: Tid, req: Request)
    ensures var s' := Work(s, t, req);
            t in s'.pcs && s'.pcs == s.pcs[t := s'.pcs[t]]
  {
  }

  lemma FillDated(s: State, t: Tid)
    requires LockOk(s) && Sized(s) && Dated(s) && Enabled(s, t, Go) && s.pcs[t].Fill?
    ensures Dated(Next(s, t, Go))
  {
    assert s.lock == Some(t);
    assert Underway(s.entry, s.pool, s.pcs[t]);
    var s' := Next(s, t, Go);
    if s'.pcs[t].Fill? {
      assert Added(s') == Added(s) + [s.created];
    }
  }

  lemma DatedStep(s: State, t: Tid, a: Action)
    requires LockOk(s) && Apart(s) && Sized(s) && Dated(s) && Enabled(s, t, a)
    ensures Dated(Next(s, t, a))
  {
    if a.Go? && s.pcs[t].Fill? {
      FillDated(s, t);
    } else if s.lock == Some(t) {
      assert Underway(s.entry, s.pool, s.pcs[t]);
    } else if a.Go? && s.pcs[t].Wait? {
      assert Pooled(s) == s.pool.stack;
    } else {
      assert Next(s, t, a).created >= s.created;
    }
  }

  /** A step of t moves no other thread. */
  lemma OthersStay(s: State, t: Tid, a: Action)
    requires Enabled(s, t, a)
    ensures Next(s, t, a).pcs.Keys == s.pcs.Keys
    ensures forall u :: u in s.pcs && u != t ==> Next(s, t, a).pcs[u] == s.pcs[u]
  {
    if a.Go? && s.pcs[t].Locked? {
      WorkMovesOne(s, t, s.pcs[t].request);
    }
  }

  /** A step of t leaves what the other threads carry. */
  lemma OthersCarry(s: State, t: Tid, a: Action)
    requires Enabled(s, t, a)
    ensures Next(s, t, a).pcs.Keys == s.pcs.Keys
    ensures forall u: Tid, o: Obj :: u != t ==> (Carries(Next(s, t, a), u, o) <==> Carries(s, u, o))
  {
    OthersStay(s, t, a);
    var s' := Next(s, t, a);
    forall u: Tid, o: Obj | u != t
      ensures Carries(s', u, o) <==> Carries(s, u, o)
    {
      assert u in s'.pcs <==> u in s.pcs;
    }
  }

  /** Outside the work on the stack, the pooled objects are the same. */
  lemma PooledSame(s: State, t: Tid, a: Action)
    requires LockOk(s) && Enabled(s, t, a)
    requires a.Call? || s.pcs[t].Wait? || s.pcs[t].LateNew? || s.pcs[t].LateDelete?
    ensures Pooled(Next(s, t, a)) == Pooled(s) && Next(s, t, a).pool == s.pool
    ensures Popping(Next(s, t, a)) == Popping(s)
  {
  }

  lemma CallApart(s: State, t: Tid, req: Request)
    requires LockOk(s) && Apart(s) && Accounted(s) && Enabled(s, t, Call(req))
    ensures Apart(Next(s, t, Call(req))) && Accounted(Next(s, t, Call(req)))
  {
    OthersCarry(s, t, Call(req));
    PooledSame(s, t, Call(req));
    var s' := Next(s, t, Call(req));
    forall o: Obj | o < s'.created
      ensures o in Pooled(s') || o in s'.held || o in s'.deleted || exists u: Tid :: Carries(s', u, o)
    {
      if req.Release? && o == req.obj {
        assert Carries(s', t, o);
      } else if exists u: Tid :: Carries(s, u, o) {
        var u: Tid :| Carries(s, u, o);
        assert Carries(s', u, o);
      }
    }
  }

  lemma OutsideApart(s: State, t: Tid)
    requires LockOk(s) && Apart(s) && Accounted(s) && Enabled(s, t, Go)
    requires s.pcs[t].Wait? || s.pcs[t].LateNew? || s.pcs[t].LateDelete?
    ensures Apart(Next(s, t, Go)) && Accounted(Next(s, t, Go))
  {
    OthersCarry(s, t, Go);
    PooledSame(s, t, Go);
    var s' := Next(s, t, Go);
    if s.pcs[t].LateDelete? {
      assert Carries(s, t, s.pcs[t].late);
    }
    assert forall o: Obj :: Carries(s, t, o) ==> Carries(s', t, o) || o in s'.deleted;
    assert forall o: Obj :: Carries(s', t, o) ==> Carries(s, t, o);
    CarriedStaysAccounted(s, s', t);
  }

  lemma PopFacts(st: seq<Obj>)
    requires Recency.NoDup(st) && st != []
    ensures Recency.NoDup(Popped(st)) && st[|st| - 1] !in Popped(st)
    ensures forall o :: o in st <==> o in Popped(st) || o == st[|st| - 1]
  {
    Recency.NoDupPrefix(st, |st| - 1);
    Recency.ButLast(st);
    forall o
      ensures o in Popped(st) <==> o in st && o != st[|st| - 1]
    {
      assert o in Popped(st) <==> o in Recency.Elems(Popped(st));
    }
  }

  lemma {:induction false} PushFacts(st: seq<Obj>, x: Obj)
    requires Recency.NoDup(st) && x !in st
    ensures Recency.NoDup(st + [x])
    ensures forall o :: o in st + [x] <==> o in st || o == x
  {
    if st == [] {
      assert [x][1..] == [];
    } else {
      assert (st + [x])[1..] == st[1..] + [x];
      PushFacts(st[1..], x);
    }
  }

  /** Acquire with a pooled object: the top goes from the stack to the program. */
  lemma PopApart(s: State, t: Tid)
    requires LockOk(s) && Apart(s) && Accounted(s) && Enabled(s, t, Go)
    requires s.pcs[t] == Locked(Acquire) && s.pool.stack != []
    ensures Apart(Next(s, t, Go)) && Accounted(Next(s, t, Go))
  {
    OthersCarry(s, t, Go);
    PopFacts(s.pool.stack);
    var s' := Next(s, t, Go);
    assert Pooled(s) == s.pool.stack && Pooled(s') == Popped(s.pool.stack);
    CarriedStaysAccounted(s, s', t);
  }

  /** Release with room: the carried object goes on the stack. */
  lemma PushApart(s: State, t: Tid, o: Obj)
    requires LockOk(s) && Apart(s) && Accounted(s) && Enabled(s, t, Go)
    requires s.pcs[t] == Locked(Release(o)) && HasRoom(s.pool)
    ensures Apart(Next(s, t, Go)) && Accounted(Next(s, t, Go))
  {
    OthersCarry(s, t, Go);
    assert Carries(s, t, o);
    var s' := Next(s, t, Go);
    assert Pooled(s) == s.pool.stack && Pooled(s') == s.pool.stack + [o];
    PushFacts(s.pool.stack, o);
    CarriedStaysAccounted(s, s', t);
  }

  /** What other threads carry is still accounted for. */
  lemma CarriedStaysAccounted(s: State, s': State, t: Tid)
    requires forall u: Tid, o: Obj :: u != t ==> (Carries(s', u, o) <==> Carries(s, u, o))
    ensures forall o: Obj :: (exists u: Tid :: Carries(s, u, o)) && !Carries(s, t, o) ==>
              exists u: Tid :: Carries(s', u, o)
  {
    forall o: Obj | (exists u: Tid :: Carries(s, u, o)) && !Carries(s, t, o)
      ensures exists u: Tid :: Carries(s', u, o)
    {
      var u: Tid :| Carries(s, u, o);
      assert Carries(s', u, o);
    }
  }

  lemma WorkApart(s: State, t: Tid)
    requires LockOk(s) && Apart(s) && Accounted(s) && Enabled(s, t, Go) && s.pcs[t].Locked?
    ensures Apart(Next(s, t, Go)) && Accounted(Next(s, t, Go))
  {
    var req := s.pcs[t].request;
    if req.Acquire? && s.pool.stack != [] {
      PopApart(s, t);
    } else if req.Release? && HasRoom(s.pool) {
      PushApart(s, t, req.obj);
    } else {
      OthersCarry(s, t, Go);
      var s' := Next(s, t, Go);
      assert Pooled(s) == s.pool.stack == Pooled(s');
      assert forall o: Obj :: Carries(s', t, o) <==> Carries(s, t, o);
      CarriedStaysAccounted(s, s', t);
    }
  }

  /** `delete top` under the mutex: the object goes from the pool to the deleted ones, one `pop` later off the stack. */
  lemma TrimApart(s: State, t: Tid)
    requires LockOk(s) && Apart(s) && Accounted(s) && Enabled(s, t, Go) && (s.pcs[t].Trim? || s.pcs[t].TrimPop?)
    ensures Apart(Next(s, t, Go)) && Accounted(Next(s, t, Go))
  {
    OthersCarry(s, t, Go);
    var s' := Next(s, t, Go);
    if s.pool.stack != [] {
      PopFacts(s.pool.stack);
    }
    assert Pooled(s) == if s.pcs[t].TrimPop? then Popped(s.pool.stack) else s.pool.stack;
    assert Pooled(s') == if s'.pcs[t].TrimPop? then Popped(s.pool.stack) else Pooled(s);
    assert forall o: Obj :: !Carries(s, t, o) && !Carries(s', t, o);
    CarriedStaysAccounted(s, s', t);
  }

  /** preallocate: a new object comes straight onto the stack. */
  lemma CreateApart(s: State, t: Tid, i: nat, count: nat)
    requires LockOk(s) && Apart(s) && Accounted(s) && Enabled(s, t, Go)
    requires s.pcs[t] == Fill(Preallocate(count), i) && i < count
    ensures Apart(Next(s, t, Go)) && Accounted(Next(s, t, Go))
  {
    OthersCarry(s, t, Go);
    var s' := Next(s, t, Go);
    var st := s.pool.stack;
    assert Pooled(s) == st && Pooled(s') == st + [s.created];
    assert s.created !in st;
    PushFacts(st, s.created);
    CarriedStaysAccounted(s, s', t);
  }

  lemma FillApart(s: State, t: Tid)
    requires LockOk(s) && Apart(s) && Accounted(s) && Enabled(s, t, Go) && s.pcs[t].Fill?
    ensures Apart(Next(s, t, Go)) && Accounted(Next(s, t, Go))
  {
    var req, i := s.pcs[t].request, s.pcs[t].i;
    if req.Preallocate? && i < req.count {
      CreateApart(s, t, i, req.count);
    } else {
      OthersCarry(s, t, Go);
      assert Pooled(s) == s.pool.stack == Pooled(Next(s, t, Go));
      CarriedStaysAccounted(s, Next(s, t, Go), t);
    }
  }

  /** The object, if any, that a step gives to `delete`. */
  function DeletedBy(s: State, t: Tid, a: Action): Option<Obj>
    requires Enabled(s, t, a)
  {
    if a.Go? && s.pcs[t].Trim? && TrimGoesOn(s.pool, s.pcs[t].request) then Some(Top(s.pool))
    else if a.Go? && s.pcs[t].LateDelete? then Some(s.pcs[t].late)
    else None
  }

  /** The object, if any, that a step hands out to the program. */
  function HandedOutBy(s: State, t: Tid, a: Action): Option<Obj>
    requires Enabled(s, t, a)
  {
    if a.Go? && s.pcs[t] == Locked(Acquire) && s.pool.stack != [] then Some(Top(s.pool))
    else if a.Go? && s.pcs[t].LateNew? then Some(s.created)
    else None
  }

  /** What is deleted was not deleted before, nobody holds it, and no other thread has it in hand. */
  lemma DeletesOnce(s: State, t: Tid, a: Action)
    requires LockOk(s) && Apart(s) && Enabled(s, t, a)
    ensures var d := DeletedBy(s, t, a);
            && Next(s, t, a).deleted == s.deleted + (if d.Some? then [d.value] else [])
            && (d.Some? ==>
                  && d.value < s.created && d.value !in s.deleted && d.value !in s.held
                  && forall u: Tid :: u != t ==> !Carries(s, u, d.value))
  {
    if a.Go? && s.pcs[t].LateDelete? {
      assert Carries(s, t, s.pcs[t].late);
    }
    if a.Go? && s.pcs[t].Trim? && s.pool.stack != [] {
      assert Top(s.pool) in Pooled(s);
    }
  }

  lemma PooledAfterAcquire(s: State, t: Tid, a: Action)
    requires LockOk(s) && Apart(s) && Enabled(s, t, a) && HandedOutBy(s, t, a).Some?
    ensures HandedOutBy(s, t, a).value !in Pooled(Next(s, t, a))
  {
    if s.pcs[t].Locked? {
      PopFacts(s.pool.stack);
    }
  }

  /** What is handed out is live, and nobody else has it: not the program, no thread in transit, not the pool. */
  lemma HandsOutLive(s: State, t: Tid, a: Action)
    requires LockOk(s) && Apart(s) && Enabled(s, t, a)
    ensures var h := HandedOutBy(s, t, a);
            var s' := Next(s, t, a);
            && s'.held == s.held + (if h.Some? then {h.value} else {})
                          - (if a.Call? && a.request.Release? then {a.request.obj} else {})
            && (h.Some? ==>
                  && h.value < s'.created && h.value !in s.held && h.value !in s'.deleted && h.value !in Pooled(s')
                  && forall u: Tid :: !Carries(s, u, h.value) && !Carries(s', u, h.value))
  {
    if a.Go? && s.pcs[t] == Locked(Acquire) && s.pool.stack != [] {
      assert Top(s.pool) in Pooled(s);
    }
    OthersCarry(s, t, a);
    if HandedOutBy(s, t, a).Some? {
      PooledAfterAcquire(s, t, a);
    }
  }

  lemma DeletedStep(s: State, t: Tid, a: Action)
    requires LockOk(s) && Apart(s) && Recency.NoDup(s.deleted) && Enabled(s, t, a)
    ensures Recency.NoDup(Next(s, t, a).deleted)
  {
    DeletesOnce(s, t, a);
    HandsOutLive(s, t, a);
    var d := DeletedBy(s, t, a);
    if d.Some? {
      PushFacts(s.deleted, d.value);
    } else {
      assert s.deleted + [] == s.deleted;
    }
  }

  /** Every step of every thread keeps the invariant. */
  lemma StepKeepsInv(s: State, t: Tid, a: Action)
    requires Inv(s) && Enabled(s, t, a)
    ensures Inv(Next(s, t, a))
  {
    LockStep(s, t, a);
    SizedStep(s, t, a);
    DatedStep(s, t, a);
    DeletedStep(s, t, a);
    if a.Call? {
      CallApart(s, t, a.request);
    } else if s.pcs[t].Locked? {
      WorkApart(s, t);
    } else if s.pcs[t].Fill? {
      FillApart(s, t);
    } else if Critical(s.pcs[t]) {
      TrimApart(s, t);
    } else {
      OutsideApart(s, t);
    }
  }

  // ---------- runs ----------

  datatype Move = Move(thread: Tid, action: Action)

  /** The state after an interleaving, if every step of it was possible. */
  function RunFrom(s: State, moves: seq<Move>): Option<State> {
    if moves == [] then Some(s)
    else
      var before := RunFrom(s, moves[..|moves| - 1]);
      var m := moves[|moves| - 1];
      if before.Some? && Enabled(before.value, m.thread, m.action) then Some(Next(before.value, m.thread, m.action))
      else None
  }

  /** For every interleaving of any number of threads and calls. */
  lemma {:induction false} RunKeepsInv(s: State, moves: seq<Move>)
    requires Init(s) && RunFrom(s, moves).Some?
    ensures Inv(RunFrom(s, moves).value)
  {
    if moves == [] {
      InitInv(s);
    } else {
      RunKeepsInv(s, moves[..|moves| - 1]);
      var m := moves[|moves| - 1];
      StepKeepsInv(RunFrom(s, moves[..|moves| - 1]).value, m.thread, m.action);
    }
  }

  ghost function CarriedObjects(s: State): set<Obj> {
    set t | t in s.pcs && Carried(s.pcs[t]).Some? :: Carried(s.pcs[t]).value
  }

  ghost function AllCreated(n: nat): (r: set<Obj>)
    ensures forall o: Obj :: o in r <==> o < n
  {
    if n == 0 then {} else AllCreated(n - 1) + {n - 1}
  }

  /**
    Whenever the mutex is free: the pool holds no object twice and, if its maximum is finite, no more
    than that; and pooled, held, in-transit and deleted objects are disjoint and together all created.
   */
  lemma SafeWhenUnlocked(s: State, moves: seq<Move>)
    requires Init(s) && RunFrom(s, moves).Some? && RunFrom(s, moves).value.lock.None?
    ensures var r := RunFrom(s, moves).value;
            var pooled, deleted := Recency.Elems(r.pool.stack), Recency.Elems(r.deleted);
            && Recency.NoDup(r.pool.stack)
            && (r.pool.max == 0xFFFF_FFFF_FFFF_FFFF || |r.pool.stack| <= r.pool.max)
            && pooled !! r.held !! deleted !! CarriedObjects(r)
            && pooled + r.held + deleted + CarriedObjects(r) == AllCreated(r.created)
  {
    RunKeepsInv(s, moves);
    var r := RunFrom(s, moves).value;
    assert Pooled(r) == r.pool.stack;
    forall o | o in CarriedObjects(r)
      ensures exists t: Tid :: Carries(r, t, o)
    {
      var t :| t in r.pcs && Carried(r.pcs[t]).Some? && Carried(r.pcs[t]).value == o;
      assert Carries(r, t, o);
    }
    forall o: Obj | o < r.created
      ensures o in Recency.Elems(r.pool.stack) + r.held + Recency.Elems(r.deleted) + CarriedObjects(r)
    {
      if o !in Recency.Elems(r.pool.stack) + r.held + Recency.Elems(r.deleted) {
        var t: Tid :| Carries(r, t, o);
        assert Carried(r.pcs[t]).value == o;
      }
    }
  }

  /**
    In every interleaving a thread goes on to delete what it releases exactly when it found the pool full,
    with a finite maximum; it leaves the pool as it is then, and otherwise puts the object on top.
   */
  lemma DeletesOnlyWhenFull(s: State, moves: seq<Move>, t: Tid, a: Action)
    requires Init(s) && RunFrom(s, moves).Some? && Enabled(RunFrom(s, moves).value, t, a)
    ensures var r := RunFrom(s, moves).value;
            var s' := Next(r, t, a);
            var release := a.Go? && r.pcs[t].Locked? && r.pcs[t].request.Release?;
            var full := r.pool.max != 0xFFFF_FFFF_FFFF_FFFF && |r.pool.stack| == r.pool.max;
            && (s'.pcs[t].LateDelete? <==> release && full)
            && (release && full ==> s'.pcs[t].late == r.pcs[t].request.obj && s'.pool == r.pool)
            && (release && !full ==>
                  s'.pcs[t].Idle? && s'.pool == r.pool.(stack := r.pool.stack + [r.pcs[t].request.obj]))
  {
    RunKeepsInv(s, moves);
    var r := RunFrom(s, moves).value;
    if r.lock == Some(t) {
      assert Underway(r.entry, r.pool, r.pcs[t]);
    }
  }

  /** In every interleaving nothing is ever given to `delete` twice, and no deleted object is held or pooled. */
  lemma NeverDeletedTwice(s: State, moves: seq<Move>)
    requires Init(s) && RunFrom(s, moves).Some?
    ensures var r := RunFrom(s, moves).value;
            && Recency.Distinct(r.deleted)
            && forall o :: o in r.deleted ==> o < r.created && o !in r.held && o !in Pooled(r)
  {
    RunKeepsInv(s, moves);
    Recency.NoDupIsDistinct(RunFrom(s, moves).value.deleted);
  }

  /** How often an interleaving hands out an object, and how often the program gives it back. */
  function HandOuts(s: State, moves: seq<Move>, o: Obj): nat {
    if moves == [] then 0
    else
      var before := RunFrom(s, moves[..|moves| - 1]);
      var m := moves[|moves| - 1];
      HandOuts(s, moves[..|moves| - 1], o) +
      if before.Some? && Enabled(before.value, m.thread, m.action)
         && HandedOutBy(before.value, m.thread, m.action) == Some(o) then 1 else 0
  }

  function Releases(moves: seq<Move>, o: Obj): nat {
    if moves == [] then 0
    else Releases(moves[..|moves| - 1], o) + if moves[|moves| - 1].action == Call(Release(o)) then 1 else 0
  }

  /** In every interleaving an object is held once between being handed out and given back, and never by two. */
  lemma {:induction false} HeldBetweenHandOutAndRelease(s: State, moves: seq<Move>, o: Obj)
    requires Init(s) && RunFrom(s, moves).Some?
    ensures HandOuts(s, moves, o) == Releases(moves, o) + if o in RunFrom(s, moves).value.held then 1 else 0
  {
    if moves != [] {
      var before := moves[..|moves| - 1];
      var m := moves[|moves| - 1];
      HeldBetweenHandOutAndRelease(s, before, o);
      RunKeepsInv(s, before);
      HandsOutLive(RunFrom(s, before).value, m.thread, m.action);
    }
  }

  /** At every moment at most one thread is inside the mutex. */
  lemma MutualExclusion(s: State, moves: seq<Move>, t: Tid, u: Tid)
    requires Init(s) && RunFrom(s, moves).Some?
    ensures var r := RunFrom(s, moves).value;
            t in r.pcs && u in r.pcs && Critical(r.pcs[t]) && Critical(r.pcs[u]) ==> t == u
  {
    RunKeepsInv(s, moves);
  }

  // ---------- each call is atomic ----------

  /** What the holder of the mutex has made so far. */
  function MadeInside(s: State, pc: Pc): seq<Obj>
    requires Critical(pc)
  {
    if pc.request.Preallocate? then Added(s) else []
  }

  /**
    The pool as a thread leaves the mutex is its call's effect on the pool as it took it; what the
    call made is new.
   */
  lemma AtomicEffect(s: State, t: Tid)
    requires Inv(s) && Enabled(s, t, Go) && s.lock == Some(t) && Next(s, t, Go).lock.None?
    ensures !s.pcs[t].TrimPop? && Critical(s.pcs[t])
    ensures CallEffect(s.entry, Next(s, t, Go).pool, s.pcs[t].request, MadeInside(s, s.pcs[t]))
    ensures NewObjects(MadeInside(s, s.pcs[t]), s.since, s.created)
  {
    assert Underway(s.entry, s.pool, s.pcs[t]);
    if s.pcs[t].request.Preallocate? {
      assert s.pool.stack == s.entry.stack + Added(s);
    }
  }

  /** While a thread is inside the mutex no other thread changes the pool or the snapshot. */
  lemma OthersLeaveThePool(s: State, t: Tid, a: Action)
    requires Inv(s) && Enabled(s, t, a) && s.lock.Some? && s.lock != Some(t)
    ensures Next(s, t, a).pool == s.pool && Next(s, t, a).entry == s.entry && Next(s, t, a).lock == s.lock
  {
  }

  /**
    A call as it leaves the mutex: the pooled object it got, if any, what it made, how many objects there
    were when it took and when it freed the mutex, and what its thread has yet to do outside: nothing,
    create the object to return, or delete one.
   */
  datatype Commit = Commit(
    thread: Tid,
    request: Request,
    got: Option<Obj>,
    made: seq<Obj>,
    before: nat,
    after: nat,
    late: Pc)

  /** The calls of an interleaving in the order in which they left the mutex. */
  function Commits(s: State, moves: seq<Move>): seq<Commit> {
    if moves == [] then []
    else
      var before := RunFrom(s, moves[..|moves| - 1]);
      var m := moves[|moves| - 1];
      Commits(s, moves[..|moves| - 1]) +
      if before.Some? && Enabled(before.value, m.thread, m.action) then CommitOf(before.value, m.thread, m.action)
      else []
  }

  function CommitOf(s: State, t: Tid, a: Action): seq<Commit>
    requires Enabled(s, t, a)
  {
    var s' := Next(s, t, a);
    if s.lock == Some(t) && Critical(s.pcs[t]) && s'.lock.None? then
      [Commit(t, s.pcs[t].request, HandedOutBy(s, t, a), MadeInside(s, s.pcs[t]), s.since, s'.created, s'.pcs[t])]
    else []
  }

  /**
    A call done alone on a pool: its effect, the object it gets, and what is left to do outside. What it
    makes are different objects, newer than everything in the pool.
   */
  ghost predicate DoneAlone(before: Pool, after: Pool, c: Commit) {
    && CallEffect(before, after, c.request, c.made)
    && c.got == (if c.request.Acquire? && before.stack != [] then Some(Top(before)) else None)
    && c.late == (match c.request
                  case Acquire => if before.stack == [] then LateNew else Idle
                  case Release(o) => if HasRoom(before) then Idle else LateDelete(o)
                  case _ => Idle)
    && NewObjects(c.made, c.before, c.after)
    && c.before <= c.after
    && forall o :: o in before.stack ==> o < c.before
  }

  /** The number of objects when the last call left the mutex. */
  function MadeUpTo(calls: seq<Commit>): nat {
    if calls == [] then 0 else calls[|calls| - 1].after
  }

  /** Calls done one after another, each with newer objects than those before it, lead from one pool to another. */
  ghost predicate Sequential(first: Pool, calls: seq<Commit>, last: Pool) {
    if calls == [] then last == first
    else
      var earlier, c := calls[..|calls| - 1], calls[|calls| - 1];
      MadeUpTo(earlier) <= c.before &&
      exists mid: Pool :: Sequential(first, earlier, mid) && DoneAlone(mid, last, c)
  }

  /** The pool as the last call to leave the mutex left it, and the number of objects since. */
  function Settled(s: State): Pool {
    if s.lock.None? then s.pool else s.entry
  }

  function SettledCount(s: State): nat {
    if s.lock.None? then s.created else s.since
  }

  lemma CommitIsDoneAlone(s: State, t: Tid, a: Action)
    requires Inv(s) && Enabled(s, t, a)
    ensures var s', c := Next(s, t, a), CommitOf(s, t, a);
            if c == [] then Settled(s') == Settled(s) && SettledCount(s) <= SettledCount(s')
            else
              && DoneAlone(Settled(s), Settled(s'), c[0])
              && SettledCount(s) == c[0].before && c[0].after == SettledCount(s')
  {
    if s.lock == Some(t) && Next(s, t, a).lock.None? {
      AtomicEffect(s, t);
      assert Underway(s.entry, s.pool, s.pcs[t]);
    }
  }

  lemma SequentialNext(first: Pool, calls: seq<Commit>, mid: Pool, c: Commit, last: Pool)
    requires Sequential(first, calls, mid) && DoneAlone(mid, last, c) && MadeUpTo(calls) <= c.before
    ensures Sequential(first, calls + [c], last)
  {
    var all := calls + [c];
    assert all[..|all| - 1] == calls;
    assert Sequential(first, all[..|all| - 1], mid) && DoneAlone(mid, last, all[|all| - 1]);
  }

  lemma SequentialStep(first: Pool, calls: seq<Commit>, s: State, t: Tid, a: Action)
    requires Inv(s) && Enabled(s, t, a)
    requires Sequential(first, calls, Settled(s)) && MadeUpTo(calls) <= SettledCount(s)
    ensures Sequential(first, calls + CommitOf(s, t, a), Settled(Next(s, t, a)))
    ensures MadeUpTo(calls + CommitOf(s, t, a)) <= SettledCount(Next(s, t, a))
  {
    CommitIsDoneAlone(s, t, a);
    var c := CommitOf(s, t, a);
    if c == [] {
      assert calls + c == calls;
    } else {
      SequentialNext(first, calls, Settled(s), c[0], Settled(Next(s, t, a)));
      assert c == [c[0]];
    }
  }

  /**
    Every interleaving is equivalent to its calls done one after another in the order in which they
    left the mutex: the pool, the pooled objects handed out, the objects made for the pool, each newer than
    all made before it, and what was left to create or delete.
   */
  lemma {:induction false} Linearizable(s: State, moves: seq<Move>)
    requires Init(s) && RunFrom(s, moves).Some?
    ensures var r := RunFrom(s, moves).value;
            && Sequential(s.pool, Commits(s, moves), Settled(r))
            && MadeUpTo(Commits(s, moves)) <= SettledCount(r)
  {
    if moves != [] {
      var before := moves[..|moves| - 1];
      var m := moves[|moves| - 1];
      Linearizable(s, before);
      RunKeepsInv(s, before);
      SequentialStep(s.pool, Commits(s, before), RunFrom(s, before).value, m.thread, m.action);
    }
  }

  // ---------- the mutex is always freed again ----------

  /** An upper bound on the steps the holder of the mutex still takes inside it. */
  function StepsInside(p: Pool, pc: Pc): nat {
    match pc
    case Locked(SetMaxSize(_)) => 2 * |p.stack| + 2
    case Locked(Clear) => 2 * |p.stack| + 2
    case Locked(Preallocate(count)) => count + 2
    case Locked(_) => 1
    case Trim(_) => 2 * |p.stack| + 1
    case TrimPop(_) => 2 * |p.stack|
    case Fill(Preallocate(count), i) => if i < count then count - i + 1 else 1
    case Fill(_, _) => 1
    case _ => 0
  }

  lemma HolderGoesOn(s: State, t: Tid)
    requires Inv(s) && s.lock == Some(t)
    ensures t in s.pcs && Enabled(s, t, Go)
    ensures var s' := Next(s, t, Go);
            s'.lock.None? || (s'.lock == Some(t) && StepsInside(s'.pool, s'.pcs[t]) < StepsInside(s.pool, s.pcs[t]))
  {
    assert Underway(s.entry, s.pool, s.pcs[t]);
  }

  /** The holder can always go on, each step brings it nearer to freeing the mutex, and no other thread undoes that. */
  lemma HolderProgresses(s: State, t: Tid, u: Tid, a: Action)
    requires Inv(s) && s.lock == Some(t)
    ensures t in s.pcs && Enabled(s, t, Go)
    ensures var s' := Next(s, t, Go);
            s'.lock.None? || (s'.lock == Some(t) && StepsInside(s'.pool, s'.pcs[t]) < StepsInside(s.pool, s.pcs[t]))
    ensures u != t && Enabled(s, u, a) ==>
              var s' := Next(s, u, a);
              s'.lock == Some(t) && StepsInside(s'.pool, s'.pcs[t]) == StepsInside(s.pool, s.pcs[t])
  {
    HolderGoesOn(s, t);
    if u != t && Enabled(s, u, a) {
      OthersLeaveThePool(s, u, a);
      OthersStay(s, u, a);
    }
  }

  /** No deadlock: in every reachable state in which some thread is inside a call, some thread can go on. */
  lemma NoDeadlock(s: State, moves: seq<Move>, t: Tid)
    requires Init(s) && RunFrom(s, moves).Some?
    requires t in RunFrom(s, moves).value.pcs && !RunFrom(s, moves).value.pcs[t].Idle?
    ensures exists u: Tid :: Enabled(RunFrom(s, moves).value, u, Go)
  {
    RunKeepsInv(s, moves);
    var r := RunFrom(s, moves).value;
    if r.lock.Some? {
      HolderProgresses(r, r.lock.value, t, Go);
      assert Enabled(r, r.lock.value, Go);
    } else {
      assert Enabled(r, t, Go);
    }
  }
}
