/**
  DynamicObjectPool (ObjectPool.h), one call at a time: what each call does to the stack of pooled
  objects and to the maximum, and the methods with their loops proved against it. The interleaving
  of threads is in PoolMachine.
 */
module ObjectPool {
  import opened Wrappers

  /** Objects are numbered in the order in which they are created. */
  type Obj = nat

  /** std::numeric_limits<std::size_t>::max() */
  const INFINITE_POOL_SIZE: nat := 0xFFFF_FFFF_FFFF_FFFF

  /** The pool's two fields; the top of the stack is the last element. */
  datatype Pool = Pool(stack: seq<Obj>, max: nat)

  predicate HasRoom(p: Pool) {
    p.max == INFINITE_POOL_SIZE || |p.stack| < p.max
  }

  /** A finite maximum is respected. */
  predicate WithinMax(p: Pool) {
    p.max == INFINITE_POOL_SIZE || |p.stack| <= p.max
  }

  function Popped(s: seq<Obj>): seq<Obj>
    requires s != []
  {
    s[..|s| - 1]
  }

  function AfterSetMaxSize(p: Pool, m: nat): Pool {
    Pool(if |p.stack| > m then p.stack[..m] else p.stack, m)
  }

  /** New objects first, first + 1, ... on top until the stack holds `count`. */
  function Filled(s: seq<Obj>, first: Obj, count: nat): seq<Obj>
    decreases count - |s|
  {
    if |s| < count then Filled(s + [first], first + 1, count) else s
  }

  lemma {:induction false} FilledKeeps(s: seq<Obj>, first: Obj, count: nat)
    ensures s <= Filled(s, first, count)
    ensures |Filled(s, first, count)| == if |s| < count then count else |s|
    ensures forall i :: |s| <= i < |Filled(s, first, count)| ==> Filled(s, first, count)[i] == first + (i - |s|)
    decreases count - |s|
  {
    if |s| < count {
      FilledKeeps(s + [first], first + 1, count);
    }
  }

  datatype Request =
    | Acquire
    | Release(obj: Obj)
    | SetMaxSize(maxSize: nat)
    | Preallocate(count: nat)
    | Clear

  /** Different objects, created while their number went from `before` to `after`. */
  ghost predicate NewObjects(made: seq<Obj>, before: nat, after: nat) {
    && (forall i :: 0 <= i < |made| ==> before <= made[i] < after)
    && (forall i, j :: 0 <= i < j < |made| ==> made[i] < made[j])
  }

  /**
    What a call does to the pool, as if nothing else ran between taking and freeing the mutex, and
    the objects that it made meanwhile.
   */
  ghost predicate CallEffect(before: Pool, after: Pool, req: Request, made: seq<Obj>) {
    && (!req.Preallocate? ==> made == [])
    && match req
       case Acquire => after == before.(stack := if before.stack == [] then [] else Popped(before.stack))
       case Release(o) => after == if HasRoom(before) then before.(stack := before.stack + [o]) else before
       case SetMaxSize(m) => after == AfterSetMaxSize(before, m)
       case Preallocate(count) =>
         && after == before.(stack := before.stack + made)
         && |made| == if count <= before.max && |before.stack| < count then count - |before.stack| else 0
       case Clear => after == before.(stack := [])
  }

  /** The same in numbers: an empty pool gives nothing, a release finds room below the maximum or without one. */
  lemma EffectInNumbers(before: Pool, after: Pool, req: Request, made: seq<Obj>)
    requires CallEffect(before, after, req, made)
    ensures after.max == if req.SetMaxSize? then req.maxSize else before.max
    ensures req.Acquire? && |before.stack| == 0 ==> after.stack == []
    ensures req.Acquire? && |before.stack| > 0 ==> after.stack == before.stack[..|before.stack| - 1]
    ensures req.Release? ==>
              (after.stack == before.stack + [req.obj] <==>
                 before.max == 0xFFFF_FFFF_FFFF_FFFF || |before.stack| < before.max)
    ensures req.Release? && after.stack != before.stack + [req.obj] ==> after.stack == before.stack
    ensures req.SetMaxSize? ==> |after.stack| == if |before.stack| < req.maxSize then |before.stack| else req.maxSize
    ensures req.SetMaxSize? ==> after.stack == before.stack[..|after.stack|]
    ensures req.Preallocate? && req.count > before.max ==> after.stack == before.stack
    ensures req.Preallocate? && req.count <= before.max ==>
              |after.stack| == if |before.stack| < req.count then req.count else |before.stack|
    ensures req.Preallocate? ==> before.stack == after.stack[..|before.stack|]
    ensures req.Clear? ==> after.stack == []
  {
    if req.Release? {
      assert before.stack + [req.obj] != before.stack;
    }
  }

  class DynamicObjectPool {
    var maxPoolSize: nat
    var pool: seq<Obj>
    /** The number of `new T()` so far, and the objects given to `delete`, in order. */
    var created: nat
    var deleted: seq<Obj>

    ghost function State(): Pool
      reads this
    {
      Pool(pool, maxPoolSize)
    }

    /** The initial size must not exceed the maximum; None is the exception thrown otherwise. */
    static method Construct(maxPoolSize: nat, initialSize: nat) returns (r: Option<DynamicObjectPool>)
      ensures r.None? <==> initialSize > maxPoolSize
      ensures r.Some? ==> fresh(r.value) && r.value.State() == Pool(Filled([], 0, initialSize), maxPoolSize)
      ensures r.Some? ==> WithinMax(r.value.State())
    {
      if initialSize > maxPoolSize {
        return None;
      }
      var p := new DynamicObjectPool;
      p.maxPoolSize, p.pool, p.created, p.deleted := maxPoolSize, [], 0, [];
      if initialSize > 0 {
        var ok := p.Preallocate(initialSize);
      }
      FilledKeeps([], 0, initialSize);
      r := Some(p);
    }

    method AcquireObjectRaw() returns (obj: Obj)
      modifies this
      ensures CallEffect(old(State()), State(), Acquire, [])
      ensures maxPoolSize == old(maxPoolSize) && deleted == old(deleted)
      ensures if old(pool) == [] then obj == old(created) && created == old(created) + 1 && pool == []
              else obj == old(pool)[|old(pool)| - 1] && pool == old(pool)[..|old(pool)| - 1] && created == old(created)
    {
      if pool == [] {
        obj := created;
        created := created + 1;
        return;
      }
      obj := pool[|pool| - 1];
      pool := pool[..|pool| - 1];
    }

    method ReleaseObjectRaw(obj: Obj)
      modifies this
      ensures CallEffect(old(State()), State(), Release(obj), [])
      ensures maxPoolSize == old(maxPoolSize) && created == old(created)
      ensures if maxPoolSize == 0xFFFF_FFFF_FFFF_FFFF || |old(pool)| < maxPoolSize
              then pool == old(pool) + [obj] && deleted == old(deleted)
              else pool == old(pool) && deleted == old(deleted) + [obj]
      ensures WithinMax(old(State())) ==> WithinMax(State())
    {
      if maxPoolSize == INFINITE_POOL_SIZE || |pool| < maxPoolSize {
        pool := pool + [obj];
      } else {
        deleted := deleted + [obj];
      }
    }

    method SetMaxSize(maxSize: nat)
      modifies this
      ensures CallEffect(old(State()), State(), Request.SetMaxSize(maxSize), []) && WithinMax(State())
      ensures maxPoolSize == maxSize && created == old(created)
      ensures pool == if |old(pool)| <= maxSize then old(pool) else old(pool)[..maxSize]
      ensures multiset(deleted) + multiset(pool) == multiset(old(deleted)) + multiset(old(pool))
    {
      maxPoolSize := maxSize;
      while |pool| > maxPoolSize
        invariant maxPoolSize == maxSize && created == old(created)
        invariant pool <= old(pool) && (|pool| == |old(pool)| || |pool| >= maxSize)
        invariant multiset(deleted) + multiset(pool) == multiset(old(deleted)) + multiset(old(pool))
      {
        assert pool == Popped(pool) + [pool[|pool| - 1]];
        deleted := deleted + [pool[|pool| - 1]];
        pool := pool[..|pool| - 1];
      }
    }

    /** False, and no change, when more objects are asked for than the maximum allows. */
    method Preallocate(count: nat) returns (ok: bool)
      modifies this
      ensures old(pool) <= pool && NewObjects(pool[|old(pool)|..], old(created), created)
      ensures CallEffect(old(State()), State(), Request.Preallocate(count), pool[|old(pool)|..])
      ensures maxPoolSize == old(maxPoolSize) && deleted == old(deleted)
      ensures ok <==> count <= maxPoolSize
      ensures pool == if ok then Filled(old(pool), old(created), count) else old(pool)
      ensures created == old(created) + |pool| - |old(pool)|
      ensures WithinMax(old(State())) ==> WithinMax(State())
    {
      FilledKeeps(pool, created, count);
      if maxPoolSize < count {
        return false;
      }
      var i := |pool|;
      while i < count
        invariant i == |pool| && maxPoolSize == old(maxPoolSize) && deleted == old(deleted)
        invariant Filled(pool, created, count) == Filled(old(pool), old(created), count)
        invariant created == old(created) + |pool| - |old(pool)|
      {
        pool := pool + [created];
        created := created + 1;
        i := i + 1;
      }
      ok := true;
    }

    method Clear()
      modifies this
      ensures CallEffect(old(State()), State(), Request.Clear, [])
      ensures pool == [] && maxPoolSize == old(maxPoolSize) && created == old(created)
      ensures multiset(deleted) == multiset(old(deleted)) + multiset(old(pool))
    {
      while pool != []
        invariant maxPoolSize == old(maxPoolSize) && created == old(created)
        invariant multiset(deleted) + multiset(pool) == multiset(old(deleted)) + multiset(old(pool))
        decreases |pool|
      {
        assert pool == Popped(pool) + [pool[|pool| - 1]];
        deleted := deleted + [pool[|pool| - 1]];
        pool := pool[..|pool| - 1];
      }
    }
  }
}
