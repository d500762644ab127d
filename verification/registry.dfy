/**
  `TasksRegistry`: the process-wide table from a worker thread's identity to
  the task that thread is running. Every operation holds the registry's
  mutex for its whole body, so each is modelled as one atomic transition on
  an immutable map.
 */
module Registry {

  /** A thread identity (`pthread_t`, an unsigned integer on Linux). */
  type Tid = nat

  /** A non-owning `const Task*`: the address of a task, or null. */
  datatype TaskRef = Null | Ref(addr: nat)

  /** `TasksRegistry::_tasks`, ordered by thread identity like `std::map`. */
  type Table = map<Tid, TaskRef>

  /**
    The constructor of a registry entry: `_tasks[tid] = task` binds the
    calling thread to `task`, replacing whatever it was bound to before,
    and touches no other thread's entry.
   */
  function Register(t: Table, tid: Tid, task: TaskRef): (r: Table)
    ensures r.Keys == t.Keys + {tid}
    ensures r[tid] == task
    ensures forall k :: k in t && k != tid ==> r[k] == t[k]
  {
    t[tid := task]
  }

  /**
    The destructor of a registry entry: `_tasks.erase(tid)` removes the
    calling thread's entry, if there is one, and touches no other entry.
   */
  function Unregister(t: Table, tid: Tid): (r: Table)
    ensures r.Keys == t.Keys - {tid}
    ensures forall k :: k in r ==> r[k] == t[k]
  {
    t - {tid}
  }

  /** Erasing a thread that holds no entry leaves the table as it was. */
  lemma UnregisterAbsent(t: Table, tid: Tid)
    requires tid !in t
    ensures Unregister(t, tid) == t
  {
    assert Unregister(t, tid).Keys == t.Keys;
  }

  /**
    The scoped entry of a thread that was not registered: registering and
    then unregistering the same thread gives back the table it started from.
   */
  lemma RegisterThenUnregister(t: Table, tid: Tid, task: TaskRef)
    requires tid !in t
    ensures Unregister(Register(t, tid, task), tid) == t
  {
    assert Unregister(Register(t, tid, task), tid).Keys == t.Keys;
  }

  /**
    Registering a thread that is already registered does not fail: the new
    task replaces the old one, and the scoped entry's destructor then drops
    the thread altogether, so the earlier entry is not restored.
   */
  lemma RegisterOverwrites(t: Table, tid: Tid, previous: TaskRef, task: TaskRef)
    requires tid in t && t[tid] == previous
    ensures Register(t, tid, task)[tid] == task
    ensures Unregister(Register(t, tid, task), tid) == Unregister(t, tid)
    ensures tid !in Unregister(Register(t, tid, task), tid)
  {
    assert Unregister(Register(t, tid, task), tid).Keys == Unregister(t, tid).Keys;
  }

  /**
    Another worker's atomic step taken while thread `a` runs does not spoil
    `a`'s scoped entry: once `a` unregisters, the table is the one the other
    step alone would have produced.
   */
  lemma OtherThreadDuringRun(t: Table, a: Tid, b: Tid, x: TaskRef, y: TaskRef)
    requires a != b && a !in t
    ensures Unregister(Register(Register(t, a, x), b, y), a) == Register(t, b, y)
    ensures Unregister(Unregister(Register(t, a, x), b), a) == Unregister(t, b)
  {
    var r1 := Unregister(Register(Register(t, a, x), b, y), a);
    assert r1.Keys == Register(t, b, y).Keys;
    var r2 := Unregister(Unregister(Register(t, a, x), b), a);
    assert r2.Keys == Unregister(t, b).Keys;
  }

  /** Strictly ascending thread identities: each key at most once, in key order. */
  predicate Increasing(ks: seq<Tid>)
  {
    forall i, j :: 0 <= i < j < |ks| ==> ks[i] < ks[j]
  }

  /** `m` is the least identity in `s`. */
  predicate IsLeast(m: Tid, s: set<Tid>)
  {
    m in s && forall k :: k in s ==> m <= k
  }

  /** Every non-empty finite set of thread identities has a least element. */
  lemma {:induction false} MinExists(s: set<Tid>)
    requires s != {}
    ensures exists m :: IsLeast(m, s)
    decreases |s|
  {
    var x :| x in s;
    var s' := s - {x};
    if s' == {} {
      assert s == {x};
      assert IsLeast(x, s);
    } else {
      MinExists(s');
      var m :| IsLeast(m, s');
      assert forall k :: k in s ==> k == x || k in s';
      if x < m {
        assert IsLeast(x, s);
      } else {
        assert IsLeast(m, s);
      }
    }
  }

  /** The least thread identity in `s`. */
  function MinKey(s: set<Tid>): (m: Tid)
    requires s != {}
    ensures m in s
    ensures forall k :: k in s ==> m <= k
  {
    MinExists(s);
    var m :| IsLeast(m, s);
    m
  }

  /** The identities of `s` in ascending order, as `std::map` iterates its keys. */
  function SortedKeys(s: set<Tid>): (ks: seq<Tid>)
    ensures Increasing(ks)
    ensures forall k :: k in ks <==> k in s
    ensures |ks| == |s|
    decreases |s|
  {
    if s == {} then []
    else
      var m := MinKey(s);
      [m] + SortedKeys(s - {m})
  }

  /** The tail of an ascending sequence is the sequence without its least element. */
  lemma TailOfIncreasing(ks: seq<Tid>)
    requires Increasing(ks) && ks != []
    ensures forall k :: k in ks[1..] <==> k in ks && k != ks[0]
  {
    forall k | k in ks && k != ks[0]
      ensures k in ks[1..]
    {
      var i :| 0 <= i < |ks| && ks[i] == k;
      assert ks[1..][i - 1] == k;
    }
  }

  /** A finite set of identities has exactly one ascending enumeration. */
  lemma {:induction false} IncreasingUnique(a: seq<Tid>, b: seq<Tid>)
    requires Increasing(a) && Increasing(b)
    requires forall k :: k in a <==> k in b
    ensures a == b
    decreases |a|
  {
    if a != [] {
      assert a[0] in b;
    }
    if b != [] {
      assert b[0] in a;
    }
    if a != [] && b != [] {
      assert a[0] == b[0];
      TailOfIncreasing(a);
      TailOfIncreasing(b);
      IncreasingUnique(a[1..], b[1..]);
      assert a == [a[0]] + a[1..];
      assert b == [b[0]] + b[1..];
    }
  }

  /** The non-null tasks of `t` at the keys `ks`, in the order of `ks`. */
  function Collect(t: Table, ks: seq<Tid>): (r: seq<TaskRef>)
    requires forall k :: k in ks ==> k in t
    ensures |r| <= |ks|
    ensures forall i :: 0 <= i < |r| ==> r[i].Ref?
    ensures forall x :: x in r <==> x.Ref? && exists k :: k in ks && t[k] == x
  {
    if ks == [] then []
    else
      assert forall k :: k in ks[1..] ==> k in ks;
      (if t[ks[0]].Ref? then [t[ks[0]]] else []) + Collect(t, ks[1..])
  }

  /** The keys among `ks` whose entry is not null. */
  function NonNullKeys(t: Table, ks: seq<Tid>): (s: set<Tid>)
    requires forall k :: k in ks ==> k in t
    ensures forall k :: k in s ==> k in t
  {
    set k | k in ks && t[k].Ref?
  }

  /** The first identity of an ascending sequence is below all the others. */
  lemma HeadIsLeast(ks: seq<Tid>)
    requires Increasing(ks) && ks != []
    ensures forall k :: k in ks[1..] ==> ks[0] < k
  {
    forall k | k in ks[1..]
      ensures ks[0] < k
    {
      var i :| 0 <= i < |ks[1..]| && ks[1..][i] == k;
      assert ks[i + 1] == k;
    }
  }

  /** Adding an identity below all others puts it first in the enumeration. */
  lemma SortedKeysAddLeast(s: set<Tid>, k: Tid)
    requires forall j :: j in s ==> k < j
    ensures SortedKeys(s + {k}) == [k] + SortedKeys(s)
  {
    var ks := SortedKeys(s);
    var ks' := [k] + ks;
    assert forall i :: 1 <= i < |ks'| ==> ks'[i] == ks[i - 1] && ks'[i] in s;
    assert Increasing(ks');
    assert forall j :: j in ks' <==> j == k || j in ks;
    IncreasingUnique(SortedKeys(s + {k}), ks');
  }

  /** The non-null keys of a sequence are those of its tail, plus its head when non-null. */
  lemma NonNullKeysCons(t: Table, ks: seq<Tid>)
    requires ks != [] && forall k :: k in ks ==> k in t
    ensures forall k :: k in ks[1..] ==> k in t
    ensures NonNullKeys(t, ks) ==
      if t[ks[0]].Ref? then NonNullKeys(t, ks[1..]) + {ks[0]} else NonNullKeys(t, ks[1..])
  {
    assert forall k :: k in ks <==> k == ks[0] || k in ks[1..];
  }

  /** The entries of `t` at the keys `ks`, in the order of `ks`. */
  function ValuesAt(t: Table, ks: seq<Tid>): (r: seq<TaskRef>)
    requires forall k :: k in ks ==> k in t
    ensures |r| == |ks|
    ensures forall i :: 0 <= i < |ks| ==> r[i] == t[ks[i]]
  {
    if ks == [] then [] else [t[ks[0]]] + ValuesAt(t, ks[1..])
  }

  /**
    Walking ascending keys and keeping the non-null entries yields the
    entries at the ascending enumeration of the non-null keys.
   */
  lemma {:induction false} CollectInOrder(t: Table, ks: seq<Tid>)
    requires Increasing(ks)
    requires forall k :: k in ks ==> k in t
    ensures Collect(t, ks) == ValuesAt(t, SortedKeys(NonNullKeys(t, ks)))
  {
    if ks != [] {
      var k, rest := ks[0], ks[1..];
      NonNullKeysCons(t, ks);
      CollectInOrder(t, rest);
      var sk' := SortedKeys(NonNullKeys(t, rest));
      if t[k].Ref? {
        HeadIsLeast(ks);
        SortedKeysAddLeast(NonNullKeys(t, rest), k);
        assert ([k] + sk')[1..] == sk';
        assert ValuesAt(t, [k] + sk') == [t[k]] + ValuesAt(t, sk');
      }
    }
  }

  /** The threads whose entry is a non-null task. */
  function RunningSet(t: Table): set<Tid>
  {
    NonNullKeys(t, SortedKeys(t.Keys))
  }

  /** The threads whose entry is a non-null task, in ascending order. */
  function RunningKeys(t: Table): (ks: seq<Tid>)
    ensures Increasing(ks)
    ensures forall k :: k in ks <==> k in t && t[k].Ref?
  {
    SortedKeys(RunningSet(t))
  }

  /**
    `GetRunningTasks`: a copy, taken without changing the table, of exactly
    the non-null tasks, one per registered thread, in ascending thread order.
   */
  function GetRunningTasks(t: Table): (r: seq<TaskRef>)
    ensures |r| <= |t|
    ensures forall x :: x in r <==> x.Ref? && x in t.Values
    ensures r == ValuesAt(t, RunningKeys(t))
  {
    var ks := SortedKeys(t.Keys);
    CollectInOrder(t, ks);
    assert forall x :: x in t.Values <==> exists k :: k in ks && t[k] == x;
    Collect(t, ks)
  }
}
