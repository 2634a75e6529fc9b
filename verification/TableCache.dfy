/** openSyncTable: one cache of synchronized tables shared by all threads. Each step is a section of
    code that runs under the cache mutex, or the creation of a table outside of it. */
module TableCache {

  /** Where a thread is: not in the call, about to look, waiting for a creation to end, creating a
      table, holding a created table not yet in the cache, or holding its result. */
  datatype Thread<K> =
    | Idle
    | Looking(key: K)
    | Waiting(key: K)
    | Creating(key: K)
    | Made(key: K, table: nat)
    | Holding(key: K, table: nat)

  /** `cache` holds weak pointers; a table is `live` while something refers to it strongly.
      `keyOf` remembers what every table ever made was opened for. */
  datatype State<K> = State(
    threads: seq<Thread<K>>, cache: map<K, nat>, creatingTable: bool,
    live: set<nat>, keyOf: seq<K>)

  predicate Busy<K>(t: Thread<K>) { t.Creating? || t.Made? }

  predicate Holds<K>(t: Thread<K>, table: nat) { (t.Made? || t.Holding?) && t.table == table }

  // ------------------------------------------------------------ steps

  /** A waiting thread may look again at any time: when it is notified, or spuriously. */
  datatype Action<K> = Call(key: K) | Look | OpenOk | OpenFailed | Install | Return | Die(table: nat)

  /** The thread's turn: with the cache mutex held, take a live entry, wait, or become the creator. */
  function LookStep<K>(s: State<K>, i: nat, key: K): State<K>
    requires i < |s.threads|
  {
    if key in s.cache && s.cache[key] in s.live then s.(threads := s.threads[i := Holding(key, s.cache[key])])
    else if s.creatingTable then s.(threads := s.threads[i := Waiting(key)])
    else s.(threads := s.threads[i := Creating(key)], creatingTable := true)
  }

  predicate Enabled<K>(s: State<K>, i: nat, a: Action<K>) {
    && i < |s.threads|
    && match a
       case Call(_) => s.threads[i].Idle?
       case Look => s.threads[i].Looking? || s.threads[i].Waiting?
       case OpenOk => s.threads[i].Creating?
       case OpenFailed => s.threads[i].Creating?
       case Install => s.threads[i].Made?
       case Return => s.threads[i].Holding?
       case Die(t) => t in s.live && forall j :: 0 <= j < |s.threads| ==> !Holds(s.threads[j], t)
  }

  function Step<K>(s: State<K>, i: nat, a: Action<K>): State<K>
    requires Enabled(s, i, a)
  {
    var t := s.threads[i];
    match a
    case Call(key) => s.(threads := s.threads[i := Looking(key)])
    case Look => LookStep(s, i, t.key)
    case OpenOk =>
      s.(threads := s.threads[i := Made(t.key, |s.keyOf|)], live := s.live + {|s.keyOf|}, keyOf := s.keyOf + [t.key])
    case OpenFailed =>
      s.(threads := s.threads[i := Idle], creatingTable := false)
    case Install =>
      s.(threads := s.threads[i := Holding(t.key, t.table)], creatingTable := false,
         cache := s.cache[t.key := t.table])
    case Return => s.(threads := s.threads[i := Idle])
    case Die(d) => s.(live := s.live - {d})
  }

  ghost predicate Init<K>(s: State<K>) {
    && (forall i :: 0 <= i < |s.threads| ==> s.threads[i].Idle?)
    && s.cache == map[] && !s.creatingTable && s.live == {} && s.keyOf == []
  }

  ghost predicate Next<K(!new)>(s: State<K>, i: nat, a: Action<K>, s': State<K>) {
    Enabled(s, i, a) && s' == Step(s, i, a)
  }

  ghost predicate SomeStep<K(!new)>(s: State<K>, s': State<K>) {
    exists i: nat, a :: Next(s, i, a, s')
  }

  ghost predicate Execution<K(!new)>(states: seq<State<K>>) {
    && |states| > 0 && Init(states[0])
    && forall k :: 0 < k < |states| ==> SomeStep(states[k - 1], states[k])
  }

  // ------------------------------------------------------------ invariants

  /** The flag is set exactly while one thread is between becoming the creator and installing. */
  ghost predicate OneCreator<K>(s: State<K>) {
    && (forall i, j :: 0 <= i < |s.threads| && 0 <= j < |s.threads| && Busy(s.threads[i]) && Busy(s.threads[j]) ==> i == j)
    && (s.creatingTable <==> exists i :: 0 <= i < |s.threads| && Busy(s.threads[i]))
  }

  /** Tables are what they were made for, and whoever holds one keeps it alive. */
  ghost predicate Typed<K>(s: State<K>) {
    && (forall t :: t in s.live ==> t < |s.keyOf|)
    && (forall k :: k in s.cache ==> s.cache[k] < |s.keyOf| && s.keyOf[s.cache[k]] == k)
    && (forall i :: 0 <= i < |s.threads| && (s.threads[i].Made? || s.threads[i].Holding?) ==>
          s.threads[i].table in s.live && s.keyOf[s.threads[i].table] == s.threads[i].key)
  }

  /** While a table is being made for a key, the cache has no live table for it. */
  ghost predicate CreatesOnlyMissing<K>(s: State<K>) {
    forall i :: 0 <= i < |s.threads| && Busy(s.threads[i]) && s.threads[i].key in s.cache ==>
      s.cache[s.threads[i].key] !in s.live
  }

  ghost predicate Cached<K>(s: State<K>, t: nat)
    requires t < |s.keyOf|
  {
    s.keyOf[t] in s.cache && s.cache[s.keyOf[t]] == t
  }

  ghost predicate BeingInstalled<K>(s: State<K>, t: nat) {
    exists i :: 0 <= i < |s.threads| && s.threads[i].Made? && s.threads[i].table == t
  }

  /** Every live table is in the cache under its key, or about to be. */
  ghost predicate LiveIsCached<K>(s: State<K>) {
    forall t :: t in s.live ==> t < |s.keyOf| && (Cached(s, t) || BeingInstalled(s, t))
  }

  ghost predicate Inv<K>(s: State<K>) {
    OneCreator(s) && Typed(s) && CreatesOnlyMissing(s) && LiveIsCached(s)
  }

  lemma {:induction false} LookKeeps<K>(s: State<K>, i: nat)
    requires Inv(s) && Enabled(s, i, Look)
    ensures Inv(Step(s, i, Look))
  {
    var s', key := Step(s, i, Look), s.threads[i].key;
    assert forall j :: 0 <= j < |s.threads| && j != i ==> s'.threads[j] == s.threads[j];
    assert !Busy(s.threads[i]);
    if !(key in s.cache && s.cache[key] in s.live) && !s.creatingTable {
      assert Busy(s'.threads[i]);
      forall j | 0 <= j < |s.threads| ensures !Busy(s.threads[j]) { }
    } else {
      forall j | 0 <= j < |s.threads| ensures Busy(s'.threads[j]) == Busy(s.threads[j]) { }
    }
    MadeKept(s, s', i);
  }

  /** Threads other than `i` that hold a made table still hold it. */
  lemma {:induction false} MadeKept<K>(s: State<K>, s': State<K>, i: nat)
    requires LiveIsCached(s) && Typed(s) && i < |s.threads| == |s'.threads| && !s.threads[i].Made?
    requires forall j :: 0 <= j < |s.threads| && j != i && s.threads[j].Made? ==> s'.threads[j] == s.threads[j]
    requires s'.live <= s.live && s'.cache == s.cache && s'.keyOf == s.keyOf
    ensures LiveIsCached(s')
  {
    forall t | t in s'.live
      ensures t < |s'.keyOf| && (Cached(s', t) || BeingInstalled(s', t))
    {
      if !Cached(s, t) {
        var j :| 0 <= j < |s.threads| && s.threads[j].Made? && s.threads[j].table == t;
        assert s'.threads[j].Made? && s'.threads[j].table == t;
      }
    }
  }

  lemma {:induction false} OpenOkKeeps<K>(s: State<K>, i: nat)
    requires Inv(s) && Enabled(s, i, OpenOk)
    ensures Inv(Step(s, i, OpenOk))
  {
    var s' := Step(s, i, OpenOk);
    var n := |s.keyOf|;
    assert forall j :: 0 <= j < |s.threads| && j != i ==> s'.threads[j] == s.threads[j];
    assert Busy(s.threads[i]) && Busy(s'.threads[i]);
    assert forall j :: 0 <= j < |s.threads| ==> Busy(s'.threads[j]) == Busy(s.threads[j]);
    assert forall t :: t in s.live ==> s'.keyOf[t] == s.keyOf[t];
    assert BeingInstalled(s', n) by { assert s'.threads[i].Made? && s'.threads[i].table == n; }
    NoneInstalled(s, i);
    assert forall t :: t in s.live ==> Cached(s', t);
  }

  /** While a thread is opening a table no other is installing one. */
  lemma {:induction false} NoneInstalled<K>(s: State<K>, i: nat)
    requires Inv(s) && i < |s.threads| && s.threads[i].Creating?
    ensures forall t :: t in s.live ==> t < |s.keyOf| && Cached(s, t)
  {
    assert Busy(s.threads[i]);
    forall j | 0 <= j < |s.threads| ensures !s.threads[j].Made? {
      assert Busy(s.threads[j]) ==> j == i;
    }
  }

  lemma {:induction false} OpenFailedKeeps<K>(s: State<K>, i: nat)
    requires Inv(s) && Enabled(s, i, OpenFailed)
    ensures Inv(Step(s, i, OpenFailed))
  {
    var s' := Step(s, i, OpenFailed);
    assert Busy(s.threads[i]);
    forall j | 0 <= j < |s.threads| ensures !Busy(s'.threads[j]) {
      if j != i { assert Busy(s'.threads[j]) == Busy(s.threads[j]); }
    }
    MadeKept(s, s', i);
  }

  lemma {:induction false} InstallKeeps<K>(s: State<K>, i: nat)
    requires Inv(s) && Enabled(s, i, Install)
    ensures Inv(Step(s, i, Install))
  {
    var s', key, table := Step(s, i, Install), s.threads[i].key, s.threads[i].table;
    assert Busy(s.threads[i]);
    forall j | 0 <= j < |s.threads| ensures !Busy(s'.threads[j]) {
      if j != i { assert Busy(s'.threads[j]) == Busy(s.threads[j]); }
    }
    forall t | t in s'.live ensures t < |s'.keyOf| && Cached(s', t) {
      if BeingInstalled(s, t) {
        var j :| 0 <= j < |s.threads| && s.threads[j].Made? && s.threads[j].table == t;
        assert Busy(s.threads[j]);
      } else {
        assert Cached(s, t) && s.keyOf[t] != key;
      }
    }
  }

  lemma {:induction false} QuietKeeps<K>(s: State<K>, i: nat, a: Action<K>)
    requires Inv(s) && Enabled(s, i, a) && (a.Call? || a.Return? || a.Die?)
    ensures Inv(Step(s, i, a))
  {
    var s' := Step(s, i, a);
    assert forall j :: 0 <= j < |s.threads| ==> Busy(s'.threads[j]) == Busy(s.threads[j]);
    if a.Die? {
      forall j | 0 <= j < |s.threads| && (s.threads[j].Made? || s.threads[j].Holding?)
        ensures s.threads[j].table != a.table
      {
        assert !Holds(s.threads[j], a.table);
      }
    }
    if a.Die? && s.threads[i].Made? {
      forall t | t in s'.live ensures t < |s'.keyOf| && (Cached(s', t) || BeingInstalled(s', t)) {
        assert Cached(s, t) == Cached(s', t) && BeingInstalled(s, t) == BeingInstalled(s', t);
      }
    } else {
      MadeKept(s, s', i);
    }
  }

  lemma {:induction false} StepKeeps<K>(s: State<K>, i: nat, a: Action<K>)
    requires Inv(s) && Enabled(s, i, a)
    ensures Inv(Step(s, i, a))
  {
    hide Inv, Step;
    match a {
      case Look => LookKeeps(s, i);
      case OpenOk => OpenOkKeeps(s, i);
      case OpenFailed => OpenFailedKeeps(s, i);
      case Install => InstallKeeps(s, i);
      case Call(_) => QuietKeeps(s, i, a);
      case Return => QuietKeeps(s, i, a);
      case Die(_) => QuietKeeps(s, i, a);
    }
  }

  lemma {:induction false} InitKeeps<K>(s: State<K>)
    requires Init(s)
    ensures Inv(s)
  {
  }

  lemma {:induction false} ExecutionKeeps<K(!new)>(states: seq<State<K>>, k: nat)
    requires Execution(states) && k < |states|
    ensures Inv(states[k])
  {
    hide Inv, Step, Init;
    if k == 0 {
      InitKeeps(states[0]);
    } else {
      ExecutionKeeps(states, k - 1);
      var i: nat, a :| Next(states[k - 1], i, a, states[k]);
      StepKeeps(states[k - 1], i, a);
    }
  }

  /** In every interleaving of calls and table deaths: at most one thread is creating, at most one live
      table exists per key, and callers that hold a table for the same key hold the same one. */
  lemma {:induction false} OneTablePerKey<K(!new)>(states: seq<State<K>>, k: nat)
    requires Execution(states) && k < |states|
    ensures AtMostOneCreator(states[k]) && OneLivePerKey(states[k]) && HoldersShare(states[k])
  {
    hide Inv, Execution, OneLivePerKey, HoldersShare;
    ExecutionKeeps(states, k);
    LiveUnique(states[k]);
  }

  /** A table for the key that a thread can take: alive, and not waiting to be put into the cache. */
  ghost predicate Available<K>(s: State<K>, key: K, t: nat) {
    t in s.live && t < |s.keyOf| && s.keyOf[t] == key && !BeingInstalled(s, t)
  }

  ghost predicate SomeoneBusy<K>(s: State<K>) { exists j :: 0 <= j < |s.threads| && Busy(s.threads[j]) }

  /** In every execution a thread that looks takes the available table if there is one; else it waits exactly while
      some other thread is creating a table, and otherwise becomes the creator itself. */
  lemma {:induction false} LookDecides<K(!new)>(states: seq<State<K>>, k: nat, i: nat)
    requires Execution(states) && k + 1 < |states| && Next(states[k], i, Look, states[k + 1])
    ensures var s, s', key := states[k], states[k + 1], states[k].threads[i].key;
      && |s'.threads| == |s.threads|
      && (forall t :: Available(s, key, t) ==> s'.threads[i] == Holding(key, t))
      && ((forall t :: !Available(s, key, t)) ==> s'.threads[i] == if SomeoneBusy(s) then Waiting(key) else Creating(key))
  {
    ExecutionKeeps(states, k);
    hide Execution;
    LookTakes(states[k], i);
  }

  lemma {:induction false} LookTakes<K>(s: State<K>, i: nat)
    requires Inv(s) && Enabled(s, i, Look)
    ensures var s', key := Step(s, i, Look), s.threads[i].key;
      && |s'.threads| == |s.threads|
      && (forall t :: Available(s, key, t) ==> s'.threads[i] == Holding(key, t))
      && ((forall t :: !Available(s, key, t)) ==> s'.threads[i] == if SomeoneBusy(s) then Waiting(key) else Creating(key))
  {
    var key := s.threads[i].key;
    forall t | Available(s, key, t) ensures key in s.cache && s.cache[key] == t {
      assert Cached(s, t);
    }
    if key in s.cache && s.cache[key] in s.live {
      var t := s.cache[key];
      assert !BeingInstalled(s, t) by { CachedIsInstalled(s, t); }
      assert Available(s, key, t);
    }
  }

  lemma {:induction false} CachedIsInstalled<K>(s: State<K>, t: nat)
    requires Inv(s) && t in s.live && t < |s.keyOf| && Cached(s, t)
    ensures !BeingInstalled(s, t)
  {
    forall j | 0 <= j < |s.threads| && s.threads[j].Made? ensures s.threads[j].table != t {
      assert Busy(s.threads[j]);
    }
  }

  ghost predicate AtMostOneCreator<K>(s: State<K>) {
    forall i, j :: 0 <= i < |s.threads| && 0 <= j < |s.threads| && Busy(s.threads[i]) && Busy(s.threads[j]) ==> i == j
  }

  ghost predicate OneLivePerKey<K>(s: State<K>) {
    forall t, u :: t in s.live && u in s.live && t < |s.keyOf| && u < |s.keyOf| && s.keyOf[t] == s.keyOf[u] ==> t == u
  }

  ghost predicate HoldersShare<K>(s: State<K>) {
    forall i, j :: 0 <= i < |s.threads| && 0 <= j < |s.threads| && HasTable(s.threads[i]) && HasTable(s.threads[j]) ==>
      s.threads[i].key == s.threads[j].key ==> s.threads[i].table == s.threads[j].table
  }

  predicate HasTable<K>(t: Thread<K>) { t.Made? || t.Holding? }

  lemma {:induction false} InstalledIsOnly<K>(s: State<K>, t: nat, u: nat)
    requires Inv(s) && BeingInstalled(s, t) && t in s.live && u in s.live
    requires t < |s.keyOf| && u < |s.keyOf| && s.keyOf[t] == s.keyOf[u]
    ensures t == u
  {
    var i :| 0 <= i < |s.threads| && s.threads[i].Made? && s.threads[i].table == t;
    assert Busy(s.threads[i]) && s.threads[i].key == s.keyOf[u];
    assert !Cached(s, u);
    var j :| 0 <= j < |s.threads| && s.threads[j].Made? && s.threads[j].table == u;
    assert Busy(s.threads[j]);
  }

  /** Two tables for one key: at most one is in the cache, at most one is being installed, and a table
      is installed only where the cache has no live one. */
  lemma {:induction false} LiveUnique<K>(s: State<K>)
    requires Inv(s)
    ensures AtMostOneCreator(s) && OneLivePerKey(s) && HoldersShare(s)
  {
    forall t, u | t in s.live && u in s.live && t < |s.keyOf| && u < |s.keyOf| && s.keyOf[t] == s.keyOf[u]
      ensures t == u
    {
      if BeingInstalled(s, t) {
        InstalledIsOnly(s, t, u);
      } else if BeingInstalled(s, u) {
        InstalledIsOnly(s, u, t);
      }
    }
  }
}
