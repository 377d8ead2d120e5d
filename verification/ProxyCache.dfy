/** The Djinni proxy cache (jni/support-lib/proxy_cache_impl.hpp, proxy_cache_interface.hpp): a map of weak
    references under a mutex, while proxies expire and handles are destroyed on other threads. */
module ProxyCache {
  import opened Wrappers

  /** A type tag and the address of the wrapped object. */
  datatype Key = Key(tag: nat, address: nat)

  /** A weak reference: the identity of the proxy; it is expired once the proxy has no owner. */
  type ProxyId = nat

  type Mapping = map<Key, ProxyId>

  // ---- the critical sections ----

  /** The lookup of `get`: the live proxy if there is one; an expired entry is pruned. */
  function Found(m: Mapping, key: Key, live: set<ProxyId>): Option<ProxyId> {
    if key in m && m[key] in live then Some(m[key]) else None
  }

  /** An entry is stale if its proxy has expired. */
  predicate Stale(m: Mapping, key: Key, live: set<ProxyId>) { key in m && m[key] !in live }

  /** `remove`, and the pruning of `get`: the entry is erased only if it is stale. */
  function Pruned(m: Mapping, key: Key, live: set<ProxyId>): Mapping {
    if Stale(m, key, live) then m - {key} else m
  }

  /** `emplace`: does nothing when the key is there. */
  function Emplaced(m: Mapping, key: Key, p: ProxyId): Mapping {
    if key in m then m else m[key := p]
  }

  class Pimpl {
    var mapping: Mapping

    constructor ()
      ensures mapping == map[]
    {
      mapping := map[];
    }

    /** `get`, run under the mutex; `live` are the proxies that a weak reference can still be upgraded to, and
        `fresh_` is the proxy that the allocator would create. */
    method Get(key: Key, live: set<ProxyId>, fresh_: ProxyId) returns (p: ProxyId)
      modifies this
      ensures Found(old(mapping), key, live).Some? ==> p == Found(old(mapping), key, live).value && mapping == old(mapping)
      ensures Found(old(mapping), key, live).None? ==>
        p == fresh_ && mapping == Emplaced(Pruned(old(mapping), key, live), key, fresh_) && mapping[key] == p
      ensures forall k :: k in old(mapping) && k != key ==> k in mapping && mapping[k] == old(mapping)[k]
    {
      if key in mapping {
        if mapping[key] in live {
          return mapping[key];
        }
        mapping := mapping - {key};
      }
      if key !in mapping {
        mapping := mapping[key := fresh_];
      }
      return fresh_;
    }

    /** `remove`, run under the mutex. */
    method Remove(key: Key, live: set<ProxyId>)
      modifies this
      ensures mapping == Pruned(old(mapping), key, live)
      ensures forall k :: k in old(mapping) && old(mapping)[k] in live ==> k in mapping && mapping[k] == old(mapping)[k]
    {
      if key in mapping {
        if mapping[key] !in live {
          mapping := mapping - {key};
        }
      }
    }
  }

  // ---- the whole system ----

  /** Life of a proxy: owned; without owner, its handle's destructor still to take the mutex; erasing under the
      mutex; cleaned up with the handle still owning the object; destroyed. */
  datatype Phase = Live(owners: nat) | Expired | Erasing | CleanedUp | Gone

  /** `object` is the identity of the wrapped object: addresses are reused, identities are not. */
  datatype Proxy = Proxy(key: Key, impl: nat, phase: Phase)

  /** Who is inside a critical section that spans several steps. */
  datatype Mutex = Free | InGet(key: Key, impl: nat) | InRemove(proxy: ProxyId)

  /** `objects`: which object lives at an address. `owners`: strong references to an object held outside the
      cache. `used`: all object identities so far. */
  datatype State = State(mapping: Mapping, proxies: map<ProxyId, Proxy>, mutex: Mutex,
                         objects: map<nat, nat>, owners: map<nat, nat>, used: set<nat>)

  function LiveProxies(s: State): set<ProxyId> {
    set p | p in s.proxies && s.proxies[p].phase.Live?
  }

  function OwnersOf(s: State, impl: nat): nat {
    if impl in s.owners then s.owners[impl] else 0
  }

  /** A handle that has not been destroyed owns its object. */
  ghost predicate HeldByHandle(s: State, impl: nat) {
    exists p :: p in s.proxies && s.proxies[p].impl == impl && !s.proxies[p].phase.Gone?
  }

  datatype Event =
    | CreateObject(address: nat, impl: nat)
    | DestroyObject(address: nat)
    | Retain(impl: nat)
    | RetainFromProxy(p: ProxyId)
    | Release(impl: nat)
    | GetLookup(key: Key)
    | GetInsert(p: ProxyId)
    | CopyProxy(p: ProxyId)
    | DropProxy(p: ProxyId)
    | RemoveLookup(p: ProxyId)
    | RemoveErase
    | DestroyHandle(p: ProxyId)

  ghost predicate Enabled(s: State, e: Event) {
    match e
    case CreateObject(a, o) => a !in s.objects && o !in s.used
    case DestroyObject(a) =>
      a in s.objects && OwnersOf(s, s.objects[a]) == 0 && !HeldByHandle(s, s.objects[a])
      && !(s.mutex.InGet? && s.mutex.impl == s.objects[a])
    case Retain(o) => OwnersOf(s, o) > 0
    case RetainFromProxy(p) => p in s.proxies && s.proxies[p].phase.Live?
    case Release(o) => OwnersOf(s, o) > 0
    case GetLookup(k) => s.mutex.Free? && k.address in s.objects && OwnersOf(s, s.objects[k.address]) > 0
    case GetInsert(p) => s.mutex.InGet? && p !in s.proxies
    case CopyProxy(p) => p in s.proxies && s.proxies[p].phase.Live?
    case DropProxy(p) => p in s.proxies && s.proxies[p].phase.Live?
    case RemoveLookup(p) => s.mutex.Free? && p in s.proxies && s.proxies[p].phase.Expired?
    case RemoveErase => s.mutex.InRemove? && s.mutex.proxy in s.proxies
    case DestroyHandle(p) => p in s.proxies && s.proxies[p].phase.CleanedUp?
  }

  function WithPhase(s: State, p: ProxyId, phase: Phase): State
    requires p in s.proxies
  {
    s.(proxies := s.proxies[p := s.proxies[p].(phase := phase)])
  }

  ghost function Apply(s: State, e: Event): State
    requires Enabled(s, e)
  {
    match e
    case CreateObject(a, o) => s.(objects := s.objects[a := o], owners := s.owners[o := 1], used := s.used + {o})
    case DestroyObject(a) => s.(objects := s.objects - {a})
    case Retain(o) => s.(owners := s.owners[o := s.owners[o] + 1])
    case RetainFromProxy(p) => s.(owners := s.owners[s.proxies[p].impl := OwnersOf(s, s.proxies[p].impl) + 1])
    case Release(o) => s.(owners := s.owners[o := s.owners[o] - 1])
    case GetLookup(k) =>
      // A hit takes a strong reference before the mutex is released. A miss keeps the mutex while the
      // allocator runs, and the caller's reference to the object with it.
      var o := s.objects[k.address];
      var found := Found(s.mapping, k, LiveProxies(s));
      if found.Some? then WithPhase(s, found.value, Live(s.proxies[found.value].phase.owners + 1))
      else s.(mapping := Pruned(s.mapping, k, LiveProxies(s)), mutex := InGet(k, o), owners := s.owners[o := s.owners[o] - 1])
    case GetInsert(p) =>
      var o := s.mutex.impl;
      s.(mapping := Emplaced(s.mapping, s.mutex.key, p), proxies := s.proxies[p := Proxy(s.mutex.key, o, Live(1))],
         mutex := Free, owners := s.owners[o := OwnersOf(s, o) + 1])
    case CopyProxy(p) => WithPhase(s, p, Live(s.proxies[p].phase.owners + 1))
    case DropProxy(p) =>
      var n := s.proxies[p].phase.owners;
      WithPhase(s, p, if n > 1 then Live(n - 1) else Expired)
    case RemoveLookup(p) =>
      var k := s.proxies[p].key;
      if Stale(s.mapping, k, LiveProxies(s)) then WithPhase(s, p, Erasing).(mutex := InRemove(p))
      else WithPhase(s, p, CleanedUp)
    case RemoveErase =>
      var p := s.mutex.proxy;
      WithPhase(s, p, CleanedUp).(mapping := s.mapping - {s.proxies[p].key}, mutex := Free)
    case DestroyHandle(p) => WithPhase(s, p, Gone)
  }

  ghost function Initial(): State { State(map[], map[], Free, map[], map[], {}) }

  ghost predicate Feasible(s: State, run: seq<Event>)
    decreases |run|
  {
    run == [] || (Enabled(s, run[0]) && Feasible(Apply(s, run[0]), run[1..]))
  }

  ghost function Outcome(s: State, run: seq<Event>): State
    requires Feasible(s, run)
    decreases |run|
  {
    if run == [] then s else Outcome(Apply(s, run[0]), run[1..])
  }

  // ---- the invariant ----

  /** The destructor of the proxy's handle has not finished with the map. */
  predicate DestructorPending(phase: Phase) { phase.Expired? || phase.Erasing? }

  ghost predicate EntriesOk(s: State) {
    forall k :: k in s.mapping ==>
      && s.mapping[k] in s.proxies
      && s.proxies[s.mapping[k]].key == k
      && (s.proxies[s.mapping[k]].phase.Live? || DestructorPending(s.proxies[s.mapping[k]].phase))
  }

  ghost predicate LiveAreMapped(s: State) {
    forall p :: p in s.proxies && s.proxies[p].phase.Live? ==>
      s.proxies[p].key in s.mapping && s.mapping[s.proxies[p].key] == p
  }

  ghost predicate HandlesOwn(s: State) {
    forall p :: p in s.proxies && !s.proxies[p].phase.Gone? ==>
      s.proxies[p].key.address in s.objects && s.objects[s.proxies[p].key.address] == s.proxies[p].impl
  }

  ghost predicate MutexOk(s: State) {
    && (forall p :: p in s.proxies && s.proxies[p].phase.Erasing? ==> s.mutex == InRemove(p))
    && (s.mutex.InGet? ==>
          s.mutex.key !in s.mapping && s.mutex.key.address in s.objects && s.objects[s.mutex.key.address] == s.mutex.impl)
    && (s.mutex.InRemove? ==>
          s.mutex.proxy in s.proxies && s.proxies[s.mutex.proxy].phase.Erasing?
          && s.proxies[s.mutex.proxy].key in s.mapping
          && !s.proxies[s.mutex.proxy].phase.Live?
          && var q := s.mapping[s.proxies[s.mutex.proxy].key];
             q in s.proxies && !s.proxies[q].phase.Live?)
  }

  /** Identities of current objects are distinct and used up. */
  ghost predicate ObjectsOk(s: State) {
    && (forall a :: a in s.objects ==> s.objects[a] in s.used)
    && (forall a, b :: a in s.objects && b in s.objects && s.objects[a] == s.objects[b] ==> a == b)
    && (forall p :: p in s.proxies ==> s.proxies[p].impl in s.used)
  }

  ghost predicate Inv(s: State) {
    EntriesOk(s) && LiveAreMapped(s) && HandlesOwn(s) && MutexOk(s) && ObjectsOk(s)
  }

  lemma ObjectStepKeepsInv(s: State, e: Event)
    requires Inv(s) && Enabled(s, e)
    requires e.CreateObject? || e.DestroyObject? || e.Retain? || e.RetainFromProxy? || e.Release?
    ensures Inv(Apply(s, e))
  {}

  lemma LookupKeepsInv(s: State, k: Key)
    requires Inv(s) && Enabled(s, GetLookup(k))
    ensures Inv(Apply(s, GetLookup(k)))
  {}

  lemma InsertKeepsInv(s: State, p: ProxyId)
    requires Inv(s) && Enabled(s, GetInsert(p))
    ensures Inv(Apply(s, GetInsert(p)))
  {}

  lemma CopyKeepsInv(s: State, p: ProxyId)
    requires Inv(s) && Enabled(s, CopyProxy(p))
    ensures Inv(Apply(s, CopyProxy(p)))
  {}

  lemma DropKeepsInv(s: State, p: ProxyId)
    requires Inv(s) && Enabled(s, DropProxy(p))
    ensures Inv(Apply(s, DropProxy(p)))
  {}

  lemma DestroyHandleKeepsInv(s: State, p: ProxyId)
    requires Inv(s) && Enabled(s, DestroyHandle(p))
    ensures Inv(Apply(s, DestroyHandle(p)))
  {}

  lemma RemoveLookupKeepsInv(s: State, p: ProxyId)
    requires Inv(s) && Enabled(s, RemoveLookup(p))
    ensures Inv(Apply(s, RemoveLookup(p)))
  {
    var t := Apply(s, RemoveLookup(p));
    assert t.mapping == s.mapping && t.objects == s.objects && t.used == s.used;
    assert forall q :: q in s.proxies && q != p ==> q in t.proxies && t.proxies[q] == s.proxies[q];
    assert LiveProxies(t) == LiveProxies(s);
    if Stale(s.mapping, s.proxies[p].key, LiveProxies(s)) {
      assert t.proxies[p].phase == Erasing && t.mutex == InRemove(p);
    } else {
      assert t.proxies[p].phase == CleanedUp && t.mutex == Free;
      assert forall k :: k in s.mapping ==> s.mapping[k] != p;
    }
  }

  lemma EraseKeepsInv(s: State)
    requires Inv(s) && Enabled(s, RemoveErase)
    ensures Inv(Apply(s, RemoveErase))
  {}

  lemma StepKeepsInv(s: State, e: Event)
    requires Inv(s) && Enabled(s, e)
    ensures Inv(Apply(s, e))
  {
    hide Inv, Enabled, Apply;
    match e
    case GetLookup(k) => LookupKeepsInv(s, k);
    case GetInsert(p) => InsertKeepsInv(s, p);
    case CopyProxy(p) => CopyKeepsInv(s, p);
    case DropProxy(p) => DropKeepsInv(s, p);
    case DestroyHandle(p) => DestroyHandleKeepsInv(s, p);
    case RemoveLookup(p) => RemoveLookupKeepsInv(s, p);
    case RemoveErase => EraseKeepsInv(s);
    case _ => ObjectStepKeepsInv(s, e);
  }

  lemma {:induction false} RunKeepsInv(s: State, run: seq<Event>)
    requires Inv(s) && Feasible(s, run)
    ensures Inv(Outcome(s, run))
    decreases |run|
  {
    if run != [] {
      StepKeepsInv(s, run[0]);
      RunKeepsInv(Apply(s, run[0]), run[1..]);
    }
  }

  /** After every run: a key has at most one live proxy, and the map leads to it. */
  lemma AtMostOneLiveProxy(run: seq<Event>, p: ProxyId, q: ProxyId)
    requires Feasible(Initial(), run)
    requires var s := Outcome(Initial(), run);
             p in s.proxies && q in s.proxies && s.proxies[p].phase.Live? && s.proxies[q].phase.Live? && s.proxies[p].key == s.proxies[q].key
    ensures p == q
    ensures var s := Outcome(Initial(), run);
            s.proxies[p].key in s.mapping && s.mapping[s.proxies[p].key] == p
  {
    RunKeepsInv(Initial(), run);
  }

  /** After every run: the object behind any key in the map is still the one that its proxy wraps, owned by
      that proxy's handle; and an expired entry has its handle's destructor pending. */
  lemma EntriesAreOwned(run: seq<Event>, k: Key)
    requires Feasible(Initial(), run) && k in Outcome(Initial(), run).mapping
    ensures var s := Outcome(Initial(), run);
            && s.mapping[k] in s.proxies
            && k.address in s.objects && s.objects[k.address] == s.proxies[s.mapping[k]].impl
            && HeldByHandle(s, s.objects[k.address])
            && !Enabled(s, DestroyObject(k.address))
            && (s.mapping[k] in LiveProxies(s) || DestructorPending(s.proxies[s.mapping[k]].phase))
  {
    RunKeepsInv(Initial(), run);
  }

  /** After every run with no destructor pending, the map holds exactly the live proxies. */
  lemma QuiescentMapIsLive(run: seq<Event>)
    requires Feasible(Initial(), run)
    requires forall p :: p in Outcome(Initial(), run).proxies ==> !DestructorPending(Outcome(Initial(), run).proxies[p].phase)
    ensures var s := Outcome(Initial(), run);
            forall k, p :: (k in s.mapping && s.mapping[k] == p) <==> (p in s.proxies && s.proxies[p].phase.Live? && s.proxies[p].key == k)
  {
    RunKeepsInv(Initial(), run);
  }

  /** Identity: while a proxy for an object lives, every lookup of the object returns that proxy, and it wraps
      that very object. */
  lemma LookupReturnsTheLiveProxy(run: seq<Event>, k: Key, p: ProxyId)
    requires Feasible(Initial(), run)
    requires var s := Outcome(Initial(), run);
             Enabled(s, GetLookup(k)) && p in s.proxies && s.proxies[p].phase.Live? && s.proxies[p].key == k
    ensures var s := Outcome(Initial(), run);
            var t := Apply(s, GetLookup(k));
            && Found(s.mapping, k, LiveProxies(s)) == Some(p)
            && s.proxies[p].impl == s.objects[k.address]
            && t.mapping == s.mapping && t.proxies[p].phase == Live(s.proxies[p].phase.owners + 1)
  {
    RunKeepsInv(Initial(), run);
  }

  /** A destructor that comes late never evicts another proxy that lives. */
  lemma LateRemoveKeepsLiveEntries(run: seq<Event>, e: Event, q: ProxyId)
    requires Feasible(Initial(), run) && Enabled(Outcome(Initial(), run), e) && (e.RemoveLookup? || e.RemoveErase?)
    requires var s := Outcome(Initial(), run); q in s.proxies && s.proxies[q].phase.Live?
    ensures var s := Outcome(Initial(), run);
            var t := Apply(s, e);
            && t.proxies[q] == s.proxies[q]
            && s.proxies[q].key in t.mapping && t.mapping[s.proxies[q].key] == q
  {
    RunKeepsInv(Initial(), run);
    StepKeepsInv(Outcome(Initial(), run), e);
  }
}
