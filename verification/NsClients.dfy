/**
  The table of non-secure client contexts: a free list threaded through an array of slots, the
  active slot, and the generator of client identifiers.
*/
module NsClients {
  import opened Sequences

  const INVALID_CLIENT_ID: int := 0
  const DEFAULT_NS_CLIENT_ID: int := -1
  const INVALID_IDX: int := -1
  const DEFAULT_IDX: int := 0

  const INT32_MIN: int := -0x8000_0000
  const INT32_MAX: int := 0x7FFF_FFFF

  datatype Client = Client(id: int, next: int)

  datatype Table = Table(list: seq<Client>, free: int, active: int, nextId: int)

  // ---------------------------------------------------------------- the operations

  // get_next_ns_client_id: the identifier, and the counter after its decrement in 32 bits
  function GenerateId(nextId: int): (int, int) {
    var id := if nextId > 0 then DEFAULT_NS_CLIENT_ID else nextId;
    (id, if id == INT32_MIN then INT32_MAX else id - 1)
  }

  predicate CounterOk(nextId: int) { INT32_MIN <= nextId < 0 || nextId == INT32_MAX }

  datatype Op =
    | Alloc
    | Free(id: nat)
    | Load(id: nat)
    | Store(id: nat)
    | Register(clientId: int)

  datatype Status = Value(n: nat) | ThreadModeCall | InvalidParameter | Generic | Success

  predicate Refers(t: Table, id: nat) {
    0 < id <= |t.list| && t.list[id - 1].id != INVALID_CLIENT_ID
  }

  // One call from handler mode
  function Apply(t: Table, op: Op): (r: (Status, Table))
    requires t.free < |t.list| && t.active < |t.list|
  {
    match op
    case Alloc =>
      if t.free < 0 then (Value(0), t)
      else
        var (id, n) := GenerateId(t.nextId);
        (Value(t.free + 1),
         t.(list := t.list[t.free := t.list[t.free].(id := id)], free := t.list[t.free].next, nextId := n))
    case Free(id) =>
      if !Refers(t, id) then (Value(0), t)
      else
        var i := id - 1;
        (Value(1), t.(list := t.list[i := Client(INVALID_CLIENT_ID, t.free)], free := i,
                      active := if t.active == i then DEFAULT_IDX else t.active))
    case Load(id) =>
      if !Refers(t, id) then (Value(0), t) else (Value(1), t.(active := id - 1))
    case Store(id) =>
      if !Refers(t, id) || t.active != id - 1 then (Value(0), t) else (Value(1), t.(active := DEFAULT_IDX))
    case Register(clientId) =>
      if clientId >= 0 then (InvalidParameter, t)
      else if t.active < 0 then (Generic, t)
      else if t.list[t.active].id >= 0 then (InvalidParameter, t)
      else (Success, t.(list := t.list[t.active := t.list[t.active].(id := clientId)]))
  }

  // tfm_nspm_get_current_client_id
  function CurrentClientId(t: Table): int
    requires t.active < |t.list|
  {
    if t.active < 0 then INVALID_CLIENT_ID else t.list[t.active].id
  }

  // Each veneer refuses a call from thread mode.
  function Call(t: Table, threadMode: bool, op: Op): (Status, Table)
    requires t.free < |t.list| && t.active < |t.list|
  {
    if threadMode then (if op.Register? then ThreadModeCall else Value(0), t) else Apply(t, op)
  }

  // ---------------------------------------------------------------- the free list

  // Following the links from head visits exactly ch and then ends.
  predicate Links(list: seq<Client>, head: int, ch: seq<nat>)
    decreases |ch|
  {
    if ch == [] then head == INVALID_IDX
    else head == ch[0] < |list| && Links(list, list[head].next, ch[1..])
  }

  // ch visits each slot with the invalid identifier once, and nothing else.
  ghost predicate FreeList(t: Table, ch: seq<nat>) {
    && Distinct(ch) && Links(t.list, t.free, ch)
    && (forall i :: 0 <= i < |t.list| ==> (i in ch <==> t.list[i].id == INVALID_CLIENT_ID))
  }

  ghost predicate Inv(t: Table, ch: seq<nat>) {
    && |t.list| >= 2 && FreeList(t, ch)
    && 0 <= t.active < |t.list| && CounterOk(t.nextId)
    && (forall i :: 0 <= i < |t.list| ==> t.list[i].id <= 0)
    && (t.active != DEFAULT_IDX ==> t.list[t.active].id != INVALID_CLIENT_ID)
  }

  lemma {:induction false} LinksBelow(list: seq<Client>, head: int, ch: seq<nat>)
    requires Links(list, head, ch)
    ensures head < |list| && forall k :: 0 <= k < |ch| ==> ch[k] < |list|
    decreases |ch|
  {
    if ch != [] {
      LinksBelow(list, list[head].next, ch[1..]);
      assert forall k :: 0 < k < |ch| ==> ch[k] == ch[1..][k - 1];
    }
  }

  // Links depend only on the successors of the slots they visit.
  lemma {:induction false} LinksFrame(list: seq<Client>, list2: seq<Client>, head: int, ch: seq<nat>)
    requires Links(list, head, ch) && |list2| == |list|
    requires forall i :: 0 <= i < |list| && i in ch ==> list2[i].next == list[i].next
    ensures Links(list2, head, ch)
    decreases |ch|
  {
    if ch != [] {
      LinksFrame(list, list2, list[head].next, ch[1..]);
    }
  }

  lemma {:induction false} LinksUnique(list: seq<Client>, head: int, ch: seq<nat>, ch2: seq<nat>)
    requires Links(list, head, ch) && Links(list, head, ch2)
    ensures ch == ch2
    decreases |ch|
  {
    if ch != [] && ch2 != [] {
      LinksUnique(list, list[head].next, ch[1..], ch2[1..]);
      assert ch == [ch[0]] + ch[1..] && ch2 == [ch2[0]] + ch2[1..];
    }
  }

  lemma AllocKeeps(t: Table, ch: seq<nat>)
    requires Inv(t, ch) && t.free >= 0
    ensures ch != [] && t.free == ch[0]
    ensures Inv(Apply(t, Alloc).1, ch[1..])
  {
    LinksBelow(t.list, t.free, ch);
    var t' := Apply(t, Alloc).1;
    LinksFrame(t.list, t'.list, t'.free, ch[1..]);
    assert ch == [ch[0]] + ch[1..];
    assert t.free !in ch[1..];
  }

  lemma FreeKeeps(t: Table, ch: seq<nat>, id: nat)
    requires Inv(t, ch) && Refers(t, id)
    ensures Inv(Apply(t, Free(id)).1, [id - 1] + ch)
  {
    LinksBelow(t.list, t.free, ch);
    var t' := Apply(t, Free(id)).1;
    var ch' := [id - 1] + ch;
    LinksFrame(t.list, t'.list, t.free, ch);
    assert ch'[1..] == ch;
  }

  lemma RegisterKeeps(t: Table, ch: seq<nat>, clientId: int)
    requires Inv(t, ch)
    ensures t.free < |t.list| && Inv(Apply(t, Register(clientId)).1, ch)
  {
    LinksBelow(t.list, t.free, ch);
    LinksFrame(t.list, Apply(t, Register(clientId)).1.list, t.free, ch);
  }

  lemma SwitchKeeps(t: Table, ch: seq<nat>, op: Op)
    requires Inv(t, ch) && (op.Load? || op.Store?)
    ensures t.free < |t.list| && Inv(Apply(t, op).1, ch)
  {
    LinksBelow(t.list, t.free, ch);
  }

  // The free list after a call
  ghost function NextFree(t: Table, ch: seq<nat>, op: Op): seq<nat> {
    match op
    case Alloc => if ch == [] then [] else ch[1..]
    case Free(id) => if Refers(t, id) then [id - 1] + ch else ch
    case _ => ch
  }

  /** Every call keeps the free list exact. */
  lemma CallKeepsInv(t: Table, ch: seq<nat>, threadMode: bool, op: Op)
    requires Inv(t, ch)
    ensures t.free < |t.list|
    ensures Inv(Call(t, threadMode, op).1, if threadMode then ch else NextFree(t, ch, op))
  {
    LinksBelow(t.list, t.free, ch);
    if !threadMode {
      ApplyKeepsInv(t, ch, op);
    }
  }

  lemma ApplyKeepsInv(t: Table, ch: seq<nat>, op: Op)
    requires Inv(t, ch)
    ensures t.free < |t.list| && Inv(Apply(t, op).1, NextFree(t, ch, op))
  {
    match op
    case Alloc => AllocStep(t, ch);
    case Free(id) => FreeStep(t, ch, id);
    case Register(clientId) => RegisterKeeps(t, ch, clientId);
    case Load(id) => SwitchKeeps(t, ch, op);
    case Store(id) => SwitchKeeps(t, ch, op);
  }

  lemma AllocStep(t: Table, ch: seq<nat>)
    requires Inv(t, ch)
    ensures t.free < |t.list| && Inv(Apply(t, Alloc).1, NextFree(t, ch, Alloc))
  {
    LinksBelow(t.list, t.free, ch);
    if t.free >= 0 {
      AllocKeeps(t, ch);
    }
  }

  lemma FreeStep(t: Table, ch: seq<nat>, id: nat)
    requires Inv(t, ch)
    ensures t.free < |t.list| && Inv(Apply(t, Free(id)).1, NextFree(t, ch, Free(id)))
  {
    LinksBelow(t.list, t.free, ch);
    if Refers(t, id) {
      FreeKeeps(t, ch, id);
    }
  }

  lemma SameLength(t: Table, threadMode: bool, op: Op)
    requires t.free < |t.list| && t.active < |t.list|
    ensures |Call(t, threadMode, op).1.list| == |t.list|
  {
  }

  // ---------------------------------------------------------------- initialisation

  // tfm_nspm_configure_clients on zero-initialised data, then TZ_InitContextSystem_S
  function Initial(n: nat): Table
    requires n >= 2
  {
    var (id, nextId) := GenerateId(DEFAULT_NS_CLIENT_ID);
    InitContexts(Table(seq(n, i => Client(if i == 0 then id else INVALID_CLIENT_ID, 0)), 1, DEFAULT_IDX, nextId))
  }

  // TZ_InitContextSystem_S: slots 1, 2, ... become free and linked in order; free_index stays
  function InitContexts(t: Table): Table
    requires |t.list| >= 2
  {
    var n := |t.list|;
    t.(list := seq(n, i requires 0 <= i < n =>
         if i == 0 then t.list[0] else Client(INVALID_CLIENT_ID, if i == n - 1 then INVALID_IDX else i + 1)))
  }

  function From(i: nat, n: nat): (s: seq<nat>)
    requires i <= n
    ensures |s| == n - i && forall k :: 0 <= k < n - i ==> s[k] == i + k
    decreases n - i
  {
    if i == n then [] else [i] + From(i + 1, n)
  }

  lemma {:induction false} InitLinks(t: Table, i: nat)
    requires |t.list| >= 2 && 1 <= i < |t.list|
    ensures Links(InitContexts(t).list, i, From(i, |t.list|))
    decreases |t.list| - i
  {
    assert From(i, |t.list|)[1..] == From(i + 1, |t.list|);
    if i + 1 < |t.list| {
      InitLinks(t, i + 1);
    }
  }

  lemma InitialInv(n: nat)
    requires n >= 2
    ensures Inv(Initial(n), From(1, n))
  {
    var (id, nextId) := GenerateId(DEFAULT_NS_CLIENT_ID);
    var t := Table(seq(n, i => Client(if i == 0 then id else INVALID_CLIENT_ID, 0)), 1, DEFAULT_IDX, nextId);
    InitLinks(t, 1);
    forall i | 0 <= i < n ensures i in From(1, n) <==> Initial(n).list[i].id == INVALID_CLIENT_ID {
      if i > 0 {
        assert From(1, n)[i - 1] == i;
      }
    }
  }

  // ---------------------------------------------------------------- every run

  // The table after a run of calls, each with the mode it came from
  ghost function Run(n: nat, calls: seq<(bool, Op)>): Table
    requires n >= 2
    ensures exists ch :: Inv(Run(n, calls), ch)
    ensures |Run(n, calls).list| == n
  {
    if calls == [] then
      InitialInv(n);
      Initial(n)
    else
      var (threadMode, op) := calls[|calls| - 1];
      var t := Run(n, calls[..|calls| - 1]);
      var ch :| Inv(t, ch);
      CallKeepsInv(t, ch, threadMode, op);
      SameLength(t, threadMode, op);
      Call(t, threadMode, op).1
  }

  lemma RunStep(n: nat, calls: seq<(bool, Op)>, threadMode: bool, op: Op)
    requires n >= 2
    ensures var t := Run(n, calls);
            t.free < n && t.active < n && Run(n, calls + [(threadMode, op)]) == Call(t, threadMode, op).1
  {
    var t := Run(n, calls);
    var ch :| Inv(t, ch);
    LinksBelow(t.list, t.free, ch);
    assert (calls + [(threadMode, op)])[..|calls|] == calls;
  }

  // The slots met when the free list is followed, at most n of them
  function Walk(list: seq<Client>, head: int, n: nat): seq<nat>
    decreases n
  {
    if n == 0 || !(0 <= head < |list|) then [] else [head] + Walk(list, list[head].next, n - 1)
  }

  lemma {:induction false} WalkIsLinks(list: seq<Client>, head: int, ch: seq<nat>, n: nat)
    requires Links(list, head, ch) && |ch| <= n
    ensures Walk(list, head, n) == ch
    decreases |ch|
  {
    if ch != [] {
      WalkIsLinks(list, list[head].next, ch[1..], n - 1);
    }
  }

  /** In every run, following the links from free_index meets each slot that has the invalid identifier
      exactly once, meets nothing else, and ends at -1. */
  lemma FreeListIsExact(n: nat, calls: seq<(bool, Op)>)
    requires n >= 2
    ensures var t := Run(n, calls); FreeList(t, Walk(t.list, t.free, n))
  {
    var t := Run(n, calls);
    var ch :| Inv(t, ch);
    LinksBelow(t.list, t.free, ch);
    PigeonHole(ch, n);
    WalkIsLinks(t.list, t.free, ch, n);
  }

  /** In every run, allocation from handler mode returns an unused slot, which it gives a negative
      identifier and no other slot changes; it fails exactly when no slot is unused. */
  lemma AllocIsFresh(n: nat, calls: seq<(bool, Op)>)
    requires n >= 2
    ensures var t := Run(n, calls);
            && t.free < n && t.active < n
            && var (r, t') := Call(t, false, Alloc);
               && r.Value? && |t'.list| == n
               && (r.n == 0 <==> forall i :: 0 <= i < n ==> t.list[i].id != INVALID_CLIENT_ID)
               && (r.n == 0 ==> t' == t)
               && (r.n > 0 ==> r.n <= n && t.list[r.n - 1].id == INVALID_CLIENT_ID && t'.list[r.n - 1].id < 0
                               && forall i :: 0 <= i < n && i != r.n - 1 ==> t'.list[i] == t.list[i])
  {
    var t := Run(n, calls);
    var ch :| Inv(t, ch);
    LinksBelow(t.list, t.free, ch);
    if ch != [] {
      assert ch[0] in ch;
    }
  }

  /** In every run: an identifier of no slot in use, in particular one freed already, is refused by free,
      load and store without any change; every identifier handed out is negative; and the active client's
      identifier is negative unless the default slot itself is active and has been freed. */
  lemma TableIsSafe(n: nat, calls: seq<(bool, Op)>, id: nat)
    requires n >= 2
    ensures var t := Run(n, calls);
            && t.free < n && 0 <= t.active < n
            && (forall i :: 0 <= i < n ==> t.list[i].id < 0 || t.list[i].id == INVALID_CLIENT_ID)
            && (!Refers(t, id) ==> Apply(t, Free(id)) == Apply(t, Load(id)) == Apply(t, Store(id)) == (Value(0), t))
            && (Refers(t, id) ==> !Refers(Apply(t, Free(id)).1, id))
            && (CurrentClientId(t) < 0 <==> !(t.active == DEFAULT_IDX && t.list[DEFAULT_IDX].id == INVALID_CLIENT_ID))
  {
    var t := Run(n, calls);
    var ch :| Inv(t, ch);
    LinksBelow(t.list, t.free, ch);
  }

  lemma FreeAllocTable(t: Table, id: nat)
    requires 0 <= t.free < |t.list| || t.free == INVALID_IDX
    requires 0 <= t.active < |t.list| && Refers(t, id)
    ensures var t1 := Apply(t, Free(id)).1;
            && t1.free < |t1.list| && t1.active < |t1.list|
            && var (st, t2) := Apply(t1, Alloc);
               && st == Value(id) && |t2.list| == |t.list| && t2.free == t.free
               && t2.list[id - 1].next == t.free
               && forall i :: 0 <= i < |t.list| && i != id - 1 ==> t2.list[i] == t.list[i]
  {
  }

  lemma WalkUnchanged(t: Table, t2: Table, ch: seq<nat>, n: nat, i: nat)
    requires Inv(t, ch) && |t.list| == |t2.list| == n && t2.free == t.free && i < n && i !in ch
    requires forall j :: 0 <= j < n && j != i ==> t2.list[j] == t.list[j]
    ensures Walk(t2.list, t2.free, n) == Walk(t.list, t.free, n)
  {
    LinksBelow(t.list, t.free, ch);
    PigeonHole(ch, n);
    WalkIsLinks(t.list, t.free, ch, n);
    LinksFrame(t.list, t2.list, t.free, ch);
    WalkIsLinks(t2.list, t2.free, ch, n);
  }

  /** Freeing a slot makes it the next one allocated; then the free list and every other slot are as before. */
  lemma FreeThenAlloc(n: nat, calls: seq<(bool, Op)>, id: nat)
    requires n >= 2 && Refers(Run(n, calls), id)
    ensures var t := Run(n, calls);
            && t.free < n && 0 <= t.active < n
            && var t1 := Apply(t, Free(id)).1;
               && t1.free < |t1.list| && t1.active < |t1.list|
               && var (st, t2) := Apply(t1, Alloc);
                  && st == Value(id) && |t2.list| == n && t2.free == t.free
                  && Walk(t2.list, t2.free, n) == Walk(t.list, t.free, n)
                  && forall i :: 0 <= i < n && i != id - 1 ==> t2.list[i] == t.list[i]
  {
    var t := Run(n, calls);
    var ch :| Inv(t, ch);
    FreeThenAllocFrom(t, ch, id);
  }

  lemma FreeThenAllocFrom(t: Table, ch: seq<nat>, id: nat)
    requires Inv(t, ch) && Refers(t, id)
    ensures t.free < |t.list|
    ensures var t1 := Apply(t, Free(id)).1;
            && t1.free < |t1.list| && t1.active < |t1.list|
            && var (st, t2) := Apply(t1, Alloc);
               && st == Value(id) && |t2.list| == |t.list| && t2.free == t.free
               && Walk(t2.list, t2.free, |t.list|) == Walk(t.list, t.free, |t.list|)
               && forall i :: 0 <= i < |t.list| && i != id - 1 ==> t2.list[i] == t.list[i]
  {
    LinksBelow(t.list, t.free, ch);
    FreeAllocTable(t, id);
    WalkUnchanged(t, Apply(Apply(t, Free(id)).1, Alloc).1, ch, |t.list|, id - 1);
  }

  // ---------------------------------------------------------------- initialising again

  // A second TZ_InitContextSystem_S does not reset free_index: the heads that fit the links it makes
  predicate HeadFits(t: Table)
    requires |t.list| >= 2
  {
    (t.free == 1 && t.list[0].id != INVALID_CLIENT_ID) || (t.free == 0 && t.list[0].next == 1)
  }

  lemma InitAgainFreeList(t: Table, ch: seq<nat>)
    requires Inv(t, ch)
    ensures (exists ch2 :: FreeList(InitContexts(t), ch2)) <==> HeadFits(t)
  {
    if HeadFits(t) {
      InitAgainIf(t, ch);
    } else if exists ch2 :: FreeList(InitContexts(t), ch2) {
      var ch2 :| FreeList(InitContexts(t), ch2);
      InitAgainOnlyIf(t, ch, ch2);
    }
  }

  lemma InitAgainIf(t: Table, ch: seq<nat>)
    requires Inv(t, ch) && HeadFits(t)
    ensures exists ch2 :: FreeList(InitContexts(t), ch2)
  {
    var tail := From(1, |t.list|);
    InitLinks(t, 1);
    InitAgainTail(t, tail);
    if t.free == 1 && t.list[0].id != INVALID_CLIENT_ID {
      assert FreeList(InitContexts(t), tail);
    } else {
      InitAgainFromDefault(t, ch, tail);
    }
  }

  lemma InitAgainFromDefault(t: Table, ch: seq<nat>, tail: seq<nat>)
    requires Inv(t, ch) && t.free == 0 && t.list[0].next == 1
    requires Links(InitContexts(t).list, 1, tail) && Distinct(tail)
    requires forall i :: 0 <= i < |t.list| ==> (i in tail <==> i > 0)
    ensures FreeList(InitContexts(t), [0] + tail)
  {
    assert 0 in ch by { assert ch[0] == 0; }
    var ch2 := [0] + tail;
    assert ch2[1..] == tail;
    assert forall k :: 0 < k < |ch2| ==> ch2[k] == tail[k - 1] && tail[k - 1] in tail;
  }

  /** A second TZ_InitContextSystem_S keeps the table consistent if and only if free_index is 1 with the default
      slot in use, or the freed default slot linked to slot 1, and the default slot is the active one. */
  lemma InitAgain(t: Table, ch: seq<nat>)
    requires Inv(t, ch)
    ensures (exists ch2 :: Inv(InitContexts(t), ch2)) <==> HeadFits(t) && t.active == DEFAULT_IDX
  {
    InitAgainFreeList(t, ch);
    var t2 := InitContexts(t);
    if HeadFits(t) && t.active == DEFAULT_IDX {
      var ch2 :| FreeList(t2, ch2);
      assert Inv(t2, ch2);
    }
  }

  /** Even then it takes its identifier from every slot in use but the default one, and from no other slot. */
  lemma InitAgainForgets(t: Table, i: nat)
    requires |t.list| >= 2 && i < |t.list|
    ensures InitContexts(t).list[i].id != t.list[i].id <==> i != DEFAULT_IDX && t.list[i].id != INVALID_CLIENT_ID
  {
  }

  /** A second initialisation keeps every client exactly if no slot but the default one is in use. */
  lemma InitAgainKeepsClients(t: Table)
    requires |t.list| >= 2
    ensures (forall i :: 0 <= i < |t.list| ==> InitContexts(t).list[i].id == t.list[i].id)
       <==> forall i :: 0 < i < |t.list| ==> t.list[i].id == INVALID_CLIENT_ID
  {
    forall i | 0 <= i < |t.list|
      ensures InitContexts(t).list[i].id == t.list[i].id <==> i == 0 || t.list[i].id == INVALID_CLIENT_ID
    {
      InitAgainForgets(t, i);
    }
  }

  // Two allocations, the second one loaded, the first one freed
  function FailingRun(): seq<(bool, Op)> {
    [(false, Alloc), (false, Alloc), (false, Load(3)), (false, Free(2))]
  }

  /** A run in which the free list would fit and the active client is lost: its identifier becomes invalid while
      it goes on being active, and its slot is free again. */
  lemma InitAgainLosesActive()
    ensures var t := Run(4, FailingRun());
            var t2 := InitContexts(t);
            && HeadFits(t) && t.active == 2 && CurrentClientId(t) < 0
            && CurrentClientId(t2) == INVALID_CLIENT_ID && !exists ch2 :: Inv(t2, ch2)
  {
    var c1: seq<(bool, Op)> := [(false, Alloc)];
    var c2, c3 := c1 + [(false, Alloc)], c1 + [(false, Alloc)] + [(false, Load(3))];
    assert c1 == [] + [(false, Alloc)] && FailingRun() == c3 + [(false, Free(2))];
    RunStep(4, [], false, Alloc);
    RunStep(4, c1, false, Alloc);
    RunStep(4, c2, false, Load(3));
    RunStep(4, c3, false, Free(2));
    var t := Run(4, FailingRun());
    var ch :| Inv(t, ch);
    InitAgain(t, ch);
  }

  lemma InitAgainTail(t: Table, tail: seq<nat>)
    requires |t.list| >= 2 && tail == From(1, |t.list|)
    ensures Distinct(tail) && forall i :: 0 <= i < |t.list| ==> (i in tail <==> i > 0)
  {
    forall i | 0 < i < |t.list| ensures i in tail {
      assert tail[i - 1] == i;
    }
  }

  lemma InitAgainOnlyIf(t: Table, ch: seq<nat>, ch2: seq<nat>)
    requires Inv(t, ch) && FreeList(InitContexts(t), ch2)
    ensures HeadFits(t)
  {
    var t2 := InitContexts(t);
    LinksBelow(t.list, t.free, ch);
    assert 1 in ch2;
    if t.free >= 1 {
      InitLinks(t, t.free);
      LinksUnique(t2.list, t.free, ch2, From(t.free, |t.list|));
      assert 0 !in ch2 && t2.list[0] == t.list[0];
    } else {
      assert t.free == 0 && ch2[0] == 0;
      var next := t.list[0].next;
      LinksBelow(t2.list, next, ch2[1..]);
      assert ch2 == [0] + ch2[1..];
      assert 1 in ch2[1..];
      assert next == ch2[1] != 0;
      InitLinks(t, next);
      LinksUnique(t2.list, next, ch2[1..], From(next, |t.list|));
    }
  }

  // ---------------------------------------------------------------- the table in memory

  class ClientTable {
    const list: array<Client>
    var free: int
    var active: int
    var nextId: int

    ghost function View(): Table
      reads this, list
    {
      Table(list[..], free, active, nextId)
    }

    ghost predicate Valid()
      reads this, list
    {
      exists ch :: Inv(View(), ch)
    }

    // Static data: NsClientIdList zeroed, the counter at its first identifier
    constructor (slots: nat)
      requires slots >= 2
      ensures fresh(list) && list.Length == slots && nextId == DEFAULT_NS_CLIENT_ID
      ensures forall i :: 0 <= i < slots ==> list[i] == Client(0, 0)
    {
      list := new Client[slots](_ => Client(0, 0));
      free, active, nextId := 0, INVALID_IDX, DEFAULT_NS_CLIENT_ID;
    }

    method GetNextNsClientId() returns (id: int)
      modifies this`nextId
      ensures (id, nextId) == GenerateId(old(nextId))
    {
      if nextId > 0 {
        nextId := DEFAULT_NS_CLIENT_ID;
      }
      id := nextId;
      nextId := if nextId == INT32_MIN then INT32_MAX else nextId - 1;
    }

    method ConfigureClients()
      requires list.Length >= 2
      modifies this, list
      ensures free == 1 && active == DEFAULT_IDX && (list[0].id, nextId) == GenerateId(old(nextId))
      ensures list[0].next == old(list[0].next)
      ensures forall i :: 0 < i < list.Length ==> list[i] == Client(INVALID_CLIENT_ID, old(list[i].next))
    {
      free := 1;
      var id := GetNextNsClientId();
      list[0] := list[0].(id := id);
      for i := 1 to list.Length
        modifies list
        invariant list[0] == Client(id, old(list[0].next))
        invariant forall j :: 0 < j < list.Length ==>
          list[j] == if j < i then Client(INVALID_CLIENT_ID, old(list[j].next)) else old(list[j])
      {
        list[i] := list[i].(id := INVALID_CLIENT_ID);
      }
      active := DEFAULT_IDX;
    }

    method InitContextSystem(threadMode: bool) returns (r: nat)
      requires list.Length >= 2
      modifies list
      ensures threadMode ==> r == 0 && View() == old(View())
      ensures !threadMode ==> r == 1 && View() == InitContexts(old(View()))
    {
      if threadMode {
        return 0;
      }
      var i := 1;
      while i < list.Length
        invariant 1 <= i <= list.Length && list[0] == old(list[0])
        invariant forall j :: 0 < j < i ==> list[j] == Client(INVALID_CLIENT_ID, j + 1)
      {
        list[i] := Client(INVALID_CLIENT_ID, i + 1);
        i := i + 1;
      }
      list[i - 1] := list[i - 1].(next := INVALID_IDX);
      r := 1;
      assert list[..] == InitContexts(old(View())).list;
    }

    // Configuration at boot, then the non-secure RTOS's one initialisation
    method Start()
      requires list.Length >= 2 && nextId == DEFAULT_NS_CLIENT_ID
      requires forall i :: 0 <= i < list.Length ==> list[i] == Client(0, 0)
      modifies this, list
      ensures Valid() && View() == Initial(list.Length)
    {
      ConfigureClients();
      var r := InitContextSystem(false);
      assert View().list == Initial(list.Length).list;
      InitialInv(list.Length);
    }

    method AllocModuleContext(threadMode: bool) returns (tzId: nat)
      requires Valid()
      modifies this, list
      ensures Valid() && (Value(tzId), View()) == Call(old(View()), threadMode, Alloc)
    {
      Stays(threadMode, Alloc);
      if threadMode {
        return 0;
      }
      if free < 0 {
        return 0;
      }
      tzId := free + 1;
      var id := GetNextNsClientId();
      list[free] := list[free].(id := id);
      free := list[free].next;
      assert View() == Call(old(View()), threadMode, Alloc).1;
    }

    method FreeModuleContext(threadMode: bool, id: nat) returns (r: nat)
      requires Valid()
      modifies this, list
      ensures Valid() && (Value(r), View()) == Call(old(View()), threadMode, Free(id))
    {
      Stays(threadMode, Free(id));
      if threadMode || id == 0 || id > list.Length {
        return 0;
      }
      var index := id - 1;
      if list[index].id == INVALID_CLIENT_ID {
        return 0;
      }
      if active == index {
        active := DEFAULT_IDX;
      }
      list[index] := Client(INVALID_CLIENT_ID, free);
      free := index;
      r := 1;
      assert View() == Call(old(View()), threadMode, Free(id)).1;
    }

    method LoadContext(threadMode: bool, id: nat) returns (r: nat)
      requires Valid()
      modifies this
      ensures Valid() && (Value(r), View()) == Call(old(View()), threadMode, Load(id))
    {
      Stays(threadMode, Load(id));
      if threadMode || id == 0 || id > list.Length || list[id - 1].id == INVALID_CLIENT_ID {
        return 0;
      }
      active := id - 1;
      r := 1;
      assert View() == Call(old(View()), threadMode, Load(id)).1;
    }

    method StoreContext(threadMode: bool, id: nat) returns (r: nat)
      requires Valid()
      modifies this
      ensures Valid() && (Value(r), View()) == Call(old(View()), threadMode, Store(id))
    {
      Stays(threadMode, Store(id));
      if threadMode || id == 0 || id > list.Length || list[id - 1].id == INVALID_CLIENT_ID || active != id - 1 {
        return 0;
      }
      active := DEFAULT_IDX;
      r := 1;
      assert View() == Call(old(View()), threadMode, Store(id)).1;
    }

    method RegisterClientId(threadMode: bool, clientId: int) returns (st: Status)
      requires Valid()
      modifies list
      ensures Valid() && (st, View()) == Call(old(View()), threadMode, Register(clientId))
    {
      Stays(threadMode, Register(clientId));
      if threadMode {
        return ThreadModeCall;
      }
      if clientId >= 0 {
        return InvalidParameter;
      }
      if active < 0 {
        return Generic;
      }
      if list[active].id >= 0 {
        return InvalidParameter;
      }
      list[active] := list[active].(id := clientId);
      st := Success;
      assert View() == Call(old(View()), threadMode, Register(clientId)).1;
    }

    lemma Stays(threadMode: bool, op: Op)
      requires Valid()
      ensures free < list.Length && active < list.Length
      ensures exists ch :: Inv(Call(View(), threadMode, op).1, ch)
    {
      var ch :| Inv(View(), ch);
      CallKeepsInv(View(), ch, threadMode, op);
    }
  }
}
