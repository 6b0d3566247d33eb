/**
  Store leases.  An operation over several stores locks them one after the other, in the order of
  their canonical paths, each once.
 */
module Leases {
  import opened Common

  // ----- The order of canonical paths -----

  /** A canonical path: its components from the root. */
  type Store = seq<string>

  predicate CharLess(a: char, b: char) {
    a < b
  }

  /** Lexicographic order of sequences over an order of their elements. */
  predicate LexLess<T(==)>(lt: (T, T) -> bool, a: seq<T>, b: seq<T>) {
    if b == [] then false
    else if a == [] then true
    else if a[0] == b[0] then LexLess(lt, a[1..], b[1..])
    else lt(a[0], b[0])
  }

  ghost predicate StrictOrder<T(!new)>(lt: (T, T) -> bool) {
    && (forall x :: !lt(x, x))
    && (forall x, y, z :: lt(x, y) && lt(y, z) ==> lt(x, z))
    && (forall x, y :: lt(x, y) || lt(y, x) || x == y)
  }

  lemma {:induction false} LexIrreflexive<T(!new)>(lt: (T, T) -> bool, a: seq<T>)
    ensures !LexLess(lt, a, a)
  {
    if a != [] {
      LexIrreflexive(lt, a[1..]);
    }
  }

  lemma {:induction false} LexTransitive<T(!new)>(lt: (T, T) -> bool, a: seq<T>, b: seq<T>, c: seq<T>)
    requires StrictOrder(lt) && LexLess(lt, a, b) && LexLess(lt, b, c)
    ensures LexLess(lt, a, c)
  {
    if a != [] && a[0] == b[0] == c[0] {
      LexTransitive(lt, a[1..], b[1..], c[1..]);
    }
  }

  lemma {:induction false} LexTotal<T(!new)>(lt: (T, T) -> bool, a: seq<T>, b: seq<T>)
    requires StrictOrder(lt)
    ensures LexLess(lt, a, b) || LexLess(lt, b, a) || a == b
  {
    if a != [] && b != [] && a[0] == b[0] {
      LexTotal(lt, a[1..], b[1..]);
      if a[1..] == b[1..] {
        assert a == [a[0]] + a[1..] && b == [b[0]] + b[1..];
      }
    }
  }

  predicate NameLess(a: string, b: string) {
    LexLess(CharLess, a, b)
  }

  /** Paths compare component by component. */
  predicate Before(a: Store, b: Store) {
    LexLess(NameLess, a, b)
  }

  lemma NamesOrdered()
    ensures StrictOrder(NameLess)
  {
    assert StrictOrder(CharLess);
    forall x: string ensures !NameLess(x, x) {
      LexIrreflexive(CharLess, x);
    }
    forall x: string, y: string, z: string | NameLess(x, y) && NameLess(y, z) ensures NameLess(x, z) {
      LexTransitive(CharLess, x, y, z);
    }
    forall x: string, y: string ensures NameLess(x, y) || NameLess(y, x) || x == y {
      LexTotal(CharLess, x, y);
    }
  }

  lemma BeforeIrreflexive(a: Store)
    ensures !Before(a, a)
  {
    LexIrreflexive(NameLess, a);
  }

  lemma BeforeTransitive(a: Store, b: Store, c: Store)
    requires Before(a, b) && Before(b, c)
    ensures Before(a, c)
  {
    NamesOrdered();
    LexTransitive(NameLess, a, b, c);
  }

  lemma BeforeTotal(a: Store, b: Store)
    ensures Before(a, b) || Before(b, a) || a == b
  {
    NamesOrdered();
    LexTotal(NameLess, a, b);
  }

  predicate Sorted(list: seq<Store>) {
    forall i, j :: 0 <= i < j < |list| ==> Before(list[i], list[j])
  }

  lemma SortedDistinct(list: seq<Store>, i: nat, j: nat)
    requires Sorted(list) && i < |list| && j < |list| && list[i] == list[j]
    ensures i == j
  {
    BeforeIrreflexive(list[i]);
  }

  /** `BTreeSet::insert`. */
  method Insert(list: seq<Store>, x: Store) returns (r: seq<Store>)
    requires Sorted(list)
    ensures Sorted(r)
    ensures forall y :: y in r <==> y in list || y == x
    ensures |r| <= |list| + 1
  {
    var i := 0;
    while i < |list| && Before(list[i], x)
      invariant 0 <= i <= |list|
      invariant forall k :: 0 <= k < i ==> Before(list[k], x)
    {
      i := i + 1;
    }
    if i < |list| && list[i] == x {
      return list;
    }
    if i < |list| {
      BeforeTotal(list[i], x);
    }
    forall k | i <= k < |list| ensures Before(x, list[k]) {
      if k > i {
        BeforeTransitive(x, list[i], list[k]);
      }
    }
    r := list[..i] + [x] + list[i..];
    assert forall y :: y in list <==> y in list[..i] || y in list[i..];
  }

  /** The ordered set of canonical destinations; one invalid destination refuses them all, before any lock is taken. */
  method NormalizeDestinations(roots: seq<string>, canonical: string -> Option<Store>) returns (r: Option<seq<Store>>)
    ensures r.None? <==> exists i :: 0 <= i < |roots| && canonical(roots[i]).None?
    ensures r.Some? ==> Sorted(r.value) && |r.value| <= |roots|
    ensures r.Some? ==> forall x :: x in r.value <==> exists i :: 0 <= i < |roots| && canonical(roots[i]) == Some(x)
  {
    var list: seq<Store> := [];
    for i := 0 to |roots|
      invariant Sorted(list) && |list| <= i
      invariant forall k :: 0 <= k < i ==> canonical(roots[k]).Some?
      invariant forall x :: x in list <==> exists k :: 0 <= k < i && canonical(roots[k]) == Some(x)
    {
      var store := canonical(roots[i]);
      if store.None? {
        return None;
      }
      list := Insert(list, store.value);
    }
    r := Some(list);
  }

  // ----- Any number of operations -----

  /** Acquiring holds `list[..next]`; releasing still holds `list[from..upto]`. */
  datatype Phase =
    | Idle
    | Acquiring(list: seq<Store>, next: nat)
    | Releasing(list: seq<Store>, from: nat, upto: nat)
  {
    predicate Valid() {
      match this
      case Idle => true
      case Acquiring(list, next) => Sorted(list) && next <= |list|
      case Releasing(list, from, upto) => Sorted(list) && from <= upto <= |list|
    }

    /** The leases held now. */
    function Held(): seq<Store>
      requires Valid()
    {
      match this
      case Idle => []
      case Acquiring(list, next) => list[..next]
      case Releasing(list, from, upto) => list[from..upto]
    }

    predicate Waiting() {
      Acquiring? && next < |list|
    }
  }

  /** The locked files and what each operation is doing. */
  datatype Sys = Sys(locked: set<Store>, ops: seq<Phase>)

  datatype Event =
    | Start(op: nat, list: seq<Store>)
    | Take(op: nat)
    | Stop(op: nat)
    | Drop(op: nat)
    | Done(op: nat)

  /** An operation may stop at any time: it has finished, timed out or failed. */
  predicate Enabled(s: Sys, e: Event) {
    && e.op < |s.ops|
    && var phase := s.ops[e.op];
       match e
       case Start(_, list) => phase.Idle? && Sorted(list)
       case Take(_) => phase.Waiting() && phase.list[phase.next] !in s.locked
       case Stop(_) => phase.Acquiring?
       case Drop(_) => phase.Releasing? && phase.from < phase.upto && phase.from < |phase.list|
       case Done(_) => phase.Releasing? && phase.from == phase.upto
  }

  function Step(s: Sys, e: Event): Sys
    requires Enabled(s, e)
  {
    var phase := s.ops[e.op];
    match e
    case Start(op, list) => s.(ops := s.ops[op := Acquiring(list, 0)])
    case Take(op) =>
      Sys(s.locked + {phase.list[phase.next]}, s.ops[op := Acquiring(phase.list, phase.next + 1)])
    case Stop(op) => s.(ops := s.ops[op := Releasing(phase.list, 0, phase.next)])
    case Drop(op) =>
      Sys(s.locked - {phase.list[phase.from]}, s.ops[op := Releasing(phase.list, phase.from + 1, phase.upto)])
    case Done(op) => s.(ops := s.ops[op := Idle])
  }

  ghost predicate AllValid(s: Sys) {
    forall i :: 0 <= i < |s.ops| ==> s.ops[i].Valid()
  }

  ghost predicate Holds(s: Sys, i: nat, x: Store)
    requires AllValid(s) && i < |s.ops|
  {
    x in s.ops[i].Held()
  }

  /** Exclusion: what is held is locked, by one operation only, and what is locked is held. */
  ghost predicate Inv(s: Sys) {
    && AllValid(s)
    && (forall i, x :: 0 <= i < |s.ops| && Holds(s, i, x) ==> x in s.locked)
    && (forall i, j, x :: 0 <= i < |s.ops| && 0 <= j < |s.ops| && Holds(s, i, x) && Holds(s, j, x) ==> i == j)
    && (forall x :: x in s.locked ==> exists i :: 0 <= i < |s.ops| && Holds(s, i, x))
  }

  lemma TakeOne(list: seq<Store>, next: nat, x: Store)
    requires next < |list|
    ensures x in list[..next + 1] <==> x in list[..next] || x == list[next]
  {
  }

  lemma DropOne(list: seq<Store>, from: nat, upto: nat, x: Store)
    requires Sorted(list) && from < upto <= |list|
    ensures x in list[from + 1..upto] <==> x in list[from..upto] && x != list[from]
    ensures list[from] in list[from..upto]
  {
    var rest := list[from + 1..upto];
    assert list[from..upto] == [list[from]] + rest;
    if list[from] in rest {
      var k :| 0 <= k < |rest| && rest[k] == list[from];
      SortedDistinct(list, from, from + 1 + k);
    }
  }

  /** What the operation of an event holds afterwards. */
  ghost predicate HoldsThen(s: Sys, e: Event, x: Store)
    requires AllValid(s) && Enabled(s, e)
  {
    var phase := s.ops[e.op];
    match e
    case Take(_) => Holds(s, e.op, x) || x == phase.list[phase.next]
    case Drop(_) => Holds(s, e.op, x) && x != phase.list[phase.from]
    case _ => Holds(s, e.op, x)
  }

  lemma StepValid(s: Sys, e: Event)
    requires AllValid(s) && Enabled(s, e)
    ensures AllValid(Step(s, e)) && |Step(s, e).ops| == |s.ops|
    ensures forall i :: 0 <= i < |s.ops| && i != e.op ==> Step(s, e).ops[i] == s.ops[i]
  {
  }

  /** How an event changes what is held. */
  lemma HeldAfter(s: Sys, e: Event, x: Store)
    requires AllValid(s) && Enabled(s, e)
    ensures AllValid(Step(s, e))
    ensures Holds(Step(s, e), e.op, x) <==> HoldsThen(s, e, x)
    ensures e.Drop? ==> Holds(s, e.op, s.ops[e.op].list[s.ops[e.op].from])
  {
    StepValid(s, e);
    var phase := s.ops[e.op];
    assert phase.Valid();
    if e.Take? {
      TakeOne(phase.list, phase.next, x);
    } else if e.Stop? {
      assert phase.list[0..phase.next] == phase.list[..phase.next];
    } else if e.Drop? {
      DropOne(phase.list, phase.from, phase.upto, x);
    }
  }

  /** Who holds a store after an event. */
  lemma HoldersAfter(s: Sys, e: Event, i: nat, x: Store)
    requires AllValid(s) && Enabled(s, e) && i < |s.ops|
    ensures AllValid(Step(s, e)) && |Step(s, e).ops| == |s.ops|
    ensures Holds(Step(s, e), i, x) <==> if i == e.op then HoldsThen(s, e, x) else Holds(s, i, x)
  {
    StepValid(s, e);
    HeldAfter(s, e, x);
  }

  lemma InvStep(s: Sys, e: Event)
    requires Inv(s) && Enabled(s, e)
    ensures Inv(Step(s, e))
  {
    StepValid(s, e);
    var t := Step(s, e);
    forall i, x | 0 <= i < |s.ops|
      ensures Holds(t, i, x) <==> if i == e.op then HoldsThen(s, e, x) else Holds(s, i, x)
    {
      HoldersAfter(s, e, i, x);
    }
    if e.Drop? {
      HeldAfter(s, e, s.ops[e.op].list[s.ops[e.op].from]);
    }
    forall x | x in t.locked ensures exists i :: 0 <= i < |t.ops| && Holds(t, i, x) {
      StillHeld(s, e, x);
    }
  }

  lemma StillHeld(s: Sys, e: Event, x: Store)
    requires Inv(s) && Enabled(s, e) && x in Step(s, e).locked
    ensures AllValid(Step(s, e)) && exists i :: 0 <= i < |Step(s, e).ops| && Holds(Step(s, e), i, x)
  {
    StepValid(s, e);
    HoldersAfter(s, e, e.op, x);
    if x in s.locked {
      var i :| 0 <= i < |s.ops| && Holds(s, i, x);
      HoldersAfter(s, e, i, x);
      assert Holds(Step(s, e), i, x);
    } else {
      assert Holds(Step(s, e), e.op, x);
    }
  }

  ghost predicate Reachable(states: seq<Sys>, events: seq<Event>) {
    && |states| == |events| + 1
    && states[0].locked == {} && (forall i :: 0 <= i < |states[0].ops| ==> states[0].ops[i].Idle?)
    && forall k :: 0 <= k < |events| ==> Enabled(states[k], events[k]) && states[k + 1] == Step(states[k], events[k])
  }

  lemma {:induction false} Exclusion(states: seq<Sys>, events: seq<Event>, k: nat)
    requires Reachable(states, events) && k < |states|
    ensures Inv(states[k])
  {
    if k > 0 {
      Exclusion(states, events, k - 1);
      InvStep(states[k - 1], events[k - 1]);
    }
  }

  // ----- No deadlock -----

  /** The store an operation is waiting for. */
  function Wanted(phase: Phase): Store
    requires phase.Waiting()
  {
    phase.list[phase.next]
  }

  /** Operation `i` waits for a lease that operation `j` holds. */
  ghost predicate WaitsFor(s: Sys, i: nat, j: nat)
    requires AllValid(s) && i < |s.ops| && j < |s.ops|
  {
    s.ops[i].Waiting() && Holds(s, j, Wanted(s.ops[i]))
  }

  /** No operation waits for a lease it holds itself. */
  lemma NoSelfWait(s: Sys, i: nat)
    requires Inv(s) && i < |s.ops|
    ensures !WaitsFor(s, i, i)
  {
    if WaitsFor(s, i, i) {
      var phase := s.ops[i];
      var k :| 0 <= k < phase.next && phase.list[k] == phase.list[phase.next];
      SortedDistinct(phase.list, k, phase.next);
    }
  }

  /** Along waiting operations the wanted stores increase. */
  lemma WaitIncreases(s: Sys, i: nat, j: nat)
    requires AllValid(s) && i < |s.ops| && j < |s.ops| && WaitsFor(s, i, j) && s.ops[j].Waiting()
    ensures Before(Wanted(s.ops[i]), Wanted(s.ops[j]))
  {
  }

  ghost predicate WaitChain(s: Sys, chain: seq<nat>)
    requires AllValid(s)
  {
    && |chain| >= 2
    && (forall m :: 0 <= m < |chain| ==> chain[m] < |s.ops|)
    && forall m :: 0 <= m < |chain| - 1 ==> WaitsFor(s, chain[m], chain[m + 1])
  }

  lemma {:induction false} ChainIncreases(s: Sys, chain: seq<nat>, m: nat)
    requires AllValid(s) && WaitChain(s, chain) && 0 < m < |chain| - 1
    ensures s.ops[chain[0]].Waiting() && s.ops[chain[m]].Waiting()
    ensures Before(Wanted(s.ops[chain[0]]), Wanted(s.ops[chain[m]]))
    decreases m
  {
    assert WaitsFor(s, chain[0], chain[1]) && WaitsFor(s, chain[m - 1], chain[m]) &&
      WaitsFor(s, chain[m], chain[m + 1]);
    WaitIncreases(s, chain[m - 1], chain[m]);
    if m > 1 {
      ChainIncreases(s, chain, m - 1);
      BeforeTransitive(Wanted(s.ops[chain[0]]), Wanted(s.ops[chain[m - 1]]), Wanted(s.ops[chain[m]]));
    }
  }

  /** No chain of waiting operations, of any length, comes back to where it began. */
  lemma NoWaitCycle(s: Sys, chain: seq<nat>)
    requires Inv(s) && WaitChain(s, chain)
    ensures chain[0] != chain[|chain| - 1]
  {
    var n := |chain| - 1;
    assert WaitsFor(s, chain[0], chain[1]);
    if chain[0] == chain[n] {
      if n == 1 {
        NoSelfWait(s, chain[0]);
      } else {
        ChainIncreases(s, chain, n - 1);
        assert WaitsFor(s, chain[n - 1], chain[n]);
        WaitIncreases(s, chain[n - 1], chain[n]);
        BeforeTransitive(Wanted(s.ops[chain[0]]), Wanted(s.ops[chain[n - 1]]), Wanted(s.ops[chain[n]]));
        BeforeIrreflexive(Wanted(s.ops[chain[0]]));
      }
    }
  }

  // ----- Progress -----

  /** The operation that wants the last store, among the first `n`. */
  lemma {:induction false} LastWanted(s: Sys, n: nat) returns (top: Option<nat>)
    requires n <= |s.ops|
    ensures top.None? ==> forall i :: 0 <= i < n ==> !s.ops[i].Waiting()
    ensures top.Some? ==>
              && top.value < n && s.ops[top.value].Waiting()
              && forall i :: 0 <= i < n && s.ops[i].Waiting() ==> !Before(Wanted(s.ops[top.value]), Wanted(s.ops[i]))
  {
    if n == 0 {
      return None;
    }
    top := LastWanted(s, n - 1);
    if s.ops[n - 1].Waiting() {
      BeforeIrreflexive(Wanted(s.ops[n - 1]));
      if top.None? {
        top := Some(n - 1);
      } else if Before(Wanted(s.ops[top.value]), Wanted(s.ops[n - 1])) {
        forall i | 0 <= i < n && s.ops[i].Waiting() ensures !Before(Wanted(s.ops[n - 1]), Wanted(s.ops[i])) {
          if Before(Wanted(s.ops[n - 1]), Wanted(s.ops[i])) && i < n - 1 {
            BeforeTransitive(Wanted(s.ops[top.value]), Wanted(s.ops[n - 1]), Wanted(s.ops[i]));
          }
        }
        top := Some(n - 1);
      }
    }
  }

  /** An event that brings an operation forward without giving up on a wait. */
  predicate Forward(s: Sys, e: Event) {
    Enabled(s, e) && !e.Start? && (e.Stop? ==> !s.ops[e.op].Waiting())
  }

  /** While any operation is under way, some operation can go forward without a timeout. */
  lemma Progress(s: Sys, i: nat) returns (e: Event)
    requires Inv(s) && i < |s.ops| && !s.ops[i].Idle?
    ensures Forward(s, e)
  {
    var top := LastWanted(s, |s.ops|);
    if top.None? {
      e := MoveOn(s, i);
    } else {
      var wanted := Wanted(s.ops[top.value]);
      if wanted !in s.locked {
        e := Take(top.value);
      } else {
        var j :| 0 <= j < |s.ops| && Holds(s, j, wanted);
        if s.ops[j].Waiting() {
          WaitIncreases(s, top.value, j);
          assert false;
        }
        e := MoveOn(s, j);
      }
    }
  }

  lemma MoveOn(s: Sys, i: nat) returns (e: Event)
    requires Inv(s) && i < |s.ops| && !s.ops[i].Idle? && !s.ops[i].Waiting()
    ensures Forward(s, e)
  {
    assert s.ops[i].Valid();
    if s.ops[i].Acquiring? {
      e := Stop(i);
    } else if s.ops[i].from < s.ops[i].upto {
      e := Drop(i);
    } else {
      e := Done(i);
    }
  }

  /** Steps an operation has left. */
  function Left(phase: Phase): nat
    requires phase.Valid()
  {
    match phase
    case Idle => 0
    case Acquiring(list, next) => 2 * |list| - next + 2
    case Releasing(list, from, upto) => upto - from + 1
  }

  function TotalLeft(ops: seq<Phase>): nat
    requires forall i :: 0 <= i < |ops| ==> ops[i].Valid()
  {
    if ops == [] then 0 else TotalLeft(ops[..|ops| - 1]) + Left(ops[|ops| - 1])
  }

  lemma {:induction false} TotalLeftUpdate(ops: seq<Phase>, i: nat, phase: Phase)
    requires i < |ops| && phase.Valid() && forall k :: 0 <= k < |ops| ==> ops[k].Valid()
    ensures TotalLeft(ops[i := phase]) == TotalLeft(ops) - Left(ops[i]) + Left(phase)
  {
    var n := |ops| - 1;
    if i == n {
      assert ops[i := phase][..n] == ops[..n];
    } else {
      assert ops[i := phase][..n] == ops[..n][i := phase];
      TotalLeftUpdate(ops[..n], i, phase);
    }
  }

  /** Every forward step uses up work, so with `Progress` all operations finish if none gives up or starts. */
  lemma ForwardDecreases(s: Sys, e: Event)
    requires Inv(s) && Forward(s, e)
    ensures AllValid(Step(s, e)) && TotalLeft(Step(s, e).ops) < TotalLeft(s.ops)
  {
    InvStep(s, e);
    TotalLeftUpdate(s.ops, e.op, Step(s, e).ops[e.op]);
  }

  /** A run of forward steps from `s` to a state in which all operations are idle. */
  ghost predicate Finishing(s: Sys, events: seq<Event>, states: seq<Sys>) {
    && |states| == |events| + 1 && states[0] == s
    && (forall k :: 0 <= k < |events| ==> Forward(states[k], events[k]) && states[k + 1] == Step(states[k], events[k]))
    && forall i :: 0 <= i < |states[|events|].ops| ==> states[|events|].ops[i].Idle?
  }

  lemma OneMore(s: Sys, e: Event, events: seq<Event>, states: seq<Sys>)
    requires Forward(s, e) && Finishing(Step(s, e), events, states)
    ensures Finishing(s, [e] + events, [s] + states)
  {
    var allEvents, allStates := [e] + events, [s] + states;
    forall k | 0 <= k < |allEvents|
      ensures Forward(allStates[k], allEvents[k]) && allStates[k + 1] == Step(allStates[k], allEvents[k])
    {
      if k > 0 {
        assert allEvents[k] == events[k - 1] && allStates[k] == states[k - 1] && allStates[k + 1] == states[k];
      }
    }
  }

  /** A whole run of forward steps to the end: every operation gets its leases and returns them. */
  lemma {:induction false} AllFinish(s: Sys) returns (events: seq<Event>, states: seq<Sys>)
    requires Inv(s)
    ensures Finishing(s, events, states) && |events| <= TotalLeft(s.ops)
    decreases TotalLeft(s.ops)
  {
    if i :| 0 <= i < |s.ops| && !s.ops[i].Idle? {
      var e := Progress(s, i);
      InvStep(s, e);
      ForwardDecreases(s, e);
      var moreEvents, moreStates := AllFinish(Step(s, e));
      OneMore(s, e, moreEvents, moreStates);
      events, states := [e] + moreEvents, [s] + moreStates;
    } else {
      events, states := [], [s];
    }
  }

  // ----- One operation among others -----

  class LockTable {
    var sys: Sys

    constructor (operations: nat)
      ensures Inv(sys) && sys.locked == {} && |sys.ops| == operations
      ensures forall i :: 0 <= i < operations ==> sys.ops[i].Idle?
    {
      sys := Sys({}, seq(operations, _ => Idle));
    }

    method Act(e: Event)
      requires Inv(sys) && Enabled(sys, e)
      modifies this
      ensures Inv(sys) && sys == Step(old(sys), e)
      ensures |sys.ops| == old(|sys.ops|) && forall i :: 0 <= i < |sys.ops| && i != e.op ==>
                sys.ops[i] == old(sys.ops)[i]
    {
      InvStep(sys, e);
      StepValid(sys, e);
      sys := Step(sys, e);
    }

    /** Any number of steps of the other operations. */
    method Others(me: nat)
      requires Inv(sys) && me < |sys.ops|
      modifies this
      ensures Inv(sys) && |sys.ops| == old(|sys.ops|) && sys.ops[me] == old(sys.ops[me])
    {
      var n: int := *;
      for i := 0 to if n < 0 then 0 else n
        invariant Inv(sys) && |sys.ops| == old(|sys.ops|) && sys.ops[me] == old(sys.ops[me])
      {
        var e: Event := *;
        if Enabled(sys, e) && e.op != me {
          Act(e);
        }
      }
    }

    /** `acquire_normalized_store_lease`: poll the next lock until it is free or time is up. */
    method AcquireNext(me: nat, polls: nat) returns (ok: bool)
      requires Inv(sys) && me < |sys.ops| && sys.ops[me].Waiting()
      modifies this
      ensures Inv(sys) && |sys.ops| == old(|sys.ops|)
      ensures sys.ops[me] == if ok then Acquiring(old(sys.ops[me]).list, old(sys.ops[me]).next + 1)
                else old(sys.ops[me])
    {
      for i := 0 to polls
        invariant Inv(sys) && |sys.ops| == old(|sys.ops|) && sys.ops[me] == old(sys.ops[me])
      {
        Others(me);
        var broken: bool := *;
        if broken {
          return false;
        }
        if Wanted(sys.ops[me]) !in sys.locked {
          Act(Take(me));
          return true;
        }
      }
      ok := false;
    }

    /** Dropping the leases: one unlock after the other. */
    method ReleaseAll(me: nat)
      requires Inv(sys) && me < |sys.ops| && sys.ops[me].Acquiring?
      modifies this
      ensures Inv(sys) && |sys.ops| == old(|sys.ops|) && sys.ops[me].Idle?
    {
      Others(me);
      Act(Stop(me));
      while sys.ops[me].from < sys.ops[me].upto
        invariant Inv(sys) && |sys.ops| == old(|sys.ops|) && sys.ops[me].Releasing? && sys.ops[me].Valid()
        decreases sys.ops[me].upto - sys.ops[me].from
      {
        Act(Drop(me));
        assert sys.ops[me].Valid();
        ghost var mine := sys.ops[me];
        Others(me);
        assert sys.ops[me] == mine;
      }
      Act(Done(me));
    }

    /**
      `acquire_store_leases`, while other operations run: either every destination's store is held
      exclusively, each once, or nothing is.
     */
    method AcquireStoreLeases(me: nat, roots: seq<string>, canonical: string -> Option<Store>, polls: nat)
      returns (list: Option<seq<Store>>)
      requires Inv(sys) && me < |sys.ops| && sys.ops[me].Idle?
      modifies this
      ensures Inv(sys) && |sys.ops| == old(|sys.ops|)
      ensures list.None? ==> sys.ops[me].Idle?
      ensures list.Some? ==>
                && sys.ops[me] == Acquiring(list.value, |list.value|) && Sorted(list.value)
                && (forall x :: Holds(sys, me, x) <==> exists i :: 0 <= i < |roots| && canonical(roots[i]) == Some(x))
                && (forall i, x :: 0 <= i < |sys.ops| && i != me && Holds(sys, me, x) ==> !Holds(sys, i, x))
    {
      list := NormalizeDestinations(roots, canonical);
      Others(me);
      if list.None? {
        return;
      }
      Act(Start(me, list.value));
      for k := 0 to |list.value|
        invariant Inv(sys) && |sys.ops| == old(|sys.ops|) && sys.ops[me] == Acquiring(list.value, k)
      {
        var ok := AcquireNext(me, polls);
        if !ok {
          ReleaseAll(me);
          return None;
        }
      }
      assert list.value[..|list.value|] == list.value;
    }
  }
}
