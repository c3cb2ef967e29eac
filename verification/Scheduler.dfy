/**
 The order in which idf.py runs its commands. The list of requested tasks is reworked
 in place until every task at its front has had its dependencies run before it.
 */
module Scheduler {

  type Name = string

  /** One invocation of a command; `id` tells invocations of the same command apart. */
  datatype Task = Task(name: Name, id: nat)

  /** The commands known to the tool. A name without an entry is passed on to the build
      system and depends on nothing. */
  datatype Commands = Commands(aliases: map<Name, Name>, deps: map<Name, seq<Name>>, order: map<Name, seq<Name>>) {
    function Canonical(n: Name): Name {
      if n in aliases then aliases[n] else n
    }

    function Deps(n: Name): seq<Name> {
      if n in deps then deps[n] else []
    }

    function Order(n: Name): seq<Name> {
      if n in order then order[n] else []
    }

    /** Dependencies are written with the commands' own names. */
    ghost predicate DepsAreCanonical() {
      forall n, d :: n in deps && d in deps[n] && d in aliases ==> aliases[d] == d
    }

    /** `d` has to come before `n` if both are in the list. */
    ghost predicate Before(n: Name, d: Name) {
      (n in deps && d in deps[n]) || (n in order && d in order[n])
    }

    /** `d` has to be run before `n`: a dependency, or a requested order-dependency. */
    ghost predicate Needs(requested: set<Name>, n: Name, d: Name) {
      (n in deps && d in deps[n]) || (n in order && d in order[n] && d in requested)
    }

    /** No command of `names` leads back to itself through dependencies and order-dependencies. */
    ghost predicate Acyclic(names: set<Name>) {
      forall p :: Walk(p) && |p| > 1 && Within(p, names) ==> p[0] != p[|p| - 1]
    }

    ghost predicate Walk(p: seq<Name>) {
      |p| > 0 && forall i :: 0 <= i < |p| - 1 ==> Before(p[i], p[i + 1])
    }

    /** A chain in which every command needs the next. */
    ghost predicate Chain(requested: set<Name>, p: seq<Name>) {
      |p| > 0 && forall i :: 0 <= i < |p| - 1 ==> Needs(requested, p[i], p[i + 1])
    }

    /** Numbers that fall along every dependency among `names`. */
    ghost predicate Ranks(names: set<Name>, rank: map<Name, nat>) {
      forall n, d :: n in names && d in names && Before(n, d) ==> RankOf(rank, d) < RankOf(rank, n)
    }

    ghost predicate Closed(s: set<Name>) {
      forall n, d :: n in s && n in deps && d in deps[n] ==> d in s
    }

    /** What is requested, and all that it depends on. */
    ghost function Needed(requested: set<Name>): (s: set<Name>) {
      set n | n in Universe(requested) && forall s :: requested <= s && Closed(s) ==> n in s
    }

    /** All names the list can ever hold. */
    ghost function Universe(requested: set<Name>): (s: set<Name>) {
      requested + set n, d | n in deps && d in deps[n] :: d
    }

    lemma NeededIsLeast(requested: set<Name>)
      ensures requested <= Needed(requested) && Closed(Needed(requested))
      ensures forall s :: requested <= s && Closed(s) ==> Needed(requested) <= s
    {
    }
  }

  ghost predicate Within(p: seq<Name>, names: set<Name>) {
    forall i :: 0 <= i < |p| ==> p[i] in names
  }

  ghost function RankOf(rank: map<Name, nat>, n: Name): nat {
    if n in rank then rank[n] else 0
  }

  function Names(ts: seq<Task>): (s: set<Name>)
    ensures forall t :: t in ts ==> t.name in s
  {
    set t | t in ts :: t.name
  }

  /** The invocations of `n`, in the order of the list. */
  ghost function Of(ts: seq<Task>, n: Name): (s: seq<Task>) {
    if ts == [] then []
    else Of(ts[..|ts| - 1], n) + if ts[|ts| - 1].name == n then [ts[|ts| - 1]] else []
  }

  lemma OfLast(ts: seq<Task>, n: Name)
    requires ts != []
    ensures var init, last := ts[..|ts| - 1], ts[|ts| - 1];
            && (last.name == n ==> Of(ts, n) == Of(init, n) + [last])
            && (last.name != n ==> Of(ts, n) == Of(init, n))
  {
  }

  lemma {:induction false} OfHas(ts: seq<Task>, n: Name)
    ensures forall t :: t in Of(ts, n) <==> t in ts && t.name == n
    ensures Of(ts, n) == [] <==> n !in Names(ts)
  {
    if ts != [] {
      var init, last := ts[..|ts| - 1], ts[|ts| - 1];
      assert ts == init + [last];
      OfHas(init, n);
      assert forall t :: t in ts <==> t in init || t == last;
    }
  }

  /** The tasks by name; of several with the same name, the last. */
  function ByName(ts: seq<Task>): (m: map<Name, Task>)
    ensures m.Keys == Names(ts)
    ensures forall n :: n in m ==> m[n] in ts && m[n].name == n
  {
    if ts == [] then map[]
    else
      var last := ts[|ts| - 1];
      assert ts == ts[..|ts| - 1] + [last];
      ByName(ts[..|ts| - 1])[last.name := last]
  }

  lemma ByNameStep(ts: seq<Task>, n: Name)
    requires n in Names(ts)
    ensures ts != []
    ensures var init, last := ts[..|ts| - 1], ts[|ts| - 1];
            && (last.name == n ==> ByName(ts)[n] == last)
            && (last.name != n ==> n in Names(init) && ByName(ts)[n] == ByName(init)[n])
  {
    var t :| t in ts && t.name == n;
    var init, last := ts[..|ts| - 1], ts[|ts| - 1];
    assert t in init || t == last;
  }

  lemma {:induction false} ByNameIsLast(ts: seq<Task>, n: Name)
    requires n in Names(ts)
    ensures Of(ts, n) != [] && ByName(ts)[n] == Of(ts, n)[|Of(ts, n)| - 1]
    decreases |ts|
  {
    hide Of, ByName, Names;
    ByNameStep(ts, n);
    OfLast(ts, n);
    if ts[|ts| - 1].name != n {
      ByNameIsLast(ts[..|ts| - 1], n);
    }
  }

  /** `ts` with `t` brought to the front; nothing else changes places. */
  ghost function BringUp(ts: seq<Task>, t: Task): (r: seq<Task>)
    ensures r != [] && r[0] == t
  {
    if t in ts then var i := FirstAt(ts, t); [t] + (ts[..i] + ts[i + 1..]) else [t] + ts
  }

  ghost function FirstAt(ts: seq<Task>, t: Task): (i: nat)
    requires t in ts
    ensures i < |ts| && ts[i] == t && t !in ts[..i]
  {
    if ts[0] == t then 0 else 1 + FirstAt(ts[1..], t)
  }

  method IndexOf(ts: seq<Task>, t: Task) returns (i: nat)
    requires t in ts
    ensures i == FirstAt(ts, t)
  {
    i := 0;
    while ts[i] != t
      invariant 0 <= i < |ts| && t in ts[i..] && i + FirstAt(ts[i..], t) == FirstAt(ts, t)
      decreases |ts| - i
    {
      assert ts[i..][1..] == ts[i + 1..];
      i := i + 1;
    }
  }

  method MoveToFront(ts: seq<Task>, t: Task) returns (r: seq<Task>)
    requires t in ts
    ensures r == BringUp(ts, t)
  {
    var i := IndexOf(ts, t);
    r := [ts[i]] + (ts[..i] + ts[i + 1..]);
  }

  lemma BringUpHas(ts: seq<Task>, t: Task)
    ensures forall u :: u in BringUp(ts, t) <==> u in ts || u == t
    ensures |BringUp(ts, t)| == if t in ts then |ts| else |ts| + 1
  {
    if t in ts {
      var i := FirstAt(ts, t);
      assert ts == ts[..i] + [t] + ts[i + 1..];
    }
  }

  /** The tasks of `moves` brought to the front, one after the other. */
  ghost function Brought(ts: seq<Task>, moves: seq<Task>): (r: seq<Task>)
    ensures moves == [] ==> r == ts
    ensures moves != [] ==> r != [] && r[0] == moves[|moves| - 1]
  {
    if moves == [] then ts else BringUp(Brought(ts, moves[..|moves| - 1]), moves[|moves| - 1])
  }

  lemma {:induction false} BroughtHas(ts: seq<Task>, moves: seq<Task>)
    ensures forall u :: u in Brought(ts, moves) <==> u in ts || u in moves
    ensures |ts| <= |Brought(ts, moves)|
    ensures (forall u :: u in moves ==> u in ts) ==> |Brought(ts, moves)| == |ts|
    decreases |moves|
  {
    if moves != [] {
      var init, last := moves[..|moves| - 1], moves[|moves| - 1];
      assert moves == init + [last];
      BroughtHas(ts, init);
      BringUpHas(Brought(ts, init), last);
    }
  }

  lemma BroughtMore(ts: seq<Task>, moves: seq<Task>, t: Task)
    ensures Brought(ts, moves + [t]) == BringUp(Brought(ts, moves), t)
  {
    assert (moves + [t])[..|moves|] == moves;
  }

  lemma {:induction false} BroughtTwice(ts: seq<Task>, a: seq<Task>, b: seq<Task>)
    ensures Brought(Brought(ts, a), b) == Brought(ts, a + b)
    decreases |b|
  {
    hide BringUp, Brought;
    if b == [] {
      assert a + b == a;
      Unmoved(Brought(ts, a));
    } else {
      var init, last := b[..|b| - 1], b[|b| - 1];
      BroughtTwice(ts, a, init);
      assert b == init + [last] && a + b == a + init + [last];
      BroughtMore(Brought(ts, a), init, last);
      BroughtMore(ts, a + init, last);
    }
  }

  /** Those of `ds` that are in `s`. */
  ghost function Select(ds: seq<Name>, s: set<Name>): (r: seq<Name>) {
    if ds == [] then []
    else Select(ds[..|ds| - 1], s) + if ds[|ds| - 1] in s then [ds[|ds| - 1]] else []
  }

  lemma {:induction false} SelectHas(ds: seq<Name>, s: set<Name>)
    ensures forall d :: d in Select(ds, s) <==> d in ds && d in s
  {
    if ds != [] {
      var init, last := ds[..|ds| - 1], ds[|ds| - 1];
      assert ds == init + [last];
      SelectHas(init, s);
    }
  }

  lemma SelectMore(ds: seq<Name>, i: nat, s: set<Name>)
    requires i < |ds|
    ensures Select(ds[..i + 1], s) == Select(ds[..i], s) + if ds[i] in s then [ds[i]] else []
  {
    assert ds[..i + 1][..i] == ds[..i];
  }

  ghost function Missing(c: Commands, n: Name, run: seq<Task>): (s: set<Name>) {
    (set d | d in c.Deps(n)) - Names(run)
  }

  /** What the front task has to wait for, in the order in which it is brought up. */
  ghost function Wanted(c: Commands, ts: seq<Task>, run: seq<Task>): (ds: seq<Name>)
    requires ts != []
  {
    Select(c.Deps(ts[0].name), Missing(c, ts[0].name, run)) + Select(c.Order(ts[0].name), Names(ts) - Names(run))
  }

  /** `moves` brings up `ds`: of each its last invocation in the list, or else a new one. */
  ghost predicate Moves(c: Commands, ts: seq<Task>, ds: seq<Name>, moves: seq<Task>) {
    |moves| == |ds| && forall i :: 0 <= i < |ds| ==> IsMove(c, ts, ds[i], moves[i])
  }

  ghost predicate IsMove(c: Commands, ts: seq<Task>, d: Name, t: Task) {
    if d in Names(ts) then t == ByName(ts)[d] else t.name == c.Canonical(d)
  }

  lemma MovesAppend(c: Commands, ts: seq<Task>, ds: seq<Name>, moves: seq<Task>, ds': seq<Name>, moves': seq<Task>)
    requires Moves(c, ts, ds, moves) && Moves(c, ts, ds', moves')
    ensures Moves(c, ts, ds + ds', moves + moves')
  {
    hide IsMove;
  }

  /** Where dependencies are written with the commands' own names, these are brought up. */
  lemma MovesNames(c: Commands, s: State, moves: seq<Task>)
    requires c.DepsAreCanonical() && s.ts != [] && Moves(c, s.ts, Wanted(c, s.ts, s.run), moves)
    ensures forall n :: n in Names(moves) <==> n in Wanted(c, s.ts, s.run)
    ensures forall t :: t in moves ==> t.name in Wanted(c, s.ts, s.run) && (t.name in Names(s.ts) ==> t == ByName(s.ts)[t.name])
  {
    hide Wanted, ByName, c.DepsAreCanonical;
    var ds := Wanted(c, s.ts, s.run);
    forall i | 0 <= i < |ds| ensures moves[i].name == ds[i] && (ds[i] in Names(s.ts) ==> moves[i] == ByName(s.ts)[ds[i]]) {
      assert IsMove(c, s.ts, ds[i], moves[i]);
      OwnName(c, s, ds[i]);
    }
    NamesAre(moves, ds);
    forall t | t in moves ensures t.name in ds && (t.name in Names(s.ts) ==> t == ByName(s.ts)[t.name]) {
      var i :| 0 <= i < |moves| && moves[i] == t;
      assert moves[i].name == ds[i];
    }
  }

  lemma OwnName(c: Commands, s: State, d: Name)
    requires c.DepsAreCanonical() && s.ts != [] && d in Wanted(c, s.ts, s.run)
    ensures d !in Names(s.ts) ==> c.Canonical(d) == d
  {
    hide Wanted, Names;
    WantedHas(c, s.ts, s.run);
    assert d in c.Deps(s.ts[0].name) || d in Names(s.ts);
  }

  lemma NamesAre(ts: seq<Task>, ds: seq<Name>)
    requires |ts| == |ds| && forall i :: 0 <= i < |ts| ==> ts[i].name == ds[i]
    ensures forall n :: n in Names(ts) <==> n in ds
  {
    forall n | n in ds ensures n in Names(ts) {
      var i :| 0 <= i < |ds| && ds[i] == n;
      assert ts[i] in ts && ts[i].name == n;
    }
    forall n | n in Names(ts) ensures n in ds {
      var t :| t in ts && t.name == n;
      var i :| 0 <= i < |ts| && ts[i] == t;
      assert ds[i] == n;
    }
  }

  ghost predicate IdsBelow(ts: seq<Task>, id: nat) {
    forall t :: t in ts ==> t.id < id
  }

  ghost predicate HasAll(r: seq<Task>, ts: seq<Task>) {
    forall t :: t in ts ==> t in r
  }

  lemma HasItself(ts: seq<Task>)
    ensures HasAll(ts, ts)
  {
  }

  lemma BringUpStays(ts: seq<Task>, r: seq<Task>, t: Task, id: nat, id': nat)
    requires IdsBelow(r, id) && HasAll(r, ts) && t.id < id' && id <= id'
    ensures IdsBelow(BringUp(r, t), id') && HasAll(BringUp(r, t), ts)
  {
    hide BringUp;
    BringUpHas(r, t);
  }

  lemma ListedStays(ts: seq<Task>, r: seq<Task>, t: Task, id: nat)
    requires IdsBelow(r, id) && HasAll(r, ts) && t in ts
    ensures t in r && IdsBelow(BringUp(r, t), id) && HasAll(BringUp(r, t), ts)
  {
    BringUpStays(ts, r, t, id, id);
  }

  lemma NewStays(ts: seq<Task>, r: seq<Task>, t: Task)
    requires IdsBelow(r, t.id) && HasAll(r, ts)
    ensures BringUp(r, t) == [t] + r && IdsBelow([t] + r, t.id + 1) && HasAll([t] + r, ts)
  {
    BringUpStays(ts, r, t, t.id, t.id + 1);
  }

  /** Dependencies of the front task: those not run yet go to the front of the list, and
      those not in it are invoked with default options. */
  method PullDependencies(c: Commands, task: Task, ts: seq<Task>, run: seq<Task>, nextId: nat)
    returns (r: seq<Task>, processed: bool, nextId': nat, ghost moves: seq<Task>)
    requires IdsBelow(ts, nextId)
    ensures processed <==> moves == []
    ensures r == Brought(ts, moves) && Moves(c, ts, Select(c.Deps(task.name), Missing(c, task.name, run)), moves)
    ensures nextId <= nextId' && IdsBelow(r, nextId')
  {
    hide Names, Brought, Moves, Select, Missing, BringUp, c.Canonical, IdsBelow, HasAll;
    HasItself(ts);
    var byName := ByName(ts);
    var deps := c.Deps(task.name);
    ghost var missing := Missing(c, task.name, run);
    r, processed, nextId', moves := ts, true, nextId, [];
    NoMoves(c, ts, deps, missing);
    var i := 0;
    while i < |deps|
      invariant 0 <= i <= |deps| && nextId <= nextId'
      invariant processed <==> moves == []
      invariant r == Brought(ts, moves) && Moves(c, ts, Select(deps[..i], missing), moves)
      invariant IdsBelow(r, nextId') && HasAll(r, ts)
    {
      var dep := deps[i];
      MissingHas(c, task.name, run, dep);
      SelectMore(deps, i, missing);
      if dep !in Names(run) {
        ghost var t;
        if dep in byName {
          t := byName[dep];
          ListedStays(ts, r, t, nextId');
          r := MoveToFront(r, byName[dep]);
        } else {
          var invoked := Task(c.Canonical(dep), nextId');
          t := invoked;
          NewStays(ts, r, t);
          r := [invoked] + r;
          nextId' := nextId' + 1;
        }
        OneMove(c, ts, Select(deps[..i], missing), moves, dep, t);
        moves := moves + [t];
        processed := false;
      } else {
        assert Select(deps[..i], missing) + [] == Select(deps[..i], missing);
      }
      i := i + 1;
    }
    assert deps[..i] == deps;
  }

  lemma NoMoves(c: Commands, ts: seq<Task>, ds: seq<Name>, s: set<Name>)
    ensures Brought(ts, []) == ts && Moves(c, ts, Select(ds[..0], s), [])
  {
  }

  lemma OneMove(c: Commands, ts: seq<Task>, ds: seq<Name>, moves: seq<Task>, d: Name, t: Task)
    requires Moves(c, ts, ds, moves) && (if d in Names(ts) then t == ByName(ts)[d] else t.name == c.Canonical(d))
    ensures Moves(c, ts, ds + [d], moves + [t]) && Brought(ts, moves + [t]) == BringUp(Brought(ts, moves), t)
  {
    hide Names, ByName, BringUp;
    assert IsMove(c, ts, [d][0], [t][0]);
    MovesAppend(c, ts, ds, moves, [d], [t]);
    BroughtMore(ts, moves, t);
  }

  lemma MissingHas(c: Commands, n: Name, run: seq<Task>, d: Name)
    requires d in c.Deps(n)
    ensures d in Missing(c, n, run) <==> d !in Names(run)
  {
  }

  /** Order-dependencies of the front task: those waiting in the list go to its front. */
  method PullOrder(c: Commands, task: Task, byName: map<Name, Task>, ghost ts0: seq<Task>, ts: seq<Task>, run: seq<Task>)
    returns (r: seq<Task>, processed: bool, ghost moves: seq<Task>)
    requires byName == ByName(ts0) && forall t :: t in ts0 ==> t in ts
    ensures processed <==> moves == []
    ensures r == Brought(ts, moves) && Moves(c, ts0, Select(c.Order(task.name), Names(ts0) - Names(run)), moves)
    ensures forall t :: t in r <==> t in ts
  {
    hide Names, Brought, Moves, Select, BringUp;
    var order := c.Order(task.name);
    ghost var waiting := Names(ts0) - Names(run);
    r, processed, moves := ts, true, [];
    NoMoves(c, ts, order, waiting);
    NoMoves(c, ts0, order, waiting);
    var i := 0;
    while i < |order|
      invariant 0 <= i <= |order|
      invariant processed <==> moves == []
      invariant r == Brought(ts, moves) && Moves(c, ts0, Select(order[..i], waiting), moves)
      invariant forall t :: t in r <==> t in ts
    {
      var dep := order[i];
      SelectMore(order, i, waiting);
      if dep in byName && dep !in Names(run) {
        ghost var t := byName[dep];
        BringUpHas(r, t);
        r := MoveToFront(r, byName[dep]);
        OneMove(c, ts0, Select(order[..i], waiting), moves, dep, t);
        BroughtMore(ts, moves, t);
        moves := moves + [t];
        processed := false;
      } else {
        assert Select(order[..i], waiting) + [] == Select(order[..i], waiting);
      }
      i := i + 1;
    }
    assert order[..i] == order;
  }

  /** The list of tasks to be looked at, and the tasks to run so far. */
  datatype State = State(ts: seq<Task>, run: seq<Task>)

  /** One round of the loop: what the front task waits for is brought up; if it waits for
      nothing, it leaves the list, to be run unless its command is run already. */
  ghost predicate IsRound(c: Commands, s: State, moves: seq<Task>, s': State) {
    && s.ts != [] && Moves(c, s.ts, Wanted(c, s.ts, s.run), moves)
    && s' == if moves == [] then Popped(s) else State(Brought(s.ts, moves), s.run)
  }

  ghost function Popped(s: State): (r: State)
    requires s.ts != []
  {
    State(s.ts[1..], if s.ts[0].name in Names(s.run) then s.run else s.run + [s.ts[0]])
  }

  lemma WantedHas(c: Commands, ts: seq<Task>, run: seq<Task>)
    requires ts != []
    ensures forall d :: d in Wanted(c, ts, run) <==>
              d !in Names(run) && (d in c.Deps(ts[0].name) || (d in c.Order(ts[0].name) && d in Names(ts)))
  {
    hide Names, Select;
    SelectHas(c.Deps(ts[0].name), Missing(c, ts[0].name, run));
    SelectHas(c.Order(ts[0].name), Names(ts) - Names(run));
  }

  /** `d` stands before position `i` of the list. */
  ghost predicate Earlier(run: seq<Task>, i: nat, d: Name)
    requires i <= |run|
  {
    exists j :: 0 <= j < i && run[j].name == d
  }

  ghost predicate DistinctNames(run: seq<Task>) {
    forall i, j :: 0 <= i < j < |run| ==> run[i].name != run[j].name
  }

  /** Every task comes after its dependencies, and after those of its order-dependencies
      that were requested. */
  ghost predicate InOrder(c: Commands, run: seq<Task>, requested: set<Name>) {
    forall i, d :: 0 <= i < |run| && c.Needs(requested, run[i].name, d) ==> Earlier(run, i, d)
  }

  /** What every round keeps: the tasks run so far are in order, and what is in the list
      or run is what was requested together with some of what that needs. */
  ghost predicate Invariant(c: Commands, requested: seq<Task>, s: State) {
    && DistinctNames(s.run)
    && InOrder(c, s.run, Names(requested))
    && Names(requested) <= Names(s.ts) + Names(s.run) <= c.Needed(Names(requested))
    && (forall t :: t in s.ts || t in s.run ==> t in requested || t.name !in Names(requested))
  }

  lemma Started(c: Commands, requested: seq<Task>)
    ensures Invariant(c, requested, State(requested, []))
  {
    c.NeededIsLeast(Names(requested));
  }

  lemma NamesAppend(a: seq<Task>, b: seq<Task>)
    ensures Names(a + b) == Names(a) + Names(b)
  {
    assert forall t :: t in a + b <==> t in a || t in b;
  }

  lemma AppendInOrder(c: Commands, run: seq<Task>, requested: set<Name>, t: Task)
    requires InOrder(c, run, requested)
    requires forall d :: c.Needs(requested, t.name, d) ==> d in Names(run)
    ensures InOrder(c, run + [t], requested)
  {
    hide c.Needs;
    var run' := run + [t];
    forall i, d | 0 <= i < |run'| && c.Needs(requested, run'[i].name, d) ensures Earlier(run', i, d) {
      if i < |run| {
        assert Earlier(run, i, d);
        var j :| 0 <= j < i && run[j].name == d;
        assert run'[j].name == d;
      } else {
        assert d in Names(run);
        var j :| 0 <= j < |run| && run[j].name == d;
        assert run'[j].name == d;
      }
    }
  }

  /** Running the front task keeps the order and loses no name. */
  lemma PopKeeps(c: Commands, requested: seq<Task>, s: State)
    requires Invariant(c, requested, s) && s.ts != [] && Wanted(c, s.ts, s.run) == []
    ensures Invariant(c, requested, Popped(s))
    ensures Names(Popped(s).ts) + Names(Popped(s).run) == Names(s.ts) + Names(s.run)
  {
    hide InOrder, Names, Wanted, c.Needed;
    var front := s.ts[0];
    NamesAppend([front], s.ts[1..]);
    NamesAppend(s.run, [front]);
    assert s.ts == [front] + s.ts[1..];
    SingleName(front);
    if front.name !in Names(s.run) {
      WantedHas(c, s.ts, s.run);
      AppendInOrder(c, s.run, Names(requested), front);
    }
  }

  lemma SingleName(t: Task)
    ensures Names([t]) == {t.name}
  {
  }

  lemma MoveKeeps(c: Commands, requested: seq<Task>, s: State, moves: seq<Task>)
    requires c.DepsAreCanonical() && Invariant(c, requested, s) && s.ts != [] && Moves(c, s.ts, Wanted(c, s.ts, s.run), moves)
    ensures Invariant(c, requested, State(Brought(s.ts, moves), s.run))
    ensures Names(Brought(s.ts, moves)) == Names(s.ts) + Names(moves)
  {
    hide InOrder, Names, Wanted, Moves, Brought, ByName;
    MovesNames(c, s, moves);
    WantedHas(c, s.ts, s.run);
    BroughtHas(s.ts, moves);
    SameNames(Brought(s.ts, moves), s.ts + moves);
    NamesAppend(s.ts, moves);
    WantedIsNeeded(c, Names(requested), s.ts, s.run);
  }

  lemma WantedIsNeeded(c: Commands, requested: set<Name>, ts: seq<Task>, run: seq<Task>)
    requires ts != [] && Names(ts) <= c.Needed(requested)
    ensures forall d :: d in Wanted(c, ts, run) ==> d in c.Needed(requested)
  {
    hide c.Needed, Wanted;
    assert ts[0] in ts;
    WantedHas(c, ts, run);
    c.NeededIsLeast(requested);
  }

  lemma RoundKeeps(c: Commands, requested: seq<Task>, s: State, moves: seq<Task>, s': State)
    requires c.DepsAreCanonical() && Invariant(c, requested, s) && IsRound(c, s, moves, s')
    ensures Invariant(c, requested, s')
  {
    hide Invariant, Moves, Brought, Wanted, Popped;
    NoneWanted(c, s.ts, Wanted(c, s.ts, s.run), moves);
    if moves == [] {
      PopKeeps(c, requested, s);
    } else {
      MoveKeeps(c, requested, s, moves);
    }
  }

  lemma NoneWanted(c: Commands, ts: seq<Task>, ds: seq<Name>, moves: seq<Task>)
    requires Moves(c, ts, ds, moves)
    ensures moves == [] <==> ds == []
  {
  }

  lemma SameNames(a: seq<Task>, b: seq<Task>)
    requires forall t :: t in a <==> t in b
    ensures Names(a) == Names(b)
  {
  }

  /** How a round brings the end nearer: a name enters the list for the first time, or the
      list gets shorter, or its front moves down in rank. */
  ghost predicate Nearer(rank: map<Name, nat>, s: State, s': State)
    requires s.ts != []
  {
    var old', new' := Names(s.ts) + Names(s.run), Names(s'.ts) + Names(s'.run);
    || old' < new'
    || (old' == new' && |s'.ts| < |s.ts|)
    || (old' == new' && |s'.ts| == |s.ts| && RankOf(rank, s'.ts[0].name) < RankOf(rank, s.ts[0].name))
  }

  lemma RoundIsNearer(c: Commands, requested: seq<Task>, rank: map<Name, nat>, s: State, moves: seq<Task>, s': State)
    requires c.DepsAreCanonical() && Invariant(c, requested, s) && IsRound(c, s, moves, s') && c.Ranks(c.Needed(Names(requested)), rank)
    ensures Nearer(rank, s, s')
  {
    hide Moves, Brought, Wanted, InOrder, c.Needed, c.Ranks, Names, ByName;
    NoneWanted(c, s.ts, Wanted(c, s.ts, s.run), moves);
    if moves == [] {
      PopKeeps(c, requested, s);
    } else {
      MoveKeeps(c, requested, s, moves);
      MovesNames(c, s, moves);
      WantedHas(c, s.ts, s.run);
      BroughtHas(s.ts, moves);
      assert s.ts[0] in s.ts && moves[|moves| - 1] in moves;
      if t :| t in moves && t !in s.ts {
        assert t.name in Names(moves) && t.name !in Names(s.ts) && t.name !in Names(s.run);
      }
      WantedIsNeeded(c, Names(requested), s.ts, s.run);
      RankFalls(c, c.Needed(Names(requested)), rank, s.ts[0].name, s'.ts[0].name);
    }
  }

  lemma RankFalls(c: Commands, names: set<Name>, rank: map<Name, nat>, n: Name, d: Name)
    requires c.Ranks(names, rank) && n in names && d in names && (d in c.Deps(n) || d in c.Order(n))
    ensures RankOf(rank, d) < RankOf(rank, n)
  {
    assert c.Before(n, d);
  }

  /** One round of the loop. */
  method Round(c: Commands, ts: seq<Task>, run: seq<Task>, nextId: nat)
    returns (ts': seq<Task>, run': seq<Task>, nextId': nat, ghost moves: seq<Task>)
    requires ts != [] && IdsBelow(ts, nextId)
    ensures IsRound(c, State(ts, run), moves, State(ts', run'))
    ensures nextId <= nextId' && IdsBelow(ts', nextId')
  {
    hide Moves, Brought, Names, Select, Missing;
    var task := ts[0];
    var byName := ByName(ts);
    ghost var depMoves, orderMoves;
    var ts1, depsDone, nextId1;
    ts1, depsDone, nextId1, depMoves := PullDependencies(c, task, ts, run, nextId);
    BroughtHas(ts, depMoves);
    var orderDone;
    ts', orderDone, orderMoves := PullOrder(c, task, byName, ts, ts1, run);
    moves := depMoves + orderMoves;
    BroughtTwice(ts, depMoves, orderMoves);
    MovesAppend(c, ts, Select(c.Deps(task.name), Missing(c, task.name, run)), depMoves,
                Select(c.Order(task.name), Names(ts) - Names(run)), orderMoves);
    run', nextId' := run, nextId1;
    if depsDone && orderDone {
      Unmoved(ts);
      ts' := ts'[1..];
      if task.name !in Names(run) {
        run' := run + [task];
      }
    }
  }

  lemma Unmoved(ts: seq<Task>)
    ensures Brought(ts, []) == ts
  {
  }

  /** A run of the loop: its states, and what each round brought up. */
  ghost predicate IsTrace(c: Commands, requested: seq<Task>, states: seq<State>, moved: seq<seq<Task>>) {
    && |states| == |moved| + 1 && states[0] == State(requested, [])
    && forall i :: 0 <= i < |moved| ==> IsRound(c, states[i], moved[i], states[i + 1])
  }

  /** The tasks to run: what was requested and all that it needs, and nothing else; every
      command once; everything after its dependencies, and after its order-dependencies
      that were requested. A requested command runs as one of its requested invocations. */
  method TasksToRun(c: Commands, requested: seq<Task>)
    returns (run: seq<Task>, ghost states: seq<State>, ghost moved: seq<seq<Task>>)
    requires c.DepsAreCanonical() && c.Acyclic(c.Needed(Names(requested)))
    ensures DistinctNames(run)
    ensures InOrder(c, run, Names(requested))
    ensures Names(requested) <= Names(run) && c.Closed(Names(run))
    ensures forall s :: Names(requested) <= s && c.Closed(s) ==> Names(run) <= s
    ensures forall t :: t in run ==> t in requested || t.name !in Names(requested)
    ensures forall n, d :: n in c.deps && d in c.deps[n] && n in Names(run) ==> Precedes(run, d, n)
    ensures forall n, d :: n in c.order && d in c.order[n] && n in Names(run) && d in Names(requested) ==> Precedes(run, d, n)
    ensures IsTrace(c, requested, states, moved) && states[|moved|] == State([], run)
  {
    hide Invariant, InOrder, Names, c.Needed, DistinctNames, IsTrace, IsRound, c.Ranks, c.Acyclic, c.DepsAreCanonical, c.Closed;
    ghost var names := Names(requested);
    ghost var rank := RanksExist(c, c.Needed(names));
    var ts, nextId := requested, FreshId(requested);
    run, states, moved := [], [State(requested, [])], [];
    Started(c, requested);
    TraceStarts(c, requested);
    while ts != []
      invariant Invariant(c, requested, State(ts, run)) && IdsBelow(ts, nextId)
      invariant IsTrace(c, requested, states, moved) && |states| == |moved| + 1 && states[|moved|] == State(ts, run)
      decreases c.Needed(names) - (Names(ts) + Names(run)), |ts|, if ts == [] then 0 else RankOf(rank, ts[0].name)
    {
      ghost var moves, s := [], State(ts, run);
      ts, run, nextId, moves := Round(c, ts, run, nextId);
      RoundKeeps(c, requested, s, moves, State(ts, run));
      RoundIsNearer(c, requested, rank, s, moves, State(ts, run));
      NamesNeeded(c, requested, State(ts, run));
      TraceGrows(c, requested, states, moved, moves, State(ts, run));
      states, moved := states + [State(ts, run)], moved + [moves];
    }
    Finished(c, requested, run);
    OrderedByTables(c, run, Names(requested));
  }

  /** `d` is run before `n`. */
  ghost predicate Precedes(run: seq<Task>, d: Name, n: Name) {
    exists i, j :: 0 <= i < j < |run| && run[i].name == d && run[j].name == n
  }

  lemma OrderedByTables(c: Commands, run: seq<Task>, requested: set<Name>)
    requires InOrder(c, run, requested)
    ensures forall n, d :: n in c.deps && d in c.deps[n] && n in Names(run) ==> Precedes(run, d, n)
    ensures forall n, d :: n in c.order && d in c.order[n] && n in Names(run) && d in requested ==> Precedes(run, d, n)
  {
    forall n, d | n in c.deps && d in c.deps[n] && n in Names(run) ensures Precedes(run, d, n) {
      assert c.Needs(requested, n, d);
      NeededPrecedes(c, run, requested, n, d);
    }
    forall n, d | n in c.order && d in c.order[n] && n in Names(run) && d in requested ensures Precedes(run, d, n) {
      assert c.Needs(requested, n, d);
      NeededPrecedes(c, run, requested, n, d);
    }
  }

  lemma NeededPrecedes(c: Commands, run: seq<Task>, requested: set<Name>, n: Name, d: Name)
    requires InOrder(c, run, requested) && c.Needs(requested, n, d) && n in Names(run)
    ensures Precedes(run, d, n)
  {
    hide c.Needs;
    var t :| t in run && t.name == n;
    var j :| 0 <= j < |run| && run[j] == t;
    assert Earlier(run, j, d);
    var i :| 0 <= i < j && run[i].name == d;
    assert 0 <= i < j < |run| && run[i].name == d && run[j].name == n;
  }

  lemma TraceStarts(c: Commands, requested: seq<Task>)
    ensures IsTrace(c, requested, [State(requested, [])], [])
  {
  }

  lemma TraceGrows(c: Commands, requested: seq<Task>, states: seq<State>, moved: seq<seq<Task>>, moves: seq<Task>, s: State)
    requires IsTrace(c, requested, states, moved) && IsRound(c, states[|moved|], moves, s)
    ensures IsTrace(c, requested, states + [s], moved + [moves])
  {
    hide IsRound;
  }

  lemma NamesNeeded(c: Commands, requested: seq<Task>, s: State)
    requires Invariant(c, requested, s)
    ensures Names(s.ts) + Names(s.run) <= c.Needed(Names(requested))
  {
    hide InOrder, Names, c.Needed;
  }

  lemma Finished(c: Commands, requested: seq<Task>, run: seq<Task>)
    requires Invariant(c, requested, State([], run))
    ensures DistinctNames(run) && InOrder(c, run, Names(requested))
    ensures Names(requested) <= Names(run) && c.Closed(Names(run))
    ensures forall s :: Names(requested) <= s && c.Closed(s) ==> Names(run) <= s
    ensures forall t :: t in run ==> t in requested || t.name !in Names(requested)
  {
    hide InOrder, c.Needed;
    InOrderIsClosed(c, run, Names(requested));
    c.NeededIsLeast(Names(requested));
  }

  lemma InOrderIsClosed(c: Commands, run: seq<Task>, requested: set<Name>)
    requires InOrder(c, run, requested)
    ensures c.Closed(Names(run))
  {
    forall n, d | n in Names(run) && d in c.Deps(n) ensures d in Names(run) {
      var i :| 0 <= i < |run| && run[i].name == n;
      assert c.Needs(requested, n, d) && Earlier(run, i, d);
    }
  }

  function FreshId(ts: seq<Task>): (n: nat)
    ensures forall t :: t in ts ==> t.id < n
  {
    if ts == [] then 0
    else
      var n := FreshId(ts[1..]);
      assert ts == [ts[0]] + ts[1..];
      if ts[0].id < n then n else ts[0].id + 1
  }

  /** Distinct members of a set are at most as many as it has. */
  lemma {:induction false} Pigeonhole(p: seq<Name>, s: set<Name>)
    requires forall i :: 0 <= i < |p| ==> p[i] in s
    requires forall i, j :: 0 <= i < j < |p| ==> p[i] != p[j]
    ensures |p| <= |s|
    decreases |p|
  {
    if p != [] {
      var last := p[|p| - 1];
      Pigeonhole(p[..|p| - 1], s - {last});
    }
  }

  /** `m` has to come after some member of `s`. */
  ghost predicate Blocked(c: Commands, s: set<Name>, m: Name) {
    exists d :: d in s && c.Before(m, d)
  }

  /** A walk of any length, where every member of `s` has to come after another. */
  lemma {:induction false} LongWalk(c: Commands, s: set<Name>, n: nat) returns (p: seq<Name>)
    requires s != {} && forall m {:trigger Blocked(c, s, m)} :: m in s ==> Blocked(c, s, m)
    ensures |p| == n + 1 && c.Walk(p) && Within(p, s)
  {
    hide c.Before;
    if n == 0 {
      var m :| m in s;
      p := [m];
    } else {
      var q := LongWalk(c, s, n - 1);
      assert Blocked(c, s, q[n - 1]);
      var d :| d in s && c.Before(q[n - 1], d);
      p := q + [d];
    }
  }

  /** Without cycles, some member of a set does not have to wait for another. */
  lemma Unblocked(c: Commands, names: set<Name>, s: set<Name>) returns (m: Name)
    requires c.Acyclic(names) && s != {} && s <= names
    ensures m in s && forall d :: d in s ==> !c.Before(m, d)
  {
    hide c.Before, c.Acyclic, c.Walk;
    if forall m {:trigger Blocked(c, s, m)} :: m in s ==> Blocked(c, s, m) {
      var p := LongWalk(c, s, |s|);
      if forall i, j :: 0 <= i < j < |p| ==> p[i] != p[j] {
        Pigeonhole(p, s);
      }
      var i, j :| 0 <= i < j < |p| && p[i] == p[j];
      NoReturn(c, names, p, i, j);
    }
    m :| m in s && !Blocked(c, s, m);
  }

  /** A walk never comes to the same name twice. */
  lemma NoReturn(c: Commands, names: set<Name>, p: seq<Name>, i: nat, j: nat)
    requires c.Acyclic(names) && c.Walk(p) && Within(p, names) && i < j < |p|
    ensures p[i] != p[j]
  {
    hide c.Before;
    var q := p[i..j + 1];
    forall k | 0 <= k < |q| - 1 ensures c.Before(q[k], q[k + 1]) {
      assert c.Before(p[i + k], p[i + k + 1]);
    }
    assert c.Walk(q) && Within(q, names);
  }

  /** Ranks for everything outside `open`, which is what is still to be ranked. */
  ghost predicate PartRanks(c: Commands, names: set<Name>, open: set<Name>, rank: map<Name, nat>) {
    && rank.Keys !! open && open <= names
    && (forall n, d :: n in names - open && d in names && c.Before(n, d) ==> d !in open && RankOf(rank, d) < RankOf(rank, n))
  }

  lemma {:induction false} RankMore(c: Commands, names: set<Name>, open: set<Name>, rank: map<Name, nat>)
    returns (full: map<Name, nat>)
    requires c.Acyclic(names) && PartRanks(c, names, open, rank)
    ensures c.Ranks(names, full)
    decreases |open|
  {
    if open == {} {
      full := rank;
    } else {
      var m := Unblocked(c, names, open);
      var top := Above(rank);
      var rank' := rank[m := top];
      assert !c.Before(m, m);
      full := RankMore(c, names, open - {m}, rank');
    }
  }

  /** A number above all ranks. */
  ghost function Above(rank: map<Name, nat>): (n: nat)
    ensures n > 0 && forall m :: m in rank ==> rank[m] < n
    decreases |rank|
  {
    if rank == map[] then 1
    else
      var m :| m in rank;
      assert rank == (rank - {m})[m := rank[m]];
      var n := Above(rank - {m});
      if rank[m] < n then n else rank[m] + 1
  }

  lemma RanksExist(c: Commands, names: set<Name>) returns (rank: map<Name, nat>)
    requires c.Acyclic(names)
    ensures c.Ranks(names, rank)
  {
    hide c.Acyclic;
    rank := RankMore(c, names, names, map[]);
  }

  /** Along a chain, each command stands before the one that needs it. */
  lemma {:induction false} ChainRunsBackwards(c: Commands, run: seq<Task>, requested: set<Name>, p: seq<Name>, i: nat) returns (j: nat)
    requires InOrder(c, run, requested) && c.Chain(requested, p)
    requires i < |run| && run[i].name == p[0]
    ensures j + |p| - 1 <= i && run[j].name == p[|p| - 1]
    decreases |p|
  {
    hide c.Needs;
    if |p| == 1 {
      j := i;
    } else {
      assert c.Needs(requested, p[0], p[1]) && Earlier(run, i, p[1]);
      var k :| 0 <= k < i && run[k].name == p[1];
      forall m | 0 <= m < |p[1..]| - 1 ensures c.Needs(requested, p[1..][m], p[1..][m + 1]) {
        assert c.Needs(requested, p[m + 1], p[m + 2]);
      }
      j := ChainRunsBackwards(c, run, requested, p[1..], k);
    }
  }

  /** An order exists only if no command that is run needs itself, through dependencies and
      requested order-dependencies: that demand cannot be dropped. */
  lemma NoCycleIsRun(c: Commands, run: seq<Task>, requested: set<Name>, p: seq<Name>)
    requires InOrder(c, run, requested) && DistinctNames(run)
    requires c.Chain(requested, p) && |p| > 1 && p[0] in Names(run)
    ensures p[|p| - 1] != p[0]
  {
    var i :| 0 <= i < |run| && run[i].name == p[0];
    var j := ChainRunsBackwards(c, run, requested, p, i);
  }

  // Which of several requested invocations of a command runs. The tool warns that only the
  // first one will; but a command that another one waits for is brought up by the last.

  ghost predicate Distinct(ts: seq<Task>) {
    forall i, j :: 0 <= i < j < |ts| ==> ts[i] != ts[j]
  }

  ghost function RotateRight(ts: seq<Task>): (r: seq<Task>)
    ensures |r| == |ts|
  {
    if ts == [] then [] else [ts[|ts| - 1]] + ts[..|ts| - 1]
  }

  ghost function Turned(ts: seq<Task>, k: nat): (r: seq<Task>)
    ensures |r| == |ts|
  {
    if k == 0 then ts else RotateRight(Turned(ts, k - 1))
  }

  /** Where the list is cut after `k` turns. */
  ghost function Cut(k: nat, n: nat): (m: nat)
    requires n > 0
    ensures 1 <= m <= n
  {
    n - k % n
  }

  /** Turning `k` times moves the last `k % |ts|` to the front. */
  lemma {:induction false} TurnedIs(ts: seq<Task>, k: nat)
    requires ts != []
    ensures var m := Cut(k, |ts|); Turned(ts, k) == ts[m..] + ts[..m]
  {
    hide Cut, RotateRight;
    if k > 0 {
      TurnedIs(ts, k - 1);
      NextCut(k, |ts|);
      RotateSplit(ts, Cut(k - 1, |ts|));
    } else {
      NextCut(1, |ts|);
    }
  }

  lemma RotateSplit(ts: seq<Task>, m: nat)
    requires 1 <= m <= |ts|
    ensures var l := if m == 1 then |ts| else m - 1; RotateRight(ts[m..] + ts[..m]) == ts[l..] + ts[..l]
  {
    RotateCut(ts, m);
    if m == 1 {
      assert ts[0..] == ts && ts[..0] == [] && ts[|ts|..] == [] && ts[..|ts|] == ts;
    }
  }

  lemma RotateCut(ts: seq<Task>, m: nat)
    requires 1 <= m <= |ts|
    ensures RotateRight(ts[m..] + ts[..m]) == ts[m - 1..] + ts[..m - 1]
  {
    var cut, r := ts[m..] + ts[..m], ts[m - 1..] + ts[..m - 1];
    var l := |ts| - 1;
    assert |cut| == |r| == |ts| && cut[l] == ts[m - 1] == r[0];
    assert forall i :: 0 <= i < l ==> cut[i] == r[i + 1];
    assert RotateRight(cut) == [cut[l]] + cut[..l];
  }

  lemma NextCut(k: nat, n: nat)
    requires k > 0 && n > 0
    ensures Cut(k, n) == if Cut(k - 1, n) == 1 then n else Cut(k - 1, n) - 1
    ensures Cut(0, n) == n
  {
    var q, r := (k - 1) / n, (k - 1) % n;
    assert k - 1 == q * n + r;
    if r == n - 1 {
      assert k == (q + 1) * n;
      Remainder(k, n, q + 1, 0);
    } else {
      Remainder(k, n, q, r + 1);
    }
  }

  lemma Remainder(k: int, n: int, q: int, r: int)
    requires n > 0 && k == q * n + r && 0 <= r < n
    ensures k % n == r
  {
    var d := k / n - q;
    assert k == k / n * n + k % n;
    assert d * n == r - k % n;
    assert d >= 1 ==> d * n >= n;
    assert d <= -1 ==> d * n <= -1 * n;
  }

  lemma {:induction false} TurnedDistinct(ts: seq<Task>, k: nat)
    requires Distinct(ts)
    ensures Distinct(Turned(ts, k))
  {
    if k > 0 {
      TurnedDistinct(ts, k - 1);
    }
  }

  lemma {:induction false} OfAppend(a: seq<Task>, b: seq<Task>, n: Name)
    ensures Of(a + b, n) == Of(a, n) + Of(b, n)
    decreases |b|
  {
    if b == [] {
      assert a + b == a;
    } else {
      var init, last := b[..|b| - 1], b[|b| - 1];
      assert (a + b)[..|a + b| - 1] == a + init;
      OfAppend(a, init, n);
    }
  }

  lemma OfOne(t: Task, n: Name)
    ensures Of([t], n) == if t.name == n then [t] else []
  {
    assert [t][..0] == [];
  }

  lemma BringUpOf(ts: seq<Task>, t: Task, n: Name) returns (a: seq<Task>, b: seq<Task>)
    requires t in ts
    ensures t !in a && Of(ts, n) == a + Of([t], n) + b && Of(BringUp(ts, t), n) == Of([t], n) + (a + b)
  {
    hide Of;
    var i := FirstAt(ts, t);
    var x, y := ts[..i], ts[i + 1..];
    a, b := Of(x, n), Of(y, n);
    OfHas(x, n);
    assert ts == x + [t] + y;
    OfAppend(x, [t], n);
    OfAppend(x + [t], y, n);
    OfAppend(x, y, n);
    OfAppend([t], x + y, n);
    assert BringUp(ts, t) == [t] + (x + y);
  }

  lemma BringUpOther(ts: seq<Task>, t: Task, n: Name)
    requires t.name != n
    ensures Of(BringUp(ts, t), n) == Of(ts, n)
  {
    OfOne(t, n);
    if t in ts {
      var a, b := BringUpOf(ts, t, n);
    } else {
      OfAppend([t], ts, n);
    }
  }

  /** Bringing up the last invocation turns the invocations once; doing so again does nothing. */
  lemma BringUpLast(ts: seq<Task>, t: Task, n: Name, all: seq<Task>)
    requires t in ts && t.name == n && Distinct(all) && all != [] && t == all[|all| - 1]
    requires Of(ts, n) == all || Of(ts, n) == RotateRight(all)
    ensures Of(BringUp(ts, t), n) == RotateRight(all)
  {
    hide Of, BringUp;
    OfOne(t, n);
    var a, b := BringUpOf(ts, t, n);
    if Of(ts, n) == all {
      SplitAtLast(a, t, b, all);
    } else {
      SplitAtFirst(a, t, b, all[..|all| - 1]);
    }
  }

  lemma SplitAtLast(a: seq<Task>, t: Task, b: seq<Task>, all: seq<Task>)
    requires all == a + [t] + b && Distinct(all) && t == all[|all| - 1]
    ensures b == [] && [t] + (a + b) == RotateRight(all)
  {
    assert all[|a|] == t;
    assert a + b == all[..|all| - 1];
  }

  lemma SplitAtFirst(a: seq<Task>, t: Task, b: seq<Task>, rest: seq<Task>)
    requires a + [t] + b == [t] + rest && t !in a
    ensures a == [] && [t] + (a + b) == [t] + rest
  {
    assert (a + [t] + b)[0] == t;
    assert a == [] && a + [t] + b == [t] + b && a + b == b;
  }

  lemma {:induction false} BroughtOf(ts: seq<Task>, moves: seq<Task>, n: Name)
    requires Of(ts, n) != [] && Distinct(Of(ts, n))
    requires forall t :: t in moves && t.name == n ==> t == Of(ts, n)[|Of(ts, n)| - 1]
    ensures Of(Brought(ts, moves), n) == if n in Names(moves) then RotateRight(Of(ts, n)) else Of(ts, n)
    decreases |moves|
  {
    hide Of, BringUp, Names, RotateRight, Distinct;
    if moves == [] {
      NoNames();
    } else {
      var init, last := moves[..|moves| - 1], moves[|moves| - 1];
      assert moves == init + [last];
      NamesAppend(init, [last]);
      SingleName(last);
      BroughtOf(ts, init, n);
      if last.name == n {
        BroughtHas(ts, init);
        OfHas(ts, n);
        BringUpLast(Brought(ts, init), last, n, Of(ts, n));
      } else {
        BringUpOther(Brought(ts, init), last, n);
      }
    }
  }

  lemma NoNames()
    ensures Names([]) == {}
  {
  }

  /** In how many rounds `n` was brought up. */
  ghost function Turns(moved: seq<seq<Task>>, n: Name): (k: nat) {
    if moved == [] then 0
    else Turns(moved[..|moved| - 1], n) + if n in Names(moved[|moved| - 1]) then 1 else 0
  }

  lemma TraceInit(c: Commands, requested: seq<Task>, states: seq<State>, moved: seq<seq<Task>>)
    requires IsTrace(c, requested, states, moved) && moved != []
    ensures var i := |moved| - 1;
            && IsTrace(c, requested, states[..i + 1], moved[..i]) && states[..i + 1][i] == states[i]
            && IsRound(c, states[i], moved[i], states[i + 1])
  {
    hide IsRound;
  }

  lemma {:induction false} TraceKeeps(c: Commands, requested: seq<Task>, states: seq<State>, moved: seq<seq<Task>>)
    requires c.DepsAreCanonical() && IsTrace(c, requested, states, moved)
    ensures Invariant(c, requested, states[|moved|])
    decreases |moved|
  {
    hide Invariant, IsRound;
    if moved == [] {
      Started(c, requested);
    } else {
      var i := |moved| - 1;
      TraceInit(c, requested, states, moved);
      TraceKeeps(c, requested, states[..i + 1], moved[..i]);
      RoundKeeps(c, requested, states[i], moved[i], states[i + 1]);
    }
  }

  /** A round turns the waiting invocations of a command if it brings the command up, and
      otherwise leaves their order alone. */
  lemma RoundTurns(c: Commands, s: State, moves: seq<Task>, s': State, n: Name)
    requires c.DepsAreCanonical() && IsRound(c, s, moves, s') && n !in Names(s.run) && Of(s.ts, n) != [] && Distinct(Of(s.ts, n))
    ensures n in Names(s'.run) ==> n !in Names(moves) && Of(s.ts, n)[0] in s'.run
    ensures n !in Names(s'.run) ==> Of(s'.ts, n) == if n in Names(moves) then RotateRight(Of(s.ts, n)) else Of(s.ts, n)
  {
    hide Of, Names, Brought, Moves, Wanted, RotateRight, ByName, Distinct;
    MovesNames(c, s, moves);
    WantedHas(c, s.ts, s.run);
    if moves == [] {
      NoNames();
      var front, rest := s.ts[0], s.ts[1..];
      assert s.ts == [front] + rest;
      OfAppend([front], rest, n);
      OfOne(front, n);
      NamesAppend(s.run, [front]);
      SingleName(front);
      assert [] + Of(rest, n) == Of(rest, n);
    } else {
      OfHas(s.ts, n);
      ByNameIsLast(s.ts, n);
      BroughtOf(s.ts, moves, n);
    }
  }

  /** A command that is run already is not brought up again. */
  lemma RanStays(c: Commands, s: State, moves: seq<Task>, s': State, n: Name)
    requires c.DepsAreCanonical() && IsRound(c, s, moves, s') && n in Names(s.run)
    ensures n !in Names(moves) && n in Names(s'.run) && forall t :: t in s.run ==> t in s'.run
  {
    hide Names, Brought, Moves, Wanted;
    MovesNames(c, s, moves);
    WantedHas(c, s.ts, s.run);
    NamesAppend(s.run, [s.ts[0]]);
  }

  lemma {:induction false} TraceTurns(c: Commands, requested: seq<Task>, states: seq<State>, moved: seq<seq<Task>>, n: Name)
    requires c.DepsAreCanonical() && IsTrace(c, requested, states, moved) && Of(requested, n) != [] && Distinct(Of(requested, n))
    ensures var s, all := states[|moved|], Turned(Of(requested, n), Turns(moved, n));
            && (n !in Names(s.run) ==> Of(s.ts, n) == all)
            && (n in Names(s.run) ==> all[0] in s.run)
    decreases |moved|
  {
    hide IsRound, Names, Of, Distinct, RotateRight;
    OfHas(requested, n);
    if moved == [] {
      NoNames();
    } else {
      var i := |moved| - 1;
      TraceInit(c, requested, states, moved);
      TraceTurns(c, requested, states[..i + 1], moved[..i], n);
      TurnedDistinct(Of(requested, n), Turns(moved[..i], n));
      if n in Names(states[i].run) {
        RanStays(c, states[i], moved[i], states[i + 1], n);
      } else {
        RoundTurns(c, states[i], moved[i], states[i + 1], n);
      }
    }
  }

  /** The task counted back from the first by `j`, going round from the first to the last. */
  ghost function AfterTurns(ts: seq<Task>, j: nat): Task
    requires ts != []
  {
    if j % |ts| == 0 then ts[0] else ts[|ts| - j % |ts|]
  }

  /** Which invocation of a requested command runs: counted back from the first by one for every
      round that brought the command up. So the first one runs exactly if the number of these
      rounds is a multiple of the number of invocations. */
  lemma WhichRuns(c: Commands, requested: seq<Task>, states: seq<State>, moved: seq<seq<Task>>, n: Name)
    requires c.DepsAreCanonical() && IsTrace(c, requested, states, moved) && states[|moved|].ts == []
    requires Of(requested, n) != [] && Distinct(Of(requested, n))
    ensures var all, run := Of(requested, n), states[|moved|].run;
            && Of(run, n) == [AfterTurns(all, Turns(moved, n))]
            && (all[0] in run <==> Turns(moved, n) % |all| == 0)
  {
    assert |states| == |moved| + 1;
    hide Invariant, Of, IsTrace, Turns, Turned, Names, AfterTurns, Distinct, DistinctNames;
    var s, all := states[|moved|], Of(requested, n);
    TraceTurns(c, requested, states, moved, n);
    TraceKeeps(c, requested, states, moved);
    OfHas(requested, n);
    EndsWithAll(c, requested, s, n);
    TurnedFront(all, Turns(moved, n));
    OnlyOne(s.run, Turned(all, Turns(moved, n))[0]);
    OfHas(s.run, n);
  }

  lemma TurnedFront(ts: seq<Task>, j: nat)
    requires ts != [] && Distinct(ts)
    ensures Turned(ts, j)[0] == AfterTurns(ts, j) && AfterTurns(ts, j) in ts && ts[0] in ts
    ensures AfterTurns(ts, j) == ts[0] <==> j % |ts| == 0
  {
    hide Turned;
    TurnedIs(ts, j);
  }

  lemma EndsWithAll(c: Commands, requested: seq<Task>, s: State, n: Name)
    requires Invariant(c, requested, s) && s.ts == [] && n in Names(requested)
    ensures n in Names(s.run) && DistinctNames(s.run)
  {
    hide InOrder, DistinctNames;
  }

  lemma {:induction false} OnlyOne(run: seq<Task>, t: Task)
    requires DistinctNames(run) && t in run
    ensures Of(run, t.name) == [t]
  {
    var init, last := run[..|run| - 1], run[|run| - 1];
    assert run == init + [last];
    if last == t {
      OfHas(init, t.name);
    } else {
      OnlyOne(init, t);
    }
  }

  /** `a` stands in the list, before any invocation of `n`. */
  ghost predicate Ahead(ts: seq<Task>, a: Name, n: Name) {
    exists k: nat :: AheadAt(ts, k, a, n)
  }

  ghost predicate AheadAt(ts: seq<Task>, k: nat, a: Name, n: Name) {
    k < |ts| && ts[k].name == a && n !in Names(ts[..k + 1])
  }

  lemma AheadAtAppend(x: seq<Task>, y: seq<Task>, k: nat, a: Name, n: Name)
    ensures k < |x| ==> (AheadAt(x + y, k, a, n) <==> AheadAt(x, k, a, n))
    ensures |x| <= k ==> (AheadAt(x + y, k, a, n) <==> n !in Names(x) && AheadAt(y, k - |x|, a, n))
  {
    hide Names;
    if k < |x| {
      assert (x + y)[..k + 1] == x[..k + 1];
    } else if k < |x| + |y| {
      assert (x + y)[..k + 1] == x + y[..k - |x| + 1];
      NamesAppend(x, y[..k - |x| + 1]);
    }
  }

  lemma AheadAppend(x: seq<Task>, y: seq<Task>, a: Name, n: Name)
    ensures Ahead(x + y, a, n) <==> Ahead(x, a, n) || (n !in Names(x) && Ahead(y, a, n))
  {
    hide AheadAt, Names;
    if k: nat :| AheadAt(x + y, k, a, n) {
      AheadAtAppend(x, y, k, a, n);
    }
    if k: nat :| AheadAt(x, k, a, n) {
      InRange(x, k, a, n);
      AheadAtAppend(x, y, k, a, n);
    }
    if k: nat :| n !in Names(x) && AheadAt(y, k, a, n) {
      AheadAtAppend(x, y, |x| + k, a, n);
    }
  }

  lemma InRange(ts: seq<Task>, k: nat, a: Name, n: Name)
    requires AheadAt(ts, k, a, n)
    ensures k < |ts|
  {
  }

  lemma AheadOne(t: Task, a: Name, n: Name)
    ensures Ahead([t], a, n) <==> t.name == a && a != n
  {
    SingleName(t);
    assert [t][..0 + 1] == [t];
    assert AheadAt([t], 0, a, n) <==> t.name == a && a != n;
  }

  lemma BringUpAhead(ts: seq<Task>, t: Task, a: Name, n: Name)
    requires t.name != n
    ensures Ahead(BringUp(ts, t), a, n) <==> Ahead(ts, a, n) || a == t.name
  {
    hide Names, Ahead;
    AheadOne(t, a, n);
    SingleName(t);
    if t in ts {
      var i := FirstAt(ts, t);
      var x, y := ts[..i], ts[i + 1..];
      assert ts == x + ([t] + y);
      AheadAppend([t], x + y, a, n);
      AheadAppend(x, y, a, n);
      AheadAppend(x, [t] + y, a, n);
      AheadAppend([t], y, a, n);
    } else {
      AheadAppend([t], ts, a, n);
    }
  }

  lemma {:induction false} BroughtAhead(ts: seq<Task>, moves: seq<Task>, a: Name, n: Name)
    requires n !in Names(moves)
    ensures Ahead(Brought(ts, moves), a, n) <==> Ahead(ts, a, n) || a in Names(moves)
    decreases |moves|
  {
    hide Names, Ahead, BringUp;
    if moves == [] {
      NoNames();
    } else {
      var init, last := moves[..|moves| - 1], moves[|moves| - 1];
      assert moves == init + [last];
      NamesAppend(init, [last]);
      SingleName(last);
      BroughtAhead(ts, init, a, n);
      BringUpAhead(Brought(ts, init), last, a, n);
    }
  }

  lemma PopAhead(ts: seq<Task>, a: Name, n: Name)
    requires ts != []
    ensures Ahead(ts, a, n) <==> ts[0].name != n && (a == ts[0].name || Ahead(ts[1..], a, n))
  {
    hide Names, Ahead;
    assert ts == [ts[0]] + ts[1..];
    AheadAppend([ts[0]], ts[1..], a, n);
    AheadOne(ts[0], a, n);
    SingleName(ts[0]);
  }

  /** A command requested before any invocation of `n` needs `n`, directly or not. */
  ghost predicate NeededBefore(c: Commands, requested: seq<Task>, n: Name) {
    exists p :: |p| > 1 && c.Chain(Names(requested), p) && Ahead(requested, p[0], n) && p[|p| - 1] == n
  }

  /** What may come to stand ahead of `n`: what is requested before it, and what that or `n` needs. */
  ghost predicate MayLead(c: Commands, requested: seq<Task>, n: Name, x: Name) {
    exists p :: c.Chain(Names(requested), p) && p[|p| - 1] == x && (Ahead(requested, p[0], n) || (p[0] == n && |p| > 1))
  }

  lemma LeadsFirst(c: Commands, requested: seq<Task>, n: Name, a: Name)
    requires Ahead(requested, a, n)
    ensures MayLead(c, requested, n, a)
  {
    hide Ahead;
    var p := [a];
    assert c.Chain(Names(requested), p) && p[|p| - 1] == a;
  }

  lemma LeadsOn(c: Commands, requested: seq<Task>, n: Name, x: Name, d: Name)
    requires (x == n || MayLead(c, requested, n, x)) && c.Needs(Names(requested), x, d)
    ensures MayLead(c, requested, n, d)
  {
    hide Ahead, c.Needs, Names;
    var names := Names(requested);
    var p := [n];
    if x != n {
      p :| c.Chain(names, p) && p[|p| - 1] == x && (Ahead(requested, p[0], n) || (p[0] == n && |p| > 1));
    }
    var q := p + [d];
    forall i | 0 <= i < |q| - 1 ensures c.Needs(names, q[i], q[i + 1]) {
      assert i < |p| - 1 ==> c.Needs(names, p[i], p[i + 1]);
    }
    assert c.Chain(names, q) && q[|q| - 1] == d && q[0] == p[0];
  }

  lemma {:induction false} ChainIsWalk(c: Commands, requested: set<Name>, p: seq<Name>)
    requires c.Chain(requested, p) && p[0] in c.Needed(requested)
    ensures c.Walk(p) && Within(p, c.Needed(requested))
    decreases |p|
  {
    hide c.Needed;
    c.NeededIsLeast(requested);
    if |p| > 1 {
      var l := |p| - 1;
      var q := p[..l];
      ChainIsWalk(c, requested, q);
      assert c.Needs(requested, p[l - 1], p[l]);
      forall i | 0 <= i < l ensures c.Before(p[i], p[i + 1]) {
        assert i < l - 1 ==> c.Before(q[i], q[i + 1]);
      }
      forall i | 0 <= i < |p| ensures p[i] in c.Needed(requested) {
        assert q[l - 1] in c.Needed(requested);
        assert i < l ==> q[i] in c.Needed(requested);
      }
    }
  }

  /** Unless it is needed before, `n` never comes to stand ahead of itself. */
  lemma DoesNotLead(c: Commands, requested: seq<Task>, n: Name)
    requires c.Acyclic(c.Needed(Names(requested))) && n in Names(requested) && !NeededBefore(c, requested, n)
    ensures !MayLead(c, requested, n, n)
  {
    hide c.Needed, c.Needs;
    var names := Names(requested);
    c.NeededIsLeast(names);
    if MayLead(c, requested, n, n) {
      var p :| c.Chain(names, p) && p[|p| - 1] == n && (Ahead(requested, p[0], n) || (p[0] == n && |p| > 1));
      if p[0] == n && |p| > 1 {
        ChainIsWalk(c, names, p);
      }
    }
  }

  /** While nothing ahead of `n`, and nothing added to the list, waits for it. */
  ghost predicate Calm(c: Commands, requested: seq<Task>, ts: seq<Task>, n: Name) {
    && (forall a :: Ahead(ts, a, n) ==> MayLead(c, requested, n, a))
    && (forall m :: m in Names(ts) ==> m in Names(requested) || MayLead(c, requested, n, m))
  }

  lemma WantedLeads(c: Commands, requested: seq<Task>, s: State, n: Name, d: Name)
    requires s.ts != [] && Calm(c, requested, s.ts, n) && d in Wanted(c, s.ts, s.run)
    ensures MayLead(c, requested, n, d)
  {
    hide MayLead, Ahead, Wanted, Names;
    var x := s.ts[0].name;
    PopAhead(s.ts, x, n);
    WantedHas(c, s.ts, s.run);
    if d in c.Deps(x) || d in Names(requested) {
      assert c.Needs(Names(requested), x, d);
      LeadsOn(c, requested, n, x, d);
    }
  }

  lemma CalmRound(c: Commands, requested: seq<Task>, s: State, moves: seq<Task>, s': State, n: Name)
    requires c.DepsAreCanonical() && IsRound(c, s, moves, s') && Calm(c, requested, s.ts, n)
    requires n !in Names(s.run) && !MayLead(c, requested, n, n)
    ensures n !in Names(moves) && (n !in Names(s'.run) ==> Calm(c, requested, s'.ts, n))
  {
    hide MayLead, Ahead, Wanted, Names, Moves, Brought;
    MovesNames(c, s, moves);
    forall d | d in Wanted(c, s.ts, s.run) ensures MayLead(c, requested, n, d) {
      WantedLeads(c, requested, s, n, d);
    }
    if moves == [] {
      NamesAppend(s.run, [s.ts[0]]);
      SingleName(s.ts[0]);
      NamesAppend([s.ts[0]], s.ts[1..]);
      assert s.ts == [s.ts[0]] + s.ts[1..];
      forall a | Ahead(s.ts[1..], a, n) && s.ts[0].name != n ensures MayLead(c, requested, n, a) {
        PopAhead(s.ts, a, n);
      }
    } else {
      forall a | Ahead(s'.ts, a, n) ensures MayLead(c, requested, n, a) {
        BroughtAhead(s.ts, moves, a, n);
      }
      BroughtHas(s.ts, moves);
      SameNames(s'.ts, s.ts + moves);
      NamesAppend(s.ts, moves);
    }
  }

  lemma {:induction false} CalmTrace(c: Commands, requested: seq<Task>, states: seq<State>, moved: seq<seq<Task>>, n: Name)
    requires c.DepsAreCanonical() && IsTrace(c, requested, states, moved) && !MayLead(c, requested, n, n)
    ensures Turns(moved, n) == 0
    ensures n in Names(states[|moved|].run) || Calm(c, requested, states[|moved|].ts, n)
    decreases |moved|
  {
    hide IsRound, Names, MayLead, Ahead;
    if moved == [] {
      forall a | Ahead(requested, a, n) ensures MayLead(c, requested, n, a) {
        LeadsFirst(c, requested, n, a);
      }
    } else {
      var i := |moved| - 1;
      TraceInit(c, requested, states, moved);
      CalmTrace(c, requested, states[..i + 1], moved[..i], n);
      if n in Names(states[i].run) {
        RanStays(c, states[i], moved[i], states[i + 1], n);
      } else {
        CalmRound(c, requested, states[i], moved[i], states[i + 1], n);
      }
    }
  }

  /** While `n` is not brought up, what needs it waits ahead of it, and neither is run. */
  ghost predicate Stuck(s: State, a: Name, n: Name) {
    n !in Names(s.run) && a !in Names(s.run) && Ahead(s.ts, a, n)
  }

  lemma StuckRound(c: Commands, requested: seq<Task>, s: State, moves: seq<Task>, s': State, p: seq<Name>)
    requires c.DepsAreCanonical() && IsRound(c, s, moves, s') && InOrder(c, s'.run, Names(requested))
    requires |p| > 1 && c.Chain(Names(requested), p) && Stuck(s, p[0], p[|p| - 1]) && p[|p| - 1] !in Names(moves)
    ensures Stuck(s', p[0], p[|p| - 1])
  {
    hide Ahead, Wanted, Names, Moves, Brought, InOrder, c.Chain;
    var a, n := p[0], p[|p| - 1];
    if moves == [] {
      PopAhead(s.ts, a, n);
      NamesAppend(s.run, [s.ts[0]]);
      SingleName(s.ts[0]);
      if a == s.ts[0].name {
        NeedsRun(c, s'.run, Names(requested), p);
      }
    } else {
      BroughtAhead(s.ts, moves, a, n);
    }
  }

  lemma NeedsRun(c: Commands, run: seq<Task>, requested: set<Name>, p: seq<Name>)
    requires InOrder(c, run, requested) && c.Chain(requested, p) && p[0] in Names(run)
    ensures p[|p| - 1] in Names(run)
  {
    hide InOrder;
    var i :| 0 <= i < |run| && run[i].name == p[0];
    var j := ChainRunsBackwards(c, run, requested, p, i);
    assert run[j] in run;
  }

  lemma {:induction false} StuckTrace(c: Commands, requested: seq<Task>, states: seq<State>, moved: seq<seq<Task>>, p: seq<Name>)
    requires c.DepsAreCanonical() && IsTrace(c, requested, states, moved)
    requires |p| > 1 && c.Chain(Names(requested), p) && Ahead(requested, p[0], p[|p| - 1])
    ensures Turns(moved, p[|p| - 1]) == 0 ==> Stuck(states[|moved|], p[0], p[|p| - 1])
    decreases |moved|
  {
    hide IsRound, Names, Ahead, c.Chain;
    if moved == [] {
      NoNames();
    } else if Turns(moved, p[|p| - 1]) == 0 {
      var i := |moved| - 1;
      TraceInit(c, requested, states, moved);
      TraceKeeps(c, requested, states, moved);
      StuckTrace(c, requested, states[..i + 1], moved[..i], p);
      StuckRound(c, requested, states[i], moved[i], states[i + 1], p);
    }
  }

  /** A requested command is brought up in no round exactly if nothing that is requested before it
      needs it. Then its first invocation runs. */
  lemma NeverBroughtUp(c: Commands, requested: seq<Task>, states: seq<State>, moved: seq<seq<Task>>, n: Name)
    requires c.DepsAreCanonical() && IsTrace(c, requested, states, moved) && states[|moved|].ts == []
    requires c.Acyclic(c.Needed(Names(requested))) && Of(requested, n) != [] && Distinct(Of(requested, n))
    ensures Turns(moved, n) == 0 <==> !NeededBefore(c, requested, n)
    ensures !NeededBefore(c, requested, n) ==> Of(states[|moved|].run, n) == [Of(requested, n)[0]]
  {
    assert |states| == |moved| + 1 && forall a :: !Ahead([], a, n);
    hide IsTrace, MayLead, Turns, c.Chain, c.Acyclic, Names, Of, Distinct, Ahead;
    OfHas(requested, n);
    if NeededBefore(c, requested, n) {
      var p :| |p| > 1 && c.Chain(Names(requested), p) && Ahead(requested, p[0], n) && p[|p| - 1] == n;
      StuckTrace(c, requested, states, moved, p);
    } else {
      DoesNotLead(c, requested, n);
      CalmTrace(c, requested, states, moved, n);
      WhichRuns(c, requested, states, moved, n);
    }
  }

  lemma {:induction false} RunGrows(c: Commands, requested: seq<Task>, states: seq<State>, moved: seq<seq<Task>>, i: nat, t: Task)
    requires c.DepsAreCanonical() && IsTrace(c, requested, states, moved) && i <= |moved| && t in states[i].run
    ensures t in states[|moved|].run
    decreases |moved| - i
  {
    if i < |moved| {
      hide IsRound;
      assert IsRound(c, states[i], moved[i], states[i + 1]);
      RanStays(c, states[i], moved[i], states[i + 1], t.name);
      RunGrows(c, requested, states, moved, i + 1, t);
    }
  }

  /** A front task that depends on nothing is run in the next round. */
  lemma RunsAtOnce(c: Commands, requested: seq<Task>, states: seq<State>, moved: seq<seq<Task>>, i: nat)
    requires c.DepsAreCanonical() && IsTrace(c, requested, states, moved) && states[|moved|].ts == []
    requires i <= |moved| && states[i].ts != [] && states[i].run == []
    requires c.Deps(states[i].ts[0].name) == c.Order(states[i].ts[0].name) == []
    ensures states[i].ts[0] in states[|moved|].run
  {
    var s := states[i];
    assert IsRound(c, s, moved[i], states[i + 1]);
    assert Wanted(c, s.ts, s.run) == [];
    NoneWanted(c, s.ts, Wanted(c, s.ts, s.run), moved[i]);
    NoNames();
    RunGrows(c, requested, states, moved, i + 1, s.ts[0]);
  }

  /** One round with a front task that waits for the commands `ds`, all of them dependencies. */
  lemma BringsUp(c: Commands, s: State, moves: seq<Task>, s': State, ds: seq<Name>)
    requires IsRound(c, s, moves, s') && s.run == [] && c.Deps(s.ts[0].name) == ds != [] && c.Order(s.ts[0].name) == []
    ensures Moves(c, s.ts, ds, moves) && s' == State(Brought(s.ts, moves), [])
  {
    hide Moves, Brought;
    NoNames();
    SelectAll(ds, Missing(c, s.ts[0].name, s.run));
    assert Wanted(c, s.ts, s.run) == ds;
    NoneWanted(c, s.ts, ds, moves);
  }

  lemma {:induction false} SelectAll(ds: seq<Name>, s: set<Name>)
    requires forall i :: 0 <= i < |ds| ==> ds[i] in s
    ensures Select(ds, s) == ds
  {
    if ds != [] {
      SelectAll(ds[..|ds| - 1], s);
    }
  }

  /** The first invocation need not run: of `A B B`, where A depends on B, it is the last. */
  lemma LastRuns(states: seq<State>, moved: seq<seq<Task>>)
    requires IsTrace(Commands(map[], map["A" := ["B"]], map[]), [Task("A", 0), Task("B", 1), Task("B", 2)], states, moved)
    requires states[|moved|].ts == []
    ensures Task("B", 2) in states[|moved|].run
  {
    var c, requested := Commands(map[], map["A" := ["B"]], map[]), [Task("A", 0), Task("B", 1), Task("B", 2)];
    assert IsRound(c, states[0], moved[0], states[1]);
    BringsUp(c, states[0], moved[0], states[1], ["B"]);
    RunsAtOnce(c, requested, states, moved, 1);
  }

  /** The first one may run although it is needed before: of `M N N`, where M depends on N and D,
      and D on N, the second round brings it back to where it was. */
  lemma ComesRound(states: seq<State>, moved: seq<seq<Task>>)
    requires IsTrace(Commands(map[], map["M" := ["N", "D"], "D" := ["N"]], map[]),
                     [Task("M", 0), Task("N", 1), Task("N", 2)], states, moved)
    requires states[|moved|].ts == []
    ensures Task("N", 1) in states[|moved|].run
  {
    var c := Commands(map[], map["M" := ["N", "D"], "D" := ["N"]], map[]);
    var requested := [Task("M", 0), Task("N", 1), Task("N", 2)];
    OwnNamesOnly(c);
    assert c.Deps("M") == ["N", "D"] && c.Deps("D") == ["N"] && c.Deps("N") == [];
    assert c.Order("M") == c.Order("D") == c.Order("N") == [] && c.Canonical("D") == "D";
    hide IsRound, Brought, Moves, Names, ByName, c.Deps, c.Order, c.Canonical, c.DepsAreCanonical;
    assert IsRound(c, states[0], moved[0], states[1]);
    BringsUp(c, states[0], moved[0], states[1], ["N", "D"]);
    TwoMoves(c, requested, moved[0]);
    assert IsRound(c, states[1], moved[1], states[2]);
    BringsUp(c, states[1], moved[1], states[2], ["N"]);
    OneUp(c, states[1].ts, moved[1]);
    RunsAtOnce(c, requested, states, moved, 2);
  }

  lemma OwnNamesOnly(c: Commands)
    requires c.aliases == map[]
    ensures c.DepsAreCanonical()
  {
  }

  lemma TwoMoves(c: Commands, ts: seq<Task>, moves: seq<Task>)
    requires ts == [Task("M", 0), Task("N", 1), Task("N", 2)] && Moves(c, ts, ["N", "D"], moves) && c.Canonical("D") == "D"
    ensures |moves| == 2 && moves[1].name == "D"
    ensures Brought(ts, moves) == [moves[1], Task("N", 2), Task("M", 0), Task("N", 1)]
  {
    hide FirstAt, BringUp, Names, ByName, Brought;
    Unmoved(ts);
    assert IsMove(c, ts, "N", moves[0]) && IsMove(c, ts, "D", moves[1]);
    LastOf(ts, 2);
    BringUpAt(ts, 2);
    assert [] + [moves[0]] == moves[..1] && moves[..1] + [moves[1]] == moves;
    BroughtMore(ts, [], moves[0]);
    BroughtMore(ts, moves[..1], moves[1]);
    assert Brought(ts, moves[..1]) == [Task("N", 2), Task("M", 0), Task("N", 1)];
    BringUpNew([Task("N", 2), Task("M", 0), Task("N", 1)], moves[1]);
  }

  /** The last task of a list is the one that its name stands for. */
  lemma LastOf(ts: seq<Task>, l: nat)
    requires |ts| == l + 1
    ensures ts[l].name in Names(ts) && ByName(ts)[ts[l].name] == ts[l]
  {
    assert ts[l] in ts;
  }

  lemma BringUpAt(ts: seq<Task>, i: nat)
    requires i < |ts| && ts[i] !in ts[..i]
    ensures BringUp(ts, ts[i]) == [ts[i]] + (ts[..i] + ts[i + 1..])
  {
    assert FirstAt(ts, ts[i]) == i;
  }

  lemma BringUpNew(ts: seq<Task>, t: Task)
    requires t !in ts
    ensures BringUp(ts, t) == [t] + ts
  {
  }

  lemma OneUp(c: Commands, ts: seq<Task>, moves: seq<Task>)
    requires |ts| == 4 && ts[0].name == "D" && ts[1..] == [Task("N", 2), Task("M", 0), Task("N", 1)] && Moves(c, ts, ["N"], moves)
    ensures Brought(ts, moves)[0] == Task("N", 1)
  {
    hide Names, BringUp;
    assert IsMove(c, ts, "N", moves[0]) && ts[3] == Task("N", 1);
    LastOf(ts, 3);
  }

  /** A cycle among the needed commands, through dependencies and requested order-dependencies,
      keeps the loop from ending. */
  lemma CycleNeverEnds(c: Commands, requested: seq<Task>, states: seq<State>, moved: seq<seq<Task>>, p: seq<Name>)
    requires c.DepsAreCanonical() && IsTrace(c, requested, states, moved)
    requires |p| > 1 && c.Chain(Names(requested), p) && p[0] == p[|p| - 1] && p[0] in c.Needed(Names(requested))
    ensures states[|moved|].ts != []
  {
    assert |states| == |moved| + 1;
    hide IsTrace, c.Chain, c.Needed, InOrder, Names;
    var s := states[|moved|];
    TraceKeeps(c, requested, states, moved);
    if s.ts == [] {
      Finished(c, requested, s.run);
      c.NeededIsLeast(Names(requested));
      NoCycleIsRun(c, s.run, Names(requested), p);
    }
  }

  ghost predicate OwnNames(c: Commands, ts: seq<Task>) {
    forall t :: t in ts ==> c.Canonical(t.name) == t.name
  }

  lemma MovesOwnNames(c: Commands, s: State, moves: seq<Task>)
    requires OwnNames(c, s.ts) && s.ts != [] && Moves(c, s.ts, Wanted(c, s.ts, s.run), moves)
    requires forall n :: c.Canonical(c.Canonical(n)) == c.Canonical(n)
    ensures OwnNames(c, moves)
  {
    hide Wanted, Names, c.Canonical;
    var ds := Wanted(c, s.ts, s.run);
    forall t | t in moves ensures c.Canonical(t.name) == t.name {
      var i :| 0 <= i < |moves| && moves[i] == t;
      assert IsMove(c, s.ts, ds[i], moves[i]);
    }
  }

  /** A command that depends on an alias is never run: only own names count as run. */
  lemma {:induction false} AliasIsNotRun(c: Commands, requested: seq<Task>, states: seq<State>, moved: seq<seq<Task>>)
    requires IsTrace(c, requested, states, moved) && OwnNames(c, requested)
    requires forall n :: c.Canonical(c.Canonical(n)) == c.Canonical(n)
    ensures var s := states[|moved|];
            && OwnNames(c, s.ts) && OwnNames(c, s.run)
            && forall t, d :: t in s.run && d in c.Deps(t.name) ==> c.Canonical(d) == d
    decreases |moved|
  {
    hide IsRound, c.Canonical;
    if moved != [] {
      var i := |moved| - 1;
      TraceInit(c, requested, states, moved);
      AliasIsNotRun(c, requested, states[..i + 1], moved[..i]);
      AliasRound(c, states[i], moved[i], states[i + 1]);
    }
  }

  lemma AliasRound(c: Commands, s: State, moves: seq<Task>, s': State)
    requires IsRound(c, s, moves, s') && OwnNames(c, s.ts) && OwnNames(c, s.run)
    requires forall n :: c.Canonical(c.Canonical(n)) == c.Canonical(n)
    requires forall t, d :: t in s.run && d in c.Deps(t.name) ==> c.Canonical(d) == d
    ensures OwnNames(c, s'.ts) && OwnNames(c, s'.run)
    ensures forall t, d :: t in s'.run && d in c.Deps(t.name) ==> c.Canonical(d) == d
  {
    hide Wanted, Moves, Brought, c.Canonical;
    NoneWanted(c, s.ts, Wanted(c, s.ts, s.run), moves);
    if moves == [] {
      WantedHas(c, s.ts, s.run);
      RanOwnNames(c, s.run);
    } else {
      MovesOwnNames(c, s, moves);
      BroughtHas(s.ts, moves);
    }
  }

  lemma RanOwnNames(c: Commands, run: seq<Task>)
    requires OwnNames(c, run)
    ensures forall n :: n in Names(run) ==> c.Canonical(n) == n
  {
    hide c.Canonical;
  }

  /** So a requested command that depends on an alias keeps the loop from ending. */
  lemma AliasNeverEnds(c: Commands, requested: seq<Task>, states: seq<State>, moved: seq<seq<Task>>, t: Task, d: Name)
    requires IsTrace(c, requested, states, moved)
    requires forall u :: u in requested && u.name in c.aliases ==> c.aliases[u.name] == u.name
    requires forall n :: n in c.aliases && c.aliases[n] in c.aliases ==> c.aliases[c.aliases[n]] == c.aliases[n]
    requires t in requested && t.name in c.deps && d in c.deps[t.name] && d in c.aliases && c.aliases[d] != d
    ensures t.name !in Names(states[|moved|].run) && t.name in Names(states[|moved|].ts)
  {
    hide IsTrace;
    assert OwnNames(c, requested);
    assert d in c.Deps(t.name) && c.Canonical(d) != d;
    AliasIsNotRun(c, requested, states, moved);
    NamesStay(c, requested, states, moved);
  }

  lemma {:induction false} NamesStay(c: Commands, requested: seq<Task>, states: seq<State>, moved: seq<seq<Task>>)
    requires IsTrace(c, requested, states, moved)
    ensures Names(requested) <= Names(states[|moved|].ts) + Names(states[|moved|].run)
    decreases |moved|
  {
    hide IsRound, Names;
    if moved != [] {
      var i := |moved| - 1;
      TraceInit(c, requested, states, moved);
      NamesStay(c, requested, states[..i + 1], moved[..i]);
      NamesStayInRound(c, states[i], moved[i], states[i + 1]);
    }
  }

  lemma NamesStayInRound(c: Commands, s: State, moves: seq<Task>, s': State)
    requires IsRound(c, s, moves, s')
    ensures Names(s.ts) + Names(s.run) <= Names(s'.ts) + Names(s'.run)
  {
    hide Wanted, Moves, Brought, Names;
    if moves == [] {
      assert s.ts == [s.ts[0]] + s.ts[1..];
      NamesAppend([s.ts[0]], s.ts[1..]);
      NamesAppend(s.run, [s.ts[0]]);
      SingleName(s.ts[0]);
    } else {
      BroughtHas(s.ts, moves);
      SameNames(s'.ts, s.ts + moves);
      NamesAppend(s.ts, moves);
    }
  }

  // How often a command can be brought up: once for each command that needs it directly.

  /** Command `x` leads to `a` through dependencies and order-dependencies among `names`. */
  ghost predicate LeadsTo(c: Commands, names: set<Name>, x: Name, a: Name) {
    exists p :: |p| > 1 && c.Walk(p) && Within(p, names) && p[0] == x && p[|p| - 1] == a
  }

  lemma LeadsFurther(c: Commands, names: set<Name>, x: Name, z: Name, d: Name)
    requires (z == x || LeadsTo(c, names, x, z)) && c.Before(z, d) && x in names && d in names
    ensures LeadsTo(c, names, x, d)
  {
    hide c.Before;
    var p := [x];
    if z != x {
      p :| |p| > 1 && c.Walk(p) && Within(p, names) && p[0] == x && p[|p| - 1] == z;
    }
    var q := p + [d];
    forall i | 0 <= i < |q| - 1 ensures c.Before(q[i], q[i + 1]) {
      assert i < |p| - 1 ==> c.Before(p[i], p[i + 1]);
    }
    assert c.Walk(q) && Within(q, names) && q[0] == x && q[|q| - 1] == d;
  }

  lemma LeadsNotBack(c: Commands, names: set<Name>, x: Name)
    requires c.Acyclic(names)
    ensures !LeadsTo(c, names, x, x)
  {
    hide c.Walk, Within;
  }

  /** After `x` has brought up `n`: until `n` is run it stands ahead of `x`, as does only what `x` leads to. */
  ghost predicate Waits(c: Commands, names: set<Name>, s: State, x: Name, n: Name) {
    || n in Names(s.run)
    || (Ahead(s.ts, n, x) && forall a :: Ahead(s.ts, a, x) ==> LeadsTo(c, names, x, a))
  }

  /** What the front task `z` wants, as seen from `x`. */
  lemma WantedLeadsOn(c: Commands, requested: seq<Task>, s: State, moves: seq<Task>, s': State, x: Name)
    requires c.DepsAreCanonical() && Invariant(c, requested, s) && IsRound(c, s, moves, s') && x in c.Needed(Names(requested))
    requires s.ts[0].name == x || LeadsTo(c, c.Needed(Names(requested)), x, s.ts[0].name)
    ensures forall d :: d in Names(moves) ==> LeadsTo(c, c.Needed(Names(requested)), x, d)
  {
    hide Wanted, Moves, Brought, Names, c.Needed, InOrder, LeadsTo;
    MovesNames(c, s, moves);
    WantedHas(c, s.ts, s.run);
    WantedIsNeeded(c, Names(requested), s.ts, s.run);
    forall d | d in Names(moves) ensures LeadsTo(c, c.Needed(Names(requested)), x, d) {
      assert c.Before(s.ts[0].name, d);
      LeadsFurther(c, c.Needed(Names(requested)), x, s.ts[0].name, d);
    }
  }

  lemma WaitBegins(c: Commands, requested: seq<Task>, s: State, moves: seq<Task>, s': State, n: Name)
    requires c.DepsAreCanonical() && Invariant(c, requested, s) && IsRound(c, s, moves, s')
    requires c.Acyclic(c.Needed(Names(requested))) && n in Names(moves) && n in Names(requested)
    ensures s.ts[0].name in Needers(c, requested, n) && Waits(c, c.Needed(Names(requested)), s', s.ts[0].name, n)
  {
    hide Wanted, Moves, Names, c.Needed, InOrder, LeadsTo, c.Acyclic, Ahead;
    var x, names := s.ts[0].name, c.Needed(Names(requested));
    assert s.ts[0] in s.ts && x in Names(s.ts);
    WantedLeadsOn(c, requested, s, moves, s', x);
    LeadsNotBack(c, names, x);
    MovesNames(c, s, moves);
    WantedHas(c, s.ts, s.run);
    NotNone(moves, n);
    forall a ensures Ahead(s'.ts, a, x) <==> a in Names(moves) {
      BroughtAhead(s.ts, moves, a, x);
      PopAhead(s.ts, a, x);
    }
  }

  lemma NotNone(moves: seq<Task>, n: Name)
    requires n in Names(moves)
    ensures moves != []
  {
  }

  lemma WaitGoesOn(c: Commands, requested: seq<Task>, s: State, moves: seq<Task>, s': State, x: Name, n: Name)
    requires c.DepsAreCanonical() && Invariant(c, requested, s) && IsRound(c, s, moves, s')
    requires c.Acyclic(c.Needed(Names(requested))) && x in c.Needed(Names(requested))
    requires Waits(c, c.Needed(Names(requested)), s, x, n)
    ensures Waits(c, c.Needed(Names(requested)), s', x, n)
    ensures n in Names(moves) ==> s.ts[0].name != x
  {
    hide Wanted, Moves, Names, c.Needed, InOrder, LeadsTo, c.Acyclic, Ahead, Brought;
    if n in Names(s.run) {
      RanStays(c, s, moves, s', n);
    } else {
      var names := c.Needed(Names(requested));
      PopAhead(s.ts, n, x);
      PopAhead(s.ts, s.ts[0].name, x);
      WantedLeadsOn(c, requested, s, moves, s', x);
      LeadsNotBack(c, names, x);
      if moves == [] {
        NamesAppend(s.run, [s.ts[0]]);
        SingleName(s.ts[0]);
        forall a | Ahead(s'.ts, a, x) ensures LeadsTo(c, names, x, a) {
          PopAhead(s.ts, a, x);
        }
      } else {
        forall a ensures Ahead(s'.ts, a, x) <==> Ahead(s.ts, a, x) || a in Names(moves) {
          BroughtAhead(s.ts, moves, a, x);
        }
      }
    }
  }

  /** The needed commands that need `n` directly. */
  ghost function Needers(c: Commands, requested: seq<Task>, n: Name): set<Name> {
    set x | x in c.Needed(Names(requested)) && c.Needs(Names(requested), x, n)
  }

  /** The commands that brought up `n`. */
  ghost function Fronts(states: seq<State>, moved: seq<seq<Task>>, n: Name): (xs: set<Name>)
    requires |states| == |moved| + 1
  {
    if moved == [] then {}
    else
      var i := |moved| - 1;
      Fronts(states[..i + 1], moved[..i], n)
      + if n in Names(moved[i]) && states[i].ts != [] then {states[i].ts[0].name} else {}
  }

  /** Each of them did so in one round only. */
  lemma {:induction false} TurnsAreFronts(c: Commands, requested: seq<Task>, states: seq<State>, moved: seq<seq<Task>>, n: Name)
    requires c.DepsAreCanonical() && IsTrace(c, requested, states, moved)
    requires c.Acyclic(c.Needed(Names(requested))) && n in Names(requested)
    ensures |Fronts(states, moved, n)| == Turns(moved, n) && Fronts(states, moved, n) <= Needers(c, requested, n)
    ensures forall x :: x in Fronts(states, moved, n) ==> Waits(c, c.Needed(Names(requested)), states[|moved|], x, n)
    decreases |moved|
  {
    hide IsRound, Names, c.Needed, c.Acyclic, Waits, Invariant, c.Needs;
    if moved != [] {
      var i := |moved| - 1;
      var before := Fronts(states[..i + 1], moved[..i], n);
      TraceInit(c, requested, states, moved);
      TraceKeeps(c, requested, states[..i + 1], moved[..i]);
      TurnsAreFronts(c, requested, states[..i + 1], moved[..i], n);
      forall x | x in before
        ensures Waits(c, c.Needed(Names(requested)), states[i + 1], x, n)
        ensures n in Names(moved[i]) ==> FrontOf(states[i]) != x
      {
        WaitGoesOn(c, requested, states[i], moved[i], states[i + 1], x, n);
        FrontIs(c, states[i], moved[i], states[i + 1]);
      }
      FrontIs(c, states[i], moved[i], states[i + 1]);
      if n in Names(moved[i]) {
        WaitBegins(c, requested, states[i], moved[i], states[i + 1], n);
      }
    }
  }

  ghost function FrontOf(s: State): Name {
    if s.ts == [] then "" else s.ts[0].name
  }

  lemma FrontIs(c: Commands, s: State, moves: seq<Task>, s': State)
    requires IsRound(c, s, moves, s')
    ensures s.ts != [] && FrontOf(s) == s.ts[0].name
  {
  }

  /** A command is brought up at most once by each command that needs it directly. */
  lemma FewTurns(c: Commands, requested: seq<Task>, states: seq<State>, moved: seq<seq<Task>>, n: Name)
    requires c.DepsAreCanonical() && IsTrace(c, requested, states, moved)
    requires c.Acyclic(c.Needed(Names(requested))) && n in Names(requested)
    ensures Turns(moved, n) <= |Needers(c, requested, n)|
  {
    hide IsTrace, Turns, Fronts, Needers, c.Acyclic, c.Needed, Names;
    assert |states| == |moved| + 1 by { LengthOf(c, requested, states, moved); }
    TurnsAreFronts(c, requested, states, moved, n);
    Fewer(Fronts(states, moved, n), Needers(c, requested, n));
  }

  lemma LengthOf(c: Commands, requested: seq<Task>, states: seq<State>, moved: seq<seq<Task>>)
    requires IsTrace(c, requested, states, moved)
    ensures |states| == |moved| + 1
  {
  }

  lemma {:induction false} Fewer(a: set<Name>, b: set<Name>)
    requires a <= b
    ensures |a| <= |b|
  {
    if a != {} {
      var x :| x in a;
      Fewer(a - {x}, b - {x});
    }
  }

  /** So with more invocations than commands that need it directly, the first invocation of a
      command runs exactly if nothing requested before it needs it. */
  lemma FirstRunsExactly(c: Commands, requested: seq<Task>, states: seq<State>, moved: seq<seq<Task>>, n: Name)
    requires c.DepsAreCanonical() && IsTrace(c, requested, states, moved) && states[|moved|].ts == []
    requires c.Acyclic(c.Needed(Names(requested))) && Of(requested, n) != [] && Distinct(Of(requested, n))
    requires |Needers(c, requested, n)| < |Of(requested, n)|
    ensures Of(requested, n)[0] in states[|moved|].run <==> !NeededBefore(c, requested, n)
  {
    hide IsTrace, Turns, Needers, c.Acyclic, c.Needed, Names, Of, Distinct, NeededBefore;
    OfHas(requested, n);
    FewTurns(c, requested, states, moved, n);
    NeverBroughtUp(c, requested, states, moved, n);
    WhichRuns(c, requested, states, moved, n);
    SmallRemainder(Turns(moved, n), |Of(requested, n)|);
  }

  lemma SmallRemainder(k: nat, n: nat)
    requires k < n
    ensures k % n == 0 <==> k == 0
  {
  }

  /** Numbers that fall along dependencies exclude cycles. */
  lemma RankedIsAcyclic(c: Commands, names: set<Name>, rank: map<Name, nat>)
    requires c.Ranks(names, rank)
    ensures c.Acyclic(names)
  {
    forall p | c.Walk(p) && |p| > 1 && Within(p, names) ensures p[0] != p[|p| - 1] {
      RankFallsAlong(c, names, rank, p);
    }
  }

  lemma {:induction false} RankFallsAlong(c: Commands, names: set<Name>, rank: map<Name, nat>, p: seq<Name>)
    requires c.Ranks(names, rank) && c.Walk(p) && |p| > 1 && Within(p, names)
    ensures RankOf(rank, p[|p| - 1]) < RankOf(rank, p[0])
    decreases |p|
  {
    hide c.Before;
    var l := |p| - 1;
    assert c.Before(p[l - 1], p[l]);
    if l > 1 {
      RankFallsAlong(c, names, rank, p[..l]);
    }
  }

  /** The tool on `A B B`: it runs the last B. */
  method LastOfTwo() returns (run: seq<Task>)
    ensures Task("B", 2) in run && Task("B", 1) !in run
  {
    var c, requested := Commands(map[], map["A" := ["B"]], map[]), [Task("A", 0), Task("B", 1), Task("B", 2)];
    RankedIsAcyclic(c, c.Needed(Names(requested)), map["A" := 1]);
    ghost var states, moved;
    run, states, moved := TasksToRun(c, requested);
    LastRuns(states, moved);
    NotBoth(run, Task("B", 2), Task("B", 1));
  }

  /** The tool on `M N N`: it runs the first N. */
  method FirstOfTwo() returns (run: seq<Task>)
    ensures Task("N", 1) in run && Task("N", 2) !in run
  {
    var c := Commands(map[], map["M" := ["N", "D"], "D" := ["N"]], map[]);
    var requested := [Task("M", 0), Task("N", 1), Task("N", 2)];
    RankedIsAcyclic(c, c.Needed(Names(requested)), map["M" := 2, "D" := 1]);
    ghost var states, moved;
    run, states, moved := TasksToRun(c, requested);
    ComesRound(states, moved);
    NotBoth(run, Task("N", 1), Task("N", 2));
  }

  lemma NotBoth(run: seq<Task>, t: Task, u: Task)
    requires DistinctNames(run) && t in run && t.name == u.name && t != u
    ensures u !in run
  {
  }

  /** The tool on `flash erase-flash`, where flash is only to come after erase-flash. */
  method EraseBeforeFlash() returns (run: seq<Task>)
    ensures run == [Task("erase-flash", 1), Task("flash", 0)]
  {
    hide Names, DistinctNames, Precedes, InOrder, IsTrace, Commands.Closed, Commands.Needed, Commands.Acyclic, Commands.DepsAreCanonical;
    var c := Commands(map[], map[], map["flash" := ["all", "erase-flash"]]);
    var requested := [Task("flash", 0), Task("erase-flash", 1)];
    FlashAfterErase(c, c.Needed(Names(requested)));
    ghost var states, moved;
    run, states, moved := TasksToRun(c, requested);
    FlashIsLast(c, requested, run);
  }

  lemma FlashIsLast(c: Commands, requested: seq<Task>, run: seq<Task>)
    requires c == Commands(map[], map[], map["flash" := ["all", "erase-flash"]])
    requires requested == [Task("flash", 0), Task("erase-flash", 1)] && Names(requested) <= Names(run)
    requires DistinctNames(run)
    requires forall n, d :: n in c.order && d in c.order[n] && n in Names(run) && d in Names(requested) ==> Precedes(run, d, n)
    requires forall s :: Names(requested) <= s && c.Closed(s) ==> Names(run) <= s
    requires forall t :: t in run ==> t in requested || t.name !in Names(requested)
    ensures run == [Task("erase-flash", 1), Task("flash", 0)]
  {
    hide Names, DistinctNames, Precedes, c.Closed;
    OnlyRequested(c, requested, run);
    assert requested[0] in requested && requested[1] in requested;
    assert c.order["flash"][1] == "erase-flash";
    assert Precedes(run, "erase-flash", "flash");
    TwoTasks(run, requested[1], requested[0]);
  }

  lemma FlashAfterErase(c: Commands, names: set<Name>)
    requires c == Commands(map[], map[], map["flash" := ["all", "erase-flash"]])
    ensures c.DepsAreCanonical() && c.Acyclic(names)
  {
    RankedIsAcyclic(c, names, map["flash" := 1]);
  }

  lemma OnlyRequested(c: Commands, requested: seq<Task>, run: seq<Task>)
    requires c.deps == map[] && forall s :: Names(requested) <= s && c.Closed(s) ==> Names(run) <= s
    requires forall t :: t in run ==> t in requested || t.name !in Names(requested)
    ensures forall t :: t in run ==> t in requested
  {
    assert c.Closed(Names(requested));
  }

  lemma OneOfTwo(run: seq<Task>, t: Task, u: Task, i: nat, j: nat, k: nat)
    requires DistinctNames(run) && forall x :: x in run ==> x == t || x == u
    requires i < |run| && j < |run| && k < |run| && run[i].name == t.name && run[j].name == u.name
    ensures (k == i && run[k] == t) || (k == j && run[k] == u)
  {
    assert run[k] in run;
  }

  lemma TwoTasks(run: seq<Task>, t: Task, u: Task)
    requires DistinctNames(run) && Precedes(run, t.name, u.name) && forall x :: x in run ==> x == t || x == u
    ensures run == [t, u]
  {
    var i, j :| 0 <= i < j < |run| && run[i].name == t.name && run[j].name == u.name;
    OneOfTwo(run, t, u, i, j, 0);
    if |run| > 1 {
      OneOfTwo(run, t, u, i, j, 1);
    }
    if |run| > 2 {
      OneOfTwo(run, t, u, i, j, 2);
    }
  }

  /** The first invocation of each command. */
  ghost function FirstOfEach(ts: seq<Task>): (r: seq<Task>) {
    if ts == [] then []
    else
      var init, last := ts[..|ts| - 1], ts[|ts| - 1];
      FirstOfEach(init) + if last.name in Names(init) then [] else [last]
  }

  lemma {:induction false} FirstOfEachNames(ts: seq<Task>)
    ensures Names(FirstOfEach(ts)) == Names(ts)
  {
    hide Names;
    if ts != [] {
      var init, last := ts[..|ts| - 1], ts[|ts| - 1];
      assert ts == init + [last];
      FirstOfEachNames(init);
      NamesAppend(init, [last]);
      NamesAppend(FirstOfEach(init), [last]);
      SingleName(last);
      assert FirstOfEach(init) + [] == FirstOfEach(init);
    }
  }

  /** Commands that are to come after nothing are run in the order of the request. */
  lemma RunsAsRequested(c: Commands, requested: seq<Task>, states: seq<State>, moved: seq<seq<Task>>, run: seq<Task>)
    requires IsTrace(c, requested, states, moved) && states[|moved|] == State([], run)
    requires forall t, d :: t in requested ==> !c.Before(t.name, d)
    ensures run == FirstOfEach(requested)
  {
    hide IsTrace, FirstOfEach;
    forall t | t in requested ensures c.Deps(t.name) == c.Order(t.name) == [] {
      NothingBefore(c, t.name);
    }
    PlainOrder(c, requested, states, moved);
    assert requested[..|requested|] == requested;
  }

  lemma NothingBefore(c: Commands, n: Name)
    requires forall d :: !c.Before(n, d)
    ensures c.Deps(n) == c.Order(n) == []
  {
    if c.Deps(n) != [] {
      assert c.Before(n, c.Deps(n)[0]);
    }
    if c.Order(n) != [] {
      assert c.Before(n, c.Order(n)[0]);
    }
  }

  lemma {:induction false} PlainOrder(c: Commands, requested: seq<Task>, states: seq<State>, moved: seq<seq<Task>>)
    requires IsTrace(c, requested, states, moved)
    requires forall t :: t in requested ==> c.Deps(t.name) == c.Order(t.name) == []
    ensures |moved| <= |requested| && states[|moved|] == State(requested[|moved|..], FirstOfEach(requested[..|moved|]))
    decreases |moved|
  {
    hide IsRound, c.Deps, c.Order;
    var k := |moved|;
    if k == 0 {
      assert requested[0..] == requested && requested[..0] == [];
    } else {
      TraceInit(c, requested, states, moved);
      PlainOrder(c, requested, states[..k], moved[..k - 1]);
      PlainRound(c, requested, k - 1, states[k - 1], moved[k - 1], states[k]);
    }
  }

  lemma PlainRound(c: Commands, requested: seq<Task>, k: nat, s: State, moves: seq<Task>, s': State)
    requires k <= |requested| && s == State(requested[k..], FirstOfEach(requested[..k])) && IsRound(c, s, moves, s')
    requires forall t :: t in requested ==> c.Deps(t.name) == c.Order(t.name) == []
    ensures k < |requested| && s' == State(requested[k + 1..], FirstOfEach(requested[..k + 1]))
  {
    hide Moves, Brought, Names, FirstOfEach;
    var t := requested[k];
    assert s.ts[0] == t && t in requested && s.ts[1..] == requested[k + 1..];
    WantedNothing(c, s.ts, s.run);
    NoneWanted(c, s.ts, Wanted(c, s.ts, s.run), moves);
    FirstOfEachNames(requested[..k]);
    FirstOfEachNext(requested, k);
  }

  lemma WantedNothing(c: Commands, ts: seq<Task>, run: seq<Task>)
    requires ts != [] && c.Deps(ts[0].name) == c.Order(ts[0].name) == []
    ensures Wanted(c, ts, run) == []
  {
  }

  lemma FirstOfEachNext(ts: seq<Task>, k: nat)
    requires k < |ts|
    ensures FirstOfEach(ts[..k + 1]) ==
            if ts[k].name in Names(ts[..k]) then FirstOfEach(ts[..k]) else FirstOfEach(ts[..k]) + [ts[k]]
  {
    assert ts[..k + 1][..k] == ts[..k];
  }
}
