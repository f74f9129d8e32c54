/**
 Two closure computations: closure of scripts/render_atx_requirements.py over a lock file's
 packages and extras, and with_importers of scripts/check_version_pins.py over an import
 graph. Package names are canonical already.
 */
module Closures {
  import opened Common

  /** A package by name, with the extras asked of it. */
  datatype Request = Request(name: string, extras: seq<string>)

  datatype Package = Package(dependencies: seq<Request>, optional: map<string, seq<Request>>)

  type Lock = map<string, Package>

  // ---------------------------------------------------------------- what a request leads to

  /** The requests behind the extras asked for, in order. */
  function ExtraRequests(package: Package, extras: seq<string>): seq<Request> {
    if extras == [] then []
    else
      var last := extras[|extras| - 1];
      ExtraRequests(package, extras[..|extras| - 1]) + (if last in package.optional then package.optional[last] else [])
  }

  /** All the extras asked for, and no other. */
  lemma {:induction false} ExtrasExact(package: Package, extras: seq<string>, d: Request)
    ensures d in ExtraRequests(package, extras)
            <==> exists x | x in extras && x in package.optional :: d in package.optional[x]
  {
    if extras != [] {
      var front, last := extras[..|extras| - 1], extras[|extras| - 1];
      ExtrasExact(package, front, d);
      assert forall x :: x in extras <==> x in front || x == last;
    }
  }

  function Extras(lock: Lock, r: Request): seq<Request> {
    if r.name in lock then ExtraRequests(lock[r.name], r.extras) else []
  }

  function Dependencies(lock: Lock, name: string): seq<Request> {
    if name in lock then lock[name].dependencies else []
  }

  /** A set of requests that holds whatever its packages depend on, and the packages of the
      extras it asks for. */
  ghost predicate Closed(lock: Lock, rs: set<Request>) {
    forall r, d | r in rs && (d in Dependencies(lock, r.name) || d in Extras(lock, r)) :: d in rs
  }

  function Names(rs: set<Request>): set<string> {
    set r | r in rs :: r.name
  }

  /** The least closed set holding the roots, by name. */
  ghost predicate LeastClosure(lock: Lock, roots: seq<Request>, names: set<string>) {
    && (exists rs | Closed(lock, rs) :: Elements(roots) <= rs && Names(rs) == names)
    && (forall rs | Closed(lock, rs) && Elements(roots) <= rs :: names <= Names(rs))
  }

  // ---------------------------------------------------------------- the worklist

  datatype Work = Work(seen: set<string>, todo: seq<Request>)

  /** One turn of the loop; None: the name is not in the lock, and the program exits. */
  function Turn(lock: Lock, work: Work): Option<Work>
    requires work.todo != []
  {
    var r := work.todo[|work.todo| - 1];
    if r.name !in lock then None
    else
      var deps := (if r.name in work.seen then [] else lock[r.name].dependencies)
          + ExtraRequests(lock[r.name], r.extras);
      Some(Work(work.seen + {r.name}, work.todo[..|work.todo| - 1] + deps))
  }

  /** Within a closed set, extras lead to requests of lower rank only. */
  ghost predicate Ranked(lock: Lock, all: set<Request>, rank: Request -> nat) {
    Closed(lock, all) && forall r, d | r in all && d in Extras(lock, r) :: rank(d) < rank(r)
  }

  /** How often the extras behind a request, and the request itself, can be popped. */
  ghost function Weight(lock: Lock, all: set<Request>, rank: Request -> nat, r: Request): (n: nat)
    requires Ranked(lock, all, rank) && r in all
    ensures n >= 1
    decreases rank(r), 0
  {
    1 + Weights(lock, all, rank, r, Extras(lock, r))
  }

  ghost function Weights(lock: Lock, all: set<Request>, rank: Request -> nat, above: Request, rs: seq<Request>): nat
    requires Ranked(lock, all, rank)
    requires forall d | d in rs :: d in all && rank(d) < rank(above)
    decreases rank(above), 0, |rs|
  {
    if rs == [] then 0
    else Weights(lock, all, rank, above, rs[..|rs| - 1]) + Weight(lock, all, rank, rs[|rs| - 1])
  }

  ghost function TodoWeight(lock: Lock, all: set<Request>, rank: Request -> nat, rs: seq<Request>): nat
    requires Ranked(lock, all, rank) && forall d | d in rs :: d in all
  {
    if rs == [] then 0
    else TodoWeight(lock, all, rank, rs[..|rs| - 1]) + Weight(lock, all, rank, rs[|rs| - 1])
  }

  lemma {:induction false} WeightsOfExtras(lock: Lock, all: set<Request>, rank: Request -> nat, above: Request,
                                           rs: seq<Request>)
    requires Ranked(lock, all, rank)
    requires forall d | d in rs :: d in all && rank(d) < rank(above)
    ensures Weights(lock, all, rank, above, rs) == TodoWeight(lock, all, rank, rs)
  {
    if rs != [] {
      WeightsOfExtras(lock, all, rank, above, rs[..|rs| - 1]);
    }
  }

  lemma {:induction false} WeightOfConcat(lock: Lock, all: set<Request>, rank: Request -> nat, a: seq<Request>,
                                          b: seq<Request>)
    requires Ranked(lock, all, rank) && (forall d | d in a :: d in all) && (forall d | d in b :: d in all)
    ensures forall d | d in a + b :: d in all
    ensures TodoWeight(lock, all, rank, a + b) == TodoWeight(lock, all, rank, a) + TodoWeight(lock, all, rank, b)
  {
    if b == [] {
      assert a + b == a;
    } else {
      assert (a + b)[..|a + b| - 1] == a + b[..|b| - 1];
      WeightOfConcat(lock, all, rank, a, b[..|b| - 1]);
    }
  }

  /** A turn on a package met before: its extras weigh less than the request did. */
  lemma RevisitWeighsLess(lock: Lock, all: set<Request>, rank: Request -> nat, todo: seq<Request>)
    requires Ranked(lock, all, rank) && todo != [] && forall d | d in todo :: d in all
    ensures var rest := todo[..|todo| - 1] + Extras(lock, todo[|todo| - 1]);
            && (forall d | d in rest :: d in all)
            && TodoWeight(lock, all, rank, rest) < TodoWeight(lock, all, rank, todo)
  {
    var r := todo[|todo| - 1];
    assert r in all;
    assert forall d | d in Extras(lock, r) :: d in all;
    WeightOfConcat(lock, all, rank, todo[..|todo| - 1], Extras(lock, r));
    WeightsOfExtras(lock, all, rank, r, Extras(lock, r));
  }

  /** What is still owed to a popped request is on the worklist or was popped too. */
  ghost predicate Owed(lock: Lock, work: Work, popped: set<Request>) {
    && Names(popped) == work.seen
    && forall r, d | r in popped && (d in Dependencies(lock, r.name) || d in Extras(lock, r)) ::
         d in popped || d in work.todo
  }

  /** Nothing is met but what every closed set with the roots holds. */
  ghost predicate Needed(lock: Lock, roots: seq<Request>, work: Work, popped: set<Request>) {
    forall rs | Closed(lock, rs) && Elements(roots) <= rs :: popped <= rs && Elements(work.todo) <= rs
  }

  ghost predicate Inv(lock: Lock, roots: seq<Request>, work: Work, popped: set<Request>) {
    && work.seen <= lock.Keys && Elements(roots) <= popped + Elements(work.todo)
    && Owed(lock, work, popped) && Needed(lock, roots, work, popped)
  }

  /** Each turn meets a new package, or leaves less weight on the worklist. */
  ghost predicate Shrinks(lock: Lock, all: set<Request>, rank: Request -> nat, before: Work, after: Work)
    requires Ranked(lock, all, rank) && Elements(before.todo) <= all && Elements(after.todo) <= all
  {
    assert forall d | d in before.todo :: d in Elements(before.todo);
    assert forall d | d in after.todo :: d in Elements(after.todo);
    && lock.Keys - after.seen <= lock.Keys - before.seen
    && (lock.Keys - after.seen < lock.Keys - before.seen
        || TodoWeight(lock, all, rank, after.todo) < TodoWeight(lock, all, rank, before.todo))
  }

  /** The loop ends within n turns: with an empty worklist, or at a name the lock lacks. */
  ghost predicate Ends(lock: Lock, work: Work, n: nat)
    decreases n
  {
    work.todo == [] || Turn(lock, work).None? || (n > 0 && Ends(lock, Turn(lock, work).value, n - 1))
  }

  ghost predicate Terminates(lock: Lock, roots: seq<Request>) {
    exists n: nat :: Ends(lock, Work({}, roots), n)
  }

  method OptionalDependencies(package: Package, extras: seq<string>) returns (deps: seq<Request>)
    ensures deps == ExtraRequests(package, extras)
  {
    deps := [];
    for i := 0 to |extras|
      invariant deps == ExtraRequests(package, extras[..i])
    {
      assert extras[..i + 1][..i] == extras[..i];
      deps := deps + if extras[i] in package.optional then package.optional[extras[i]] else [];
    }
    assert extras[..|extras|] == extras;
  }

  /** closure, wherever its loop ends; TerminationExact says where it does. None is the exit
      for a name the lock lacks; then every closed set has it. */
  method Closure(lock: Lock, roots: seq<Request>) returns (r: Option<set<string>>)
    requires Terminates(lock, roots)
    ensures r.Some? ==> LeastClosure(lock, roots, r.value) && r.value <= lock.Keys
    ensures r.None? ==> Unmet(lock, roots)
  {
    var seen: set<string> := {};
    var todo := roots;
    ghost var popped: set<Request> := {};
    ghost var n: nat :| Ends(lock, Work({}, roots), n);
    while todo != []
      invariant Inv(lock, roots, Work(seen, todo), popped) && Ends(lock, Work(seen, todo), n)
      decreases n
    {
      ghost var before := Work(seen, todo);
      var next := todo[|todo| - 1];
      todo := todo[..|todo| - 1];
      if next.name !in lock {
        LacksName(lock, roots, before, popped);
        return None;
      }
      var package := lock[next.name];
      var firstVisit := next.name !in seen;
      seen := seen + {next.name};
      var deps := if firstVisit then package.dependencies else [];
      var more := OptionalDependencies(package, next.extras);
      deps := deps + more;
      todo := todo + deps;
      assert Turn(lock, before) == Some(Work(seen, todo));
      TurnKeeps(lock, roots, before, popped);
      popped, n := popped + {next}, n - 1;
    }
    Finished(lock, roots, seen, popped);
    r := Some(seen);
  }

  lemma Finished(lock: Lock, roots: seq<Request>, seen: set<string>, popped: set<Request>)
    requires Inv(lock, roots, Work(seen, []), popped)
    ensures LeastClosure(lock, roots, seen)
  {
    assert Closed(lock, popped);
    assert Elements(roots) <= popped && Names(popped) == seen;
  }

  lemma TurnShrinks(lock: Lock, all: set<Request>, rank: Request -> nat, work: Work)
    requires Ranked(lock, all, rank) && Elements(work.todo) <= all && work.todo != [] && Turn(lock, work).Some?
    ensures Elements(Turn(lock, work).value.todo) <= all
    ensures Shrinks(lock, all, rank, work, Turn(lock, work).value)
  {
    var r := work.todo[|work.todo| - 1];
    var next := Turn(lock, work).value;
    assert r in Elements(work.todo);
    assert forall d | d in work.todo :: d in Elements(work.todo);
    forall d | d in next.todo
      ensures d in all
    {
      assert d in work.todo || d in Dependencies(lock, r.name) || d in Extras(lock, r);
    }
    if r.name in work.seen {
      assert next.seen == work.seen;
      assert [] + Extras(lock, r) == Extras(lock, r);
      RevisitWeighsLess(lock, all, rank, work.todo);
    } else {
      assert r.name in lock.Keys - work.seen && r.name !in lock.Keys - next.seen;
    }
  }

  /** Some name outside the lock is in every closed set with the roots. */
  ghost predicate Unmet(lock: Lock, roots: seq<Request>) {
    exists name | name !in lock :: forall rs | Closed(lock, rs) && Elements(roots) <= rs :: name in Names(rs)
  }

  lemma LacksName(lock: Lock, roots: seq<Request>, work: Work, popped: set<Request>)
    requires work.todo != [] && work.todo[|work.todo| - 1].name !in lock
    requires Needed(lock, roots, work, popped)
    ensures Unmet(lock, roots)
  {
    var r := work.todo[|work.todo| - 1];
    forall rs | Closed(lock, rs) && Elements(roots) <= rs
      ensures r.name in Names(rs)
    {
      assert r in Elements(work.todo);
    }
  }

  lemma TurnKeeps(lock: Lock, roots: seq<Request>, work: Work, popped: set<Request>)
    requires work.todo != [] && Turn(lock, work).Some?
    requires Inv(lock, roots, work, popped)
    ensures Inv(lock, roots, Turn(lock, work).value, popped + {work.todo[|work.todo| - 1]})
  {
    TurnNeeds(lock, roots, work, popped);
    TurnOwes(lock, work, popped);
    TurnTodo(lock, work);
    hide Turn, Owed, Needed;
    assert forall x | x in Elements(roots) :: x in popped || x in work.todo;
  }

  /** A turn drops the popped request from the worklist, and adds what it leads to. */
  lemma TurnTodo(lock: Lock, work: Work)
    requires work.todo != [] && Turn(lock, work).Some?
    ensures var r, next := work.todo[|work.todo| - 1], Turn(lock, work).value;
            && r.name in lock && next.seen == work.seen + {r.name}
            && (forall x | x in work.todo :: x in next.todo || x == r)
            && (forall d | d in Extras(lock, r) :: d in next.todo)
            && (r.name !in work.seen ==> forall d | d in Dependencies(lock, r.name) :: d in next.todo)
  {
  }

  lemma TurnOwes(lock: Lock, work: Work, popped: set<Request>)
    requires work.todo != [] && Turn(lock, work).Some? && Owed(lock, work, popped)
    ensures Owed(lock, Turn(lock, work).value, popped + {work.todo[|work.todo| - 1]})
  {
    var r := work.todo[|work.todo| - 1];
    var next := Turn(lock, work).value;
    TurnTodo(lock, work);
    hide Turn, Extras;
    assert Names(popped + {r}) == Names(popped) + {r.name};
    forall d | d in Dependencies(lock, r.name)
      ensures d in popped + {r} || d in next.todo
    {
      if r.name in work.seen {
        var q :| q in popped && q.name == r.name;
        assert d in popped || d in work.todo;
      }
    }
  }

  /** What a turn adds, every closed set with the roots holds. */
  lemma TurnNeeds(lock: Lock, roots: seq<Request>, work: Work, popped: set<Request>)
    requires work.todo != [] && Turn(lock, work).Some? && Needed(lock, roots, work, popped)
    ensures Needed(lock, roots, Turn(lock, work).value, popped + {work.todo[|work.todo| - 1]})
    ensures forall d | d in Extras(lock, work.todo[|work.todo| - 1]) :: d in Turn(lock, work).value.todo
  {
    var r := work.todo[|work.todo| - 1];
    var next := Turn(lock, work).value;
    var more := popped + {r};
    var deps := (if r.name in work.seen then [] else lock[r.name].dependencies) + ExtraRequests(lock[r.name], r.extras);
    assert forall x :: x in next.todo <==> x in work.todo[..|work.todo| - 1] || x in deps;
    assert r in Elements(work.todo);
    forall rs | Closed(lock, rs) && Elements(roots) <= rs
      ensures more <= rs && Elements(next.todo) <= rs
    {
      assert popped <= rs && Elements(work.todo) <= rs && r in rs;
      forall x | x in next.todo
        ensures x in rs
      {
        if x in deps {
          assert x in Dependencies(lock, r.name) || x in Extras(lock, r);
        } else {
          assert x in Elements(work.todo);
        }
      }
    }
  }

  // ---------------------------------------------------------------- termination, exactly

  /** Requests whose extras lead back among them. */
  ghost predicate Trap(lock: Lock, rs: set<Request>) {
    rs != {} && forall r {:trigger Extras(lock, r)} | r in rs :: exists d | d in rs :: d in Extras(lock, r)
  }

  /** A run of the loop, turn by turn. */
  ghost predicate Turns(lock: Lock, works: seq<Work>) {
    forall i | 0 <= i < |works| - 1 :: works[i].todo != [] && Turn(lock, works[i]) == Some(works[i + 1])
  }

  /** Once the worklist holds a request of a trap, it always does: the loop never ends. */
  lemma {:induction false} TrapLoopsForever(lock: Lock, trap: set<Request>, works: seq<Work>, i: nat)
    requires Trap(lock, trap) && Turns(lock, works) && i < |works|
    requires exists r | r in trap :: r in works[0].todo
    ensures exists r | r in trap :: r in works[i].todo
  {
    if i > 0 {
      TrapLoopsForever(lock, trap, works, i - 1);
      assert works[i - 1].todo != [] && Turn(lock, works[i - 1]) == Some(works[i - 1 + 1]);
      TrapStays(lock, trap, works[i - 1]);
    }
  }

  lemma TrapStays(lock: Lock, trap: set<Request>, work: Work)
    requires Trap(lock, trap) && work.todo != [] && Turn(lock, work).Some?
    requires exists r | r in trap :: r in work.todo
    ensures exists r | r in trap :: r in Turn(lock, work).value.todo
  {
    var r :| r in trap && r in work.todo;
    var last, next := work.todo[|work.todo| - 1], Turn(lock, work).value;
    if r == last {
      var d :| d in trap && d in Extras(lock, r);
      assert d in next.todo;
    } else {
      assert r in work.todo[..|work.todo| - 1];
      assert r in next.todo;
    }
  }

  ghost predicate RankedWithin(lock: Lock, rank: map<Request, nat>) {
    forall r, d | r in rank && d in rank && d in Extras(lock, r) :: rank[d] < rank[r]
  }

  lemma {:induction false} NoTrapHasRank(lock: Lock, rs: set<Request>) returns (rank: map<Request, nat>)
    requires forall trap | trap <= rs :: !Trap(lock, trap)
    ensures rank.Keys == rs && RankedWithin(lock, rank)
    decreases rs
  {
    if rs == {} {
      rank := map[];
    } else {
      assert !Trap(lock, rs);
      var sink :| sink in rs && forall d | d in rs :: d !in Extras(lock, sink);
      var below := NoTrapHasRank(lock, rs - {sink});
      rank := map r | r in rs :: if r == sink then 0 else below[r] + 1;
    }
  }

  /** The requests some extra of the lock leads to. */
  function Mentioned(lock: Lock): set<Request> {
    set name, extra, d | name in lock && extra in lock[name].optional && d in lock[name].optional[extra] :: d
  }

  lemma {:induction false} ExtrasMentioned(lock: Lock, package: Package, name: string, extras: seq<string>, d: Request)
    requires name in lock && lock[name] == package && d in ExtraRequests(package, extras)
    ensures d in Mentioned(lock)
  {
    var last := extras[|extras| - 1];
    if d in ExtraRequests(package, extras[..|extras| - 1]) {
      ExtrasMentioned(lock, package, name, extras[..|extras| - 1], d);
    } else {
      assert last in lock[name].optional && d in lock[name].optional[last];
    }
  }

  /** Ranked requests are worked off. */
  lemma {:induction false} RankedEnds(lock: Lock, all: set<Request>, rank: Request -> nat, work: Work) returns (n: nat)
    requires Ranked(lock, all, rank) && Elements(work.todo) <= all && forall d | d in work.todo :: d in all
    ensures Ends(lock, work, n)
    decreases lock.Keys - work.seen, TodoWeight(lock, all, rank, work.todo)
  {
    n := 0;
    if work.todo != [] && Turn(lock, work).Some? {
      var next := Turn(lock, work).value;
      TurnShrinks(lock, all, rank, work);
      assert forall d | d in next.todo :: d in Elements(next.todo);
      var m := RankedEnds(lock, all, rank, next);
      n := m + 1;
    }
  }

  /** Every request the lock or the roots speak of. */
  function Everything(lock: Lock, roots: seq<Request>): set<Request> {
    Elements(roots) + (set name, d | name in lock && d in lock[name].dependencies :: d) + Mentioned(lock)
  }

  lemma EverythingIsClosed(lock: Lock, roots: seq<Request>)
    ensures Closed(lock, Everything(lock, roots)) && Elements(roots) <= Everything(lock, roots)
  {
    forall r, d | r in Everything(lock, roots) && (d in Dependencies(lock, r.name) || d in Extras(lock, r))
      ensures d in Everything(lock, roots)
    {
      if d in Extras(lock, r) {
        ExtrasMentioned(lock, lock[r.name], r.name, r.extras, d);
      }
    }
  }

  /** The requests lie within every closed set that holds the roots. */
  ghost predicate Within(lock: Lock, roots: seq<Request>, rs: set<Request>) {
    forall all | Closed(lock, all) && Elements(roots) <= all :: rs <= all
  }

  /** There is a least closed set that holds the roots. */
  lemma LeastClosed(lock: Lock, roots: seq<Request>) returns (least: set<Request>)
    ensures Closed(lock, least) && Elements(roots) <= least && Within(lock, roots, least)
  {
    EverythingIsClosed(lock, roots);
    least := set r | r in Everything(lock, roots) && Within(lock, roots, {r});
    forall r, d | r in least && (d in Dependencies(lock, r.name) || d in Extras(lock, r))
      ensures d in least
    {
      forall all | Closed(lock, all) && Elements(roots) <= all
        ensures d in all
      {
        assert {r} <= all && r in {r};
      }
    }
    forall r | r in Elements(roots)
      ensures r in least
    {
    }
    forall all | Closed(lock, all) && Elements(roots) <= all
      ensures least <= all
    {
      forall r | r in least
        ensures r in all
      {
        assert {r} <= all && r in {r};
      }
    }
  }

  /** Some requests whose extras lead back among them are reached from the roots. */
  ghost predicate Trapped(lock: Lock, roots: seq<Request>) {
    exists trap :: Trap(lock, trap) && Within(lock, roots, trap)
  }

  lemma UntrappedEnds(lock: Lock, roots: seq<Request>)
    requires !Trapped(lock, roots)
    ensures Terminates(lock, roots)
  {
    var least := LeastClosed(lock, roots);
    forall trap | trap <= least
      ensures !Trap(lock, trap)
    {
      assert Within(lock, roots, trap);
    }
    var within := NoTrapHasRank(lock, least);
    var rank := (r: Request) => if r in within then within[r] else 0;
    forall r, d | r in least && d in Extras(lock, r)
      ensures rank(d) < rank(r)
    {
      assert d in least;
    }
    assert forall d | d in roots :: d in Elements(roots);
    var n := RankedEnds(lock, least, rank, Work({}, roots));
  }

  /** No trap has been popped, or one of its requests is on the worklist again. */
  ghost predicate TrapAhead(trap: set<Request>, work: Work, popped: set<Request>) {
    trap !! popped || exists r | r in trap :: r in work.todo
  }

  lemma TrapStaysAhead(lock: Lock, trap: set<Request>, work: Work, popped: set<Request>)
    requires Trap(lock, trap) && work.todo != [] && Turn(lock, work).Some? && TrapAhead(trap, work, popped)
    ensures TrapAhead(trap, Turn(lock, work).value, popped + {work.todo[|work.todo| - 1]})
  {
    if r :| r in trap && r in work.todo {
      TrapStays(lock, trap, work);
    }
  }

  lemma TrapKeepsWork(lock: Lock, roots: seq<Request>, trap: set<Request>, work: Work, popped: set<Request>)
    requires Inv(lock, roots, work, popped)
    requires Trap(lock, trap) && Within(lock, roots, trap) && TrapAhead(trap, work, popped)
    ensures work.todo != []
  {
    assert work.todo == [] ==> Closed(lock, popped) && Elements(roots) <= popped;
    assert work.todo == [] ==> trap <= popped;
  }

  lemma NamesKnown(lock: Lock, roots: seq<Request>, work: Work, popped: set<Request>)
    requires !Unmet(lock, roots) && Inv(lock, roots, work, popped) && work.todo != []
    ensures Turn(lock, work).Some?
  {
    if work.todo[|work.todo| - 1].name !in lock {
      LacksName(lock, roots, work, popped);
    }
  }

  lemma EndsStep(lock: Lock, work: Work, n: nat)
    requires work.todo != [] && Turn(lock, work).Some?
    ensures Ends(lock, work, n) <==> n > 0 && Ends(lock, Turn(lock, work).value, n - 1)
  {
  }

  /** With every name in the lock, a trap among the needed requests keeps the loop from ending. */
  lemma {:induction false} TrapNeverEnds(lock: Lock, roots: seq<Request>, trap: set<Request>, work: Work,
                                         popped: set<Request>, n: nat)
    requires !Unmet(lock, roots) && Inv(lock, roots, work, popped)
    requires Trap(lock, trap) && Within(lock, roots, trap) && TrapAhead(trap, work, popped)
    ensures !Ends(lock, work, n)
    decreases n
  {
    hide Turn, Inv, Unmet, Trap, Within, TrapAhead, Ends;
    TrapKeepsWork(lock, roots, trap, work, popped);
    NamesKnown(lock, roots, work, popped);
    EndsStep(lock, work, n);
    if n > 0 {
      TurnKeeps(lock, roots, work, popped);
      TrapStaysAhead(lock, trap, work, popped);
      TrapNeverEnds(lock, roots, trap, Turn(lock, work).value, popped + {work.todo[|work.todo| - 1]}, n - 1);
    }
  }

  /** Where the loop ends: wherever no trap is reached from the roots; and when every name
      that is needed is in the lock, nowhere else. */
  lemma TerminationExact(lock: Lock, roots: seq<Request>)
    ensures !Trapped(lock, roots) ==> Terminates(lock, roots)
    ensures !Unmet(lock, roots) ==> (Terminates(lock, roots) <==> !Trapped(lock, roots))
  {
    if !Trapped(lock, roots) {
      UntrappedEnds(lock, roots);
    } else if !Unmet(lock, roots) {
      var trap :| Trap(lock, trap) && Within(lock, roots, trap);
      forall n: nat
        ensures !Ends(lock, Work({}, roots), n)
      {
        TrapNeverEnds(lock, roots, trap, Work({}, roots), {}, n);
      }
    }
  }

  /** A name the lock lacks can end the loop in spite of a trap: here it is popped first, and
      the program exits. */
  lemma UnknownNameEndsTrap(lock: Lock, root: Request, missing: Request)
    requires root == Request("a", ["x"]) && missing == Request("missing", [])
    requires lock == map["a" := Package([], map["x" := [root, missing]])]
    ensures Trapped(lock, [root]) && Unmet(lock, [root]) && Terminates(lock, [root])
  {
    var package := lock["a"];
    assert ExtraRequests(package, root.extras[..0]) == [];
    assert root.extras[|root.extras| - 1] == "x" && [] + package.optional["x"] == [root, missing];
    assert ExtraRequests(package, root.extras) == [root, missing];
    assert Extras(lock, root) == [root, missing];
    assert root in Elements([root]) && root in Extras(lock, root) && missing in Extras(lock, root);
    assert Trap(lock, {root}) && Within(lock, [root], {root});
    forall rs | Closed(lock, rs) && Elements([root]) <= rs
      ensures "missing" in Names(rs)
    {
      assert root in rs && missing in rs;
    }
    var start := Work({}, [root]);
    assert [root][..0] == [] && [] + ([] + [root, missing]) == [root, missing];
    var next := Turn(lock, start).value;
    assert next.todo == [root, missing];
    assert Turn(lock, next).None?;
    assert Ends(lock, next, 0);
    assert Ends(lock, start, 1);
  }

  // ---------------------------------------------------------------- importers

  type ImportGraph = map<string, set<string>>

  /** Whatever imports one of the modules is one of them. */
  ghost predicate ImportersIn(graph: ImportGraph, modules: set<string>) {
    forall m | m in graph && graph[m] * modules != {} :: m in modules
  }

  /** with_importers: the least superset that holds every importer of its modules. */
  method WithImporters(modules: set<string>, graph: ImportGraph) returns (result: set<string>)
    ensures modules <= result <= modules + graph.Keys
    ensures ImportersIn(graph, result)
    ensures forall all | modules <= all && ImportersIn(graph, all) :: result <= all
  {
    result := modules;
    var grew := true;
    while grew
      invariant modules <= result <= modules + graph.Keys
      invariant !grew ==> ImportersIn(graph, result)
      invariant forall all | modules <= all && ImportersIn(graph, all) :: result <= all
      decreases graph.Keys - result, grew
    {
      grew := false;
      ghost var start := result;
      var todo := graph.Keys;
      while todo != {}
        invariant todo <= graph.Keys
        invariant start <= result <= modules + graph.Keys
        invariant !grew ==> result == start
        invariant grew ==> graph.Keys - result < graph.Keys - start
        invariant !grew ==> forall m | m in graph.Keys - todo && graph[m] * result != {} :: m in result
        invariant forall all | modules <= all && ImportersIn(graph, all) :: result <= all
        decreases todo
      {
        var module_ :| module_ in todo;
        todo := todo - {module_};
        if module_ !in result && graph[module_] * result != {} {
          forall all | modules <= all && ImportersIn(graph, all)
            ensures module_ in all
          {
            assert result <= all;
            assert graph[module_] * result <= graph[module_] * all;
          }
          assert module_ in graph.Keys - result;
          result := result + {module_};
          assert module_ in graph.Keys - start && module_ !in graph.Keys - result;
          grew := true;
        }
      }
    }
  }
}
