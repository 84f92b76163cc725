/** The machine of Macho.cc: transitions, histories, boxes and events over a tree of states. */
module Macho {
  import opened Options
  import opened MachoStates

  datatype Initializer = Default | History

  /** What a user's action asks for: nothing, or one transition. */
  datatype Request = Stay | Go(target: StateInstance, init: Initializer)

  /** What a user's event handler does: at most one transition and at most one more event. */
  datatype Handler = Handler(request: Request, event: bool)

  /** A call of a user's entry, exit or init action, or of the handler of an event. */
  datatype Act =
    | Entered(s: StateInstance)
    | Left(s: StateInstance)
    | Initialised(s: StateInstance)
    | Dispatched(s: StateInstance)

  /**
   * The states entered and not yet left. A state may only be entered when its superstates are
   * exactly those, only the innermost may be left, and only the innermost may be initialised or handle an event.
   */
  function Active(log: seq<Act>): Option<seq<StateInstance>> {
    if log == [] then Some([])
    else
      match Active(log[..|log| - 1])
      case None => None
      case Some(p) =>
        match log[|log| - 1]
        case Entered(s) => if s.Rooted() && s.parent != null && s.parent.Path() == p then Some(p + [s]) else None
        case Left(s) => if p != [] && p[|p| - 1] == s then Some(p[..|p| - 1]) else None
        case Initialised(s) => if s.Rooted() && s.Path() == p then Some(p) else None
        case Dispatched(s) => if s.Rooted() && s.Path() == p then Some(p) else None
  }

  lemma ActiveMore(log: seq<Act>, act: Act)
    ensures (log + [act])[..|log + [act]| - 1] == log
  {
  }

  lemma ActiveLeft(log: seq<Act>, s: StateInstance)
    requires s.Rooted() && s.parent != null && Active(log) == Some(s.Path())
    ensures Active(log + [Left(s)]) == Some(s.parent.Path())
  {
    ActiveMore(log, Left(s));
    assert s.Path()[..|s.Path()| - 1] == s.parent.Path();
  }

  lemma ActiveEntered(log: seq<Act>, s: StateInstance)
    requires s.Rooted() && s.parent != null && Active(log) == Some(s.parent.Path())
    ensures Active(log + [Entered(s)]) == Some(s.Path())
  {
    ActiveMore(log, Entered(s));
  }

  lemma PathMore(s: StateInstance)
    requires s.Rooted() && s.parent != null
    ensures forall a :: a in s.Path() <==> a in s.parent.Path() || a == s
  {
  }

  /** The active states are always a whole path. */
  lemma {:induction false} ActiveIsPath(log: seq<Act>)
    requires Active(log).Some? && Active(log).value != []
    ensures var p := Active(log).value; p[|p| - 1].Rooted() && p[|p| - 1].Path() == p
    decreases log
  {
    var front := log[..|log| - 1];
    if Active(front).value != [] { ActiveIsPath(front); }
    match log[|log| - 1]
    case Entered(s) =>
    case Left(s) => if |Active(front).value| > 1 { PathAt(s, s.depth - 2); }
    case Initialised(s) =>
    case Dispatched(s) =>
  }

  function Times(log: seq<Act>, act: Act): nat {
    if log == [] then 0 else Times(log[..|log| - 1], act) + if log[|log| - 1] == act then 1 else 0
  }

  /**
   * A state is active exactly if its entry action was called once more than its
   * exit action; otherwise both equally often.
   */
  lemma {:induction false} ActiveBalance(log: seq<Act>, s: StateInstance)
    requires Active(log).Some?
    ensures Times(log, Entered(s)) == Times(log, Left(s)) + if s in Active(log).value then 1 else 0
    decreases log
  {
    if log != [] {
      var front := log[..|log| - 1];
      var p := Active(front).value;
      ActiveBalance(front, s);
      match log[|log| - 1]
      case Entered(x) => NotOwnSuper(x);
      case Left(x) =>
        ActiveIsPath(front);
        NotOwnSuper(x);
        assert p == x.parent.Path() + [x] && p[..|p| - 1] == x.parent.Path();
      case Initialised(x) =>
      case Dispatched(x) =>
    }
  }

  function LeftAll(p: seq<StateInstance>): seq<Act> {
    if p == [] then [] else [Left(p[|p| - 1])] + LeftAll(p[..|p| - 1])
  }

  function EnteredAll(p: seq<StateInstance>): seq<Act> {
    if p == [] then [] else EnteredAll(p[..|p| - 1]) + [Entered(p[|p| - 1])]
  }

  /**
   * The calls of one transition: exits innermost first, then entries outermost first, of all states
   * on the two paths below the deepest one that both states are in, the next one properly so.
   */
  function Crossing(previous: StateInstance, next: StateInstance): seq<Act>
    requires previous.Rooted() && next.Rooted() && SameTree(previous, next)
  {
    KeptIs(previous, next);
    SuperIsAbove(next, Kept(previous, next));
    LeftAll(previous.Path()[Kept(previous, next).depth..]) + EnteredAll(next.Path()[Kept(previous, next).depth..])
  }

  lemma {:induction false} LeftMembers(p: seq<StateInstance>, s: StateInstance)
    ensures Left(s) in LeftAll(p) <==> s in p
    ensures Entered(s) !in LeftAll(p)
  {
    if p != [] {
      LeftMembers(p[..|p| - 1], s);
      assert p == p[..|p| - 1] + [p[|p| - 1]];
    }
  }

  lemma {:induction false} EnteredMembers(p: seq<StateInstance>, s: StateInstance)
    ensures Entered(s) in EnteredAll(p) <==> s in p
    ensures Left(s) !in EnteredAll(p)
  {
    if p != [] {
      EnteredMembers(p[..|p| - 1], s);
      assert p == p[..|p| - 1] + [p[|p| - 1]];
    }
  }

  /** A transition leaves the states it starts in that are the target or no superstates of the target, and no others. */
  lemma LeftExactly(s: StateInstance, next: StateInstance, x: StateInstance)
    requires s.Rooted() && next.Rooted() && SameTree(s, next) && x.Rooted() && x.parent != null
    ensures Left(x) in Crossing(s, next) <==> s.IsChild(x) && (x == next || !next.IsChild(x))
  {
    hide StateInstance.Path, StateInstance.IsChild, LeftAll, EnteredAll, Kept;
    var k := Kept(s, next);
    KeptIs(s, next);
    SuperIsAbove(next, k);
    LeftMembers(s.Path()[k.depth..], x);
    EnteredMembers(next.Path()[k.depth..], x);
    PathBelow(s, k, x);
    if s.IsChild(x) { SharedAbove(s, next, k, x); }
  }

  /** And it enters the target and the superstates of the target that it does not start in, and no others. */
  lemma EnteredExactly(s: StateInstance, next: StateInstance, x: StateInstance)
    requires s.Rooted() && next.Rooted() && SameTree(s, next) && x.Rooted() && x.parent != null
    ensures Entered(x) in Crossing(s, next) <==> next.IsChild(x) && (x == next || !s.IsChild(x))
  {
    hide StateInstance.Path, LeftAll, EnteredAll;
    var k := Kept(s, next);
    KeptIs(s, next);
    SuperIsAbove(next, k);
    LeftMembers(s.Path()[k.depth..], x);
    EnteredMembers(next.Path()[k.depth..], x);
    PathBelow(next, k, x);
    if next.IsChild(x) {
      SuperIsAbove(next, x);
      if x == next {
        TargetBelow(s, next);
      } else if s.IsChild(x) {
        assert x.depth <= k.depth;
      } else if x.depth <= k.depth {
        AboveAbove(next, x.depth, k.depth);
        SuperIsAbove(s, k);
        AboveAbove(s, x.depth, k.depth);
        AboveIsSuper(s, x.depth);
      }
    }
  }

  /** The target lies below the state that is kept. */
  lemma TargetBelow(s: StateInstance, next: StateInstance)
    requires s.Rooted() && next.Rooted() && SameTree(s, next) && next.parent != null
    ensures next.depth > Kept(s, next).depth
  {
    KeptIs(s, next);
    SuperIsAbove(next, Kept(s, next));
  }

  /** The superstates of both states that are not the target are those down to the one kept. */
  lemma SharedAbove(s: StateInstance, next: StateInstance, k: StateInstance, x: StateInstance)
    requires s.Rooted() && next.Rooted() && SameTree(s, next) && k == Kept(s, next)
    requires s.IsChild(x) && x.Rooted() && x.parent != null
    ensures x.depth > k.depth <==> x == next || !next.IsChild(x)
  {
    hide StateInstance.Path, Kept;
    KeptIs(s, next);
    SuperIsAbove(s, x);
    SuperIsAbove(s, k);
    SuperIsAbove(next, k);
    if x.depth <= k.depth {
      AboveAbove(s, x.depth, k.depth);
      AboveAbove(next, x.depth, k.depth);
      AboveIsSuper(next, x.depth);
    }
  }

  /**
   * The target is always entered. So a transition to the state itself or to a superstate leaves and enters it again.
   */
  lemma TargetEntered(s: StateInstance, next: StateInstance)
    requires s.Rooted() && next.Rooted() && SameTree(s, next) && next.parent != null
    ensures Entered(next) in Crossing(s, next)
    ensures s.IsChild(next) ==> Left(next) in Crossing(s, next)
  {
    hide StateInstance.Path, LeftAll, EnteredAll;
    var k := Kept(s, next);
    KeptIs(s, next);
    SuperIsAbove(next, k);
    EnteredMembers(next.Path()[k.depth..], next);
    PathBelow(next, k, next);
    LeftExactly(s, next, next);
  }

  /** The states on a path below one of them. */
  lemma PathBelow(s: StateInstance, k: StateInstance, x: StateInstance)
    requires s.Rooted() && s.IsChild(k) && k.Rooted() && k.depth <= s.depth && x.Rooted()
    ensures x in s.Path()[k.depth..] <==> s.IsChild(x) && x.depth > k.depth
  {
    if x in s.Path()[k.depth..] { OnPath(s, k.depth, x); }
    if s.IsChild(x) && x.depth > k.depth { PathHas(s, k.depth, x); }
  }

  lemma OnPath(s: StateInstance, d: nat, x: StateInstance)
    requires s.Rooted() && d <= s.depth && x in s.Path()[d..]
    ensures s.IsChild(x) && x.depth > d
  {
    hide StateInstance.Path, StateInstance.IsChild, Above;
    var p := s.Path()[d..];
    var i :| 0 <= i < |p| && p[i] == x;
    PathAt(s, d + i);
    AboveIsSuper(s, d + i + 1);
  }

  lemma PathHas(s: StateInstance, d: nat, x: StateInstance)
    requires s.Rooted() && s.IsChild(x) && x.Rooted() && d < x.depth && d <= s.depth
    ensures x in s.Path()[d..]
  {
    hide StateInstance.Path, StateInstance.IsChild, Above;
    SuperIsAbove(s, x);
    PathAt(s, x.depth - 1);
    assert s.Path()[d..][x.depth - 1 - d] == x;
  }

  lemma NothingLeft(p: seq<StateInstance>)
    ensures LeftAll(p[|p|..]) == [] && EnteredAll(p[|p|..]) == []
  {
  }

  lemma LeftMore(p: seq<StateInstance>, s: StateInstance)
    ensures LeftAll(p + [s]) == [Left(s)] + LeftAll(p)
  {
    assert (p + [s])[..|p|] == p;
  }

  lemma EnteredMore(p: seq<StateInstance>, s: StateInstance)
    ensures EnteredAll(p + [s]) == EnteredAll(p) + [Entered(s)]
  {
    assert (p + [s])[..|p|] == p;
  }

  function MaxDepth(s: seq<StateInstance>): (d: nat)
    ensures forall i :: 0 <= i < |s| ==> s[i].depth <= d
  {
    if s == [] then 0
    else
      var d := MaxDepth(s[..|s| - 1]);
      if d < s[|s| - 1].depth then s[|s| - 1].depth else d
  }

  /** A list of states that starts with the root and has all superstates of its states. */
  ghost predicate TreeOf(states: seq<StateInstance>) {
    && |states| > 0 && states[0].parent == null && states[0].strategy == NoHistory
    && (forall i :: 0 < i < |states| ==> states[i].parent != null && states[i].parent in states)
    && (forall s :: s in states ==> s.Rooted() && Above(s, 0) == states[0])
  }

  // ----- one step of a run -----

  /** All that decides how a run goes on, between the steps of the machine. */
  datatype Moment = Moment(
    current: StateInstance, next: Request, event: bool, log: seq<Act>,
    histories: map<StateInstance, StateInstance?>, inits: seq<Request>, handlers: seq<Handler>)

  /** The request a user's next init action makes. */
  function First(script: seq<Request>): Request { if script == [] then Stay else script[0] }

  function Others<T>(script: seq<T>): seq<T> { if script == [] then [] else script[1..] }

  /** The state lies properly below the other. */
  predicate Below(s: StateInstance, of: StateInstance) { s.Rooted() && s.IsChild(of) && s != of }

  /** What the states remember when the state is left. */
  function Saved(was: map<StateInstance, StateInstance?>, s: StateInstance): map<StateInstance, StateInstance?>
    requires s.Rooted()
  {
    map a | a in was :: Remembered(a, s, s, was[a])
  }

  lemma RememberedIs(a: StateInstance, s: StateInstance, was: StateInstance?)
    requires s.Rooted()
    ensures var h := Remembered(a, s, s, was);
            if !Below(s, a) || a.strategy == NoHistory then h == was
            else if a.strategy == Deep then h == s
            else h != null && h.parent == a && s.IsChild(h)
  {
  }

  /**
   * Superstates with deep history remember the state, those with shallow history their own substate on the way to it.
   */
  lemma SavedExactly(was: map<StateInstance, StateInstance?>, s: StateInstance, a: StateInstance)
    requires s.Rooted() && a in was
    ensures var h := Saved(was, s)[a];
            if !Below(s, a) || a.strategy == NoHistory then h == was[a]
            else if a.strategy == Deep then h == s
            else h != null && h.parent == a && s.IsChild(h)
  {
  }

  /**
   * One transition: the states between are left and entered, the histories saved. Then the target goes on to what it
   * remembers, if asked to and if there is something, or else its init action is called; its history is forgotten.
   */
  ghost predicate Moved(a: Moment, b: Moment) {
    && a.next.Go? && a.current.Rooted() && a.next.target.Rooted() && SameTree(a.current, a.next.target)
    && b.event == a.event && b.handlers == a.handlers
    && Arrived(a, Saved(a.histories, a.current), b)
  }

  ghost predicate Arrived(a: Moment, saved: map<StateInstance, StateInstance?>, b: Moment)
    requires a.next.Go? && a.current.Rooted() && a.next.target.Rooted() && SameTree(a.current, a.next.target)
  {
    var t, crossed := a.next.target, a.log + Crossing(a.current, a.next.target);
    && b.current == t && t in saved && b.histories == saved[t := null]
    && if a.next.init == History && saved[t] != null then
         b.next == Go(saved[t], Default) && b.log == crossed && b.inits == a.inits
       else if t.parent == null then
         b.next == Stay && b.log == crossed && b.inits == a.inits
       else
         b.next == First(a.inits) && b.log == crossed + [Initialised(t)] && b.inits == Others(a.inits)
  }

  /**
   * A transition goes on to a remembered substate if and only if it was asked for with History and there is one: stored
   * before, or just saved because the transition left it. Otherwise the init action is called, but for the root.
   */
  lemma HistoryTaken(a: Moment, b: Moment)
    requires Moved(a, b)
    ensures var t, crossed := a.next.target, a.log + Crossing(a.current, a.next.target);
            var keeps := Below(a.current, t) && t.strategy != NoHistory;
            if a.next.init == History && t in a.histories && (keeps || a.histories[t] != null) then
              && b.log == crossed && b.next.Go? && b.next.init == Default
              && (!keeps ==> b.next.target == a.histories[t])
              && (keeps && t.strategy == Deep ==> b.next.target == a.current)
              && (keeps && t.strategy == Shallow ==> b.next.target.parent == t && a.current.IsChild(b.next.target))
            else if t.parent == null then b.log == crossed && b.next == Stay
            else b.log == crossed + [Initialised(t)] && b.next == if a.inits == [] then Stay else a.inits[0]
    ensures b.current == a.next.target && b.current in b.histories && b.histories[b.current] == null
  {
    hide Crossing;
    if a.next.target in a.histories { SavedExactly(a.histories, a.current, a.next.target); }
  }

  /** Going to a state with History, from outside it, comes back to what it remembers. */
  lemma HistoryReturns(a: Moment, b: Moment, c: Moment)
    requires Moved(a, b) && Moved(b, c)
    requires a.next.init == History && a.next.target in a.histories && !Below(a.current, a.next.target)
    requires a.histories[a.next.target] != null && a.histories[a.next.target].parent != null
    ensures var t, h := a.next.target, a.histories[a.next.target];
            && c.current == h
            && c.log == a.log + Crossing(a.current, t) + Crossing(t, h) + [Initialised(h)]
  {
    hide Crossing, Moved;
    HistoryTaken(a, b);
    HistoryTaken(b, c);
    MovedTargets(a, b);
    MovedTargets(b, c);
  }

  lemma MovedTargets(a: Moment, b: Moment)
    requires Moved(a, b)
    ensures a.next.Go? && a.current.Rooted() && a.next.target.Rooted() && SameTree(a.current, a.next.target)
    ensures b.current == a.next.target
  {
  }

  /** One event: the next handler is called on the current state, and what it asks for is pending. */
  ghost predicate Handled(a: Moment, b: Moment) {
    && a.event && b.current == a.current && b.histories == a.histories && b.inits == a.inits
    && b.log == a.log + [Dispatched(a.current)] && b.handlers == Others(a.handlers)
    && b.next == (if a.handlers == [] then Stay else a.handlers[0].request)
    && b.event == (a.handlers != [] && a.handlers[0].event)
  }

  /** Transitions come before events. */
  ghost predicate Step(a: Moment, b: Moment) { if a.next.Go? then Moved(a, b) else Handled(a, b) }

  predicate Done(a: Moment) { a.next.Stay? && !a.event }

  /** An init action may only ask for a proper substate. */
  predicate Broken(a: Moment) { a.next.Go? && !Below(a.next.target, a.current) }

  /** A run: one step after the other, none after an init action broke its rule. */
  ghost predicate Run(tr: seq<Moment>) {
    && tr != []
    && (forall i :: 0 <= i < |tr| - 1 ==> Step(tr[i], tr[i + 1]))
    && (forall i :: 0 < i < |tr| - 1 && tr[i - 1].next.Go? ==> !Broken(tr[i]))
  }

  lemma RunStarts(a: Moment)
    ensures Run([a])
  {
  }

  lemma RunMoves(tr: seq<Moment>, b: Moment)
    requires Run(tr) && Step(tr[|tr| - 1], b)
    requires |tr| > 1 && tr[|tr| - 2].next.Go? ==> !Broken(tr[|tr| - 1])
    ensures Run(tr + [b])
  {
    hide Step, Broken;
  }

  /** A run that may go on: its last transition broke no rule. */
  predicate Unbroken(tr: seq<Moment>) {
    tr != [] && (|tr| > 1 && tr[|tr| - 2].next.Go? ==> !Broken(tr[|tr| - 1]))
  }

  /** A run of transitions from one moment to another, begun or not. */
  ghost predicate Passed(start: Moment, tr: seq<Moment>, at: Moment) {
    tr != [] && Run(tr) && tr[0] == start && tr[|tr| - 1] == at && forall i :: 0 <= i < |tr| - 1 ==> tr[i].next.Go?
  }

  lemma NothingPassed(a: Moment)
    ensures Passed(a, [a], a)
  {
    RunStarts(a);
  }

  lemma PassedIs(start: Moment, tr: seq<Moment>, at: Moment)
    requires Passed(start, tr, at)
    ensures tr != [] && Run(tr) && tr[0] == start && tr[|tr| - 1] == at
    ensures forall i :: 0 <= i < |tr| - 1 ==> tr[i].next.Go?
  {
  }

  lemma PassesOn(start: Moment, tr: seq<Moment>, a: Moment, b: Moment)
    requires Passed(start, tr, a) && a.next.Go? && Moved(a, b) && (|tr| > 1 ==> !Broken(a))
    ensures Passed(start, tr + [b], b)
  {
    hide Run, Moved, Broken;
    RunMoves(tr, b);
  }

  lemma {:induction false} RunsJoin(x: seq<Moment>, y: seq<Moment>)
    requires Run(x) && Unbroken(x) && Run(y) && x[|x| - 1] == y[0]
    ensures Run(x + y[1..]) && (x + y[1..])[0] == x[0] && (x + y[1..])[|x + y[1..]| - 1] == y[|y| - 1]
    decreases |y|
  {
    hide Step, Broken;
    var z := x + y[1..];
    forall i | 0 <= i < |z| - 1 ensures Step(z[i], z[i + 1]) && (i > 0 && z[i - 1].next.Go? ==> !Broken(z[i])) {
      if i >= |x| - 1 {
        var k := i - (|x| - 1);
        assert z[i] == y[k] && z[i + 1] == y[k + 1];
        if k > 0 { assert z[i - 1] == y[k - 1]; }
      }
    }
  }

  /** A run with the event that began it. */
  lemma RunsOn(a: Moment, x: seq<Moment>)
    requires Run(x) && Ended(x) && !a.next.Go? && Step(a, x[0])
    ensures Run([a] + x) && Ended([a] + x) && ([a] + x)[|x|] == x[|x| - 1]
  {
    hide Step, Broken;
    var z := [a] + x;
    forall i | 0 <= i < |z| - 1 ensures Step(z[i], z[i + 1]) && (i > 0 && z[i - 1].next.Go? ==> !Broken(z[i])) {
      if i > 0 { assert z[i] == x[i - 1] && z[i + 1] == x[i]; }
      if i > 1 { assert z[i - 1] == x[i - 2]; }
    }
    if |x| > 1 { assert z[|z| - 2] == x[|x| - 2]; }
  }

  /** Nothing happens where nothing is pending. */
  lemma NothingDone(x: seq<Moment>)
    requires Run(x) && Done(x[0])
    ensures |x| == 1
  {
    if |x| > 1 { NotEnded(x, 0); }
  }

  lemma JustBegun(a: Moment)
    ensures Unbroken([a])
  {
  }

  lemma DoneEnds(tr: seq<Moment>)
    requires tr != [] && Done(tr[|tr| - 1])
    ensures Ended(tr)
  {
  }

  lemma StayUnbroken(tr: seq<Moment>, a: Moment)
    requires tr != [] && tr[|tr| - 1] == a && a.next.Stay?
    ensures Unbroken(tr)
  {
  }

  lemma BrokenEnds(x: seq<Moment>, y: seq<Moment>)
    requires x != [] && |y| > 1 && y[|y| - 2].next.Go? && Broken(y[|y| - 1]) && x[|x| - 1] == y[0]
    ensures Ended(x + y[1..]) && !Done(y[|y| - 1])
  {
    var z := x + y[1..];
    assert z[|z| - 1] == y[|y| - 1] && z[|z| - 2] == y[|y| - 2];
  }

  /** A run that goes no further: nothing is pending, or a rule was broken. */
  ghost predicate Ended(tr: seq<Moment>) {
    tr != [] && (Done(tr[|tr| - 1]) || (|tr| > 1 && tr[|tr| - 2].next.Go? && Broken(tr[|tr| - 1])))
  }

  /** A moment has one next moment. */
  lemma OneStep(a: Moment, b: Moment, c: Moment)
    requires Step(a, b) && Step(a, c)
    ensures b == c
  {
    hide Crossing, Saved;
  }

  /** State tree, histories and scripts decide the whole run. */
  lemma {:induction false} OneRun(x: seq<Moment>, y: seq<Moment>)
    requires Run(x) && Run(y) && Ended(x) && Ended(y) && x[0] == y[0]
    ensures x == y
  {
    hide Step;
    var n := if |x| <= |y| then |x| else |y|;
    SameStart(x, y, n);
    NoFurther(x, y, n);
    NoFurther(y, x, n);
    assert x[..n] == x && y[..n] == y;
  }

  lemma {:induction false} SameStart(x: seq<Moment>, y: seq<Moment>, n: nat)
    requires Run(x) && Run(y) && x[0] == y[0] && n <= |x| && n <= |y|
    ensures x[..n] == y[..n]
    decreases n
  {
    hide Step;
    if n > 1 {
      SameStart(x, y, n - 1);
      assert x[..n - 1][n - 2] == y[..n - 1][n - 2];
      OneStep(x[n - 2], x[n - 1], y[n - 1]);
      assert x[..n] == x[..n - 1] + [x[n - 1]] && y[..n] == y[..n - 1] + [y[n - 1]];
    }
  }

  lemma NotEnded(tr: seq<Moment>, i: nat)
    requires Run(tr) && i + 1 < |tr|
    ensures !Done(tr[i]) && (i > 0 && tr[i - 1].next.Go? ==> !Broken(tr[i]))
  {
    hide Moved;
    assert Step(tr[i], tr[i + 1]);
  }

  /** A run that has ended is not the beginning of another. */
  lemma NoFurther(x: seq<Moment>, y: seq<Moment>, n: nat)
    requires Run(x) && Run(y) && Ended(x) && 0 < n <= |y| && n <= |x| && x[..n] == y[..n]
    ensures n == |x| ==> |y| == n
  {
    hide Moved;
    if n < |y| { NotEnded(y, n - 1); }
    assert x[n - 1] == x[..n][n - 1] == y[..n][n - 1] == y[n - 1];
    if n > 1 { assert x[n - 2] == x[..n][n - 2] == y[..n][n - 2] == y[n - 2]; }
  }

  class Machine {
    /** All states; the root comes first. */
    const instances: seq<StateInstance>
    var current: StateInstance?
    var pendingState: StateInstance?
    var pendingInit: Initializer
    var pendingEvent: bool
    /** The calls of entry, exit and init actions so far. */
    var log: seq<Act>
    /** What the user's init actions and event handlers are going to do, call by call. */
    var inits: seq<Request>
    var handlers: seq<Handler>

    // ----- what holds -----

    ghost predicate Tree() { TreeOf(instances) }

    predicate RequestOk(r: Request) {
      r.Go? ==> r.target in instances && r.target.parent != null
    }

    /** Users can only name their own states. */
    ghost predicate Scripted()
      reads this`inits, this`handlers
    {
      && (forall i :: 0 <= i < |inits| ==> RequestOk(inits[i]))
      && (forall i :: 0 <= i < |handlers| ==> RequestOk(handlers[i].request))
    }

    /** A stored history is a proper substate, a direct one for shallow history; states without history store none. */
    ghost predicate HistoryFits(s: StateInstance, h: StateInstance?)
      requires Tree() && s in instances
    {
      h != null ==>
        && h in instances && h != s && h.IsChild(s)
        && s.strategy != NoHistory && (s.strategy == Shallow ==> h.parent == s)
    }

    ghost predicate Histories()
      requires Tree()
      reads instances`history
    {
      forall s :: s in instances ==> HistoryFits(s, s.history)
    }

    /**
     * An active state has its box; another one only if the box is shared or
     * persistent. Memory is never kept beside a box.
     */
    ghost predicate BoxOk(s: StateInstance, active: bool)
      reads s`box, s`place
    {
      match s.boxKind
      case Shared => s.box != Live && !s.place && (active ==> s.box == SharedBox)
      case Own(persistent) =>
        && s.box != SharedBox && (s.box == Live ==> !s.place)
        && (active ==> s.box == Live) && (s.box == Live && !persistent ==> active)
    }

    ghost predicate Boxes(active: seq<StateInstance>)
      reads instances`box, instances`place
    {
      forall s :: s in instances && s.parent != null ==> BoxOk(s, s in active)
    }

    /** The given state and its superstates are the active ones, and boxes and histories fit. */
    ghost predicate In(s: StateInstance)
      requires Tree() && s.Rooted()
      reads this`log, instances`box, instances`place
    {
      Active(log) == Some(s.Path()) && Boxes(s.Path())
    }

    ghost predicate Consistent()
      reads this, instances
    {
      && Tree() && Scripted() && Histories()
      && current != null && current in instances && In(current)
      && (pendingState != null ==> pendingState in instances)
    }

    /** Between events: a state of the user's, and nothing pending. */
    ghost predicate Running()
      reads this, instances
    {
      Consistent() && current.parent != null && pendingState == null && !pendingEvent
    }

    /** All that decides how the machine goes on. */
    ghost function Now(): Moment
      requires current != null
      reads this, instances`history
    {
      Moment(current, if pendingState == null then Stay else Go(pendingState, pendingInit), pendingEvent, log,
        map a | a in instances :: a.history, inits, handlers)
    }

    // ----- leaving and entering -----

    /** Leaves the innermost active state. */
    method LeaveOne(s: StateInstance)
      requires Tree() && s in instances && s.parent != null && In(s)
      modifies this`log, instances`box, instances`place
      ensures In(s.parent) && log == old(log) + [Left(s)]
    {
      hide Active, StateInstance.Path;
      ActiveLeft(log, s);
      NotOwnSuper(s);
      PathMore(s);
      log := log + [Left(s)];
      if s.box != SharedBox { DeleteBox(s); }
    }

    /** Enters a state below the innermost active one. */
    method EnterOne(s: StateInstance)
      requires Tree() && s in instances && s.parent != null && In(s.parent)
      modifies this`log, instances`box, instances`place
      ensures In(s) && log == old(log) + [Entered(s)]
    {
      hide Active, StateInstance.Path;
      ActiveEntered(log, s);
      NotOwnSuper(s);
      PathMore(s);
      CreateBox(s);
      log := log + [Entered(s)];
    }

    /** Leaves a state and its superstates up to the first that the next state is properly in. */
    method Leave(s: StateInstance, next: StateInstance)
      requires Tree() && s in instances && next in instances && In(s)
      modifies this`log, instances`box, instances`place
      ensures Kept(s, next) in instances && In(Kept(s, next))
      ensures log == old(log) + LeftAll(s.Path()[Kept(s, next).depth..])
      decreases s.depth
    {
      hide In, LeftAll;
      ParentIn(s);
      if s.parent == null {
        NothingLeft(s.Path());
        return;
      }
      if s == next || !next.IsChild(s) {
        LeaveOne(s);
        PathBeyond(s, Kept(s, next).depth);
        LeftMore(s.parent.Path()[Kept(s, next).depth..], s);
        Leave(s.parent, next);
      } else {
        NothingLeft(s.Path());
      }
    }

    lemma ParentIn(s: StateInstance)
      requires Tree() && s in instances
      ensures s.parent != null ==> s.parent in instances
    {
    }

    method DeleteBox(s: StateInstance)
      requires s.boxKind.Own? && s.box != NoBox && !s.place
      modifies s`box, s`place
      ensures if s.boxKind.persistent then s.box == old(s.box) && s.place == old(s.place) else s.box == NoBox && s.place
    {
      if !s.boxKind.persistent {
        s.box, s.place := NoBox, true;
      }
    }

    method CreateBox(s: StateInstance)
      requires s.boxKind.Own? ==> s.box != SharedBox
      modifies s`box, s`place
      ensures s.boxKind.Shared? ==>
              s.place == old(s.place) && s.box == if old(s.box) == NoBox then SharedBox else old(s.box)
      ensures s.boxKind.Own? ==> s.box == Live && s.place == if old(s.box) == NoBox then false else old(s.place)
    {
      if s.box == NoBox {
        if s.boxKind.Shared? {
          s.box := SharedBox;
        } else {
          s.box, s.place := Live, false;
        }
      }
    }

    /** Enters a state after those of its superstates that the previous state was not in. */
    method Enter(s: StateInstance, previous: StateInstance, first: bool)
      requires Tree() && s in instances && previous in instances && In(Base(s, previous, first))
      modifies this`log, instances`box, instances`place
      ensures In(s) && log == old(log) + EnteredAll(s.Path()[Base(s, previous, first).depth..])
      decreases s.depth
    {
      hide In, EnteredAll;
      ParentIn(s);
      if s.parent == null {
        NothingLeft(s.Path());
        return;
      }
      if first || !previous.IsChild(s) {
        PathBeyond(s, Base(s, previous, first).depth);
        EnteredMore(s.parent.Path()[Base(s, previous, first).depth..], s);
        Enter(s.parent, previous, false);
        EnterOne(s);
      } else {
        NothingLeft(s.Path());
      }
    }

    // ----- histories -----

    /** Passes history information from a state up to its superstates. */
    method SetHistorySuper(s: StateInstance, deep: StateInstance)
      requires Tree() && s in instances
      modifies instances`history
      ensures forall a :: a in instances ==> a.history == Remembered(a, s, deep, old(a.history))
      decreases s.depth, 0
    {
      ParentIn(s);
      if s.parent != null { SaveHistory(s.parent, s, deep); }
    }

    /**
     * A superstate stores what its strategy says and passes the rest on, if any
     * superstate of its own keeps a history.
     */
    method SaveHistory(p: StateInstance, shallow: StateInstance, deep: StateInstance)
      requires Tree() && p in instances && shallow in instances && shallow.parent == p
      modifies instances`history
      ensures forall a :: a in instances ==> a.history == Remembered(a, shallow, deep, old(a.history))
      decreases p.depth, 1
    {
      forall a, was | a in instances
        ensures a != p ==> Remembered(a, shallow, deep, was) == Remembered(a, p, deep, was)
        ensures !HistoryAbove(p) ==> Remembered(a, p, deep, was) == was
      {
        RememberedUp(a, shallow, deep, was);
        if !HistoryAbove(p) && p.IsChild(a) && a != p { NoneAbove(p, a); }
      }
      ghost var mine := p.history;
      RememberedUp(p, shallow, deep, mine);
      match p.strategy {
        case NoHistory =>
        case Shallow => p.history := shallow;
        case Deep => p.history := deep;
      }
      RememberedUp(p, shallow, deep, p.history);
      if HistoryAbove(p) { SetHistorySuper(p, deep); }
    }

    /** Every superstate of the state being left stores what its strategy says. */
    method Remember(s: StateInstance)
      requires Tree() && Histories() && s in instances
      modifies instances`history
      ensures Histories() && forall a :: a in instances ==> a.history == Remembered(a, s, s, old(a.history))
    {
      ghost var was := map a | a in instances :: a.history;
      SetHistorySuper(s, s);
      HistoriesKept(s, s, was);
    }

    /** What is stored is a proper substate again. */
    lemma HistoriesKept(s: StateInstance, deep: StateInstance, was: map<StateInstance, StateInstance?>)
      requires Tree() && s in instances && deep in instances && deep.IsChild(s)
      requires forall a :: a in instances ==>
               a in was && HistoryFits(a, was[a]) && a.history == Remembered(a, s, deep, was[a])
      ensures Histories()
    {
      forall a | a in instances ensures HistoryFits(a, a.history) {
        if a != s && s.IsChild(a) && a.strategy != NoHistory {
          NowRemembered(a, s, deep);
        }
      }
    }

    lemma NowRemembered(a: StateInstance, s: StateInstance, deep: StateInstance)
      requires Tree() && a in instances && s in instances && deep in instances && deep.IsChild(s)
      requires a != s && s.IsChild(a) && a.strategy != NoHistory
      ensures var h := Remembered(a, s, deep, null);
              && h != null && h in instances && h != a && h.IsChild(a) && (a.strategy == Shallow ==> h.parent == a)
    {
      ChildOfChild(deep, s, a);
      SuperIsAbove(deep, s);
      SuperIsAbove(s, a);
      if a.strategy == Shallow { SupersIn(s, SubstateToward(a, s)); }
    }

    lemma {:induction false} SupersIn(s: StateInstance, a: StateInstance)
      requires Tree() && s in instances && s.IsChild(a)
      ensures a in instances
      decreases s.depth
    {
      if s != a { SupersIn(s.parent, a); }
    }

    /** A user clears the history of one state. */
    method ClearHistory(s: StateInstance)
      requires Tree() && Histories() && s in instances
      modifies s`history
      ensures s.history == null && Histories()
    {
      s.history := null;
    }

    /** A user clears the history of a state and of all its substates. */
    method ClearHistoryDeep(s: StateInstance)
      requires Tree() && Histories() && s in instances
      modifies instances`history
      ensures Histories()
      ensures forall a :: a in instances ==> a.history == if a.IsChild(s) then null else old(a.history)
    {
      hide StateInstance.IsChild;
      var i := 0;
      while i < |instances|
        invariant i <= |instances|
        invariant forall a :: a in instances ==> a.history == null || a.history == old(a.history)
        invariant forall a :: a in instances && !a.IsChild(s) ==> a.history == old(a.history)
        invariant forall j :: 0 <= j < i && instances[j].IsChild(s) ==> instances[j].history == null
        modifies instances`history
      {
        if instances[i].IsChild(s) { instances[i].history := null; }
        i := i + 1;
      }
      forall a | a in instances ensures HistoryFits(a, a.history) { assert old(HistoryFits(a, a.history)); }
    }

    // ----- transitions -----

    method SetPendingState(t: StateInstance, init: Initializer)
      requires pendingState == null
      modifies this`pendingState, this`pendingInit
      ensures pendingState == t && pendingInit == init
    {
      pendingState, pendingInit := t, init;
    }

    method Obey(r: Request)
      requires pendingState == null
      modifies this`pendingState, this`pendingInit
      ensures if r.Go? then pendingState == r.target && pendingInit == r.init else pendingState == null
    {
      if r.Go? { SetPendingState(r.target, r.init); }
    }

    /** Goes to the pending state: leaves what it is not in, remembers, and enters what the current state is not in. */
    method Transit()
      requires Consistent() && pendingState != null
      modifies this`log, this`current, this`pendingState, instances`box, instances`place, instances`history
      ensures Consistent() && current == old(pendingState) && pendingState == null
      ensures log == old(log) + Crossing(old(current), old(pendingState))
      ensures forall a :: a in instances ==> a.history == Remembered(a, old(current), old(current), old(a.history))
      ensures forall a :: a in instances ==>
                if !Below(old(current), a) || a.strategy == NoHistory then a.history == old(a.history)
                else if a.strategy == Deep then a.history == old(current)
                else a.history != null && a.history.parent == a && old(current).IsChild(a.history)
    {
      hide In, Histories, Scripted, Crossing, Remembered;
      var next, previous := pendingState, current;
      Cross(previous, next);
      forall a | a in instances
        ensures if !Below(previous, a) || a.strategy == NoHistory then a.history == old(a.history)
                else if a.strategy == Deep then a.history == previous
                else a.history != null && a.history.parent == a && previous.IsChild(a.history)
      {
        RememberedIs(a, previous, old(a.history));
      }
      current := next;
      pendingState := null;
    }

    method Cross(previous: StateInstance, next: StateInstance)
      requires Tree() && Histories() && previous in instances && next in instances && In(previous)
      modifies this`log, instances`box, instances`place, instances`history
      ensures Histories() && In(next) && log == old(log) + Crossing(previous, next)
      ensures forall a :: a in instances ==> a.history == Remembered(a, previous, previous, old(a.history))
    {
      hide In, LeftAll, EnteredAll, Histories, Remembered, Above, StateInstance.Path;
      KeptIs(previous, next);
      SuperIsAbove(next, Kept(previous, next));
      LeaveMeetsEnter(previous, next);
      Leave(previous, next);
      Remember(previous);
      Enter(next, previous, true);
    }

    predicate UsesHistory(history: bool, h: StateInstance?) { history && h != null }

    /** The pending transition is what the next of the user's init actions asks for. */
    predicate Asked(script: seq<Request>)
      reads this`pendingState, this`pendingInit, this`inits
    {
      if script == [] then pendingState == null && inits == []
      else
        && inits == script[1..]
        && match script[0]
           case Stay => pendingState == null
           case Go(target, init) => pendingState == target && pendingInit == init
    }

    /** The init action of the current state, or its history instead; the history is forgotten. */
    method Init(history: bool)
      requires Consistent() && pendingState == null
      modifies this`log, this`pendingState, this`pendingInit, this`inits, current`history
      ensures Consistent() && current.history == null
      ensures UsesHistory(history, old(current.history)) ==>
              pendingState == old(current.history) && pendingInit == Default && log == old(log) && inits == old(inits)
      ensures !UsesHistory(history, old(current.history)) && current.parent == null ==>
              pendingState == null && log == old(log) && inits == old(inits)
      ensures !UsesHistory(history, old(current.history)) && current.parent != null ==>
              log == old(log) + [Initialised(current)]
      ensures !UsesHistory(history, old(current.history)) && current.parent != null ==> Asked(old(inits))
      ensures pendingState != null ==> pendingState.parent != null && current.parent != null
    {
      hide In, Histories;
      if history && current.history != null {
        HistoryKnown(current);
        SetPendingState(current.history, Default);
      } else if current.parent != null {
        UserInit();
      }
      Forget(current);
    }

    lemma HistoryKnown(s: StateInstance)
      requires Tree() && Histories() && s in instances && s.history != null
      ensures s.history in instances && s.history != s && s.history.IsChild(s) && s.history.parent != null
              && s.parent != null
    {
      assert HistoryFits(s, s.history);
      SuperIsAbove(s.history, s);
    }

    method Forget(s: StateInstance)
      requires Tree() && Histories() && s in instances
      modifies s`history
      ensures s.history == null && Histories()
    {
      s.history := null;
    }

    /** Calls the current state's init action, which may ask for one transition. */
    method UserInit()
      requires Tree() && Scripted() && current != null && current in instances && In(current) && pendingState == null
      modifies this`log, this`pendingState, this`pendingInit, this`inits
      ensures Scripted() && In(current) && log == old(log) + [Initialised(current)] && Asked(old(inits))
      ensures pendingState != null ==> pendingState in instances && pendingState.parent != null
    {
      ActiveMore(log, Initialised(current));
      log := log + [Initialised(current)];
      if inits != [] {
        var r := inits[0];
        inits := inits[1..];
        Obey(r);
      }
    }

    /** One transition and the init action after it; refused if that asks for anything but a proper substate. */
    method Round() returns (ok: bool)
      requires Consistent() && pendingState != null
      modifies this`log, this`current, this`pendingState, this`pendingInit, this`inits, instances`box, instances`place,
               instances`history
      ensures Consistent() && current == old(pendingState)
      ensures old(log) + Crossing(old(current), old(pendingState)) <= log
      ensures ok <==> pendingState == null || ProperSubstate(pendingState, current)
      ensures pendingState != null ==> pendingState.parent != null && current.parent != null
      ensures Moved(old(Now()), Now())
    {
      hide In, Histories, Scripted, Remembered, Crossing, Saved, Moved, Above;
      ghost var crossed := log + Crossing(current, pendingState);
      ghost var before, saved := Now(), Saved(Now().histories, current);
      SavedAre(current);
      Transit();
      var history := pendingInit == History;
      Init(history);
      ok := pendingState == null || (pendingState.IsChild(current) && current != pendingState);
      RoundIs(before, saved);
    }

    lemma SavedAre(s: StateInstance)
      requires s.Rooted() && current != null
      ensures var saved := Saved(Now().histories, s);
              saved.Keys == (set a | a in instances)
              && forall a :: a in instances ==> saved[a] == Remembered(a, s, s, a.history)
    {
    }

    lemma RoundIs(before: Moment, saved: map<StateInstance, StateInstance?>)
      requires current != null && before.next.Go? && before.current.Rooted() && before.next.target.Rooted()
      requires SameTree(before.current, before.next.target) && saved == Saved(before.histories, before.current)
      requires current == before.next.target && current in instances && saved.Keys == set a | a in instances
      requires before.event == pendingEvent && before.handlers == handlers
      requires current.history == null && forall a :: a in instances && a != current ==> a.history == saved[a]
      requires var crossed := before.log + Crossing(before.current, current);
               if before.next.init == History && saved[current] != null then
                 pendingState == saved[current] && pendingInit == Default && log == crossed && inits == before.inits
               else if current.parent == null then
                 pendingState == null && log == crossed && inits == before.inits
               else
                 && log == crossed + [Initialised(current)] && inits == Others(before.inits)
                 && match First(before.inits)
                    case Stay => pendingState == null
                    case Go(t, i) => pendingState == t && pendingInit == i
      ensures Moved(before, Now())
    {
      hide Crossing, Saved;
      assert Now().histories == saved[current := null];
    }

    predicate ProperSubstate(s: StateInstance, of: StateInstance)
      requires s.Rooted()
    {
      s.IsChild(of) && s != of
    }

    /** How many more transitions the inner loop can make: each goes to a proper substate of the state before. */
    ghost function Descents(): nat
      requires Tree() && current != null && current in instances && (pendingState != null ==> pendingState in instances)
      reads this`current, this`pendingState
    {
      if pendingState == null then 0
      else if ProperSubstate(pendingState, current) then DescentsFrom(current)
      else MaxDepth(instances) + 2
    }

    ghost function DescentsFrom(s: StateInstance): (n: nat)
      requires Tree() && s in instances
      ensures 1 <= n <= MaxDepth(instances) + 1
    {
      MaxDepth(instances) + 1 - s.depth
    }

    lemma Descending(s: StateInstance, below: StateInstance)
      requires Tree() && s in instances && below in instances && ProperSubstate(below, s)
      ensures DescentsFrom(below) < DescentsFrom(s)
    {
      SuperIsAbove(below, s);
    }

    /** Whether the current state is the target of the transition that began, or a substate its init actions chose. */
    predicate Reached(target: StateInstance)
      requires current != null && current.Rooted()
      reads this`current
    {
      current.IsChild(target)
    }

    /** Where the machine is or is about to go. */
    ghost function Next(): StateInstance?
      reads this`current, this`pendingState
    {
      if pendingState == null then current else pendingState
    }

    /** Makes transitions until no init action asks for another. */
    method Settle() returns (ok: bool, ghost tr: seq<Moment>)
      requires Consistent()
      modifies this`log, this`current, this`pendingState, this`pendingInit, this`inits, instances`box, instances`place,
               instances`history
      ensures Consistent() && old(log) <= log
      ensures ok ==> pendingState == null
      ensures old(pendingState) != null ==>
              Reached(old(pendingState)) && old(log) + Crossing(old(current), old(pendingState)) <= log
      ensures old(pendingState) == null ==> ok && current == old(current) && log == old(log)
      ensures current.parent == null ==> old(Next()).parent == null
      ensures old(Next()).parent == null ==> ok && current == old(Next())
      ensures tr != [] && Run(tr) && tr[0] == old(Now()) && tr[|tr| - 1] == Now()
      ensures forall i :: 0 <= i < |tr| - 1 ==> tr[i].next.Go?
      ensures ok || (|tr| > 1 && tr[|tr| - 2].next.Go? && Broken(Now()))
    {
      hide Consistent, Tree, Crossing, Descents, Run, Passed, Settling, Broken, Reached, Now;
      hide StateInstance.IsChild, StateInstance.Rooted, SameTree;
      ConsistentIs();
      ok := true;
      ghost var start, target, started := Now(), pendingState, false;
      ghost var goal := if pendingState == null then log else log + Crossing(current, pendingState);
      tr := [Now()];
      NothingPassed(Now());
      NotStarted(goal);
      while pendingState != null
        invariant ok && Consistent() && Places() && (started <==> |tr| > 1)
        invariant old(log) <= log && Settling(target, started, goal)
        invariant !started ==> current == old(current) && log == old(log) && pendingState == target
        invariant Passed(start, tr, Now()) && (|tr| > 1 ==> !Broken(Now()))
        decreases Descents()
      {
        ok, tr := Descend(target, started, goal, start, tr);
        started := true;
        if !ok { break; }
      }
      PassedIs(start, tr, Now());
      Settled(target, started, goal);
    }

    /** Where a chain of transitions stands: not begun, or past its target and on to proper substates. */
    ghost predicate Settling(target: StateInstance?, started: bool, goal: seq<Act>)
      requires current != null && current.Rooted() && (pendingState != null ==> pendingState.Rooted())
      reads this
    {
      if !started then pendingState == target && (target != null ==> target.Rooted())
                       && (target != null ==> SameTree(current, target) && goal == log + Crossing(current, target))
      else
        && target != null && goal <= log && Reached(target)
        && (current.parent == null ==> target.parent == null)
        && (target.parent == null ==> pendingState == null && current == target)
    }

    /** Where the machine is and where it goes are states of the tree. */
    ghost predicate Places()
      reads this
    {
      && Tree() && current != null && current in instances && current.Rooted()
      && (pendingState != null ==>
            pendingState in instances && pendingState.Rooted() && SameTree(current, pendingState))
    }

    lemma ConsistentIs()
      requires Consistent()
      ensures Places()
    {
    }

    lemma NotStarted(goal: seq<Act>)
      requires Consistent() && goal == if pendingState == null then log else log + Crossing(current, pendingState)
      ensures Settling(pendingState, false, goal)
    {
      hide Crossing;
    }

    lemma Settled(target: StateInstance?, started: bool, goal: seq<Act>)
      requires current != null && current.Rooted() && (pendingState != null ==> pendingState.Rooted())
      requires Settling(target, started, goal)
      ensures started ==> target != null && goal <= log && Reached(target)
      ensures started ==> (current.parent == null ==> target.parent == null)
      ensures started ==> (target.parent == null ==> pendingState == null && current == target)
    {
      hide Crossing;
    }

    /** One transition of the chain. */
    method Descend(ghost target: StateInstance?, ghost started: bool, ghost goal: seq<Act>, ghost start: Moment,
        ghost was: seq<Moment>) returns (ok: bool, ghost tr: seq<Moment>)
      requires Consistent() && pendingState != null && Settling(target, started, goal)
      requires Passed(start, was, Now()) && (|was| > 1 ==> !Broken(Now()))
      requires started ==> |was| > 1
      modifies this`log, this`current, this`pendingState, this`pendingInit, this`inits, instances`box, instances`place,
               instances`history
      ensures Consistent() && Places() && old(log) <= log && Settling(target, true, goal)
      ensures ok ==> Descents() < old(Descents())
      ensures pendingState == null ==> ok
      ensures Passed(start, tr, Now()) && |tr| > 1 && (ok <==> !Broken(Now()))
    {
      hide In, Histories, Scripted, Descents, DescentsFrom, Crossing, Run, Moved, Passed;
      hide StateInstance.IsChild, StateInstance.Path;
      ghost var from, next := current, pendingState;
      if started { ChildOfChild(next, from, target); }
      DescentsAre();
      ghost var before := Descents();
      ok, tr := RoundOn(start, was);
      if !started { ItsOwn(current); }
      if ok { Fewer(from, next, before); }
    }

    lemma ItsOwn(s: StateInstance)
      requires s.Rooted()
      ensures s.IsChild(s)
    {
    }

    /** The run so far, and one more transition. */
    method RoundOn(ghost start: Moment, ghost was: seq<Moment>) returns (ok: bool, ghost tr: seq<Moment>)
      requires Consistent() && pendingState != null
      requires Passed(start, was, Now()) && (|was| > 1 ==> !Broken(Now()))
      modifies this`log, this`current, this`pendingState, this`pendingInit, this`inits, instances`box, instances`place,
               instances`history
      ensures Consistent() && current == old(pendingState)
      ensures old(log) + Crossing(old(current), old(pendingState)) <= log
      ensures ok <==> pendingState == null || ProperSubstate(pendingState, current)
      ensures pendingState != null ==> pendingState.parent != null && current.parent != null
      ensures Passed(start, tr, Now()) && |tr| > 1 && (ok <==> !Broken(Now()))
    {
      hide In, Histories, Scripted, Crossing, Passed, Moved;
      ghost var before := Now();
      ok := Round();
      PassesOn(start, was, before, Now());
      PassedIs(start, was, before);
      tr := was + [Now()];
    }

    lemma DescentsAre()
      requires Tree() && current != null && current in instances && (pendingState != null ==> pendingState in instances)
      ensures Descents() == if pendingState == null then 0 else if ProperSubstate(pendingState, current)
              then DescentsFrom(current) else MaxDepth(instances) + 2
    {
    }

    lemma Fewer(was: StateInstance, next: StateInstance, before: nat)
      requires Tree() && was in instances && next in instances && current == next
      requires before == if ProperSubstate(next, was) then DescentsFrom(was) else MaxDepth(instances) + 2
      requires pendingState != null ==> pendingState in instances && ProperSubstate(pendingState, current)
      ensures Descents() < before
    {
      if ProperSubstate(next, was) { Descending(was, next); }
    }

    // ----- events -----

    /** The user's handler of an event: it may ask for one transition and queue one event. */
    method Handle()
      requires Consistent() && current.parent != null && pendingState == null && !pendingEvent
      modifies this`log, this`pendingState, this`pendingInit, this`pendingEvent, this`handlers
      ensures Consistent() && (pendingState != null ==> pendingState.parent != null)
      ensures log == old(log) + [Dispatched(current)]
      ensures if old(handlers) == [] then handlers == [] && pendingState == null && !pendingEvent
              else handlers == old(handlers)[1..] && pendingEvent == old(handlers)[0].event
      ensures old(handlers) != [] ==>
                match old(handlers)[0].request
                case Stay => pendingState == null
                case Go(target, init) => pendingState == target && pendingInit == init
      ensures Handled(old(Now()).(event := true), Now())
    {
      hide In, Histories, Scripted;
      Dispatch();
      Answer();
    }

    /** What the handler asks for. */
    method Answer()
      requires Tree() && Scripted() && pendingState == null && !pendingEvent
      modifies this`pendingState, this`pendingInit, this`pendingEvent, this`handlers
      ensures Scripted() && (pendingState != null ==> pendingState in instances && pendingState.parent != null)
      ensures if old(handlers) == [] then handlers == [] && pendingState == null && !pendingEvent
              else handlers == old(handlers)[1..] && pendingEvent == old(handlers)[0].event
      ensures old(handlers) != [] ==>
                match old(handlers)[0].request
                case Stay => pendingState == null
                case Go(target, init) => pendingState == target && pendingInit == init
    {
      if handlers != [] {
        var h := handlers[0];
        handlers := handlers[1..];
        Obey(h.request);
        pendingEvent := h.event;
      }
    }

    method Dispatch()
      requires Tree() && current != null && current in instances && In(current)
      modifies this`log
      ensures In(current) && log == old(log) + [Dispatched(current)]
    {
      ActiveMore(log, Dispatched(current));
      log := log + [Dispatched(current)];
    }

    /** Makes all pending transitions and handles all pending events; refused if an init action breaks its rule. */
    method RattleOn() returns (ok: bool, ghost tr: seq<Moment>)
      requires Consistent() && (pendingEvent ==> Next().parent != null)
      modifies this, instances`box, instances`place, instances`history
      ensures Consistent() && old(log) <= log
      ensures ok ==> pendingState == null && !pendingEvent
      ensures current.parent == null ==> old(Next()).parent == null
      ensures !old(pendingEvent) && old(pendingState) != null ==> Reached(old(pendingState)) && !pendingEvent
      ensures !old(pendingEvent) && old(pendingState) != null ==>
              old(log) + Crossing(old(current), old(pendingState)) <= log
      ensures !old(pendingEvent) && old(Next()).parent == null ==> ok && current == old(Next()) && !pendingEvent
      ensures tr != [] && Run(tr) && Ended(tr) && tr[0] == old(Now()) && tr[|tr| - 1] == Now() && (ok <==> Done(Now()))
      ensures !old(pendingEvent) ==> handlers == old(handlers)
    {
      hide Consistent, Tree, Crossing, Run, Step, Broken, Unbroken, Ended, Reached, Now, Done;
      hide StateInstance.IsChild, StateInstance.Rooted, SameTree;
      ConsistentIs();
      ok := true;
      ghost var first := true;
      ghost var goal := if pendingState == null then log else log + Crossing(current, pendingState);
      tr := [Now()];
      RunStarts(Now());
      JustBegun(Now());
      while pendingState != null || pendingEvent
        invariant ok && Consistent() && Places() && old(log) <= log
        invariant pendingEvent ==> Next().parent != null
        invariant Next().parent == null ==> old(Next()).parent == null
        invariant first ==>
                    pendingState == old(pendingState) && pendingEvent == old(pendingEvent) && current == old(current)
        invariant !first && !old(pendingEvent) ==> pendingState == null && !pendingEvent
        invariant !first && !old(pendingEvent) && old(pendingState) != null ==> Reached(old(pendingState))
        invariant first ==> log == old(log)
        invariant !first && !old(pendingEvent) && old(pendingState) != null ==> goal <= log
        invariant !first && !old(pendingEvent) && old(Next()).parent == null ==> current == old(Next())
        invariant tr != [] && Run(tr) && Unbroken(tr) && tr[0] == old(Now()) && tr[|tr| - 1] == Now()
        invariant !old(pendingEvent) ==> handlers == old(handlers)
        decreases |handlers|, pendingEvent, pendingState != null
      {
        first := false;
        ok, tr := SettleOn(tr);
        if !ok { return; }
        if pendingEvent { tr := HandleOn(tr); }
      }
      NowIs();
      DoneEnds(tr);
    }

    lemma NowIs()
      requires current != null
      ensures Done(Now()) <==> pendingState == null && !pendingEvent
    {
    }

    /** The run so far, and the transitions that follow. */
    method SettleOn(ghost was: seq<Moment>) returns (ok: bool, ghost tr: seq<Moment>)
      requires Consistent() && was != [] && Run(was) && Unbroken(was) && was[|was| - 1] == Now()
      modifies this`log, this`current, this`pendingState, this`pendingInit, this`inits, instances`box, instances`place,
               instances`history
      ensures Consistent() && Places() && old(log) <= log
      ensures ok ==> pendingState == null
      ensures old(pendingState) != null ==>
              Reached(old(pendingState)) && old(log) + Crossing(old(current), old(pendingState)) <= log
      ensures old(pendingState) == null ==> ok && current == old(current) && log == old(log)
      ensures current.parent == null ==> old(Next()).parent == null
      ensures old(Next()).parent == null ==> ok && current == old(Next())
      ensures tr != [] && Run(tr) && tr[0] == was[0] && tr[|tr| - 1] == Now()
      ensures if ok then Unbroken(tr) else Ended(tr) && !Done(Now())
    {
      hide In, Histories, Scripted, Run, Step, Broken, Crossing, Unbroken, Ended;
      ghost var more;
      ok, more := Settle();
      RunsJoin(was, more);
      tr := was + more[1..];
      if ok { StayUnbroken(tr, Now()); } else { BrokenEnds(was, more); }
    }

    /** The run so far, and the handler that is called. */
    method HandleOn(ghost was: seq<Moment>) returns (ghost tr: seq<Moment>)
      requires Consistent() && current.parent != null && pendingState == null && pendingEvent
      requires was != [] && Run(was) && Unbroken(was) && was[|was| - 1] == Now()
      modifies this`log, this`pendingState, this`pendingInit, this`pendingEvent, this`handlers
      ensures Consistent() && Places() && (pendingState != null ==> pendingState.parent != null) && old(log) <= log
      ensures |handlers| < |old(handlers)| || (handlers == old(handlers) && !pendingEvent && pendingState == null)
      ensures tr != [] && Run(tr) && Unbroken(tr) && tr[0] == was[0] && tr[|tr| - 1] == Now()
    {
      hide In, Histories, Scripted, Run, Broken;
      ghost var before := Now();
      pendingEvent := false;
      Handle();
      RunMoves(was, Now());
      tr := was + [Now()];
    }

    // ----- the life of a machine -----

    /** A machine stands in its root state until it is started. */
    constructor (instances: seq<StateInstance>, inits: seq<Request>, handlers: seq<Handler>)
      requires TreeOf(instances)
      requires forall i :: 0 <= i < |inits| ==> inits[i].Go? ==>
               inits[i].target in instances && inits[i].target.parent != null
      requires forall i :: 0 <= i < |handlers| ==> handlers[i].request.Go? ==>
               handlers[i].request.target in instances && handlers[i].request.target.parent != null
      requires forall s :: s in instances ==> s.history == null && s.box == NoBox && !s.place
      ensures this.instances == instances && current == instances[0] && log == []
      ensures Consistent() && pendingState == null && !pendingEvent
    {
      this.instances, this.inits, this.handlers := instances, inits, handlers;
      current, pendingState, pendingInit, pendingEvent := instances[0], null, Default, false;
      log := [];
    }

    method SetState(t: StateInstance, init: Initializer) returns (ok: bool, ghost tr: seq<Moment>)
      requires Consistent() && t in instances && pendingState == null && !pendingEvent
      modifies this, instances`box, instances`place, instances`history
      ensures Consistent() && old(log) <= log && Reached(t) && !pendingEvent
      ensures ok ==> pendingState == null
      ensures old(log) + Crossing(old(current), t) <= log
      ensures t.parent != null ==> current.parent != null
      ensures t.parent == null ==> ok && current == t
      ensures tr != [] && Run(tr) && Ended(tr) && tr[0] == old(Now()).(next := Go(t, init)) && tr[|tr| - 1] == Now()
      ensures (ok <==> Done(Now())) && handlers == old(handlers)
    {
      hide In, Histories, Scripted, Crossing, Run, Ended;
      SetPendingState(t, init);
      ok, tr := RattleOn();
    }

    /** From the root to the given state. */
    method Start(t: StateInstance) returns (ok: bool, ghost tr: seq<Moment>)
      requires Consistent() && current.parent == null && pendingState == null && !pendingEvent
      requires t in instances && t.parent != null
      modifies this, instances`box, instances`place, instances`history
      ensures Consistent() && (ok ==> Running()) && Reached(t)
      ensures tr != [] && Run(tr) && Ended(tr) && tr[0] == old(Now()).(next := Go(t, Default)) && tr[|tr| - 1] == Now()
      ensures (ok <==> Done(Now())) && handlers == old(handlers)
      ensures old(log) + Crossing(old(current), t) <= log
    {
      hide In, Histories, Scripted, Run, Ended, Crossing;
      OnlyRoot(current);
      current := instances[0];
      ok, tr := SetState(t, Default);
    }

    /**
      * An event from outside: the current state's handler, then whatever it set going. The run is that of the state
      * tree,
     * the histories and the scripts from the event on, and nothing else happens.
     */
    method Event() returns (ok: bool, ghost tr: seq<Moment>)
      requires Running()
      modifies this, instances`box, instances`place, instances`history
      ensures Consistent() && old(log) <= log && (ok ==> Running())
      ensures tr != [] && Run(tr) && Ended(tr) && tr[0] == old(Now()).(event := true) && tr[|tr| - 1] == Now()
      ensures ok <==> Done(Now())
      ensures old(log) + [Dispatched(old(current))] <= log
      ensures old(handlers) == [] || old(handlers)[0] == Handler(Stay, false) ==>
                ok && current == old(current) && log == old(log) + [Dispatched(current)]
                  && handlers == Others(old(handlers))
      ensures old(handlers) != [] && old(handlers)[0].request.Go? && !old(handlers)[0].event ==>
                && Reached(old(handlers)[0].request.target) && handlers == old(handlers)[1..]
                && old(log) + [Dispatched(old(current))] + Crossing(old(current),
                  old(handlers)[0].request.target) <= log
    {
      hide In, Histories, Scripted, Tree, Run, Ended, Crossing, Broken;
      ghost var start := Now().(event := true);
      Handle();
      ghost var more;
      ghost var idle := Done(Now());
      ok, more := RattleOn();
      RunsOn(start, more);
      tr := [start] + more;
      if idle { NothingDone(more); }
    }

    /** Goes back to the root, which leaves every state, and ends. */
    method Shutdown()
      requires Running()
      modifies this, instances`box, instances`place, instances`history
      ensures current == null && Active(log) == Some([]) && Boxes([])
      ensures old(log) + LeftAll(old(current.Path())) <= log
    {
      hide In, Histories, Scripted, Crossing, LeftAll;
      LeavingAll(current);
      var ok, tr := SetState(instances[0], Default);
      InRoot(current);
      current := null;
    }

    lemma OnlyRoot(s: StateInstance)
      requires Tree() && s in instances && s.parent == null
      ensures s == instances[0]
    {
    }

    lemma InRoot(s: StateInstance)
      requires Tree() && s.Rooted() && s.parent == null && In(s)
      ensures Active(log) == Some([]) && Boxes([])
    {
    }

    /** Going to the root leaves all active states, innermost first. */
    lemma LeavingAll(s: StateInstance)
      requires Tree() && s in instances
      ensures Crossing(s, instances[0]) == LeftAll(s.Path())
    {
      KeptIs(s, instances[0]);
      SuperIsAbove(instances[0], Kept(s, instances[0]));
      assert s.Path()[0..] == s.Path() && instances[0].Path()[0..] == [];
    }
  }
}
