/** The state tree of a Macho machine (Macho.h): states, their superstates, and what a transition leaves and enters. */
module MachoStates {

  datatype Strategy = NoHistory | Shallow | Deep

  /** A state either declares no box of its own or one, which may outlive the state. */
  datatype BoxKind = Shared | Own(persistent: bool)

  datatype Box = NoBox | SharedBox | Live

  class StateInstance {
    const parent: StateInstance?
    const depth: nat
    const strategy: Strategy
    const boxKind: BoxKind
    var history: StateInstance?
    var box: Box
    /** Memory of a deleted box, kept for the next one. */
    var place: bool

    constructor (parent: StateInstance?, strategy: Strategy, boxKind: BoxKind)
      requires parent != null ==> parent.Rooted()
      ensures this.parent == parent && this.strategy == strategy && this.boxKind == boxKind
      ensures history == null && box == NoBox && !place && Rooted()
    {
      this.parent, this.strategy, this.boxKind := parent, strategy, boxKind;
      depth := if parent == null then 0 else parent.depth + 1;
      history, box, place := null, NoBox, false;
    }

    /** Superstates end at the root, which has none. */
    predicate Rooted()
      decreases depth
    {
      if parent == null then depth == 0 else depth == parent.depth + 1 && parent.Rooted()
    }

    /** Whether the given state is this one or one of its superstates. */
    predicate IsChild(s: StateInstance)
      requires Rooted()
      decreases depth
    {
      this == s || (parent != null && parent.IsChild(s))
    }

    /** The state and its superstates, outermost first, without the root. */
    function Path(): (p: seq<StateInstance>)
      requires Rooted()
      ensures |p| == depth
      decreases depth
    {
      if parent == null then [] else parent.Path() + [this]
    }
  }

  // ----- superstates are the states on the path -----

  /** The superstate at a given depth. */
  function Above(s: StateInstance, d: nat): (a: StateInstance)
    requires s.Rooted() && d <= s.depth
    ensures a.Rooted() && a.depth == d
    decreases s.depth
  {
    if d == s.depth then s else Above(s.parent, d)
  }

  lemma {:induction false} AboveIsSuper(s: StateInstance, d: nat)
    requires s.Rooted() && d <= s.depth
    ensures s.IsChild(Above(s, d)) && Above(s, d).Path() == s.Path()[..d]
    decreases s.depth
  {
    if d < s.depth { AboveIsSuper(s.parent, d); }
  }

  lemma {:induction false} SuperIsAbove(s: StateInstance, a: StateInstance)
    requires s.Rooted() && s.IsChild(a)
    ensures a.Rooted() && a.depth <= s.depth && Above(s, a.depth) == a
    decreases s.depth
  {
    if s != a { SuperIsAbove(s.parent, a); }
  }

  lemma {:induction false} AboveAbove(s: StateInstance, d: nat, e: nat)
    requires s.Rooted() && d <= e <= s.depth
    ensures Above(Above(s, e), d) == Above(s, d)
    decreases s.depth
  {
    if e < s.depth { AboveAbove(s.parent, d, e); }
  }

  lemma {:induction false} PathAt(s: StateInstance, d: nat)
    requires s.Rooted() && d < s.depth
    ensures s.Path()[d] == Above(s, d + 1)
    decreases s.depth
  {
    if d + 1 < s.depth { PathAt(s.parent, d); }
  }

  /** The superstates of a superstate are superstates. */
  lemma ChildOfChild(s: StateInstance, a: StateInstance, b: StateInstance)
    requires s.Rooted() && s.IsChild(a) && a.Rooted() && a.IsChild(b)
    ensures s.IsChild(b)
  {
    SuperIsAbove(s, a);
    SuperIsAbove(a, b);
    AboveAbove(s, b.depth, a.depth);
    AboveIsSuper(s, b.depth);
  }

  // ----- what a transition keeps -----

  /** Where leaving stops on the way up: at the first proper superstate of the next state, or at the root. */
  function Kept(s: StateInstance, next: StateInstance): (k: StateInstance)
    requires s.Rooted() && next.Rooted()
    ensures k.Rooted() && k.depth <= s.depth
    decreases s.depth
  {
    if s.parent == null || (s != next && next.IsChild(s)) then s else Kept(s.parent, next)
  }

  /**
   * Where entering starts on the way down: below the first superstate of s that the
   * previous state is in, or the root.
   */
  function Base(s: StateInstance, previous: StateInstance, first: bool): (b: StateInstance)
    requires s.Rooted() && previous.Rooted()
    ensures b.Rooted() && b.depth <= s.depth
    decreases s.depth
  {
    if s.parent == null || !(first || !previous.IsChild(s)) then s else Base(s.parent, previous, false)
  }

  /** Both states are in the same tree. */
  predicate SameTree(s: StateInstance, t: StateInstance)
    requires s.Rooted() && t.Rooted()
  {
    Above(s, 0) == Above(t, 0)
  }

  /**
   * The state leaving stops at: both states are in it, the next one properly so
   * unless it is the root, and it is the deepest such.
   */
  lemma {:induction false} KeptIs(s: StateInstance, next: StateInstance)
    requires s.Rooted() && next.Rooted() && SameTree(s, next)
    ensures var k := Kept(s, next);
            && s.IsChild(k) && next.IsChild(k) && (k != next || k.parent == null)
            && forall a :: (s.IsChild(a) && next.IsChild(a) && a != next) ==> a.depth <= k.depth
    decreases s.depth
  {
    if s.parent == null {
      AboveIsSuper(next, 0);
      forall a | s.IsChild(a) ensures a.depth <= s.depth { SuperIsAbove(s, a); }
    } else if s != next && next.IsChild(s) {
      forall a | s.IsChild(a) ensures a.depth <= s.depth { SuperIsAbove(s, a); }
    } else {
      AboveAbove(s, 0, s.depth - 1);
      KeptIs(s.parent, next);
    }
  }

  lemma {:induction false} BaseIs(s: StateInstance, previous: StateInstance, first: bool)
    requires s.Rooted() && previous.Rooted() && SameTree(s, previous)
    ensures var b := Base(s, previous, first);
            && s.IsChild(b) && previous.IsChild(b) && (first ==> b != s || b.parent == null)
            && forall a :: (s.IsChild(a) && previous.IsChild(a) && (first ==> a != s)) ==> a.depth <= b.depth
    decreases s.depth
  {
    if s.parent == null {
      AboveIsSuper(previous, 0);
      forall a | s.IsChild(a) ensures a.depth <= s.depth { SuperIsAbove(s, a); }
    } else if !(first || !previous.IsChild(s)) {
      forall a | s.IsChild(a) ensures a.depth <= s.depth { SuperIsAbove(s, a); }
    } else {
      AboveAbove(s, 0, s.depth - 1);
      BaseIs(s.parent, previous, false);
      DeeperThanParent(s, Base(s.parent, previous, false));
    }
  }

  lemma DeeperThanParent(s: StateInstance, b: StateInstance)
    requires s.Rooted() && s.parent != null && s.parent.IsChild(b)
    ensures b != s
  {
    SuperIsAbove(s.parent, b);
  }

  /** Entering starts exactly where leaving stopped, although the two are found from opposite ends. */
  lemma LeaveMeetsEnter(previous: StateInstance, next: StateInstance)
    requires previous.Rooted() && next.Rooted() && SameTree(previous, next)
    ensures Kept(previous, next) == Base(next, previous, true)
  {
    var k, b := Kept(previous, next), Base(next, previous, true);
    KeptIs(previous, next);
    BaseIs(next, previous, true);
    SuperIsAbove(next, k);
    SuperIsAbove(next, b);
    if next.parent == null {
      SuperIsAbove(previous, k);
    }
  }

  /** No state is on the path of its superstate. */
  lemma NotOwnSuper(s: StateInstance)
    requires s.Rooted() && s.parent != null
    ensures s !in s.parent.Path()
  {
    var p := s.parent.Path();
    forall d | 0 <= d < |p| ensures p[d] != s { PathAt(s.parent, d); }
  }

  /** Leaving the path at depth d and coming to it again is one state more. */
  lemma PathBeyond(s: StateInstance, d: nat)
    requires s.Rooted() && s.parent != null && d < s.depth
    ensures s.Path()[d..] == s.parent.Path()[d..] + [s]
  {
  }

  // ----- histories -----

  /** Whether some superstate keeps a history; only then is history information passed on upwards. */
  predicate HistoryAbove(s: StateInstance)
    requires s.Rooted()
    decreases s.depth
  {
    s.parent != null && (s.parent.strategy != NoHistory || HistoryAbove(s.parent))
  }

  lemma {:induction false} NoneAbove(s: StateInstance, a: StateInstance)
    requires s.Rooted() && !HistoryAbove(s) && s.IsChild(a) && a != s
    ensures a.strategy == NoHistory
    decreases s.depth
  {
    if s.parent != a { NoneAbove(s.parent, a); }
  }

  /** What a state remembers once s and, in it, the state deep have been the current ones. */
  function Remembered(a: StateInstance, s: StateInstance, deep: StateInstance, was: StateInstance?): StateInstance?
    requires s.Rooted()
  {
    if a == s || !s.IsChild(a) || a.strategy == NoHistory then was
    else if a.strategy == Deep then deep
    else SubstateToward(a, s)
  }

  /** The direct substate of a that s is in. */
  function SubstateToward(a: StateInstance, s: StateInstance): (c: StateInstance)
    requires s.Rooted() && s.IsChild(a) && a != s
    ensures c.parent == a && s.IsChild(c)
    decreases s.depth
  {
    if s.parent == a then s else SubstateToward(a, s.parent)
  }

  /** What a state remembers of s it also remembers of the superstate of s, unless that is the state itself. */
  lemma RememberedUp(a: StateInstance, s: StateInstance, deep: StateInstance, was: StateInstance?)
    requires s.Rooted() && s.parent != null
    ensures a != s.parent ==> Remembered(a, s, deep, was) == Remembered(a, s.parent, deep, was)
    ensures a == s.parent ==>
              Remembered(a, s, deep, was) == match a.strategy case NoHistory => was case Shallow => s case Deep => deep
    ensures a == s.parent ==> Remembered(a, s.parent, deep, was) == was
  {
    if a == s.parent {
      assert s.parent.IsChild(a) && s.IsChild(a) && a != s;
    } else if s == a && s.parent.IsChild(s) {
      DeeperThanParent(s, s);
    }
  }
}
