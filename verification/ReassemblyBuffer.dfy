/** Putting a fragmented datagram together again (ReassemblyBuffer.h, ReassemblyBuffer.cc). */
module Reassembly {
  import opened Options

  /** An unsigned 16-bit offset. */
  type Offset = x: int | 0 <= x < 0x1_0000

  /** The bytes from beg up to but not including end; islast if they end the datagram. */
  datatype Region = Region(beg: Offset, end: Offset, islast: bool)

  predicate Has(f: Region, x: int) { f.beg <= x < f.end }

  predicate Disjoint(f: Region, g: Region) { f.end <= g.beg || g.end <= f.beg || f.beg == f.end || g.beg == g.end }

  /** Fragments are ranges; they may overlap. */
  predicate Forward(r: seq<Region>) { forall f :: f in r ==> f.beg <= f.end }

  /** What fragments of one datagram look like: equal or without common bytes, and none beyond the last. */
  predicate OneDatagram(r: seq<Region>) {
    && Forward(r)
    && (forall f, g :: f in r && g in r ==> f == g || Disjoint(f, g))
    && (forall f, g :: f in r && g in r && f.islast ==> g.end <= f.end)
  }

  ghost predicate Covered(r: seq<Region>, x: int) { exists f :: f in r && Has(f, x) }

  /** All bytes before n have arrived. */
  ghost predicate PrefixHere(r: seq<Region>, n: int) { forall x :: 0 <= x < n ==> Covered(r, x) }

  /** The last fragment has arrived, and all bytes before its end. */
  ghost predicate Complete(r: seq<Region>) { exists f :: f in r && f.islast && PrefixHere(r, f.end) }

  /** The fragments of s are among those of r, in any order and any number. */
  predicate From(s: seq<Region>, r: seq<Region>) { forall f :: f in s ==> f in r }

  // ----- what the buffer computes -----

  /** The bytes joined so far, and the fragments set aside. */
  datatype Buffer = Buffer(main: Region, aside: seq<Region>)

  function Joined(m: Region, f: Region): Region { Region(m.beg, f.end, m.islast || f.islast) }

  /**
   * The passes over what was set aside, from the fragment at i on; another pass follows if this one joined something.
   */
  function Merged(m: Region, frags: seq<Region>, i: nat, again: bool): Buffer
    requires i <= |frags|
    decreases |frags|, again, |frags| - i
  {
    if i == |frags| then if again then Merged(m, frags, 0, false) else Buffer(m, frags)
    else
      var f, rest := frags[i], frags[..i] + frags[i + 1..];
      if m.end == f.beg then Merged(Joined(m, f), rest, i, true)
      else if m.beg == f.end then Merged(m.(beg := f.beg), rest, i, true)
      else if m.beg <= f.beg && f.end <= m.end then Merged(m, rest, i, true)
      else Merged(m, frags, i + 1, again)
  }

  /** The buffer after one more fragment. */
  function Added(b: Buffer, f: Region): Buffer {
    if b.main.end == f.beg then Merged(Joined(b.main, f), b.aside, 0, false)
    else if b.main.beg == f.end then Merged(b.main.(beg := f.beg), b.aside, 0, false)
    else if b.main.end < f.beg || b.main.beg > f.end then Buffer(b.main, b.aside + [f])
    else b
  }

  /** The buffer after the fragments in that order. */
  function Run(s: seq<Region>): Buffer {
    if s == [] then Buffer(Region(0, 0, false), []) else Added(Run(s[..|s| - 1]), s[|s| - 1])
  }

  /** What addFragment returns for the last of them. */
  predicate Answer(s: seq<Region>) { Run(s).main.beg == 0 && Run(s).main.islast }

  /** The main region is all that has arrived from the beginning without a gap. */
  ghost predicate Longest(s: seq<Region>) {
    Run(s).main.beg == 0 && PrefixHere(s, Run(s).main.end) && !Covered(s, Run(s).main.end)
  }

  // ----- chains -----

  /** Each fragment begins where the one before ends, the first at 0. */
  predicate Chain(c: seq<Region>, e: int) {
    if c == [] then e == 0 else c[|c| - 1].end == e && Chain(c[..|c| - 1], c[|c| - 1].beg)
  }

  predicate HasLast(c: seq<Region>) { exists f :: f in c && f.islast }

  /** A chain of these fragments ends at e. */
  ghost predicate ChainEnd(r: seq<Region>, e: int) { exists c :: Chain(c, e) && From(c, r) }

  /** A chain of these fragments, none of them the last of the datagram, ends at e. */
  ghost predicate OpenEnd(r: seq<Region>, e: int) { exists c :: Chain(c, e) && From(c, r) && !HasLast(c) }

  /** The fragment has bytes on both sides of the offset. */
  predicate Straddles(f: Region, x: int) { f.beg < x < f.end }

  /** A chain ending at e would go on with the fragment. */
  predicate GoesOn(f: Region, e: int) { f.beg == e && (f.islast || f.beg < f.end) }

  /** The datagram can be had without the fragments that would go on at e. */
  ghost predicate CompleteBut(r: seq<Region>, e: int) {
    exists l :: l in r && l.islast && !GoesOn(l, e) && PrefixBut(r, e, l.end)
  }

  ghost predicate PrefixBut(r: seq<Region>, e: int, n: int) { forall x :: 0 <= x < n ==> CoveredBut(r, e, x) }

  ghost predicate CoveredBut(r: seq<Region>, e: int, x: int) { exists f :: f in r && Has(f, x) && !GoesOn(f, e) }

  /** No fragment straddles the end of a chain. */
  ghost predicate ChainsMeet(r: seq<Region>) {
    forall f, e :: f in r && ChainEnd(r, e) ==> !Straddles(f, e)
  }

  /** No open chain can be left behind by a datagram that is complete without what would carry it on. */
  ghost predicate NoneStalls(r: seq<Region>) {
    forall e :: OpenEnd(r, e) ==> !CompleteBut(r, e)
  }

  lemma {:induction false} ChainCovers(c: seq<Region>, e: int, x: int) returns (f: Region)
    requires Chain(c, e) && Forward(c) && 0 <= x < e
    ensures f in c && Has(f, x) && f.end <= e
    decreases c
  {
    var last := c[|c| - 1];
    assert last in c;
    if x < last.beg {
      f := ChainCovers(c[..|c| - 1], last.beg, x);
    } else {
      f := last;
    }
  }

  lemma {:induction false} ChainBound(c: seq<Region>, e: int)
    requires Chain(c, e) && Forward(c)
    ensures e >= 0 && forall f :: f in c ==> f.end <= e
    decreases c
  {
    if c != [] {
      assert c[|c| - 1] in c;
      ChainBound(c[..|c| - 1], c[|c| - 1].beg);
    }
  }

  lemma ChainMore(c: seq<Region>, f: Region)
    requires Chain(c, f.beg)
    ensures Chain(c + [f], f.end) && (HasLast(c + [f]) <==> HasLast(c) || f.islast)
  {
    assert (c + [f])[..|c|] == c;
    if HasLast(c) { var g :| g in c && g.islast; assert g in c + [f]; }
  }

  // ----- every run -----

  /** The fragment was joined to the main region, or came when the region reached beyond its beginning. */
  predicate Settled(main: Region, f: Region) {
    f.beg < main.end || (f.end <= main.end && (f.islast ==> main.islast))
  }

  /** The main region is a chain of fragments that have arrived. */
  ghost predicate Built(main: Region, r: seq<Region>) {
    main.beg == 0 && exists c :: Chain(c, main.end) && From(c, r) && (main.islast <==> HasLast(c))
  }

  /** A fragment that is neither in the chain nor passed over is set aside. */
  ghost predicate Holds(main: Region, aside: seq<Region>, r: seq<Region>) {
    Built(main, r) && From(aside, r) && forall f :: f in r ==> f in aside || Settled(main, f)
  }

  /** Nothing set aside begins where the main region ends or lies in it. */
  predicate Apart(main: Region, aside: seq<Region>) {
    forall f :: f in aside ==> main.end < f.beg || Straddles(f, main.end)
  }

  /** The main region takes a fragment that follows it. */
  lemma Extended(main: Region, aside: seq<Region>, r: seq<Region>, f: Region, rest: seq<Region>)
    requires Holds(main, aside, r) && Forward(r) && f in r && f.beg == main.end
    requires From(rest, aside) && forall g :: g in aside ==> g in rest || g == f
    ensures Holds(Joined(main, f), rest, r)
  {
    var c :| Chain(c, main.end) && From(c, r) && (main.islast <==> HasLast(c));
    ChainMore(c, f);
    assert From(c + [f], r);
  }

  /** A fragment that begins inside the main region can be dropped. */
  lemma Dropped(main: Region, aside: seq<Region>, r: seq<Region>, f: Region, rest: seq<Region>)
    requires Holds(main, aside, r) && f in r && f.beg < main.end
    requires From(rest, aside) && forall g :: g in aside ==> g in rest || g == f
    ensures Holds(main, rest, r)
  {
  }

  /** A new fragment, not yet looked at. */
  lemma Arrived(main: Region, aside: seq<Region>, r: seq<Region>, f: Region)
    requires Holds(main, aside, r)
    ensures Holds(main, aside + [f], r + [f])
  {
    var c :| Chain(c, main.end) && From(c, r) && (main.islast <==> HasLast(c));
    assert From(c, r + [f]);
  }

  /** The passes keep the state, and leave nothing that could be joined or dropped. */
  lemma {:induction false} MergedHolds(m: Region, frags: seq<Region>, i: nat, again: bool, r: seq<Region>)
    requires i <= |frags| && Holds(m, frags, r) && Forward(r) && (!again ==> Apart(m, frags[..i]))
    ensures var b := Merged(m, frags, i, again); Holds(b.main, b.aside, r) && Apart(b.main, b.aside)
    decreases |frags|, again, |frags| - i
  {
    hide Holds, Chain;
    if i == |frags| {
      assert frags[..i] == frags;
      if again { MergedHolds(m, frags, 0, false, r); }
    } else {
      var f, rest := frags[i], frags[..i] + frags[i + 1..];
      AsideKnown(m, frags, r, f);
      assert forall g :: g in frags ==> g in rest || g == f;
      if m.end == f.beg {
        Extended(m, frags, r, f, rest);
        MergedHolds(Joined(m, f), rest, i, true, r);
      } else if m.beg == f.end || (m.beg <= f.beg && f.end <= m.end) {
        Dropped(m, frags, r, f, rest);
        MergedHolds(m, rest, i, true, r);
      } else {
        assert frags[..i + 1] == frags[..i] + [f];
        MergedHolds(m, frags, i + 1, again, r);
      }
    }
  }

  lemma AsideKnown(m: Region, aside: seq<Region>, r: seq<Region>, f: Region)
    requires Holds(m, aside, r) && Forward(r) && f in aside
    ensures f in r && m.beg == 0 <= m.end && f.beg <= f.end
  {
  }

  /** With nothing to join or drop the passes change nothing. */
  lemma {:induction false} MergedIdle(m: Region, frags: seq<Region>, i: nat)
    requires i <= |frags| && m.beg == 0 && Forward(frags) && Apart(m, frags)
    ensures Merged(m, frags, i, false) == Buffer(m, frags)
    decreases |frags| - i
  {
    if i < |frags| {
      assert frags[i] in frags;
      MergedIdle(m, frags, i + 1);
    }
  }

  lemma AddedHolds(b: Buffer, r: seq<Region>, f: Region)
    requires Holds(b.main, b.aside, r) && Apart(b.main, b.aside) && Forward(r + [f])
    ensures Holds(Added(b, f).main, Added(b, f).aside, r + [f]) && Apart(Added(b, f).main, Added(b, f).aside)
  {
    hide Holds, Merged;
    var s := r + [f];
    assert f in s && f.beg <= f.end;
    Arrived(b.main, b.aside, r, f);
    AsideKnown(b.main, b.aside + [f], s, f);
    if b.main.end == f.beg {
      Extended(b.main, b.aside + [f], s, f, b.aside);
      MergedHolds(Joined(b.main, f), b.aside, 0, false, s);
    } else if f.beg < b.main.end {
      Dropped(b.main, b.aside + [f], s, f, b.aside);
      if b.main.beg == f.end { MergedHolds(b.main, b.aside, 0, false, s); }
    }
  }

  /** Every run: the main region is a chain, and what is set aside lies beyond its end or straddles it. */
  lemma {:induction false} RunHolds(s: seq<Region>)
    requires Forward(s)
    ensures Holds(Run(s).main, Run(s).aside, s) && Apart(Run(s).main, Run(s).aside)
    decreases s
  {
    if s == [] {
      assert Chain([], 0) && From([], s);
    } else {
      var was := s[..|s| - 1];
      assert s == was + [s[|s| - 1]];
      RunHolds(was);
      AddedHolds(Run(was), was, s[|s| - 1]);
    }
  }

  /** Whatever arrives, the main region has arrived; what has arrived at its end straddles it. */
  lemma MainArrived(s: seq<Region>)
    requires Forward(s)
    ensures Run(s).main.beg == 0 && PrefixHere(s, Run(s).main.end) && ChainEnd(s, Run(s).main.end)
    ensures Covered(s, Run(s).main.end) <==> exists f :: f in s && Straddles(f, Run(s).main.end)
  {
    RunHolds(s);
    var e := Run(s).main.end;
    var c :| Chain(c, e) && From(c, s) && (Run(s).main.islast <==> HasLast(c));
    forall x | 0 <= x < e ensures Covered(s, x) {
      var f := ChainCovers(c, e, x);
    }
    forall f | f in s ensures Has(f, e) <==> Straddles(f, e) {
      assert f in Run(s).aside || Settled(Run(s).main, f);
    }
  }

  /** Whatever arrives, the answer is never wrongly yes. */
  lemma LastIsSound(s: seq<Region>)
    requires Forward(s) && Answer(s)
    ensures Complete(s)
  {
    RunHolds(s);
    MainArrived(s);
    var e := Run(s).main.end;
    var c :| Chain(c, e) && From(c, s) && (Run(s).main.islast <==> HasLast(c));
    var f: Region :| f in c && f.islast;
    ChainBound(c, e);
    assert PrefixHere(s, f.end);
  }

  /** Where the answer is wrongly no, an open chain was left behind. */
  lemma MissingIsStalled(s: seq<Region>, r: seq<Region>)
    requires Forward(r) && From(s, r) && Complete(s) && !Answer(s)
    ensures OpenEnd(r, Run(s).main.end) && CompleteBut(r, Run(s).main.end)
    ensures var e := Run(s).main.end;
            exists f :: f in s && (Straddles(f, e) || (f.islast && f.beg < e && f.end <= e))
  {
    RunHolds(s);
    var main, aside := Run(s).main, Run(s).aside;
    var c :| Chain(c, main.end) && From(c, s) && (main.islast <==> HasLast(c));
    forall f | f in s ensures !GoesOn(f, main.end) { assert f in aside || Settled(main, f); }
    var l :| l in s && l.islast && PrefixHere(s, l.end);
    if main.end < l.end {
      MainArrived(s);
      assert Covered(s, main.end);
    } else {
      assert l in aside || Settled(main, l);
    }
    forall x | 0 <= x < l.end ensures CoveredBut(r, main.end, x) {
      assert Covered(s, x);
      var f :| f in s && Has(f, x);
    }
  }

  // ----- the runs that go wrong -----

  /** A chain that arrives in its order is joined as it comes. */
  lemma {:induction false} ChainRun(c: seq<Region>, e: int)
    requires Chain(c, e)
    ensures Run(c).main.beg == 0 && Run(c).main.end == e && (Run(c).main.islast <==> HasLast(c)) && Run(c).aside == []
    decreases c
  {
    if c != [] {
      var was, f := c[..|c| - 1], c[|c| - 1];
      ChainRun(was, f.beg);
      ChainMore(was, f);
      assert c == was + [f];
    }
  }

  /** A fragment that does not carry on where the main region ends leaves it there. */
  lemma PassedOver(b: Buffer, f: Region)
    requires b.main.beg == 0 && Forward(b.aside + [f]) && Apart(b.main, b.aside) && !GoesOn(f, b.main.end)
    ensures Added(b, f).main == b.main && Apart(b.main, Added(b, f).aside) && Forward(Added(b, f).aside)
  {
    hide Merged;
    assert f in b.aside + [f];
    forall g | g in b.aside ensures g.beg <= g.end { assert g in b.aside + [f]; }
    MergedIdle(b.main, b.aside, 0);
  }

  lemma {:induction false} AllPassedOver(s: seq<Region>, t: seq<Region>)
    requires Forward(t) && Run(s).main.beg == 0 && Forward(Run(s).aside) && Apart(Run(s).main, Run(s).aside)
    requires forall f :: f in t ==> !GoesOn(f, Run(s).main.end)
    ensures Run(s + t).main == Run(s).main
    ensures Forward(Run(s + t).aside) && Apart(Run(s + t).main, Run(s + t).aside)
    decreases t
  {
    if t == [] {
      assert s + t == s;
    } else {
      var was, f := t[..|t| - 1], t[|t| - 1];
      AllPassedOver(s, was);
      assert f in t && s + t == (s + was) + [f] && (s + t)[..|s + t| - 1] == s + was;
      PassedOver(Run(s + was), f);
    }
  }

  /** The fragments that would not go on at e. */
  function Others(r: seq<Region>, e: int): (s: seq<Region>)
    ensures forall f :: f in s <==> f in r && !GoesOn(f, e)
  {
    if r == [] then [] else if GoesOn(r[0], e) then Others(r[1..], e) else [r[0]] + Others(r[1..], e)
  }

  lemma StraddlerLost(c: seq<Region>, e: int, f: Region)
    requires Chain(c, e) && Straddles(f, e) && e >= 0
    ensures Run(c + [f]) == Run(c) && Covered(c + [f], Run(c + [f]).main.end)
  {
    ChainRun(c, e);
    assert (c + [f])[..|c|] == c && (c + [f])[|c|] == f && Has(f, e);
  }

  lemma StalledRun(r: seq<Region>, c: seq<Region>, e: int)
    requires Forward(r) && Chain(c, e) && From(c, r) && !HasLast(c) && CompleteBut(r, e)
    ensures From(c + Others(r, e), r) && Complete(c + Others(r, e)) && !Answer(c + Others(r, e))
  {
    var t := Others(r, e);
    var s := c + t;
    ChainRun(c, e);
    AllPassedOver(c, t);
    var l :| l in r && l.islast && !GoesOn(l, e) && PrefixBut(r, e, l.end);
    assert l in t && l in s;
    forall x | 0 <= x < l.end ensures Covered(s, x) {
      assert CoveredBut(r, e, x);
      var f :| f in r && Has(f, x) && !GoesOn(f, e);
      assert f in t && f in s;
    }
  }

  /**
   * Exactly when the main region is the longest prefix, however these fragments arrive: no fragment may straddle the
   * end of a chain of them.
   */
  lemma PrefixExactly(r: seq<Region>)
    requires Forward(r)
    ensures (forall s :: From(s, r) ==> Longest(s)) <==> ChainsMeet(r)
  {
    hide Run, Chain, Straddles;
    if ChainsMeet(r) {
      forall s | From(s, r) ensures Longest(s) {
        MainArrived(s);
        if Covered(s, Run(s).main.end) { StraddlerArrived(s, r); }
      }
    } else {
      var f, e :| f in r && ChainEnd(r, e) && Straddles(f, e);
      var c :| Chain(c, e) && From(c, r);
      ChainBound(c, e);
      StraddlerLost(c, e, f);
      assert From(c + [f], r) && !Longest(c + [f]);
    }
  }

  lemma StraddlerArrived(s: seq<Region>, r: seq<Region>)
    requires Forward(r) && From(s, r) && Covered(s, Run(s).main.end)
    ensures !ChainsMeet(r)
  {
    MainArrived(s);
    var e := Run(s).main.end;
    var f :| f in s && Straddles(f, e);
    var c :| Chain(c, e) && From(c, s);
    assert From(c, r);
  }

  /**
   * Exactly when the answer is right, however these fragments arrive: no chain without the last one may end where the
   * datagram could be complete without what would carry it on.
   */
  lemma AnswerExactly(r: seq<Region>)
    requires Forward(r)
    ensures (forall s :: From(s, r) ==> (Answer(s) <==> Complete(s))) <==> NoneStalls(r)
  {
    hide Run, Chain, Complete, CompleteBut, Answer;
    if NoneStalls(r) {
      forall s | From(s, r) ensures Answer(s) <==> Complete(s) {
        if Answer(s) { LastIsSound(s); }
        if Complete(s) && !Answer(s) { MissingIsStalled(s, r); }
      }
    } else {
      var e :| OpenEnd(r, e) && CompleteBut(r, e);
      var c :| Chain(c, e) && From(c, r) && !HasLast(c);
      StalledRun(r, c, e);
    }
  }

  // ----- fragments of one datagram -----

  /** A fragment that starts before the end of a chain lies before it. */
  lemma InsideIsThere(r: seq<Region>, c: seq<Region>, e: int, f: Region)
    requires OneDatagram(r) && Chain(c, e) && From(c, r) && f in r && f.beg < e
    ensures f.end <= e && (f.beg < f.end ==> f in c)
  {
    if f.beg < f.end {
      var g := ChainCovers(c, e, f.beg);
      assert f == g || Disjoint(f, g);
    }
  }

  lemma DatagramMeets(r: seq<Region>)
    requires OneDatagram(r)
    ensures ChainsMeet(r)
  {
    forall f, e | f in r && ChainEnd(r, e) ensures !Straddles(f, e) {
      var c :| Chain(c, e) && From(c, r);
      if Straddles(f, e) { InsideIsThere(r, c, e, f); }
    }
  }

  lemma DatagramGoesOn(r: seq<Region>)
    requires OneDatagram(r)
    ensures NoneStalls(r)
  {
    forall e | OpenEnd(r, e) ensures !CompleteBut(r, e) {
      var c :| Chain(c, e) && From(c, r) && !HasLast(c);
      if CompleteBut(r, e) {
        var l :| l in r && l.islast && !GoesOn(l, e) && PrefixBut(r, e, l.end);
        ChainBound(c, e);
        if l.beg < e {
          InsideIsThere(r, c, e, l);
          assert l.beg == l.end;
          LastAtEnd(r, c, e, l);
        } else if e < l.end {
          assert CoveredBut(r, e, e);
          var f :| f in r && Has(f, e) && !GoesOn(f, e);
          InsideIsThere(r, c, e, f);
        }
      }
    }
  }

  /** The last fragment ends no chain before its end. */
  lemma LastAtEnd(r: seq<Region>, c: seq<Region>, e: int, l: Region)
    requires OneDatagram(r) && Chain(c, e) && From(c, r) && l in r && l.islast
    ensures e <= l.end
  {
    if c != [] { assert c[|c| - 1] in c; }
  }

  /** Of one datagram, the main region is the longest prefix that has arrived. */
  lemma MainIsPrefix(s: seq<Region>)
    requires OneDatagram(s)
    ensures Longest(s)
  {
    hide Longest, ChainsMeet;
    DatagramMeets(s);
    PrefixExactly(s);
    assert From(s, s);
  }

  /** Of one datagram, the answer says exactly whether it is complete; then nothing lies beyond the main region. */
  lemma LastIsComplete(s: seq<Region>)
    requires OneDatagram(s)
    ensures Answer(s) <==> Complete(s)
    ensures Answer(s) ==> forall f :: f in s ==> f.end <= Run(s).main.end
  {
    DatagramGoesOn(s);
    AnswerExactly(s);
    assert From(s, s);
    if Answer(s) { NothingBeyond(s); }
  }

  lemma NothingBeyond(s: seq<Region>)
    requires OneDatagram(s) && Answer(s)
    ensures forall f :: f in s ==> f.end <= Run(s).main.end
  {
    RunHolds(s);
    var e := Run(s).main.end;
    var c :| Chain(c, e) && From(c, s) && (Run(s).main.islast <==> HasLast(c));
    var l: Region :| l in c && l.islast;
    ChainBound(c, e);
  }

  /** The order of arrival and repetitions do not matter: only which fragments have arrived does. */
  lemma OrderIrrelevant(r: seq<Region>, r': seq<Region>)
    requires forall f :: f in r <==> f in r'
    ensures Complete(r) == Complete(r') && forall n :: PrefixHere(r, n) == PrefixHere(r', n)
  {
    forall x ensures Covered(r, x) == Covered(r', x) { }
  }

  /** Overlapping bytes can be lost: the datagram has arrived completely, and the buffer does not say so. */
  lemma OverlapIsLost()
    ensures var s := [Region(0, 10, false), Region(5, 20, true)]; Complete(s) && !Answer(s) && !Longest(s)
  {
    var f, g := Region(0, 10, false), Region(5, 20, true);
    var s := [f] + [g];
    assert s == [Region(0, 10, false), Region(5, 20, true)];
    assert [f][..0] == [] && Chain([f], 10);
    StraddlerLost([f], 10, g);
    ChainRun([f], 10);
    assert f in s && g in s;
    forall x | 0 <= x < 20 ensures Covered(s, x) {
      if x < 10 { assert Has(f, x); } else { assert Has(g, x); }
    }
    assert PrefixHere(s, g.end);
  }

  class ReassemblyBuffer {
    var main: Region
    var fragments: Option<seq<Region>>
    /** What has been added so far. */
    ghost var received: seq<Region>

    ghost function Aside(): seq<Region>
      reads this
    {
      if fragments.None? then [] else fragments.value
    }

    ghost predicate Valid()
      reads this
    {
      Buffer(main, Aside()) == Run(received)
    }

    constructor ()
      ensures Valid() && received == [] && main == Region(0, 0, false)
    {
      main := Region(0, 0, false);
      fragments := None;
      received := [];
    }

    /**
     * Whether the datagram is complete with this fragment. The answer yes is always right, and the main region has
     * arrived. ChainsMeet and NoneStalls say exactly for which fragments the region is always the longest prefix, and
     * the answer no always right.
     */
    method AddFragment(beg: Offset, end: Offset, islast: bool) returns (done: bool)
      requires Valid()
      modifies this
      ensures Valid() && received == old(received) + [Region(beg, end, islast)]
      ensures done <==> main.beg == 0 && main.islast
      ensures Forward(received) ==> main.beg == 0 && PrefixHere(received, main.end) && (done ==> Complete(received))
      ensures Forward(received) ==>
                (Covered(received, main.end) <==> exists f :: f in received && Straddles(f, main.end))
      ensures Forward(received) && Complete(received) && !done ==>
                OpenEnd(received, main.end) && CompleteBut(received, main.end)
      ensures Forward(received) && ChainsMeet(received) ==> !Covered(received, main.end)
      ensures Forward(received) && NoneStalls(received) ==> (done <==> Complete(received))
      ensures Forward(received) && beg < old(main.end) && 0 < end ==> main == old(main) && fragments == old(fragments)
      ensures OneDatagram(received) ==> !Covered(received, main.end) && (done <==> Complete(received))
      ensures OneDatagram(received) && done ==>
                GetTotalLength() == main.end && forall f :: f in received ==> f.end <= main.end
    {
      hide Run, Covered, PrefixHere, Complete, ChainsMeet, NoneStalls, OneDatagram, OpenEnd, CompleteBut, Straddles;
      Merge(beg, end, islast);
      done := main.beg == 0 && main.islast;
      Outcome(received);
    }

    function GetTotalLength(): Offset
      reads this
    {
      main.end
    }

    method Merge(beg: Offset, end: Offset, islast: bool)
      requires Valid()
      modifies this
      ensures Valid() && received == old(received) + [Region(beg, end, islast)]
      ensures Forward(received) && beg < old(main.end) && 0 < end ==> main == old(main) && fragments == old(fragments)
    {
      hide Merged, Forward;
      ghost var f := Region(beg, end, islast);
      if Forward(received + [f]) { StartsAtZero(received, f); }
      assert (received + [f])[..|received|] == received;
      received := received + [f];
      if fragments.None? { NothingAside(main, f); }
      if main.end == beg {
        main := main.(end := end);
        if islast { main := main.(islast := true); }
        if fragments.Some? { MergeFragments(); }
      } else if main.beg == end {
        main := main.(beg := beg);
        if fragments.Some? { MergeFragments(); }
      } else if main.end < beg || main.beg > end {
        if fragments.None? { fragments := Some([]); }
        fragments := Some(fragments.value + [Region(beg, end, islast)]);
      }
    }

    lemma StartsAtZero(s: seq<Region>, f: Region)
      requires Forward(s + [f])
      ensures Run(s).main.beg == 0 && f.beg <= f.end
    {
      assert f in s + [f];
      assert forall g :: g in s ==> g in s + [f];
      RunHolds(s);
    }

    lemma NothingAside(m: Region, f: Region)
      ensures forall m :: Merged(m, [], 0, false) == Buffer(m, [])
    {
    }

    /** Joins what was set aside until a whole pass joins nothing. */
    method MergeFragments()
      requires fragments.Some?
      modifies this`main, this`fragments
      ensures fragments.Some? && Buffer(main, fragments.value) == Merged(old(main), old(fragments.value), 0, false)
    {
      var frags, m := fragments.value, main;
      var oncemore := true;
      while oncemore
        invariant (if oncemore then Merged(m, frags, 0, false) else Buffer(m, frags)) ==
                  Merged(old(main), old(fragments.value), 0, false)
        decreases |frags|, oncemore
      {
        oncemore := false;
        var i := 0;
        ghost var size := |frags|;
        while i < |frags|
          invariant 0 <= i <= |frags| <= size && (oncemore ==> |frags| < size)
          invariant Merged(m, frags, i, oncemore) == Merged(old(main), old(fragments.value), 0, false)
          decreases |frags| - i
        {
          var frag := frags[i];
          var deleteit := false;
          if m.end == frag.beg {
            m := m.(end := frag.end);
            if frag.islast { m := m.(islast := true); }
            deleteit := true;
          } else if m.beg == frag.end {
            m := m.(beg := frag.beg);
            deleteit := true;
          } else if m.beg <= frag.beg && m.end >= frag.end {
            deleteit := true;
          }
          if deleteit {
            frags := frags[..i] + frags[i + 1..];
            oncemore := true;
          } else {
            i := i + 1;
          }
        }
      }
      main, fragments := m, Some(frags);
    }
  }

  /** What one run says of its own fragments. */
  lemma Outcome(s: seq<Region>)
    ensures Answer(s) <==> Run(s).main.beg == 0 && Run(s).main.islast
    ensures Forward(s) ==> Run(s).main.beg == 0 && PrefixHere(s, Run(s).main.end) && (Answer(s) ==> Complete(s))
    ensures Forward(s) ==> (Covered(s, Run(s).main.end) <==> exists f :: f in s && Straddles(f, Run(s).main.end))
    ensures Forward(s) && Complete(s) && !Answer(s) ==> OpenEnd(s, Run(s).main.end) && CompleteBut(s, Run(s).main.end)
    ensures Forward(s) && ChainsMeet(s) ==> !Covered(s, Run(s).main.end)
    ensures Forward(s) && NoneStalls(s) ==> (Answer(s) <==> Complete(s))
    ensures OneDatagram(s) ==> !Covered(s, Run(s).main.end) && (Answer(s) <==> Complete(s))
    ensures OneDatagram(s) && Answer(s) ==> forall f :: f in s ==> f.end <= Run(s).main.end
  {
    hide Run, ChainsMeet, NoneStalls, Complete, PrefixHere, Covered, OpenEnd, CompleteBut, Straddles;
    assert From(s, s);
    if Forward(s) {
      MainArrived(s);
      PrefixExactly(s);
      AnswerExactly(s);
      if Answer(s) { LastIsSound(s); } else if Complete(s) { MissingIsStalled(s, s); }
    }
    if OneDatagram(s) {
      MainIsPrefix(s);
      LastIsComplete(s);
    }
  }
}
