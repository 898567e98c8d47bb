/** The flat endpoint vector of `FetchedRanges` (host/src/db/utils.rs).

    A set of block heights is kept as one vector lo0, hi0, lo1, hi1, ... of interval
    endpoints.  `insert` edits that vector in place with a parity trick.  This module
    says what set a vector stands for, when a vector is canonical, and exactly when the
    edit is the union it is meant to be. */
module Ranges {

  datatype Range = Range(lo: nat, hi: nat)

  /** Vectors between two calls: whole pairs. */
  type Endpoints = e: seq<nat> | |e| % 2 == 0 witness []

  /** One of the ranges of `e` holds `h`; the chunks(2).any(..) of `contains`. */
  predicate Covers(e: seq<nat>, h: nat) {
    |e| >= 2 && (e[0] <= h <= e[1] || Covers(e[2..], h))
  }

  /** Even length, ordered pairs, and a hole between any two neighbours. */
  ghost predicate Canonical(e: seq<nat>) {
    e == [] || (|e| >= 2 && e[0] <= e[1] && (|e| > 2 ==> e[1] + 1 < e[2]) && Canonical(e[2..]))
  }

  /** Like `Canonical`, but neighbours may be adjacent (not overlapping). */
  ghost predicate Loose(e: seq<nat>) {
    e == [] || (|e| >= 2 && e[0] <= e[1] && (|e| > 2 ==> e[1] < e[2]) && Loose(e[2..]))
  }

  /** `t` is the upper end of a stored range. */
  predicate UpperEnd(e: seq<nat>, t: nat) {
    |e| >= 2 && (e[1] == t || UpperEnd(e[2..], t))
  }

  /** The last stored range is the single height `t`. */
  predicate EndsInPoint(e: seq<nat>, t: nat) {
    |e| >= 2 && e[|e| - 2] == e[|e| - 1] == t
  }

  // ----- insert as a function on vectors

  /** The retain call: endpoints inside [from, to] are dropped. */
  function Outside(e: seq<nat>, from: nat, to: nat): seq<nat> {
    if e == [] then []
    else (if e[0] < from || e[0] > to then [e[0]] else []) + Outside(e[1..], from, to)
  }

  /** Position of the first endpoint above `h`. */
  function FindIndex(e: seq<nat>, h: nat): (i: nat)
    ensures i <= |e|
  {
    if e == [] || e[0] > h then 0 else 1 + FindIndex(e[1..], h)
  }

  function InsertAt(e: seq<nat>, i: nat, x: nat): seq<nat>
    requires i <= |e|
  {
    e[..i] + [x] + e[i..]
  }

  /** The new endpoints go in at the index of `from`: `to` unless it was covered, and
      `from` when that index is even. */
  function Splice(kept: seq<nat>, hasTo: bool, from: nat, to: nat): seq<nat> {
    var i := FindIndex(kept, from);
    var withTo := if hasTo then kept else InsertAt(kept, i, to);
    if i % 2 == 0 then InsertAt(withTo, i, from) else withTo
  }

  /** The vector just before `simplify`. */
  function Spliced(e: seq<nat>, from: nat, to: nat): seq<nat> {
    Splice(Outside(e, from, to), Covers(e, to), from, to)
  }

  /** The interior endpoints that survive `simplify`. */
  function Joins(v: seq<nat>): (r: seq<nat>)
    ensures |r| % 2 == 0
  {
    if |v| < 3 then []
    else (if v[1] + 1 == v[2] || v[1] == v[2] then [] else [v[1], v[2]]) + Joins(v[2..])
  }

  function Simplified(v: seq<nat>): (r: Endpoints) {
    if v == [] then [] else [v[0]] + Joins(v) + [v[|v| - 1]]
  }

  function Inserted(e: seq<nat>, from: nat, to: nat): Endpoints {
    if e == [] then [from, to] else Simplified(Spliced(e, from, to))
  }

  function First(e: Endpoints): nat {
    if e == [] then 1 else e[1] + 1
  }

  // ----- facts about canonical vectors

  lemma {:induction false} CoversFromFirst(e: seq<nat>, h: nat)
    requires Canonical(e)
    ensures Covers(e, h) ==> e[0] <= h && (h <= e[1] || (|e| > 2 && e[1] + 1 < e[2] <= h))
  {
    if |e| > 2 {
      CoversFromFirst(e[2..], h);
      assert e[2..][0] == e[2];
    } else if e != [] {
      assert !Covers(e[2..], h);
    }
  }

  lemma {:induction false} UpperEndCovers(e: seq<nat>, t: nat)
    requires Canonical(e) && UpperEnd(e, t)
    ensures Covers(e, t) && !Covers(e, t + 1) && e[0] <= t
  {
    CoversFromFirst(e[2..], t + 1);
    if e[1] != t {
      UpperEndCovers(e[2..], t);
    }
  }

  lemma SameFirstHi(a: seq<nat>, b: seq<nat>)
    requires Canonical(a) && Canonical(b) && a != [] && b != [] && a[0] == b[0]
    requires forall h :: Covers(a, h) <==> Covers(b, h)
    ensures b[1] <= a[1]
  {
    if a[1] < b[1] {
      assert Covers(b, a[1] + 1);
      CoversFromFirst(a, a[1] + 1);
    }
  }

  /** By position: some pair of the vector encloses the height. */
  lemma {:induction false} CoversIff(e: seq<nat>, h: nat)
    ensures Covers(e, h) <==> exists k :: 0 <= k < |e| - 1 && k % 2 == 0 && e[k] <= h <= e[k + 1]
  {
    if |e| >= 2 {
      CoversIff(e[2..], h);
      if k :| 0 <= k < |e| - 1 && k % 2 == 0 && e[k] <= h <= e[k + 1] {
        if k > 0 { assert e[2..][k - 2] == e[k] && e[2..][k - 1] == e[k + 1]; }
      }
      if k :| 0 <= k < |e[2..]| - 1 && k % 2 == 0 && e[2..][k] <= h <= e[2..][k + 1] {
        assert e[k + 2] <= h <= e[k + 3];
      }
    }
  }

  /** A canonical vector is determined by the set it stands for. */
  lemma {:induction false} CanonicalUnique(a: seq<nat>, b: seq<nat>)
    requires Canonical(a) && Canonical(b)
    requires forall h :: Covers(a, h) <==> Covers(b, h)
    ensures a == b
  {
    if a == [] || b == [] {
      if a != [] { assert Covers(a, a[0]); }
      if b != [] { assert Covers(b, b[0]); }
    } else {
      assert Covers(a, a[0]) && Covers(b, b[0]);
      CoversFromFirst(a, b[0]);
      CoversFromFirst(b, a[0]);
      SameFirstHi(a, b);
      SameFirstHi(b, a);
      forall h
        ensures Covers(a[2..], h) <==> Covers(b[2..], h)
      {
        assert Covers(a, h) <==> Covers(b, h);
        CoversFromFirst(a[2..], h);
        CoversFromFirst(b[2..], h);
      }
      CanonicalUnique(a[2..], b[2..]);
      assert a == a[..2] + a[2..] && b == b[..2] + b[2..];
    }
  }

  // ----- simplify

  lemma {:induction false} JoinsCons(a: nat, b: nat, w: seq<nat>)
    requires w != []
    ensures Joins([a, b] + w) == (if b + 1 == w[0] || b == w[0] then [] else [b, w[0]]) + Joins(w)
  {
    assert ([a, b] + w)[2..] == w;
  }

  lemma {:induction false} SimplifiedCons(a: nat, b: nat, w: seq<nat>)
    requires w != [] && a <= b < w[0]
    ensures Simplified([a, b] + w)
         == (if b + 1 == w[0] then [a] + Simplified(w)[1..] else [a, b] + Simplified(w))
  {
    var v := [a, b] + w;
    JoinsCons(a, b, w);
    var sw := [w[0]] + Joins(w) + [w[|w| - 1]];
    assert Simplified(w) == sw;
    assert Simplified(v) == [a] + Joins(v) + [w[|w| - 1]];
    if b + 1 == w[0] {
      assert [a] + Joins(v) + [w[|w| - 1]] == [a] + sw[1..];
    } else {
      assert [a] + Joins(v) + [w[|w| - 1]] == [a, b] + sw;
    }
  }

  lemma {:induction false} SimplifiedConsCovers(a: nat, b: nat, w: seq<nat>, h: nat)
    requires w != [] && a <= b < w[0] && w[0] <= Simplified(w)[1]
    ensures Covers(Simplified([a, b] + w), h) <==> a <= h <= b || Covers(Simplified(w), h)
  {
    SimplifiedCons(a, b, w);
    var s, sw := Simplified([a, b] + w), Simplified(w);
    if b + 1 == w[0] {
      assert s[2..] == sw[2..];
    } else {
      assert s[2..] == sw;
    }
  }

  lemma {:induction false} SimplifiedLoose(v: seq<nat>)
    requires Loose(v) && v != []
    ensures var s := Simplified(v);
      && Canonical(s) && s != [] && s[0] == v[0] && s[1] >= v[1]
      && forall h :: Covers(s, h) <==> Covers(v, h)
  {
    if |v| == 2 {
      assert Simplified(v) == v;
    } else {
      var w := v[2..];
      SimplifiedLoose(w);
      assert v == [v[0], v[1]] + w;
      forall h
        ensures Covers(Simplified(v), h) <==> Covers(v, h)
      {
        SimplifiedConsCovers(v[0], v[1], w, h);
      }
      SimplifiedCons(v[0], v[1], w);
      var s := Simplified(v);
      assert s[2..] == (if v[1] + 1 == w[0] then Simplified(w)[2..] else Simplified(w));
    }
  }

  // ----- the splice

  lemma OutsideTail(e: seq<nat>, from: nat, to: nat)
    requires |e| >= 2
    ensures Outside(e, from, to)
         == (if e[0] < from || e[0] > to then [e[0]] else [])
          + (if e[1] < from || e[1] > to then [e[1]] else []) + Outside(e[2..], from, to)
  {
    assert e[1..][1..] == e[2..];
    assert Outside(e[1..], from, to) == (if e[1] < from || e[1] > to then [e[1]] else []) + Outside(e[2..], from, to);
  }

  lemma OutsideAllAbove(e: seq<nat>, from: nat, to: nat)
    requires Canonical(e) && (e == [] || to < e[0])
    ensures Outside(e, from, to) == e
  {
    if e != [] {
      OutsideTail(e, from, to);
      OutsideAllAbove(e[2..], from, to);
      assert e == [e[0], e[1]] + e[2..];
    }
  }

  /** `a` is what the vector has above `to`, by how `to` lies in it: without the endpoint that
      closes the range of `to`, or with it when `to` is inside. */
  ghost predicate AboveIs(e: seq<nat>, a: seq<nat>, to: nat) {
    if UpperEnd(e, to) then
      Canonical(a) && (a != [] ==> to + 1 < a[0]) && forall h | h > to :: Covers(a, h) <==> Covers(e, h)
    else if Covers(e, to) then
      Canonical([to] + a) && forall h | h >= to :: Covers([to] + a, h) <==> Covers(e, h)
    else
      Canonical(a) && (a != [] ==> to < a[0]) && forall h | h > to :: Covers(a, h) <==> Covers(e, h)
  }

  lemma {:induction false} UpperEndLater(e: seq<nat>, t: nat)
    requires Canonical(e) && e != [] && t < e[0]
    ensures !UpperEnd(e, t) && !Covers(e, t)
  {
    CoversFromFirst(e, t);
    if |e| > 2 { UpperEndLater(e[2..], t); }
  }

  lemma AboveBelow(e: seq<nat>, a: seq<nat>, to: nat)
    requires Canonical(e) && e != [] && e[1] < to && AboveIs(e[2..], a, to)
    ensures AboveIs(e, a, to)
  {}

  lemma AboveAtEnd(e: seq<nat>, to: nat)
    requires Canonical(e) && e != [] && e[1] == to
    ensures AboveIs(e, e[2..], to)
  {}

  lemma AboveInside(e: seq<nat>, to: nat)
    requires Canonical(e) && e != [] && e[0] <= to < e[1]
    ensures AboveIs(e, e[1..], to)
  {
    assert ([to] + e[1..])[2..] == e[2..];
    if |e| > 2 {
      UpperEndLater(e[2..], to);
    } else {
      assert !UpperEnd(e[2..], to);
    }
  }

  /** The endpoints kept at or behind the new interval. */
  lemma {:induction false} AboveShape(e: seq<nat>, from: nat, to: nat)
    requires Canonical(e) && from <= to && (e == [] || from <= e[0])
    ensures AboveIs(e, Outside(e, from, to), to)
  {
    if e == [] {
    } else if to < e[0] {
      OutsideAllAbove(e, from, to);
      UpperEndLater(e, to);
    } else {
      OutsideTail(e, from, to);
      if e[1] < to {
        AboveShape(e[2..], from, to);
        AboveBelow(e, Outside(e[2..], from, to), to);
        assert Outside(e, from, to) == Outside(e[2..], from, to);
      } else {
        OutsideAllAbove(e[2..], from, to);
        if e[1] == to {
          AboveAtEnd(e, to);
          assert Outside(e, from, to) == e[2..];
        } else {
          AboveInside(e, to);
          assert Outside(e, from, to) == e[1..];
        }
      }
    }
  }

  lemma {:induction false} FindIndexSkip(a: nat, b: nat, e: seq<nat>, h: nat)
    requires a <= h && b <= h
    ensures FindIndex([a, b] + e, h) == 2 + FindIndex(e, h)
  {
    var v := [a, b] + e;
    assert v[1..] == [b] + e;
    assert v[1..][1..] == e;
    assert FindIndex(v[1..], h) == 1 + FindIndex(e, h);
  }

  lemma {:induction false} InsertAtSkip(a: nat, b: nat, e: seq<nat>, i: nat, x: nat)
    requires i <= |e|
    ensures InsertAt([a, b] + e, i + 2, x) == [a, b] + InsertAt(e, i, x)
  {
    var v := [a, b] + e;
    assert v[..i + 2] == [a, b] + e[..i];
    assert v[i + 2..] == e[i..];
  }

  lemma {:induction false} SpliceAfterPair(a: nat, b: nat, kept: seq<nat>, hasTo: bool, from: nat, to: nat)
    requires a <= from && b <= from
    ensures Splice([a, b] + kept, hasTo, from, to) == [a, b] + Splice(kept, hasTo, from, to)
  {
    var i := FindIndex(kept, from);
    FindIndexSkip(a, b, kept, from);
    InsertAtSkip(a, b, kept, i, to);
    InsertAtSkip(a, b, if hasTo then kept else InsertAt(kept, i, to), i, from);
  }

  /** Ranges entirely below `from` are carried over. */
  lemma {:induction false} SpliceSkip(e: seq<nat>, from: nat, to: nat)
    requires Canonical(e) && e != [] && e[1] < from <= to
    ensures Spliced(e, from, to) == [e[0], e[1]] + Spliced(e[2..], from, to)
    ensures UpperEnd(e, to) <==> UpperEnd(e[2..], to)
    ensures Covers(e, to) <==> Covers(e[2..], to)
  {
    OutsideTail(e, from, to);
    var kept := Outside(e[2..], from, to);
    assert Outside(e, from, to) == [e[0], e[1]] + kept;
    SpliceAfterPair(e[0], e[1], kept, Covers(e, to), from, to);
  }

  /** The range `from` falls into, or opens: its lower end and what follows. */
  function Opened(e: seq<nat>, from: nat): seq<nat> {
    if e == [] || from <= e[0] then e else [from] + e[1..]
  }

  lemma {:induction false} OpenedSame(e: seq<nat>, from: nat, to: nat)
    requires Canonical(e) && from <= to && (e == [] || from <= e[1])
    ensures var t := Opened(e, from);
      && Canonical(t) && (t == [] || from <= t[0])
      && (UpperEnd(t, to) <==> UpperEnd(e, to))
      && forall h: nat | h >= from :: Covers(t, h) <==> Covers(e, h)
  {
    var t := Opened(e, from);
    if t != e {
      assert t[1..] == e[1..];
      assert t[2..] == e[2..];
    }
  }

  lemma SpliceAtFront(a: seq<nat>, hasTo: bool, from: nat, to: nat)
    requires FindIndex(a, from) == 0
    ensures Splice(a, hasTo, from, to) == [from] + (if hasTo then [] else [to]) + a
  {}

  lemma SpliceAfterOne(x: nat, a: seq<nat>, hasTo: bool, from: nat, to: nat)
    requires x < from && FindIndex(a, from) == 0
    ensures Splice([x] + a, hasTo, from, to) == [x] + (if hasTo then [] else [to]) + a
  {
    assert ([x] + a)[1..] == a;
    assert FindIndex([x] + a, from) == 1;
    assert ([x] + a)[..1] == [x];
  }

  lemma {:induction false} AllAbove(e: seq<nat>, from: nat, to: nat)
    requires Canonical(e) && from <= to && (e == [] || from <= e[0])
    ensures Outside(e, from, to) != [] ==> Outside(e, from, to)[0] > to
    ensures FindIndex(Outside(e, from, to), from) == 0
  {
    if e != [] {
      OutsideTail(e, from, to);
      AllAbove(e[2..], from, to);
    }
  }

  /** Where the new interval meets the vector, the splice has this shape. */
  lemma {:induction false} SpliceHere(e: seq<nat>, from: nat, to: nat)
    requires Canonical(e) && from <= to && (e == [] || from <= e[1])
    ensures var m := if e == [] || from <= e[0] then from else e[0];
      Spliced(e, from, to) == [m] + (if Covers(e, to) then [] else [to]) + Outside(Opened(e, from), from, to)
  {
    var t := Opened(e, from);
    OpenedSame(e, from, to);
    var a := Outside(t, from, to);
    AllAbove(t, from, to);
    if t == e {
      SpliceAtFront(a, Covers(e, to), from, to);
    } else {
      assert t[1..] == e[1..];
      assert Outside(e, from, to) == [e[0]] + a;
      SpliceAfterOne(e[0], a, Covers(e, to), from, to);
    }
  }

  // ----- insert: when it is the union

  /** Pairs in order without overlap that stand for the union. */
  ghost predicate LooseUnion(v: seq<nat>, e: seq<nat>, from: nat, to: nat) {
    && v != [] && Loose(v) && (v[0] == from || (e != [] && v[0] == e[0]))
    && forall h: nat :: Covers(v, h) <==> Covers(e, h) || from <= h <= to
  }

  lemma LooseCons(e: seq<nat>, w: seq<nat>, from: nat, to: nat)
    requires Canonical(e) && e != [] && e[1] < from && LooseUnion(w, e[2..], from, to)
    ensures LooseUnion([e[0], e[1]] + w, e, from, to)
  {
    assert ([e[0], e[1]] + w)[2..] == w;
  }

  lemma CanonicalIsLoose(e: seq<nat>)
    requires Canonical(e)
    ensures Loose(e)
  {}

  lemma {:induction false} SplicedHereLoose(m: nat, t: seq<nat>, a: seq<nat>, from: nat, to: nat)
    requires m <= from <= to && Canonical(t) && (t == [] || from <= t[0])
    requires if Covers(t, to) then
               Canonical([to] + a) && forall h | h >= to :: Covers([to] + a, h) <==> Covers(t, h)
             else
               Canonical(a) && (a != [] ==> to < a[0]) && forall h | h > to :: Covers(a, h) <==> Covers(t, h)
    ensures var v := [m] + (if Covers(t, to) then [] else [to]) + a;
      && Loose(v)
      && forall h: nat :: Covers(v, h) <==> m <= h <= to || (h > to && Covers(t, h))
  {
    var v := [m] + (if Covers(t, to) then [] else [to]) + a;
    if Covers(t, to) {
      assert v[2..] == ([to] + a)[2..];
    } else {
      assert v[2..] == a;
    }
    CanonicalIsLoose(v[2..]);
    forall h: nat
      ensures Covers(v, h) <==> m <= h <= to || (h > to && Covers(t, h))
    {
      CoversFromFirst(v[2..], h);
      if h > to && Covers(t, to) {
        assert Covers([to] + a, h) <==> to <= h <= a[0] || Covers(v[2..], h);
      }
    }
  }

  lemma {:induction false} SplicedLooseHere(e: seq<nat>, from: nat, to: nat)
    requires Canonical(e) && from <= to && !UpperEnd(e, to) && (e == [] || from <= e[1])
    ensures LooseUnion(Spliced(e, from, to), e, from, to)
  {
    var v, t := Spliced(e, from, to), Opened(e, from);
    SpliceHere(e, from, to);
    OpenedSame(e, from, to);
    AboveShape(t, from, to);
    SplicedHereLoose(v[0], t, Outside(t, from, to), from, to);
    forall h: nat
      ensures Covers(v, h) <==> Covers(e, h) || from <= h <= to
    {
      CoversFromFirst(e, h);
      CoversFromFirst(t, h);
    }
  }

  lemma {:induction false} SplicedLoose(e: seq<nat>, from: nat, to: nat)
    requires Canonical(e) && from <= to && !UpperEnd(e, to)
    ensures LooseUnion(Spliced(e, from, to), e, from, to)
  {
    if e != [] && e[1] < from {
      SpliceSkip(e, from, to);
      SplicedLoose(e[2..], from, to);
      LooseCons(e, Spliced(e[2..], from, to), from, to);
    } else {
      SplicedLooseHere(e, from, to);
    }
  }

  /** The good case: `insert` keeps the vector canonical and stands for the union. */
  lemma InsertIsUnion(e: seq<nat>, from: nat, to: nat)
    requires Canonical(e) && from <= to && !UpperEnd(e, to)
    ensures Canonical(Inserted(e, from, to))
    ensures forall h: nat :: Covers(Inserted(e, from, to), h) <==> Covers(e, h) || from <= h <= to
  {
    if e != [] {
      SplicedLoose(e, from, to);
      SimplifiedLoose(Spliced(e, from, to));
    }
  }

  lemma {:induction false} JoinsAbove(m: nat, a: seq<nat>)
    requires Canonical(a) && a != []
    ensures Simplified([m] + a)[1] >= a[0]
    decreases |a|
  {
    var v := [m] + a;
    var w := v[2..];
    assert w == [a[1]] + a[2..];
    if |a| > 2 {
      JoinsAbove(a[1], a[2..]);
      assert Simplified(w)[1] == (Joins(w) + [w[|w| - 1]])[0];
    }
    assert Joins(v) == (if a[0] + 1 == a[1] || a[0] == a[1] then [] else [a[0], a[1]]) + Joins(w);
    assert Simplified(v)[1] == (Joins(v) + [v[|v| - 1]])[0];
  }

  /** With an unpaired `m` in front of ranges above `to`, `simplify` swallows a hole. */
  lemma UnpairedTail(m: nat, a: seq<nat>, to: nat)
    requires m <= to && Canonical(a) && (a != [] ==> to + 1 < a[0])
    ensures var s := Simplified([m] + a);
      && |s| >= 2 && s[0] == m <= s[1]
      && (a == [] ==> s == [m, m])
      && (a != [] ==> Covers(s, to + 1))
  {
    var v := [m] + a;
    var s := Simplified(v);
    if a != [] {
      JoinsAbove(m, a);
      assert s[0] == m;
      assert s[1] >= a[0];
    }
  }

  /** With `to` an upper end, the splice is one unpaired endpoint in front of what lies above. */
  lemma {:induction false} SpliceUnpaired(e: seq<nat>, from: nat, to: nat) returns (m: nat, a: seq<nat>)
    requires Canonical(e) && UpperEnd(e, to) && from <= to && from <= e[1]
    ensures Spliced(e, from, to) == [m] + a
    ensures m == (if from <= e[0] then from else e[0]) <= to
    ensures Canonical(a) && (a != [] ==> to + 1 < a[0])
    ensures a == [] && from <= e[0] ==> Outside(e, from, to) == []
  {
    SpliceHere(e, from, to);
    OpenedSame(e, from, to);
    AboveShape(Opened(e, from), from, to);
    UpperEndCovers(e, to);
    a := Outside(Opened(e, from), from, to);
    m := if from <= e[0] then from else e[0];
  }

  /** If nothing is above `to`, and the first range starts at `to`, it is the only one. */
  lemma LastPoint(e: seq<nat>, to: nat)
    requires Canonical(e) && UpperEnd(e, to) && to <= e[0] && Outside(e, to, to) == []
    ensures EndsInPoint(e, to)
  {
    OutsideTail(e, to, to);
    if |e| > 2 {
      OutsideAllAbove(e[2..], to, to);
    }
  }

  /** The bad case, where the new interval meets the vector. */
  lemma {:induction false} InsertWrongHere(e: seq<nat>, from: nat, to: nat) returns (h: nat)
    requires Canonical(e) && UpperEnd(e, to) && from <= to && from <= e[1]
    requires !(from == to && EndsInPoint(e, to))
    ensures h >= from
    ensures !(Covers(Inserted(e, from, to), h) <==> Covers(e, h) || from <= h <= to)
    ensures var s := Inserted(e, from, to); |s| >= 2 && s[0] <= s[1] && s[0] == Spliced(e, from, to)[0]
  {
    var m, a := SpliceUnpaired(e, from, to);
    UnpairedTail(m, a, to);
    UpperEndCovers(e, to);
    assert Inserted(e, from, to) == Simplified([m] + a);
    if a != [] {
      h := to + 1;
    } else {
      h := to;
      if m == to {
        LastPoint(e, to);
      }
      assert !Covers([m, m], h);
    }
  }

  lemma SplicedStart(e: seq<nat>, from: nat, to: nat)
    requires Canonical(e) && from <= to && UpperEnd(e, to)
    ensures var v := Spliced(e, from, to); v != [] && v[0] >= (if from <= e[0] then from else e[0])
  {
    if e[1] < from {
      SpliceSkip(e, from, to);
    } else {
      SpliceHere(e, from, to);
    }
  }

  /** The bad case: some height at or above `from` comes out wrong. */
  lemma {:induction false} InsertWrong(e: seq<nat>, from: nat, to: nat) returns (h: nat)
    requires Canonical(e) && from <= to && UpperEnd(e, to)
    requires !(from == to && EndsInPoint(e, to))
    ensures h >= from
    ensures !(Covers(Inserted(e, from, to), h) <==> Covers(e, h) || from <= h <= to)
    ensures var s := Inserted(e, from, to); |s| >= 2 && s[0] <= s[1] && s[0] == Spliced(e, from, to)[0]
    decreases |e|
  {
    if e[1] < from {
      SpliceSkip(e, from, to);
      var w := Spliced(e[2..], from, to);
      h := InsertWrong(e[2..], from, to);
      SplicedStart(e[2..], from, to);
      assert Simplified(w) == Inserted(e[2..], from, to);
      SimplifiedCons(e[0], e[1], w);
      SimplifiedConsCovers(e[0], e[1], w, h);
    } else {
      h := InsertWrongHere(e, from, to);
    }
  }

  lemma CanonicalEven(e: seq<nat>)
    requires Canonical(e)
    ensures |e| % 2 == 0
  {}

  lemma CanonicalLast(e: seq<nat>)
    requires Canonical(e) && |e| > 2
    ensures e[1] < e[|e| - 1]
  {
    CanonicalEven(e);
    if |e| > 4 { CanonicalLast(e[2..]); }
  }

  lemma InsertOnlyPoint(e: seq<nat>, t: nat)
    requires Canonical(e) && |e| == 2 && EndsInPoint(e, t)
    ensures Inserted(e, t, t) == e && UpperEnd(e, t) && Spliced(e, t, t) != []
  {
    OutsideTail(e, t, t);
    assert Spliced(e, t, t) == [t];
    assert e == [t, t];
  }

  /** The lucky bad case: re-inserting a last range that is one height. */
  lemma {:induction false} InsertLastPoint(e: seq<nat>, t: nat)
    requires Canonical(e) && EndsInPoint(e, t)
    ensures Inserted(e, t, t) == e && UpperEnd(e, t)
    ensures Spliced(e, t, t) != []
  {
    CanonicalEven(e);
    if |e| == 2 {
      InsertOnlyPoint(e, t);
    } else {
      var w := e[2..];
      InsertLastPoint(w, t);
      CanonicalLast(e);
      SpliceSkip(e, t, t);
      hide Spliced, Joins;
      var v := Spliced(w, t, t);
      assert Simplified(v) == w && Simplified(v)[0] == v[0];
      assert e == [e[0], e[1]] + w;
      SimplifiedCons(e[0], e[1], v);
    }
  }

  /** Exactly when `insert` is the union with [from, to]. */
  lemma InsertIsUnionIff(e: seq<nat>, from: nat, to: nat)
    requires Canonical(e) && from <= to
    ensures (forall h: nat :: Covers(Inserted(e, from, to), h) <==> Covers(e, h) || from <= h <= to)
       <==> !UpperEnd(e, to) || (from == to && EndsInPoint(e, to))
  {
    hide Inserted;
    if !UpperEnd(e, to) {
      InsertIsUnion(e, from, to);
    } else if from == to && EndsInPoint(e, to) {
      InsertLastPoint(e, to);
      UpperEndCovers(e, to);
    } else {
      var h := InsertWrong(e, from, to);
    }
  }

  // ----- first

  /** `n` is the least height, from 1 on, that is not covered. */
  ghost predicate LeastMissing(e: seq<nat>, n: nat) {
    n >= 1 && !Covers(e, n) && forall h | 1 <= h < n :: Covers(e, h)
  }

  /** `first` is the least missing height exactly when the first range reaches down to 1. */
  lemma FirstIsLeastMissingIff(e: Endpoints)
    requires Canonical(e)
    ensures LeastMissing(e, First(e)) <==> e == [] || e[0] <= 1
  {
    CoversFromFirst(e, First(e));
    CoversFromFirst(e, 1);
  }

  /** Growing the set never moves `first` down, once height 1 is in it. */
  lemma FirstGrows(a: Endpoints, b: Endpoints)
    requires Canonical(a) && Canonical(b) && Covers(a, 1)
    requires forall h: nat | Covers(a, h) :: Covers(b, h)
    ensures First(a) <= First(b)
  {
    CoversFromFirst(a, 1);
    CoversFromFirst(b, 1);
    FirstIsLeastMissingIff(b);
    if First(b) < First(a) {
      assert Covers(a, First(b));
    }
  }

  /** A run of covered heights lies within one range. */
  lemma SolidRun(e: seq<nat>, h: nat)
    requires Canonical(e) && e != [] && e[0] <= h && forall k | e[0] <= k <= h :: Covers(e, k)
    ensures h <= e[1]
  {
    if e[1] < h {
      CoversFromFirst(e, e[1] + 1);
    }
  }

  /** What a new interval outside the set does to the first upper end: it drops exactly when
      the interval lies below the first range and does not touch it. */
  lemma FirstUpperEnd(a: Endpoints, b: Endpoints, from: nat, to: nat)
    requires Canonical(a) && Canonical(b) && a != [] && from <= to
    requires forall h | from <= h <= to :: !Covers(a, h)
    requires forall h: nat :: Covers(b, h) <==> Covers(a, h) || from <= h <= to
    ensures b != []
    ensures to + 1 < a[0] ==> b[1] == to
    ensures to + 1 >= a[0] ==> b[1] >= a[1]
    ensures to < a[0] || from > a[1]
  {
    assert Covers(a, a[0]) && Covers(b, from);
    assert Covers(b, b[0]);
    CoversFromFirst(b, from);
    CoversFromFirst(b, a[0]);
    CoversFromFirst(a, b[0]);
    assert forall h | a[0] <= h <= a[1] :: Covers(a, h);
    assert !(from <= a[0] <= to) && !Covers(a, from);
    if to + 1 < a[0] {
      CoversFromFirst(a, to + 1);
      SolidRun(b, to);
      assert Covers(b, to + 1) ==> false;
      assert b[1] > to ==> Covers(b, to + 1);
    } else {
      SolidRun(b, a[1]);
    }
  }

  // ----- lists of ranges

  /** Non-empty ranges in order, with a hole between any two. */
  ghost predicate Separated(rs: seq<Range>) {
    && (forall i | 0 <= i < |rs| :: rs[i].lo <= rs[i].hi)
    && (forall i, j | 0 <= i < j < |rs| :: rs[i].hi + 1 < rs[j].lo)
  }

  ghost predicate Holds(rs: seq<Range>, h: nat) {
    exists i :: 0 <= i < |rs| && rs[i].lo <= h <= rs[i].hi
  }

  /** How many of the ranges hold `h`. */
  function Tally(rs: seq<Range>, h: nat): nat {
    if rs == [] then 0 else (if rs[0].lo <= h <= rs[0].hi then 1 else 0) + Tally(rs[1..], h)
  }

  lemma {:induction false} TallyAppend(a: seq<Range>, b: seq<Range>, h: nat)
    ensures Tally(a + b, h) == Tally(a, h) + Tally(b, h)
  {
    if a == [] {
      assert a + b == b;
    } else {
      assert (a + b)[1..] == a[1..] + b;
      TallyAppend(a[1..], b, h);
    }
  }

  lemma {:induction false} TallySeparated(rs: seq<Range>, h: nat)
    requires Separated(rs)
    ensures Tally(rs, h) == if Holds(rs, h) then 1 else 0
  {
    if rs != [] {
      TallySeparated(rs[1..], h);
      if rs[0].lo <= h <= rs[0].hi {
        assert !Holds(rs[1..], h);
      } else if Holds(rs, h) {
        var i :| 0 <= i < |rs| && rs[i].lo <= h <= rs[i].hi;
        assert rs[1..][i - 1] == rs[i];
      }
    }
  }

  /** `gaps` are the maximal sub-intervals of [from, to] outside `e`. */
  ghost predicate MaximalGaps(e: seq<nat>, from: nat, to: nat, gaps: seq<Range>) {
    && Separated(gaps)
    && forall h: nat :: Holds(gaps, h) <==> from <= h <= to && !Covers(e, h)
  }

  function Flat(rs: seq<Range>): seq<nat> {
    if rs == [] then [] else [rs[0].lo, rs[0].hi] + Flat(rs[1..])
  }

  lemma {:induction false} HoldsCons(rs: seq<Range>, h: nat)
    requires rs != []
    ensures Holds(rs, h) <==> rs[0].lo <= h <= rs[0].hi || Holds(rs[1..], h)
  {
    if Holds(rs, h) && !(rs[0].lo <= h <= rs[0].hi) {
      var i :| 0 <= i < |rs| && rs[i].lo <= h <= rs[i].hi;
      assert rs[1..][i - 1] == rs[i];
    }
  }

  lemma {:induction false} FlatCanonical(rs: seq<Range>)
    requires Separated(rs)
    ensures Canonical(Flat(rs))
    ensures forall h: nat :: Covers(Flat(rs), h) <==> Holds(rs, h)
  {
    if rs != [] {
      FlatCanonical(rs[1..]);
      var f := Flat(rs);
      assert f[2..] == Flat(rs[1..]);
      if |rs| > 1 { assert f[2] == rs[1..][0].lo; }
      forall h: nat
        ensures Covers(f, h) <==> Holds(rs, h)
      {
        HoldsCons(rs, h);
      }
    }
  }

  lemma {:induction false} FlatInjective(a: seq<Range>, b: seq<Range>)
    requires Flat(a) == Flat(b)
    ensures a == b
  {
    if a != [] && b != [] {
      assert Flat(a)[2..] == Flat(a[1..]) && Flat(b)[2..] == Flat(b[1..]);
      assert Flat(a)[0] == Flat(b)[0] && Flat(a)[1] == Flat(b)[1];
      FlatInjective(a[1..], b[1..]);
    }
  }

  /** There is only one list of maximal gaps. */
  lemma MaximalGapsUnique(e: seq<nat>, from: nat, to: nat, a: seq<Range>, b: seq<Range>)
    requires MaximalGaps(e, from, to, a) && MaximalGaps(e, from, to, b)
    ensures a == b
  {
    FlatCanonical(a);
    FlatCanonical(b);
    CanonicalUnique(Flat(a), Flat(b));
    FlatInjective(a, b);
  }
}
