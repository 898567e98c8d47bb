/** Lists of transaction indices and their in-place merge (shared/src/db.rs). */
module IndexLists {
  import opened Sorting

  type U64 = n: int | 0 <= n < 0x1_0000_0000_0000_0000
  type U32 = n: int | 0 <= n < 0x1_0000_0000

  datatype Index = Index(height: U64, tx: U32)

  /** The derived order: height first, then transaction. */
  predicate Le(a: Index, b: Index) {
    a.height < b.height || (a.height == b.height && a.tx <= b.tx)
  }

  lemma LeIsTotal()
    ensures TotalOrder(Le)
  {}

  /** By height, then by transaction, in the numbers. */
  ghost predicate Ascending(s: seq<Index>) {
    forall i, j | 0 <= i < j < |s| ::
      s[i].height < s[j].height || (s[i].height == s[j].height && s[i].tx <= s[j].tx)
  }

  lemma AscendingIff(s: seq<Index>)
    ensures Ascending(s) <==> Sorted(Le, s)
  {}

  // ----- binary search

  /** Binary search of s[lo..hi] by a comparison: negative below the target, zero on it. */
  function SearchBy(cmp: Index -> int, s: seq<Index>, lo: nat, hi: nat): bool
    requires lo <= hi <= |s|
    decreases hi - lo
  {
    if lo == hi then false
    else
      var mid := lo + (hi - lo) / 2;
      if cmp(s[mid]) < 0 then SearchBy(cmp, s, mid + 1, hi)
      else if cmp(s[mid]) > 0 then SearchBy(cmp, s, lo, mid)
      else true
  }

  lemma {:induction false} SearchByFinds(cmp: Index -> int, s: seq<Index>, lo: nat, hi: nat)
    requires lo <= hi <= |s|
    requires forall i, j | 0 <= i < j < |s| :: cmp(s[i]) <= cmp(s[j])
    ensures SearchBy(cmp, s, lo, hi) <==> exists i :: lo <= i < hi && cmp(s[i]) == 0
    decreases hi - lo
  {
    if lo < hi {
      var mid := lo + (hi - lo) / 2;
      if cmp(s[mid]) < 0 {
        SearchByFinds(cmp, s, mid + 1, hi);
      } else if cmp(s[mid]) > 0 {
        SearchByFinds(cmp, s, lo, mid);
      }
    }
  }

  function Against(x: Index): Index -> int {
    (y: Index) => if y == x then 0 else if Le(y, x) then -1 else 1
  }

  function AgainstHeight(h: U64): Index -> int { (y: Index) => y.height - h }

  function Contains(s: seq<Index>, x: Index): bool { SearchBy(Against(x), s, 0, |s|) }

  function ContainsHeight(s: seq<Index>, h: U64): bool { SearchBy(AgainstHeight(h), s, 0, |s|) }

  lemma ContainsIsMember(s: seq<Index>, x: Index)
    requires Ascending(s)
    ensures Contains(s, x) <==> x in s
  {
    SearchByFinds(Against(x), s, 0, |s|);
    if x in s {
      var i :| 0 <= i < |s| && s[i] == x;
      assert Against(x)(s[i]) == 0;
    }
  }

  lemma ContainsHeightIsMember(s: seq<Index>, h: U64)
    requires Ascending(s)
    ensures ContainsHeight(s, h) <==> exists x :: x in s && x.height == h
  {
    SearchByFinds(AgainstHeight(h), s, 0, |s|);
    if x :| x in s && x.height == h {
      var i :| 0 <= i < |s| && s[i] == x;
      assert AgainstHeight(h)(s[i]) == 0;
    }
  }

  // ----- combine and union as functions on lists

  /** The retain call of `combine`. */
  function Keep(s: seq<Index>, height: U64, other: seq<Index>): seq<Index> {
    if s == [] then []
    else (if s[0].height > height || Contains(other, s[0]) then [s[0]] else []) + Keep(s[1..], height, other)
  }

  function Combined(a: seq<Index>, b: seq<Index>): seq<Index> {
    if a == [] then b
    else if b == [] then a
    else
      var sa, sb := Sort(Le, a), Sort(Le, b);
      var ha, hb := sa[|sa| - 1].height, sb[|sb| - 1].height;
      if ha < hb then Keep(sb, ha, sa) else Keep(sa, hb, sb)
  }

  function Unioned(a: seq<Index>, b: seq<Index>): seq<Index> {
    Dedup(Sort(Le, a + b))
  }

  /** The greatest height listed. */
  ghost predicate IsTop(s: seq<Index>, h: U64) {
    && (exists x :: x in s && x.height == h)
    && (forall x | x in s :: x.height <= h)
  }

  function Top(s: seq<Index>): (h: U64)
    requires s != []
    ensures IsTop(s, h)
  {
    assert s == [s[0]] + s[1..];
    assert s[0] in s;
    if |s| == 1 then s[0].height
    else
      var t := Top(s[1..]);
      if s[0].height < t then t else s[0].height
  }

  lemma LastIsGreatest(t: seq<Index>)
    requires t != [] && Sorted(Le, t)
    ensures IsTop(t, t[|t| - 1].height)
  {
    assert t[|t| - 1] in t;
    forall x | x in t
      ensures x.height <= t[|t| - 1].height
    {
      var i :| 0 <= i < |t| && t[i] == x;
      assert i < |t| - 1 ==> Le(t[i], t[|t| - 1]);
    }
  }

  lemma TopUnique(s: seq<Index>, t: seq<Index>, g: U64, h: U64)
    requires (forall x :: x in s <==> x in t) && IsTop(s, g) && IsTop(t, h)
    ensures g == h
  {
    var x :| x in s && x.height == g;
    var y :| y in t && y.height == h;
    assert x in t && y in s;
  }

  lemma LastIsTop(s: seq<Index>)
    requires s != []
    ensures Sort(Le, s)[|s| - 1].height == Top(s)
  {
    LeIsTotal();
    SortSorted(Le, s);
    LastIsGreatest(Sort(Le, s));
    TopUnique(Sort(Le, s), s, Sort(Le, s)[|s| - 1].height, Top(s));
  }

  lemma {:induction false} KeepMembers(s: seq<Index>, height: U64, other: seq<Index>)
    requires Sorted(Le, other)
    ensures forall x :: x in Keep(s, height, other) <==> x in s && (x.height > height || x in other)
  {
    if s != [] {
      KeepMembers(s[1..], height, other);
      AscendingIff(other);
      ContainsIsMember(other, s[0]);
      assert s == [s[0]] + s[1..];
    }
  }

  lemma {:induction false} KeepSubset(s: seq<Index>, height: U64, other: seq<Index>, x: Index)
    requires x in Keep(s, height, other)
    ensures exists i :: 0 <= i < |s| && s[i] == x
  {
    if x in Keep(s[1..], height, other) {
      KeepSubset(s[1..], height, other, x);
      var i :| 0 <= i < |s[1..]| && s[1..][i] == x;
      assert s[i + 1] == x;
    } else {
      assert s[0] == x;
    }
  }

  lemma {:induction false} KeepSorted(s: seq<Index>, height: U64, other: seq<Index>)
    requires Sorted(Le, s)
    ensures Sorted(Le, Keep(s, height, other))
  {
    if s != [] {
      KeepSorted(s[1..], height, other);
      var rest := Keep(s[1..], height, other);
      forall i | 0 <= i < |rest|
        ensures Le(s[0], rest[i])
      {
        KeepSubset(s[1..], height, other, rest[i]);
        var k :| 0 <= k < |s[1..]| && s[1..][k] == rest[i];
        assert Le(s[0], s[k + 1]);
      }
    }
  }

  lemma {:induction false} KeepNoDup(s: seq<Index>, height: U64, other: seq<Index>)
    requires NoDup(s)
    ensures NoDup(Keep(s, height, other))
  {
    if s != [] {
      KeepNoDup(s[1..], height, other);
      var rest := Keep(s[1..], height, other);
      forall i | 0 <= i < |rest|
        ensures s[0] != rest[i]
      {
        KeepSubset(s[1..], height, other, rest[i]);
        var k :| 0 <= k < |s[1..]| && s[1..][k] == rest[i];
        assert s[0] != s[k + 1];
      }
    }
  }

  lemma KeepOrder(s: seq<Index>, height: U64, other: seq<Index>)
    requires Sorted(Le, s)
    ensures Sorted(Le, Keep(s, height, other)) && (NoDup(s) ==> NoDup(Keep(s, height, other)))
  {
    KeepSorted(s, height, other);
    if NoDup(s) { KeepNoDup(s, height, other); }
  }

  lemma SortedCopy(s: seq<Index>)
    ensures Sorted(Le, Sort(Le, s)) && (forall x :: x in Sort(Le, s) <==> x in s) && (NoDup(s) ==> NoDup(Sort(Le, s)))
  {
    LeIsTotal();
    SortSorted(Le, s);
    if NoDup(s) { NoDupMultiset(s, Sort(Le, s)); }
  }

  /** Which list is kept, in terms of the tops. */
  lemma CombinedByTop(a: seq<Index>, b: seq<Index>)
    requires a != [] && b != []
    ensures Combined(a, b) == if Top(a) < Top(b) then Keep(Sort(Le, b), Top(a), Sort(Le, a))
                              else Keep(Sort(Le, a), Top(b), Sort(Le, b))
  {
    LastIsTop(a);
    LastIsTop(b);
    hide Top, Sort, Keep;
  }

  /** What survives `combine`, symmetrically: a list vouches for every height up to its top. */
  lemma CombineMembers(a: seq<Index>, b: seq<Index>)
    requires a != [] && b != []
    ensures Sorted(Le, Combined(a, b)) && Ascending(Combined(a, b))
    ensures NoDup(a) && NoDup(b) ==> NoDup(Combined(a, b))
    ensures forall x :: x in Combined(a, b) <==>
      && (x in a || x in b)
      && (x.height <= Top(a) ==> x in a)
      && (x.height <= Top(b) ==> x in b)
  {
    var sa, sb := Sort(Le, a), Sort(Le, b);
    CombinedByTop(a, b);
    SortedCopy(a);
    SortedCopy(b);
    assert forall x | x in a :: x.height <= Top(a);
    assert forall x | x in b :: x.height <= Top(b);
    AscendingIff(Combined(a, b));
    hide Combined, Sort, Top, Keep, Sorted, NoDup, Ascending;
    if Top(a) < Top(b) {
      KeepMembers(sb, Top(a), sa);
      KeepOrder(sb, Top(a), sa);
    } else {
      KeepMembers(sa, Top(b), sb);
      KeepOrder(sa, Top(b), sb);
    }
  }

  /** `x` survives a merge of `a` and `b`. */
  predicate Merges(a: seq<Index>, b: seq<Index>, x: Index)
    requires a != [] && b != []
  {
    (x in a || x in b) && (x.height <= Top(a) ==> x in a) && (x.height <= Top(b) ==> x in b)
  }

  lemma MergesIff(a: seq<Index>, b: seq<Index>, x: Index)
    requires a != [] && b != []
    ensures x in Combined(a, b) <==> Merges(a, b, x)
  {
    CombineMembers(a, b);
  }

  lemma {:induction false} KeepCount(s: seq<Index>, height: U64, other: seq<Index>, x: Index)
    requires Sorted(Le, other)
    ensures multiset(Keep(s, height, other))[x] == if x.height > height || x in other then multiset(s)[x] else 0
  {
    if s != [] {
      KeepCount(s[1..], height, other, x);
      AscendingIff(other);
      ContainsIsMember(other, s[0]);
      assert s == [s[0]] + s[1..];
    }
  }

  /** How often an index is listed: as often as in the list that reaches further, the first one
      in a tie, if the other vouches for it or ends below it. */
  lemma CombineCounts(a: seq<Index>, b: seq<Index>, x: Index)
    requires a != [] && b != []
    ensures multiset(Combined(a, b))[x] ==
      if Top(a) < Top(b) then (if x.height > Top(a) || x in a then multiset(b)[x] else 0)
      else (if x.height > Top(b) || x in b then multiset(a)[x] else 0)
  {
    CombinedByTop(a, b);
    LeIsTotal();
    SortSorted(Le, a);
    SortSorted(Le, b);
    KeepCount(Sort(Le, a), Top(b), Sort(Le, b), x);
    KeepCount(Sort(Le, b), Top(a), Sort(Le, a), x);
    hide Combined, Top, Sort, Keep, TotalOrder, Sorted;
  }

  /** With equal tops, what is kept of `a` is what is listed in both, as often as in `a`. */
  lemma TieCount(a: seq<Index>, b: seq<Index>, x: Index)
    requires a != [] && b != [] && Top(a) == Top(b)
    ensures multiset(Combined(a, b))[x] == if x in b then multiset(a)[x] else 0
  {
    CombineCounts(a, b, x);
    assert x in a ==> x.height <= Top(a);
    hide Combined, Top;
  }

  ghost predicate SameCounts(a: seq<Index>, b: seq<Index>) {
    forall x | x in a && x in b :: multiset(a)[x] == multiset(b)[x]
  }

  ghost predicate KeptFrom(kept: seq<Index>, a: seq<Index>, b: seq<Index>) {
    forall x :: multiset(kept)[x] == if x in b then multiset(a)[x] else 0
  }

  lemma KeptEqualIff(a: seq<Index>, b: seq<Index>, ab: seq<Index>, ba: seq<Index>)
    requires Sorted(Le, ab) && Sorted(Le, ba) && KeptFrom(ab, a, b) && KeptFrom(ba, b, a)
    ensures ab == ba <==> SameCounts(a, b)
  {
    if SameCounts(a, b) {
      forall x
        ensures multiset(ab)[x] == multiset(ba)[x]
      {
        assert x !in a ==> multiset(a)[x] == 0;
        assert x !in b ==> multiset(b)[x] == 0;
      }
      assert multiset(ab) == multiset(ba);
      LeIsTotal();
      SortedCounts(Le, ab, ba);
    } else {
      var x :| x in a && x in b && multiset(a)[x] != multiset(b)[x];
      assert multiset(ab)[x] != multiset(ba)[x];
    }
  }

  lemma TieKept(a: seq<Index>, b: seq<Index>)
    requires a != [] && b != [] && Top(a) == Top(b)
    ensures KeptFrom(Combined(a, b), a, b) && Sorted(Le, Combined(a, b))
  {
    CombineMembers(a, b);
    forall x
      ensures multiset(Combined(a, b))[x] == if x in b then multiset(a)[x] else 0
    {
      TieCount(a, b, x);
    }
    hide Combined, Top, Sorted, NoDup;
  }

  lemma TieCommutesIff(a: seq<Index>, b: seq<Index>)
    requires a != [] && b != [] && Top(a) == Top(b)
    ensures Combined(a, b) == Combined(b, a) <==> SameCounts(a, b)
  {
    hide Combined, Sorted, SameCounts, KeptFrom;
    TieKept(a, b);
    TieKept(b, a);
    KeptEqualIff(a, b, Combined(a, b), Combined(b, a));
  }

  /** The order of the two lists matters only in a tie, and then exactly when some index that
      both list is not listed equally often. */
  lemma CombineCommutesIff(a: seq<Index>, b: seq<Index>)
    ensures Combined(a, b) == Combined(b, a) <==> a == [] || b == [] || Top(a) != Top(b) || SameCounts(a, b)
  {
    if a != [] && b != [] {
      CombinedByTop(a, b);
      CombinedByTop(b, a);
      if Top(a) == Top(b) {
        TieCommutesIff(a, b);
      }
      hide Combined, Top, SameCounts, Keep, Sort;
    }
  }

  /** On lists without duplicates the order does not matter, ties included. */
  lemma CombineCommutes(a: seq<Index>, b: seq<Index>)
    requires NoDup(a) && NoDup(b)
    ensures Combined(a, b) == Combined(b, a)
  {
    CombineCommutesIff(a, b);
    hide Combined, Top;
    forall x | x in a && x in b
      ensures multiset(a)[x] == multiset(b)[x]
    {
      TwoPlaces(a, x);
      TwoPlaces(b, x);
    }
  }

  /** A list is complete up to `synced`: everything relevant is in it, and nothing above. */
  ghost predicate CompleteTo(s: seq<Index>, synced: nat, relevant: Index -> bool) {
    && (forall x | relevant(x) && x.height <= synced :: x in s)
    && (forall x | x in s :: x.height <= synced)
  }

  /** `combine` loses no relevant transaction up to the further of the two heights. */
  lemma CombineLosesNothing(a: seq<Index>, toA: nat, b: seq<Index>, toB: nat, relevant: Index -> bool)
    requires CompleteTo(a, toA, relevant) && CompleteTo(b, toB, relevant)
    ensures CompleteTo(Combined(a, b), if toA < toB then toB else toA, relevant)
  {
    if a != [] && b != [] {
      CombineMembers(a, b);
    }
  }

  // ----- folding combine over many services

  function Folded(ls: seq<seq<Index>>): seq<Index>
    requires ls != []
  {
    if |ls| == 1 then ls[0] else Combined(Folded(ls[..|ls| - 1]), ls[|ls| - 1])
  }

  predicate TopsDiffer(a: seq<Index>, b: seq<Index>) {
    a != [] && b != [] && Top(a) != Top(b)
  }

  ghost predicate Foldable(ls: seq<seq<Index>>) {
    && (forall l | l in ls :: l != [] && NoDup(l))
    && (forall i, j | 0 <= i < j < |ls| :: TopsDiffer(ls[i], ls[j]))
  }

  /** Every list that reaches the height of `x` has it. */
  ghost predicate Agreed(ls: seq<seq<Index>>, x: Index)
    requires forall l | l in ls :: l != []
  {
    forall l | l in ls && x.height <= Top(l) :: x in l
  }

  /** `h` is the greatest height listed anywhere. */
  ghost predicate OverallTop(ls: seq<seq<Index>>, h: U64)
    requires forall l | l in ls :: l != []
  {
    && (exists l :: l in ls && Top(l) == h)
    && (forall l | l in ls :: Top(l) <= h)
  }

  lemma CombineTop(a: seq<Index>, b: seq<Index>)
    requires a != [] && b != [] && Top(a) != Top(b)
    ensures Combined(a, b) != [] && Top(Combined(a, b)) == if Top(a) < Top(b) then Top(b) else Top(a)
  {
    CombineMembers(a, b);
    if Top(a) < Top(b) {
      var x :| x in b && x.height == Top(b);
      assert x in Combined(a, b);
    } else {
      var x :| x in a && x.height == Top(a);
      assert x in Combined(a, b);
    }
  }

  lemma AgreedPlus(init: seq<seq<Index>>, last: seq<Index>, x: Index)
    requires (forall l | l in init :: l != []) && last != []
    ensures Agreed(init + [last], x) <==> Agreed(init, x) && (x.height <= Top(last) ==> x in last)
  {
    assert last in init + [last];
  }

  lemma OverallTopPlus(init: seq<seq<Index>>, h: U64, last: seq<Index>)
    requires (forall l | l in init :: l != []) && last != [] && OverallTop(init, h)
    ensures OverallTop(init + [last], if h < Top(last) then Top(last) else h)
  {
    var ls := init + [last];
    var l :| l in init && Top(l) == h;
    assert l in ls && last in ls;
  }

  /** One more list: the merge keeps what all lists agree on. */
  lemma FoldStep(init: seq<seq<Index>>, acc: seq<Index>, last: seq<Index>)
    requires (forall l | l in init :: l != []) && acc != [] && last != []
    requires OverallTop(init, Top(acc)) && Top(acc) != Top(last)
    requires forall x :: x in acc <==> x.height <= Top(acc) && Agreed(init, x)
    ensures var f := Combined(acc, last);
      && f != [] && OverallTop(init + [last], Top(f))
      && forall x :: x in f <==> x.height <= Top(f) && Agreed(init + [last], x)
  {
    hide Combined;
    var f := Combined(acc, last);
    CombineTop(acc, last);
    OverallTopPlus(init, Top(acc), last);
    forall x
      ensures x in f <==> x.height <= Top(f) && Agreed(init + [last], x)
    {
      MergesIff(acc, last, x);
      AgreedPlus(init, last, x);
      if x.height > Top(acc) {
        assert Agreed(init, x);
      }
    }
  }

  /** The fold keeps exactly the indices, up to the overall top, that every list reaching
      their height has. */
  lemma {:induction false} FoldMembers(ls: seq<seq<Index>>)
    requires ls != [] && Foldable(ls)
    ensures var f := Folded(ls);
      && f != [] && NoDup(f) && (|ls| > 1 ==> Sorted(Le, f) && Ascending(f)) && OverallTop(ls, Top(f))
      && forall x :: x in f <==> x.height <= Top(f) && Agreed(ls, x)
  {
    if |ls| == 1 {
      assert ls == [ls[0]] && ls[0] in ls;
      assert forall x | x in ls[0] :: x.height <= Top(ls[0]);
    } else {
      var init, last := ls[..|ls| - 1], ls[|ls| - 1];
      assert ls == init + [last];
      assert last in ls;
      FoldMembers(init);
      var acc := Folded(init);
      var top :| top in init && Top(top) == Top(acc);
      FoldStep(init, acc, last);
      CombineMembers(acc, last);
    }
  }

  lemma SameFold(ls: seq<seq<Index>>, ls': seq<seq<Index>>, f: seq<Index>, f': seq<Index>)
    requires (forall l :: l in ls <==> l in ls') && (forall l | l in ls :: l != []) && f != [] && f' != []
    requires Sorted(Le, f) && Sorted(Le, f') && NoDup(f) && NoDup(f')
    requires OverallTop(ls, Top(f)) && OverallTop(ls', Top(f'))
    requires forall x :: x in f <==> x.height <= Top(f) && Agreed(ls, x)
    requires forall x :: x in f' <==> x.height <= Top(f') && Agreed(ls', x)
    ensures f == f'
  {
    assert forall x :: Agreed(ls, x) <==> Agreed(ls', x);
    LeIsTotal();
    SortedUnique(Le, f, f');
  }

  lemma SameLists(ls: seq<seq<Index>>, ls': seq<seq<Index>>)
    requires multiset(ls) == multiset(ls')
    ensures forall l :: l in ls <==> l in ls'
  {
    forall l
      ensures l in ls <==> l in ls'
    {
      assert l in multiset(ls) <==> l in multiset(ls');
    }
  }

  lemma FoldableAnyOrder(ls: seq<seq<Index>>, ls': seq<seq<Index>>)
    requires Foldable(ls) && multiset(ls) == multiset(ls')
    ensures Foldable(ls')
  {
    SameLists(ls, ls');
    NoDupMultiset(ls, ls');
    forall i, j | 0 <= i < j < |ls'|
      ensures TopsDiffer(ls'[i], ls'[j])
    {
      assert ls'[i] in ls && ls'[j] in ls;
      var p :| 0 <= p < |ls| && ls[p] == ls'[i];
      var q :| 0 <= q < |ls| && ls[q] == ls'[j];
      assert ls'[i] != ls'[j];
      assert if p < q then TopsDiffer(ls[p], ls[q]) else TopsDiffer(ls[q], ls[p]);
    }
  }

  /** Services may answer in any order: the fold is the same list. */
  lemma FoldAnyOrder(ls: seq<seq<Index>>, ls': seq<seq<Index>>)
    requires ls != [] && Foldable(ls) && multiset(ls) == multiset(ls')
    ensures ls' != [] && Folded(ls) == Folded(ls')
  {
    assert |ls| == |multiset(ls)| == |multiset(ls')| == |ls'|;
    SameLists(ls, ls');
    if |ls| == 1 {
      assert ls'[0] in ls;
    } else {
      FoldableAnyOrder(ls, ls');
      FoldMembers(ls);
      FoldMembers(ls');
      SameFold(ls, ls', Folded(ls), Folded(ls'));
    }
  }

  // ----- grouping three lists

  /** Some list has `x`, and every list reaching its height does. */
  ghost predicate Settled(a: seq<Index>, b: seq<Index>, c: seq<Index>, x: Index)
    requires a != [] && b != [] && c != []
  {
    && (x in a || x in b || x in c)
    && (x.height <= Top(a) ==> x in a) && (x.height <= Top(b) ==> x in b) && (x.height <= Top(c) ==> x in c)
  }

  function Higher(g: U64, h: U64): U64 { if g < h then h else g }

  /** `x` of the third list slips past a merge that has forgotten how far its parts had come:
      they reached the height of `x`, but all they agreed on lies below. */
  ghost predicate Slips(a: seq<Index>, b: seq<Index>, third: seq<Index>, x: Index)
    requires a != [] && b != []
  {
    x in third && x.height <= Higher(Top(a), Top(b)) && forall y | y in Combined(a, b) :: y.height < x.height
  }

  lemma AboveAll(s: seq<Index>, h: U64)
    ensures (forall y | y in s :: y.height < h) <==> s == [] || Top(s) < h
  {}

  lemma InnerTop(a: seq<Index>, b: seq<Index>)
    requires a != [] && b != [] && Combined(a, b) != []
    ensures Top(Combined(a, b)) <= Higher(Top(a), Top(b))
  {
    var inner := Combined(a, b);
    assert IsTop(a, Top(a)) && IsTop(b, Top(b)) && IsTop(inner, Top(inner));
    hide Combined;
    var top :| top in inner && top.height == Top(inner);
    MergesIff(a, b, top);
  }

  lemma NothingMerged(l: seq<Index>)
    ensures Combined([], l) == l && Combined(l, []) == l
  {}

  /** What one grouping lists: the settled indices, and what slips past the inner merge. */
  lemma GroupMembers(a: seq<Index>, b: seq<Index>, third: seq<Index>, whole: seq<Index>, x: Index)
    requires a != [] && b != [] && third != []
    requires whole == Combined(Combined(a, b), third) || whole == Combined(third, Combined(a, b))
    ensures x in whole <==> Settled(a, b, third, x) || Slips(a, b, third, x)
    ensures !(Settled(a, b, third, x) && Slips(a, b, third, x))
  {
    var inner := Combined(a, b);
    MergesIff(a, b, x);
    AboveAll(inner, x.height);
    assert x in third ==> x.height <= Top(third);
    assert x in a ==> x.height <= Top(a);
    assert x in b ==> x.height <= Top(b);
    if inner == [] {
      NothingMerged(third);
    } else {
      InnerTop(a, b);
      assert x in inner ==> x.height <= Top(inner);
      MergesIff(inner, third, x);
      MergesIff(third, inner, x);
    }
    hide Combined, Top;
  }

  ghost predicate SameIndices(a: seq<Index>, b: seq<Index>) {
    forall x :: x in a <==> x in b
  }

  /** The two groupings of three lists agree exactly when the same indices slip past the inner
      merge on either side. */
  lemma AssociatesIff(a: seq<Index>, b: seq<Index>, c: seq<Index>)
    ensures SameIndices(Combined(Combined(a, b), c), Combined(a, Combined(b, c))) <==>
      a == [] || b == [] || c == [] || forall x :: Slips(a, b, c, x) <==> Slips(b, c, a, x)
  {
    if a == [] || b == [] || c == [] {
      NothingMerged(Combined(a, b));
      NothingMerged(Combined(b, c));
      NothingMerged(a);
      NothingMerged(b);
      NothingMerged(c);
    } else {
      var l, r := Combined(Combined(a, b), c), Combined(a, Combined(b, c));
      forall x
        ensures (x in l <==> x in r) <==> (Slips(a, b, c, x) <==> Slips(b, c, a, x))
      {
        GroupMembers(a, b, c, l, x);
        GroupMembers(b, c, a, r, x);
        hide Combined, Slips;
      }
    }
  }

  /** Both lists end at the same height and share no index there. */
  ghost predicate BareTie(a: seq<Index>, b: seq<Index>) {
    a != [] && b != [] && Top(a) == Top(b) && forall x | x in a && x in b :: x.height != Top(a)
  }

  lemma BothReach(a: seq<Index>, b: seq<Index>) returns (y: Index)
    requires a != [] && b != [] && !BareTie(a, b)
    ensures y.height == Higher(Top(a), Top(b)) && Merges(a, b, y)
  {
    assert IsTop(a, Top(a)) && IsTop(b, Top(b));
    if Top(a) < Top(b) {
      y :| y in b && y.height == Top(b);
    } else if Top(b) < Top(a) {
      y :| y in a && y.height == Top(a);
    } else {
      y :| y in a && y in b && y.height == Top(a);
    }
  }

  lemma NothingSlips(a: seq<Index>, b: seq<Index>, third: seq<Index>, x: Index)
    requires a != [] && b != [] && !BareTie(a, b)
    ensures !Slips(a, b, third, x)
  {
    var y := BothReach(a, b);
    MergesIff(a, b, y);
    assert y in Combined(a, b);
    hide Combined, Top;
  }

  /** Without a bare tie among neighbours the grouping does not matter. */
  lemma AssociatesWithoutBareTies(a: seq<Index>, b: seq<Index>, c: seq<Index>)
    requires !BareTie(a, b) && !BareTie(b, c)
    ensures SameIndices(Combined(Combined(a, b), c), Combined(a, Combined(b, c)))
  {
    if a != [] && b != [] && c != [] {
      forall x
        ensures Slips(a, b, c, x) <==> Slips(b, c, a, x)
      {
        NothingSlips(a, b, c, x);
        NothingSlips(b, c, a, x);
      }
    }
    AssociatesIff(a, b, c);
  }

  /** A bare tie on which the grouping matters: what slips past on the left is settled nowhere. */
  lemma TiesDoNotAssociate()
    ensures var a, b, c := [Index(1, 0), Index(5, 0)], [Index(1, 0), Index(5, 1)], [Index(3, 0)];
      BareTie(a, b) && !SameIndices(Combined(Combined(a, b), c), Combined(a, Combined(b, c)))
  {
    var a, b, c := [Index(1, 0), Index(5, 0)], [Index(1, 0), Index(5, 1)], [Index(3, 0)];
    var x := Index(3, 0);
    assert Top(a) == Top(b) == 5;
    assert x in c && x !in a && x !in b;
    forall y | y in Combined(a, b)
      ensures y.height < 3
    {
      MergesIff(a, b, y);
      hide Combined, Top;
    }
    AssociatesIff(a, b, c);
    hide Combined, Top;
    assert Slips(a, b, c, x) && !Slips(b, c, a, x);
  }

  /** `union` is the sorted set union without duplicates. */
  lemma UnionIsUnion(a: seq<Index>, b: seq<Index>)
    ensures Ascending(Unioned(a, b)) && NoDup(Unioned(a, b))
    ensures forall x :: x in Unioned(a, b) <==> x in a || x in b
  {
    LeIsTotal();
    SortSorted(Le, a + b);
    DedupSorted(Le, Sort(Le, a + b));
    AscendingIff(Unioned(a, b));
  }

  // ----- the object

  class IndexList {
    var list: seq<Index>

    constructor (list: seq<Index>)
      ensures this.list == list
    {
      this.list := list;
    }

    /** Keep what lies above `height` or is in `other`. */
    method RetainListed(height: U64, other: seq<Index>)
      modifies this
      ensures list == Keep(old(list), height, other)
    {
      var kept: seq<Index> := [];
      var i := 0;
      while i < |list|
        invariant 0 <= i <= |list| && list == old(list)
        invariant kept + Keep(list[i..], height, other) == Keep(list, height, other)
      {
        assert list[i..][1..] == list[i + 1..];
        if list[i].height > height || Contains(other, list[i]) {
          kept := kept + [list[i]];
        }
        i := i + 1;
      }
      list := kept;
    }

    /** Merge with the list of another service, in place. */
    method Combine(other0: seq<Index>)
      modifies this
      ensures list == Combined(old(list), other0)
      ensures old(list) != [] && other0 != [] ==> Ascending(list)
    {
      var other := other0;
      if list != [] && other != [] { CombineMembers(list, other); }
      if |list| == 0 {
        list := other;
        return;
      }
      if |other| == 0 {
        return;
      }
      list := Sort(Le, list);
      other := Sort(Le, other);
      var aHeight := list[|list| - 1].height;
      var bHeight := other[|other| - 1].height;
      var height := bHeight;
      if aHeight < bHeight {
        list, other := other, list;
        height := aHeight;
      }
      RetainListed(height, other);
    }

    /** Sorted, each index once, and exactly those of either list. */
    method Union(other: seq<Index>)
      modifies this
      ensures Ascending(list) && NoDup(list)
      ensures forall x :: x in list <==> x in old(list) || x in other
    {
      UnionIsUnion(list, other);
      list := list + other;
      list := Sort(Le, list);
      list := Dedup(list);
    }
  }
}
