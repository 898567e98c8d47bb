/** The `FetchedRanges` object: the vector of Ranges.dfy edited in place. */
module RangeStore {
  import opened Ranges

  lemma HoldsAppend(rs: seq<Range>, r: Range)
    ensures forall h: nat :: Holds(rs + [r], h) <==> Holds(rs, h) || r.lo <= h <= r.hi
  {
    forall h: nat
      ensures Holds(rs + [r], h) <==> Holds(rs, h) || r.lo <= h <= r.hi
    {
      if Holds(rs, h) {
        var i :| 0 <= i < |rs| && rs[i].lo <= h <= rs[i].hi;
        assert (rs + [r])[i] == rs[i];
      }
      if r.lo <= h <= r.hi {
        assert (rs + [r])[|rs|] == r;
      }
    }
  }

  class FetchedRanges {
    var ends: seq<nat>

    constructor (saved: seq<nat>)
      ensures ends == saved
    {
      ends := saved;
    }

    function Contains(h: nat): bool
      reads this
    {
      Covers(ends, h)
    }

    /** Glue adjacent ranges together. */
    method Simplify()
      modifies this
      ensures ends == Simplified(old(ends))
    {
      if |ends| == 0 {
        return;
      }
      var simplified: seq<nat> := [];
      var ix := 0;
      while ix < |ends|
        invariant ix % 2 == 0 && ix <= |ends| + 1
        invariant ends == old(ends)
        invariant ix == 0 ==> simplified == []
        invariant ix > 0 ==> simplified + Joins(ends[ix - 2..]) == [ends[0]] + Joins(ends)
      {
        if ix == 0 {
          simplified := simplified + [ends[ix]];
          assert ends[0..] == ends;
        } else {
          ghost var rest := ends[ix - 2..];
          assert rest[2..] == ends[ix..];
          if ends[ix - 1] + 1 == ends[ix] || ends[ix - 1] == ends[ix] {
          } else {
            simplified := simplified + [ends[ix - 1]];
            simplified := simplified + [ends[ix]];
          }
        }
        ix := ix + 2;
      }
      assert Joins(ends[ix - 2..]) == [];
      simplified := simplified + [ends[|ends| - 1]];
      ends := simplified;
    }

    /** In-place insertion of [from, to]. */
    method Insert(from: nat, to: nat)
      requires |ends| % 2 == 0
      modifies this
      ensures ends == Inserted(old(ends), from, to)
      ensures |ends| % 2 == 0
      ensures Canonical(old(ends)) && from <= to && !UpperEnd(old(ends), to) ==>
        Canonical(ends) && forall h: nat :: Covers(ends, h) <==> Covers(old(ends), h) || from <= h <= to
    {
      if Canonical(ends) && from <= to && !UpperEnd(ends, to) {
        InsertIsUnion(ends, from, to);
      }
      if |ends| == 0 {
        ends := ends + [from];
        ends := ends + [to];
        return;
      }
      var containsTo := Contains(to);
      ends := Outside(ends, from, to);
      var fromIx := FindIndex(ends, from);
      if !containsTo {
        ends := InsertAt(ends, fromIx, to);
      }
      if fromIx % 2 == 0 {
        ends := InsertAt(ends, fromIx, from);
      }
      Simplify();
    }

    /** The maximal parts of [from, to] that are not stored. */
    method BlocksLeftToFetch(from: nat, to: nat) returns (toFetch: seq<Range>)
      requires 1 <= from <= to
      ensures MaximalGaps(ends, from, to, toFetch)
    {
      toFetch := [];
      var currentFrom := from;
      var needToFetch := true;
      var height := from;
      while height <= to
        invariant from <= height <= to + 1
        invariant Separated(toFetch)
        invariant from <= currentFrom
        invariant needToFetch ==> currentFrom < height || currentFrom == height == from
        invariant needToFetch ==> forall i | 0 <= i < |toFetch| :: toFetch[i].hi + 1 < currentFrom
        invariant !needToFetch ==> height > from && Covers(ends, height - 1)
        invariant !needToFetch ==> forall i | 0 <= i < |toFetch| :: toFetch[i].hi + 1 < height
        invariant forall h: nat :: Holds(toFetch, h) || (needToFetch && currentFrom <= h < height)
                                   <==> from <= h < height && !Covers(ends, h)
      {
        var heightInCache := Contains(height);
        if needToFetch && heightInCache {
          if height > currentFrom {
            HoldsAppend(toFetch, Range(currentFrom, height - 1));
            toFetch := toFetch + [Range(currentFrom, height - 1)];
          }
          needToFetch := false;
        } else if !needToFetch && !heightInCache {
          currentFrom := height;
          needToFetch := true;
        }
        height := height + 1;
      }
      if needToFetch {
        HoldsAppend(toFetch, Range(currentFrom, to));
        toFetch := toFetch + [Range(currentFrom, to)];
      }
    }
  }
}
