/**
 * Facts about the two structures a finished search leaves behind: the parent
 * links (child to parent, as coordinates) and the set of closed cells.
 */
module Paths {
  import opened GridModel

  /**
   * Parent links of closed cells go to cells closed earlier: `rank` gives the
   * position at which each closed cell was closed.
   */
  ghost predicate Ranked(parents: map<Coord, Coord>, rank: map<Coord, nat>) {
    forall c :: c in parents && c in rank ==> parents[c] in rank && rank[parents[c]] < rank[c]
  }

  /**
   * The cells met when following parent links from `c`: its parent, that
   * parent's parent, and so on, up to and including the cell without a parent.
   * `c` itself is not listed.
   */
  ghost function Chain(parents: map<Coord, Coord>, rank: map<Coord, nat>, c: Coord): (r: seq<Coord>)
    requires Ranked(parents, rank) && c in rank
    ensures |r| <= rank[c]
    ensures forall k :: 0 <= k < |r| ==> r[k] in rank && rank[r[k]] < rank[c]
    decreases rank[c]
  {
    if c in parents then [parents[c]] + Chain(parents, rank, parents[c]) else []
  }

  /**
   * Consecutive entries of the chain are parent links, the first entry is the
   * parent of `c`, and the chain stops exactly at a cell without a parent.
   */
  lemma {:induction false} ChainLinks(parents: map<Coord, Coord>, rank: map<Coord, nat>, c: Coord)
    requires Ranked(parents, rank) && c in rank
    ensures var r := Chain(parents, rank, c);
      && (r == [] <==> c !in parents)
      && (r != [] ==> r[0] == parents[c] && r[|r| - 1] !in parents)
      && (forall k :: 0 <= k < |r| - 1 ==> r[k] in parents && r[k + 1] == parents[r[k]])
    decreases rank[c]
  {
    if c in parents {
      var p := parents[c];
      ChainLinks(parents, rank, p);
      var r, tail := Chain(parents, rank, c), Chain(parents, rank, p);
      assert r == [p] + tail;
      forall k | 0 <= k < |r| - 1 ensures r[k] in parents && r[k + 1] == parents[r[k]] {
        if k == 0 {
          assert tail != [];
        } else {
          assert r[k] == tail[k - 1] && r[k + 1] == tail[k];
        }
      }
    }
  }

  /** Ranks strictly decrease along the chain, so no cell occurs twice in it and `c` does not occur at all. */
  lemma {:induction false} ChainDescends(parents: map<Coord, Coord>, rank: map<Coord, nat>, c: Coord)
    requires Ranked(parents, rank) && c in rank
    ensures var r := Chain(parents, rank, c);
      && (forall a, b :: 0 <= a < b < |r| ==> rank[r[b]] < rank[r[a]])
      && (forall a, b :: 0 <= a < b < |r| ==> r[a] != r[b])
      && c !in r
    decreases rank[c]
  {
    if c in parents {
      var p := parents[c];
      ChainDescends(parents, rank, p);
      var r, tail := Chain(parents, rank, c), Chain(parents, rank, p);
      assert r == [p] + tail;
      forall a, b | 0 <= a < b < |r| ensures rank[r[b]] < rank[r[a]] {
        if a > 0 {
          assert r[a] == tail[a - 1] && r[b] == tail[b - 1];
        } else {
          assert r[b] == tail[b - 1];
        }
      }
    }
  }

  /** No coordinate occurs twice in `s`, stated entry by entry from the end. */
  ghost predicate NoRepeats(s: seq<Coord>)
    decreases |s|
  {
    |s| == 0 || (s[|s| - 1] !in s[..|s| - 1] && NoRepeats(s[..|s| - 1]))
  }

  /** `NoRepeats` says exactly that entries at distinct positions differ. */
  lemma {:induction false} NoRepeatsPairwise(s: seq<Coord>)
    ensures NoRepeats(s) <==> forall a, b :: 0 <= a < b < |s| ==> s[a] != s[b]
    decreases |s|
  {
    if |s| > 0 {
      var init := s[..|s| - 1];
      NoRepeatsPairwise(init);
      if NoRepeats(s) {
        forall a, b | 0 <= a < b < |s| ensures s[a] != s[b] {
          if b == |s| - 1 {
            assert s[a] == init[a];
          } else {
            assert s[a] == init[a] && s[b] == init[b];
          }
        }
      }
      if forall a, b :: 0 <= a < b < |s| ==> s[a] != s[b] {
        forall a, b | 0 <= a < b < |init| ensures init[a] != init[b] {
          assert init[a] == s[a] && init[b] == s[b];
        }
        forall a | 0 <= a < |init| ensures init[a] != s[|s| - 1] {
          assert init[a] == s[a];
        }
      }
    }
  }

  /** Appending a coordinate not yet present keeps a sequence free of repeats. */
  lemma NoRepeatsAppend(s: seq<Coord>, x: Coord)
    requires NoRepeats(s) && x !in s
    ensures NoRepeats(s + [x])
  {
    assert (s + [x])[..|s|] == s;
  }

  /** A walk through open (present) cells, each step one of the offsets the search relaxes. */
  ghost predicate IsWalk(w: seq<Coord>, present: set<Coord>) {
    && |w| > 0
    && (forall k :: 0 <= k < |w| ==> w[k] in present)
    && (forall k :: 0 <= k < |w| - 1 ==> Relaxes(w[k], w[k + 1]))
  }

  /** No relaxation step leads from a cell of `s` to a present cell outside `s`. */
  ghost predicate ClosedUnderSteps(s: set<Coord>, present: set<Coord>) {
    forall p, n :: p in s && n in present && Relaxes(p, n) ==> n in s
  }

  /** A walk that starts in a set closed under steps never leaves it. */
  lemma {:induction false} WalkStaysInside(s: set<Coord>, present: set<Coord>, w: seq<Coord>)
    requires IsWalk(w, present) && w[0] in s && ClosedUnderSteps(s, present)
    ensures forall k :: 0 <= k < |w| ==> w[k] in s
  {
    var k := 0;
    while k < |w| - 1
      invariant 0 <= k < |w|
      invariant forall i :: 0 <= i <= k ==> w[i] in s
    {
      assert Relaxes(w[k], w[k + 1]) && w[k + 1] in present;
      k := k + 1;
    }
  }
}
