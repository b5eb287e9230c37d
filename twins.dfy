/** The twin links of the double-ended queue. Every element is held twice, once by a node of
    the max tree and once by a node of the min tree, and the two nodes point at each other
    through their `another` references. Each tree's nodes are stated over an arena of their
    own, so a twin link is a handle into the other tree's columns. */
module Twins {
  import opened Bags

  /** Membership, as a predicate of its own so that a statement about all handles of a set is
      only applied to the handles a proof names. */
  ghost predicate InSet(S: set<int>, n: int) {
    n in S
  }

  /** Handle n points, through another, at a handle of T that points back and holds the same
      value. */
  ghost predicate Twin(value: seq<int>, another: seq<int>, value': seq<int>, another': seq<int>, T: set<int>, n: int) {
    0 <= n < |value| && 0 <= n < |another| && another[n] in T
    && 0 <= another[n] < |value'| && 0 <= another[n] < |another'|
    && another'[another[n]] == n && value'[another[n]] == value[n]
  }

  /** Every handle of S has its twin in T. */
  ghost predicate Covers(value: seq<int>, another: seq<int>, S: set<int>,
                         value': seq<int>, another': seq<int>, T: set<int>)
  {
    forall n {:trigger InSet(S, n)} | InSet(S, n) :: Twin(value, another, value', another', T, n)
  }

  /** The handles of S and of T are matched one to one by their twin links. */
  ghost predicate Paired(value: seq<int>, another: seq<int>, S: set<int>,
                         value': seq<int>, another': seq<int>, T: set<int>)
  {
    Covers(value, another, S, value', another', T) && Covers(value', another', T, value, another, S)
  }

  /** What Covers says about one handle. */
  lemma CoverAt(value: seq<int>, another: seq<int>, S: set<int>,
                value': seq<int>, another': seq<int>, T: set<int>, n: int)
    requires Covers(value, another, S, value', another', T) && n in S
    ensures Twin(value, another, value', another', T, n)
  {
    assert InSet(S, n);
  }

  /** SwapValue(a, b) on two nodes of S: the twins of b and a are pointed at a and b (in that
      order), and the two nodes exchange their elements and their twin links. */
  lemma PairedSwap(value: seq<int>, another: seq<int>, S: set<int>,
                   value': seq<int>, another': seq<int>, T: set<int>, a: int, b: int)
    requires Paired(value, another, S, value', another', T) && a in S && b in S
    ensures 0 <= a < |value| && 0 <= b < |value| && 0 <= a < |another| && 0 <= b < |another|
    ensures 0 <= another[a] < |another'| && 0 <= another[b] < |another'|
    ensures Paired(value[a := value[b]][b := value[a]], another[a := another[b]][b := another[a]], S,
                   value', another'[another[b] := a][another[a] := b], T)
  {
    CoverAt(value, another, S, value', another', T, a);
    CoverAt(value, another, S, value', another', T, b);
    var v, w := value[a := value[b]][b := value[a]], another[a := another[b]][b := another[a]];
    var w' := another'[another[b] := a][another[a] := b];
    forall n | InSet(S, n) ensures Twin(v, w, value', w', T, n) {
      CoverAt(value, another, S, value', another', T, n);
    }
    forall m | InSet(T, m) ensures Twin(value', w', v, w, S, m) {
      CoverAt(value', another', T, value, another, S, m);
      CoverAt(value, another, S, value', another', T, another'[m]);
    }
  }

  /** Removing a matched pair keeps the rest matched. */
  lemma PairedRemove(value: seq<int>, another: seq<int>, S: set<int>,
                     value': seq<int>, another': seq<int>, T: set<int>, n: int)
    requires Paired(value, another, S, value', another', T) && n in S
    ensures 0 <= n < |another| && Paired(value, another, S - {n}, value', another', T - {another[n]})
  {
    CoverAt(value, another, S, value', another', T, n);
    forall k | InSet(S - {n}, k) ensures Twin(value, another, value', another', T - {another[n]}, k) {
      CoverAt(value, another, S, value', another', T, k);
    }
    forall m | InSet(T - {another[n]}, m) ensures Twin(value', another', value, another, S - {n}, m) {
      CoverAt(value', another', T, value, another, S, m);
    }
  }

  /** Adding a fresh pair of twins keeps the match. */
  lemma PairedAdd(value: seq<int>, another: seq<int>, S: set<int>,
                  value': seq<int>, another': seq<int>, T: set<int>, x: int, y: int)
    requires Paired(value, another, S, value', another', T) && x !in S && y !in T
    requires 0 <= x < |value| && 0 <= x < |another| && 0 <= y < |value'| && 0 <= y < |another'|
    requires value[x] == value'[y]
    ensures Paired(value, another[x := y], S + {x}, value', another'[y := x], T + {y})
  {
    forall n | InSet(S + {x}, n) ensures Twin(value, another[x := y], value', another'[y := x], T + {y}, n) {
      if n != x {
        CoverAt(value, another, S, value', another', T, n);
      }
    }
    forall m | InSet(T + {y}, m) ensures Twin(value', another'[y := x], value, another[x := y], S + {x}, m) {
      if m != y {
        CoverAt(value', another', T, value, another, S, m);
      }
    }
  }

  /** The match only depends on the values and links of the matched handles themselves, so
      it survives appending to the columns. */
  lemma PairedFrame(value: seq<int>, another: seq<int>, S: set<int>,
                    value': seq<int>, another': seq<int>, T: set<int>,
                    v: seq<int>, w: seq<int>, v': seq<int>, w': seq<int>)
    requires Paired(value, another, S, value', another', T)
    requires |v| >= |value| && |w| >= |another| && |v'| >= |value'| && |w'| >= |another'|
    requires forall n | 0 <= n < |value| && n < |another| :: v[n] == value[n] && w[n] == another[n]
    requires forall m | 0 <= m < |value'| && m < |another'| :: v'[m] == value'[m] && w'[m] == another'[m]
    ensures Paired(v, w, S, v', w', T)
  {
    forall n | InSet(S, n) ensures Twin(v, w, v', w', T, n) {
      CoverAt(value, another, S, value', another', T, n);
    }
    forall m | InSet(T, m) ensures Twin(v', w', v, w, S, m) {
      CoverAt(value', another', T, value, another, S, m);
    }
  }

  /** Matched handle sets hold the same multiset of values. */
  lemma {:induction false} PairedVals(value: seq<int>, another: seq<int>, S: set<int>,
                                      value': seq<int>, another': seq<int>, T: set<int>)
    requires Paired(value, another, S, value', another', T)
    ensures Vals(value, S) == Vals(value', T) && |S| == |T|
    decreases |S|
  {
    if S == {} {
      if T != {} {
        Inhabited(T);
        var m :| m in T;
        CoverAt(value', another', T, value, another, S, m);
        assert false;
      }
      BelowEmpty(value, |value|);
      BelowEmpty(value', |value'|);
    } else {
      Inhabited(S);
      var n :| n in S;
      CoverAt(value, another, S, value', another', T, n);
      var m := another[n];
      PairedRemove(value, another, S, value', another', T, n);
      PairedVals(value, another, S - {n}, value', another', T - {m});
      forall k | k in S ensures 0 <= k < |value| {
        CoverAt(value, another, S, value', another', T, k);
      }
      forall k | k in T ensures 0 <= k < |value'| {
        CoverAt(value', another', T, value, another, S, k);
      }
      ValsRemove(value, S, n);
      ValsRemove(value', T, m);
    }
  }
}
