/** The multiset of values stored at a set of arena handles. */
module Bags {

  /** True when every handle of S indexes the column. */
  ghost predicate Within(S: set<int>, column: seq<int>) {
    forall n | n in S :: 0 <= n < |column|
  }

  /** A set that is not empty has an element. */
  lemma Inhabited(S: set<int>)
    requires S != {}
    ensures exists n :: n in S
  {
    if forall n :: n !in S {
      assert false;
    }
  }

  /** The multiset of the values at the handles of S below k. */
  ghost function ValsBelow(value: seq<int>, S: set<int>, k: nat): multiset<int>
    requires k <= |value|
  {
    if k == 0 then multiset{}
    else if k - 1 in S then ValsBelow(value, S, k - 1) + multiset{value[k - 1]}
    else ValsBelow(value, S, k - 1)
  }

  /** The multiset of the values at the handles of S. */
  ghost function Vals(value: seq<int>, S: set<int>): multiset<int> {
    ValsBelow(value, S, |value|)
  }

  lemma {:induction false} BelowEmpty(value: seq<int>, k: nat)
    requires k <= |value|
    ensures ValsBelow(value, {}, k) == multiset{}
  {
    if k > 0 {
      BelowEmpty(value, k - 1);
    }
  }

  /** No handle of S at or above k contributes. */
  lemma {:induction false} BelowBeyond(value: seq<int>, S: set<int>, k: nat, k': nat)
    requires k <= k' <= |value| && forall n | n in S :: n < k
    ensures ValsBelow(value, S, k') == ValsBelow(value, S, k)
  {
    if k' > k {
      BelowBeyond(value, S, k, k' - 1);
    }
  }

  lemma {:induction false} BelowAgree(value: seq<int>, value': seq<int>, S: set<int>, k: nat)
    requires k <= |value| && k <= |value'|
    requires forall n | n in S && 0 <= n < k :: value[n] == value'[n]
    ensures ValsBelow(value, S, k) == ValsBelow(value', S, k)
  {
    if k > 0 {
      BelowAgree(value, value', S, k - 1);
    }
  }

  /** A handle outside the range below k does not contribute. */
  lemma {:induction false} BelowIgnores(value: seq<int>, S: set<int>, y: int, k: nat)
    requires k <= |value| && !(0 <= y < k)
    ensures ValsBelow(value, S, k) == ValsBelow(value, S - {y}, k)
  {
    if k > 0 {
      BelowIgnores(value, S, y, k - 1);
    }
  }

  lemma {:induction false} BelowRemove(value: seq<int>, S: set<int>, y: int, k: nat)
    requires k <= |value| && y in S && 0 <= y < k
    ensures ValsBelow(value, S, k) == ValsBelow(value, S - {y}, k) + multiset{value[y]}
  {
    if k - 1 == y {
      BelowIgnores(value, S, y, k - 1);
    } else {
      BelowRemove(value, S, y, k - 1);
      if k - 1 in S {
        var rest := ValsBelow(value, S - {y}, k - 1);
        assert rest + multiset{value[y]} + multiset{value[k - 1]} == rest + multiset{value[k - 1]} + multiset{value[y]};
      }
    }
  }

  lemma {:induction false} BelowMember(value: seq<int>, S: set<int>, x: int, k: nat)
    requires k <= |value| && x in ValsBelow(value, S, k)
    ensures exists n :: n in S && 0 <= n < k && value[n] == x
  {
    if k - 1 in S && value[k - 1] == x {
    } else {
      BelowMember(value, S, x, k - 1);
    }
  }

  /** Any handle of S can be split off. */
  lemma ValsRemove(value: seq<int>, S: set<int>, y: int)
    requires Within(S, value) && y in S
    ensures Vals(value, S) == Vals(value, S - {y}) + multiset{value[y]}
  {
    BelowRemove(value, S, y, |value|);
  }

  /** Adding a handle adds its value. */
  lemma ValsAdd(value: seq<int>, S: set<int>, x: int)
    requires Within(S + {x}, value) && x !in S
    ensures Vals(value, S + {x}) == Vals(value, S) + multiset{value[x]}
  {
    ValsRemove(value, S + {x}, x);
    assert S + {x} - {x} == S;
  }

  /** One value per handle. */
  lemma {:induction false} ValsSize(value: seq<int>, S: set<int>)
    requires Within(S, value)
    ensures |Vals(value, S)| == |S|
    decreases |S|
  {
    if S == {} {
      BelowEmpty(value, |value|);
    } else {
      Inhabited(S);
      var y :| y in S;
      ValsRemove(value, S, y);
      ValsSize(value, S - {y});
    }
  }

  /** Only the values at the handles of S matter. */
  lemma ValsFrame(value: seq<int>, value': seq<int>, S: set<int>)
    requires Within(S, value) && Within(S, value')
    requires forall n | n in S :: value[n] == value'[n]
    ensures Vals(value, S) == Vals(value', S)
  {
    var k := if |value| <= |value'| then |value| else |value'|;
    BelowBeyond(value, S, k, |value|);
    BelowBeyond(value', S, k, |value'|);
    BelowAgree(value, value', S, k);
  }

  /** Every element of the multiset is the value of some handle of S. */
  lemma ValsMember(value: seq<int>, S: set<int>, x: int)
    requires x in Vals(value, S)
    ensures exists n :: n in S && 0 <= n < |value| && value[n] == x
  {
    BelowMember(value, S, x, |value|);
  }

  /** A property of every handle's value is a property of every element. */
  lemma ValsBounded(value: seq<int>, S: set<int>, P: int -> bool)
    requires Within(S, value)
    requires forall n | n in S :: P(value[n])
    ensures forall x | x in Vals(value, S) :: P(x)
  {
    forall x | x in Vals(value, S) ensures P(x) {
      ValsMember(value, S, x);
    }
  }

  /** Overwriting the value of a handle of S trades its old value for the new one. */
  lemma ValsUpdate(value: seq<int>, S: set<int>, i: int, x: int)
    requires Within(S, value) && i in S
    ensures Vals(value[i := x], S) + multiset{value[i]} == Vals(value, S) + multiset{x}
  {
    var value' := value[i := x];
    var rest := S - {i};
    ValsRemove(value, S, i);
    ValsRemove(value', S, i);
    ValsFrame(value, value', rest);
    var r := Vals(value, rest);
    assert r + multiset{x} + multiset{value[i]} == r + multiset{value[i]} + multiset{x};
  }

  /** Exchanging the values of two handles of S keeps the multiset. */
  lemma ValsSwap(value: seq<int>, S: set<int>, a: int, b: int)
    requires Within(S, value) && a in S && b in S
    ensures Vals(value[a := value[b]][b := value[a]], S) == Vals(value, S)
  {
    var once := value[a := value[b]];
    ValsUpdate(value, S, a, value[b]);
    ValsUpdate(once, S, b, value[a]);
    if a == b {
      assert once[b := value[a]] == value;
    } else {
      var before, after := Vals(value, S), Vals(once[b := value[a]], S);
      assert once[b] == value[b];
      assert after + multiset{value[b]} == before + multiset{value[b]};
      assert after == after + multiset{value[b]} - multiset{value[b]};
    }
  }
}
