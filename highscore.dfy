/**
 * The top-nine score table (`Highscore`): nine `u32` slots kept in
 * non-increasing order, zeros standing for empty slots.
 */
module HighscoreTable {
  import opened Primitives

  const Capacity: nat := 9

  /** The nine zeros of `Highscore::default`. */
  const EmptyTable: seq<U32> := Zeros(Capacity)

  /** `n` empty slots. */
  function Zeros(n: nat): (r: seq<U32>)
    ensures |r| == n && forall i :: 0 <= i < n ==> r[i] == 0
  {
    if n == 0 then [] else Zeros(n - 1) + [0]
  }

  /** Non-increasing order of the slots. */
  ghost predicate Sorted(xs: seq<U32>) {
    forall i, j :: 0 <= i < j < |xs| ==> xs[i] >= xs[j]
  }

  /** Every nonzero value appears at most once (zeros are empty slots). */
  ghost predicate DistinctNonzero(xs: seq<U32>) {
    forall i, j :: 0 <= i < j < |xs| && xs[i] == xs[j] ==> xs[i] == 0
  }

  /** The invariant the table is meant to keep. */
  ghost predicate Ranked(xs: seq<U32>) {
    Sorted(xs) && DistinctNonzero(xs)
  }

  /** `xs.iter().find(|&&val| val == s)`: the first slot equal to `s`, if any. */
  function Find(xs: seq<U32>, s: U32): (r: Option<U32>)
    ensures r.Some? <==> s in xs
    ensures r.Some? ==> r.value == s
  {
    if xs == [] then None
    else if xs[0] == s then Some(xs[0])
    else Find(xs[1..], s)
  }

  /**
   * The pass of `add_score` over the slots `xs` carrying `carry`: a larger carry
   * takes the slot and the displaced value is carried on; an equal carry stops
   * the pass, leaving the remaining slots as they are; the last carry is dropped.
   */
  function InsertPass(xs: seq<U32>, carry: U32): (r: seq<U32>)
    ensures |r| == |xs|
  {
    if xs == [] then []
    else if carry > xs[0] then [carry] + InsertPass(xs[1..], xs[0])
    else if carry == xs[0] then xs
    else [xs[0]] + InsertPass(xs[1..], carry)
  }

  /** Reference definition: `s` put in front of the first slot it is not below. */
  function SortedInsert(xs: seq<U32>, s: U32): (r: seq<U32>)
    ensures |r| == |xs| + 1
    ensures multiset(r) == multiset(xs) + multiset{s}
  {
    if xs == [] then [s]
    else if s >= xs[0] then [s] + xs
    else
      assert xs == [xs[0]] + xs[1..];
      [xs[0]] + SortedInsert(xs[1..], s)
  }

  lemma SortedTail(xs: seq<U32>)
    requires |xs| > 0 && Sorted(xs)
    ensures Sorted(xs[1..]) && forall v :: v in xs ==> v <= xs[0]
  {
    forall v | v in xs ensures v <= xs[0] {
      var k :| 0 <= k < |xs| && xs[k] == v;
    }
  }

  /** No new values: the pass only moves slots and the carry around, and drops at most one value. */
  lemma {:induction false} InsertPassValues(xs: seq<U32>, carry: U32)
    ensures multiset(InsertPass(xs, carry)) <= multiset(xs) + multiset{carry}
    ensures forall v :: v in InsertPass(xs, carry) ==> v == carry || v in xs
  {
    var r := InsertPass(xs, carry);
    if xs == [] {
    } else {
      assert xs == [xs[0]] + xs[1..];
      if carry > xs[0] {
        InsertPassValues(xs[1..], xs[0]);
      } else if carry == xs[0] {
      } else {
        InsertPassValues(xs[1..], carry);
      }
    }
    forall v | v in r ensures v == carry || v in xs {
      assert v in multiset(r);
    }
  }

  /** Order preserved: whatever is carried in, a sorted table stays sorted. */
  lemma {:induction false} InsertPassSorted(xs: seq<U32>, carry: U32)
    requires Sorted(xs)
    ensures Sorted(InsertPass(xs, carry))
  {
    if xs != [] {
      SortedTail(xs);
      if carry > xs[0] {
        InsertPassSorted(xs[1..], xs[0]);
        InsertPassValues(xs[1..], xs[0]);
        var r := InsertPass(xs[1..], xs[0]);
        forall v | v in r ensures v <= carry { }
        SortedCons(carry, r);
      } else if carry < xs[0] {
        InsertPassSorted(xs[1..], carry);
        InsertPassValues(xs[1..], carry);
        var r := InsertPass(xs[1..], carry);
        forall v | v in r ensures v <= xs[0] { }
        SortedCons(xs[0], r);
      }
    }
  }

  lemma SortedCons(x: U32, r: seq<U32>)
    requires Sorted(r) && forall v :: v in r ==> v <= x
    ensures Sorted([x] + r)
  {
    forall i, j | 0 <= i < j < |[x] + r| ensures ([x] + r)[i] >= ([x] + r)[j] {
      if i > 0 {
        assert ([x] + r)[i] == r[i - 1] && ([x] + r)[j] == r[j - 1];
      } else {
        assert ([x] + r)[j] == r[j - 1] && r[j - 1] in r;
      }
    }
  }

  /** Duplicate is a no-op: on a sorted table that already holds `s`, the pass changes nothing. */
  lemma {:induction false} InsertPassDuplicate(xs: seq<U32>, s: U32)
    requires Sorted(xs) && s in xs
    ensures InsertPass(xs, s) == xs
  {
    SortedTail(xs);
    if s < xs[0] {
      assert xs == [xs[0]] + xs[1..];
      assert s in xs[1..];
      InsertPassDuplicate(xs[1..], s);
    }
  }

  /**
   * Carrying the head of a ranked table through its tail shifts every slot down
   * by one and drops the last one.
   */
  lemma {:induction false} InsertPassShift(c: U32, ys: seq<U32>)
    requires Ranked([c] + ys)
    ensures InsertPass(ys, c) == ([c] + ys)[..|ys|]
  {
    var zs := [c] + ys;
    if ys != [] {
      assert zs[0] == c && zs[1] == ys[0];
      if c > ys[0] {
        assert ys == [ys[0]] + ys[1..];
        assert Ranked([ys[0]] + ys[1..]) by {
          forall i, j | 0 <= i < j < |ys| ensures ys[i] >= ys[j] && (ys[i] == ys[j] ==> ys[i] == 0) {
            assert zs[i + 1] == ys[i] && zs[j + 1] == ys[j];
          }
        }
        InsertPassShift(ys[0], ys[1..]);
        assert ([c] + ys)[..|ys|] == [c] + ys[..|ys| - 1];
      } else {
        // c == ys[0]: both are zero, hence every slot is zero and the shift changes nothing
        assert c == 0;
        forall k | 0 <= k < |ys| ensures ys[k] == 0 {
          assert zs[k + 1] == ys[k];
        }
        assert ys == zs[..|ys|] by {
          forall k | 0 <= k < |ys| ensures ys[k] == zs[..|ys|][k] {
            if k > 0 { assert zs[k] == ys[k - 1]; }
          }
        }
      }
    }
  }

  lemma RankedTail(xs: seq<U32>)
    requires |xs| > 0 && Ranked(xs)
    ensures Ranked(xs[1..])
  {
    forall i, j | 0 <= i < j < |xs| - 1 ensures xs[1..][i] >= xs[1..][j] && (xs[1..][i] == xs[1..][j] ==> xs[1..][i] == 0) {
      assert xs[1..][i] == xs[i + 1] && xs[1..][j] == xs[j + 1];
    }
  }

  /**
   * Insertion result: on a ranked table that does not hold `s`, the pass is the
   * sorted insertion of `s` with the old last slot dropped.
   */
  lemma {:induction false} InsertPassAbsent(xs: seq<U32>, s: U32)
    requires Ranked(xs) && s !in xs
    ensures InsertPass(xs, s) == SortedInsert(xs, s)[..|xs|]
  {
    if xs != [] {
      if s > xs[0] {
        assert xs == [xs[0]] + xs[1..];
        InsertPassShift(xs[0], xs[1..]);
        assert SortedInsert(xs, s)[..|xs|] == [s] + xs[..|xs| - 1];
      } else {
        assert s < xs[0];
        assert s !in xs[1..];
        RankedTail(xs);
        InsertPassAbsent(xs[1..], s);
        assert SortedInsert(xs, s)[..|xs|] == [xs[0]] + SortedInsert(xs[1..], s)[..|xs| - 1];
      }
    }
  }

  /** A value below every slot goes to the end of the sorted insertion. */
  lemma {:induction false} SortedInsertBelow(xs: seq<U32>, s: U32)
    requires forall v :: v in xs ==> s < v
    ensures SortedInsert(xs, s) == xs + [s]
  {
    if xs != [] {
      assert xs[0] in xs;
      assert forall v :: v in xs[1..] ==> v in xs;
      SortedInsertBelow(xs[1..], s);
      assert xs == [xs[0]] + xs[1..];
    }
  }

  lemma RankedCons(x: U32, r: seq<U32>)
    requires Ranked(r) && forall v :: v in r ==> v < x
    ensures Ranked([x] + r)
  {
    forall i, j | 0 <= i < j < |[x] + r| ensures ([x] + r)[i] > ([x] + r)[j] || (([x] + r)[i] == ([x] + r)[j] == 0) {
      if i > 0 {
        assert ([x] + r)[i] == r[i - 1] && ([x] + r)[j] == r[j - 1];
      } else {
        assert ([x] + r)[j] == r[j - 1] && r[j - 1] in r;
      }
    }
  }

  /** Sorted insertion of an absent value keeps a table ranked. */
  lemma {:induction false} SortedInsertRanked(xs: seq<U32>, s: U32)
    requires Ranked(xs) && s !in xs
    ensures Ranked(SortedInsert(xs, s))
  {
    if xs == [] {
    } else if s >= xs[0] {
      SortedTail(xs);
      RankedCons(s, xs);
    } else {
      RankedTail(xs);
      assert s !in xs[1..];
      SortedInsertRanked(xs[1..], s);
      var t := SortedInsert(xs[1..], s);
      TailBelowHead(xs);
      forall v | v in t ensures v < xs[0] {
        assert v in multiset(t);
      }
      assert xs == [xs[0]] + xs[1..];
      RankedCons(xs[0], t);
    }
  }

  /** In a ranked table with a nonzero head, every later slot is strictly below the head. */
  lemma TailBelowHead(xs: seq<U32>)
    requires |xs| > 0 && Ranked(xs) && xs[0] > 0
    ensures forall v :: v in xs[1..] ==> v < xs[0]
  {
    forall v | v in xs[1..] ensures v < xs[0] {
      var k :| 0 <= k < |xs[1..]| && xs[1..][k] == v;
      assert xs[k + 1] == v;
    }
  }

  /**
   * What `add_score(s)` does to a ranked table that does not hold `s`: when `s`
   * beats the last slot it enters the table at its sorted position and the old
   * last slot is dropped; otherwise the table is unchanged.
   */
  lemma InsertPassOutcome(xs: seq<U32>, s: U32)
    requires |xs| > 0 && Ranked(xs) && s !in xs
    ensures s > xs[|xs| - 1] ==> InsertPass(xs, s) == SortedInsert(xs, s)[..|xs|]
    ensures s > xs[|xs| - 1] <==> s in InsertPass(xs, s)
    ensures s < xs[|xs| - 1] ==> InsertPass(xs, s) == xs
  {
    InsertPassAbsent(xs, s);
    var last := xs[|xs| - 1];
    assert last in xs;
    if s < last {
      forall v | v in xs ensures s < v {
        var k :| 0 <= k < |xs| && xs[k] == v;
      }
      SortedInsertBelow(xs, s);
      assert (xs + [s])[..|xs|] == xs;
    } else {
      assert s > last;
      SortedInsertPlaced(xs, s);
    }
  }

  /** A value above the last slot lands inside the first |xs| slots of the sorted insertion. */
  lemma {:induction false} SortedInsertPlaced(xs: seq<U32>, s: U32)
    requires |xs| > 0 && s > xs[|xs| - 1]
    ensures s in SortedInsert(xs, s)[..|xs|]
  {
    if s >= xs[0] {
      assert SortedInsert(xs, s)[..|xs|][0] == s;
    } else {
      assert |xs| > 1;
      SortedInsertPlaced(xs[1..], s);
      assert SortedInsert(xs, s)[..|xs|] == [xs[0]] + SortedInsert(xs[1..], s)[..|xs| - 1];
    }
  }

  /**
   * The table invariant is preserved by `add_score` for every score: a present
   * score leaves the table alone, an absent one is inserted in order.
   */
  lemma InsertPassKeepsRanked(xs: seq<U32>, s: U32)
    requires Ranked(xs)
    ensures Ranked(InsertPass(xs, s))
  {
    if s in xs {
      InsertPassDuplicate(xs, s);
    } else {
      InsertPassAbsent(xs, s);
      SortedInsertRanked(xs, s);
      var r := SortedInsert(xs, s);
      assert forall i, j :: 0 <= i < j < |xs| ==> r[..|xs|][i] == r[i] && r[..|xs|][j] == r[j];
    }
  }

  /**
   * The loop of `add_score` as a function: the slots `xs` with the pass at slot
   * `i` carrying `carry`.
   */
  function PassFrom(xs: seq<U32>, i: nat, carry: U32): (r: seq<U32>)
    requires i <= |xs|
    ensures |r| == |xs| && r[..i] == xs[..i]
    decreases |xs| - i
  {
    if i == |xs| then xs
    else if carry > xs[i] then PassFrom(xs[i := carry], i + 1, xs[i])
    else if carry == xs[i] then xs
    else PassFrom(xs, i + 1, carry)
  }

  /** The loop computes the pass: the slots before `i` are kept and the rest go through `InsertPass`. */
  lemma {:induction false} PassFromInsertPass(xs: seq<U32>, i: nat, carry: U32)
    requires i <= |xs|
    ensures PassFrom(xs, i, carry) == xs[..i] + InsertPass(xs[i..], carry)
    decreases |xs| - i
  {
    if i < |xs| {
      assert xs[i..][0] == xs[i] && xs[i..][1..] == xs[i + 1..];
      if carry > xs[i] {
        var ys := xs[i := carry];
        PassFromInsertPass(ys, i + 1, xs[i]);
        assert ys[..i + 1] == xs[..i] + [carry] && ys[i + 1..] == xs[i + 1..];
      } else if carry < xs[i] {
        PassFromInsertPass(xs, i + 1, carry);
        assert xs[..i + 1] == xs[..i] + [xs[i]];
      } else {
        assert xs == xs[..i] + xs[i..];
      }
    }
  }

  /** The default table is ranked. */
  lemma EmptyTableRanked()
    ensures |EmptyTable| == Capacity && Ranked(EmptyTable)
    ensures forall i :: 0 <= i < Capacity ==> EmptyTable[i] == 0
  {
  }

  class Highscore {
    const scores: array<U32>

    ghost predicate Valid()
      reads this
    {
      scores.Length == Capacity
    }

    /** The nine slots, best first. */
    function Table(): seq<U32>
      reads this, scores
    {
      scores[..]
    }

    /** `Highscore::new`, i.e. `Default`: nine zeros. */
    constructor ()
      ensures Valid() && fresh(scores)
      ensures Table() == EmptyTable
    {
      scores := new U32[Capacity](_ => 0);
    }

    /** `score_exist`: does some slot hold `score`? */
    function ScoreExist(score: U32): (r: bool)
      reads this, scores
      ensures r <==> score in Table()
      ensures r <==> exists i :: 0 <= i < scores.Length && scores[i] == score
    {
      Find(scores[..], score) == Some(score)
    }

    /** `add_score`: one insertion pass over the slots with a carried value and an early return on equality. */
    method AddScore(score: U32)
      requires Valid()
      modifies scores
      ensures Valid()
      ensures Table() == InsertPass(old(Table()), score)
    {
      PassFromInsertPass(scores[..], 0, score);
      assert scores[..][0..] == scores[..];
      var lastChangedScore := score;
      for i := 0 to Capacity
        invariant PassFrom(scores[..], i, lastChangedScore) == PassFrom(old(scores[..]), 0, score)
      {
        if lastChangedScore > scores[i] {
          var temp := scores[i];
          scores[i] := lastChangedScore;
          lastChangedScore := temp;
        } else if lastChangedScore == scores[i] {
          return;
        }
      }
    }
  }
}
