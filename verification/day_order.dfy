/**
 * The order in which an overview document lists a city's days: keys made of
 * digits ascending by their integer value, every other key after them, and
 * keys of equal rank in their original order (Python's `sorted` is stable).
 */
module DayOrder {
  import opened Text

  /** The sort key: `int(key)` for a digit key, infinity otherwise. */
  datatype Rank = Finite(n: nat) | Infinite

  function DayRank(key: string): Rank
  {
    if IsDigits(key) then Finite(DecimalValue(key)) else Infinite
  }

  predicate RankLe(a: Rank, b: Rank)
  {
    match (a, b)
    case (_, Infinite) => true
    case (Infinite, Finite(_)) => false
    case (Finite(x), Finite(y)) => x <= y
  }

  /** Ranks never decrease along the sequence. */
  predicate Sorted(keys: seq<string>)
  {
    forall i, j :: 0 <= i < j < |keys| ==> RankLe(DayRank(keys[i]), DayRank(keys[j]))
  }

  /** The keys of the given rank, in their order of appearance. */
  function WithRank(keys: seq<string>, rank: Rank): seq<string>
  {
    if keys == [] then []
    else (if DayRank(keys[0]) == rank then [keys[0]] else []) + WithRank(keys[1..], rank)
  }

  /** Puts `key` in front of the first element whose rank is not below its own. */
  function Insert(key: string, sorted: seq<string>): (r: seq<string>)
    ensures multiset(r) == multiset(sorted) + multiset{key}
  {
    if sorted == [] || RankLe(DayRank(key), DayRank(sorted[0])) then
      [key] + sorted
    else
      assert sorted == [sorted[0]] + sorted[1..];
      [sorted[0]] + Insert(key, sorted[1..])
  }

  lemma {:induction false} InsertSorted(key: string, sorted: seq<string>)
    requires Sorted(sorted)
    ensures Sorted(Insert(key, sorted))
  {
    if sorted == [] || RankLe(DayRank(key), DayRank(sorted[0])) {
      var r := [key] + sorted;
      forall i, j | 0 <= i < j < |r| ensures RankLe(DayRank(r[i]), DayRank(r[j])) {
        if i == 0 {
          assert r[j] == sorted[j - 1];
          if j > 1 {
            assert RankLe(DayRank(sorted[0]), DayRank(sorted[j - 1]));
          }
        } else {
          assert r[i] == sorted[i - 1] && r[j] == sorted[j - 1];
        }
      }
    } else {
      var tail := Insert(key, sorted[1..]);
      assert Sorted(sorted[1..]) by {
        forall i, j | 0 <= i < j < |sorted[1..]|
          ensures RankLe(DayRank(sorted[1..][i]), DayRank(sorted[1..][j]))
        {
          assert sorted[1..][i] == sorted[i + 1] && sorted[1..][j] == sorted[j + 1];
        }
      }
      InsertSorted(key, sorted[1..]);
      var r := [sorted[0]] + tail;
      forall i, j | 0 <= i < j < |r| ensures RankLe(DayRank(r[i]), DayRank(r[j])) {
        if i == 0 {
          var x := r[j];
          assert x == tail[j - 1];
          assert x in multiset(tail);
          assert x == key || x in multiset(sorted[1..]);
          if x != key {
            var k :| 0 <= k < |sorted[1..]| && sorted[1..][k] == x;
            assert sorted[k + 1] == x;
          }
        } else {
          assert r[i] == tail[i - 1] && r[j] == tail[j - 1];
        }
      }
    }
  }

  /** Inserting adds `key` to its own rank class at the front and leaves the other classes alone. */
  lemma {:induction false} InsertWithRank(key: string, sorted: seq<string>, rank: Rank)
    ensures WithRank(Insert(key, sorted), rank) == (if DayRank(key) == rank then [key] else []) + WithRank(sorted, rank)
  {
    if sorted == [] || RankLe(DayRank(key), DayRank(sorted[0])) {
      WithRankCons(key, sorted, rank);
    } else {
      var tail := Insert(key, sorted[1..]);
      assert Insert(key, sorted) == [sorted[0]] + tail;
      assert sorted == [sorted[0]] + sorted[1..];
      WithRankCons(sorted[0], tail, rank);
      WithRankCons(sorted[0], sorted[1..], rank);
      InsertWithRank(key, sorted[1..], rank);
      // the key goes behind `sorted[0]`, so the two cannot share a rank
      assert DayRank(key) == rank ==> DayRank(sorted[0]) != rank;
    }
  }

  /** `WithRank` on a sequence with a known first key. */
  lemma WithRankCons(key: string, keys: seq<string>, rank: Rank)
    ensures WithRank([key] + keys, rank) == (if DayRank(key) == rank then [key] else []) + WithRank(keys, rank)
  {
    assert ([key] + keys)[1..] == keys;
  }

  /**
   * The day keys sorted the way the overview lists them, a stable sort by
   * rank: ranks ascend, and within each rank the keys keep their original order.
   */
  function SortDays(keys: seq<string>): (r: seq<string>)
    ensures Sorted(r)
    ensures multiset(r) == multiset(keys)
    ensures forall rank :: WithRank(r, rank) == WithRank(keys, rank)
  {
    if keys == [] then []
    else
      assert keys == [keys[0]] + keys[1..];
      var tail := SortDays(keys[1..]);
      InsertSorted(keys[0], tail);
      forall rank ensures WithRank(Insert(keys[0], tail), rank) == WithRank(keys, rank) {
        InsertWithRank(keys[0], tail, rank);
      }
      Insert(keys[0], tail)
  }

  /** Every digit key comes before every other key, and digit keys ascend by value. */
  lemma DigitKeysFirst(keys: seq<string>, i: int, j: int)
    requires 0 <= i < j < |SortDays(keys)|
    ensures IsDigits(SortDays(keys)[j]) ==> IsDigits(SortDays(keys)[i])
    ensures IsDigits(SortDays(keys)[i]) && IsDigits(SortDays(keys)[j]) ==>
              DecimalValue(SortDays(keys)[i]) <= DecimalValue(SortDays(keys)[j])
  {
  }
}
