/**
 * The query of a processing round: the eligible records, oldest `created_at`
 * first, at most `mailsPerRound` of them. SQL leaves the order of equal
 * `created_at` values open; this model breaks such ties by id.
 */
module Selection {
  import opened Queue

  /** `a` comes before `b` in the round's ORDER BY. */
  predicate Before(a: Item, b: Item) {
    a.row.createdAt < b.row.createdAt || (a.row.createdAt == b.row.createdAt && a.id < b.id)
  }

  /** Strictly ascending by age: oldest first, no item twice. */
  predicate Ordered(s: seq<Item>) {
    forall j, k :: 0 <= j < k < |s| ==> Before(s[j], s[k])
  }

  predicate IdsIncreasing(s: seq<Item>) {
    forall j, k :: 0 <= j < k < |s| ==> s[j].id < s[k].id
  }

  predicate IdsDistinct(s: seq<Item>) {
    forall j, k :: 0 <= j < k < |s| ==> s[j].id != s[k].id
  }

  /** The WHERE clause applied to a sequence of loaded rows, keeping their order. */
  function FilterEligible(s: seq<Item>, cfg: Config, now: int): seq<Item> {
    if |s| == 0 then []
    else if Eligible(s[0].row, cfg, now) then [s[0]] + FilterEligible(s[1..], cfg, now)
    else FilterEligible(s[1..], cfg, now)
  }

  /** The filter keeps exactly the eligible rows, and keeps them in id order. */
  lemma {:induction false} FilterEligibleKeeps(s: seq<Item>, cfg: Config, now: int)
    ensures forall x :: x in FilterEligible(s, cfg, now) <==> x in s && Eligible(x.row, cfg, now)
    ensures IdsIncreasing(s) ==> IdsIncreasing(FilterEligible(s, cfg, now))
  {
    if |s| > 0 {
      var rest := FilterEligible(s[1..], cfg, now);
      FilterEligibleKeeps(s[1..], cfg, now);
      assert s == [s[0]] + s[1..];
      if IdsIncreasing(s) {
        assert IdsIncreasing(s[1..]);
        forall x | x in rest ensures s[0].id < x.id {
          var k :| 0 <= k < |s[1..]| && s[1..][k] == x;
          assert s[k + 1] == x;
        }
      }
    }
  }

  /** Inserts `x` into an ordered sequence at its place by age. */
  function Insert(x: Item, s: seq<Item>): seq<Item> {
    if |s| == 0 then [x]
    else if Before(x, s[0]) then [x] + s
    else [s[0]] + Insert(x, s[1..])
  }

  /** Insertion adds exactly `x` and keeps the sequence ordered. */
  lemma {:induction false} InsertOrdered(x: Item, s: seq<Item>)
    requires Ordered(s)
    requires forall y :: y in s ==> y.id != x.id
    ensures Ordered(Insert(x, s))
    ensures multiset(Insert(x, s)) == multiset(s) + multiset{x}
  {
    if |s| > 0 && !Before(x, s[0]) {
      var rest := Insert(x, s[1..]);
      assert s == [s[0]] + s[1..];
      InsertOrdered(x, s[1..]);
      assert Before(s[0], x);
      forall y | y in rest ensures Before(s[0], y) {
        assert y in multiset(rest);
        if y != x {
          assert y in multiset(s[1..]);
          var k :| 0 <= k < |s[1..]| && s[1..][k] == y;
          assert s[k + 1] == y;
        }
      }
    }
  }

  /** Insertion sort by age. */
  function SortByAge(s: seq<Item>): seq<Item> {
    if |s| == 0 then [] else Insert(s[0], SortByAge(s[1..]))
  }

  /** Sorting a sequence of distinct rows orders it by age and keeps every row exactly once. */
  lemma {:induction false} SortByAgeSorts(s: seq<Item>)
    requires IdsDistinct(s)
    ensures Ordered(SortByAge(s))
    ensures multiset(SortByAge(s)) == multiset(s)
  {
    if |s| > 0 {
      var rest := SortByAge(s[1..]);
      SortByAgeSorts(s[1..]);
      assert s == [s[0]] + s[1..];
      forall y | y in rest ensures y.id != s[0].id {
        assert y in multiset(s[1..]);
        var k :| 0 <= k < |s[1..]| && s[1..][k] == y;
        assert s[k + 1] == y;
      }
      InsertOrdered(s[0], rest);
    }
  }

  /** The eligible rows of the table, oldest first. */
  function EligibleByAge(store: Store, cfg: Config, now: int): (q: seq<Item>)
    ensures Ordered(q)
    ensures forall x :: x in q <==> x in Rows(store) && Eligible(x.row, cfg, now)
  {
    var rows := Rows(store);
    var eligible := FilterEligible(rows, cfg, now);
    FilterEligibleKeeps(rows, cfg, now);
    assert IdsIncreasing(rows);
    SortByAgeSorts(eligible);
    var q := SortByAge(eligible);
    assert forall x :: x in q <==> x in eligible by {
      forall x ensures x in q <==> x in eligible {
        assert x in q <==> x in multiset(q);
      }
    }
    q
  }

  function Min(a: int, b: int): int {
    if a <= b then a else b
  }

  /**
   * The batch of one processing round: every selected record is an eligible
   * row of the table, the batch is oldest first and no longer than
   * `mailsPerRound`, and an eligible record is left out only when the batch is
   * full of records older than it.
   */
  function Select(store: Store, cfg: Config, now: int): (batch: seq<Item>)
    ensures |batch| <= cfg.mailsPerRound
    ensures Ordered(batch)
    ensures forall k :: 0 <= k < |batch| ==>
      batch[k].id < |store| && batch[k].row == store[batch[k].id] && Eligible(batch[k].row, cfg, now)
    ensures forall i :: 0 <= i < |store| && Eligible(store[i], cfg, now) && Item(i, store[i]) !in batch ==>
      |batch| == cfg.mailsPerRound && forall k :: 0 <= k < |batch| ==> Before(batch[k], Item(i, store[i]))
  {
    var q := EligibleByAge(store, cfg, now);
    var n := Min(cfg.mailsPerRound, |q|);
    var batch := q[..n];
    assert forall k :: 0 <= k < |batch| ==>
      batch[k].id < |store| && batch[k].row == store[batch[k].id] && Eligible(batch[k].row, cfg, now) by {
      forall k | 0 <= k < |batch|
        ensures batch[k].id < |store| && batch[k].row == store[batch[k].id] && Eligible(batch[k].row, cfg, now)
      {
        assert batch[k] == q[k];
        assert q[k] in Rows(store);
      }
    }
    forall i | 0 <= i < |store| && Eligible(store[i], cfg, now) && Item(i, store[i]) !in batch
      ensures |batch| == cfg.mailsPerRound && forall k :: 0 <= k < |batch| ==> Before(batch[k], Item(i, store[i]))
    {
      var x := Item(i, store[i]);
      assert x in Rows(store);
      var p :| 0 <= p < |q| && q[p] == x;
      assert p >= n;
    }
    batch
  }
}
