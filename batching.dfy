/**
 * `batched` of rag_chatbot/utils.py: the items of an iterable in consecutive lists
 * of `batch_size`, cut with `itertools.islice` from one shared iterator until a cut
 * comes back empty. The iterable is a finite sequence; the iterator is the position
 * `pos` of the next item not yet taken.
 */
module Batching {
  import opened Basics
  import opened Wrappers

  /** `islice` rejects a negative stop with a ValueError, raised when the first batch is requested. */
  datatype BatchError = NegativeBatchSize

  /** The batches still to come when the iterator stands at `pos`. */
  function GroupsFrom<T>(items: seq<T>, batchSize: int, pos: nat): seq<seq<T>>
    requires pos <= |items|
    decreases |items| - pos
  {
    if batchSize <= 0 || pos == |items| then []
    else
      var next := Min(pos + batchSize, |items|);
      [items[pos..next]] + GroupsFrom(items, batchSize, next)
  }

  /** Every batch `batched(items, batchSize)` yields, in order. */
  function Groups<T>(items: seq<T>, batchSize: int): seq<seq<T>> {
    GroupsFrom(items, batchSize, 0)
  }

  /** The items of all batches, in order. */
  function Flatten<T>(groups: seq<seq<T>>): seq<T> {
    if groups == [] then [] else groups[0] + Flatten(groups[1..])
  }

  /** Each batch is non-empty and holds at most `batchSize` items; every batch but the last holds exactly `batchSize`. */
  ghost predicate WellSized<T>(groups: seq<seq<T>>, batchSize: int) {
    (forall k :: 0 <= k < |groups| ==> 0 < |groups[k]| <= batchSize) &&
    (forall k :: 0 <= k < |groups| - 1 ==> |groups[k]| == batchSize)
  }

  method Batched<T>(items: seq<T>, batchSize: int) returns (r: Result<seq<seq<T>>, BatchError>)
    ensures batchSize < 0 ==> r == Failure(NegativeBatchSize)
    ensures batchSize >= 0 ==> r == Success(Groups(items, batchSize))
  {
    if batchSize < 0 {
      return Failure(NegativeBatchSize);
    }
    var batches: seq<seq<T>> := [];
    var pos := 0;
    while true
      invariant 0 <= pos <= |items|
      invariant batches + GroupsFrom(items, batchSize, pos) == Groups(items, batchSize)
      decreases |items| - pos
    {
      var next := Min(pos + batchSize, |items|);
      var batch := items[pos..next];
      if batch == [] {
        break;
      }
      AppendAssoc(batches, [batch], GroupsFrom(items, batchSize, next));
      batches := batches + [batch];
      pos := next;
    }
    assert batches + [] == batches;
    return Success(batches);
  }

  // ---------------------------------------------------------------------------
  // Properties

  lemma {:induction false} FlattenGroupsFrom<T>(items: seq<T>, batchSize: int, pos: nat)
    requires batchSize > 0 && pos <= |items|
    ensures Flatten(GroupsFrom(items, batchSize, pos)) == items[pos..]
    decreases |items| - pos
  {
    if pos < |items| {
      var next := Min(pos + batchSize, |items|);
      var gs := GroupsFrom(items, batchSize, pos);
      assert gs[0] == items[pos..next];
      assert gs[1..] == GroupsFrom(items, batchSize, next);
      FlattenGroupsFrom(items, batchSize, next);
      assert items[pos..] == items[pos..next] + items[next..];
    }
  }

  /** Concatenating the batches gives back the input, in order. */
  lemma FlattenGroups<T>(items: seq<T>, batchSize: int)
    requires batchSize > 0
    ensures Flatten(Groups(items, batchSize)) == items
  {
    FlattenGroupsFrom(items, batchSize, 0);
  }

  lemma {:induction false} GroupsFromWellSized<T>(items: seq<T>, batchSize: int, pos: nat)
    requires batchSize > 0 && pos <= |items|
    ensures WellSized(GroupsFrom(items, batchSize, pos), batchSize)
    ensures |items| - pos <= |GroupsFrom(items, batchSize, pos)| * batchSize < |items| - pos + batchSize
    decreases |items| - pos
  {
    if pos < |items| {
      var next := Min(pos + batchSize, |items|);
      var gs := GroupsFrom(items, batchSize, pos);
      var rest := GroupsFrom(items, batchSize, next);
      GroupsFromWellSized(items, batchSize, next);
      assert gs == [items[pos..next]] + rest;
      assert forall k :: 1 <= k < |gs| ==> gs[k] == rest[k - 1];
      assert |gs| * batchSize == batchSize + |rest| * batchSize;
      if next < |items| {
        assert next == pos + batchSize;
        assert rest != [];
      } else {
        assert rest == [];
      }
    }
  }

  /** `k` is ceil(n / b) exactly when `k` batches of `b` hold `n` items with less than one batch to spare. */
  lemma CeilByBounds(n: int, b: int, k: int)
    requires b > 0 && n <= k * b < n + b
    ensures k == (n + b - 1) / b
  {
    var q := (n + b - 1) / b;
    var r := (n + b - 1) % b;
    assert n + b - 1 == q * b + r && 0 <= r < b;
    assert (q - k) * b == q * b - k * b;
    ZeroByBounds(q - k, b);
  }

  /** The only multiple of `b` strictly between `-b` and `b` is 0. */
  lemma ZeroByBounds(d: int, b: int)
    requires b > 0 && -b < d * b < b
    ensures d == 0
  {
    MulNonNegative(d - 1, b);
    MulNonNegative(-d - 1, b);
    assert (d - 1) * b == d * b - b;
    assert (-d - 1) * b == -(d * b) - b;
  }

  lemma MulNonNegative(x: int, y: int)
    ensures x >= 0 && y >= 0 ==> x * y >= 0
  {
  }

  /** Batches are non-empty, at most `batchSize` long, full except possibly the last, and there are ceil(N / batchSize) of them. */
  lemma GroupsWellSized<T>(items: seq<T>, batchSize: int)
    requires batchSize > 0
    ensures WellSized(Groups(items, batchSize), batchSize)
    ensures |Groups(items, batchSize)| == (|items| + batchSize - 1) / batchSize
  {
    GroupsFromWellSized(items, batchSize, 0);
    CeilByBounds(|items|, batchSize, |Groups(items, batchSize)|);
  }

  /** An empty input and a batch size of 0 both yield no batch at all; with size 0 every item is dropped. */
  lemma NoBatches<T>(items: seq<T>, batchSize: int)
    requires items == [] || batchSize == 0
    ensures Groups(items, batchSize) == []
  {
  }

  /** The batches are the only well-sized split of the input: any other split that flattens back to `items` differs in sizes. */
  lemma {:induction false} GroupsUnique<T>(items: seq<T>, batchSize: int, groups: seq<seq<T>>)
    requires batchSize > 0 && WellSized(groups, batchSize) && Flatten(groups) == items
    ensures groups == Groups(items, batchSize)
  {
    UniqueFrom(items, batchSize, groups, 0);
  }

  lemma {:induction false} UniqueFrom<T>(items: seq<T>, batchSize: int, groups: seq<seq<T>>, pos: nat)
    requires batchSize > 0 && pos <= |items|
    requires WellSized(groups, batchSize) && Flatten(groups) == items[pos..]
    ensures groups == GroupsFrom(items, batchSize, pos)
    decreases |items| - pos
  {
    if groups == [] {
      assert items[pos..] == [];
    } else {
      var g := groups[0];
      var rest := groups[1..];
      assert Flatten(groups) == g + Flatten(rest);
      assert |g| > 0;
      var next := pos + |g|;
      assert items[pos..] == g + Flatten(rest);
      assert next <= |items|;
      assert g == items[pos..next];
      assert Flatten(rest) == items[next..];
      assert WellSized(rest, batchSize) by {
        assert forall k :: 0 <= k < |rest| ==> rest[k] == groups[k + 1];
      }
      if rest == [] {
        assert items[next..] == [];
        assert next == |items|;
        assert next == Min(pos + batchSize, |items|);
      } else {
        assert |g| == batchSize;
        assert Flatten(rest) == rest[0] + Flatten(rest[1..]);
        assert next < |items|;
        assert next == Min(pos + batchSize, |items|);
      }
      UniqueFrom(items, batchSize, rest, next);
    }
  }
}
