/**
 Splitting the collected projects of an epoch into batches for the finalizer workers. The source
 keeps the projects in a map whose values it does not look at; T stands for them.
 */
module Splitting {

  type Batch<T> = map<string, T>

  /** The projects that occur in some batch. */
  ghost function KeysOf<T>(batches: seq<Batch<T>>): set<string> {
    if batches == [] then {}
    else KeysOf(batches[..|batches| - 1]) + batches[|batches| - 1].Keys
  }

  /** Each batch has only projects that no earlier batch has, and nothing in it is changed. */
  ghost predicate SharesOut<T>(projects: Batch<T>, batches: seq<Batch<T>>) {
    batches == [] ||
    (var front, last := batches[..|batches| - 1], batches[|batches| - 1];
     && SharesOut(projects, front)
     && last.Keys !! KeysOf(front)
     && forall id | id in last :: id in projects && last[id] == projects[id])
  }

  /** The batches share out the projects: none overlap, nothing is lost, added or changed. */
  ghost predicate IsSplit<T>(projects: Batch<T>, batches: seq<Batch<T>>) {
    SharesOut(projects, batches) && KeysOf(batches) == projects.Keys
  }

  ghost predicate AllOfSize<T>(batches: seq<Batch<T>>, size: nat) {
    forall i | 0 <= i < |batches| :: |batches[i]| == size
  }

  /** All batches but the last have the given size; the last is neither empty nor larger. */
  ghost predicate AreFull<T>(batches: seq<Batch<T>>, size: nat) {
    var n := |batches|;
    n > 0 ==> AllOfSize(batches[..n - 1], size) && 0 < |batches[n - 1]| <= size
  }

  lemma {:induction false} InSomeBatch<T>(batches: seq<Batch<T>>, id: string)
    ensures id in KeysOf(batches) <==> exists i :: 0 <= i < |batches| && id in batches[i]
  {
    if batches != [] {
      var front := batches[..|batches| - 1];
      InSomeBatch(front, id);
      assert forall i | 0 <= i < |front| :: front[i] == batches[i];
    }
  }

  /** A project is in one batch only, with the data it came with. */
  lemma {:induction false} BatchesAreDisjoint<T>(projects: Batch<T>, batches: seq<Batch<T>>, i: nat, id: string)
    requires SharesOut(projects, batches) && i < |batches| && id in batches[i]
    ensures id in projects && batches[i][id] == projects[id]
    ensures forall j | 0 <= j < |batches| && j != i :: id !in batches[j]
  {
    var n := |batches| - 1;
    if i < n {
      BatchesAreDisjoint(projects, batches[..n], i, id);
      InSomeBatch(batches[..n], id);
    } else {
      forall j | 0 <= j < n
        ensures id !in batches[j]
      {
        assert batches[..n][j] == batches[j];
        InSomeBatch(batches[..n], id);
      }
    }
  }

  // ---------------------------------------------------------------- the loop

  /** The projects placed so far, in a finished batch or in the one being filled. */
  ghost function Placed<T>(batches: seq<Batch<T>>, current: Batch<T>): set<string> {
    KeysOf(batches) + current.Keys
  }

  /** The batches and the one being filled share out what has been placed. */
  ghost predicate IsSplitting<T>(projects: Batch<T>, batches: seq<Batch<T>>, current: Batch<T>) {
    && SharesOut(projects, batches)
    && current.Keys !! KeysOf(batches)
    && forall id | id in current :: id in projects && current[id] == projects[id]
  }

  lemma Place<T>(projects: Batch<T>, batches: seq<Batch<T>>, current: Batch<T>, id: string)
    requires IsSplitting(projects, batches, current) && id in projects && id !in Placed(batches, current)
    ensures IsSplitting(projects, batches, current[id := projects[id]])
  {
    Grow(current, id, projects[id]);
  }

  lemma PlacedGrows<T>(batches: seq<Batch<T>>, current: Batch<T>, id: string, data: T)
    requires id !in Placed(batches, current)
    ensures Placed(batches, current[id := data]) == Placed(batches, current) + {id}
    ensures |current[id := data]| == |current| + 1
  {
    Grow(current, id, data);
  }

  lemma Grow<T>(batch: Batch<T>, id: string, data: T)
    requires id !in batch
    ensures batch[id := data].Keys == batch.Keys + {id} && |batch[id := data]| == |batch| + 1
  {
    assert |batch[id := data].Keys| == |batch.Keys + {id}|;
  }

  lemma Close<T>(projects: Batch<T>, batches: seq<Batch<T>>, current: Batch<T>)
    requires IsSplitting(projects, batches, current)
    ensures IsSplitting(projects, batches + [current], map[])
    ensures Placed(batches + [current], map[]) == Placed(batches, current)
  {
    var more := batches + [current];
    assert more[..|batches|] == batches && more[|batches|] == current;
    assert KeysOf(more) == KeysOf(batches) + current.Keys;
  }

  lemma CloseSize<T>(batches: seq<Batch<T>>, current: Batch<T>, size: nat)
    requires AllOfSize(batches, size) && 0 < |current| <= size
    ensures AreFull(batches + [current], size)
    ensures |current| == size ==> AllOfSize(batches + [current], size)
  {
    assert (batches + [current])[..|batches|] == batches;
  }

  lemma AllPlaced<T>(projects: Batch<T>, batches: seq<Batch<T>>)
    requires IsSplitting(projects, batches, map[]) && Placed(batches, map[]) == projects.Keys
    ensures IsSplit(projects, batches)
  {
    assert KeysOf(batches) == Placed<T>(batches, map[]);
  }

  lemma Remaining(all: set<string>, remaining: set<string>, id: string)
    requires id in remaining && remaining <= all
    ensures all - (remaining - {id}) == all - remaining + {id}
  {}

  /** What has been placed so far, with a batch being filled that is not full. */
  ghost predicate SplitSoFar<T>(submissions: Batch<T>, batches: seq<Batch<T>>, current: Batch<T>, remaining: set<string>, size: nat) {
    && IsSplitting(submissions, batches, current)
    && Placed(batches, current) == submissions.Keys - remaining
    && |current| < size
    && AllOfSize(batches, size) && AreFull(batches, size)
  }

  lemma OneMorePlaced<T>(submissions: Batch<T>, batches: seq<Batch<T>>, current: Batch<T>, remaining: set<string>, size: nat, id: string)
    requires SplitSoFar(submissions, batches, current, remaining, size)
    requires remaining <= submissions.Keys && id in remaining
    ensures var grown := current[id := submissions[id]];
            && |grown| == |current| + 1
            && (|grown| < size ==> SplitSoFar(submissions, batches, grown, remaining - {id}, size))
            && (|grown| == size ==> SplitSoFar(submissions, batches + [grown], map[], remaining - {id}, size))
  {
    var grown := current[id := submissions[id]];
    Place(submissions, batches, current, id);
    PlacedGrows(batches, current, id, submissions[id]);
    Remaining(submissions.Keys, remaining, id);
    if |grown| == size {
      Close(submissions, batches, grown);
      CloseSize(batches, grown, size);
    }
  }

  lemma AllIsSplit<T>(submissions: Batch<T>, batches: seq<Batch<T>>, current: Batch<T>, size: nat)
    requires SplitSoFar(submissions, batches, current, {}, size)
    ensures current == map[] ==> IsSplit(submissions, batches) && AreFull(batches, size)
    ensures current != map[] ==> IsSplit(submissions, batches + [current]) && AreFull(batches + [current], size)
  {
    if current != map[] {
      Close(submissions, batches, current);
      CloseSize(batches, current, size);
      AllPlaced(submissions, batches + [current]);
    } else {
      AllPlaced(submissions, batches);
    }
  }

  method SplitIntoBatches<T>(submissions: Batch<T>, batchSize: int) returns (batches: seq<Batch<T>>)
    ensures IsSplit(submissions, batches)
    ensures AreFull(batches, if batchSize < 1 then 1 else batchSize)
  {
    batches := [];
    var currentBatch: Batch<T> := map[];
    var count := 0;
    var remaining := submissions.Keys;
    ghost var size := if batchSize < 1 then 1 else batchSize;
    while remaining != {}
      invariant remaining <= submissions.Keys && count == |currentBatch|
      invariant SplitSoFar(submissions, batches, currentBatch, remaining, size)
      decreases remaining
    {
      var projectId :| projectId in remaining;
      OneMorePlaced(submissions, batches, currentBatch, remaining, size, projectId);
      remaining := remaining - {projectId};
      currentBatch := currentBatch[projectId := submissions[projectId]];
      count := count + 1;
      if count >= batchSize {
        batches := batches + [currentBatch];
        currentBatch := map[];
        count := 0;
      }
    }
    AllIsSplit(submissions, batches, currentBatch, size);
    if |currentBatch| > 0 {
      batches := batches + [currentBatch];
    } else {
      assert currentBatch == map[];
    }
  }
}
