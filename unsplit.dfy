/**
 * The reassembly loop of modules/unsplit.py: for every key of the first shard,
 * the tensors stored under that key in all shards, in list order, concatenated
 * along dimension 0. A shard is a map from weight name to the rows of its
 * tensor along dimension 0, so `torch.cat(..., dim=0)` is sequence
 * concatenation. Loading and saving the files are outside this module.
 */
module Unsplit {
  import opened Wrappers

  type Shard<Row> = map<string, seq<Row>>

  /** How the script fails: `all_weights[0]` on an empty list, or `w[key]` on a shard without `key`. */
  datatype UnsplitError = NoShards | MissingKey(key: string, shard: nat)

  /** Every shard stores `key`. */
  predicate InAll<Row>(shards: seq<Shard<Row>>, key: string) {
    forall i | 0 <= i < |shards| :: key in shards[i]
  }

  /** Every key of the first shard is stored in every shard: reassembly raises no KeyError. */
  predicate Complete<Row>(shards: seq<Shard<Row>>) {
    |shards| > 0 && forall key | key in shards[0] :: InAll(shards, key)
  }

  /**
   * The rows of `key` from each shard, one shard after the other: the
   * concatenation along dimension 0. Its length is the sum of the shards' lengths.
   */
  function Column<Row>(shards: seq<Shard<Row>>, key: string): (rows: seq<Row>)
    requires InAll(shards, key)
    ensures |rows| == TotalRows(shards, key)
  {
    if shards == [] then []
    else
      var n := |shards|;
      TotalRowsSnoc(shards[..n - 1], shards[n - 1], key);
      assert shards[..n - 1] + [shards[n - 1]] == shards;
      Column(shards[..n - 1], key) + shards[n - 1][key]
  }

  /** The number of rows stored under `key`, summed over the shards. */
  function TotalRows<Row>(shards: seq<Shard<Row>>, key: string): nat
    requires InAll(shards, key)
  {
    if shards == [] then 0 else |shards[0][key]| + TotalRows(shards[1..], key)
  }

  /** The dictionary `final_weights` the script saves. */
  function Reassembled<Row>(shards: seq<Shard<Row>>): (m: map<string, seq<Row>>)
    requires Complete(shards)
    ensures m.Keys == shards[0].Keys
    ensures forall key | key in m :: m[key] == Column(shards, key) && |m[key]| == TotalRows(shards, key)
    ensures forall i, key | 0 <= i < |shards| && key in shards[i] && key !in shards[0] :: key !in m
  {
    map key | key in shards[0] :: Column(shards, key)
  }

  /** Lines 15-19: build `final_weights` key by key, failing on the first shard that lacks a key. */
  method Reassemble<Row>(shards: seq<Shard<Row>>) returns (r: Result<map<string, seq<Row>>, UnsplitError>)
    ensures r.Success? <==> Complete(shards)
    ensures r.Success? ==> r.value == Reassembled(shards)
    ensures |shards| == 0 ==> r.Failure? && r.error == NoShards
    ensures r.Failure? && |shards| > 0 ==>
              && r.error.MissingKey?
              && r.error.key in shards[0]
              && r.error.shard < |shards|
              && r.error.key !in shards[r.error.shard]
              && forall i | 0 <= i < r.error.shard :: r.error.key in shards[i]
  {
    if |shards| == 0 {
      return Failure(NoShards);
    }
    var finalWeights: map<string, seq<Row>> := map[];
    var pending := shards[0].Keys;
    while pending != {}
      invariant pending <= shards[0].Keys
      invariant finalWeights.Keys == shards[0].Keys - pending
      invariant forall key | key in finalWeights :: InAll(shards, key) && finalWeights[key] == Column(shards, key)
      decreases pending
    {
      var key :| key in pending;
      // Line 19: the rows of `key` from every shard, in list order, concatenated.
      var rows: seq<Row> := [];
      var i := 0;
      while i < |shards|
        invariant 0 <= i <= |shards|
        invariant InAll(shards[..i], key)
        invariant rows == Column(shards[..i], key)
      {
        if key !in shards[i] {
          return Failure(MissingKey(key, i));
        }
        assert shards[..i + 1][..i] == shards[..i];
        rows := rows + shards[i][key];
        i := i + 1;
      }
      assert shards[..i] == shards;
      finalWeights := finalWeights[key := rows];
      pending := pending - {key};
    }
    return Success(finalWeights);
  }

  // ---------------------------------------------------------------------------
  // Lemmas about the concatenation.
  // ---------------------------------------------------------------------------

  lemma {:induction false} TotalRowsSnoc<Row>(shards: seq<Shard<Row>>, last: Shard<Row>, key: string)
    requires InAll(shards, key) && key in last
    ensures InAll(shards + [last], key)
    ensures TotalRows(shards + [last], key) == TotalRows(shards, key) + |last[key]|
  {
    if shards != [] {
      assert (shards + [last])[1..] == shards[1..] + [last];
      TotalRowsSnoc(shards[1..], last, key);
    }
  }

  /** Concatenating the shard list concatenates the columns. */
  lemma {:induction false} ColumnAppend<Row>(a: seq<Shard<Row>>, b: seq<Shard<Row>>, key: string)
    requires InAll(a, key) && InAll(b, key)
    ensures InAll(a + b, key)
    ensures Column(a + b, key) == Column(a, key) + Column(b, key)
  {
    if b == [] {
      assert a + b == a;
    } else {
      var n := |b|;
      ColumnAppend(a, b[..n - 1], key);
      assert (a + b)[..|a + b| - 1] == a + b[..n - 1];
    }
  }

  /**
   * Order: shard `i`'s rows sit in the result right after the rows of the
   * shards before it.
   */
  lemma ColumnSegment<Row>(shards: seq<Shard<Row>>, key: string, i: nat)
    requires InAll(shards, key) && i < |shards|
    ensures var start := |Column(shards[..i], key)|;
            start + |shards[i][key]| <= |Column(shards, key)|
            && Column(shards, key)[start..start + |shards[i][key]|] == shards[i][key]
  {
    var before, here, after := shards[..i], [shards[i]], shards[i + 1..];
    assert shards == before + here + after;
    ColumnAppend(before, here, key);
    ColumnAppend(before + here, after, key);
    assert Column(here, key) == shards[i][key] by {
      assert here[..0] == [];
    }
  }
}
