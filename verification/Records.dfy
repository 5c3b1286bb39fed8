/** Record batches as the channel bridge sees them. */
module Records {

  /** The registry compares whole schemas, the source only the fields. */
  datatype Schema = Schema(fields: seq<string>, metadata: string)

  datatype Batch = Batch(schema: Schema, rows: nat, payload: seq<int>)

  function Rows(batches: seq<Batch>): nat {
    if batches == [] then 0 else batches[0].rows + Rows(batches[1..])
  }

  lemma {:induction false} RowsOfConcat(a: seq<Batch>, b: seq<Batch>)
    ensures Rows(a + b) == Rows(a) + Rows(b)
  {
    if a == [] {
      assert a + b == b;
    } else {
      assert (a + b)[1..] == a[1..] + b;
      RowsOfConcat(a[1..], b);
    }
  }

  lemma RowsOfSplit(batches: seq<Batch>, k: nat)
    requires k <= |batches|
    ensures Rows(batches[..k]) + Rows(batches[k..]) == Rows(batches)
  {
    RowsOfConcat(batches[..k], batches[k..]);
    assert batches[..k] + batches[k..] == batches;
  }
}
