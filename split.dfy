/** The train/validation split: the first 90% of the corpus's characters (rounded down) for
    training, the rest for validation. */
module Split {

  /** `int(n*0.9)`, computed exactly: the largest `k` with `10 * k <= 9 * n`. */
  function SplitOffset(n: nat): (k: nat)
    ensures k <= n
    ensures 10 * k <= 9 * n < 10 * k + 10
  {
    n * 9 / 10
  }

  /** The training prefix and the validation suffix; together they are the corpus, in order,
      with nothing lost and nothing repeated. */
  function TrainVal(data: string): (r: (string, string))
    ensures r.0 + r.1 == data
    ensures |r.0| == SplitOffset(|data|)
    ensures |r.1| == |data| - SplitOffset(|data|)
  {
    var k := SplitOffset(|data|);
    (data[..k], data[k..])
  }

  /** Every position of the corpus lands in exactly one half: below the offset in the
      training half, at or above it in the validation half. */
  lemma SplitPositions(data: string, j: nat)
    requires j < |data|
    ensures j < SplitOffset(|data|) ==> TrainVal(data).0[j] == data[j]
    ensures j >= SplitOffset(|data|) ==> TrainVal(data).1[j - SplitOffset(|data|)] == data[j]
  {
  }

  /** The recorded run: 1115394 characters split into 1003854 for training and 111540 for validation. */
  lemma RecordedRun()
    ensures SplitOffset(1115394) == 1003854
    ensures 1115394 - SplitOffset(1115394) == 111540
  {
  }
}
