/** Values shared by the host's conditioning code and this extension. */
module Conditioning {

  /** One row of a conditioning tensor: the embedding of one token. */
  type Row = seq<real>

  /** A conditioning tensor; its number of rows is what the host calls `size(0)`. */
  type Cond = seq<Row>

  /** The host's `ScheduledPromptConditioning`: `cond` is in force up to step `endAtStep`. */
  datatype ScheduledCond = ScheduledCond(endAtStep: int, cond: Cond)

  /** `k` copies of `c` stacked along the row axis, as `torch.concatenate([c] * k)`;
      a Python list repeated a non-positive number of times is empty, so is this. */
  function Copies(c: Cond, k: int): (r: Cond)
    decreases if k <= 0 then 0 else k
    ensures |r| == if k <= 0 then 0 else k * |c|
  {
    if k <= 0 then [] else Copies(c, k - 1) + c
  }

  /** Row `j` of `k` stacked copies of `c` is row `j mod |c|` of `c`. */
  lemma {:induction false} CopiesRow(c: Cond, k: int, j: int)
    requires 0 <= j < |Copies(c, k)|
    decreases if k <= 0 then 0 else k
    ensures |c| > 0 && Copies(c, k)[j] == c[j % |c|]
  {
    var front := Copies(c, k - 1);
    assert Copies(c, k) == front + c;
    if j < |front| {
      CopiesRow(c, k - 1, j);
    } else {
      ModOfBlock(j, k - 1, |c|);
    }
  }

  /** An index inside block `q` of a sequence of blocks of length `n` lies at offset `j - q * n` of it. */
  lemma ModOfBlock(j: int, q: nat, n: nat)
    requires n > 0 && q * n <= j < q * n + n
    ensures j % n == j - q * n
  {
    var q', t := j / n, j % n;
    assert j == q' * n + t && 0 <= t < n;
    if q' > q {
      MulStep(q', q, n);
      assert false;
    } else if q' < q {
      MulStep(q, q', n);
      assert false;
    }
  }

  /** Multiplying by a positive `n` keeps distinct integers at least `n` apart. */
  lemma MulStep(a: int, b: int, n: int)
    requires n > 0 && a > b
    ensures a * n >= b * n + n
  {
    var d := a - b;
    assert a * n == b * n + d * n;
    assert d * n == (d - 1) * n + n;
    assert (d - 1) * n >= 0;
  }
}
