/** Byte ranges that cut [from, size) into consecutive pieces of a fixed width,
    the last one possibly shorter: the arithmetic shared by the 1 MiB
    sub-blocks of the tree hash, the chunks of FileChunker.PartIterator and
    the ranged fetches of GlacierManager.download. */
module Ranges {
  import opened Wrappers
  import opened Seqs

  /** The half-open byte range [start, start + len). */
  datatype Span = Span(start: nat, len: nat) {
    function End(): nat { start + len }
  }

  function Min(a: int, b: int): int { if a <= b then a else b }

  /** The ranges a reader produces starting at `from` when every step reads
      min(size - pos, step) bytes at the current position `pos`. */
  function Spans(from: nat, size: nat, step: nat): (r: seq<Span>)
    requires step > 0
    ensures forall k :: 0 <= k < |r| ==> from <= r[k].start && r[k].End() <= size
    decreases size - from
  {
    if from >= size then []
    else [Span(from, Min(size - from, step))] + Spans(from + Min(size - from, step), size, step)
  }

  /** ceil(n / step), written the way TreeHash.getChunkSHA256Hashes counts. */
  function CeilDiv(n: nat, step: nat): nat
    requires step > 0
  {
    n / step + (if n % step > 0 then 1 else 0)
  }

  function TotalLen(spans: seq<Span>): nat
    decreases |spans|
  {
    if |spans| == 0 then 0 else spans[0].len + TotalLen(spans[1..])
  }

  lemma DivModUnique(n: int, d: int, q: int, r: int)
    requires d > 0 && 0 <= r < d && n == d * q + r
    ensures n / d == q && n % d == r
  {
    var q', r' := n / d, n % d;
    assert d * q + r == d * q' + r';
    assert d * (q - q') == r' - r by {
      assert d * (q - q') == d * q - d * q';
    }
    if q - q' >= 1 {
      MulAtLeast(d, q - q');
    } else if q' - q >= 1 {
      MulAtLeast(d, q' - q);
    }
  }

  lemma {:induction false} MulAtLeast(d: int, t: int)
    requires d > 0 && t >= 1
    ensures d * t >= d
    decreases t
  {
    if t > 1 {
      MulAtLeast(d, t - 1);
      assert d * t == d * (t - 1) + d;
    }
  }

  lemma DivModStep(n: nat, step: nat)
    requires step > 0 && n >= step
    ensures (n - step) / step == n / step - 1
    ensures (n - step) % step == n % step
  {
    var q, r := (n - step) / step, (n - step) % step;
    assert n == step * (q + 1) + r;
    DivModUnique(n, step, q + 1, r);
  }

  lemma DivModSmall(n: nat, step: nat)
    requires 0 < n <= step
    ensures CeilDiv(n, step) == 1
  {
    if n < step {
      DivModUnique(n, step, 0, n);
    } else {
      DivModUnique(n, step, 1, 0);
    }
  }

  /** The quotient rounded down: q blocks of `step` fit in n, q + 1 do not. */
  lemma DivBounds(n: nat, step: nat)
    requires step > 0
    ensures 0 <= (n / step) * step <= n < (n / step + 1) * step
  {
    var q := n / step;
    assert n == q * step + n % step;
    assert (q + 1) * step == q * step + step;
  }

  /** ceil(n / step) blocks of `step` bytes are the fewest that hold n bytes. */
  lemma CeilDivBounds(n: nat, step: nat)
    requires step > 0 && n > 0
    ensures (CeilDiv(n, step) - 1) * step < n <= CeilDiv(n, step) * step
  {
    var q, r := n / step, n % step;
    assert n == q * step + r;
    if r > 0 {
      assert (q + 1) * step == q * step + step;
    } else {
      assert q >= 1;
      assert (q - 1) * step == q * step - step;
    }
  }

  lemma StepMul(from: nat, step: nat, k: nat)
    requires k > 0
    ensures from + step + (k - 1) * step == from + k * step
  {
  }

  /** There are ceil((size - from) / step) ranges. */
  lemma {:induction false} SpansCount(from: nat, size: nat, step: nat)
    requires step > 0
    ensures from <= size ==> |Spans(from, size, step)| == CeilDiv(size - from, step)
    decreases size - from
  {
    if from < size {
      var n := size - from;
      if n <= step {
        DivModSmall(n, step);
        assert Spans(from + n, size, step) == [];
      } else {
        SpansCount(from + step, size, step);
        DivModStep(n, step);
      }
    }
  }

  /** Range k starts k steps after `from` and has width min(step, what is left). */
  lemma {:induction false} SpansAt(from: nat, size: nat, step: nat, k: nat)
    requires step > 0 && k < |Spans(from, size, step)|
    ensures Spans(from, size, step)[k].start == from + k * step
    ensures Spans(from, size, step)[k].len == Min(step, size - (from + k * step))
    ensures Spans(from, size, step)[k].len > 0
    ensures Spans(from, size, step)[k].End() <= size
    decreases k
  {
    var len := Min(size - from, step);
    var rest := Spans(from + len, size, step);
    assert Spans(from, size, step) == [Span(from, len)] + rest;
    if k > 0 {
      assert |rest| > 0;
      assert len == step;
      SpansAt(from + step, size, step, k - 1);
      var s := rest[k - 1];
      assert Spans(from, size, step)[k] == s;
      var m := (k - 1) * step;
      assert k * step == m + step by {
        StepMul(0, step, k);
      }
      assert s.start == from + step + m;
    }
  }

  /** The ranges lie inside [from, size), contiguously and in order; every
      range but the last is exactly `step` wide, and the last one ends at
      `size`. */
  lemma SpansPartition(from: nat, size: nat, step: nat)
    requires step > 0
    ensures var r := Spans(from, size, step);
      && (from < size ==> |r| > 0 && r[0].start == from && r[|r| - 1].End() == size)
      && (from >= size ==> r == [])
      && (forall k :: 0 <= k < |r| ==> from <= r[k].start && 0 < r[k].len && r[k].End() <= size)
      && (forall k :: 0 <= k < |r| - 1 ==> r[k].len == step && r[k + 1].start == r[k].End())
  {
    SpansInside(from, size, step);
    SpansContiguous(from, size, step);
    if from < size {
      SpansLastEnd(from, size, step);
    }
  }

  lemma SpansInside(from: nat, size: nat, step: nat)
    requires step > 0
    ensures var r := Spans(from, size, step);
      forall k :: 0 <= k < |r| ==> from <= r[k].start && 0 < r[k].len && r[k].End() <= size
  {
    var r := Spans(from, size, step);
    forall k | 0 <= k < |r|
      ensures from <= r[k].start && 0 < r[k].len && r[k].End() <= size
    {
      SpansAt(from, size, step, k);
    }
  }

  lemma SpansContiguous(from: nat, size: nat, step: nat)
    requires step > 0
    ensures var r := Spans(from, size, step);
      forall k :: 0 <= k < |r| - 1 ==> r[k].len == step && r[k + 1].start == r[k].End()
  {
    var r := Spans(from, size, step);
    forall k | 0 <= k < |r| - 1
      ensures r[k].len == step && r[k + 1].start == r[k].End()
    {
      SpansAt(from, size, step, k);
      SpansAt(from, size, step, k + 1);
      assert (k + 1) * step == k * step + step;
    }
  }

  lemma {:induction false} SpansLastEnd(from: nat, size: nat, step: nat)
    requires step > 0 && from < size
    ensures var r := Spans(from, size, step); |r| > 0 && r[|r| - 1].End() == size
    decreases size - from
  {
    var len := Min(size - from, step);
    if from + len < size {
      SpansLastEnd(from + len, size, step);
    } else {
      assert Spans(from + len, size, step) == [];
    }
  }

  /** The widths add up to the size of [from, size). */
  lemma {:induction false} SpansTotal(from: nat, size: nat, step: nat)
    requires step > 0
    ensures from <= size ==> TotalLen(Spans(from, size, step)) == size - from
    decreases size - from
  {
    if from < size {
      var len := Min(size - from, step);
      var rest := Spans(from + len, size, step);
      assert Spans(from, size, step) == [Span(from, len)] + rest;
      assert Spans(from, size, step)[1..] == rest;
      SpansTotal(from + len, size, step);
    }
  }

  /** The bytes of `data` in each range. */
  function Slices(data: Bytes, spans: seq<Span>): (r: seq<Bytes>)
    requires forall k :: 0 <= k < |spans| ==> spans[k].start + spans[k].len <= |data|
    ensures |r| == |spans|
  {
    seq(|spans|, k requires 0 <= k < |spans| => data[spans[k].start..spans[k].start + spans[k].len])
  }

  /** `data` cut into consecutive pieces of `step` bytes, the last one shorter. */
  function Pieces(data: Bytes, step: nat): (r: seq<Bytes>)
    requires step > 0
    ensures |r| == CeilDiv(|data|, step)
  {
    SpansCount(0, |data|, step);
    Slices(data, Spans(0, |data|, step))
  }

  /** The pieces of data[from..] put back together give data[from..]:
      every byte is in exactly one piece, in order. */
  lemma {:induction false} SlicesConcat(data: Bytes, from: nat, step: nat)
    requires step > 0 && from <= |data|
    ensures Concat(Slices(data, Spans(from, |data|, step))) == data[from..]
    decreases |data| - from
  {
    var spans := Spans(from, |data|, step);
    if from < |data| {
      var len := Min(|data| - from, step);
      var rest := Spans(from + len, |data|, step);
      assert spans == [Span(from, len)] + rest;
      SlicesCons(data, spans);
      SlicesConcat(data, from + len, step);
      Glue(data, from, len);
    }
  }

  lemma Glue(data: Bytes, from: nat, len: nat)
    requires from + len <= |data|
    ensures data[from..from + len] + data[from + len..] == data[from..]
  {
    assert data[from..from + len] + data[from + len..] == data[from..];
  }

  lemma SlicesCons(data: Bytes, spans: seq<Span>)
    requires |spans| > 0
    requires forall k :: 0 <= k < |spans| ==> spans[k].start + spans[k].len <= |data|
    ensures Concat(Slices(data, spans)) == data[spans[0].start..spans[0].start + spans[0].len] + Concat(Slices(data, spans[1..]))
  {
    assert Slices(data, spans)[1..] == Slices(data, spans[1..]);
  }

  lemma PiecesConcat(data: Bytes, step: nat)
    requires step > 0
    ensures Concat(Pieces(data, step)) == data
  {
    SlicesConcat(data, 0, step);
  }

  /** Piece k is the k-th block of `step` bytes of `data`. */
  lemma PiecesAt(data: Bytes, step: nat, k: nat)
    requires step > 0 && k < |Pieces(data, step)|
    ensures k * step < |data|
    ensures Pieces(data, step)[k] == data[k * step..Min(|data|, (k + 1) * step)]
  {
    SpansCount(0, |data|, step);
    SpansAt(0, |data|, step, k);
  }
}
