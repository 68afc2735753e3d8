/** The work split of the multi-threaded space with quantity balancing:
    CalculatePluginRangeForThread hands thread `id` a half-open range of
    the `total` plugins so that every thread gets total / threads of them and
    the first total % threads threads get one more. */
module ThreadBalance {

  /** CRange<size_t>: [min, max).  The default range is [0, 0). */
  datatype Range = Range(min: nat, max: nat)

  predicate Contains(r: Range, p: nat) {
    r.min <= p < r.max
  }

  function Min(a: nat, b: nat): nat {
    if a <= b then a else b
  }

  /** CalculatePluginRangeForThread; `threads` is the simulator's thread
      count, which is always at least one. */
  function PluginRange(id: nat, total: nat, threads: nat): Range
    requires threads > 0
  {
    var minPortion := total / threads;
    var extraPortion := total % threads;
    if minPortion == 0 then
      if id < extraPortion then Range(id, id + 1) else Range(0, 0)
    else if id < extraPortion then
      Range(id * (minPortion + 1), (id + 1) * (minPortion + 1))
    else
      Range(extraPortion * (minPortion + 1) + (id - extraPortion) * minPortion,
            extraPortion * (minPortion + 1) + (id - extraPortion + 1) * minPortion)
  }

  /** Reference split: thread id starts where all earlier threads' plugins end. */
  function Start(id: nat, total: nat, threads: nat): nat
    requires threads > 0
  {
    id * (total / threads) + Min(id, total % threads)
  }

  lemma StartStep(id: nat, total: nat, threads: nat)
    requires threads > 0
    ensures Start(id + 1, total, threads) - Start(id, total, threads)
            == total / threads + (if id < total % threads then 1 else 0)
    ensures Start(id, total, threads) <= Start(id + 1, total, threads)
  {
    var m := total / threads;
    assert (id + 1) * m == id * m + m;
  }

  lemma StartEnds(total: nat, threads: nat)
    requires threads > 0
    ensures Start(0, total, threads) == 0
    ensures Start(threads, total, threads) == total
  {
    assert threads * (total / threads) + total % threads == total;
  }

  /** With at least one plugin per thread, a thread's range runs from its
      start to the next thread's start. */
  lemma RangeIsSliceExactly(id: nat, total: nat, threads: nat)
    requires threads > 0 && total / threads > 0
    ensures PluginRange(id, total, threads)
            == Range(Start(id, total, threads), Start(id + 1, total, threads))
  {
    var m := total / threads;
    var e := total % threads;
    if id < e {
      assert id * (m + 1) == id * m + id;
      assert (id + 1) * (m + 1) == (id + 1) * m + id + 1;
    } else {
      assert e * (m + 1) + (id - e) * m == id * m + e;
      assert e * (m + 1) + (id - e + 1) * m == (id + 1) * m + e;
    }
  }

  /** A thread's range holds exactly the plugins between its start and the
      next thread's start. */
  lemma RangeIsSlice(id: nat, total: nat, threads: nat, p: nat)
    requires threads > 0
    ensures Contains(PluginRange(id, total, threads), p)
            <==> Start(id, total, threads) <= p < Start(id + 1, total, threads)
  {
    StartStep(id, total, threads);
    if total / threads > 0 {
      RangeIsSliceExactly(id, total, threads);
    }
  }

  /** Every range is well formed, within [0, total), and has the balanced
      size: total / threads, plus one for the first total % threads ids. */
  lemma RangeBounds(id: nat, total: nat, threads: nat)
    requires threads > 0 && id < threads
    ensures PluginRange(id, total, threads).min <= PluginRange(id, total, threads).max <= total
    ensures PluginRange(id, total, threads).max - PluginRange(id, total, threads).min
            == total / threads + (if id < total % threads then 1 else 0)
  {
    StartStep(id, total, threads);
    StartEnds(total, threads);
    StartMonotone(id + 1, threads, total, threads);
    if total / threads > 0 {
      RangeIsSliceExactly(id, total, threads);
    }
  }

  lemma {:induction false} StartMonotone(a: nat, b: nat, total: nat, threads: nat)
    requires threads > 0 && a <= b
    ensures Start(a, total, threads) <= Start(b, total, threads)
  {
    if a < b {
      StartMonotone(a, b - 1, total, threads);
      StartStep(b - 1, total, threads);
    }
  }

  /** When there are fewer plugins than threads, thread id < total gets
      plugin id alone and every other thread gets nothing. */
  lemma FewPlugins(id: nat, total: nat, threads: nat)
    requires threads > 0 && total < threads
    ensures id < total ==> PluginRange(id, total, threads) == Range(id, id + 1)
    ensures id >= total ==> PluginRange(id, total, threads).min == PluginRange(id, total, threads).max
  {
    SmallQuotient(total, threads);
  }

  lemma SmallQuotient(total: nat, threads: nat)
    requires total < threads
    ensures total / threads == 0 && total % threads == total
  {
  }

  /** The ranges of threads 0 .. threads-1 partition [0, total): every
      plugin belongs to exactly one thread. */
  lemma Partition(total: nat, threads: nat, p: nat)
    requires threads > 0 && p < total
    ensures exists id: nat :: id < threads && Contains(PluginRange(id, total, threads), p)
    ensures forall a: nat, b: nat ::
              (a < threads && b < threads && Contains(PluginRange(a, total, threads), p)
               && Contains(PluginRange(b, total, threads), p)) ==> a == b
  {
    StartEnds(total, threads);
    var id := Owner(p, 0, total, threads);
    RangeIsSlice(id, total, threads, p);
    forall a: nat, b: nat | a < threads && b < threads
        && Contains(PluginRange(a, total, threads), p)
        && Contains(PluginRange(b, total, threads), p)
      ensures a == b
    {
      RangeIsSlice(a, total, threads, p);
      RangeIsSlice(b, total, threads, p);
      if a < b {
        StartMonotone(a + 1, b, total, threads);
      } else if b < a {
        StartMonotone(b + 1, a, total, threads);
      }
    }
  }

  /** The thread whose slice holds p, searched from thread `from` up. */
  function Owner(p: nat, from: nat, total: nat, threads: nat): (id: nat)
    requires threads > 0 && from < threads
    requires Start(from, total, threads) <= p < Start(threads, total, threads)
    ensures from <= id < threads
    ensures Start(id, total, threads) <= p < Start(id + 1, total, threads)
    decreases threads - from
  {
    if p < Start(from + 1, total, threads) then from
    else Owner(p, from + 1, total, threads)
  }
}
