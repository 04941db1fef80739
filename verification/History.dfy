/** The circular LZ77 window (lib/jxl/dec_ans.h:305-347, 377-424) against an unbounded history.

The window keeps the last 2^20 decoded values, each at its index modulo 2^20.
 */
module History {
  import opened Sequences

  const WINDOW_SIZE: nat := 0x10_0000
  const CHECKPOINT_INTERVAL: nat := 512

  function Mask(i: nat): (k: nat)
    ensures k < WINDOW_SIZE
  {
    i % WINDOW_SIZE
  }

  /** The window slot `j` entries after index `n`. */
  function SlotAt(n: nat, j: nat): (k: nat)
    ensures k < WINDOW_SIZE
  {
    Mask(n + j)
  }

  lemma MaskDistinct(i: nat, j: nat)
    requires i < j < i + WINDOW_SIZE
    ensures Mask(i) != Mask(j)
  {
  }

  lemma MaskWraps(i: nat)
    ensures Mask(i + WINDOW_SIZE) == Mask(i)
  {
  }

  /** The window shows the most recent values of the history. */
  ghost predicate Shows(w: seq<nat>, h: seq<nat>) {
    |w| == WINDOW_SIZE &&
    forall i | 0 <= i < |h| && |h| - WINDOW_SIZE <= i :: w[Mask(i)] == h[i]
  }

  /** The next `count` window entries (as far as the window reaches) are zero. */
  ghost predicate ZeroAhead(w: seq<nat>, n: nat, count: nat) {
    |w| == WINDOW_SIZE && forall j: nat | j < Min(count, WINDOW_SIZE) :: w[SlotAt(n, j)] == 0
  }

  lemma ShowsAppend(w: seq<nat>, h: seq<nat>, v: nat)
    requires Shows(w, h)
    ensures Shows(w[Mask(|h|) := v], h + [v])
  {
    var w', h' := w[Mask(|h|) := v], h + [v];
    forall i | 0 <= i < |h'| && |h'| - WINDOW_SIZE <= i ensures w'[Mask(i)] == h'[i] {
      if i < |h| {
        MaskDistinct(i, |h|);
      }
    }
  }

  /** A zero written while copying zeros keeps the rest of the run ready, even around the window. */
  lemma ZeroAheadStep(w: seq<nat>, n: nat, count: nat)
    requires ZeroAhead(w, n, count) && count > 0
    ensures w[Mask(n)] == 0 && ZeroAhead(w[Mask(n) := 0], n + 1, count - 1)
  {
    assert w[SlotAt(n, 0)] == 0;
    var w', m := w[Mask(n) := 0], n + 1;
    forall j: nat | j < Min(count - 1, WINDOW_SIZE) ensures w'[SlotAt(m, j)] == 0 {
      if j == WINDOW_SIZE - 1 {
        MaskWraps(n);
      } else {
        assert SlotAt(m, j) == SlotAt(n, j + 1) && w[SlotAt(n, j + 1)] == 0;
      }
    }
  }

  /** The value `distance` positions back is where `copy_pos_` points. */
  lemma ShowsBack(w: seq<nat>, h: seq<nat>, distance: nat)
    requires Shows(w, h) && 0 < distance <= |h| && distance <= WINDOW_SIZE
    ensures w[Mask(|h| - distance)] == h[|h| - distance]
  {
  }

  // ----- checkpoints -----

  /** The 512 entries from index `n` on, which `Save` copies out, also around the window's end. */
  ghost predicate Saved(w: seq<nat>, n: nat, segment: seq<nat>) {
    |w| == WINDOW_SIZE && |segment| == CHECKPOINT_INTERVAL &&
    forall j: nat | j < CHECKPOINT_INTERVAL :: segment[j] == w[SlotAt(n, j)]
  }

  /** What the two branches of `Save` copy. */
  function SavedSegment(w: seq<nat>, n: nat): (segment: seq<nat>)
    requires |w| == WINDOW_SIZE
    ensures Saved(w, n, segment)
  {
    var winStart := Mask(n);
    var winEnd := Mask(n + CHECKPOINT_INTERVAL);
    var segment := if winEnd > winStart then w[winStart..winEnd] else w[winStart..] + w[..winEnd];
    SegmentIndices(n);
    assert forall j: nat | j < CHECKPOINT_INTERVAL ::
        SlotAt(n, j) == if winStart + j < WINDOW_SIZE then winStart + j else winStart + j - WINDOW_SIZE;
    segment
  }

  lemma SegmentIndices(n: nat)
    ensures var winStart, winEnd := Mask(n), Mask(n + CHECKPOINT_INTERVAL);
            winEnd == (if winStart + CHECKPOINT_INTERVAL < WINDOW_SIZE then winStart + CHECKPOINT_INTERVAL
                       else winStart + CHECKPOINT_INTERVAL - WINDOW_SIZE)
    ensures forall j: nat | j < CHECKPOINT_INTERVAL ::
              SlotAt(n, j) == if Mask(n) + j < WINDOW_SIZE then Mask(n) + j else Mask(n) + j - WINDOW_SIZE
  {
  }

  /** Entry `k` of the window after `Restore`. */
  function RestoredAt(w: seq<nat>, n: nat, segment: seq<nat>, k: nat): nat
    requires |w| == WINDOW_SIZE && |segment| == CHECKPOINT_INTERVAL && k < WINDOW_SIZE
  {
    var offset := Mask(k + WINDOW_SIZE - Mask(n));
    if offset < CHECKPOINT_INTERVAL then segment[offset] else w[k]
  }

  function Restored(w: seq<nat>, n: nat, segment: seq<nat>): (w': seq<nat>)
    requires |w| == WINDOW_SIZE && |segment| == CHECKPOINT_INTERVAL
    ensures |w'| == WINDOW_SIZE
  {
    seq(WINDOW_SIZE, k requires 0 <= k < WINDOW_SIZE => RestoredAt(w, n, segment, k))
  }

  lemma RestoredInside(w: seq<nat>, n: nat, segment: seq<nat>, j: nat)
    requires |w| == WINDOW_SIZE && |segment| == CHECKPOINT_INTERVAL && j < CHECKPOINT_INTERVAL
    ensures Restored(w, n, segment)[SlotAt(n, j)] == segment[j]
  {
  }

  lemma RestoredOutside(w: seq<nat>, n: nat, segment: seq<nat>, j: nat)
    requires |w| == WINDOW_SIZE && |segment| == CHECKPOINT_INTERVAL
    requires CHECKPOINT_INTERVAL <= j < WINDOW_SIZE
    ensures Restored(w, n, segment)[SlotAt(n, j)] == w[SlotAt(n, j)]
  {
  }

  /** Restoring the saved segment restores everything the history can still ask for. */
  lemma RestoredShows(w0: seq<nat>, h0: seq<nat>, w: seq<nat>, h: seq<nat>, segment: seq<nat>)
    requires Shows(w0, h0) && Saved(w0, |h0|, segment)
    requires Shows(w, h) && h0 <= h && |h| <= |h0| + CHECKPOINT_INTERVAL
    ensures Shows(Restored(w, |h0|, segment), h0)
  {
    var n := |h0|;
    forall i | 0 <= i < n && n - WINDOW_SIZE <= i
      ensures Restored(w, n, segment)[Mask(i)] == h0[i]
    {
      var j := i + WINDOW_SIZE - n;
      MaskWraps(i);
      assert SlotAt(n, j) == Mask(i);
      if j < CHECKPOINT_INTERVAL {
        RestoredInside(w, n, segment, j);
      } else {
        RestoredOutside(w, n, segment, j);
        assert h[i] == h0[i];
      }
    }
  }

  /** The same for a run of zeros that was still being copied when the checkpoint was taken, if the
      run was continued since. */
  lemma RestoredZeroAhead(w0: seq<nat>, n: nat, count: nat, w: seq<nat>, k: nat, segment: seq<nat>)
    requires ZeroAhead(w0, n, count) && Saved(w0, n, segment)
    requires |w| == WINDOW_SIZE && k <= CHECKPOINT_INTERVAL
    requires k < count ==> ZeroAhead(w, n + k, count - k)
    ensures ZeroAhead(Restored(w, n, segment), n, count)
  {
    forall j: nat | j < Min(count, WINDOW_SIZE) ensures Restored(w, n, segment)[SlotAt(n, j)] == 0 {
      if j < CHECKPOINT_INTERVAL {
        RestoredInside(w, n, segment, j);
        assert segment[j] == w0[SlotAt(n, j)];
      } else {
        RestoredOutside(w, n, segment, j);
        assert SlotAt(n, j) == SlotAt(n + k, j - k) && w[SlotAt(n + k, j - k)] == 0;
      }
    }
  }
}
