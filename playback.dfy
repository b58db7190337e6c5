/** The playback cursor of `ImageAnim.preRun` and `ImageAnim.step`
    (BiblioPixelAnimations/matrix/ImageAnim.py, lines 142-158), as a state
    machine over the frame index and the completion flag. */
module Playback {

  /** `_curImage` and `animComplete`. */
  datatype Cursor = Cursor(cur: nat, complete: bool)

  /** Lines 153-156: one step moves to the next frame; reaching the frame
      count wraps to 0 and raises the completion flag, which a step never
      lowers. */
  function Advance(s: Cursor, count: nat): (r: Cursor)
    requires s.cur < count
    ensures r.cur < count
    ensures r.cur == 0 <==> s.cur + 1 == count
    ensures r.complete == (s.complete || s.cur + 1 == count)
  {
    var next := s.cur + 1;
    if next >= count then Cursor(0, true) else Cursor(next, s.complete)
  }

  /** The cursor moves to the next frame index modulo the frame count. */
  lemma AdvanceModulo(s: Cursor, count: nat)
    requires s.cur < count
    ensures Advance(s, count).cur == (s.cur + 1) % count
  {
    if s.cur + 1 == count {
      DivModUnique(count, count, 1, 0);
    }
  }

  /** The cursor after k steps from s. */
  function Run(s: Cursor, count: nat, k: nat): (r: Cursor)
    requires s.cur < count
    ensures r.cur < count
  {
    if k == 0 then s else Advance(Run(s, count, k - 1), count)
  }

  lemma MulAtLeast(d: int, n: int)
    requires d >= 1 && n > 0
    ensures d * n >= n
  {
    if d > 1 {
      MulAtLeast(d - 1, n);
      assert d * n == (d - 1) * n + n;
    }
  }

  /** Quotient and remainder are the unique q, r with a == q * n + r and
      0 <= r < n. */
  lemma DivModUnique(a: nat, n: nat, q: int, r: int)
    requires n > 0 && a == q * n + r && 0 <= r < n
    ensures a % n == r && a / n == q
  {
    var q', r' := a / n, a % n;
    assert a == q' * n + r';
    if q > q' {
      MulAtLeast(q - q', n);
    } else if q < q' {
      MulAtLeast(q' - q, n);
    }
  }

  /** Adding one to a number adds one to its remainder, unless that
      reaches n and wraps to 0. */
  lemma ModSucc(a: nat, n: nat)
    requires n > 0
    ensures (a + 1) % n == if a % n + 1 == n then 0 else a % n + 1
  {
    var q, r := a / n, a % n;
    assert a == q * n + r;
    if r + 1 == n {
      MulSucc(q, n);
      DivModUnique(a + 1, n, q + 1, 0);
    } else {
      DivModUnique(a + 1, n, q, r + 1);
    }
  }

  lemma MulSucc(q: int, n: int)
    ensures (q + 1) * n == q * n + n
  {
  }

  /** Line 145 and lines 150-156: counting from 0, the k-th step after
      `preRun` shows frame k mod count, and after k steps the flag is raised
      exactly when it was already raised or k has reached the count. */
  lemma {:induction false} RunFromStart(count: nat, k: nat, complete: bool)
    requires count > 0
    ensures Run(Cursor(0, complete), count, k).cur == k % count
    ensures Run(Cursor(0, complete), count, k).complete == (complete || k >= count)
  {
    if k > 0 {
      var start := Cursor(0, complete);
      RunFromStart(count, k - 1, complete);
      var prev := Run(start, count, k - 1);
      var next := Run(start, count, k);
      assert next == Advance(prev, count);
      ModSucc(k - 1, count);
      assert next.cur == k % count;
      if k - 1 < count {
        DivModUnique(k - 1, count, 0, k - 1);
      }
    }
  }

  /** Counting from 0, the k-th step wraps the cursor exactly when k + 1 is
      a multiple of the frame count. */
  lemma StepWrapsAtCycleEnd(count: nat, k: nat, complete: bool)
    requires count > 0
    ensures Run(Cursor(0, complete), count, k).cur + 1 == count <==> (k + 1) % count == 0
  {
    RunFromStart(count, k, complete);
    ModSucc(k, count);
  }

  /** From a lowered flag, the flag is first raised by step number
      count - 1 (counting from 0), the step that wraps the cursor. */
  lemma FirstCompletion(count: nat, k: nat)
    requires count > 0
    ensures !Run(Cursor(0, false), count, k).complete && Run(Cursor(0, false), count, k + 1).complete
            <==> k + 1 == count
  {
    RunFromStart(count, k, false);
    RunFromStart(count, k + 1, false);
  }
}
