/** The measurement window: a `deque(maxlen=W)` that keeps the most recent
    readings in insertion order and drops the oldest one on overflow.
 */
module MeasurementWindow {

  /** A bounded FIFO buffer; `items[0]` is the oldest reading kept. */
  datatype Window<T> = Window(capacity: nat, items: seq<T>) {

    /** A deque never holds more than its `maxlen`. */
    ghost predicate Valid() {
      |items| <= capacity
    }
  }

  function Min(a: int, b: int): int {
    if a <= b then a else b
  }

  /** The last `min(n, |s|)` elements of `s`, in order: the reference for what a window of capacity `n` holds. */
  function Last<T>(s: seq<T>, n: nat): (r: seq<T>)
    ensures |r| == Min(n, |s|)
  {
    s[|s| - Min(n, |s|)..]
  }

  /** `deque(maxlen=capacity)`: a new, empty window. */
  function Empty<T>(capacity: nat): Window<T>
  {
    Window(capacity, [])
  }

  /** `append(x)`: `x` goes at the newest end; when the window is already full,
      the oldest reading is discarded first. */
  function Append<T>(w: Window<T>, x: T): (r: Window<T>)
    requires w.Valid()
    ensures r.Valid() && r.capacity == w.capacity
    ensures r.items == Last(w.items + [x], w.capacity)
    ensures |w.items| < w.capacity ==> r.items == w.items + [x]
    ensures w.capacity > 0 ==> r.items[|r.items| - 1] == x
  {
    if |w.items| < w.capacity then Window(w.capacity, w.items + [x])
    else Window(w.capacity, (w.items + [x])[1..])
  }

  /** Appending `xs` one after the other, oldest first. */
  function AppendAll<T>(w: Window<T>, xs: seq<T>): (r: Window<T>)
    requires w.Valid()
    ensures r.Valid() && r.capacity == w.capacity
    decreases |xs|
  {
    if |xs| == 0 then w else AppendAll(Append(w, xs[0]), xs[1..])
  }

  /** After appending `xs`, the window holds the most recent readings of its
      old contents followed by `xs`, as many as fit. */
  lemma {:induction false} AppendAllKeepsMostRecent<T>(w: Window<T>, xs: seq<T>)
    requires w.Valid()
    ensures AppendAll(w, xs).items == Last(w.items + xs, w.capacity)
    decreases |xs|
  {
    if |xs| == 0 {
      assert w.items + xs == w.items;
    } else {
      AppendAllKeepsMostRecent(Append(w, xs[0]), xs[1..]);
      AppendThenTrim(w, xs);
    }
  }

  /** Appending the first reading and trimming after the rest keeps what
      trimming the whole sequence would keep. */
  lemma AppendThenTrim<T>(w: Window<T>, xs: seq<T>)
    requires w.Valid() && |xs| > 0
    ensures Last(Append(w, xs[0]).items + xs[1..], w.capacity) == Last(w.items + xs, w.capacity)
  {
    LastOfLastAll(w.items + [xs[0]], xs[1..], w.capacity);
    assert w.items + [xs[0]] + xs[1..] == w.items + xs;
  }

  /** Trimming to the last `n` before appending `t` changes nothing once the
      result is trimmed to the last `n` again. */
  lemma LastOfLastAll<T>(s: seq<T>, t: seq<T>, n: nat)
    ensures Last(Last(s, n) + t, n) == Last(s + t, n)
  {
    var m := Min(n, |s|);
    assert Last(s, n) + t == (s + t)[|s| - m..];
  }

  /** Dropping the first element of `s + [x]` is dropping it from `s`. */
  lemma TailOfSnoc<T>(s: seq<T>, x: T)
    requires |s| > 0
    ensures (s + [x])[0] == s[0] && (s + [x])[1..] == s[1..] + [x]
  {
  }

  /** A window of capacity `W` filled from empty with `n` readings holds
      `min(n, W)` of them: the last ones, in insertion order. */
  lemma {:induction false} FillFromEmpty<T>(capacity: nat, xs: seq<T>)
    ensures |AppendAll(Empty(capacity), xs).items| == Min(|xs|, capacity)
    ensures AppendAll(Empty(capacity), xs).items == Last(xs, capacity)
  {
    AppendAllKeepsMostRecent(Empty<T>(capacity), xs);
    assert Empty<T>(capacity).items + xs == xs;
  }
}
