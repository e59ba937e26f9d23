/**
 * The lazy-deletion timer heap `time_heap`: a `std::priority_queue` of
 * `heap_timer*` ordered by `cmp`, so that the timer with the smallest expiry is
 * on top. `del_timer` only clears a timer's callback, which leaves it in the heap
 * until `tick` pops it without firing it. The priority queue is modelled by the
 * multiset of timers it holds; which of several timers with equal expiry is on
 * top is left open, as the source's ordering leaves it.
 */
module TimeHeap {

  /**
   * `heap_timer`. The callback pointer is modelled by whether it is set
   * (`armed`), and its `client_data*` by the opaque `userData`. The expiry does not
   * change once the timer is built: a heap's order relies on that.
   */
  class HeapTimer {
    const expire: int
    var armed: bool
    var userData: int

    /**
     * `heap_timer(delay)` at time `now` (the source reads `time(nullptr)`). It
     * sets only the expiry; the caller installs the callback and its data.
     */
    constructor (now: int, delay: int)
      ensures expire == now + delay
    {
      expire := now + delay;
    }
  }

  /** `cmp(a, b)`: `a` sinks below `b` when it expires later. */
  predicate Cmp(a: HeapTimer, b: HeapTimer)
  {
    a.expire > b.expire
  }

  /**
   * `cmp` is a strict weak order: irreflexive and transitive, with timers of
   * equal expiry unordered against each other.
   */
  lemma CmpStrictWeakOrder(a: HeapTimer, b: HeapTimer, c: HeapTimer)
    ensures !Cmp(a, a)
    ensures Cmp(a, b) && Cmp(b, c) ==> Cmp(a, c)
    ensures !Cmp(a, b) && !Cmp(b, a) <==> a.expire == b.expire
  {
  }

  /**
   * What the priority queue keeps on top: a timer no other timer in `m` is
   * ordered after, which is a timer of minimum expiry.
   */
  predicate IsTop(t: HeapTimer, m: multiset<HeapTimer>)
  {
    t in m && forall x :: x in m ==> !Cmp(t, x)
  }

  lemma TopIsMinimum(t: HeapTimer, m: multiset<HeapTimer>)
    requires IsTop(t, m)
    ensures forall x :: x in m ==> t.expire <= x.expire
  {
  }

  /** Every non-empty heap has a top. */
  lemma {:induction false} TopExists(m: multiset<HeapTimer>)
    requires m != multiset{}
    ensures exists t :: IsTop(t, m)
  {
    var y :| y in m;
    var rest := m - multiset{y};
    if rest == multiset{} {
      assert m == multiset{y};
      assert IsTop(y, m);
    } else {
      TopExists(rest);
      var t :| IsTop(t, rest);
      var top := if y.expire < t.expire then y else t;
      forall x | x in m
        ensures !Cmp(top, x)
      {
        if x != y {
          assert x in rest;
        }
      }
      assert IsTop(top, m);
    }
  }

  /** `std::priority_queue::top`: a timer of a non-empty heap that `cmp` puts on top. */
  method TopOf(m: multiset<HeapTimer>) returns (t: HeapTimer)
    requires m != multiset{}
    ensures IsTop(t, m)
  {
    TopExists(m);
    t :| IsTop(t, m);
  }

  /** The timers of `s` whose callback is set, in order. */
  ghost function Armed(s: seq<HeapTimer>): (r: seq<HeapTimer>)
    reads s
    ensures |r| <= |s|
  {
    if s == [] then []
    else Armed(s[..|s| - 1]) + (if s[|s| - 1].armed then [s[|s| - 1]] else [])
  }

  /** Popping one more timer adds it to the fired ones exactly when its callback is set. */
  lemma ArmedSnoc(s: seq<HeapTimer>, t: HeapTimer)
    ensures Armed(s + [t]) == Armed(s) + (if t.armed then [t] else [])
  {
    assert (s + [t])[..|s|] == s;
  }

  /** The fired timers are exactly the popped timers whose callback is set. */
  lemma {:induction false} ArmedMembers(s: seq<HeapTimer>)
    ensures forall t :: t in Armed(s) <==> t in s && t.armed
  {
    if s != [] {
      var init := s[..|s| - 1];
      ArmedMembers(init);
      assert s == init + [s[|s| - 1]];
    }
  }

  /** Non-decreasing expiries. */
  predicate Ascending(s: seq<HeapTimer>)
  {
    forall i, j :: 0 <= i < j < |s| ==> s[i].expire <= s[j].expire
  }

  lemma AscendingSnoc(s: seq<HeapTimer>, t: HeapTimer)
    requires Ascending(s)
    requires s != [] ==> s[|s| - 1].expire <= t.expire
    ensures Ascending(s + [t])
  {
  }

  /**
   * What `tick` keeps true while it pops from the heap `m0` it started with:
   * `popped` and the heap `m` left share out `m0`, the popped timers are in
   * expiry order, all expired at `now`, and none expires after a timer still in
   * the heap.
   */
  ghost predicate PopInv(m0: multiset<HeapTimer>, m: multiset<HeapTimer>, now: int, popped: seq<HeapTimer>)
  {
    && multiset(popped) + m == m0
    && Ascending(popped)
    && (forall t :: t in popped ==> t.expire <= now)
    && (popped != [] ==> forall x :: x in m ==> popped[|popped| - 1].expire <= x.expire)
  }

  /** Popping an expired top keeps `PopInv`. */
  lemma PopStep(m0: multiset<HeapTimer>, m: multiset<HeapTimer>, now: int, popped: seq<HeapTimer>, t: HeapTimer)
    requires PopInv(m0, m, now, popped)
    requires IsTop(t, m) && t.expire <= now
    ensures PopInv(m0, m - multiset{t}, now, popped + [t])
  {
    TopIsMinimum(t, m);
    AscendingSnoc(popped, t);
    assert multiset(popped + [t]) + (m - multiset{t}) == multiset(popped) + m;
  }

  /**
   * The loop of `tick` over the heap `m`: `rest` is what is left of it, and all
   * of it expires after `now`.
   */
  method Expire(m: multiset<HeapTimer>, now: int) returns (popped: seq<HeapTimer>, fired: seq<HeapTimer>, rest: multiset<HeapTimer>)
    ensures multiset(popped) + rest == m
    ensures Ascending(popped)
    ensures forall t :: t in popped ==> t.expire <= now
    ensures forall t :: t in rest ==> now < t.expire
    ensures fired == Armed(popped)
  {
    popped, fired, rest := [], [], m;
    while rest != multiset{}
      invariant PopInv(m, rest, now, popped)
      invariant fired == Armed(popped)
      decreases |rest|
    {
      var timer := TopOf(rest);
      if timer.expire > now {
        TopIsMinimum(timer, rest);
        break;
      }
      PopStep(m, rest, now, popped, timer);
      rest := rest - multiset{timer};
      ArmedSnoc(popped, timer);
      if timer.armed {
        fired := fired + [timer];
      }
      popped := popped + [timer];
    }
  }

  class TimeHeap {
    /** `timer_pqueue`. */
    var timers: multiset<HeapTimer>

    /** `time_heap()`: an empty heap. */
    constructor ()
      ensures timers == multiset{}
    {
      timers := multiset{};
    }

    /** `add_timer(timer)`: nothing for null; otherwise the timer joins the heap. */
    method AddTimer(timer: HeapTimer?)
      modifies this
      ensures timer == null ==> timers == old(timers)
      ensures timer != null ==> timers == old(timers) + multiset{timer}
    {
      if timer == null {
        return;
      }
      timers := timers + multiset{timer};
    }

    /**
     * `del_timer(timer)`: nothing for null; otherwise only the callback is
     * cleared, and the timer stays in the heap.
     */
    method DelTimer(timer: HeapTimer?)
      modifies timer
      ensures timers == old(timers)
      ensures timer != null ==> !timer.armed && timer.userData == old(timer.userData)
    {
      if timer == null {
        return;
      }
      timer.armed := false;
    }

    /** `Top()`: null for an empty heap, otherwise a timer of minimum expiry, not removed. */
    method Top() returns (r: HeapTimer?)
      ensures r == null <==> timers == multiset{}
      ensures r != null ==> IsTop(r, timers)
    {
      if timers == multiset{} {
        return null;
      }
      r := TopOf(timers);
    }

    /**
     * `tick()` at time `now` (the source reads `time(NULL)`): pops timers from the
     * top while the top's expiry is not after `now`, calling the callback of each
     * popped timer that still has one. `popped` lists the timers popped and
     * `fired` those whose callback was called, both in pop order.
     */
    method Tick(now: int) returns (popped: seq<HeapTimer>, fired: seq<HeapTimer>)
      modifies this
      ensures multiset(popped) + timers == old(timers)
      ensures Ascending(popped)
      ensures forall t :: t in popped ==> t.expire <= now
      ensures forall t :: t in timers ==> now < t.expire
      ensures fired == Armed(popped)
    {
      var rest;
      popped, fired, rest := Expire(timers, now);
      timers := rest;
    }

    /** `~time_heap()`: pops and releases every timer. */
    method Destroy() returns (released: seq<HeapTimer>)
      modifies this
      ensures timers == multiset{}
      ensures multiset(released) == old(timers)
    {
      released := [];
      while timers != multiset{}
        invariant multiset(released) + timers == old(timers)
        decreases |timers|
      {
        var timer := Top();
        released := released + [timer];
        timers := timers - multiset{timer};
      }
    }
  }
}
