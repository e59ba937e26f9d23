/**
 * The ascending doubly-linked timer list `sort_timer_list` with its nodes
 * `util_timer`. Each node carries an absolute expiry and `prev`/`next` pointers;
 * the list keeps `head` and `tail` and keeps expiries non-decreasing from head to
 * tail. The ghost sequence `Nodes` names the nodes in list order, so that the
 * pointer structure and the order can be stated over it.
 */
module ListTimer {

  // ---------------------------------------------------------------------------
  // Expiry sequences
  // ---------------------------------------------------------------------------

  /**
   * Non-decreasing, stated on neighbours so that it is unfolded only as far as
   * a proof asks; `SortedAll` gives the pairwise form.
   */
  predicate Sorted(k: seq<int>)
  {
    |k| <= 1 || (k[0] <= k[1] && Sorted(k[1..]))
  }

  lemma {:induction false} SortedAll(k: seq<int>)
    ensures Sorted(k) <==> forall i, j :: 0 <= i < j < |k| ==> k[i] <= k[j]
  {
    if |k| > 1 {
      SortedAll(k[1..]);
      if Sorted(k) {
        forall i, j | 0 <= i < j < |k| ensures k[i] <= k[j] {
          if i == 0 {
            assert k[1] == k[1..][0];
            if j > 1 {
              assert k[1..][0] <= k[1..][j - 1];
            }
          } else {
            assert k[i] == k[1..][i - 1] && k[j] == k[1..][j - 1];
          }
        }
      } else if k[0] > k[1] {
      } else {
        var i, j :| 0 <= i < j < |k[1..]| && k[1..][i] > k[1..][j];
        assert k[i + 1] > k[j + 1];
      }
    }
  }

  /** Sorted, except that the entry at `x` may be out of place. */
  predicate SortedExcept(k: seq<int>, x: nat)
  {
    forall i, j :: 0 <= i < j < |k| && i != x && j != x ==> k[i] <= k[j]
  }

  /**
   * The state `adjust_timer` is called in: the list was sorted, and then the
   * caller raised the expiry of the node at `x` in place.
   */
  predicate Raised(k: seq<int>, x: nat)
  {
    x < |k| && SortedExcept(k, x) && (x > 0 ==> k[x - 1] <= k[x])
  }

  /** A sorted sequence is still in order around any one of its entries after nothing changed. */
  lemma SortedIsRaised(k: seq<int>, x: nat)
    requires Sorted(k) && x < |k|
    ensures Raised(k, x)
  {
    SortedAll(k);
  }

  /**
   * Where the list insertion puts a node with expiry `e`: before the first node
   * whose expiry is strictly greater, so after every node with an equal or
   * smaller expiry.
   */
  function InsertPos(k: seq<int>, e: int): (p: nat)
    ensures p <= |k|
    ensures forall i :: 0 <= i < p ==> k[i] <= e
    ensures p < |k| ==> e < k[p]
  {
    InsertPosFrom(k, e, 0)
  }

  /** `InsertPos` for a walk that starts at index `i`, past entries known to be no greater. */
  function InsertPosFrom(k: seq<int>, e: int, i: nat): (p: nat)
    requires i <= |k|
    decreases |k| - i
    ensures i <= p <= |k|
    ensures forall j :: i <= j < p ==> k[j] <= e
    ensures p < |k| ==> e < k[p]
  {
    if i == |k| || e < k[i] then i else InsertPosFrom(k, e, i + 1)
  }

  function Insert<T>(s: seq<T>, p: nat, x: T): (r: seq<T>)
    requires p <= |s|
    ensures |r| == |s| + 1 && r[p] == x
    ensures forall i {:trigger r[i]} :: 0 <= i < p ==> r[i] == s[i]
    ensures forall i {:trigger r[i]} :: p < i < |r| ==> r[i] == s[i - 1]
  {
    s[..p] + [x] + s[p..]
  }

  function RemoveAt<T>(s: seq<T>, x: nat): (r: seq<T>)
    requires x < |s|
    ensures |r| == |s| - 1
    ensures forall i {:trigger r[i]} :: 0 <= i < x ==> r[i] == s[i]
    ensures forall i {:trigger r[i]} :: x <= i < |r| ==> r[i] == s[i + 1]
  {
    seq(|s| - 1, i requires 0 <= i < |s| - 1 => if i < x then s[i] else s[i + 1])
  }

  /** Putting an entry back where it was taken from restores the sequence. */
  lemma InsertRemove<T>(s: seq<T>, x: nat)
    requires x < |s|
    ensures Insert(RemoveAt(s, x), x, s[x]) == s
  {
    var r := Insert(RemoveAt(s, x), x, s[x]);
    forall i | 0 <= i < |s| ensures r[i] == s[i] {
      if i < x {
        assert r[i] == RemoveAt(s, x)[i];
      } else if i > x {
        assert r[i] == RemoveAt(s, x)[i - 1];
      }
    }
  }

  /** In a sorted sequence every entry from the insertion point on is strictly greater. */
  lemma InsertPosSorted(k: seq<int>, e: int)
    requires Sorted(k)
    ensures forall i :: InsertPos(k, e) <= i < |k| ==> e < k[i]
  {
    SortedAll(k);
  }

  /** The two properties of `InsertPos` determine it. */
  lemma InsertPosUnique(k: seq<int>, e: int, q: nat)
    requires q <= |k|
    requires forall i :: 0 <= i < q ==> k[i] <= e
    requires q < |k| ==> e < k[q]
    ensures InsertPos(k, e) == q
  {
  }

  /** Inserting at `InsertPos` keeps a sorted sequence sorted. */
  lemma {:induction false} InsertKeepsSorted(k: seq<int>, e: int)
    requires Sorted(k)
    ensures Sorted(Insert(k, InsertPos(k, e), e))
  {
    var p := InsertPos(k, e);
    var r := Insert(k, p, e);
    InsertPosSorted(k, e);
    SortedAll(k);
    forall i, j | 0 <= i < j < |r| ensures r[i] <= r[j] {
      if j < p {
      } else if j == p {
        assert r[i] == k[i];
      } else if i == p {
        assert r[j] == k[j - 1];
      } else if i < p {
        assert r[i] == k[i] && r[j] == k[j - 1];
      } else {
        assert r[i] == k[i - 1] && r[j] == k[j - 1];
      }
    }
    SortedAll(r);
  }

  /** In a sorted sequence no entry exceeds a later one. */
  lemma SortedUpTo(k: seq<int>, j: nat)
    requires Sorted(k) && j < |k|
    ensures forall i :: 0 <= i <= j ==> k[i] <= k[j]
  {
    SortedAll(k);
  }

  /** Taking a raised entry out leaves the rest sorted; every entry before it is no greater. */
  lemma {:induction false} RaisedRemove(k: seq<int>, x: nat)
    requires Raised(k, x)
    ensures Sorted(RemoveAt(k, x))
    ensures forall i :: 0 <= i < x ==> k[i] <= k[x]
  {
    var r := RemoveAt(k, x);
    forall i, j | 0 <= i < j < |r| ensures r[i] <= r[j] {
      if j < x {
      } else if i < x {
        assert r[j] == k[j + 1];
      } else {
        assert r[i] == k[i + 1] && r[j] == k[j + 1];
      }
    }
    SortedAll(r);
    forall i | 0 <= i < x ensures k[i] <= k[x] {
      if i < x - 1 {
        assert k[i] <= k[x - 1];
      }
    }
  }

  /**
   * When a raised entry is still below its successor (or is last), the list is
   * sorted and the entry already sits where a fresh insertion would put it.
   */
  lemma {:induction false} RaisedInPlace(k: seq<int>, x: nat)
    requires Raised(k, x)
    requires x + 1 == |k| || k[x] < k[x + 1]
    ensures Sorted(k)
    ensures InsertPos(RemoveAt(k, x), k[x]) == x
  {
    RaisedRemove(k, x);
    var r := RemoveAt(k, x);
    forall j | x < j < |k| ensures k[x] < k[j] {
      if j > x + 1 {
        assert k[x + 1] <= k[j];
      }
    }
    SortedAll(k);
    InsertPosUnique(r, k[x], x);
  }

  /** Position of `x` in a sequence that contains it. */
  function IndexOf<T(==)>(s: seq<T>, x: T): (i: nat)
    requires x in s
    ensures i < |s| && s[i] == x
    ensures forall j :: 0 <= j < i ==> s[j] != x
  {
    IndexFrom(s, x, 0)
  }

  /** `IndexOf` for a search that starts at `n`, past entries known to differ from `x`. */
  function IndexFrom<T(==)>(s: seq<T>, x: T, n: nat): (i: nat)
    requires n <= |s| && exists j :: n <= j < |s| && s[j] == x
    decreases |s| - n
    ensures n <= i < |s| && s[i] == x
    ensures forall j :: n <= j < i ==> s[j] != x
  {
    if s[n] == x then n else IndexFrom(s, x, n + 1)
  }

  /**
   * No element occurs twice. Stated by recursion so that it is unfolded only
   * as far as a proof asks; `DistinctAll` gives the pairwise form.
   */
  predicate Distinct<T(==)>(s: seq<T>)
  {
    |s| <= 1 || (s[0] !in s[1..] && Distinct(s[1..]))
  }

  lemma {:induction false} DistinctAll<T>(s: seq<T>)
    ensures Distinct(s) <==> forall i, j :: 0 <= i < j < |s| ==> s[i] != s[j]
  {
    if |s| > 1 {
      DistinctAll(s[1..]);
      if Distinct(s) {
        forall i, j | 0 <= i < j < |s| ensures s[i] != s[j] {
          if i == 0 {
            assert s[j] == s[1..][j - 1];
          } else {
            assert s[i] == s[1..][i - 1] && s[j] == s[1..][j - 1];
          }
        }
      } else if s[0] in s[1..] {
        var j :| 1 <= j < |s| && s[1..][j - 1] == s[0];
        assert s[0] == s[j];
      } else {
        var i, j :| 0 <= i < j < |s[1..]| && s[1..][i] == s[1..][j];
        assert s[i + 1] == s[j + 1];
      }
    }
  }

  lemma DistinctAt<T>(s: seq<T>, i: int, j: int)
    requires Distinct(s) && 0 <= i < |s| && 0 <= j < |s| && i != j
    ensures s[i] != s[j]
  {
    DistinctAll(s);
  }

  lemma DistinctInsert<T>(s: seq<T>, p: nat, x: T)
    requires Distinct(s) && x !in s && p <= |s|
    ensures Distinct(Insert(s, p, x))
  {
    DistinctAll(s);
    var r := Insert(s, p, x);
    forall i, j | 0 <= i < j < |r| ensures r[i] != r[j] {
      if j < p {
      } else if j == p {
        assert r[i] == s[i];
      } else if i == p {
        assert r[j] == s[j - 1];
      } else if i < p {
        assert r[i] == s[i] && r[j] == s[j - 1];
      } else {
        assert r[i] == s[i - 1] && r[j] == s[j - 1];
      }
    }
    DistinctAll(r);
  }

  lemma DistinctRemove<T>(s: seq<T>, x: nat)
    requires Distinct(s) && x < |s|
    ensures Distinct(RemoveAt(s, x))
    ensures s[x] !in RemoveAt(s, x)
  {
    DistinctAll(s);
    var r := RemoveAt(s, x);
    forall i, j | 0 <= i < j < |r| ensures r[i] != r[j] {
      if j < x {
      } else if i < x {
        assert r[j] == s[j + 1];
      } else {
        assert r[i] == s[i + 1] && r[j] == s[j + 1];
      }
    }
    DistinctAll(r);
  }

  // ---------------------------------------------------------------------------
  // Nodes and their links
  // ---------------------------------------------------------------------------

  /**
   * `util_timer`. The callback `cb_func` and the `client_data*` it receives are
   * represented by the opaque `userData`; `tick` reports the nodes whose
   * callback it calls.
   */
  class UtilTimer {
    var expire: int
    const userData: int
    var prev: UtilTimer?
    var next: UtilTimer?

    /** `util_timer()` links to nothing; the caller then sets expiry and user data. */
    constructor (expire: int, userData: int)
      ensures this.expire == expire && this.userData == userData
      ensures prev == null && next == null
    {
      this.expire := expire;
      this.userData := userData;
      prev := null;
      next := null;
    }
  }

  /** The two pointers of one node. */
  datatype Link = Link(prev: UtilTimer?, next: UtilTimer?)

  /**
   * `ls` holds the links a doubly-linked list of the nodes `ns` must have: each
   * node points back at its predecessor and on to its successor, with null at
   * both ends.
   */
  predicate Chain(ns: seq<UtilTimer>, ls: seq<Link>)
  {
    |ls| == |ns| &&
    forall i {:trigger ls[i]} :: 0 <= i < |ns| ==>
      ls[i] == Link(if i == 0 then null else ns[i - 1], if i + 1 < |ns| then ns[i + 1] else null)
  }

  /** What a chain says about the pointers of the node at `i`. */
  lemma LinkAt(ns: seq<UtilTimer>, i: nat)
    requires Chain(ns, LinksOf(ns)) && i < |ns|
    ensures ns[i].prev == if i == 0 then null else ns[i - 1]
    ensures ns[i].next == if i + 1 < |ns| then ns[i + 1] else null
  {
    assert LinksOf(ns)[i] == Link(ns[i].prev, ns[i].next);
  }

  /** Dropping the head: its successor's `prev` becomes null. */
  lemma ChainRemoveHead(ns: seq<UtilTimer>, ls: seq<Link>, ls2: seq<Link>)
    requires Chain(ns, ls) && |ns| > 1 && |ls2| == |ns|
    requires ls2[1] == ls[1].(prev := null)
    requires forall i :: 0 <= i < |ns| && i != 1 ==> ls2[i] == ls[i]
    ensures Chain(RemoveAt(ns, 0), RemoveAt(ls2, 0))
  {
    var r, lr := RemoveAt(ns, 0), RemoveAt(ls2, 0);
    forall i | 0 <= i < |r|
      ensures lr[i] == Link(if i == 0 then null else r[i - 1], if i + 1 < |r| then r[i + 1] else null)
    {
      assert lr[i] == ls2[i + 1];
      if i > 0 {
        assert ls2[i + 1] == ls[i + 1] && r[i - 1] == ns[i];
      }
      if i + 1 < |r| {
        assert r[i + 1] == ns[i + 2];
      }
    }
  }

  /** Dropping the tail: its predecessor's `next` becomes null. */
  lemma ChainRemoveTail(ns: seq<UtilTimer>, ls: seq<Link>, ls2: seq<Link>)
    requires Chain(ns, ls) && |ns| > 1 && |ls2| == |ns|
    requires ls2[|ns| - 2] == ls[|ns| - 2].(next := null)
    requires forall i :: 0 <= i < |ns| && i != |ns| - 2 ==> ls2[i] == ls[i]
    ensures Chain(RemoveAt(ns, |ns| - 1), RemoveAt(ls2, |ns| - 1))
  {
    var r, lr := RemoveAt(ns, |ns| - 1), RemoveAt(ls2, |ns| - 1);
    forall i | 0 <= i < |r|
      ensures lr[i] == Link(if i == 0 then null else r[i - 1], if i + 1 < |r| then r[i + 1] else null)
    {
      if i < |ns| - 2 {
        assert lr[i] == ls[i];
      }
    }
  }

  /** Dropping the node at `x`, whose neighbours are made to point at each other. */
  lemma ChainRemoveInner(ns: seq<UtilTimer>, ls: seq<Link>, x: nat, ls2: seq<Link>)
    requires Chain(ns, ls) && 0 < x < |ns| - 1 && |ls2| == |ns|
    requires ls2[x - 1] == ls[x - 1].(next := ns[x + 1])
    requires ls2[x + 1] == ls[x + 1].(prev := ns[x - 1])
    requires forall i :: 0 <= i < |ns| && i != x - 1 && i != x + 1 ==> ls2[i] == ls[i]
    ensures Chain(RemoveAt(ns, x), RemoveAt(ls2, x))
  {
    var r, lr := RemoveAt(ns, x), RemoveAt(ls2, x);
    forall i | 0 <= i < |r|
      ensures lr[i] == Link(if i == 0 then null else r[i - 1], if i + 1 < |r| then r[i + 1] else null)
    {
      if i < x - 1 {
        assert lr[i] == ls[i];
      } else if i == x - 1 {
        assert lr[i] == ls2[x - 1] && r[x] == ns[x + 1];
      } else if i == x {
        assert lr[i] == ls2[x + 1];
        if x + 2 < |ns| {
          assert r[x + 1] == ns[x + 2];
        }
      } else {
        assert lr[i] == ls[i + 1] && r[i - 1] == ns[i];
        if i + 2 < |ns| {
          assert r[i + 1] == ns[i + 2];
        }
      }
    }
  }

  /** Putting `t` in front of the head, which then points back at it. */
  lemma ChainPrepend(ns: seq<UtilTimer>, ls: seq<Link>, t: UtilTimer, ls2: seq<Link>)
    requires Chain(ns, ls) && |ns| > 0 && |ls2| == |ns|
    requires ls2[0] == ls[0].(prev := t)
    requires forall i :: 0 < i < |ns| ==> ls2[i] == ls[i]
    ensures Chain(Insert(ns, 0, t), Insert(ls2, 0, Link(null, ns[0])))
  {
    var r, lr := Insert(ns, 0, t), Insert(ls2, 0, Link(null, ns[0]));
    forall i | 0 <= i < |r|
      ensures lr[i] == Link(if i == 0 then null else r[i - 1], if i + 1 < |r| then r[i + 1] else null)
    {
      if i > 0 {
        assert lr[i] == ls2[i - 1] && r[i - 1] == (if i == 1 then t else ns[i - 2]);
        if i + 1 < |r| {
          assert r[i + 1] == ns[i];
        }
      } else {
        assert r[1] == ns[0];
      }
    }
  }

  /**
   * Linking `t` in at `p > 0`: the node before points on to it and the node after
   * (if any) points back at it.
   */
  lemma ChainInsert(ns: seq<UtilTimer>, ls: seq<Link>, p: nat, t: UtilTimer, ls2: seq<Link>)
    requires Chain(ns, ls) && 0 < p <= |ns| && |ls2| == |ns|
    requires ls2[p - 1] == ls[p - 1].(next := t)
    requires p < |ns| ==> ls2[p] == ls[p].(prev := t)
    requires forall i :: 0 <= i < |ns| && i != p - 1 && i != p ==> ls2[i] == ls[i]
    ensures Chain(Insert(ns, p, t), Insert(ls2, p, Link(ns[p - 1], if p < |ns| then ns[p] else null)))
  {
    var r, lr := Insert(ns, p, t), Insert(ls2, p, Link(ns[p - 1], if p < |ns| then ns[p] else null));
    forall i | 0 <= i < |r|
      ensures lr[i] == Link(if i == 0 then null else r[i - 1], if i + 1 < |r| then r[i + 1] else null)
    {
      if i < p - 1 {
        assert lr[i] == ls[i];
        if i > 0 {
          assert r[i - 1] == ns[i - 1];
        }
        assert r[i + 1] == ns[i + 1];
      } else if i == p - 1 {
        assert lr[i] == ls2[p - 1];
        if i > 0 {
          assert r[i - 1] == ns[i - 1];
        }
      } else if i == p {
        assert r[p - 1] == ns[p - 1];
        if p < |ns| {
          assert r[p + 1] == ns[p];
        }
      } else if i == p + 1 {
        assert lr[i] == ls2[p];
        if i + 1 < |r| {
          assert r[i + 1] == ns[i];
        }
      } else {
        assert lr[i] == ls[i - 1] && r[i - 1] == ns[i - 2];
        if i + 1 < |r| {
          assert r[i + 1] == ns[i];
        }
      }
    }
  }

  /** The expiries of `s`, in order. */
  ghost function KeysOf(s: seq<UtilTimer>): (r: seq<int>)
    reads s`expire
    ensures |r| == |s| && forall i {:trigger r[i]} :: 0 <= i < |s| ==> r[i] == s[i].expire
  {
    KeysTo(s, |s|)
  }

  ghost function KeysTo(s: seq<UtilTimer>, n: nat): (r: seq<int>)
    requires n <= |s|
    reads s`expire
    ensures |r| == n && forall i {:trigger r[i]} :: 0 <= i < n ==> r[i] == s[i].expire
  {
    if n == 0 then [] else KeysTo(s, n - 1) + [s[n - 1].expire]
  }

  /** The links of `s`, in order. */
  ghost function LinksOf(s: seq<UtilTimer>): (r: seq<Link>)
    reads s`prev, s`next
    ensures |r| == |s| && forall i {:trigger r[i]} :: 0 <= i < |s| ==> r[i] == Link(s[i].prev, s[i].next)
  {
    LinksTo(s, |s|)
  }

  ghost function LinksTo(s: seq<UtilTimer>, n: nat): (r: seq<Link>)
    requires n <= |s|
    reads s`prev, s`next
    ensures |r| == n && forall i {:trigger r[i]} :: 0 <= i < n ==> r[i] == Link(s[i].prev, s[i].next)
  {
    if n == 0 then [] else LinksTo(s, n - 1) + [Link(s[n - 1].prev, s[n - 1].next)]
  }

  lemma KeysOfInsert(s: seq<UtilTimer>, p: nat, t: UtilTimer)
    requires p <= |s|
    ensures KeysOf(Insert(s, p, t)) == Insert(KeysOf(s), p, t.expire)
  {
    var a, b := KeysOf(Insert(s, p, t)), Insert(KeysOf(s), p, t.expire);
    forall i | 0 <= i < |a| ensures a[i] == b[i] {
      if i > p {
        assert Insert(s, p, t)[i] == s[i - 1];
      }
    }
  }

  lemma KeysOfRemove(s: seq<UtilTimer>, x: nat)
    requires x < |s|
    ensures KeysOf(RemoveAt(s, x)) == RemoveAt(KeysOf(s), x)
  {
    var a, b := KeysOf(RemoveAt(s, x)), RemoveAt(KeysOf(s), x);
    forall i | 0 <= i < |a| ensures a[i] == b[i] {
      if i >= x {
        assert RemoveAt(s, x)[i] == s[i + 1];
      }
    }
  }

  lemma LinksOfInsert(s: seq<UtilTimer>, p: nat, t: UtilTimer)
    requires p <= |s|
    ensures LinksOf(Insert(s, p, t)) == Insert(LinksOf(s), p, Link(t.prev, t.next))
  {
    var a, b := LinksOf(Insert(s, p, t)), Insert(LinksOf(s), p, Link(t.prev, t.next));
    forall i | 0 <= i < |a| ensures a[i] == b[i] {
      if i > p {
        assert Insert(s, p, t)[i] == s[i - 1];
      }
    }
  }

  lemma LinksOfRemove(s: seq<UtilTimer>, x: nat)
    requires x < |s|
    ensures LinksOf(RemoveAt(s, x)) == RemoveAt(LinksOf(s), x)
  {
    var a, b := LinksOf(RemoveAt(s, x)), RemoveAt(LinksOf(s), x);
    forall i | 0 <= i < |a| ensures a[i] == b[i] {
      if i >= x {
        assert RemoveAt(s, x)[i] == s[i + 1];
      }
    }
  }

  /** `o->next = v` for the node `o` at index `k` of `s`: no other link of `s` changes. */
  method SetNext(o: UtilTimer, v: UtilTimer?, ghost s: seq<UtilTimer>, ghost k: nat)
    requires Distinct(s) && k < |s| && s[k] == o
    modifies o`next
    ensures o.next == v
    ensures LinksOf(s) == old(LinksOf(s))[k := old(LinksOf(s))[k].(next := v)]
  {
    o.next := v;
    forall i | 0 <= i < |s| && i != k ensures s[i] != o {
      DistinctAt(s, i, k);
    }
    assert LinksOf(s) == old(LinksOf(s))[k := old(LinksOf(s))[k].(next := v)];
  }

  /** `o->prev = v` for the node `o` at index `k` of `s`: no other link of `s` changes. */
  method SetPrev(o: UtilTimer, v: UtilTimer?, ghost s: seq<UtilTimer>, ghost k: nat)
    requires Distinct(s) && k < |s| && s[k] == o
    modifies o`prev
    ensures o.prev == v
    ensures LinksOf(s) == old(LinksOf(s))[k := old(LinksOf(s))[k].(prev := v)]
  {
    o.prev := v;
    forall i | 0 <= i < |s| && i != k ensures s[i] != o {
      DistinctAt(s, i, k);
    }
    assert LinksOf(s) == old(LinksOf(s))[k := old(LinksOf(s))[k].(prev := v)];
  }

  /** Firing the first node of `ns` moves it to the end of `fired`. */
  lemma FireFirst<T>(fired: seq<T>, ns: seq<T>)
    requires ns != []
    ensures (fired + [ns[0]]) + RemoveAt(ns, 0) == fired + ns
  {
    var a, b := (fired + [ns[0]]) + RemoveAt(ns, 0), fired + ns;
    forall i | 0 <= i < |a| ensures a[i] == b[i] {
      if i > |fired| {
        assert a[i] == RemoveAt(ns, 0)[i - |fired| - 1];
      }
    }
  }

  /**
   * The split `tick` leaves: when `n0` is the fired nodes, all expired at `now`,
   * followed by the rest `ns`, which is empty or starts with a later expiry, the
   * split falls at `InsertPos`, and the rest is sorted and expires after `now`.
   */
  lemma TickSplit(n0: seq<UtilTimer>, keys: seq<int>, now: int, fired: seq<UtilTimer>, ns: seq<UtilTimer>)
    requires keys == KeysOf(n0) && Sorted(keys) && n0 == fired + ns
    requires forall t :: t in fired ==> t.expire <= now
    requires ns != [] ==> now < ns[0].expire
    ensures |fired| == InsertPos(keys, now)
    ensures fired == n0[..|fired|] && ns == n0[|fired|..]
    ensures Sorted(KeysOf(ns))
    ensures forall t :: t in ns ==> now < t.expire
  {
    var k := |fired|;
    forall i | 0 <= i < k ensures keys[i] <= now {
      assert n0[i] == fired[i];
    }
    assert k < |n0| ==> n0[k] == ns[0];
    InsertPosUnique(keys, now, k);
    assert fired == n0[..k];
    assert ns == n0[k..];
    TickRest(n0, keys, now, k, ns);
  }

  /** The nodes `tick` keeps are still sorted, and all expire after `now`. */
  lemma TickRest(n0: seq<UtilTimer>, keys: seq<int>, now: int, k: nat, ns: seq<UtilTimer>)
    requires keys == KeysOf(n0) && Sorted(keys) && k <= |n0|
    requires ns == n0[k..]
    requires k < |n0| ==> now < keys[k]
    ensures Sorted(KeysOf(ns))
    ensures forall t :: t in ns ==> now < t.expire
  {
    SortedAll(keys);
    var r := KeysOf(ns);
    forall i, j | 0 <= i < j < |r| ensures r[i] <= r[j] {
      assert r[i] == keys[k + i] && r[j] == keys[k + j];
    }
    SortedAll(r);
    forall t | t in ns ensures now < t.expire {
      var i :| 0 <= i < |ns| && ns[i] == t;
      assert keys[k + i] == t.expire;
    }
  }

  /**
   * The four pointer writes of the private `add_timer` that put `t` between the
   * nodes at `p - 1` and `p` of `s`: the other links of `s` do not change.
   */
  method Splice(prev: UtilTimer, t: UtilTimer, curr: UtilTimer, ghost s: seq<UtilTimer>, ghost p: nat)
    requires Distinct(s) && 0 < p < |s| && s[p - 1] == prev && s[p] == curr && t !in s
    modifies prev`next, t`prev, t`next, curr`prev
    ensures t.prev == prev && t.next == curr
    ensures LinksOf(s) == old(LinksOf(s))[p - 1 := old(LinksOf(s))[p - 1].(next := t)][p := old(LinksOf(s))[p].(prev := t)]
  {
    SetNext(prev, t, s, p - 1);
    t.prev := prev;
    t.next := curr;
    SetPrev(curr, t, s, p);
  }

  // ---------------------------------------------------------------------------
  // The list
  // ---------------------------------------------------------------------------

  class SortTimerList {
    var head: UtilTimer?
    var tail: UtilTimer?
    /** The nodes from head to tail. */
    ghost var Nodes: seq<UtilTimer>

    /**
     * The pointer structure: the nodes are distinct, `head` is the first node (null
     * for an empty list), `tail` the last one, and the nodes' links form a chain.
     * An empty list says nothing of `tail`: `tick` leaves it pointing at the last
     * node it removed.
     */
    ghost predicate Linked()
      reads this, Nodes
    {
      Distinct(Nodes) &&
      (Nodes == [] ==> head == null) &&
      (Nodes != [] ==> head == Nodes[0] && tail == Nodes[|Nodes| - 1]) &&
      Chain(Nodes, LinksOf(Nodes))
    }

    ghost predicate Valid()
      reads this, Nodes
    {
      Linked() && Sorted(Keys())
    }

    /** The expiries from head to tail. */
    ghost function Keys(): (k: seq<int>)
      reads this`Nodes, Nodes`expire
      ensures |k| == |Nodes| && forall i :: 0 <= i < |Nodes| ==> k[i] == Nodes[i].expire
    {
      KeysOf(Nodes)
    }

    /** `sort_timer_list()`. */
    constructor ()
      ensures Valid() && Nodes == [] && head == null && tail == null
    {
      head := null;
      tail := null;
      Nodes := [];
    }

    /** `add_timer(timer)`: nothing for null; otherwise a sorted insertion, after equal expiries. */
    method AddTimer(timer: UtilTimer?)
      requires Valid()
      requires timer != null ==> timer !in Nodes && timer.prev == null && timer.next == null
      modifies this, Nodes`prev, Nodes`next, timer
      ensures Valid()
      ensures timer == null ==> Nodes == old(Nodes) && head == old(head) && tail == old(tail)
      ensures timer != null ==> timer.expire == old(timer.expire)
      ensures timer != null ==> Nodes == Insert(old(Nodes), InsertPos(old(Keys()), timer.expire), timer)
      ensures timer != null && old(head) != null && timer.expire < old(head.expire) ==> head == timer
      ensures timer != null && old(head) != null && old(head.expire) <= timer.expire ==> head == old(head)
    {
      if timer == null {
        return;
      }
      if head == null {
        head, tail := timer, timer;
        Nodes := [timer];
        assert LinksOf(Nodes) == [Link(null, null)];
        return;
      }
      if timer.expire < head.expire {
        ghost var n0 := Nodes;
        ghost var keys := Keys();
        InsertPosUnique(keys, timer.expire, 0);
        LinkAtHead(timer);
        SortedAfterInsert(n0, keys, 0, timer);
        return;
      }
      AddTimerAfter(timer, head, 0);
    }

    /**
     * The private `add_timer(timer, list_head)`: walks from the node after
     * `listHead` and links `timer` before the first node with a strictly greater
     * expiry, or at the tail. `timer` expires no earlier than `listHead` and every
     * node before it.
     */
    method AddTimerAfter(timer: UtilTimer, listHead: UtilTimer, ghost h: nat)
      requires Valid()
      requires h < |Nodes| && Nodes[h] == listHead && timer !in Nodes
      requires forall i :: 0 <= i <= h ==> Nodes[i].expire <= timer.expire
      modifies this`tail, this`Nodes, Nodes`prev, Nodes`next, timer`prev, timer`next
      ensures Valid() && head == old(head)
      ensures Nodes == Insert(old(Nodes), InsertPos(old(Keys()), timer.expire), timer)
    {
      ghost var n0 := Nodes;
      ghost var keys := Keys();
      var prev, curr, ci := FindSlot(timer.expire, listHead, h);
      if curr != null {
        LinkBetween(prev, timer, curr, ci);
      } else {
        LinkAtTail(prev, timer);
      }
      SortedAfterInsert(n0, keys, ci, timer);
    }

    /** The linking steps of `add_timer` that put `timer` in front of the head. */
    method LinkAtHead(timer: UtilTimer)
      requires Linked() && Nodes != [] && timer !in Nodes && timer.prev == null
      modifies this`head, this`Nodes, Nodes`prev, timer`next
      ensures Linked() && Nodes == Insert(old(Nodes), 0, timer) && tail == old(tail)
    {
      ghost var n0 := Nodes;
      ghost var l0 := LinksOf(n0);
      timer.next := head;
      SetPrev(head, timer, n0, 0);
      head := timer;
      Nodes := Insert(n0, 0, timer);
      assert Nodes[|Nodes| - 1] == n0[|n0| - 1];
      DistinctInsert<UtilTimer>(n0, 0, timer);
      LinksOfInsert(n0, 0, timer);
      ChainPrepend(n0, l0, timer, LinksOf(n0));
    }

    /**
     * The walk of the private `add_timer`: from the node after `listHead`, the
     * first node whose expiry exceeds `e` (null at the end) and the node before it.
     */
    method FindSlot(e: int, listHead: UtilTimer, ghost h: nat) returns (prev: UtilTimer, curr: UtilTimer?, ghost ci: nat)
      requires Valid()
      requires h < |Nodes| && Nodes[h] == listHead
      requires forall i :: 0 <= i <= h ==> Nodes[i].expire <= e
      ensures ci == InsertPos(Keys(), e) && 0 < ci
      ensures prev == Nodes[ci - 1] && curr == if ci < |Nodes| then Nodes[ci] else null
    {
      ghost var n0 := Nodes;
      ghost var keys := Keys();
      prev := listHead;
      LinkAt(n0, h);
      curr := prev.next;
      ci := h + 1;
      while curr != null && curr.expire <= e
        invariant 0 < ci <= |n0| && prev == n0[ci - 1]
        invariant curr == if ci < |n0| then n0[ci] else null
        invariant keys[ci - 1] <= e
        decreases |n0| - ci
      {
        LinkAt(n0, ci);
        prev := curr;
        curr := curr.next;
        ci := ci + 1;
      }
      SortedUpTo(keys, ci - 1);
      InsertPosUnique(keys, e, ci);
    }

    /** The linking steps of the private `add_timer` that put `timer` between `prev` and `curr`. */
    method LinkBetween(prev: UtilTimer, timer: UtilTimer, curr: UtilTimer, ghost p: nat)
      requires Linked() && 0 < p < |Nodes| && prev == Nodes[p - 1] && curr == Nodes[p] && timer !in Nodes
      modifies this`Nodes, Nodes`prev, Nodes`next, timer`prev, timer`next
      ensures Linked() && Nodes == Insert(old(Nodes), p, timer) && head == old(head) && tail == old(tail)
    {
      ghost var n0 := Nodes;
      ghost var l0 := LinksOf(n0);
      Splice(prev, timer, curr, n0, p);
      Nodes := Insert(n0, p, timer);
      assert Nodes[|Nodes| - 1] == n0[|n0| - 1];
      DistinctInsert(n0, p, timer);
      LinksOfInsert(n0, p, timer);
      ChainInsert(n0, l0, p, timer, LinksOf(n0));
    }

    /** The linking steps of the private `add_timer` that append `timer` after the tail `prev`. */
    method LinkAtTail(prev: UtilTimer, timer: UtilTimer)
      requires Linked() && Nodes != [] && prev == Nodes[|Nodes| - 1] && timer !in Nodes
      modifies this`tail, this`Nodes, Nodes`next, timer`prev, timer`next
      ensures Linked() && Nodes == Insert(old(Nodes), |old(Nodes)|, timer) && head == old(head)
    {
      ghost var n0 := Nodes;
      ghost var l0 := LinksOf(n0);
      SetNext(prev, timer, n0, |n0| - 1);
      timer.prev := prev;
      timer.next := null;
      tail := timer;
      Nodes := Insert(n0, |n0|, timer);
      DistinctInsert(n0, |n0|, timer);
      LinksOfInsert(n0, |n0|, timer);
      ChainInsert(n0, l0, |n0|, timer, LinksOf(n0));
    }

    /** Expiries are unchanged by relinking, so an insertion at `InsertPos` keeps the order. */
    lemma SortedAfterInsert(n0: seq<UtilTimer>, keys: seq<int>, p: nat, t: UtilTimer)
      requires keys == KeysOf(n0) && Sorted(keys) && p == InsertPos(keys, t.expire)
      requires Nodes == Insert(n0, p, t)
      ensures Sorted(Keys())
    {
      InsertKeepsSorted(keys, t.expire);
      KeysOfInsert(n0, p, t);
    }

    /**
     * Unlinks the head of a list of at least two nodes, as `del_timer` and
     * `adjust_timer` both do: the second node becomes the head.
     */
    method UnlinkHead()
      requires Linked() && |Nodes| > 1
      modifies this`head, this`Nodes, Nodes`prev
      ensures Linked() && Nodes == RemoveAt(old(Nodes), 0) && tail == old(tail)
    {
      ghost var n0 := Nodes;
      ghost var l0 := LinksOf(n0);
      LinkAt(n0, 0);
      head := head.next;
      SetPrev(head, null, n0, 1);
      Nodes := RemoveAt(n0, 0);
      DistinctRemove(n0, 0);
      LinksOfRemove(n0, 0);
      ChainRemoveHead(n0, l0, LinksOf(n0));
    }

    /**
     * Unlinks the tail of a list of at least two nodes, as `del_timer` does: the
     * node before it becomes the tail.
     */
    method UnlinkTail()
      requires Linked() && |Nodes| > 1
      modifies this`tail, this`Nodes, Nodes`next
      ensures Linked() && Nodes == RemoveAt(old(Nodes), |old(Nodes)| - 1) && head == old(head)
    {
      ghost var n0 := Nodes;
      ghost var l0 := LinksOf(n0);
      LinkAt(n0, |n0| - 1);
      tail := tail.prev;
      SetNext(tail, null, n0, |n0| - 2);
      Nodes := RemoveAt(n0, |n0| - 1);
      DistinctRemove(n0, |n0| - 1);
      LinksOfRemove(n0, |n0| - 1);
      ChainRemoveTail(n0, l0, LinksOf(n0));
    }

    /**
     * The step of `tick` that drops the head: its successor, if any, becomes the
     * head and loses its `prev` link.
     */
    method AdvanceHead()
      requires Linked() && Nodes != []
      modifies this`head, this`Nodes, Nodes`prev
      ensures Linked() && Nodes == RemoveAt(old(Nodes), 0) && tail == old(tail)
      ensures KeysOf(Nodes) == RemoveAt(old(KeysOf(Nodes)), 0)
    {
      ghost var n0 := Nodes;
      ghost var l0 := LinksOf(n0);
      LinkAt(n0, 0);
      head := head.next;
      if head != null {
        SetPrev(head, null, n0, 1);
        ChainRemoveHead(n0, l0, LinksOf(n0));
      }
      Nodes := RemoveAt(n0, 0);
      DistinctRemove(n0, 0);
      LinksOfRemove(n0, 0);
      KeysOfRemove(n0, 0);
    }

    /**
     * Unlinks a node that has both neighbours by pointing them at each other,
     * as `del_timer` and `adjust_timer` both do.
     */
    method UnlinkInner(timer: UtilTimer, ghost x: nat)
      requires Linked() && 0 < x < |Nodes| - 1 && Nodes[x] == timer
      modifies this`Nodes, Nodes`prev, Nodes`next
      ensures Linked() && Nodes == RemoveAt(old(Nodes), x) && head == old(head) && tail == old(tail)
    {
      ghost var n0 := Nodes;
      ghost var l0 := LinksOf(n0);
      LinkAt(n0, x);
      var before, after := timer.prev, timer.next;
      SetNext(before, after, n0, x - 1);
      SetPrev(after, before, n0, x + 1);
      Nodes := RemoveAt(n0, x);
      DistinctRemove(n0, x);
      LinksOfRemove(n0, x);
      ChainRemoveInner(n0, l0, x, LinksOf(n0));
    }

    /**
     * `adjust_timer(timer)`, called after the caller raised `timer.expire` in
     * place. Nothing moves when the timer is the tail or is still strictly below
     * its successor; otherwise it is unlinked and re-inserted from its successor
     * on. Either way the result is the list without the timer, with the timer
     * inserted where `add_timer` would put it.
     */
    method AdjustTimer(timer: UtilTimer?)
      requires Linked()
      requires timer == null ==> Sorted(Keys())
      requires timer != null ==> timer in Nodes && Raised(Keys(), IndexOf(Nodes, timer))
      modifies this, Nodes`prev, Nodes`next
      ensures Valid()
      ensures timer == null ==> Nodes == old(Nodes) && head == old(head) && tail == old(tail)
      ensures timer != null ==>
        Nodes == Insert(RemoveAt(old(Nodes), IndexOf(old(Nodes), timer)),
                        InsertPos(RemoveAt(old(Keys()), IndexOf(old(Nodes), timer)), timer.expire), timer)
      ensures timer != null && (old(timer.next) == null || timer.expire < old(timer.next.expire)) ==> Nodes == old(Nodes)
    {
      if timer == null {
        return;
      }
      ghost var n0 := Nodes;
      ghost var x := IndexOf(Nodes, timer);
      ghost var keys := Keys();
      LinkAt(n0, x);
      var temp := timer.next;
      if temp == null || timer.expire < temp.expire {
        RaisedInPlace(keys, x);
        InsertRemove(n0, x);
        return;
      }
      // The source calls the private `add_timer(timer, head)` after unlinking the
      // head, `head` being the new head then, and `add_timer(timer, temp)` after
      // unlinking an inner node, `temp` being `timer->next`.
      Detach(timer, x);
      AdjustPre(n0, keys, x);
      AddTimerAfter(timer, temp, x);
    }

    /**
     * The unlinking of `adjust_timer` for a node with a successor: the head is
     * dropped (and its `next` cleared), an inner node is bridged over.
     */
    method Detach(timer: UtilTimer, ghost x: nat)
      requires Linked() && x + 1 < |Nodes| && Nodes[x] == timer
      modifies this`head, this`Nodes, Nodes`prev, Nodes`next
      ensures Linked() && Nodes == RemoveAt(old(Nodes), x) && timer !in Nodes
    {
      ghost var n0 := Nodes;
      DistinctRemove(n0, x);
      if timer == head {
        assert x == 0 by {
          if x != 0 {
            DistinctAt(n0, x, 0);
          }
        }
        UnlinkHead();
        timer.next := null;
      } else {
        UnlinkInner(timer, x);
      }
    }

    /**
     * After `adjust_timer` unlinked a raised node at `x` that is not below its
     * successor, the rest is sorted and the successor, now at `x`, is where the
     * re-insertion walk starts.
     */
    lemma AdjustPre(n0: seq<UtilTimer>, keys: seq<int>, x: nat)
      requires keys == KeysOf(n0) && Raised(keys, x) && x + 1 < |n0|
      requires keys[x + 1] <= keys[x]
      requires Nodes == RemoveAt(n0, x)
      ensures Sorted(Keys()) && Keys() == RemoveAt(keys, x)
      ensures Nodes[x] == n0[x + 1]
      ensures forall i :: 0 <= i <= x ==> Nodes[i].expire <= n0[x].expire
    {
      RaisedRemove(keys, x);
      KeysOfRemove(n0, x);
      forall i | 0 <= i <= x ensures Nodes[i].expire <= n0[x].expire {
        if i < x {
          assert Nodes[i] == n0[i] && keys[i] == n0[i].expire;
        } else {
          assert Nodes[x] == n0[x + 1] && keys[x + 1] == n0[x + 1].expire;
        }
      }
    }

    /** `del_timer(timer)`: unlinks exactly that node; the others keep their order. */
    method DelTimer(timer: UtilTimer?)
      requires Valid()
      requires timer != null ==> timer in Nodes
      modifies this, Nodes`prev, Nodes`next
      ensures Valid()
      ensures timer == null ==> Nodes == old(Nodes) && head == old(head) && tail == old(tail)
      ensures timer != null ==> Nodes == RemoveAt(old(Nodes), IndexOf(old(Nodes), timer))
    {
      if timer == null {
        return;
      }
      ghost var n0 := Nodes;
      ghost var x := IndexOf(Nodes, timer);
      ghost var keys := Keys();
      // Each branch ends in one of the source's returns.
      if timer == head && timer == tail {
        assert |n0| == 1 by {
          if |n0| > 1 {
            DistinctAt(n0, 0, |n0| - 1);
          }
        }
        head := null;
        tail := null;
        Nodes := [];
        assert Nodes == RemoveAt(n0, x);
      } else if timer == head {
        UnlinkHead();
      } else if timer == tail {
        assert x == |n0| - 1 by {
          if x != |n0| - 1 {
            DistinctAt(n0, x, |n0| - 1);
          }
        }
        UnlinkTail();
      } else {
        DistinctAt(n0, x, 0);
        DistinctAt(n0, x, |n0| - 1);
        UnlinkInner(timer, x);
      }
      SortedAfterRemove(n0, keys, x);
    }

    /** Relinking keeps expiries, so removing a node keeps the order. */
    lemma SortedAfterRemove(n0: seq<UtilTimer>, keys: seq<int>, x: nat)
      requires keys == KeysOf(n0) && Sorted(keys) && x < |n0|
      requires Nodes == RemoveAt(n0, x)
      ensures Sorted(Keys())
    {
      SortedIsRaised(keys, x);
      RaisedRemove(keys, x);
      KeysOfRemove(n0, x);
    }

    /**
     * `tick()` at time `now` (the source reads `time(NULL)`): removes the leading
     * nodes whose expiry is not after `now`, calling their callbacks in list
     * order, and stops at the first node that expires later.
     */
    method Tick(now: int) returns (fired: seq<UtilTimer>)
      requires Valid()
      modifies this, Nodes`prev
      ensures Valid()
      ensures fired == old(Nodes)[..InsertPos(old(Keys()), now)]
      ensures Nodes == old(Nodes)[InsertPos(old(Keys()), now)..]
      ensures forall t :: t in fired ==> t.expire <= now
      ensures forall t :: t in Nodes ==> now < t.expire
    {
      fired := [];
      ghost var n0 := Nodes;
      ghost var keys := Keys();
      if head == null {
        TickDone(n0, keys, now, fired);
        return;
      }
      var temp := head;
      while temp != null
        invariant TickInv(n0, now, fired) && tail == old(tail) && temp == head
        decreases |Nodes|
      {
        var t: UtilTimer := temp;
        if now < t.expire {
          break;
        }
        FireFirst(fired, Nodes);
        fired := fired + [t];
        AdvanceHead();
        temp := head;
      }
      TickDone(n0, keys, now, fired);
    }

    /** The loop invariant of `tick`: `n0` is split into the fired nodes, all expired, and the list. */
    ghost predicate TickInv(n0: seq<UtilTimer>, now: int, fired: seq<UtilTimer>)
      reads this, Nodes, fired
    {
      n0 == fired + Nodes && Linked() &&
      (forall i :: 0 <= i < |Nodes| ==> Nodes[i] in n0) &&
      (forall t :: t in fired ==> t.expire <= now)
    }

    /** The state `tick` ends in satisfies its contract. */
    lemma TickDone(n0: seq<UtilTimer>, keys: seq<int>, now: int, fired: seq<UtilTimer>)
      requires TickInv(n0, now, fired) && keys == KeysOf(n0) && Sorted(keys)
      requires Nodes != [] ==> now < Nodes[0].expire
      ensures Valid()
      ensures fired == n0[..InsertPos(keys, now)] && Nodes == n0[InsertPos(keys, now)..]
      ensures forall t :: t in fired ==> t.expire <= now
      ensures forall t :: t in Nodes ==> now < t.expire
    {
      TickSplit(n0, keys, now, fired, Nodes);
    }

    /** `~sort_timer_list()`: walks the list from the head, releasing every node. */
    method Destroy()
      requires Valid()
      modifies this
      ensures head == null && Nodes == []
    {
      ghost var n0 := Nodes;
      ghost var k := 0;
      var temp := head;
      while temp != null
        invariant 0 <= k <= |n0| && Nodes == n0[k..] && temp == head
        invariant head == if k < |n0| then n0[k] else null
        invariant Chain(n0, LinksOf(n0))
        decreases |Nodes|
      {
        LinkAt(n0, k);
        head := temp.next;
        temp := head;
        Nodes := Nodes[1..];
        k := k + 1;
      }
      Nodes := [];
    }
  }
}
