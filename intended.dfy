/**
 * `pop` as its documentation describes it: it removes the item at the end
 * of the list and returns it, and returns `None` when the list is empty,
 * including a list no page was ever allocated for. It takes its item from
 * the same page as `pop` does, and drops the back page when it and the page
 * before it are both empty, which is what the variable
 * `last_two_pages_empty` names. Paired with `push` as written, every run of
 * pushes and pops returns the items last first.
 */
module IntendedPop {
  import opened Wrappers
  import opened Pages
  import opened UnrolledList
  import opened PushPop

  /**
   * The invariant `push` and the corrected `pop` keep: `len` counts the
   * stored items, every page before the back one holds at least one item,
   * and the first n pages hold no more than a chain of n pages is deemed
   * large enough for.
   */
  ghost predicate Settled<T>(s: Snapshot<T>)
  {
    s.len == |Flatten(s.pages)| &&
    (forall i :: 0 <= i < |s.pages| - 1 ==> |s.pages[i].items| > 0) &&
    (forall n :: 1 <= n <= |s.pages| ==> |Flatten(s.pages[..n])| <= Capacity(n))
  }

  /** Each further page adds 512 * 512 to the capacity. */
  lemma CapacityStep(k: nat)
    ensures Capacity(k + 1) == Capacity(k) + PAGE_SIZE * PAGE_SIZE
  {
  }

  /** A new list is settled. */
  lemma InitialSettled<T>()
    ensures Settled(Initial<T>())
  {
  }

  /**
   * A chain that keeps every page but the back one, and whose items fit the
   * capacity of its page count, is settled when the old one was.
   */
  lemma SettledBackChanged<T>(s: Snapshot<T>, t: Snapshot<T>)
    requires Settled(s) && |s.pages| > 0
    requires |t.pages| == |s.pages| && t.pages[..|s.pages| - 1] == s.pages[..|s.pages| - 1]
    requires t.len == |Flatten(t.pages)| <= Capacity(|t.pages|)
    ensures Settled(t)
  {
    var k := |s.pages|;
    forall n | 1 <= n <= k
      ensures |Flatten(t.pages[..n])| <= Capacity(n)
    {
      if n < k {
        assert t.pages[..n] == t.pages[..k - 1][..n] == s.pages[..k - 1][..n] == s.pages[..n];
      } else {
        assert t.pages[..n] == t.pages;
      }
    }
    forall i | 0 <= i < k - 1
      ensures |t.pages[i].items| > 0
    {
      assert t.pages[i] == t.pages[..k - 1][i];
    }
  }

  /**
   * A chain that extends a settled one by a page, where the old back page
   * held an item and all items fit the new page count, is settled.
   */
  lemma SettledPageAdded<T>(s: Snapshot<T>, t: Snapshot<T>)
    requires Settled(s)
    requires |t.pages| == |s.pages| + 1 && t.pages[..|s.pages|] == s.pages
    requires |s.pages| > 0 ==> |s.pages[|s.pages| - 1].items| > 0
    requires t.len == |Flatten(t.pages)| <= Capacity(|t.pages|)
    ensures Settled(t)
  {
    var k := |s.pages|;
    forall n | 1 <= n <= k + 1
      ensures |Flatten(t.pages[..n])| <= Capacity(n)
    {
      if n <= k {
        assert t.pages[..n] == t.pages[..k][..n] == s.pages[..n];
      } else {
        assert t.pages[..n] == t.pages;
      }
    }
    forall i | 0 <= i < k
      ensures |t.pages[i].items| > 0
    {
      assert t.pages[i] == t.pages[..k][i];
    }
  }

  /**
   * On a settled chain `push` opens a page only when the back page holds an
   * item: with an empty back page the chain holds no more than one page fewer
   * is deemed large enough for.
   */
  lemma FullBackPage<T>(s: Snapshot<T>)
    requires Settled(s) && |s.pages| > 0 && !EnoughPagesFor(s.pages, s.len)
    ensures |s.pages[|s.pages| - 1].items| > 0
  {
    var k := |s.pages|;
    FlattenLast(s.pages);
    if k >= 2 {
      CapacityStep(k - 1);
      assert |Flatten(s.pages[..k - 1])| <= Capacity(k - 1);
    }
  }

  /** `push` as written keeps the corrected invariant. */
  lemma PushKeepsSettled<T>(s: Snapshot<T>, item: T)
    requires Settled(s)
    ensures Settled(Pushed(s, item))
  {
    var k := |s.pages|;
    CapacityStep(k);
    if EnoughPagesFor(s.pages, s.len) {
      SettledBackChanged(s, Pushed(s, item));
    } else {
      if k > 0 {
        FullBackPage(s);
        assert s.pages[..k] == s.pages;
      }
      SettledPageAdded(s, Pushed(s, item));
    }
  }

  /** A run of pushes keeps the corrected invariant. */
  lemma {:induction false} PushAllKeepsSettled<T>(s: Snapshot<T>, xs: seq<T>)
    requires Settled(s)
    ensures Settled(PushAll(s, xs))
    decreases |xs|
  {
    if |xs| > 0 {
      var init, x := xs[..|xs| - 1], xs[|xs| - 1];
      PushAllKeepsSettled(s, init);
      PushKeepsSettled(PushAll(s, init), x);
    }
  }

  /**
   * The corrected `pop`: `None` when there is no page; otherwise the item
   * comes off the same page as in `pop`, the back page is dropped when it
   * and the page before it are both empty, and `len` goes down when an item
   * came out. The item is the last one of the whole list.
   */
  function PoppedIntended<T>(s: Snapshot<T>): (r: PopOutcome<T>)
    requires s.len == |Flatten(s.pages)|
    ensures r.state.len == |Flatten(r.state.pages)|
    ensures Flatten(s.pages) ==
      Flatten(r.state.pages) + (if r.item.Some? then [r.item.value] else [])
    ensures |s.pages| == 0 ==> r == PopOutcome(s, None)
  {
    if |s.pages| == 0 then PopOutcome(s, None)
    else
      var src := SourcePage(s.pages);
      var popped := PopItem(s.pages[src]);
      var pages := s.pages[src := popped.0];
      var k := |pages|;
      var lastTwoPagesEmpty := k >= 2 && |pages[k - 1].items| == 0 && |pages[k - 2].items| == 0;
      var kept := if lastTwoPagesEmpty then pages[..k - 1] else pages;
      assert Flatten(kept) == Flatten(pages) by {
        if lastTwoPagesEmpty {
          FlattenLast(pages);
        }
      }
      PopTakesLastItem(s.pages);
      PopOutcome(Snapshot(kept, if popped.1.Some? then s.len - 1 else s.len), popped.1)
  }

  /** Changing one page into a smaller one does not enlarge any prefix of the chain. */
  lemma PrefixShrinks<T>(ps: seq<Page<T>>, i: nat, q: Page<T>, n: nat)
    requires i < |ps| && |q.items| <= |ps[i].items| && n <= |ps|
    ensures |Flatten(ps[i := q][..n])| <= |Flatten(ps[..n])|
  {
    if i < n {
      assert ps[i := q][..n] == ps[..n][i := q];
      FlattenUpdate(ps[..n], i, q);
    } else {
      assert ps[i := q][..n] == ps[..n];
    }
  }

  /** On a settled list, the page `pop` takes its item from is empty only when the whole list is. */
  lemma SourcePageHoldsLast<T>(s: Snapshot<T>)
    requires Settled(s) && |s.pages| > 0
    ensures |s.pages[SourcePage(s.pages)].items| > 0 <==> |Flatten(s.pages)| > 0
  {
    var k := |s.pages|;
    var src := SourcePage(s.pages);
    PopTakesLastItem(s.pages);
    if |Flatten(s.pages)| > 0 && src == k - 1 {
      FlattenLast(s.pages);
      if k >= 2 {
        assert |s.pages[k - 2].items| > 0;
        assert |s.pages[k - 1].items| > 0;
      } else {
        assert s.pages[..0] == [];
      }
    }
  }

  /**
   * The corrected `pop` on a settled list returns an item exactly when the
   * list holds one, and that item is the last one.
   */
  lemma PopIntendedItem<T>(s: Snapshot<T>)
    requires Settled(s)
    ensures PoppedIntended(s).item.Some? <==> |Flatten(s.pages)| > 0
    ensures PoppedIntended(s).item.Some? ==> PoppedIntended(s).item.value == Flatten(s.pages)[|Flatten(s.pages)| - 1]
  {
    if |s.pages| > 0 {
      SourcePageHoldsLast(s);
    }
  }

  /** The corrected `pop` keeps a settled list settled. */
  lemma PopIntendedKeepsSettled<T>(s: Snapshot<T>)
    requires Settled(s)
    ensures Settled(PoppedIntended(s).state)
  {
    var k := |s.pages|;
    if k > 0 {
      var src := SourcePage(s.pages);
      var popped := PopItem(s.pages[src]);
      var mid := s.pages[src := popped.0];
      var drop := k >= 2 && |mid[k - 1].items| == 0 && |mid[k - 2].items| == 0;
      assert PoppedIntended(s).state.pages == if drop then mid[..k - 1] else mid;
      PrefixBound(s, src, popped.0, drop);
      NonEmptyBeforeBack(s, src, popped.0, drop);
    }
  }

  /**
   * Shrinking the page `pop` takes from, and dropping the back page when it
   * and the page before it are empty, leaves no empty page before the back one.
   */
  lemma NonEmptyBeforeBack<T>(s: Snapshot<T>, src: nat, q: Page<T>, drop: bool)
    requires Settled(s) && |s.pages| > 0 && src == SourcePage(s.pages)
    requires var mid := s.pages[src := q];
      drop == (|s.pages| >= 2 && |mid[|s.pages| - 1].items| == 0 && |mid[|s.pages| - 2].items| == 0)
    ensures var mid := s.pages[src := q];
      var pages := if drop then mid[..|s.pages| - 1] else mid;
      forall i :: 0 <= i < |pages| - 1 ==> |pages[i].items| > 0
  {
  }

  /** Shrinking one page and perhaps dropping the back page keeps every prefix within its capacity. */
  lemma PrefixBound<T>(s: Snapshot<T>, src: nat, q: Page<T>, drop: bool)
    requires Settled(s) && src < |s.pages| && |q.items| <= |s.pages[src].items|
    requires drop ==> |s.pages| >= 2
    ensures var mid := s.pages[src := q];
      var pages := if drop then mid[..|s.pages| - 1] else mid;
      forall n :: 1 <= n <= |pages| ==> |Flatten(pages[..n])| <= Capacity(n)
  {
    var mid := s.pages[src := q];
    var pages := if drop then mid[..|s.pages| - 1] else mid;
    forall n | 1 <= n <= |pages|
      ensures |Flatten(pages[..n])| <= Capacity(n)
    {
      PrefixShrinks(s.pages, src, q, n);
      if drop {
        assert pages[..n] == mid[..n];
      }
    }
  }

  /** Pops `n` times with the corrected `pop`: the final state and the values returned, in order. */
  function PopManyIntended<T>(s: Snapshot<T>, n: nat): (r: (Snapshot<T>, seq<Option<T>>))
    requires s.len == |Flatten(s.pages)|
    ensures |r.1| == n && r.0.len == |Flatten(r.0.pages)|
    decreases n
  {
    if n == 0 then (s, [])
    else
      var p := PoppedIntended(s);
      var rest := PopManyIntended(p.state, n - 1);
      (rest.0, [p.item] + rest.1)
  }

  /** One corrected pop on a settled list, in terms of its items alone. */
  lemma PopIntendedTakesLast<T>(s: Snapshot<T>)
    requires Settled(s)
    ensures var p := PoppedIntended(s);
      Settled(p.state) && p.item == LastItem(Flatten(s.pages)) && Flatten(p.state.pages) == DropLast(Flatten(s.pages))
  {
    PopIntendedItem(s);
    PopIntendedKeepsSettled(s);
  }

  /** `n` corrected pops keep a settled list settled. */
  lemma {:induction false} PopManyIntendedSettled<T>(s: Snapshot<T>, n: nat)
    requires Settled(s)
    ensures Settled(PopManyIntended(s, n).0)
    decreases n
  {
    if n > 0 {
      var p := PoppedIntended(s);
      PopIntendedKeepsSettled(s);
      PopManyIntendedSettled(p.state, n - 1);
      assert PopManyIntended(s, n).0 == PopManyIntended(p.state, n - 1).0;
    }
  }

  /** `n` corrected pops on a settled list leave the items not yet returned. */
  lemma {:induction false} PopManyIntendedState<T>(s: Snapshot<T>, n: nat)
    requires Settled(s)
    ensures Flatten(PopManyIntended(s, n).0.pages) == Remaining(Flatten(s.pages), n)
    decreases n
  {
    if n == 0 {
      var ys := Flatten(s.pages);
      assert ys[..|ys|] == ys;
    } else {
      var p := PoppedIntended(s);
      PopIntendedTakesLast(s);
      DropLastThenPrefix(Flatten(s.pages), n);
      PopManyIntendedState(p.state, n - 1);
      assert PopManyIntended(s, n).0 == PopManyIntended(p.state, n - 1).0;
    }
  }

  /** `n` corrected pops on a settled list return its items last first, then `None`. */
  lemma {:induction false} PopManyIntendedItems<T>(s: Snapshot<T>, n: nat)
    requires Settled(s)
    ensures PopManyIntended(s, n).1 == LastFirst(Flatten(s.pages), n)
    decreases n
  {
    if n > 0 {
      var p := PoppedIntended(s);
      PopIntendedTakesLast(s);
      LastFirstCons(Flatten(s.pages), n);
      PopManyIntendedItems(p.state, n - 1);
    } else {
      assert LastFirst(Flatten(s.pages), 0) == [];
    }
  }

  /**
   * The round trip the documentation promises, for any items, including none:
   * after pushing them onto a new list, corrected pops return them in
   * reverse order with the count tracking each step, and every later pop
   * returns `None` with the count at zero.
   */
  lemma PushPopIntendedRoundTrip<T>(xs: seq<T>, n: nat)
    ensures var r := PopManyIntended(PushAll(Initial(), xs), n);
      r.0.len == |xs| - Min(n, |xs|) && r.1 == LastFirst(xs, n)
  {
    var s := PushAll(Initial<T>(), xs);
    assert Flatten(s.pages) == xs;
    InitialSettled<T>();
    PushAllKeepsSettled(Initial(), xs);
    PopManyIntendedSettled(s, n);
    PopManyIntendedState(s, n);
    PopManyIntendedItems(s, n);
  }
}
