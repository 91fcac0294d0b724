/**
 * Where `pop` does not do what its documentation promises (take the last
 * item off the list, or give `None` when the list is empty): the behaviour
 * as written, shown on concrete call sequences. The corrected
 * `pop` is in module IntendedPop.
 */
module PopFindings {
  import opened Wrappers
  import opened Pages
  import opened UnrolledList
  import opened PushPop

  /**
   * A new list holds no items and has no back page, so `pop`, which unwraps
   * the back page (`Unrolled.Pop` requires one), cannot give the `None` its
   * documentation promises for an empty list.
   */
  lemma NewListHasNoBackPage<T>()
    ensures |Flatten(Initial<T>().pages)| == 0 && !(|Initial<T>().pages| > 0)
  {
  }

  /** The (1025 * 512 + 1)-th push onto a new list opens a third page. */
  lemma PushAllThreePages<T>(a: seq<T>, b: seq<T>, x: T)
    requires |a| == Capacity(1) && |b| == Capacity(2) - Capacity(1)
    ensures PushAll(Initial(), a + b + [x]) == Snapshot([Page(a), Page(b), Page([x])], |a| + |b| + 1)
  {
    PushAllSnoc(Initial(), a + b, x);
    PushAllTwoPages(a, b);
    PushOpensThirdPage(a, b, x);
  }

  /** At 1025 * 512 items on two pages, a push opens a third page. */
  lemma PushOpensThirdPage<T>(a: seq<T>, b: seq<T>, x: T)
    requires |a| + |b| == Capacity(2)
    ensures Pushed(Snapshot([Page(a), Page(b)], |a| + |b|), x) ==
      Snapshot([Page(a), Page(b), Page([x])], |a| + |b| + 1)
  {
  }

  /** Three pages whose first holds at least a page's worth of items satisfy the invariant. */
  lemma ThreePagesConsistent<T>(a: seq<T>, b: seq<T>, c: seq<T>)
    requires |a| >= PAGE_SIZE
    ensures Consistent(Snapshot([Page(a), Page(b), Page(c)], |a| + |b| + |c|))
  {
    var pages := [Page(a), Page(b), Page(c)];
    assert pages[..2][..1] == pages[..1];
    FlattenLast(pages);
    FlattenLast(pages[..2]);
    FlattenLast(pages[..1]);
  }

  /**
   * With a full first page, an item on the middle page and an empty back
   * page, `pop` takes the middle page's last item and drops nothing.
   */
  lemma PopMiddlePage<T>(a: seq<T>, b: seq<T>)
    requires |a| >= PAGE_SIZE && |b| > 0
    ensures Consistent(Snapshot([Page(a), Page(b), Page([])], |a| + |b|))
    ensures Popped(Snapshot([Page(a), Page(b), Page([])], |a| + |b|)) ==
      PopOutcome(Snapshot([Page(a), Page(b[..|b| - 1]), Page([])], |a| + |b| - 1), Some(b[|b| - 1]))
  {
    ThreePagesConsistent(a, b, []);
  }

  /** Draining the middle page one `pop` at a time. */
  lemma {:induction false} PopManyMiddlePage<T>(a: seq<T>, b: seq<T>, n: nat)
    requires |a| >= PAGE_SIZE && n <= |b|
    ensures Consistent(Snapshot([Page(a), Page(b), Page([])], |a| + |b|))
    ensures PopMany(Snapshot([Page(a), Page(b), Page([])], |a| + |b|), n).0 ==
      Snapshot([Page(a), Page(b[..|b| - n]), Page([])], |a| + |b| - n)
    decreases n
  {
    ThreePagesConsistent(a, b, []);
    if n == 0 {
      assert b[..|b|] == b;
    } else {
      var init := b[..|b| - 1];
      assert init[..|init| - (n - 1)] == b[..|b| - n];
      var s := Snapshot([Page(a), Page(b), Page([])], |a| + |b|);
      PopMiddlePage(a, b);
      PopManyMiddlePage(a, init, n - 1);
      PopManyStep(s, n);
    }
  }

  /**
   * With a first page holding items and both later pages empty, `pop`
   * returns `None` and leaves the list as it was.
   */
  lemma PopStuck<T>(a: seq<T>)
    requires |a| >= PAGE_SIZE
    ensures Consistent(Snapshot([Page(a), Page([]), Page([])], |a|))
    ensures Flatten([Page(a), Page([]), Page([])]) == a
    ensures Popped(Snapshot([Page(a), Page([]), Page([])], |a|)) ==
      PopOutcome(Snapshot([Page(a), Page([]), Page([])], |a|), None)
  {
    var pages: seq<Page<T>> := [Page(a), Page([]), Page([])];
    FlattenLast(pages);
    FlattenLast(pages[..2]);
    FlattenLast(pages[..1]);
    assert pages[..2][..1] == pages[..1];
  }

  /**
   * As written, `pop` loses track of the first page once a third page has
   * been opened: push 1025 * 512 + 1 items onto a new list, pop
   * 1025 * 512 + 1 - 513 * 512 of them (the back page's one item and the
   * whole middle page), and the next `pop` returns `None` although
   * `len()` is 513 * 512 and the first page still holds that many items.
   * Every later `pop` does the same.
   */
  lemma PopStallsAfterThirdPage<T>(a: seq<T>, b: seq<T>, x: T)
    requires |a| == Capacity(1) && |b| == Capacity(2) - Capacity(1)
    ensures Consistent(PushAll(Initial(), a + b + [x]))
    ensures var s := PopMany(PushAll(Initial(), a + b + [x]), |b| + 1).0;
      s.len == |a| && Flatten(s.pages) == a && Popped(s) == PopOutcome(s, None)
  {
    PushAllKeepsConsistent(Initial(), a + b + [x]);
    DrainToFirstPage(a, b, x);
    PopStuck(a);
  }

  /** The back page's item goes first, then the whole middle page. */
  lemma DrainToFirstPage<T>(a: seq<T>, b: seq<T>, x: T)
    requires |a| == Capacity(1) && |b| == Capacity(2) - Capacity(1)
    ensures Consistent(PushAll(Initial(), a + b + [x]))
    ensures PopMany(PushAll(Initial(), a + b + [x]), |b| + 1).0 == Snapshot([Page(a), Page([]), Page([])], |a|)
  {
    PushAllThreePages(a, b, x);
    var s0 := Snapshot([Page(a), Page(b), Page([x])], |a| + |b| + 1);
    ThreePagesConsistent(a, b, [x]);
    PopBackItem(a, b, x);
    PopManyStep(s0, |b| + 1);
    PopManyMiddlePage(a, b, |b|);
    assert b[..0] == [];
  }

  /** With one item on a third page, `pop` takes it and keeps the empty back page. */
  lemma PopBackItem<T>(a: seq<T>, b: seq<T>, x: T)
    requires |a| == Capacity(1) && |b| == Capacity(2) - Capacity(1)
    ensures Consistent(Snapshot([Page(a), Page(b), Page([x])], |a| + |b| + 1))
    ensures Popped(Snapshot([Page(a), Page(b), Page([x])], |a| + |b| + 1)) ==
      PopOutcome(Snapshot([Page(a), Page(b), Page([])], |a| + |b|), Some(x))
  {
    ThreePagesConsistent(a, b, [x]);
    var pages := [Page(a), Page(b), Page([x])];
    FlattenLast(pages);
  }
}
