/**
 * Sequences of `push` and `pop` calls, and the round trip the unit test
 * `smoke_push_pop` checks.
 */
module PushPop {
  import opened Wrappers
  import opened Pages
  import opened UnrolledList

  /** The state after pushing the items of `xs` in order. */
  function PushAll<T>(s: Snapshot<T>, xs: seq<T>): (r: Snapshot<T>)
    ensures r.len == s.len + |xs|
    ensures Flatten(r.pages) == Flatten(s.pages) + xs
    ensures |xs| > 0 ==> |r.pages| > 0
    decreases |xs|
  {
    if |xs| == 0 then s
    else
      var init, x := xs[..|xs| - 1], xs[|xs| - 1];
      assert init + [x] == xs;
      Pushed(PushAll(s, init), x)
  }

  /** A run of pushes keeps the invariant. */
  lemma {:induction false} PushAllKeepsConsistent<T>(s: Snapshot<T>, xs: seq<T>)
    requires Consistent(s)
    ensures Consistent(PushAll(s, xs))
    decreases |xs|
  {
    if |xs| > 0 {
      var init, x := xs[..|xs| - 1], xs[|xs| - 1];
      PushAllKeepsConsistent(s, init);
      PushKeepsConsistent(PushAll(s, init), x);
    }
  }

  /** The smaller of two counts. */
  function Min(a: nat, b: nat): nat
  {
    if a <= b then a else b
  }

  /** What is left of a list holding `ys` after `n` pops that each take the last item, if any. */
  function Remaining<T>(ys: seq<T>, n: nat): seq<T>
  {
    ys[..|ys| - Min(n, |ys|)]
  }

  /**
   * What `n` pops should return from a list holding `ys`: its items last
   * first, then `None` once none is left.
   */
  function LastFirst<T>(ys: seq<T>, n: nat): seq<Option<T>>
  {
    seq(n, i requires 0 <= i < n => if i < |ys| then Some(ys[|ys| - 1 - i]) else None)
  }

  /** The items of `ys` without its last one (none when there is none). */
  function DropLast<T>(ys: seq<T>): seq<T>
  {
    if |ys| == 0 then [] else ys[..|ys| - 1]
  }

  /** The last item of `ys`, if any. */
  function LastItem<T>(ys: seq<T>): Option<T>
  {
    if |ys| == 0 then None else Some(ys[|ys| - 1])
  }

  /** Taking the last item off, then `n - 1` more, is taking `n` items off. */
  lemma DropLastThenPrefix<T>(ys: seq<T>, n: nat)
    requires n > 0
    ensures Remaining(DropLast(ys), n - 1) == Remaining(ys, n)
  {
  }

  /**
   * Returning the last item of `ys` and then the items of what is left last
   * first returns the items of `ys` last first.
   */
  lemma LastFirstCons<T>(ys: seq<T>, n: nat)
    requires n > 0
    ensures LastFirst(ys, n) == [LastItem(ys)] + LastFirst(DropLast(ys), n - 1)
  {
    var a, b := LastFirst(ys, n), [LastItem(ys)] + LastFirst(DropLast(ys), n - 1);
    forall i | 0 <= i < n
      ensures a[i] == b[i]
    {
      if i > 0 {
        assert b[i] == LastFirst(DropLast(ys), n - 1)[i - 1];
      }
    }
  }

  /** Pops `n` times: the final state and the values returned, in order. */
  ghost function PopMany<T>(s: Snapshot<T>, n: nat): (r: (Snapshot<T>, seq<Option<T>>))
    requires |s.pages| > 0 && Consistent(s)
    ensures |r.1| == n && |r.0.pages| > 0 && Consistent(r.0)
    decreases n
  {
    if n == 0 then (s, [])
    else
      PopKeepsConsistent(s);
      var p := Popped(s);
      var rest := PopMany(p.state, n - 1);
      (rest.0, [p.item] + rest.1)
  }

  /** `n` pops are one pop followed by `n - 1` more. */
  lemma PopManyStep<T>(s: Snapshot<T>, n: nat)
    requires |s.pages| > 0 && Consistent(s) && n > 0
    ensures |Popped(s).state.pages| > 0 && Consistent(Popped(s).state)
    ensures PopMany(s, n) == (PopMany(Popped(s).state, n - 1).0, [Popped(s).item] + PopMany(Popped(s).state, n - 1).1)
  {
    PopKeepsConsistent(s);
  }

  /**
   * Up to 513 * 512 items, pushing onto a new list fills a single page: the
   * chain has one page and it holds every item pushed, in order.
   */
  lemma {:induction false} PushAllOnePage<T>(xs: seq<T>)
    requires 0 < |xs| <= Capacity(1)
    ensures PushAll(Initial(), xs) == OnePage(xs)
  {
    var init, x := xs[..|xs| - 1], xs[|xs| - 1];
    assert init + [x] == xs;
    PushAllSnoc(Initial(), init, x);
    if |init| > 0 {
      PushAllOnePage(init);
      PushOntoFirstPage(init, x);
    } else {
      assert PushAll(Initial<T>(), init) == Initial();
      PushOntoNewList(x);
    }
  }

  /** The first push onto a new list allocates a page and stores the item there. */
  lemma PushOntoNewList<T>(x: T)
    ensures Pushed(Initial(), x) == OnePage([x])
  {
  }

  /** Pushing `xs` and then `x` is pushing `xs + [x]`. */
  lemma PushAllSnoc<T>(s: Snapshot<T>, xs: seq<T>, x: T)
    ensures PushAll(s, xs + [x]) == Pushed(PushAll(s, xs), x)
  {
    assert (xs + [x])[..|xs|] == xs;
  }

  /** Below 513 * 512 items, a push onto a single page appends to it. */
  lemma PushOntoFirstPage<T>(a: seq<T>, x: T)
    requires |a| < Capacity(1)
    ensures Pushed(OnePage(a), x) == OnePage(a + [x])
  {
  }

  /** A list whose items `ys` all sit on a single page. */
  function OnePage<T>(ys: seq<T>): Snapshot<T>
  {
    Snapshot([Page(ys)], |ys|)
  }

  /** A list whose items all sit on one page satisfies the invariant. */
  lemma OnePageConsistent<T>(ys: seq<T>)
    ensures Consistent(OnePage(ys))
  {
    FlattenLast([Page(ys)]);
  }

  /**
   * One `pop` on a list whose items all sit on one page returns the last
   * item and decrements the count, or returns `None` and changes nothing
   * when the page is empty.
   */
  lemma PopOnePage<T>(ys: seq<T>)
    ensures Consistent(OnePage(ys))
    ensures Popped(OnePage(ys)) == PopOutcome(OnePage(DropLast(ys)), LastItem(ys))
  {
    OnePageConsistent(ys);
  }

  /**
   * Popping a list whose items all sit on one page `n` times leaves on that
   * page the items not yet returned, and the count equal to their number.
   */
  lemma {:induction false} PopManyOnePageState<T>(ys: seq<T>, n: nat)
    ensures Consistent(OnePage(ys))
    ensures PopMany(OnePage(ys), n).0 == OnePage(Remaining(ys, n))
    decreases n
  {
    OnePageConsistent(ys);
    if n == 0 {
      assert ys[..|ys|] == ys;
    } else {
      DropLastThenPrefix(ys, n);
      PopOnePage(ys);
      PopManyOnePageState(DropLast(ys), n - 1);
      PopManyStep(OnePage(ys), n);
    }
  }

  /**
   * Popping a list whose items all sit on one page returns them last first;
   * once the page is empty every pop returns `None`.
   */
  lemma {:induction false} PopManyOnePageItems<T>(ys: seq<T>, n: nat)
    ensures Consistent(OnePage(ys))
    ensures PopMany(OnePage(ys), n).1 == LastFirst(ys, n)
    decreases n
  {
    OnePageConsistent(ys);
    if n == 0 {
      assert LastFirst(ys, 0) == [];
    } else {
      LastFirstCons(ys, n);
      PopOnePage(ys);
      PopManyOnePageItems(DropLast(ys), n - 1);
      PopManyStep(OnePage(ys), n);
    }
  }

  /** A push onto a full single page opens a second page. */
  lemma PushOpensSecondPage<T>(a: seq<T>, x: T)
    requires |a| == Capacity(1)
    ensures Pushed(OnePage(a), x) == Snapshot([Page(a), Page([x])], |a| + 1)
  {
  }

  /** Below 1025 * 512 items, a push onto two pages appends to the second. */
  lemma PushOntoSecondPage<T>(a: seq<T>, b: seq<T>, x: T)
    requires |a| + |b| < Capacity(2)
    ensures Pushed(Snapshot([Page(a), Page(b)], |a| + |b|), x) == Snapshot([Page(a), Page(b + [x])], |a| + |b| + 1)
  {
  }

  /** The (513 * 512 + 1)-th push onto a new list opens a second page. */
  lemma PushAllOpensSecondPage<T>(a: seq<T>, x: T)
    requires |a| == Capacity(1)
    ensures PushAll(Initial(), a + [x]) == Snapshot([Page(a), Page([x])], |a| + 1)
  {
    PushAllSnoc(Initial(), a, x);
    PushAllOnePage(a);
    PushOpensSecondPage(a, x);
  }

  /**
   * Past 513 * 512 items pushing onto a new list fills a second page, up to
   * 1025 * 512 items: the first 513 * 512 items stay on the first page.
   */
  lemma {:induction false} PushAllTwoPages<T>(a: seq<T>, b: seq<T>)
    requires |a| == Capacity(1) && 0 < |b| <= Capacity(2) - Capacity(1)
    ensures PushAll(Initial(), a + b) == Snapshot([Page(a), Page(b)], |a| + |b|)
    decreases |b|
  {
    var init, x := b[..|b| - 1], b[|b| - 1];
    assert init + [x] == b;
    assert a + b == (a + init) + [x];
    PushAllSnoc(Initial(), a + init, x);
    if |init| == 0 {
      assert a + init == a;
      PushAllOpensSecondPage(a, x);
    } else {
      PushAllTwoPages(a, init);
      PushOntoSecondPage(a, init, x);
    }
  }

  /**
   * A list of two pages holding `ys`: the first page takes the first
   * 513 * 512 items and the second page the rest, or the first page takes all
   * of `ys` and the second page is empty when they fit there.
   */
  function TwoPages<T>(ys: seq<T>): Snapshot<T>
  {
    if |ys| <= Capacity(1) then Snapshot([Page(ys), Page([])], |ys|)
    else Snapshot([Page(ys[..Capacity(1)]), Page(ys[Capacity(1)..])], |ys|)
  }

  /** A list of two pages satisfies the invariant. */
  lemma TwoPagesConsistent<T>(ys: seq<T>)
    ensures Consistent(TwoPages(ys)) && |TwoPages(ys).pages| == 2
  {
    var pages := TwoPages(ys).pages;
    FlattenLast(pages);
    FlattenLast(pages[..1]);
    assert pages[..1][..0] == [];
    if |ys| > Capacity(1) {
      assert ys[..Capacity(1)] + ys[Capacity(1)..] == ys;
    }
  }

  /**
   * Between 513 * 512 and 1025 * 512 items, pushing onto a new list gives
   * two pages, the first one full.
   */
  lemma PushAllOnTwoPages<T>(xs: seq<T>)
    requires Capacity(1) < |xs| <= Capacity(2)
    ensures PushAll(Initial(), xs) == TwoPages(xs)
  {
    var a, b := xs[..Capacity(1)], xs[Capacity(1)..];
    assert a + b == xs;
    PushAllTwoPages(a, b);
  }

  /**
   * On two pages, `pop` never drops a page: it takes the last item of the
   * second page, or of the first page once the second is empty, and returns
   * `None` when both are empty.
   */
  lemma PopTwoPages<T>(ys: seq<T>)
    ensures Consistent(TwoPages(ys)) && |TwoPages(ys).pages| == 2
    ensures Popped(TwoPages(ys)) == PopOutcome(TwoPages(DropLast(ys)), LastItem(ys))
  {
    TwoPagesConsistent(ys);
    if |ys| > Capacity(1) {
      var a, b := ys[..Capacity(1)], ys[Capacity(1)..];
      if |ys| - 1 > Capacity(1) {
        assert DropLast(ys)[..Capacity(1)] == a && DropLast(ys)[Capacity(1)..] == b[..|b| - 1];
      } else {
        assert DropLast(ys) == a && b[..|b| - 1] == [];
      }
    }
  }

  /** Popping a two-page list `n` times leaves the items not yet returned, on two pages. */
  lemma {:induction false} PopManyTwoPagesState<T>(ys: seq<T>, n: nat)
    ensures Consistent(TwoPages(ys)) && |TwoPages(ys).pages| == 2
    ensures PopMany(TwoPages(ys), n).0 == TwoPages(Remaining(ys, n))
    decreases n
  {
    TwoPagesConsistent(ys);
    if n == 0 {
      assert ys[..|ys|] == ys;
    } else {
      DropLastThenPrefix(ys, n);
      PopTwoPages(ys);
      PopManyTwoPagesState(DropLast(ys), n - 1);
      PopManyStep(TwoPages(ys), n);
    }
  }

  /** Popping a two-page list returns its items last first, then `None`. */
  lemma {:induction false} PopManyTwoPagesItems<T>(ys: seq<T>, n: nat)
    ensures Consistent(TwoPages(ys)) && |TwoPages(ys).pages| == 2
    ensures PopMany(TwoPages(ys), n).1 == LastFirst(ys, n)
    decreases n
  {
    TwoPagesConsistent(ys);
    if n == 0 {
      assert LastFirst(ys, 0) == [];
    } else {
      LastFirstCons(ys, n);
      PopTwoPages(ys);
      PopManyTwoPagesItems(DropLast(ys), n - 1);
      PopManyStep(TwoPages(ys), n);
    }
  }

  /**
   * The unit test `smoke_push_pop`, for any items that stay on two pages
   * (the test pushes 0 .. 3 * 512 - 1): after pushing them onto a new list,
   * pops return them in reverse order with the count tracking each step, and
   * every later pop returns `None` with the count at zero.
   */
  lemma PushPopRoundTrip<T>(xs: seq<T>, n: nat)
    requires 0 < |xs| <= Capacity(2)
    ensures PushAll(Initial(), xs) == if |xs| <= Capacity(1) then OnePage(xs) else TwoPages(xs)
    ensures Consistent(PushAll(Initial(), xs))
    ensures var r := PopMany(PushAll(Initial(), xs), n);
      r.0.len == |xs| - Min(n, |xs|) && r.1 == LastFirst(xs, n)
  {
    if |xs| <= Capacity(1) {
      PushAllOnePage(xs);
      PopManyOnePageState(xs, n);
      PopManyOnePageItems(xs, n);
    } else {
      PushAllOnTwoPages(xs);
      PopManyTwoPagesState(xs, n);
      PopManyTwoPagesItems(xs, n);
    }
  }
}
