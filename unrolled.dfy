/**
 * `Unrolled<T>`, an unrolled linked list: a chain of pages plus a running
 * item count `len`. `push` appends to the back page, adding a page when
 * `enough_pages_for` says the chain is too short; `pop` takes the last item of
 * the back page, or of the page before it when the back page is empty, and
 * may drop the back page afterwards.
 *
 * Each operation is given as a function on a `Snapshot` of the fields, which
 * the lemmas reason about, and as a method of the class `Unrolled` that does
 * the same work in place and is proved to agree with the function.
 */
module UnrolledList {
  import opened Wrappers
  import opened Pages

  /** The fields of an `Unrolled`: its page chain (`dlist`) and its item count (`len`). */
  datatype Snapshot<T> = Snapshot(pages: seq<Page<T>>, len: nat)

  /** The state `Unrolled::new` produces: no pages, no items. */
  function Initial<T>(): (s: Snapshot<T>)
    ensures |s.pages| == 0 && s.len == 0 && |Flatten(s.pages)| == 0
  {
    Snapshot([], 0)
  }

  /**
   * One past the last position a chain of `k` pages is deemed large enough
   * for: `enough_pages_for` compares a page index with an item count, so this
   * is (512 k + 1) * 512 rather than 512 k.
   */
  function Capacity(k: nat): nat
  {
    (k * PAGE_SIZE + 1) * PAGE_SIZE
  }

  /** `enough_pages_for`: whether the chain is deemed large enough to take the item at `pos`. */
  function EnoughPagesFor<T>(pages: seq<Page<T>>, pos: nat): (r: bool)
    ensures r <==> |pages| > 0 && pos < Capacity(|pages|)
  {
    if |pages| == 0 then false else PageOf(pos) <= |pages| * PAGE_SIZE
  }

  /**
   * The invariant every public operation keeps. `len` counts the stored
   * items, and for every n from 2 up to one less than the number of pages
   * the first n pages together hold at least 512 (n - 1) - 1 items. The second part is
   * what keeps `pop`'s drop test from firing while the back page still has
   * items in it.
   */
  ghost predicate Consistent<T>(s: Snapshot<T>)
  {
    s.len == |Flatten(s.pages)| &&
    forall n :: 2 <= n < |s.pages| ==> |Flatten(s.pages[..n])| >= PAGE_SIZE * (n - 1) - 1
  }

  /** `push(item)`: the new state. */
  function Pushed<T>(s: Snapshot<T>, item: T): (r: Snapshot<T>)
    ensures |r.pages| > 0
    ensures r.len == s.len + 1
    ensures Flatten(r.pages) == Flatten(s.pages) + [item]
    ensures EnoughPagesFor(s.pages, s.len) ==>
      |r.pages| == |s.pages| && r.pages[..|s.pages| - 1] == s.pages[..|s.pages| - 1]
    ensures !EnoughPagesFor(s.pages, s.len) ==>
      |r.pages| == |s.pages| + 1 && r.pages[..|s.pages|] == s.pages && r.pages[|s.pages|].items == [item]
    ensures |s.pages| == 0 ==> |r.pages| == 1
  {
    var pages := if EnoughPagesFor(s.pages, s.len) then s.pages else s.pages + [NewPage()];
    var last := |pages| - 1;
    var back := PushItem(pages[last], item);
    FlattenUpdate(pages, last, back);
    FlattenConcat(s.pages, [NewPage()]);
    FlattenLast([NewPage<T>()]);
    Snapshot(pages[last := back], s.len + 1)
  }

  /**
   * The page `pop` takes its item from: the back page, or the page before it
   * when the back page is empty (the back page itself when it is the only one).
   */
  function SourcePage<T>(pages: seq<Page<T>>): (i: nat)
    requires |pages| > 0
    ensures i < |pages| && i + 2 >= |pages|
    ensures |pages[|pages| - 1].items| > 0 || |pages| == 1 <==> i == |pages| - 1
  {
    if |pages[|pages| - 1].items| == 0 && |pages| >= 2 then |pages| - 2 else |pages| - 1
  }

  /** The state after `pop()` and the value it returns. */
  datatype PopOutcome<T> = PopOutcome(state: Snapshot<T>, item: Option<T>)

  /**
   * `pop()`. The drop test compares the page count with `page_of(len)` for
   * the count from before the pop; `len` goes down only when an item came out.
   */
  function Popped<T>(s: Snapshot<T>): (r: PopOutcome<T>)
    requires |s.pages| > 0 && s.len == |Flatten(s.pages)|
    ensures |r.state.pages| == if |s.pages| - PageOf(s.len) == 3 then |s.pages| - 1 else |s.pages|
    ensures r.item.None? <==> |s.pages[SourcePage(s.pages)].items| == 0
    ensures r.state.len == if r.item.Some? then s.len - 1 else s.len
    ensures forall i :: 0 <= i < |r.state.pages| && i != SourcePage(s.pages) ==> r.state.pages[i] == s.pages[i]
    ensures SourcePage(s.pages) < |r.state.pages| ==>
      r.state.pages[SourcePage(s.pages)] == PopItem(s.pages[SourcePage(s.pages)]).0
  {
    var src := SourcePage(s.pages);
    var popped := PopItem(s.pages[src]);
    var pages := s.pages[src := popped.0];
    var lastTwoPagesEmpty := |pages| - PageOf(s.len) == 3;
    FlattenUpdate(s.pages, src, popped.0);
    PopOutcome(
      Snapshot(if lastTwoPagesEmpty then pages[..|pages| - 1] else pages,
               if popped.1.Some? then s.len - 1 else s.len),
      popped.1)
  }

  /** `push` keeps the invariant. */
  lemma PushKeepsConsistent<T>(s: Snapshot<T>, item: T)
    requires Consistent(s)
    ensures Consistent(Pushed(s, item))
  {
    var r := Pushed(s, item);
    var k := |s.pages|;
    forall n | 2 <= n < |r.pages|
      ensures |Flatten(r.pages[..n])| >= PAGE_SIZE * (n - 1) - 1
    {
      if n < k {
        if EnoughPagesFor(s.pages, s.len) {
          assert r.pages[..n] == r.pages[..k - 1][..n] == s.pages[..k - 1][..n];
        } else {
          assert r.pages[..n] == r.pages[..k][..n];
        }
        assert r.pages[..n] == s.pages[..n];
      } else {
        assert n == k && r.pages[..n] == s.pages;
        assert s.len >= Capacity(k);
      }
    }
  }

  /**
   * Taking the last item off the source page takes the last item off the
   * whole list: only an empty back page can follow the source page.
   */
  lemma PopTakesLastItem<T>(pages: seq<Page<T>>)
    requires |pages| > 0
    ensures var src := SourcePage(pages);
      var popped := PopItem(pages[src]);
      Flatten(pages) == Flatten(pages[src := popped.0]) + (if popped.1.Some? then [popped.1.value] else [])
  {
    var k := |pages|;
    var src := SourcePage(pages);
    var popped := PopItem(pages[src]);
    FlattenUpdate(pages, src, popped.0);
    assert Flatten(pages[src + 1..]) == [] by {
      if src < k - 1 {
        assert pages[src + 1..] == [pages[k - 1]];
        FlattenLast(pages[src + 1..]);
      }
    }
  }

  /** Under the invariant, `pop`'s drop test fires only when the back page is empty. */
  lemma DropOnlyWhenBackEmpty<T>(s: Snapshot<T>)
    requires |s.pages| > 0 && Consistent(s)
    requires |s.pages| - PageOf(s.len) == 3
    ensures |s.pages[|s.pages| - 1].items| == 0
    ensures |Flatten(s.pages[..|s.pages| - 1])| == s.len == PAGE_SIZE * (|s.pages| - 2) - 1
  {
    var k := |s.pages|;
    FlattenLast(s.pages);
    assert |Flatten(s.pages[..k - 1])| >= PAGE_SIZE * (k - 2) - 1;
  }

  /**
   * Under the invariant, when `pop` takes an item from the page before an
   * empty back page and drops nothing, the first k - 1 pages still hold at
   * least 512 (k - 2) - 1 items.
   */
  lemma DrainKeepsBound<T>(s: Snapshot<T>)
    requires |s.pages| >= 3 && Consistent(s)
    requires |s.pages[|s.pages| - 1].items| == 0
    requires |s.pages| - PageOf(s.len) != 3
    ensures s.len >= PAGE_SIZE * (|s.pages| - 2)
  {
    var k := |s.pages|;
    FlattenLast(s.pages);
    assert |Flatten(s.pages[..k - 1])| >= PAGE_SIZE * (k - 2) - 1;
  }

  /**
   * `pop` keeps the invariant, and under it the back page it may drop is
   * always empty: the item that comes out, if any, is the last stored item,
   * and every other item stays where it was.
   */
  lemma PopKeepsConsistent<T>(s: Snapshot<T>)
    requires |s.pages| > 0 && Consistent(s)
    ensures Consistent(Popped(s).state) && |Popped(s).state.pages| > 0
    ensures Flatten(s.pages) ==
      Flatten(Popped(s).state.pages) + (if Popped(s).item.Some? then [Popped(s).item.value] else [])
  {
    PopTakesLastItem(s.pages);
    if |s.pages| - PageOf(s.len) == 3 {
      PopDropKeepsConsistent(s);
    } else {
      PopKeepKeepsConsistent(s);
    }
  }

  /** When `pop` drops the back page, the pages before it satisfy the lower bounds unchanged. */
  lemma PopDropKeepsConsistent<T>(s: Snapshot<T>)
    requires |s.pages| > 0 && Consistent(s) && |s.pages| - PageOf(s.len) == 3
    ensures Consistent(Popped(s).state) && |Popped(s).state.pages| > 0
  {
    var r := Popped(s);
    var k := |s.pages|;
    var src := SourcePage(s.pages);
    var mid := s.pages[src := PopItem(s.pages[src]).0];
    PopTakesLastItem(s.pages);
    DropOnlyWhenBackEmpty(s);
    assert r.state.pages == mid[..k - 1];
    FlattenLast(mid);
    forall n | 2 <= n < |r.state.pages|
      ensures |Flatten(r.state.pages[..n])| >= PAGE_SIZE * (n - 1) - 1
    {
      assert r.state.pages[..n] == s.pages[..n];
    }
  }

  /** When `pop` keeps every page, the lower bounds still hold. */
  lemma PopKeepKeepsConsistent<T>(s: Snapshot<T>)
    requires |s.pages| > 0 && Consistent(s) && |s.pages| - PageOf(s.len) != 3
    ensures Consistent(Popped(s).state) && |Popped(s).state.pages| > 0
  {
    var r := Popped(s);
    var k := |s.pages|;
    var src := SourcePage(s.pages);
    var mid := s.pages[src := PopItem(s.pages[src]).0];
    PopTakesLastItem(s.pages);
    assert r.state.pages == mid;
    forall n | 2 <= n < |r.state.pages|
      ensures |Flatten(r.state.pages[..n])| >= PAGE_SIZE * (n - 1) - 1
    {
      if src >= n {
        assert r.state.pages[..n] == s.pages[..n];
      } else {
        DrainKeepsBound(s);
        FlattenLast(mid);
        assert r.state.pages[..n] == mid[..k - 1];
      }
    }
  }

  /** An unrolled linked list (`Unrolled<T>`), updated in place. */
  class Unrolled<T> {
    /** The page chain (`dlist`), front page first. */
    var pages: seq<Page<T>>
    /** The running item count. */
    var len: nat

    /** The fields as a value. */
    function State(): Snapshot<T>
      reads this
    {
      Snapshot(pages, len)
    }

    ghost predicate Valid()
      reads this
    {
      Consistent(State())
    }

    /** `Unrolled::new`: no pages are allocated and the count is zero. */
    constructor ()
      ensures Valid() && State() == Initial()
    {
      pages := [];
      len := 0;
    }

    /** `push`: append `item` at the end of the list. */
    method Push(item: T)
      requires Valid()
      modifies this
      ensures Valid() && State() == Pushed(old(State()), item)
    {
      ghost var before := State();
      if !EnoughPagesFor(pages, len) {
        pages := pages + [NewPage()];
      }
      len := len + 1;
      var last := |pages| - 1;
      pages := pages[last := PushItem(pages[last], item)];
      PushKeepsConsistent(before, item);
    }

    /**
     * `pop`: take the last item off the list. The back page must exist
     * (`back().unwrap()`), which it does once anything has been pushed.
     */
    method Pop() returns (item: Option<T>)
      requires Valid() && |pages| > 0
      modifies this
      ensures Valid() && |pages| > 0
      ensures PopOutcome(State(), item) == Popped(old(State()))
      ensures Flatten(old(pages)) == Flatten(pages) + (if item.Some? then [item.value] else [])
    {
      ghost var before := State();
      item := PopSourcePage();
      var lastTwoPagesEmpty := |pages| - PageOf(len) == 3;
      if lastTwoPagesEmpty {
        pages := pages[..|pages| - 1];
      }
      if item.Some? {
        len := len - 1;
      }
      assert State() == Popped(before).state;
      PopKeepsConsistent(before);
    }

    /**
     * The first step of `pop`: take the last item of the back page, or, when
     * the back page is empty, take it from the page before it by rotating.
     */
    method PopSourcePage() returns (item: Option<T>)
      requires |pages| > 0
      modifies this`pages
      ensures var src := SourcePage(old(pages)); var popped := PopItem(old(pages)[src]);
        pages == old(pages)[src := popped.0] && item == popped.1
    {
      var lastPageCount := |pages[|pages| - 1].items|;
      if lastPageCount == 0 {
        item := PopRotated();
      } else {
        item := PopBackPage();
      }
    }

    /**
     * Rotate the chain forward, take the last item of the page now at the
     * back and rotate the chain back: this pops the page before the back one,
     * or the back one when it is alone.
     */
    method PopRotated() returns (item: Option<T>)
      requires |pages| > 0
      modifies this`pages
      ensures var i := if |old(pages)| >= 2 then |old(pages)| - 2 else 0;
        var popped := PopItem(old(pages)[i]);
        pages == old(pages)[i := popped.0] && item == popped.1
    {
      var i := if |pages| >= 2 then |pages| - 2 else 0;
      RotatedBackUpdate(pages, PopItem(pages[i]).0, i);
      pages := RotateForward(pages);
      item := PopBackPage();
      pages := RotateBackward(pages);
    }

    /** `self.dlist.back_mut().unwrap().items.pop()`. */
    method PopBackPage() returns (item: Option<T>)
      requires |pages| > 0
      modifies this`pages
      ensures |pages| == |old(pages)|
      ensures var popped := PopItem(old(pages)[|pages| - 1]);
        pages == old(pages)[|pages| - 1 := popped.0] && item == popped.1
    {
      var last := |pages| - 1;
      var popped := PopItem(pages[last]);
      pages := pages[last := popped.0];
      item := popped.1;
    }

    /** `len()`: the number of items stored. */
    function Len(): (n: nat)
      reads this
      requires Valid()
      ensures n == |Flatten(pages)|
    {
      len
    }
  }
}
