/**
 * The pages of an unrolled linked list, the chain (`DList`) they form, and
 * the address helper that maps an item position to the page it belongs to.
 */
module Pages {
  import opened Wrappers

  /** The number of items a page is sized for (`PAGE_SIZE!()`). */
  const PAGE_SIZE: nat := 512

  /** `page_of`: the zero-indexed page that the zero-indexed item `pos` belongs to. */
  function PageOf(pos: nat): (p: nat)
    ensures p * PAGE_SIZE <= pos < p * PAGE_SIZE + PAGE_SIZE
  {
    pos / PAGE_SIZE
  }

  /** The positions the unit tests of `page_of` check. */
  lemma PageOfExamples()
    ensures PageOf(0) == 0 && PageOf(1) == 0
    ensures PageOf(PAGE_SIZE - 1) == 0 && PageOf(PAGE_SIZE) == 1
    ensures PageOf(2 * PAGE_SIZE) == 2 && PageOf(2 * PAGE_SIZE + 1) == 2
  {
  }

  /** A page: the items its `Vec` holds, oldest first. */
  datatype Page<T> = Page(items: seq<T>)

  /** `Page::new`: a page that holds no items (its reserved capacity is not modelled). */
  function NewPage<T>(): (p: Page<T>)
    ensures |p.items| == 0
  {
    Page([])
  }

  /** `Vec::push` on a page: `PopItem` takes the item off again. */
  function PushItem<T>(p: Page<T>, x: T): (q: Page<T>)
    ensures PopItem(q) == (p, Some(x))
  {
    Page(p.items + [x])
  }

  /**
   * `Vec::pop` on a page: the page without its last item together with that
   * item, or the page unchanged with `None` when it is empty.
   */
  function PopItem<T>(p: Page<T>): (r: (Page<T>, Option<T>))
    ensures r.1.None? <==> |p.items| == 0
    ensures r.1.None? ==> r.0 == p
    ensures r.1.Some? ==> r.0.items + [r.1.value] == p.items
  {
    if |p.items| == 0 then (p, None)
    else (Page(p.items[..|p.items| - 1]), Some(p.items[|p.items| - 1]))
  }

  /** All items of a page chain, front page first. */
  function Flatten<T>(pages: seq<Page<T>>): seq<T>
  {
    if |pages| == 0 then [] else Flatten(pages[..|pages| - 1]) + pages[|pages| - 1].items
  }

  /** Flattening distributes over joining two chains. */
  lemma {:induction false} FlattenConcat<T>(ps: seq<Page<T>>, qs: seq<Page<T>>)
    ensures Flatten(ps + qs) == Flatten(ps) + Flatten(qs)
    decreases |qs|
  {
    if |qs| == 0 {
      assert ps + qs == ps;
    } else {
      var init := qs[..|qs| - 1];
      assert (ps + qs)[..|ps + qs| - 1] == ps + init;
      FlattenConcat(ps, init);
    }
  }

  /**
   * Page `i` holds the stretch of the flattened items between the pages before
   * it and the pages after it, so replacing it replaces only that stretch.
   */
  lemma FlattenUpdate<T>(ps: seq<Page<T>>, i: nat, q: Page<T>)
    requires i < |ps|
    ensures Flatten(ps) == Flatten(ps[..i]) + ps[i].items + Flatten(ps[i + 1..])
    ensures Flatten(ps[i := q]) == Flatten(ps[..i]) + q.items + Flatten(ps[i + 1..])
  {
    assert ps == ps[..i] + [ps[i]] + ps[i + 1..];
    assert ps[i := q] == ps[..i] + [q] + ps[i + 1..];
    FlattenConcat(ps[..i] + [ps[i]], ps[i + 1..]);
    FlattenConcat(ps[..i], [ps[i]]);
    FlattenConcat(ps[..i] + [q], ps[i + 1..]);
    FlattenConcat(ps[..i], [q]);
    assert [ps[i]][..0] == [] && [q][..0] == [];
  }

  /** The items of the pages before the back one, followed by the back page's items. */
  lemma FlattenLast<T>(ps: seq<Page<T>>)
    requires |ps| > 0
    ensures Flatten(ps) == Flatten(ps[..|ps| - 1]) + ps[|ps| - 1].items
  {
  }

  /** `DList::rotate_forward`: the back page moves to the front. */
  function RotateForward<T>(pages: seq<Page<T>>): (r: seq<Page<T>>)
    ensures |r| == |pages|
    ensures RotateBackward(r) == pages
  {
    if |pages| == 0 then []
    else
      var r := [pages[|pages| - 1]] + pages[..|pages| - 1];
      assert r[1..] + [r[0]] == pages;
      r
  }

  /** `DList::rotate_backward`: the front page moves to the back. */
  function RotateBackward<T>(pages: seq<Page<T>>): (r: seq<Page<T>>)
    ensures |r| == |pages|
    ensures |pages| > 0 ==> r[|r| - 1] == pages[0] && r[..|r| - 1] == pages[1..]
  {
    if |pages| == 0 then [] else pages[1..] + [pages[0]]
  }

  /** Rotating backward and then forward gives back the chain. */
  lemma RotateBackwardUndone<T>(pages: seq<Page<T>>)
    ensures RotateForward(RotateBackward(pages)) == pages
  {
    if |pages| > 0 {
      var r := RotateBackward(pages);
      assert [r[|r| - 1]] + r[..|r| - 1] == pages;
    }
  }

  /**
   * Rotating forward, replacing the back page and rotating backward replaces
   * the page before the back one (the back one itself when it is alone) and
   * leaves every other page where it was.
   */
  lemma RotatedBackUpdate<T>(pages: seq<Page<T>>, q: Page<T>, i: nat)
    requires |pages| > 0 && i == if |pages| >= 2 then |pages| - 2 else 0
    ensures RotateForward(pages)[|pages| - 1] == pages[i]
    ensures RotateBackward(RotateForward(pages)[|pages| - 1 := q]) == pages[i := q]
  {
    var k := |pages|;
    if k == 1 {
      assert RotateForward(pages) == pages by {
        assert pages[..0] == [];
      }
    } else {
      var init, back := pages[..k - 2], pages[k - 1];
      assert pages == init + [pages[k - 2]] + [back];
      RotatedUpdate(init, pages[k - 2], back, q);
      assert pages[k - 2 := q] == init + [q] + [back];
    }
  }

  /** The chain `init + [p, back]`, rotated forward, updated at the back and rotated backward. */
  lemma RotatedUpdate<T>(init: seq<Page<T>>, p: Page<T>, back: Page<T>, q: Page<T>)
    ensures RotateForward(init + [p] + [back]) == [back] + init + [p]
    ensures RotateBackward(([back] + init + [p])[|init| + 1 := q]) == init + [q] + [back]
  {
    var pages := init + [p] + [back];
    assert pages[..|pages| - 1] == init + [p];
    var u := ([back] + init + [p])[|init| + 1 := q];
    assert u == [back] + init + [q];
    assert u[1..] == init + [q];
  }
}
