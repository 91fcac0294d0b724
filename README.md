# Unrolled linked list

A Dafny model of `Unrolled<T>`, the unrolled linked list of the `unrolled`
crate (`src/lib.rs`). The list is a doubly linked chain (`DList`) of pages.
Each page is a `Vec` sized for 512 items. A running count `len` sits beside
the chain.

- `push` adds a page when `enough_pages_for(len)` says the chain is too
  short. It then appends the item to the back page.
- `pop` takes the last item of the back page. When the back page is empty,
  it takes the last item of the page before it instead. It does this by
  rotating the chain forward, popping the page now at the back and
  rotating back. It then drops the back page when
  `dlist.len() - page_of(len) == 3`, and decrements `len` only when an
  item came out.

The model has these modules:

- `Pages` holds pages, `page_of`, the rotations and `Flatten`. `Flatten`
  gives the items of a chain, front page first.
- `UnrolledList` gives each operation as a function on a `Snapshot` of the
  two fields (`Pushed`, `Popped`). The class `Unrolled` does the same work
  in place, on a `seq` of pages and a `nat` count. Its methods are proved
  to agree with those functions and to keep the invariant `Consistent`.
  `Consistent` says that `len` counts the stored items and that, for every
  n from 2 to one less than the page count, the first n pages hold at least
  512 (n - 1) - 1 items. Under it, `pop` only ever
  drops an empty page and always returns the last stored item, if it
  returns one.
- `PushPop` covers sequences of calls. It proves the unit test
  `smoke_push_pop` for any items that fit on two pages (up to 1025 * 512
  of them): pops return the items last first, then `None`, with `len`
  tracking each step.
- `PopFindings` gives concrete call sequences on which `pop` as written
  does not do what its documentation promises.
- `IntendedPop` holds a corrected `pop`. It takes the item from the same
  page as `pop`, drops the back page when it and the page before it are
  both empty (what the variable `last_two_pages_empty` names), and returns
  `None` on a list with no pages. Together with `push` as written, it
  returns the items of every list last first.

`enough_pages_for` compares a page index with an item count (`page_of(pos)
<= dlist.len() * 512`). So a chain of k pages is deemed large enough for
(512 k + 1) * 512 items (`Capacity`), and the first page alone takes
513 * 512 items before a second one is added. The comment on `Page` asks
that a page never grow beyond 512 items. The model follows the code:
pages grow as the code lets them.

## Model

| member | source | states |
|---|---|---|
| Pages.PageOf | src/lib.rs:111-115 | the page index p of position pos satisfies 512 p <= pos < 512 p + 512 |
| Pages.PageOfExamples | src/lib.rs:193-201 | the positions checked by the `utilities` test map to the pages it expects |
| Pages.NewPage | src/lib.rs:25-31 | a new page holds no items |
| Pages.PushItem | src/lib.rs:53 | pushing an item onto a page and popping it again gives back the page and the item |
| Pages.PopItem | src/lib.rs:78 | `Vec::pop` gives `None` exactly on an empty page and then leaves it unchanged; otherwise the page without the item, followed by the item, is the old page |
| Pages.RotateForward | src/lib.rs:73 | rotating forward keeps the page count and is undone by rotating backward |
| Pages.RotateBackward | src/lib.rs:75 | rotating backward moves the front page to the back and keeps the others in order |
| Pages.RotateBackwardUndone | src/lib.rs:73-75 | rotating backward is undone by rotating forward |
| Pages.RotatedBackUpdate | src/lib.rs:69-79 | rotate forward, replace the back page, rotate backward replaces exactly the page before the back one (the back one when it is alone) |
| UnrolledList.Initial | src/lib.rs:34-39 | a new list has no pages and no items |
| UnrolledList.EnoughPagesFor | src/lib.rs:101-108 | the chain is deemed large enough for position pos iff it has a page and pos < (512 k + 1) * 512 for k pages |
| UnrolledList.Pushed | src/lib.rs:41-56 | push appends the item to the list's items and adds one to `len`; it adds a page holding only the item iff the chain is not large enough, and otherwise changes only the back page |
| UnrolledList.SourcePage | src/lib.rs:65-79 | pop takes from the back page iff it holds items or is the only page, and otherwise from the page before it |
| UnrolledList.Popped | src/lib.rs:58-95 | pop drops a page iff the page count minus `page_of(len)` is 3; it returns `None` iff the source page is empty; `len` goes down iff an item came out; only the source page changes, losing its last item |
| UnrolledList.PushKeepsConsistent | src/lib.rs:41-56 | push keeps the invariant |
| UnrolledList.PopTakesLastItem | src/lib.rs:65-79 | the item taken from the source page is the last item of the whole list |
| UnrolledList.DropOnlyWhenBackEmpty | src/lib.rs:81-85 | under the invariant the drop test fires only when the back page is empty, and then `len` is 512 (k - 2) - 1 for k pages |
| UnrolledList.DrainKeepsBound | src/lib.rs:69-85 | when the back page is empty and nothing is dropped, the list holds at least 512 (k - 2) items |
| UnrolledList.PopKeepsConsistent | src/lib.rs:58-95 | pop keeps the invariant and at least one page; the items before equal the items after followed by the returned item |
| UnrolledList.PopDropKeepsConsistent | src/lib.rs:81-85 | a pop that drops the back page keeps the invariant |
| UnrolledList.PopKeepKeepsConsistent | src/lib.rs:69-92 | a pop that keeps every page keeps the invariant |
| UnrolledList.Unrolled.constructor | src/lib.rs:34-39 | a new list is in the initial state and satisfies the invariant |
| UnrolledList.Unrolled.Push | src/lib.rs:42-56 | the in-place push reaches the state `Pushed` describes and keeps the invariant |
| UnrolledList.Unrolled.Pop | src/lib.rs:60-95 | the in-place pop reaches the state and returns the value `Popped` describes, keeps the invariant, and removes exactly the returned item from the end |
| UnrolledList.Unrolled.PopSourcePage | src/lib.rs:65-79 | the first step of pop replaces exactly the source page by that page without its last item, and returns that item |
| UnrolledList.Unrolled.PopRotated | src/lib.rs:73-75 | the rotate / pop / rotate sequence replaces exactly the page before the back one (the back one when it is alone) by that page without its last item, and returns that item |
| UnrolledList.Unrolled.PopBackPage | src/lib.rs:78 | popping the back page replaces only the back page and returns its last item, if any |
| UnrolledList.Unrolled.Len | src/lib.rs:97-99 | `len()` is the number of stored items |
| PushPop.PushAll | src/lib.rs:211-215 | pushing xs adds the length of xs to `len` and appends xs to the items |
| PushPop.PushAllKeepsConsistent | src/lib.rs:41-56 | a run of pushes keeps the invariant |
| PushPop.PopMany | src/lib.rs:217-222 | n pops return n values and keep the invariant |
| PushPop.PushAllOnePage | src/lib.rs:44-53 | up to 513 * 512 pushes onto a new list keep every item, in order, on one page |
| PushPop.PushOntoNewList | src/lib.rs:44-53 | the first push onto a new list allocates a page holding the item |
| PushPop.PushAllSnoc | src/lib.rs:42-56 | pushing xs and then x is pushing xs + [x] |
| PushPop.PushOntoFirstPage | src/lib.rs:44-53 | below 513 * 512 items a push onto one page appends to that page |
| PushPop.OnePageConsistent | src/lib.rs:16-19 | a list whose items sit on one page satisfies the invariant |
| PushPop.PopOnePage | src/lib.rs:58-95 | a pop on one page returns its last item and shortens it, or returns `None` and changes nothing |
| PushPop.PopManyOnePageState | src/lib.rs:217-229 | n pops on one page leave the items not yet returned, with `len` their number |
| PushPop.PopManyOnePageItems | src/lib.rs:217-229 | n pops on one page return its items last first, then `None` |
| PushPop.PushOpensSecondPage | src/lib.rs:44-47 | a push onto one page holding 513 * 512 items opens a second page |
| PushPop.PushOntoSecondPage | src/lib.rs:44-53 | below 1025 * 512 items a push onto two pages appends to the second |
| PushPop.PushAllOpensSecondPage | src/lib.rs:44-53 | push 513 * 512 + 1 items onto a new list: the last one is alone on a second page |
| PushPop.PushAllTwoPages | src/lib.rs:44-53 | up to 1025 * 512 pushes put the first 513 * 512 items on page one and the rest on page two |
| PushPop.TwoPagesConsistent | src/lib.rs:16-19 | a list of two pages satisfies the invariant |
| PushPop.PushAllOnTwoPages | src/lib.rs:44-53 | between 513 * 512 and 1025 * 512 pushes onto a new list give two pages, the first holding the first 513 * 512 items and the second the rest |
| PushPop.PopTwoPages | src/lib.rs:58-95 | on two pages pop never drops a page; it returns the last item of the list and removes it, or returns `None` and changes nothing when both pages are empty |
| PushPop.PopManyTwoPagesState | src/lib.rs:217-229 | n pops on two pages leave the items not yet returned, with `len` their number |
| PushPop.PopManyTwoPagesItems | src/lib.rs:217-229 | n pops on two pages return the items last first, then `None` |
| PushPop.PushPopRoundTrip | src/lib.rs:203-230 | for 1 to 1025 * 512 items, pushes onto a new list fill one or two pages, and pops after them return the items in reverse, then `None`, with `len` ending at the number of items left |
| PopFindings.NewListHasNoBackPage | src/lib.rs:58-65 | a new list holds no items yet has no back page for `pop` to unwrap |
| PopFindings.PushAllThreePages | src/lib.rs:44-53 | push 1025 * 512 + 1 items onto a new list: the last one is alone on a third page |
| PopFindings.PushOpensThirdPage | src/lib.rs:44-47 | a push onto two pages holding 1025 * 512 items opens a third page |
| PopFindings.ThreePagesConsistent | src/lib.rs:16-19 | three pages whose first holds at least 512 items satisfy the invariant |
| PopFindings.PopMiddlePage | src/lib.rs:69-79 | with an empty back page, pop takes the middle page's last item and keeps all three pages |
| PopFindings.PopManyMiddlePage | src/lib.rs:69-92 | n pops drain n items from the middle page and keep all three pages |
| PopFindings.PopStuck | src/lib.rs:81-92 | with items on page one and two empty pages after it, pop returns `None` and changes nothing |
| PopFindings.DrainToFirstPage | src/lib.rs:58-95 | after 1025 * 512 + 1 pushes, 512 * 512 + 1 pops leave page one full and two empty pages |
| PopFindings.PopBackItem | src/lib.rs:78-85 | pop takes the lone item of a third page and keeps the empty page |
| PopFindings.PopStallsAfterThirdPage | src/lib.rs:58-95 | after 1025 * 512 + 1 pushes and 512 * 512 + 1 pops, `len` is 513 * 512, the list holds those items, and pop returns `None` without changing anything |
| IntendedPop.InitialSettled | src/lib.rs:34-39 | a new list satisfies the corrected invariant |
| IntendedPop.FullBackPage | src/lib.rs:44-47 | under the corrected invariant, push opens a page only when the back page holds an item |
| IntendedPop.PushKeepsSettled | src/lib.rs:41-56 | push as written keeps the corrected invariant |
| IntendedPop.PushAllKeepsSettled | src/lib.rs:41-56 | a run of pushes keeps the corrected invariant |
| IntendedPop.PoppedIntended | src/lib.rs:58-95 | the corrected pop keeps `len` equal to the item count, removes exactly the returned item from the end, and returns `None` on a list with no pages |
| IntendedPop.SourcePageHoldsLast | src/lib.rs:65-79 | under the corrected invariant the source page is empty only when the whole list is |
| IntendedPop.PopIntendedItem | src/lib.rs:58-59 | the corrected pop returns an item iff the list holds one, and it is the last one |
| IntendedPop.PopIntendedKeepsSettled | src/lib.rs:81-85 | the corrected pop keeps the corrected invariant |
| IntendedPop.PopManyIntended | src/lib.rs:58-95 | n corrected pops return n values and keep `len` equal to the item count |
| IntendedPop.PopIntendedTakesLast | src/lib.rs:58-59 | one corrected pop returns the last item, if any, leaves the other items, and keeps the invariant |
| IntendedPop.PopManyIntendedSettled | src/lib.rs:58-95 | n corrected pops keep the corrected invariant |
| IntendedPop.PopManyIntendedState | src/lib.rs:58-95 | n corrected pops leave the items not yet returned |
| IntendedPop.PopManyIntendedItems | src/lib.rs:58-95 | n corrected pops return the items last first, then `None` |
| IntendedPop.PushPopIntendedRoundTrip | src/lib.rs:203-230 | for any items, none included, corrected pops after pushes onto a new list return them in reverse, then `None`, with `len` ending at the number left |

## Left out

- The `debug!` logging calls (lines 46, 51, 55, 67 and 87) are output only and are not modelled.
- `Vec::with_capacity` reserves room for 512 items. Only the items a page holds are modelled, not its reserved capacity or where it sits in memory.
- `DList` is modelled as a sequence of pages. Its nodes and links are not modelled, and `rotate_forward`, `rotate_backward` and `pop_back` are modelled by what they do to that sequence.
- Thread safety (the note on `len`) is not modelled; every operation runs alone.
- The commented-out `Slice` implementation (lines 117-186) is not compiled code and is not modelled.
- `len` and `dlist.len()` are `uint`. The model uses unbounded naturals, so `len += 1` cannot overflow. In `dlist.len() - page_of(len)` a wrapped difference can never equal 3, so computing it over integers gives the same test.
- UnrolledList.Unrolled.Pop: requires a page to exist, because `back().unwrap()` panics on a list no page was ever allocated for. The panic itself is not modelled (see Findings).
- UnrolledList.Popped: requires `len` to equal the stored item count, which the class invariant guarantees for every reachable list.
- PushPop.PushPopRoundTrip: stated for up to 1025 * 512 items, the most that fit on two pages. Past that a third page opens and `pop` as written stalls (see Findings), so the round trip fails; IntendedPop.PushPopIntendedRoundTrip states it for any number of items with the corrected `pop`.

## Findings

| source | as written | input that shows it | evidently intended | confidence | as-written member | corrected member |
|---|---|---|---|---|---|---|
| src/lib.rs:81-85 | The back page is dropped when `dlist.len() - page_of(len) == 3`. Because `enough_pages_for` lets the first page fill to 513 * 512 items, this test stops matching once a third page exists, and pop then keeps two empty pages at the back. | Push 1025 * 512 + 1 items onto a new list, then pop 512 * 512 + 1 times. The next pop, and every pop after it, returns `None` while `len()` is 513 * 512 and page one still holds that many items. | Drop the back page when it and the page before it are both empty, so pop returns items until the list is empty. | not executed | PopFindings.PopStallsAfterThirdPage | IntendedPop.PushPopIntendedRoundTrip |
| src/lib.rs:58-65 | `pop` unwraps the back page, and `Unrolled::new` allocates no page, so `pop` on a new list panics. The documentation says it returns `None` on an empty list. | `Unrolled::new()` followed by `pop()`. | Return `None` when there is no page. | not executed | PopFindings.NewListHasNoBackPage | IntendedPop.PoppedIntended |
