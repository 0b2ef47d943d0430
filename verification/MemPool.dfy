/**
  The page-pool allocator: a list of pages of one size, each with a mark up to
  which it is used, and a place in the list where the search starts.
 */
module MemPool {

  const MAX_FAILED_COUNT := 4
  const ALIGNMENT := 8
  /** `sizeof(mem_page_t)` and `sizeof(mem_pool_t)` where pointers have eight bytes. */
  const PAGE_HEADER := 40
  const POOL_HEADER := 32

  /** `ALIGN_PTR` */
  function Align(p: int): (r: int)
    ensures p <= r < p + 8 && r % 8 == 0
  {
    (p + ALIGNMENT - 1) / ALIGNMENT * ALIGNMENT
  }

  class Page {
    const start: int
    /** Behind the headers. */
    ghost const base: int
    var last: int
    const end: int
    var next: Page?
    var failed: int

    constructor (start: int, header: int, size: int)
      ensures this.start == start && last == base == start + header && end == start + size
      ensures next == null && failed == 0
    {
      this.start := start;
      base := start + header;
      last := start + header;
      end := start + size;
      next, failed := null, 0;
    }
  }

  /** A block handed out. */
  datatype Grant = Grant(page: Page, ptr: int, size: int)

  /** Byte `a` belongs to the block. */
  ghost predicate Has(g: Grant, a: int) {
    g.ptr <= a < g.ptr + g.size
  }

  ghost predicate Apart(g: Grant, h: Grant) {
    g.size <= 0 || h.size <= 0 || g.ptr + g.size <= h.ptr || h.ptr + h.size <= g.ptr
  }

  /** The blocks have no byte in common. */
  lemma ApartMeans(g: Grant, h: Grant)
    ensures Apart(g, h) <==> forall a :: !(Has(g, a) && Has(h, a))
  {
    if !Apart(g, h) {
      var a := if g.ptr <= h.ptr then h.ptr else g.ptr;
      assert Has(g, a) && Has(h, a);
    }
  }

  /** Byte `a` belongs to a block of page `p`. */
  ghost predicate Taken(grants: seq<Grant>, p: Page, a: int) {
    exists g :: g in grants && g.page == p && Has(g, a)
  }

  /** The memory of the pages does not overlap. */
  ghost predicate Separate(pages: set<Page>) {
    forall p, q :: p in pages && q in pages && p != q ==> p.end <= q.start || q.end <= p.start
  }

  ghost function Sum(s: seq<nat>): nat {
    if s == [] then 0 else s[0] + Sum(s[1..])
  }

  lemma {:induction false} SumUpdate(s: seq<nat>, i: nat, v: nat)
    requires i < |s|
    ensures Sum(s[i := v]) == Sum(s) - s[i] + v
  {
    if i > 0 {
      SumUpdate(s[1..], i - 1, v);
      assert s[i := v][1..] == s[1..][i - 1 := v];
    }
  }

  lemma {:induction false} SumAppend(s: seq<nat>, v: nat)
    ensures Sum(s + [v]) == Sum(s) + v
  {
    if s != [] {
      SumAppend(s[1..], v);
      assert (s + [v])[1..] == s[1..] + [v];
    }
  }

  lemma {:induction false} SumBound(s: seq<nat>, b: nat)
    requires forall i :: 0 <= i < |s| ==> s[i] <= b
    ensures Sum(s) <= b * |s|
  {
    if s != [] {
      SumBound(s[1..], b);
    }
  }

  /** How often the pages have failed: the ones before `c` so often that they are given
      up, the others less often, and a page never more often than one before it. */
  ghost predicate Failures(fails: seq<nat>, c: nat) {
    && c <= |fails|
    && (forall i :: 0 <= i < c ==> fails[i] == MAX_FAILED_COUNT)
    && (forall i :: c <= i < |fails| ==> fails[i] < MAX_FAILED_COUNT)
    && (forall i, j :: c <= i < j < |fails| ==> fails[i] >= fails[j])
  }

  /** The pages from `c` to `k` have failed in this search, the others not yet. */
  ghost predicate Walked(fails: seq<nat>, c: nat, k: nat) {
    forall i, j :: c <= i < k <= j < |fails| ==> fails[i] > fails[j]
  }

  /** One more failure: only the page at `c` can reach the limit, so none is skipped. */
  lemma FailStep(fails: seq<nat>, c: nat, k: nat)
    requires Failures(fails, c) && Walked(fails, c, k) && c <= k < |fails|
    ensures
      var fails' := fails[k := fails[k] + 1];
      if fails'[k] >= MAX_FAILED_COUNT then c == k && Failures(fails', k + 1) && Walked(fails', k + 1, k + 1)
      else Failures(fails', c) && Walked(fails', c, k + 1)
  {
    assert c < k ==> fails[c] > fails[k];
  }

  ghost predicate Different(pages: seq<Page>) {
    forall i, j :: 0 <= i < j < |pages| ==> pages[i] != pages[j]
  }

  lemma DifferentMore(pages: seq<Page>, page: Page)
    requires Different(pages) && forall i :: 0 <= i < |pages| ==> pages[i] != page
    ensures Different(pages + [page])
  {
  }

  lemma SeparateMore(pages: set<Page>, page: Page)
    requires Separate(pages)
    requires forall p :: p in pages ==> p.end <= page.start || page.end <= p.start
    ensures Separate(pages + {page})
  {
  }

  lemma WalkedNone(fails: seq<nat>, c: nat)
    requires Failures(fails, c)
    ensures Walked(fails, c, c) && c <= |fails|
  {
  }

  lemma FailuresAppend(fails: seq<nat>, c: nat)
    requires Failures(fails, c)
    ensures Failures(fails + [0], c) && c <= |fails|
  {
  }

  class Pool {
    const page_size: int
    var page_count: int
    var current: Page?
    var head: Page
    var tail: Page

    ghost var pages: seq<Page>
    ghost var repr: set<Page>
    /** The failure counts, and the position of `current`. */
    ghost var fails: seq<nat>
    ghost var c: nat
    ghost var grants: seq<Grant>
    /** Calls that were not refused, and the pages they have looked at. */
    ghost var calls: nat
    ghost var probes: nat

    /** `mem_pool_create`, with the memory of the first page. */
    constructor (page_size: int, addr: int)
      requires page_size % ALIGNMENT == 0 && page_size >= POOL_HEADER + PAGE_HEADER
      requires addr > 0 && addr % page_size == 0
      ensures Valid() && grants == [] && calls == probes == 0 && page_count == 1
      ensures fresh(repr) && this.page_size == page_size
      ensures pages == [head] && head.start == addr && head.last == addr + 72 && head.end == addr + page_size
    {
      hide Align, PageOk, Filled;
      this.page_size := page_size;
      page_count := 1;
      var page := new Page(addr, POOL_HEADER + PAGE_HEADER, page_size);
      current, head, tail := page, page, page;
      pages, repr, fails, c, grants := [page], {page}, [0], 0, [];
      calls, probes := 0, 0;
      new;
      NewPage(page, POOL_HEADER + PAGE_HEADER);
    }

    /** A page of the pool's size, of which the part behind `last` has no more than the rest. */
    ghost predicate PageOk(p: Page)
      reads p`last
    {
      && p.start > 0 && p.start % ALIGNMENT == 0 && p.end == p.start + page_size
      && p.start + PAGE_HEADER <= p.base <= p.end && p.base % ALIGNMENT == 0
      && Align(p.last) <= p.end
    }

    /** Page `i` of the list. */
    ghost predicate Listed(i: nat)
      requires i < |pages| == |fails|
      reads this`pages, this`fails, this`repr, repr`next, repr`failed
    {
      && pages[i] in repr
      && pages[i].failed == fails[i]
      && pages[i].next == if i + 1 < |pages| then pages[i + 1] else null
    }

    /** The list of pages, their failures and the search; nothing about the blocks. */
    ghost predicate Listing()
      reads this, repr
    {
      && page_size % ALIGNMENT == 0 && page_size >= POOL_HEADER + PAGE_HEADER
      && page_count == |pages| == |fails| > 0
      && head == pages[0] && tail == pages[|pages| - 1]
      && head.base == head.start + POOL_HEADER + PAGE_HEADER
      && (forall p :: p in repr ==> PageOk(p)) && Separate(repr)
      && (forall i :: 0 <= i < |pages| ==> Listed(i))
      && Different(pages)
      && Failures(fails, c) && current == (if c < |pages| then pages[c] else null)
      && probes <= calls + Sum(fails)
    }

    /** The block starts at a word and lies in the used part of a page, behind its headers. */
    ghost predicate GrantOk(g: Grant)
      reads g.page`last
    {
      g.ptr % ALIGNMENT == 0 && g.page.base <= g.ptr && g.ptr + g.size <= Align(g.page.last)
    }

    /** Every word of the used part of a page begins in a block. */
    ghost predicate Filled(p: Page)
      reads this`grants, p`last
    {
      && p.base <= Align(p.last)
      && forall a :: p.base <= a < Align(p.last) && a % ALIGNMENT == 0 ==> Taken(grants, p, a)
    }

    /** The blocks are where they should be, and share no byte. */
    ghost predicate Blocks()
      reads this`grants, this`repr, repr`last
    {
      && (forall g :: g in grants ==> g.page in repr && GrantOk(g))
      && (forall i, j :: 0 <= i < j < |grants| ==> Apart(grants[i], grants[j]))
      && (forall p :: p in repr ==> Filled(p))
    }

    ghost predicate Valid()
      reads this, repr
    {
      Listing() && Blocks()
    }

    /** Where the next block of the page will start is behind the headers and in no block. */
    ghost predicate Clean(p: Page)
      reads this`grants, p`last
    {
      p.base <= Align(p.last) && forall g :: g in grants ==> !Has(g, Align(p.last))
    }

    /** A block is cut off the unused part of a page.  The next block is in order if and only
        if the request was for more than -8 bytes: a few bytes back are made up by the next alignment. */
    method Take(page: Page, ptr: int, size: int)
      requires Listing() && page in repr
      requires ptr == Align(page.last) && ptr + size <= page.end
      modifies page`last, this`grants
      ensures Listing() && grants == old(grants) + [Grant(page, ptr, size)] && page.last == ptr + size
      ensures old(Blocks()) ==> (Blocks() <==> size > -ALIGNMENT) && (Clean(page) <==> size > -ALIGNMENT) && ptr > 0
    {
      hide Failures, Sum, Different, Separate, Apart, Align, Clean;
      ghost var was, grant, ok := grants, Grant(page, ptr, size), Blocks();
      if ok {
        NewApart(page, size);
      }
      assert PageOk(page);
      AlignBack(ptr, size, page.end);
      page.last := ptr + size;
      grants := was + [grant];
      forall i | 0 <= i < |pages| ensures Listed(i) {
        assert old(Listed(i));
      }
      forall p | p in repr ensures PageOk(p) {
        assert old(PageOk(p));
      }
      if ok {
        assert old(Filled(page));
        if size > -ALIGNMENT {
          forall g | g in grants ensures g.page in repr && GrantOk(g) {
            if g != grant {
              assert g in was && old(GrantOk(g));
            }
          }
          forall i, j | 0 <= i < j < |grants| ensures Apart(grants[i], grants[j]) {
            assert grants[i] == was[i] && was[i] in was;
            assert j < |was| ==> grants[j] == was[j];
          }
          forall p | p in repr ensures Filled(p) {
            assert old(Filled(p));
            FilledMore(p, was, grant, if p == page then ptr else Align(p.last));
          }
        } else {
          NotClean(page, was, grant);
        }
        if Blocks() {
          BlocksClean(page);
        }
      }
    }

    /** A page stays filled: the words before began in a block already. */
    lemma FilledMore(p: Page, was: seq<Grant>, grant: Grant, mark: int)
      requires grants == was + [grant] && p.base <= mark
      requires forall a :: p.base <= a < mark && a % ALIGNMENT == 0 ==> Taken(was, p, a)
      requires if p == grant.page then mark == grant.ptr && p.last == grant.ptr + grant.size else mark == Align(p.last)
      requires grant.ptr % ALIGNMENT == 0 && grant.size > -ALIGNMENT
      ensures Filled(p)
    {
      forall a | p.base <= a < Align(p.last) && a % ALIGNMENT == 0 ensures Taken(grants, p, a) {
        if a < mark {
          assert Taken(was, p, a);
          var g :| g in was && g.page == p && Has(g, a);
          assert g in grants;
        } else {
          assert grant in grants && Has(grant, a);
        }
      }
    }

    /** Eight bytes back or more: the next block would start in a header or in a block. */
    lemma NotClean(page: Page, was: seq<Grant>, grant: Grant)
      requires grants == was + [grant] && grant.size <= -ALIGNMENT && grant.ptr % ALIGNMENT == 0
      requires page.last == grant.ptr + grant.size
      requires forall a :: page.base <= a < grant.ptr && a % ALIGNMENT == 0 ==> Taken(was, page, a)
      ensures !Clean(page)
    {
      var a := Align(page.last);
      assert a <= grant.ptr - ALIGNMENT;
      if page.base <= a {
        assert Taken(was, page, a);
        var g :| g in was && g.page == page && Has(g, a);
        assert g in grants;
      }
    }

    /** Blocks in order, byte by byte: each starts at a word, behind the headers of its page, ends
        within the page, and shares no byte with another. */
    lemma BlocksMean(i: nat, j: nat, a: int)
      requires Valid() && i < |grants| && j < |grants|
      ensures var g := grants[i];
        && g.ptr % 8 == 0 && g.page in repr
        && g.page.start + (if g.page == head then 72 else 40) <= g.ptr && g.ptr + g.size <= g.page.end == g.page.start + page_size
      ensures var g, h := grants[i], grants[j];
        i != j ==> !(g.ptr <= a < g.ptr + g.size && h.ptr <= a < h.ptr + h.size)
    {
      var g := grants[i];
      assert GrantOk(g) && PageOk(g.page);
      if i < j {
        BlocksApart(i, j);
      } else if j < i {
        BlocksApart(j, i);
      }
    }

    lemma BlocksApart(i: nat, j: nat)
      requires Blocks() && i < j < |grants|
      ensures Apart(grants[i], grants[j])
    {
    }

    /** When all blocks are in order, so is the place of the next one. */
    lemma BlocksClean(p: Page)
      requires Listing() && Blocks() && p in repr
      ensures Clean(p)
    {
      assert Filled(p) && PageOk(p);
      forall g | g in grants ensures !Has(g, Align(p.last)) {
        assert GrantOk(g) && PageOk(g.page);
      }
    }

    /** What starts behind the used part of a page is apart from every block. */
    lemma NewApart(page: Page, size: int)
      requires Listing() && Blocks() && page in repr && Align(page.last) + size <= page.end
      ensures forall g :: g in grants ==> Apart(g, Grant(page, Align(page.last), size))
      ensures Align(page.last) > 0
    {
      assert PageOk(page) && Filled(page);
      forall g | g in grants ensures Apart(g, Grant(page, Align(page.last), size)) {
        assert GrantOk(g) && PageOk(g.page);
      }
    }

    /** Page `k` has no room: it is given up when that happens too often. */
    method Fail(page: Page, ghost k: nat)
      requires Listing() && c <= k < |pages| && pages[k] == page && Walked(fails, c, k)
      modifies page`failed, this`current, this`fails, this`c
      ensures Listing() && old(c) <= c <= k + 1 && Walked(fails, c, k + 1)
      ensures fails == old(fails)[k := old(fails)[k] + 1] && Sum(fails) == Sum(old(fails)) + 1
    {
      hide Failures, Sum, Walked, Separate, Different, PageOk;
      assert Listed(k);
      OnlyOnce();
      FailStep(fails, c, k);
      SumUpdate(fails, k, fails[k] + 1);
      page.failed := page.failed + 1;
      fails := fails[k := fails[k] + 1];
      if page.failed >= MAX_FAILED_COUNT {
        current := page.next;
        c := k + 1;
      }
      forall i | 0 <= i < |pages| ensures Listed(i) {
        assert old(Listed(i));
      }
    }

    lemma OnlyOnce()
      requires Different(pages)
      ensures forall i, j :: 0 <= i < j < |pages| ==> pages[i] != pages[j]
    {
    }

    /** No page shares memory with a new one at `addr`. */
    ghost predicate Free(addr: int)
      reads this`repr
    {
      && addr > 0 && page_size > 0 && addr % page_size == 0
      && forall p :: p in repr ==> p.end <= addr || addr + page_size <= p.start
    }

    /** A new page at the end of the list. */
    method AddPage(addr: int) returns (page: Page)
      requires Listing() && Free(addr)
      modifies this`page_count, this`current, this`tail, this`pages, this`repr, this`fails, repr`next
      ensures Listing() && fresh(page) && pages == old(pages) + [page] && repr == old(repr) + {page}
      ensures page.start == addr && page.end == addr + page_size && page.last == page.base == addr + PAGE_HEADER
      ensures Sum(fails) == Sum(old(fails)) && c == old(c)
      ensures old(Blocks()) ==> Blocks()
    {
      hide Failures, Sum, Separate, Different, Apart, Filled, GrantOk, Align, PageOk;
      assert Listed(|pages| - 1);
      ghost var ok, was := Blocks(), repr;
      page := new Page(addr, PAGE_HEADER, page_size);
      NewPage(page, PAGE_HEADER);
      Append(page);
      if ok {
        forall p | p in repr ensures Filled(p) {
          assert p in was ==> old(Filled(p));
        }
        forall g | g in grants ensures g.page in repr && GrantOk(g) {
          assert old(GrantOk(g));
        }
      }
    }

    lemma NewPage(page: Page, header: int)
      requires page_size > 0 && page_size % ALIGNMENT == 0 && page.start > 0 && page.start % page_size == 0
      requires header % ALIGNMENT == 0 && PAGE_HEADER <= header <= page_size
      requires page.end == page.start + page_size && page.last == page.base == page.start + header
      ensures PageOk(page) && Filled(page)
    {
      hide Align, Taken;
      AlignedStart(page.start, page_size);
      AlignedSum(page.start, header);
    }

    lemma NotListed(page: Page)
      requires Listing() && page !in repr
      ensures forall i :: 0 <= i < |pages| ==> pages[i] != page
      ensures tail in repr && forall i :: 0 <= i < |pages| - 1 ==> pages[i] != tail
    {
      forall i | 0 <= i < |pages| ensures pages[i] in repr {
        assert Listed(i);
      }
    }

    method Append(page: Page)
      requires Listing() && page !in repr && PageOk(page) && page.failed == 0 && page.next == null
      requires forall p :: p in repr ==> p.end <= page.start || page.end <= p.start
      modifies this`page_count, this`current, this`tail, this`pages, this`repr, this`fails, tail`next
      ensures Listing() && pages == old(pages) + [page] && repr == old(repr) + {page}
      ensures Sum(fails) == Sum(old(fails)) && c == old(c)
    {
      hide Failures, Sum, Separate, Different, PageOk;
      SumAppend(fails, 0);
      FailuresAppend(fails, c);
      NotListed(page);
      DifferentMore(pages, page);
      SeparateMore(repr, page);
      ghost var was := pages;
      page_count := page_count + 1;
      tail.next := page;
      tail := page;
      if current == null {
        current := page;
      }
      pages, repr, fails := pages + [page], repr + {page}, fails + [0];
      forall i | 0 <= i < |pages| ensures Listed(i) {
        if i < |was| {
          assert old(Listed(i)) && pages[i] == was[i];
        }
      }
    }

    ghost method Called()
      requires Listing()
      modifies this`calls
      ensures Listing() && calls == old(calls) + 1 && probes < calls + Sum(fails)
    {
      hide Failures, Sum, Separate, Different, PageOk, Listed;
      calls := calls + 1;
    }

    lemma PageSize()
      requires Listing()
      ensures page_size >= POOL_HEADER + PAGE_HEADER
    {
    }

    lemma NewPageFits(page: Page, size: int)
      requires Listing() && page in repr && page.last == page.base == page.start + PAGE_HEADER && size <= page_size - PAGE_HEADER
      ensures Align(page.last) == page.last && page.last + size <= page.end
    {
      assert PageOk(page);
      AlignedSum(page.base, 0);
    }

    /** Page `page` grants the newest block. */
    ghost predicate Granted(page: Page, was: seq<Grant>, ptr: int, size: int)
      reads this`grants, this`repr
    {
      page in repr && grants == was + [Grant(page, ptr, size)]
    }

    lemma ListStart()
      requires Listing()
      ensures Walked(fails, c, c) && c <= |pages| == |fails| && current == (if c < |pages| then pages[c] else null)
      ensures forall i :: 0 <= i < |pages| ==> pages[i] in repr
    {
      hide Failures, Walked;
      WalkedNone(fails, c);
      forall i | 0 <= i < |pages| ensures pages[i] in repr {
        assert Listed(i);
      }
    }

    lemma PageAt(i: nat)
      requires Listing() && i < |pages|
      ensures pages[i] in repr && |pages| == |fails|
      ensures pages[i].next == if i + 1 < |pages| then pages[i + 1] else null
    {
      assert Listed(i);
    }

    ghost method Probe()
      requires Listing() && probes < calls + Sum(fails)
      modifies this`probes
      ensures Listing() && probes == old(probes) + 1
    {
      hide Failures, Sum, Separate, Different, PageOk, Listed;
      probes := probes + 1;
    }

    /** The search along the list from `current` on, which is page `c`: it ends at the first page `j`
        with room, or behind the last page, and the pages before have failed once more. */
    method Search(size: int) returns (found: bool, ptr: int, ghost giver: Page, ghost j: nat)
      requires Listing() && probes < calls + Sum(fails)
      modifies this`current, this`fails, this`c, this`grants, this`probes, repr
      ensures Listing()
      ensures old(c) <= j <= |pages| && (found <==> j < |pages|)
      ensures forall i :: old(c) <= i < j ==> old(pages[i].end - Align(pages[i].last)) < size
      ensures found ==> giver == pages[j] && old(pages[j].end - Align(pages[j].last)) >= size
      ensures probes == old(probes) + j - old(c) + if found then 1 else 0
      ensures |fails| == |old(fails)| == |pages|
      ensures forall i :: 0 <= i < |pages| ==> fails[i] == old(fails)[i] + if old(c) <= i < j then 1 else 0
      ensures !found ==> grants == old(grants) && (old(Blocks()) ==> Blocks())
      ensures found ==> Granted(giver, old(grants), ptr, size) && ptr == old(Align(giver.last)) && giver.last == ptr + size
      ensures found && old(Blocks()) ==>
        (Blocks() <==> size > -ALIGNMENT) && (Clean(giver) <==> size > -ALIGNMENT) && ptr > 0
      ensures old(Fits(size)) ==> found && giver == old(current) == current
    {
      hide Failures, Sum, Walked, Separate, Different, Filled, GrantOk, Apart, PageOk, Align, Clean, Listing,
        Listed, Blocks;
      var page := current;
      j := c;
      giver := head;
      ListStart();
      while page != null
        invariant Listing() && old(c) <= c <= j <= |pages| && page == (if j < |pages| then pages[j] else null)
        invariant |fails| == |old(fails)| == |pages| && Walked(fails, c, j) && probes < calls + Sum(fails)
        invariant probes == old(probes) + j - old(c)
        invariant grants == old(grants) && forall p :: p in repr ==> p.last == old(p.last)
        invariant forall i :: old(c) <= i < j ==> old(pages[i].end - Align(pages[i].last)) < size
        invariant forall i :: 0 <= i < |pages| ==> fails[i] == old(fails)[i] + if old(c) <= i < j then 1 else 0
        invariant old(Blocks()) ==> Blocks()
        invariant old(Fits(size)) ==> page == old(current) == current
        decreases |pages| - j
        modifies this`current, this`fails, this`c, this`grants, this`probes, repr
      {
        PageAt(j);
        ptr := Align(page.last);
        Probe();
        if page.end - ptr >= size {
          giver := page;
          Take(page, ptr, size);
          found := true;
          return;
        }
        Fail(page, j);
        PageAt(j);
        page, j := page.next, j + 1;
      }
      found, ptr := false, 0;
    }

    /** The page that the search starts at has room. */
    ghost predicate Fits(size: int)
      reads this`current, if current == null then {} else {current}
    {
      current != null && current.end - Align(current.last) >= size
    }

    /** `mem_pool_alloc`; `addr` is the memory for a new page, should one be needed.  Null is 0.
        The block is cut off the first page from `current` on that has room; a new page is taken
        exactly when there is none.  From a valid pool the blocks stay in order if and only if the
        size is greater than -8. */
    method Alloc(size: int, addr: int) returns (ptr: int, ghost giver: Page)
      requires Listing() && Free(addr)
      modifies this, repr
      ensures Listing() && fresh(repr - old(repr)) && old(repr) <= repr
      ensures pages == old(pages) || (|pages| == |old(pages)| + 1 && pages[..|old(pages)|] == old(pages) && pages[|old(pages)|].start == addr)
      ensures size > page_size - 40 ==> ptr == 0 && grants == old(grants) && pages == old(pages) && calls == old(calls)
      ensures size <= page_size - 40 ==>
        (pages == old(pages) <==> exists i :: old(c) <= i < |old(pages)| && old(pages[i].end - Align(pages[i].last)) >= size)
      ensures size <= page_size - 40 && pages == old(pages) ==> exists j ::
        && old(c) <= j < |pages| && giver == pages[j] && ptr == old(Align(pages[j].last))
        && forall i :: old(c) <= i < j ==> old(pages[i].end - Align(pages[i].last)) < size
      ensures size <= page_size - 40 && pages != old(pages) ==>
        giver == pages[|old(pages)|] && ptr == addr + 40 && giver.last == ptr + size
      ensures size <= page_size - PAGE_HEADER ==> calls == old(calls) + 1 && Granted(giver, old(grants), ptr, size)
      ensures old(Blocks()) ==> (Blocks() <==> size > -ALIGNMENT)
      ensures old(Blocks()) && size <= page_size - PAGE_HEADER ==> (Clean(giver) <==> size > -ALIGNMENT) && ptr > 0
      ensures size <= page_size - PAGE_HEADER && old(Fits(size)) ==>
        && giver == old(current) == current && repr == old(repr)
        && ptr == old(Align(current.last)) && giver.last == ptr + size
    {
      hide Failures, Sum, Walked, Separate, Different, PageOk, Listed, GrantOk, Filled, Apart, Align, Listing,
        Clean, Blocks;
      giver := head;
      PageSize();
      if size > page_size - PAGE_HEADER {
        return 0, giver;
      }
      Called();
      var found;
      ghost var j;
      found, ptr, giver, j := Search(size);
      if found {
        return;
      }
      ptr, giver := NewBlock(size, addr);
    }

    /** A new page, and the block at its start; there is no test for room. */
    method NewBlock(size: int, addr: int) returns (ptr: int, ghost giver: Page)
      requires Listing() && Free(addr) && size <= page_size - PAGE_HEADER
      modifies this`page_count, this`current, this`tail, this`pages, this`repr, this`fails, this`grants, repr`next
      ensures Listing() && fresh(giver) && pages == old(pages) + [giver] && repr == old(repr) + {giver} && giver.start == addr
      ensures Granted(giver, old(grants), ptr, size) && ptr == addr + PAGE_HEADER && giver.last == ptr + size
      ensures old(Blocks()) ==> (Blocks() <==> size > -ALIGNMENT) && (Clean(giver) <==> size > -ALIGNMENT) && ptr > 0
    {
      hide Failures, Sum, Separate, Different, PageOk, Listed, GrantOk, Filled, Apart, Align, Listing, Clean, Blocks;
      var new_page := AddPage(addr);
      NewPageFits(new_page, size);
      ptr := Align(new_page.last);
      giver := new_page;
      Take(new_page, ptr, size);
    }

    /** Why requests must be greater than -8: from every valid pool with room for `n` bytes, a
        request for `n`, one for `-n` and one for `n` are all granted, and the first and the
        third block are the same. */
    method NegativeRun(n: int, addr: int) returns (first: int, third: int)
      requires Valid() && n > 0 && n % ALIGNMENT == 0 && n <= page_size - PAGE_HEADER && Fits(n) && Free(addr)
      modifies this, repr
      ensures first == third && !Blocks()
      ensures exists i, j :: 0 <= i < j < |grants| && !Apart(grants[i], grants[j])
    {
      hide Failures, Sum, Separate, Different, PageOk, Listed, GrantOk, Filled, Listing, Blocks, Clean, Align, Apart;
      ghost var i := |grants|;
      var second;
      ghost var giver;
      first, giver := Alloc(n, addr);
      AlignedSum(first, n);
      second, giver := Alloc(-n, addr);
      third, giver := Alloc(n, addr);
      assert grants[i] == Grant(giver, first, n) && grants[i + 2] == Grant(giver, first, n);
      SameBlock(giver, first, n);
      assert !Apart(grants[i], grants[i + 2]);
      if Blocks() {
        BlocksApart(i, i + 2);
      }
    }

    /** `mem_pool_destroy`: the memory of every page is released, once. */
    method Destroy() returns (freed: seq<int>)
      requires Listing()
      ensures |freed| == |pages| && forall i :: 0 <= i < |pages| ==> freed[i] == pages[i].start
      ensures forall i, j :: 0 <= i < j < |freed| ==> freed[i] != freed[j]
    {
      hide Failures, Sum;
      freed := [];
      var page: Page? := head;
      while page != null
        invariant |freed| <= |pages| && page == (if |freed| < |pages| then pages[|freed|] else null)
        invariant forall i :: 0 <= i < |freed| ==> freed[i] == pages[i].start
        decreases |pages| - |freed|
      {
        assert Listed(|freed|);
        var start := page.start;
        page := page.next;
        freed := freed + [start];
      }
      forall i, j | 0 <= i < j < |freed| ensures freed[i] != freed[j] {
        assert Listed(i) && Listed(j) && PageOk(pages[i]) && PageOk(pages[j]);
      }
    }

    /** The search starts nowhere only when every page has been given up. */
    lemma NoCurrent()
      requires Listing()
      ensures current == null <==> forall i :: 0 <= i < |pages| ==> pages[i].failed == 4
      ensures if c < |pages| then current == pages[c] && current.failed < 4 else current == null
      ensures forall i :: 0 <= i < |pages| ==> pages[i].failed == fails[i] && (pages[i].failed == 4 <==> i < c)
    {
      forall i | 0 <= i < |pages| ensures pages[i].failed == fails[i] {
        assert Listed(i);
      }
      assert c < |pages| ==> pages[c].failed == fails[c] < MAX_FAILED_COUNT;
    }

    /** The amortised cost of the search. */
    lemma Amortised()
      requires Listing()
      ensures probes <= calls + 4 * page_count
    {
      SumBound(fails, MAX_FAILED_COUNT);
    }
  }

  lemma AlignBack(ptr: int, size: int, end: int)
    requires ptr % ALIGNMENT == 0 && end % ALIGNMENT == 0 && ptr + size <= end
    ensures Align(ptr + size) <= end && (size > -ALIGNMENT ==> Align(ptr + size) >= ptr)
  {
  }

  lemma AlignedSum(p: int, n: int)
    requires p % ALIGNMENT == 0 && n % ALIGNMENT == 0
    ensures Align(p) == p && Align(p + n) == p + n
  {
  }

  lemma SameBlock(page: Page, ptr: int, n: int)
    requires n > 0
    ensures !Apart(Grant(page, ptr, n), Grant(page, ptr, n))
  {
  }

  lemma AlignedStart(addr: int, page_size: int)
    requires page_size > 0 && page_size % ALIGNMENT == 0 && addr % page_size == 0
    ensures addr % ALIGNMENT == 0
  {
    var k, m := addr / page_size, page_size / ALIGNMENT;
    assert addr == k * page_size == k * (m * ALIGNMENT);
    assert addr == (k * m) * ALIGNMENT;
  }
}
