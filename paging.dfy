/**
 * The listing pipeline of `PostsController.GetPosts`: clamp the page
 * request, count the caller's posts, compute the number of pages, and take
 * one page of the caller's posts ordered newest first.
 */
module Paging {
  import opened Wrappers
  import opened Models
  import opened Text

  /** `PostsController.MaxPageSize`. */
  const MaxPageSize: int := 100

  /** `PagedResult<T>`. */
  datatype PagedResult<T> = PagedResult(
    items: seq<T>,
    pageNumber: int,
    pageSize: int,
    totalCount: int,
    totalPages: int)

  /** `Math.Max(1, pageNumber)`. */
  function ClampPageNumber(pageNumber: int): (r: int)
    ensures r >= 1
    ensures pageNumber >= 1 ==> r == pageNumber
    ensures pageNumber < 1 ==> r == 1
  {
    if pageNumber < 1 then 1 else pageNumber
  }

  /** `Math.Clamp(pageSize, 1, MaxPageSize)`. */
  function ClampPageSize(pageSize: int): (r: int)
    ensures 1 <= r <= MaxPageSize
    ensures 1 <= pageSize <= MaxPageSize ==> r == pageSize
    ensures pageSize < 1 ==> r == 1
    ensures pageSize > MaxPageSize ==> r == MaxPageSize
  {
    if pageSize < 1 then 1 else if pageSize > MaxPageSize then MaxPageSize else pageSize
  }

  /**
   * `(int)Math.Ceiling(count / (double)size)`, in integer arithmetic: the
   * fewest pages of `size` items that hold `count` items.
   */
  function TotalPages(count: nat, size: int): (pages: nat)
    requires size >= 1
    ensures (pages - 1) * size < count <= pages * size
    ensures pages == 0 <==> count == 0
  {
    var q := (count + size - 1) / size;
    var rem := (count + size - 1) % size;
    assert count + size - 1 == q * size + rem;
    assert (q - 1) * size == q * size - size;
    q
  }

  /** `a <= b` survives multiplication by a positive factor. */
  lemma MulMonotone(a: int, b: int, k: int)
    requires a <= b && k >= 1
    ensures a * k <= b * k
  {
    assert b * k - a * k == (b - a) * k;
  }

  /** `Where(p => p.UserId == userId)`: the caller's posts, in stored order. */
  function OwnedBy(posts: seq<Post>, userId: int): (r: seq<Post>)
    ensures |r| <= |posts|
  {
    if posts == [] then []
    else
      var init := posts[..|posts| - 1];
      var last := posts[|posts| - 1];
      assert posts == init + [last];
      OwnedBy(init, userId) + if last.userId == userId then [last] else []
  }

  /** The owned posts are exactly the stored posts of the owner. */
  lemma {:induction false} OwnedByMembers(posts: seq<Post>, userId: int)
    ensures forall p :: p in OwnedBy(posts, userId) <==> p in posts && p.userId == userId
  {
    if posts != [] {
      var init := posts[..|posts| - 1];
      OwnedByMembers(init, userId);
      assert posts == init + [posts[|posts| - 1]];
    }
  }

  /** The positions of `userId`'s posts in the table. */
  function OwnedPositions(posts: seq<Post>, userId: int): set<int> {
    set i | 0 <= i < |posts| && posts[i].userId == userId
  }

  /** Appending a post adds its position exactly when the post is the owner's. */
  lemma OwnedPositionsSnoc(posts: seq<Post>, userId: int)
    requires posts != []
    ensures var n := |posts| - 1;
      OwnedPositions(posts, userId)
      == OwnedPositions(posts[..n], userId) + if posts[n].userId == userId then {n} else {}
  {
    var n := |posts| - 1;
    var added: set<int> := if posts[n].userId == userId then {n} else {};
    forall i ensures i in OwnedPositions(posts, userId) <==> i in OwnedPositions(posts[..n], userId) + added {
      if 0 <= i < n {
        assert posts[i] == posts[..n][i];
      }
    }
  }

  /** There are as many owned posts as positions holding a post of the owner. */
  lemma {:induction false} OwnedByCount(posts: seq<Post>, userId: int)
    ensures |OwnedBy(posts, userId)| == |OwnedPositions(posts, userId)|
  {
    if posts == [] {
      assert OwnedPositions(posts, userId) == {};
    } else {
      var n := |posts| - 1;
      OwnedByCount(posts[..n], userId);
      OwnedPositionsSnoc(posts, userId);
      var before := OwnedPositions(posts[..n], userId);
      var added: set<int> := if posts[n].userId == userId then {n} else {};
      assert n !in before;
      assert |before + added| == |before| + |added|;
    }
  }

  /** Newer posts come first. */
  predicate NewestFirstOrder(ps: seq<Post>) {
    forall i, j :: 0 <= i < j < |ps| ==> ps[i].createdAt >= ps[j].createdAt
  }

  /**
   * Inserts `p` into a newest-first sequence, ahead of every post that is not
   * newer than it (so that equal timestamps keep their original order).
   */
  function InsertByDate(p: Post, sorted: seq<Post>): (r: seq<Post>)
    ensures multiset(r) == multiset(sorted) + multiset{p}
  {
    if sorted == [] || sorted[0].createdAt <= p.createdAt then [p] + sorted
    else
      assert sorted == [sorted[0]] + sorted[1..];
      [sorted[0]] + InsertByDate(p, sorted[1..])
  }

  /** Inserting a post no newer than `bound` among such posts gives only such posts. */
  lemma InsertByDateBounded(p: Post, sorted: seq<Post>, bound: int)
    requires p.createdAt <= bound
    requires forall i :: 0 <= i < |sorted| ==> sorted[i].createdAt <= bound
    ensures forall j :: 0 <= j < |InsertByDate(p, sorted)| ==> InsertByDate(p, sorted)[j].createdAt <= bound
  {
    var r := InsertByDate(p, sorted);
    forall j | 0 <= j < |r| ensures r[j].createdAt <= bound {
      assert r[j] in multiset(r);
      if r[j] != p {
        assert r[j] in multiset(sorted);
        var k :| 0 <= k < |sorted| && sorted[k] == r[j];
      }
    }
  }

  /** Inserting keeps a sequence newest first. */
  lemma {:induction false} InsertByDateOrdered(p: Post, sorted: seq<Post>)
    requires NewestFirstOrder(sorted)
    ensures NewestFirstOrder(InsertByDate(p, sorted))
  {
    var r := InsertByDate(p, sorted);
    if sorted == [] || sorted[0].createdAt <= p.createdAt {
      forall i, j | 0 <= i < j < |r| ensures r[i].createdAt >= r[j].createdAt {
        if i == 0 && 0 < j - 1 {
          assert sorted[0].createdAt >= sorted[j - 1].createdAt;
        }
      }
    } else {
      var tail := sorted[1..];
      var rest := InsertByDate(p, tail);
      assert r == [sorted[0]] + rest;
      InsertByDateOrdered(p, tail);
      forall i | 0 <= i < |tail| ensures tail[i].createdAt <= sorted[0].createdAt {
        assert tail[i] == sorted[i + 1];
      }
      InsertByDateBounded(p, tail, sorted[0].createdAt);
      forall i, j | 0 <= i < j < |r| ensures r[i].createdAt >= r[j].createdAt {
        if i == 0 {
          assert r[0] == sorted[0] && r[j] == rest[j - 1];
          assert rest[j - 1].createdAt <= sorted[0].createdAt;
        } else {
          assert r[i] == rest[i - 1] && r[j] == rest[j - 1];
        }
      }
    }
  }

  /**
   * `OrderByDescending(p => p.CreatedAt)`, newest first. The database leaves
   * the order of equal timestamps open; this sort keeps them in stored order.
   */
  function NewestFirst(ps: seq<Post>): (r: seq<Post>)
    ensures multiset(r) == multiset(ps)
  {
    if ps == [] then []
    else
      assert ps == [ps[0]] + ps[1..];
      InsertByDate(ps[0], NewestFirst(ps[1..]))
  }

  /** The sort puts the posts newest first and keeps every post, once per occurrence. */
  lemma {:induction false} NewestFirstSorts(ps: seq<Post>)
    ensures NewestFirstOrder(NewestFirst(ps))
    ensures |NewestFirst(ps)| == |ps|
    ensures forall p :: p in NewestFirst(ps) <==> p in ps
  {
    var r := NewestFirst(ps);
    assert |multiset(r)| == |multiset(ps)|;
    forall p ensures p in r <==> p in ps {
      assert p in r <==> p in multiset(r);
    }
    if ps != [] {
      NewestFirstSorts(ps[1..]);
      InsertByDateOrdered(ps[0], NewestFirst(ps[1..]));
    }
  }

  /**
   * `Skip(n)`, translated to `OFFSET n ROWS`: drops the first `n` items. The
   * database refuses a negative count; callers rule that case out first.
   */
  function Skip<T>(s: seq<T>, n: int): (r: seq<T>)
    requires n >= 0
    ensures n < |s| ==> r == s[n..]
    ensures n >= |s| ==> r == []
  {
    if n >= |s| then [] else s[n..]
  }

  /** LINQ `Take(n)`: at most `n` leading items. */
  function Take<T>(s: seq<T>, n: int): (r: seq<T>)
    ensures |r| <= |s| && r == s[..|r|]
    ensures |r| == if n <= 0 then 0 else if n < |s| then n else |s|
  {
    if n <= 0 then [] else if n >= |s| then s else s[..n]
  }

  /** The number of items skipped before page `number`, in unbounded arithmetic. */
  function PageOffset(number: int, size: int): (offset: nat)
    requires number >= 1 && size >= 1
  {
    MulMonotone(0, number - 1, size);
    (number - 1) * size
  }

  /** Page `number` of `sorted`, `size` items to a page, with the totals over all of `sorted`. */
  function Paginate<T>(sorted: seq<T>, number: int, size: int): PagedResult<T>
    requires number >= 1 && size >= 1
  {
    var items := Take(Skip(sorted, PageOffset(number, size)), size);
    PagedResult(items, number, size, |sorted|, TotalPages(|sorted|, size))
  }

  /** The paged listing of `userId`'s posts, before the endpoint wraps it in 200 OK. */
  function ListPosts(posts: seq<Post>, userId: int, pageNumber: int, pageSize: int): (r: PagedResult<Post>)
    ensures r.pageNumber >= 1 && 1 <= r.pageSize <= MaxPageSize
  {
    Paginate(NewestFirst(OwnedBy(posts, userId)), ClampPageNumber(pageNumber), ClampPageSize(pageSize))
  }

  /**
   * The page request is normalised: the number is at least 1, the size lies
   * in [1, 100], and in-range values are kept.
   */
  lemma ListPostsRequest(posts: seq<Post>, userId: int, pageNumber: int, pageSize: int)
    ensures var r := ListPosts(posts, userId, pageNumber, pageSize);
      && r.pageNumber >= 1 && (pageNumber >= 1 ==> r.pageNumber == pageNumber)
      && 1 <= r.pageSize <= MaxPageSize && (1 <= pageSize <= MaxPageSize ==> r.pageSize == pageSize)
  {
    var r := ListPosts(posts, userId, pageNumber, pageSize);
    assert r.pageNumber == ClampPageNumber(pageNumber) && r.pageSize == ClampPageSize(pageSize);
  }

  /**
   * The count is the number of the caller's stored posts, and it is zero
   * exactly when no stored post is theirs.
   */
  lemma ListPostsCount(posts: seq<Post>, userId: int, pageNumber: int, pageSize: int)
    ensures var r := ListPosts(posts, userId, pageNumber, pageSize);
      && r.totalCount == |OwnedPositions(posts, userId)|
      && (r.totalCount == 0 <==> forall p :: p in posts ==> p.userId != userId)
  {
    var r := ListPosts(posts, userId, pageNumber, pageSize);
    var owned := OwnedBy(posts, userId);
    assert r.totalCount == |NewestFirst(owned)|;
    NewestFirstSorts(owned);
    OwnedByCount(posts, userId);
    OwnedByEmpty(posts, userId);
  }

  /** The page count is the fewest pages of the page size that hold every counted item. */
  lemma PaginatePageCount<T>(sorted: seq<T>, number: int, size: int)
    requires number >= 1 && size >= 1
    ensures var r := Paginate(sorted, number, size);
      && (r.totalPages - 1) * r.pageSize < r.totalCount <= r.totalPages * r.pageSize
      && (r.totalPages == 0 <==> r.totalCount == 0)
  {
    var r := Paginate(sorted, number, size);
    var tp := TotalPages(|sorted|, size);
    assert r.pageSize == size && r.totalCount == |sorted| && r.totalPages == tp;
    assert (tp - 1) * size < |sorted| <= tp * size;
  }

  /** The listing's page count is the fewest pages of the page size that hold every counted post. */
  lemma ListPostsPageCount(posts: seq<Post>, userId: int, pageNumber: int, pageSize: int)
    ensures var r := ListPosts(posts, userId, pageNumber, pageSize);
      && (r.totalPages - 1) * r.pageSize < r.totalCount <= r.totalPages * r.pageSize
      && (r.totalPages == 0 <==> r.totalCount == 0)
  {
    PaginatePageCount(NewestFirst(OwnedBy(posts, userId)), ClampPageNumber(pageNumber), ClampPageSize(pageSize));
  }

  /** The caller has no posts exactly when no stored post is theirs. */
  lemma OwnedByEmpty(posts: seq<Post>, userId: int)
    ensures OwnedBy(posts, userId) == [] <==> forall p :: p in posts ==> p.userId != userId
  {
    var owned := OwnedBy(posts, userId);
    OwnedByMembers(posts, userId);
    if owned != [] {
      assert owned[0] in owned;
    }
  }

  /** The items at positions `offset` up to `offset + size`, as far as they exist. */
  function PageSlice<T>(sorted: seq<T>, offset: nat, size: nat): seq<T> {
    if offset >= |sorted| then []
    else sorted[offset..if offset + size < |sorted| then offset + size else |sorted|]
  }

  /** A page is the slice after the offset, cut at `size` items or at the end of the sequence. */
  lemma PaginateSlice<T>(sorted: seq<T>, number: int, size: int)
    requires number >= 1 && size >= 1
    ensures Paginate(sorted, number, size).items == PageSlice(sorted, PageOffset(number, size), size)
  {
    var offset := PageOffset(number, size);
    if offset < |sorted| {
      assert Skip(sorted, offset) == sorted[offset..];
    }
  }

  /** A slice of a newest-first sequence is newest first. */
  lemma SliceKeepsOrder(sorted: seq<Post>, lo: int, hi: int)
    requires 0 <= lo <= hi <= |sorted| && NewestFirstOrder(sorted)
    ensures NewestFirstOrder(sorted[lo..hi])
  {
    var page := sorted[lo..hi];
    forall i, j | 0 <= i < j < |page| ensures page[i].createdAt >= page[j].createdAt {
      assert page[i] == sorted[lo + i] && page[j] == sorted[lo + j];
    }
  }

  /** A page starts past the last item exactly when its number exceeds the page count. */
  lemma PastLastPage(number: int, size: int, count: nat)
    requires number >= 1 && size >= 1
    ensures PageOffset(number, size) >= count <==> number > TotalPages(count, size)
  {
    var pages := TotalPages(count, size);
    if number > pages {
      MulMonotone(pages, number - 1, size);
    } else {
      MulMonotone(number - 1, pages - 1, size);
    }
  }

  /** A page is empty exactly when its number lies past the page count. */
  lemma PaginatePastLastPage<T>(sorted: seq<T>, number: int, size: int)
    requires number >= 1 && size >= 1
    ensures var r := Paginate(sorted, number, size);
      r.items == [] <==> r.pageNumber > r.totalPages
  {
    var offset := PageOffset(number, size);
    PaginateSlice(sorted, number, size);
    PastLastPage(number, size, |sorted|);
    if offset < |sorted| {
      var end := if offset + size < |sorted| then offset + size else |sorted|;
      assert |sorted[offset..end]| > 0;
    }
  }

  /** A page of a newest-first sequence holds items of it, at most `size` of them, newest first. */
  lemma PageOfSorted(sorted: seq<Post>, number: int, size: int)
    requires number >= 1 && size >= 1 && NewestFirstOrder(sorted)
    ensures var page := Paginate(sorted, number, size).items;
      && (forall p :: p in page ==> p in sorted)
      && |page| <= size
      && NewestFirstOrder(page)
  {
    var offset := PageOffset(number, size);
    PaginateSlice(sorted, number, size);
    if offset < |sorted| {
      var end := if offset + size < |sorted| then offset + size else |sorted|;
      SliceKeepsOrder(sorted, offset, end);
    }
  }

  /** The items are the caller's own posts, at most one page of them, newest first. */
  lemma ListPostsItemsOwned(posts: seq<Post>, userId: int, pageNumber: int, pageSize: int)
    ensures var r := ListPosts(posts, userId, pageNumber, pageSize);
      && (forall p :: p in r.items ==> p in posts && p.userId == userId)
      && |r.items| <= r.pageSize
      && NewestFirstOrder(r.items)
  {
    var owned := OwnedBy(posts, userId);
    NewestFirstSorts(owned);
    OwnedByMembers(posts, userId);
    PageOfSorted(NewestFirst(owned), ClampPageNumber(pageNumber), ClampPageSize(pageSize));
  }

  /**
   * The items are exactly the slice of the caller's posts, newest first, that
   * starts after `(pageNumber - 1) * pageSize` of them, cut at the end of the
   * posts.
   */
  lemma ListPostsItemsSlice(posts: seq<Post>, userId: int, pageNumber: int, pageSize: int)
    ensures var r := ListPosts(posts, userId, pageNumber, pageSize);
      r.items == PageSlice(NewestFirst(OwnedBy(posts, userId)), PageOffset(r.pageNumber, r.pageSize), r.pageSize)
  {
    var sorted := NewestFirst(OwnedBy(posts, userId));
    var number, size := ClampPageNumber(pageNumber), ClampPageSize(pageSize);
    var r := ListPosts(posts, userId, pageNumber, pageSize);
    PaginateSlice(sorted, number, size);
    assert r.items == Paginate(sorted, number, size).items;
    assert r.pageNumber == number && r.pageSize == size;
  }

  /**
   * A page is empty exactly when its number lies past the page count; the
   * totals are reported all the same.
   */
  lemma ListPostsPastLastPage(posts: seq<Post>, userId: int, pageNumber: int, pageSize: int)
    ensures var r := ListPosts(posts, userId, pageNumber, pageSize);
      r.items == [] <==> r.pageNumber > r.totalPages
  {
    PaginatePastLastPage(NewestFirst(OwnedBy(posts, userId)), ClampPageNumber(pageNumber), ClampPageSize(pageSize));
  }

  // ---- The page offset as the source computes it ----

  /** C#'s unchecked `int` arithmetic: `n` wrapped into the 32-bit range. */
  function WrapInt(n: int): (r: int)
    ensures IsInt(r)
    ensures IsInt(n) ==> r == n
    ensures (n - r) % 0x1_0000_0000 == 0
  {
    var m := n % 0x1_0000_0000;
    if m > IntMax then m - 0x1_0000_0000 else m
  }

  /** `(pageNumber - 1) * pageSize` as written: a 32-bit product that can wrap. */
  function PageOffsetAsWritten(pageNumber: int, pageSize: int): int {
    WrapInt((pageNumber - 1) * pageSize)
  }

  /**
   * `ListPosts` with the page offset computed in 32-bit arithmetic, as the
   * source does: a wrapped negative offset makes the database reject the
   * query, which escapes the action as a 500.
   */
  function ListPostsAsWritten(posts: seq<Post>, userId: int, pageNumber: int, pageSize: int)
    : (r: Result<PagedResult<Post>, Fault>)
    ensures r.Failure? <==> PageOffsetAsWritten(ClampPageNumber(pageNumber), ClampPageSize(pageSize)) < 0
    ensures r.Failure? ==> r.error == NegativeOffset
  {
    var number := ClampPageNumber(pageNumber);
    var size := ClampPageSize(pageSize);
    var offset := PageOffsetAsWritten(number, size);
    if offset < 0 then Failure(NegativeOffset)
    else
      var sorted := NewestFirst(OwnedBy(posts, userId));
      var items := Take(Skip(sorted, offset), size);
      Success(PagedResult(items, number, size, |sorted|, TotalPages(|sorted|, size)))
  }

  /** While the product fits in 32 bits, the source's listing is the model's. */
  lemma AsWrittenAgreesWithoutOverflow(posts: seq<Post>, userId: int, pageNumber: int, pageSize: int)
    requires IsInt(PageOffset(ClampPageNumber(pageNumber), ClampPageSize(pageSize)))
    ensures ListPostsAsWritten(posts, userId, pageNumber, pageSize) == Success(ListPosts(posts, userId, pageNumber, pageSize))
  {
    var number, size := ClampPageNumber(pageNumber), ClampPageSize(pageSize);
    assert PageOffsetAsWritten(number, size) == WrapInt(PageOffset(number, size)) == PageOffset(number, size);
  }

  /**
   * Page 67108865 of 64 starts 2^32 posts in: the source's offset wraps to
   * exactly 0, so a caller with a single post gets that post back on a page
   * far past the last one, where the listing should be empty.
   */
  lemma OffsetWrapsToFirstPage(p: Post)
    ensures PageOffsetAsWritten(67108865, 64) == 0
    ensures ListPostsAsWritten([p], p.userId, 67108865, 64) == Success(PagedResult([p], 67108865, 64, 1, 1))
    ensures ListPosts([p], p.userId, 67108865, 64).items == []
    ensures ListPosts([p], p.userId, 67108865, 64).totalPages == 1
  {
    var owned := OwnedBy([p], p.userId);
    assert owned == [p] by {
      assert [p][..0] == [];
    }
    assert NewestFirst(owned) == [p];
    assert PageOffset(67108865, 64) == 0x1_0000_0000;
  }

  /**
   * Page 21474838 of 100 starts 2147483700 posts in, past `int.MaxValue`: the
   * source's offset wraps to a negative count and the query fails, where the
   * listing should be an empty page.
   */
  lemma OffsetWrapsNegative(p: Post)
    ensures PageOffsetAsWritten(21474838, 100) == -2147483596
    ensures ListPostsAsWritten([p], p.userId, 21474838, 100) == Failure(NegativeOffset)
    ensures ListPosts([p], p.userId, 21474838, 100).items == []
  {
    var owned := OwnedBy([p], p.userId);
    assert owned == [p] by {
      assert [p][..0] == [];
    }
    assert NewestFirst(owned) == [p];
    assert PageOffset(21474838, 100) == 2147483700;
  }
}
