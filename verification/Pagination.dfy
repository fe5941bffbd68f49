// Page parameters and the pages they select.
module Pagination {
  import opened Arithmetic
  import opened Wrappers

  const DEFAULT_PAGE := 1
  const DEFAULT_LIMIT := 20
  const MAX_LIMIT := 100

  datatype ParsedPagination = ParsedPagination(page: int, limit: int, skip: int)

  // None stands for an absent parameter and for text that parses to no number. Zero is falsy, so
  // it too is replaced by the default.
  function OrDefault(parsed: Option<int>, default: int): int {
    if parsed.Some? && parsed.value != 0 then parsed.value else default
  }

  function ParsePage(page: Option<int>): int { Max(1, OrDefault(page, DEFAULT_PAGE)) }

  function ParseLimit(limit: Option<int>): int { Min(MAX_LIMIT, Max(1, OrDefault(limit, DEFAULT_LIMIT))) }

  function ParsePagination(page: Option<int>, limit: Option<int>): ParsedPagination {
    ParsedPagination(ParsePage(page), ParseLimit(limit), (ParsePage(page) - 1) * ParseLimit(limit))
  }

  function TotalPages(total: nat, limit: int): nat
    requires limit >= 1
  {
    (total + limit - 1) / limit
  }

  // OFFSET skip LIMIT limit over an ordered result list.
  function Slice<T>(list: seq<T>, skip: nat, limit: nat): seq<T> {
    list[Min(skip, |list|)..Min(skip + limit, |list|)]
  }

  // A limit is clamped into the range exactly when it is not zero; zero counts as absent. A page is
  // always clamped.
  lemma {:induction false} LimitIsClamped(page: int, limit: int)
    ensures var parsed := ParsePagination(Some(page), Some(limit));
            && parsed.limit == (if limit == 0 then 20 else if limit < 1 then 1 else if limit > 100 then 100 else limit)
            && (parsed.limit == Min(100, Max(1, limit)) <==> limit != 0)
            && parsed.page == (if page < 1 then 1 else page)
            && ParsePagination(None, Some(limit)).page == 1 && ParsePagination(Some(page), None).limit == 20
  {
  }

  lemma {:induction false} ParsedIsInRange(page: Option<int>, limit: Option<int>)
    ensures var parsed := ParsePagination(page, limit);
            1 <= parsed.limit <= MAX_LIMIT && parsed.page >= 1 && parsed.skip >= 0
  {
    MulNonNegative(ParsePage(page) - 1, ParseLimit(limit));
  }

  lemma {:induction false} MulNonNegative(a: nat, b: nat)
    ensures a * b >= 0
  {
  }

  // The page a client gets for the given parameters.
  function Page<T>(list: seq<T>, page: Option<int>, limit: Option<int>): seq<T> {
    ParsedIsInRange(page, limit);
    var p := ParsePagination(page, limit);
    Slice(list, p.skip, p.limit)
  }

  // Pages 1 to n, one after the other.
  function Pages<T>(list: seq<T>, n: nat, limit: Option<int>): seq<T> {
    if n == 0 then [] else Pages(list, n - 1, limit) + Page(list, Some(n), limit)
  }

  lemma {:induction false} SliceExtends<T>(list: seq<T>, skip: nat, limit: nat)
    ensures list[..Min(skip, |list|)] + Slice(list, skip, limit) == list[..Min(skip + limit, |list|)]
  {
  }

  lemma {:induction false} PagesArePrefix<T>(list: seq<T>, n: nat, limit: Option<int>)
    ensures var l := ParsePagination(None, limit).limit;
            n * l >= 0 && Pages(list, n, limit) == list[..Min(n * l, |list|)]
  {
    var l := ParsePagination(None, limit).limit;
    ParsedIsInRange(None, limit);
    MulNonNegative(n, l);
    if n == 0 {
    } else {
      PagesArePrefix(list, n - 1, limit);
      OneMore(n - 1, l);
      SliceExtends(list, (n - 1) * l, l);
    }
  }

  lemma {:induction false} TotalPagesIsCeiling(total: nat, limit: int)
    requires limit >= 1
    ensures var n := TotalPages(total, limit);
            n * limit >= total && (total > 0 ==> n > 0 && (n - 1) * limit < total) && (total == 0 ==> n == 0)
  {
  }

  // The pages up to totalPages give back exactly the list, each of them holds something, and every
  // later page is empty.
  lemma {:induction false} PagesCoverTheList<T>(list: seq<T>, limit: Option<int>, later: nat)
    ensures var l := ParsePagination(None, limit).limit;
            && l >= 1
            && Pages(list, TotalPages(|list|, l), limit) == list
            && (later > TotalPages(|list|, l) ==> Page(list, Some(later), limit) == [])
            && (1 <= later <= TotalPages(|list|, l) ==> Page(list, Some(later), limit) != [])
  {
    var l := ParsePagination(None, limit).limit;
    ParsedIsInRange(None, limit);
    var n := TotalPages(|list|, l);
    TotalPagesIsCeiling(|list|, l);
    PagesArePrefix(list, n, limit);
    if later > n {
      MulMono(n, later - 1, l);
    } else if later >= 1 {
      MulMono(later - 1, n - 1, l);
    }
  }

  lemma {:induction false} Quotient(k: nat, l: nat, n: nat)
    requires l >= 1
    ensures (n * l <= k < n * l + l) <==> n == k / l
  {
    var q := k / l;
    assert k == q * l + k % l;
    if n < q {
      MulMono(n + 1, q, l);
      OneMore(n, l);
    } else if n > q {
      MulMono(q + 1, n, l);
      OneMore(q, l);
    }
  }

  // Position k of the list is shown on the page that skips to it and on no other.
  lemma {:induction false} OnePagePerPosition(limit: Option<int>, k: nat, page: nat)
    requires page >= 1
    ensures var p := ParsePagination(Some(page), limit);
            p.limit >= 1 && ((p.skip <= k < p.skip + p.limit) <==> page == k / p.limit + 1)
  {
    var p := ParsePagination(Some(page), limit);
    ParsedIsInRange(Some(page), limit);
    Quotient(k, p.limit, page - 1);
  }
}
