/**
  Fetch loops that must reassemble a remote list (crates/patchhive-github-data/src/client.rs and
  crates/patchhive-github-pr/src/client.rs), and the evidence pages of
  crates/patchhive-product-core/src/contract.rs.
 */
module Pagination {
  import opened Wrappers
  import opened Numbers

  // ---------------------------------------------------------------------------------------
  // Numbered pages.

  /** The server's answer to `per_page` and `page`, pages counting from one. */
  function Page<T>(items: seq<T>, perPage: nat, page: nat): seq<T>
    requires page >= 1
  {
    items[Min((page - 1) * perPage, |items|)..Min(page * perPage, |items|)]
  }

  lemma PageBounds(perPage: nat, page: nat)
    requires page >= 1
    ensures (page - 1) * perPage <= page * perPage == (page - 1) * perPage + perPage
  {}

  /** `get_paginated_array`: pages of one hundred until a short one. */
  method GetPaginatedArray<T>(items: seq<T>) returns (fetched: seq<T>)
    ensures fetched == items
  {
    fetched := [];
    var page := 1;
    while true
      invariant page >= 1 && fetched == items[..Min((page - 1) * 100, |items|)] && |fetched| == (page - 1) * 100
      decreases |items| + 100 - page * 100
    {
      PageBounds(100, page);
      var pageItems := Page(items, 100, page);
      fetched := fetched + pageItems;
      if |pageItems| < 100 {
        break;
      }
      page := page + 1;
    }
  }

  /** What the loop with a limit fetches: full pages while a hundred are wanted, then one page of another size. */
  function Fetched<T>(items: seq<T>, maxItems: nat): seq<T> {
    var full, rest := maxItems / 100, maxItems % 100;
    if |items| < full * 100 then items
    else if rest == 0 then items[..full * 100]
    else items[..full * 100] + Page(items, rest, full + 1)
  }

  lemma FullPage<T>(items: seq<T>, page: nat)
    requires page >= 1 && (page - 1) * 100 <= |items|
    ensures items[..(page - 1) * 100] + Page(items, 100, page) == items[..Min(page * 100, |items|)]
  {}

  lemma LastPage(maxItems: nat, page: nat)
    requires page >= 1 && 0 < maxItems - (page - 1) * 100 < 100
    ensures maxItems / 100 == page - 1 && maxItems % 100 == maxItems - (page - 1) * 100
  {}

  /**
    `get_paginated_json` and `get_paginated_field_json`: `per_page` shrinks with what remains while `page`
    keeps counting.
   */
  method GetPaginated<T>(items: seq<T>, maxItems: nat) returns (fetched: seq<T>)
    ensures fetched == Fetched(items, maxItems)
  {
    if maxItems == 0 {
      return [];
    }
    fetched := [];
    var page := 1;
    ghost var full := maxItems / 100;
    while true
      invariant page >= 1
      invariant |fetched| <= maxItems
      invariant if |fetched| == maxItems then fetched == Fetched(items, maxItems)
                else
                  && page - 1 <= full && |fetched| == (page - 1) * 100
                  && |fetched| <= |items| && fetched == items[..|fetched|]
      decreases maxItems - |fetched|
    {
      var remaining := maxItems - |fetched|;
      if remaining == 0 {
        break;
      }
      var perPage := Min(remaining, 100);
      PageBounds(perPage, page);
      var pageItems := Page(items, perPage, page);
      if perPage == 100 {
        FullPage(items, page);
      } else {
        LastPage(maxItems, page);
      }
      fetched := fetched + pageItems;
      if |pageItems| < perPage {
        break;
      }
      page := page + 1;
    }
  }

  ghost predicate Distinct<T>(items: seq<T>) {
    forall i, j :: 0 <= i < j < |items| ==> items[i] != items[j]
  }

  /** The limits for which shrinking the last page is harmless, or the list ends before it is asked for. */
  predicate HarmlessLimit(size: nat, maxItems: nat) {
    maxItems <= 100 || maxItems % 100 == 0 || size < maxItems / 100 * 100
  }

  lemma Shrinks(full: nat, rest: nat)
    requires full >= 1 && rest < 100
    ensures full * rest < full * 100
  {}

  /** The loop returns the first items of the list exactly for such limits; otherwise it fetches some item twice. */
  lemma FetchedIsPrefixExactlyWhen<T>(items: seq<T>, maxItems: nat)
    requires Distinct(items)
    ensures Fetched(items, maxItems) == items[..Min(maxItems, |items|)] <==> HarmlessLimit(|items|, maxItems)
    ensures !HarmlessLimit(|items|, maxItems) ==> !Distinct(Fetched(items, maxItems))
  {
    var full, rest := maxItems / 100, maxItems % 100;
    assert maxItems == full * 100 + rest;
    if !HarmlessLimit(|items|, maxItems) {
      var repeated := full * rest;
      assert repeated < full * 100 by { Shrinks(full, rest); }
      PageBounds(rest, full + 1);
      var fetched := Fetched(items, maxItems);
      assert fetched[repeated] == items[repeated];
      assert fetched[full * 100] == Page(items, rest, full + 1)[0] == items[repeated];
      assert Distinct(items[..Min(maxItems, |items|)]);
    } else if full == 0 {
      PageBounds(rest, 1);
    }
  }

  /** For example, asking for 150 of at least 150 items returns items 50 to 99 twice and leaves out 100 to 149. */
  lemma FetchOf150<T>(items: seq<T>)
    requires |items| >= 150
    ensures Fetched(items, 150) == items[..100] + items[50..100]
  {}

  // ---------------------------------------------------------------------------------------
  // Cursors.

  /** A server whose cursors are opaque names of positions; it may or may not offer one at the very end. */
  datatype CursorServer<T> = CursorServer(items: seq<T>, name: nat -> string, position: string -> nat, offersLast: bool)

  ghost predicate Honest<T>(server: CursorServer<T>) {
    forall i: nat :: server.position(server.name(i)) == i
  }

  datatype Reply<T> = Reply(items: seq<T>, next: Option<string>)

  function Position<T>(server: CursorServer<T>, after: Option<string>): nat {
    match after case None => 0 case Some(cursor) => server.position(cursor)
  }

  function Ask<T>(server: CursorServer<T>, after: Option<string>, count: nat): Reply<T> {
    var from := Min(Position(server, after), |server.items|);
    var end := Min(from + count, |server.items|);
    Reply(server.items[from..end], if end < |server.items| || server.offersLast then Some(server.name(end)) else None)
  }

  function SaturatingSubtract(a: nat, b: nat): nat { if a < b then 0 else a - b }

  /** Any server at all: what it answers may depend on how often it was asked. */
  type Asker<!T> = (nat, Option<string>, nat) -> Reply<T>

  /** What the loop returns from its `step`-th request on, when `remaining` items are still wanted. */
  function CursorFetched<T>(ask: Asker<T>, step: nat, after: Option<string>, remaining: nat): seq<T>
    decreases remaining
  {
    if remaining == 0 then []
    else
      var pageSize := Min(remaining, 100);
      var reply := ask(step, after, pageSize);
      if |reply.items| < pageSize || reply.next.None? then reply.items
      else reply.items + CursorFetched(ask, step + 1, reply.next, SaturatingSubtract(remaining, |reply.items|))
  }

  /** `get_cursor_paginated_json` ends against every server. */
  method GetCursorPaginated<T>(ask: Asker<T>, maxItems: nat) returns (fetched: seq<T>, requests: nat)
    ensures fetched == CursorFetched(ask, 0, None, maxItems)
    ensures requests * 100 < maxItems + 100
  {
    requests := 0;
    if maxItems == 0 {
      return [], 0;
    }
    var after: Option<string> := None;
    fetched := [];
    while true
      invariant CursorFetched(ask, 0, None, maxItems)
        == fetched + CursorFetched(ask, requests, after, SaturatingSubtract(maxItems, |fetched|))
      invariant requests * 100 <= |fetched| || |fetched| >= maxItems
      invariant requests * 100 < maxItems + 100
      decreases SaturatingSubtract(maxItems, |fetched|)
    {
      var remaining := SaturatingSubtract(maxItems, |fetched|);
      if remaining == 0 {
        break;
      }
      var pageSize := Min(remaining, 100);
      var reply := ask(requests, after, pageSize);
      fetched := fetched + reply.items;
      requests, after := requests + 1, reply.next;
      if |reply.items| < pageSize || after.None? {
        break;
      }
    }
  }

  ghost predicate Serves<T>(ask: Asker<T>, server: CursorServer<T>) {
    forall step, after, count :: ask(step, after, count) == Ask(server, after, count)
  }

  /** A reply continues where the cursor points, and its own cursor points to where it ends. */
  lemma NextReply<T>(server: CursorServer<T>, after: Option<string>, count: nat)
    requires Honest(server) && Position(server, after) <= |server.items|
    ensures var from, reply := Position(server, after), Ask(server, after, count);
      var end := Min(from + count, |server.items|);
      && reply.items == server.items[from..end]
      && |reply.items| == end - from
      && (reply.next.Some? ==> Position(server, reply.next) == end)
      && (reply.next.None? ==> end == |server.items|)
  {}

  lemma ServedReply<T>(ask: Asker<T>, server: CursorServer<T>, step: nat, after: Option<string>, count: nat)
    requires Serves(ask, server)
    ensures ask(step, after, count) == Ask(server, after, count)
  {}

  lemma Contiguous<T>(items: seq<T>, from: nat, page: seq<T>, remaining: nat)
    requires from + |page| <= |items| && |page| <= remaining && page == items[from..from + |page|]
    ensures page + items[from + |page|..Min(from + remaining, |items|)] == items[from..Min(from + remaining, |items|)]
  {}

  /** Against a server of one list the loop returns the next items wanted, for every limit. */
  lemma {:induction false} CursorPrefix<T>(
    ask: Asker<T>, server: CursorServer<T>, step: nat, after: Option<string>, remaining: nat)
    requires Honest(server) && Serves(ask, server) && Position(server, after) <= |server.items|
    ensures var from := Position(server, after);
      CursorFetched(ask, step, after, remaining) == server.items[from..Min(from + remaining, |server.items|)]
    decreases remaining
  {
    hide Ask, Position, Honest, Serves;
    if remaining == 0 {
    } else {
      var pageSize := Min(remaining, 100);
      ServedReply(ask, server, step, after, pageSize);
      NextReply(server, after, pageSize);
      var reply := Ask(server, after, pageSize);
      if |reply.items| == pageSize && reply.next.Some? {
        CursorPrefix(ask, server, step + 1, reply.next, remaining - |reply.items|);
        Contiguous(server.items, Position(server, after), reply.items, remaining);
      }
    }
  }

  /** A server that keeps to the page size cannot make the loop return more than was asked for. */
  lemma {:induction false} CursorWithinLimit<T>(ask: Asker<T>, step: nat, after: Option<string>, remaining: nat)
    requires forall i, cursor, count :: |ask(i, cursor, count).items| <= count
    ensures |CursorFetched(ask, step, after, remaining)| <= remaining
    decreases remaining
  {
    if remaining == 0 {
    } else {
      var reply := ask(step, after, Min(remaining, 100));
      if |reply.items| == Min(remaining, 100) {
        CursorWithinLimit(ask, step + 1, reply.next, remaining - |reply.items|);
      }
    }
  }

  // ---------------------------------------------------------------------------------------
  // Retained evidence.

  const U64_MAX := 0xFFFF_FFFF_FFFF_FFFF

  datatype EvidencePage<T> = EvidencePage(items: seq<T>, total: nat, offset: nat, limit: nat, hasMore: bool)

  function SaturatingAdd(a: nat, b: nat): nat { Min(a + b, U64_MAX) }

  /** `RetainedEvidencePage::from_retained`; lengths, offsets and limits are 64-bit. */
  function FromRetained<T>(items: seq<T>, offset: nat, limit: nat): (page: EvidencePage<T>)
    requires |items| <= U64_MAX && offset <= U64_MAX && limit <= U64_MAX
    ensures page.total == |items| && page.offset == Min(offset, |items|) && page.limit == Max(limit, 1)
    ensures page.offset + |page.items| <= |items|
    ensures page.items == items[page.offset..page.offset + |page.items|]
    ensures page.hasMore <==> page.offset + |page.items| < |items|
    ensures page.hasMore ==> |page.items| == page.limit >= 1
  {
    var total := |items|;
    var offset := Min(offset, total);
    var limit := Max(limit, 1);
    var end := Min(SaturatingAdd(offset, limit), total);
    EvidencePage(items[offset..end], total, offset, limit, end < total)
  }

  /** Asking for the next offset while there is more. */
  function Walk<T>(items: seq<T>, offset: nat, limit: nat): seq<T>
    requires |items| <= U64_MAX && offset <= U64_MAX && limit <= U64_MAX
    decreases if offset < |items| then |items| - offset else 0
  {
    var page := FromRetained(items, offset, limit);
    if page.hasMore then page.items + Walk(items, page.offset + |page.items|, limit) else page.items
  }

  /** A walk terminates and shows exactly the evidence from its offset on, for every limit. */
  lemma {:induction false} WalkShowsEverything<T>(items: seq<T>, offset: nat, limit: nat)
    requires |items| <= U64_MAX && offset <= U64_MAX && limit <= U64_MAX
    ensures Walk(items, offset, limit) == items[Min(offset, |items|)..]
    decreases if offset < |items| then |items| - offset else 0
  {
    var page := FromRetained(items, offset, limit);
    if !page.hasMore {
    } else {
      WalkShowsEverything(items, page.offset + |page.items|, limit);
    }
  }
}
