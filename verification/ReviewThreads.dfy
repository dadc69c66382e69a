/** Review threads and their comments, fetched in nested loops (crates/patchhive-github-pr/src/client.rs). */
module ReviewThreads {
  import opened Wrappers
  import opened Numbers

  datatype Connection<T> = Connection(nodes: seq<T>, hasNextPage: bool, endCursor: Option<string>)

  datatype FetchError = OmittedCursor | DidNotAdvance | Unanswered

  /**
    The servers are arbitrary: the answer to the n-th request is any function of the cursor it is
    asked with, and a request beyond the last answer fails.
   */
  type Answers<!C> = seq<string -> Connection<C>>

  function After<T>(first: seq<T>, rest: Result<seq<T>, FetchError>): Result<seq<T>, FetchError> {
    match rest
    case Ok(more) => Ok(first + more)
    case Err(e) => Err(e)
  }

  /** All comments from `page` on. */
  function Comments<C>(page: Connection<C>, answers: Answers<C>): Result<seq<C>, FetchError>
    decreases |answers|
  {
    if !page.hasNextPage then Ok(page.nodes)
    else if page.endCursor.None? then Err(OmittedCursor)
    else if answers == [] then Err(Unanswered)
    else
      var next := answers[0](page.endCursor.value);
      if next.hasNextPage && next.endCursor == page.endCursor then Err(DidNotAdvance)
      else After(page.nodes, Comments(next, answers[1..]))
  }

  // ---------------------------------------------------------------------------------------
  // The chain of pages a server leads to.

  /** The page after `page`, if the loop goes on and its cursor advances. */
  function NextPage<C>(page: Connection<C>, answer: string -> Connection<C>): Option<Connection<C>> {
    if page.hasNextPage && page.endCursor.Some? then
      var next := answer(page.endCursor.value);
      if next.hasNextPage && next.endCursor == page.endCursor then None else Some(next)
    else None
  }

  /** The page the `n`-th request brings, if it comes to that. */
  function PageAt<C>(first: Connection<C>, answers: Answers<C>, n: nat): Option<Connection<C>>
    requires n <= |answers|
  {
    if n == 0 then Some(first)
    else match PageAt(first, answers, n - 1) case None => None case Some(page) => NextPage(page, answers[n - 1])
  }

  /** The nodes of the pages before it, in order. */
  function NodesBefore<C>(first: Connection<C>, answers: Answers<C>, n: nat): seq<C>
    requires n <= |answers|
  {
    if n == 0 then []
    else
      NodesBefore(first, answers, n - 1)
      + match PageAt(first, answers, n - 1) case None => [] case Some(page) => page.nodes
  }

  lemma AfterNothing<T>(r: Result<seq<T>, FetchError>)
    ensures After([], r) == r
  {
    if r.Ok? {
      assert [] + r.value == r.value;
    }
  }

  lemma AfterLast<T>(all: seq<T>)
    ensures After(all, Ok([])) == Ok(all)
  {
    assert all + [] == all;
  }

  lemma AfterOk<T>(first: seq<T>, more: seq<T>)
    ensures After(first, Ok(more)) == Ok(first + more)
  {}

  lemma AfterError<T>(first: seq<T>, e: FetchError)
    ensures After(first, Err(e)) == Err(e)
  {}

  lemma AfterTwice<T>(a: seq<T>, b: seq<T>, rest: Result<seq<T>, FetchError>)
    ensures After(a, After(b, rest)) == After(a + b, rest)
  {
    if rest.Ok? {
      assert a + (b + rest.value) == a + b + rest.value;
    }
  }

  lemma {:induction false} Unrolled<C>(first: Connection<C>, answers: Answers<C>, n: nat)
    requires n <= |answers| && PageAt(first, answers, n).Some?
    ensures Comments(first, answers)
      == After(NodesBefore(first, answers, n), Comments(PageAt(first, answers, n).value, answers[n..]))
  {
    if n == 0 {
      assert answers[0..] == answers;
      AfterNothing(Comments(first, answers));
    } else {
      Unrolled(first, answers, n - 1);
      var page := PageAt(first, answers, n - 1).value;
      assert answers[n - 1..][1..] == answers[n..];
      AfterTwice(NodesBefore(first, answers, n - 1), page.nodes,
        Comments(PageAt(first, answers, n).value, answers[n..]));
    }
  }

  ghost predicate EndsAt<C>(first: Connection<C>, answers: Answers<C>, n: nat)
    requires n <= |answers|
  {
    PageAt(first, answers, n).Some? && !PageAt(first, answers, n).value.hasNextPage
  }

  /** A last page reached by advancing cursors ends the loop with everything on the way. */
  lemma CommentsEnd<C>(first: Connection<C>, answers: Answers<C>, n: nat)
    requires n <= |answers| && EndsAt(first, answers, n)
    ensures Comments(first, answers)
      == Ok(NodesBefore(first, answers, n) + PageAt(first, answers, n).value.nodes)
  {
    Unrolled(first, answers, n);
  }

  /** The inner loop, for one thread. */
  method FetchComments<C>(first: Connection<C>, answers: Answers<C>) returns (r: Result<seq<C>, FetchError>)
    ensures r == Comments(first, answers)
  {
    hide After;
    var comments, hasMore, cursor := first.nodes, first.hasNextPage, first.endCursor;
    var asked := 0;
    ghost var page := first;
    while hasMore
      invariant asked <= |answers| && PageAt(first, answers, asked) == Some(page)
      invariant comments == NodesBefore(first, answers, asked) + page.nodes
      invariant hasMore == page.hasNextPage && cursor == page.endCursor
      decreases |answers| - asked
    {
      Unrolled(first, answers, asked);
      if cursor.None? {
        AfterError(NodesBefore(first, answers, asked), OmittedCursor);
        return Err(OmittedCursor);
      }
      if asked == |answers| {
        AfterError(NodesBefore(first, answers, asked), Unanswered);
        return Err(Unanswered);
      }
      var next := answers[asked](cursor.value);
      comments := comments + next.nodes;
      hasMore := next.hasNextPage;
      if hasMore && next.endCursor == cursor {
        AfterError(NodesBefore(first, answers, asked), DidNotAdvance);
        return Err(DidNotAdvance);
      }
      cursor := next.endCursor;
      page, asked := next, asked + 1;
    }
    CommentsEnd(first, answers, asked);
    return Ok(comments);
  }

  /** A page without a cursor, though more are announced. */
  ghost predicate OmitsAt<C>(first: Connection<C>, answers: Answers<C>, n: nat)
    requires n <= |answers|
  {
    PageAt(first, answers, n).Some? && PageAt(first, answers, n).value.hasNextPage
      && PageAt(first, answers, n).value.endCursor.None?
  }

  /** The loop goes on from this page. */
  ghost predicate AsksAfter<C>(first: Connection<C>, answers: Answers<C>, n: nat)
    requires n <= |answers|
  {
    PageAt(first, answers, n).Some? && PageAt(first, answers, n).value.hasNextPage
      && PageAt(first, answers, n).value.endCursor.Some?
  }

  /** The answer to the next request has the cursor that was asked with, and more pages. */
  ghost predicate RepeatsAt<C>(first: Connection<C>, answers: Answers<C>, n: nat)
    requires n < |answers|
  {
    && AsksAfter(first, answers, n)
    && var cursor := PageAt(first, answers, n).value.endCursor;
       answers[n](cursor.value).hasNextPage && answers[n](cursor.value).endCursor == cursor
  }

  lemma OmissionEnds<C>(first: Connection<C>, answers: Answers<C>, n: nat)
    requires n <= |answers| && OmitsAt(first, answers, n)
    ensures Comments(first, answers) == Err(OmittedCursor)
  {
    Unrolled(first, answers, n);
  }

  lemma RepetitionEnds<C>(first: Connection<C>, answers: Answers<C>, n: nat)
    requires n < |answers| && RepeatsAt(first, answers, n)
    ensures Comments(first, answers) == Err(DidNotAdvance)
  {
    Unrolled(first, answers, n);
  }

  lemma SilenceEnds<C>(first: Connection<C>, answers: Answers<C>)
    requires AsksAfter(first, answers, |answers|)
    ensures Comments(first, answers) == Err(Unanswered)
  {
    Unrolled(first, answers, |answers|);
  }

  /** Following the cursors ends in one of four ways. */
  lemma ChainEnds<C>(first: Connection<C>, answers: Answers<C>, from: nat) returns (n: nat)
    requires from <= |answers| && PageAt(first, answers, from).Some?
    ensures n <= |answers|
    ensures
      || EndsAt(first, answers, n) || OmitsAt(first, answers, n)
      || (if n < |answers| then RepeatsAt(first, answers, n) else AsksAfter(first, answers, n))
    decreases |answers| - from
  {
    if from < |answers| && PageAt(first, answers, from + 1).Some? {
      n := ChainEnds(first, answers, from + 1);
    } else {
      n := from;
    }
  }

  /** Where the loop stops, and with what. */
  lemma CommentsOutcome<C>(first: Connection<C>, answers: Answers<C>) returns (n: nat)
    ensures n <= |answers|
    ensures var r := Comments(first, answers);
      && (r.Ok? ==>
            EndsAt(first, answers, n)
            && r.value == NodesBefore(first, answers, n) + PageAt(first, answers, n).value.nodes)
      && (r == Err(OmittedCursor) ==> OmitsAt(first, answers, n))
      && (r == Err(DidNotAdvance) ==> n < |answers| && RepeatsAt(first, answers, n))
      && (r == Err(Unanswered) ==> n == |answers| && AsksAfter(first, answers, n))
  {
    n := ChainEnds(first, answers, 0);
    if EndsAt(first, answers, n) {
      CommentsEnd(first, answers, n);
    } else if OmitsAt(first, answers, n) {
      OmissionEnds(first, answers, n);
    } else if n < |answers| {
      RepetitionEnds(first, answers, n);
    } else {
      SilenceEnds(first, answers);
    }
  }

  /**
    Whatever the server does, the loop succeeds exactly when advancing cursors lead to a last page,
    and then returns the comments of every page on the way, in order.
   */
  lemma CommentsExactlyWhen<C>(first: Connection<C>, answers: Answers<C>, all: seq<C>)
    ensures Comments(first, answers) == Ok(all) <==>
      exists n :: 0 <= n <= |answers| && EndsAt(first, answers, n)
        && all == NodesBefore(first, answers, n) + PageAt(first, answers, n).value.nodes
  {
    var n := CommentsOutcome(first, answers);
    forall n | 0 <= n <= |answers| && EndsAt(first, answers, n)
      ensures Comments(first, answers) == Ok(NodesBefore(first, answers, n) + PageAt(first, answers, n).value.nodes)
    {
      CommentsEnd(first, answers, n);
    }
  }

  /**
    The loop reports a cursor that does not advance exactly when some page it reaches repeats the cursor
    it was asked with, a missing cursor exactly when it reaches a page without one that announces more,
    and otherwise goes on for as long as it is answered.
   */
  lemma CommentErrorsExactlyWhen<C>(first: Connection<C>, answers: Answers<C>)
    ensures Comments(first, answers) == Err(DidNotAdvance)
      <==> exists n :: 0 <= n < |answers| && RepeatsAt(first, answers, n)
    ensures Comments(first, answers) == Err(OmittedCursor)
      <==> exists n :: 0 <= n <= |answers| && OmitsAt(first, answers, n)
    ensures Comments(first, answers) == Err(Unanswered) <==> AsksAfter(first, answers, |answers|)
  {
    var n := CommentsOutcome(first, answers);
    forall n | 0 <= n < |answers| && RepeatsAt(first, answers, n)
      ensures Comments(first, answers) == Err(DidNotAdvance)
    {
      RepetitionEnds(first, answers, n);
    }
    forall n | 0 <= n <= |answers| && OmitsAt(first, answers, n)
      ensures Comments(first, answers) == Err(OmittedCursor)
    {
      OmissionEnds(first, answers, n);
    }
    if AsksAfter(first, answers, |answers|) {
      SilenceEnds(first, answers);
    }
  }

  // ---------------------------------------------------------------------------------------
  // Servers that never end.

  /** A page that is never the last, whose cursor is the other one of two. */
  function Swapping<C>(nodes: seq<C>, a: string, b: string): string -> Connection<C> {
    (cursor: string) => Connection(nodes, true, Some(if cursor == a then b else a))
  }

  /**
    The check for a cursor that does not advance sees only a repeated one: two that alternate keep the
    loop asking for ever.
   */
  lemma {:induction false} AlternatingCursorsGoUnnoticed<C>(
    nodes: seq<C>, a: string, b: string, at: string, requests: nat)
    requires a != b && at in {a, b}
    ensures Comments(Connection(nodes, true, Some(at)), seq(requests, i => Swapping(nodes, a, b))) == Err(Unanswered)
    decreases requests
  {
    if requests == 0 {
    } else {
      var answers := seq(requests, i => Swapping(nodes, a, b));
      assert answers[1..] == seq(requests - 1, i => Swapping(nodes, a, b));
      AlternatingCursorsGoUnnoticed(nodes, a, b, if at == a then b else a, requests - 1);
    }
  }

  // ---------------------------------------------------------------------------------------
  // Threads.

  /** A thread as its page shows it: the first page of its comments, and the server for the others. */
  datatype Node<!C> = Node(id: string, first: Connection<C>, answers: Answers<C>)

  datatype Thread<C> = Thread(id: string, comments: seq<C>)

  type ThreadAnswers<!C> = seq<Option<string> -> Connection<Node<C>>>

  /** The threads of one page, up to the first one that fails. */
  function PageThreads<C>(nodes: seq<Node<C>>): Result<seq<Thread<C>>, FetchError> {
    if nodes == [] then Ok([])
    else
      match Comments(nodes[0].first, nodes[0].answers)
      case Err(e) => Err(e)
      case Ok(comments) => After([Thread(nodes[0].id, comments)], PageThreads(nodes[1..]))
  }

  /** All threads from a cursor on; asking for the first page has none. */
  function Threads<C>(cursor: Option<string>, answers: ThreadAnswers<C>): Result<seq<Thread<C>>, FetchError>
    decreases |answers|
  {
    if answers == [] then Err(Unanswered)
    else
      var page := answers[0](cursor);
      match PageThreads(page.nodes)
      case Err(e) => Err(e)
      case Ok(threads) =>
        if !page.hasNextPage then Ok(threads)
        else if page.endCursor.None? || page.endCursor == cursor then Err(DidNotAdvance)
        else After(threads, Threads(page.endCursor, answers[1..]))
  }

  method FetchPageThreads<C>(nodes: seq<Node<C>>) returns (r: Result<seq<Thread<C>>, FetchError>)
    ensures r == PageThreads(nodes)
  {
    hide After, Comments;
    var threads: seq<Thread<C>> := [];
    AfterNothing(PageThreads(nodes));
    for i := 0 to |nodes|
      invariant PageThreads(nodes) == After(threads, PageThreads(nodes[i..]))
    {
      var comments := FetchComments(nodes[i].first, nodes[i].answers);
      assert nodes[i..][1..] == nodes[i + 1..];
      if comments.Err? {
        AfterError(threads, comments.error);
        return Err(comments.error);
      }
      var thread := [Thread(nodes[i].id, comments.value)];
      AfterTwice(threads, thread, PageThreads(nodes[i + 1..]));
      threads := threads + thread;
    }
    AfterLast(threads);
    return Ok(threads);
  }

  /** `fetch_pull_request_review_threads`. */
  method FetchReviewThreads<C>(answers: ThreadAnswers<C>) returns (r: Result<seq<Thread<C>>, FetchError>)
    ensures r == Threads(None, answers)
  {
    hide After, PageThreads;
    var result: seq<Thread<C>> := [];
    var cursor: Option<string> := None;
    var asked := 0;
    assert answers[0..] == answers;
    AfterNothing(Threads(None, answers));
    while true
      invariant asked <= |answers|
      invariant Threads(None, answers) == After(result, Threads(cursor, answers[asked..]))
      decreases |answers| - asked
    {
      if asked == |answers| {
        AfterError(result, Unanswered);
        return Err(Unanswered);
      }
      var page := answers[asked](cursor);
      var threads := FetchPageThreads(page.nodes);
      assert answers[asked..][1..] == answers[asked + 1..];
      if threads.Err? {
        AfterError(result, threads.error);
        return Err(threads.error);
      }
      if !page.hasNextPage {
        AfterOk(result, threads.value);
        return Ok(result + threads.value);
      }
      if page.endCursor.None? || page.endCursor == cursor {
        AfterError(result, DidNotAdvance);
        return Err(DidNotAdvance);
      }
      AfterTwice(result, threads.value, Threads(page.endCursor, answers[asked + 1..]));
      result, cursor, asked := result + threads.value, page.endCursor, asked + 1;
    }
  }

  // ---------------------------------------------------------------------------------------
  // What the outer loop does with any server.

  /** A page of threads comes back exactly when every thread's comments do, and each with its own. */
  lemma {:induction false} PageThreadsExactlyWhen<C>(nodes: seq<Node<C>>, threads: seq<Thread<C>>)
    ensures PageThreads(nodes) == Ok(threads) <==>
      && |threads| == |nodes|
      && forall i :: 0 <= i < |nodes| ==>
           threads[i].id == nodes[i].id && Comments(nodes[i].first, nodes[i].answers) == Ok(threads[i].comments)
  {
    hide Comments;
    if nodes == [] {
    } else if threads == [] {
      assert PageThreads(nodes) != Ok(threads);
    } else {
      PageThreadsExactlyWhen(nodes[1..], threads[1..]);
      assert threads == [threads[0]] + threads[1..];
      assert forall i :: 0 < i < |nodes| ==> nodes[i] == nodes[1..][i - 1];
      assert forall i :: 0 < i < |threads| ==> threads[i] == threads[1..][i - 1];
    }
  }

  /** This thread is the first of its page whose comments fail, with this error. */
  ghost predicate FailsFirst<C>(nodes: seq<Node<C>>, i: nat, e: FetchError)
    requires i < |nodes|
  {
    && Comments(nodes[i].first, nodes[i].answers) == Err(e)
    && forall j :: 0 <= j < i ==> Comments(nodes[j].first, nodes[j].answers).Ok?
  }

  /** A page of threads fails exactly as its first failing thread does. */
  lemma {:induction false} PageFailsExactlyWhen<C>(nodes: seq<Node<C>>, e: FetchError)
    ensures PageThreads(nodes) == Err(e) <==> exists i :: 0 <= i < |nodes| && FailsFirst(nodes, i, e)
  {
    hide Comments;
    if nodes == [] {
    } else {
      var rest := nodes[1..];
      PageFailsExactlyWhen(rest, e);
      assert forall i :: 0 < i < |nodes| ==> nodes[i] == rest[i - 1];
      if Comments(nodes[0].first, nodes[0].answers).Ok? {
        forall i | 0 < i < |nodes|
          ensures FailsFirst(nodes, i, e) <==> FailsFirst(rest, i - 1, e)
        {
          assert forall j :: 0 <= j < i - 1 ==> rest[j] == nodes[j + 1];
        }
        if PageThreads(nodes) == Err(e) {
          var i :| 0 <= i < |rest| && FailsFirst(rest, i, e);
          assert FailsFirst(nodes, i + 1, e);
        }
      } else {
        assert Comments(nodes[0].first, nodes[0].answers) == Err(e) ==> FailsFirst(nodes, 0, e);
      }
    }
  }

  /** A request of the outer loop: the cursor it asks with, and the page it gets. */
  datatype Asked<!C> = Asked(cursor: Option<string>, page: Connection<Node<C>>)

  /** The outer loop goes on from this page. */
  ghost predicate GoesOn<C>(asked: Asked<C>) {
    && PageThreads(asked.page.nodes).Ok? && asked.page.hasNextPage
    && asked.page.endCursor.Some? && asked.page.endCursor != asked.cursor
  }

  /** The `n`-th request, if it comes to that. */
  ghost function AskedAt<C>(answers: ThreadAnswers<C>, n: nat): Option<Asked<C>>
    requires n < |answers|
  {
    if n == 0 then Some(Asked(None, answers[0](None)))
    else
      match AskedAt(answers, n - 1)
      case None => None
      case Some(asked) =>
        if GoesOn(asked) then Some(Asked(asked.page.endCursor, answers[n](asked.page.endCursor))) else None
  }

  /** The threads of the pages before it, in order. */
  ghost function ThreadsBefore<C>(answers: ThreadAnswers<C>, n: nat): seq<Thread<C>>
    requires n < |answers|
  {
    if n == 0 then []
    else
      ThreadsBefore(answers, n - 1)
      + match AskedAt(answers, n - 1)
        case None => []
        case Some(asked) => match PageThreads(asked.page.nodes) case Ok(threads) => threads case Err(_) => []
  }

  lemma {:induction false} ThreadsUnrolled<C>(answers: ThreadAnswers<C>, n: nat)
    requires n < |answers| && AskedAt(answers, n).Some?
    ensures Threads(None, answers)
      == After(ThreadsBefore(answers, n), Threads(AskedAt(answers, n).value.cursor, answers[n..]))
    ensures answers[n](AskedAt(answers, n).value.cursor) == AskedAt(answers, n).value.page
  {
    hide PageThreads;
    if n == 0 {
      assert answers[0..] == answers;
      AfterNothing(Threads(None, answers));
    } else {
      ThreadsUnrolled(answers, n - 1);
      var asked := AskedAt(answers, n - 1).value;
      assert answers[n - 1..][1..] == answers[n..];
      AfterTwice(
        ThreadsBefore(answers, n - 1), PageThreads(asked.page.nodes).value,
        Threads(asked.page.endCursor, answers[n..]));
    }
  }

  ghost predicate LastPageAt<C>(answers: ThreadAnswers<C>, n: nat)
    requires n < |answers|
  {
    && AskedAt(answers, n).Some?
    && PageThreads(AskedAt(answers, n).value.page.nodes).Ok? && !AskedAt(answers, n).value.page.hasNextPage
  }

  /** A page whose threads all came, announcing more, but without a cursor or with the one it was asked with. */
  ghost predicate StallsAt<C>(answers: ThreadAnswers<C>, n: nat)
    requires n < |answers|
  {
    && AskedAt(answers, n).Some?
    && var asked := AskedAt(answers, n).value;
       && PageThreads(asked.page.nodes).Ok? && asked.page.hasNextPage
       && (asked.page.endCursor.None? || asked.page.endCursor == asked.cursor)
  }

  ghost predicate PageFailsAt<C>(answers: ThreadAnswers<C>, n: nat, e: FetchError)
    requires n < |answers|
  {
    AskedAt(answers, n).Some? && PageThreads(AskedAt(answers, n).value.page.nodes) == Err(e)
  }

  /** Every answer was used and the loop would ask again. */
  ghost predicate StillAsking<C>(answers: ThreadAnswers<C>) {
    answers == [] || (AskedAt(answers, |answers| - 1).Some? && GoesOn(AskedAt(answers, |answers| - 1).value))
  }

  /** What the outer loop makes of a page it does not go on from. */
  lemma ThreadsStop<C>(answers: ThreadAnswers<C>, n: nat)
    requires n < |answers| && AskedAt(answers, n).Some?
    ensures LastPageAt(answers, n) ==>
      Threads(None, answers) == Ok(ThreadsBefore(answers, n) + PageThreads(AskedAt(answers, n).value.page.nodes).value)
    ensures StallsAt(answers, n) ==> Threads(None, answers) == Err(DidNotAdvance)
    ensures forall e :: PageFailsAt(answers, n, e) ==> Threads(None, answers) == Err(e)
    ensures n == |answers| - 1 && GoesOn(AskedAt(answers, n).value) ==> Threads(None, answers) == Err(Unanswered)
  {
    hide PageThreads;
    ThreadsUnrolled(answers, n);
  }

  lemma {:induction false} ThreadsChainEnds<C>(answers: ThreadAnswers<C>, from: nat) returns (n: nat)
    requires from < |answers| && AskedAt(answers, from).Some?
    ensures n < |answers| && AskedAt(answers, n).Some?
    ensures n == |answers| - 1 || !GoesOn(AskedAt(answers, n).value)
    decreases |answers| - from
  {
    hide PageThreads;
    if from < |answers| - 1 && GoesOn(AskedAt(answers, from).value) {
      n := ThreadsChainEnds(answers, from + 1);
    } else {
      n := from;
    }
  }

  /** Where the outer loop stops, and with what. */
  lemma ThreadsOutcome<C>(answers: ThreadAnswers<C>) returns (n: nat)
    requires answers != []
    ensures n < |answers| && AskedAt(answers, n).Some?
    ensures var r := Threads(None, answers);
      && (r.Ok? ==>
            LastPageAt(answers, n)
            && r.value == ThreadsBefore(answers, n) + PageThreads(AskedAt(answers, n).value.page.nodes).value)
      && (r.Err? && !PageFailsAt(answers, n, r.error) ==>
            || (r.error == DidNotAdvance && StallsAt(answers, n))
            || (r.error == Unanswered && n == |answers| - 1 && GoesOn(AskedAt(answers, n).value)))
  {
    hide PageThreads, Threads, ThreadsBefore;
    n := ThreadsChainEnds(answers, 0);
    ThreadsStop(answers, n);
    var r := PageThreads(AskedAt(answers, n).value.page.nodes);
    if r.Err? {
      assert PageFailsAt(answers, n, r.error);
    }
  }

  /**
    Whatever the servers do, the outer loop succeeds exactly when advancing cursors lead to a last page
    and no thread on the way fails.
   */
  lemma ThreadsExactlyWhen<C>(answers: ThreadAnswers<C>, all: seq<Thread<C>>)
    ensures Threads(None, answers) == Ok(all) <==>
      exists n :: 0 <= n < |answers| && LastPageAt(answers, n)
        && all == ThreadsBefore(answers, n) + PageThreads(AskedAt(answers, n).value.page.nodes).value
  {
    hide PageThreads, ThreadsBefore, AskedAt;
    if answers != [] {
      var n := ThreadsOutcome(answers);
    }
    forall n | 0 <= n < |answers| && LastPageAt(answers, n)
      ensures Threads(None, answers)
        == Ok(ThreadsBefore(answers, n) + PageThreads(AskedAt(answers, n).value.page.nodes).value)
    {
      ThreadsStop(answers, n);
    }
  }

  /**
    It fails as the first failing thread does, reports threads that do not advance exactly when a page it
    reaches announces more without a new cursor, and otherwise goes on for as long as it is answered.
   */
  lemma ThreadErrorsExactlyWhen<C>(answers: ThreadAnswers<C>, e: FetchError)
    ensures Threads(None, answers) == Err(e) <==>
      || (exists n :: 0 <= n < |answers| && PageFailsAt(answers, n, e))
      || (e == DidNotAdvance && exists n :: 0 <= n < |answers| && StallsAt(answers, n))
      || (e == Unanswered && StillAsking(answers))
  {
    hide PageThreads, ThreadsBefore, AskedAt;
    if answers != [] {
      var n := ThreadsOutcome(answers);
      if StillAsking(answers) {
        ThreadsStop(answers, |answers| - 1);
      }
    }
    forall n | 0 <= n < |answers| && (PageFailsAt(answers, n, e) || (e == DidNotAdvance && StallsAt(answers, n)))
      ensures Threads(None, answers) == Err(e)
    {
      ThreadsStop(answers, n);
    }
  }

  // ---------------------------------------------------------------------------------------
  // A server of one unchanging list.

  datatype Names = Names(name: nat -> string, position: string -> nat) {
    ghost predicate Honest() {
      forall i: nat :: position(name(i)) == i
    }
  }

  /** The first hundred elements after a position, as a GraphQL connection. */
  function Connect<T>(items: seq<T>, names: Names, from: nat): Connection<T> {
    var start, end := Min(from, |items|), Min(from + 100, |items|);
    Connection(items[start..end], end < |items|, if start < end then Some(names.name(end)) else None)
  }

  ghost predicate ServesComments<C>(answers: Answers<C>, comments: seq<C>, names: Names) {
    forall i, cursor :: 0 <= i < |answers| ==> answers[i](cursor) == Connect(comments, names, names.position(cursor))
  }

  /** Every comment from the page at `from` on comes back, in order and once. */
  lemma {:induction false} ServedComments<C>(comments: seq<C>, names: Names, from: nat, answers: Answers<C>)
    requires names.Honest() && ServesComments(answers, comments, names)
    requires from <= |comments| <= from + 100 + 100 * |answers|
    ensures Comments(Connect(comments, names, from), answers) == Ok(comments[from..])
    decreases |answers|
  {
    var page := Connect(comments, names, from);
    if page.hasNextPage {
      var next := Connect(comments, names, from + 100);
      assert names.position(names.name(from + 100)) == from + 100;
      assert answers[0](page.endCursor.value) == next;
      if next.hasNextPage {
        assert names.position(names.name(from + 200)) == from + 200;
      }
      ServedComments(comments, names, from + 100, answers[1..]);
      assert comments[from..] == page.nodes + comments[from + 100..];
    } else {
      assert comments[from..] == page.nodes;
    }
  }

  /** A node shows a thread as a server of its comments would. */
  ghost predicate Shows<C>(node: Node<C>, thread: Thread<C>, names: Names) {
    && node.id == thread.id && node.first == Connect(thread.comments, names, 0)
    && ServesComments(node.answers, thread.comments, names) && |thread.comments| <= 100 + 100 * |node.answers|
  }

  ghost predicate ShowsAll<C>(nodes: seq<Node<C>>, threads: seq<Thread<C>>, names: Names) {
    |nodes| == |threads| && forall i :: 0 <= i < |nodes| ==> Shows(nodes[i], threads[i], names)
  }

  lemma {:induction false} ServedPage<C>(nodes: seq<Node<C>>, threads: seq<Thread<C>>, names: Names)
    requires names.Honest() && ShowsAll(nodes, threads, names)
    ensures PageThreads(nodes) == Ok(threads)
  {
    hide Comments, Connect, ServesComments;
    if nodes == [] {
    } else {
      assert Shows(nodes[0], threads[0], names);
      ServedComments(threads[0].comments, names, 0, nodes[0].answers);
      assert threads[0].comments[0..] == threads[0].comments;
      ServedPage(nodes[1..], threads[1..], names);
      assert [threads[0]] + threads[1..] == threads;
    }
  }

  ghost predicate ServesThreads<C>(answers: ThreadAnswers<C>, nodes: seq<Node<C>>, names: Names) {
    forall i, cursor :: 0 <= i < |answers| ==>
      answers[i](cursor) == Connect(nodes, names, match cursor case None => 0 case Some(c) => names.position(c))
  }

  /** Every thread comes back with every comment, and no error is reported. */
  lemma {:induction false} ServedThreads<C>(
    nodes: seq<Node<C>>, threads: seq<Thread<C>>, names: Names, cursor: Option<string>, answers: ThreadAnswers<C>)
    requires names.Honest() && ServesThreads(answers, nodes, names) && ShowsAll(nodes, threads, names)
    requires var from := match cursor case None => 0 case Some(c) => names.position(c);
      from <= |threads| <= 100 * |answers| + from && answers != []
        && (cursor.Some? ==> cursor.value == names.name(from))
    ensures var from := match cursor case None => 0 case Some(c) => names.position(c);
      Threads(cursor, answers) == Ok(threads[from..])
    decreases |answers|
  {
    hide PageThreads, Shows;
    var from := match cursor case None => 0 case Some(c) => names.position(c);
    var end := Min(from + 100, |threads|);
    var page := answers[0](cursor);
    assert page == Connect(nodes, names, from);
    ServedPage(nodes[from..end], threads[from..end], names);
    if page.hasNextPage {
      assert names.position(names.name(end)) == end;
      ServedThreads(nodes, threads, names, page.endCursor, answers[1..]);
      assert threads[from..] == threads[from..end] + threads[end..];
    } else {
      assert threads[from..] == threads[from..end];
    }
  }
}
