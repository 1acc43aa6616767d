/**
  fetchSlackMessages: the cursor-driven loop over conversations.history.
  The service is a function from request to reply; a request is the fixed
  query of the run plus the cursor of the previous reply ("" on the first call,
  when the cursor parameter is left out).
*/
module Pagination {
  import opened Slack

  /** The fixed part of every request: channel and window in Unix seconds. */
  datatype Query = Query(channel: string, start: int, end: int)

  datatype Request = Request(query: Query, cursor: string)

  /** What exeSlackApi returns on call number k (counting from 0). */
  function Page(api: Request -> HistoryReply, q: Query, k: nat): ApiResult
    decreases k, 1
  {
    ExeSlackApi(api(Request(q, CursorSent(api, q, k))))
  }

  /** The cursor presented on call number k. */
  function CursorSent(api: Request -> HistoryReply, q: Query, k: nat): string
    decreases k, 0
  {
    if k == 0 then "" else Page(api, q, k - 1).cursor
  }

  /** Call k returns an empty cursor, which stops the loop. */
  predicate EndsAt(api: Request -> HistoryReply, q: Query, k: nat) {
    Page(api, q, k).cursor == ""
  }

  /** Some call returns an empty cursor; otherwise the source loops for ever. */
  ghost predicate Terminates(api: Request -> HistoryReply, q: Query) {
    exists k: nat :: EndsAt(api, q, k)
  }

  function FirstEndFrom(api: Request -> HistoryReply, q: Query, k: nat, bound: nat): (e: nat)
    requires k <= bound && EndsAt(api, q, bound)
    ensures k <= e <= bound && EndsAt(api, q, e)
    ensures forall j :: k <= j < e ==> !EndsAt(api, q, j)
    decreases bound - k
  {
    if EndsAt(api, q, k) then k else FirstEndFrom(api, q, k + 1, bound)
  }

  /** The number of the call that ends the loop. */
  ghost function LastCall(api: Request -> HistoryReply, q: Query): (e: nat)
    requires Terminates(api, q)
    ensures EndsAt(api, q, e)
    ensures forall j :: 0 <= j < e ==> !EndsAt(api, q, j)
  {
    var bound :| EndsAt(api, q, bound);
    FirstEndFrom(api, q, 0, bound)
  }

  /** The messages of calls 0 .. k-1, in call order. */
  function Gathered(api: Request -> HistoryReply, q: Query, k: nat): seq<Message>
  {
    if k == 0 then [] else Gathered(api, q, k - 1) + Page(api, q, k - 1).messages
  }

  /**
    fetchSlackMessages as written: the loop breaks as soon as a reply carries an
    empty cursor, before that reply's messages are appended. Errors from
    exeSlackApi are dropped, so a failed call ends the loop like a last page,
    and the function never reports an error.
  */
  method FetchSlackMessages(api: Request -> HistoryReply, channel: string, start: int, end: int)
    returns (allMsg: seq<Message>)
    requires Terminates(api, Query(channel, start, end))
    ensures var q := Query(channel, start, end);
      allMsg == Gathered(api, q, LastCall(api, q))
    ensures var q := Query(channel, start, end);
      forall j :: 0 <= j < LastCall(api, q) ==> Page(api, q, j).err.None?
  {
    var q := Query(channel, start, end);
    var cursor := "";
    allMsg := [];
    ghost var k: nat := 0;
    ghost var bound: nat :| EndsAt(api, q, bound);
    while true
      invariant k <= bound
      invariant cursor == CursorSent(api, q, k)
      invariant allMsg == Gathered(api, q, k)
      invariant forall j :: 0 <= j < k ==> !EndsAt(api, q, j)
      decreases bound - k
    {
      var r := ExeSlackApi(api(Request(q, cursor)));
      cursor := r.cursor;
      if |cursor| < 1 {
        break;
      }
      allMsg := allMsg + r.messages;
      k := k + 1;
    }
    LastCallIsFirstEnd(api, q, k);
    forall j | 0 <= j < k
      ensures Page(api, q, j).err.None?
    {
      assert !EndsAt(api, q, j);
    }
  }

  /**
    The loop with the evidently intended order: append the page, then stop on
    an empty cursor, so the last page's messages are kept.
  */
  method FetchAllSlackMessages(api: Request -> HistoryReply, channel: string, start: int, end: int)
    returns (allMsg: seq<Message>)
    requires Terminates(api, Query(channel, start, end))
    ensures var q := Query(channel, start, end);
      allMsg == Gathered(api, q, LastCall(api, q) + 1)
  {
    var q := Query(channel, start, end);
    var cursor := "";
    allMsg := [];
    ghost var k: nat := 0;
    ghost var bound: nat :| EndsAt(api, q, bound);
    while true
      invariant k <= bound
      invariant cursor == CursorSent(api, q, k)
      invariant allMsg == Gathered(api, q, k)
      invariant forall j :: 0 <= j < k ==> !EndsAt(api, q, j)
      decreases bound - k
    {
      var r := ExeSlackApi(api(Request(q, cursor)));
      allMsg := allMsg + r.messages;
      cursor := r.cursor;
      if |cursor| < 1 {
        LastCallIsFirstEnd(api, q, k);
        break;
      }
      k := k + 1;
    }
  }

  /** Every fetched message belongs to some page fetched before call k. */
  lemma {:induction false} GatheredFromPages(api: Request -> HistoryReply, q: Query, k: nat, m: Message)
    requires m in Gathered(api, q, k)
    ensures exists j :: 0 <= j < k && m in Page(api, q, j).messages
  {
    if k > 0 {
      if m !in Page(api, q, k - 1).messages {
        GatheredFromPages(api, q, k - 1, m);
      }
    }
  }

  /** Pages are concatenated in call order: the result of fewer calls is a prefix. */
  lemma {:induction false} GatheredGrows(api: Request -> HistoryReply, q: Query, k: nat, l: nat)
    requires k <= l
    ensures Gathered(api, q, k) <= Gathered(api, q, l)
  {
    if k < l {
      GatheredGrows(api, q, k, l - 1);
    }
  }

  /** The loop stops on the first call that returns an empty cursor. */
  lemma LastCallIsFirstEnd(api: Request -> HistoryReply, q: Query, k: nat)
    requires EndsAt(api, q, k)
    requires forall j :: 0 <= j < k ==> !EndsAt(api, q, j)
    ensures Terminates(api, q) && LastCall(api, q) == k
  {
  }

  /** A failed call ends the loop: nothing after it is requested. */
  lemma FailedCallIsLast(api: Request -> HistoryReply, q: Query, k: nat)
    requires Page(api, q, k).err.Some?
    requires forall j :: 0 <= j < k ==> !EndsAt(api, q, j)
    ensures Terminates(api, q) && LastCall(api, q) == k
  {
    LastCallIsFirstEnd(api, q, k);
  }

  /** A service that answers every request with one last page holding m. */
  function OnePageService(m: Message): Request -> HistoryReply {
    (r: Request) => Decoded(HistoryResponse(true, [m], "", "", ""))
  }

  /**
    The as-written loop loses the last page: on a single-page channel it
    returns nothing, while the corrected loop returns the page's message.
  */
  lemma LastPageDropped(m: Message, q: Query)
    ensures Terminates(OnePageService(m), q) && LastCall(OnePageService(m), q) == 0
    ensures Gathered(OnePageService(m), q, LastCall(OnePageService(m), q)) == []
    ensures Gathered(OnePageService(m), q, LastCall(OnePageService(m), q) + 1) == [m]
  {
    var api := OnePageService(m);
    assert Page(api, q, 0).messages == [m];
    assert EndsAt(api, q, 0);
  }

  /** The corrected loop returns the as-written result plus the terminating page. */
  lemma CorrectedKeepsLastPage(api: Request -> HistoryReply, q: Query)
    requires Terminates(api, q)
    ensures Gathered(api, q, LastCall(api, q) + 1)
         == Gathered(api, q, LastCall(api, q)) + Page(api, q, LastCall(api, q)).messages
  {
  }
}
