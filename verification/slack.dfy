/**
  The records the program reads from the chat and directory services, and the
  decision `exeSlackApi` takes on one conversations.history reply.
*/
module Slack {
  import opened Results
  import opened Text

  /** One chat message; `ts` is "seconds.microseconds", e.g. "1700000000.123456". */
  datatype Message = Message(
    msgType: string,
    user: string,
    text: string,
    ts: string,
    threadTs: string,
    replyCount: int)

  /** One workspace member from users.list. */
  datatype Member = Member(id: string, name: string, realName: string)

  /** One authorized name from the per-month name directory. */
  datatype UserName = UserName(name: string)

  /** The decoded body of a conversations.history reply. */
  datatype HistoryResponse = HistoryResponse(
    ok: bool,
    messages: seq<Message>,
    error: string,
    needed: string,
    nextCursor: string)

  /**
    What one HTTP exchange yields: a transport failure, a body that does not
    decode as JSON, or a decoded response.
  */
  datatype HistoryReply =
    | TransportFailed(reason: string)
    | Undecodable(reason: string)
    | Decoded(response: HistoryResponse)

  /** The triple (messages, cursor, error) that exeSlackApi returns. */
  datatype ApiResult = ApiResult(messages: seq<Message>, cursor: string, err: Option<string>)

  /** The text of fmt.Errorf("slack API error: %s, needed: %s", error, needed). */
  function UpstreamErrorText(error: string, needed: string): string {
    "slack API error: " + error + ", needed: " + needed
  }

  predicate Contains(s: string, part: string) {
    exists i :: 0 <= i <= |s| && HasPrefix(s[i..], part)
  }

  /**
    exeSlackApi: any failure gives no messages, an empty cursor and an error;
    a decoded reply with ok == false gives the upstream error text.
  */
  function ExeSlackApi(reply: HistoryReply): (r: ApiResult)
    ensures r.err.None? <==> reply.Decoded? && reply.response.ok
    ensures r.err.Some? ==> r.messages == [] && r.cursor == ""
    ensures r.err.None? ==> r.messages == reply.response.messages && r.cursor == reply.response.nextCursor
  {
    match reply
    case TransportFailed(reason) => ApiResult([], "", Some(reason))
    case Undecodable(reason) => ApiResult([], "", Some(reason))
    case Decoded(resp) =>
      if !resp.ok then ApiResult([], "", Some(UpstreamErrorText(resp.error, resp.needed)))
      else ApiResult(resp.messages, resp.nextCursor, None)
  }

  /** A reply with ok == false is reported with both its `error` and its `needed` values. */
  lemma UpstreamErrorNamesBoth(resp: HistoryResponse)
    requires !resp.ok
    ensures ExeSlackApi(Decoded(resp)).err.Some?
    ensures Contains(ExeSlackApi(Decoded(resp)).err.value, resp.error)
    ensures Contains(ExeSlackApi(Decoded(resp)).err.value, resp.needed)
  {
    var prefix := "slack API error: ";
    var middle := ", needed: ";
    var text := UpstreamErrorText(resp.error, resp.needed);
    assert text == prefix + resp.error + middle + resp.needed;
    var i := |prefix|;
    assert text[i..][..|resp.error|] == resp.error;
    var j := |prefix| + |resp.error| + |middle|;
    assert text[j..] == resp.needed;
  }

  /**
    The whole seconds of a timestamp: the text with its last seven characters
    (".micros") cut off, parsed as a decimal int64 with the error ignored.
    Slicing a shorter text panics in the source, hence the precondition.
  */
  function TsSeconds(ts: string): (seconds: int)
    requires |ts| >= 7
    ensures -(Int64Cutoff as int) <= seconds < Int64Cutoff
  {
    ParseInt64(ts[..|ts| - 7])
  }

  /** A well-formed timestamp yields exactly its whole seconds. */
  lemma TsSecondsOfSlackTimestamp(seconds: nat, micros: string)
    requires seconds < Int64Cutoff && |micros| == 6
    ensures |Decimal(seconds) + "." + micros| >= 7
    ensures TsSeconds(Decimal(seconds) + "." + micros) == seconds
  {
    var ts := Decimal(seconds) + "." + micros;
    assert ts[..|ts| - 7] == Decimal(seconds);
    ParseInt64Decimal(seconds);
  }
}
