/**
  The control flow of main (main.go:97-189) once configuration, console input
  and the three services are given: parse the date, stop when the month has
  no authorized names or the member list cannot be read, fetch the window's
  messages, sort and group them, and build the sheets of the workbook named
  after the month. `Run` fetches as main does, losing the last page, or, when
  asked to keep the last page, with the corrected fetch.
*/
module Pipeline {
  import opened Results
  import opened Text
  import opened Calendar
  import opened Slack
  import opened Pagination
  import opened Grouping
  import opened Report

  datatype RunOutcome =
    | InvalidDate                 // time.Parse failed: the program panics
    | NoAuthorizedNames           // no names for the month: nothing more is fetched
    | MembersFailed(err: string)  // users.list could not be read or decoded
    | Workbook(fileName: string, sheets: seq<Sheet>)

  /** The query of the run for date t: the channel and the reporting window. */
  function QueryFor(channel: string, t: Date): Query
    requires IsCivil(t)
  {
    Query(channel, ReportWindow(t).start, ReportWindow(t).end)
  }

  /**
    The messages the fetch returns for date t: as fetchSlackMessages is written
    the last page is lost; with keepLastPage, the corrected fetch keeps it.
  */
  ghost function FetchedFor(api: Request -> HistoryReply, channel: string, t: Date, keepLastPage: bool): seq<Message>
    requires IsCivil(t) && Terminates(api, QueryFor(channel, t))
  {
    var q := QueryFor(channel, t);
    Gathered(api, q, if keepLastPage then LastCall(api, q) + 1 else LastCall(api, q))
  }

  /**
    What the run needs of its environment once it gets as far as fetching:
    the history service ends its cursor chain, and no message of a sender that
    gets a sheet has a timestamp shorter than seven characters.
  */
  ghost predicate FetchSucceeds(members: seq<Member>, names: seq<UserName>, channel: string,
                                api: Request -> HistoryReply, t: Date, keepLastPage: bool)
    requires IsCivil(t)
  {
    && Terminates(api, QueryFor(channel, t))
    && Renderable(GroupByUser(SortByTs(FetchedFor(api, channel, t, keepLastPage))), members, names)
  }

  /**
    One run of main. `directory` is the name directory keyed by "YYYYMM" (an
    empty list on any failure, as getUserName returns nil); `members` is what
    getMembers returns; `api` answers conversations.history. With keepLastPage
    false this is main as written, which builds the workbook from what
    fetchSlackMessages returns, without the last page; with keepLastPage true
    the run uses the corrected fetch.
  */
  method Run(target: string, directory: string -> seq<UserName>, members: Result<seq<Member>, string>,
             channel: string, api: Request -> HistoryReply,
             formatDate: int -> string, formatClock: int -> string, keepLastPage: bool)
    returns (outcome: RunOutcome, ghost order: seq<string>)
    requires ParseDate(target).Some? && directory(FormatYearMonth(ParseDate(target).value)) != []
             && members.Success?
             ==> FetchSucceeds(members.value, directory(FormatYearMonth(ParseDate(target).value)),
                               channel, api, ParseDate(target).value, keepLastPage)
    ensures ParseDate(target).None? ==> outcome == InvalidDate
    ensures ParseDate(target).Some? && directory(FormatYearMonth(ParseDate(target).value)) == []
            ==> outcome == NoAuthorizedNames
    ensures ParseDate(target).Some? && directory(FormatYearMonth(ParseDate(target).value)) != []
            && members.Failure?
            ==> outcome == MembersFailed(members.error)
    ensures ParseDate(target).Some? && directory(FormatYearMonth(ParseDate(target).value)) != []
            && members.Success?
            ==> var t := ParseDate(target).value;
                var groups := GroupByUser(SortByTs(FetchedFor(api, channel, t, keepLastPage)));
                && IsEnumeration(order, groups.Keys)
                && outcome == Workbook(FormatYearMonth(t) + ".xlsx",
                                       SheetsFor(order, groups, members.value, directory(FormatYearMonth(t)),
                                                 ReportWindow(t).start, formatDate, formatClock))
  {
    order := [];
    var parsed := ParseDate(target);
    if parsed.None? {
      return InvalidDate, order;
    }
    var t := parsed.value;
    var userNameRes := directory(FormatYearMonth(t));
    if |userNameRes| < 1 {
      return NoAuthorizedNames, order;
    }
    if members.Failure? {
      return MembersFailed(members.error), order;
    }
    var window := ReportWindow(t);
    var messages;
    if keepLastPage {
      messages := FetchAllSlackMessages(api, channel, window.start, window.end);
    } else {
      messages := FetchSlackMessages(api, channel, window.start, window.end);
    }
    var groups := GroupByUser(SortByTs(messages));
    var sheets;
    sheets, order := BuildSheets(groups, members.value, userNameRes, window.start, formatDate, formatClock);
    outcome := Workbook(FormatYearMonth(t) + ".xlsx", sheets);
  }

  /**
    Sender u's rows: sorted by `ts`, all fetched, all from u, none before start
    and none so late that its time wraps around.
  */
  predicate RowsOfSender(rows: seq<Message>, messages: seq<Message>, u: string, start: int) {
    && SortedByTs(rows)
    && forall m :: m in rows ==>
         m in messages && m.user == u && |m.ts| >= 7 && start <= TsSeconds(m.ts) <= MaxUnixSeconds
  }

  /**
    The rows kept from a sender's group after sort-then-group are that
    sender's own fetched messages, sorted by `ts`.
  */
  lemma GroupRowsOfSender(messages: seq<Message>, u: string, start: int)
    requires -(Int64Cutoff as int) <= start <= MaxUnixSeconds
    requires exists m :: m in messages && m.user == u
    requires forall m :: m in messages && m.user == u ==> |m.ts| >= 7
    ensures u in GroupByUser(SortByTs(messages)) && TsSliceable(GroupByUser(SortByTs(messages))[u])
    ensures RowsOfSender(Kept(GroupByUser(SortByTs(messages))[u], start), messages, u, start)
  {
    SortThenGroup(messages, u);
    var group := GroupByUser(SortByTs(messages))[u];
    OfUserSender(messages, u);
    forall m | m in group ensures m in messages && m.user == u {
      assert m in multiset(group);
      assert m in multiset(OfUser(messages, u));
    }
    assert TsSliceable(group) by {
      forall i | 0 <= i < |group| ensures |group[i].ts| >= 7 {
        assert group[i] in group;
      }
    }
    KeptSorted(group, start);
    KeptFromGroup(group, start);
    KeptWithinStoredRange(group, start);
  }

  /** A sender with a message in the group of u has all its messages there. */
  lemma SenderMessagesGrouped(messages: seq<Message>, u: string, m: Message)
    requires m in messages && m.user == u
    ensures u in GroupByUser(SortByTs(messages)) && m in GroupByUser(SortByTs(messages))[u]
  {
    SortThenGroup(messages, u);
    OfUserCount(messages, u, m);
    assert m in multiset(OfUser(messages, u));
    assert m in multiset(GroupByUser(SortByTs(messages))[u]);
  }

  /**
    Sheet `sheet` is the one written for sender u: u has a group, the sheet
    carries the real name of an authorized member with id u, and its rows are
    u's own fetched messages at or after start, in non-decreasing `ts` order.
  */
  ghost predicate SheetOfSender(sheet: Sheet, u: string, messages: seq<Message>, members: seq<Member>,
                                names: seq<UserName>, start: int,
                                formatDate: int -> string, formatClock: int -> string)
  {
    var groups := GroupByUser(SortByTs(messages));
    && u in groups && TsSliceable(groups[u])
    && sheet.name != ""
    && (exists i :: 0 <= i < |members| && Eligible(members[i], names, u) && sheet.name == members[i].realName)
    && sheet == RenderSheet(sheet.name, groups[u], start, formatDate, formatClock)
    && RowsOfSender(Kept(groups[u], start), messages, u, start)
  }

  /** The sheet rendered for an authorized sender is that sender's sheet. */
  lemma RenderedSheetOfSender(messages: seq<Message>, u: string, members: seq<Member>,
                              names: seq<UserName>, start: int,
                              formatDate: int -> string, formatClock: int -> string)
    requires -(Int64Cutoff as int) <= start <= MaxUnixSeconds
    requires exists m :: m in messages && m.user == u
    requires forall m :: m in messages && m.user == u ==> |m.ts| >= 7
    requires SheetNameFor(members, names, u) != ""
    ensures u in GroupByUser(SortByTs(messages)) && TsSliceable(GroupByUser(SortByTs(messages))[u])
    ensures SheetOfSender(RenderSheet(SheetNameFor(members, names, u), GroupByUser(SortByTs(messages))[u],
                                      start, formatDate, formatClock),
                          u, messages, members, names, start, formatDate, formatClock)
  {
    SheetNameIsEligible(members, names, u);
    GroupRowsOfSender(messages, u, start);
  }

  /**
    Every sheet of a workbook is the sheet of one authorized sender, for a
    start that time.Time holds exactly, as every window start is
    (Calendar.WindowStartStoredExactly).
  */
  lemma WorkbookSheetsAreAuthorizedSenders(messages: seq<Message>, order: seq<string>, members: seq<Member>,
                                           names: seq<UserName>, start: int,
                                           formatDate: int -> string, formatClock: int -> string, k: int)
    requires -(Int64Cutoff as int) <= start <= MaxUnixSeconds
    requires IsEnumeration(order, GroupByUser(SortByTs(messages)).Keys)
    requires Renderable(GroupByUser(SortByTs(messages)), members, names)
    requires 0 <= k < |SheetsFor(order, GroupByUser(SortByTs(messages)), members, names, start, formatDate, formatClock)|
    ensures exists u :: SheetOfSender(
      SheetsFor(order, GroupByUser(SortByTs(messages)), members, names, start, formatDate, formatClock)[k],
      u, messages, members, names, start, formatDate, formatClock)
  {
    var groups := GroupByUser(SortByTs(messages));
    var sheets := SheetsFor(order, groups, members, names, start, formatDate, formatClock);
    SheetsFromSenders(order, groups, members, names, start, formatDate, formatClock);
    assert sheets[k] in sheets;
    var u :| RendersSender(sheets[k], u, groups, members, names, start, formatDate, formatClock);
    SortThenGroup(messages, u);
    forall m | m in messages && m.user == u ensures |m.ts| >= 7 {
      SenderMessagesGrouped(messages, u, m);
    }
    RenderedSheetOfSender(messages, u, members, names, start, formatDate, formatClock);
  }
}
