/**
  The aggregation loop of main (main.go:137-183): for each sender group,
  resolve the sheet name from the member list and the authorized names, skip
  the group when no name results, and otherwise build the date, time and text
  columns from the group's messages at or after the window start. Writing the
  columns into the workbook is left to the spreadsheet library; the model
  stops at the sequence of sheets in the order they are written.
*/
module Report {
  import opened Text
  import opened Calendar
  import opened Slack
  import opened Grouping

  // ---- sheet name: main.go:140-152 ----

  /** Some authorized name is a prefix of realName. */
  predicate Authorizes(names: seq<UserName>, realName: string) {
    exists i :: 0 <= i < |names| && HasPrefix(realName, names[i].name)
  }

  /** Member m is the sender and carries an authorized real name. */
  predicate Eligible(m: Member, names: seq<UserName>, sender: string) {
    m.id == sender && Authorizes(names, m.realName)
  }

  /** The value sheetName holds after the member loop: the last eligible member's real name, "" if none. */
  function SheetNameFor(members: seq<Member>, names: seq<UserName>, sender: string): string
  {
    if members == [] then ""
    else if Eligible(members[|members| - 1], names, sender) then members[|members| - 1].realName
    else SheetNameFor(members[..|members| - 1], names, sender)
  }

  /** The nested loops over members and authorized names that set sheetName. */
  method ResolveSheetName(members: seq<Member>, names: seq<UserName>, sender: string)
    returns (sheetName: string)
    ensures sheetName == SheetNameFor(members, names, sender)
  {
    sheetName := "";
    var k := 0;
    while k < |members|
      invariant 0 <= k <= |members|
      invariant sheetName == SheetNameFor(members[..k], names, sender)
    {
      var v := members[k];
      assert members[..k + 1][..k] == members[..k];
      if v.id == sender {
        var i := 0;
        while i < |names|
          invariant 0 <= i <= |names|
          invariant sheetName == if exists j :: 0 <= j < i && HasPrefix(v.realName, names[j].name)
                                 then v.realName
                                 else SheetNameFor(members[..k], names, sender)
        {
          if HasPrefix(v.realName, names[i].name) {
            sheetName := v.realName;
          }
          i := i + 1;
        }
      }
      k := k + 1;
    }
    assert members[..k] == members;
  }

  /** A non-empty sheet name is the real name of an eligible member. */
  lemma {:induction false} SheetNameIsEligible(members: seq<Member>, names: seq<UserName>, sender: string)
    ensures SheetNameFor(members, names, sender) == ""
         || exists i :: 0 <= i < |members| && Eligible(members[i], names, sender)
                     && SheetNameFor(members, names, sender) == members[i].realName
  {
    if members != [] {
      var init := members[..|members| - 1];
      if !Eligible(members[|members| - 1], names, sender) {
        SheetNameIsEligible(init, names, sender);
        if SheetNameFor(init, names, sender) != "" {
          var i :| 0 <= i < |init| && Eligible(init[i], names, sender)
                   && SheetNameFor(init, names, sender) == init[i].realName;
          assert members[i] == init[i];
        }
      }
    }
  }

  /** The last eligible member decides the sheet name; with none, there is no sheet. */
  lemma {:induction false} SheetNameOfLastEligible(members: seq<Member>, names: seq<UserName>, sender: string, i: int)
    requires i == -1 || (0 <= i < |members| && Eligible(members[i], names, sender))
    requires forall j :: i < j < |members| ==> !Eligible(members[j], names, sender)
    ensures SheetNameFor(members, names, sender) == if i == -1 then "" else members[i].realName
  {
    if members != [] && i != |members| - 1 {
      var init := members[..|members| - 1];
      assert !Eligible(members[|members| - 1], names, sender);
      SheetNameOfLastEligible(init, names, sender, i);
    }
  }

  /**
    With member ids unique, a group gets a sheet exactly when its sender's
    member has an authorized, non-empty real name, and the sheet is named by it.
  */
  lemma {:induction false} SheetNameWithUniqueIds(members: seq<Member>, names: seq<UserName>, sender: string)
    requires forall i, j :: 0 <= i < j < |members| ==> members[i].id != members[j].id
    ensures SheetNameFor(members, names, sender) != ""
        <==> exists i :: 0 <= i < |members| && Eligible(members[i], names, sender) && members[i].realName != ""
    ensures forall i :: 0 <= i < |members| && Eligible(members[i], names, sender) ==>
              SheetNameFor(members, names, sender) == members[i].realName
  {
    SheetNameIsEligible(members, names, sender);
    forall i | 0 <= i < |members| && Eligible(members[i], names, sender)
      ensures SheetNameFor(members, names, sender) == members[i].realName
    {
      SheetNameOfLastEligible(members, names, sender, i);
    }
  }

  // ---- rows: main.go:160-177 ----

  /** Every timestamp can be cut before its last seven characters. */
  predicate TsSliceable(group: seq<Message>) {
    forall i :: 0 <= i < |group| ==> |group[i].ts| >= 7
  }

  /** The messages that survive `if dtFromUnix.Before(start) { continue }`, in group order. */
  function Kept(group: seq<Message>, start: int): (r: seq<Message>)
    requires TsSliceable(group)
    ensures TsSliceable(r) && |r| <= |group|
  {
    if group == [] then []
    else
      var last := group[|group| - 1];
      var rest := Kept(group[..|group| - 1], start);
      if UnixBefore(TsSeconds(last.ts), start) then rest else rest + [last]
  }

  function DateColumn(kept: seq<Message>, formatDate: int -> string): (c: seq<string>)
    requires TsSliceable(kept)
  {
    seq(|kept|, k requires 0 <= k < |kept| => formatDate(TsSeconds(kept[k].ts)))
  }

  function ClockColumn(kept: seq<Message>, formatClock: int -> string): (c: seq<string>)
    requires TsSliceable(kept)
  {
    seq(|kept|, k requires 0 <= k < |kept| => formatClock(TsSeconds(kept[k].ts)))
  }

  function TextColumn(kept: seq<Message>): (c: seq<string>)
  {
    seq(|kept|, k requires 0 <= k < |kept| => kept[k].text)
  }

  /** Every kept message is a group message not before start. */
  lemma {:induction false} KeptFromGroup(group: seq<Message>, start: int)
    requires TsSliceable(group)
    ensures forall m :: m in Kept(group, start) ==> m in group && !UnixBefore(TsSeconds(m.ts), start)
  {
    if group != [] {
      var init := group[..|group| - 1];
      KeptFromGroup(init, start);
      assert group == init + [group[|group| - 1]];
    }
  }

  /**
    The filter drops exactly the messages before start: each kept message
    occurs as often as in the group, each dropped one not at all.
  */
  lemma {:induction false} KeptCount(group: seq<Message>, start: int, x: Message)
    requires TsSliceable(group) && |x.ts| >= 7
    ensures multiset(Kept(group, start))[x] == if UnixBefore(TsSeconds(x.ts), start) then 0 else multiset(group)[x]
  {
    if group != [] {
      var init, last := group[..|group| - 1], group[|group| - 1];
      var keep := KeptStep(group, start);
      KeptCount(init, start, x);
      assert group == init + [last];
      CountAfterAppend(init, last, x, true);
      CountAfterAppend(Kept(init, start), last, x, keep);
    }
  }

  /** One step of the filter: the last message is appended to the rows kept before it, or dropped. */
  lemma KeptStep(group: seq<Message>, start: int) returns (keep: bool)
    requires TsSliceable(group) && group != []
    ensures TsSliceable(group[..|group| - 1])
    ensures keep == !UnixBefore(TsSeconds(group[|group| - 1].ts), start)
    ensures Kept(group, start) == if keep then Kept(group[..|group| - 1], start) + [group[|group| - 1]]
                                  else Kept(group[..|group| - 1], start)
  {
    keep := !UnixBefore(TsSeconds(group[|group| - 1].ts), start);
  }

  /** Appending m, or not, changes how often x occurs by one exactly when m is x and is appended. */
  lemma CountAfterAppend(s: seq<Message>, m: Message, x: Message, append: bool)
    ensures multiset(if append then s + [m] else s)[x] == multiset(s)[x] + if append && m == x then 1 else 0
  {
    if append {
      assert multiset(s + [m]) == multiset(s) + multiset{m};
    }
  }

  /**
    For a start that time.Time holds exactly (every window start is one), the
    filter keeps precisely the group messages from start up to MaxUnixSeconds.
  */
  lemma KeptWithinStoredRange(group: seq<Message>, start: int)
    requires TsSliceable(group)
    requires -(Int64Cutoff as int) <= start <= MaxUnixSeconds
    ensures forall m :: m in Kept(group, start) ==> start <= TsSeconds(m.ts) <= MaxUnixSeconds
    ensures forall m :: m in group && start <= TsSeconds(m.ts) <= MaxUnixSeconds ==> m in Kept(group, start)
  {
    forall m | m in group
      ensures m in Kept(group, start) <==> start <= TsSeconds(m.ts) <= MaxUnixSeconds
    {
      KeptCount(group, start, m);
      UnixBeforeIff(TsSeconds(m.ts), start);
      assert m in multiset(group);
    }
    KeptFromGroup(group, start);
  }

  /**
    A message whose seconds lie past MaxUnixSeconds, among them every `ts`
    whose whole part overflows int64 and saturates, gives no row: its
    internal count wraps around to a time long before any window start.
  */
  lemma SaturatedSecondsDropped(m: Message, start: int)
    requires |m.ts| >= 7 && MaxUnixSeconds < TsSeconds(m.ts)
    requires -(Int64Cutoff as int) <= start <= MaxUnixSeconds
    ensures Kept([m], start) == []
  {
    UnixBeforeIff(TsSeconds(m.ts), start);
    assert [m][..0] == [];
  }

  /** a is b with some elements left out, the rest in their order. */
  predicate IsSubsequence(a: seq<Message>, b: seq<Message>) {
    a == [] ||
    (b != [] &&
     ((a[|a| - 1] == b[|b| - 1] && IsSubsequence(a[..|a| - 1], b[..|b| - 1]))
      || IsSubsequence(a, b[..|b| - 1])))
  }

  /** The filter keeps the relative order of the group. */
  lemma {:induction false} KeptIsSubsequence(group: seq<Message>, start: int)
    requires TsSliceable(group)
    ensures IsSubsequence(Kept(group, start), group)
  {
    if group != [] {
      var init := group[..|group| - 1];
      var last := group[|group| - 1];
      KeptIsSubsequence(init, start);
      var rest := Kept(init, start);
      if !UnixBefore(TsSeconds(last.ts), start) {
        assert (rest + [last])[..|rest|] == rest;
      }
    }
  }

  /** Rows keep the ascending timestamp order of a sorted group. */
  lemma {:induction false} KeptSorted(group: seq<Message>, start: int)
    requires TsSliceable(group) && SortedByTs(group)
    ensures SortedByTs(Kept(group, start))
  {
    if group != [] {
      var init := group[..|group| - 1];
      var last := group[|group| - 1];
      assert SortedByTs(init);
      KeptSorted(init, start);
      KeptFromGroup(init, start);
      var rest := Kept(init, start);
      if !UnixBefore(TsSeconds(last.ts), start) {
        forall i | 0 <= i < |rest| ensures TsNoLater(rest[i], last) {
          var j :| 0 <= j < |init| && init[j] == rest[i];
        }
      }
    }
  }

  lemma ColumnsAppend(kept: seq<Message>, m: Message, formatDate: int -> string, formatClock: int -> string)
    requires TsSliceable(kept) && |m.ts| >= 7
    ensures TsSliceable(kept + [m])
    ensures DateColumn(kept + [m], formatDate) == DateColumn(kept, formatDate) + [formatDate(TsSeconds(m.ts))]
    ensures ClockColumn(kept + [m], formatClock) == ClockColumn(kept, formatClock) + [formatClock(TsSeconds(m.ts))]
    ensures TextColumn(kept + [m]) == TextColumn(kept) + [m.text]
  {
  }

  /** The inner row loop: three parallel columns of the messages not before start. */
  method BuildRows(group: seq<Message>, start: int, formatDate: int -> string, formatClock: int -> string)
    returns (yyyymmdd: seq<string>, hhmmss: seq<string>, slice: seq<string>)
    requires TsSliceable(group)
    ensures yyyymmdd == DateColumn(Kept(group, start), formatDate)
    ensures hhmmss == ClockColumn(Kept(group, start), formatClock)
    ensures slice == TextColumn(Kept(group, start))
  {
    yyyymmdd, hhmmss, slice := [], [], [];
    var i := 0;
    while i < |group|
      invariant 0 <= i <= |group|
      invariant TsSliceable(group[..i])
      invariant yyyymmdd == DateColumn(Kept(group[..i], start), formatDate)
      invariant hhmmss == ClockColumn(Kept(group[..i], start), formatClock)
      invariant slice == TextColumn(Kept(group[..i], start))
    {
      ghost var before := Kept(group[..i], start);
      assert group[..i + 1][..i] == group[..i];
      assert TsSliceable(group[..i + 1]);
      var msg := group[i].ts;
      var c := ParseInt64(msg[..|msg| - 7]);
      if UnixBefore(c, start) {
        assert Kept(group[..i + 1], start) == before;
        i := i + 1;
        continue;
      }
      ColumnsAppend(before, group[i], formatDate, formatClock);
      yyyymmdd := yyyymmdd + [formatDate(c)];
      hhmmss := hhmmss + [formatClock(c)];
      slice := slice + [group[i].text];
      assert Kept(group[..i + 1], start) == before + [group[i]];
      i := i + 1;
    }
    assert group[..i] == group;
  }

  // ---- sheets: main.go:139-183 ----

  /** The cells written to one sheet: three columns from A1, B1 and C1. */
  datatype Sheet = Sheet(name: string, dates: seq<string>, clocks: seq<string>, texts: seq<string>)

  /** The sheet for one group; every row comes from a group message not before start. */
  function RenderSheet(name: string, group: seq<Message>, start: int,
                       formatDate: int -> string, formatClock: int -> string): (s: Sheet)
    requires TsSliceable(group)
    ensures s.name == name
    ensures |s.dates| == |s.clocks| == |s.texts|
    ensures forall k :: 0 <= k < |s.texts| ==>
      exists m :: m in group && |m.ts| >= 7 && !UnixBefore(TsSeconds(m.ts), start)
        && s.texts[k] == m.text && s.dates[k] == formatDate(TsSeconds(m.ts))
        && s.clocks[k] == formatClock(TsSeconds(m.ts))
  {
    var kept := Kept(group, start);
    KeptFromGroup(group, start);
    var s := Sheet(name, DateColumn(kept, formatDate), ClockColumn(kept, formatClock), TextColumn(kept));
    assert forall k :: 0 <= k < |s.texts| ==> kept[k] in group && !UnixBefore(TsSeconds(kept[k].ts), start);
    s
  }

  /** Map iteration order: every key exactly once. */
  ghost predicate IsEnumeration(order: seq<string>, keys: set<string>) {
    && (forall u :: u in order <==> u in keys)
    && (forall i, j :: 0 <= i < j < |order| ==> order[i] != order[j])
  }

  /** The groups that get a sheet can all be rendered (no timestamp shorter than seven characters). */
  predicate Renderable(groups: map<string, seq<Message>>, members: seq<Member>, names: seq<UserName>) {
    forall u :: u in groups && SheetNameFor(members, names, u) != "" ==> TsSliceable(groups[u])
  }

  /** The sheets written when the groups are visited in the given order. */
  function SheetsFor(order: seq<string>, groups: map<string, seq<Message>>, members: seq<Member>,
                     names: seq<UserName>, start: int,
                     formatDate: int -> string, formatClock: int -> string): seq<Sheet>
    requires forall u :: u in order ==> u in groups
    requires Renderable(groups, members, names)
  {
    if order == [] then []
    else
      var u := order[|order| - 1];
      var prev := SheetsFor(order[..|order| - 1], groups, members, names, start, formatDate, formatClock);
      var name := SheetNameFor(members, names, u);
      if name == "" then prev
      else prev + [RenderSheet(name, groups[u], start, formatDate, formatClock)]
  }

  /**
    The outer loop over the sender groups. Go visits map entries in an
    unspecified order, so each step takes any key not yet visited; `order`
    records the order taken.
  */
  method BuildSheets(groups: map<string, seq<Message>>, members: seq<Member>,
                     names: seq<UserName>, start: int,
                     formatDate: int -> string, formatClock: int -> string)
    returns (sheets: seq<Sheet>, ghost order: seq<string>)
    requires Renderable(groups, members, names)
    ensures IsEnumeration(order, groups.Keys)
    ensures sheets == SheetsFor(order, groups, members, names, start, formatDate, formatClock)
    ensures forall sheet :: sheet in sheets ==>
      exists u :: RendersSender(sheet, u, groups, members, names, start, formatDate, formatClock)
    ensures forall u :: u in groups && SheetNameFor(members, names, u) != "" ==>
      RenderSheet(SheetNameFor(members, names, u), groups[u], start, formatDate, formatClock) in sheets
  {
    sheets, order := [], [];
    var remaining := groups.Keys;
    while remaining != {}
      invariant remaining <= groups.Keys
      invariant IsEnumeration(order, groups.Keys - remaining)
      invariant sheets == SheetsFor(order, groups, members, names, start, formatDate, formatClock)
      decreases |remaining|
    {
      var sender :| sender in remaining;
      remaining := remaining - {sender};
      order := order + [sender];
      var sheetName := ResolveSheetName(members, names, sender);
      if |sheetName| < 1 {
        continue;
      }
      var yyyymmdd, hhmmss, slice := BuildRows(groups[sender], start, formatDate, formatClock);
      sheets := sheets + [Sheet(sheetName, yyyymmdd, hhmmss, slice)];
    }
    SheetsFromSenders(order, groups, members, names, start, formatDate, formatClock);
    SendersHaveSheets(order, groups, members, names, start, formatDate, formatClock);
    forall u | u in groups ensures u in order {
      assert u in groups.Keys - remaining;
    }
  }

  /** `sheet` is what the outer loop writes for sender u: u has a group and a sheet name. */
  predicate RendersSender(sheet: Sheet, u: string, groups: map<string, seq<Message>>, members: seq<Member>,
                          names: seq<UserName>, start: int,
                          formatDate: int -> string, formatClock: int -> string)
  {
    && u in groups && SheetNameFor(members, names, u) != "" && TsSliceable(groups[u])
    && sheet == RenderSheet(SheetNameFor(members, names, u), groups[u], start, formatDate, formatClock)
  }

  /** Each sheet renders one sender that has a sheet name. */
  lemma {:induction false} SheetsFromSenders(order: seq<string>, groups: map<string, seq<Message>>,
                                             members: seq<Member>, names: seq<UserName>, start: int,
                                             formatDate: int -> string, formatClock: int -> string)
    requires forall u :: u in order ==> u in groups
    requires Renderable(groups, members, names)
    ensures forall sheet :: sheet in SheetsFor(order, groups, members, names, start, formatDate, formatClock) ==>
      exists u :: RendersSender(sheet, u, groups, members, names, start, formatDate, formatClock)
  {
    if order != [] {
      var init := order[..|order| - 1];
      var last := order[|order| - 1];
      assert forall u :: u in init ==> u in order;
      SheetsFromSenders(init, groups, members, names, start, formatDate, formatClock);
      var prev := SheetsFor(init, groups, members, names, start, formatDate, formatClock);
      var sheets := SheetsFor(order, groups, members, names, start, formatDate, formatClock);
      var name := SheetNameFor(members, names, last);
      if name != "" {
        assert sheets == prev + [RenderSheet(name, groups[last], start, formatDate, formatClock)];
        forall sheet | sheet in sheets
          ensures exists u :: RendersSender(sheet, u, groups, members, names, start, formatDate, formatClock)
        {
          if sheet !in prev {
            assert RendersSender(sheet, last, groups, members, names, start, formatDate, formatClock);
          }
        }
      } else {
        assert sheets == prev;
      }
    }
  }

  /** Each visited sender with a sheet name has its sheet. */
  lemma {:induction false} SendersHaveSheets(order: seq<string>, groups: map<string, seq<Message>>,
                                             members: seq<Member>, names: seq<UserName>, start: int,
                                             formatDate: int -> string, formatClock: int -> string)
    requires forall u :: u in order ==> u in groups
    requires Renderable(groups, members, names)
    ensures forall u :: u in order && SheetNameFor(members, names, u) != "" ==>
      RenderSheet(SheetNameFor(members, names, u), groups[u], start, formatDate, formatClock)
        in SheetsFor(order, groups, members, names, start, formatDate, formatClock)
  {
    if order != [] {
      var init := order[..|order| - 1];
      var last := order[|order| - 1];
      assert order == init + [last];
      assert forall u :: u in init ==> u in order;
      SendersHaveSheets(init, groups, members, names, start, formatDate, formatClock);
      var prev := SheetsFor(init, groups, members, names, start, formatDate, formatClock);
      var sheets := SheetsFor(order, groups, members, names, start, formatDate, formatClock);
      var name := SheetNameFor(members, names, last);
      if name != "" {
        assert sheets == prev + [RenderSheet(name, groups[last], start, formatDate, formatClock)];
      } else {
        assert sheets == prev;
      }
      forall u | u in order && SheetNameFor(members, names, u) != ""
        ensures RenderSheet(SheetNameFor(members, names, u), groups[u], start, formatDate, formatClock) in sheets
      {
        if u != last {
          assert u in init;
          assert RenderSheet(SheetNameFor(members, names, u), groups[u], start, formatDate, formatClock) in prev;
        }
      }
    }
  }
}
