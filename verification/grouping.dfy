/**
  The stream step of main (main.go:126-129): sort the fetched messages by
  their `ts` text with strings.Compare, then group them by sender. The library
  pipeline is modelled as an insertion sort followed by a partition into a map
  from sender to that sender's messages in sorted order. The library's sort is
  not promised to be stable, so nothing below depends on the order of two
  messages with the same `ts`.
*/
module Grouping {
  import opened Text
  import opened Slack

  predicate TsNoLater(a: Message, b: Message) {
    NoLater(a.ts, b.ts)
  }

  /** Non-decreasing `ts` under strings.Compare. */
  predicate SortedByTs(s: seq<Message>) {
    forall i, j :: 0 <= i < j < |s| ==> TsNoLater(s[i], s[j])
  }

  function Insert(m: Message, s: seq<Message>): (r: seq<Message>)
    requires SortedByTs(s)
    ensures SortedByTs(r)
    ensures multiset(r) == multiset(s) + multiset{m}
  {
    if s == [] then [m]
    else if TsNoLater(m, s[0]) then
      PrependSorted(m, s);
      [m] + s
    else
      var rest := Insert(m, s[1..]);
      InsertBehindHead(m, s, rest);
      [s[0]] + rest
  }

  /** An element no later than the head of a sorted list can go in front. */
  lemma PrependSorted(m: Message, s: seq<Message>)
    requires SortedByTs(s) && s != [] && TsNoLater(m, s[0])
    ensures SortedByTs([m] + s)
  {
    forall j | 0 <= j < |s| ensures TsNoLater(m, s[j]) {
      if j > 0 { NoLaterTransitive(m.ts, s[0].ts, s[j].ts); }
    }
  }

  /** When m goes after the head, the head stays in front of the rest with m inserted. */
  lemma InsertBehindHead(m: Message, s: seq<Message>, rest: seq<Message>)
    requires SortedByTs(s) && s != [] && !TsNoLater(m, s[0])
    requires SortedByTs(rest) && multiset(rest) == multiset(s[1..]) + multiset{m}
    ensures SortedByTs([s[0]] + rest)
    ensures multiset([s[0]] + rest) == multiset(s) + multiset{m}
  {
    assert TsNoLater(s[0], m) by { NoLaterTotal(m.ts, s[0].ts); }
    forall i | 0 <= i < |rest| ensures TsNoLater(s[0], rest[i]) {
      var x := rest[i];
      assert x in multiset(rest);
      if x != m {
        assert x in multiset(s[1..]);
        var j :| 0 <= j < |s[1..]| && s[1..][j] == x;
        assert s[j + 1] == x;
      }
    }
    assert s == [s[0]] + s[1..];
  }

  /** The stream's Sort: the same messages, in non-decreasing `ts` order. */
  function SortByTs(s: seq<Message>): (r: seq<Message>)
    ensures SortedByTs(r)
    ensures multiset(r) == multiset(s)
  {
    if s == [] then []
    else
      assert s == [s[0]] + s[1..];
      Insert(s[0], SortByTs(s[1..]))
  }

  /** The messages of sender u, in the order of s. */
  function OfUser(s: seq<Message>, u: string): (r: seq<Message>)
  {
    if s == [] then []
    else if s[|s| - 1].user == u then OfUser(s[..|s| - 1], u) + [s[|s| - 1]]
    else OfUser(s[..|s| - 1], u)
  }

  function Senders(s: seq<Message>): set<string> {
    set m | m in s :: m.user
  }

  /**
    The stream's GroupBy on `user`: one entry per sender, holding that
    sender's messages in the order of s.
  */
  function GroupByUser(s: seq<Message>): (g: map<string, seq<Message>>)
    ensures g.Keys == Senders(s)
    ensures forall u :: u in g ==> g[u] == OfUser(s, u)
  {
    if s == [] then map[]
    else
      var init := s[..|s| - 1];
      var last := s[|s| - 1];
      var g := GroupByUser(init);
      assert s == init + [last];
      assert Senders(s) == Senders(init) + {last.user};
      assert last.user !in g ==> OfUser(init, last.user) == [] by {
        if last.user !in g { OfUserAbsent(init, last.user); }
      }
      g[last.user := (if last.user in g then g[last.user] else []) + [last]]
  }

  lemma {:induction false} OfUserAbsent(s: seq<Message>, u: string)
    requires u !in Senders(s)
    ensures OfUser(s, u) == []
  {
    if s != [] {
      var init := s[..|s| - 1];
      assert s == init + [s[|s| - 1]];
      assert Senders(init) <= Senders(s);
      OfUserAbsent(init, u);
    }
  }

  /** How often a message occurs among sender u's messages. */
  lemma {:induction false} OfUserCount(s: seq<Message>, u: string, x: Message)
    ensures multiset(OfUser(s, u))[x] == if x.user == u then multiset(s)[x] else 0
  {
    if s != [] {
      var init := s[..|s| - 1];
      assert s == init + [s[|s| - 1]];
      OfUserCount(init, u, x);
    }
  }

  /** Picking out one sender's messages commutes with reordering. */
  lemma OfUserPermutation(s: seq<Message>, t: seq<Message>, u: string)
    requires multiset(s) == multiset(t)
    ensures multiset(OfUser(s, u)) == multiset(OfUser(t, u))
  {
    forall x ensures multiset(OfUser(s, u))[x] == multiset(OfUser(t, u))[x] {
      OfUserCount(s, u, x);
      OfUserCount(t, u, x);
    }
  }

  /** Every message in sender u's list was sent by u. */
  lemma {:induction false} OfUserSender(s: seq<Message>, u: string)
    ensures forall m :: m in OfUser(s, u) ==> m.user == u && m in s
  {
    if s != [] {
      var init := s[..|s| - 1];
      OfUserSender(init, u);
      assert s == init + [s[|s| - 1]];
    }
  }

  /** Picking out one sender's messages keeps them sorted. */
  lemma {:induction false} OfUserSorted(s: seq<Message>, u: string)
    requires SortedByTs(s)
    ensures SortedByTs(OfUser(s, u))
  {
    if s != [] {
      var init := s[..|s| - 1];
      var last := s[|s| - 1];
      assert SortedByTs(init);
      OfUserSorted(init, u);
      if last.user == u {
        var r := OfUser(init, u);
        OfUserSender(init, u);
        forall i | 0 <= i < |r| ensures TsNoLater(r[i], last) {
          var j :| 0 <= j < |init| && init[j] == r[i];
        }
      }
    }
  }

  /**
    After sort-then-group there is a group exactly for each sender, and each
    group holds exactly that sender's messages, in non-decreasing `ts` order.
  */
  lemma SortThenGroup(messages: seq<Message>, u: string)
    ensures var groups := GroupByUser(SortByTs(messages));
      (u in groups <==> exists m :: m in messages && m.user == u)
    ensures var groups := GroupByUser(SortByTs(messages));
      u in groups ==>
        && SortedByTs(groups[u])
        && multiset(groups[u]) == multiset(OfUser(messages, u))
        && forall m :: m in groups[u] ==> m.user == u
  {
    var sorted := SortByTs(messages);
    var groups := GroupByUser(sorted);
    assert forall m :: m in sorted <==> m in messages by {
      forall m ensures m in sorted <==> m in messages {
        assert m in sorted <==> m in multiset(sorted);
      }
    }
    OfUserSorted(sorted, u);
    OfUserPermutation(sorted, messages, u);
    OfUserSender(sorted, u);
  }
}
