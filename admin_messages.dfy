/** The admin messages route (app/api/admin/messages/route.js): GET lists the messages and
    shows a multi-recipient send once, POST fans a message out to one row per recipient. */
module AdminMessages {
  import opened Options
  import opened Messages

  /** `NextResponse.json(...)`: a JSON body, or an error with its HTTP status. */
  datatype Response<T> = Ok(value: T) | Failure(status: int, error: string)

  // ---------------------------------------------------------------------------------------
  // GET

  /** One displayed entry: the representative row with the recipients of its group. */
  datatype Entry = Entry(message: Message, recipients: seq<Id>, recipientCount: nat)

  /** The rows of the first query: `if (propertyId) whereClause.propertyId = propertyId`, so an
      absent or empty parameter lists every row. */
  function ListingFilter(table: seq<Message>, propertyParam: Option<string>): (r: seq<Message>)
    ensures forall m :: m in r ==> m in table && (Truthy(propertyParam) ==> m.propertyId == propertyParam.value)
    ensures forall i :: 0 <= i < |table| && (!Truthy(propertyParam) || table[i].propertyId == propertyParam.value) ==>
              table[i] in r
    ensures !Truthy(propertyParam) ==> r == table
  {
    if table == [] then []
    else
      var n := |table| - 1;
      var keep := !Truthy(propertyParam) || table[n].propertyId == propertyParam.value;
      assert table == table[..n] + [table[n]];
      ListingFilter(table[..n], propertyParam) + (if keep then [table[n]] else [])
  }

  /** The filter keeps every matching row as often as the table holds it, and no other row. */
  lemma {:induction false} ListingFilterCount(table: seq<Message>, propertyParam: Option<string>, x: Message)
    ensures multiset(ListingFilter(table, propertyParam))[x] ==
            if !Truthy(propertyParam) || x.propertyId == propertyParam.value then multiset(table)[x] else 0
  {
    if table != [] {
      var n := |table| - 1;
      var keep := !Truthy(propertyParam) || table[n].propertyId == propertyParam.value;
      var tail := if keep then [table[n]] else [];
      assert table == table[..n] + [table[n]];
      ListingFilterCount(table[..n], propertyParam, x);
      assert ListingFilter(table, propertyParam) == ListingFilter(table[..n], propertyParam) + tail;
      assert multiset(ListingFilter(table, propertyParam))[x] ==
             multiset(ListingFilter(table[..n], propertyParam))[x] + multiset(tail)[x];
      assert multiset(table)[x] == multiset(table[..n])[x] + (if table[n] == x then 1 else 0);
    }
  }

  predicate NewestFirst(s: seq<Message>)
  {
    forall i, j :: 0 <= i < j < |s| ==> s[i].sentMs >= s[j].sentMs
  }

  function InsertByDate(m: Message, s: seq<Message>): (r: seq<Message>)
    requires NewestFirst(s)
    ensures NewestFirst(r) && multiset(r) == multiset(s) + multiset{m}
  {
    if s == [] then [m]
    else if m.sentMs >= s[0].sentMs then [m] + s
    else
      var rest := InsertByDate(m, s[1..]);
      assert s == [s[0]] + s[1..];
      NoNewerThanHead(s, m, rest);
      ConsNewestFirst(s[0], rest);
      assert multiset([s[0]] + rest) == multiset{s[0]} + multiset(rest);
      [s[0]] + rest
  }

  /** The tail of a newest-first list with an older row inserted is no newer than its head. */
  lemma NoNewerThanHead(s: seq<Message>, m: Message, rest: seq<Message>)
    requires |s| > 0 && NewestFirst(s) && m.sentMs < s[0].sentMs
    requires multiset(rest) == multiset(s[1..]) + multiset{m}
    ensures forall j :: 0 <= j < |rest| ==> rest[j].sentMs <= s[0].sentMs
  {
    forall j | 0 <= j < |rest| ensures rest[j].sentMs <= s[0].sentMs {
      assert rest[j] in multiset(s[1..]) + multiset{m};
      if rest[j] != m {
        var k :| 0 <= k < |s[1..]| && s[1..][k] == rest[j];
        assert s[k + 1] == rest[j];
      }
    }
  }

  /** A row no older than any row of a newest-first list can go in front of it. */
  lemma ConsNewestFirst(x: Message, s: seq<Message>)
    requires NewestFirst(s) && forall j :: 0 <= j < |s| ==> s[j].sentMs <= x.sentMs
    ensures NewestFirst([x] + s)
  {
    forall i, j | 0 <= i < j < |s| + 1 ensures ([x] + s)[i].sentMs >= ([x] + s)[j].sentMs {
      assert ([x] + s)[j] == s[j - 1];
      if i > 0 {
        assert ([x] + s)[i] == s[i - 1];
      }
    }
  }

  /** `orderBy: { sentDate: "desc" }`: the same rows, newest first. */
  function SortNewestFirst(s: seq<Message>): (r: seq<Message>)
    ensures NewestFirst(r) && multiset(r) == multiset(s)
  {
    if s == [] then []
    else
      assert s == [s[0]] + s[1..];
      InsertByDate(s[0], SortNewestFirst(s[1..]))
  }

  /** `groupMessages.map((m) => m.recipient).filter(Boolean)`: the recipients that exist. */
  function PresentRecipients(rows: seq<Message>): (r: seq<Id>)
    ensures |r| <= |rows|
  {
    if rows == [] then []
    else (if rows[0].recipientId.Some? then [rows[0].recipientId.value] else []) + PresentRecipients(rows[1..])
  }

  /** The recipients kept are exactly those of the rows that have one. */
  lemma {:induction false} PresentRecipientsExact(rows: seq<Message>)
    ensures forall x :: x in PresentRecipients(rows) <==> exists m :: m in rows && m.recipientId == Some(x)
  {
    if rows != [] {
      PresentRecipientsExact(rows[1..]);
      assert rows == [rows[0]] + rows[1..];
    }
  }

  /** The recipientId column of some rows, as an independent way to count recipients. */
  function RecipientColumn(rows: seq<Message>): (c: seq<Option<Id>>)
    ensures |c| == |rows|
  {
    seq(|rows|, j requires 0 <= j < |rows| => rows[j].recipientId)
  }

  /** Each row with a recipient contributes that recipient once: a user is listed as many
      times as rows name them. */
  lemma {:induction false} PresentRecipientsCount(rows: seq<Message>, u: Id)
    ensures multiset(PresentRecipients(rows))[u] == multiset(RecipientColumn(rows))[Some(u)]
  {
    if rows != [] {
      PresentRecipientsCount(rows[1..], u);
      RecipientColumnCons(rows);
      var rest := PresentRecipients(rows[1..]);
      var column := RecipientColumn(rows[1..]);
      var x := rows[0].recipientId;
      assert multiset([x] + column)[Some(u)] == multiset(column)[Some(u)] + (if x == Some(u) then 1 else 0);
      if x.Some? {
        assert PresentRecipients(rows) == [x.value] + rest;
        assert multiset([x.value] + rest)[u] == multiset(rest)[u] + (if x.value == u then 1 else 0);
      } else {
        assert PresentRecipients(rows) == [] + rest;
        assert [] + rest == rest;
      }
    }
  }

  lemma RecipientColumnCons(rows: seq<Message>)
    requires rows != []
    ensures RecipientColumn(rows) == [rows[0].recipientId] + RecipientColumn(rows[1..])
  {
    forall j | 0 <= j < |rows| ensures RecipientColumn(rows)[j] == ([rows[0].recipientId] + RecipientColumn(rows[1..]))[j] {
      if j > 0 {
        assert rows[1..][j - 1] == rows[j];
      }
    }
  }

  /** How many of the first `n` rows of a table belong to group `g` and are addressed to `u`. */
  function GroupRecipientRows(table: seq<Message>, n: nat, g: Id, u: Id): nat
    requires n <= |table|
  {
    if n == 0 then 0
    else GroupRecipientRows(table, n - 1, g, u)
           + (if table[n - 1].groupId == Some(g) && table[n - 1].recipientId == Some(u) then 1 else 0)
  }

  /** Among the first `n` rows, a group's rows name a user as often as rows of that group are
      addressed to them. */
  lemma {:induction false} GroupRecipientsCount(table: seq<Message>, n: nat, g: Id, u: Id)
    requires n <= |table|
    ensures multiset(RecipientColumn(GroupRowsBelow(table, n, g)))[Some(u)] == GroupRecipientRows(table, n, g, u)
  {
    if n > 0 {
      GroupRecipientsCount(table, n - 1, g, u);
      if table[n - 1].groupId == Some(g) {
        var before := GroupRowsBelow(table, n - 1, g);
        var column, recipient := RecipientColumn(before), table[n - 1].recipientId;
        RecipientColumnSnoc(before, table[n - 1]);
        assert GroupRowsBelow(table, n, g) == before + [table[n - 1]];
        assert multiset(column + [recipient])[Some(u)] == multiset(column)[Some(u)] + (if recipient == Some(u) then 1 else 0);
      } else {
        assert GroupRowsBelow(table, n, g) == GroupRowsBelow(table, n - 1, g);
      }
    }
  }

  lemma RecipientColumnSnoc(rows: seq<Message>, m: Message)
    ensures RecipientColumn(rows + [m]) == RecipientColumn(rows) + [m.recipientId]
  {
  }

  /** The entry a representative row `m` becomes. A grouped row counts the rows of its whole
      group in `table`, whatever the property filter; an ungrouped row counts its own recipient. */
  function EntryFor(m: Message, table: seq<Message>): Entry
  {
    if GroupOf(m).Some? then
      var rows := RowsOfGroup(table, m.groupId.value);
      Entry(m, PresentRecipients(rows), |rows|)
    else
      Entry(m, if m.recipientId.Some? then [m.recipientId.value] else [], if m.recipientId.Some? then 1 else 0)
  }

  /** The entry of a grouped row counts every row of the table with its groupId and lists their
      recipients, dropping missing ones; the entry of an ungrouped row counts its one recipient,
      or none. */
  lemma EntryForMeaning(m: Message, table: seq<Message>)
    ensures EntryFor(m, table).message == m
    ensures |EntryFor(m, table).recipients| <= EntryFor(m, table).recipientCount
    ensures GroupOf(m).None? ==>
              && EntryFor(m, table).recipientCount == |EntryFor(m, table).recipients| <= 1
              && (EntryFor(m, table).recipientCount == 1 <==> m.recipientId.Some?)
              && (m.recipientId.Some? ==> EntryFor(m, table).recipients == [m.recipientId.value])
    ensures GroupOf(m).Some? ==>
              && EntryFor(m, table).recipientCount == multiset(GroupIdColumn(table))[m.groupId]
              && (forall x :: x in EntryFor(m, table).recipients <==>
                    exists j :: 0 <= j < |table| && table[j].groupId == m.groupId && table[j].recipientId == Some(x))
              && (forall x :: multiset(EntryFor(m, table).recipients)[x] ==
                    GroupRecipientRows(table, |table|, m.groupId.value, x))
  {
    if GroupOf(m).Some? {
      var rows := RowsOfGroup(table, m.groupId.value);
      RowsOfGroupCount(table, m.groupId.value);
      GroupRowsExact(table, |table|, m.groupId.value);
      PresentRecipientsExact(rows);
      forall x ensures multiset(PresentRecipients(rows))[x] == GroupRecipientRows(table, |table|, m.groupId.value, x) {
        PresentRecipientsCount(rows, x);
        GroupRecipientsCount(table, |table|, m.groupId.value, x);
      }
    }
  }

  /** `GroupRowsBelow` holds exactly the rows of the group. */
  lemma {:induction false} GroupRowsExact(table: seq<Message>, n: nat, g: Id)
    requires n <= |table|
    ensures forall m :: m in GroupRowsBelow(table, n, g) <==> exists j :: 0 <= j < n && table[j] == m && m.groupId == Some(g)
  {
    if n > 0 {
      GroupRowsExact(table, n - 1, g);
    }
  }

  /** Row `i` is shown (the `seenGroups` test): it has no group, or its group is not among
      those of the rows before it. */
  predicate Shown(s: seq<Message>, i: nat)
    requires i < |s|
  {
    GroupOf(s[i]).None? || s[i].groupId.value !in GroupIdsBelow(s, i)
  }

  /** Row `i` is the first of its group, or has none. */
  predicate FirstOfGroup(s: seq<Message>, i: nat)
    requires i < |s|
  {
    GroupOf(s[i]).None? || forall j :: 0 <= j < i ==> GroupOf(s[j]) != GroupOf(s[i])
  }

  /** The `seenGroups` test picks exactly the ungrouped rows and the first row of each group. */
  lemma ShownIffFirst(s: seq<Message>, i: nat)
    requires i < |s|
    ensures Shown(s, i) <==> FirstOfGroup(s, i)
  {
    if GroupOf(s[i]).Some? {
      GroupIdsBelowMember(s, i, s[i].groupId.value);
    }
  }

  /** The indices, among the first `n`, of the rows that are shown. */
  function RepresentativesBelow(s: seq<Message>, n: nat): (r: seq<nat>)
    requires n <= |s|
    ensures |r| <= n && forall p :: 0 <= p < |r| ==> r[p] < n
  {
    if n == 0 then [] else RepresentativesBelow(s, n - 1) + (if Shown(s, n - 1) then [n - 1] else [])
  }

  /** The shown rows are listed once each, in table order, and every shown row is among them. */
  lemma {:induction false} RepresentativesExact(s: seq<Message>, n: nat)
    requires n <= |s|
    ensures forall p :: 0 <= p < |RepresentativesBelow(s, n)| ==> Shown(s, RepresentativesBelow(s, n)[p])
    ensures forall p, q :: 0 <= p < q < |RepresentativesBelow(s, n)| ==>
              RepresentativesBelow(s, n)[p] < RepresentativesBelow(s, n)[q]
    ensures forall i :: 0 <= i < n && Shown(s, i) ==> i in RepresentativesBelow(s, n)
  {
    if n > 0 {
      RepresentativesExact(s, n - 1);
      var r0, r := RepresentativesBelow(s, n - 1), RepresentativesBelow(s, n);
      assert r == r0 + (if Shown(s, n - 1) then [n - 1] else []);
      forall p | 0 <= p < |r| ensures Shown(s, r[p]) {
        if p < |r0| {
          assert r[p] == r0[p];
        }
      }
    }
  }

  function Representatives(s: seq<Message>): seq<nat>
  {
    RepresentativesBelow(s, |s|)
  }

  /** The entries of the rows of `s` at indices `r`, in that order. */
  function EntriesAt(s: seq<Message>, r: seq<nat>, table: seq<Message>): (es: seq<Entry>)
    requires forall p :: 0 <= p < |r| ==> r[p] < |s|
    ensures |es| == |r|
  {
    seq(|r|, p requires 0 <= p < |r| => EntryFor(s[r[p]], table))
  }

  /** The listing GET returns for the rows `s` of the first query: one entry per shown row. */
  function Collapsed(s: seq<Message>, table: seq<Message>): seq<Entry>
  {
    EntriesAt(s, Representatives(s), table)
  }

  /** Row `i` adds its entry to the listing of the rows before it exactly when it is shown. */
  lemma CollapseStep(s: seq<Message>, i: nat, table: seq<Message>)
    requires i < |s|
    ensures EntriesAt(s, RepresentativesBelow(s, i + 1), table) ==
            EntriesAt(s, RepresentativesBelow(s, i), table) + (if Shown(s, i) then [EntryFor(s[i], table)] else [])
  {
    var r := RepresentativesBelow(s, i);
    if Shown(s, i) {
      assert RepresentativesBelow(s, i + 1) == r + [i];
    }
  }

  /** The collapse loop (`seenGroups`, `groupedMessages`) over the rows of the first query. */
  method CollapseListing(messages: seq<Message>, table: seq<Message>) returns (groupedMessages: seq<Entry>)
    ensures groupedMessages == Collapsed(messages, table)
  {
    groupedMessages := [];
    var seenGroups: set<Id> := {};
    var i := 0;
    while i < |messages|
      invariant 0 <= i <= |messages|
      invariant seenGroups == GroupIdsBelow(messages, i)
      invariant groupedMessages == EntriesAt(messages, RepresentativesBelow(messages, i), table)
    {
      var message := messages[i];
      CollapseStep(messages, i, table);
      if GroupOf(message).Some? && message.groupId.value in seenGroups {
        i := i + 1;
        continue;
      }
      if GroupOf(message).Some? {
        seenGroups := seenGroups + {message.groupId.value};
        var groupRows := RowsOfGroup(table, message.groupId.value);
        groupedMessages := groupedMessages + [Entry(message, PresentRecipients(groupRows), |groupRows|)];
      } else {
        var recipients := if message.recipientId.Some? then [message.recipientId.value] else [];
        groupedMessages := groupedMessages + [Entry(message, recipients, |recipients|)];
      }
      i := i + 1;
    }
  }

  /** `GET`: list the rows of the property (or all), newest first, showing each group once as
      the first of its rows met, with the recipients and the row count of the whole group. */
  method Get(authorized: bool, table: seq<Message>, propertyParam: Option<string>) returns (resp: Response<seq<Entry>>)
    ensures !authorized ==> resp == Failure(401, "Unauthorized")
    ensures authorized ==> resp == Ok(Collapsed(SortNewestFirst(ListingFilter(table, propertyParam)), table))
  {
    if !authorized {
      return Failure(401, "Unauthorized");
    }
    var messages := SortNewestFirst(ListingFilter(table, propertyParam));
    var groupedMessages := CollapseListing(messages, table);
    return Ok(groupedMessages);
  }

  // ---------------------------------------------------------------------------------------
  // Properties of the listing

  /** As many rows are shown as the rows have distinct groups plus ungrouped rows. */
  lemma {:induction false} ShownCount(s: seq<Message>, n: nat)
    requires n <= |s|
    ensures |RepresentativesBelow(s, n)| == |GroupIdsBelow(s, n)| + |SinglesBelow(s, n)|
  {
    if n > 0 {
      ShownCount(s, n - 1);
      var r0 := RepresentativesBelow(s, n - 1);
      if GroupOf(s[n - 1]).None? {
        assert |RepresentativesBelow(s, n)| == |r0| + 1;
        assert |SinglesBelow(s, n)| == |SinglesBelow(s, n - 1)| + 1;
      } else {
        assert |SinglesBelow(s, n)| == |SinglesBelow(s, n - 1)|;
        if Shown(s, n - 1) {
          assert |RepresentativesBelow(s, n)| == |r0| + 1;
          assert |GroupIdsBelow(s, n)| == |GroupIdsBelow(s, n - 1)| + 1;
        } else {
          assert |RepresentativesBelow(s, n)| == |r0|;
          assert GroupIdsBelow(s, n) == GroupIdsBelow(s, n - 1);
        }
      }
    }
  }

  /** The listing has one entry per distinct group of the listed rows plus one per ungrouped row. */
  lemma CollapsedLength(s: seq<Message>, table: seq<Message>)
    ensures |Collapsed(s, table)| == |GroupIdsIn(s)| + |SingleRows(s)|
  {
    ShownCount(s, |s|);
  }

  /** Some row at or before a row of group `g` is the first of that group. */
  lemma {:induction false} FirstOccurrence(s: seq<Message>, g: Id, i: nat)
    requires i < |s| && GroupOf(s[i]) == Some(g)
    ensures exists f :: 0 <= f <= i && GroupOf(s[f]) == Some(g) && FirstOfGroup(s, f)
  {
    if !FirstOfGroup(s, i) {
      var j :| 0 <= j < i && GroupOf(s[j]) == Some(g);
      FirstOccurrence(s, g, j);
    }
  }

  /** Every group of the listed rows has an entry. */
  lemma GroupHasEntry(s: seq<Message>, table: seq<Message>, g: Id)
    requires g in GroupIdsIn(s)
    ensures exists p :: 0 <= p < |Collapsed(s, table)| && GroupOf(Collapsed(s, table)[p].message) == Some(g)
  {
    var r := Representatives(s);
    RepresentativesExact(s, |s|);
    GroupIdsBelowMember(s, |s|, g);
    var i :| 0 <= i < |s| && GroupOf(s[i]) == Some(g);
    FirstOccurrence(s, g, i);
    var f :| 0 <= f <= i && GroupOf(s[f]) == Some(g) && FirstOfGroup(s, f);
    ShownIffFirst(s, f);
    var p :| 0 <= p < |r| && r[p] == f;
    assert Collapsed(s, table)[p] == EntryFor(s[f], table);
  }

  /** Two entries of the listing never show the same group. */
  lemma EntriesDistinctGroups(s: seq<Message>, table: seq<Message>, p: nat, q: nat)
    requires p < q < |Collapsed(s, table)|
    ensures GroupOf(Collapsed(s, table)[p].message).None? ||
            GroupOf(Collapsed(s, table)[p].message) != GroupOf(Collapsed(s, table)[q].message)
  {
    var r := Representatives(s);
    RepresentativesExact(s, |s|);
    assert Collapsed(s, table)[p] == EntryFor(s[r[p]], table);
    assert Collapsed(s, table)[q] == EntryFor(s[r[q]], table);
    assert r[p] < r[q] && Shown(s, r[q]);
    ShownIffFirst(s, r[q]);
    assert FirstOfGroup(s, r[q]);
  }

  /** Entries appear in the order of their rows, and the entry of a group is the first row of
      that group; when the rows are newest first, no row of the group is newer than it. */
  lemma RepresentativeIsFirst(s: seq<Message>, table: seq<Message>, p: nat)
    requires p < |Collapsed(s, table)|
    ensures p < |Representatives(s)| && Collapsed(s, table)[p].message == s[Representatives(s)[p]]
    ensures var i := Representatives(s)[p];
            GroupOf(s[i]).Some? ==> forall j :: 0 <= j < |s| && GroupOf(s[j]) == GroupOf(s[i]) ==>
              i <= j && (NewestFirst(s) ==> s[j].sentMs <= s[i].sentMs)
    ensures forall q :: p < q < |Representatives(s)| ==> Representatives(s)[p] < Representatives(s)[q]
  {
    var r := Representatives(s);
    RepresentativesExact(s, |s|);
    var i := r[p];
    assert Collapsed(s, table)[p] == EntryFor(s[i], table);
    ShownIffFirst(s, i);
    assert FirstOfGroup(s, i);
    if GroupOf(s[i]).Some? {
      forall j | 0 <= j < |s| && GroupOf(s[j]) == GroupOf(s[i])
        ensures i <= j && (NewestFirst(s) ==> s[j].sentMs <= s[i].sentMs)
      {
      }
    }
  }

  /** After a send to several recipients, the listing shows the send once, with every recipient:
      the rows on their own make up the whole group, so whichever of them represents the send in
      the listing (the newest under `orderBy`), its entry counts and lists them all. */
  lemma SentGroupCountsAll(table: seq<Message>, rows: seq<Message>, g: Id)
    requires g != ""
    requires forall j :: 0 <= j < |table| ==> table[j].groupId != Some(g)
    requires forall k :: 0 <= k < |rows| ==> rows[k].groupId == Some(g) && rows[k].recipientId.Some?
    ensures forall k :: 0 <= k < |rows| ==>
              EntryFor(rows[k], table + rows) == Entry(rows[k], PresentRecipients(rows), |rows|)
    ensures |PresentRecipients(rows)| == |rows|
  {
    SentRowsAreGroup(table, rows, g);
    forall k | 0 <= k < |rows|
      ensures EntryFor(rows[k], table + rows) == Entry(rows[k], PresentRecipients(rows), |rows|)
    {
      assert GroupOf(rows[k]) == Some(g) && rows[k].groupId.value == g;
    }
    AllRecipientsPresent(rows);
  }

  /** Whatever order the listed rows come in, a listing that holds a row of the send has an
      entry for the send, built from one of its rows, that counts and lists every recipient. */
  lemma SentGroupListed(table: seq<Message>, rows: seq<Message>, g: Id, s: seq<Message>, i: nat)
    requires g != ""
    requires forall j :: 0 <= j < |table| ==> table[j].groupId != Some(g)
    requires forall k :: 0 <= k < |rows| ==> rows[k].groupId == Some(g) && rows[k].recipientId.Some?
    requires forall j :: 0 <= j < |s| ==> s[j] in table + rows
    requires i < |s| && s[i] in rows
    ensures exists p :: 0 <= p < |Collapsed(s, table + rows)| &&
              var e := Collapsed(s, table + rows)[p];
              e.message in rows && e == Entry(e.message, PresentRecipients(rows), |rows|)
  {
    var t := table + rows;
    var k0 :| 0 <= k0 < |rows| && rows[k0] == s[i];
    assert GroupOf(s[i]) == Some(g);
    GroupIdsBelowMember(s, |s|, g);
    GroupHasEntry(s, t, g);
    var p :| 0 <= p < |Collapsed(s, t)| && GroupOf(Collapsed(s, t)[p].message) == Some(g);
    RepresentativeIsFirst(s, t, p);
    var m := s[Representatives(s)[p]];
    assert Collapsed(s, t)[p] == EntryFor(m, t);
    assert m in t && m.groupId == Some(g);
    var j :| 0 <= j < |t| && t[j] == m;
    assert j >= |table|;
    assert rows[j - |table|] == m;
    SentGroupCountsAll(table, rows, g);
  }

  /** Rows appended under a groupId no earlier row has are all the rows of that group. */
  lemma {:induction false} SentRowsAreGroup(table: seq<Message>, rows: seq<Message>, g: Id)
    requires forall j :: 0 <= j < |table| ==> table[j].groupId != Some(g)
    requires forall k :: 0 <= k < |rows| ==> rows[k].groupId == Some(g)
    ensures RowsOfGroup(table + rows, g) == rows
  {
    var t := table + rows;
    GroupRowsAppend(table, rows, g, |rows|);
    assert RowsOfGroup(t, g) == GroupRowsBelow(table, |table|, g) + GroupRowsBelow(rows, |rows|, g);
    GroupRowsNone(table, |table|, g);
    GroupRowsAll(rows, g, |rows|);
    assert rows[..|rows|] == rows;
  }

  lemma {:induction false} AllRecipientsPresent(rows: seq<Message>)
    requires forall k :: 0 <= k < |rows| ==> rows[k].recipientId.Some?
    ensures |PresentRecipients(rows)| == |rows|
  {
    if rows != [] {
      AllRecipientsPresent(rows[1..]);
    }
  }

  /** A group no row among the first `n` has has no rows there. */
  lemma {:induction false} GroupRowsNone(table: seq<Message>, n: nat, g: Id)
    requires n <= |table| && forall j :: 0 <= j < n ==> table[j].groupId != Some(g)
    ensures GroupRowsBelow(table, n, g) == []
  {
    if n > 0 {
      GroupRowsNone(table, n - 1, g);
    }
  }

  /** Rows appended after a table come after its rows of the group. */
  lemma {:induction false} GroupRowsAppend(table: seq<Message>, rows: seq<Message>, g: Id, n: nat)
    requires n <= |rows|
    ensures GroupRowsBelow(table + rows, |table| + n, g) == GroupRowsBelow(table, |table|, g) + GroupRowsBelow(rows, n, g)
  {
    if n == 0 {
      GroupRowsPrefix(table, table + rows, g, |table|);
    } else {
      GroupRowsAppend(table, rows, g, n - 1);
      var t := table + rows;
      var last := rows[n - 1];
      assert t[|table| + n - 1] == last;
      var a := GroupRowsBelow(table, |table|, g);
      var b := GroupRowsBelow(rows, n - 1, g);
      if last.groupId == Some(g) {
        assert GroupRowsBelow(t, |table| + n, g) == (a + b) + [last];
        assert GroupRowsBelow(rows, n, g) == b + [last];
        assert (a + b) + [last] == a + (b + [last]);
      } else {
        assert GroupRowsBelow(t, |table| + n, g) == (a + b) + [];
        assert GroupRowsBelow(rows, n, g) == b + [];
        assert (a + b) + [] == a + b && b + [] == b;
      }
    }
  }

  /** The group's rows among the first `n` depend only on those rows. */
  lemma {:induction false} GroupRowsPrefix(a: seq<Message>, b: seq<Message>, g: Id, n: nat)
    requires n <= |a| && n <= |b| && forall j :: 0 <= j < n ==> a[j] == b[j]
    ensures GroupRowsBelow(a, n, g) == GroupRowsBelow(b, n, g)
  {
    if n > 0 {
      GroupRowsPrefix(a, b, g, n - 1);
    }
  }

  /** Rows that all carry the group are all its rows. */
  lemma {:induction false} GroupRowsAll(rows: seq<Message>, g: Id, n: nat)
    requires n <= |rows| && forall k :: 0 <= k < |rows| ==> rows[k].groupId == Some(g)
    ensures GroupRowsBelow(rows, n, g) == rows[..n]
  {
    if n > 0 {
      GroupRowsAll(rows, g, n - 1);
      assert rows[..n] == rows[..n - 1] + [rows[n - 1]];
    }
  }

  // ---------------------------------------------------------------------------------------
  // POST

  /** The JSON body of a POST; a missing field is `None`. */
  datatype PostRequest = PostRequest(
    subject: Option<string>,
    message: Option<string>,
    propertyId: Option<Id>,
    recipientId: Option<Id>,
    emailNotification: bool)

  /** A row of the user-to-property assignment table. */
  datatype UserProperty = UserProperty(userId: Id, propertyId: Id)

  /** A notification the route tried to send, and whether the mail service accepted it. */
  datatype EmailAttempt = EmailAttempt(to: string, delivered: bool)

  /** The success body: the created rows and their number. */
  datatype Sent = Sent(messages: seq<Message>, count: nat)

  const RequiredFieldsError := "Subject, message, and property are required"

  /** `if (!subject || !message || !propertyId)` rejects the request. */
  predicate HasRequiredFields(req: PostRequest)
  {
    Truthy(req.subject) && Truthy(req.message) && Truthy(req.propertyId)
  }

  /** `prisma.userProperty.findMany({ where: { propertyId } })`: the investors of the property. */
  function InvestorsOf(assignments: seq<UserProperty>, propertyId: Id): (r: seq<Id>)
    ensures |r| <= |assignments|
    ensures forall u :: u in r <==> UserProperty(u, propertyId) in assignments
  {
    if assignments == [] then []
    else
      assert assignments == [assignments[0]] + assignments[1..];
      (if assignments[0].propertyId == propertyId then [assignments[0].userId] else [])
        + InvestorsOf(assignments[1..], propertyId)
  }

  /** The propertyId column of the assignment table. */
  function PropertyColumn(assignments: seq<UserProperty>): (c: seq<Id>)
    ensures |c| == |assignments|
  {
    seq(|assignments|, j requires 0 <= j < |assignments| => assignments[j].propertyId)
  }

  /** One investor per assignment record of the property: a user is listed as often as they
      are assigned to it. */
  lemma {:induction false} InvestorsOfCount(assignments: seq<UserProperty>, propertyId: Id, u: Id)
    ensures multiset(InvestorsOf(assignments, propertyId))[u] == multiset(assignments)[UserProperty(u, propertyId)]
  {
    if assignments != [] {
      InvestorsOfCount(assignments[1..], propertyId, u);
      var first := assignments[0];
      assert assignments == [first] + assignments[1..];
      assert multiset(assignments)[UserProperty(u, propertyId)] ==
             multiset(assignments[1..])[UserProperty(u, propertyId)] + (if first == UserProperty(u, propertyId) then 1 else 0);
    }
  }

  /** The investor list is as long as the property's assignment records. */
  lemma {:induction false} InvestorsOfLength(assignments: seq<UserProperty>, propertyId: Id)
    ensures |InvestorsOf(assignments, propertyId)| == multiset(PropertyColumn(assignments))[propertyId]
  {
    if assignments != [] {
      InvestorsOfLength(assignments[1..], propertyId);
      assert PropertyColumn(assignments) == [assignments[0].propertyId] + PropertyColumn(assignments[1..]);
    }
  }

  /** An explicit recipient, or else every investor of the property. */
  function RecipientsFor(req: PostRequest, assignments: seq<UserProperty>): (r: seq<Id>)
    requires HasRequiredFields(req)
    ensures Truthy(req.recipientId) ==> r == [req.recipientId.value]
    ensures !Truthy(req.recipientId) ==> forall u :: u in r <==> UserProperty(u, req.propertyId.value) in assignments
    ensures |r| <= |assignments| + 1
  {
    if Truthy(req.recipientId) then [req.recipientId.value] else InvestorsOf(assignments, req.propertyId.value)
  }

  /** How many rows a send creates, and for whom: one for an explicit recipient; otherwise one
      per assignment record of the property, so each investor as often as they are assigned,
      and POST's `count` is the number of the property's assignment records. */
  lemma RecipientsForCount(req: PostRequest, assignments: seq<UserProperty>, u: Id)
    requires HasRequiredFields(req)
    ensures Truthy(req.recipientId) ==> |RecipientsFor(req, assignments)| == 1
    ensures !Truthy(req.recipientId) ==>
              && multiset(RecipientsFor(req, assignments))[u] == multiset(assignments)[UserProperty(u, req.propertyId.value)]
              && |RecipientsFor(req, assignments)| == multiset(PropertyColumn(assignments))[req.propertyId.value]
  {
    InvestorsOfCount(assignments, req.propertyId.value, u);
    InvestorsOfLength(assignments, req.propertyId.value);
  }

  /** The row created for one recipient, stamped with the send date the database gives it. */
  function NewRow(req: PostRequest, senderId: Id, recipient: Id, rowId: Id, groupId: Option<Id>, sentMs: int): Message
    requires HasRequiredFields(req)
  {
    Message(rowId, req.subject.value, req.message.value, req.propertyId.value, senderId,
            Some(recipient), groupId, sentMs, req.emailNotification)
  }

  /** The rows created for the first `n` recipients, in recipient order; row `k` gets id
      `rowIds[k]` and send date `times[k]`. */
  function RowsFor(req: PostRequest, senderId: Id, recipients: seq<Id>, rowIds: seq<Id>, groupId: Option<Id>,
                   times: seq<int>, n: nat): (rows: seq<Message>)
    requires HasRequiredFields(req) && n <= |recipients| && n <= |rowIds| && n <= |times|
    ensures |rows| == n
  {
    if n == 0 then []
    else RowsFor(req, senderId, recipients, rowIds, groupId, times, n - 1)
           + [NewRow(req, senderId, recipients[n - 1], rowIds[n - 1], groupId, times[n - 1])]
  }

  /** The notifications for the first `n` recipients: one per recipient with an e-mail address,
      when the request asks for them. */
  function NotificationsBelow(wanted: bool, recipients: seq<Id>, n: nat, emails: map<Id, string>,
                              mailer: string -> bool): (r: seq<EmailAttempt>)
    requires n <= |recipients|
    ensures |r| <= n
    ensures !wanted ==> r == []
  {
    if n == 0 then []
    else
      var r := recipients[n - 1];
      NotificationsBelow(wanted, recipients, n - 1, emails, mailer)
        + (if wanted && r in emails && emails[r] != "" then [EmailAttempt(emails[r], mailer(emails[r]))] else [])
  }

  /** Every attempt goes to the address of one of the first `n` recipients and records what the
      mailer answered; when notification is asked for, every one of them with an address gets one. */
  lemma {:induction false} NotificationsAddressed(wanted: bool, recipients: seq<Id>, n: nat, emails: map<Id, string>,
                                                  mailer: string -> bool)
    requires n <= |recipients|
    ensures forall a :: a in NotificationsBelow(wanted, recipients, n, emails, mailer) ==>
              && wanted && a.to != "" && a.delivered == mailer(a.to)
              && exists i :: 0 <= i < n && recipients[i] in emails && emails[recipients[i]] == a.to
    ensures forall i :: 0 <= i < n && wanted && recipients[i] in emails && emails[recipients[i]] != "" ==>
              EmailAttempt(emails[recipients[i]], mailer(emails[recipients[i]]))
                in NotificationsBelow(wanted, recipients, n, emails, mailer)
  {
    if n > 0 {
      NotificationsAddressed(wanted, recipients, n - 1, emails, mailer);
      var r := recipients[n - 1];
      var added := if wanted && r in emails && emails[r] != "" then [EmailAttempt(emails[r], mailer(emails[r]))] else [];
      assert NotificationsBelow(wanted, recipients, n, emails, mailer) ==
             NotificationsBelow(wanted, recipients, n - 1, emails, mailer) + added;
    }
  }

  /** How many attempts went to address `a`. */
  function AttemptsTo(attempts: seq<EmailAttempt>, a: string): nat
  {
    if attempts == [] then 0
    else AttemptsTo(attempts[..|attempts| - 1], a) + (if attempts[|attempts| - 1].to == a then 1 else 0)
  }

  /** How many of the first `n` recipients have the e-mail address `a`. */
  function AddressedBelow(recipients: seq<Id>, n: nat, emails: map<Id, string>, a: string): nat
    requires n <= |recipients|
  {
    if n == 0 then 0
    else AddressedBelow(recipients, n - 1, emails, a)
           + (if recipients[n - 1] in emails && emails[recipients[n - 1]] == a then 1 else 0)
  }

  /** One attempt per recipient with an address: a non-empty address is mailed, when asked, as
      many times as recipients have it, and never otherwise. */
  lemma {:induction false} NotificationsCount(wanted: bool, recipients: seq<Id>, n: nat, emails: map<Id, string>,
                                              mailer: string -> bool, a: string)
    requires n <= |recipients|
    ensures AttemptsTo(NotificationsBelow(wanted, recipients, n, emails, mailer), a) ==
            if wanted && a != "" then AddressedBelow(recipients, n, emails, a) else 0
  {
    if n > 0 {
      NotificationsCount(wanted, recipients, n - 1, emails, mailer, a);
      var r := recipients[n - 1];
      var before := NotificationsBelow(wanted, recipients, n - 1, emails, mailer);
      var hit := if r in emails && emails[r] == a then 1 else 0;
      assert AddressedBelow(recipients, n, emails, a) == AddressedBelow(recipients, n - 1, emails, a) + hit;
      if wanted && r in emails && emails[r] != "" {
        var e := EmailAttempt(emails[r], mailer(emails[r]));
        assert NotificationsBelow(wanted, recipients, n, emails, mailer) == before + [e];
        AttemptsToSnoc(before, e, a);
        assert (if e.to == a then 1 else 0) == (if a != "" then hit else 0);
      } else {
        assert NotificationsBelow(wanted, recipients, n, emails, mailer) == before + [];
        assert before + [] == before;
        assert wanted && a != "" ==> hit == 0;
      }
    }
  }

  lemma AttemptsToSnoc(attempts: seq<EmailAttempt>, e: EmailAttempt, a: string)
    ensures AttemptsTo(attempts + [e], a) == AttemptsTo(attempts, a) + (if e.to == a then 1 else 0)
  {
    assert (attempts + [e])[..|attempts|] == attempts;
  }

  /** `POST`: validate the body, pick the recipients, share one new groupId when there is more
      than one, create one row per recipient and try to notify each; a failed e-mail is only
      recorded. `rowIds` stands for the ids the database gives new rows, `freshGroup` for
      `uuidv4()`, `times` for the default send date each insert receives (the clock at that
      insert, read once per row), `mailer` for `sendEmail`. */
  method Post(authorized: bool, senderId: Id, req: PostRequest, table: seq<Message>, assignments: seq<UserProperty>,
              rowIds: seq<Id>, freshGroup: Id, times: seq<int>, emails: map<Id, string>,
              mailer: string -> bool)
      returns (resp: Response<Sent>, newTable: seq<Message>, attempts: seq<EmailAttempt>)
    requires |rowIds| > |assignments| && |times| > |assignments|
    ensures !authorized ==> resp == Failure(401, "Unauthorized") && newTable == table && attempts == []
    ensures authorized && !HasRequiredFields(req) ==>
              resp == Failure(400, RequiredFieldsError) && newTable == table && attempts == []
    ensures authorized && HasRequiredFields(req) ==>
              var recipients := RecipientsFor(req, assignments);
              var groupId := if |recipients| > 1 then Some(freshGroup) else None;
              var rows := RowsFor(req, senderId, recipients, rowIds, groupId, times, |recipients|);
              && resp == Ok(Sent(rows, |recipients|))
              && newTable == table + rows
              && attempts == NotificationsBelow(req.emailNotification, recipients, |recipients|, emails, mailer)
  {
    if !authorized {
      return Failure(401, "Unauthorized"), table, [];
    }
    if !HasRequiredFields(req) {
      return Failure(400, RequiredFieldsError), table, [];
    }
    var recipients := if Truthy(req.recipientId) then [req.recipientId.value]
                      else InvestorsOf(assignments, req.propertyId.value);
    var groupId := if |recipients| > 1 then Some(freshGroup) else None;
    var createdMessages: seq<Message> := [];
    newTable, attempts := table, [];
    var k := 0;
    while k < |recipients|
      invariant 0 <= k <= |recipients|
      invariant createdMessages == RowsFor(req, senderId, recipients, rowIds, groupId, times, k)
      invariant newTable == table + createdMessages
      invariant attempts == NotificationsBelow(req.emailNotification, recipients, k, emails, mailer)
    {
      var target := recipients[k];
      var newMessage := Message(rowIds[k], req.subject.value, req.message.value, req.propertyId.value, senderId,
                                Some(target), groupId, times[k], req.emailNotification);
      newTable := newTable + [newMessage];
      createdMessages := createdMessages + [newMessage];
      if req.emailNotification && target in emails && emails[target] != "" {
        var delivered := mailer(emails[target]);
        attempts := attempts + [EmailAttempt(emails[target], delivered)];
      }
      k := k + 1;
    }
    return Ok(Sent(createdMessages, |createdMessages|)), newTable, attempts;
  }

  /** Row `k` of a send is the row for recipient `k`: the request's fields, the caller as
      sender and the shared groupId. */
  lemma {:induction false} RowsForAt(req: PostRequest, senderId: Id, recipients: seq<Id>, rowIds: seq<Id>,
                                     groupId: Option<Id>, times: seq<int>, n: nat, k: nat)
    requires HasRequiredFields(req) && n <= |recipients| && n <= |rowIds| && n <= |times| && k < n
    ensures RowsFor(req, senderId, recipients, rowIds, groupId, times, n)[k] ==
            NewRow(req, senderId, recipients[k], rowIds[k], groupId, times[k])
  {
    if k < n - 1 {
      RowsForAt(req, senderId, recipients, rowIds, groupId, times, n - 1, k);
    }
  }

  /** What a successful POST creates: one row per recipient, each with the request's subject,
      message and property and the caller as sender; all rows share one groupId, which is set
      exactly when there is more than one recipient and then names no earlier row; an explicit
      recipient gives exactly one row. */
  lemma SentRows(senderId: Id, req: PostRequest, table: seq<Message>, assignments: seq<UserProperty>,
                 rowIds: seq<Id>, freshGroup: Id, times: seq<int>)
    requires HasRequiredFields(req) && |rowIds| > |assignments| && |times| > |assignments|
    requires freshGroup != "" && forall j :: 0 <= j < |table| ==> table[j].groupId != Some(freshGroup)
    ensures var recipients := RecipientsFor(req, assignments);
            var groupId := if |recipients| > 1 then Some(freshGroup) else None;
            var rows := RowsFor(req, senderId, recipients, rowIds, groupId, times, |recipients|);
            && (Truthy(req.recipientId) ==> |rows| == 1)
            && (forall k :: 0 <= k < |rows| ==>
                  && rows[k].recipientId == Some(recipients[k])
                  && rows[k].subject == req.subject.value && rows[k].body == req.message.value
                  && rows[k].propertyId == req.propertyId.value && rows[k].senderId == senderId
                  && rows[k].id == rowIds[k] && rows[k].sentMs == times[k]
                  && rows[k].emailNotification == req.emailNotification
                  && rows[k].groupId == rows[0].groupId
                  && (rows[k].groupId.Some? <==> |rows| > 1)
                  && (|rows| > 1 ==>
                        && GroupOf(rows[k]) == Some(freshGroup)
                        && forall j :: 0 <= j < |table| ==> table[j].groupId != rows[k].groupId))
  {
    var recipients := RecipientsFor(req, assignments);
    var groupId := if |recipients| > 1 then Some(freshGroup) else None;
    forall k | 0 <= k < |recipients|
      ensures RowsFor(req, senderId, recipients, rowIds, groupId, times, |recipients|)[k] ==
              NewRow(req, senderId, recipients[k], rowIds[k], groupId, times[k])
    {
      RowsForAt(req, senderId, recipients, rowIds, groupId, times, |recipients|, k);
    }
  }
}
