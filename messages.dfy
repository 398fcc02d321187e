/** The stored message row shared by the migration, the admin route and the audit script,
    with the row filters that several of them use. */
module Messages {
  import opened Options

  /** Database ids (cuid/uuid strings) and user ids. */
  type Id = string

  /** One row of the message table. `recipientId` is null for a row without a recipient,
      `groupId` is null for a row that is not part of a multi-recipient send, and
      `sentMs` is the send time in milliseconds since the epoch. */
  datatype Message = Message(
    id: Id,
    subject: string,
    body: string,
    propertyId: Id,
    senderId: Id,
    recipientId: Option<Id>,
    groupId: Option<Id>,
    sentMs: int,
    emailNotification: bool)

  /** JavaScript truthiness of an optional string: null, undefined and "" are all falsy. */
  predicate Truthy(s: Option<string>)
  {
    s.Some? && s.value != ""
  }

  /** The group a row belongs to as the admin listing and the audit script see it:
      `if (message.groupId)` treats an empty groupId like a missing one. */
  function GroupOf(m: Message): Option<Id>
  {
    if Truthy(m.groupId) then m.groupId else None
  }

  /** The rows among the first `n` whose groupId is exactly `g`, in table order. */
  function GroupRowsBelow(rows: seq<Message>, n: nat, g: Id): (r: seq<Message>)
    requires n <= |rows|
    ensures |r| <= n
    ensures forall m :: m in r ==> m.groupId == Some(g)
  {
    if n == 0 then []
    else GroupRowsBelow(rows, n - 1, g) + (if rows[n - 1].groupId == Some(g) then [rows[n - 1]] else [])
  }

  /** The rows whose groupId is exactly `g` (`findMany({ where: { groupId } })`), in table order. */
  function RowsOfGroup(rows: seq<Message>, g: Id): seq<Message>
  {
    GroupRowsBelow(rows, |rows|, g)
  }

  /** The rows among the first `n` that display on their own because their groupId is falsy. */
  function SinglesBelow(rows: seq<Message>, n: nat): (r: seq<Message>)
    requires n <= |rows|
    ensures |r| <= n
    ensures forall m :: m in r ==> GroupOf(m).None?
  {
    if n == 0 then []
    else SinglesBelow(rows, n - 1) + (if GroupOf(rows[n - 1]).None? then [rows[n - 1]] else [])
  }

  function SingleRows(rows: seq<Message>): seq<Message>
  {
    SinglesBelow(rows, |rows|)
  }

  /** The groupId column of a table, as an independent way to count a group's rows. */
  function GroupIdColumn(rows: seq<Message>): (c: seq<Option<Id>>)
    ensures |c| == |rows|
  {
    seq(|rows|, j requires 0 <= j < |rows| => rows[j].groupId)
  }

  /** The set of truthy groupIds among the first `n` rows. */
  function GroupIdsBelow(rows: seq<Message>, n: nat): set<Id>
    requires n <= |rows|
  {
    if n == 0 then {}
    else GroupIdsBelow(rows, n - 1) + (if GroupOf(rows[n - 1]).Some? then {rows[n - 1].groupId.value} else {})
  }

  function GroupIdsIn(rows: seq<Message>): set<Id>
  {
    GroupIdsBelow(rows, |rows|)
  }

  /** A groupId is among those of the first `n` rows exactly when one of them has it (truthy). */
  lemma {:induction false} GroupIdsBelowMember(rows: seq<Message>, n: nat, g: Id)
    requires n <= |rows|
    ensures g in GroupIdsBelow(rows, n) <==> exists j :: 0 <= j < n && GroupOf(rows[j]) == Some(g)
  {
    if n > 0 {
      GroupIdsBelowMember(rows, n - 1, g);
      if GroupOf(rows[n - 1]) == Some(g) {
        assert g in GroupIdsBelow(rows, n);
      }
    }
  }

  /** A group's row count is the number of times its id occurs in the groupId column. */
  lemma {:induction false} GroupRowsCount(rows: seq<Message>, n: nat, g: Id)
    requires n <= |rows|
    ensures |GroupRowsBelow(rows, n, g)| == multiset(GroupIdColumn(rows)[..n])[Some(g)]
  {
    if n > 0 {
      GroupRowsCount(rows, n - 1, g);
      assert GroupIdColumn(rows)[..n] == GroupIdColumn(rows)[..n - 1] + [rows[n - 1].groupId];
    }
  }

  lemma RowsOfGroupCount(rows: seq<Message>, g: Id)
    ensures |RowsOfGroup(rows, g)| == multiset(GroupIdColumn(rows))[Some(g)]
  {
    GroupRowsCount(rows, |rows|, g);
    assert GroupIdColumn(rows)[..|rows|] == GroupIdColumn(rows);
  }

  /** A truthy group with no row among the first `n` has no rows there. */
  lemma {:induction false} GroupRowsAbsent(rows: seq<Message>, n: nat, g: Id)
    requires n <= |rows| && g != "" && g !in GroupIdsBelow(rows, n)
    ensures GroupRowsBelow(rows, n, g) == []
  {
    if n > 0 {
      GroupRowsAbsent(rows, n - 1, g);
    }
  }
}
