/** The one-off reconciliation of legacy rows (scripts/migrate-message-groups.js): rows that
    have no groupId and share sender, property, subject and minute of sending are taken to be
    one multi-recipient send, and each such partition of two or more rows gets one new groupId. */
module Migration {
  import opened Options
  import opened Messages
  import Decimal

  /** `Math.floor(sentMs / 60000)`: the minute a row was sent in. Dafny's `/` with a positive
      divisor is floor division, also for times before the epoch. */
  function MinuteBucket(ms: int): (b: int)
    ensures b * 60000 <= ms < b * 60000 + 60000
  {
    ms / 60000
  }

  /** The partition key, as a tuple of its four parts. */
  datatype GroupKey = GroupKey(senderId: Id, propertyId: Id, subject: string, minute: int)

  function KeyOf(m: Message): GroupKey
  {
    GroupKey(m.senderId, m.propertyId, m.subject, MinuteBucket(m.sentMs))
  }

  /** The migration only looks at rows whose groupId is null (`where: { groupId: null }`). */
  predicate InPartition(m: Message, k: GroupKey)
  {
    m.groupId.None? && KeyOf(m) == k
  }

  /** Number of ungrouped rows with key `k` among the first `n` rows of `t`. */
  function CountBelow(t: seq<Message>, n: nat, k: GroupKey): (c: nat)
    requires n <= |t|
    ensures c <= n
  {
    if n == 0 then 0 else CountBelow(t, n - 1, k) + (if InPartition(t[n - 1], k) then 1 else 0)
  }

  /** Number of ungrouped rows of `t` with key `k`. */
  function PartitionSize(t: seq<Message>, k: GroupKey): nat
  {
    CountBelow(t, |t|, k)
  }

  /** Row `j` is ungrouped and shares its key with at least one other ungrouped row. */
  predicate NeedsGroup(t: seq<Message>, j: int)
    requires 0 <= j < |t|
  {
    t[j].groupId.None? && PartitionSize(t, KeyOf(t[j])) > 1
  }

  /** The rows the migration updates. */
  function Regrouped(t: seq<Message>): set<int>
  {
    set j | 0 <= j < |t| && NeedsGroup(t, j)
  }

  /** What `uuidv4()` promises: pairwise distinct ids that no row uses as its groupId yet. */
  predicate FreshSupply(t: seq<Message>, supply: seq<Id>)
  {
    && (forall a, b :: 0 <= a < b < |supply| ==> supply[a] != supply[b])
    && (forall a, j :: 0 <= a < |supply| && 0 <= j < |t| ==> t[j].groupId != Some(supply[a]))
  }

  /** `u` is a possible outcome of migrating `t` with ids drawn from `supply`. */
  predicate IsMigration(t: seq<Message>, supply: seq<Id>, u: seq<Message>)
  {
    && |u| == |t|
    // rows that already had a groupId, and rows alone in their partition, are untouched
    && (forall j :: 0 <= j < |t| && !NeedsGroup(t, j) ==> u[j] == t[j])
    // the other rows get an id from the supply, and nothing but their groupId changes
    && (forall j :: 0 <= j < |t| && NeedsGroup(t, j) ==>
          u[j].groupId.Some? && u[j].groupId.value in supply && u[j] == t[j].(groupId := u[j].groupId))
    // two updated rows share their new id exactly when they share their key
    && (forall i, j :: 0 <= i < |t| && 0 <= j < |t| && NeedsGroup(t, i) && NeedsGroup(t, j) ==>
          (u[i].groupId == u[j].groupId <==> KeyOf(t[i]) == KeyOf(t[j])))
  }

  /** What the row looks like once every key in `issued` has its id. */
  function Target(m: Message, issued: map<GroupKey, Id>): Message
  {
    if m.groupId.None? && KeyOf(m) in issued then m.(groupId := Some(issued[KeyOf(m)])) else m
  }

  /** The ungrouped rows whose key already has an id. */
  function Covered(t: seq<Message>, issued: map<GroupKey, Id>): set<int>
  {
    set j | 0 <= j < |t| && t[j].groupId.None? && KeyOf(t[j]) in issued
  }

  predicate Increasing(s: seq<nat>)
  {
    forall a, b :: 0 <= a < b < |s| ==> s[a] < s[b]
  }

  /** `members` lists, in increasing order, exactly the ungrouped rows of `t[..n]` with key `k`. */
  predicate ListsPrefix(t: seq<Message>, n: nat, k: GroupKey, members: seq<nat>)
    requires n <= |t|
  {
    && Increasing(members)
    && (forall q :: 0 <= q < |members| ==> members[q] < n && InPartition(t[members[q]], k))
    && (forall j :: 0 <= j < n && InPartition(t[j], k) ==> j in members)
  }

  predicate ListsPartition(t: seq<Message>, k: GroupKey, members: seq<nat>)
  {
    ListsPrefix(t, |t|, k, members)
  }

  /** Pushing row `n` onto the list of its own key keeps every list exact. */
  lemma ListsPrefixStep(t: seq<Message>, n: nat, k: GroupKey, members: seq<nat>)
    requires n < |t| && ListsPrefix(t, n, k, members)
    ensures ListsPrefix(t, n + 1, k, if InPartition(t[n], k) then members + [n] else members)
  {
    if InPartition(t[n], k) {
      var grown := members + [n];
      forall a, b | 0 <= a < b < |grown| ensures grown[a] < grown[b] {
        assert grown[a] == members[a];
        if b < |members| {
          assert grown[b] == members[b];
        }
      }
      assert grown[|members|] == n;
    }
  }

  /** The `messageGroups` map and its insertion order `order` after the first pass. */
  ghost predicate IsPartitioning(t: seq<Message>, groups: map<GroupKey, seq<nat>>, order: seq<GroupKey>)
  {
    && |order| <= |t|
    && (forall a, b :: 0 <= a < b < |order| ==> order[a] != order[b])
    && (forall k :: k in groups <==> k in order)
    && (forall k :: k in groups ==> 1 <= |groups[k]| == PartitionSize(t, k) && ListsPartition(t, k, groups[k]))
    && (forall j :: 0 <= j < |t| && t[j].groupId.None? ==> KeyOf(t[j]) in groups)
  }

  /** `order` lists the keys of `groups` once each, as a JavaScript Map keeps them. */
  ghost predicate KeyOrder(groups: map<GroupKey, seq<nat>>, order: seq<GroupKey>)
  {
    && (forall a, b :: 0 <= a < b < |order| ==> order[a] != order[b])
    && (forall k :: k in groups <==> k in order)
  }

  /** The lists of the first loop after `n` rows. */
  ghost predicate PrefixPartitioned(t: seq<Message>, n: nat, groups: map<GroupKey, seq<nat>>)
    requires n <= |t|
  {
    && (forall k :: k in groups ==> 1 <= |groups[k]| == CountBelow(t, n, k) && ListsPrefix(t, n, k, groups[k]))
    && (forall k :: k !in groups ==> CountBelow(t, n, k) == 0 && ListsPrefix(t, n, k, []))
    && (forall j :: 0 <= j < n && t[j].groupId.None? ==> KeyOf(t[j]) in groups)
  }

  /** The map update of one iteration of the first loop. */
  function Push(groups: map<GroupKey, seq<nat>>, k: GroupKey, n: nat): map<GroupKey, seq<nat>>
  {
    groups[k := (if k in groups then groups[k] else []) + [n]]
  }

  lemma KeyOrderStep(groups: map<GroupKey, seq<nat>>, order: seq<GroupKey>, k: GroupKey, n: nat)
    requires KeyOrder(groups, order)
    ensures KeyOrder(Push(groups, k, n), if k in groups then order else order + [k])
  {
  }

  lemma PrefixPartitionedStep(t: seq<Message>, n: nat, groups: map<GroupKey, seq<nat>>, groups': map<GroupKey, seq<nat>>)
    requires n < |t| && PrefixPartitioned(t, n, groups)
    requires groups' == if t[n].groupId.None? then Push(groups, KeyOf(t[n]), n) else groups
    ensures PrefixPartitioned(t, n + 1, groups')
  {
    forall k | k in groups' ensures 1 <= |groups'[k]| == CountBelow(t, n + 1, k) && ListsPrefix(t, n + 1, k, groups'[k]) {
      if k in groups {
        ListsPrefixStep(t, n, k, groups[k]);
      } else {
        ListsPrefixStep(t, n, k, []);
      }
    }
    forall k | k !in groups' ensures CountBelow(t, n + 1, k) == 0 && ListsPrefix(t, n + 1, k, []) {
      ListsPrefixStep(t, n, k, []);
    }
  }

  /** One iteration of the first loop: push row `n` onto the list of its key, opening the list
      (and recording the key) when the key is new. */
  method PushRow(table: seq<Message>, n: nat, groups: map<GroupKey, seq<nat>>, order: seq<GroupKey>)
      returns (groups': map<GroupKey, seq<nat>>, order': seq<GroupKey>)
    requires n < |table| && |order| <= n && KeyOrder(groups, order) && PrefixPartitioned(table, n, groups)
    ensures |order'| <= n + 1 && KeyOrder(groups', order') && PrefixPartitioned(table, n + 1, groups')
  {
    var m := table[n];
    groups', order' := groups, order;
    if m.groupId.None? {
      var k := KeyOf(m);
      KeyOrderStep(groups, order, k, n);
      if k !in groups' {
        groups' := groups'[k := []];
        order' := order' + [k];
      }
      groups' := groups'[k := groups'[k] + [n]];
      assert groups' == Push(groups, k, n);
    }
    PrefixPartitionedStep(table, n, groups, groups');
  }

  lemma PartitionDone(t: seq<Message>, groups: map<GroupKey, seq<nat>>, order: seq<GroupKey>)
    requires |order| <= |t| && KeyOrder(groups, order) && PrefixPartitioned(t, |t|, groups)
    ensures IsPartitioning(t, groups, order)
  {
  }

  /** The first loop of `migrateMessageGroups`: every ungrouped row is pushed onto the list of its key. */
  method PartitionByKey(table: seq<Message>) returns (groups: map<GroupKey, seq<nat>>, order: seq<GroupKey>)
    ensures IsPartitioning(table, groups, order)
  {
    groups, order := map[], [];
    var i := 0;
    while i < |table|
      invariant 0 <= i <= |table|
      invariant |order| <= i
      invariant KeyOrder(groups, order)
      invariant PrefixPartitioned(table, i, groups)
    {
      groups, order := PushRow(table, i, groups, order);
      i := i + 1;
    }
    PartitionDone(table, groups, order);
  }

  /** The inner loop: write `g` into the groupId of every listed row. */
  method StampGroup(rows: seq<Message>, members: seq<nat>, g: Id) returns (r: seq<Message>)
    requires forall q :: 0 <= q < |members| ==> members[q] < |rows|
    ensures |r| == |rows|
    ensures forall j :: 0 <= j < |rows| ==>
              r[j] == if j in members then rows[j].(groupId := Some(g)) else rows[j]
  {
    r := rows;
    var q := 0;
    while q < |members|
      invariant 0 <= q <= |members|
      invariant |r| == |rows|
      invariant forall j :: 0 <= j < |rows| ==>
                  r[j] == if j in members[..q] then rows[j].(groupId := Some(g)) else rows[j]
    {
      r := r[members[q] := rows[members[q]].(groupId := Some(g))];
      q := q + 1;
      assert members[..q] == members[..q - 1] + [members[q - 1]];
    }
    assert members[..q] == members;
  }

  function Elems(s: seq<nat>): set<nat>
  {
    set x | x in s
  }

  lemma {:induction false} IncreasingCard(s: seq<nat>)
    requires Increasing(s)
    ensures |Elems(s)| == |s|
  {
    if s != [] {
      var n := |s| - 1;
      var init := s[..n];
      IncreasingCard(init);
      forall x | x in Elems(s) ensures x in Elems(init) || x == s[n] {
        var a :| 0 <= a < |s| && s[a] == x;
        if a < n {
          assert init[a] == x;
        }
      }
      forall x | x in Elems(init) ensures x in Elems(s) {
        var a :| 0 <= a < n && init[a] == x;
        assert s[a] == x;
      }
      assert s[n] in Elems(s);
      assert Elems(s) == Elems(init) + {s[n]};
      assert s[n] !in Elems(init) by {
        forall a | 0 <= a < n ensures init[a] != s[n] {
          assert init[a] == s[a];
        }
      }
    }
  }

  /** Issuing an id for key `k` covers exactly the rows of its partition in addition. */
  lemma CoveredStep(t: seq<Message>, issued: map<GroupKey, Id>, k: GroupKey, g: Id, members: seq<nat>)
    requires k !in issued && ListsPartition(t, k, members)
    ensures Covered(t, issued[k := g]) == Covered(t, issued) + Elems(members)
    ensures |Covered(t, issued[k := g])| == |Covered(t, issued)| + |members|
  {
    var old_, new_, ms := Covered(t, issued), Covered(t, issued[k := g]), Elems(members);
    forall x | x in ms ensures x in new_ && x !in old_ {
      var q :| 0 <= q < |members| && members[q] == x;
      assert InPartition(t[x], k);
    }
    forall x | x in new_ ensures x in old_ || x in ms {
      if KeyOf(t[x]) == k {
        assert InPartition(t[x], k);
      }
    }
    assert new_ == old_ + ms;
    IncreasingCard(members);
  }

  /** Stamping the rows of partition `k` with `g` moves every row to its target under `issued[k := g]`. */
  lemma TargetStep(t: seq<Message>, issued: map<GroupKey, Id>, k: GroupKey, g: Id, members: seq<nat>,
                   before: seq<Message>, after: seq<Message>)
    requires k !in issued && ListsPartition(t, k, members)
    requires |before| == |t| && forall j :: 0 <= j < |t| ==> before[j] == Target(t[j], issued)
    requires |after| == |t|
    requires forall j :: 0 <= j < |t| ==>
               after[j] == if j in members then before[j].(groupId := Some(g)) else before[j]
    ensures forall j :: 0 <= j < |t| ==> after[j] == Target(t[j], issued[k := g])
  {
    forall j | 0 <= j < |t| ensures after[j] == Target(t[j], issued[k := g]) {
      if j in members {
        var q :| 0 <= q < |members| && members[q] == j;
      }
    }
  }

  /** Bookkeeping of the second loop after `p` keys of `order`, `used` ids of the supply:
      `pos` says where each issued key stands in `order`, `slot` which id of the supply it took. */
  ghost predicate IssuedSoFar(groups: map<GroupKey, seq<nat>>, order: seq<GroupKey>, supply: seq<Id>, p: nat, used: nat,
                              issued: map<GroupKey, Id>, pos: map<GroupKey, nat>, slot: map<GroupKey, nat>)
  {
    && p <= |order| && used <= p && used <= |supply|
    && (forall q :: 0 <= q < p && order[q] in groups ==> (order[q] in issued <==> |groups[order[q]]| > 1))
    && (forall k :: k in issued ==>
          k in pos && pos[k] < p && order[pos[k]] == k &&
          k in slot && slot[k] < used && supply[slot[k]] == issued[k])
    && (forall k1, k2 :: k1 in issued && k2 in issued && k1 != k2 ==> issued[k1] != issued[k2])
  }

  lemma IssuedSoFarStep(groups: map<GroupKey, seq<nat>>, order: seq<GroupKey>, supply: seq<Id>, p: nat, used: nat,
                        issued: map<GroupKey, Id>, pos: map<GroupKey, nat>, slot: map<GroupKey, nat>)
    requires IssuedSoFar(groups, order, supply, p, used, issued, pos, slot)
    requires forall a, b :: 0 <= a < b < |order| ==> order[a] != order[b]
    requires forall a, b :: 0 <= a < b < |supply| ==> supply[a] != supply[b]
    requires p < |order| && used < |supply| && order[p] in groups
    ensures order[p] !in issued
    ensures |groups[order[p]]| > 1 ==>
              IssuedSoFar(groups, order, supply, p + 1, used + 1,
                          issued[order[p] := supply[used]], pos[order[p] := p], slot[order[p] := used])
    ensures |groups[order[p]]| <= 1 ==> IssuedSoFar(groups, order, supply, p + 1, used, issued, pos, slot)
  {
    var k, g := order[p], supply[used];
    forall k' | k' in issued ensures issued[k'] != g {
      assert supply[slot[k']] == issued[k'] && slot[k'] < used;
    }
  }

  /** The second loop of `migrateMessageGroups`: partitions of more than one row, in insertion
      order, each take the next id of the supply. */
  method AssignIds(table: seq<Message>, supply: seq<Id>, groups: map<GroupKey, seq<nat>>, order: seq<GroupKey>)
      returns (updated: seq<Message>, updatedCount: nat, ghost issued: map<GroupKey, Id>)
    requires IsPartitioning(table, groups, order)
    requires forall a, b :: 0 <= a < b < |supply| ==> supply[a] != supply[b]
    requires |supply| >= |order|
    ensures forall k :: k in issued <==> k in groups && |groups[k]| > 1
    ensures forall k :: k in issued ==> issued[k] in supply
    ensures forall k1, k2 :: k1 in issued && k2 in issued && k1 != k2 ==> issued[k1] != issued[k2]
    ensures |updated| == |table|
    ensures forall j :: 0 <= j < |table| ==> updated[j] == Target(table[j], issued)
    ensures updatedCount == |Covered(table, issued)|
  {
    updated, updatedCount := table, 0;
    var used := 0;
    issued := map[];
    ghost var pos: map<GroupKey, nat> := map[];
    ghost var slot: map<GroupKey, nat> := map[];
    var p := 0;
    while p < |order|
      invariant 0 <= p <= |order|
      invariant IssuedSoFar(groups, order, supply, p, used, issued, pos, slot)
      invariant |updated| == |table|
      invariant forall j :: 0 <= j < |table| ==> updated[j] == Target(table[j], issued)
      invariant updatedCount == |Covered(table, issued)|
    {
      var k := order[p];
      var members := groups[k];
      IssuedSoFarStep(groups, order, supply, p, used, issued, pos, slot);
      if |members| > 1 {
        var g := supply[used];
        ghost var before := updated;
        updated := StampGroup(updated, members, g);
        updatedCount := updatedCount + |members|;
        TargetStep(table, issued, k, g, members, before, updated);
        CoveredStep(table, issued, k, g, members);
        issued, pos, slot := issued[k := g], pos[k := p], slot[k := used];
        used := used + 1;
      }
      p := p + 1;
    }
    forall k | k in groups ensures k in issued <==> |groups[k]| > 1 {
      var q :| 0 <= q < |order| && order[q] == k;
    }
  }

  /** `migrateMessageGroups`: partition the ungrouped rows by key in first-appearance order,
      then give each partition of more than one row a new id from the supply. */
  method Migrate(table: seq<Message>, supply: seq<Id>) returns (updated: seq<Message>, updatedCount: nat)
    requires FreshSupply(table, supply) && |supply| >= |table|
    ensures IsMigration(table, supply, updated)
    ensures forall i, j :: 0 <= i < |table| && 0 <= j < |table| && NeedsGroup(table, j) ==>
              updated[j].groupId != table[i].groupId
    ensures updatedCount == |Regrouped(table)|
  {
    var groups, order := PartitionByKey(table);
    ghost var issued;
    updated, updatedCount, issued := AssignIds(table, supply, groups, order);
    assert Covered(table, issued) == Regrouped(table);
  }

  // ---------------------------------------------------------------------------------------
  // Properties of the migration

  lemma {:induction false} CountBelowHasMember(t: seq<Message>, n: nat, k: GroupKey, i: nat)
    requires i < n <= |t| && InPartition(t[i], k)
    ensures CountBelow(t, n, k) >= 1
  {
    if i < n - 1 {
      CountBelowHasMember(t, n - 1, k, i);
    }
  }

  lemma {:induction false} CountBelowHasTwo(t: seq<Message>, n: nat, k: GroupKey, i: nat, j: nat)
    requires i < j < n <= |t| && InPartition(t[i], k) && InPartition(t[j], k)
    ensures CountBelow(t, n, k) >= 2
  {
    if j < n - 1 {
      CountBelowHasTwo(t, n - 1, k, i, j);
    } else {
      CountBelowHasMember(t, n - 1, k, i);
    }
  }

  /** A table whose ungrouped rows of key `k` are among those of `t` has no larger partition `k`. */
  lemma {:induction false} CountBelowMonotone(t: seq<Message>, u: seq<Message>, n: nat, k: GroupKey)
    requires n <= |t| && n <= |u|
    requires forall i :: 0 <= i < n && InPartition(u[i], k) ==> InPartition(t[i], k)
    ensures CountBelow(u, n, k) <= CountBelow(t, n, k)
  {
    if n > 0 {
      CountBelowMonotone(t, u, n - 1, k);
    }
  }

  /** Two ungrouped rows with the same sender, property and subject, sent in the same minute,
      end up sharing one new non-null groupId. */
  lemma SameMinuteShareGroup(t: seq<Message>, supply: seq<Id>, u: seq<Message>, i: nat, j: nat)
    requires IsMigration(t, supply, u)
    requires i < |t| && j < |t| && i != j
    requires t[i].groupId.None? && t[j].groupId.None?
    requires t[i].senderId == t[j].senderId && t[i].propertyId == t[j].propertyId && t[i].subject == t[j].subject
    requires MinuteBucket(t[i].sentMs) == MinuteBucket(t[j].sentMs)
    ensures u[i].groupId.Some? && u[i].groupId == u[j].groupId
  {
    var k := KeyOf(t[i]);
    if i < j {
      CountBelowHasTwo(t, |t|, k, i, j);
    } else {
      CountBelowHasTwo(t, |t|, k, j, i);
    }
  }

  /** A run that stopped inside a partition leaves some of its rows with id `g` and the rest
      null. Rerunning then stamps two rows still null with one fresh id, never `g`: the send is
      split into two groups. */
  lemma RerunSplitsPartition(t: seq<Message>, supply: seq<Id>, u: seq<Message>, h: nat, i: nat, j: nat, g: Id)
    requires FreshSupply(t, supply) && IsMigration(t, supply, u)
    requires h < |t| && t[h].groupId == Some(g)
    requires i < |t| && j < |t| && i != j
    requires t[i].groupId.None? && t[j].groupId.None? && KeyOf(t[i]) == KeyOf(t[j])
    ensures u[i].groupId.Some? && u[i].groupId == u[j].groupId && u[i].groupId != Some(g)
  {
    SameMinuteShareGroup(t, supply, u, i, j);
    assert NeedsGroup(t, i);
    var a :| 0 <= a < |supply| && supply[a] == u[i].groupId.value;
    assert t[h].groupId != Some(supply[a]);
  }

  /** Rows sent one second either side of a minute boundary, two seconds apart, lie in different
      buckets: they never share a partition, and if both are regrouped their ids differ. */
  lemma MinuteBoundarySplits(t: seq<Message>, supply: seq<Id>, u: seq<Message>, i: nat, j: nat, minute: int)
    requires IsMigration(t, supply, u)
    requires i < |t| && j < |t|
    requires t[i].sentMs == minute * 60000 - 1000 && t[j].sentMs == minute * 60000 + 1000
    ensures MinuteBucket(t[i].sentMs) == minute - 1 && MinuteBucket(t[j].sentMs) == minute
    ensures forall k :: !(InPartition(t[i], k) && InPartition(t[j], k))
    ensures NeedsGroup(t, i) && NeedsGroup(t, j) ==> u[i].groupId != u[j].groupId
  {
    var bi, bj := MinuteBucket(t[i].sentMs), MinuteBucket(t[j].sentMs);
    assert bi == minute - 1 by {
      assert bi * 60000 <= minute * 60000 - 1000 < bi * 60000 + 60000;
    }
    assert bj == minute by {
      assert bj * 60000 <= minute * 60000 + 1000 < bj * 60000 + 60000;
    }
  }

  /** After one run no ungrouped row shares its key with another ungrouped row: a second run
      regroups nothing (its `updatedCount` is 0) and returns the table unchanged. A row still
      without a groupId after the first run was alone in its partition. */
  lemma MigrationIdempotent(t: seq<Message>, supply: seq<Id>, u: seq<Message>, supply2: seq<Id>, u2: seq<Message>)
    requires IsMigration(t, supply, u) && IsMigration(u, supply2, u2)
    ensures forall j :: 0 <= j < |u| && u[j].groupId.None? ==>
              t[j].groupId.None? && PartitionSize(t, KeyOf(t[j])) == 1
    ensures Regrouped(u) == {}
    ensures u2 == u
  {
    forall j | 0 <= j < |u| && u[j].groupId.None?
      ensures t[j].groupId.None? && PartitionSize(t, KeyOf(t[j])) == 1 && !NeedsGroup(u, j)
    {
      var k := KeyOf(t[j]);
      assert !NeedsGroup(t, j);
      CountBelowHasMember(t, |t|, k, j);
      forall i | 0 <= i < |u| && InPartition(u[i], k) ensures InPartition(t[i], k) {
        assert !NeedsGroup(t, i);
      }
      CountBelowMonotone(t, u, |u|, k);
    }
    assert Regrouped(u) == {} by {
      forall j | 0 <= j < |u| ensures !NeedsGroup(u, j) {
      }
    }
    assert forall j :: 0 <= j < |u| ==> u2[j] == u[j] by {
      forall j | 0 <= j < |u| ensures u2[j] == u[j] {
        assert j !in Regrouped(u);
      }
    }
  }

  // ---------------------------------------------------------------------------------------
  // The key as the script builds it

  /** The script's key: the four parts joined with "-" into one string. */
  function StringKey(m: Message): string
  {
    m.senderId + "-" + m.propertyId + "-" + m.subject + "-" + Decimal.IntToString(MinuteBucket(m.sentMs))
  }

  /** Rows from different senders and properties get the same string key as soon as an id
      contains "-": the joined key can merge rows the tuple key keeps apart. */
  lemma StringKeyCollides()
    ensures exists a: Message, b: Message :: KeyOf(a) != KeyOf(b) && StringKey(a) == StringKey(b)
  {
    var a := Message("m1", "Update", "", "c", "a-b", Some("u1"), None, 0, false);
    var b := Message("m2", "Update", "", "b-c", "a", Some("u2"), None, 0, false);
    assert KeyOf(a).senderId != KeyOf(b).senderId;
    assert StringKey(a) == "a-b-c-Update-" + Decimal.IntToString(0);
    assert StringKey(b) == "a-b-c-Update-" + Decimal.IntToString(0);
  }

  /** The tuple key: two rows share it exactly when sender, property, subject and minute agree. */
  lemma KeyOfSeparatesParts(a: Message, b: Message)
    ensures KeyOf(a) == KeyOf(b) <==>
              a.senderId == b.senderId && a.propertyId == b.propertyId && a.subject == b.subject &&
              MinuteBucket(a.sentMs) == MinuteBucket(b.sentMs)
  {
  }
}
