/** The grouping audit script (scripts/test-message-grouping.js): it splits every message row
    into per-group buckets and single rows and reports how many entries the grouped view saves. */
module GroupingAudit {
  import opened Options
  import opened Messages

  /** The numbers the script reports. */
  datatype Summary = Summary(
    total: nat,      // messages in the database
    inGroups: nat,   // messages in any bucket
    singles: nat,    // messages without a group
    groups: nat,     // number of buckets
    before: nat,     // entries without grouping
    after: nat,      // entries with grouping
    reduction: int)  // before - after

  /** The rows of the buckets named by the first `n` keys of `order`, counted together
      (`Array.from(groupedMessages.values()).flat().length`). */
  function SumSizesBelow(buckets: map<Id, seq<Message>>, order: seq<Id>, n: nat): nat
    requires n <= |order|
  {
    if n == 0 then 0
    else SumSizesBelow(buckets, order, n - 1) + (if order[n - 1] in buckets then |buckets[order[n - 1]]| else 0)
  }

  function SumSizes(buckets: map<Id, seq<Message>>, order: seq<Id>): nat
  {
    SumSizesBelow(buckets, order, |order|)
  }

  predicate Distinct(s: seq<Id>)
  {
    forall p, q :: 0 <= p < q < |s| ==> s[p] != s[q]
  }

  function KeySet(s: seq<Id>): set<Id>
  {
    set k | 0 <= k < |s| :: s[k]
  }

  /** The sum only sees the first `n` keys. */
  lemma {:induction false} SumPrefix(buckets: map<Id, seq<Message>>, o1: seq<Id>, o2: seq<Id>, n: nat)
    requires n <= |o1| && n <= |o2| && forall k :: 0 <= k < n ==> o1[k] == o2[k]
    ensures SumSizesBelow(buckets, o1, n) == SumSizesBelow(buckets, o2, n)
  {
    if n > 0 {
      SumPrefix(buckets, o1, o2, n - 1);
    }
  }

  /** Changing a bucket that is not among the first `n` keys leaves their sum alone. */
  lemma {:induction false} SumFrame(buckets: map<Id, seq<Message>>, order: seq<Id>, n: nat, g: Id, v: seq<Message>)
    requires n <= |order| && forall k :: 0 <= k < n ==> order[k] != g
    ensures SumSizesBelow(buckets[g := v], order, n) == SumSizesBelow(buckets, order, n)
  {
    if n > 0 {
      SumFrame(buckets, order, n - 1, g, v);
    }
  }

  /** Pushing a row onto a bucket named once among the first `n` keys adds one to their sum. */
  lemma {:induction false} SumBump(buckets: map<Id, seq<Message>>, order: seq<Id>, n: nat, g: Id, v: seq<Message>)
    requires n <= |order| && Distinct(order) && g in buckets && |v| == |buckets[g]| + 1
    requires exists k :: 0 <= k < n && order[k] == g
    ensures SumSizesBelow(buckets[g := v], order, n) == SumSizesBelow(buckets, order, n) + 1
  {
    if order[n - 1] == g {
      SumFrame(buckets, order, n - 1, g, v);
    } else {
      SumBump(buckets, order, n - 1, g, v);
    }
  }

  /** Opening a bucket under a new key adds its rows to the sum. */
  lemma SumOpen(buckets: map<Id, seq<Message>>, order: seq<Id>, g: Id, v: seq<Message>)
    requires forall k :: 0 <= k < |order| ==> order[k] != g
    ensures SumSizes(buckets[g := v], order + [g]) == SumSizes(buckets, order) + |v|
  {
    SumFrame(buckets, order, |order|, g, v);
    SumPrefix(buckets[g := v], order, order + [g], |order|);
  }

  /** Non-empty buckets hold at least one row each. */
  lemma {:induction false} SumAtLeast(buckets: map<Id, seq<Message>>, order: seq<Id>, n: nat)
    requires n <= |order| && forall k :: 0 <= k < n ==> order[k] in buckets && |buckets[order[k]]| >= 1
    ensures SumSizesBelow(buckets, order, n) >= n
  {
    if n > 0 {
      SumAtLeast(buckets, order, n - 1);
    }
  }

  /** A list without repeats has as many elements as its set. */
  lemma {:induction false} DistinctCard(s: seq<Id>)
    requires Distinct(s)
    ensures |KeySet(s)| == |s|
  {
    if s != [] {
      var s0 := s[..|s| - 1];
      DistinctCard(s0);
      assert s == s0 + [s[|s| - 1]];
      KeySetSnoc(s0, s[|s| - 1]);
      assert s[|s| - 1] !in KeySet(s0);
    }
  }

  lemma KeySetSnoc(s: seq<Id>, x: Id)
    ensures KeySet(s + [x]) == KeySet(s) + {x}
  {
    forall y | y in KeySet(s + [x]) ensures y in KeySet(s) + {x} {
      var k :| 0 <= k < |s| + 1 && (s + [x])[k] == y;
      if k < |s| {
        assert s[k] == y;
      }
    }
    forall y | y in KeySet(s) ensures y in KeySet(s + [x]) {
      var k :| 0 <= k < |s| && s[k] == y;
      assert (s + [x])[k] == y;
    }
    assert (s + [x])[|s|] == x;
  }

  /** The truthy groupIds of the first `n` rows, each once, in the order their first rows come
      (the insertion order of a JavaScript Map). */
  function FirstSeenBelow(all: seq<Message>, n: nat): seq<Id>
    requires n <= |all|
  {
    if n == 0 then []
    else
      var earlier := FirstSeenBelow(all, n - 1);
      if GroupOf(all[n - 1]).Some? && all[n - 1].groupId.value !in GroupIdsBelow(all, n - 1)
      then earlier + [all[n - 1].groupId.value]
      else earlier
  }

  function FirstSeen(all: seq<Message>): seq<Id>
  {
    FirstSeenBelow(all, |all|)
  }

  /** Every key listed is a truthy groupId of the rows so far. */
  lemma {:induction false} FirstSeenKeys(all: seq<Message>, n: nat, k: nat)
    requires n <= |all| && k < |FirstSeenBelow(all, n)|
    ensures FirstSeenBelow(all, n)[k] in GroupIdsBelow(all, n)
  {
    if k < |FirstSeenBelow(all, n - 1)| {
      FirstSeenKeys(all, n - 1, k);
    }
  }

  /** First-seen order: a row of a later-listed group always has a row of each earlier-listed
      group before it. */
  lemma {:induction false} FirstSeenPrecedes(all: seq<Message>, n: nat, p: nat, q: nat, j: nat)
    requires n <= |all| && p < q < |FirstSeenBelow(all, n)|
    requires j < n && GroupOf(all[j]) == Some(FirstSeenBelow(all, n)[q])
    ensures exists i :: 0 <= i < j && GroupOf(all[i]) == Some(FirstSeenBelow(all, n)[p])
  {
    var earlier := FirstSeenBelow(all, n - 1);
    var key := FirstSeenBelow(all, n)[p];
    assert p < |earlier| && earlier[p] == key;
    if j == n - 1 {
      FirstSeenKeys(all, n - 1, p);
      GroupIdsBelowMember(all, n - 1, key);
    } else {
      GroupIdsBelowMember(all, n - 1, FirstSeenBelow(all, n)[q]);
      assert q < |earlier| && earlier[q] == FirstSeenBelow(all, n)[q];
      FirstSeenPrecedes(all, n - 1, p, q, j);
    }
  }

  /** The bucket keys after the first `n` rows: every truthy groupId met, each once in `order`,
      in the order first met. */
  ghost predicate KeysMatch(all: seq<Message>, n: nat, buckets: map<Id, seq<Message>>, order: seq<Id>)
    requires n <= |all|
  {
    && Distinct(order) && KeySet(order) == buckets.Keys == GroupIdsBelow(all, n)
    && order == FirstSeenBelow(all, n)
  }

  /** The buckets after the first `n` rows: each holds its group's rows met so far, in order. */
  ghost predicate BucketsMatch(all: seq<Message>, n: nat, buckets: map<Id, seq<Message>>)
    requires n <= |all|
  {
    forall g :: g in buckets ==> buckets[g] == GroupRowsBelow(all, n, g) && |buckets[g]| >= 1
  }

  /** What the split loop has built after the first `n` rows. */
  ghost predicate SplitSoFar(all: seq<Message>, n: nat, buckets: map<Id, seq<Message>>, order: seq<Id>,
                             singles: seq<Message>)
    requires n <= |all|
  {
    && KeysMatch(all, n, buckets, order)
    && BucketsMatch(all, n, buckets)
    && singles == SinglesBelow(all, n)
    && SumSizes(buckets, order) + |singles| == n
  }

  lemma KeysPush(all: seq<Message>, n: nat, buckets: map<Id, seq<Message>>, order: seq<Id>,
                 buckets': map<Id, seq<Message>>)
    requires n < |all| && KeysMatch(all, n, buckets, order)
    requires GroupOf(all[n]).Some? && all[n].groupId.value in buckets
    requires buckets'.Keys == buckets.Keys
    ensures KeysMatch(all, n + 1, buckets', order)
  {
  }

  lemma BucketsPush(all: seq<Message>, n: nat, buckets: map<Id, seq<Message>>, buckets': map<Id, seq<Message>>)
    requires n < |all| && BucketsMatch(all, n, buckets)
    requires GroupOf(all[n]).Some? && all[n].groupId.value in buckets
    requires buckets' == buckets[all[n].groupId.value := buckets[all[n].groupId.value] + [all[n]]]
    ensures BucketsMatch(all, n + 1, buckets')
  {
    forall h | h in buckets'
      ensures buckets'[h] == GroupRowsBelow(all, n + 1, h) && |buckets'[h]| >= 1
    {
      assert h in buckets;
    }
  }

  /** Row `n` joins an existing bucket. */
  lemma PushStep(all: seq<Message>, n: nat, buckets: map<Id, seq<Message>>, order: seq<Id>, singles: seq<Message>,
                 buckets': map<Id, seq<Message>>)
    requires n < |all| && SplitSoFar(all, n, buckets, order, singles)
    requires GroupOf(all[n]).Some? && all[n].groupId.value in buckets
    requires buckets' == buckets[all[n].groupId.value := buckets[all[n].groupId.value] + [all[n]]]
    ensures SplitSoFar(all, n + 1, buckets', order, singles)
  {
    var g := all[n].groupId.value;
    KeysPush(all, n, buckets, order, buckets');
    BucketsPush(all, n, buckets, buckets');
    assert SinglesBelow(all, n + 1) == SinglesBelow(all, n);
    assert exists k :: 0 <= k < |order| && order[k] == g by {
      assert g in KeySet(order);
    }
    SumBump(buckets, order, |order|, g, buckets'[g]);
  }

  lemma KeysOpen(all: seq<Message>, n: nat, buckets: map<Id, seq<Message>>, order: seq<Id>,
                 buckets': map<Id, seq<Message>>)
    requires n < |all| && KeysMatch(all, n, buckets, order)
    requires GroupOf(all[n]).Some? && all[n].groupId.value !in buckets
    requires buckets'.Keys == buckets.Keys + {all[n].groupId.value}
    ensures KeysMatch(all, n + 1, buckets', order + [all[n].groupId.value])
    ensures forall k :: 0 <= k < |order| ==> order[k] != all[n].groupId.value
  {
    var g := all[n].groupId.value;
    var order' := order + [g];
    KeySetSnoc(order, g);
    forall k | 0 <= k < |order| ensures order[k] != g {
      assert order[k] in KeySet(order);
    }
    assert Distinct(order');
  }

  lemma BucketsOpen(all: seq<Message>, n: nat, buckets: map<Id, seq<Message>>, buckets': map<Id, seq<Message>>)
    requires n < |all| && BucketsMatch(all, n, buckets) && buckets.Keys == GroupIdsBelow(all, n)
    requires GroupOf(all[n]).Some? && all[n].groupId.value !in buckets
    requires buckets' == buckets[all[n].groupId.value := [all[n]]]
    ensures BucketsMatch(all, n + 1, buckets')
  {
    var g := all[n].groupId.value;
    GroupRowsAbsent(all, n, g);
    forall h | h in buckets'
      ensures buckets'[h] == GroupRowsBelow(all, n + 1, h) && |buckets'[h]| >= 1
    {
      if h != g {
        assert h in buckets;
      }
    }
  }

  /** Row `n` opens a new bucket. */
  lemma OpenStep(all: seq<Message>, n: nat, buckets: map<Id, seq<Message>>, order: seq<Id>, singles: seq<Message>,
                 buckets': map<Id, seq<Message>>)
    requires n < |all| && SplitSoFar(all, n, buckets, order, singles)
    requires GroupOf(all[n]).Some? && all[n].groupId.value !in buckets
    requires buckets' == buckets[all[n].groupId.value := [all[n]]]
    ensures SplitSoFar(all, n + 1, buckets', order + [all[n].groupId.value], singles)
  {
    var g := all[n].groupId.value;
    var order' := order + [g];
    KeysOpen(all, n, buckets, order, buckets');
    BucketsOpen(all, n, buckets, buckets');
    assert SinglesBelow(all, n + 1) == SinglesBelow(all, n);
    SumOpen(buckets, order, g, [all[n]]);
  }

  lemma SplitStart(all: seq<Message>)
    ensures SplitSoFar(all, 0, map[], [], [])
  {
    assert KeySet([]) == {};
  }

  /** Row `n` is a single row. */
  lemma SingleStep(all: seq<Message>, n: nat, buckets: map<Id, seq<Message>>, order: seq<Id>, singles: seq<Message>)
    requires n < |all| && SplitSoFar(all, n, buckets, order, singles)
    requires GroupOf(all[n]).None?
    ensures SplitSoFar(all, n + 1, buckets, order, singles + [all[n]])
  {
    forall g | g in buckets
      ensures GroupRowsBelow(all, n + 1, g) == GroupRowsBelow(all, n, g)
    {
      GroupIdsBelowMember(all, n, g);
    }
  }

  /** One iteration of the split loop: file row `n` under its group or with the single rows. */
  method SplitRow(all: seq<Message>, n: nat, buckets: map<Id, seq<Message>>, order: seq<Id>, singles: seq<Message>)
      returns (buckets': map<Id, seq<Message>>, order': seq<Id>, singles': seq<Message>)
    requires n < |all| && SplitSoFar(all, n, buckets, order, singles)
    ensures SplitSoFar(all, n + 1, buckets', order', singles')
  {
    var message := all[n];
    if GroupOf(message).Some? {
      var g := message.groupId.value;
      if g !in buckets {
        buckets', order', singles' := buckets[g := [message]], order + [g], singles;
        OpenStep(all, n, buckets, order, singles, buckets');
      } else {
        buckets', order', singles' := buckets[g := buckets[g] + [message]], order, singles;
        PushStep(all, n, buckets, order, singles, buckets');
      }
    } else {
      buckets', order', singles' := buckets, order, singles + [message];
      SingleStep(all, n, buckets, order, singles);
    }
  }

  /** The split loop (lines 23-35): one pass over the rows in query order. */
  method Split(all: seq<Message>) returns (buckets: map<Id, seq<Message>>, order: seq<Id>, singles: seq<Message>)
    ensures SplitSoFar(all, |all|, buckets, order, singles)
  {
    buckets, order, singles := map[], [], [];
    var i := 0;
    SplitStart(all);
    while i < |all|
      invariant 0 <= i <= |all|
      invariant SplitSoFar(all, i, buckets, order, singles)
    {
      buckets, order, singles := SplitRow(all, i, buckets, order, singles);
      i := i + 1;
    }
  }

  /** What the finished split gives the summary. */
  lemma SplitDone(all: seq<Message>, buckets: map<Id, seq<Message>>, order: seq<Id>, singles: seq<Message>)
    requires SplitSoFar(all, |all|, buckets, order, singles)
    ensures buckets.Keys == GroupIdsIn(all) && KeySet(order) == buckets.Keys && Distinct(order)
    ensures order == FirstSeen(all)
    ensures forall g :: g in buckets ==> buckets[g] == RowsOfGroup(all, g) && |buckets[g]| >= 1
    ensures singles == SingleRows(all)
    ensures |buckets| == |order| <= SumSizes(buckets, order) == |all| - |singles|
  {
    DistinctCard(order);
    assert |buckets| == |buckets.Keys| == |order|;
    forall k | 0 <= k < |order| ensures order[k] in buckets && |buckets[order[k]]| >= 1 {
      assert order[k] in KeySet(order);
    }
    SumAtLeast(buckets, order, |order|);
  }

  /** `testMessageGrouping`: split the rows into buckets by truthy groupId (keys in the order
      first met) and single rows, then compute the summary. `all` is the result of the query,
      newest first. */
  method Audit(all: seq<Message>) returns (buckets: map<Id, seq<Message>>, order: seq<Id>, singles: seq<Message>,
                                         summary: Summary)
    ensures buckets.Keys == GroupIdsIn(all) && KeySet(order) == buckets.Keys && Distinct(order)
    ensures order == FirstSeen(all)
    ensures forall g :: g in buckets ==> buckets[g] == RowsOfGroup(all, g) && |buckets[g]| >= 1
    ensures singles == SingleRows(all)
    ensures summary.total == |all| && summary.singles == |singles| && summary.groups == |buckets|
    ensures summary.inGroups == SumSizes(buckets, order)
    ensures summary.inGroups + summary.singles == summary.total
    ensures summary.groups <= summary.inGroups
    ensures summary.before == summary.total && summary.after == summary.groups + summary.singles
    ensures summary.after <= summary.before && summary.reduction == summary.before - summary.after >= 0
  {
    buckets, order, singles := Split(all);
    SplitDone(all, buckets, order, singles);
    var inGroups := SumSizes(buckets, order);
    var after := |buckets| + |singles|;
    summary := Summary(|all|, inGroups, |singles|, |buckets|, |all|, after, |all| - after);
  }

  /** A bucket's first row (`messages[0]`) is the first row of that group in the input. */
  lemma {:induction false} BucketHeadIsFirst(all: seq<Message>, g: Id, n: nat)
    requires n <= |all| && |GroupRowsBelow(all, n, g)| >= 1
    ensures exists i :: 0 <= i < n && all[i] == GroupRowsBelow(all, n, g)[0] &&
              all[i].groupId == Some(g) && forall j :: 0 <= j < i ==> all[j].groupId != Some(g)
  {
    if |GroupRowsBelow(all, n - 1, g)| >= 1 {
      BucketHeadIsFirst(all, g, n - 1);
    } else {
      NoGroupRows(all, n - 1, g);
    }
  }

  lemma {:induction false} NoGroupRows(all: seq<Message>, n: nat, g: Id)
    requires n <= |all| && GroupRowsBelow(all, n, g) == []
    ensures forall j :: 0 <= j < n ==> all[j].groupId != Some(g)
  {
    if n > 0 {
      NoGroupRows(all, n - 1, g);
    }
  }
}
