/**
 The notification log: the sink every other controller writes to. It is an
 append-only table of records, each with an `isRead` flag that only its
 owner can set.
 */
module Notifications {
  import opened Common

  /** One row; its id is its position in the log plus one. */
  datatype Notification = Notification(
    userId: int,
    title: string,
    kind: string,
    isRead: bool,
    relatedId: Option<int>,
    createdAt: int)

  type Log = seq<Notification>

  /** The listing shows at most this many notifications. */
  const PAGE := 50

  /** Rows are appended in time order. */
  ghost predicate Chronological(log: Log) {
    forall i, j :: 0 <= i < j < |log| ==> log[i].createdAt <= log[j].createdAt
  }

  /** Selects the rows of `user`. */
  function OwnedBy(user: int): Notification -> bool {
    (n: Notification) => n.userId == user
  }

  /** Selects the unread rows of `user`. */
  function UnreadOf(user: int): Notification -> bool {
    (n: Notification) => n.userId == user && !n.isRead
  }

  /**
   The sink's one write: append exactly one unread record for `userId` with
   the given title, type and related row, stamped `now`; every existing row
   is kept as it was.
   */
  function Create(log: Log, userId: int, title: string, kind: string, relatedId: Option<int>, now: int): (log': Log)
    ensures |log'| == |log| + 1 && log'[..|log|] == log
    ensures log'[|log|] == Notification(userId, title, kind, false, relatedId, now)
  {
    log + [Notification(userId, title, kind, false, relatedId, now)]
  }

  /** Hands each notice to the sink in order. */
  function Post(log: Log, notices: seq<Notice>, now: int): (log': Log)
    ensures |log'| == |log| + |notices| && log'[..|log|] == log
    ensures forall i :: |log| <= i < |log'| ==>
      var n := notices[i - |log|];
      log'[i] == Notification(n.userId, n.title, n.kind, false, Some(n.relatedId), now)
    decreases |notices|
  {
    if |notices| == 0 then log
    else
      var n := notices[0];
      var log1 := Create(log, n.userId, n.title, n.kind, Some(n.relatedId), now);
      var log' := Post(log1, notices[1..], now);
      assert log'[..|log|] == log1[..|log1|][..|log|];
      log'
  }

  /** Appending at a time no earlier than the last row keeps the log in time order. */
  lemma PostKeepsChronological(log: Log, notices: seq<Notice>, now: int)
    requires Chronological(log)
    requires forall i :: 0 <= i < |log| ==> log[i].createdAt <= now
    ensures Chronological(Post(log, notices, now))
  {
    var log' := Post(log, notices, now);
    forall i, j | 0 <= i < j < |log'|
      ensures log'[i].createdAt <= log'[j].createdAt
    {
      if j < |log| {
        assert log'[i] == log[i] && log'[j] == log[j];
      } else if i < |log| {
        assert log'[i] == log[i];
      }
    }
  }

  /**
   Marks one notification read. Only a row owned by the caller is found;
   anything else, including another user's row, answers NotFound.
   */
  function MarkAsRead(log: Log, caller: int, id: int): (r: Step<Log, (), ()>)
    ensures r.notices == []
    ensures r.response.Ok? <==> IsId(|log|, id) && log[id - 1].userId == caller
    ensures !r.response.Ok? ==> r.response.NotFound? && r.state == log
    ensures r.response.Ok? ==>
      |r.state| == |log| && r.state[id - 1] == log[id - 1].(isRead := true)
      && forall i :: 0 <= i < |log| && i != id - 1 ==> r.state[i] == log[i]
  {
    if IsId(|log|, id) && log[id - 1].userId == caller then
      Step(Ok(()), log[id - 1 := log[id - 1].(isRead := true)], [])
    else
      Reject(NotFound, log)
  }

  /**
   Marking one record read lowers its owner's unread count by one when it
   was unread and by nothing when it was already read; every other user's
   unread count stays as it was.
   */
  lemma MarkAsReadCounts(log: Log, caller: int, id: int, user: int)
    requires MarkAsRead(log, caller, id).response.Ok?
    ensures CountWhere(MarkAsRead(log, caller, id).state, UnreadOf(user))
         == CountWhere(log, UnreadOf(user)) - (if user == caller && !log[id - 1].isRead then 1 else 0)
  {
    CountWhereUpdate(log, id - 1, log[id - 1].(isRead := true), UnreadOf(user));
  }

  /** The log with every record of `user` read and every other record as it was. */
  function ReadAll(log: Log, user: int): (log': Log)
    ensures |log'| == |log|
    ensures forall i :: 0 <= i < |log| ==>
      log'[i] == if log[i].userId == user then log[i].(isRead := true) else log[i]
  {
    seq(|log|, i requires 0 <= i < |log| => if log[i].userId == user then log[i].(isRead := true) else log[i])
  }

  /**
   Reading all of one user's records leaves that user nothing unread and
   leaves every other user's unread count as it was.
   */
  lemma {:induction false} ReadAllCounts(log: Log, user: int, other: int)
    ensures CountWhere(ReadAll(log, user), UnreadOf(user)) == 0
    ensures other != user ==>
      CountWhere(ReadAll(log, user), UnreadOf(other)) == CountWhere(log, UnreadOf(other))
    decreases |log|
  {
    if |log| > 0 {
      var n := |log| - 1;
      ReadAllCounts(log[..n], user, other);
      assert ReadAll(log, user)[..n] == ReadAll(log[..n], user);
    }
  }

  /**
   Marks every unread notification of the caller read and reports how many
   it flipped. The result is the log with all the caller's records read.
   */
  method MarkAllAsRead(log: Log, caller: int) returns (count: nat, log': Log)
    ensures count == CountWhere(log, UnreadOf(caller))
    ensures log' == ReadAll(log, caller)
  {
    count := 0;
    log' := log;
    var i := 0;
    while i < |log|
      invariant 0 <= i <= |log| && |log'| == |log|
      invariant count == CountWhere(log[..i], UnreadOf(caller))
      invariant forall k :: 0 <= k < i ==>
        log'[k] == if log[k].userId == caller then log[k].(isRead := true) else log[k]
      invariant forall k :: i <= k < |log| ==> log'[k] == log[k]
    {
      CountWherePrefix(log, i, UnreadOf(caller));
      if log[i].userId == caller && !log[i].isRead {
        log' := log'[i := log[i].(isRead := true)];
        count := count + 1;
      } else if log[i].userId == caller {
        // already read: the source sets the flag again, which is no change
        log' := log'[i := log[i].(isRead := true)];
      }
      i := i + 1;
    }
    assert log[..|log|] == log;
  }

  /** The last PAGE entries of `ids`, last first. */
  function NewestFirst(ids: seq<nat>): (r: seq<nat>)
    ensures |r| == if |ids| < PAGE then |ids| else PAGE
    ensures forall k :: 0 <= k < |r| ==> r[k] == ids[|ids| - 1 - k]
  {
    var n := if |ids| < PAGE then |ids| else PAGE;
    seq(n, k requires 0 <= k < n => ids[|ids| - 1 - k])
  }

  /**
   On a strictly increasing sequence, an entry left off the page is smaller
   than every entry on it, and then the page is full.
   */
  lemma NewestFirstDropsOnlyOlder(ids: seq<nat>, x: nat)
    requires forall k, l :: 0 <= k < l < |ids| ==> ids[k] < ids[l]
    requires x in ids && x !in NewestFirst(ids)
    ensures |NewestFirst(ids)| == PAGE
    ensures forall k :: 0 <= k < PAGE ==> x < NewestFirst(ids)[k]
  {
    var newest := NewestFirst(ids);
    var j :| 0 <= j < |ids| && ids[j] == x;
    forall j' | |ids| - |newest| <= j' < |ids|
      ensures ids[j'] in newest
    {
      assert newest[|ids| - 1 - j'] == ids[j'];
    }
    assert j < |ids| - |newest|;
  }

  /**
   When `mine` lists every row of the caller in increasing order, every
   owned row left out of the page is older than everything on a full page.
   */
  lemma NewestFirstKeepsNewest(log: Log, caller: int, mine: seq<nat>)
    requires forall k, l :: 0 <= k < l < |mine| ==> mine[k] < mine[l]
    requires forall i :: 0 <= i < |log| && log[i].userId == caller ==> i + 1 in mine
    ensures var newest := NewestFirst(mine);
      forall i :: 0 <= i < |log| && log[i].userId == caller && i + 1 !in newest ==>
        |newest| == PAGE && forall k :: 0 <= k < PAGE ==> i + 1 < newest[k]
  {
    var newest := NewestFirst(mine);
    forall i | 0 <= i < |log| && log[i].userId == caller && i + 1 !in newest
      ensures |newest| == PAGE && forall k :: 0 <= k < PAGE ==> i + 1 < newest[k]
    {
      NewestFirstDropsOnlyOlder(mine, i + 1);
    }
  }

  /** The ids on the caller's page. */
  function Page(log: Log, caller: int): seq<nat> {
    NewestFirst(IdsWhere(log, OwnedBy(caller)))
  }

  /** Reversing an increasing sequence makes the page decreasing. */
  lemma NewestFirstDecreasing(ids: seq<nat>)
    requires forall k, l :: 0 <= k < l < |ids| ==> ids[k] < ids[l]
    ensures forall k, l :: 0 <= k < l < |NewestFirst(ids)| ==> NewestFirst(ids)[k] > NewestFirst(ids)[l]
  {
    var r := NewestFirst(ids);
    forall k, l | 0 <= k < l < |r|
      ensures r[k] > r[l]
    {
      assert r[k] == ids[|ids| - 1 - k] && r[l] == ids[|ids| - 1 - l];
    }
  }

  /** The page holds only the caller's rows, newest first. */
  lemma PageOwned(log: Log, caller: int, page: seq<nat>)
    requires page == Page(log, caller)
    ensures |page| <= PAGE
    ensures forall k :: 0 <= k < |page| ==> IsId(|log|, page[k]) && log[page[k] - 1].userId == caller
    ensures forall k, l :: 0 <= k < l < |page| ==> page[k] > page[l]
  {
    var mine := IdsWhere(log, OwnedBy(caller));
    NewestFirstDecreasing(mine);
    forall k | 0 <= k < |page|
      ensures IsId(|log|, page[k]) && log[page[k] - 1].userId == caller
    {
      var j := |mine| - 1 - k;
      assert page[k] == mine[j];
      assert IsId(|log|, mine[j]) && OwnedBy(caller)(log[mine[j] - 1]);
    }
  }

  /** Every owned row left off the page is older than everything on a full page. */
  lemma PageKeepsNewest(log: Log, caller: int, page: seq<nat>)
    requires page == Page(log, caller)
    ensures forall i :: 0 <= i < |log| && log[i].userId == caller && i + 1 !in page ==>
      |page| == PAGE && forall k :: 0 <= k < PAGE ==> i + 1 < page[k]
  {
    var mine := IdsWhere(log, OwnedBy(caller));
    assert forall i :: 0 <= i < |log| && log[i].userId == caller ==> OwnedBy(caller)(log[i]);
    NewestFirstKeepsNewest(log, caller, mine);
  }

  /** The caller's view: the newest notification ids first, and the unread total. */
  datatype Listing = Listing(ids: seq<nat>, unreadCount: nat)

  /**
   Lists the caller's notifications newest first, at most PAGE of them, and
   counts all of the caller's unread ones (not just those listed). The
   newest-first order is by id; on a log kept in time order it is also by
   creation time.
   */
  function MyNotifications(log: Log, caller: int): (r: Response<Listing, ()>)
    ensures caller == ANONYMOUS <==> r.Unauthorized?
    ensures caller != ANONYMOUS ==> r.Ok?
    ensures r.Ok? ==> r.value.unreadCount == CountWhere(log, UnreadOf(caller))
    ensures r.Ok? ==> |r.value.ids| <= PAGE
    ensures r.Ok? ==> forall k :: 0 <= k < |r.value.ids| ==>
      IsId(|log|, r.value.ids[k]) && log[r.value.ids[k] - 1].userId == caller
    ensures r.Ok? ==> forall k, l :: 0 <= k < l < |r.value.ids| ==> r.value.ids[k] > r.value.ids[l]
    ensures r.Ok? ==> forall i :: 0 <= i < |log| && log[i].userId == caller && i + 1 !in r.value.ids ==>
      |r.value.ids| == PAGE && forall k :: 0 <= k < PAGE ==> i + 1 < r.value.ids[k]
  {
    if caller == ANONYMOUS then Unauthorized
    else
      var page := Page(log, caller);
      PageOwned(log, caller, page);
      PageKeepsNewest(log, caller, page);
      Ok(Listing(page, CountWhere(log, UnreadOf(caller))))
  }

  /** On a log kept in time order the listing is also newest first by creation time. */
  lemma ListingNewestFirst(log: Log, caller: int)
    requires Chronological(log) && caller != ANONYMOUS
    ensures var ids := MyNotifications(log, caller).value.ids;
      forall k, l :: 0 <= k < l < |ids| ==> log[ids[k] - 1].createdAt >= log[ids[l] - 1].createdAt
  {
    var ids := MyNotifications(log, caller).value.ids;
    forall k, l | 0 <= k < l < |ids|
      ensures log[ids[k] - 1].createdAt >= log[ids[l] - 1].createdAt
    {
      assert ids[l] - 1 < ids[k] - 1;
    }
  }
}
