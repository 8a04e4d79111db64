/**
 * The paging logic of TelegramService.cs: walking a channel's history page
 * by page (`ScrollHistory`), probing for the first message id
 * (`GetFirstMessageId`) and picking the discussion group's key
 * (`GetCommentsGroup`). Every remote call is a field of `Remote`.
 */
module TelegramService {
  import opened Wrappers
  import opened DotNetText
  import opened TL

  /** What `DownloadFile` leaves in the file it writes to, and the message of the exception if it threw. */
  datatype FetchOutcome =
    | Fetched(bytes: seq<byte>)
    | FetchFailed(bytes: seq<byte>, message: string)

  /** The `offset_id`, `add_offset` and `limit` arguments of `Messages_GetHistory`. */
  datatype HistoryRequest = HistoryRequest(offsetId: int, addOffset: int, limit: int)

  /** One channel as seen through the client library, already logged in. */
  datatype Remote = Remote(
    getHistory: HistoryRequest -> seq<MessageBase>,  // Messages_GetHistory(channel, offset_id, add_offset, limit)
    latestHistory: seq<MessageBase>,                 // Messages_GetHistory(channel) with its default arguments
    getMessages: int -> seq<MessageBase>,            // GetMessages(channel, id)
    downloadFile: DownloadableMedia -> FetchOutcome) // DownloadFile(media, path)

  /** The page size of every history request, and the stride of the first-id probe. */
  const Limit: int := 100

  /** The page `ScrollHistory` asks for at `offset`: `limit` 100 and `add_offset` -100. */
  function Page(remote: Remote, offset: int): seq<MessageBase> {
    remote.getHistory(HistoryRequest(offset, -Limit, Limit))
  }

  predicate SortedById(s: seq<MessageBase>) {
    forall i, j :: 0 <= i < j < |s| ==> s[i].ID() <= s[j].ID()
  }

  /** Puts `x` in front of the first element whose id is not smaller. */
  function InsertById(x: MessageBase, s: seq<MessageBase>): seq<MessageBase> {
    if |s| == 0 then [x]
    else if x.ID() <= s[0].ID() then [x] + s
    else [s[0]] + InsertById(x, s[1..])
  }

  /** `OrderBy(m => m.ID)`: insertion sort, which keeps messages with equal ids in their original order. */
  function OrderById(s: seq<MessageBase>): seq<MessageBase> {
    if |s| == 0 then [] else InsertById(s[0], OrderById(s[1..]))
  }

  /** No message in `s` has an id below `lo`. */
  predicate IdsAtLeast(s: seq<MessageBase>, lo: int) {
    forall k :: 0 <= k < |s| ==> lo <= s[k].ID()
  }

  lemma SortedCons(h: MessageBase, t: seq<MessageBase>)
    requires SortedById(t) && IdsAtLeast(t, h.ID())
    ensures SortedById([h] + t)
  {
    var r := [h] + t;
    assert forall i :: 1 <= i < |r| ==> r[i] == t[i - 1];
  }

  lemma {:induction false} InsertByIdKeepsBound(x: MessageBase, s: seq<MessageBase>, lo: int)
    requires IdsAtLeast(s, lo) && lo <= x.ID()
    ensures IdsAtLeast(InsertById(x, s), lo)
    decreases |s|
  {
    if |s| > 0 && x.ID() > s[0].ID() {
      InsertByIdKeepsBound(x, s[1..], lo);
      var r := InsertById(x, s);
      assert forall i :: 1 <= i < |r| ==> r[i] == InsertById(x, s[1..])[i - 1];
    }
  }

  lemma {:induction false} InsertByIdSorted(x: MessageBase, s: seq<MessageBase>)
    requires SortedById(s)
    ensures SortedById(InsertById(x, s))
    decreases |s|
  {
    if |s| == 0 {
    } else if x.ID() <= s[0].ID() {
      SortedCons(x, s);
    } else {
      InsertByIdSorted(x, s[1..]);
      InsertByIdKeepsBound(x, s[1..], s[0].ID());
      SortedCons(s[0], InsertById(x, s[1..]));
    }
  }

  lemma {:induction false} InsertByIdPermutation(x: MessageBase, s: seq<MessageBase>)
    ensures multiset(InsertById(x, s)) == multiset(s) + multiset{x}
    decreases |s|
  {
    if |s| > 0 && x.ID() > s[0].ID() {
      InsertByIdPermutation(x, s[1..]);
      assert s == [s[0]] + s[1..];
    }
  }

  /** A page is yielded in ascending id order, and holds exactly the messages the server sent. */
  lemma {:induction false} OrderByIdSortedPermutation(s: seq<MessageBase>)
    ensures SortedById(OrderById(s))
    ensures multiset(OrderById(s)) == multiset(s)
    decreases |s|
  {
    if |s| > 0 {
      OrderByIdSortedPermutation(s[1..]);
      InsertByIdSorted(s[0], OrderById(s[1..]));
      InsertByIdPermutation(s[0], OrderById(s[1..]));
      assert s == [s[0]] + s[1..];
    }
  }

  /** `Max(m => m.ID)` over a non-empty page. */
  function MaxId(s: seq<MessageBase>): (m: int)
    requires |s| > 0
    ensures forall i :: 0 <= i < |s| ==> s[i].ID() <= m
    ensures exists i :: 0 <= i < |s| && s[i].ID() == m
  {
    if |s| == 1 then s[0].ID()
    else
      var rest := MaxId(s[1..]);
      assert forall i :: 1 <= i < |s| ==> s[i] == s[1..][i - 1];
      if s[0].ID() >= rest then s[0].ID() else rest
  }

  /** `Min(m => m.ID)` over a non-empty response. */
  function MinId(s: seq<MessageBase>): (m: int)
    requires |s| > 0
    ensures forall i :: 0 <= i < |s| ==> m <= s[i].ID()
    ensures exists i :: 0 <= i < |s| && s[i].ID() == m
  {
    if |s| == 1 then s[0].ID()
    else
      var rest := MinId(s[1..]);
      assert forall i :: 1 <= i < |s| ==> s[i] == s[1..][i - 1];
      if s[0].ID() <= rest then s[0].ID() else rest
  }

  /** Everything the walk yields for the pages at `offsets`: each page sorted, pages in request order. */
  function Yielded(remote: Remote, offsets: seq<int>): seq<MessageBase> {
    if |offsets| == 0 then [] else OrderById(Page(remote, offsets[0])) + Yielded(remote, offsets[1..])
  }

  /** What a walk of at most `fuel` pages did: the items yielded, the offsets requested, and whether it stopped by itself. */
  datatype WalkTrace = WalkTrace(items: seq<MessageBase>, offsets: seq<int>, finished: bool)

  /** The loop of `ScrollHistory` from `offset`, cut off after `fuel` pages. */
  function Walk(remote: Remote, offset: int, fuel: nat): WalkTrace
    decreases fuel
  {
    if fuel == 0 then WalkTrace([], [], false)
    else
      var page := Page(remote, offset);
      if |page| <= 1 then
        WalkTrace(OrderById(page), [offset], true)
      else
        var rest := Walk(remote, MaxId(page), fuel - 1);
        WalkTrace(OrderById(page) + rest.items, [offset] + rest.offsets, rest.finished)
  }

  /** A walk starts at `offset`, takes at most `fuel` pages, and its last page tells why it stopped. */
  lemma {:induction false} WalkEnds(remote: Remote, offset: int, fuel: nat)
    ensures var w := Walk(remote, offset, fuel);
      && |w.offsets| <= fuel
      && (fuel > 0 ==> |w.offsets| > 0 && w.offsets[0] == offset)
      && (w.finished ==> |w.offsets| > 0 && |Page(remote, w.offsets[|w.offsets| - 1])| <= 1)
      && (!w.finished ==> |w.offsets| == fuel)
      && (!w.finished && fuel > 0 ==> |Page(remote, w.offsets[|w.offsets| - 1])| > 1)
    decreases fuel
  {
    if fuel > 0 && |Page(remote, offset)| > 1 {
      var next := MaxId(Page(remote, offset));
      WalkEnds(remote, next, fuel - 1);
      var rest := Walk(remote, next, fuel - 1).offsets;
      if |rest| > 0 {
        assert ([offset] + rest)[|rest|] == rest[|rest| - 1];
      }
    }
  }

  /** Each page of a walk but the last has more than one message, and the next request is at its largest id. */
  lemma {:induction false} WalkSteps(remote: Remote, offset: int, fuel: nat)
    ensures var offsets := Walk(remote, offset, fuel).offsets;
      forall i :: 0 <= i < |offsets| - 1 ==>
        |Page(remote, offsets[i])| > 1 && offsets[i + 1] == MaxId(Page(remote, offsets[i]))
    decreases fuel
  {
    if fuel > 0 && |Page(remote, offset)| > 1 {
      var next := MaxId(Page(remote, offset));
      WalkSteps(remote, next, fuel - 1);
      WalkEnds(remote, next, fuel - 1);
      var rest := Walk(remote, next, fuel - 1).offsets;
      var offsets := [offset] + rest;
      forall i | 0 <= i < |offsets| - 1
        ensures |Page(remote, offsets[i])| > 1 && offsets[i + 1] == MaxId(Page(remote, offsets[i]))
      {
        if i > 0 {
          assert offsets[i] == rest[i - 1] && offsets[i + 1] == rest[i];
        }
      }
    }
  }

  /**
   * The shape of a walk: it starts at `offset`; every page but the last has
   * more than one message and the next request is at that page's largest id;
   * it stops by itself exactly after a page with at most one message.
   */
  lemma WalkShape(remote: Remote, offset: int, fuel: nat)
    ensures var w := Walk(remote, offset, fuel);
      && |w.offsets| <= fuel
      && (fuel > 0 ==> |w.offsets| > 0 && w.offsets[0] == offset)
      && (forall i :: 0 <= i < |w.offsets| - 1 ==>
            |Page(remote, w.offsets[i])| > 1 && w.offsets[i + 1] == MaxId(Page(remote, w.offsets[i])))
      && (w.finished ==> |w.offsets| > 0 && |Page(remote, w.offsets[|w.offsets| - 1])| <= 1)
      && (!w.finished ==> |w.offsets| == fuel)
      && (!w.finished && fuel > 0 ==> |Page(remote, w.offsets[|w.offsets| - 1])| > 1)
  {
    WalkEnds(remote, offset, fuel);
    WalkSteps(remote, offset, fuel);
  }

  /** Every requested page is yielded in full and sorted, in request order, the last one included. */
  lemma {:induction false} WalkYieldsEveryPage(remote: Remote, offset: int, fuel: nat)
    ensures Walk(remote, offset, fuel).items == Yielded(remote, Walk(remote, offset, fuel).offsets)
    decreases fuel
  {
    if fuel > 0 && |Page(remote, offset)| > 1 {
      var rest := Walk(remote, MaxId(Page(remote, offset)), fuel - 1);
      WalkYieldsEveryPage(remote, MaxId(Page(remote, offset)), fuel - 1);
      assert ([offset] + rest.offsets)[1..] == rest.offsets;
    }
  }

  /** A walk that has already yielded `items` at `offsets` and goes on as `w`. */
  function Continue(items: seq<MessageBase>, offsets: seq<int>, w: WalkTrace): WalkTrace {
    WalkTrace(items + w.items, offsets + w.offsets, w.finished)
  }

  lemma WalkStep(remote: Remote, items: seq<MessageBase>, offsets: seq<int>, offset: int, fuel: nat)
    requires fuel > 0 && |Page(remote, offset)| > 1
    ensures Continue(items, offsets, Walk(remote, offset, fuel)) ==
      Continue(items + OrderById(Page(remote, offset)), offsets + [offset], Walk(remote, MaxId(Page(remote, offset)), fuel - 1))
  {
    var page := Page(remote, offset);
    var rest := Walk(remote, MaxId(page), fuel - 1);
    assert items + (OrderById(page) + rest.items) == (items + OrderById(page)) + rest.items;
    assert offsets + ([offset] + rest.offsets) == (offsets + [offset]) + rest.offsets;
  }

  /** `Walk` as the loop runs it: `items` and `offsets` hold what the pages before `offset` gave. */
  function WalkFrom(remote: Remote, items: seq<MessageBase>, offsets: seq<int>, offset: int, fuel: nat): WalkTrace
    decreases fuel
  {
    if fuel == 0 then WalkTrace(items, offsets, false)
    else
      var page := Page(remote, offset);
      if |page| <= 1 then WalkTrace(items + OrderById(page), offsets + [offset], true)
      else WalkFrom(remote, items + OrderById(page), offsets + [offset], MaxId(page), fuel - 1)
  }

  lemma {:induction false} WalkFromIsContinue(remote: Remote, items: seq<MessageBase>, offsets: seq<int>, offset: int, fuel: nat)
    ensures WalkFrom(remote, items, offsets, offset, fuel) == Continue(items, offsets, Walk(remote, offset, fuel))
    decreases fuel
  {
    if fuel == 0 {
      assert items + [] == items && offsets + [] == offsets;
    } else if |Page(remote, offset)| > 1 {
      var page := Page(remote, offset);
      WalkFromIsContinue(remote, items + OrderById(page), offsets + [offset], MaxId(page), fuel - 1);
      WalkStep(remote, items, offsets, offset, fuel);
    }
  }

  /** The id asked for by the `k`-th probe: 1, 101, 201, ... */
  function ProbeId(k: nat): int {
    1 + Limit * k
  }

  /** The first of the probes `k` .. `k + fuel - 1` that gets a non-empty response. */
  function FirstProbe(remote: Remote, k: nat, fuel: nat): (r: Option<nat>)
    ensures r.Some? ==> k <= r.value < k + fuel && |remote.getMessages(ProbeId(r.value))| > 0
    ensures r.Some? ==> forall j :: k <= j < r.value ==> |remote.getMessages(ProbeId(j))| == 0
    ensures r.None? ==> forall j :: k <= j < k + fuel ==> |remote.getMessages(ProbeId(j))| == 0
    decreases fuel
  {
    if fuel == 0 then None
    else if |remote.getMessages(ProbeId(k))| > 0 then Some(k)
    else FirstProbe(remote, k + 1, fuel - 1)
  }

  /**
   * `GetFirstMessageId` with at most `maxProbes` probes: 0 for an empty
   * channel, otherwise the smallest id in the first non-empty probe response.
   * `None` means the probes ran out, where the source keeps probing forever.
   */
  function FirstMessageId(remote: Remote, maxProbes: nat): Option<int> {
    if |remote.latestHistory| == 0 then Some(0)
    else match FirstProbe(remote, 0, maxProbes)
      case None => None
      case Some(k) => Some(MinId(remote.getMessages(ProbeId(k))))
  }

  method GetFirstMessageId(remote: Remote, maxProbes: nat) returns (r: Option<int>)
    ensures r == FirstMessageId(remote, maxProbes)
    ensures |remote.latestHistory| == 0 ==> r == Some(0)
    ensures |remote.latestHistory| > 0 && r.Some? ==>
      exists k :: 0 <= k < maxProbes && |remote.getMessages(ProbeId(k))| > 0 && r.value == MinId(remote.getMessages(ProbeId(k)))
  {
    if |remote.latestHistory| == 0 {
      return Some(0);  // the channel is empty
    }
    var i := 1;
    var k: nat := 0;
    while k < maxProbes
      invariant k <= maxProbes && i == ProbeId(k)
      invariant forall j :: 0 <= j < k ==> |remote.getMessages(ProbeId(j))| == 0
    {
      var messages := remote.getMessages(i);
      if |messages| != 0 {
        return Some(MinId(messages));
      }
      i, k := i + Limit, k + 1;
    }
    return None;
  }

  /** Where `ScrollHistory` starts: at `start` when it is not 0, otherwise at the probed first id. */
  function InitialOffset(remote: Remote, start: int, maxProbes: nat): Option<int> {
    if start != 0 then Some(start) else FirstMessageId(remote, maxProbes)
  }

  /** What `ScrollHistory` yields with the given bounds on probes and pages. */
  function History(remote: Remote, start: int, maxProbes: nat, maxPages: nat): WalkTrace {
    match InitialOffset(remote, start, maxProbes)
    case None => WalkTrace([], [], false)
    case Some(offset) => Walk(remote, offset, maxPages)
  }

  /**
   * `ScrollHistory`, with the lazy sequence collected into `items` and the
   * never-ending loop cut off after `maxPages` requests.
   */
  method ScrollHistory(remote: Remote, start: int, maxProbes: nat, maxPages: nat)
    returns (items: seq<MessageBase>, offsets: seq<int>, finished: bool)
    ensures WalkTrace(items, offsets, finished) == History(remote, start, maxProbes, maxPages)
  {
    items, offsets, finished := [], [], false;
    var first: Option<int>;
    if start != 0 {
      first := Some(start);
    } else {
      first := GetFirstMessageId(remote, maxProbes);
    }
    if first.None? {
      return;
    }
    WalkFromIsContinue(remote, [], [], first.value, maxPages);
    assert Continue([], [], Walk(remote, first.value, maxPages)) == Walk(remote, first.value, maxPages);
    ghost var whole := WalkFrom(remote, [], [], first.value, maxPages);
    var offset := first.value;
    var pages: nat := 0;
    while pages < maxPages
      invariant pages <= maxPages
      invariant !finished
      invariant whole == WalkFrom(remote, items, offsets, offset, maxPages - pages)
    {
      var history := Page(remote, offset);
      items, offsets := items + OrderById(history), offsets + [offset];
      if |history| <= 1 {
        finished := true;
        return;
      }
      offset := MaxId(history);
      pages := pages + 1;
    }
  }

  /** The index of the first key that is not `channelId`. */
  function FirstOtherKey(keys: seq<int>, channelId: int): (r: Option<nat>)
    ensures r.Some? ==> r.value < |keys| && keys[r.value] != channelId
    ensures r.Some? ==> forall j :: 0 <= j < r.value ==> keys[j] == channelId
    ensures r.None? ==> forall j :: 0 <= j < |keys| ==> keys[j] == channelId
  {
    if |keys| == 0 then None
    else if keys[0] != channelId then Some(0)
    else match FirstOtherKey(keys[1..], channelId)
      case None => None
      case Some(i) => Some(i + 1)
  }

  /**
   * The key `GetCommentsGroup` picks among the full channel's chat keys: the
   * first one that is not the channel itself, unless it is the default 0.
   */
  function CommentsGroupKey(keys: seq<int>, channelId: int): (r: Option<int>)
    ensures r.Some? ==> r.value != 0 && r.value != channelId
    ensures r.Some? ==> exists i :: 0 <= i < |keys| && keys[i] == r.value && forall j :: 0 <= j < i ==> keys[j] == channelId
    ensures r.None? ==> forall i :: 0 <= i < |keys| && keys[i] != channelId && (forall j :: 0 <= j < i ==> keys[j] == channelId) ==> keys[i] == 0
  {
    match FirstOtherKey(keys, channelId)
    case None => None
    case Some(i) => if keys[i] == 0 then None else Some(keys[i])
  }
}
