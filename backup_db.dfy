/**
 * BackupDb.cs: the checkpoint store. One `ChannelRecord` per channel,
 * keyed by the channel id (the collection's unique id), holding the id of
 * the last message archived from it.
 */
module BackupDatabase {
  import opened Wrappers

  /** `ChannelRecord`; `lastMessageId` is nullable as in the record. */
  datatype ChannelRecord = ChannelRecord(channelId: int, lastMessageId: Option<int>)

  /** The record stored under a key is the record of that channel, so each channel has at most one. */
  predicate Keyed(channels: map<int, ChannelRecord>) {
    forall c :: c in channels ==> channels[c].channelId == c
  }

  /** `FindOne(c => c.ChannelId == channelId)?.LastMessageId` */
  function Lookup(channels: map<int, ChannelRecord>, channelId: int): (r: Option<int>)
    requires Keyed(channels)
    ensures r.Some? ==> exists c :: c in channels && channels[c].channelId == channelId && channels[c].lastMessageId == r
    ensures (forall c :: c in channels ==> channels[c].channelId != channelId) ==> r.None?
    ensures forall c :: c in channels && channels[c].channelId == channelId ==> r == channels[c].lastMessageId
  {
    if channelId in channels then channels[channelId].lastMessageId else None
  }

  /** `Upsert`: inserts the record, or replaces the one with the same id. */
  function Upsert(channels: map<int, ChannelRecord>, record: ChannelRecord): (r: map<int, ChannelRecord>)
    requires Keyed(channels)
    ensures Keyed(r)
    ensures r.Keys == channels.Keys + {record.channelId}
  {
    channels[record.channelId := record]
  }

  /** The cursor record `SetLastDownloadedId` upserts. */
  function Cursor(channelId: int, lastDownloadedId: int): ChannelRecord {
    ChannelRecord(channelId, Some(lastDownloadedId))
  }

  /** A channel that was never set has no cursor. */
  lemma NeverSetIsNone(channels: map<int, ChannelRecord>, channelId: int)
    requires Keyed(channels) && channelId !in channels
    ensures Lookup(channels, channelId).None?
  {
  }

  /** After setting a channel's cursor, reading it gives the value set. */
  lemma GetAfterSet(channels: map<int, ChannelRecord>, channelId: int, id: int)
    requires Keyed(channels)
    ensures Lookup(Upsert(channels, Cursor(channelId, id)), channelId) == Some(id)
  {
  }

  /** Setting one channel's cursor leaves every other channel's cursor as it was. */
  lemma SetLeavesOthers(channels: map<int, ChannelRecord>, channelId: int, id: int, other: int)
    requires Keyed(channels) && other != channelId
    ensures Lookup(Upsert(channels, Cursor(channelId, id)), other) == Lookup(channels, other)
  {
  }

  /** Setting the same cursor twice is the same as setting it once. */
  lemma SetIdempotent(channels: map<int, ChannelRecord>, channelId: int, id: int)
    requires Keyed(channels)
    ensures Upsert(Upsert(channels, Cursor(channelId, id)), Cursor(channelId, id)) == Upsert(channels, Cursor(channelId, id))
  {
  }

  /** The last write wins, whether it moves the cursor forward or back. */
  lemma LastWriteWins(channels: map<int, ChannelRecord>, channelId: int, first: int, second: int)
    requires Keyed(channels)
    ensures Upsert(Upsert(channels, Cursor(channelId, first)), Cursor(channelId, second)) == Upsert(channels, Cursor(channelId, second))
  {
  }

  class BackupDb {
    /** The `ChannelRecord` collection, by channel id. */
    var channels: map<int, ChannelRecord>

    ghost predicate Valid()
      reads this
    {
      Keyed(channels)
    }

    /** Opens the store holding the records persisted so far. */
    constructor (stored: map<int, ChannelRecord>)
      requires Keyed(stored)
      ensures Valid() && channels == stored
    {
      channels := stored;
    }

    method GetLastDownloadedId(channelId: int) returns (r: Option<int>)
      requires Valid()
      ensures r == Lookup(channels, channelId)
    {
      if channelId in channels {
        r := channels[channelId].lastMessageId;
      } else {
        r := None;
      }
    }

    method SetLastDownloadedId(channelId: int, lastDownloadedId: int)
      requires Valid()
      modifies this
      ensures Valid()
      ensures channels == Upsert(old(channels), Cursor(channelId, lastDownloadedId))
    {
      var channel := ChannelRecord(channelId, Some(lastDownloadedId));
      channels := channels[channel.channelId := channel];
    }
  }
}
