/**
 * The remote messenger's objects that the backup engine reads, reduced to the
 * fields it uses. Names follow the client library's `TL` namespace.
 */
module TL {
  import opened Wrappers

  /** A document attribute; only the file-name one matters here. */
  datatype DocumentAttribute =
    | DocumentAttributeFilename(fileName: string)
    | OtherDocumentAttribute

  /** `DocumentBase`: a real document (whose attribute list may be null) or an empty placeholder. */
  datatype DocumentBase =
    | Document(id: int, attributes: Option<seq<DocumentAttribute>>)
    | DocumentEmpty(id: int)

  datatype PhotoBase = Photo(id: int)

  /** `MessageMedia`: a photo, a document, or any other kind (web page, poll, ...). */
  datatype MessageMedia =
    | MessageMediaPhoto(photo: PhotoBase)
    | MessageMediaDocument(document: DocumentBase)
    | OtherMessageMedia

  /** The media kinds that have a downloader. */
  type DownloadableMedia = m: MessageMedia | !m.OtherMessageMedia? witness MessageMediaPhoto(Photo(0))

  /** The calendar and clock fields of a `DateTime`. */
  datatype DateTimeParts = DateTimeParts(year: int, month: int, day: int, hour: int, minute: int, second: int)

  predicate ValidDateTime(d: DateTimeParts) {
    && 1 <= d.year <= 9999 && 1 <= d.month <= 12 && 1 <= d.day <= 31
    && 0 <= d.hour < 24 && 0 <= d.minute < 60 && 0 <= d.second < 60
  }

  /** `System.DateTime`, whose year always lies between 1 and 9999. */
  type DateTime = d: DateTimeParts | ValidDateTime(d) witness DateTimeParts(1, 1, 1, 0, 0, 0)

  /** A channel post: its id, the id of the channel it was posted in, its date, its album id (0 if none) and its media (null if none). */
  datatype Message = Message(id: int, peerId: int, date: DateTime, groupedId: int, media: Option<MessageMedia>)

  /** `MessageBase`: what a history page holds. Only `Message` is archived. */
  datatype MessageBase =
    | MessageOf(message: Message)
    | MessageService(serviceId: int)
    | MessageEmpty(emptyId: int)
  {
    function ID(): int {
      match this
      case MessageOf(m) => m.id
      case MessageService(i) => i
      case MessageEmpty(i) => i
    }
  }
}
