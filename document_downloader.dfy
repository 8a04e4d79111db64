/** How a document is named in the archive (DocumentDownloader.cs). */
module DocumentDownloader {
  import opened Wrappers
  import opened DotNetText
  import opened DotNetPath
  import opened TL

  /** `GetFileId`: the document's own id (defined for an empty document too). */
  function GetFileId(doc: DocumentBase): int {
    doc.id
  }

  /** The position of the first `DocumentAttributeFilename` in `attrs`, if there is one. */
  function FirstFilenameIndex(attrs: seq<DocumentAttribute>): (r: Option<nat>)
    ensures r.Some? ==> r.value < |attrs| && attrs[r.value].DocumentAttributeFilename?
    ensures r.Some? ==> forall j :: 0 <= j < r.value ==> !attrs[j].DocumentAttributeFilename?
    ensures r.None? ==> forall j :: 0 <= j < |attrs| ==> !attrs[j].DocumentAttributeFilename?
  {
    if |attrs| == 0 then None
    else if attrs[0].DocumentAttributeFilename? then Some(0)
    else match FirstFilenameIndex(attrs[1..])
      case None => None
      case Some(i) => Some(i + 1)
  }

  /** `attributes?.OfType<DocumentAttributeFilename>()?.FirstOrDefault()?.file_name` */
  function OriginalFileName(attributes: Option<seq<DocumentAttribute>>): Option<string> {
    match attributes
    case None => None
    case Some(attrs) =>
      match FirstFilenameIndex(attrs)
      case None => None
      case Some(i) => Some(attrs[i].fileName)
  }

  /**
   * The original name is the name of the first `DocumentAttributeFilename`
   * among the attributes, and there is one exactly when the list exists and
   * holds such an attribute.
   */
  lemma OriginalFileNameIsFirst(attributes: Option<seq<DocumentAttribute>>)
    ensures OriginalFileName(attributes).Some? <==>
      attributes.Some? && exists i :: 0 <= i < |attributes.value| && attributes.value[i].DocumentAttributeFilename?
    ensures OriginalFileName(attributes).Some? ==>
      exists i :: 0 <= i < |attributes.value| && attributes.value[i] == DocumentAttributeFilename(OriginalFileName(attributes).value)
        && forall j :: 0 <= j < i ==> !attributes.value[j].DocumentAttributeFilename?
  {
    if attributes.Some? {
      var first := FirstFilenameIndex(attributes.value);
      if first.Some? {
        assert attributes.value[first.value] == DocumentAttributeFilename(OriginalFileName(attributes).value);
      }
    }
  }

  /** The extension handed to `ChangeExtension`: that of the original name, or empty. */
  function Extension(attributes: Option<seq<DocumentAttribute>>): string {
    match OriginalFileName(attributes)
    case None => ""
    case Some(f) => GetExtension(f)
  }

  /** The extension is empty, or a '.' followed by characters that are neither dots nor separators. */
  lemma ExtensionIsPlain(attributes: Option<seq<DocumentAttribute>>)
    ensures var e := Extension(attributes);
      e == "" || (|e| >= 2 && e[0] == '.' && forall k :: 1 <= k < |e| ==> e[k] != '.' && e[k] != DirectorySeparator)
  {
    if OriginalFileName(attributes).Some? {
      GetExtensionSpec(OriginalFileName(attributes).value);
    }
  }

  /**
   * `GetFileName`: the decimal id followed by the original name's extension
   * (its base name is dropped). Without an extension `ChangeExtension` still
   * appends the dot. `None` stands for the `InvalidCastException` that the
   * cast to `Document` throws on an empty document.
   */
  function GetFileName(doc: DocumentBase): (name: Option<string>)
    ensures doc.DocumentEmpty? <==> name.None?
    ensures doc.Document? && Extension(doc.attributes) == "" ==> name == Some(IntToString(doc.id) + ".")
    ensures doc.Document? && Extension(doc.attributes) != "" ==> name == Some(IntToString(doc.id) + Extension(doc.attributes))
    ensures name.Some? ==> forall k :: 0 <= k < |name.value| ==> name.value[k] != DirectorySeparator
  {
    match doc
    case DocumentEmpty(_) => None
    case Document(_, attributes) =>
      var stem := IntToString(GetFileId(doc));
      var extension := Extension(attributes);
      ExtensionIsPlain(attributes);
      ChangeExtensionOfDotlessName(stem, extension);
      assert stem + "." + "" == stem + ".";
      Some(ChangeExtension(stem, extension))
  }

  /** A named document's file id is what its file name holds before the first '.'. */
  lemma FileIdLeadsFileName(doc: DocumentBase)
    ensures GetFileName(doc).Some? ==> StartsWithIdAndDot(GetFileName(doc).value, GetFileId(doc))
  {
    if doc.Document? {
      var s := IntToString(GetFileId(doc));
      ExtensionIsPlain(doc.attributes);
      ParseIntToString(GetFileId(doc));
      assert GetFileName(doc).value[..|s|] == s;
    }
  }

  /** Documents with different ids never share a file name, whatever their extensions. */
  lemma DistinctDocumentsHaveDistinctNames(a: DocumentBase, b: DocumentBase)
    requires a.Document? && b.Document?
    ensures a.id != b.id ==> GetFileName(a) != GetFileName(b)
  {
    var ea, eb := Extension(a.attributes), Extension(b.attributes);
    var xa, xb := if ea == "" then "." else ea, if eb == "" then "." else eb;
    ExtensionIsPlain(a.attributes);
    ExtensionIsPlain(b.attributes);
    // Both names are the id's rendering followed by text that starts with '.'.
    IntToStringDelimited(a.id, b.id, xa, xb);
  }
}
