/** How a photo is named in the archive (PhotoDownloader.cs). */
module PhotoDownloader {
  import opened DotNetText
  import opened DotNetPath
  import opened TL

  /** `GetFileId`: the photo's own id. */
  function GetFileId(photo: PhotoBase): int {
    photo.id
  }

  /**
   * `GetFileName`: the decimal id with its extension changed to "png",
   * whatever the image format really is.
   */
  function GetFileName(photo: PhotoBase): (name: string)
    ensures name == IntToString(photo.id) + ".png"
    ensures forall k :: 0 <= k < |name| ==> name[k] != DirectorySeparator
  {
    var stem := IntToString(GetFileId(photo));
    ChangeExtensionOfDotlessName(stem, "png");
    ChangeExtension(stem, "png")
  }

  /** The photo's file id is what its file name holds before the first '.'. */
  lemma FileIdLeadsFileName(photo: PhotoBase)
    ensures StartsWithIdAndDot(GetFileName(photo), GetFileId(photo))
  {
    var s := IntToString(GetFileId(photo));
    ParseIntToString(GetFileId(photo));
    assert GetFileName(photo)[..|s|] == s;
  }

  /** Two photos with different ids never share a file name. */
  lemma DistinctPhotosHaveDistinctNames(a: PhotoBase, b: PhotoBase)
    ensures a.id != b.id ==> GetFileName(a) != GetFileName(b)
  {
    IntToStringSuffixInjective(a.id, b.id, ".png");
  }

  /** The photo is stored directly inside the post directory. */
  lemma PhotoTargetIsInsidePostPath(postPath: string, photo: PhotoBase)
    requires |postPath| > 0 && postPath[|postPath| - 1] != DirectorySeparator
    ensures Combine(postPath, GetFileName(photo)) == postPath + [DirectorySeparator] + GetFileName(photo)
  {
    CombineWithName(postPath, GetFileName(photo));
  }
}
