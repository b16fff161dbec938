/** The content-type test of `post '/'`: the uploaded file's declared type
    is searched for "jpeg", then "png", then "gif"; the first hit fixes both
    the stored mime type and the file extension, and a type containing none
    of them is refused before anything is written. */
module Upload {
  import opened Wrappers
  import opened Seqs

  datatype ImageKind = ImageKind(mime: string, ext: string)

  const Jpeg := ImageKind("image/jpeg", "jpg")
  const Png := ImageKind("image/png", "png")
  const Gif := ImageKind("image/gif", "gif")

  /** The if/elsif chain on `params["file"][:type].include?`. */
  function ClassifyUpload(contentType: string): (r: Option<ImageKind>)
    ensures r.Some? <==>
      OccursAt(contentType, "jpeg") || OccursAt(contentType, "png") || OccursAt(contentType, "gif")
    ensures OccursAt(contentType, "jpeg") ==> r == Some(Jpeg)
    ensures !OccursAt(contentType, "jpeg") && OccursAt(contentType, "png") ==> r == Some(Png)
    ensures (!OccursAt(contentType, "jpeg") && !OccursAt(contentType, "png") &&
             OccursAt(contentType, "gif")) ==> r == Some(Gif)
    ensures r == Some(Gif) ==> !OccursAt(contentType, "jpeg") && !OccursAt(contentType, "png")
    ensures r.Some? ==> r.value in {Jpeg, Png, Gif}
  {
    if Includes(contentType, "jpeg") then Some(Jpeg)
    else if Includes(contentType, "png") then Some(Png)
    else if Includes(contentType, "gif") then Some(Gif)
    else None
  }

  /** The extension that belongs to each accepted mime type. In this
      version the handler assigns `ext` but never reads it: the image is
      written to `image/<id>` without an extension. */
  function ExtensionOf(mime: string): Option<string> {
    if mime == "image/jpeg" then Some("jpg")
    else if mime == "image/png" then Some("png")
    else if mime == "image/gif" then Some("gif")
    else None
  }

  /** Whatever type is accepted, its extension is the one that belongs to
      its mime type: the two never come from different branches. */
  lemma ExtensionMatchesMime(contentType: string)
    requires ClassifyUpload(contentType).Some?
    ensures var k := ClassifyUpload(contentType).value;
            ExtensionOf(k.mime) == Some(k.ext)
  {
    var k := ClassifyUpload(contentType).value;
    assert k == Jpeg || k == Png || k == Gif;
  }

  /** The four content types a browser usually sends: each goes to its own
      branch, and a type naming none of the three formats is refused. */
  lemma PlainTypesClassified()
    ensures ClassifyUpload("image/jpeg") == Some(Jpeg)
    ensures ClassifyUpload("image/png") == Some(Png)
    ensures ClassifyUpload("image/gif") == Some(Gif)
    ensures ClassifyUpload("image/svg+xml") == None
  {
    assert WindowAt("image/jpeg", "jpeg", 6);
    assert WindowAt("image/png", "png", 6);
    assert WindowAt("image/gif", "gif", 6);
    AbsentWithout("image/png", "jpeg", 0);
    AbsentWithout("image/gif", "jpeg", 0);
    AbsentWithout("image/gif", "png", 0);
    AbsentWithout("image/svg+xml", "jpeg", 0);
    AbsentWithout("image/svg+xml", "png", 0);
    AbsentWithout("image/svg+xml", "gif", 2);
  }
}
