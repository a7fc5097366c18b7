/** Uploading a destination image to storage: the object path is built
    from the upload time and the file name's extension, the upload never
    overwrites, and a failed upload is reported before any public URL is
    asked for. The storage service is replaced by its answer. */
module UploadImage {
  import opened Common
  import opened JsString

  const Bucket := "destinations"
  const Folder := "destinations/"

  /** `name.split(".").pop()`: the text after the last dot, the whole name
      when there is no dot, and empty when the name ends in a dot. */
  function Extension(fileName: string): (r: string)
    ensures '.' !in r
    ensures '.' !in fileName ==> r == fileName
  {
    LastPiece(fileName, '.')
  }

  /** When the name has a dot, it is some stem, a dot, then the extension. */
  lemma ExtensionFollowsLastDot(fileName: string)
    requires '.' in fileName
    ensures var e := Extension(fileName);
            |e| < |fileName| && fileName == fileName[..|fileName| - |e| - 1] + "." + e
  {
    LastPieceSuffix(fileName, '.');
  }

  /** A name ending in a dot has an empty extension. */
  lemma TrailingDotExtension(stem: string)
    ensures Extension(stem + ".") == ""
  {
    LastPieceAfter(stem, '.', "");
    assert stem + "." == stem + ['.'] + "";
  }

  /** The object path: folder, upload time, a dot, the extension. It keeps
      the file's extension, and its file part is the time in decimal. */
  function StoragePath(fileName: string, now: nat): (r: string)
    ensures |r| > |Folder| + |Decimal(now)| && r[..|Folder|] == Folder
    ensures r[|Folder|..|Folder| + |Decimal(now)|] == Decimal(now)
    ensures r[|Folder| + |Decimal(now)|] == '.'
  {
    Folder + Decimal(now) + "." + Extension(fileName)
  }

  /** The path's own extension is the file's extension: the timestamp adds
      no dot of its own. */
  lemma StoragePathKeepsExtension(fileName: string, now: nat)
    ensures Extension(StoragePath(fileName, now)) == Extension(fileName)
  {
    LastPieceAfter(Folder + Decimal(now), '.', Extension(fileName));
    assert StoragePath(fileName, now) == (Folder + Decimal(now)) + ['.'] + Extension(fileName);
  }

  /** Uploads at different times go to different paths. */
  lemma StoragePathsDiffer(fileName: string, t1: nat, t2: nat)
    requires t1 != t2
    ensures StoragePath(fileName, t1) != StoragePath(fileName, t2)
  {
    // Both timestamps end at the first dot after the folder, so equal
    // paths would mean equal renderings, which parse back to equal times.
    DecimalRoundTrip(t1);
    DecimalRoundTrip(t2);
  }

  /** What is sent to storage: the bucket, the path, a one-hour cache and
      no overwriting of an existing object. */
  datatype UploadRequest = UploadRequest(bucket: string, path: string, cacheControl: string, upsert: bool)

  function RequestFor(fileName: string, now: nat): (r: UploadRequest)
    ensures r.bucket == Bucket && r.path == StoragePath(fileName, now)
    ensures r.cacheControl == "3600" && !r.upsert
  {
    UploadRequest(Bucket, StoragePath(fileName, now), "3600", false)
  }

  /** The result of `uploadImage`: the thrown storage error, or the public
      URL of the stored object. */
  datatype Outcome = Thrown(error: string) | Uploaded(publicUrl: string)

  /** `uploadImage`, given the storage error (if any) and the public-URL
      mapping of the bucket. */
  function Upload(fileName: string, now: nat, uploadError: Option<string>,
                  publicUrlOf: string -> string): (r: Outcome)
    ensures r.Thrown? <==> uploadError.Some?
    ensures r.Thrown? ==> r.error == uploadError.value
    ensures r.Uploaded? ==> r.publicUrl == publicUrlOf(RequestFor(fileName, now).path)
  {
    match uploadError
    case Some(e) => Thrown(e)
    case None => Uploaded(publicUrlOf(StoragePath(fileName, now)))
  }
}
