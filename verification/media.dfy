/**
  The size guard and descriptor construction of src/lib/media.ts. Reading a
  file as a data URL is browser I/O: its outcome is a parameter, and the
  guard decides before any read starts.
*/
module Media {
  import opened Wrappers
  import opened FormTypes

  /** A file the user picked or dropped: name, MIME type and size in bytes. */
  datatype File = File(name: string, mimeType: string, size: nat)

  /** What `FileReader.readAsDataURL` delivers: the data URL, or an error. */
  datatype ReadOutcome = Loaded(dataUrl: string) | ReadFailed

  /** 10 MiB. */
  const MaxFileSize: nat := 10 * 1024 * 1024

  const TooLargeMessage: string := "File size exceeds 10MB"
  const ReadFailedMessage: string := "Failed to read file"

  /** `fileToMediaFile`: reject an oversized file outright, otherwise read it
      and describe it. The error is the rejection's message. */
  function FileToMediaFile(f: File, read: ReadOutcome): (r: Result<MediaFile, string>)
    ensures r.Ok? <==> f.size <= MaxFileSize && read.Loaded?
    ensures f.size > MaxFileSize ==> r == Err(TooLargeMessage)
    ensures f.size <= MaxFileSize && read.ReadFailed? ==> r == Err(ReadFailedMessage)
    ensures r.Ok? ==> FileOf(r.value) == f && r.value.dataUrl == read.dataUrl
  {
    if f.size > MaxFileSize then Err(TooLargeMessage)
    else
      match read
      case ReadFailed => Err(ReadFailedMessage)
      case Loaded(url) => Ok(MediaFile(f.name, f.mimeType, f.size, url))
  }

  /** The file a descriptor describes. */
  function FileOf(m: MediaFile): File {
    File(m.name, m.mimeType, m.size)
  }

  /** An oversized file is rejected whatever the reader would have produced:
      the reader is never consulted. */
  lemma OversizeIgnoresReader(f: File, read1: ReadOutcome, read2: ReadOutcome)
    requires f.size > MaxFileSize
    ensures FileToMediaFile(f, read1) == FileToMediaFile(f, read2)
  {
  }

  /** The guard is strict: exactly 10 MiB passes and one byte more fails. */
  lemma GuardBoundary(name: string, mimeType: string, url: string)
    ensures FileToMediaFile(File(name, mimeType, 10485760), Loaded(url)).Ok?
    ensures FileToMediaFile(File(name, mimeType, 10485761), Loaded(url)) == Err(TooLargeMessage)
  {
  }
}
