/**
 * `loadImage` of the DOCX export: where a logo reference is loaded from,
 * chosen by its prefix. Reading the file and the HTTP(S) GET are I/O and
 * are parameters here: each gives the bytes, or None when it fails.
 */
module ImageLoader {
  import opened Wrappers
  import opened Docx

  const UploadsPrefix := "/uploads/"

  /** Where a reference is loaded from: a file under `public` in the
      working directory, a GET over https or http, or nowhere. */
  datatype Source = LocalFile(path: string) | Remote(secure: bool, url: string) | Nowhere

  /** The prefix tests of `loadImage`, in the source's order. */
  function Resolve(ref: string): Source
  {
    if UploadsPrefix <= ref then LocalFile("public" + ref)
    else if "http" <= ref then Remote("https" <= ref, ref)
    else Nowhere
  }

  /** `loadImage(ref)`: the bytes of the file or of the response body, or
      None when the reference has neither prefix or the I/O fails. A
      reference with neither prefix touches no I/O at all. */
  function LoadImage(ref: string, readFile: string -> Option<Bytes>, get: (bool, string) -> Option<Bytes>): (r: Option<Bytes>)
    ensures Resolve(ref).Nowhere? ==> r.None?
  {
    match Resolve(ref)
    case LocalFile(path) => readFile(path)
    case Remote(secure, url) => get(secure, url)
    case Nowhere => None
  }

  /** The classification, both ways: a local read exactly for `/uploads/`
      references, of `public` followed by the reference; a fetch exactly for
      the other references that start with `http`, secure exactly when they
      start with `https`; nowhere for all the rest. The two prefixes exclude
      each other, so the order of the tests does not matter. */
  lemma ResolveSpec(ref: string)
    ensures Resolve(ref).LocalFile? <==> UploadsPrefix <= ref
    ensures Resolve(ref).LocalFile? ==> Resolve(ref).path == "public" + ref
    ensures Resolve(ref).Remote? <==> "http" <= ref
    ensures Resolve(ref).Remote? ==> Resolve(ref).url == ref && (Resolve(ref).secure <==> "https" <= ref)
    ensures Resolve(ref).Nowhere? <==> !(UploadsPrefix <= ref) && !("http" <= ref)
  {
    if UploadsPrefix <= ref {
      assert ref[0] == '/';
    }
  }
}
