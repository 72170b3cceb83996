/**
  The files that belong to one movie record: the per-movie image folder under
  `public/images/movies/{id}`, the four poster renditions written into it, the
  URLs the record stores for them (served from `public/`), and the outcomes of the
  file operations the catalog operations depend on.
 */
module MovieFiles {
  import opened Js

  /** Outcome of a step with a side effect: generating thumbnails or writing the
      catalog file. `{status: 'success'}` or `{status: 'error', error}`. */
  datatype StepResult = Done | Failed(error: string)

  /** What happened to a movie's image folder when the movie was deleted. A missing
      folder is skipped and a removed one lets the deletion go on; only a failed
      removal aborts it. */
  datatype FolderRemoval = FolderMissing | FolderRemoved | RemoveFailed

  /** The `images` object of a movie record. */
  datatype Images = Images(thumbnailURL: string, desktopURL: string, mobileURL: string, mainURL: string)

  const PosterError := "Could not update poster, please try again later"
  const DeleteFilesError := "Could not delete files, please try again later"

  /** A movie's image directory relative to the static root. */
  function ImageDir(id: int): string
  {
    "images/movies/" + IntToString(id)
  }

  /** The directory a movie's renditions are written to. */
  function Folder(id: int): string
  {
    "public/" + ImageDir(id)
  }

  /** The four files `#generateThumbnails` writes: full size, 20px, 300px and 480px wide. */
  function RenditionFiles(id: int): seq<string>
  {
    [Folder(id) + "/main.jpg", Folder(id) + "/thumb-20.jpg",
     Folder(id) + "/main-300.jpg", Folder(id) + "/main-480.jpg"]
  }

  /** The image URLs a new movie record gets, relative to the static `public/` root. */
  function MovieImages(id: int): (images: Images)
    ensures forall u :: u in URLs(images) ==> ImageDir(id) + "/" <= u
  {
    var dir := ImageDir(id);
    Images(thumbnailURL := dir + "/thumb-20.jpg",
           desktopURL := dir + "/main-480.jpg",
           mobileURL := dir + "/main-300.jpg",
           mainURL := dir + "/main.jpg")
  }

  function URLs(images: Images): seq<string>
  {
    [images.thumbnailURL, images.desktopURL, images.mobileURL, images.mainURL]
  }

  /** `#generateThumbnails(fileContents, id)`: makes sure the folder exists (creating
      it when missing), then writes the four renditions in parallel; `written` is the
      set of files whose write completed. The join fails if any one of them did not. */
  function GenerateThumbnails(id: int, folderExists: bool, mkdirSucceeds: bool, written: set<string>): (r: StepResult)
    ensures r.Done? <==> (folderExists || mkdirSucceeds) && forall f :: f in RenditionFiles(id) ==> f in written
    ensures r.Failed? ==> r.error == PosterError
  {
    var folderCreated := folderExists || mkdirSucceeds;
    if !folderCreated then Failed(PosterError)
    else if RenditionsWritten(RenditionFiles(id), written) then Done
    else Failed(PosterError)
  }

  /** `Promise.all` over the rendition writes: every file in `files` was written. */
  function RenditionsWritten(files: seq<string>, written: set<string>): (ok: bool)
    ensures ok <==> forall i :: 0 <= i < |files| ==> files[i] in written
  {
    if |files| == 0 then true
    else files[0] in written && RenditionsWritten(files[1..], written)
  }

  /** Every URL a new record stores names a file that thumbnail generation writes,
      once the static root `public/` is put in front of it. */
  lemma ImagesAreRenditions(id: int)
    ensures forall u :: u in URLs(MovieImages(id)) ==> "public/" + u in RenditionFiles(id)
  {
    var d := ImageDir(id);
    var files := RenditionFiles(id);
    assert "public/" + (d + "/thumb-20.jpg") == files[1];
    assert "public/" + (d + "/main-480.jpg") == files[3];
    assert "public/" + (d + "/main-300.jpg") == files[2];
    assert "public/" + (d + "/main.jpg") == files[0];
  }

  lemma StripAffixes(p: string, x: string, y: string, q: string)
    requires p + x + q == p + y + q
    ensures x == y
  {
    var a := p + x + q;
    assert |x| == |y|;
    assert x == a[|p|..|p| + |x|];
    assert y == (p + y + q)[|p|..|p| + |y|];
  }

  /** Two different movies never share an image folder or any image URL. */
  lemma ImagesDistinct(a: int, b: int)
    requires a != b
    ensures Folder(a) != Folder(b)
    ensures forall i :: 0 <= i < 4 ==> URLs(MovieImages(a))[i] != URLs(MovieImages(b))[i]
  {
    var p := "images/movies/";
    var sa := IntToString(a);
    var sb := IntToString(b);
    if Folder(a) == Folder(b) {
      StripAffixes("public/", ImageDir(a), ImageDir(b), "");
      StripAffixes(p, sa, sb, "");
      IntToStringInjective(a, b);
    }
    var suffixes := ["/thumb-20.jpg", "/main-480.jpg", "/main-300.jpg", "/main.jpg"];
    forall i | 0 <= i < 4
      ensures URLs(MovieImages(a))[i] != URLs(MovieImages(b))[i]
    {
      assert URLs(MovieImages(a))[i] == p + sa + suffixes[i];
      assert URLs(MovieImages(b))[i] == p + sb + suffixes[i];
      if p + sa + suffixes[i] == p + sb + suffixes[i] {
        StripAffixes(p, sa, sb, suffixes[i]);
        IntToStringInjective(a, b);
      }
    }
  }
}
