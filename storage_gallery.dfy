/**
 * The storage gallery's load step (app/components/Gallery.tsx): list the
 * bucket, keep the entries whose name ends in an image extension, map each
 * to its public URL and replace the component's image list with the result.
 *
 * The storage listing is an input; `getPublicUrl` is a function parameter.
 */
module StorageGallery {
  import opened Strings

  /** The extensions of `/\.(png|jpg|jpeg|webp)$/i`. */
  const ImageExtensions: seq<string> := ["png", "jpg", "jpeg", "webp"]

  /** An entry of a storage listing; only its name matters here. */
  datatype FileObject = FileObject(name: string)

  /** The outcome of `storage.from(...).list(...)`: the entries, or an error. */
  datatype ListResult = Listed(data: seq<FileObject>) | ListError(message: string)

  /** `/\.(png|jpg|jpeg|webp)$/i.test(name)` */
  predicate HasImageExtension(name: string) {
    || EndsWithIgnoreCase(name, ".png")
    || EndsWithIgnoreCase(name, ".jpg")
    || EndsWithIgnoreCase(name, ".jpeg")
    || EndsWithIgnoreCase(name, ".webp")
  }

  /**
   * What the pattern means: somewhere in the name stands a `.`, and all that
   * follows it is one of the extensions, up to the case of ASCII letters.
   */
  ghost predicate MatchesImagePattern(name: string) {
    exists i, e :: 0 <= i < |name| && e in ImageExtensions && name[i] == '.' && EqualsIgnoreCase(name[i + 1..], e)
  }

  /** A name ends in `.` and `e`, ignoring case, exactly when its tail after a dot matches `e`. */
  lemma EndsWithDot(name: string, e: string)
    ensures EndsWithIgnoreCase(name, "." + e) <==>
              |e| < |name| && name[|name| - |e| - 1] == '.' && EqualsIgnoreCase(name[|name| - |e|..], e)
  {
    if |e| < |name| {
      var tail := name[|name| - |e| - 1..];
      var pat := "." + e;
      assert tail[1..] == name[|name| - |e|..];
      if EqualsIgnoreCase(tail, pat) {
        assert ToLowerAscii(tail[0]) == '.';
        forall k | 0 <= k < |e|
          ensures ToLowerAscii(tail[1..][k]) == ToLowerAscii(e[k])
        {
          assert tail[1..][k] == tail[k + 1] && pat[k + 1] == e[k];
        }
      }
      if name[|name| - |e| - 1] == '.' && EqualsIgnoreCase(name[|name| - |e|..], e) {
        forall k | 0 <= k < |tail|
          ensures ToLowerAscii(tail[k]) == ToLowerAscii(pat[k])
        {
          if k > 0 {
            assert tail[k] == tail[1..][k - 1] && pat[k] == e[k - 1];
          }
        }
      }
    }
  }

  lemma MatchFromSuffix(name: string, e: string)
    requires e in ImageExtensions && EndsWithIgnoreCase(name, "." + e)
    ensures MatchesImagePattern(name)
  {
    EndsWithDot(name, e);
    var i := |name| - |e| - 1;
    assert name[i + 1..] == name[|name| - |e|..];
    assert 0 <= i < |name| && e in ImageExtensions && name[i] == '.' && EqualsIgnoreCase(name[i + 1..], e);
  }

  lemma SuffixFromMatch(name: string)
    requires MatchesImagePattern(name)
    ensures exists e :: e in ImageExtensions && EndsWithIgnoreCase(name, "." + e)
  {
    var i, e :| 0 <= i < |name| && e in ImageExtensions && name[i] == '.' && EqualsIgnoreCase(name[i + 1..], e);
    assert i == |name| - |e| - 1;
    EndsWithDot(name, e);
  }

  /** The four suffix tests are the four extensions behind a dot. */
  lemma HasImageExtensionByList(name: string)
    ensures HasImageExtension(name) <==> exists e :: e in ImageExtensions && EndsWithIgnoreCase(name, "." + e)
  {
    assert "." + "png" == ".png" && "." + "jpg" == ".jpg";
    assert "." + "jpeg" == ".jpeg" && "." + "webp" == ".webp";
    assert ImageExtensions[0] == "png" && ImageExtensions[1] == "jpg";
    assert ImageExtensions[2] == "jpeg" && ImageExtensions[3] == "webp";
  }

  /** The extension test is exactly the pattern, in both directions. */
  lemma HasImageExtensionIff(name: string)
    ensures HasImageExtension(name) <==> MatchesImagePattern(name)
  {
    HasImageExtensionByList(name);
    if MatchesImagePattern(name) {
      SuffixFromMatch(name);
    }
    if HasImageExtension(name) {
      var e :| e in ImageExtensions && EndsWithIgnoreCase(name, "." + e);
      MatchFromSuffix(name, e);
    }
  }

  /** `a.PNG` and `b.JpEg` are kept: the case of the extension does not matter. */
  lemma KeptExamples()
    ensures HasImageExtension("a.PNG")
    ensures HasImageExtension("b.JpEg")
  {
    assert "a.PNG"[1..] == ".PNG";
    assert EqualsIgnoreCase(".PNG", ".png");
    assert "b.JpEg"[1..] == ".JpEg";
    assert EqualsIgnoreCase(".JpEg", ".jpeg");
  }

  /** `a.png.txt` and `png` are dropped: the extension must end the name, behind a dot. */
  lemma DroppedExamples()
    ensures !HasImageExtension("a.png.txt")
    ensures !HasImageExtension("png")
  {
    var n := "a.png.txt";
    assert n[5..] == ".txt" && n[4..] == "g.txt";
    assert ToLowerAscii(".txt"[1]) != ToLowerAscii(".png"[1]);
    assert ToLowerAscii(".txt"[1]) != ToLowerAscii(".jpg"[1]);
    assert ToLowerAscii("g.txt"[0]) != ToLowerAscii(".jpeg"[0]);
    assert ToLowerAscii("g.txt"[0]) != ToLowerAscii(".webp"[0]);
  }

  /** `data.filter(file => pattern.test(file.name))` */
  function ImageFiles(data: seq<FileObject>): (kept: seq<FileObject>)
    ensures |kept| <= |data|
    ensures forall f :: f in kept <==> f in data && HasImageExtension(f.name)
  {
    if data == [] then []
    else (if HasImageExtension(data[0].name) then [data[0]] else []) + ImageFiles(data[1..])
  }

  /** The filter keeps the listing order: it distributes over concatenation. */
  lemma {:induction false} ImageFilesAppend(a: seq<FileObject>, b: seq<FileObject>)
    ensures ImageFiles(a + b) == ImageFiles(a) + ImageFiles(b)
    decreases |a|
  {
    if a == [] {
      assert a + b == b;
    } else {
      assert (a + b)[1..] == a[1..] + b;
      assert (a + b)[0] == a[0];
      ImageFilesAppend(a[1..], b);
    }
  }

  /** `imageFiles.map(file => getPublicUrl(file.name))` */
  function PublicUrls(files: seq<FileObject>, publicUrl: string -> string): (urls: seq<string>)
    ensures |urls| == |files|
    ensures forall i :: 0 <= i < |files| ==> urls[i] == publicUrl(files[i].name)
  {
    if files == [] then [] else [publicUrl(files[0].name)] + PublicUrls(files[1..], publicUrl)
  }

  /** The URLs a successful load shows. */
  function ImageUrls(data: seq<FileObject>, publicUrl: string -> string): seq<string> {
    PublicUrls(ImageFiles(data), publicUrl)
  }

  /** The component's state: the list of image URLs it renders. */
  class Gallery {
    var images: seq<string>

    /** `useState<string[]>([])` */
    constructor ()
      ensures images == []
    {
      images := [];
    }

    /** `loadImages`: on an error the list stays as it was; otherwise it is replaced wholesale. */
    method LoadImages(listing: ListResult, publicUrl: string -> string)
      modifies this
      ensures listing.ListError? ==> images == old(images)
      ensures listing.Listed? ==> images == ImageUrls(listing.data, publicUrl)
    {
      if listing.ListError? {
        return;
      }
      var imageFiles := ImageFiles(listing.data);
      var urls := PublicUrls(imageFiles, publicUrl);
      images := urls;
    }
  }

  /**
   * Mounting the component: the state starts empty and the effect loads once.
   * Returns the list it then renders.
   */
  method Mount(listing: ListResult, publicUrl: string -> string) returns (shown: seq<string>)
    ensures listing.ListError? ==> shown == []
    ensures listing.Listed? ==> shown == ImageUrls(listing.data, publicUrl)
    ensures listing.Listed? ==> |shown| == |ImageFiles(listing.data)|
    ensures listing.Listed? ==> forall u :: u in shown <==>
              exists f :: f in listing.data && HasImageExtension(f.name) && u == publicUrl(f.name)
  {
    var gallery := new Gallery();
    gallery.LoadImages(listing, publicUrl);
    shown := gallery.images;
    if listing.Listed? {
      var kept := ImageFiles(listing.data);
      forall u | u in shown
        ensures exists f :: f in listing.data && HasImageExtension(f.name) && u == publicUrl(f.name)
      {
        var i :| 0 <= i < |shown| && shown[i] == u;
        assert kept[i] in kept;
      }
      forall f | f in listing.data && HasImageExtension(f.name)
        ensures publicUrl(f.name) in shown
      {
        var i :| 0 <= i < |kept| && kept[i] == f;
        assert shown[i] == publicUrl(f.name);
      }
    }
  }
}
