# Image gallery listing, modelled in Dafny

This project models the two pieces of listing logic of a public image gallery:

- **The image-listing endpoint** `GET /api/images` (`app/api/images/route.ts`).
  It pages through a bucket listing under the prefix `thumb/`. Each request
  carries the continuation token of the page before it, and the loop stops at
  the first page that is not truncated. It drops the bare prefix key and
  sorts the objects newest-first by modification time, with a missing time
  counting as 0. It turns every key into a record `{filename, thumbUrl, rawUrl, time}`.
  If anything throws, it answers an empty list with status 500.
- **The storage gallery's load step** (`app/components/Gallery.tsx`, `loadImages`).
  It keeps the listing entries whose name ends in `.png`, `.jpg`, `.jpeg` or
  `.webp`, in any case, and maps each to its public URL. On success it replaces
  the component's image list; on a listing error it leaves the list as it was.

Modules, one file each:

- `wrappers.dfy` — `Wrappers.Option`, for JavaScript's `undefined` and for calls that throw.
- `strings.dfy` — `Strings`: `indexOf`, `replace` with a string pattern (first occurrence only), and ASCII case folding.
- `uri_encoding.dfy` — `UriEncoding`: `encodeURIComponent` and `decodeURIComponent`. This is percent-encoding of UTF-8 bytes as in section 2.1 of RFC 3986. The unreserved set of section 2.3 is widened by `! * ' ( )`.
- `image_listing.dfy` — `ImageListing`: the endpoint. The pagination loop is a method with a `while` loop. The filter, sort and map chain is made of functions.
- `storage_gallery.dfy` — `StorageGallery`: the extension test, the filter and the map as functions. The component's `images` state is a field of class `Gallery`, and `LoadImages` updates it.

The storage backend is an input. For the endpoint, it is the sequence of
replies to successive `ListObjectsV2` requests; each reply is a page or a
thrown error. The requests the endpoint sends are an out-parameter of the
method. For the gallery, it is the listing result plus a `getPublicUrl`
function parameter.

The endpoint reads `domain` and `bucket` from environment variables:

- `domain` is a string parameter. It only enters the URL template literals,
  so an unset domain becomes the string `"undefined"` there.
- `bucket` is an `Option<string>`, passed unchanged as the `Bucket` of every
  request. An unset bucket is `None`. The backend then rejects the request,
  which the replies show as a `Failed` first reply.

The endpoint does no deduplication. A failing request does not end the
pagination softly: the whole endpoint answers `[]` with status 500 and
discards every page already accumulated.

## Model

| member | source | states |
|---|---|---|
| `Strings.IndexOfFrom` | app/api/images/route.ts:43 | The result is the first index at or after the start where the pattern occurs. `None` means it occurs nowhere after the start. |
| `Strings.RemoveFirst` | app/api/images/route.ts:43 | With no occurrence the string is unchanged. Otherwise exactly the first occurrence is cut out, wherever it stands. |
| `ImageListing.Consumed` | app/api/images/route.ts:12-32 | The loop sends requests up to and including the first reply that throws or whose `IsTruncated` is false or absent. Every earlier reply is a truncated page. |
| `ImageListing.ListAllObjects` | app/api/images/route.ts:12-32 | The result is the listing specification: the concatenation in fetch order of the consumed pages' `Contents`, or `None` if a request threw. One request is sent per consumed reply. Every request has the bucket, unset or not, and prefix `thumb/`. The first request has no token, and each later one has the previous page's `NextContinuationToken`. |
| `ImageListing.Continues` | app/api/images/route.ts:30 | No contract. `IsTruncated ?? false`; `Consumed` states how it stops the loop. |
| `ImageListing.PageItems` | app/api/images/route.ts:26-28 | No contract. The objects one page contributes; `FlattenMember` states it. |
| `ImageListing.Flatten` | app/api/images/route.ts:26-28 | No contract. The accumulated objects; `FlattenAppend` and `FlattenMember` state its properties. |
| `ImageListing.Listing` | app/api/images/route.ts:12-32 | No contract. The specification of the loop; `ListAllObjects` is proved equal to it and `ListingFailsIff` states when it fails. |
| `ImageListing.FlattenAppend` | app/api/images/route.ts:26-28 | Accumulating pages in two runs gives the concatenation of the two runs' objects, in order. |
| `ImageListing.FlattenMember` | app/api/images/route.ts:26-28 | An object is accumulated iff some fetched page lists it. A page without `Contents` contributes nothing. |
| `ImageListing.ListingFailsIff` | app/api/images/route.ts:59-62 | The listing fails iff one of the requests sent threw. |
| `ImageListing.Get` | app/api/images/route.ts:7-62 | The status is 500 iff a request threw, and then the body is empty. Otherwise the response is status 200 with the images of all the accumulated objects. Every request carries the configured bucket. |
| `ImageListing.IsImageObject` | app/api/images/route.ts:35 | No contract. The filter's test; `Kept` states what it keeps. |
| `ImageListing.Kept` | app/api/images/route.ts:35 | An object is kept iff its key is present, non-empty and not `thumb/`. The result is never longer than the input. |
| `ImageListing.KeptAppend` | app/api/images/route.ts:35 | Filtering distributes over concatenation, so the kept objects stay in listing order. |
| `ImageListing.Time` | app/api/images/route.ts:36-54 | No contract. `LastModified?.getTime()`, or 0 when that is missing; used by the sort and by the `time` field. |
| `ImageListing.SortNewestFirst` | app/api/images/route.ts:36 | The result is a permutation of the input, ordered by time non-increasing. A missing `LastModified` counts as 0. |
| `ImageListing.SortStable` | app/api/images/route.ts:36 | For every time value, the objects with that time keep their input order. The sort is stable, as JavaScript's `Array.prototype.sort` is. |
| `ImageListing.BaseName` | app/api/images/route.ts:43 | No contract. The two `replace` calls; `BaseNameOfThumbKey` and `BaseNameRemovesFirstOnly` state what it gives. |
| `ImageListing.ToRecord` | app/api/images/route.ts:37-56 | No contract. One record; `RecordUrls` and `ThumbUrlAddressesObject` state its URLs and name. |
| `ImageListing.Records` | app/api/images/route.ts:37-56 | There is exactly one record per object. |
| `ImageListing.RecordsAppend` | app/api/images/route.ts:37-56 | The map distributes over concatenation, so records come out in the order of their objects. |
| `ImageListing.Images` | app/api/images/route.ts:34-56 | No contract. The filter, sort and map chain; `ImagesArePermutation` and `ImagesNewestFirst` state its properties. |
| `ImageListing.Respond` | app/api/images/route.ts:58-62 | No contract. The two answers; `Get` states which is sent. |
| `ImageListing.ImagesArePermutation` | app/api/images/route.ts:34-56 | The body has as many records as there are kept objects. It is a reordering of the kept objects' records. |
| `ImageListing.ImagesNewestFirst` | app/api/images/route.ts:36-54 | The body's `time` fields are non-increasing. |
| `ImageListing.RecordUrls` | app/api/images/route.ts:46-53 | `rawUrl` is `domain/<seg>.png` and `thumbUrl` is `domain/thumb/<seg>.webp`, with the same segment in both. The segment holds no `/`, and `decodeURIComponent` of it gives the record's filename. |
| `ImageListing.BaseNameOfThumbKey` | app/api/images/route.ts:43 | For a name with no `.webp` in it, the key `thumb/<name>.webp` gives back the filename `name`. |
| `ImageListing.BaseNameRemovesFirstOnly` | app/api/images/route.ts:43 | Only the first `.webp` is removed: `thumb/a.webp.webp` gives the filename `a.webp`. |
| `ImageListing.ThumbUrlAddressesObject` | app/api/images/route.ts:38-51 | Take a key `thumb/<name>.webp` whose name needs no escaping. Its object is kept, its filename is `name`, and its `thumbUrl` is `domain/` followed by the key itself. |
| `UriEncoding.Encode` | app/api/images/route.ts:46 | No contract. `encodeURIComponent`; `DecodeEncode`, `EncodeInjective`, `EncodeAlphabet` and `EncodeIdentity` state its properties. |
| `UriEncoding.DecodeEncode` | app/api/images/route.ts:46 | `decodeURIComponent(encodeURIComponent(s)) == s` for every string. |
| `UriEncoding.EncodeInjective` | app/api/images/route.ts:46 | Two different filenames never get the same encoded name. |
| `UriEncoding.EncodeAlphabet` | app/api/images/route.ts:46 | The encoding consists only of unreserved characters, `%` and upper-case hex digits. In particular it holds no `/`. |
| `UriEncoding.EncodeIdentity` | app/api/images/route.ts:46 | A name is its own encoding iff every character is unreserved. The encoding is never shorter than the name. |
| `StorageGallery.HasImageExtension` | app/components/Gallery.tsx:28 | No contract. The regex test; `HasImageExtensionIff`, `KeptExamples` and `DroppedExamples` state its meaning. |
| `StorageGallery.HasImageExtensionIff` | app/components/Gallery.tsx:27-29 | The suffix test holds iff some `.` in the name is followed by exactly `png`, `jpg`, `jpeg` or `webp`, ignoring case. This holds in both directions. |
| `StorageGallery.KeptExamples` | app/components/Gallery.tsx:28 | `a.PNG` and `b.JpEg` are kept: the case of the extension does not matter. |
| `StorageGallery.DroppedExamples` | app/components/Gallery.tsx:28 | `a.png.txt` and `png` are dropped: the extension must end the name and follow a dot. |
| `StorageGallery.ImageFiles` | app/components/Gallery.tsx:27-29 | An entry is kept iff it is in the listing and has an image extension. The kept count is at most the listing length. |
| `StorageGallery.ImageFilesAppend` | app/components/Gallery.tsx:27-29 | Filtering distributes over concatenation, so kept entries keep their relative order. |
| `StorageGallery.PublicUrls` | app/components/Gallery.tsx:31-35 | There is exactly one URL per kept entry, in the same order. The i-th URL is the public URL of the i-th entry's name. |
| `StorageGallery.ImageUrls` | app/components/Gallery.tsx:27-35 | No contract. The URLs a successful load shows; `ImageFiles` and `PublicUrls` state its properties. |
| `StorageGallery.Gallery.LoadImages` | app/components/Gallery.tsx:13-38 | On a listing error the image list is unchanged. On success it is replaced wholesale by the URLs of the image entries, whatever it held before. |
| `StorageGallery.Gallery.constructor` | app/components/Gallery.tsx:7 | The image list starts empty. |
| `StorageGallery.Mount` | app/components/Gallery.tsx:7-11 | After mounting and the one load, the list is empty on error. Otherwise it is exactly the image entries' URLs in listing order: one URL per image entry, and a URL is shown iff it is the public URL of some image entry. |

## Left out

- Network I/O, `async`/`await`, React hooks and rendering (JSX, styles, the watermark `<span>`, `draggable` and context-menu suppression). Calls are modelled as sequential steps, and replies are inputs.
- `console.error` logging, the `revalidate = 60` cache setting, and the JSON serialisation done by `NextResponse.json`.
- `ImageListing.ListAllObjects`: requires that some reply throws or is not truncated. A backend that reports truncation forever makes the source loop forever, and that case is not modelled.
- Modification times: `LastModified` is an integer of milliseconds. An invalid `Date`, whose `getTime()` is `NaN` and which `|| 0` also maps to 0, is not represented.
- `encodeURIComponent` throwing `URIError` on a lone surrogate cannot arise. A Dafny `char` is a Unicode scalar value, so no string in the model holds one.
- The storage listing's options (`limit: 1000`, sorted by name): the order and number of entries are whatever the backend returns, which is an input here.
- `getPublicUrl` is a function parameter. Its URL format belongs to the storage library and is not part of this model.
- `lib/supabaseClients.ts`, `components/Gallery.tsx` (the realtime subscription and database query), `app/admin/page.tsx`, `app/layout.tsx` and `app/page.tsx` are not part of this model. They are configuration, I/O plumbing or static markup.
