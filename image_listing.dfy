/**
 * The image-listing endpoint `GET /api/images` (app/api/images/route.ts).
 *
 * It pages through the bucket listing under the prefix `thumb/` with
 * continuation tokens, drops the bare prefix key, orders the objects
 * newest-first and turns each key into a record
 * `{filename, thumbUrl, rawUrl, time}`. Any failure answers an empty list
 * with status 500.
 *
 * The storage backend is the sequence of its replies, in the order the
 * requests are sent; the requests the endpoint sends are an out-parameter.
 */
module ImageListing {
  import opened Wrappers
  import opened Strings
  import UriEncoding

  const ThumbPrefix: string := "thumb/"
  const WebpSuffix: string := ".webp"

  /** One object of a listing: its key and its modification time in milliseconds. */
  datatype StoredObject = StoredObject(key: Option<string>, lastModified: Option<int>)

  /** One page of a `ListObjectsV2` listing. */
  datatype ListPage = ListPage(
    contents: Option<seq<StoredObject>>,
    isTruncated: Option<bool>,
    nextToken: Option<string>)

  /** What the backend did with one request: answered a page, or threw. */
  datatype Reply = Answered(page: ListPage) | Failed

  /** The parameters of one `ListObjectsV2` request; an unset bucket name is `None`. */
  datatype ListRequest = ListRequest(bucket: Option<string>, prefix: string, continuationToken: Option<string>)

  datatype ImageRecord = ImageRecord(filename: string, thumbUrl: string, rawUrl: string, time: int)

  datatype JsonResponse = JsonResponse(status: nat, body: seq<ImageRecord>)

  // ---------------------------------------------------------------------------
  // Pagination

  /** `response.IsTruncated ?? false` */
  predicate Continues(p: ListPage) {
    p.isTruncated.GetOr(false)
  }

  /** A reply after which no further request is sent. */
  predicate Ends(r: Reply) {
    r.Failed? || !Continues(r.page)
  }

  /** The backend eventually stops the loop: some reply throws or is not truncated. */
  predicate ListingEnds(replies: seq<Reply>) {
    exists i :: 0 <= i < |replies| && Ends(replies[i])
  }

  /** How many requests the loop sends: up to and including the first reply that ends it. */
  function Consumed(replies: seq<Reply>): (n: nat)
    requires ListingEnds(replies)
    ensures 1 <= n <= |replies| && Ends(replies[n - 1])
    ensures forall k :: 0 <= k < n - 1 ==> !Ends(replies[k])
  {
    if Ends(replies[0]) then 1
    else
      assert ListingEnds(replies[1..]) by {
        var i :| 0 <= i < |replies| && Ends(replies[i]);
        assert replies[1..][i - 1] == replies[i];
      }
      1 + Consumed(replies[1..])
  }

  /** The objects of one page; a page without `Contents` has none. */
  function PageItems(r: Reply): seq<StoredObject> {
    if r.Answered? && r.page.contents.Some? then r.page.contents.value else []
  }

  /** The objects of the given pages, in fetch order. */
  function Flatten(rs: seq<Reply>): seq<StoredObject> {
    if rs == [] then [] else Flatten(rs[..|rs| - 1]) + PageItems(rs[|rs| - 1])
  }

  /** The objects the loop accumulates, or `None` when a request throws. */
  function Listing(replies: seq<Reply>): Option<seq<StoredObject>>
    requires ListingEnds(replies)
  {
    var n := Consumed(replies);
    if replies[n - 1].Failed? then None else Some(Flatten(replies[..n]))
  }

  /**
   * The `while (isTruncated)` loop: sends one request per iteration, the first
   * without a continuation token and each later one with the token of the page
   * before it, and appends every page's objects to the accumulated list.
   */
  method ListAllObjects(bucket: Option<string>, replies: seq<Reply>)
    returns (listed: Option<seq<StoredObject>>, requests: seq<ListRequest>)
    requires ListingEnds(replies)
    ensures listed == Listing(replies)
    ensures |requests| == Consumed(replies)
    ensures forall k :: 0 <= k < |requests| ==> requests[k].bucket == bucket && requests[k].prefix == ThumbPrefix
    ensures requests[0].continuationToken == None
    ensures forall k :: 0 < k < |requests| ==>
              replies[k - 1].Answered? && requests[k].continuationToken == replies[k - 1].page.nextToken
  {
    var isTruncated := true;
    var continuationToken: Option<string> := None;
    var allItems: seq<StoredObject> := [];
    var i := 0;
    requests := [];
    while isTruncated
      invariant 0 <= i <= Consumed(replies) && |requests| == i
      invariant isTruncated <==> i < Consumed(replies)
      invariant allItems == Flatten(replies[..i])
      invariant forall k :: 0 <= k < i ==> requests[k] == ListRequest(bucket, ThumbPrefix, requests[k].continuationToken)
      invariant i > 0 ==> requests[0].continuationToken == None
      invariant forall k :: 0 <= k < i ==> replies[k].Answered?
      invariant forall k :: 0 < k < i ==> requests[k].continuationToken == replies[k - 1].page.nextToken
      invariant continuationToken == if i == 0 then None else replies[i - 1].page.nextToken
      decreases Consumed(replies) - i
    {
      requests := requests + [ListRequest(bucket, ThumbPrefix, continuationToken)];
      var reply := replies[i];
      if reply.Failed? {
        return None, requests;
      }
      var page := reply.page;
      assert replies[..i + 1][..i] == replies[..i];
      if page.contents.Some? {
        allItems := allItems + page.contents.value;
      }
      isTruncated := page.isTruncated.GetOr(false);
      continuationToken := page.nextToken;
      i := i + 1;
    }
    listed := Some(allItems);
  }

  lemma {:induction false} FlattenAppend(a: seq<Reply>, b: seq<Reply>)
    ensures Flatten(a + b) == Flatten(a) + Flatten(b)
    decreases |b|
  {
    if b == [] {
      assert a + b == a;
    } else {
      var b', last := b[..|b| - 1], b[|b| - 1];
      var ab := a + b;
      assert ab[..|ab| - 1] == a + b' && ab[|ab| - 1] == last;
      assert Flatten(ab) == Flatten(a + b') + PageItems(last);
      FlattenAppend(a, b');
      assert Flatten(b) == Flatten(b') + PageItems(last);
    }
  }

  /** An object is accumulated exactly when some fetched page lists it. */
  lemma {:induction false} FlattenMember(rs: seq<Reply>, o: StoredObject)
    ensures o in Flatten(rs) <==> exists k :: 0 <= k < |rs| && o in PageItems(rs[k])
    decreases |rs|
  {
    if rs != [] {
      var init := rs[..|rs| - 1];
      FlattenMember(init, o);
      if o in Flatten(init) {
        var k :| 0 <= k < |init| && o in PageItems(init[k]);
        assert rs[k] == init[k];
      }
      if exists k :: 0 <= k < |rs| && o in PageItems(rs[k]) {
        var k :| 0 <= k < |rs| && o in PageItems(rs[k]);
        if k < |init| {
          assert init[k] == rs[k];
        }
      }
    }
  }

  /** The listing fails exactly when one of the requests sent throws; then nothing is kept. */
  lemma ListingFailsIff(replies: seq<Reply>)
    requires ListingEnds(replies)
    ensures Listing(replies).None? <==> exists k :: 0 <= k < Consumed(replies) && replies[k].Failed?
  {
  }

  // ---------------------------------------------------------------------------
  // The filter / sort / map chain

  /** `item.Key && item.Key !== 'thumb/'`: the key is present, non-empty and not the bare prefix. */
  predicate IsImageObject(o: StoredObject) {
    o.key.Some? && o.key.value != "" && o.key.value != ThumbPrefix
  }

  /** The objects that pass the filter, in listing order. */
  function Kept(objs: seq<StoredObject>): (r: seq<StoredObject>)
    ensures |r| <= |objs|
    ensures forall o :: o in r <==> o in objs && IsImageObject(o)
  {
    if objs == [] then []
    else (if IsImageObject(objs[0]) then [objs[0]] else []) + Kept(objs[1..])
  }

  /** Filtering keeps the listing order: it distributes over concatenation. */
  lemma {:induction false} KeptAppend(a: seq<StoredObject>, b: seq<StoredObject>)
    ensures Kept(a + b) == Kept(a) + Kept(b)
    decreases |a|
  {
    if a == [] {
      assert a + b == b;
    } else {
      assert (a + b)[1..] == a[1..] + b;
      assert (a + b)[0] == a[0];
      KeptAppend(a[1..], b);
    }
  }

  /** `item.LastModified?.getTime() || 0` */
  function Time(o: StoredObject): int {
    o.lastModified.GetOr(0)
  }

  predicate NewestFirst(s: seq<StoredObject>) {
    forall i, j :: 0 <= i < j < |s| ==> Time(s[i]) >= Time(s[j])
  }

  /** Puts `x` before the first object of `s` that is not newer than it. */
  function Insert(x: StoredObject, s: seq<StoredObject>): (r: seq<StoredObject>)
    ensures multiset(r) == multiset(s) + multiset{x}
  {
    if s == [] || Time(s[0]) <= Time(x) then [x] + s
    else
      assert s == [s[0]] + s[1..];
      [s[0]] + Insert(x, s[1..])
  }

  /** Prepending an object at least as new as every other keeps the order. */
  lemma ConsNewestFirst(y: StoredObject, t: seq<StoredObject>)
    requires NewestFirst(t)
    requires forall o :: o in t ==> Time(o) <= Time(y)
    ensures NewestFirst([y] + t)
  {
    var r := [y] + t;
    forall i, j | 0 <= i < j < |r|
      ensures Time(r[i]) >= Time(r[j])
    {
      assert r[j] == t[j - 1];
      if i > 0 {
        assert r[i] == t[i - 1];
      }
    }
  }

  lemma {:induction false} InsertNewestFirst(x: StoredObject, s: seq<StoredObject>)
    requires NewestFirst(s)
    ensures NewestFirst(Insert(x, s))
    decreases |s|
  {
    if s == [] || Time(s[0]) <= Time(x) {
      ConsNewestFirst(x, s);
    } else {
      var tail := Insert(x, s[1..]);
      InsertNewestFirst(x, s[1..]);
      forall o | o in tail
        ensures Time(o) <= Time(s[0])
      {
        assert o in multiset(tail);
        if o != x {
          assert o in multiset(s[1..]);
          var k :| 0 <= k < |s[1..]| && s[1..][k] == o;
          assert s[k + 1] == o;
        }
      }
      ConsNewestFirst(s[0], tail);
    }
  }

  /**
   * `.sort((a, b) => time(b) - time(a))`: a stable sort, newest first.
   */
  function SortNewestFirst(s: seq<StoredObject>): (r: seq<StoredObject>)
    ensures multiset(r) == multiset(s)
    ensures NewestFirst(r)
  {
    if s == [] then []
    else
      assert s == [s[0]] + s[1..];
      InsertNewestFirst(s[0], SortNewestFirst(s[1..]));
      Insert(s[0], SortNewestFirst(s[1..]))
  }

  /** The objects of `s` with time `t`, in order. */
  function WithTime(s: seq<StoredObject>, t: int): seq<StoredObject> {
    if s == [] then [] else (if Time(s[0]) == t then [s[0]] else []) + WithTime(s[1..], t)
  }

  lemma {:induction false} InsertStable(x: StoredObject, s: seq<StoredObject>, t: int)
    requires NewestFirst(s)
    ensures WithTime(Insert(x, s), t) == (if Time(x) == t then [x] else []) + WithTime(s, t)
    decreases |s|
  {
    if s == [] || Time(s[0]) <= Time(x) {
      assert ([x] + s)[1..] == s;
    } else {
      var r := Insert(x, s);
      assert r[1..] == Insert(x, s[1..]);
      InsertStable(x, s[1..], t);
    }
  }

  /** The sort is stable: objects with the same time keep their listing order. */
  lemma {:induction false} SortStable(s: seq<StoredObject>, t: int)
    ensures WithTime(SortNewestFirst(s), t) == WithTime(s, t)
  {
    if s != [] {
      SortStable(s[1..], t);
      InsertStable(s[0], SortNewestFirst(s[1..]), t);
    }
  }

  /** `thumbKey.replace('thumb/', '').replace('.webp', '')` */
  function BaseName(key: string): string {
    RemoveFirst(RemoveFirst(key, ThumbPrefix), WebpSuffix)
  }

  /** The record of one kept object: both URLs are built from the same encoded name. */
  function ToRecord(domain: string, o: StoredObject): ImageRecord
    requires IsImageObject(o)
  {
    var name := BaseName(o.key.value);
    var encoded := UriEncoding.Encode(name);
    ImageRecord(name, domain + "/thumb/" + encoded + ".webp", domain + "/" + encoded + ".png", Time(o))
  }

  function Records(domain: string, objs: seq<StoredObject>): (r: seq<ImageRecord>)
    requires forall o :: o in objs ==> IsImageObject(o)
    ensures |r| == |objs|
  {
    if objs == [] then [] else [ToRecord(domain, objs[0])] + Records(domain, objs[1..])
  }

  /** The response body of a listing that succeeded. */
  function Images(domain: string, items: seq<StoredObject>): seq<ImageRecord> {
    var sorted := SortNewestFirst(Kept(items));
    assert forall o :: o in sorted ==> o in multiset(Kept(items));
    Records(domain, sorted)
  }

  /** `GET`: the images on success; an empty list with status 500 when anything throws. */
  function Respond(domain: string, listed: Option<seq<StoredObject>>): JsonResponse {
    match listed
    case None => JsonResponse(500, [])
    case Some(items) => JsonResponse(200, Images(domain, items))
  }

  method Get(domain: string, bucket: Option<string>, replies: seq<Reply>)
    returns (response: JsonResponse, requests: seq<ListRequest>)
    requires ListingEnds(replies)
    ensures response.status == 500 <==> exists k :: 0 <= k < Consumed(replies) && replies[k].Failed?
    ensures response.status == 500 ==> response.body == []
    ensures response.status != 500 ==>
              response == JsonResponse(200, Images(domain, Flatten(replies[..Consumed(replies)])))
    ensures |requests| == Consumed(replies)
    ensures forall k :: 0 <= k < |requests| ==> requests[k].bucket == bucket
  {
    var listed;
    listed, requests := ListAllObjects(bucket, replies);
    ListingFailsIff(replies);
    response := Respond(domain, listed);
  }

  // ---------------------------------------------------------------------------
  // Properties of the response body

  /** The map keeps the order of the objects: it distributes over concatenation. */
  lemma {:induction false} RecordsAppend(domain: string, a: seq<StoredObject>, b: seq<StoredObject>)
    requires forall o :: o in a + b ==> IsImageObject(o)
    ensures Records(domain, a + b) == Records(domain, a) + Records(domain, b)
    decreases |a|
  {
    if a == [] {
      assert a + b == b;
    } else {
      assert (a + b)[1..] == a[1..] + b;
      assert (a + b)[0] == a[0];
      RecordsAppend(domain, a[1..], b);
    }
  }

  lemma {:induction false} RecordsInsert(domain: string, x: StoredObject, s: seq<StoredObject>)
    requires IsImageObject(x) && forall o :: o in s ==> IsImageObject(o)
    ensures forall o :: o in Insert(x, s) ==> IsImageObject(o)
    ensures multiset(Records(domain, Insert(x, s))) == multiset(Records(domain, s)) + multiset{ToRecord(domain, x)}
    decreases |s|
  {
    var r := Insert(x, s);
    assert forall o :: o in r ==> o in multiset(s) + multiset{x};
    if s != [] && Time(s[0]) > Time(x) {
      RecordsInsert(domain, x, s[1..]);
      assert Records(domain, r) == [ToRecord(domain, s[0])] + Records(domain, Insert(x, s[1..]));
      assert Records(domain, s) == [ToRecord(domain, s[0])] + Records(domain, s[1..]);
    } else {
      assert Records(domain, r) == [ToRecord(domain, x)] + Records(domain, s);
    }
  }

  /** Sorting reorders the records and neither adds nor drops one. */
  lemma {:induction false} RecordsOfSort(domain: string, s: seq<StoredObject>)
    requires forall o :: o in s ==> IsImageObject(o)
    ensures forall o :: o in SortNewestFirst(s) ==> IsImageObject(o)
    ensures multiset(Records(domain, SortNewestFirst(s))) == multiset(Records(domain, s))
  {
    if s != [] {
      RecordsOfSort(domain, s[1..]);
      RecordsInsert(domain, s[0], SortNewestFirst(s[1..]));
      assert Records(domain, s) == [ToRecord(domain, s[0])] + Records(domain, s[1..]);
    }
  }

  /**
   * The body holds exactly one record per kept object: it is the records of
   * the kept objects, reordered.
   */
  lemma ImagesArePermutation(domain: string, items: seq<StoredObject>)
    ensures |Images(domain, items)| == |Kept(items)|
    ensures multiset(Images(domain, items)) == multiset(Records(domain, Kept(items)))
  {
    RecordsOfSort(domain, Kept(items));
    assert |SortNewestFirst(Kept(items))| == |multiset(Kept(items))|;
  }

  /** The body is ordered by time, newest first. */
  lemma ImagesNewestFirst(domain: string, items: seq<StoredObject>)
    ensures forall i, j :: 0 <= i < j < |Images(domain, items)| ==>
              Images(domain, items)[i].time >= Images(domain, items)[j].time
  {
    var sorted := SortNewestFirst(Kept(items));
    RecordsOfSort(domain, Kept(items));
    var body := Images(domain, items);
    assert body == Records(domain, sorted);
    forall i, j | 0 <= i < j < |body|
      ensures body[i].time >= body[j].time
    {
      RecordAt(domain, sorted, i);
      RecordAt(domain, sorted, j);
    }
  }

  lemma {:induction false} RecordAt(domain: string, objs: seq<StoredObject>, i: nat)
    requires forall o :: o in objs ==> IsImageObject(o)
    requires i < |objs|
    ensures Records(domain, objs)[i] == ToRecord(domain, objs[i])
    decreases i
  {
    if i > 0 {
      RecordAt(domain, objs[1..], i - 1);
    }
  }

  /**
   * Both URLs of a record carry the same name segment; it holds no `/` and
   * decodes back to the record's filename.
   */
  lemma RecordUrls(domain: string, o: StoredObject)
    requires IsImageObject(o)
    ensures var r := ToRecord(domain, o);
      && |r.rawUrl| >= |domain| + 5
      && var segment := r.rawUrl[|domain| + 1 .. |r.rawUrl| - 4];
      && r.rawUrl == domain + "/" + segment + ".png"
      && r.thumbUrl == domain + "/thumb/" + segment + ".webp"
      && '/' !in segment
      && UriEncoding.Decode(segment) == Some(r.filename)
  {
    var r := ToRecord(domain, o);
    var encoded := UriEncoding.Encode(r.filename);
    assert r.rawUrl[|domain| + 1 .. |r.rawUrl| - 4] == encoded;
    UriEncoding.EncodeAlphabet(r.filename);
    UriEncoding.DecodeEncode(r.filename);
  }

  /** No occurrence of `.webp` in `name`. */
  predicate HasNoWebp(name: string) {
    forall j :: 0 <= j < |name| ==> !OccursAt(name, WebpSuffix, j)
  }

  /** The key of a thumbnail, `thumb/<name>.webp`, gives back `name` when `name` holds no `.webp`. */
  lemma {:induction false} BaseNameOfThumbKey(name: string)
    requires HasNoWebp(name)
    ensures BaseName(ThumbPrefix + name + WebpSuffix) == name
  {
    var key := ThumbPrefix + name + WebpSuffix;
    assert OccursAt(key, ThumbPrefix, 0) by {
      assert key[0..6] == ThumbPrefix;
    }
    var rest := name + WebpSuffix;
    assert key[..0] + key[6..] == rest;
    assert OccursAt(rest, WebpSuffix, |name|) by {
      assert rest[|name|..|name| + 5] == WebpSuffix;
    }
    forall j: nat | j < |name|
      ensures !OccursAt(rest, WebpSuffix, j)
    {
      if j + 5 <= |name| {
        assert rest[j..j + 5] == name[j..j + 5];
        assert !OccursAt(name, WebpSuffix, j);
      } else {
        var m := |name| - j;
        assert rest[j..j + 5][m] == '.';
        assert WebpSuffix[m] != '.';
      }
    }
    assert rest[..|name|] + rest[|name| + 5..] == name;
  }

  /** Only the first `.webp` is removed: `thumb/a.webp.webp` is named `a.webp`. */
  lemma BaseNameRemovesFirstOnly()
    ensures BaseName("thumb/a.webp.webp") == "a.webp"
  {
    var key := "thumb/a.webp.webp";
    assert OccursAt(key, ThumbPrefix, 0) by {
      assert key[0..6] == ThumbPrefix;
    }
    var rest := "a.webp.webp";
    assert key[..0] + key[6..] == rest;
    assert OccursAt(rest, WebpSuffix, 1) by {
      assert rest[1..6] == WebpSuffix;
    }
    assert !OccursAt(rest, WebpSuffix, 0) by {
      assert rest[0..5][0] == 'a';
    }
    assert rest[..1] + rest[6..] == "a.webp";
  }

  /**
   * For a thumbnail key `thumb/<name>.webp` whose name needs no escaping, the
   * thumbnail URL is the object's own address under `domain`.
   */
  lemma {:induction false} ThumbUrlAddressesObject(domain: string, name: string, o: StoredObject)
    requires HasNoWebp(name)
    requires forall i :: 0 <= i < |name| ==> UriEncoding.IsUnreserved(name[i])
    requires o.key == Some(ThumbPrefix + name + WebpSuffix)
    ensures IsImageObject(o)
    ensures ToRecord(domain, o).filename == name
    ensures ToRecord(domain, o).thumbUrl == domain + "/" + o.key.value
  {
    var key := o.key.value;
    assert |key| == |name| + 11;
    BaseNameOfThumbKey(name);
    assert UriEncoding.Encode(name) == name by {
      UriEncoding.EncodeIdentity(name);
    }
    ThumbPathIsKey(domain, name);
  }

  lemma ThumbPathIsKey(domain: string, name: string)
    ensures domain + "/thumb/" + name + ".webp" == domain + "/" + (ThumbPrefix + name + WebpSuffix)
  {
    assert "/thumb/" == "/" + ThumbPrefix;
  }
}
