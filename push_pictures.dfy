/**
 * `pushPictures` (`src/app/astro/services/push-pictures.ts`): publishes the
 * edited photo wall in one commit. Staged files are uploaded as blobs (one per
 * content hash), their slots are rewritten to the published URLs, images the
 * previous `list.json` referenced and the new one does not are deleted, and the
 * new `list.json` is written last.
 */
module PushPictures {
  import opened Wrappers
  import Js
  import JsMap
  import opened Astro
  import opened GitHub
  import opened Auth
  import Slots

  const AstroUrlPrefix: string := "/images/astro/"
  const AstroDir: string := "public/images/astro/"
  const ListPath: string := "src/app/astro/list.json"
  const CommitMessage: string := "更新星空照片墙列表"

  /** The local helpers the service calls, as opaque functions. */
  datatype Oracles = Oracles(
    hashFile: FileData -> string,              // hashFileSHA256
    fileExt: string -> string,                 // getFileExt(file.name)
    fileBase64: FileData -> string,            // fileToBase64NoPrefix
    utf8Base64: string -> string,              // toBase64Utf8
    stringify: seq<Picture> -> string,         // JSON.stringify(_, null, '\t')
    parse: string -> Option<seq<Picture>>)     // JSON.parse as Picture[]; None where it throws


  // ---------------------------------------------------------------------------
  // Uploads: one blob per content hash
  // ---------------------------------------------------------------------------

  /** `imageItem.hash || hashFileSHA256(imageItem.file)`. */
  function ItemHash(item: ImageItem, o: Oracles): string
    requires item.FileItem?
  {
    if item.hash != "" then item.hash else o.hashFile(item.file)
  }

  /** `${hash}${ext}`. */
  function FileName(item: ImageItem, o: Oracles): string
    requires item.FileItem?
  {
    ItemHash(item, o) + o.fileExt(item.file.name)
  }

  /** `/images/astro/${filename}`: the URL a file slot is rewritten to. */
  function PublicUrl(item: ImageItem, o: Oracles): string
    requires item.FileItem?
  {
    AstroUrlPrefix + FileName(item, o)
  }

  /** A blob to create: its content hash, repository path and base64 content. */
  datatype Upload = Upload(hash: string, path: string, base64: string)

  function Hashes(ups: seq<Upload>): set<string>
  {
    set u | u in ups :: u.hash
  }

  /** The upload loop's step for one slot: a file item whose hash is new adds its blob. */
  function UploadStep(done: seq<Upload>, item: ImageItem, o: Oracles): seq<Upload>
  {
    if item.FileItem? && ItemHash(item, o) !in Hashes(done) then done + [UploadOf(item, o)] else done
  }

  /** The blob a file item is uploaded as: `public/images/astro/${hash}${ext}` with the file's base64 content. */
  function UploadOf(item: ImageItem, o: Oracles): Upload
    requires item.FileItem?
  {
    Upload(ItemHash(item, o), AstroDir + FileName(item, o), o.fileBase64(item.file))
  }

  /** The blobs the upload loop creates, in slot-map order: the first file item of each hash. */
  function Uploads(items: SlotMap, o: Oracles): seq<Upload>
    decreases |items|
  {
    if items == [] then [] else UploadStep(Uploads(items[..|items| - 1], o), items[|items| - 1].1, o)
  }

  /** The `createBlob` calls for the uploads. */
  function BlobCalls(ups: seq<Upload>): (calls: seq<Call>)
    ensures |calls| == |ups|
  {
    seq(|ups|, i requires 0 <= i < |ups| => CreateBlob(ups[i].base64))
  }

  /** The blob tree entries, the `j`-th upload receiving SHA `n0 + j`. */
  function UploadEntries(ups: seq<Upload>, n0: Id): (entries: seq<TreeEntry>)
    ensures |entries| == |ups|
  {
    seq(|ups|, i requires 0 <= i < |ups| => TreeEntry(ups[i].path, BlobMode, Some(n0 + i)))
  }

  // ---------------------------------------------------------------------------
  // Slot rewriting
  // ---------------------------------------------------------------------------

  /** `key.split('::')` and `Number(indexStr) || 0`: the picture id and the position a slot names. */
  function SlotTarget(key: string): (string, int)
  {
    (SlotParts(key).0, match SlotNumber(key) case Some(v) => v case None => 0)
  }

  /** `images.map((img, idx) => idx === index ? url : img)`. */
  function ReplaceAt(images: seq<string>, index: int, url: string): (r: seq<string>)
    ensures |r| == |images|
  {
    seq(|images|, i requires 0 <= i < |images| => if i == index then url else images[i])
  }

  /** `{ ...p, image: undefined, images: nextImages }`. */
  function RewritePicture(p: Picture, index: int, url: string): Picture
  {
    p.(image := None, images := Some(ReplaceAt(CurrentImages(p), index, url)))
  }

  /** `updatedPictures.map(...)` for one slot: every picture with the slot's id is rewritten. */
  function RewriteSlot(pics: seq<Picture>, group: string, index: int, url: string): (r: seq<Picture>)
    ensures |r| == |pics|
  {
    seq(|pics|, i requires 0 <= i < |pics| => if pics[i].id != group then pics[i] else RewritePicture(pics[i], index, url))
  }

  /** The upload loop's rewrite for one slot; URL items change nothing. */
  function RewriteStep(pics: seq<Picture>, key: string, item: ImageItem, o: Oracles): seq<Picture>
  {
    if item.FileItem? then RewriteSlot(pics, SlotTarget(key).0, SlotTarget(key).1, PublicUrl(item, o)) else pics
  }

  /** The pictures after every file slot has been rewritten, in slot-map order. */
  function Rewritten(pics: seq<Picture>, items: SlotMap, o: Oracles): seq<Picture>
    decreases |items|
  {
    if items == [] then pics
    else RewriteStep(Rewritten(pics, items[..|items| - 1], o), items[|items| - 1].0, items[|items| - 1].1, o)
  }

  // ---------------------------------------------------------------------------
  // Referenced URLs and the deletions
  // ---------------------------------------------------------------------------

  /** Adds one picture's URLs to a JavaScript Set: a truthy `image`, then every entry of a non-empty `images`. */
  function AddPictureUrls(acc: seq<string>, p: Picture): seq<string>
  {
    var a := if Truthy(p.image) then Js.SetAdd(acc, p.image.value) else acc;
    if p.images.Some? && |p.images.value| > 0 then Js.SetAddAll(a, p.images.value) else a
  }

  /** The set of URLs the pictures reference, in insertion order. */
  function ImageUrlSet(pics: seq<Picture>): seq<string>
    decreases |pics|
  {
    if pics == [] then [] else AddPictureUrls(ImageUrlSet(pics[..|pics| - 1]), pics[|pics| - 1])
  }

  /** The null-SHA entry deleting the file behind an astro URL. */
  function DeleteEntry(url: string): TreeEntry
  {
    TreeEntry(AstroDir + Js.ReplaceFirst(url, AstroUrlPrefix, ""), BlobMode, None)
  }

  /** The delete loop: previously referenced astro URLs that are no longer referenced. */
  function DeleteEntries(previous: seq<string>, current: seq<string>): seq<TreeEntry>
    decreases |previous|
  {
    if previous == [] then []
    else
      var url := previous[|previous| - 1];
      DeleteEntries(previous[..|previous| - 1], current) +
        (if url !in current && Js.StartsWith(url, AstroUrlPrefix) then [DeleteEntry(url)] else [])
  }

  /** The URLs of the previous list: none when it is absent, empty or unparsable. */
  function PreviousUrls(previousJson: Option<string>, o: Oracles): seq<string>
  {
    if Truthy(previousJson) then
      match o.parse(previousJson.value)
      case Some(previous) => ImageUrlSet(previous)
      case None => []
    else []
  }

  function Lookup(files: map<string, string>, path: string): Option<string>
  {
    if path in files then Some(files[path]) else None
  }

  /** The entry writing the new `list.json`. */
  function ListEntry(sha: Id): TreeEntry
  {
    TreeEntry(ListPath, BlobMode, Some(sha))
  }

  /** The tree after the upload loop: its blob entries, then the deletions, then `list.json` (blob `listSha`). */
  function TailTree(entries: seq<TreeEntry>, updated: seq<Picture>, o: Oracles, previousJson: Option<string>, listSha: Id): seq<TreeEntry>
  {
    entries + DeleteEntries(PreviousUrls(previousJson, o), ImageUrlSet(updated)) + [ListEntry(listSha)]
  }

  /** The whole tree: uploads (SHAs from `n`), then deletions, then `list.json`. */
  function TreeItems(pictures: seq<Picture>, items: SlotMap, o: Oracles, previousJson: Option<string>, n: Id): seq<TreeEntry>
  {
    var ups := Uploads(items, o);
    TailTree(UploadEntries(ups, n), Rewritten(pictures, items, o), o, previousJson, n + |ups|)
  }

  /** The five calls after the upload loop, when the next identifier is `m`. */
  function TailCalls(ref: string, entries: seq<TreeEntry>, updated: seq<Picture>, o: Oracles,
                     head: Id, files: map<string, string>, m: Id): seq<Call>
  {
    [ ReadTextFile(ListPath),
      CreateBlob(o.utf8Base64(o.stringify(updated))),
      CreateTree(TailTree(entries, updated, o, Lookup(files, ListPath), m), head),
      CreateCommit(CommitMessage, m + 1, [head]),
      UpdateRef(ref, m + 2) ]
  }

  /** The calls after the token, when the branch is at `head` and the next identifier is `n`. */
  function PushCalls(ref: string, pictures: seq<Picture>, items: SlotMap, o: Oracles,
                     head: Id, files: map<string, string>, n: Id): seq<Call>
  {
    var ups := Uploads(items, o);
    [GetRef(ref)] + BlobCalls(ups) +
      TailCalls(ref, UploadEntries(ups, n), Rewritten(pictures, items, o), o, head, files, n + |ups|)
  }

  datatype PushError = AuthFailed(error: AuthError) | RemoteFailed

  // ---------------------------------------------------------------------------
  // The service's loops
  // ---------------------------------------------------------------------------

  /** The uploads of a prefix of the slot map are a prefix of the uploads of the whole map. */
  lemma {:induction false} UploadsPrefix(items: SlotMap, j: nat, o: Oracles)
    requires j <= |items|
    ensures |Uploads(items[..j], o)| <= |Uploads(items, o)|
    ensures Uploads(items, o)[..|Uploads(items[..j], o)|] == Uploads(items[..j], o)
    decreases |items|
  {
    if j < |items| {
      var init := items[..|items| - 1];
      assert init[..j] == items[..j];
      UploadsPrefix(init, j, o);
    } else {
      assert items[..j] == items;
    }
  }

  /** One more slot is one more loop step. */
  lemma LoopStep(pics: seq<Picture>, items: SlotMap, i: nat, o: Oracles)
    requires i < |items|
    ensures Uploads(items[..i + 1], o) == UploadStep(Uploads(items[..i], o), items[i].1, o)
    ensures Rewritten(pics, items[..i + 1], o) == RewriteStep(Rewritten(pics, items[..i], o), items[i].0, items[i].1, o)
  {
    assert items[..i + 1][..i] == items[..i];
  }

  lemma UploadAppended(done: seq<Upload>, u: Upload, n0: Id)
    ensures BlobCalls(done + [u]) == BlobCalls(done) + [CreateBlob(u.base64)]
    ensures UploadEntries(done + [u], n0) == UploadEntries(done, n0) + [TreeEntry(u.path, BlobMode, Some(n0 + |done|))]
    ensures Hashes(done + [u]) == Hashes(done) + {u.hash}
  {
  }

  /** Where the loop stops on a failed blob call, the calls made are a prefix of the planned ones. */
  lemma UploadStopped(items: SlotMap, i: nat, o: Oracles)
    requires i < |items|
    ensures |Uploads(items[..i + 1], o)| <= |Uploads(items, o)|
    ensures BlobCalls(Uploads(items, o))[..|Uploads(items[..i + 1], o)|] == BlobCalls(Uploads(items[..i + 1], o))
  {
    UploadsPrefix(items, i + 1, o);
  }

  /**
   * One `createBlob` of the upload loop, for the upload `u` that follows the
   * uploads `done` made since the trace was `start`.
   */
  method UploadBlob(u: Upload, remote: Remote, entries: seq<TreeEntry>,
                    ghost start: seq<Call>, ghost done: seq<Upload>, ghost n0: Id)
    returns (ok: bool, entries': seq<TreeEntry>)
    requires remote.trace == start + BlobCalls(done) && remote.next == n0 + |done|
    requires AllSucceed(remote.faults, |start|, |done|) && entries == UploadEntries(done, n0)
    modifies remote
    ensures remote.head == old(remote.head) && remote.files == old(remote.files)
    ensures ok ==> remote.trace == start + BlobCalls(done + [u]) && remote.next == n0 + |done + [u]|
    ensures ok ==> AllSucceed(remote.faults, |start|, |done + [u]|) && entries' == UploadEntries(done + [u], n0)
    ensures !ok ==> Ran(start, remote.trace, remote.faults, BlobCalls(done + [u]), false)
  {
    UploadAppended(done, u, n0);
    var blob := remote.Create(CreateBlob(u.base64));
    if blob.None? {
      return false, entries;
    }
    entries' := entries + [TreeEntry(u.path, BlobMode, Some(blob.value))];
    ok := true;
  }

  /**
   * The upload loop: one `createBlob` per new content hash, and every file slot
   * rewritten. Succeeds iff none of its blob calls fails; a failure stops the
   * loop right after the failing call.
   */
  method UploadImages(pictures: seq<Picture>, items: SlotMap, o: Oracles, remote: Remote)
    returns (ok: bool, entries: seq<TreeEntry>, updated: seq<Picture>)
    modifies remote
    ensures Ran(old(remote.trace), remote.trace, remote.faults, BlobCalls(Uploads(items, o)), ok)
    ensures ok ==> entries == UploadEntries(Uploads(items, o), old(remote.next))
    ensures ok ==> updated == Rewritten(pictures, items, o)
    ensures ok ==> remote.next == old(remote.next) + |Uploads(items, o)|
    ensures remote.head == old(remote.head) && remote.files == old(remote.files)
  {
    ghost var start := remote.trace;
    ghost var n0 := remote.next;
    ghost var done: seq<Upload> := [];
    var uploadedHashes: set<string> := {};
    entries := [];
    updated := pictures;
    var i := 0;
    while i < |items|
      invariant 0 <= i <= |items|
      invariant done == Uploads(items[..i], o)
      invariant updated == Rewritten(pictures, items[..i], o)
      invariant uploadedHashes == Hashes(done)
      invariant entries == UploadEntries(done, n0)
      invariant remote.trace == start + BlobCalls(done)
      invariant remote.next == n0 + |done|
      invariant AllSucceed(remote.faults, |start|, |done|)
      invariant remote.head == old(remote.head) && remote.files == old(remote.files)
    {
      LoopStep(pictures, items, i, o);
      var key := items[i].0;
      var item := items[i].1;
      if item.FileItem? {
        var hash := if item.hash != "" then item.hash else o.hashFile(item.file);
        var filename := hash + o.fileExt(item.file.name);
        var publicPath := AstroUrlPrefix + filename;
        if hash !in uploadedHashes {
          var path := AstroDir + filename;
          var content := o.fileBase64(item.file);
          var uploaded;
          uploaded, entries := UploadBlob(Upload(hash, path, content), remote, entries, start, done, n0);
          if !uploaded {
            UploadFailed(start, remote.trace, remote.faults, items, i, o);
            return false, entries, updated;
          }
          uploadedHashes := uploadedHashes + {hash};
        }
        var target := SlotTarget(key);
        updated := RewriteSlot(updated, target.0, target.1, publicPath);
      }
      done := UploadStep(done, item, o);
      i := i + 1;
    }
    assert items[..i] == items;
    ok := true;
  }

  /** A blob call of the loop that fails stops the whole loop's plan. */
  lemma UploadFailed(start: seq<Call>, after: seq<Call>, faults: set<nat>, items: SlotMap, i: nat, o: Oracles)
    requires i < |items|
    requires Ran(start, after, faults, BlobCalls(Uploads(items[..i + 1], o)), false)
    ensures Ran(start, after, faults, BlobCalls(Uploads(items, o)), false)
  {
    UploadStopped(items, i, o);
    var p := BlobCalls(Uploads(items[..i + 1], o));
    var q := BlobCalls(Uploads(items, o));
    RanStop(start, after, faults, p, q[|p|..]);
    assert p + q[|p|..] == q;
  }

  /** The loop filling a URL set from a picture list. */
  method CollectUrls(pics: seq<Picture>) returns (urls: seq<string>)
    ensures urls == ImageUrlSet(pics)
  {
    urls := [];
    for i := 0 to |pics|
      invariant urls == ImageUrlSet(pics[..i])
    {
      assert pics[..i + 1][..i] == pics[..i];
      var picture := pics[i];
      if Truthy(picture.image) {
        urls := Js.SetAdd(urls, picture.image.value);
      }
      if picture.images.Some? && |picture.images.value| > 0 {
        urls := Js.SetAddAll(urls, picture.images.value);
      }
    }
    assert pics[..|pics|] == pics;
  }

  /** The delete loop over the previous URL set. */
  method CollectDeletes(previous: seq<string>, current: seq<string>) returns (entries: seq<TreeEntry>)
    ensures entries == DeleteEntries(previous, current)
  {
    entries := [];
    for i := 0 to |previous|
      invariant entries == DeleteEntries(previous[..i], current)
    {
      assert previous[..i + 1][..i] == previous[..i];
      var url := previous[i];
      if url !in current && Js.StartsWith(url, AstroUrlPrefix) {
        var filename := Js.ReplaceFirst(url, AstroUrlPrefix, "");
        entries := entries + [TreeEntry(AstroDir + filename, BlobMode, None)];
      }
    }
    assert previous[..|previous|] == previous;
  }

  // ---------------------------------------------------------------------------
  // The service
  // ---------------------------------------------------------------------------

  /** `heads/${GITHUB_CONFIG.BRANCH}`. */
  function BranchRef(branch: string): string
  {
    "heads/" + branch
  }

  /**
   * The service after the upload loop: read the previous list, collect the
   * deletions, write `list.json`, then tree, commit and ref update.
   */
  method Finish(ref: string, head: Id, entries: seq<TreeEntry>, updated: seq<Picture>, o: Oracles, remote: Remote)
    returns (ok: bool)
    modifies remote
    ensures Ran(old(remote.trace), remote.trace, remote.faults,
                TailCalls(ref, entries, updated, o, head, old(remote.files), old(remote.next)), ok)
    ensures remote.head == if ok then old(remote.next) + 2 else old(remote.head)
    ensures ok ==> var m := old(remote.next);
      m in remote.origin && m + 1 in remote.origin && m + 2 in remote.origin &&
      remote.origin[m] == CreateBlob(o.utf8Base64(o.stringify(updated))) &&
      remote.origin[m + 1] == CreateTree(TailTree(entries, updated, o, Lookup(old(remote.files), ListPath), m), head) &&
      remote.origin[m + 2] == CreateCommit(CommitMessage, m + 1, [head])
    ensures remote.files == old(remote.files)
  {
    ghost var start := remote.trace;
    ghost var m := remote.next;
    var treeItems, read := CollectTree(entries, updated, o, remote);
    ghost var tail := TailCalls(ref, entries, updated, o, head, old(remote.files), m);
    if !read {
      RanStop(start, remote.trace, remote.faults, [ReadTextFile(ListPath)], tail[1..]);
      return false;
    }
    ghost var mid := remote.trace;
    ok := Commit(ref, head, treeItems, updated, o, remote);
    RanThen(start, mid, remote.trace, remote.faults, [ReadTextFile(ListPath)], tail[1..], ok);
    assert [ReadTextFile(ListPath)] + tail[1..] == tail;
  }

  /** Reads the previous list and returns the tree so far: the upload entries and the deletions. */
  method CollectTree(entries: seq<TreeEntry>, updated: seq<Picture>, o: Oracles, remote: Remote)
    returns (treeItems: seq<TreeEntry>, ok: bool)
    modifies remote
    ensures Ran(old(remote.trace), remote.trace, remote.faults, [ReadTextFile(ListPath)], ok)
    ensures ok ==> treeItems == entries + DeleteEntries(PreviousUrls(Lookup(remote.files, ListPath), o), ImageUrlSet(updated))
    ensures remote.head == old(remote.head) && remote.files == old(remote.files) && remote.next == old(remote.next)
  {
    ghost var start := remote.trace;
    treeItems := entries;
    var currentImageUrls := CollectUrls(updated);
    var previousListJson := remote.ReadFile(ListPath);
    RanOne(start, ReadTextFile(ListPath), remote.faults);
    if previousListJson.Err? {
      return treeItems, false;
    }
    ok := true;
    if previousListJson.value.Some? && previousListJson.value.value != "" {
      var parsed := o.parse(previousListJson.value.value);
      if parsed.Some? {
        var previousImageUrls := CollectUrls(parsed.value);
        var deletes := CollectDeletes(previousImageUrls, currentImageUrls);
        treeItems := treeItems + deletes;
      }
    }
    if treeItems == entries {
      assert treeItems == entries + [];
    }
  }

  /** Writes `list.json`, then creates the tree and the commit and moves the branch. */
  method Commit(ref: string, head: Id, treeItems: seq<TreeEntry>, updated: seq<Picture>, o: Oracles, remote: Remote)
    returns (ok: bool)
    modifies remote
    ensures var m := old(remote.next);
      Ran(old(remote.trace), remote.trace, remote.faults,
          [ CreateBlob(o.utf8Base64(o.stringify(updated))),
            CreateTree(treeItems + [ListEntry(m)], head),
            CreateCommit(CommitMessage, m + 1, [head]),
            UpdateRef(ref, m + 2) ], ok)
    ensures remote.head == if ok then old(remote.next) + 2 else old(remote.head)
    ensures ok ==> var m := old(remote.next);
      remote.origin == old(remote.origin)[m := CreateBlob(o.utf8Base64(o.stringify(updated)))]
                                         [m + 1 := CreateTree(treeItems + [ListEntry(m)], head)]
                                         [m + 2 := CreateCommit(CommitMessage, m + 1, [head])]
    ensures remote.files == old(remote.files)
  {
    ghost var m := remote.next;
    ghost var t0 := remote.trace;
    ghost var c1 := CreateBlob(o.utf8Base64(o.stringify(updated)));
    ghost var c2 := CreateTree(treeItems + [ListEntry(m)], head);
    ghost var c3 := CreateCommit(CommitMessage, m + 1, [head]);
    ghost var c4 := UpdateRef(ref, m + 2);
    ok := false;
    var picturesJson := o.stringify(updated);
    var picturesBlob := remote.Create(CreateBlob(o.utf8Base64(picturesJson)));
    RanOne(t0, c1, remote.faults);
    if picturesBlob.None? {
      RanStop(t0, remote.trace, remote.faults, [c1], [c2, c3, c4]);
    } else {
      ghost var t1 := remote.trace;
      var tree := remote.Create(CreateTree(treeItems + [TreeEntry(ListPath, BlobMode, Some(picturesBlob.value))], head));
      RanOne(t1, c2, remote.faults);
      RanThen(t0, t1, remote.trace, remote.faults, [c1], [c2], tree.Some?);
      if tree.None? {
        RanStop(t0, remote.trace, remote.faults, [c1, c2], [c3, c4]);
      } else {
        ghost var t2 := remote.trace;
        var commit := remote.Create(CreateCommit(CommitMessage, tree.value, [head]));
        RanOne(t2, c3, remote.faults);
        RanThen(t0, t2, remote.trace, remote.faults, [c1, c2], [c3], commit.Some?);
        if commit.None? {
          RanStop(t0, remote.trace, remote.faults, [c1, c2, c3], [c4]);
        } else {
          ghost var t3 := remote.trace;
          ok := remote.MoveRef(ref, commit.value);
          RanOne(t3, c4, remote.faults);
          RanThen(t0, t3, remote.trace, remote.faults, [c1, c2, c3], [c4], ok);
        }
      }
    }
  }

  /**
   * `pushPictures({ pictures, imageItems })`. The token comes from the broker;
   * after it, the calls are exactly `PushCalls`, the run succeeds iff none of
   * them fails, and a failure stops right after the failing call with the
   * branch where it was.
   */
  method Push(pictures: seq<Picture>, items: SlotMap, o: Oracles,
              cache: TokenCache, store: ConfigStore, remote: Remote) returns (r: Result<(), PushError>)
    modifies cache, remote
    ensures var run := Broker(old(cache.token), store.rawPem, remote.faults, |old(remote.trace)|, old(remote.next));
      run.outcome.Err? ==>
        r == Err(AuthFailed(run.outcome.error)) && remote.trace == old(remote.trace) + run.calls &&
        remote.head == old(remote.head)
    ensures var run := Broker(old(cache.token), store.rawPem, remote.faults, |old(remote.trace)|, old(remote.next));
      var n := old(remote.next) + run.minted;
      run.outcome.Ok? ==>
        r != Err(AuthFailed(NotAuthenticated)) && r != Err(AuthFailed(UpstreamAuthError)) &&
        Ran(old(remote.trace) + run.calls, remote.trace, remote.faults,
            PushCalls(BranchRef(remote.branch), pictures, items, o, old(remote.head), old(remote.files), n), r.Ok?) &&
        remote.head == (if r.Ok? then n + |Uploads(items, o)| + 2 else old(remote.head)) &&
        (r.Ok? ==> CommitWiring(remote, old(remote.head), pictures, items, o, old(remote.files), n))
    ensures r.Ok? ==> Published(remote, old(remote.head), pictures, items, o, old(remote.files))
    ensures remote.files == old(remote.files)
  {
    var token := GetAuthToken(cache, store, remote);
    if token.Err? {
      return Err(AuthFailed(token.error));
    }
    var ok := PushWithToken(pictures, items, o, remote);
    r := if ok then Ok(()) else Err(RemoteFailed);
  }

  /**
   * The branch points at a commit this push created: its one parent is the
   * commit the ref pointed to before, its tree was created from `TreeItems`
   * on top of that commit, and the tree's `list.json` entry is the blob
   * created from the rewritten pictures.
   */
  ghost predicate CommitWiring(remote: Remote, before: Id, pictures: seq<Picture>, items: SlotMap, o: Oracles,
                               files: map<string, string>, n: Id)
    reads remote
  {
    var k := |Uploads(items, o)|;
    var tree := remote.head - 1;
    var list := remote.head - 2;
    tree >= 0 && list >= 0 &&
    remote.head in remote.origin && remote.origin[remote.head] == CreateCommit(CommitMessage, tree, [before]) &&
    tree in remote.origin && remote.origin[tree] == CreateTree(TreeItems(pictures, items, o, Lookup(files, ListPath), n), before) &&
    list in remote.origin && remote.origin[list] == CreateBlob(o.utf8Base64(o.stringify(Rewritten(pictures, items, o)))) &&
    list == n + k
  }

  /** The branch's head is a commit some push made of this wall, whatever the identifiers minted before it. */
  ghost predicate Published(remote: Remote, before: Id, pictures: seq<Picture>, items: SlotMap, o: Oracles,
                            files: map<string, string>)
    reads remote
  {
    exists n: Id :: CommitWiring(remote, before, pictures, items, o, files, n)
  }

  /** The calls a push makes after its token, on the remote as it now is. */
  function Plan(remote: Remote, pictures: seq<Picture>, items: SlotMap, o: Oracles): seq<Call>
    reads remote
  {
    PushCalls(BranchRef(remote.branch), pictures, items, o, remote.head, remote.files, remote.next)
  }

  /** The service once the token is in hand. */
  method PushWithToken(pictures: seq<Picture>, items: SlotMap, o: Oracles, remote: Remote) returns (ok: bool)
    modifies remote
    ensures Ran(old(remote.trace), remote.trace, remote.faults, old(Plan(remote, pictures, items, o)), ok)
    ensures remote.head == if ok then old(remote.next) + |Uploads(items, o)| + 2 else old(remote.head)
    ensures ok ==> CommitWiring(remote, old(remote.head), pictures, items, o, old(remote.files), old(remote.next))
    ensures remote.files == old(remote.files)
  {
    ghost var start := remote.trace;
    ghost var n := remote.next;
    ghost var ups := Uploads(items, o);
    var ref := BranchRef(remote.branch);
    ghost var tail := TailCalls(ref, UploadEntries(ups, n), Rewritten(pictures, items, o), o, remote.head, remote.files, n + |ups|);
    ghost var plan := Plan(remote, pictures, items, o);
    assert plan == [GetRef(ref)] + BlobCalls(ups) + tail;

    var latest := remote.FetchRef(ref);
    RanOne(start, GetRef(ref), remote.faults);
    if latest.None? {
      RanStop(start, remote.trace, remote.faults, [GetRef(ref)], BlobCalls(ups) + tail);
      assert [GetRef(ref)] + (BlobCalls(ups) + tail) == plan;
      return false;
    }
    var latestCommitSha := latest.value;
    ghost var t1 := remote.trace;
    var entries, updated;
    ok, entries, updated := UploadImages(pictures, items, o, remote);
    RanThen(start, t1, remote.trace, remote.faults, [GetRef(ref)], BlobCalls(ups), ok);
    if !ok {
      RanStop(start, remote.trace, remote.faults, [GetRef(ref)] + BlobCalls(ups), tail);
      return false;
    }
    ghost var t2 := remote.trace;
    ok := Finish(ref, latestCommitSha, entries, updated, o, remote);
    RanThen(start, t2, remote.trace, remote.faults, [GetRef(ref)] + BlobCalls(ups), tail, ok);
  }

  // ---------------------------------------------------------------------------
  // Properties of the change set
  // ---------------------------------------------------------------------------

  /** The content hashes of the file items of a slot map. */
  function FileHashes(items: SlotMap, o: Oracles): set<string>
  {
    set i | 0 <= i < |items| && items[i].1.FileItem? :: ItemHash(items[i].1, o)
  }

  /** Item `i` is the first file item of the slot map with hash `h`. */
  predicate FirstWithHash(items: SlotMap, i: int, h: string, o: Oracles)
  {
    0 <= i < |items| && items[i].1.FileItem? && ItemHash(items[i].1, o) == h &&
    forall k | 0 <= k < i :: !(items[k].1.FileItem? && ItemHash(items[k].1, o) == h)
  }

  /** The file hashes of a slot map are those of all but its last slot, plus the last slot's if it is a file. */
  lemma FileHashesSnoc(items: SlotMap, o: Oracles)
    requires items != []
    ensures var init := items[..|items| - 1]; var item := items[|items| - 1].1;
      FileHashes(items, o) == FileHashes(init, o) + (if item.FileItem? then {ItemHash(item, o)} else {})
  {
    var init := items[..|items| - 1];
    var item := items[|items| - 1].1;
    forall h | h in FileHashes(items, o) ensures h in FileHashes(init, o) || (item.FileItem? && h == ItemHash(item, o)) {
      var i :| 0 <= i < |items| && items[i].1.FileItem? && ItemHash(items[i].1, o) == h;
      if i < |init| {
        assert init[i] == items[i];
      }
    }
    forall h | h in FileHashes(init, o) ensures h in FileHashes(items, o) {
      var i :| 0 <= i < |init| && init[i].1.FileItem? && ItemHash(init[i].1, o) == h;
      assert items[i] == init[i];
    }
    if item.FileItem? {
      assert ItemHash(items[|items| - 1].1, o) in FileHashes(items, o);
    }
  }

  /** Identical content is uploaded once: the uploads carry pairwise distinct hashes, one for every hash among the file items. */
  lemma {:induction false} UploadsHashes(items: SlotMap, o: Oracles)
    ensures var ups := Uploads(items, o);
      forall i, j | 0 <= i < j < |ups| :: ups[i].hash != ups[j].hash
    ensures Hashes(Uploads(items, o)) == FileHashes(items, o)
    decreases |items|
  {
    if items != [] {
      var init := items[..|items| - 1];
      var item := items[|items| - 1].1;
      UploadsHashes(init, o);
      FileHashesSnoc(items, o);
      var done := Uploads(init, o);
      if item.FileItem? && ItemHash(item, o) !in Hashes(done) {
        var u := UploadOf(item, o);
        assert Hashes(done + [u]) == Hashes(done) + {u.hash};
        forall j | 0 <= j < |done| ensures done[j].hash != u.hash {
          assert done[j] in done;
        }
      }
    }
  }

  /** Each upload is made from the first file item with its hash. */
  lemma {:induction false} UploadsFirst(items: SlotMap, o: Oracles)
    ensures forall u | u in Uploads(items, o) ::
      exists i :: FirstWithHash(items, i, u.hash, o) && u == UploadOf(items[i].1, o)
    decreases |items|
  {
    if items != [] {
      var init := items[..|items| - 1];
      var item := items[|items| - 1].1;
      UploadsFirst(init, o);
      var done := Uploads(init, o);
      forall u | u in done ensures exists i :: FirstWithHash(items, i, u.hash, o) && u == UploadOf(items[i].1, o) {
        var i :| FirstWithHash(init, i, u.hash, o) && u == UploadOf(init[i].1, o);
        assert items[i] == init[i];
        assert forall k | 0 <= k < i :: items[k] == init[k];
        assert FirstWithHash(items, i, u.hash, o);
      }
      if item.FileItem? && ItemHash(item, o) !in Hashes(done) {
        UploadsHashes(init, o);
        var u := UploadOf(item, o);
        var i := |items| - 1;
        forall k | 0 <= k < i ensures !(items[k].1.FileItem? && ItemHash(items[k].1, o) == u.hash) {
          assert items[k] == init[k];
          if items[k].1.FileItem? {
            assert ItemHash(init[k].1, o) in FileHashes(init, o);
          }
        }
        assert FirstWithHash(items, i, u.hash, o);
      }
    }
  }

  /** The file slots of a slot map, in order. */
  function FileSlots(items: SlotMap): (r: SlotMap)
    ensures forall i | 0 <= i < |r| :: r[i].1.FileItem?
    decreases |items|
  {
    if items == [] then []
    else FileSlots(items[..|items| - 1]) + (if items[|items| - 1].1.FileItem? then [items[|items| - 1]] else [])
  }

  /** URL items take no part in the upload loop: neither a blob nor a rewrite comes from them. */
  lemma {:induction false} UrlItemsIgnored(pics: seq<Picture>, items: SlotMap, o: Oracles)
    ensures Uploads(items, o) == Uploads(FileSlots(items), o)
    ensures Rewritten(pics, items, o) == Rewritten(pics, FileSlots(items), o)
    decreases |items|
  {
    if items != [] {
      var init := items[..|items| - 1];
      UrlItemsIgnored(pics, init, o);
      var f := FileSlots(items);
      if items[|items| - 1].1.FileItem? {
        assert f[..|f| - 1] == FileSlots(init);
      } else {
        assert f == FileSlots(init);
      }
    }
  }

  /**
   * A slot rewrite touches only pictures with the slot's id: their legacy
   * `image` is cleared and position `index` of their current images becomes
   * `url`; every other position, field and picture stays as it was.
   */
  lemma RewriteSlotSpec(pics: seq<Picture>, group: string, index: int, url: string)
    ensures var r := RewriteSlot(pics, group, index, url);
      |r| == |pics| &&
      (forall i | 0 <= i < |pics| && pics[i].id != group :: r[i] == pics[i]) &&
      (forall i | 0 <= i < |pics| && pics[i].id == group ::
        r[i].id == pics[i].id && r[i].uploadedAt == pics[i].uploadedAt &&
        r[i].description == pics[i].description && r[i].image == None && r[i].images.Some? &&
        |r[i].images.value| == |CurrentImages(pics[i])| &&
        (0 <= index < |CurrentImages(pics[i])| ==> r[i].images.value[index] == url) &&
        forall j | 0 <= j < |CurrentImages(pics[i])| && j != index :: r[i].images.value[j] == CurrentImages(pics[i])[j])
  {
  }

  /** A picture with only a legacy image is promoted to a one-element list before the rewrite. */
  lemma LegacyImagePromoted(p: Picture, index: int, url: string)
    requires p.images.None? || p.images == Some([])
    requires Truthy(p.image)
    ensures RewritePicture(p, index, url).images == Some([if index == 0 then url else p.image.value])
    ensures RewritePicture(p, index, url).image == None
  {
    assert CurrentImages(p) == [p.image.value];
    assert ReplaceAt([p.image.value], index, url) == [if index == 0 then url else p.image.value];
  }

  /** A slot key names its picture and position; an index that is not a number names position 0. */
  lemma SlotTargetSpec(id: string, n: nat, key: string)
    requires PlainId(id)
    ensures SlotTarget(SlotKey(id, n)) == (id, n)
    ensures SlotNumber(key).None? ==> SlotTarget(key).1 == 0
  {
    SlotKeyParts(id, n);
  }

  /**
   * A delete entry is emitted exactly for each previously referenced URL that
   * is no longer referenced and lies under `/images/astro/`; it deletes
   * `public/images/astro/<filename>`.
   */
  lemma {:induction false} DeleteEntriesSpec(previous: seq<string>, current: seq<string>)
    ensures forall e | e in DeleteEntries(previous, current) ::
      exists url | url in previous :: url !in current && Js.StartsWith(url, AstroUrlPrefix) && e == DeleteEntry(url)
    ensures forall url | url in previous && url !in current && Js.StartsWith(url, AstroUrlPrefix) ::
      DeleteEntry(url) in DeleteEntries(previous, current)
    ensures |DeleteEntries(previous, current)| <= |previous|
    decreases |previous|
  {
    if previous != [] {
      var init := previous[..|previous| - 1];
      DeleteEntriesSpec(init, current);
      assert previous == init + [previous[|previous| - 1]];
      forall url | url in previous && url !in current && Js.StartsWith(url, AstroUrlPrefix)
        ensures DeleteEntry(url) in DeleteEntries(previous, current)
      {
        if url in init {
        }
      }
      forall e | e in DeleteEntries(previous, current)
        ensures exists url | url in previous :: url !in current && Js.StartsWith(url, AstroUrlPrefix) && e == DeleteEntry(url)
      {
        if e in DeleteEntries(init, current) {
          var url :| url in init && url !in current && Js.StartsWith(url, AstroUrlPrefix) && e == DeleteEntry(url);
          assert url in previous;
        }
      }
    }
  }

  /** The path a delete entry names: the URL's file name under `public/images/astro/`. */
  lemma DeleteEntryPath(url: string)
    requires Js.StartsWith(url, AstroUrlPrefix)
    ensures DeleteEntry(url) == TreeEntry(AstroDir + url[|AstroUrlPrefix|..], BlobMode, None)
  {
    Js.ReplacePrefix(url, AstroUrlPrefix);
  }

  /** An absent, empty or unparsable previous list deletes nothing. */
  lemma NoPreviousNoDeletes(previousJson: Option<string>, o: Oracles, current: seq<string>)
    requires !Truthy(previousJson) || o.parse(previousJson.value).None?
    ensures DeleteEntries(PreviousUrls(previousJson, o), current) == []
  {
  }

  /** Every upload is `public/images/astro/<hash><ext>`, the extension being that of the first file with the hash. */
  lemma UploadPaths(items: SlotMap, o: Oracles)
    ensures forall i | 0 <= i < |Uploads(items, o)| ::
      Uploads(items, o)[i].path == AstroDir + Uploads(items, o)[i].hash + o.fileExt(FirstFileName(items, Uploads(items, o)[i].hash, o)) &&
      Js.StartsWith(Uploads(items, o)[i].path, AstroDir)
  {
    var ups := Uploads(items, o);
    UploadsFirst(items, o);
    forall i | 0 <= i < |ups|
      ensures ups[i].path == AstroDir + ups[i].hash + o.fileExt(FirstFileName(items, ups[i].hash, o))
      ensures Js.StartsWith(ups[i].path, AstroDir)
    {
      var u := ups[i];
      assert u in ups;
      var k :| FirstWithHash(items, k, u.hash, o) && u == UploadOf(items[k].1, o);
      FirstFileNameIs(items, k, u.hash, o);
      assert u.path[..|AstroDir|] == AstroDir;
    }
  }

  /** Every delete entry is a null-SHA blob entry under `public/images/astro/`. */
  lemma DeletePaths(previous: seq<string>, current: seq<string>)
    ensures forall e | e in DeleteEntries(previous, current) ::
      Js.StartsWith(e.path, AstroDir) && e.sha.None? && e.mode == BlobMode
  {
    DeleteEntriesSpec(previous, current);
  }

  /** Paths under `public/images/astro/` never clash with `list.json`. */
  lemma NotListPath(path: string)
    requires Js.StartsWith(path, AstroDir)
    ensures path != ListPath
  {
    assert path[0] == AstroDir[0];
  }

  /**
   * The tree: first one `public/images/astro/<hash><ext>` blob per distinct
   * hash with the SHAs the blob calls received, then the deletions, all under
   * `public/images/astro/`, and last the one `list.json` entry.
   */
  lemma TreeShape(pictures: seq<Picture>, items: SlotMap, o: Oracles, previousJson: Option<string>, n: Id)
    ensures var t := TreeItems(pictures, items, o, previousJson, n);
      var ups := Uploads(items, o);
      |t| > |ups| && t[|t| - 1] == ListEntry(n + |ups|) &&
      (forall i | 0 <= i < |t| - 1 :: Js.StartsWith(t[i].path, AstroDir) && t[i].path != ListPath) &&
      (forall i | 0 <= i < |ups| :: t[i] == TreeEntry(ups[i].path, BlobMode, Some(n + i)) &&
                                     ups[i].path == AstroDir + ups[i].hash + o.fileExt(FirstFileName(items, ups[i].hash, o))) &&
      (forall i | |ups| <= i < |t| - 1 :: t[i].sha.None? && t[i].mode == BlobMode)
  {
    var ups := Uploads(items, o);
    var deletes := DeleteEntries(PreviousUrls(previousJson, o), ImageUrlSet(Rewritten(pictures, items, o)));
    assert TreeItems(pictures, items, o, previousJson, n) == UploadEntries(ups, n) + deletes + [ListEntry(n + |ups|)];
    UploadPaths(items, o);
    DeletePaths(PreviousUrls(previousJson, o), ImageUrlSet(Rewritten(pictures, items, o)));
    Layout(ups, deletes, n);
  }

  /** The layout of a tree made of upload entries, delete entries and the list entry. */
  lemma Layout(ups: seq<Upload>, deletes: seq<TreeEntry>, n: Id)
    requires forall i | 0 <= i < |ups| :: Js.StartsWith(ups[i].path, AstroDir)
    requires forall e | e in deletes :: Js.StartsWith(e.path, AstroDir) && e.sha.None? && e.mode == BlobMode
    ensures var t := UploadEntries(ups, n) + deletes + [ListEntry(n + |ups|)];
      |t| > |ups| && t[|t| - 1] == ListEntry(n + |ups|) &&
      (forall i | 0 <= i < |t| - 1 :: Js.StartsWith(t[i].path, AstroDir) && t[i].path != ListPath) &&
      (forall i | 0 <= i < |ups| :: t[i] == TreeEntry(ups[i].path, BlobMode, Some(n + i))) &&
      (forall i | |ups| <= i < |t| - 1 :: t[i].sha.None? && t[i].mode == BlobMode)
  {
    var t := UploadEntries(ups, n) + deletes + [ListEntry(n + |ups|)];
    forall i | 0 <= i < |t| - 1
      ensures Js.StartsWith(t[i].path, AstroDir) && t[i].path != ListPath
    {
      if i >= |ups| {
        assert t[i] == deletes[i - |ups|];
        assert deletes[i - |ups|] in deletes;
      }
      NotListPath(t[i].path);
    }
    forall i | |ups| <= i < |t| - 1
      ensures t[i].sha.None? && t[i].mode == BlobMode
    {
      assert t[i] == deletes[i - |ups|];
      assert deletes[i - |ups|] in deletes;
    }
  }

  /** The file name of the first file item with hash `h` (a hash no item has gives `""`). */
  function FirstFileName(items: SlotMap, h: string, o: Oracles): string
    decreases |items|
  {
    if items == [] then ""
    else if items[0].1.FileItem? && ItemHash(items[0].1, o) == h then items[0].1.file.name
    else FirstFileName(items[1..], h, o)
  }

  lemma {:induction false} FirstFileNameIs(items: SlotMap, k: int, h: string, o: Oracles)
    requires FirstWithHash(items, k, h, o)
    ensures FirstFileName(items, h, o) == items[k].1.file.name
    decreases |items|
  {
    if k > 0 {
      assert !(items[0].1.FileItem? && ItemHash(items[0].1, o) == h);
      assert FirstWithHash(items[1..], k - 1, h, o) by {
        forall j | 0 <= j < k - 1 ensures !(items[1..][j].1.FileItem? && ItemHash(items[1..][j].1, o) == h) {
          assert items[1..][j] == items[j + 1];
        }
      }
      FirstFileNameIs(items[1..], k - 1, h, o);
    }
  }

  // ---------------------------------------------------------------------------
  // One tree entry per path
  // ---------------------------------------------------------------------------

  /**
   * The staged slots point into the wall: the map is well keyed (every key a
   * slot key, so distinct keys name distinct slots) and some picture with the
   * key's id shows an image at the key's index.
   */
  predicate SlotsOnWall(pictures: seq<Picture>, items: SlotMap)
  {
    Slots.WellKeyed(items) && forall i | 0 <= i < |items| :: OnWall(pictures, items[i].0)
  }

  /** Some picture with the key's id shows an image at the key's index. */
  predicate OnWall(pictures: seq<Picture>, key: string)
  {
    exists j | 0 <= j < |pictures| :: pictures[j].id == Slots.SlotId(key) && Slots.SlotIndex(key) < |CurrentImages(pictures[j])|
  }

  /** No two entries of a tree name the same path. */
  predicate DistinctPaths(t: seq<TreeEntry>)
  {
    forall i, j | 0 <= i < j < |t| :: t[i].path != t[j].path
  }

  /** Every content hash of a file item has `width` characters, as every SHA-256 hex digest has 64. */
  predicate HashWidth(items: SlotMap, o: Oracles, width: nat)
  {
    forall i | 0 <= i < |items| && items[i].1.FileItem? :: |ItemHash(items[i].1, o)| == width
  }

  /** A slot key targets its own picture id and index. */
  lemma SlotKeyTarget(key: string)
    requires Slots.IsSlotKey(key)
    ensures SlotTarget(key) == (Slots.SlotId(key), Slots.SlotIndex(key))
  {
    SlotTargetSpec(Slots.SlotId(key), Slots.SlotIndex(key), key);
  }

  /** A rewrite keeps a picture's id and replaces position `index` of the images it shows. */
  lemma CurrentRewrite(p: Picture, index: int, url: string)
    ensures RewritePicture(p, index, url).id == p.id
    ensures CurrentImages(RewritePicture(p, index, url)) == ReplaceAt(CurrentImages(p), index, url)
  {
  }

  /** The upload loop keeps every picture's id and number of images. */
  lemma {:induction false} RewrittenShape(pics: seq<Picture>, items: SlotMap, o: Oracles)
    ensures |Rewritten(pics, items, o)| == |pics|
    ensures forall j | 0 <= j < |pics| ::
      Rewritten(pics, items, o)[j].id == pics[j].id && |CurrentImages(Rewritten(pics, items, o)[j])| == |CurrentImages(pics[j])|
    decreases |items|
  {
    if items != [] {
      var init := items[..|items| - 1];
      RewrittenShape(pics, init, o);
      var prev := Rewritten(pics, init, o);
      var key := items[|items| - 1].0;
      var item := items[|items| - 1].1;
      if item.FileItem? {
        forall j | 0 <= j < |pics|
          ensures Rewritten(pics, items, o)[j].id == pics[j].id
          ensures |CurrentImages(Rewritten(pics, items, o)[j])| == |CurrentImages(pics[j])|
        {
          CurrentRewrite(prev[j], SlotTarget(key).1, PublicUrl(item, o));
        }
      }
    }
  }

  /**
   * Once file slot `k` is rewritten, its URL stays at its position through the
   * rest of the loop: later keys of a well-keyed map name other positions.
   */
  lemma {:induction false} RewrittenAt(pics: seq<Picture>, items: SlotMap, o: Oracles, k: nat, j: nat, m: nat)
    requires Slots.WellKeyed(items) && k < m <= |items| && items[k].1.FileItem?
    requires j < |pics| && pics[j].id == Slots.SlotId(items[k].0)
    requires Slots.SlotIndex(items[k].0) < |CurrentImages(pics[j])|
    ensures var r := Rewritten(pics, items[..m], o);
      j < |r| && Slots.SlotIndex(items[k].0) < |CurrentImages(r[j])| &&
      CurrentImages(r[j])[Slots.SlotIndex(items[k].0)] == PublicUrl(items[k].1, o)
    decreases m
  {
    var s := items[..m];
    assert s[..m - 1] == items[..m - 1];
    var prev := Rewritten(pics, items[..m - 1], o);
    RewrittenShape(pics, items[..m - 1], o);
    var key := items[m - 1].0;
    var item := items[m - 1].1;
    var n := Slots.SlotIndex(items[k].0);
    assert Rewritten(pics, s, o) == RewriteStep(prev, key, item, o);
    SlotKeyTarget(key);
    if m - 1 == k {
      CurrentRewrite(prev[j], n, PublicUrl(item, o));
    } else {
      RewrittenAt(pics, items, o, k, j, m - 1);
      if item.FileItem? {
        Slots.WellKeyedDistinct(items);
        assert key != items[k].0;
        CurrentRewrite(prev[j], SlotTarget(key).1, PublicUrl(item, o));
      }
    }
  }

  /** Adding a picture's URLs keeps the URLs already collected, adds every image it shows, and keeps the set free of repeats. */
  lemma AddPictureUrlsContents(acc: seq<string>, p: Picture)
    ensures forall y | y in acc :: y in AddPictureUrls(acc, p)
    ensures forall y | y in CurrentImages(p) :: y in AddPictureUrls(acc, p)
    ensures Js.Distinct(acc) ==> Js.Distinct(AddPictureUrls(acc, p))
  {
    var a := if Truthy(p.image) then Js.SetAdd(acc, p.image.value) else acc;
    if p.images.Some? && |p.images.value| > 0 {
      Js.SetAddAllContents(a, p.images.value);
    }
  }

  /** Every image a picture shows is among the collected URLs. */
  lemma {:induction false} ShownListed(pics: seq<Picture>, j: nat, i: nat)
    requires j < |pics| && i < |CurrentImages(pics[j])|
    ensures CurrentImages(pics[j])[i] in ImageUrlSet(pics)
    decreases |pics|
  {
    var init := pics[..|pics| - 1];
    AddPictureUrlsContents(ImageUrlSet(init), pics[|pics| - 1]);
    if j < |pics| - 1 {
      assert init[j] == pics[j];
      ShownListed(init, j, i);
    }
  }

  /** The collected URLs are a set: no URL twice. */
  lemma {:induction false} ImageUrlSetDistinct(pics: seq<Picture>)
    ensures Js.Distinct(ImageUrlSet(pics))
    decreases |pics|
  {
    if pics != [] {
      var init := pics[..|pics| - 1];
      ImageUrlSetDistinct(init);
      AddPictureUrlsContents(ImageUrlSet(init), pics[|pics| - 1]);
    }
  }

  /** A file slot that points into the wall is published: its URL is in the new list. */
  lemma FileSlotPublished(pictures: seq<Picture>, items: SlotMap, o: Oracles, k: nat)
    requires SlotsOnWall(pictures, items) && k < |items| && items[k].1.FileItem?
    ensures PublicUrl(items[k].1, o) in ImageUrlSet(Rewritten(pictures, items, o))
  {
    assert OnWall(pictures, items[k].0);
    var j :| 0 <= j < |pictures| && pictures[j].id == Slots.SlotId(items[k].0) &&
      Slots.SlotIndex(items[k].0) < |CurrentImages(pictures[j])|;
    RewrittenAt(pictures, items, o, k, j, |items|);
    assert items[..|items|] == items;
    ShownListed(Rewritten(pictures, items, o), j, Slots.SlotIndex(items[k].0));
  }

  /** A path built from a directory, a hash of `width` characters and an extension splits back into the hash and the extension. */
  lemma HashedPathParts(dir: string, h: string, ext: string)
    ensures (dir + h + ext)[|dir|..|dir| + |h|] == h
    ensures (dir + h + ext)[|dir| + |h|..] == ext
  {
  }

  /** An upload's path is the directory, its hash of `width` characters and the extension of the first file with that hash. */
  lemma UploadPathOf(items: SlotMap, o: Oracles, width: nat, u: Upload)
    requires HashWidth(items, o, width) && u in Uploads(items, o)
    ensures |u.hash| == width
    ensures exists k :: FirstWithHash(items, k, u.hash, o) && u.path == AstroDir + u.hash + o.fileExt(items[k].1.file.name)
  {
    UploadsFirst(items, o);
    var k :| FirstWithHash(items, k, u.hash, o) && u == UploadOf(items[k].1, o);
    assert u.path == AstroDir + u.hash + o.fileExt(items[k].1.file.name);
  }

  /** Distinct hashes of one width give distinct upload paths. */
  lemma UploadPathsDistinct(items: SlotMap, o: Oracles, width: nat)
    requires HashWidth(items, o, width)
    ensures forall i, j | 0 <= i < j < |Uploads(items, o)| :: Uploads(items, o)[i].path != Uploads(items, o)[j].path
  {
    var ups := Uploads(items, o);
    UploadsHashes(items, o);
    forall i, j | 0 <= i < j < |ups| ensures ups[i].path != ups[j].path {
      assert ups[i] in ups && ups[j] in ups;
      UploadPathOf(items, o, width, ups[i]);
      UploadPathOf(items, o, width, ups[j]);
      var ki :| FirstWithHash(items, ki, ups[i].hash, o) && ups[i].path == AstroDir + ups[i].hash + o.fileExt(items[ki].1.file.name);
      var kj :| FirstWithHash(items, kj, ups[j].hash, o) && ups[j].path == AstroDir + ups[j].hash + o.fileExt(items[kj].1.file.name);
      HashedPathParts(AstroDir, ups[i].hash, o.fileExt(items[ki].1.file.name));
      HashedPathParts(AstroDir, ups[j].hash, o.fileExt(items[kj].1.file.name));
    }
  }

  /** Two different astro URLs are deleted under two different paths. */
  lemma DeletePathInjective(u: string, v: string)
    requires Js.StartsWith(u, AstroUrlPrefix) && Js.StartsWith(v, AstroUrlPrefix) && u != v
    ensures DeleteEntry(u).path != DeleteEntry(v).path
  {
    DeleteEntryPath(u);
    DeleteEntryPath(v);
    assert u == AstroUrlPrefix + u[|AstroUrlPrefix|..];
    assert v == AstroUrlPrefix + v[|AstroUrlPrefix|..];
    assert (AstroDir + u[|AstroUrlPrefix|..])[|AstroDir|..] == u[|AstroUrlPrefix|..];
    assert (AstroDir + v[|AstroUrlPrefix|..])[|AstroDir|..] == v[|AstroUrlPrefix|..];
  }

  /** Deleting from a set of URLs names every path once. */
  lemma {:induction false} DeletePathsDistinct(previous: seq<string>, current: seq<string>)
    requires Js.Distinct(previous)
    ensures DistinctPaths(DeleteEntries(previous, current))
    decreases |previous|
  {
    if previous != [] {
      var init := previous[..|previous| - 1];
      var url := previous[|previous| - 1];
      assert Js.Distinct(init) by {
        forall i, j | 0 <= i < j < |init| ensures init[i] != init[j] {
          assert init[i] == previous[i] && init[j] == previous[j];
        }
      }
      DeletePathsDistinct(init, current);
      var d0 := DeleteEntries(init, current);
      if url !in current && Js.StartsWith(url, AstroUrlPrefix) {
        DeleteEntriesSpec(init, current);
        forall i | 0 <= i < |d0| ensures d0[i].path != DeleteEntry(url).path {
          assert d0[i] in d0;
          var v :| v in init && v !in current && Js.StartsWith(v, AstroUrlPrefix) && d0[i] == DeleteEntry(v);
          var iv :| 0 <= iv < |init| && init[iv] == v;
          assert previous[iv] == v;
          DeletePathInjective(v, url);
        }
      }
    }
  }

  /** The URL a deletion names is not the public URL of `name`, so neither is its path. */
  lemma DeletedElsewhere(url: string, name: string)
    requires Js.StartsWith(url, AstroUrlPrefix) && url != AstroUrlPrefix + name
    ensures DeleteEntry(url).path != AstroDir + name
  {
    DeleteEntryPath(url);
    assert url == AstroUrlPrefix + url[|AstroUrlPrefix|..];
    assert (AstroDir + name)[|AstroDir|..] == name;
    assert (AstroDir + url[|AstroUrlPrefix|..])[|AstroDir|..] == url[|AstroUrlPrefix|..];
  }

  /** A deletion never names the path of a file slot that points into the wall. */
  lemma PublishedNotDeleted(pictures: seq<Picture>, items: SlotMap, o: Oracles, previousJson: Option<string>, k: nat, e: TreeEntry)
    requires SlotsOnWall(pictures, items) && k < |items| && items[k].1.FileItem?
    requires e in DeleteEntries(PreviousUrls(previousJson, o), ImageUrlSet(Rewritten(pictures, items, o)))
    ensures e.path != AstroDir + FileName(items[k].1, o)
  {
    var current := ImageUrlSet(Rewritten(pictures, items, o));
    FileSlotPublished(pictures, items, o, k);
    DeleteEntriesSpec(PreviousUrls(previousJson, o), current);
    var url :| url in PreviousUrls(previousJson, o) && url !in current && Js.StartsWith(url, AstroUrlPrefix) && e == DeleteEntry(url);
    DeletedElsewhere(url, FileName(items[k].1, o));
  }

  /** No upload shares its path with a deletion. */
  lemma UploadsNotDeleted(pictures: seq<Picture>, items: SlotMap, o: Oracles, previousJson: Option<string>,
                          ups: seq<Upload>, deletes: seq<TreeEntry>)
    requires SlotsOnWall(pictures, items) && ups == Uploads(items, o)
    requires deletes == DeleteEntries(PreviousUrls(previousJson, o), ImageUrlSet(Rewritten(pictures, items, o)))
    ensures forall i, j | 0 <= i < |ups| && 0 <= j < |deletes| :: ups[i].path != deletes[j].path
  {
    UploadsFirst(items, o);
    forall i, j | 0 <= i < |ups| && 0 <= j < |deletes| ensures ups[i].path != deletes[j].path {
      var u := ups[i];
      assert u in ups;
      var k :| FirstWithHash(items, k, u.hash, o) && u == UploadOf(items[k].1, o);
      assert deletes[j] in deletes;
      PublishedNotDeleted(pictures, items, o, previousJson, k, deletes[j]);
    }
  }

  /** A tree of uploads, deletions and `list.json` names each path once when its parts do, and do so among each other. */
  lemma LayoutDistinct(ups: seq<Upload>, deletes: seq<TreeEntry>, n: Id)
    requires forall i, j | 0 <= i < j < |ups| :: ups[i].path != ups[j].path
    requires DistinctPaths(deletes)
    requires forall i, j | 0 <= i < |ups| && 0 <= j < |deletes| :: ups[i].path != deletes[j].path
    requires forall i | 0 <= i < |ups| :: Js.StartsWith(ups[i].path, AstroDir)
    requires forall e | e in deletes :: Js.StartsWith(e.path, AstroDir)
    ensures DistinctPaths(UploadEntries(ups, n) + deletes + [ListEntry(n + |ups|)])
  {
    var t := UploadEntries(ups, n) + deletes + [ListEntry(n + |ups|)];
    forall i, j | 0 <= i < j < |t| ensures t[i].path != t[j].path {
      if j == |t| - 1 {
        if i < |ups| {
          NotListPath(ups[i].path);
        } else {
          assert t[i] == deletes[i - |ups|] && deletes[i - |ups|] in deletes;
          NotListPath(t[i].path);
        }
      } else if j < |ups| {
        assert t[i].path == ups[i].path && t[j].path == ups[j].path;
      } else if i >= |ups| {
        assert t[i] == deletes[i - |ups|] && t[j] == deletes[j - |ups|];
      } else {
        assert t[i].path == ups[i].path && t[j] == deletes[j - |ups|];
      }
    }
  }

  /**
   * At most one tree entry per path: the uploads, the deletions and
   * `list.json` name pairwise different files, as long as the staged slots
   * point into the wall and the content hashes have one width.
   */
  lemma TreePathsDistinct(pictures: seq<Picture>, items: SlotMap, o: Oracles, previousJson: Option<string>, n: Id, width: nat)
    requires SlotsOnWall(pictures, items) && HashWidth(items, o, width)
    ensures DistinctPaths(TreeItems(pictures, items, o, previousJson, n))
  {
    var ups := Uploads(items, o);
    var current := ImageUrlSet(Rewritten(pictures, items, o));
    var previous := PreviousUrls(previousJson, o);
    var deletes := DeleteEntries(previous, current);
    assert TreeItems(pictures, items, o, previousJson, n) == UploadEntries(ups, n) + deletes + [ListEntry(n + |ups|)];
    UploadPathsDistinct(items, o, width);
    PreviousUrlsDistinct(previousJson, o);
    DeletePathsDistinct(previous, current);
    UploadsNotDeleted(pictures, items, o, previousJson, ups, deletes);
    UploadPaths(items, o);
    DeletePaths(previous, current);
    LayoutDistinct(ups, deletes, n);
  }

  /** The previous list's URLs are a set. */
  lemma PreviousUrlsDistinct(previousJson: Option<string>, o: Oracles)
    ensures Js.Distinct(PreviousUrls(previousJson, o))
  {
    if Truthy(previousJson) && o.parse(previousJson.value).Some? {
      ImageUrlSetDistinct(o.parse(previousJson.value).value);
    }
  }

  /** Under another extension than the first file with its hash, a file's path is no upload's path. */
  lemma {:induction false} NoUploadAt(items: SlotMap, o: Oracles, width: nat, f: nat, k: nat)
    requires HashWidth(items, o, width)
    requires k < |items| && items[k].1.FileItem?
    requires FirstWithHash(items, f, ItemHash(items[k].1, o), o)
    requires o.fileExt(items[f].1.file.name) != o.fileExt(items[k].1.file.name)
    ensures forall u | u in Uploads(items, o) :: u.path != AstroDir + FileName(items[k].1, o)
  {
    forall u | u in Uploads(items, o) ensures u.path != AstroDir + FileName(items[k].1, o) {
      NotThisUpload(items, o, width, f, k, u);
    }
  }

  /** One upload of `NoUploadAt`: its path names the first file's extension, not file `k`'s. */
  lemma {:induction false} NotThisUpload(items: SlotMap, o: Oracles, width: nat, f: nat, k: nat, u: Upload)
    requires HashWidth(items, o, width)
    requires k < |items| && items[k].1.FileItem?
    requires FirstWithHash(items, f, ItemHash(items[k].1, o), o)
    requires o.fileExt(items[f].1.file.name) != o.fileExt(items[k].1.file.name)
    requires u in Uploads(items, o)
    ensures u.path != AstroDir + FileName(items[k].1, o)
  {
    var h := ItemHash(items[k].1, o);
    var ext := o.fileExt(items[k].1.file.name);
    HashedPathParts(AstroDir, h, ext);
    UploadPathOf(items, o, width, u);
    var ku :| FirstWithHash(items, ku, u.hash, o) && u.path == AstroDir + u.hash + o.fileExt(items[ku].1.file.name);
    HashedPathParts(AstroDir, u.hash, o.fileExt(items[ku].1.file.name));
  }

  /**
   * A staged file whose content repeats an earlier file's under another
   * extension is rewritten to `/images/astro/<hash><its own extension>`: the
   * new list references that URL, yet no entry of the tree writes its path,
   * because only the first file with the hash is uploaded.
   */
  lemma {:induction false} UnbackedDuplicateUrl(pictures: seq<Picture>, items: SlotMap, o: Oracles, previousJson: Option<string>, n: Id,
                             width: nat, f: nat, k: nat)
    requires SlotsOnWall(pictures, items) && HashWidth(items, o, width)
    requires k < |items| && items[k].1.FileItem?
    requires FirstWithHash(items, f, ItemHash(items[k].1, o), o)
    requires o.fileExt(items[f].1.file.name) != o.fileExt(items[k].1.file.name)
    ensures PublicUrl(items[k].1, o) in ImageUrlSet(Rewritten(pictures, items, o))
    ensures forall e | e in TreeItems(pictures, items, o, previousJson, n) :: e.path != AstroDir + FileName(items[k].1, o)
  {
    FileSlotPublished(pictures, items, o, k);
    NoUploadAt(items, o, width, f, k);
    var ups := Uploads(items, o);
    var deletes := DeleteEntries(PreviousUrls(previousJson, o), ImageUrlSet(Rewritten(pictures, items, o)));
    var target := AstroDir + FileName(items[k].1, o);
    forall e | e in deletes ensures e.path != target {
      PublishedNotDeleted(pictures, items, o, previousJson, k, e);
    }
    assert target[..|AstroDir|] == AstroDir;
    TreeItemsParts(pictures, items, o, previousJson, n);
    NothingWrittenAt(ups, deletes, n, target);
  }

  /** The tree is the upload entries, then the deletions, then `list.json`. */
  lemma TreeItemsParts(pictures: seq<Picture>, items: SlotMap, o: Oracles, previousJson: Option<string>, n: Id)
    ensures TreeItems(pictures, items, o, previousJson, n) ==
      UploadEntries(Uploads(items, o), n) +
      DeleteEntries(PreviousUrls(previousJson, o), ImageUrlSet(Rewritten(pictures, items, o))) +
      [ListEntry(n + |Uploads(items, o)|)]
  {
  }

  /** A path that no upload and no deletion names, under `public/images/astro/`, is named by no entry of the tree. */
  lemma NothingWrittenAt(ups: seq<Upload>, deletes: seq<TreeEntry>, n: Id, target: string)
    requires forall u | u in ups :: u.path != target
    requires forall e | e in deletes :: e.path != target
    requires Js.StartsWith(target, AstroDir)
    ensures forall e | e in UploadEntries(ups, n) + deletes + [ListEntry(n + |ups|)] :: e.path != target
  {
    var t := UploadEntries(ups, n) + deletes + [ListEntry(n + |ups|)];
    NotListPath(target);
    forall e | e in t ensures e.path != target {
      var i :| 0 <= i < |t| && t[i] == e;
      if i < |ups| {
        assert ups[i] in ups && e.path == ups[i].path;
      } else if i < |t| - 1 {
        assert e == deletes[i - |ups|] && deletes[i - |ups|] in deletes;
      }
    }
  }
}
