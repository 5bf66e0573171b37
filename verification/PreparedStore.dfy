/** Loading a prepared content store, and looking views up in it. */
module PreparedStore {
  import opened Wrappers
  import opened Numbers
  import opened StoreErrors
  import opened EntityTag
  import opened Timestamp

  const MAX_MANIFEST_LIFETIME_SECONDS: i64 := 180 * 24 * 60 * 60

  // ------------------------------------------------------------------- artifacts

  datatype Manifest = Manifest(viewsIndex: string, issuedAt: Bytes, expiresAt: Bytes, sequence: i64)

  datatype ViewChunk = ViewChunk(chunkType: string, content: string)

  datatype View = View(url: string, etag: string, chunks: seq<ViewChunk>, sig: string)

  /** What decoding a file's JSON gives. */
  datatype Json<T> = Malformed | FieldMissing | Typed(value: T)

  datatype File<T> = File(bytes: Bytes, json: Json<T>)

  /** What reading a file gives. */
  datatype Read<T> = Absent | Unreadable | Contents(file: File<T>)

  /**
   The directory as one load reads it: its two fixed files, the names found under `views/`
   in listing order (none when the listing fails), and what reading each name gives.
   */
  datatype Disk = Disk(manifest: Read<Manifest>, viewIndex: Read<()>,
                       listing: Option<seq<string>>, views: map<string, Read<View>>)

  datatype StoredArtifact = StoredArtifact(bytes: Bytes, etag: string)

  datatype StoredManifest = StoredManifest(bytes: Bytes, etag: string, expiresAtUnix: i64,
                                           viewsIndex: string, manifest: Manifest)

  datatype StoredView = StoredView(bytes: Bytes, view: View)

  datatype PreparedContentStore = PreparedContentStore(
      manifest: StoredManifest, viewIndex: StoredArtifact, viewsByRequestTarget: map<string, StoredView>)
  {
    function ViewForRequestTarget(target: string): Option<StoredView> {
      if target in viewsByRequestTarget then Some(viewsByRequestTarget[target]) else None
    }

    function ManifestSequence(): i64 {
      manifest.manifest.sequence
    }

    function ViewCount(): nat {
      |viewsByRequestTarget|
    }
  }

  const MANIFEST_PREFIX: Bytes := [109, 97, 110, 105, 102, 101, 115, 116]
  const VIEW_INDEX_PREFIX: Bytes := [118, 105, 101, 119, 45, 105, 110, 100, 101, 120]

  function ManifestEtag(bytes: Bytes): string {
    EtagOf(MANIFEST_PREFIX, bytes, None)
  }

  function ViewIndexEtag(bytes: Bytes): string {
    EtagOf(VIEW_INDEX_PREFIX, bytes, None)
  }

  // -------------------------------------------------------------------- reading

  function ReadArtifact<T>(read: Read<T>): Result<File<T>, StoreLoadError> {
    match read
    case Absent => Failure(BackendReadFailed(NotFound))
    case Unreadable => Failure(BackendReadFailed(BackendUnavailable))
    case Contents(file) => Success(file)
  }

  function Decode<T>(json: Json<T>, missing: StoreLoadError): Result<T, StoreLoadError> {
    match json
    case Malformed => Failure(JsonMalformed)
    case FieldMissing => Failure(missing)
    case Typed(value) => Success(value)
  }

  function ValidateManifestLifecycle(manifest: Manifest, now: i64): Result<(), StoreLoadError> {
    if manifest.sequence < 0 then Failure(ManifestSequenceInvalid)
    else
      var issuedAt :- ParseRfc3339Utc(manifest.issuedAt);
      var expiresAt :- ParseRfc3339Utc(manifest.expiresAt);
      if expiresAt <= issuedAt then Failure(ManifestTimeInvalid)
      else if expiresAt - issuedAt > MAX_MANIFEST_LIFETIME_SECONDS then Failure(ManifestLifetimeTooLong)
      else if expiresAt <= now then Failure(ManifestExpired)
      else Success(())
  }

  method CheckManifestLifecycle(manifest: Manifest, now: i64) returns (r: Result<(), StoreLoadError>)
    ensures r == ValidateManifestLifecycle(manifest, now)
  {
    if manifest.sequence < 0 {
      return Failure(ManifestSequenceInvalid);
    }
    var issuedAt :- ReadRfc3339Utc(manifest.issuedAt);
    var expiresAt :- ReadRfc3339Utc(manifest.expiresAt);
    if expiresAt <= issuedAt {
      return Failure(ManifestTimeInvalid);
    }
    if expiresAt - issuedAt > MAX_MANIFEST_LIFETIME_SECONDS {
      return Failure(ManifestLifetimeTooLong);
    }
    if expiresAt <= now {
      return Failure(ManifestExpired);
    }
    return Success(());
  }

  /** The path and query a view URL is served at. */
  function RequestTarget(url: string): Result<string, StoreLoadError> {
    if url == "" then Failure(InvalidViewUrl)
    else if url[0] == '/' then Success(url)
    else if "http://" <= url then Success(AfterAuthority(url[7..]))
    else if "https://" <= url then Success(AfterAuthority(url[8..]))
    else Failure(InvalidViewUrl)
  }

  /** The text from its first slash on; a lone slash when it has none. */
  function AfterAuthority(text: string): (target: string)
    ensures target != "" && target[0] == '/'
  {
    if text == "" then "/" else if text[0] == '/' then text else AfterAuthority(text[1..])
  }

  // --------------------------------------------------------------- view file names

  predicate HasJsonExtension(name: string) {
    |name| > 5 && name[|name| - 5..] == ".json"
  }

  function JsonNames(listing: seq<string>): seq<string> {
    if listing == [] then []
    else
      var last := listing[|listing| - 1];
      JsonNames(listing[..|listing| - 1]) + (if HasJsonExtension(last) then [last] else [])
  }

  method JsonFiles(listing: Option<seq<string>>) returns (r: Result<seq<string>, StoreLoadError>)
    ensures r == if listing.Some? then Success(JsonNames(listing.value)) else Failure(ReadFailed)
  {
    if listing.None? {
      return Failure(ReadFailed);
    }
    var names := listing.value;
    var paths: seq<string> := [];
    for i := 0 to |names|
      invariant paths == JsonNames(names[..i])
    {
      assert names[..i + 1][..i] == names[..i];
      if HasJsonExtension(names[i]) {
        paths := paths + [names[i]];
      }
    }
    assert names[..|names|] == names;
    return Success(paths);
  }

  /** Code-point order, which is the byte order of the UTF-8 names. */
  predicate NameLeq(a: string, b: string) {
    a == "" || (b != "" && (a[0] < b[0] || (a[0] == b[0] && NameLeq(a[1..], b[1..]))))
  }

  function InsertName(name: string, sorted: seq<string>): seq<string> {
    if sorted == [] || NameLeq(name, sorted[0]) then [name] + sorted
    else [sorted[0]] + InsertName(name, sorted[1..])
  }

  function SortNames(names: seq<string>): seq<string> {
    if names == [] then [] else InsertName(names[0], SortNames(names[1..]))
  }

  // --------------------------------------------------------------------- loading

  /** What loading one view file gives: the target it is served at and what is stored for it. */
  type Loaded = Result<(string, StoredView), StoreLoadError>

  function LoadView(read: Read<View>): Loaded {
    var file :- ReadArtifact(read);
    var view :- Decode(file.json, ViewFieldMissing);
    var target :- RequestTarget(view.url);
    Success((target, StoredView(file.bytes, view)))
  }

  function ReadOf(views: map<string, Read<View>>, name: string): Read<View> {
    if name in views then views[name] else Absent
  }

  function LoadEach(views: map<string, Read<View>>, names: seq<string>): (loaded: seq<Loaded>)
    ensures |loaded| == |names|
    ensures forall i :: 0 <= i < |names| ==> loaded[i] == LoadView(ReadOf(views, names[i]))
  {
    if names == [] then []
    else [LoadView(ReadOf(views, names[0]))] + LoadEach(views, names[1..])
  }

  /** The index of the views, or the first failure: a file's own, or a target seen before. */
  function Index(loaded: seq<Loaded>): Result<map<string, StoredView>, StoreLoadError> {
    if loaded == [] then Success(map[])
    else
      var before :- Index(loaded[..|loaded| - 1]);
      var (target, view) :- loaded[|loaded| - 1];
      if target in before then Failure(DuplicateViewUrl) else Success(before[target := view])
  }

  /** The view files of a listing, in the order they are loaded. */
  function ViewNames(listing: seq<string>): seq<string> {
    SortNames(JsonNames(listing))
  }

  function LoadManifest(read: Read<Manifest>, now: i64): Result<StoredManifest, StoreLoadError> {
    var file :- ReadArtifact(read);
    var manifest :- Decode(file.json, ManifestFieldMissing);
    var _ :- ValidateManifestLifecycle(manifest, now);
    var expiresAt := ParseRfc3339Utc(manifest.expiresAt).value;
    Success(StoredManifest(file.bytes, ManifestEtag(file.bytes), expiresAt, manifest.viewsIndex, manifest))
  }

  /** The view index is kept as it is: any JSON will do. */
  function LoadViewIndex(read: Read<()>): Result<StoredArtifact, StoreLoadError> {
    var file :- ReadArtifact(read);
    var _ :- Decode(file.json, JsonMalformed);
    Success(StoredArtifact(file.bytes, ViewIndexEtag(file.bytes)))
  }

  /** What loading the directory gives, the clock reading `now`. */
  function Load(disk: Disk, now: i64): (r: Result<PreparedContentStore, StoreLoadError>) {
    var manifest :- LoadManifest(disk.manifest, now);
    var viewIndex :- LoadViewIndex(disk.viewIndex);
    if disk.listing.None? then Failure(ReadFailed)
    else
      var views :- Index(LoadEach(disk.views, ViewNames(disk.listing.value)));
      Success(PreparedContentStore(manifest, viewIndex, views))
  }

  method IndexViews(views: map<string, Read<View>>, viewPaths: seq<string>)
    returns (r: Result<map<string, StoredView>, StoreLoadError>)
    ensures r == Index(LoadEach(views, viewPaths))
  {
    var viewsByRequestTarget: map<string, StoredView> := map[];
    var seenUrls: set<string> := {};
    ghost var loaded := LoadEach(views, viewPaths);
    for i := 0 to |viewPaths|
      invariant Index(loaded[..i]) == Success(viewsByRequestTarget)
      invariant seenUrls == viewsByRequestTarget.Keys
    {
      IndexNext(loaded, i, viewsByRequestTarget);
      var one := LoadView(ReadOf(views, viewPaths[i]));
      if one.Failure? {
        return Failure(one.error);
      }
      var (requestTarget, stored) := one.value;
      if requestTarget in seenUrls {
        return Failure(DuplicateViewUrl);
      }
      seenUrls := seenUrls + {requestTarget};
      viewsByRequestTarget := viewsByRequestTarget[requestTarget := stored];
    }
    assert loaded[..|loaded|] == loaded;
    return Success(viewsByRequestTarget);
  }

  lemma IndexNext(loaded: seq<Loaded>, i: nat, index: map<string, StoredView>)
    requires i < |loaded| && Index(loaded[..i]) == Success(index)
    ensures match loaded[i]
            case Failure(error) => Index(loaded) == Failure(error)
            case Success((target, view)) =>
              if target in index then Index(loaded) == Failure(DuplicateViewUrl)
              else Index(loaded[..i + 1]) == Success(index[target := view])
  {
    assert loaded[..i + 1][..i] == loaded[..i];
    StopsAtFailure(loaded, i + 1);
  }

  method LoadFromDir(disk: Disk, now: i64) returns (r: Result<PreparedContentStore, StoreLoadError>)
    ensures r == Load(disk, now)
  {
    var manifestFile :- ReadArtifact(disk.manifest);
    var manifest :- Decode(manifestFile.json, ManifestFieldMissing);
    var _ :- CheckManifestLifecycle(manifest, now);

    var indexFile :- ReadArtifact(disk.viewIndex);
    var _ :- Decode(indexFile.json, JsonMalformed);
    var viewIndexEtag := StrongEtag(VIEW_INDEX_PREFIX, indexFile.bytes, None);

    var viewPaths :- JsonFiles(disk.listing);
    viewPaths := SortNames(viewPaths);

    var viewsByRequestTarget :- IndexViews(disk.views, viewPaths);

    var manifestEtag := StrongEtag(MANIFEST_PREFIX, manifestFile.bytes, None);
    var expiresAt := ReadRfc3339Utc(manifest.expiresAt);
    return Success(PreparedContentStore(
      StoredManifest(manifestFile.bytes, manifestEtag, expiresAt.value, manifest.viewsIndex, manifest),
      StoredArtifact(indexFile.bytes, viewIndexEtag),
      viewsByRequestTarget));
  }

  /** A failure part way through is the failure of the whole load. */
  lemma {:induction false} StopsAtFailure(loaded: seq<Loaded>, n: nat)
    requires n <= |loaded|
    ensures Index(loaded[..n]).Failure? ==> Index(loaded) == Index(loaded[..n])
  {
    if n == |loaded| {
      assert loaded[..n] == loaded;
    } else {
      assert loaded[..|loaded| - 1][..n] == loaded[..n];
      StopsAtFailure(loaded[..|loaded| - 1], n);
    }
  }
}
