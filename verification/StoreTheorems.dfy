/** What the prepared store promises: a faithful index, a canonical load, targets free of origin. */
module StoreTheorems {
  import opened Wrappers
  import opened Numbers
  import opened StoreErrors
  import opened Timestamp
  import opened PreparedStore
  import Calendar

  // ---------------------------------------------------------------- request targets

  lemma {:induction false} AfterAuthorityAt(authority: string, tail: string)
    requires '/' !in authority && tail != "" && tail[0] == '/'
    ensures AfterAuthority(authority + tail) == tail
    ensures AfterAuthority(authority) == "/"
  {
    if authority == "" {
      assert authority + tail == tail;
    } else {
      assert (authority + tail)[1..] == authority[1..] + tail;
      AfterAuthorityAt(authority[1..], tail);
    }
  }

  /** Scheme and authority never matter: only the text from the first slash after them does. */
  lemma TargetIgnoresOrigin(authority: string, tail: string)
    requires '/' !in authority && tail != "" && tail[0] == '/'
    ensures RequestTarget("http://" + authority + tail) == Success(tail)
    ensures RequestTarget("https://" + authority + tail) == Success(tail)
    ensures RequestTarget(tail) == Success(tail)
    ensures RequestTarget("http://" + authority) == RequestTarget("https://" + authority) == Success("/")
  {
    AfterAuthorityAt(authority, tail);
    var secure := "https://" + authority + tail;
    assert secure[..8] == "https://" && secure[4] == 's' && !("http://" <= secure) by {
      assert "http://"[4] == ':';
    }
    assert ("http://" + authority + tail)[7..] == authority + tail;
    assert ("https://" + authority + tail)[8..] == authority + tail;
    assert ("http://" + authority)[7..] == authority;
    assert ("https://" + authority)[8..] == authority;
  }

  /** A URL is servable exactly when it starts with a slash or one of the two schemes. */
  lemma TargetExists(url: string)
    ensures RequestTarget(url).Success? <==> "/" <= url || "http://" <= url || "https://" <= url
    ensures RequestTarget(url).Success? ==>
              RequestTarget(url).value != "" && RequestTarget(RequestTarget(url).value) == RequestTarget(url)
  {
    assert "/" <= url <==> url != "" && url[0] == '/';
  }

  // -------------------------------------------------------------------- the index

  ghost predicate AllLoad(loaded: seq<Loaded>) {
    forall i :: 0 <= i < |loaded| ==> loaded[i].Success?
  }

  ghost predicate Repeats(loaded: seq<Loaded>, i: nat, j: nat) {
    && i < j < |loaded| && loaded[i].Success? && loaded[j].Success?
    && loaded[i].value.0 == loaded[j].value.0
  }

  ghost predicate DistinctTargets(loaded: seq<Loaded>) {
    forall i: nat, j: nat :: !Repeats(loaded, i, j)
  }

  /** The map holds exactly what a scan of the files finds, one entry a file. */
  ghost predicate Indexes(index: map<string, StoredView>, loaded: seq<Loaded>) {
    && |index| == |loaded|
    && (forall i :: 0 <= i < |loaded| ==> Holds(index, loaded[i]))
    && (forall target :: target in index ==> Comes(target, loaded))
  }

  ghost predicate Holds(index: map<string, StoredView>, one: Loaded) {
    one.Success? && one.value.0 in index && index[one.value.0] == one.value.1
  }

  ghost predicate Comes(target: string, loaded: seq<Loaded>) {
    exists i :: 0 <= i < |loaded| && loaded[i].Success? && loaded[i].value.0 == target
  }

  lemma IndexGrows(index: map<string, StoredView>, loaded: seq<Loaded>, last: Loaded)
    requires Indexes(index, loaded) && last.Success? && last.value.0 !in index
    ensures Indexes(index[last.value.0 := last.value.1], loaded + [last])
  {
    var grown := index[last.value.0 := last.value.1];
    assert grown.Keys == index.Keys + {last.value.0};
    forall target | target in grown ensures Comes(target, loaded + [last]) {
      if target in index {
        var i :| 0 <= i < |loaded| && loaded[i].Success? && loaded[i].value.0 == target;
        assert (loaded + [last])[i] == loaded[i];
      } else {
        assert (loaded + [last])[|loaded|] == last;
      }
    }
    forall i | 0 <= i < |loaded + [last]| ensures Holds(grown, (loaded + [last])[i]) {
      if i < |loaded| {
        assert Holds(index, loaded[i]);
      }
    }
  }

  lemma OneMore(loaded: seq<Loaded>, last: Loaded)
    ensures AllLoad(loaded + [last]) <==> AllLoad(loaded) && last.Success?
    ensures last.Success? && DistinctTargets(loaded) ==>
              (DistinctTargets(loaded + [last]) <==> !Comes(last.value.0, loaded))
    ensures DistinctTargets(loaded + [last]) ==> DistinctTargets(loaded)
  {
    var longer := loaded + [last];
    assert longer[|loaded|] == last;
    assert forall i :: 0 <= i < |loaded| ==> longer[i] == loaded[i];
    forall i: nat, j: nat | Repeats(loaded, i, j) ensures Repeats(longer, i, j) {}
    if last.Success? && Comes(last.value.0, loaded) {
      var i :| 0 <= i < |loaded| && loaded[i].Success? && loaded[i].value.0 == last.value.0;
      assert Repeats(longer, i, |loaded|);
    }
    if last.Success? && !Comes(last.value.0, loaded) && DistinctTargets(loaded) {
      forall i: nat, j: nat ensures !Repeats(longer, i, j) {
        assert !Repeats(loaded, i, j);
      }
    }
  }

  /** Indexing succeeds exactly when each file loads and no two share a target. */
  lemma {:induction false} IndexExactly(loaded: seq<Loaded>)
    ensures Index(loaded).Success? <==> AllLoad(loaded) && DistinctTargets(loaded)
    ensures Index(loaded).Success? ==> Indexes(Index(loaded).value, loaded)
  {
    if loaded != [] {
      var front, last := loaded[..|loaded| - 1], loaded[|loaded| - 1];
      assert loaded == front + [last];
      IndexExactly(front);
      OneMore(front, last);
      if Index(front).Success? && last.Success? {
        var before := Index(front).value;
        if last.value.0 in before {
          assert Comes(last.value.0, front);
        } else {
          KeysAreTargets(before, front, last.value.0);
          IndexGrows(before, front, last);
        }
      }
    }
  }

  lemma KeysAreTargets(index: map<string, StoredView>, loaded: seq<Loaded>, target: string)
    requires Indexes(index, loaded)
    ensures target in index <==> Comes(target, loaded)
  {
    if Comes(target, loaded) {
      var i :| 0 <= i < |loaded| && loaded[i].Success? && loaded[i].value.0 == target;
      assert Holds(index, loaded[i]);
    }
  }

  /** The first position that fails, by itself or by repeating an earlier target. */
  ghost predicate FirstFailure(loaded: seq<Loaded>, i: nat, error: StoreLoadError) {
    && i < |loaded|
    && AllLoad(loaded[..i]) && DistinctTargets(loaded[..i])
    && (if loaded[i].Success?
        then error == DuplicateViewUrl && Comes(loaded[i].value.0, loaded[..i])
        else error == loaded[i].error)
  }

  /** When indexing fails it reports the first failure in name order. */
  lemma {:induction false} ReportsFirstFailure(loaded: seq<Loaded>) returns (i: nat)
    requires Index(loaded).Failure?
    ensures FirstFailure(loaded, i, Index(loaded).error)
  {
    var front := loaded[..|loaded| - 1];
    if Index(front).Failure? {
      i := ReportsFirstFailure(front);
      assert front[..i] == loaded[..i] && front[i] == loaded[i];
    } else {
      i := |front|;
      IndexExactly(front);
    }
  }

  // ------------------------------------------------------------ canonical name order

  ghost predicate Sorted(names: seq<string>) {
    forall i, j :: 0 <= i < j < |names| ==> NameLeq(names[i], names[j])
  }

  /** The names up to their first difference, which decides; or one is the start of the other. */
  ghost predicate DiffersFirst(a: string, b: string, i: nat) {
    i < |a| && i < |b| && a[..i] == b[..i] && a[i] < b[i]
  }

  lemma {:induction false} NameLeqExactly(a: string, b: string)
    ensures NameLeq(a, b) <==> a <= b || exists i: nat :: DiffersFirst(a, b, i)
  {
    if a != "" && b != "" {
      NameLeqExactly(a[1..], b[1..]);
      if a[0] == b[0] {
        NameLeqTail(a, b);
      } else if a[0] < b[0] {
        assert DiffersFirst(a, b, 0);
      } else {
        forall i: nat ensures !DiffersFirst(a, b, i) {
          if DiffersFirst(a, b, i) {
            FirstCharacters(a, b, i);
          }
        }
      }
    }
  }

  lemma FirstCharacters(a: string, b: string, i: nat)
    requires DiffersFirst(a, b, i)
    ensures a[0] <= b[0]
  {
    if i > 0 {
      assert a[..i][0] == a[0] && b[..i][0] == b[0];
    }
  }

  lemma NameLeqTail(a: string, b: string)
    requires a != "" && b != "" && a[0] == b[0]
    ensures a <= b <==> a[1..] <= b[1..]
    ensures (exists i: nat :: DiffersFirst(a, b, i)) <==> exists i: nat :: DiffersFirst(a[1..], b[1..], i)
  {
    assert a == [a[0]] + a[1..] && b == [b[0]] + b[1..];
    if i: nat :| DiffersFirst(a, b, i) {
      assert i > 0;
      assert a[1..][..i - 1] == a[..i][1..] && b[1..][..i - 1] == b[..i][1..];
      assert DiffersFirst(a[1..], b[1..], i - 1);
    }
    if i: nat :| DiffersFirst(a[1..], b[1..], i) {
      assert a[..i + 1] == [a[0]] + a[1..][..i] && b[..i + 1] == [b[0]] + b[1..][..i];
      assert DiffersFirst(a, b, i + 1);
    }
  }

  /** A name is that of a view file exactly when it is a stem, not empty, followed by `.json`. */
  lemma JsonExtensionExactly(name: string)
    ensures HasJsonExtension(name) <==> exists stem: string :: stem != "" && name == stem + ".json"
  {
    if HasJsonExtension(name) {
      var stem := name[..|name| - 5];
      assert stem != "" && name == stem + ".json";
    }
    if stem: string :| stem != "" && name == stem + ".json" {
      assert name[|name| - 5..] == ".json";
    }
  }

  lemma {:induction false} NameLeqTotal(a: string, b: string)
    ensures NameLeq(a, b) || NameLeq(b, a)
    ensures NameLeq(a, b) && NameLeq(b, a) ==> a == b
  {
    if a != "" && b != "" {
      NameLeqTotal(a[1..], b[1..]);
      assert a == [a[0]] + a[1..] && b == [b[0]] + b[1..];
    }
  }

  lemma {:induction false} NameLeqTransitive(a: string, b: string, c: string)
    requires NameLeq(a, b) && NameLeq(b, c)
    ensures NameLeq(a, c)
  {
    if a != "" && a[0] == b[0] == c[0] {
      NameLeqTransitive(a[1..], b[1..], c[1..]);
    }
  }

  lemma {:induction false} InsertSorts(name: string, names: seq<string>)
    requires Sorted(names)
    ensures Sorted(InsertName(name, names))
    ensures multiset(InsertName(name, names)) == multiset{name} + multiset(names)
  {
    if names == [] {
    } else if NameLeq(name, names[0]) {
      forall j | 0 <= j < |names| ensures NameLeq(name, names[j]) {
        if j > 0 {
          NameLeqTransitive(name, names[0], names[j]);
        }
      }
    } else {
      NameLeqTotal(name, names[0]);
      var rest := InsertName(name, names[1..]);
      InsertSorts(name, names[1..]);
      assert names == [names[0]] + names[1..];
      forall x | x in rest ensures NameLeq(names[0], x) {
        assert x in multiset(rest);
        assert x == name || x in names[1..];
      }
      forall j | 0 <= j < |rest| ensures NameLeq(names[0], rest[j]) {
        assert rest[j] in rest;
      }
    }
  }

  lemma {:induction false} SortSorts(names: seq<string>)
    ensures Sorted(SortNames(names)) && multiset(SortNames(names)) == multiset(names)
  {
    if names != [] {
      SortSorts(names[1..]);
      InsertSorts(names[0], SortNames(names[1..]));
      assert names == [names[0]] + names[1..];
    }
  }

  lemma LeastIsFirst(names: seq<string>, x: string)
    requires Sorted(names) && x in names
    ensures NameLeq(names[0], x)
  {
    NameLeqTotal(x, x);
    var i :| 0 <= i < |names| && names[i] == x;
  }

  /** There is only one sorted arrangement, whichever sort produced it. */
  lemma {:induction false} SortedUnique(a: seq<string>, b: seq<string>)
    requires Sorted(a) && Sorted(b) && multiset(a) == multiset(b)
    ensures a == b
  {
    assert |a| == |multiset(a)| == |multiset(b)| == |b|;
    if a != [] {
      SameHead(a, b);
      assert a == [a[0]] + a[1..] && b == [b[0]] + b[1..];
      assert multiset(a[1..]) == multiset(a) - multiset{a[0]};
      assert multiset(b[1..]) == multiset(b) - multiset{b[0]};
      SortedUnique(a[1..], b[1..]);
    }
  }

  lemma SameHead(a: seq<string>, b: seq<string>)
    requires Sorted(a) && Sorted(b) && multiset(a) == multiset(b) && a != [] && b != []
    ensures a[0] == b[0]
  {
    assert a[0] in multiset(b) && b[0] in multiset(a);
    LeastIsFirst(a, b[0]);
    LeastIsFirst(b, a[0]);
    NameLeqTotal(a[0], b[0]);
  }

  lemma {:induction false} JsonNamesCount(listing: seq<string>, name: string)
    ensures multiset(JsonNames(listing))[name] == if HasJsonExtension(name) then multiset(listing)[name] else 0
  {
    if listing != [] {
      var front, last := listing[..|listing| - 1], listing[|listing| - 1];
      JsonNamesCount(front, name);
      assert listing == front + [last];
    }
  }

  lemma SameNamesSameOrder(a: seq<string>, b: seq<string>)
    requires multiset(a) == multiset(b)
    ensures ViewNames(a) == ViewNames(b)
  {
    forall name ensures multiset(JsonNames(a))[name] == multiset(JsonNames(b))[name] {
      JsonNamesCount(a, name);
      JsonNamesCount(b, name);
    }
    assert multiset(JsonNames(a)) == multiset(JsonNames(b));
    SortSorts(JsonNames(a));
    SortSorts(JsonNames(b));
    SortedUnique(ViewNames(a), ViewNames(b));
  }

  /** The result, error included, does not depend on the order the directory is listed in. */
  lemma ListingOrderDoesNotMatter(disk: Disk, listing: seq<string>, now: i64)
    requires disk.listing.Some? && multiset(disk.listing.value) == multiset(listing)
    ensures Load(disk.(listing := Some(listing)), now) == Load(disk, now)
  {
    SameNamesSameOrder(disk.listing.value, listing);
  }

  // ------------------------------------------------------------------ whole loads

  lemma ViewNamesAreTheFiles(listing: seq<string>, name: string)
    ensures name in ViewNames(listing) <==> name in listing && HasJsonExtension(name)
    ensures |ViewNames(listing)| == |JsonNames(listing)|
  {
    SortSorts(JsonNames(listing));
    JsonNamesCount(listing, name);
    assert name in ViewNames(listing) <==> name in multiset(ViewNames(listing));
    assert name in JsonNames(listing) <==> name in multiset(JsonNames(listing));
    assert name in listing <==> name in multiset(listing);
    assert |ViewNames(listing)| == |multiset(ViewNames(listing))|;
    assert |JsonNames(listing)| == |multiset(JsonNames(listing))|;
  }

  /** What loading each view file of the directory gives, in load order. */
  function LoadedViews(disk: Disk): seq<Loaded>
    requires disk.listing.Some?
  {
    LoadEach(disk.views, ViewNames(disk.listing.value))
  }

  /** Everything but the view files is in order. */
  ghost predicate OthersValid(disk: Disk, now: i64) {
    && disk.manifest.Contents? && disk.manifest.file.json.Typed?
    && ValidateManifestLifecycle(disk.manifest.file.json.value, now).Success?
    && disk.viewIndex.Contents? && disk.viewIndex.file.json.Typed?
    && disk.listing.Some?
  }

  lemma FixedFilesLoad(disk: Disk, now: i64)
    ensures LoadManifest(disk.manifest, now).Success? && LoadViewIndex(disk.viewIndex).Success? && disk.listing.Some?
            <==> OthersValid(disk, now)
  {}

  lemma LoadIsIndex(disk: Disk, now: i64)
    ensures Load(disk, now).Success? <==> OthersValid(disk, now) && Index(LoadedViews(disk)).Success?
    ensures Load(disk, now).Success? ==> Load(disk, now).value.viewsByRequestTarget == Index(LoadedViews(disk)).value
    ensures OthersValid(disk, now) && Index(LoadedViews(disk)).Failure? ==>
              Load(disk, now) == Failure(Index(LoadedViews(disk)).error)
  {
    FixedFilesLoad(disk, now);
  }

  /** A load succeeds exactly when everything else is in order and the views load without a shared target. */
  lemma LoadsExactly(disk: Disk, now: i64)
    ensures Load(disk, now).Success? <==>
              OthersValid(disk, now) && AllLoad(LoadedViews(disk)) && DistinctTargets(LoadedViews(disk))
    ensures Load(disk, now).Success? ==>
              Indexes(Load(disk, now).value.viewsByRequestTarget, LoadedViews(disk))
  {
    LoadIsIndex(disk, now);
    if disk.listing.Some? {
      IndexExactly(LoadedViews(disk));
    }
  }

  /** What is wrong with a file before its content matters. */
  ghost predicate Unloadable<T>(read: Read<T>, missing: StoreLoadError, error: StoreLoadError) {
    match read
    case Absent => error == BackendReadFailed(NotFound)
    case Unreadable => error == BackendReadFailed(BackendUnavailable)
    case Contents(file) =>
      (file.json.Malformed? && error == JsonMalformed) || (file.json.FieldMissing? && error == missing)
  }

  ghost predicate ManifestFault(read: Read<Manifest>, now: i64, error: StoreLoadError) {
    || Unloadable(read, ManifestFieldMissing, error)
    || (read.Contents? && read.file.json.Typed? &&
        ValidateManifestLifecycle(read.file.json.value, now) == Failure(error))
  }

  /** The fixed files in their order, then the listing, then the view files in name order. */
  ghost predicate FirstFault(disk: Disk, now: i64, i: nat, error: StoreLoadError) {
    if !ManifestInOrder(disk, now) then ManifestFault(disk.manifest, now, error)
    else if !(disk.viewIndex.Contents? && disk.viewIndex.file.json.Typed?)
    then Unloadable(disk.viewIndex, JsonMalformed, error)
    else if disk.listing.None? then error == ReadFailed
    else FirstFailure(LoadedViews(disk), i, error)
  }

  ghost predicate ManifestInOrder(disk: Disk, now: i64) {
    && disk.manifest.Contents? && disk.manifest.file.json.Typed?
    && ValidateManifestLifecycle(disk.manifest.file.json.value, now).Success?
  }

  lemma FixedFileFaults(disk: Disk, now: i64)
    ensures LoadManifest(disk.manifest, now).Success? <==> ManifestInOrder(disk, now)
    ensures LoadManifest(disk.manifest, now).Failure? ==>
              ManifestFault(disk.manifest, now, LoadManifest(disk.manifest, now).error)
    ensures LoadViewIndex(disk.viewIndex).Success? <==> disk.viewIndex.Contents? && disk.viewIndex.file.json.Typed?
    ensures LoadViewIndex(disk.viewIndex).Failure? ==>
              Unloadable(disk.viewIndex, JsonMalformed, LoadViewIndex(disk.viewIndex).error)
  {}

  /** A failing load reports the first fault: of the manifest, the index, the listing, or a view file in name order. */
  lemma LoadReportsFirstFailure(disk: Disk, now: i64) returns (i: nat)
    requires Load(disk, now).Failure?
    ensures FirstFault(disk, now, i, Load(disk, now).error)
  {
    FixedFileFaults(disk, now);
    i := 0;
    if OthersValid(disk, now) {
      LoadIsIndex(disk, now);
      i := ReportsFirstFailure(LoadedViews(disk));
    }
  }

  /** A view file loads exactly when it is there, decodes, and has a servable URL; it is stored whole, under the URL's target. */
  lemma ViewLoadsExactly(read: Read<View>)
    ensures LoadView(read).Success? <==>
              && read.Contents? && read.file.json.Typed?
              && ("/" <= read.file.json.value.url || "http://" <= read.file.json.value.url
                  || "https://" <= read.file.json.value.url)
    ensures LoadView(read).Success? ==>
              && "/" <= LoadView(read).value.0
              && LoadView(read).value.1 == StoredView(read.file.bytes, read.file.json.value)
    ensures LoadView(read).Failure? ==>
              || Unloadable(read, ViewFieldMissing, LoadView(read).error)
              || LoadView(read).error == InvalidViewUrl
  {
    if read.Contents? && read.file.json.Typed? {
      TargetExists(read.file.json.value.url);
    }
  }

  /** The view file at a position, when it is readable and well formed. */
  function ViewAt(disk: Disk, i: nat): Option<File<View>>
    requires disk.listing.Some? && i < |ViewNames(disk.listing.value)|
  {
    match ReadOf(disk.views, ViewNames(disk.listing.value)[i])
    case Contents(file) => if file.json.Typed? then Some(file) else None
    case _ => None
  }

  function TargetAt(disk: Disk, i: nat): Result<string, StoreLoadError>
    requires disk.listing.Some? && i < |ViewNames(disk.listing.value)| && ViewAt(disk, i).Some?
  {
    RequestTarget(ViewAt(disk, i).value.json.value.url)
  }

  lemma LoadedAt(disk: Disk, i: nat)
    requires disk.listing.Some? && i < |ViewNames(disk.listing.value)|
    ensures LoadedViews(disk)[i].Success? <==> ViewAt(disk, i).Some? && TargetAt(disk, i).Success?
    ensures LoadedViews(disk)[i].Success? ==>
              && LoadedViews(disk)[i].value.0 == TargetAt(disk, i).value
              && LoadedViews(disk)[i].value.1 == StoredView(ViewAt(disk, i).value.bytes, ViewAt(disk, i).value.json.value)
  {}

  /** Every view file is there and well formed. */
  ghost predicate ViewsReadable(disk: Disk)
    requires disk.listing.Some?
  {
    forall i: nat :: i < |ViewNames(disk.listing.value)| ==> ViewAt(disk, i).Some?
  }

  /** Some view URL is unservable, or two map to one target. */
  ghost predicate UrlFault(disk: Disk)
    requires disk.listing.Some? && ViewsReadable(disk)
  {
    var n := |ViewNames(disk.listing.value)|;
    || (exists i: nat :: i < n && TargetAt(disk, i).Failure?)
    || (exists i: nat, j: nat :: i < j < n && TargetAt(disk, i) == TargetAt(disk, j))
  }

  lemma UrlFaultFails(disk: Disk)
    requires disk.listing.Some? && ViewsReadable(disk) && UrlFault(disk)
    ensures !(AllLoad(LoadedViews(disk)) && DistinctTargets(LoadedViews(disk)))
  {
    var n, loaded := |ViewNames(disk.listing.value)|, LoadedViews(disk);
    if i: nat :| i < n && TargetAt(disk, i).Failure? {
      LoadedAt(disk, i);
    } else {
      var i: nat, j: nat :| i < j < n && TargetAt(disk, i) == TargetAt(disk, j);
      LoadedAt(disk, i);
      LoadedAt(disk, j);
      assert Repeats(loaded, i, j);
    }
  }

  lemma SameTarget(disk: Disk, i: nat, j: nat)
    requires disk.listing.Some? && ViewsReadable(disk) && Repeats(LoadedViews(disk), i, j)
    ensures TargetAt(disk, i) == TargetAt(disk, j)
  {
    LoadedAt(disk, i);
    LoadedAt(disk, j);
  }

  lemma NoUrlFaultLoads(disk: Disk)
    requires disk.listing.Some? && ViewsReadable(disk) && !UrlFault(disk)
    ensures AllLoad(LoadedViews(disk)) && DistinctTargets(LoadedViews(disk))
  {
    var loaded := LoadedViews(disk);
    forall i: nat | i < |loaded| ensures loaded[i].Success? && loaded[i].value.0 == TargetAt(disk, i).value {
      LoadedAt(disk, i);
    }
    forall i: nat, j: nat ensures !Repeats(loaded, i, j) {
      if Repeats(loaded, i, j) {
        SameTarget(disk, i, j);
        assert false;
      }
    }
  }

  /** With readable, well-formed view files, exactly an unservable URL or a shared target fails the load. */
  lemma OnlyUrlsCanFail(disk: Disk, now: i64)
    requires OthersValid(disk, now) && ViewsReadable(disk)
    ensures Load(disk, now).Failure? <==> UrlFault(disk)
  {
    LoadIsIndex(disk, now);
    IndexExactly(LoadedViews(disk));
    if UrlFault(disk) {
      UrlFaultFails(disk);
    } else {
      NoUrlFaultLoads(disk);
    }
  }

  /** A lookup finds what a linear scan of the files finds: the one file of that target, or none. */
  lemma LookupIsScan(disk: Disk, now: i64, target: string)
    requires Load(disk, now).Success?
    ensures var found := Load(disk, now).value.ViewForRequestTarget(target);
            && (found.None? <==> !Comes(target, LoadedViews(disk)))
            && (found.Some? ==> exists i: nat :: OnlyOne(LoadedViews(disk), i, target, found.value))
  {
    LoadsExactly(disk, now);
    var loaded := LoadedViews(disk);
    var index := Load(disk, now).value.viewsByRequestTarget;
    if target in index {
      var i :| 0 <= i < |loaded| && loaded[i].Success? && loaded[i].value.0 == target;
      assert Holds(index, loaded[i]);
      forall j: nat | j < |loaded| && loaded[j].Success? && loaded[j].value.0 == target ensures j == i {
        assert !Repeats(loaded, i, j) && !Repeats(loaded, j, i);
      }
      assert OnlyOne(loaded, i, target, index[target]);
    } else {
      KeysAreTargets(index, loaded, target);
    }
  }

  /** What a lookup finds is one file, whole: the one whose URL maps to the target. */
  lemma LookupIsFile(disk: Disk, now: i64, target: string) returns (n: nat)
    requires Load(disk, now).Success? && Load(disk, now).value.ViewForRequestTarget(target).Some?
    ensures disk.listing.Some? && n < |ViewNames(disk.listing.value)| && ViewAt(disk, n).Some?
    ensures TargetAt(disk, n) == Success(target)
    ensures Load(disk, now).value.ViewForRequestTarget(target)
            == Some(StoredView(ViewAt(disk, n).value.bytes, ViewAt(disk, n).value.json.value))
  {
    LookupIsScan(disk, now, target);
    LoadsExactly(disk, now);
    n :| OnlyOne(LoadedViews(disk), n, target, Load(disk, now).value.ViewForRequestTarget(target).value);
    LoadedAt(disk, n);
  }

  /** Position i, and no other, is stored under the target. */
  ghost predicate OnlyOne(loaded: seq<Loaded>, i: nat, target: string, view: StoredView) {
    && i < |loaded| && loaded[i] == Success((target, view))
    && forall j: nat :: j < |loaded| && loaded[j].Success? && loaded[j].value.0 == target ==> j == i
  }

  /** As many views are kept as there are `.json` files. */
  lemma ViewCountIsFileCount(disk: Disk, now: i64)
    requires Load(disk, now).Success?
    ensures Load(disk, now).value.ViewCount() == |JsonNames(disk.listing.value)|
  {
    LoadsExactly(disk, now);
    ViewNamesAreTheFiles(disk.listing.value, "");
  }

  /** A view published under any origin is found by a request for its path and query. */
  lemma PublishedViewIsFound(disk: Disk, now: i64, i: nat, authority: string, tail: string)
    requires Load(disk, now).Success? && i < |ViewNames(disk.listing.value)|
    requires '/' !in authority && tail != "" && tail[0] == '/'
    requires ViewAt(disk, i).Some?
    requires ViewAt(disk, i).value.json.value.url
             in {"http://" + authority + tail, "https://" + authority + tail, tail}
    ensures Load(disk, now).value.ViewForRequestTarget(tail)
            == Some(StoredView(ViewAt(disk, i).value.bytes, ViewAt(disk, i).value.json.value))
  {
    LoadsExactly(disk, now);
    TargetIgnoresOrigin(authority, tail);
    LoadedAt(disk, i);
    assert Holds(Load(disk, now).value.viewsByRequestTarget, LoadedViews(disk)[i]);
  }

  // ----------------------------------------------------------------- manifest lifetime

  /** A manifest is accepted exactly when it is numbered, correctly timed, at most 180 days long and unexpired. */
  lemma LifecycleExactly(manifest: Manifest, now: i64)
    ensures ValidateManifestLifecycle(manifest, now).Success? <==>
              && manifest.sequence >= 0
              && ParseRfc3339Utc(manifest.issuedAt).Success? && ParseRfc3339Utc(manifest.expiresAt).Success?
              && var issued, expires :=
                   ParseRfc3339Utc(manifest.issuedAt).value as int, ParseRfc3339Utc(manifest.expiresAt).value as int;
                 issued < expires <= issued + 180 * 86_400 && (now as int) < expires
  {}

  /** And otherwise the first thing wrong with it, in this order, is the error. */
  lemma LifecycleErrors(manifest: Manifest, now: i64)
    ensures manifest.sequence < 0 ==> ValidateManifestLifecycle(manifest, now) == Failure(ManifestSequenceInvalid)
    ensures manifest.sequence >= 0
            && (ParseRfc3339Utc(manifest.issuedAt).Failure? || ParseRfc3339Utc(manifest.expiresAt).Failure?) ==>
              ValidateManifestLifecycle(manifest, now) == Failure(ManifestTimeInvalid)
    ensures manifest.sequence >= 0
            && ParseRfc3339Utc(manifest.issuedAt).Success? && ParseRfc3339Utc(manifest.expiresAt).Success? ==>
              var issued, expires :=
                ParseRfc3339Utc(manifest.issuedAt).value as int, ParseRfc3339Utc(manifest.expiresAt).value as int;
              && (expires <= issued ==> ValidateManifestLifecycle(manifest, now) == Failure(ManifestTimeInvalid))
              && (expires > issued + 180 * 86_400 ==>
                    ValidateManifestLifecycle(manifest, now) == Failure(ManifestLifetimeTooLong))
              && (issued < expires <= issued + 180 * 86_400 && expires <= now as int ==>
                    ValidateManifestLifecycle(manifest, now) == Failure(ManifestExpired))
  {}

  /** What holds of every loaded store about its expiry and its tags. */
  ghost predicate WellTimed(store: PreparedContentStore) {
    && store.ManifestSequence() >= 0
    && ParseRfc3339Utc(store.manifest.manifest.issuedAt).Success?
    && ParseRfc3339Utc(store.manifest.manifest.expiresAt) == Success(store.manifest.expiresAtUnix)
    && var issued := ParseRfc3339Utc(store.manifest.manifest.issuedAt).value as int;
       issued < store.manifest.expiresAtUnix as int <= issued + 180 * 86_400
  }

  lemma LoadedIsWellTimed(disk: Disk, now: i64)
    requires Load(disk, now).Success?
    ensures WellTimed(Load(disk, now).value) && now < Load(disk, now).value.manifest.expiresAtUnix
  {
    LoadParts(disk, now);
    ManifestTimed(disk.manifest, now);
  }

  lemma ManifestTimed(read: Read<Manifest>, now: i64)
    requires LoadManifest(read, now).Success?
    ensures var manifest := LoadManifest(read, now).value;
            && read.Contents? && read.file.json == Typed(manifest.manifest)
            && ValidateManifestLifecycle(manifest.manifest, now).Success?
            && ParseRfc3339Utc(manifest.manifest.expiresAt) == Success(manifest.expiresAtUnix)
            && now < manifest.expiresAtUnix && manifest.manifest.sequence >= 0
            && ParseRfc3339Utc(manifest.manifest.issuedAt).Success?
            && var issued := ParseRfc3339Utc(manifest.manifest.issuedAt).value as int;
               issued < manifest.expiresAtUnix as int <= issued + 180 * 86_400
  {
    LifecycleExactly(read.file.json.value, now);
  }

  /** What is served by the manifest's word, the index path and the sequence, is the manifest file's own. */
  lemma LoadKeepsManifest(disk: Disk, now: i64)
    requires Load(disk, now).Success?
    ensures disk.manifest.Contents? && disk.manifest.file.json.Typed?
    ensures var store, manifest := Load(disk, now).value, disk.manifest.file.json.value;
            && store.manifest.manifest == manifest && store.manifest.viewsIndex == manifest.viewsIndex
            && store.ManifestSequence() == manifest.sequence
            && ParseRfc3339Utc(manifest.expiresAt) == Success(store.manifest.expiresAtUnix)
            && store.manifest.bytes == disk.manifest.file.bytes
  {
    LoadParts(disk, now);
    ManifestKeeps(disk.manifest, now);
  }

  lemma ManifestKeeps(read: Read<Manifest>, now: i64)
    requires LoadManifest(read, now).Success?
    ensures read.Contents? && read.file.json.Typed?
    ensures var stored, manifest := LoadManifest(read, now).value, read.file.json.value;
            && stored.manifest == manifest && stored.viewsIndex == manifest.viewsIndex
            && ParseRfc3339Utc(manifest.expiresAt) == Success(stored.expiresAtUnix)
            && stored.bytes == read.file.bytes
  {}

  /** The computed tags are those of the stored bytes. */
  ghost predicate WellTagged(store: PreparedContentStore) {
    && store.manifest.etag == ManifestEtag(store.manifest.bytes)
    && store.viewIndex.etag == ViewIndexEtag(store.viewIndex.bytes)
  }

  lemma LoadedIsWellTagged(disk: Disk, now: i64)
    requires Load(disk, now).Success?
    ensures WellTagged(Load(disk, now).value)
  {
    LoadParts(disk, now);
    ManifestTagged(disk.manifest, now, Load(disk, now).value.manifest);
    ViewIndexTagged(disk.viewIndex);
  }

  /** A loaded store's manifest and index are what loading those two files gives. */
  lemma LoadParts(disk: Disk, now: i64)
    requires Load(disk, now).Success?
    ensures LoadManifest(disk.manifest, now) == Success(Load(disk, now).value.manifest)
    ensures LoadViewIndex(disk.viewIndex) == Success(Load(disk, now).value.viewIndex)
  {}

  lemma ManifestTagged(read: Read<Manifest>, now: i64, stored: StoredManifest)
    requires LoadManifest(read, now) == Success(stored)
    ensures stored.etag == ManifestEtag(stored.bytes)
  {
    var file := ReadArtifact(read).value;
    assert stored.bytes == file.bytes && stored.etag == ManifestEtag(file.bytes);
  }

  lemma ViewIndexTagged(read: Read<()>)
    requires LoadViewIndex(read).Success?
    ensures LoadViewIndex(read).value.etag == ViewIndexEtag(LoadViewIndex(read).value.bytes)
  {}

  // ------------------------------------------------------------------ one directory

  /** A manifest issued on 1 January 2026 and valid to the first of February or March; and one view with its own origin. */
  function SampleManifest(month: int): Manifest
    requires 2 <= month <= 3
  {
    Manifest("/views.json", Render(Civil(2026, 1, 1, 0, 0, 0)), Render(Civil(2026, month, 1, 0, 0, 0)), 7)
  }

  const SAMPLE_VIEW: View := View("http://" + "a.example" + "/guide", "\"v1\"", [ViewChunk("heading", "Guide")], "sig")

  function SampleDisk(month: int): Disk
    requires 2 <= month <= 3
  {
    Disk(Contents(File([1], Typed(SampleManifest(month)))), Contents(File([2], Typed(()))),
         Some(["guide.json", "notes.txt"]), map["guide.json" := Contents(File([3], Typed(SAMPLE_VIEW)))])
  }

  /** Seconds from the start of 1970 to the first of a month of 2026. */
  function FirstOfMonth(month: int): i64
    requires 1 <= month <= 3
  {
    (20_454 + if month == 1 then 0 else if month == 2 then 31 else 59) * 86_400
  }

  lemma SampleInstant(month: int)
    requires 1 <= month <= 3
    ensures ParseRfc3339Utc(Render(Civil(2026, month, 1, 0, 0, 0))) == Success(FirstOfMonth(month))
  {
    ParseRender(Civil(2026, month, 1, 0, 0, 0));
    FirstsOf2026(month);
  }

  lemma FirstsOf2026(month: int)
    requires 1 <= month <= 3
    ensures Calendar.DayNumber(2026, month, 1) == 20_454 + if month == 1 then 0 else if month == 2 then 31 else 59
  {
    Calendar.YearStartClosed(2026);
    Calendar.MonthStartTable(2026);
  }

  /** A manifest is accepted before it is issued: the issue time is only compared with the expiry. */
  lemma AcceptedBeforeIssue(month: int)
    requires 2 <= month <= 3
    ensures ValidateManifestLifecycle(SampleManifest(month), 0).Success?
    ensures ParseRfc3339Utc(SampleManifest(month).issuedAt) == Success(FirstOfMonth(1)) && 0 < FirstOfMonth(1)
  {
    SampleInstant(1);
    SampleInstant(month);
    LifecycleExactly(SampleManifest(month), 0);
  }

  lemma SampleNames()
    ensures ViewNames(["guide.json", "notes.txt"]) == ["guide.json"]
  {
    var listing := ["guide.json", "notes.txt"];
    assert listing[..1] == ["guide.json"] && listing[..1][..0] == [];
    assert JsonNames([]) == [];
    assert JsonNames(listing[..1]) == ["guide.json"];
    assert JsonNames(listing) == ["guide.json"];
    assert ["guide.json"][1..] == [];
  }

  lemma SampleTarget()
    ensures RequestTarget(SAMPLE_VIEW.url) == Success("/guide")
  {
    TargetIgnoresOrigin("a.example", "/guide");
  }

  lemma SampleViews(month: int)
    requires 2 <= month <= 3
    ensures LoadedViews(SampleDisk(month)) == [Success(("/guide", StoredView([3], SAMPLE_VIEW)))]
  {
    SampleNames();
    SampleTarget();
    assert ["guide.json"][1..] == [];
    LoadedAt(SampleDisk(month), 0);
  }

  /** A concrete directory loads, and its view is found at the path of its URL: what is proved of loads is not empty. */
  lemma SampleLoads(month: int)
    requires 2 <= month <= 3
    ensures Load(SampleDisk(month), 0).Success?
    ensures Load(SampleDisk(month), 0).value.ViewForRequestTarget("/guide") == Some(StoredView([3], SAMPLE_VIEW))
  {
    AcceptedBeforeIssue(month);
    SampleViews(month);
    LoadsExactly(SampleDisk(month), 0);
    assert Holds(Load(SampleDisk(month), 0).value.viewsByRequestTarget, LoadedViews(SampleDisk(month))[0]);
  }

  lemma SampleStore(month: int)
    requires 2 <= month <= 3
    ensures Load(SampleDisk(month), 0).Success?
    ensures var store := Load(SampleDisk(month), 0).value;
            store.manifest.expiresAtUnix == FirstOfMonth(month) && store.ManifestSequence() == 7
  {
    SampleLoads(month);
    SampleInstant(month);
    LoadKeepsManifest(SampleDisk(month), 0);
  }
}
