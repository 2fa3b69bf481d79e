/** The new donor sled form (app/admin/donor/new/page.tsx): picking and
    removing photos, normalising the form fields, naming the stored photo
    files, and the sequence of store requests a submission makes. */
module NewDonor {
  import opened Wrappers
  import opened Strings
  import opened Seqs

  // ---------------------------------------------------------------------
  // picked photos

  /** A picked file: its name and its MIME type. */
  datatype PhotoFile = PhotoFile(name: string, mimeType: string)

  /** The picked photos and their preview URLs, index for index. */
  datatype Photos = Photos(files: seq<PhotoFile>, previews: seq<string>)

  predicate IsImage(f: PhotoFile) {
    StartsWith(f.mimeType, "image/")
  }

  /** Preview `i` is the object URL made for file `i`. */
  ghost predicate Paired(p: Photos, objectUrl: PhotoFile -> string) {
    && |p.files| == |p.previews|
    && forall i :: 0 <= i < |p.files| ==> p.previews[i] == objectUrl(p.files[i])
  }

  /** `onPickPhotos`: a missing file list changes nothing; otherwise the
      picked image files replace the photos, each with a fresh preview. */
  function PickPhotos(p: Photos, picked: Option<seq<PhotoFile>>, objectUrl: PhotoFile -> string): (r: Photos)
    ensures picked.None? ==> r == p
    ensures picked.Some? ==> IsSubsequence(r.files, picked.value)
    ensures picked.Some? ==> forall f :: f in r.files <==> f in picked.value && IsImage(f)
    ensures picked.Some? ==> Paired(r, objectUrl)
  {
    match picked
    case None => p
    case Some(fs) =>
      var imgs := Filter(fs, IsImage);
      Photos(imgs, Map(imgs, objectUrl))
  }

  /** Every picked image is kept as often as it was picked, and nothing
      that is not an image is kept. */
  lemma PickedMultiplicity(p: Photos, fs: seq<PhotoFile>, objectUrl: PhotoFile -> string, f: PhotoFile)
    ensures multiset(PickPhotos(p, Some(fs), objectUrl).files)[f] == if IsImage(f) then multiset(fs)[f] else 0
  {
    FilterMultiplicity(fs, IsImage, f);
  }

  /** `removePhotoAt`: the file and the preview at `idx` are both dropped;
      an index outside the list drops nothing. */
  function RemovePhotoAt(p: Photos, idx: int): (r: Photos)
    ensures 0 <= idx < |p.files| ==> r.files == p.files[..idx] + p.files[idx + 1..]
    ensures 0 <= idx < |p.previews| ==> r.previews == p.previews[..idx] + p.previews[idx + 1..]
    ensures 0 <= idx < |p.files| ==> multiset(r.files) == multiset(p.files) - multiset{p.files[idx]}
    ensures !(0 <= idx < |p.files|) ==> r.files == p.files
    ensures !(0 <= idx < |p.previews|) ==> r.previews == p.previews
  {
    var r := Photos(RemoveAt(p.files, idx), RemoveAt(p.previews, idx));
    if 0 <= idx < |p.files| then
      assert p.files == p.files[..idx] + [p.files[idx]] + p.files[idx + 1..];
      r
    else
      r
  }

  /** Removing a photo keeps every remaining preview with its own file. */
  lemma RemoveKeepsPairing(p: Photos, idx: int, objectUrl: PhotoFile -> string)
    requires Paired(p, objectUrl)
    ensures Paired(RemovePhotoAt(p, idx), objectUrl)
  {
  }

  // ---------------------------------------------------------------------
  // the donor row

  /** The form's text inputs, as typed. */
  datatype DonorForm = DonorForm(vin: string, make: string, model: string, year: string, engine: string, miles: string, notes: string)

  /** The row inserted into `donor_sleds`. Year and mileage hold the text
      that `Number` converts; the conversion itself is not modelled. */
  datatype DonorInsert = DonorInsert(
    vin: Option<string>,
    make: Option<string>,
    model: Option<string>,
    year: Option<string>,
    engine: Option<string>,
    miles: Option<string>,
    notes: Option<string>)

  /** `x.trim() || null`: the trimmed text, or null when nothing but
      whitespace was typed. */
  function NullIfBlank(x: string): (r: Option<string>)
    ensures r.None? <==> AllSpace(x)
    ensures r.Some? ==> r.value == Trim(x)
    ensures r.Some? ==> r.value != [] && !IsSpace(r.value[0]) && !IsSpace(r.value[|r.value| - 1])
  {
    var t := Trim(x);
    if t == [] then None else Some(t)
  }

  /** A kept value is the typed text with the whitespace on both sides
      removed: an infix of the input with only whitespace around it. */
  lemma NullIfBlankInfix(x: string) returns (a: nat)
    requires NullIfBlank(x).Some?
    ensures var v := NullIfBlank(x).value;
      a + |v| <= |x| && v == x[a..a + |v|] && AllSpace(x[..a]) && AllSpace(x[a + |v|..])
  {
    a := TrimInfix(x);
  }

  /** Normalising a normalised value changes nothing. */
  lemma NullIfBlankIdempotent(x: string)
    requires NullIfBlank(x).Some?
    ensures NullIfBlank(NullIfBlank(x).value) == NullIfBlank(x)
  {
    TrimIdempotent(x);
  }

  /** Whitespace typed around a value is ignored. */
  lemma NullIfBlankPadded(x: string, pad: string)
    requires AllSpace(pad)
    ensures NullIfBlank(pad + x + pad) == NullIfBlank(x)
  {
    TrimPadded(x, pad);
  }

  /** `x ? Number(x) : null`: only the empty input is null; whitespace is
      passed on to `Number`. */
  function NumberInput(x: string): (r: Option<string>)
    ensures r.None? <==> x == []
    ensures r.Some? ==> r.value == x
  {
    if x == [] then None else Some(x)
  }

  /** The row a form inserts. */
  function FormRow(f: DonorForm): (r: DonorInsert)
    ensures r.vin.None? <==> AllSpace(f.vin)
    ensures r.make.None? <==> AllSpace(f.make)
    ensures r.model.None? <==> AllSpace(f.model)
    ensures r.engine.None? <==> AllSpace(f.engine)
    ensures r.notes.None? <==> AllSpace(f.notes)
    ensures r.year.None? <==> f.year == []
    ensures r.miles.None? <==> f.miles == []
    ensures r.vin.Some? ==> r.vin.value == Trim(f.vin)
    ensures r.make.Some? ==> r.make.value == Trim(f.make)
    ensures r.model.Some? ==> r.model.value == Trim(f.model)
    ensures r.engine.Some? ==> r.engine.value == Trim(f.engine)
    ensures r.notes.Some? ==> r.notes.value == Trim(f.notes)
    ensures r.year.Some? ==> r.year.value == f.year
    ensures r.miles.Some? ==> r.miles.value == f.miles
  {
    DonorInsert(
      NullIfBlank(f.vin), NullIfBlank(f.make), NullIfBlank(f.model),
      NumberInput(f.year), NullIfBlank(f.engine), NumberInput(f.miles), NullIfBlank(f.notes))
  }

  // ---------------------------------------------------------------------
  // storage paths

  /** Lower-casing never produces a dot from anything but a dot. */
  lemma LowerKeepsNoDot(s: string)
    requires '.' !in s
    ensures '.' !in Lower(s)
  {
    forall i | 0 <= i < |s| ensures Lower(s)[i] != '.' {
      assert s[i] in s;
    }
  }

  /** `(name.split('.').pop() || 'jpg').toLowerCase()`: the lower-cased text
      after the last dot, or `jpg` when that is empty. */
  function Extension(name: string): string {
    var pieces := Split(name, '.');
    var last := pieces[|pieces| - 1];
    Lower(if last == [] then "jpg" else last)
  }

  /** An extension is never empty and never contains a dot. */
  lemma ExtensionShape(name: string)
    ensures Extension(name) != [] && '.' !in Extension(name)
  {
    var pieces := Split(name, '.');
    var last := pieces[|pieces| - 1];
    assert '.' !in last;
    LowerKeepsNoDot(if last == [] then "jpg" else last);
  }

  /** A name ending in a dot and a non-empty dot-free suffix has that
      suffix, lower-cased, as its extension. */
  lemma ExtensionOfSuffix(base: string, e: string)
    requires e != [] && '.' !in e
    ensures Extension(base + "." + e) == Lower(e)
  {
    SplitAfterLastSeparator(base, '.', e);
  }

  /** A name without a dot is its own extension. */
  lemma ExtensionOfDotless(name: string)
    requires '.' !in name && name != []
    ensures Extension(name) == Lower(name)
  {
    SplitNoSeparator(name, '.');
  }

  /** A name that is empty or ends in a dot gets `jpg`. */
  lemma ExtensionFallback(name: string)
    requires name == [] || name[|name| - 1] == '.'
    ensures Extension(name) == "jpg"
  {
    if name != [] {
      var base := name[..|name| - 1];
      assert name == base + ['.'] + [];
      SplitAfterLastSeparator(base, '.', []);
    }
  }

  /** `String(i + 1).padStart(2, '0')`: the photo's number, from 1, at least
      two digits wide. */
  function PhotoNumber(i: nat): (r: string)
    ensures |r| >= 2 && AllDigits(r)
  {
    PadStart(NatToString(i + 1), 2, '0')
  }

  /** The padded number reads back as `i + 1`. */
  lemma PhotoNumberValue(i: nat)
    ensures DecimalValue(PhotoNumber(i)) == i + 1
  {
    ZeroPaddingKeepsValue(NatToString(i + 1), 2);
    NatToStringRoundTrip(i + 1);
  }

  /** `<NN>.<ext>`: the numbered tail of a stored photo's name. */
  function NumberedName(i: nat, ext: string): string {
    PhotoNumber(i) + "." + ext
  }

  /** `donors/<id>/<id>-`: what every stored photo of a donor begins with. */
  function PathPrefix(id: string): string {
    "donors/" + id + "/" + id + "-"
  }

  /** `donors/<id>/<id>-<NN>.<ext>` */
  function StoragePath(id: string, i: nat, ext: string): string {
    PathPrefix(id) + NumberedName(i, ext)
  }

  /** Equal strings with a common prefix have equal remainders. */
  lemma DropCommonPrefix(a: string, x: string, y: string)
    requires a + x == a + y
    ensures x == y
  {
    assert x == (a + x)[|a|..];
    assert y == (a + y)[|a|..];
  }

  /** The number is everything before the first dot of the numbered name,
      so equal names have equal numbers. */
  lemma NumberedNameInjective(i: nat, j: nat, e1: string, e2: string)
    requires NumberedName(i, e1) == NumberedName(j, e2)
    ensures i == j
  {
    var ni := PhotoNumber(i);
    var nj := PhotoNumber(j);
    assert '.' !in ni by {
      forall k | 0 <= k < |ni| ensures ni[k] != '.' { assert IsDigit(ni[k]); }
    }
    assert '.' !in nj by {
      forall k | 0 <= k < |nj| ensures nj[k] != '.' { assert IsDigit(nj[k]); }
    }
    SplitHead(ni, '.', e1);
    SplitHead(nj, '.', e2);
    assert ni == Split(NumberedName(i, e1), '.')[0];
    assert nj == Split(NumberedName(j, e2), '.')[0];
    PhotoNumberValue(i);
    PhotoNumberValue(j);
  }

  /** Distinct photos of one donor are stored under distinct paths, whatever
      their extensions. */
  lemma StoragePathsDistinct(id: string, i: nat, j: nat, e1: string, e2: string)
    requires StoragePath(id, i, e1) == StoragePath(id, j, e2)
    ensures i == j
  {
    DropCommonPrefix(PathPrefix(id), NumberedName(i, e1), NumberedName(j, e2));
    NumberedNameInjective(i, j, e1, e2);
  }

  // ---------------------------------------------------------------------
  // submitting

  /** A request the form makes to the store, in order. */
  datatype StoreOp =
    | InsertDonor(row: DonorInsert)
    | Upload(path: string)
    | InsertImage(donorId: string, url: string, sortOrder: nat)
    | SetCover(donorId: string, url: string)

  /** The store's answers: the id an inserted donor gets, which requests
      fail, and the public URL of a stored path. */
  datatype Store = Store(newId: string, fails: StoreOp -> bool, publicUrl: string -> string)

  /** A submission ends on the donor's page or with an error message. */
  datatype Outcome = Redirect(target: string) | ShowError

  datatype Submission = Submission(ops: seq<StoreOp>, outcome: Outcome)

  /** The page a successful submission opens. */
  function DonorPage(id: string): (target: string)
    ensures StartsWith(target, "/admin/donor/")
  {
    var dir := "/admin/donor/";
    assert (dir + id)[..|dir|] == dir;
    dir + id
  }

  predicate AllSucceed(store: Store, ops: seq<StoreOp>) {
    forall k :: 0 <= k < |ops| ==> !store.fails(ops[k])
  }

  /** The last request failed and every earlier one succeeded. */
  predicate StoppedAtFailure(store: Store, ops: seq<StoreOp>) {
    ops != [] && store.fails(ops[|ops| - 1]) && AllSucceed(store, ops[..|ops| - 1])
  }

  /** The storage path of every photo, in order. */
  function PhotoPaths(id: string, files: seq<PhotoFile>): (paths: seq<string>)
    ensures |paths| == |files|
    ensures forall i :: 0 <= i < |files| ==> paths[i] == StoragePath(id, i, Extension(files[i].name))
  {
    seq(|files|, i requires 0 <= i < |files| => StoragePath(id, i, Extension(files[i].name)))
  }

  /** The requests for the photos from `i` on when none fails: an upload,
      then an image row with the photo's public URL and sort order `i`. */
  function Plan(id: string, paths: seq<string>, store: Store, i: nat): (r: seq<StoreOp>)
    requires i <= |paths|
    ensures |r| == 2 * (|paths| - i)
    ensures forall k :: 0 <= k < |r| ==> !r[k].SetCover? && !r[k].InsertDonor?
    decreases |paths| - i
  {
    if i == |paths| then []
    else [Upload(paths[i]), InsertImage(id, store.publicUrl(paths[i]), i)] + Plan(id, paths, store, i + 1)
  }

  /** The public URLs of the photos from `i` on. */
  function PublicUrls(paths: seq<string>, store: Store, i: nat): (r: seq<string>)
    requires i <= |paths|
    ensures |r| == |paths| - i
    decreases |paths| - i
  {
    if i == |paths| then [] else [store.publicUrl(paths[i])] + PublicUrls(paths, store, i + 1)
  }

  /** The first non-empty URL of a list, or empty when there is none. */
  function FirstNonEmpty(urls: seq<string>): (u: string)
    ensures u == [] <==> forall k :: 0 <= k < |urls| ==> urls[k] == []
    ensures u != [] ==> u in urls
  {
    if urls == [] then []
    else if urls[0] != [] then urls[0]
    else
      var u := FirstNonEmpty(urls[1..]);
      assert u != [] ==> u in urls[1..];
      u
  }

  /** When the URLs before position `k` are all empty and URL `k` is not,
      URL `k` is the one chosen; in particular a non-empty first URL is. */
  lemma {:induction false} FirstNonEmptyIsFirst(urls: seq<string>, k: nat)
    requires k < |urls| && urls[k] != []
    requires forall j :: 0 <= j < k ==> urls[j] == []
    ensures FirstNonEmpty(urls) == urls[k]
    decreases k
  {
    if k > 0 {
      assert urls[0] == [];
      FirstNonEmptyIsFirst(urls[1..], k - 1);
    }
  }

  /** Where the photo loop has got to: the requests made, the cover URL so
      far (empty standing for both `null` and `""`, which the page treats
      alike), and whether every request succeeded. */
  datatype Progress = Progress(ops: seq<StoreOp>, cover: string, ok: bool)

  /** The photo loop from photo `i` on: upload, take the public URL as the
      cover if there is none yet, insert the image row; the first failure
      ends the loop. */
  function UploadFrom(id: string, paths: seq<string>, store: Store, i: nat, cover: string): Progress
    requires i <= |paths|
    decreases |paths| - i
  {
    if i == |paths| then Progress([], cover, true)
    else
      var up := Upload(paths[i]);
      if store.fails(up) then Progress([up], cover, false)
      else
        var url := store.publicUrl(paths[i]);
        var cover' := if cover == [] then url else cover;
        var image := InsertImage(id, url, i);
        if store.fails(image) then Progress([up, image], cover', false)
        else
          var rest := UploadFrom(id, paths, store, i + 1, cover');
          Progress([up, image] + rest.ops, rest.cover, rest.ok)
  }

  /** What a submission does once the donor row is in: the photo loop,
      then saving a non-empty cover URL. */
  function AfterInsert(id: string, paths: seq<string>, store: Store): (s: Submission)
  {
    var loop := UploadFrom(id, paths, store, 0, []);
    if !loop.ok then Submission(loop.ops, ShowError)
    else if loop.cover == [] then Submission(loop.ops, Redirect(DonorPage(id)))
    else
      var setCover := SetCover(id, loop.cover);
      Submission(loop.ops + [setCover], if store.fails(setCover) then ShowError else Redirect(DonorPage(id)))
  }

  /** `onSubmit` for the row `FormRow` builds: insert the donor, run the
      photo loop, save a non-empty cover URL, then open the donor's page;
      any failed request ends the submission with an error message. */
  function Submit(row: DonorInsert, files: seq<PhotoFile>, store: Store): (s: Submission)
    ensures s.ops != [] && s.ops[0] == InsertDonor(row)
    ensures store.fails(InsertDonor(row)) ==> s == Submission([InsertDonor(row)], ShowError)
  {
    var insert := InsertDonor(row);
    if store.fails(insert) then Submission([insert], ShowError)
    else
      var rest := AfterInsert(store.newId, PhotoPaths(store.newId, files), store);
      Submission([insert] + rest.ops, rest.outcome)
  }

  /** The photo loop makes a prefix of the planned requests, all of them
      when it succeeds. */
  lemma {:induction false} UploadFollowsPlan(id: string, paths: seq<string>, store: Store, i: nat, cover: string)
    requires i <= |paths|
    ensures var p := UploadFrom(id, paths, store, i, cover); var plan := Plan(id, paths, store, i);
      && |p.ops| <= |plan| && p.ops == plan[..|p.ops|]
      && (p.ok ==> p.ops == plan)
    decreases |paths| - i
  {
    if i < |paths| {
      var url := store.publicUrl(paths[i]);
      var head := [Upload(paths[i]), InsertImage(id, url, i)];
      var plan := Plan(id, paths, store, i);
      assert plan == head + Plan(id, paths, store, i + 1);
      if !store.fails(head[0]) && !store.fails(head[1]) {
        var cover' := if cover == [] then url else cover;
        UploadFollowsPlan(id, paths, store, i + 1, cover');
        var rest := UploadFrom(id, paths, store, i + 1, cover');
        assert head + rest.ops == plan[..2 + |rest.ops|];
      }
    }
  }

  /** The photo loop succeeds exactly when all its requests succeed, and
      otherwise stops at the first one that fails. */
  lemma {:induction false} UploadStops(id: string, paths: seq<string>, store: Store, i: nat, cover: string)
    requires i <= |paths|
    ensures var p := UploadFrom(id, paths, store, i, cover);
      && (p.ok ==> AllSucceed(store, p.ops))
      && (!p.ok ==> StoppedAtFailure(store, p.ops))
    decreases |paths| - i
  {
    if i < |paths| {
      var url := store.publicUrl(paths[i]);
      var up := Upload(paths[i]);
      var image := InsertImage(id, url, i);
      if !store.fails(up) && !store.fails(image) {
        var cover' := if cover == [] then url else cover;
        UploadStops(id, paths, store, i + 1, cover');
        var rest := UploadFrom(id, paths, store, i + 1, cover');
        SucceededFirst(store, image, rest.ops);
        SucceededFirst(store, up, [image] + rest.ops);
        assert [up, image] + rest.ops == [up] + ([image] + rest.ops);
      } else if !store.fails(up) {
        assert [up, image][..1] == [up];
      } else {
        assert [up][..0] == [];
      }
    }
  }

  /** After a complete photo loop, the cover is the one it started with or,
      if that was empty, the first non-empty public URL. */
  lemma {:induction false} UploadCover(id: string, paths: seq<string>, store: Store, i: nat, cover: string)
    requires i <= |paths|
    requires UploadFrom(id, paths, store, i, cover).ok
    ensures UploadFrom(id, paths, store, i, cover).cover ==
      if cover == [] then FirstNonEmpty(PublicUrls(paths, store, i)) else cover
    decreases |paths| - i
  {
    if i < |paths| {
      var url := store.publicUrl(paths[i]);
      var cover' := if cover == [] then url else cover;
      UploadCover(id, paths, store, i + 1, cover');
      var urls := PublicUrls(paths, store, i);
      assert urls[0] == url && urls[1..] == PublicUrls(paths, store, i + 1);
    }
  }

  /** Photo `k` is uploaded to its own path and its image row carries that
      path's public URL and sort order `k`. */
  lemma {:induction false} PlanAt(id: string, paths: seq<string>, store: Store, i: nat, k: nat)
    requires i <= k < |paths|
    ensures var plan := Plan(id, paths, store, i);
      && plan[2 * (k - i)] == Upload(paths[k])
      && plan[2 * (k - i) + 1] == InsertImage(id, store.publicUrl(paths[k]), k)
    decreases k - i
  {
    if i < k {
      PlanAt(id, paths, store, i + 1, k);
    }
  }

  /** After the donor insert, the page opens exactly when no request fails;
      otherwise the requests stop at the first failing one. */
  lemma AfterInsertOutcome(id: string, paths: seq<string>, store: Store)
    ensures var s := AfterInsert(id, paths, store);
      && (s.outcome.Redirect? <==> AllSucceed(store, s.ops))
      && (s.outcome.Redirect? ==> s.outcome.target == DonorPage(id))
      && (s.outcome.ShowError? ==> StoppedAtFailure(store, s.ops))
  {
    var loop := UploadFrom(id, paths, store, 0, []);
    UploadStops(id, paths, store, 0, []);
    var s := AfterInsert(id, paths, store);
    if !loop.ok {
      assert s.ops[|s.ops| - 1] == loop.ops[|loop.ops| - 1];
    } else if loop.cover != [] {
      assert s.ops[..|s.ops| - 1] == loop.ops;
      assert s.ops[|s.ops| - 1] == SetCover(id, loop.cover);
    }
  }

  /** A request that succeeds in front of others does not change whether
      all succeed. */
  lemma SucceededFirstAll(store: Store, op: StoreOp, ops: seq<StoreOp>)
    requires !store.fails(op)
    ensures AllSucceed(store, [op] + ops) <==> AllSucceed(store, ops)
  {
    var t := [op] + ops;
    if AllSucceed(store, ops) {
      forall k | 0 <= k < |t| ensures !store.fails(t[k]) {
        if k > 0 {
          assert t[k] == ops[k - 1];
        }
      }
    }
    if AllSucceed(store, t) {
      forall k | 0 <= k < |ops| ensures !store.fails(ops[k]) {
        assert ops[k] == t[k + 1];
      }
    }
  }

  /** A request that succeeds in front of others does not change whether
      they stopped at a failure. */
  lemma SucceededFirst(store: Store, op: StoreOp, ops: seq<StoreOp>)
    requires !store.fails(op)
    ensures AllSucceed(store, [op] + ops) <==> AllSucceed(store, ops)
    ensures StoppedAtFailure(store, [op] + ops) <==> StoppedAtFailure(store, ops)
  {
    SucceededFirstAll(store, op, ops);
    var t := [op] + ops;
    if ops != [] {
      assert t[|t| - 1] == ops[|ops| - 1];
      assert t[..|t| - 1] == [op] + ops[..|ops| - 1];
      SucceededFirstAll(store, op, ops[..|ops| - 1]);
    }
  }

  /** A submission opens the donor's page exactly when none of its requests
      fails; otherwise it stops at the first failing request. */
  lemma SubmitOutcome(row: DonorInsert, files: seq<PhotoFile>, store: Store)
    ensures var s := Submit(row, files, store);
      && (s.outcome.Redirect? <==> AllSucceed(store, s.ops))
      && (s.outcome.Redirect? ==> s.outcome.target == DonorPage(store.newId))
      && (s.outcome.ShowError? ==> StoppedAtFailure(store, s.ops))
  {
    var insert := InsertDonor(row);
    if !store.fails(insert) {
      var paths := PhotoPaths(store.newId, files);
      var rest := AfterInsert(store.newId, paths, store);
      AfterInsertOutcome(store.newId, paths, store);
      SucceededFirst(store, insert, rest.ops);
    } else {
      assert Submit(row, files, store).ops[..0] == [];
    }
  }

  /** After the donor insert, the requests follow the plan for the photos,
      in order, up to the first failure. */
  lemma AfterInsertFollowsPlan(id: string, paths: seq<string>, store: Store)
    ensures var s := AfterInsert(id, paths, store); var plan := Plan(id, paths, store, 0);
      var n := if |s.ops| < |plan| then |s.ops| else |plan|;
      s.ops[..n] == plan[..n]
  {
    UploadFollowsPlan(id, paths, store, 0, []);
    var loop := UploadFrom(id, paths, store, 0, []);
    var s := AfterInsert(id, paths, store);
    assert s.ops[..|loop.ops|] == loop.ops;
  }

  /** The cover is saved, as the last request, exactly when every photo
      went through and one of their public URLs is non-empty; it is the
      first such URL. */
  lemma AfterInsertCover(id: string, paths: seq<string>, store: Store)
    ensures var s := AfterInsert(id, paths, store);
      var urls := PublicUrls(paths, store, 0);
      && (s.ops != [] && s.ops[|s.ops| - 1].SetCover? <==>
           AllSucceed(store, Plan(id, paths, store, 0)) && FirstNonEmpty(urls) != [])
      && (s.ops != [] && s.ops[|s.ops| - 1].SetCover? ==> s.ops[|s.ops| - 1] == SetCover(id, FirstNonEmpty(urls)))
  {
    var loop := UploadFrom(id, paths, store, 0, []);
    var plan := Plan(id, paths, store, 0);
    UploadFollowsPlan(id, paths, store, 0, []);
    UploadStops(id, paths, store, 0, []);
    if loop.ok {
      UploadCover(id, paths, store, 0, []);
    } else {
      var m := |loop.ops| - 1;
      assert plan[m] == loop.ops[m];
      assert !AllSucceed(store, plan);
    }
  }
}
