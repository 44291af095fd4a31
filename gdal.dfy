/** The GDAL catalog explorer: the file-name filters it builds from the
    extensions of the GDAL data formats, the extended type it gives a
    file by its suffix, the resources it makes of a folder's files, and
    the test of whether it can explore a resource. */
module Gdal {
  import opened Seqs
  import opened Text

  /** A GDAL data format as the format table lists it: its key (the
      extension it is selected by), its comma-separated extensions and its
      extended IlwisTypes. */
  datatype DataFormat = DataFormat(key: string, extensions: string, extendedType: IlwisTypes)

  /** An IlwisTypes value (a quint64 bit mask) as the set of the bits it
      has set; or-ing two values is the union of their sets. */
  type IlwisTypes = set<nat>

  // ---- the extension filters of loadItems ----

  /** The filter of one extension. */
  function Pattern(ext: string): string {
    "*." + ext
  }

  /** The filter of each extension. */
  function Patterns(exts: seq<string>): (patterns: seq<string>)
    ensures |patterns| == |exts|
    ensures forall k :: 0 <= k < |exts| ==> patterns[k] == Pattern(exts[k])
  {
    seq(|exts|, k requires 0 <= k < |exts| => Pattern(exts[k]))
  }

  /** The non-empty extensions of a format. */
  function Extensions(format: DataFormat): seq<string> {
    SplitSkipEmpty(format.extensions, ',')
  }

  /** The filters of the formats, in the order of the format table,
      before any is removed. */
  function RawFilters(formats: seq<DataFormat>): seq<string> {
    if |formats| == 0 then []
    else RawFilters(formats[..|formats| - 1]) + Patterns(Extensions(formats[|formats| - 1]))
  }

  /** Every extension of every format gives a filter. */
  lemma {:induction false} RawFiltersCover(formats: seq<DataFormat>)
    ensures forall k, j :: 0 <= k < |formats| && 0 <= j < |Extensions(formats[k])| ==>
              Pattern(Extensions(formats[k])[j]) in RawFilters(formats)
  {
    if |formats| > 0 {
      var front := formats[..|formats| - 1];
      var last := formats[|formats| - 1];
      RawFiltersCover(front);
      var tail := Patterns(Extensions(last));
      assert RawFilters(formats) == RawFilters(front) + tail;
      forall k, j | 0 <= k < |formats| && 0 <= j < |Extensions(formats[k])|
        ensures Pattern(Extensions(formats[k])[j]) in RawFilters(formats)
      {
        if k < |front| {
          assert formats[k] == front[k];
        } else {
          assert k == |formats| - 1;
          assert tail[j] == Pattern(Extensions(last)[j]);
        }
      }
    }
  }

  /** Every filter is the pattern of an extension of some format. */
  lemma {:induction false} RawFiltersFrom(formats: seq<DataFormat>)
    ensures forall p :: p in RawFilters(formats) ==>
              exists k, j :: 0 <= k < |formats| && 0 <= j < |Extensions(formats[k])| && p == Pattern(Extensions(formats[k])[j])
  {
    if |formats| > 0 {
      var front := formats[..|formats| - 1];
      var last := formats[|formats| - 1];
      RawFiltersFrom(front);
      var tail := Patterns(Extensions(last));
      assert RawFilters(formats) == RawFilters(front) + tail;
      forall p | p in RawFilters(formats)
        ensures exists k, j :: 0 <= k < |formats| && 0 <= j < |Extensions(formats[k])| && p == Pattern(Extensions(formats[k])[j])
      {
        if p in RawFilters(front) {
          var k, j :| 0 <= k < |front| && 0 <= j < |Extensions(front[k])| && p == Pattern(Extensions(front[k])[j]);
          assert formats[k] == front[k];
          assert 0 <= j < |Extensions(formats[k])| && p == Pattern(Extensions(formats[k])[j]);
        } else {
          var j :| 0 <= j < |tail| && tail[j] == p;
          var k := |formats| - 1;
          assert formats[k] == last;
          assert 0 <= j < |Extensions(formats[k])| && p == Pattern(Extensions(formats[k])[j]);
        }
      }
    }
  }

  /** QStringList::removeOne: the list without its first occurrence of
      x, or unchanged when x does not occur. */
  function RemoveFirst<T(==)>(s: seq<T>, x: T): (r: seq<T>)
    ensures x !in s ==> r == s
    ensures x in s ==> |r| == |s| - 1
    ensures multiset(r) == multiset(s) - multiset{x}
  {
    if |s| == 0 then []
    else
      assert s == [s[0]] + s[1..];
      if s[0] == x then s[1..]
      else [s[0]] + RemoveFirst(s[1..], x)
  }

  /** Removing the first occurrence at i leaves the elements before and
      after it. */
  lemma {:induction false} RemoveFirstAt<T>(s: seq<T>, x: T, i: nat)
    requires i < |s| && s[i] == x && x !in s[..i]
    ensures RemoveFirst(s, x) == s[..i] + s[i + 1..]
  {
    if i > 0 {
      var t := s[1..];
      assert t[..i - 1] == s[1..i];
      assert s[0] != x;
      RemoveFirstAt(t, x, i - 1);
      assert s[..i] == [s[0]] + t[..i - 1];
      assert s[i + 1..] == t[i..];
      SeqAssoc([s[0]], t[..i - 1], t[i..]);
    }
  }

  /** The loop of QStringList::removeOne: find the first x and cut it out. */
  method RemoveOne<T(==)>(s: seq<T>, x: T) returns (r: seq<T>)
    ensures r == RemoveFirst(s, x)
  {
    var i := 0;
    while i < |s|
      invariant i <= |s|
      invariant x !in s[..i]
    {
      if s[i] == x {
        RemoveFirstAt(s, x, i);
        return s[..i] + s[i + 1..];
      }
      assert s[..i + 1] == s[..i] + [s[i]];
      i := i + 1;
    }
    assert s[..i] == s;
    return s;
  }

  /** QStringList::removeDuplicates: the first occurrence of each string,
      in order. */
  function Distinct<T(==,!new)>(s: seq<T>): (r: seq<T>)
    ensures forall x :: x in r <==> x in s
    ensures forall i, j :: 0 <= i < j < |r| ==> r[i] != r[j]
    ensures |r| <= |s|
  {
    if |s| == 0 then []
    else
      var front := Distinct(s[..|s| - 1]);
      assert s == s[..|s| - 1] + [s[|s| - 1]];
      if s[|s| - 1] in front then front else front + [s[|s| - 1]]
  }

  /** The loop of QStringList::removeDuplicates: keep a string the first
      time it is seen. */
  method RemoveDuplicates<T(==,!new)>(s: seq<T>) returns (r: seq<T>)
    ensures r == Distinct(s)
  {
    r := [];
    var seen: set<T> := {};
    for i := 0 to |s|
      invariant r == Distinct(s[..i])
      invariant forall x :: x in seen <==> x in r
    {
      assert s[..i + 1][..i] == s[..i];
      if s[i] !in seen {
        r := r + [s[i]];
        seen := seen + {s[i]};
      }
    }
    assert s[..|s|] == s;
  }

  /** Removing the first x and then the duplicates keeps x only when it
      occurred twice or more, keeps every other element, and leaves no
      element twice. */
  lemma RemoveThenDistinct<T(!new)>(s: seq<T>, x: T)
    ensures x in Distinct(RemoveFirst(s, x)) <==> multiset(s)[x] >= 2
    ensures forall y :: y != x ==> (y in Distinct(RemoveFirst(s, x)) <==> y in s)
  {
    var removed := RemoveFirst(s, x);
    forall y | y != x
      ensures y in removed <==> y in s
    {
      assert multiset(removed)[y] == multiset(s)[y];
    }
  }

  /** The "*.hdr" filter. */
  function Hdr(): string {
    "*.hdr"
  }

  /** The filters loadItems hands to the folder scan. */
  function Filters(formats: seq<DataFormat>): seq<string> {
    Distinct(RemoveFirst(RawFilters(formats), Hdr()))
  }

  /** The "*.hdr" filter survives only when two or more formats'
      extension lists give it, since only its first occurrence is removed;
      every other filter of a format stays, once. */
  lemma HdrOnlyWhenRepeated(formats: seq<DataFormat>)
    ensures Hdr() in Filters(formats) <==> multiset(RawFilters(formats))[Hdr()] >= 2
    ensures forall p :: p != Hdr() ==> (p in Filters(formats) <==> p in RawFilters(formats))
    ensures forall i, j :: 0 <= i < j < |Filters(formats)| ==> Filters(formats)[i] != Filters(formats)[j]
  {
    RemoveThenDistinct(RawFilters(formats), Hdr());
  }

  /** The filters of one format's extensions appended to the list. */
  method AddPatterns(filters: seq<string>, exts: seq<string>) returns (next: seq<string>)
    ensures next == filters + Patterns(exts)
  {
    next := filters;
    for j := 0 to |exts|
      invariant next == filters + Patterns(exts[..j])
    {
      assert Patterns(exts[..j + 1]) == Patterns(exts[..j]) + [Pattern(exts[j])];
      SeqAssoc(filters, Patterns(exts[..j]), [Pattern(exts[j])]);
      next := next + [Pattern(exts[j])];
    }
    assert exts[..|exts|] == exts;
  }

  /** The filter loops of loadItems over the formats and their
      extensions. */
  method CollectFilters(formats: seq<DataFormat>) returns (filters: seq<string>)
    ensures filters == RawFilters(formats)
  {
    filters := [];
    for i := 0 to |formats|
      invariant filters == RawFilters(formats[..i])
    {
      filters := AddPatterns(filters, Extensions(formats[i]));
      RawFiltersSnoc(formats, i);
    }
    assert formats[..|formats|] == formats;
  }

  /** One more format adds the filters of its extensions. */
  lemma RawFiltersSnoc(formats: seq<DataFormat>, i: nat)
    requires i < |formats|
    ensures RawFilters(formats[..i + 1]) == RawFilters(formats[..i]) + Patterns(Extensions(formats[i]))
  {
    assert formats[..i + 1][..i] == formats[..i];
  }

  /** The filters of loadItems: collected, then removeOne("*.hdr") and
      removeDuplicates. */
  method BuildFilters(formats: seq<DataFormat>) returns (filters: seq<string>)
    ensures filters == Filters(formats)
  {
    filters := CollectFilters(formats);
    filters := RemoveOne(filters, Hdr());
    filters := RemoveDuplicates(filters);
  }

  // ---- extendedType ----

  /** The extended type of a file with suffix ext: `unknown` (itUNKNOWN)
      or-ed with the extended type of every format whose key is ext. */
  function ExtendedType(formats: seq<DataFormat>, ext: string, unknown: IlwisTypes): (types: IlwisTypes)
  {
    if |formats| == 0 then unknown
    else
      var before := ExtendedType(formats[..|formats| - 1], ext, unknown);
      var last := formats[|formats| - 1];
      if last.key == ext then before + last.extendedType else before
  }

  /** A bit is set in the extended type exactly when it is set in
      itUNKNOWN or in the type of a format whose key is the suffix; with
      no such format the type is itUNKNOWN. */
  lemma {:induction false} ExtendedTypeIsUnion(formats: seq<DataFormat>, ext: string, unknown: IlwisTypes)
    ensures forall bit :: bit in ExtendedType(formats, ext, unknown) <==>
              bit in unknown || exists k :: 0 <= k < |formats| && formats[k].key == ext && bit in formats[k].extendedType
    ensures (forall k :: 0 <= k < |formats| ==> formats[k].key != ext) ==> ExtendedType(formats, ext, unknown) == unknown
  {
    if |formats| > 0 {
      var front := formats[..|formats| - 1];
      var last := formats[|formats| - 1];
      ExtendedTypeIsUnion(front, ext, unknown);
      assert forall k :: 0 <= k < |front| ==> front[k] == formats[k];
      forall bit | bit in ExtendedType(formats, ext, unknown)
        ensures bit in unknown || exists k :: 0 <= k < |formats| && formats[k].key == ext && bit in formats[k].extendedType
      {
        if bit !in ExtendedType(front, ext, unknown) {
          assert formats[|formats| - 1] == last;
        }
      }
      forall bit, k | 0 <= k < |formats| && formats[k].key == ext && bit in formats[k].extendedType
        ensures bit in ExtendedType(formats, ext, unknown)
      {
        if k < |front| {
          assert front[k] == formats[k];
        }
      }
    }
  }

  /** extendedType's loop over the formats whose key is ext. */
  method ExtendedTypeOf(formats: seq<DataFormat>, ext: string, unknown: IlwisTypes) returns (types: IlwisTypes)
    ensures types == ExtendedType(formats, ext, unknown)
  {
    types := unknown;
    for i := 0 to |formats|
      invariant types == ExtendedType(formats[..i], ext, unknown)
    {
      assert formats[..i + 1][..i] == formats[..i];
      if formats[i].key == ext {
        types := types + formats[i].extendedType;
      }
    }
    assert formats[..|formats|] == formats;
  }

  // ---- canUse ----

  datatype Url = Url(scheme: string, path: string)

  /** A catalog resource: its URL, its IlwisTypes type and its name. */
  datatype Resource = Resource(url: Url, ilwisType: IlwisTypes, name: string)

  /** What QFileInfo tells of a local path. */
  datatype FileInfo = FileInfo(onDisk: bool, isDir: bool, isRoot: bool,
                               absoluteFilePath: string, fileName: string, suffix: string)

  /** QUrl::toLocalFile: the path of a file URL, nothing for another
      scheme. */
  function LocalFile(url: Url): (path: string)
    ensures url.scheme == "file" ==> path == url.path
    ensures url.scheme != "file" ==> path == ""
  {
    if url.scheme == "file" then url.path else ""
  }

  /** canUse: only a catalog resource, of a file URL, naming a folder;
      `info` is what the file system says of a path, `catalog` is
      itCATALOG. */
  function CanUse(resource: Resource, catalog: IlwisTypes, info: string -> FileInfo): (usable: bool)
    ensures usable ==> resource.ilwisType == catalog && resource.url.scheme == "file"
    ensures resource.ilwisType == catalog && resource.url.scheme == "file" ==>
              (usable <==> info(resource.url.path).isDir)
  {
    if resource.ilwisType != catalog then false
    else if resource.url.scheme != "file" then false
    else info(LocalFile(resource.url)).isDir
  }

  // ---- loadItems ----

  /** What loadItems asks of the rest of the system: whether a URL is
      already registered as a raster or a feature coverage, what the file
      system says of a path, the resources GDALItems makes of a file with
      its extended type, whether the GDAL library is valid, and the codes
      itUNKNOWN and itCATALOG. */
  datatype Context = Context(registered: Url -> bool, info: string -> FileInfo,
                             gdalItems: (Url, FileInfo, IlwisTypes) -> seq<Resource>,
                             gdalValid: bool, unknown: IlwisTypes, catalog: IlwisTypes)

  /** The resources one URL of the folder scan gives. */
  function FileItems(ctx: Context, formats: seq<DataFormat>, url: Url): seq<Resource> {
    if ctx.registered(url) then []
    else
      var file := ctx.info(LocalFile(url));
      if !file.onDisk then []
      else if !file.isDir then ctx.gdalItems(url, file, ExtendedType(formats, file.suffix, ctx.unknown))
      else [Resource(url, ctx.catalog, if file.isRoot then file.absoluteFilePath else file.fileName)]
  }

  /** The resources of the first URLs of the scan, in scan order. */
  function LoadedItems(ctx: Context, formats: seq<DataFormat>, files: seq<Url>): seq<Resource> {
    if |files| == 0 then []
    else LoadedItems(ctx, formats, files[..|files| - 1]) + FileItems(ctx, formats, files[|files| - 1])
  }

  /** The URLs of the scan not yet registered. */
  function Unregistered(ctx: Context, files: seq<Url>): (kept: seq<Url>)
    ensures forall u :: u in kept <==> u in files && !ctx.registered(u)
  {
    if |files| == 0 then []
    else
      var front := Unregistered(ctx, files[..|files| - 1]);
      var last := files[|files| - 1];
      assert forall u :: u in files <==> u in files[..|files| - 1] || u == last;
      if ctx.registered(last) then front else front + [last]
  }

  /** Registered URLs contribute nothing: loading the scan is loading its
      unregistered URLs. */
  lemma {:induction false} RegisteredSkipped(ctx: Context, formats: seq<DataFormat>, files: seq<Url>)
    ensures LoadedItems(ctx, formats, files) == LoadedItems(ctx, formats, Unregistered(ctx, files))
  {
    if |files| > 0 {
      var front := files[..|files| - 1];
      var last := files[|files| - 1];
      RegisteredSkipped(ctx, formats, front);
      var kept := Unregistered(ctx, front);
      if ctx.registered(last) {
        AppendEmpty(LoadedItems(ctx, formats, front));
      } else {
        assert (kept + [last])[..|kept|] == kept;
      }
    }
  }

  /** A folder the scan finds, of a file URL not yet registered, becomes
      one catalog resource that canUse accepts. */
  lemma FolderIsExplorable(ctx: Context, formats: seq<DataFormat>, url: Url)
    requires url.scheme == "file" && !ctx.registered(url)
    requires ctx.info(url.path).onDisk && ctx.info(url.path).isDir
    ensures |FileItems(ctx, formats, url)| == 1
    ensures CanUse(FileItems(ctx, formats, url)[0], ctx.catalog, ctx.info)
  {
  }

  /** The body of loadItems' loop for one URL: nothing for a URL already
      registered or a file that does not exist, the GDAL items of a file,
      the catalog resource of a folder (named by its absolute path when it
      is a root). */
  method LoadUrl(ctx: Context, formats: seq<DataFormat>, url: Url) returns (found: seq<Resource>)
    ensures found == FileItems(ctx, formats, url)
  {
    found := [];
    if !ctx.registered(url) {
      var file := ctx.info(LocalFile(url));
      if file.onDisk {
        if !file.isDir {
          var types := ExtendedTypeOf(formats, file.suffix, ctx.unknown);
          found := ctx.gdalItems(url, file, types);
        } else {
          var filename := if file.isRoot then file.absoluteFilePath else file.fileName;
          found := [Resource(url, ctx.catalog, filename)];
        }
      }
    }
  }

  /** push_back of each resource in turn. */
  method PushAll(list: seq<Resource>, more: seq<Resource>) returns (next: seq<Resource>)
    ensures next == list + more
  {
    next := list;
    for j := 0 to |more|
      invariant next == list + more[..j]
    {
      assert more[..j + 1] == more[..j] + [more[j]];
      SeqAssoc(list, more[..j], [more[j]]);
      next := next + [more[j]];
    }
    assert more[..|more|] == more;
  }

  /** loadItems: the filters, then for each URL the folder scan gives
      (`files`), its GDAL items or its folder resource. The output is the
      set of GDAL items, which stays empty, followed by these resources;
      with an invalid GDAL library the output is empty. */
  method LoadItems(ctx: Context, formats: seq<DataFormat>, files: seq<Url>)
      returns (filters: seq<string>, output: seq<Resource>)
    ensures filters == Filters(formats)
    ensures !ctx.gdalValid ==> output == []
    ensures ctx.gdalValid ==> output == LoadedItems(ctx, formats, files)
  {
    filters := BuildFilters(formats);
    if !ctx.gdalValid {
      return filters, [];
    }
    var folders: seq<Resource> := [];
    for i := 0 to |files|
      invariant folders == LoadedItems(ctx, formats, files[..i])
    {
      assert files[..i + 1][..i] == files[..i];
      var found := LoadUrl(ctx, formats, files[i]);
      folders := PushAll(folders, found);
    }
    assert files[..|files|] == files;
    var items: seq<Resource> := [];
    output := PushAll(items, folders);
    AppendEmpty(folders);
  }
}
