/** The per-entry-point asset lists of the manifest: an entry point's raw
    output files filtered by extension, with hot-update artifacts dropped,
    and each kept file prefixed with the public path. */
module Assets {
  import opened Strings

  /** Marker that the bundler puts in the names of hot-reload artifacts. */
  const HotUpdateMarker: string := ".hot-update."

  /** The two asset lists of an entry point. */
  datatype Kind = Js | Css

  function Extension(kind: Kind): string
  {
    match kind
    case Js => ".js"
    case Css => ".css"
  }

  /** The filter applied to each raw file: the kind's extension, and not a
      hot-update artifact. */
  predicate Keeps(kind: Kind, file: string)
  {
    EndsWith(file, Extension(kind)) && !Contains(file, HotUpdateMarker)
  }

  /** The filter of one kind, as the function value passed to `filter`. */
  function KeepsFn(kind: Kind): string -> bool
  {
    f => Keeps(kind, f)
  }

  /** `files.filter(keep).map(f => publicPath + f)`. Every URL produced
      starts with the public path, and there are never more URLs than raw
      files. */
  function FilterPrefix(files: seq<string>, keep: string -> bool, publicPath: string): (urls: seq<string>)
    ensures |urls| <= |files|
    ensures forall j :: 0 <= j < |urls| ==>
              |publicPath| <= |urls[j]| && urls[j][..|publicPath|] == publicPath
  {
    if files == [] then []
    else if keep(files[0]) then [publicPath + files[0]] + FilterPrefix(files[1..], keep, publicPath)
    else FilterPrefix(files[1..], keep, publicPath)
  }

  /** The `js` list (kind Js) or the `css` list (kind Css) of an entry point
      with the given raw files. */
  function Select(files: seq<string>, kind: Kind, publicPath: string): seq<string>
  {
    FilterPrefix(files, KeepsFn(kind), publicPath)
  }

  /** The `assets` object of one entry point. */
  datatype AssetLists = AssetLists(js: seq<string>, css: seq<string>)

  /** The record stored for one entry point: `{ assets: { js, css } }`. */
  datatype EntryRecord = EntryRecord(assets: AssetLists)

  /** The record built for an entry point from its raw output files. No URL
      is listed both as a script and as a style sheet, and an entry point
      with no files still gets a record, with two empty lists. */
  function RecordFor(files: seq<string>, publicPath: string): (r: EntryRecord)
    ensures forall u :: u in r.assets.js ==> u !in r.assets.css
    ensures files == [] ==> r == EntryRecord(AssetLists([], []))
  {
    NoSharedUrl(files, publicPath);
    EntryRecord(AssetLists(Select(files, Js, publicPath), Select(files, Css, publicPath)))
  }

  /** A URL is listed exactly when it is the public path followed by some raw
      file that the filter keeps. */
  lemma {:induction false} FilterMembership(files: seq<string>, keep: string -> bool, publicPath: string, url: string)
    ensures url in FilterPrefix(files, keep, publicPath) <==>
            exists f :: f in files && keep(f) && url == publicPath + f
  {
    if files != [] {
      FilterMembership(files[1..], keep, publicPath, url);
      assert forall f :: f in files <==> f == files[0] || f in files[1..];
    }
  }

  /** A URL is in the kind's list exactly when it is the public path followed
      by some raw file with the kind's extension that is not a hot-update
      artifact: every such file appears, and no other. */
  lemma SelectMembership(files: seq<string>, kind: Kind, publicPath: string, url: string)
    ensures url in Select(files, kind, publicPath) <==>
            exists f :: f in files && Keeps(kind, f) && url == publicPath + f
  {
    FilterMembership(files, KeepsFn(kind), publicPath, url);
  }

  /** idx lists, in increasing order, the positions in files of the raw files
      that the filter keeps, and urls[j] is the URL made from files[idx[j]]. */
  ghost predicate StableSelection(files: seq<string>, keep: string -> bool, publicPath: string,
                                  urls: seq<string>, idx: seq<nat>)
  {
    && |idx| == |urls|
    && (forall j :: 0 <= j < |idx| ==> idx[j] < |files| && urls[j] == publicPath + files[idx[j]])
    && (forall j, l :: 0 <= j < l < |idx| ==> idx[j] < idx[l])
    && (forall i :: 0 <= i < |files| ==> (keep(files[i]) <==> i in idx))
  }

  /** Filtering is stable and removes no duplicates. */
  lemma {:induction false} FilterOrder(files: seq<string>, keep: string -> bool, publicPath: string) returns (idx: seq<nat>)
    ensures StableSelection(files, keep, publicPath, FilterPrefix(files, keep, publicPath), idx)
  {
    if files == [] {
      idx := [];
    } else {
      var rest := FilterOrder(files[1..], keep, publicPath);
      var tail := FilterPrefix(files[1..], keep, publicPath);
      var shifted := ShiftSelection(files, keep, publicPath, tail, rest);
      if keep(files[0]) {
        idx := [0] + shifted;
        PrependKept(files, keep, publicPath, tail, shifted);
      } else {
        idx := shifted;
      }
    }
  }

  /** The kind's list is stable and removes no duplicates: URL j comes from
      the raw file at position idx[j], the positions increase, and they are
      exactly the positions of the files the kind's filter keeps. */
  lemma SelectOrder(files: seq<string>, kind: Kind, publicPath: string) returns (idx: seq<nat>)
    ensures |idx| == |Select(files, kind, publicPath)|
    ensures forall j :: 0 <= j < |idx| ==>
              idx[j] < |files| && Select(files, kind, publicPath)[j] == publicPath + files[idx[j]]
    ensures forall j, l :: 0 <= j < l < |idx| ==> idx[j] < idx[l]
    ensures forall i :: 0 <= i < |files| ==> (Keeps(kind, files[i]) <==> i in idx)
  {
    idx := FilterOrder(files, KeepsFn(kind), publicPath);
  }

  /** A selection from files[1..], read as positions in files: every
      position moves up by one, and position 0 is not among them. */
  lemma ShiftSelection(files: seq<string>, keep: string -> bool, publicPath: string,
                       tail: seq<string>, rest: seq<nat>) returns (shifted: seq<nat>)
    requires files != []
    requires StableSelection(files[1..], keep, publicPath, tail, rest)
    ensures |shifted| == |tail|
    ensures forall j :: 0 <= j < |shifted| ==>
              1 <= shifted[j] < |files| && tail[j] == publicPath + files[shifted[j]]
    ensures forall j, l :: 0 <= j < l < |shifted| ==> shifted[j] < shifted[l]
    ensures forall i :: 0 <= i < |files| ==> (i in shifted <==> 1 <= i && keep(files[i]))
  {
    shifted := seq(|rest|, j requires 0 <= j < |rest| => rest[j] + 1);
    forall j | 0 <= j < |shifted|
      ensures 1 <= shifted[j] < |files| && tail[j] == publicPath + files[shifted[j]]
    {
      assert files[1..][rest[j]] == files[shifted[j]];
    }
    forall i | 0 <= i < |files|
      ensures i in shifted <==> 1 <= i && keep(files[i])
    {
      ShiftedPosition(files, keep, publicPath, tail, rest, shifted, i);
    }
  }

  /** One position of ShiftSelection's result. */
  lemma ShiftedPosition(files: seq<string>, keep: string -> bool, publicPath: string,
                        tail: seq<string>, rest: seq<nat>, shifted: seq<nat>, i: nat)
    requires files != [] && i < |files|
    requires StableSelection(files[1..], keep, publicPath, tail, rest)
    requires |shifted| == |rest| && forall j :: 0 <= j < |rest| ==> shifted[j] == rest[j] + 1
    ensures i in shifted <==> 1 <= i && keep(files[i])
  {
  }

  /** The selection of a list whose first file is kept: position 0 joins
      the shifted positions of the rest. */
  lemma PrependKept(files: seq<string>, keep: string -> bool, publicPath: string,
                    tail: seq<string>, shifted: seq<nat>)
    requires files != [] && keep(files[0])
    requires |shifted| == |tail|
    requires forall j :: 0 <= j < |shifted| ==>
               1 <= shifted[j] < |files| && tail[j] == publicPath + files[shifted[j]]
    requires forall j, l :: 0 <= j < l < |shifted| ==> shifted[j] < shifted[l]
    requires forall i :: 0 <= i < |files| ==> (i in shifted <==> 1 <= i && keep(files[i]))
    ensures StableSelection(files, keep, publicPath, [publicPath + files[0]] + tail, [0] + shifted)
  {
  }

  /** Filtering distributes over concatenation. */
  lemma {:induction false} FilterAppend(a: seq<string>, b: seq<string>, keep: string -> bool, publicPath: string)
    ensures FilterPrefix(a + b, keep, publicPath) ==
            FilterPrefix(a, keep, publicPath) + FilterPrefix(b, keep, publicPath)
  {
    if a == [] {
      assert a + b == b;
    } else {
      assert (a + b)[0] == a[0];
      assert (a + b)[1..] == a[1..] + b;
      FilterAppend(a[1..], b, keep, publicPath);
    }
  }

  /** The kind's list of two concatenated file lists is the concatenation of
      their lists, so the relative order of the raw file list is kept. */
  lemma SelectAppend(a: seq<string>, b: seq<string>, kind: Kind, publicPath: string)
    ensures Select(a + b, kind, publicPath) == Select(a, kind, publicPath) + Select(b, kind, publicPath)
  {
    FilterAppend(a, b, KeepsFn(kind), publicPath);
  }

  /** No raw file passes both filters: a string cannot end with both ".js"
      and ".css". */
  lemma KindsExclusive(file: string)
    ensures !(Keeps(Js, file) && Keeps(Css, file))
  {
    if EndsWith(file, ".js") && EndsWith(file, ".css") {
      EndsWithAt(file, ".js", 1);
      assert false;
    }
  }

  /** A file that ends with neither extension contributes to neither list. */
  lemma OtherExtensionDropped(files: seq<string>, publicPath: string, file: string)
    requires !EndsWith(file, ".js") && !EndsWith(file, ".css")
    ensures publicPath + file !in Select(files, Js, publicPath)
    ensures publicPath + file !in Select(files, Css, publicPath)
  {
    SelectMembership(files, Js, publicPath, publicPath + file);
    SelectMembership(files, Css, publicPath, publicPath + file);
    forall f | publicPath + f == publicPath + file
      ensures f == file
    {
      PrefixCancel(publicPath, f, file);
    }
  }

  /** The script list and the style-sheet list of an entry point never share
      a URL. */
  lemma NoSharedUrl(files: seq<string>, publicPath: string)
    ensures forall u :: u in Select(files, Js, publicPath) ==> u !in Select(files, Css, publicPath)
  {
    forall u | u in Select(files, Js, publicPath)
      ensures u !in Select(files, Css, publicPath)
    {
      SelectMembership(files, Js, publicPath, u);
      SelectMembership(files, Css, publicPath, u);
      var f :| f in files && Keeps(Js, f) && u == publicPath + f;
      forall g | g in files && Keeps(Css, g)
        ensures u != publicPath + g
      {
        KindsExclusive(g);
        if u == publicPath + g {
          PrefixCancel(publicPath, f, g);
        }
      }
    }
  }

  /** A build's entry point with a main bundle, a chunk, a style sheet and a
      hot-update artifact: under any public path the bundle and the chunk
      are the scripts, the style sheet the only style, and the artifact is
      in neither list. */
  lemma HotUpdateExample(main: string, chunk: string, style: string, hot: string, publicPath: string)
    requires main == "js/app-abc123.js" && chunk == "js/app-abc123.chunk.js"
    requires style == "css/app-abc123.css" && hot == "js/app.hot-update.js"
    ensures RecordFor([main, chunk, style, hot], publicPath)
         == EntryRecord(AssetLists([publicPath + main, publicPath + chunk], [publicPath + style]))
  {
    ScriptKept(main);
    ScriptKept(chunk);
    StyleKept(style);
    HotUpdateDropped(hot);
    ExampleLists(main, chunk, style, hot, publicPath);
  }

  lemma ScriptKept(file: string)
    requires file == "js/app-abc123.js" || file == "js/app-abc123.chunk.js"
    ensures Keeps(Js, file) && !Keeps(Css, file)
  {
    KeptByExtension(file, Js);
  }

  lemma StyleKept(file: string)
    requires file == "css/app-abc123.css"
    ensures !Keeps(Js, file) && Keeps(Css, file)
  {
    KeptByExtension(file, Css);
  }

  lemma HotUpdateDropped(file: string)
    requires file == "js/app.hot-update.js"
    ensures !Keeps(Js, file) && !Keeps(Css, file)
  {
    assert OccursAt(file, HotUpdateMarker, 6);
  }

  /** The two lists of four files that the filters sort as in
      HotUpdateExample. */
  lemma ExampleLists(main: string, chunk: string, style: string, hot: string, publicPath: string)
    requires Keeps(Js, main) && !Keeps(Css, main)
    requires Keeps(Js, chunk) && !Keeps(Css, chunk)
    requires !Keeps(Js, style) && Keeps(Css, style)
    requires !Keeps(Js, hot) && !Keeps(Css, hot)
    ensures Select([main, chunk, style, hot], Js, publicPath) == [publicPath + main, publicPath + chunk]
    ensures Select([main, chunk, style, hot], Css, publicPath) == [publicPath + style]
  {
    SelectFour([main, chunk, style, hot], Js, publicPath);
    SelectFour([main, chunk, style, hot], Css, publicPath);
  }

  /** The selection from a four-file list, file by file. */
  lemma SelectFour(files: seq<string>, kind: Kind, publicPath: string)
    requires |files| == 4
    ensures Select(files, kind, publicPath) ==
            Select([files[0]], kind, publicPath) + Select([files[1]], kind, publicPath) +
            Select([files[2]], kind, publicPath) + Select([files[3]], kind, publicPath)
  {
    FilterFour(files, KeepsFn(kind), publicPath);
  }

  lemma FilterFour(files: seq<string>, keep: string -> bool, publicPath: string)
    requires |files| == 4
    ensures FilterPrefix(files, keep, publicPath) ==
            FilterPrefix([files[0]], keep, publicPath) + FilterPrefix([files[1]], keep, publicPath) +
            FilterPrefix([files[2]], keep, publicPath) + FilterPrefix([files[3]], keep, publicPath)
  {
    var a, b, c, d := [files[0]], [files[1]], [files[2]], [files[3]];
    assert files == a + (b + (c + d));
    FilterAppend(c, d, keep, publicPath);
    FilterAppend(b, c + d, keep, publicPath);
    FilterAppend(a, b + (c + d), keep, publicPath);
  }

  /** A file with one of the two extensions and no letter 'o' is kept by
      that kind's filter only. */
  lemma KeptByExtension(file: string, kind: Kind)
    requires EndsWith(file, Extension(kind)) && 'o' !in file
    ensures Keeps(kind, file)
    ensures !Keeps(if kind == Js then Css else Js, file)
  {
    MarkerHasO(file);
    KindsExclusive(file);
  }

  /** Every name that contains the hot-update marker contains the letter 'o'. */
  lemma MarkerHasO(s: string)
    ensures Contains(s, HotUpdateMarker) ==> 'o' in s
  {
    if Contains(s, HotUpdateMarker) {
      var i :| OccursAt(s, HotUpdateMarker, i);
      assert OccursAt(s, HotUpdateMarker, i);
      assert s[i..i + |HotUpdateMarker|][2] == s[i + 2];
    }
  }
}
