# Manifest generation for the rspack build

This project models `generateManifest`, the function that the rspack manifest
plugin calls once per build to shape the manifest JSON read by the Rails side
(shakapacker). Given a seed record, the list of emitted files and the map from
entry-point name to raw output files, it:

1. takes the seed record, or a fresh empty record when there is no seed, and
   updates it in place;
2. writes `record[file.name] = file.path` for every emitted file, in order, so
   the last file with a given name wins;
3. builds, for each entry point, `{ assets: { js, css } }`: the raw files that
   end in `.js` (resp. `.css`) and do not contain `.hot-update.`, in their
   original order, each prefixed with the public path;
4. stores that table under the key `entrypoints` and returns the record.

Files:

- `strings.dfy` (module `Strings`): `EndsWith` and `Contains`, the meaning of
  JavaScript's `endsWith` and `includes`.
- `assets.dfy` (module `Assets`): the filter-and-prefix step as the pure
  recursive function `FilterPrefix` over any filter, instantiated per kind by
  `Select`, the per-entry record `RecordFor`, and the
  lemmas about them (membership in both directions, stability, no shared URL,
  the worked example with a hot-update artifact).
- `manifest.dfy` (module `ManifestBuilder`): the manifest record as the class
  `Manifest` with a `map` field; the two loops of the source as the methods
  `Manifest.RecordFiles` and `BuildEntrypoints`, each proved against a
  specification function (`WithFiles`, `EntrypointsTable`); the whole
  operation as `GenerateManifest`, which returns the seed object itself, or a
  fresh one when the seed is `null`; and the lemmas about the result
  (`Generated`): last write wins, untouched seed keys survive, every entry point
  gets a record, `entrypoints` always holds the table, and regenerating from
  the generated manifest changes nothing.

The public path (`shakapackerConfig.publicPathWithoutCDN`) is an explicit
string parameter. The manifest's values are `Path(string)` for an emitted file
and `Entrypoints(table)` for the entry-point table. The entry points are given
as a sequence of `EntryPoint(name, files)` in the order `Object.entries`
yields them; the model does not require the names to be distinct, and where a
name repeats the last occurrence wins, as the source's assignment does for
ordinary keys (keys that plain JavaScript objects treat specially, such as
`__proto__`, are the exception noted under "## Left out").

The code updates the caller's seed object in place and returns it
(config/rspack/rspack.config.ts:19, 22, 41); `GenerateManifest` does the same:
it modifies the seed and returns the same object.

## Model

| member | source | states |
|---|---|---|
| `Assets.FilterPrefix` | config/rspack/rspack.config.ts:27-32 | `filter` followed by prefixing with the public path: every URL produced begins with the public path, and there are never more URLs than raw files |
| `Assets.SelectMembership` | config/rspack/rspack.config.ts:27-32 | a URL is in the list iff it is the public path followed by some raw file that ends with the kind's extension and does not contain `.hot-update.`: every such file appears, and no other |
| `Assets.SelectOrder` | config/rspack/rspack.config.ts:27-32 | the filter is stable and keeps duplicates: URL j comes from raw position idx[j], the positions strictly increase, and they are exactly the positions the filter keeps |
| `Assets.SelectAppend` | config/rspack/rspack.config.ts:27-32 | filtering the concatenation of two file lists gives the concatenation of their filtered lists (relative order is kept, nothing is re-sorted) |
| `Assets.KindsExclusive` | config/rspack/rspack.config.ts:28-31 | no raw file passes both the `.js` filter and the `.css` filter |
| `Assets.OtherExtensionDropped` | config/rspack/rspack.config.ts:28-31 | a file ending in neither `.js` nor `.css` (for instance a source map) contributes to neither list |
| `Assets.NoSharedUrl` | config/rspack/rspack.config.ts:27-32 | no URL is listed both in an entry's `js` list and in its `css` list |
| `Assets.RecordFor` | config/rspack/rspack.config.ts:34-39 | an entry's `js` and `css` lists are disjoint, and an empty raw file list gives `{assets: {js: [], css: []}}` |
| `Assets.HotUpdateExample` | config/rspack/rspack.config.ts:27-39 | for `js/app-abc123.js`, `js/app-abc123.chunk.js`, `css/app-abc123.css`, `js/app.hot-update.js` under any public path, the record's `js` list is the bundle and the chunk, its `css` list the style sheet, and the hot-update file is in neither list |
| `ManifestBuilder.Manifest.Empty` | config/rspack/rspack.config.ts:19 | the record used when there is no seed starts with no keys |
| `ManifestBuilder.Manifest.RecordFiles` | config/rspack/rspack.config.ts:21-23 | the loop leaves the record equal to the old record with `name := Path(path)` written for every emitted file in order |
| `ManifestBuilder.Manifest.SetEntrypoints` | config/rspack/rspack.config.ts:41 | the record afterwards is the old record with `entrypoints` set to the table, every other key unchanged |
| `ManifestBuilder.BuildEntrypoints` | config/rspack/rspack.config.ts:25-40 | the loop builds exactly the table that assigns each entry point, in order, the record of its raw files |
| `ManifestBuilder.GenerateManifest` | config/rspack/rspack.config.ts:13-44 | the returned manifest is the seed object itself (a fresh object when the seed is null), and its contents are the files recorded over the seed (or an empty record) followed by the `entrypoints` table |
| `ManifestBuilder.FileLastWriteWins` | config/rspack/rspack.config.ts:21-23 | after the file loop, a name maps to the path of the last emitted file that carries it |
| `ManifestBuilder.UntouchedKeyKept` | config/rspack/rspack.config.ts:21-23 | a key that no emitted file carries is present afterwards iff it was before, with its old value |
| `ManifestBuilder.WithFilesKeys` | config/rspack/rspack.config.ts:21-23 | after the file loop the record's keys are the seed's keys together with every emitted file's name |
| `ManifestBuilder.EveryEntryRecorded` | config/rspack/rspack.config.ts:26-40 | the table's keys are exactly the entry-point names: every entry point gets a record, including one with no files |
| `ManifestBuilder.EntryLastWriteWins` | config/rspack/rspack.config.ts:26-40 | an entry point's name maps to the record built from the files of its last occurrence |
| `ManifestBuilder.EntryLookup` | config/rspack/rspack.config.ts:26-40 | with distinct entry-point names, each name maps to the record built from its own files |
| `ManifestBuilder.EntrypointsKeyHoldsTable` | config/rspack/rspack.config.ts:21-41 | even when an emitted file is named `entrypoints`, the generated manifest holds the table under that key, not the file's path |
| `ManifestBuilder.GeneratedFileEntry` | config/rspack/rspack.config.ts:21-41 | in the generated manifest an emitted file's name other than `entrypoints` maps to the path of the last file with that name |
| `ManifestBuilder.GeneratedSeedKeyKept` | config/rspack/rspack.config.ts:19-41 | a seed key that is neither a file name nor `entrypoints` keeps its value, and no other key appears that the seed lacked |
| `ManifestBuilder.GenerateIdempotent` | config/rspack/rspack.config.ts:19-43 | generating again with the generated manifest as the seed and the same build output gives the same manifest |

## Left out

- `getEntryObject` (config/rspack/rspack.config.ts:46-59): a directory scan through the file system and Node's path helpers; its result reaches the builder only as the entry-point list, which is a parameter here.
- `getModulePaths` (config/rspack/rspack.config.ts:61-70): path resolution over ambient configuration, with no logic of its own.
- The exported rspack configuration and plugin wiring (config/rspack/rspack.config.ts:72-140) and the `process.env` read (line 9): configuration passed to third-party code.
- The manifest plugin itself: when it calls the generator and how it writes the JSON file are foreign code.
- app/javascript/packs/application.tsx: browser bootstrap of the React router; no logic to model.
- The `context` argument of the generator (line 17): never read.
- The shakapacker configuration object: the public path is an explicit parameter instead.
- Keys that plain JavaScript objects treat specially (`__proto__`): the model records them as ordinary keys, while the source's assignment at config/rspack/rspack.config.ts:22 or 34 goes to the inherited `__proto__` setter and records nothing for them in the written JSON (a file named `__proto__` gets no entry, and an entry point named `__proto__` gets no record, so `ManifestBuilder.EveryEntryRecorded`, `ManifestBuilder.Manifest.RecordFiles` and `ManifestBuilder.BuildEntrypoints` describe the source only for other names).
- Key order of JavaScript objects: the manifest and the entry-point table are maps, so the order of keys in the written JSON is not modelled.
- Seed values of arbitrary JSON shape: a seed value is either a path or an entry-point table.
- File descriptor fields other than `name` and `path` (chunk and initial flags and the like): the generator does not read them.
- Falsy seeds other than a missing one: every seed the plugin passes is either an object or absent, and absence is modelled as `null`.
