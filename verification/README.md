# userscript-bundler in Dafny

A model of the core of `@kellnerd/userscript-bundler`, a build tool that turns userscripts
into installable `.user.js` files and writes a README listing them. The model covers three
parts:

- **The metadata block** (`src/userscriptMetadata.js`). The per-script defaults come from
  the git repository: author, namespace, the download, update and support links, a
  date-based version and `grant none`. The script's own declaration overrides them. The
  homepage is then recomputed as the link to the script's README section. The record is
  rendered between `// ==UserScript==` and `// ==/UserScript==`, field by field in the fixed
  `metadataOrder`, with every field name padded to the longest name of that list. The
  module also models the URL-rule helpers `createURLRuleRegex` and
  `createMusicBrainzURLRule`.
- **The repository** (`GitRepo` in `src/github.js`). Owner and repository name are parsed
  from the pathname of the repository URL with `^\/([^/]+)\/([^/]+?)(?:\.git|$)`. The model
  also covers the links built from them: the repository URL, the issue tracker, README
  section links, the userscript path (`path.posix.join`), the raw URL, and the
  Install/Source badges.
- **The README loop** (`src/build.js` lines 53-90). This is one section per userscript:
  heading, description, features, badges, and the bookmarklet of the same name if there
  is one, which is then deleted. After that come the bookmarklets no userscript claimed.

Modules:

| file | module | contents |
|---|---|---|
| `results.dfy` | `Results` | `Option`, `Result` |
| `text.dfy` | `Text` | `Array.join`, `String.split` on one character, `padEnd`, decimal numbers |
| `posix_path.dfy` | `PosixPath` | `path.posix.join` / `normalize` |
| `github.dfy` | `GitHub` | `GitRepo` and its links |
| `userscript_metadata.dfy` | `UserscriptMetadata` | defaults, merge, rendering, URL rules |
| `build.dfy` | `Build` | the README loop, as a sequence of tagged chunks, one per `readme.write` |

The README is modelled as a sequence of `Chunk`s, one per `readme.write` call.
`Build.Writes` maps each chunk to the string passed to that call, and the layout of a
section and of a bookmarklet entry is stated on those strings. Counting statements such
as "each bookmarklet's code is written once" are made on the tagged chunks, so that two
bookmarklets with equal code are still told apart. When `forEach` throws, the error
carries the chunks written up to that point. The bookmarklets object is a sequence of (file name, code)
pairs with distinct names. The sequence order is the object's insertion order: every key
ends in ".js", so no key is integer-like.

Loading a declaration, `extractDocumentation`, `camelToTitleCase`, `slugify`, the name
formatter and `relevantSourceFile` are function parameters. The current date enters as
year, month index and day.

## Model

| member | source | states |
|---|---|---|
| UserscriptMetadata.MetadataOrderWellFormed | src/userscriptMetadata.js:6-30 | the 23 rendered field names are pairwise distinct, non-empty, at most 13 characters, without space or line break |
| UserscriptMetadata.MaxKeyLengthIsLongest | src/userscriptMetadata.js:40 | the padding width 13 bounds every name in the order, and "exclude-match" reaches it, so it is `Math.max` of the lengths |
| UserscriptMetadata.PreferArray | src/userscriptMetadata.js:63 | an array field gives its values, a single value becomes a one-element array |
| UserscriptMetadata.TruthyValues | src/userscriptMetadata.js:64 | the kept values are exactly the truthy ones (empty strings and `false` dropped), never more than before |
| UserscriptMetadata.TruthyValuesAppend | src/userscriptMetadata.js:63-64 | filtering distributes over concatenation, so the order of the values is kept |
| UserscriptMetadata.RenderBlock | src/userscriptMetadata.js:62-71 | the block starts with the opening delimiter line and ends with the closing delimiter followed by a line break |
| UserscriptMetadata.ParseFormatLine | src/userscriptMetadata.js:65 | a line `// @key<padding> value` is one line and reads back as its field and value; `true` renders as an empty value |
| UserscriptMetadata.RenderBlockRoundTrip | src/userscriptMetadata.js:62-71 | for single-line values, splitting the block and reading each line back gives exactly the rendered entries |
| UserscriptMetadata.LinesPerKey | src/userscriptMetadata.js:62-66 | a listed field contributes one line per truthy value, in array order; an unlisted field contributes nothing |
| UserscriptMetadata.EntriesFollowKeyOrder | src/userscriptMetadata.js:62-66 | every line belongs to a listed field, and lines appear in `metadataOrder` order, whatever order the record was built in |
| UserscriptMetadata.Version | src/userscriptMetadata.js:55 | the version splits at '.' into the year, the 1-based month and the day |
| UserscriptMetadata.VersionRoundTrip | src/userscriptMetadata.js:55 | the version parses back to (year, month index + 1, day), and no part is zero-padded |
| UserscriptMetadata.MergedMetadata | src/userscriptMetadata.js:53-58 | the merged record has the default fields and the declared ones; a declared field wins; `version` and `grant` are the computed date and `none` unless declared |
| UserscriptMetadata.FinalMetadata | src/userscriptMetadata.js:43-60 | the fields are the declared ones plus the defaults; `homepageURL` is the README section link of the merged record; every other declared field wins over its default; undeclared defaults stay |
| UserscriptMetadata.GenerateMetadataBlock | src/userscriptMetadata.js:37-72 | the generated text is framed by the two delimiter lines, with a final line break |
| UserscriptMetadata.GeneratedBlockReadsBack | src/userscriptMetadata.js:37-72 | the generated block reads back as the entries of the final record, in field order |
| UserscriptMetadata.HomepageIsReadmeSection | src/userscriptMetadata.js:60 | `homepageURL` renders as exactly one line: the README section link, whatever the declaration sets |
| UserscriptMetadata.DeclaredFieldWins | src/userscriptMetadata.js:53-58 | a declared field other than `homepageURL` renders its declared truthy values only, and nothing if the field is not in the order |
| UserscriptMetadata.UndeclaredDefaultRendered | src/userscriptMetadata.js:43-56 | an undeclared field with a default renders exactly one line holding that default (owner, repository URL, raw URL, issue tracker, version, `none`) |
| UserscriptMetadata.CreateURLRuleRegex | src/userscriptMetadata.js:90-104 | the rule is `/^https?://` and the domain-and-path pattern, then the query group unless `allowQuery` is false, then the fragment group unless `allowFragment` is false, then `$/` |
| UserscriptMetadata.URLRuleOptionsDistinct | src/userscriptMetadata.js:90-104 | equal rules for the same pattern have the same effective options: both options can be read back from the rule |
| UserscriptMetadata.CreateMusicBrainzURLRule | src/userscriptMetadata.js:110-112 | the rule covers musicbrainz.org with optional beta/test subdomain, then the path, and allows query and fragment |
| UserscriptMetadata.MusicBrainzRulePath | src/userscriptMetadata.js:110-112 | the path pattern can be read back from the rule, so different paths give different rules |
| GitHub.IndexOf | src/github.js:20 | the first position of the character, or proof that it does not occur (the `[^/]+` owner group) |
| GitHub.FindNameEnd | src/github.js:20 | the lazy `+?` group takes the shortest slash-free name followed by ".git" or the end; `None` when there is none |
| GitHub.ParsePathname | src/github.js:20 | a result is a match of the pattern with exactly those groups; no result means no owner and name match at all |
| GitHub.PathMatchUnique | src/github.js:20 | the pattern determines owner and name uniquely |
| GitHub.NameStopsAtGit | src/github.js:20 | since ".git" is not anchored to the end, anything after it is ignored: "/o/a.github.io" parses with name "a" |
| GitHub.NewGitRepo | src/github.js:15-29 | success carries the matched owner and name (both non-empty), the URL's host and the options or their defaults `main` and `dist`; failure is "Malformed git repo URL" exactly when nothing matches |
| GitHub.RepoUrlRoundTrip | src/github.js:31-33 | the repository URL is `https://` + host + `/owner/name`, and its pathname parses back to the same owner and name |
| GitHub.RepoUrl | src/github.js:31-33 | the repository URL is an https URL on the repository's host whose last segment is the repository name |
| GitHub.SupportUrl | src/github.js:35-37 | the issue tracker is the repository URL followed by `/issues` |
| GitHub.ReadmeSectionUrl | src/github.js:57-59 | a README section link is the repository URL with the slug of the formatted name as fragment |
| GitHub.DefaultDistributionPathPlain | src/github.js:17 | the default distribution directory `dist` is a plain relative path |
| PosixPath.Join2 | src/github.js:66 | `path.posix.join` of a plain directory and an ordinary file name is the two joined with '/' |
| GitHub.UserscriptPath | src/github.js:65-67 | for a plain distribution path and a slash-free base name, the path is `dir/base.user.js` |
| GitHub.UserscriptRawUrl | src/github.js:73-75 | the raw URL starts with `https://raw.`; after it, the '/'-segments are the host, owner and repository, then the branch's own segments (a branch such as `release/1.0` gives two), then the userscript path's segments |
| GitHub.SourceAndInstallButton | src/github.js:81-86 | for a single-line path, the badges are an empty line, the Install badge linking to the path plus `?raw=1`, the Source badge linking to the path, and a final line break |
| Build.DefaultNameFormatter | src/build.js:16-18 | a declared string name is returned unchanged |
| Build.Lookup | src/build.js:66 | `key in bookmarklets`: a found code belongs to that key, and not finding it means the key is absent |
| Build.Delete | src/build.js:73 | `delete`: exactly the entries with other names stay, in their order; deleting an absent name changes nothing |
| Build.FilterOutKeys | src/build.js:73 | removing names keeps the other file names in the object's key order |
| Build.FilterOutTwice | src/build.js:73 | deleting names in two rounds equals deleting their union once |
| Build.FeatureItems | src/build.js:61 | `features?.forEach`: no features give no lines, an array gives one item per value, and a single value makes it throw |
| Build.ScriptSection | src/build.js:55-74 | a section fails exactly when the features cannot be iterated; otherwise it leaves the bookmarklets minus the one named after the script |
| Build.ScriptSectionWrites | src/build.js:59-71 | a section writes the heading, the description, one line per feature and the badges, then, with a bookmarklet of the same name, the note, its documentation and its code block |
| Build.ScriptSectionFailureWrites | src/build.js:59-61 | a section whose features cannot be iterated has written its heading and its description when it throws |
| Build.ScriptSectionShape | src/build.js:59-62 | a section has one heading, the script's formatted name, and only writes code from the bookmarklets |
| Build.ScriptSectionBookmarklet | src/build.js:65-74 | a section writes the code of the same-named bookmarklet when there is one, and no code otherwise |
| Build.ScriptSectionAccounts | src/build.js:65-73 | the code a section writes plus the bookmarklets it leaves are, as a multiset, the bookmarklets it was given |
| Build.UserscriptSections | src/build.js:55-75 | the loop fails exactly when some script's features cannot be iterated; otherwise the remaining bookmarklets are the given ones minus all names claimed by a script |
| Build.UserscriptSectionsFailure | src/build.js:55-61 | a failing loop stops at the first script whose features cannot be iterated, after writing every earlier section in full and that script's heading and description |
| Build.UserscriptSectionsAccount | src/build.js:55-75 | over the loop: the code written plus the bookmarklets left are the bookmarklets given; the headings are the scripts' own, in order; all code comes from the bookmarklets |
| Build.StripJs | src/build.js:82 | `path.basename(name, '.js')` removes a trailing ".js" and nothing else |
| Build.BookmarkletEntry | src/build.js:82-88 | a leftover bookmarklet writes a heading linking its title to its source file, its documentation and its code block, and no other code |
| Build.BookmarkletEntries | src/build.js:81-89 | the remaining bookmarklets' code is written in key order, each with its own code, and no userscript heading is added |
| Build.BookmarkletEntriesLayout | src/build.js:81-89 | three chunks per remaining bookmarklet: the i-th three are exactly the i-th bookmarklet's entry (title-cased heading linking to its source, documentation, code) |
| Build.BookmarkletSection | src/build.js:78-90 | the section is empty exactly when no bookmarklets remain; otherwise it opens with the Bookmarklets heading, followed by each remaining bookmarklet's full entry in key order |
| Build.ReadmeBody | src/build.js:53-90 | the generated part fails exactly when some script's features cannot be iterated, and otherwise opens with the Userscripts heading |
| Build.ReadmeBodyFailure | src/build.js:53-61 | a failed build has written the Userscripts heading, every section before the first script that cannot be iterated, and that script's heading and description, so the headings written are those of the scripts up to it |
| Build.EachBookmarkletOnce | src/build.js:53-90 | every bookmarklet's code is written exactly once in the README, and only bookmarklet code is written |
| Build.BookmarkletsHeadingIffUnclaimed | src/build.js:78-79 | the Bookmarklets heading is written exactly when some bookmarklet has no userscript of the same name |
| Build.LeftoverInKeyOrder | src/build.js:81-88 | the leftover bookmarklets' code is written in the object's key order, skipping the names a script claimed |
| Build.ScriptHeadingsInOrder | src/build.js:55-59 | the userscript headings are the formatted names of the userscripts, one each, in the order given |

## Left out

- Bundling is not modelled: `buildUserscripts`, `buildBookmarklets`, rollup and terser, and the plugin. This is I/O around foreign tools. The list of userscript names and the bookmarklets object are inputs.
- `getCurrentBranch` runs `git` in a child process, so it is left out.
- `GitRepo.fromPackageMetadata` and `loadMetadata` read files or import modules. The repository is built from an already parsed `URL` (href, host, pathname), and `loadMetadata` is the function `metadataOf`.
- The README header, the extra documentation files and the file stream are file I/O. Only the generated middle part (lines 53-90) is modelled, as a sequence of writes.
- `extractDocumentation`, `camelToTitleCase`, `slugify` and `relevantSourceFile` are foreign or file-reading functions. They are abstract function parameters. `extractDocumentation` receives the bookmarklet's file name, which the loop turns into a path with a fixed source directory.
- The clock is replaced by year, month index and day parameters.
- `path.basename(userscriptPath, '.user.js')` is not modelled: the base name is an input. `path.basename(fileName, '.js')` is modelled only for names without a directory part, as `Build.StripJs`, because the bookmarklets object only holds such names.
- `path.posix.join`: `PosixPath.Join2` follows Node's `normalize`. Its properties are proved only for plain paths, the shape of the default `dist` and of typical configurations.
- URLs and regular expressions are represented by their string form. Declared values are strings or booleans; numbers and objects are not modelled.
- The `userscriptNameFormatter` stored in a `GitRepo` is passed alongside it instead, so `GitRepo` stays a plain value.
- Prototype lookups of the `in` operator are not modelled: every key ends in ".js", and no built-in property does.
- DefaultNameFormatter: a name that is not a declared string is returned as JavaScript would stringify it in the heading (`undefined`, or array items joined with commas). The contract speaks only of string names.
- `src/types/UserscriptMetadata.d.ts:9` and `:13` type `name` and `description` as required, but neither `generateMetadataBlock` nor `build` checks them. The model follows the code in both places. In the metadata block a missing `name` or `description` gives no line, because only truthy values are rendered. In the README, `build` writes the text "undefined" in the heading and in the description line.
- `build` closes the README stream only on success (`src/build.js:100`). Closing is I/O and is not modelled.
