/** The README part of `build` (src/build.js): the userscript sections in order, each with
    its bookmarklet when one of the same name exists, then the bookmarklets left over. */
module Build {
  import opened Text
  import opened Results
  import opened GitHub
  import opened UserscriptMetadata

  /** One `readme.write(...)` of the README loop. */
  datatype Chunk =
    | UserscriptsHeading
    | ScriptHeading(title: string)
    | Description(text: string)
    | Feature(item: string)
    | Badges(markdown: string)
    | AlsoBookmarklet
    | Documentation(text: string)
    | Code(fileName: string, code: string)
    | BookmarkletsHeading
    | BookmarkletHeading(title: string, link: string)

  /** A bookmarklet as a fenced JavaScript code block. */
  function CodeSnippet(code: string): string {
    "\n```js\n" + code + "\n```\n"
  }

  /** The text written for a chunk. */
  function ChunkText(c: Chunk): string {
    match c
    case UserscriptsHeading => "\n## Userscripts\n"
    case ScriptHeading(title) => "\n### " + title + "\n"
    case Description(text) => "\n" + text + "\n"
    case Feature(item) => "- " + item + "\n"
    case Badges(markdown) => markdown
    case AlsoBookmarklet => "\nAlso available as a bookmarklet with less features:\n"
    case Documentation(text) => text + "\n"
    case Code(_, code) => CodeSnippet(code)
    case BookmarkletsHeading => "\n## Bookmarklets\n"
    case BookmarkletHeading(title, link) => "\n### [" + title + "](" + link + ")\n"
  }

  /** The strings written to the README, in order. */
  function Writes(chunks: seq<Chunk>): seq<string> {
    seq(|chunks|, i requires 0 <= i < |chunks| => ChunkText(chunks[i]))
  }

  /** The code block gives its code back: strip the fence lines. */
  lemma CodeSnippetFenced(code: string)
    ensures StartsWith(CodeSnippet(code), "\n```js\n")
    ensures EndsWith(CodeSnippet(code), "\n```\n")
    ensures CodeSnippet(code)[7..|CodeSnippet(code)| - 5] == code
  {
  }

  predicate DistinctKeys(bms: seq<(string, string)>) {
    forall i, j :: 0 <= i < j < |bms| ==> bms[i].0 != bms[j].0
  }

  /** The bookmarklets object: file name to code, in insertion order, each name once. */
  type Bookmarklets = bms: seq<(string, string)> | DistinctKeys(bms) witness []

  function Keys(bms: seq<(string, string)>): (ks: seq<string>)
    ensures |ks| == |bms|
    ensures forall i :: 0 <= i < |bms| ==> ks[i] == bms[i].0
  {
    if |bms| == 0 then [] else [bms[0].0] + Keys(bms[1..])
  }

  /** `bookmarklets[key]`, `None` when `key in bookmarklets` is false. */
  function Lookup(bms: Bookmarklets, key: string): (r: Option<string>)
    ensures r.Some? ==> (key, r.value) in bms
    ensures r.None? ==> key !in Keys(bms)
  {
    if |bms| == 0 then None
    else if bms[0].0 == key then Some(bms[0].1)
    else
      var rest: Bookmarklets := bms[1..];
      assert forall k :: k in Keys(rest) ==> k in Keys(bms) by {
        forall k | k in Keys(rest) ensures k in Keys(bms) {
          var i :| 0 <= i < |rest| && Keys(rest)[i] == k;
          assert Keys(bms)[i + 1] == k;
        }
      }
      assert key in Keys(bms) ==> key in Keys(rest) by {
        if key in Keys(bms) {
          var i :| 0 <= i < |bms| && Keys(bms)[i] == key;
          assert Keys(rest)[i - 1] == key;
        }
      }
      Lookup(rest, key)
  }

  /** The names of `ks` that are not in `drop`, in their order in `ks`. */
  function KeepKeys(ks: seq<string>, drop: set<string>): seq<string> {
    if |ks| == 0 then []
    else (if ks[0] in drop then [] else [ks[0]]) + KeepKeys(ks[1..], drop)
  }

  /** The entries whose file name is not in `drop`, in their original order. */
  function FilterOut(bms: Bookmarklets, drop: set<string>): (r: Bookmarklets)
    ensures forall p :: p in r <==> p in bms && p.0 !in drop
  {
    if |bms| == 0 then []
    else
      var rest := FilterOut(bms[1..], drop);
      if bms[0].0 in drop then rest
      else
        assert forall i :: 0 <= i < |rest| ==> rest[i] in bms[1..];
        assert forall i :: 0 <= i < |rest| ==> rest[i].0 != bms[0].0 by {
          forall i | 0 <= i < |rest| ensures rest[i].0 != bms[0].0 {
            var j :| 0 <= j < |bms[1..]| && bms[1..][j] == rest[i];
            assert bms[j + 1] == rest[i];
          }
        }
        [bms[0]] + rest
  }

  /** Filtering keeps the file names that are not dropped in their original order. */
  lemma {:induction false} FilterOutKeys(bms: Bookmarklets, drop: set<string>)
    ensures Keys(FilterOut(bms, drop)) == KeepKeys(Keys(bms), drop)
  {
    if |bms| > 0 {
      var tail: Bookmarklets := bms[1..];
      FilterOutKeys(tail, drop);
      assert Keys(bms)[1..] == Keys(tail);
      if bms[0].0 !in drop {
        assert FilterOut(bms, drop) == [bms[0]] + FilterOut(tail, drop);
        assert Keys([bms[0]] + FilterOut(tail, drop)) == [bms[0].0] + Keys(FilterOut(tail, drop));
      }
    }
  }

  /** Filtering depends only on which of the present file names are dropped. */
  lemma {:induction false} FilterOutSame(bms: Bookmarklets, a: set<string>, b: set<string>)
    requires forall p :: p in bms ==> (p.0 in a <==> p.0 in b)
    ensures FilterOut(bms, a) == FilterOut(bms, b)
  {
    if |bms| > 0 {
      var tail: Bookmarklets := bms[1..];
      assert forall p :: p in tail ==> p in bms;
      FilterOutSame(tail, a, b);
    }
  }

  /** Filtering twice drops the union. */
  lemma {:induction false} FilterOutTwice(bms: Bookmarklets, a: set<string>, b: set<string>)
    ensures FilterOut(FilterOut(bms, a), b) == FilterOut(bms, a + b)
  {
    if |bms| > 0 {
      var tail: Bookmarklets := bms[1..];
      FilterOutTwice(tail, a, b);
      if bms[0].0 !in a {
        assert FilterOut(bms, a)[1..] == FilterOut(tail, a);
      }
    }
  }

  /** Removing one file name takes exactly that name out of the multiset of names. */
  lemma FilterOutCount(bms: Bookmarklets, key: string)
    ensures multiset(Keys(bms)) == multiset(Keys(FilterOut(bms, {key})))
      + (if key in Keys(bms) then multiset{key} else multiset{})
  {
    FilterOutKeys(bms, {key});
    KeepKeysCount(Keys(bms), key);
  }

  /** Among distinct names, keeping all but `key` removes at most that one name. */
  lemma KeepKeysCount(ks: seq<string>, key: string)
    requires forall i, j :: 0 <= i < j < |ks| ==> ks[i] != ks[j]
    ensures multiset(ks) == multiset(KeepKeys(ks, {key}))
      + (if key in ks then multiset{key} else multiset{})
  {
    if key in ks {
      var p :| 0 <= p < |ks| && ks[p] == key;
      assert key !in ks[..p] && key !in ks[p + 1..] by {
        forall j | 0 <= j < |ks| && j != p ensures ks[j] != key { }
      }
      KeepKeysAt(ks, key, p);
      CutAt(ks, p);
    } else {
      KeepKeysAbsent(ks, key);
    }
  }

  /** Cutting one element out of a sequence takes it out of the multiset; stated for a plain
      sequence so that the proof does not see the key lists it is used on. */
  lemma CutAt<T>(s: seq<T>, p: nat)
    requires p < |s|
    ensures multiset(s) == multiset(s[..p] + s[p + 1..]) + multiset{s[p]}
  {
    assert s == s[..p] + [s[p]] + s[p + 1..];
  }

  lemma {:induction false} KeepKeysAbsent(ks: seq<string>, key: string)
    requires key !in ks
    ensures KeepKeys(ks, {key}) == ks
  {
    if |ks| > 0 {
      KeepKeysAbsent(ks[1..], key);
      assert ks == [ks[0]] + ks[1..];
    }
  }

  /** Keeping all but a name that occurs only at position `p` cuts out that position. */
  lemma {:induction false} KeepKeysAt(ks: seq<string>, key: string, p: nat)
    requires p < |ks| && ks[p] == key && key !in ks[..p] && key !in ks[p + 1..]
    ensures KeepKeys(ks, {key}) == ks[..p] + ks[p + 1..]
  {
    if p == 0 {
      KeepKeysAbsent(ks[1..], key);
    } else {
      var tail := ks[1..];
      assert tail[..p - 1] == ks[1..p] && tail[p..] == ks[p + 1..];
      assert key !in tail[..p - 1];
      KeepKeysAt(tail, key, p - 1);
      assert ks[0] != key;
      assert ks[..p] == [ks[0]] + ks[1..p];
    }
  }

  /** The first file name does not come back later. */
  lemma KeyNotInTail(bms: Bookmarklets)
    requires |bms| > 0
    ensures bms[0].0 !in Keys(bms[1..])
  {
  }

  /** `delete bookmarklets[key]`: the other entries stay, in order; deleting an absent key
      changes nothing. */
  function Delete(bms: Bookmarklets, key: string): (r: Bookmarklets)
    ensures forall p :: p in r <==> p in bms && p.0 != key
    ensures Keys(r) == KeepKeys(Keys(bms), {key})
    ensures key !in Keys(bms) ==> r == bms
  {
    if key !in Keys(bms) then
      assert forall p :: p in bms ==> (p.0 in {key} <==> p.0 in {}) by {
        forall p | p in bms ensures p.0 != key {
          var i :| 0 <= i < |bms| && bms[i] == p;
          assert Keys(bms)[i] == p.0;
        }
      }
      FilterOutSame(bms, {key}, {});
      FilterOutNothing(bms);
      FilterOutKeys(bms, {key});
      FilterOut(bms, {key})
    else
      FilterOutKeys(bms, {key});
      FilterOut(bms, {key})
  }

  lemma {:induction false} FilterOutNothing(bms: Bookmarklets)
    ensures FilterOut(bms, {}) == bms
  {
    if |bms| > 0 {
      var tail: Bookmarklets := bms[1..];
      FilterOutNothing(tail);
    }
  }

  /** The collaborators of the loop that the model leaves abstract. */
  datatype Env = Env(
    repo: GitRepo,
    /** `loadMetadata` of the userscript with this base name */
    metadataOf: string -> Metadata,
    formatter: NameFormatter,
    /** `extractDocumentation` of the bookmarklet with this file name */
    extractDocumentation: string -> string,
    camelToTitleCase: string -> string,
    /** `relevantSourceFile` of the bookmarklet with this file name */
    relevantSourceFile: string -> string)

  /** `metadata.features?.forEach` on a value that is not an array throws a TypeError;
      `written` holds what the README stream had been given by then. */
  datatype BuildError = FeaturesNotIterable(baseName: string, written: seq<Chunk>)

  /** `${value}` for a declared value. */
  function JsString(v: Value): string {
    match v
    case Str(s) => s
    case Bool(b) => if b then "true" else "false"
  }

  function JsStrings(vs: seq<Value>): (ss: seq<string>)
    ensures |ss| == |vs|
    ensures forall i :: 0 <= i < |vs| ==> ss[i] == JsString(vs[i])
  {
    if |vs| == 0 then [] else [JsString(vs[0])] + JsStrings(vs[1..])
  }

  /** `${metadata[key]}`: "undefined" when absent, an array joined with commas. */
  function FieldString(m: Metadata, key: string): string {
    if key !in m then "undefined"
    else match m[key]
      case Scalar(v) => JsString(v)
      case Array(vs) => Join(JsStrings(vs), ",")
  }

  /** `defaultNameFormatter`: the declared name, as it is. */
  function DefaultNameFormatter(baseName: string, metadata: Metadata): (name: string)
    ensures forall s :: "name" in metadata && metadata["name"] == Scalar(Str(s)) ==> name == s
  {
    FieldString(metadata, "name")
  }

  /** The feature list of a userscript; `None` when `forEach` would throw. */
  function FeatureItems(m: Metadata): (r: Option<seq<string>>)
    ensures "features" !in m ==> r == Some([])
    ensures r.None? <==> "features" in m && m["features"].Scalar?
    ensures "features" in m && m["features"].Array? ==>
      var vs := m["features"].vs;
      r.Some? && |r.value| == |vs| && forall i :: 0 <= i < |vs| ==> r.value[i] == JsString(vs[i])
  {
    if "features" !in m then Some([])
    else match m["features"]
      case Array(vs) => Some(JsStrings(vs))
      case Scalar(_) => None
  }

  function FeatureChunks(items: seq<string>): (cs: seq<Chunk>)
    ensures |cs| == |items|
    ensures forall i :: 0 <= i < |items| ==> cs[i] == Feature(items[i])
  {
    if |items| == 0 then [] else [Feature(items[0])] + FeatureChunks(items[1..])
  }

  /** The file name of the bookmarklet that goes with a userscript. */
  function BookmarkletFileName(baseName: string): string {
    baseName + ".js"
  }

  /** Heading, description, features and the source and install buttons of a userscript. */
  function SectionHead(env: Env, baseName: string, items: seq<string>): seq<Chunk> {
    var m := env.metadataOf(baseName);
    HeadChunks(env.formatter(baseName, m), FieldString(m, "description"), items, SourceAndInstallButton(env.repo, baseName))
  }

  function HeadChunks(title: string, description: string, items: seq<string>, badges: string): seq<Chunk> {
    [ScriptHeading(title), Description(description)] + FeatureChunks(items) + [Badges(badges)]
  }

  /** What a section has written when its `forEach` throws: the heading and the description. */
  function StartedSection(env: Env, baseName: string): seq<Chunk> {
    var m := env.metadataOf(baseName);
    [ScriptHeading(env.formatter(baseName, m)), Description(FieldString(m, "description"))]
  }

  /** The bookmarklet of the same name, shown inside the userscript's section. */
  function SectionBookmarklet(env: Env, key: string, code: string): seq<Chunk> {
    [AlsoBookmarklet, Documentation(env.extractDocumentation(key)), Code(key, code)]
  }

  /** The section of one userscript: heading, description, features and badges, then its
      bookmarklet if there is one, which is taken out of the remaining bookmarklets. */
  function ScriptSection(env: Env, baseName: string, bms: Bookmarklets): (r: Result<(seq<Chunk>, Bookmarklets), BuildError>)
    ensures r.Failure? <==> FeatureItems(env.metadataOf(baseName)).None?
    ensures r.Success? ==> r.value.1 == Delete(bms, BookmarkletFileName(baseName))
  {
    var m := env.metadataOf(baseName);
    match FeatureItems(m)
    case None => Failure(FeaturesNotIterable(baseName, StartedSection(env, baseName)))
    case Some(items) =>
      var key := BookmarkletFileName(baseName);
      var head := SectionHead(env, baseName, items);
      match Lookup(bms, key)
      case None => Success((head, bms))
      case Some(code) => Success((head + SectionBookmarklet(env, key, code), Delete(bms, key)))
  }

  /** What a userscript's section writes, in order: the heading, the description, one line
      per feature, the source and install buttons, and then, when a bookmarklet of the same
      name exists, the note, its documentation and its code. */
  lemma ScriptSectionWrites(env: Env, baseName: string, bms: Bookmarklets)
    requires ScriptSection(env, baseName, bms).Success?
    ensures var m := env.metadataOf(baseName);
      var items := FeatureItems(m).value;
      var key := BookmarkletFileName(baseName);
      var w := Writes(ScriptSection(env, baseName, bms).value.0);
      && |w| == |items| + (if Lookup(bms, key).Some? then 6 else 3)
      && w[0] == "\n### " + ScriptTitle(env, baseName) + "\n"
      && w[1] == "\n" + FieldString(m, "description") + "\n"
      && (forall i :: 0 <= i < |items| ==> w[2 + i] == "- " + items[i] + "\n")
      && w[|items| + 2] == SourceAndInstallButton(env.repo, baseName)
      && (Lookup(bms, key).Some? ==>
            && w[|items| + 3] == "\nAlso available as a bookmarklet with less features:\n"
            && w[|items| + 4] == env.extractDocumentation(key) + "\n"
            && w[|items| + 5] == CodeSnippet(Lookup(bms, key).value))
  {
    var m := env.metadataOf(baseName);
    var items := FeatureItems(m).value;
    var key := BookmarkletFileName(baseName);
    var title, description, badges := ScriptTitle(env, baseName), FieldString(m, "description"), SourceAndInstallButton(env.repo, baseName);
    var head := HeadChunks(title, description, items, badges);
    assert head == SectionHead(env, baseName, items);
    HeadWrites(title, description, items, badges);
    match Lookup(bms, key)
    case None =>
      assert ScriptSection(env, baseName, bms).value.0 == head;
    case Some(code) =>
      var doc := env.extractDocumentation(key);
      assert ScriptSection(env, baseName, bms).value.0 == head + [AlsoBookmarklet, Documentation(doc), Code(key, code)];
      BookmarkletWrites(head, doc, key, code);
  }

  /** The bookmarklet shown inside a section writes the note, the documentation and the code
      after what came before. */
  lemma BookmarkletWrites(head: seq<Chunk>, doc: string, key: string, code: string)
    ensures var w := Writes(head + [AlsoBookmarklet, Documentation(doc), Code(key, code)]);
      && |w| == |head| + 3
      && (forall i :: 0 <= i < |head| ==> w[i] == Writes(head)[i])
      && w[|head|] == "\nAlso available as a bookmarklet with less features:\n"
      && w[|head| + 1] == doc + "\n"
      && w[|head| + 2] == CodeSnippet(code)
  {
  }

  /** The head of a section writes the heading, the description, one line per feature and
      the badges. */
  lemma HeadWrites(title: string, description: string, items: seq<string>, badges: string)
    ensures var w := Writes(HeadChunks(title, description, items, badges));
      && |w| == |items| + 3
      && w[0] == "\n### " + title + "\n"
      && w[1] == "\n" + description + "\n"
      && (forall i :: 0 <= i < |items| ==> w[2 + i] == "- " + items[i] + "\n")
      && w[|items| + 2] == badges
  {
    var feats := FeatureChunks(items);
    var cs := HeadChunks(title, description, items, badges);
    var w := Writes(cs);
    assert |cs| == |items| + 3;
    assert cs[0] == ScriptHeading(title) && cs[1] == Description(description);
    assert cs[|items| + 2] == Badges(badges);
    forall i | 0 <= i < |items| ensures w[2 + i] == "- " + items[i] + "\n" {
      assert cs[2 + i] == feats[i];
    }
  }

  /** A section whose `forEach` throws has written its heading and its description. */
  lemma ScriptSectionFailureWrites(env: Env, baseName: string, bms: Bookmarklets)
    requires ScriptSection(env, baseName, bms).Failure?
    ensures var e := ScriptSection(env, baseName, bms).error;
      && e.baseName == baseName
      && Writes(e.written) == ["\n### " + ScriptTitle(env, baseName) + "\n",
                               "\n" + FieldString(env.metadataOf(baseName), "description") + "\n"]
  {
  }

  /** The strings a chunk sequence contributes under `pick`, in order. */
  function Collect(chunks: seq<Chunk>, pick: Chunk -> Option<string>): seq<string> {
    if |chunks| == 0 then []
    else (if pick(chunks[0]).Some? then [pick(chunks[0]).value] else []) + Collect(chunks[1..], pick)
  }

  lemma {:induction false} CollectAppend(a: seq<Chunk>, b: seq<Chunk>, pick: Chunk -> Option<string>)
    ensures Collect(a + b, pick) == Collect(a, pick) + Collect(b, pick)
  {
    if |a| > 0 {
      assert (a + b)[0] == a[0];
      assert (a + b)[1..] == a[1..] + b;
      CollectAppend(a[1..], b, pick);
    } else {
      assert a + b == b;
    }
  }

  lemma {:induction false} CollectNone(chunks: seq<Chunk>, pick: Chunk -> Option<string>)
    requires forall i :: 0 <= i < |chunks| ==> pick(chunks[i]).None?
    ensures Collect(chunks, pick) == []
  {
    if |chunks| > 0 {
      CollectNone(chunks[1..], pick);
    }
  }

  function CodeFileOf(c: Chunk): Option<string> {
    if c.Code? then Some(c.fileName) else None
  }

  function TitleOf(c: Chunk): Option<string> {
    if c.ScriptHeading? then Some(c.title) else None
  }

  /** The bookmarklet file names whose code is written, in order. */
  function CodeFiles(chunks: seq<Chunk>): seq<string> {
    Collect(chunks, CodeFileOf)
  }

  /** The userscript headings written, in order. */
  function Titles(chunks: seq<Chunk>): seq<string> {
    Collect(chunks, TitleOf)
  }

  /** A chunk that belongs inside a userscript section. */
  predicate SectionChunk(c: Chunk) {
    !c.UserscriptsHeading? && !c.BookmarkletsHeading? && !c.BookmarkletHeading?
  }

  /** The heading of a userscript: its name as the formatter renders it. */
  function ScriptTitle(env: Env, baseName: string): string {
    env.formatter(baseName, env.metadataOf(baseName))
  }

  /** What one section contributes and what it leaves: the code it writes plus the
      bookmarklets it leaves are the bookmarklets it was given. */
  lemma ScriptSectionAccounts(env: Env, baseName: string, bms: Bookmarklets)
    requires ScriptSection(env, baseName, bms).Success?
    ensures var (out, rest) := ScriptSection(env, baseName, bms).value;
      && multiset(CodeFiles(out)) + multiset(Keys(rest)) == multiset(Keys(bms))
      && rest == FilterOut(bms, {BookmarkletFileName(baseName)})
  {
    var key := BookmarkletFileName(baseName);
    var (out, rest) := ScriptSection(env, baseName, bms).value;
    var present := key in Keys(bms);
    assert rest == FilterOut(bms, {key});
    assert CodeFiles(out) == (if present then [key] else []) by {
      ScriptSectionBookmarklet(env, baseName, bms);
      if Lookup(bms, key).Some? {
        var i :| 0 <= i < |bms| && bms[i] == (key, Lookup(bms, key).value);
        assert Keys(bms)[i] == key;
      }
    }
    FilterOutCount(bms, key);
    CountsAdd(CodeFiles(out), Keys(rest), Keys(bms), key, present);
  }

  /** The multiset arithmetic behind `ScriptSectionAccounts`. */
  lemma CountsAdd(files: seq<string>, restKeys: seq<string>, keys: seq<string>, key: string, present: bool)
    requires files == (if present then [key] else [])
    requires multiset(keys) == multiset(restKeys) + (if present then multiset{key} else multiset{})
    ensures multiset(files) + multiset(restKeys) == multiset(keys)
  {
  }

  /** A section has one userscript heading, its own, and writes only code from `bms`. */
  lemma ScriptSectionShape(env: Env, baseName: string, bms: Bookmarklets)
    requires ScriptSection(env, baseName, bms).Success?
    ensures var out := ScriptSection(env, baseName, bms).value.0;
      && Titles(out) == [ScriptTitle(env, baseName)]
      && (forall c :: c in out ==> SectionChunk(c) && (c.Code? ==> (c.fileName, c.code) in bms))
  {
    var items := FeatureItems(env.metadataOf(baseName)).value;
    var key := BookmarkletFileName(baseName);
    var head := SectionHead(env, baseName, items);
    SectionHeadFacts(env, baseName, items);
    match Lookup(bms, key)
    case None =>
    case Some(code) =>
      var tail := SectionBookmarklet(env, key, code);
      CollectAppend(head, tail, TitleOf);
      SectionBookmarkletFacts(env, key, code);
  }

  /** A userscript's section writes the code of the bookmarklet of the same name, if there
      is one, and no other. */
  lemma ScriptSectionBookmarklet(env: Env, baseName: string, bms: Bookmarklets)
    requires ScriptSection(env, baseName, bms).Success?
    ensures var out := ScriptSection(env, baseName, bms).value.0;
      var key := BookmarkletFileName(baseName);
      && (Lookup(bms, key).Some? ==> CodeFiles(out) == [key] && Code(key, Lookup(bms, key).value) in out)
      && (Lookup(bms, key).None? ==> CodeFiles(out) == [])
  {
    var items := FeatureItems(env.metadataOf(baseName)).value;
    var key := BookmarkletFileName(baseName);
    var head := SectionHead(env, baseName, items);
    SectionHeadFacts(env, baseName, items);
    match Lookup(bms, key)
    case None =>
    case Some(code) =>
      var tail := SectionBookmarklet(env, key, code);
      CollectAppend(head, tail, CodeFileOf);
      SectionBookmarkletFacts(env, key, code);
      assert tail[2] == Code(key, code);
  }

  lemma SectionHeadFacts(env: Env, baseName: string, items: seq<string>)
    ensures CodeFiles(SectionHead(env, baseName, items)) == []
    ensures Titles(SectionHead(env, baseName, items)) == [ScriptTitle(env, baseName)]
    ensures forall c :: c in SectionHead(env, baseName, items) ==> SectionChunk(c) && !c.Code?
  {
    var m := env.metadataOf(baseName);
    HeadChunksFacts(ScriptTitle(env, baseName), FieldString(m, "description"), items, SourceAndInstallButton(env.repo, baseName));
  }

  /** The head of a section has one userscript heading, first, and no code. */
  lemma HeadChunksFacts(title: string, description: string, items: seq<string>, badges: string)
    ensures CodeFiles(HeadChunks(title, description, items, badges)) == []
    ensures Titles(HeadChunks(title, description, items, badges)) == [title]
    ensures forall c :: c in HeadChunks(title, description, items, badges) ==> SectionChunk(c) && !c.Code?
  {
    var rest := [Description(description)] + FeatureChunks(items) + [Badges(badges)];
    var head := [ScriptHeading(title)] + rest;
    assert HeadChunks(title, description, items, badges) == head;
    RestChunksPlain(description, items, badges);
    assert CodeFiles(head) == [] by {
      CollectNone(rest, CodeFileOf);
      assert head[1..] == rest;
    }
    assert Titles(head) == [title] by {
      CollectNone(rest, TitleOf);
      assert head[1..] == rest;
    }
  }

  /** Description, features and badges: no heading and no code among them. */
  lemma RestChunksPlain(description: string, items: seq<string>, badges: string)
    ensures var rest := [Description(description)] + FeatureChunks(items) + [Badges(badges)];
      forall i :: 0 <= i < |rest| ==> rest[i].Description? || rest[i].Feature? || rest[i].Badges?
  {
    var feats := FeatureChunks(items);
    var rest := [Description(description)] + feats + [Badges(badges)];
    forall i | 0 <= i < |rest| ensures rest[i].Description? || rest[i].Feature? || rest[i].Badges? {
      if 0 < i < |rest| - 1 {
        assert rest[i] == feats[i - 1];
      }
    }
  }

  lemma SectionBookmarkletFacts(env: Env, key: string, code: string)
    ensures CodeFiles(SectionBookmarklet(env, key, code)) == [key]
    ensures Titles(SectionBookmarklet(env, key, code)) == []
    ensures forall c :: c in SectionBookmarklet(env, key, code) ==> SectionChunk(c) && (c.Code? ==> c == Code(key, code))
  {
    var tail := SectionBookmarklet(env, key, code);
    CodeLast(tail[..2], key, code);
    assert tail == tail[..2] + [Code(key, code)];
    CollectNone(tail, TitleOf);
  }

  /** Chunks ending in the only code block write that one file. */
  lemma CodeLast(prefix: seq<Chunk>, fileName: string, code: string)
    requires forall i :: 0 <= i < |prefix| ==> !prefix[i].Code?
    ensures CodeFiles(prefix + [Code(fileName, code)]) == [fileName]
  {
    CollectNone(prefix, CodeFileOf);
    CollectAppend(prefix, [Code(fileName, code)], CodeFileOf);
    assert [Code(fileName, code)][1..] == [];
  }


  /** The bookmarklet file names of some userscripts. */
  function ClaimedFiles(names: seq<string>): (r: set<string>)
    ensures forall i :: 0 <= i < |names| ==> BookmarkletFileName(names[i]) in r
    ensures forall f :: f in r ==> exists i :: 0 <= i < |names| && f == BookmarkletFileName(names[i])
  {
    if |names| == 0 then {}
    else
      var rest := ClaimedFiles(names[1..]);
      assert forall f :: f in rest ==> exists i :: 0 <= i < |names| && f == BookmarkletFileName(names[i]) by {
        forall f | f in rest ensures exists i :: 0 <= i < |names| && f == BookmarkletFileName(names[i]) {
          var j :| 0 <= j < |names| - 1 && f == BookmarkletFileName(names[1..][j]);
          assert f == BookmarkletFileName(names[j + 1]);
        }
      }
      {BookmarkletFileName(names[0])} + rest
  }

  /** The headings of the userscripts, in order. */
  function ScriptTitles(env: Env, names: seq<string>): (ts: seq<string>)
    ensures |ts| == |names|
    ensures forall i :: 0 <= i < |names| ==> ts[i] == ScriptTitle(env, names[i])
  {
    if |names| == 0 then [] else [ScriptTitle(env, names[0])] + ScriptTitles(env, names[1..])
  }

  /** Some userscript's features cannot be iterated. */
  predicate SomeFeaturesNotIterable(env: Env, names: seq<string>) {
    exists i :: 0 <= i < |names| && FeatureItems(env.metadataOf(names[i])).None?
  }

  /** The loop over the userscripts: their sections in order, and the bookmarklets that
      no userscript claimed. */
  function UserscriptSections(env: Env, names: seq<string>, bms: Bookmarklets): (r: Result<(seq<Chunk>, Bookmarklets), BuildError>)
    ensures r.Failure? <==> SomeFeaturesNotIterable(env, names)
    ensures r.Success? ==> r.value.1 == FilterOut(bms, ClaimedFiles(names))
    decreases |names|
  {
    if |names| == 0 then
      FilterOutNothing(bms);
      Success(([], bms))
    else
      NotIterableCons(env, names);
      match ScriptSection(env, names[0], bms)
      case Failure(e) => Failure(e)
      case Success((out, rest)) =>
        match UserscriptSections(env, names[1..], rest)
        case Failure(e) => Failure(FeaturesNotIterable(e.baseName, out + e.written))
        case Success((more, left)) =>
          ScriptSectionAccounts(env, names[0], bms);
          FilterOutTwice(bms, {BookmarkletFileName(names[0])}, ClaimedFiles(names[1..]));
          assert {BookmarkletFileName(names[0])} + ClaimedFiles(names[1..]) == ClaimedFiles(names);
          Success((out + more, left))
  }

  lemma NotIterableCons(env: Env, names: seq<string>)
    requires |names| > 0
    ensures SomeFeaturesNotIterable(env, names) <==>
      FeatureItems(env.metadataOf(names[0])).None? || SomeFeaturesNotIterable(env, names[1..])
  {
    if SomeFeaturesNotIterable(env, names[1..]) {
      var j :| 0 <= j < |names| - 1 && FeatureItems(env.metadataOf(names[1..][j])).None?;
      assert FeatureItems(env.metadataOf(names[j + 1])).None?;
    }
    if SomeFeaturesNotIterable(env, names) && FeatureItems(env.metadataOf(names[0])).Some? {
      var j :| 0 <= j < |names| && FeatureItems(env.metadataOf(names[j])).None?;
      assert names[j] == names[1..][j - 1];
    }
  }

  /** The position of the first userscript whose features cannot be iterated. */
  function FirstNotIterable(env: Env, names: seq<string>): (i: nat)
    requires SomeFeaturesNotIterable(env, names)
    ensures i < |names| && FeatureItems(env.metadataOf(names[i])).None?
    ensures forall j :: 0 <= j < i ==> FeatureItems(env.metadataOf(names[j])).Some?
    decreases |names|
  {
    NotIterableCons(env, names);
    if FeatureItems(env.metadataOf(names[0])).None? then 0
    else
      var k := FirstNotIterable(env, names[1..]);
      assert forall j :: 0 < j <= k ==> names[j] == names[1..][j - 1];
      1 + k
  }

  /** One step of the loop, once the first section has been written. */
  lemma UserscriptSectionsStep(env: Env, names: seq<string>, bms: Bookmarklets)
    requires |names| > 0 && ScriptSection(env, names[0], bms).Success?
    ensures var (out, rest) := ScriptSection(env, names[0], bms).value;
      var r := UserscriptSections(env, names[1..], rest);
      && (r.Failure? ==> UserscriptSections(env, names, bms) == Failure(FeaturesNotIterable(r.error.baseName, out + r.error.written)))
      && (r.Success? ==> UserscriptSections(env, names, bms) == Success((out + r.value.0, r.value.1)))
  {
  }

  /** A failing loop stops at the first userscript whose features cannot be iterated, after
      every earlier section was written in full and this one's heading and description. */
  lemma {:induction false} UserscriptSectionsFailure(env: Env, names: seq<string>, bms: Bookmarklets)
    requires UserscriptSections(env, names, bms).Failure?
    ensures var e := UserscriptSections(env, names, bms).error;
      var i := FirstNotIterable(env, names);
      && e.baseName == names[i]
      && UserscriptSections(env, names[..i], bms).Success?
      && e.written == UserscriptSections(env, names[..i], bms).value.0 + StartedSection(env, names[i])
    decreases |names|
  {
    NotIterableCons(env, names);
    if FeatureItems(env.metadataOf(names[0])).None? {
      assert names[..0] == [];
      assert UserscriptSections(env, [], bms) == Success(([], bms));
    } else {
      var rest := ScriptSection(env, names[0], bms).value.1;
      UserscriptSectionsStep(env, names, bms);
      UserscriptSectionsFailure(env, names[1..], rest);
      var k := FirstNotIterable(env, names[1..]);
      PrefixTail(names, k);
      UserscriptSectionsStep(env, names[..k + 1], bms);
    }
  }

  /** Over all sections: the code written plus the bookmarklets left are the bookmarklets
      given; the headings are the userscripts' own, in order; and all code comes from `bms`. */
  lemma UserscriptSectionsAccount(env: Env, names: seq<string>, bms: Bookmarklets)
    requires UserscriptSections(env, names, bms).Success?
    ensures var (out, rest) := UserscriptSections(env, names, bms).value;
      && multiset(CodeFiles(out)) + multiset(Keys(rest)) == multiset(Keys(bms))
      && Titles(out) == ScriptTitles(env, names)
      && (forall c :: c in out ==> SectionChunk(c) && (c.Code? ==> (c.fileName, c.code) in bms))
  {
    UserscriptSectionsCount(env, names, bms);
    UserscriptSectionsTitles(env, names, bms);
    UserscriptSectionsChunks(env, names, bms);
  }

  lemma {:induction false} UserscriptSectionsCount(env: Env, names: seq<string>, bms: Bookmarklets)
    requires UserscriptSections(env, names, bms).Success?
    ensures var (out, rest) := UserscriptSections(env, names, bms).value;
      multiset(CodeFiles(out)) + multiset(Keys(rest)) == multiset(Keys(bms))
    decreases |names|
  {
    if |names| > 0 {
      var (out, rest) := ScriptSection(env, names[0], bms).value;
      var (more, left) := UserscriptSections(env, names[1..], rest).value;
      assert UserscriptSections(env, names, bms).value == (out + more, left);
      UserscriptSectionsCount(env, names[1..], rest);
      ScriptSectionAccounts(env, names[0], bms);
      CollectAppend(out, more, CodeFileOf);
    }
  }

  lemma {:induction false} UserscriptSectionsTitles(env: Env, names: seq<string>, bms: Bookmarklets)
    requires UserscriptSections(env, names, bms).Success?
    ensures Titles(UserscriptSections(env, names, bms).value.0) == ScriptTitles(env, names)
    decreases |names|
  {
    if |names| > 0 {
      var (out, rest) := ScriptSection(env, names[0], bms).value;
      var (more, left) := UserscriptSections(env, names[1..], rest).value;
      assert UserscriptSections(env, names, bms).value == (out + more, left);
      UserscriptSectionsTitles(env, names[1..], rest);
      ScriptSectionShape(env, names[0], bms);
      CollectAppend(out, more, TitleOf);
    }
  }

  lemma {:induction false} UserscriptSectionsChunks(env: Env, names: seq<string>, bms: Bookmarklets)
    requires UserscriptSections(env, names, bms).Success?
    ensures forall c :: c in UserscriptSections(env, names, bms).value.0 ==>
      SectionChunk(c) && (c.Code? ==> (c.fileName, c.code) in bms)
    decreases |names|
  {
    if |names| > 0 {
      var (out, rest) := ScriptSection(env, names[0], bms).value;
      var (more, left) := UserscriptSections(env, names[1..], rest).value;
      assert UserscriptSections(env, names, bms).value == (out + more, left);
      UserscriptSectionsChunks(env, names[1..], rest);
      ScriptSectionShape(env, names[0], bms);
      assert forall p :: p in rest ==> p in bms;
    }
  }

  /** `path.basename(fileName, '.js')` of a file name without directory part. */
  function StripJs(fileName: string): (r: string)
    ensures EndsWith(fileName, ".js") ==> r + ".js" == fileName
    ensures !EndsWith(fileName, ".js") ==> r == fileName
  {
    if EndsWith(fileName, ".js") then fileName[..|fileName| - 3] else fileName
  }

  /** The entry of a bookmarklet that no userscript claimed: a heading that links to its
      source, its documentation and its code, which is the only code it writes. */
  function BookmarkletEntry(env: Env, fileName: string, code: string): (entry: seq<Chunk>)
    ensures Writes(entry) == [
      "\n### [" + env.camelToTitleCase(StripJs(fileName)) + "](" + env.relevantSourceFile(fileName) + ")\n",
      env.extractDocumentation(fileName) + "\n",
      CodeSnippet(code)]
    ensures CodeFiles(entry) == [fileName] && Titles(entry) == []
  {
    var entry := [BookmarkletHeading(env.camelToTitleCase(StripJs(fileName)), env.relevantSourceFile(fileName)),
                  Documentation(env.extractDocumentation(fileName)),
                  Code(fileName, code)];
    CodeLast(entry[..2], fileName, code);
    assert entry == entry[..2] + [Code(fileName, code)];
    CollectNone(entry, TitleOf);
    entry
  }

  /** The entries of the remaining bookmarklets, in the order of the object's keys. */
  function BookmarkletEntries(env: Env, bms: seq<(string, string)>): (cs: seq<Chunk>)
    ensures CodeFiles(cs) == Keys(bms)
    ensures Titles(cs) == []
    ensures forall c :: c in cs && c.Code? ==> (c.fileName, c.code) in bms
  {
    if |bms| == 0 then []
    else
      var entry := BookmarkletEntry(env, bms[0].0, bms[0].1);
      var rest := BookmarkletEntries(env, bms[1..]);
      CollectAppend(entry, rest, CodeFileOf);
      CollectAppend(entry, rest, TitleOf);
      entry + rest
  }

  /** Every remaining bookmarklet gets its full entry: the i-th three chunks of the list are
      the heading, documentation and code of the i-th bookmarklet. */
  lemma {:induction false} BookmarkletEntriesLayout(env: Env, bms: seq<(string, string)>)
    ensures |BookmarkletEntries(env, bms)| == 3 * |bms|
    ensures forall i :: 0 <= i < |bms| ==>
      BookmarkletEntries(env, bms)[3 * i..3 * i + 3] == BookmarkletEntry(env, bms[i].0, bms[i].1)
    decreases |bms|
  {
    if |bms| > 0 {
      var entry := BookmarkletEntry(env, bms[0].0, bms[0].1);
      var rest := BookmarkletEntries(env, bms[1..]);
      BookmarkletEntriesLayout(env, bms[1..]);
      assert BookmarkletEntries(env, bms) == entry + rest;
      EntriesShift(entry, rest, bms, env);
    }
  }

  /** One chunk in front shifts every group of three by one. */
  lemma HeadingShift<T>(h: T, xs: seq<T>, n: nat)
    requires |xs| == 3 * n
    ensures forall i :: 0 <= i < n ==> ([h] + xs)[1 + 3 * i..4 + 3 * i] == xs[3 * i..3 * i + 3]
  {
  }

  /** The entry in front shifts every later entry by three chunks. */
  lemma EntriesShift(entry: seq<Chunk>, rest: seq<Chunk>, bms: seq<(string, string)>, env: Env)
    requires |bms| > 0 && |entry| == 3 && entry == BookmarkletEntry(env, bms[0].0, bms[0].1)
    requires |rest| == 3 * (|bms| - 1)
    requires forall i :: 0 <= i < |bms| - 1 ==> rest[3 * i..3 * i + 3] == BookmarkletEntry(env, bms[1..][i].0, bms[1..][i].1)
    ensures forall i :: 0 <= i < |bms| ==> (entry + rest)[3 * i..3 * i + 3] == BookmarkletEntry(env, bms[i].0, bms[i].1)
  {
    forall i | 0 <= i < |bms|
      ensures (entry + rest)[3 * i..3 * i + 3] == BookmarkletEntry(env, bms[i].0, bms[i].1)
    {
      if i == 0 {
        assert (entry + rest)[..3] == entry;
      } else {
        assert (entry + rest)[3 * i..3 * i + 3] == rest[3 * (i - 1)..3 * (i - 1) + 3];
        assert bms[1..][i - 1] == bms[i];
      }
    }
  }

  /** The bookmarklets section: a heading and the entries, or nothing when none remain. */
  function BookmarkletSection(env: Env, rest: Bookmarklets): (cs: seq<Chunk>)
    ensures cs == [] <==> |rest| == 0
    ensures |rest| > 0 ==> cs[0] == BookmarkletsHeading
    ensures CodeFiles(cs) == Keys(rest)
    ensures Titles(cs) == []
    ensures forall c :: c in cs && c.Code? ==> (c.fileName, c.code) in rest
    ensures |rest| > 0 ==> |cs| == 1 + 3 * |rest|
    ensures forall i :: 0 <= i < |rest| ==> cs[1 + 3 * i..4 + 3 * i] == BookmarkletEntry(env, rest[i].0, rest[i].1)
  {
    if |rest| == 0 then []
    else
      var entries := BookmarkletEntries(env, rest);
      BookmarkletEntriesLayout(env, rest);
      CollectAppend([BookmarkletsHeading], entries, CodeFileOf);
      CollectAppend([BookmarkletsHeading], entries, TitleOf);
      HeadingShift(BookmarkletsHeading, entries, |rest|);
      [BookmarkletsHeading] + entries
  }

  /** The generated part of the README, between the header file and the extra documentation
      files; it fails where `forEach` would throw. */
  function ReadmeBody(env: Env, names: seq<string>, bms: Bookmarklets): (r: Result<seq<Chunk>, BuildError>)
    ensures r.Failure? <==> SomeFeaturesNotIterable(env, names)
    ensures r.Success? ==> |r.value| > 0 && r.value[0] == UserscriptsHeading
  {
    match UserscriptSections(env, names, bms)
    case Failure(e) => Failure(FeaturesNotIterable(e.baseName, [UserscriptsHeading] + e.written))
    case Success((out, rest)) => Success([UserscriptsHeading] + out + BookmarkletSection(env, rest))
  }

  /** Taking a prefix commutes with dropping the first element; a lemma of its own so that
      the failure proofs below do not unfold their sequence terms to find it. */
  lemma PrefixTail<T>(s: seq<T>, k: nat)
    requires k < |s|
    ensures s[..k + 1][0] == s[0] && s[..k + 1][1..] == s[1..][..k]
  {
  }

  /** A failed build has written the Userscripts heading, every section before the first
      userscript whose features cannot be iterated, and that one's heading and description. */
  lemma ReadmeBodyFailure(env: Env, names: seq<string>, bms: Bookmarklets)
    requires ReadmeBody(env, names, bms).Failure?
    ensures var e := ReadmeBody(env, names, bms).error;
      var i := FirstNotIterable(env, names);
      && e.baseName == names[i]
      && UserscriptSections(env, names[..i], bms).Success?
      && e.written == [UserscriptsHeading] + UserscriptSections(env, names[..i], bms).value.0 + StartedSection(env, names[i])
      && Titles(e.written) == ScriptTitles(env, names[..i + 1])
  {
    var i := FirstNotIterable(env, names);
    var e := UserscriptSections(env, names, bms).error;
    UserscriptSectionsFailure(env, names, bms);
    var out := UserscriptSections(env, names[..i], bms).value.0;
    var started := StartedSection(env, names[i]);
    assert ReadmeBody(env, names, bms).error.written == [UserscriptsHeading] + out + started;
    assert Titles([UserscriptsHeading] + out + started) == ScriptTitles(env, names[..i + 1]) by {
      UserscriptSectionsTitles(env, names[..i], bms);
      FailureTitles(out, ScriptTitles(env, names[..i]), ScriptTitle(env, names[i]), FieldString(env.metadataOf(names[i]), "description"));
      ScriptTitlesSnoc(env, names, i);
    }
  }

  lemma ScriptTitlesSnoc(env: Env, names: seq<string>, i: nat)
    requires i < |names|
    ensures ScriptTitles(env, names[..i + 1]) == ScriptTitles(env, names[..i]) + [ScriptTitle(env, names[i])]
  {
    var a := ScriptTitles(env, names[..i + 1]);
    var b := ScriptTitles(env, names[..i]) + [ScriptTitle(env, names[i])];
    assert |a| == |b|;
    forall j | 0 <= j < |a| ensures a[j] == b[j] {
      assert names[..i + 1][j] == names[j];
      if j < i {
        assert names[..i][j] == names[j];
      }
    }
  }

  lemma FailureTitles(out: seq<Chunk>, titles: seq<string>, title: string, description: string)
    requires Titles(out) == titles
    ensures Titles([UserscriptsHeading] + out + [ScriptHeading(title), Description(description)]) == titles + [title]
  {
    var tail := [ScriptHeading(title), Description(description)];
    CollectAppend([UserscriptsHeading], out, TitleOf);
    CollectAppend([UserscriptsHeading] + out, tail, TitleOf);
    assert Titles(tail) == [title] by {
      assert tail[1..][1..] == [];
    }
  }

  /** Each name of distinct names occurs once in their multiset. */
  lemma {:induction false} DistinctOnce(bms: Bookmarklets)
    ensures forall f :: f in Keys(bms) ==> multiset(Keys(bms))[f] == 1
  {
    if |bms| > 0 {
      var tail: Bookmarklets := bms[1..];
      DistinctOnce(tail);
      KeyNotInTail(bms);
      assert Keys(bms) == [bms[0].0] + Keys(tail);
    }
  }

  /** The body splits into the userscript sections and the bookmarklets section. */
  lemma ReadmeBodyParts(env: Env, names: seq<string>, bms: Bookmarklets)
    requires ReadmeBody(env, names, bms).Success?
    ensures var (out, rest) := UserscriptSections(env, names, bms).value;
      var body := ReadmeBody(env, names, bms).value;
      && body == [UserscriptsHeading] + out + BookmarkletSection(env, rest)
      && CodeFiles(body) == CodeFiles(out) + Keys(rest)
      && Titles(body) == Titles(out)
  {
    var (out, rest) := UserscriptSections(env, names, bms).value;
    var tail := BookmarkletSection(env, rest);
    CollectAfterHeading(UserscriptsHeading, out, tail, CodeFileOf);
    CollectAfterHeading(UserscriptsHeading, out, tail, TitleOf);
  }

  lemma CollectAfterHeading(heading: Chunk, a: seq<Chunk>, b: seq<Chunk>, pick: Chunk -> Option<string>)
    requires pick(heading).None?
    ensures Collect([heading] + a + b, pick) == Collect(a, pick) + Collect(b, pick)
  {
    var x := [heading] + a;
    assert x[0] == heading && x[1..] == a;
    assert Collect(x, pick) == Collect(a, pick);
    CollectAppend(x, b, pick);
  }

  /** Every bookmarklet is written exactly once, with its own code, whether inside the
      section of its userscript or among the remaining bookmarklets. */
  lemma EachBookmarkletOnce(env: Env, names: seq<string>, bms: Bookmarklets)
    requires ReadmeBody(env, names, bms).Success?
    ensures var body := ReadmeBody(env, names, bms).value;
      && multiset(CodeFiles(body)) == multiset(Keys(bms))
      && (forall f :: f in Keys(bms) ==> multiset(CodeFiles(body))[f] == 1)
      && (forall c :: c in body && c.Code? ==> (c.fileName, c.code) in bms)
  {
    var (out, rest) := UserscriptSections(env, names, bms).value;
    var body := ReadmeBody(env, names, bms).value;
    ReadmeBodyParts(env, names, bms);
    UserscriptSectionsAccount(env, names, bms);
    var files := CodeFiles(body);
    assert multiset(files) == multiset(CodeFiles(out)) + multiset(Keys(rest));
    assert multiset(files) == multiset(Keys(bms));
    DistinctOnce(bms);
    forall c | c in body && c.Code? ensures (c.fileName, c.code) in bms {
      if c in out {
      } else {
        assert c in BookmarkletSection(env, rest);
      }
    }
  }

  /** Some bookmarklets remain exactly when one of them is unclaimed. */
  lemma RemainIffUnclaimed(env: Env, names: seq<string>, bms: Bookmarklets)
    requires UserscriptSections(env, names, bms).Success?
    ensures |UserscriptSections(env, names, bms).value.1| > 0
      <==> exists i :: 0 <= i < |bms| && bms[i].0 !in ClaimedFiles(names)
  {
    var rest := UserscriptSections(env, names, bms).value.1;
    if |rest| > 0 {
      assert rest[0] in rest;
      var i :| 0 <= i < |bms| && bms[i] == rest[0];
      assert bms[i].0 !in ClaimedFiles(names);
    }
    if exists i :: 0 <= i < |bms| && bms[i].0 !in ClaimedFiles(names) {
      var i :| 0 <= i < |bms| && bms[i].0 !in ClaimedFiles(names);
      assert bms[i] in rest;
    }
  }

  /** The bookmarklets heading is written exactly when bookmarklets remain. */
  lemma HeadingIffRemain(env: Env, names: seq<string>, bms: Bookmarklets)
    requires ReadmeBody(env, names, bms).Success?
    ensures BookmarkletsHeading in ReadmeBody(env, names, bms).value
      <==> |UserscriptSections(env, names, bms).value.1| > 0
  {
    var sections := UserscriptSections(env, names, bms).value;
    var out := sections.0;
    var tail := BookmarkletSection(env, sections.1);
    assert ReadmeBody(env, names, bms).value == [UserscriptsHeading] + out + tail;
    UserscriptSectionsAccount(env, names, bms);
    assert BookmarkletsHeading !in out;
    assert BookmarkletsHeading in tail <==> |sections.1| > 0;
  }

  /** The bookmarklets heading is written exactly when some bookmarklet has no userscript
      of the same name. */
  lemma BookmarkletsHeadingIffUnclaimed(env: Env, names: seq<string>, bms: Bookmarklets)
    requires ReadmeBody(env, names, bms).Success?
    ensures BookmarkletsHeading in ReadmeBody(env, names, bms).value
      <==> exists i :: 0 <= i < |bms| && bms[i].0 !in ClaimedFiles(names)
  {
    HeadingIffRemain(env, names, bms);
    RemainIffUnclaimed(env, names, bms);
  }

  /** The leftover bookmarklets are written in the order of the object's keys, skipping the
      names that a userscript claimed. */
  lemma LeftoverInKeyOrder(env: Env, names: seq<string>, bms: Bookmarklets)
    requires UserscriptSections(env, names, bms).Success?
    ensures CodeFiles(BookmarkletSection(env, UserscriptSections(env, names, bms).value.1))
      == KeepKeys(Keys(bms), ClaimedFiles(names))
  {
    FilterOutKeys(bms, ClaimedFiles(names));
  }

  /** The userscript headings follow the order of the userscripts, one each. */
  lemma ScriptHeadingsInOrder(env: Env, names: seq<string>, bms: Bookmarklets)
    requires ReadmeBody(env, names, bms).Success?
    ensures Titles(ReadmeBody(env, names, bms).value) == ScriptTitles(env, names)
  {
    ReadmeBodyParts(env, names, bms);
    UserscriptSectionsAccount(env, names, bms);
  }

}
