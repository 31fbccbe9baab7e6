/** The userscript metadata block (src/userscriptMetadata.js): per-script defaults merged
    with the declared metadata, rendered in a fixed field order with aligned keys. */
module UserscriptMetadata {
  import opened Text
  import opened Results
  import opened GitHub

  /** A declared value: a string (or the string form of a URL or RegExp), or a boolean. */
  datatype Value = Str(s: string) | Bool(b: bool)

  /** A field value of type `MaybeArray`. */
  datatype Field = Scalar(v: Value) | Array(vs: seq<Value>)

  /** A metadata record: field name to value; absent keys are `undefined`. */
  type Metadata = map<string, Field>

  /** `userscriptNameFormatter({ baseName, metadata })`. */
  type NameFormatter = (string, Metadata) -> string

  /** One rendered line of the block: a field name and one of its values. */
  datatype Entry = Entry(key: string, value: Value)

  /** `metadataOrder`: the fields that are rendered, in rendering order. */
  const MetadataOrder: seq<string> := [
    "name",
    "version",
    "namespace",
    "author",
    "description",
    "icon",
    "homepageURL",
    "downloadURL",
    "updateURL",
    "supportURL",
    "require",
    "resource",
    "grant",
    "connect",
    "run-at",
    "sandbox",
    "inject-into",
    "noframes",
    "unwrap",
    "match",
    "include",
    "exclude-match",
    "exclude"
  ]

  const HomepageKey: string := "homepageURL"

  /** `maxKeyLength`: every key is padded to this width, whether or not it is present;
      `MaxKeyLengthIsLongest` shows it is the largest length in `MetadataOrder`. */
  const MaxKeyLength: nat := 13

  /** The field names are distinct, single words of at most 13 characters. */
  lemma MetadataOrderWellFormed()
    ensures forall i, j :: 0 <= i < j < |MetadataOrder| ==> MetadataOrder[i] != MetadataOrder[j]
    ensures forall i :: 0 <= i < |MetadataOrder| ==> ValidKey(MetadataOrder[i])
  {
    MetadataOrderDistinct();
    MetadataOrderValid();
  }

  lemma MetadataOrderDistinct()
    ensures forall i, j :: 0 <= i < j < |MetadataOrder| ==> MetadataOrder[i] != MetadataOrder[j]
  {
  }

  lemma MetadataOrderValid()
    ensures forall i :: 0 <= i < |MetadataOrder| ==> ValidKey(MetadataOrder[i])
  {
    KeysValid1();
    KeysValid2();
    KeysValid3();
    KeysValid4();
  }

  /* KeysValid1 to KeysValid4 check the 23 names in batches of six: each is a literal fact
     about a few strings, and one lemma with all of them makes a proof too large to be cheap. */
  lemma KeysValid1()
    ensures ValidKey("name")
    ensures ValidKey("version")
    ensures ValidKey("namespace")
    ensures ValidKey("author")
    ensures ValidKey("description")
    ensures ValidKey("icon")
  {
  }

  lemma KeysValid2()
    ensures ValidKey("homepageURL")
    ensures ValidKey("downloadURL")
    ensures ValidKey("updateURL")
    ensures ValidKey("supportURL")
    ensures ValidKey("require")
    ensures ValidKey("resource")
  {
  }

  lemma KeysValid3()
    ensures ValidKey("grant")
    ensures ValidKey("connect")
    ensures ValidKey("run-at")
    ensures ValidKey("sandbox")
    ensures ValidKey("inject-into")
    ensures ValidKey("noframes")
  {
  }

  lemma KeysValid4()
    ensures ValidKey("unwrap")
    ensures ValidKey("match")
    ensures ValidKey("include")
    ensures ValidKey("exclude-match")
    ensures ValidKey("exclude")
  {
  }

  /** A key the block can hold and give back: non-empty, at most 13 characters, no space or
      line break. */
  predicate ValidKey(k: string) {
    0 < |k| <= 13 && ' ' !in k && '\n' !in k
  }

  /** The padding width is `Math.max` of the field-name lengths: no name is longer, and
      "exclude-match" is exactly that long. */
  lemma MaxKeyLengthIsLongest()
    ensures forall i :: 0 <= i < |MetadataOrder| ==> |MetadataOrder[i]| <= MaxKeyLength
    ensures MetadataOrder[21] == "exclude-match" && |MetadataOrder[21]| == MaxKeyLength
  {
    MetadataOrderWellFormed();
  }

  /** `preferArray(value)`: an array stays as it is, a scalar becomes a singleton. */
  function PreferArray(f: Field): (vs: seq<Value>)
    ensures f.Array? ==> vs == f.vs
    ensures f.Scalar? ==> vs == [f.v]
  {
    match f
    case Scalar(v) => [v]
    case Array(vs) => vs
  }

  /** The values of field `key`, none when it is absent. */
  function FieldValues(m: Metadata, key: string): seq<Value> {
    if key in m then PreferArray(m[key]) else []
  }

  /** JavaScript truthiness: the empty string and `false` are falsy. */
  predicate Truthy(v: Value) {
    match v
    case Str(s) => s != ""
    case Bool(b) => b
  }

  /** `.filter((value) => value)`. */
  function TruthyValues(vs: seq<Value>): (r: seq<Value>)
    ensures |r| <= |vs|
    ensures forall i :: 0 <= i < |r| ==> Truthy(r[i])
    ensures forall v :: v in r <==> v in vs && Truthy(v)
  {
    if |vs| == 0 then []
    else if Truthy(vs[0]) then [vs[0]] + TruthyValues(vs[1..])
    else TruthyValues(vs[1..])
  }

  /** Filtering distributes over concatenation, so it keeps the order of the values. */
  lemma {:induction false} TruthyValuesAppend(vs: seq<Value>, ws: seq<Value>)
    ensures TruthyValues(vs + ws) == TruthyValues(vs) + TruthyValues(ws)
  {
    if |vs| > 0 {
      assert (vs + ws)[1..] == vs[1..] + ws;
      TruthyValuesAppend(vs[1..], ws);
    } else {
      assert vs + ws == ws;
    }
  }

  /** The entries of one field, one per truthy value, in array order. */
  function KeyEntries(m: Metadata, key: string): seq<Entry> {
    EntriesFor(key, TruthyValues(FieldValues(m, key)))
  }

  function EntriesFor(key: string, vs: seq<Value>): (es: seq<Entry>)
    ensures |es| == |vs|
    ensures forall i :: 0 <= i < |es| ==> es[i] == Entry(key, vs[i])
  {
    if |vs| == 0 then [] else [Entry(key, vs[0])] + EntriesFor(key, vs[1..])
  }

  /** `keys.flatMap(...)`: the entries of all fields, field by field. */
  function EntriesOf(m: Metadata, keys: seq<string>): seq<Entry> {
    if |keys| == 0 then [] else KeyEntries(m, keys[0]) + EntriesOf(m, keys[1..])
  }

  /** The value part of a line: `true` prints as nothing, a string as itself. */
  function ValueText(v: Value): string {
    match v
    case Str(s) => s
    case Bool(b) => if b then "" else "false"
  }

  /** `// @${key.padEnd(width)} ${value}`; the block uses `width == MaxKeyLength`. */
  function FormatLine(e: Entry, width: nat): string {
    "// @" + PadEnd(e.key, width) + " " + ValueText(e.value)
  }

  function FormatLines(es: seq<Entry>, width: nat): (lines: seq<string>)
    ensures |lines| == |es|
    ensures forall i :: 0 <= i < |es| ==> lines[i] == FormatLine(es[i], width)
  {
    if |es| == 0 then [] else [FormatLine(es[0], width)] + FormatLines(es[1..], width)
  }

  const OpenDelimiter: string := "// ==UserScript=="
  const CloseDelimiter: string := "// ==/UserScript=="

  /** The block for a final metadata record: the field lines between the delimiters,
      joined by line breaks, with a line break after the closing delimiter. */
  function RenderBlock(m: Metadata): (block: string)
    ensures StartsWith(block, OpenDelimiter + "\n")
    ensures EndsWith(block, "\n" + CloseDelimiter + "\n")
  {
    var lines := [OpenDelimiter] + FormatLines(EntriesOf(m, MetadataOrder), MaxKeyLength) + [CloseDelimiter + "\n"];
    JoinBounds(lines, "\n");
    Join(lines, "\n")
  }

  /** Reads one field line back: the key from its padded column, the value after the
      separating space; an empty value is the flag `true`. */
  function ParseLine(line: string): Option<Entry> {
    if |line| >= 5 + MaxKeyLength && line[..4] == "// @" && line[4 + MaxKeyLength] == ' ' then
      var text := line[5 + MaxKeyLength..];
      Some(Entry(TrimEnd(line[4..4 + MaxKeyLength]), if text == "" then Bool(true) else Str(text)))
    else None
  }

  function ParseLines(lines: seq<string>): Option<seq<Entry>> {
    if |lines| == 0 then Some([])
    else match (ParseLine(lines[0]), ParseLines(lines[1..]))
      case (Some(e), Some(es)) => Some([e] + es)
      case _ => None
  }

  /** Reads a whole block back into its entries. */
  function ParseBlock(block: string): Option<seq<Entry>> {
    var lines := Split(block, '\n');
    if |lines| >= 3 && lines[0] == OpenDelimiter && lines[|lines| - 2] == CloseDelimiter && lines[|lines| - 1] == ""
    then ParseLines(lines[1..|lines| - 2])
    else None
  }

  /** An entry the block renders on one line and gives back unchanged. */
  predicate Renderable(e: Entry) {
    ValidKey(e.key) && Truthy(e.value) && (e.value.Str? ==> '\n' !in e.value.s)
  }

  /** No declared string value spans several lines. */
  predicate SingleLineValues(m: Metadata) {
    forall k, v :: k in m && v in PreferArray(m[k]) && v.Str? ==> '\n' !in v.s
  }

  lemma PadEndSingleLine(s: string, width: nat)
    requires '\n' !in s
    ensures '\n' !in PadEnd(s, width)
  {
    var r := PadEnd(s, width);
    forall i | 0 <= i < |r| ensures r[i] != '\n' {
      if i < |s| { assert r[i] == r[..|s|][i]; }
    }
  }

  /** A line reads back as the entry it was rendered from. */
  lemma ParseFormatLine(e: Entry)
    requires Renderable(e)
    ensures ParseLine(FormatLine(e, MaxKeyLength)) == Some(e)
    ensures '\n' !in FormatLine(e, MaxKeyLength)
  {
    var line := FormatLine(e, MaxKeyLength);
    var padded := PadEnd(e.key, MaxKeyLength);
    assert |padded| == MaxKeyLength;
    assert line[..4] == "// @";
    assert line[4..4 + MaxKeyLength] == padded;
    assert line[4 + MaxKeyLength] == ' ';
    assert line[5 + MaxKeyLength..] == ValueText(e.value);
    TrimPadEnd(e.key, MaxKeyLength);
    PadEndSingleLine(e.key, MaxKeyLength);
  }

  lemma {:induction false} ParseFormatLines(es: seq<Entry>)
    requires forall i :: 0 <= i < |es| ==> Renderable(es[i])
    ensures ParseLines(FormatLines(es, MaxKeyLength)) == Some(es)
    ensures forall i :: 0 <= i < |es| ==> '\n' !in FormatLines(es, MaxKeyLength)[i]
  {
    if |es| > 0 {
      var lines := FormatLines(es, MaxKeyLength);
      ParseFormatLine(es[0]);
      ParseFormatLines(es[1..]);
      assert lines[0] == FormatLine(es[0], MaxKeyLength);
      assert lines[1..] == FormatLines(es[1..], MaxKeyLength);
      assert ParseLines(lines) == Some([es[0]] + es[1..]);
      assert [es[0]] + es[1..] == es;
      forall i | 0 <= i < |es| ensures '\n' !in FormatLines(es, MaxKeyLength)[i] {
        ParseFormatLine(es[i]);
      }
    }
  }

  /** Every entry of valid fields with single-line values is renderable. */
  lemma {:induction false} EntriesRenderable(m: Metadata, keys: seq<string>)
    requires SingleLineValues(m)
    requires forall i :: 0 <= i < |keys| ==> ValidKey(keys[i])
    ensures forall e :: e in EntriesOf(m, keys) ==> Renderable(e)
  {
    if |keys| > 0 {
      EntriesRenderable(m, keys[1..]);
      var vs := TruthyValues(FieldValues(m, keys[0]));
      forall e | e in KeyEntries(m, keys[0]) ensures Renderable(e) {
        var i :| 0 <= i < |vs| && e == Entry(keys[0], vs[i]);
        assert vs[i] in FieldValues(m, keys[0]);
      }
    }
  }

  /** Lines joined by line breaks, the last one ending in a line break, split back into
      the lines and one empty line. */
  lemma {:induction false} SplitFramed(first: string, body: seq<string>, last: string)
    requires '\n' !in first && '\n' !in last
    requires forall i :: 0 <= i < |body| ==> '\n' !in body[i]
    ensures Split(Join([first] + body + [last + "\n"], "\n"), '\n') == [first] + body + [last, ""]
  {
    var front := [first] + body;
    JoinSnoc(front, last + "\n", "\n");
    JoinSnoc(front, last, "\n");
    JoinSnoc(front + [last], "", "\n");
    var lines := front + [last, ""];
    assert lines == front + [last] + [""];
    assert Join(lines, "\n") == Join(front, "\n") + "\n" + last + "\n" + "";
    assert Join(front + [last + "\n"], "\n") == Join(lines, "\n");
    forall i | 0 <= i < |lines| ensures '\n' !in lines[i] {
      if 0 < i <= |body| {
        assert lines[i] == body[i - 1];
      }
    }
    SplitJoin(lines, '\n');
  }

  lemma DelimitersSingleLine()
    ensures '\n' !in OpenDelimiter && '\n' !in CloseDelimiter
  {
  }

  /** A block whose lines are the delimiters around `body` reads back as `body` does. */
  lemma ParseDelimited(block: string, body: seq<string>)
    requires Split(block, '\n') == [OpenDelimiter] + body + [CloseDelimiter, ""]
    ensures ParseBlock(block) == ParseLines(body)
  {
    var lines := [OpenDelimiter] + body + [CloseDelimiter, ""];
    assert lines[0] == OpenDelimiter;
    assert lines[|lines| - 2] == CloseDelimiter;
    assert lines[|lines| - 1] == "";
    assert lines[1..|lines| - 2] == body;
  }

  /** The block is a lossless rendering: reading it back gives exactly the entries, field
      by field in `MetadataOrder`, one per truthy value. */
  lemma RenderBlockRoundTrip(m: Metadata)
    requires SingleLineValues(m)
    ensures ParseBlock(RenderBlock(m)) == Some(EntriesOf(m, MetadataOrder))
  {
    var es := EntriesOf(m, MetadataOrder);
    MetadataOrderWellFormed();
    EntriesRenderable(m, MetadataOrder);
    ParseFormatLines(es);
    var body := FormatLines(es, MaxKeyLength);
    DelimitersSingleLine();
    SplitFramed(OpenDelimiter, body, CloseDelimiter);
    ParseDelimited(RenderBlock(m), body);
  }

  /** The values rendered for field `k`, in order. */
  function ValuesFor(es: seq<Entry>, k: string): seq<Value> {
    if |es| == 0 then []
    else if es[0].key == k then [es[0].value] + ValuesFor(es[1..], k)
    else ValuesFor(es[1..], k)
  }

  lemma {:induction false} ValuesForAppend(a: seq<Entry>, b: seq<Entry>, k: string)
    ensures ValuesFor(a + b, k) == ValuesFor(a, k) + ValuesFor(b, k)
  {
    if |a| > 0 {
      assert (a + b)[1..] == a[1..] + b;
      ValuesForAppend(a[1..], b, k);
    } else {
      assert a + b == b;
    }
  }

  lemma {:induction false} ValuesForEntriesFor(key: string, vs: seq<Value>, k: string)
    ensures ValuesFor(EntriesFor(key, vs), k) == if key == k then vs else []
  {
    if |vs| > 0 {
      ValuesForEntriesFor(key, vs[1..], k);
      assert EntriesFor(key, vs)[1..] == EntriesFor(key, vs[1..]);
    }
  }

  predicate Distinct(keys: seq<string>) {
    forall i, j :: 0 <= i < j < |keys| ==> keys[i] != keys[j]
  }

  /** Each listed field renders one line per truthy value, in array order, and no other
      field renders anything. */
  lemma {:induction false} LinesPerKey(m: Metadata, keys: seq<string>, k: string)
    requires Distinct(keys)
    ensures ValuesFor(EntriesOf(m, keys), k) == if k in keys then TruthyValues(FieldValues(m, k)) else []
  {
    if |keys| > 0 {
      var head, tail := KeyEntries(m, keys[0]), EntriesOf(m, keys[1..]);
      var own := TruthyValues(FieldValues(m, keys[0]));
      assert ValuesFor(EntriesOf(m, keys), k) == ValuesFor(head, k) + ValuesFor(tail, k) by {
        ValuesForAppend(head, tail, k);
      }
      assert ValuesFor(head, k) == if k == keys[0] then own else [] by {
        ValuesForEntriesFor(keys[0], own, k);
      }
      assert Distinct(keys[1..]) by {
        forall i, j | 0 <= i < j < |keys| - 1 ensures keys[1..][i] != keys[1..][j] {
          assert keys[1..][i] == keys[i + 1] && keys[1..][j] == keys[j + 1];
        }
      }
      LinesPerKey(m, keys[1..], k);
      if k == keys[0] {
        assert k !in keys[1..];
      } else {
        assert k in keys <==> k in keys[1..] by {
          assert keys == [keys[0]] + keys[1..];
        }
      }
    }
  }

  /** The position of a field in the rendering order. */
  function Rank(keys: seq<string>, k: string): (r: nat)
    requires k in keys
    ensures r < |keys| && keys[r] == k
  {
    if keys[0] == k then 0 else 1 + Rank(keys[1..], k)
  }

  /** Behind the first field, ranks in `keys` are one more than ranks in the rest. */
  lemma RankTail(keys: seq<string>, k: string)
    requires Distinct(keys) && |keys| > 0 && k in keys[1..]
    ensures k in keys && Rank(keys, k) == 1 + Rank(keys[1..], k)
  {
    var j :| 0 <= j < |keys[1..]| && keys[1..][j] == k;
    assert keys[j + 1] == k;
  }

  /** Every entry belongs to one of the listed fields. */
  lemma {:induction false} EntriesKeysListed(m: Metadata, keys: seq<string>)
    ensures forall i :: 0 <= i < |EntriesOf(m, keys)| ==> EntriesOf(m, keys)[i].key in keys
  {
    if |keys| > 0 {
      var head := KeyEntries(m, keys[0]);
      var tail := EntriesOf(m, keys[1..]);
      var es: seq<Entry> := head + tail;
      EntriesKeysListed(m, keys[1..]);
      forall i | 0 <= i < |es| ensures es[i].key in keys {
        if i < |head| {
          assert es[i] == head[i];
        } else {
          assert es[i] == tail[i - |head|];
          assert tail[i - |head|].key in keys[1..];
        }
      }
    }
  }

  /** One pair of entries: the first field's lines rank 0, the others keep their order. */
  lemma RankOrderedPair(keys: seq<string>, head: seq<Entry>, tail: seq<Entry>, i: nat, j: nat)
    requires Distinct(keys) && |keys| > 0
    requires forall t :: 0 <= t < |head| ==> head[t].key == keys[0]
    requires forall t :: 0 <= t < |tail| ==> tail[t].key in keys[1..]
    requires forall a, b :: 0 <= a <= b < |tail| ==> Rank(keys[1..], tail[a].key) <= Rank(keys[1..], tail[b].key)
    requires i <= j < |head| + |tail|
    ensures (head + tail)[i].key in keys && (head + tail)[j].key in keys
    ensures Rank(keys, (head + tail)[i].key) <= Rank(keys, (head + tail)[j].key)
  {
    var es := head + tail;
    if j >= |head| {
      assert es[j] == tail[j - |head|];
      RankTail(keys, es[j].key);
    }
    if i >= |head| {
      assert es[i] == tail[i - |head|];
      RankTail(keys, es[i].key);
    } else {
      assert es[i] == head[i];
      assert Rank(keys, keys[0]) == 0;
    }
  }

  /** Lines come field by field in the order of `keys`, whatever order the record was
      built in. */
  lemma {:induction false} EntriesFollowKeyOrder(m: Metadata, keys: seq<string>)
    requires Distinct(keys)
    ensures forall i :: 0 <= i < |EntriesOf(m, keys)| ==> EntriesOf(m, keys)[i].key in keys
    ensures forall i, j :: 0 <= i <= j < |EntriesOf(m, keys)| ==>
      Rank(keys, EntriesOf(m, keys)[i].key) <= Rank(keys, EntriesOf(m, keys)[j].key)
  {
    EntriesKeysListed(m, keys);
    if |keys| > 0 {
      var head := KeyEntries(m, keys[0]);
      var tail := EntriesOf(m, keys[1..]);
      var es := EntriesOf(m, keys);
      EntriesFollowKeyOrder(m, keys[1..]);
      assert es == head + tail;
      forall i, j | 0 <= i <= j < |es| ensures Rank(keys, es[i].key) <= Rank(keys, es[j].key) {
        RankOrderedPair(keys, head, tail, i, j);
      }
    }
  }

  /** `[year, month + 1, day].join('.')`: the date-based version, 1-based month. */
  function Version(year: nat, monthIndex: nat, day: nat): (v: string)
    ensures Split(v, '.') == [NatToString(year), NatToString(monthIndex + 1), NatToString(day)]
  {
    var parts := [NatToString(year), NatToString(monthIndex + 1), NatToString(day)];
    forall i | 0 <= i < |parts| ensures '.' !in parts[i] {
      assert AllDigits(parts[i]);
    }
    SplitJoin(parts, '.');
    Join(parts, [ '.' ])
  }

  /** Reads a version `Y.M.D` back into its numbers. */
  function ParseVersion(v: string): Option<(nat, nat, nat)> {
    var parts := Split(v, '.');
    if |parts| == 3 && AllDigits(parts[0]) && AllDigits(parts[1]) && AllDigits(parts[2])
    then Some((ParseNat(parts[0]), ParseNat(parts[1]), ParseNat(parts[2])))
    else None
  }

  /** The version reads back as year, 1-based month and day; no part is zero-padded. */
  lemma VersionRoundTrip(year: nat, monthIndex: nat, day: nat)
    ensures ParseVersion(Version(year, monthIndex, day)) == Some((year, monthIndex + 1, day))
    ensures var parts := Split(Version(year, monthIndex, day), '.');
      forall i :: 0 <= i < |parts| ==> parts[i][0] != '0' || parts[i] == "0"
  {
    ParseNatToString(year);
    ParseNatToString(monthIndex + 1);
    ParseNatToString(day);
    var parts := Split(Version(year, monthIndex, day), '.');
    forall i | 0 <= i < |parts| ensures parts[i][0] != '0' || parts[i] == "0" {
      var n := if i == 0 then year else if i == 1 then monthIndex + 1 else day;
      assert parts[i] == NatToString(n);
    }
  }

  /** `defaultMetadata`: author, namespace and the links, all from the repository. */
  function DefaultMetadata(repo: GitRepo, baseName: string): Metadata {
    map[
      "author" := Scalar(Str(repo.owner)),
      "namespace" := Scalar(Str(RepoUrl(repo))),
      HomepageKey := Scalar(Str("")),
      "downloadURL" := Scalar(Str(UserscriptRawUrl(repo, baseName))),
      "updateURL" := Scalar(Str(UserscriptRawUrl(repo, baseName))),
      "supportURL" := Scalar(Str(SupportUrl(repo)))]
  }

  /** `{ ...defaultMetadata, version, grant: 'none' }`: everything a declaration can override. */
  function BaseMetadata(repo: GitRepo, baseName: string, version: string): Metadata {
    DefaultMetadata(repo, baseName)["version" := Scalar(Str(version))]["grant" := Scalar(Str("none"))]
  }

  /** `{ ...defaultMetadata, version, grant: 'none', ...declaration }`: later sources win. */
  function MergedMetadata(repo: GitRepo, baseName: string, version: string, declaration: Metadata): (m: Metadata)
    ensures m.Keys == BaseMetadata(repo, baseName, version).Keys + declaration.Keys
    ensures forall k :: k in declaration ==> m[k] == declaration[k]
    ensures forall k :: k in BaseMetadata(repo, baseName, version) && k !in declaration ==>
      m[k] == BaseMetadata(repo, baseName, version)[k]
    ensures m["version"] == (if "version" in declaration then declaration["version"] else Scalar(Str(version)))
    ensures m["grant"] == (if "grant" in declaration then declaration["grant"] else Scalar(Str("none")))
  {
    BaseMetadata(repo, baseName, version) + declaration
  }

  /** The record that is rendered: the merge, then `homepageURL` recomputed as the link to the
      script's README section, whatever the declaration says. */
  function FinalMetadata(
    repo: GitRepo, formatter: NameFormatter, slugify: string -> string,
    baseName: string, version: string, declaration: Metadata): (m: Metadata)
    ensures m.Keys == declaration.Keys + BaseMetadata(repo, baseName, version).Keys
    ensures m[HomepageKey] == Scalar(Str(ReadmeSectionUrl(repo, slugify,
      formatter(baseName, MergedMetadata(repo, baseName, version, declaration)))))
    ensures forall k :: k in declaration && k != HomepageKey ==> m[k] == declaration[k]
    ensures forall k :: (k in BaseMetadata(repo, baseName, version) && k !in declaration && k != HomepageKey)
                    ==> m[k] == BaseMetadata(repo, baseName, version)[k]
  {
    var merged := MergedMetadata(repo, baseName, version, declaration);
    merged[HomepageKey := Scalar(Str(ReadmeSectionUrl(repo, slugify, formatter(baseName, merged))))]
  }

  /** `generateMetadataBlock`, with the current date passed in. */
  function GenerateMetadataBlock(
    repo: GitRepo, formatter: NameFormatter, slugify: string -> string,
    baseName: string, year: nat, monthIndex: nat, day: nat, declaration: Metadata): (block: string)
    ensures StartsWith(block, OpenDelimiter + "\n")
    ensures EndsWith(block, "\n" + CloseDelimiter + "\n")
  {
    RenderBlock(FinalMetadata(repo, formatter, slugify, baseName, Version(year, monthIndex, day), declaration))
  }

  /** The generated block reads back as the entries of the final record, in field order. */
  lemma GeneratedBlockReadsBack(
    repo: GitRepo, formatter: NameFormatter, slugify: string -> string,
    baseName: string, year: nat, monthIndex: nat, day: nat, declaration: Metadata)
    requires SingleLineValues(FinalMetadata(repo, formatter, slugify, baseName, Version(year, monthIndex, day), declaration))
    ensures ParseBlock(GenerateMetadataBlock(repo, formatter, slugify, baseName, year, monthIndex, day, declaration))
      == Some(EntriesOf(FinalMetadata(repo, formatter, slugify, baseName, Version(year, monthIndex, day), declaration), MetadataOrder))
  {
    RenderBlockRoundTrip(FinalMetadata(repo, formatter, slugify, baseName, Version(year, monthIndex, day), declaration));
  }

  /** `homepageURL` renders exactly one line, the link to the script's README section,
      whatever the declaration sets. */
  lemma HomepageIsReadmeSection(
    repo: GitRepo, formatter: NameFormatter, slugify: string -> string,
    baseName: string, version: string, declaration: Metadata)
    ensures ValuesFor(EntriesOf(FinalMetadata(repo, formatter, slugify, baseName, version, declaration), MetadataOrder), HomepageKey)
      == [Str(ReadmeSectionUrl(repo, slugify, formatter(baseName, MergedMetadata(repo, baseName, version, declaration))))]
  {
    var m := FinalMetadata(repo, formatter, slugify, baseName, version, declaration);
    var url := ReadmeSectionUrl(repo, slugify, formatter(baseName, MergedMetadata(repo, baseName, version, declaration)));
    assert url[0] == 'h';
    assert MetadataOrder[6] == HomepageKey;
    SingleValueRendered(m, HomepageKey, url);
  }

  /** A declared field other than `homepageURL` renders from the declaration alone: one line
      per truthy declared value, defaults and computed values notwithstanding. */
  lemma DeclaredFieldWins(
    repo: GitRepo, formatter: NameFormatter, slugify: string -> string,
    baseName: string, version: string, declaration: Metadata, k: string)
    requires k in declaration && k != HomepageKey
    ensures ValuesFor(EntriesOf(FinalMetadata(repo, formatter, slugify, baseName, version, declaration), MetadataOrder), k)
      == if k in MetadataOrder then TruthyValues(PreferArray(declaration[k])) else []
  {
    MetadataOrderWellFormed();
    LinesPerKey(FinalMetadata(repo, formatter, slugify, baseName, version, declaration), MetadataOrder, k);
  }

  /** A field the declaration leaves unset renders its default as exactly one line: the
      owner as author, the repository URL as namespace, the raw script URL for download and
      update, the issue tracker for support, the date version, and `grant none`. */
  lemma UndeclaredDefaultRendered(
    repo: GitRepo, formatter: NameFormatter, slugify: string -> string,
    baseName: string, version: string, declaration: Metadata, k: string)
    requires k in BaseMetadata(repo, baseName, version) && k !in declaration && k != HomepageKey
    requires repo.owner != "" && version != ""
    ensures ValuesFor(EntriesOf(FinalMetadata(repo, formatter, slugify, baseName, version, declaration), MetadataOrder), k)
      == [BaseMetadata(repo, baseName, version)[k].v]
  {
    var m := FinalMetadata(repo, formatter, slugify, baseName, version, declaration);
    BaseValuesNonEmpty(repo, baseName, version);
    BaseKeysListed(repo, baseName, version);
    SingleValueRendered(m, k, BaseMetadata(repo, baseName, version)[k].v.s);
  }

  /** Every default other than `homepageURL` is one non-empty string. */
  lemma BaseValuesNonEmpty(repo: GitRepo, baseName: string, version: string)
    requires repo.owner != "" && version != ""
    ensures forall k :: k in BaseMetadata(repo, baseName, version) && k != HomepageKey ==>
      BaseMetadata(repo, baseName, version)[k].Scalar? && BaseMetadata(repo, baseName, version)[k].v.Str?
      && BaseMetadata(repo, baseName, version)[k].v.s != ""
  {
    LinksNonEmpty(repo, baseName);
    assert RepoUrl(repo)[0] == 'h';
  }

  /** Every field with a default is one the block renders. */
  lemma BaseKeysListed(repo: GitRepo, baseName: string, version: string)
    ensures forall k :: k in BaseMetadata(repo, baseName, version) ==> k in MetadataOrder
  {
    assert MetadataOrder[1] == "version" && MetadataOrder[2] == "namespace" && MetadataOrder[3] == "author";
    assert MetadataOrder[6] == HomepageKey && MetadataOrder[7] == "downloadURL" && MetadataOrder[8] == "updateURL";
    assert MetadataOrder[9] == "supportURL" && MetadataOrder[12] == "grant";
  }

  lemma LinksNonEmpty(repo: GitRepo, baseName: string)
    ensures UserscriptRawUrl(repo, baseName) != "" && SupportUrl(repo) != ""
  {
    assert UserscriptRawUrl(repo, baseName)[0] == 'h';
    assert SupportUrl(repo)[0] == 'h';
  }

  /** A field holding one non-empty string renders as exactly that one line. */
  lemma SingleValueRendered(m: Metadata, k: string, s: string)
    requires k in MetadataOrder
    requires k in m && m[k] == Scalar(Str(s)) && s != ""
    ensures ValuesFor(EntriesOf(m, MetadataOrder), k) == [Str(s)]
  {
    MetadataOrderWellFormed();
    LinesPerKey(m, MetadataOrder, k);
    assert TruthyValues([Str(s)]) == [Str(s)];
  }

  /** `createURLRuleRegex(domainAndPathRegex, { allowQuery, allowFragment })`; an omitted
      option defaults to `true`. */
  function CreateURLRuleRegex(domainAndPathRegex: string, allowQuery: Option<bool>, allowFragment: Option<bool>): (rule: string)
    ensures StartsWith(rule, URLRulePrefix + domainAndPathRegex)
    ensures EndsWith(rule, "$/")
    ensures |URLRulePrefix + domainAndPathRegex| <= |rule| - 2
    ensures rule[|URLRulePrefix + domainAndPathRegex|..|rule| - 2]
      == (if allowQuery != Some(false) then QueryGroup else "") + (if allowFragment != Some(false) then FragmentGroup else "")
  {
    var withQuery := URLRulePrefix + domainAndPathRegex + (if allowQuery != Some(false) then QueryGroup else "");
    var withFragment := withQuery + (if allowFragment != Some(false) then FragmentGroup else "");
    withFragment + "$/"
  }

  const URLRulePrefix: string := "/^https?://"
  const QueryGroup: string := "(\\?.+?)?"
  const FragmentGroup: string := "(#.+?)?"
  const MusicBrainzDomain: string := "((beta|test)\\.)?musicbrainz\\.org/"

  /** The options are recoverable from the rule: distinct options give distinct rules. */
  lemma URLRuleOptionsDistinct(d: string, q1: Option<bool>, f1: Option<bool>, q2: Option<bool>, f2: Option<bool>)
    requires CreateURLRuleRegex(d, q1, f1) == CreateURLRuleRegex(d, q2, f2)
    ensures (q1 == Some(false)) == (q2 == Some(false))
    ensures (f1 == Some(false)) == (f2 == Some(false))
  {
    var r := CreateURLRuleRegex(d, q1, f1);
    var tail := r[|URLRulePrefix + d|..|r| - 2];
    assert |QueryGroup| == 8;
    assert |FragmentGroup| == 7;
    assert |tail| == (if q1 != Some(false) then 8 else 0) + (if f1 != Some(false) then 7 else 0);
    assert |tail| == (if q2 != Some(false) then 8 else 0) + (if f2 != Some(false) then 7 else 0);
  }

  /** `createMusicBrainzURLRule(pathRegex)`: a rule for musicbrainz.org and its beta and
      test servers, with query and fragment allowed. */
  function CreateMusicBrainzURLRule(pathRegex: string): (rule: string)
    ensures StartsWith(rule, URLRulePrefix + MusicBrainzDomain + pathRegex)
    ensures EndsWith(rule, QueryGroup + FragmentGroup + "$/")
  {
    CreateURLRuleRegex(MusicBrainzDomain + pathRegex, None, None)
  }

  /** The path pattern can be read back from a MusicBrainz rule, so different paths give
      different rules. */
  lemma MusicBrainzRulePath(pathRegex: string)
    ensures var rule := CreateMusicBrainzURLRule(pathRegex);
      var start := |URLRulePrefix + MusicBrainzDomain|;
      var suffix := |QueryGroup + FragmentGroup + "$/"|;
      && |rule| == start + |pathRegex| + suffix
      && rule[start..|rule| - suffix] == pathRegex
  {
    var rule := CreateMusicBrainzURLRule(pathRegex);
    var head := URLRulePrefix + MusicBrainzDomain + pathRegex;
    assert |QueryGroup + FragmentGroup + "$/"| == 17;
    assert rule == head + QueryGroup + FragmentGroup + "$/" by {
      assert rule[..|head|] == head;
      assert rule[|head|..|rule| - 2] == QueryGroup + FragmentGroup;
      assert rule[|rule| - 2..] == "$/";
      assert rule == rule[..|head|] + rule[|head|..|rule| - 2] + rule[|rule| - 2..];
    }
    assert head[|URLRulePrefix + MusicBrainzDomain|..] == pathRegex;
  }
}
