/** Node's `path.posix.join` and `path.posix.normalize`, which the bundler uses to build
    the distribution path of a userscript. A path is split at '/', empty and "." segments
    are dropped, ".." removes the segment before it, and the leading and trailing '/'
    of the input are kept. */
module PosixPath {
  import opened Text

  /** A segment that normalisation keeps as it is. */
  predicate Ordinary(seg: string) {
    seg != "" && seg != "." && seg != ".." && '/' !in seg
  }

  /** A relative path made only of ordinary segments, such as `dist` or `test/dist`. */
  predicate Plain(p: string) {
    var segs := Split(p, '/');
    forall i :: 0 <= i < |segs| ==> Ordinary(segs[i])
  }

  /** One segment of Node's `normalizeString`: `..` pops the previous segment unless that
      is itself `..` (or there is none), in which case it is kept only above the root. */
  function Step(res: seq<string>, seg: string, allowAboveRoot: bool): seq<string>
  {
    if seg == "" || seg == "." then res
    else if seg == ".." then
      if |res| > 0 && res[|res| - 1] != ".." then res[..|res| - 1]
      else if allowAboveRoot then res + [".."]
      else res
    else res + [seg]
  }

  /** `normalizeString` over all segments, left to right. */
  function Resolve(res: seq<string>, segs: seq<string>, allowAboveRoot: bool): seq<string>
    decreases |segs|
  {
    if |segs| == 0 then res else Resolve(Step(res, segs[0], allowAboveRoot), segs[1..], allowAboveRoot)
  }

  /** The segments of `p`, resolved and joined again with '/'. */
  function ResolvedBody(p: string, allowAboveRoot: bool): string
  {
    Join(Resolve([], Split(p, '/'), allowAboveRoot), "/")
  }

  /** `path.posix.normalize(p)`. */
  function Normalize(p: string): string
  {
    if |p| == 0 then "."
    else
      var isAbsolute := p[0] == '/';
      var trailingSeparator := p[|p| - 1] == '/';
      var body := ResolvedBody(p, !isAbsolute);
      if |body| == 0 then
        if isAbsolute then "/" else if trailingSeparator then "./" else "."
      else
        (if isAbsolute then "/" else "") + body + (if trailingSeparator then "/" else "")
  }

  /** `path.posix.join(a, b)`: the non-empty arguments joined by '/', then normalised. A
      plain directory and an ordinary file name are joined with '/' and nothing else. */
  function Join2(a: string, b: string): (r: string)
    ensures Plain(a) && Ordinary(b) ==> r == a + "/" + b
  {
    var joined := if a == "" then b else if b == "" then a else a + "/" + b;
    var r := if joined == "" then "." else Normalize(joined);
    if Plain(a) && Ordinary(b) then
      PlainShape(a);
      PlainJoined(a, b);
      NormalizePlain(a + "/" + b);
      r
    else r
  }

  /** Splitting a concatenation at a separator splits both halves. */
  lemma {:induction false} SplitConcat(a: string, c: char, b: string)
    ensures Split(a + [c] + b, c) == Split(a, c) + Split(b, c)
  {
    if |a| == 0 {
      assert a + [c] + b == [c] + b;
      SplitCons(c, b, c);
    } else {
      var h, a' := a[0], a[1..];
      assert a == [h] + a';
      assert a + [c] + b == [h] + (a' + [c] + b);
      SplitConcat(a', c, b);
      SplitCons(h, a', c);
      SplitCons(h, a' + [c] + b, c);
      ConsPieces(h, c, Split(a', c), Split(b, c));
    }
  }

  /** The piece arithmetic behind one step of `SplitConcat`. */
  lemma ConsPieces(h: char, c: char, r: seq<string>, t: seq<string>)
    requires |r| >= 1
    ensures (if h == c then [""] + (r + t) else [[h] + (r + t)[0]] + (r + t)[1..])
      == (if h == c then [""] + r else [[h] + r[0]] + r[1..]) + t
  {
    if h == c {
      ConsAssoc("", r, t);
    } else {
      assert (r + t)[0] == r[0];
      assert (r + t)[1..] == r[1..] + t;
      ConsAssoc([h] + r[0], r[1..], t);
    }
  }

  /** Associativity at the front of a sequence, kept as a lemma so that `ConsPieces` does not
      have to rediscover it inside its larger context. */
  lemma ConsAssoc<T>(x: T, r: seq<T>, t: seq<T>)
    ensures [x] + (r + t) == [x] + r + t
  {
  }

  /** Ordinary segments pass through normalisation unchanged. */
  lemma {:induction false} ResolveOrdinary(res: seq<string>, segs: seq<string>, allowAboveRoot: bool)
    requires forall i :: 0 <= i < |segs| ==> Ordinary(segs[i])
    ensures Resolve(res, segs, allowAboveRoot) == res + segs
    decreases |segs|
  {
    if |segs| > 0 {
      ResolveOrdinary(res + [segs[0]], segs[1..], allowAboveRoot);
      assert res + [segs[0]] + segs[1..] == res + segs;
    }
  }

  /** A string ending in the separator splits with an empty last piece. */
  lemma SplitTrailing(s: string, c: char)
    requires |s| > 0 && s[|s| - 1] == c
    ensures Split(s, c)[|Split(s, c)| - 1] == ""
  {
    SplitConcat(s[..|s| - 1], c, "");
    assert s == s[..|s| - 1] + [c] + "";
  }

  /** A plain path is non-empty and neither starts nor ends with '/'. */
  lemma PlainShape(p: string)
    requires Plain(p)
    ensures p != "" && p[0] != '/' && p[|p| - 1] != '/'
  {
    var segs := Split(p, '/');
    assert Ordinary(segs[0]);
    if p[|p| - 1] == '/' {
      SplitTrailing(p, '/');
    }
  }

  /** A plain path is already normal. */
  lemma NormalizePlain(p: string)
    requires Plain(p)
    ensures Normalize(p) == p
  {
    PlainShape(p);
    PlainBody(p);
    assert Normalize(p) == "" + p + "";
  }

  lemma PlainBody(p: string)
    requires Plain(p)
    ensures ResolvedBody(p, true) == p
  {
    var segs := Split(p, '/');
    ResolveOrdinary([], segs, true);
    assert [] + segs == segs;
    JoinSplit(p, '/');
  }

  /** A plain directory, '/' and an ordinary file name make a plain path. */
  lemma PlainJoined(dir: string, file: string)
    requires Plain(dir) && Ordinary(file)
    ensures Plain(dir + "/" + file)
  {
    var segs := Split(dir, '/');
    var joined := dir + "/" + file;
    SplitConcat(dir, '/', file);
    SplitNoSeparator(file, '/');
    assert Split(joined, '/') == segs + [file];
  }
}
