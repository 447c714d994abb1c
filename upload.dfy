/** Story media uploads (backend/src/lib/upload.js): the file-type
    allow-list multer applies, the stored file name, the public URL of a
    stored file and the summary of an uploaded file. File names follow
    Node's POSIX `path.extname`; the clock, `Math.random` and the
    `BASE_URL` setting are parameters. */
module Upload {
  import opened Common

  predicate StartsWith(s: string, w: string) {
    |w| <= |s| && s[..|w|] == w
  }

  predicate EndsWith(s: string, w: string) {
    |w| <= |s| && s[|s| - |w|..] == w
  }

  // ------------------------------------------------------ path.extname

  /** The path without its trailing `/` characters. */
  function StripTrailingSlashes(p: string): (r: string)
    ensures |r| <= |p| && r == p[..|r|]
    ensures r == [] || r[|r| - 1] != '/'
    ensures forall k :: |r| <= k < |p| ==> p[k] == '/'
  {
    if p != [] && p[|p| - 1] == '/' then StripTrailingSlashes(p[..|p| - 1]) else p
  }

  /** What follows the last `/` (all of p when it has none). */
  function AfterLastSlash(p: string): (r: string)
    ensures |r| <= |p| && r == p[|p| - |r|..]
    ensures forall k :: 0 <= k < |r| ==> r[k] != '/'
    ensures |r| < |p| ==> p[|p| - |r| - 1] == '/'
  {
    if p == [] then []
    else if p[|p| - 1] == '/' then []
    else AfterLastSlash(p[..|p| - 1]) + [p[|p| - 1]]
  }

  /** The last path component, as `extname` delimits it. */
  function BaseName(p: string): string {
    AfterLastSlash(StripTrailingSlashes(p))
  }

  /** The index of the last dot. */
  function LastDot(s: string): (r: Option<nat>)
    ensures r.None? <==> forall k :: 0 <= k < |s| ==> s[k] != '.'
    ensures r.Some? ==> r.value < |s| && s[r.value] == '.' && forall k :: r.value < k < |s| ==> s[k] != '.'
  {
    if s == [] then None
    else if s[|s| - 1] == '.' then Some(|s| - 1)
    else LastDot(s[..|s| - 1])
  }

  /** `path.extname`: from the last dot of the last component to its end;
      empty when that component has no dot, starts with its only dot
      (a dot-file such as `.profile`), or is `..`. */
  function Extname(p: string): (e: string)
    ensures e == [] || (e[0] == '.' && forall k :: 1 <= k < |e| ==> e[k] != '.')
    ensures forall k :: 0 <= k < |e| ==> e[k] != '/'
    ensures EndsWith(StripTrailingSlashes(p), e)
  {
    var b := BaseName(p);
    match LastDot(b)
    case None => []
    case Some(d) =>
      if d == 0 || b == ".." then []
      else
        ExtOfBase(StripTrailingSlashes(p), b, d);
        b[d..]
  }

  /** The tail of a slash-free suffix b of s, from a dot after which b has
      no dot: a dot, then no dot and no slash, at the end of s. */
  lemma ExtOfBase(s: string, b: string, d: nat)
    requires |b| <= |s| && b == s[|s| - |b|..]
    requires forall k :: 0 <= k < |b| ==> b[k] != '/'
    requires d < |b| && b[d] == '.' && forall k :: d < k < |b| ==> b[k] != '.'
    ensures var e := b[d..];
      && e[0] == '.' && (forall k :: 1 <= k < |e| ==> e[k] != '.')
      && (forall k :: 0 <= k < |e| ==> e[k] != '/')
      && EndsWith(s, e)
  {
    assert b[d..] == s[|s| - |b| + d..];
  }

  /** For a plain file name (no `/`) made of a non-empty stem, a dot and a
      dot-free suffix, the extension is the dot and that suffix, except for
      the name `..`. */
  lemma ExtnameOfDottedName(stem: string, suffix: string)
    requires stem != [] && !(stem == "." && suffix == [])
    requires forall k :: 0 <= k < |stem| ==> stem[k] != '/'
    requires forall k :: 0 <= k < |suffix| ==> suffix[k] != '/' && suffix[k] != '.'
    ensures Extname(stem + "." + suffix) == "." + suffix
  {
    var pre := stem + ".";
    var name := pre + suffix;
    assert |pre| == |stem| + 1 && pre[|stem|] == '.';
    forall k | 0 <= k < |name| ensures name[k] != '/' {
      if k < |stem| {
        assert name[k] == pre[k] == stem[k];
      } else if k > |stem| {
        assert name[k] == suffix[k - |pre|];
      }
    }
    LastDotOfDotted(stem, suffix);
    NotDotDot(stem, suffix);
    ExtnameOfPlainName(name, |stem|);
    TailAfterStem(stem, suffix);
  }

  lemma TailAfterStem(stem: string, suffix: string)
    ensures (stem + "." + suffix)[|stem|..] == "." + suffix
  {
  }

  lemma ExtnameOfPlainName(name: string, d: nat)
    requires forall k :: 0 <= k < |name| ==> name[k] != '/'
    requires LastDot(name) == Some(d) && d != 0 && name != ".."
    ensures Extname(name) == name[d..]
  {
    NoSlashBase(name);
  }

  lemma NotDotDot(stem: string, suffix: string)
    requires stem != [] && !(stem == "." && suffix == [])
    ensures stem + "." + suffix != ".."
  {
    var name := stem + "." + suffix;
    if |name| == 2 {
      assert |stem| == 1 && suffix == [];
      assert stem == [name[0]];
    }
  }

  lemma LastDotOfDotted(stem: string, suffix: string)
    requires forall k :: 0 <= k < |suffix| ==> suffix[k] != '.'
    ensures LastDot(stem + "." + suffix) == Some(|stem|)
  {
    var pre := stem + ".";
    var name := pre + suffix;
    var d := |stem|;
    assert |pre| == d + 1 && pre[d] == '.';
    assert name[d] == '.';
    forall k | d < k < |name| ensures name[k] != '.' {
      assert name[k] == suffix[k - |pre|];
    }
    LastDotAt(name, d);
  }

  lemma LastDotAt(s: string, d: nat)
    requires d < |s| && s[d] == '.'
    requires forall k :: d < k < |s| ==> s[k] != '.'
    ensures LastDot(s) == Some(d)
  {
    var r := LastDot(s);
    assert r.Some?;
    assert !(r.value < d) && !(d < r.value);
  }

  /** A plain file name whose only dot, if any, is its first character
      (`README`, `.env`) has no extension. */
  lemma NoExtnameWithoutInnerDot(name: string)
    requires forall k :: 0 <= k < |name| ==> name[k] != '/'
    requires forall k :: 0 < k < |name| ==> name[k] != '.'
    ensures Extname(name) == []
  {
    NoSlashBase(name);
  }

  lemma NoSlashBase(name: string)
    requires forall k :: 0 <= k < |name| ==> name[k] != '/'
    ensures StripTrailingSlashes(name) == name && BaseName(name) == name
  {
    if name != [] {
      assert AfterLastSlash(name) == AfterLastSlash(name[..|name| - 1]) + [name[|name| - 1]];
      NoSlashBase(name[..|name| - 1]);
    }
  }

  // ------------------------------------------------------- toLowerCase

  /** `toLowerCase` of one character, as far as it can produce ASCII: A-Z
      become a-z, `U+0130` (capital I with dot) becomes `i` followed by
      `U+0307`, the Kelvin sign `U+212A` becomes `k`; every other character
      is kept. */
  function LowerChar(c: char): (r: string)
    ensures |r| >= 1
  {
    if 'A' <= c <= 'Z' then [(c as int + 32) as char]
    else if c == 'İ' then "i̇"
    else if c == 'K' then "k"
    else [c]
  }

  function ToLowerCase(s: string): (r: string)
    ensures |r| >= |s|
  {
    if s == [] then [] else ToLowerCase(s[..|s| - 1]) + LowerChar(s[|s| - 1])
  }

  /** No character the lowering produces is lowered again. */
  predicate IsLower(s: string) {
    forall k :: 0 <= k < |s| ==> !('A' <= s[k] <= 'Z') && s[k] != 'İ' && s[k] != 'K'
  }

  lemma {:induction false} ToLowerCaseIsLower(s: string)
    ensures IsLower(ToLowerCase(s))
  {
    if s != [] {
      ToLowerCaseIsLower(s[..|s| - 1]);
    }
  }

  lemma {:induction false} LowerUnchanged(s: string)
    requires IsLower(s)
    ensures ToLowerCase(s) == s
  {
    if s != [] {
      LowerUnchanged(s[..|s| - 1]);
      assert s == s[..|s| - 1] + [s[|s| - 1]];
    }
  }

  /** Lowering twice is lowering once. */
  lemma ToLowerCaseIdempotent(s: string)
    ensures ToLowerCase(ToLowerCase(s)) == ToLowerCase(s)
  {
    ToLowerCaseIsLower(s);
    LowerUnchanged(ToLowerCase(s));
  }

  // -------------------------------------------------------- fileFilter

  /** Substring test, as an unanchored regular expression performs it. */
  predicate Contains(s: string, w: string) {
    exists i :: 0 <= i <= |s| && OccursAt(s, w, i)
  }

  predicate OccursAt(s: string, w: string, i: nat) {
    i + |w| <= |s| && s[i..i + |w|] == w
  }

  /** The alternatives of `/jpeg|jpg|png|gif|mp4|mov|avi|webm/`. */
  const AllowedWords: seq<string> := ["jpeg", "jpg", "png", "gif", "mp4", "mov", "avi", "webm"]

  /** `allowedTypes.test(s)`. */
  predicate MentionsAllowedType(s: string) {
    exists i :: 0 <= i < |AllowedWords| && Contains(s, AllowedWords[i])
  }

  /** The executable form of the substring test. */
  function ContainsAt(s: string, w: string, from: nat): (b: bool)
    requires from <= |s|
    ensures b <==> exists i :: from <= i && OccursAt(s, w, i)
    decreases |s| - from
  {
    if from + |w| > |s| then false
    else if s[from..from + |w|] == w then
      assert OccursAt(s, w, from);
      true
    else ContainsAt(s, w, from + 1)
  }

  /** The upload is accepted exactly when the lower-cased extension of the
      client's file name and the MIME type each contain one of the eight
      words anywhere, so an extension such as `.apng` passes. A rejected
      file surfaces as the error "Only images and videos are allowed!". */
  function FileFilter(originalName: string, mimetype: string): (accepted: bool)
    ensures accepted <==> MentionsAllowedType(ToLowerCase(Extname(originalName))) && MentionsAllowedType(mimetype)
  {
    TestAllowed(ToLowerCase(Extname(originalName))) && TestAllowed(mimetype)
  }

  function TestAllowed(s: string): (b: bool)
    ensures b <==> MentionsAllowedType(s)
  {
    exists i | 0 <= i < |AllowedWords| :: ContainsAt(s, AllowedWords[i], 0)
  }

  // ---------------------------------------------------------- file URL

  const DefaultBaseUrl := "http://localhost:5001"
  const StoriesPath := "/uploads/stories/"

  /** `process.env.BASE_URL || "http://localhost:5001"`: an unset or empty
      setting falls back to the default. */
  function BaseUrl(env: Option<string>): (r: string)
    ensures r != []
    ensures Truthy(env) ==> r == env.value
    ensures !Truthy(env) ==> r == DefaultBaseUrl
  {
    if Truthy(env) then env.value else DefaultBaseUrl
  }

  /** `getFileUrl`: empty for an empty name, otherwise the base URL, the
      stories path and the name. */
  function GetFileUrl(env: Option<string>, filename: string): (url: string)
    ensures filename == [] <==> url == []
    ensures filename != [] ==>
      && StartsWith(url, BaseUrl(env)) && OccursAt(url, StoriesPath, |BaseUrl(env)|) && EndsWith(url, filename)
      && |url| == |BaseUrl(env)| + |StoriesPath| + |filename|
  {
    if filename == [] then []
    else
      var url := BaseUrl(env) + StoriesPath + filename;
      assert url[..|BaseUrl(env)|] == BaseUrl(env);
      assert url[|BaseUrl(env)|..|BaseUrl(env)| + |StoriesPath|] == StoriesPath;
      assert url[|url| - |filename|..] == filename;
      url
  }

  // ---------------------------------------------------- stored filename

  /** `uniqueSuffix`: the time, a dash and the random draw. */
  function UniqueSuffix(now: nat, draw: nat): string {
    NatToString(now) + "-" + NatToString(draw)
  }

  /** The `filename` callback: `story-<uniqueSuffix><ext>`, where `draw`
      is the rounded `Math.random() * 1e9` and `ext` the raw (not
      lower-cased) extension of the client's name. */
  function StoryFilename(now: nat, draw: nat, originalName: string): (name: string)
    ensures StartsWith(name, "story-")
    ensures EndsWith(name, Extname(originalName))
  {
    Framed("story-", UniqueSuffix(now, draw), Extname(originalName));
    "story-" + UniqueSuffix(now, draw) + Extname(originalName)
  }

  /** A string built from a prefix, a middle and a suffix starts with the
      prefix, ends with the suffix and has the middle in between. */
  lemma Framed(p: string, m: string, e: string)
    ensures StartsWith(p + m + e, p) && EndsWith(p + m + e, e)
    ensures (p + m + e)[|p|..|p + m + e| - |e|] == m
  {
    var x := p + m + e;
    assert x[..|p|] == p;
    assert x[|x| - |e|..] == e;
    assert x[|p|..|x| - |e|] == m;
  }

  predicate IsDash(c: char) {
    c == '-'
  }

  /** In digits, a dash and more text, the first dash is the one after the
      digits. */
  lemma FirstDash(a: string, b: string)
    requires IsDigits(a)
    ensures FirstIndex(a + "-" + b, IsDash) == Some(|a|)
  {
    var x := a + "-" + b;
    assert IsDash(x[|a|]);
    assert forall j :: 0 <= j < |a| ==> x[j] == a[j];
  }

  /** Splitting at the first dash recovers both digit strings. */
  lemma DashSplit(a: string, b: string, c: string, d: string)
    requires IsDigits(a) && IsDigits(c)
    requires a + "-" + b == c + "-" + d
    ensures a == c && b == d
  {
    var x := a + "-" + b;
    FirstDash(a, b);
    FirstDash(c, d);
    assert a == x[..|a|] && c == (c + "-" + d)[..|c|];
    assert b == x[|a| + 1..] && d == (c + "-" + d)[|c| + 1..];
  }

  /** Two uploads of files with the same extension get the same stored
      name only when both the time and the random draw agree. */
  lemma StoryFilenameInjective(now: nat, draw: nat, now': nat, draw': nat, n: string, n': string)
    requires Extname(n) == Extname(n')
    requires StoryFilename(now, draw, n) == StoryFilename(now', draw', n')
    ensures now == now' && draw == draw'
  {
    var e := Extname(n);
    var x := StoryFilename(now, draw, n);
    Framed("story-", UniqueSuffix(now, draw), e);
    Framed("story-", UniqueSuffix(now', draw'), e);
    assert UniqueSuffix(now, draw) == x[6..|x| - |e|] == UniqueSuffix(now', draw');
    DashSplit(NatToString(now), NatToString(draw), NatToString(now'), NatToString(draw'));
    NatToStringInjective(now, now');
    NatToStringInjective(draw, draw');
  }

  // ------------------------------------------------------- getFileInfo

  datatype FileKind = ImageFile | VideoFile | UnknownFile

  /** What multer reports about a stored upload. */
  datatype UploadedFile = UploadedFile(originalName: string, filename: string, size: nat)

  datatype FileInfo = FileInfo(kind: FileKind, size: nat, filename: string, originalName: string, url: string)

  const ImageTypes: seq<string> := ["jpg", "jpeg", "png", "gif"]
  const VideoTypes: seq<string> := ["mp4", "mov", "avi", "webm"]

  /** `s` ends with a dot followed by `w`. */
  predicate EndsWithDotted(s: string, w: string) {
    |w| < |s| && s[|s| - |w| - 1] == '.' && s[|s| - |w|..] == w
  }

  /** `/\.(jpg|jpeg|png|gif)$/` and `/\.(mp4|mov|avi|webm)$/`. */
  predicate IsImageExt(ext: string) {
    exists i :: 0 <= i < |ImageTypes| && EndsWithDotted(ext, ImageTypes[i])
  }

  predicate IsVideoExt(ext: string) {
    exists i :: 0 <= i < |VideoTypes| && EndsWithDotted(ext, VideoTypes[i])
  }

  /** The kind from the lower-cased extension: image first, then video,
      otherwise unknown. */
  function Classify(ext: string): (k: FileKind)
    ensures k == ImageFile <==> IsImageExt(ext)
    ensures k == VideoFile <==> !IsImageExt(ext) && IsVideoExt(ext)
    ensures k == UnknownFile <==> !IsImageExt(ext) && !IsVideoExt(ext)
  {
    if IsImageExt(ext) then ImageFile else if IsVideoExt(ext) then VideoFile else UnknownFile
  }

  /** `getFileInfo`: nothing for a missing file; otherwise its kind, its
      size, stored and original names unchanged, and its public URL. */
  function GetFileInfo(env: Option<string>, file: Option<UploadedFile>): (r: Option<FileInfo>)
    ensures file.None? <==> r.None?
    ensures r.Some? ==>
      && r.value.size == file.value.size
      && r.value.filename == file.value.filename
      && r.value.originalName == file.value.originalName
      && r.value.url == GetFileUrl(env, file.value.filename)
      && r.value.kind == Classify(ToLowerCase(Extname(file.value.originalName)))
  {
    match file
    case None => None
    case Some(f) =>
      Some(FileInfo(Classify(ToLowerCase(Extname(f.originalName))), f.size, f.filename, f.originalName,
                    GetFileUrl(env, f.filename)))
  }

  /** A file classified as an image or a video also passes the extension
      half of the upload filter. */
  lemma ClassifiedPassesExtensionCheck(originalName: string)
    requires Classify(ToLowerCase(Extname(originalName))) != UnknownFile
    ensures MentionsAllowedType(ToLowerCase(Extname(originalName)))
  {
    ClassifiedMentionsAllowed(ToLowerCase(Extname(originalName)));
  }

  lemma ClassifiedMentionsAllowed(l: string)
    requires IsImageExt(l) || IsVideoExt(l)
    ensures MentionsAllowedType(l)
  {
    var w, j;
    if IsImageExt(l) {
      var i :| 0 <= i < |ImageTypes| && EndsWithDotted(l, ImageTypes[i]);
      w, j := ImageTypes[i], [1, 0, 2, 3][i];
    } else {
      var i :| 0 <= i < |VideoTypes| && EndsWithDotted(l, VideoTypes[i]);
      w, j := VideoTypes[i], 4 + i;
    }
    assert AllowedWords[j] == w;
    assert OccursAt(l, AllowedWords[j], |l| - |w|);
  }

  /** The converse fails: the substring test accepts extensions that the
      classification calls unknown, such as `.jpgx`. */
  lemma FilterWiderThanClassification()
    ensures MentionsAllowedType(".jpgx")
    ensures Classify(".jpgx") == UnknownFile
  {
    var l := ".jpgx";
    assert OccursAt(l, AllowedWords[1], 1);
    forall w | w in ImageTypes + VideoTypes ensures !EndsWithDotted(l, w) {
      if |w| == 4 {
        assert l[1..][2] != w[2];
      } else {
        assert l[|l| - |w| - 1] != '.';
      }
    }
  }
}
