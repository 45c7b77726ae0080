/**
 * The texture library's upload and browsing logic (src/components/admin/TextureManager.jsx):
 * the `A-B-C.ext` filename check, the stored name and category derived from a filename,
 * the per-file accept/reject loop of an upload, and the category filter and its counts.
 * Reading a file as a data URL is outside the model: each file arrives with its data URL.
 */
module TextureManager {
  import opened Wrappers
  import opened Strings
  import opened Sequences
  import opened Db

  // ---- validateFilename: /^.+-.+-.+\.(png|jpg|jpeg)$/i ----

  /** The characters a regular-expression `.` does not match. */
  predicate IsLineTerminator(ch: char) {
    ch == '\n' || ch == '\r' || ch == '\U{2028}' || ch == '\U{2029}'
  }

  /** Every character of `s` is matched by `.`. */
  predicate OnOneLine(s: string) {
    forall i :: 0 <= i < |s| ==> !IsLineTerminator(s[i])
  }

  /** `png`, `jpg` or `jpeg`, letters in either case. */
  predicate ImageExtension(e: string) {
    EqualsIgnoringCase(e, "png") || EqualsIgnoringCase(e, "jpg") || EqualsIgnoringCase(e, "jpeg")
  }

  /** `p` matches `.+-.+-.+`: one line, with a dash after a first field and a dash before a last one, a field between. */
  predicate ThreeFields(p: string) {
    && OnOneLine(p)
    && exists i :: 1 <= i < |p| && p[i] == '-' && exists j :: i + 2 <= j < |p| - 1 && p[j] == '-'
  }

  /** `validateFilename(name)`: three fields on one line, then a dot and an image extension. */
  predicate ValidateFilename(s: string) {
    || (|s| >= 4 && s[|s| - 4] == '.' && ImageExtension(s[|s| - 3..]) && ThreeFields(s[..|s| - 4]))
    || (|s| >= 5 && s[|s| - 5] == '.' && ImageExtension(s[|s| - 4..]) && ThreeFields(s[..|s| - 5]))
  }

  /** `s` is `a-b-c.e` with non-empty one-line fields and an image extension. */
  ghost predicate PatternSplit(s: string, a: string, b: string, c: string, e: string) {
    && s == a + "-" + b + "-" + c + "." + e
    && a != [] && b != [] && c != []
    && OnOneLine(a) && OnOneLine(b) && OnOneLine(c)
    && ImageExtension(e)
  }

  /** The filename convention `空間名稱-材質-編號.png`, as a property of strings. */
  ghost predicate FilenamePattern(s: string) {
    exists a, b, c, e :: PatternSplit(s, a, b, c, e)
  }

  lemma OnOneLineConcat(x: string, y: string)
    ensures OnOneLine(x + y) <==> OnOneLine(x) && OnOneLine(y)
  {
    if OnOneLine(x + y) {
      forall i | 0 <= i < |x| ensures !IsLineTerminator(x[i]) {
        assert x[i] == (x + y)[i];
      }
      forall i | 0 <= i < |y| ensures !IsLineTerminator(y[i]) {
        assert y[i] == (x + y)[|x| + i];
      }
    }
    if OnOneLine(x) && OnOneLine(y) {
      forall k | 0 <= k < |x + y| ensures !IsLineTerminator((x + y)[k]) {
        if k >= |x| {
          assert (x + y)[k] == y[k - |x|];
        }
      }
    }
  }

  /** No extension holds a dot. */
  lemma ImageExtensionHasNoDot(e: string)
    requires ImageExtension(e)
    ensures '.' !in e && (|e| == 3 || |e| == 4)
  {
  }

  /** A name the check accepts splits as `a-b-c.ext`. */
  lemma ValidatedSplits(s: string)
    requires ValidateFilename(s)
    ensures FilenamePattern(s)
  {
    var k := if |s| >= 4 && s[|s| - 4] == '.' && ImageExtension(s[|s| - 3..]) && ThreeFields(s[..|s| - 4]) then 3 else 4;
    var p, e := s[..|s| - k - 1], s[|s| - k..];
    assert s == p + "." + e;
    FieldsSplit(s, p, e);
  }

  /** Three fields on one line, a dot and an extension make an `a-b-c.ext` name. */
  lemma FieldsSplit(s: string, p: string, e: string)
    requires s == p + "." + e && ThreeFields(p) && ImageExtension(e)
    ensures FilenamePattern(s)
  {
    var i, j :| 1 <= i < |p| && p[i] == '-' && i + 2 <= j < |p| - 1 && p[j] == '-';
    var a, b, c := p[..i], p[i + 1..j], p[j + 1..];
    FieldsOnOneLine(p, i, j);
    assert p == a + "-" + b + "-" + c;
    assert PatternSplit(s, a, b, c, e);
  }

  /** The fields around two dashes of a one-line string are on one line. */
  lemma FieldsOnOneLine(p: string, i: int, j: int)
    requires 0 <= i < j < |p| && OnOneLine(p)
    ensures OnOneLine(p[..i]) && OnOneLine(p[i + 1..j]) && OnOneLine(p[j + 1..])
  {
    var a, b, c := p[..i], p[i + 1..j], p[j + 1..];
    assert forall k :: 0 <= k < |a| ==> a[k] == p[k];
    assert forall k :: 0 <= k < |b| ==> b[k] == p[i + 1 + k];
    assert forall k :: 0 <= k < |c| ==> c[k] == p[j + 1 + k];
  }

  /** `a-b-c` with one-line fields is matched by `.+-.+-.+`. */
  lemma JoinedFieldsMatch(a: string, b: string, c: string)
    requires a != [] && b != [] && c != []
    requires OnOneLine(a) && OnOneLine(b) && OnOneLine(c)
    ensures ThreeFields(a + "-" + b + "-" + c)
  {
    var p := a + "-" + b + "-" + c;
    assert OnOneLine("-");
    OnOneLineConcat(a, "-");
    OnOneLineConcat(a + "-", b);
    OnOneLineConcat(a + "-" + b, "-");
    OnOneLineConcat(a + "-" + b + "-", c);
    assert p[|a|] == '-' && p[|a| + 1 + |b|] == '-';
  }

  /** A string of the form `a-b-c.ext` passes the check. */
  lemma PatternValidates(s: string, a: string, b: string, c: string, e: string)
    requires PatternSplit(s, a, b, c, e)
    ensures ValidateFilename(s)
  {
    ImageExtensionHasNoDot(e);
    var p := a + "-" + b + "-" + c;
    JoinedFieldsMatch(a, b, c);
    assert s == p + "." + e;
    assert s[..|s| - |e| - 1] == p;
    assert s[|s| - |e|..] == e;
    assert s[|s| - |e| - 1] == '.';
  }

  /** The filename check accepts exactly the strings of the form `a-b-c.ext`. */
  lemma ValidateFilenameIff(s: string)
    ensures ValidateFilename(s) <==> FilenamePattern(s)
  {
    if ValidateFilename(s) {
      ValidatedSplits(s);
    }
    if FilenamePattern(s) {
      var a, b, c, e :| PatternSplit(s, a, b, c, e);
      PatternValidates(s, a, b, c, e);
    }
  }

  // ---- the stored name: name.replace(/\.[^.]+$/, '') ----

  /** The index of the last occurrence of `ch`. */
  function LastIndexOf(s: string, ch: char): (r: Option<nat>)
    ensures r.Some? ==> r.value < |s| && s[r.value] == ch && ch !in s[r.value + 1..]
    ensures r.None? ==> ch !in s
    decreases |s|
  {
    if s == [] then None
    else if s[|s| - 1] == ch then Some(|s| - 1)
    else
      var r := LastIndexOf(s[..|s| - 1], ch);
      assert s == s[..|s| - 1] + [s[|s| - 1]];
      if r.Some? then
        assert s[r.value + 1..] == s[..|s| - 1][r.value + 1..] + [s[|s| - 1]];
        r
      else r
  }

  /** The filename without its last `.suffix`; a final dot or a name without one stays as is. */
  function Stem(s: string): (r: string)
    ensures r <= s
  {
    match LastIndexOf(s, '.')
    case Some(k) => if k + 1 < |s| then s[..k] else s
    case None => s
  }

  /** A non-empty dotless suffix after the last dot is cut off, dot included. */
  lemma StemOfSuffix(p: string, e: string)
    requires e != [] && '.' !in e
    ensures Stem(p + "." + e) == p
  {
    var s := p + "." + e;
    var r := LastIndexOf(s, '.');
    assert s[|p|] == '.';
    assert s[|p| + 1..] == e;
    assert r.Some?;
    assert s[..|p|] == p;
  }

  /** A name without a dot, or ending in one, is stored unchanged. */
  lemma StemUnchanged(s: string)
    requires '.' !in s || s[|s| - 1] == '.'
    ensures Stem(s) == s
  {
  }

  // ---- the category: parts.length >= 2 ? parts[1] : '其他' ----

  const All: string := "全部"
  const Other: string := "其他"

  /** The categories a texture can be filed under on the filter bar. */
  const NamedCategories: seq<string> := ["木紋", "石紋", "純色", "布紋", Other]

  /** The filter buttons, `全部` first. */
  const Categories: seq<string> := [All] + NamedCategories

  /** The second dash-separated field of the stored name, `其他` when there is none. */
  function Category(stem: string): (r: string)
    ensures |Split(stem, '-')| >= 2 ==> r == Split(stem, '-')[1]
    ensures '-' !in stem ==> r == Other
  {
    var parts := Split(stem, '-');
    if |parts| >= 2 then parts[1] else Other
  }

  lemma TwoOccurrences(s: string, i: int, j: int, ch: char)
    requires 0 <= i < j < |s| && s[i] == ch && s[j] == ch
    ensures multiset(s)[ch] >= 2
  {
    assert s == s[..j] + s[j..];
    assert s[i] in s[..j];
    assert s[j..][0] == ch;
  }

  /**
   * For an accepted filename `a-b-c.ext` the stored name is `a-b-c`, it has at least three
   * fields, so the category is its second field and the `其他` fallback never applies; when
   * neither `a` nor `b` holds a dash the category is `b`.
   */
  lemma ValidatedNameAndCategory(s: string, a: string, b: string, c: string, e: string)
    requires PatternSplit(s, a, b, c, e)
    ensures Stem(s) == a + "-" + b + "-" + c
    ensures |Split(Stem(s), '-')| >= 3
    ensures Category(Stem(s)) == Split(Stem(s), '-')[1]
    ensures '-' !in a && '-' !in b ==> Category(Stem(s)) == b
  {
    ImageExtensionHasNoDot(e);
    var p := a + "-" + b + "-" + c;
    assert s == p + "." + e;
    StemOfSuffix(p, e);
    TwoOccurrences(p, |a|, |a| + 1 + |b|, '-');
    if '-' !in a && '-' !in b {
      assert p == a + ['-'] + (b + ['-'] + c);
      SplitFirstField(a, b + ['-'] + c, '-');
      SplitFirstField(b, c, '-');
    }
  }

  /** The same for any name the check accepts. */
  lemma ValidatedFieldCount(s: string)
    requires ValidateFilename(s)
    ensures |Split(Stem(s), '-')| >= 3
    ensures Category(Stem(s)) == Split(Stem(s), '-')[1]
    ensures exists e :: ImageExtension(e) && Stem(s) + "." + e == s
  {
    ValidateFilenameIff(s);
    var a, b, c, e :| PatternSplit(s, a, b, c, e);
    ValidatedNameAndCategory(s, a, b, c, e);
  }

  /**
   * The fields may themselves hold dashes, so an accepted name can have an empty
   * category: `x--y-z.png` is `x`, `-y`, `z` to the check but splits as `x`, ``, `y`, `z`.
   */
  lemma EmptyCategoryAccepted(x: string, y: string, z: string, e: string)
    requires x != [] && y != [] && z != [] && '-' !in x
    requires OnOneLine(x) && OnOneLine(y) && OnOneLine(z) && ImageExtension(e)
    ensures ValidateFilename(x + "-" + ("-" + y) + "-" + z + "." + e)
    ensures Category(Stem(x + "-" + ("-" + y) + "-" + z + "." + e)) == ""
  {
    var b := "-" + y;
    var s := x + "-" + b + "-" + z + "." + e;
    OnOneLineConcat("-", y);
    assert PatternSplit(s, x, b, z, e);
    PatternValidates(s, x, b, z, e);
    ValidatedNameAndCategory(s, x, b, z, e);
    LeadingDashCategory(x, y, z);
  }

  /** A name `x--y-z` whose first field has no dash has an empty second field. */
  lemma LeadingDashCategory(x: string, y: string, z: string)
    requires '-' !in x
    ensures Category(x + "-" + ("-" + y) + "-" + z) == ""
  {
    var b := "-" + y;
    var rest := y + "-" + z;
    assert x + "-" + b + "-" + z == x + ['-'] + (b + "-" + z);
    assert b + "-" + z == [] + ['-'] + rest;
    SplitFirstField(x, b + "-" + z, '-');
    SplitFirstField([], rest, '-');
  }

  /** The example name the upload hint shows passes the check. */
  lemma HintExampleAccepted(s: string)
    requires s == "客廳-橡木-001.png"
    ensures ValidateFilename(s)
  {
    assert s == "客廳" + "-" + "橡木" + "-" + "001" + "." + "png";
    assert PatternSplit(s, "客廳", "橡木", "001", "png");
    PatternValidates(s, "客廳", "橡木", "001", "png");
  }

  /** The example name the upload hint shows is filed under `橡木`. */
  lemma HintExampleCategory(s: string)
    requires s == "客廳-橡木-001.png"
    ensures Category(Stem(s)) == "橡木"
  {
    var a, b, c, e := "客廳", "橡木", "001", "png";
    assert s == a + "-" + b + "-" + c + "." + e;
    assert '-' !in a && '-' !in b;
    assert PatternSplit(s, a, b, c, e);
    ValidatedNameAndCategory(s, a, b, c, e);
  }

  // ---- handleFiles ----

  /** A dropped or chosen file, with the data URL reading it yields. */
  datatype File = File(name: string, mimeType: string, dataUrl: string)

  /** What the upload does with one file. */
  datatype Verdict = BadFilename | NotAnImage | Accepted(texture: Texture)

  /** The toasts an upload raises. */
  datatype Notice = BadName(file: string) | NotImage(file: string) | Uploaded(count: nat)

  /** One iteration of the upload loop: the filename check first, then the MIME type. */
  function Classify(f: File): (v: Verdict)
    ensures v == BadFilename <==> !ValidateFilename(f.name)
    ensures v == NotAnImage <==> ValidateFilename(f.name) && !("image/" <= f.mimeType)
    ensures v.Accepted? <==> ValidateFilename(f.name) && "image/" <= f.mimeType
  {
    if !ValidateFilename(f.name) then BadFilename
    else if !("image/" <= f.mimeType) then NotAnImage
    else
      var name := Stem(f.name);
      Accepted(Texture(name, Category(name), f.name, f.dataUrl))
  }

  /**
   * An accepted file is stored under its name without the extension, with the second
   * field of that name as category, the full filename and the file's data URL.
   */
  lemma AcceptedTextureShape(f: File)
    requires Classify(f).Accepted?
    ensures var t := Classify(f).texture;
      && t.filename == f.name && t.dataUrl == f.dataUrl
      && (exists e :: ImageExtension(e) && t.name + "." + e == f.name)
      && t.category == Split(t.name, '-')[1]
  {
    ValidatedFieldCount(f.name);
  }

  /** The verdicts on the files, in order. */
  function Verdicts(files: seq<File>): (vs: seq<Verdict>)
    ensures |vs| == |files|
    decreases |files|
  {
    if files == [] then [] else Verdicts(files[..|files| - 1]) + [Classify(files[|files| - 1])]
  }

  /** What a run of verdicts stores: each accepted texture with the clock reading of its `add`. */
  function UploadsOf(vs: seq<Verdict>, stamps: seq<int>): (r: seq<(Texture, int)>)
    requires |stamps| == |vs|
    ensures |r| <= |vs|
    decreases |vs|
  {
    if vs == [] then []
    else
      var n := |vs| - 1;
      UploadsOf(vs[..n], stamps[..n]) + if vs[n].Accepted? then [(vs[n].texture, stamps[n])] else []
  }

  /** The error toast a verdict on file `name` raises, if any. */
  function NoticeOf(v: Verdict, name: string): seq<Notice> {
    match v
    case BadFilename => [BadName(name)]
    case NotAnImage => [NotImage(name)]
    case Accepted(_) => []
  }

  /** The error toasts of a run of verdicts on the files. */
  function NoticesOf(vs: seq<Verdict>, files: seq<File>): seq<Notice>
    requires |files| == |vs|
    decreases |vs|
  {
    if vs == [] then []
    else
      var n := |vs| - 1;
      NoticesOf(vs[..n], files[..n]) + NoticeOf(vs[n], files[n].name)
  }

  /** The textures the files in order add, each with the clock reading of its `add`. */
  function AcceptedAt(files: seq<File>, stamps: seq<int>): (r: seq<(Texture, int)>)
    requires |stamps| == |files|
    ensures |r| <= |files|
  {
    UploadsOf(Verdicts(files), stamps)
  }

  /** The error toasts for the files in order. */
  function Rejections(files: seq<File>): seq<Notice>
  {
    NoticesOf(Verdicts(files), files)
  }

  lemma {:induction false} EveryVerdictCountedOnce(vs: seq<Verdict>, stamps: seq<int>, files: seq<File>)
    requires |stamps| == |vs| && |files| == |vs|
    ensures |UploadsOf(vs, stamps)| + |NoticesOf(vs, files)| == |vs|
    decreases |vs|
  {
    if vs != [] {
      var n := |vs| - 1;
      EveryVerdictCountedOnce(vs[..n], stamps[..n], files[..n]);
    }
  }

  /** Every file counts once: as an upload or as an error. */
  lemma EveryFileCountedOnce(files: seq<File>, stamps: seq<int>)
    requires |stamps| == |files|
    ensures |AcceptedAt(files, stamps)| + |Rejections(files)| == |files|
  {
    EveryVerdictCountedOnce(Verdicts(files), stamps, files);
  }

  /** The records consecutive `add` calls create, keys counting up from `firstId`. */
  function Stored(uploads: seq<(Texture, int)>, firstId: int): (r: seq<TextureRecord>)
    ensures |r| == |uploads|
    ensures forall k :: 0 <= k < |r| ==> r[k] == TextureRecord(firstId + k, uploads[k].0, uploads[k].1)
    decreases |uploads|
  {
    if uploads == [] then []
    else
      var n := |uploads| - 1;
      Stored(uploads[..n], firstId) + [TextureRecord(firstId + n, uploads[n].0, uploads[n].1)]
  }

  /** What the verdicts up to `i` store and toast, one verdict further on. */
  lemma FoldsStep(vs: seq<Verdict>, v: Verdict, files: seq<File>, stamps: seq<int>, i: int)
    requires |stamps| == |files| && 0 <= i < |files| && |vs| == i
    ensures UploadsOf(vs + [v], stamps[..i + 1]) == UploadsOf(vs, stamps[..i]) + if v.Accepted? then [(v.texture, stamps[i])] else []
    ensures NoticesOf(vs + [v], files[..i + 1]) == NoticesOf(vs, files[..i]) + NoticeOf(v, files[i].name)
  {
    assert (vs + [v])[..i] == vs;
    assert files[..i + 1][..i] == files[..i] && stamps[..i + 1][..i] == stamps[..i];
  }

  /** One more `add` appends one record under the next key. */
  lemma StoredStep(uploads: seq<(Texture, int)>, u: (Texture, int), firstId: int)
    ensures Stored(uploads + [u], firstId) == Stored(uploads, firstId) + [TextureRecord(firstId + |uploads|, u.0, u.1)]
  {
    assert (uploads + [u])[..|uploads|] == uploads;
  }

  /** The table after one more `add`, in terms of the uploads so far. */
  lemma RowsAfterAdd(before: seq<TextureRecord>, uploads: seq<(Texture, int)>, firstId: int,
                     pre: seq<TextureRecord>, post: seq<TextureRecord>, id: int, u: (Texture, int))
    requires pre == before + Stored(uploads, firstId)
    requires post == pre + [TextureRecord(id, u.0, u.1)] && id == firstId + |uploads|
    ensures post == before + Stored(uploads + [u], firstId)
  {
    StoredStep(uploads, u, firstId);
    assert (before + Stored(uploads, firstId)) + [TextureRecord(id, u.0, u.1)] == before + (Stored(uploads, firstId) + [TextureRecord(id, u.0, u.1)]);
  }

  /**
   * One pass of the loop body of `handleFiles`: the filename check, then the MIME type,
   * then the stored name, the category and the `add`; a rejected file leaves the table alone.
   */
  method UploadFile(f: File, stamp: int, table: TextureTable) returns (v: Verdict)
    requires table.Valid()
    modifies table
    ensures table.Valid()
    ensures v == Classify(f)
    ensures v.Accepted? ==> table.rows == old(table.rows) + [TextureRecord(old(table.nextId), v.texture, stamp)]
    ensures v.Accepted? ==> table.nextId == old(table.nextId) + 1
    ensures !v.Accepted? ==> table.rows == old(table.rows) && table.nextId == old(table.nextId)
  {
    if !ValidateFilename(f.name) {
      return BadFilename;
    }
    if !("image/" <= f.mimeType) {
      return NotAnImage;
    }
    var name := Stem(f.name);
    var t := Texture(name, Category(name), f.name, f.dataUrl);
    var _ := table.Add(t, stamp);
    v := Accepted(t);
  }

  /** Each of `vs` is the verdict on the file at the same place. */
  ghost predicate VerdictsOn(vs: seq<Verdict>, files: seq<File>) {
    |vs| <= |files| && forall k :: 0 <= k < |vs| ==> vs[k] == Classify(files[k])
  }

  /** Verdicts on every file, place by place, are the verdicts on the files. */
  lemma {:induction false} VerdictsOnAll(vs: seq<Verdict>, files: seq<File>)
    requires |vs| == |files| && VerdictsOn(vs, files)
    ensures vs == Verdicts(files)
    decreases |vs|
  {
    if vs != [] {
      var n := |vs| - 1;
      VerdictsOnAll(vs[..n], files[..n]);
    }
  }

  /** The rows, the next key and the tallies once the verdicts `vs` on the first files are through the loop. */
  ghost predicate Progress(files: seq<File>, stamps: seq<int>, vs: seq<Verdict>, rows: seq<TextureRecord>, nextId: int,
                           before: seq<TextureRecord>, firstId: int, success: nat, errors: nat, notices: seq<Notice>)
    requires |stamps| == |files|
  {
    && VerdictsOn(vs, files)
    && success == |UploadsOf(vs, stamps[..|vs|])|
    && notices == NoticesOf(vs, files[..|vs|]) && errors == |notices|
    && rows == before + Stored(UploadsOf(vs, stamps[..|vs|]), firstId)
    && nextId == firstId + success
  }

  /** One verdict further on, with the table changed as the verdict's `add` (or none) changes it. */
  lemma ProgressStep(files: seq<File>, stamps: seq<int>, vs: seq<Verdict>, v: Verdict,
                     rows: seq<TextureRecord>, nextId: int, rows': seq<TextureRecord>, nextId': int,
                     before: seq<TextureRecord>, firstId: int, success: nat, errors: nat, notices: seq<Notice>)
    requires |stamps| == |files| && |vs| < |files|
    requires Progress(files, stamps, vs, rows, nextId, before, firstId, success, errors, notices)
    requires VerdictsOn(vs + [v], files)
    requires v.Accepted? ==> rows' == rows + [TextureRecord(nextId, v.texture, stamps[|vs|])] && nextId' == nextId + 1
    requires !v.Accepted? ==> rows' == rows && nextId' == nextId
    ensures Progress(files, stamps, vs + [v], rows', nextId', before, firstId,
                     success + (if v.Accepted? then 1 else 0),
                     errors + |NoticeOf(v, files[|vs|].name)|, notices + NoticeOf(v, files[|vs|].name))
  {
    var i := |vs|;
    FoldsStep(vs, v, files, stamps, i);
    if v.Accepted? {
      RowsAfterAdd(before, UploadsOf(vs, stamps[..i]), firstId, rows, rows', nextId, (v.texture, stamps[i]));
    }
  }

  /** The verdict on the next file extends the verdicts on the files before it. */
  lemma VerdictsOnStep(vs: seq<Verdict>, v: Verdict, files: seq<File>)
    requires VerdictsOn(vs, files) && |vs| < |files| && v == Classify(files[|vs|])
    ensures VerdictsOn(vs + [v], files)
  {
    assert forall k :: 0 <= k < |vs| ==> (vs + [v])[k] == vs[k];
  }

  /**
   * The tally after one verdict on the file `name`: a rejected file raises its error
   * toast and counts as an error, a stored one counts as a success.
   */
  method Tally(v: Verdict, name: string, success: nat, errors: nat, notices: seq<Notice>)
    returns (success': nat, errors': nat, notices': seq<Notice>)
    ensures notices' == notices + NoticeOf(v, name)
    ensures errors' == errors + |NoticeOf(v, name)|
    ensures success' == success + if v.Accepted? then 1 else 0
    ensures success' + errors' == success + errors + 1
  {
    success', errors', notices' := success, errors, notices;
    match v {
      case BadFilename =>
        notices' := notices + [BadName(name)];
        errors' := errors + 1;
      case NotAnImage =>
        notices' := notices + [NotImage(name)];
        errors' := errors + 1;
      case Accepted(_) =>
        success' := success + 1;
    }
  }

  /** One pass of the loop: file `i` is checked and stored, or toasted and counted as an error. */
  method StoreNext(files: seq<File>, stamps: seq<int>, i: int, table: TextureTable,
                   ghost before: seq<TextureRecord>, ghost firstId: int, ghost vs: seq<Verdict>,
                   success: nat, errors: nat, notices: seq<Notice>)
    returns (v: Verdict, success': nat, errors': nat, notices': seq<Notice>)
    requires |stamps| == |files| && 0 <= i < |files| && |vs| == i
    requires table.Valid() && Progress(files, stamps, vs, table.rows, table.nextId, before, firstId, success, errors, notices)
    modifies table
    ensures table.Valid() && Progress(files, stamps, vs + [v], table.rows, table.nextId, before, firstId, success', errors', notices')
  {
    ghost var rows, nextId := table.rows, table.nextId;
    v := UploadFile(files[i], stamps[i], table);
    VerdictsOnStep(vs, v, files);
    ProgressStep(files, stamps, vs, v, rows, nextId, table.rows, table.nextId, before, firstId, success, errors, notices);
    success', errors', notices' := Tally(v, files[i].name, success, errors, notices);
  }

  /**
   * The loop of `handleFiles(files)`: counts and toasts each rejected file and counts
   * each stored one.
   */
  method StoreFiles(files: seq<File>, stamps: seq<int>, table: TextureTable)
    returns (success: nat, errors: nat, notices: seq<Notice>)
    requires |stamps| == |files|
    requires table.Valid()
    modifies table
    ensures table.Valid()
    ensures success == |AcceptedAt(files, stamps)| && errors == |Rejections(files)|
    ensures success + errors == |files|
    ensures table.rows == old(table.rows) + Stored(AcceptedAt(files, stamps), old(table.nextId))
    ensures table.nextId == old(table.nextId) + success
    ensures notices == Rejections(files)
  {
    success, errors := 0, 0;
    notices := [];
    ghost var before, firstId := table.rows, table.nextId;
    ghost var vs: seq<Verdict> := [];
    var i := 0;
    while i < |files|
      invariant 0 <= i <= |files| && |vs| == i
      invariant table.Valid() && Progress(files, stamps, vs, table.rows, table.nextId, before, firstId, success, errors, notices)
    {
      var v;
      v, success, errors, notices := StoreNext(files, stamps, i, table, before, firstId, vs, success, errors, notices);
      vs := vs + [v];
      i := i + 1;
    }
    assert files[..i] == files && stamps[..i] == stamps;
    VerdictsOnAll(vs, files);
    EveryFileCountedOnce(files, stamps);
  }

  /**
   * `handleFiles(files)`: the upload loop, then the reload of the list (newest first)
   * and, when anything was stored, the success toast.
   */
  method HandleFiles(files: seq<File>, stamps: seq<int>, table: TextureTable)
    returns (success: nat, errors: nat, notices: seq<Notice>, shown: seq<TextureRecord>)
    requires |stamps| == |files|
    requires table.Valid()
    modifies table
    ensures table.Valid()
    ensures success == |AcceptedAt(files, stamps)| && errors == |Rejections(files)|
    ensures success + errors == |files|
    ensures table.rows == old(table.rows) + Stored(AcceptedAt(files, stamps), old(table.nextId))
    ensures notices == Rejections(files) + (if success > 0 then [Uploaded(success)] else [])
    ensures multiset(shown) == multiset(table.rows) && NewestFirstOrder(shown)
  {
    success, errors, notices := StoreFiles(files, stamps, table);
    shown := table.GetAll();
    if success > 0 {
      notices := notices + [Uploaded(success)];
    }
  }

  // ---- the category filter and the button counts ----

  /** `textures.filter(t => t.category === cat)`. */
  function WithCategory(ts: seq<TextureRecord>, cat: string): seq<TextureRecord>
    decreases |ts|
  {
    if ts == [] then []
    else (if ts[0].texture.category == cat then [ts[0]] else []) + WithCategory(ts[1..], cat)
  }

  /** `filtered`: everything under `全部`, else the textures of the chosen category. */
  function Filtered(ts: seq<TextureRecord>, filterCat: string): seq<TextureRecord>
  {
    if filterCat == All then ts else WithCategory(ts, filterCat)
  }

  /** The count shown on a filter button. */
  function CategoryCount(ts: seq<TextureRecord>, cat: string): nat
  {
    if cat == All then |ts| else |WithCategory(ts, cat)|
  }

  /**
   * Filtering by a category keeps exactly the textures of that category, each as often as
   * it occurs, in their order.
   */
  lemma {:induction false} WithCategorySpec(ts: seq<TextureRecord>, cat: string)
    ensures forall t :: multiset(WithCategory(ts, cat))[t] == if t.texture.category == cat then multiset(ts)[t] else 0
    ensures IsSubsequence(WithCategory(ts, cat), ts)
    decreases |ts|
  {
    if ts != [] {
      WithCategorySpec(ts[1..], cat);
      var rest := WithCategory(ts[1..], cat);
      assert ts == [ts[0]] + ts[1..];
      if ts[0].texture.category == cat {
        assert ([ts[0]] + rest)[1..] == rest;
      } else {
        assert WithCategory(ts, cat) == rest;
        SubsequenceOfTail(rest, ts);
      }
    }
  }

  /**
   * `全部` shows the list unchanged; another category shows exactly the textures in it,
   * in order; every button's count is the length of what that filter shows.
   */
  lemma FilteredSpec(ts: seq<TextureRecord>, cat: string)
    ensures cat == All ==> Filtered(ts, cat) == ts
    ensures cat != All ==> IsSubsequence(Filtered(ts, cat), ts)
    ensures cat != All ==> forall t :: t in Filtered(ts, cat) <==> t in ts && t.texture.category == cat
    ensures CategoryCount(ts, cat) == |Filtered(ts, cat)|
    ensures CategoryCount(ts, All) == |ts|
  {
    WithCategorySpec(ts, cat);
    if cat != All {
      forall t ensures t in Filtered(ts, cat) <==> t in ts && t.texture.category == cat {
        assert t in Filtered(ts, cat) <==> multiset(Filtered(ts, cat))[t] > 0;
      }
    }
  }

  /** The sum of the counts of a list of categories. */
  function SumCounts(ts: seq<TextureRecord>, cats: seq<string>): nat
    decreases |cats|
  {
    if cats == [] then 0 else |WithCategory(ts, cats[0])| + SumCounts(ts, cats[1..])
  }

  predicate Distinct(cats: seq<string>) {
    forall i, j :: 0 <= i < j < |cats| ==> cats[i] != cats[j]
  }

  /** One more texture raises exactly the count of its own category, if listed. */
  lemma {:induction false} SumCountsCons(t: TextureRecord, ts: seq<TextureRecord>, cats: seq<string>)
    requires Distinct(cats)
    ensures SumCounts([t] + ts, cats) == SumCounts(ts, cats) + (if t.texture.category in cats then 1 else 0)
    decreases |cats|
  {
    if cats != [] {
      assert ([t] + ts)[1..] == ts;
      SumCountsCons(t, ts, cats[1..]);
      if t.texture.category == cats[0] {
        assert t.texture.category !in cats[1..];
      }
      assert t.texture.category in cats <==> t.texture.category == cats[0] || t.texture.category in cats[1..];
    }
  }

  /**
   * For distinct categories the counts add up to at most the total, and to the total
   * exactly when every texture has one of them.
   */
  lemma {:induction false} SumCountsBound(ts: seq<TextureRecord>, cats: seq<string>)
    requires Distinct(cats)
    ensures SumCounts(ts, cats) <= |ts|
    ensures SumCounts(ts, cats) == |ts| <==> forall i :: 0 <= i < |ts| ==> ts[i].texture.category in cats
    decreases |ts|
  {
    if ts == [] {
      SumCountsEmpty(cats);
    } else {
      assert ts == [ts[0]] + ts[1..];
      SumCountsCons(ts[0], ts[1..], cats);
      SumCountsBound(ts[1..], cats);
      if forall i :: 0 <= i < |ts[1..]| ==> ts[1..][i].texture.category in cats {
        assert forall i :: 1 <= i < |ts| ==> ts[i] == ts[1..][i - 1];
      } else {
        var i :| 0 <= i < |ts[1..]| && ts[1..][i].texture.category !in cats;
        assert ts[i + 1] == ts[1..][i];
      }
    }
  }

  lemma {:induction false} SumCountsEmpty(cats: seq<string>)
    ensures SumCounts([], cats) == 0
    decreases |cats|
  {
    if cats != [] {
      SumCountsEmpty(cats[1..]);
    }
  }

  /**
   * The five category buttons after `全部` count every texture at most once, and together
   * show the total of `全部` exactly when no texture has a category outside them.
   */
  lemma CategoryButtonsCount(ts: seq<TextureRecord>)
    ensures SumCounts(ts, NamedCategories) <= CategoryCount(ts, All)
    ensures SumCounts(ts, NamedCategories) == CategoryCount(ts, All) <==>
      forall i :: 0 <= i < |ts| ==> ts[i].texture.category in NamedCategories
  {
    NamedCategoriesDistinct();
    SumCountsBound(ts, NamedCategories);
  }

  /** The category of the hint's own example, `橡木`, has no button of its own. */
  lemma HintCategoryHasNoButton()
    ensures "橡木" !in Categories
  {
  }

  lemma NamedCategoriesDistinct()
    ensures Distinct(NamedCategories)
  {
  }
}
