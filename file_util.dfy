/** Upload helpers (src/common/util/file-util.ts): the suffix filters for
    images and PDFs, the stored-file name, and the projection of uploaded
    files into the response. Node's `path.extname` is modelled by its POSIX
    rules; `Date.now()` is the `now` parameter. */
module FileUtil {
  import opened Wrappers

  /** The fields of an uploaded file that these helpers read. */
  datatype MulterFile = MulterFile(originalname: string, filename: string, mimetype: string)

  /** A plain JavaScript object with string-valued properties. */
  type JsObject = map<string, string>

  /** What a multer filter reports through its callback: `callback(null, true)`
      or `callback(new Error(message))`. */
  datatype FilterVerdict = Accept | Reject(message: string)

  /** The alternatives of `imageRegex` and `pdfRegex`. */
  const ImageExtensions: seq<string> := ["jpg", "jpeg", "jfif", "png", "gif", "svg", "webp"]
  const PdfExtensions: seq<string> := ["pdf"]

  const ImageFormatError: string := "Không đúng định dạng ảnh"
  const PdfFormatError: string := "Không đúng định dạng pdf"

  // ---------------------------------------------------------------------
  // Suffix filters

  predicate EndsWith(s: string, suffix: string) {
    |suffix| <= |s| && s[|s| - |suffix|..] == suffix
  }

  /** What `name.match(/\.(e1|e2|...)$/)` finds: a literal dot somewhere in the
      name, followed by one of the alternatives running to the end. */
  ghost predicate RegexMatches(name: string, exts: seq<string>) {
    exists i :: 0 <= i < |name| && name[i] == '.' && name[i + 1..] in exts
  }

  /** Tries the alternatives in order, as a suffix test each. */
  function HasExtension(name: string, exts: seq<string>): (b: bool)
    ensures b <==> exists k :: 0 <= k < |exts| && EndsWith(name, "." + exts[k])
  {
    if exts == [] then false
    else EndsWith(name, "." + exts[0]) || HasExtension(name, exts[1..])
  }

  lemma RegexMatchesIsSuffixTest(name: string, exts: seq<string>)
    ensures RegexMatches(name, exts) <==> HasExtension(name, exts)
  {
    if RegexMatches(name, exts) {
      var i :| 0 <= i < |name| && name[i] == '.' && name[i + 1..] in exts;
      var k :| 0 <= k < |exts| && exts[k] == name[i + 1..];
      assert name[i..] == "." + exts[k];
    }
    if HasExtension(name, exts) {
      var k :| 0 <= k < |exts| && EndsWith(name, "." + exts[k]);
      var i := |name| - |exts[k]| - 1;
      assert name[i..] == "." + exts[k];
      assert name[i] == '.' && name[i + 1..] == exts[k];
    }
  }

  /** `imageFileFilter`: accepts exactly the names `imageRegex` matches and
      otherwise reports the format error, never both. */
  function ImageFileFilter(file: MulterFile): (v: FilterVerdict)
    ensures v == Accept <==> RegexMatches(file.originalname, ImageExtensions)
    ensures v != Accept ==> v == Reject(ImageFormatError)
  {
    RegexMatchesIsSuffixTest(file.originalname, ImageExtensions);
    if !HasExtension(file.originalname, ImageExtensions) then Reject(ImageFormatError) else Accept
  }

  /** `PdfFileFilter`: accepts exactly the names ending in `.pdf`. */
  function PdfFileFilter(file: MulterFile): (v: FilterVerdict)
    ensures v == Accept <==> EndsWith(file.originalname, ".pdf")
    ensures v != Accept ==> v == Reject(PdfFormatError)
  {
    if !HasExtension(file.originalname, PdfExtensions) then Reject(PdfFormatError) else Accept
  }

  /** Only the text after the last dot decides: the alternatives contain no
      dot, so a match can only start at the last one. */
  lemma {:induction false} OnlyLastSegmentCounts(name: string, exts: seq<string>)
    requires forall k, j :: 0 <= k < |exts| && 0 <= j < |exts[k]| ==> exts[k][j] != '.'
    ensures RegexMatches(name, exts) <==>
              LastIndexOf(name, '.').Some? && name[LastIndexOf(name, '.').value + 1..] in exts
  {
    LastIndexOfSpec(name, '.');
    var d := LastIndexOf(name, '.');
    if RegexMatches(name, exts) {
      var i :| 0 <= i < |name| && name[i] == '.' && name[i + 1..] in exts;
      var k :| 0 <= k < |exts| && exts[k] == name[i + 1..];
      assert d.Some? && i <= d.value;
    }
  }

  /** The match is case-sensitive: an upper-case extension is refused. */
  lemma UpperCaseExtensionRejected(file: MulterFile)
    requires file.originalname == "photo.JPG"
    ensures ImageFileFilter(file) == Reject(ImageFormatError)
  {
    var name := file.originalname;
    LastIndexOfIs(name, '.', 5);
    OnlyLastSegmentCounts(name, ImageExtensions);
    assert name[6..] == "JPG";
  }

  /** Only the final extension counts: an image extension in the middle of
      the name does not make it an image. */
  lemma InnerExtensionRejected(file: MulterFile)
    requires file.originalname == "photo.jpg.exe"
    ensures ImageFileFilter(file) == Reject(ImageFormatError)
  {
    var name := file.originalname;
    assert name[10..] == "exe" && name[9] == '.';
    LastIndexOfIs(name, '.', 9);
    assert "exe" !in ImageExtensions;
    OnlyLastSegmentCounts(name, ImageExtensions);
  }

  /** An image extension at the end is accepted whatever comes before it. */
  lemma FinalExtensionAccepted(file: MulterFile)
    requires file.originalname == "photo.exe.jpg"
    ensures ImageFileFilter(file) == Accept
  {
    var name := file.originalname;
    assert name[9] == '.' && name[10..] == ImageExtensions[0];
  }

  // ---------------------------------------------------------------------
  // Node's path.extname (POSIX). The scanning helpers state only their
  // bounds; what they find is stated by the lemma next to each.

  predicate NoChar(s: string, c: char) {
    forall j :: 0 <= j < |s| ==> s[j] != c
  }

  function LastIndexOf(s: string, c: char): (r: Option<nat>)
    ensures r.Some? ==> r.value < |s|
  {
    if s == [] then None
    else if s[|s| - 1] == c then Some(|s| - 1)
    else LastIndexOf(s[..|s| - 1], c)
  }

  lemma {:induction false} LastIndexOfSpec(s: string, c: char)
    ensures var r := LastIndexOf(s, c);
            && (r.Some? ==> s[r.value] == c && forall j :: r.value < j < |s| ==> s[j] != c)
            && (r.None? ==> NoChar(s, c))
  {
    if s != [] && s[|s| - 1] != c {
      LastIndexOfSpec(s[..|s| - 1], c);
    }
  }

  /** The last occurrence is the one with no occurrence after it. */
  lemma LastIndexOfIs(s: string, c: char, k: nat)
    requires k < |s| && s[k] == c
    requires forall j :: k < j < |s| ==> s[j] != c
    ensures LastIndexOf(s, c) == Some(k)
  {
    LastIndexOfSpec(s, c);
  }

  function StripTrailingSlashes(p: string): (r: string)
    ensures |r| <= |p|
  {
    if p != [] && p[|p| - 1] == '/' then StripTrailingSlashes(p[..|p| - 1]) else p
  }

  lemma {:induction false} StripTrailingSlashesSpec(p: string)
    ensures var r := StripTrailingSlashes(p);
            && r == p[..|r|]
            && (r == [] || r[|r| - 1] != '/')
            && forall j :: |r| <= j < |p| ==> p[j] == '/'
  {
    if p != [] && p[|p| - 1] == '/' {
      StripTrailingSlashesSpec(p[..|p| - 1]);
    }
  }

  /** The last path segment: everything after the last slash. */
  function LastSegment(p: string): (r: string)
    ensures |r| <= |p|
  {
    match LastIndexOf(p, '/')
    case None => p
    case Some(k) => p[k + 1..]
  }

  lemma LastSegmentSpec(p: string)
    ensures var r := LastSegment(p);
            && r == p[|p| - |r|..]
            && NoChar(r, '/')
            && (|r| < |p| ==> p[|p| - |r| - 1] == '/')
  {
    LastIndexOfSpec(p, '/');
  }

  /** `extname(path)`: from the last dot of the last segment to its end,
      except that a segment with no dot, a dot only in first position, or
      the segment `..` has no extension. */
  function Extname(path: string): string {
    var base := LastSegment(StripTrailingSlashes(path));
    match LastIndexOf(base, '.')
    case None => ""
    case Some(d) => if d == 0 || base == ".." then "" else base[d..]
  }

  /** An extension is empty or a dot followed by neither dot nor slash. */
  lemma ExtnameShape(path: string)
    ensures var r := Extname(path);
            r == [] || (r[0] == '.' && NoChar(r[1..], '.') && NoChar(r, '/'))
  {
    var base := LastSegment(StripTrailingSlashes(path));
    LastSegmentSpec(StripTrailingSlashes(path));
    LastIndexOfSpec(base, '.');
  }

  /** A path with no dot has no extension. */
  lemma NoDotNoExtname(p: string)
    requires NoChar(p, '.')
    ensures Extname(p) == ""
  {
    StripTrailingSlashesSpec(p);
    var s := StripTrailingSlashes(p);
    assert NoChar(s, '.') by {
      forall j | 0 <= j < |s| ensures s[j] != '.' {
        assert s[j] == p[j];
      }
    }
    LastSegmentSpec(s);
    var base := LastSegment(s);
    assert NoChar(base, '.') by {
      forall j | 0 <= j < |base| ensures base[j] != '.' {
        assert base[j] == s[|s| - |base| + j];
      }
    }
    LastIndexOfSpec(base, '.');
    assert LastIndexOf(base, '.') == None;
  }

  /** Appending a dot-led tail without slashes or further dots to a name
      that ends in neither a slash nor a dot makes that tail the extension. */
  lemma ExtnameOfAppended(x: string, ext: string)
    requires x != [] && x[|x| - 1] != '/' && x[|x| - 1] != '.'
    requires ext != [] && ext[0] == '.' && NoChar(ext[1..], '.') && NoChar(ext, '/')
    ensures Extname(x + ext) == ext
  {
    var p := x + ext;
    assert p[|p| - 1] == ext[|ext| - 1];
    assert StripTrailingSlashes(p) == p;
    LastSegmentOfAppended(x, ext);
    var base := LastSegment(p);
    var d := |base| - |ext|;
    forall j | d < j < |base| ensures base[j] != '.' {
      assert base[j] == ext[1..][j - d - 1];
    }
    LastIndexOfIs(base, '.', d);
  }

  /** The last segment of `x + ext` reaches back past `ext` into `x` when
      neither the end of `x` nor `ext` holds a slash. */
  lemma LastSegmentOfAppended(x: string, ext: string)
    requires x != [] && x[|x| - 1] != '/' && NoChar(ext, '/')
    ensures var base := LastSegment(x + ext);
            && |base| > |ext|
            && base[|base| - |ext|..] == ext
            && base[|base| - |ext| - 1] == x[|x| - 1]
  {
    var p := x + ext;
    LastSegmentSpec(p);
    forall j | |x| - 1 <= j < |p| ensures p[j] != '/' {
      if j >= |x| { assert p[j] == ext[j - |x|]; }
    }
    var base := LastSegment(p);
    assert base == p[|p| - |base|..];
  }

  // ---------------------------------------------------------------------
  // editFileName

  /** `name.split('.')[0]`: the text before the first dot, or all of it. */
  function BeforeFirstDot(s: string): (r: string)
    ensures |r| <= |s|
  {
    if s == [] || s[0] == '.' then [] else [s[0]] + BeforeFirstDot(s[1..])
  }

  lemma {:induction false} BeforeFirstDotSpec(s: string)
    ensures var r := BeforeFirstDot(s);
            && r == s[..|r|] && NoChar(r, '.')
            && (|r| < |s| ==> s[|r|] == '.')
  {
    if s != [] && s[0] != '.' {
      BeforeFirstDotSpec(s[1..]);
      var r := BeforeFirstDot(s[1..]);
      assert BeforeFirstDot(s) == [s[0]] + r;
      forall j | 0 <= j < |r| + 1 ensures ([s[0]] + r)[j] != '.' {
        if j > 0 { assert ([s[0]] + r)[j] == r[j - 1]; }
      }
    }
  }

  function DigitChar(d: nat): (c: char)
    requires d < 10
    ensures '0' <= c <= '9' && c as int - '0' as int == d
  {
    ('0' as int + d) as char
  }

  /** Decimal digits of a natural number, most significant first. */
  function NatToDecimal(n: nat): (r: string)
    ensures r != [] && forall j :: 0 <= j < |r| ==> '0' <= r[j] <= '9'
  {
    if n < 10 then [DigitChar(n)] else NatToDecimal(n / 10) + [DigitChar(n % 10)]
  }

  /** The number a string of decimal digits denotes. */
  function DecimalValue(s: string): nat
    requires forall j :: 0 <= j < |s| ==> '0' <= s[j] <= '9'
  {
    if s == [] then 0 else 10 * DecimalValue(s[..|s| - 1]) + (s[|s| - 1] as int - '0' as int)
  }

  lemma {:induction false} DecimalRoundTrip(n: nat)
    ensures DecimalValue(NatToDecimal(n)) == n
  {
    if n >= 10 {
      DecimalRoundTrip(n / 10);
      var r := NatToDecimal(n);
      assert r[..|r| - 1] == NatToDecimal(n / 10);
    }
  }

  /** A number in a template literal: optional minus sign, then digits. */
  function NumberToString(n: int): string {
    if n < 0 then "-" + NatToDecimal(-n) else NatToDecimal(n)
  }

  /** The number can be read back from its text. */
  lemma NumberToStringRoundTrip(n: int)
    ensures n >= 0 ==> DecimalValue(NumberToString(n)) == n
    ensures n < 0 ==> NumberToString(n)[0] == '-' && DecimalValue(NumberToString(n)[1..]) == -n
  {
    if n >= 0 {
      DecimalRoundTrip(n);
    } else {
      DecimalRoundTrip(-n);
      assert NumberToString(n)[1..] == NatToDecimal(-n);
    }
  }

  /** `editFileName`: the part before the first dot, a dash, the upload
      time, and the original extension. */
  function EditFileName(file: MulterFile, now: int): string {
    BeforeFirstDot(file.originalname) + ("-" + NumberToString(now)) + Extname(file.originalname)
  }

  /** The stored name splits back into its parts: it starts with the text
      before the first dot and a dash, ends with the original extension, and
      the time stands in between. */
  lemma EditFileNameParts(file: MulterFile, now: int)
    ensures var r, stem, ext := EditFileName(file, now), BeforeFirstDot(file.originalname), Extname(file.originalname);
            && |stem| + 1 + |ext| < |r|
            && r[..|stem|] == stem && r[|stem|] == '-'
            && r[|r| - |ext|..] == ext
            && r[|stem| + 1..|r| - |ext|] == NumberToString(now)
  {
    var stem, ext, digits := BeforeFirstDot(file.originalname), Extname(file.originalname), NumberToString(now);
    var middle := "-" + digits;
    assert middle[1..] == digits;
    SplitAround(stem, middle, ext);
  }

  /** Slicing `a + m + c` back into its pieces. */
  lemma SplitAround(a: string, m: string, c: string)
    requires m != []
    ensures var r := a + m + c;
            && |r| == |a| + |m| + |c|
            && r[..|a|] == a && r[|a|] == m[0]
            && r[|r| - |c|..] == c
            && r[|a| + 1..|r| - |c|] == m[1..]
  {
    var r := a + m + c;
    var mid := r[|a| + 1..|r| - |c|];
    forall j | 0 <= j < |mid| ensures mid[j] == m[1..][j] {
      assert mid[j] == r[|a| + 1 + j];
    }
  }

  /** The stem, a dash and the time hold no dot and end in a digit. */
  lemma StampedStem(stem: string, now: int)
    requires NoChar(stem, '.')
    ensures var x := stem + ("-" + NumberToString(now));
            && x != [] && '0' <= x[|x| - 1] <= '9' && NoChar(x, '.')
  {
    var digits := if now < 0 then NatToDecimal(-now) else NatToDecimal(now);
    var middle := "-" + NumberToString(now);
    assert NumberToString(now) == if now < 0 then "-" + digits else digits;
    assert NoChar(NumberToString(now), '.') by {
      var t := NumberToString(now);
      forall j | 0 <= j < |t| ensures t[j] != '.' {
        if now < 0 && j > 0 { assert t[j] == digits[j - 1]; }
      }
    }
    var x := stem + middle;
    forall j | 0 <= j < |x| ensures x[j] != '.' {
      if j > |stem| {
        assert x[j] == NumberToString(now)[j - |stem| - 1];
      }
    }
    assert x[|x| - 1] == digits[|digits| - 1];
  }

  /** Renaming keeps the extension `extname` sees. */
  lemma EditFileNameKeepsExtension(file: MulterFile, now: int)
    ensures Extname(EditFileName(file, now)) == Extname(file.originalname)
  {
    var stem, ext := BeforeFirstDot(file.originalname), Extname(file.originalname);
    var x := stem + ("-" + NumberToString(now));
    assert EditFileName(file, now) == x + ext;
    BeforeFirstDotSpec(file.originalname);
    StampedStem(stem, now);
    if ext == [] {
      assert x + ext == x;
      NoDotNoExtname(x);
    } else {
      ExtnameShape(file.originalname);
      ExtnameOfAppended(x, ext);
    }
  }

  /** An upload whose extension is an accepted image extension is stored
      under a name the image filter still accepts. */
  lemma RenamedImageStillAccepted(file: MulterFile, now: int, k: nat)
    requires k < |ImageExtensions| && Extname(file.originalname) == "." + ImageExtensions[k]
    ensures ImageFileFilter(MulterFile(EditFileName(file, now), file.filename, file.mimetype)) == Accept
  {
    EditFileNameParts(file, now);
    var r := EditFileName(file, now);
    assert EndsWith(r, "." + ImageExtensions[k]);
  }

  // ---------------------------------------------------------------------
  // Response projection

  /** The properties of the uploaded file object these helpers can see. */
  function FieldsOf(f: MulterFile): JsObject {
    map["originalname" := f.originalname, "filename" := f.filename, "mimetype" := f.mimetype]
  }

  /** `Partial<Express.Multer.File>`: every property is one of the file's, with
      the file's value. */
  ghost predicate IsPartialOf(o: JsObject, f: MulterFile) {
    forall key :: key in o ==> key in FieldsOf(f) && o[key] == FieldsOf(f)[key]
  }

  /** The object literal of `toResponseFile` as it is written, with the key
      `minetype`. */
  function ToResponseFileAsWritten(f: MulterFile): (o: JsObject)
    ensures o.Keys == {"filename", "minetype"}
    ensures o["filename"] == f.filename && o["minetype"] == f.mimetype
  {
    map["filename" := f.filename, "minetype" := f.mimetype]
  }

  /** As written, the response has no `mimetype` property and is not a
      partial file: `minetype` is not a property of a file. */
  lemma AsWrittenLosesMimetype(f: MulterFile)
    ensures "mimetype" !in ToResponseFileAsWritten(f)
    ensures !IsPartialOf(ToResponseFileAsWritten(f), f)
  {
    assert "minetype" in ToResponseFileAsWritten(f);
    assert "minetype" !in FieldsOf(f);
  }

  /** `toResponseFile` with the key spelled `mimetype`: a partial file holding
      exactly the stored name and the MIME type. */
  function ToResponseFile(f: MulterFile): (o: JsObject)
    ensures IsPartialOf(o, f)
    ensures o.Keys == {"filename", "mimetype"}
  {
    map["filename" := f.filename, "mimetype" := f.mimetype]
  }

  /** The loop of `toResponseFiles`: one object per file, pushed in order,
      built by `project`. */
  method ProjectFiles(files: seq<MulterFile>, project: MulterFile -> JsObject)
    returns (response: seq<JsObject>)
    ensures |response| == |files|
    ensures forall i :: 0 <= i < |files| ==> response[i] == project(files[i])
  {
    response := [];
    var i := 0;
    while i < |files|
      invariant 0 <= i <= |files|
      invariant |response| == i
      invariant forall j :: 0 <= j < i ==> response[j] == project(files[j])
    {
      var fileResponse := project(files[i]);
      response := response + [fileResponse];
      i := i + 1;
    }
  }

  /** `toResponseFiles` as written: every object carries `minetype`, so none
      of them has a `mimetype` property. */
  method ToResponseFilesAsWritten(files: seq<MulterFile>) returns (response: seq<JsObject>)
    ensures |response| == |files|
    ensures forall i :: 0 <= i < |files| ==> response[i] == ToResponseFileAsWritten(files[i])
    ensures forall i :: 0 <= i < |files| ==> "mimetype" !in response[i] && "minetype" in response[i] && response[i]["minetype"] == files[i].mimetype
  {
    response := ProjectFiles(files, ToResponseFileAsWritten);
  }

  /** `toResponseFiles` with the key spelled `mimetype`: one partial file per
      upload, in order. */
  method ToResponseFiles(files: seq<MulterFile>) returns (response: seq<JsObject>)
    ensures |response| == |files|
    ensures forall i :: 0 <= i < |files| ==> response[i] == ToResponseFile(files[i])
    ensures forall i :: 0 <= i < |files| ==> IsPartialOf(response[i], files[i])
  {
    response := ProjectFiles(files, ToResponseFile);
  }
}
