/**
 * The upload helpers of src/modules/storage/cloudinary.ts: the file filter
 * given to multer, the upload error handler, and the options uploadToCloudinary
 * derives from a file before handing it to Cloudinary. The upload itself, the
 * base64 encoding and the library configuration are not modelled; the clock
 * and the random draw enter as `timestamp` and `uniqueId`.
 */
module Storage {
  import opened Wrappers
  import opened Utils

  // ---------------------------------------------------------------------------
  // The file filter

  const AllowedImageTypes: seq<string> := ["image/jpeg", "image/jpg", "image/png", "image/gif"]

  /** The top-level type of every document type. */
  const Application := "application/"

  /** The common prefix of the three Office Open XML types. */
  const OfficeOpenXml := Application + "vnd.openxmlformats-officedocument."

  const AllowedDocTypes: seq<string> := [
    Application + "pdf",
    Application + "msword",
    OfficeOpenXml + "wordprocessingml.document",
    Application + "vnd.ms-excel",
    OfficeOpenXml + "spreadsheetml.sheet",
    Application + "vnd.ms-powerpoint",
    OfficeOpenXml + "presentationml.presentation"
  ]

  /** What the filter hands multer's callback: `cb(null, true)` or
      `cb(new Error(message))`. */
  datatype FilterDecision = Accept | Reject(message: string)

  /** fileFilter, on `req.get('Authorization')` (None when absent) and the
      file's MIME type. An empty header is falsy and counts as absent. */
  function FileFilter(authorization: Option<string>, mimetype: string): FilterDecision {
    if authorization.None? || authorization.value == "" then Reject("No authorization header")
    else if mimetype in AllowedImageTypes || mimetype in AllowedDocTypes then Accept
    else Reject("Invalid file type")
  }

  /** Without an Authorization header every file is refused, whatever its type. */
  lemma FileFilterNeedsHeader(authorization: Option<string>, mimetype: string)
    requires authorization.None? || authorization.value == ""
    ensures FileFilter(authorization, mimetype) == Reject("No authorization header")
  {
  }

  /** With a header, a file passes exactly when its type is one of the eleven
      listed ones (four image types, seven document types); any other type is
      refused as an invalid file type. */
  lemma FileFilterAllowList(authorization: Option<string>, mimetype: string)
    requires authorization.Some? && authorization.value != ""
    ensures |AllowedImageTypes| == 4 && |AllowedDocTypes| == 7
    ensures FileFilter(authorization, mimetype) == Accept <==>
              mimetype in AllowedImageTypes || mimetype in AllowedDocTypes
    ensures FileFilter(authorization, mimetype) != Accept ==>
              FileFilter(authorization, mimetype) == Reject("Invalid file type")
  {
  }

  // ---------------------------------------------------------------------------
  // The error handler

  /** What reaches the handler: a multer error or any other Error, each with
      its message. */
  datatype UploadError = MulterError(message: string) | OtherError(message: string)

  /** `{ success, message, statusCode }`, sent as `{ result: ... }`. */
  datatype ErrorResult = ErrorResult(success: bool, message: string, statusCode: int)

  /** A 400 response, or `next()`. */
  datatype Handling = Respond(status: int, result: ErrorResult) | CallNext

  /** handleUploadErrors: every error becomes a 400 with success false, a multer
      error's message prefixed with "Upload error: "; without an error the
      request goes on. */
  function HandleUploadErrors(err: Option<UploadError>): (h: Handling)
    ensures err.None? <==> h.CallNext?
    ensures h.Respond? ==> h.status == 400 && h.result.statusCode == 400 && !h.result.success
    ensures err.Some? && err.value.MulterError? ==> h.result.message == "Upload error: " + err.value.message
    ensures err.Some? && err.value.OtherError? ==> h.result.message == err.value.message
  {
    match err
    case Some(MulterError(message)) => Respond(400, ErrorResult(false, "Upload error: " + message, 400))
    case Some(OtherError(message)) => Respond(400, ErrorResult(false, message, 400))
    case None => CallNext
  }

  // ---------------------------------------------------------------------------
  // Path helpers (Node's path module on a single path component)

  predicate EndsWith(s: string, suffix: string) {
    |suffix| <= |s| && s[|s| - |suffix|..] == suffix
  }

  /** The position of the last `c` in `s`. */
  function LastIndexOf(s: string, c: char): (r: Option<nat>)
    ensures r.Some? ==> r.value < |s| && s[r.value] == c && forall k :: r.value < k < |s| ==> s[k] != c
    ensures r.None? ==> c !in s
  {
    if s == [] then None
    else if s[|s| - 1] == c then Some(|s| - 1)
    else LastIndexOf(s[..|s| - 1], c)
  }

  /** `path.extname(name)`: from the last '.' to the end, except that a name
      whose only dot is its first character (".env") and the name ".." have
      none. */
  function Extname(name: string): (ext: string)
    ensures ext == "" || (ext[0] == '.' && EndsWith(name, ext) && '.' !in ext[1..])
    ensures ext == "" <==> (|name| == 0 || '.' !in name[1..] || name == "..")
    ensures ext != "" ==> |ext| < |name|
  {
    match LastIndexOf(name, '.')
    case None => ""
    case Some(d) =>
      if d == 0 || name == ".." then
        assert |name| > 0 ==> forall k :: 0 <= k < |name[1..]| ==> name[1..][k] == name[k + 1];
        ""
      else
        assert name[1..][d - 1] == '.';
        assert forall k :: 1 <= k < |name[d..]| ==> name[d..][k] == name[d + k];
        name[d..]
  }

  /** An occurrence of `c` with none after it is the last one. */
  lemma LastIndexOfIs(s: string, c: char, q: nat)
    requires q < |s| && s[q] == c && forall k :: q < k < |s| ==> s[k] != c
    ensures LastIndexOf(s, c) == Some(q)
  {
  }

  /** A name made of a non-empty stem, a dot and a dot-free extension has that
      extension: "photo.png" gives ".png" and "report.tar.gz" gives ".gz". */
  lemma ExtnameAfterLastDot(stem: string, e: string)
    requires stem != "" && '.' !in e && !(stem == "." && e == "")
    ensures Extname(stem + "." + e) == "." + e
  {
    var name := stem + "." + e;
    assert name != ".." by {
      if |name| == 2 {
        assert |stem| == 1 && e == [] && stem == [name[0]];
      }
    }
    assert forall k :: |stem| < k < |name| ==> name[k] == e[k - |stem| - 1];
    LastIndexOfIs(name, '.', |stem|);
    assert name[|stem|..] == "." + e;
  }

  /** `path.basename(name, suffix)`: `name` without `suffix` when it ends
      with it. */
  function Basename(name: string, suffix: string): (b: string)
    ensures suffix != "" && EndsWith(name, suffix) ==> b + suffix == name
    ensures !(suffix != "" && EndsWith(name, suffix)) ==> b == name
  {
    if suffix != "" && EndsWith(name, suffix) then
      assert name[..|name| - |suffix|] + name[|name| - |suffix|..] == name;
      name[..|name| - |suffix|]
    else name
  }

  // ---------------------------------------------------------------------------
  // Upload options

  /** The parts of a multer file the upload uses. */
  datatype File = File(fieldname: string, originalname: string, mimetype: string)

  datatype Transformation = Quality(quality: string) | FetchFormat(format: string)

  /** The options object given to `cloudinary.uploader.upload`. */
  datatype UploadOptions = UploadOptions(
    folder: string,
    resourceType: string,
    accessMode: string,
    publicId: string,
    transformation: seq<Transformation>)

  predicate IsImage(mimetype: string) {
    StartsWith(mimetype, "image/")
  }

  /** `path.basename(file.fieldname, path.extname(file.originalname))` */
  function Stem(file: File): string {
    Basename(file.fieldname, Extname(file.originalname))
  }

  /** `public_id`: the stem, the timestamp and the random id joined with '-',
      followed by the original extension for a file that is not an image. */
  function PublicId(file: File, timestamp: nat, uniqueId: nat): string {
    var base := Stem(file) + "-" + NatToString(timestamp) + "-" + NatToString(uniqueId);
    if IsImage(file.mimetype) then base else base + Extname(file.originalname)
  }

  /** The options uploadToCloudinary builds for `file` and `folder` at time
      `timestamp` with the random `uniqueId`. */
  function UploadOptionsFor(file: File, folder: string, timestamp: nat, uniqueId: nat): (o: UploadOptions)
    ensures o.resourceType == "image" <==> IsImage(file.mimetype)
    ensures o.resourceType == "raw" <==> !IsImage(file.mimetype)
    ensures o.transformation != [] <==> IsImage(file.mimetype)
    ensures IsImage(file.mimetype) ==> o.transformation == [Quality("auto:best"), FetchFormat("auto")]
    ensures o.folder == if folder == "" then "Vyntra" else folder
    ensures o.accessMode == "public"
    ensures IsImage(file.mimetype) ==>
              o.publicId == Stem(file) + "-" + NatToString(timestamp) + "-" + NatToString(uniqueId)
    ensures !IsImage(file.mimetype) ==>
              o.publicId == Stem(file) + "-" + NatToString(timestamp) + "-" + NatToString(uniqueId)
                            + Extname(file.originalname)
  {
    var image := IsImage(file.mimetype);
    var resourceType := if image then "image" else "raw";
    UploadOptions(
      if folder == "" then "Vyntra" else folder,
      resourceType,
      "public",
      PublicId(file, timestamp, uniqueId),
      if image then [Quality("auto:best"), FetchFormat("auto")] else [])
  }

  /** A string built on `prefix` starts with it. */
  lemma StartsWithConcat(prefix: string, rest: string)
    ensures StartsWith(prefix + rest, prefix)
  {
    assert (prefix + rest)[..|prefix|] == prefix;
  }

  /** Every document type is an "application/..." type. */
  lemma DocTypesAreApplications()
    ensures forall k :: 0 <= k < |AllowedDocTypes| ==> StartsWith(AllowedDocTypes[k], Application)
  {
    forall k | 0 <= k < |AllowedDocTypes|
      ensures StartsWith(AllowedDocTypes[k], Application)
    {
      var office := "vnd.openxmlformats-officedocument.";
      var rest :=
        if k == 0 then "pdf"
        else if k == 1 then "msword"
        else if k == 2 then office + "wordprocessingml.document"
        else if k == 3 then "vnd.ms-excel"
        else if k == 4 then office + "spreadsheetml.sheet"
        else if k == 5 then "vnd.ms-powerpoint"
        else office + "presentationml.presentation";
      assert AllowedDocTypes[k] == Application + rest;
      StartsWithConcat(Application, rest);
    }
  }

  /** A file the filter accepts is uploaded as an image exactly when its type is
      on the image list; the seven document types go up as raw files. */
  lemma AcceptedFileResourceType(authorization: Option<string>, file: File, folder: string, timestamp: nat, uniqueId: nat)
    requires FileFilter(authorization, file.mimetype) == Accept
    ensures UploadOptionsFor(file, folder, timestamp, uniqueId).resourceType == "image" <==>
              file.mimetype in AllowedImageTypes
  {
    var m := file.mimetype;
    StartsWithFirst(m, "image/");
    if m in AllowedImageTypes {
      assert m == AllowedImageTypes[0] || m == AllowedImageTypes[1] || m == AllowedImageTypes[2] || m == AllowedImageTypes[3];
      assert m[..6] == "image/";
    } else {
      DocTypesAreApplications();
      StartsWithFirst(m, Application);
      assert Application[0] == 'a';
    }
  }

  /** The position of the first `c` in `s`, or |s| when there is none. */
  function IndexOf(s: string, c: char): (i: nat)
    ensures i <= |s| && forall k :: 0 <= k < i ==> s[k] != c
    ensures i < |s| ==> s[i] == c
  {
    if s == [] || s[0] == c then 0 else 1 + IndexOf(s[1..], c)
  }

  /** In `a + c + b` where `a` has no `c`, the first `c` stands right after `a`. */
  lemma {:induction false} IndexOfAfter(a: string, c: char, b: string)
    requires c !in a
    ensures IndexOf(a + [c] + b, c) == |a|
  {
    if a != [] {
      assert (a + [c] + b)[1..] == a[1..] + [c] + b;
      IndexOfAfter(a[1..], c, b);
    }
  }

  /** Cutting at the first '-' undoes joining two dash-free strings with one. */
  lemma DashJoinInjective(a1: string, b1: string, a2: string, b2: string)
    requires '-' !in a1 && '-' !in a2
    requires a1 + "-" + b1 == a2 + "-" + b2
    ensures a1 == a2 && b1 == b2
  {
    var s := a1 + "-" + b1;
    IndexOfAfter(a1, '-', b1);
    IndexOfAfter(a2, '-', b2);
    assert a1 == s[..|a1|] && a2 == s[..|a2|];
    assert b1 == s[|a1| + 1..] && b2 == s[|a2| + 1..];
  }

  lemma NoDashInDecimal(n: nat)
    ensures '-' !in NatToString(n)
  {
    var s := NatToString(n);
    assert forall k :: 0 <= k < |s| ==> IsDigit(s[k]);
  }

  /** A common prefix and a common suffix can be cut off both sides. */
  lemma StripAffixes(prefix: string, r1: string, r2: string, suffix: string)
    requires prefix + r1 + suffix == prefix + r2 + suffix
    ensures r1 == r2
  {
    var s1, s2 := prefix + r1 + suffix, prefix + r2 + suffix;
    assert r1 == s1[|prefix|..|s1| - |suffix|];
    assert r2 == s2[|prefix|..|s2| - |suffix|];
  }

  /** The extension a public id ends with: none for an image. */
  function IdSuffix(file: File): string {
    if IsImage(file.mimetype) then "" else Extname(file.originalname)
  }

  /** A public id is the stem and a dash, the two numbers joined by a dash, and
      the suffix. */
  lemma PublicIdParts(file: File, timestamp: nat, uniqueId: nat)
    ensures PublicId(file, timestamp, uniqueId)
            == (Stem(file) + "-") + (NatToString(timestamp) + "-" + NatToString(uniqueId)) + IdSuffix(file)
  {
  }

  /** For one file, the public id tells the upload's timestamp and random id
      apart: two uploads get the same public id exactly when both numbers
      agree. */
  lemma PublicIdIdentifiesUpload(file: File, ts1: nat, id1: nat, ts2: nat, id2: nat)
    ensures PublicId(file, ts1, id1) == PublicId(file, ts2, id2) <==> ts1 == ts2 && id1 == id2
  {
    if PublicId(file, ts1, id1) == PublicId(file, ts2, id2) {
      PublicIdParts(file, ts1, id1);
      PublicIdParts(file, ts2, id2);
      StripAffixes(Stem(file) + "-", NatToString(ts1) + "-" + NatToString(id1),
                   NatToString(ts2) + "-" + NatToString(id2), IdSuffix(file));
      NoDashInDecimal(ts1);
      NoDashInDecimal(ts2);
      DashJoinInjective(NatToString(ts1), NatToString(id1), NatToString(ts2), NatToString(id2));
      NatToStringInjective(ts1, ts2);
      NatToStringInjective(id1, id2);
    }
  }
}
