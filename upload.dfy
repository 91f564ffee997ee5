/**
 * `POST /api/v1/upload` (src/app/api/v1/upload/route.ts): the checks on an
 * uploaded image and the URL it is given. Creating the upload directory and
 * writing the bytes to disk are not part of this model, so the handler is a
 * function to a response; the random UUID of the stored file is a parameter.
 */
module Upload {
  import opened Wrappers
  import opened Strings
  import opened Store
  import opened Tokens

  /** The parts of the multipart `file` field that the handler looks at. */
  datatype FileInfo = FileInfo(name: string, mimeType: string, size: int)

  const AllowedTypes: seq<string> := ["image/jpeg", "image/png", "image/webp", "image/gif"]

  /** 5 MiB, the largest accepted size. */
  const MaxSize: int := 5 * 1024 * 1024

  const Unauthorized := "Unauthorized"
  const NoFile := "No file provided"
  const BadType := "File must be JPEG, PNG, WebP, or GIF"
  const TooLarge := "File must be under 5MB"

  /** `name.split('.').pop() || 'jpg'`. */
  function Extension(name: string): string
  {
    var parts := Split(name, '.');
    var last := parts[|parts| - 1];
    if last == "" then "jpg" else last
  }

  function UploadStep(c: Codec, d: Db, authHeader: Option<string>, now: int, file: Option<FileInfo>, uuid: string): Response
  {
    if GetUserFromToken(c, authHeader, now, d).None? then Err(401, Unauthorized)
    else if file.None? then Err(400, NoFile)
    else if file.value.mimeType !in AllowedTypes then Err(400, BadType)
    else if file.value.size > MaxSize then Err(400, TooLarge)
    else Ok(201, UploadedUrl("/uploads/" + uuid + "." + Extension(file.value.name)))
  }

  /**
   * The extension is the text after the last '.' of the name, or the whole
   * name when it has no '.'; when that text is empty (an empty name, or one
   * ending in '.') it is "jpg". It never contains a '.'.
   */
  lemma ExtensionFacts(name: string)
    ensures var e := Extension(name);
      && '.' !in e && e != ""
      && (name == "" || name[|name| - 1] == '.' ==> e == "jpg")
      && (name != "" && name[|name| - 1] != '.' ==>
            && |e| <= |name| && name[|name| - |e|..] == e
            && (|e| == |name| || name[|name| - |e| - 1] == '.'))
      && ('.' !in name && name != "" ==> e == name)
  {
    LastPiece(name, '.');
    var parts := Split(name, '.');
    var last := parts[|parts| - 1];
    if name != "" && name[|name| - 1] == '.' {
      assert name[|name| - 1] in name[|name| - |last|..] || last == "";
    }
    if '.' !in name {
      SplitSingle(name, '.');
    }
  }

  /**
   * The checks come in order: no caller gives 401, no file 400 "No file
   * provided", a type outside JPEG, PNG, WebP and GIF 400 (whatever the
   * size), and only then a size above 5 MiB 400. A file of exactly 5 MiB
   * passes.
   */
  lemma UploadRefusals(c: Codec, d: Db, authHeader: Option<string>, now: int, file: Option<FileInfo>, uuid: string)
    ensures var r := UploadStep(c, d, authHeader, now, file, uuid);
      && (GetUserFromToken(c, authHeader, now, d).None? ==> r == Err(401, Unauthorized))
      && (GetUserFromToken(c, authHeader, now, d).Some? ==>
            && (file.None? ==> r == Err(400, NoFile))
            && (file.Some? ==>
                  && (r == Err(400, BadType) <==>
                        file.value.mimeType != "image/jpeg" && file.value.mimeType != "image/png" &&
                        file.value.mimeType != "image/webp" && file.value.mimeType != "image/gif")
                  && (r == Err(400, TooLarge) <==>
                        file.value.mimeType in AllowedTypes && file.value.size > 5242880)
                  && (r.Ok? <==> file.value.mimeType in AllowedTypes && file.value.size <= 5242880)))
  {
  }

  /**
   * An accepted upload answers 201 with the URL "/uploads/", the UUID, '.'
   * and the extension of the name.
   */
  lemma UploadUrl(c: Codec, d: Db, authHeader: Option<string>, now: int, file: Option<FileInfo>, uuid: string)
    requires UploadStep(c, d, authHeader, now, file, uuid).Ok?
    ensures var r := UploadStep(c, d, authHeader, now, file, uuid);
      && r.status == 201 && r.body.UploadedUrl?
      && r.body.url == "/uploads/" + uuid + "." + Extension(file.value.name)
      && StartsWith(r.body.url, "/uploads/" + uuid + ".")
      && '.' !in r.body.url[|"/uploads/" + uuid + "."|..]
  {
    ExtensionFacts(file.value.name);
    var r := UploadStep(c, d, authHeader, now, file, uuid);
    assert r.body.url[|"/uploads/" + uuid + "."|..] == Extension(file.value.name);
  }

  /** "photo.png" keeps "png". */
  lemma ExtensionOfPng()
    ensures Extension("photo.png") == "png"
  {
    SplitCons("photo", "png", '.');
    assert "photo.png" == "photo" + ['.'] + "png";
    SplitSingle("png", '.');
  }

  /** "archive.tar.gz" gives "gz", the text after the last dot. */
  lemma ExtensionOfTarGz()
    ensures Extension("archive.tar.gz") == "gz"
  {
    SplitCons("tar", "gz", '.');
    assert "tar.gz" == "tar" + ['.'] + "gz";
    SplitSingle("gz", '.');
    SplitCons("archive", "tar.gz", '.');
    assert "archive.tar.gz" == "archive" + ['.'] + "tar.gz";
  }

  /** A name ending in '.' gets "jpg". */
  lemma ExtensionOfTrailingDot()
    ensures Extension("photo.") == "jpg"
  {
    SplitCons("photo", "", '.');
    assert "photo." == "photo" + ['.'] + "";
  }
}
