/** The root component's upload form: before a file is sent, its MIME type is
    checked against the comma-separated accept list and its size against the
    configured bounds, and the first check that fails is recorded in the
    component's error field. */
module UploadForm {
  import opened Wrappers
  import opened Text

  /** What the component reads of the browser's File: name, MIME type, size in bytes. */
  datatype FileInfo = FileInfo(name: string, mimeType: string, size: nat)

  /** The messages the component can show, by kind. */
  datatype UploadError = InvalidType | TooLarge | TooSmall | UploadFailed

  const DefaultAccept: string := "application/zip"
  const ZipType: string := "application/zip"
  const ZipAlias: string := "application/x-zip-compressed"
  const DefaultMaxSize: int := 6 * 1024 * 1024
  const DefaultMinSize: int := 0

  /** The accept list: split on ',' and each element trimmed. */
  function Patterns(accept: string): (r: seq<string>)
    ensures |r| == |Split(accept, ',')| >= 1
    ensures forall i | 0 <= i < |r| :: r[i] == Trim(Split(accept, ',')[i])
  {
    TrimAll(Split(accept, ','))
  }

  function TrimAll(xs: seq<string>): (r: seq<string>)
    ensures |r| == |xs|
    ensures forall i | 0 <= i < |r| :: r[i] == Trim(xs[i])
  {
    if xs == [] then [] else [Trim(xs[0])] + TrimAll(xs[1..])
  }

  /** One accept pattern against a MIME type. A wildcard pattern (one that
      ends in a slash and a star) accepts any type that starts with the text
      before the pattern's first slash; any other pattern must equal the type,
      and "application/zip" also accepts "application/x-zip-compressed". */
  predicate Matches(pattern: string, mimeType: string)
  {
    if EndsWith(pattern, "/*") then StartsWith(mimeType, FirstField(pattern, '/'))
    else mimeType == pattern || (pattern == ZipType && mimeType == ZipAlias)
  }

  /** `acceptedTypes.some(...)` */
  predicate AnyMatches(patterns: seq<string>, mimeType: string)
  {
    exists i | 0 <= i < |patterns| :: Matches(patterns[i], mimeType)
  }

  predicate IsValidType(accept: string, mimeType: string)
  {
    AnyMatches(Patterns(accept), mimeType)
  }

  /** The checks in their order; None means the file is sent. */
  function Validate(accept: string, maxSize: int, minSize: int, f: FileInfo): Option<UploadError>
  {
    if !IsValidType(accept, f.mimeType) then Some(InvalidType)
    else if f.size > maxSize then Some(TooLarge)
    else if f.size < minSize then Some(TooSmall)
    else None
  }

  // ---------------------------------------------------------------------------
  // Properties of the checks

  /** Each verdict happens exactly when its check is the first to fail; the
      bounds themselves are accepted. */
  lemma ValidationVerdicts(accept: string, maxSize: int, minSize: int, f: FileInfo)
    ensures Validate(accept, maxSize, minSize, f) == Some(InvalidType) <==> !IsValidType(accept, f.mimeType)
    ensures Validate(accept, maxSize, minSize, f) == Some(TooLarge) <==> IsValidType(accept, f.mimeType) && f.size > maxSize
    ensures Validate(accept, maxSize, minSize, f) == Some(TooSmall)
      <==> IsValidType(accept, f.mimeType) && f.size <= maxSize && f.size < minSize
    ensures Validate(accept, maxSize, minSize, f) == None
      <==> IsValidType(accept, f.mimeType) && minSize <= f.size <= maxSize
    ensures Validate(accept, maxSize, minSize, f) != Some(UploadFailed)
  {
  }

  /** With the default bounds no size is too small, and anything up to and
      including 6 MiB passes the size checks. */
  lemma DefaultBounds(accept: string, f: FileInfo)
    ensures Validate(accept, DefaultMaxSize, DefaultMinSize, f) != Some(TooSmall)
    ensures IsValidType(accept, f.mimeType) && f.size <= 6291456 ==> Validate(accept, DefaultMaxSize, DefaultMinSize, f) == None
  {
  }

  /** `some` over two lists is `some` over either. */
  lemma AnyMatchesAppend(xs: seq<string>, ys: seq<string>, mimeType: string)
    ensures AnyMatches(xs + ys, mimeType) <==> AnyMatches(xs, mimeType) || AnyMatches(ys, mimeType)
  {
    var p := xs + ys;
    if AnyMatches(p, mimeType) {
      var i :| 0 <= i < |p| && Matches(p[i], mimeType);
      if i < |xs| {
        assert p[i] == xs[i];
      } else {
        assert p[i] == ys[i - |xs|];
      }
    }
    if AnyMatches(xs, mimeType) {
      var i :| 0 <= i < |xs| && Matches(xs[i], mimeType);
      assert p[i] == xs[i];
    }
    if AnyMatches(ys, mimeType) {
      var i :| 0 <= i < |ys| && Matches(ys[i], mimeType);
      assert p[|xs| + i] == ys[i];
    }
  }

  lemma {:induction false} TrimAllAppend(xs: seq<string>, ys: seq<string>)
    ensures TrimAll(xs + ys) == TrimAll(xs) + TrimAll(ys)
  {
    if xs == [] {
      assert xs + ys == ys;
    } else {
      assert (xs + ys)[0] == xs[0] && (xs + ys)[1..] == xs[1..] + ys;
      TrimAllAppend(xs[1..], ys);
    }
  }

  /** A list of two parts accepts what either part accepts. */
  lemma AcceptListUnion(a: string, b: string, mimeType: string)
    ensures IsValidType(a + "," + b, mimeType) <==> IsValidType(a, mimeType) || IsValidType(b, mimeType)
  {
    var xs := Split(a, ',');
    var ys := Split(b, ',');
    SplitConcat(a, b, ',');
    assert a + "," + b == a + [','] + b;
    assert Split(a + "," + b, ',') == xs + ys;
    TrimAllAppend(xs, ys);
    AnyMatchesAppend(TrimAll(xs), TrimAll(ys), mimeType);
  }

  /** A single pattern without a comma or surrounding white space is the whole
      list. */
  lemma SinglePattern(pattern: string, mimeType: string)
    requires ',' !in pattern
    requires pattern != [] ==> !IsSpace(pattern[0]) && !IsSpace(pattern[|pattern| - 1])
    ensures IsValidType(pattern, mimeType) <==> Matches(pattern, mimeType)
  {
    SplitJoin([pattern], ',');
    TrimUntouched(pattern);
    assert Patterns(pattern) == [pattern];
  }

  /** The default list has no comma and no surrounding white space. */
  lemma DefaultIsOnePattern()
    ensures ',' !in DefaultAccept
    ensures !IsSpace(DefaultAccept[0]) && !IsSpace(DefaultAccept[|DefaultAccept| - 1])
    ensures !EndsWith(DefaultAccept, "/*")
  {
    assert DefaultAccept[|DefaultAccept| - 2..] == "ip";
  }

  /** The default list accepts exactly the two ZIP types. */
  lemma DefaultAcceptsZip(mimeType: string)
    ensures IsValidType(DefaultAccept, mimeType) <==> mimeType == ZipType || mimeType == ZipAlias
  {
    DefaultIsOnePattern();
    SinglePattern(DefaultAccept, mimeType);
  }

  /** Example: a wildcard is a bare prefix test. "image/" + "*" accepts
      "imagery/x", and a type equal to the base with no '/' is accepted too. */
  lemma WildcardIsPrefixTest()
    ensures Matches("image/*", "imagery/x")
    ensures Matches("image/*", "image")
    ensures !Matches("image/*", "text/image")
  {
    assert IndexOf("image/*", '/') == 5;
    assert FirstField("image/*", '/') == "image";
  }

  // ---------------------------------------------------------------------------
  // The component

  class AppComponent {
    var error: Option<UploadError>
    var acceptedFileTypes: string
    var maxFileSize: int
    var minFileSize: int
    /** The files handed to the upload service, oldest first. */
    var uploads: seq<FileInfo>
    /** How many times the course list has been fetched after an upload. */
    var courseReloads: nat

    constructor ()
      ensures error == None && uploads == [] && courseReloads == 0
      ensures acceptedFileTypes == DefaultAccept && maxFileSize == DefaultMaxSize && minFileSize == DefaultMinSize
    {
      error := None;
      acceptedFileTypes := DefaultAccept;
      maxFileSize := DefaultMaxSize;
      minFileSize := DefaultMinSize;
      uploads := [];
      courseReloads := 0;
    }

    /** handleUploadFile: the first failed check is recorded and nothing is
        sent; when all checks pass the file is sent and the error field keeps
        whatever it held. */
    method HandleUploadFile(file: FileInfo)
      modifies this
      ensures var v := Validate(acceptedFileTypes, maxFileSize, minFileSize, file);
        && error == (if v.Some? then v else old(error))
        && uploads == (if v.Some? then old(uploads) else old(uploads) + [file])
      ensures acceptedFileTypes == old(acceptedFileTypes) && maxFileSize == old(maxFileSize)
      ensures minFileSize == old(minFileSize) && courseReloads == old(courseReloads)
    {
      var acceptedTypes := Patterns(acceptedFileTypes);
      var isValidType := AnyMatches(acceptedTypes, file.mimeType);
      if !isValidType {
        error := Some(InvalidType);
        return;
      }
      if file.size > maxFileSize {
        error := Some(TooLarge);
        return;
      }
      if file.size < minFileSize {
        error := Some(TooSmall);
        return;
      }
      uploads := uploads + [file];
    }

    /** The upload's success callback: the course list is fetched again. */
    method UploadSucceeded()
      modifies this
      ensures courseReloads == old(courseReloads) + 1
      ensures error == old(error) && uploads == old(uploads)
      ensures acceptedFileTypes == old(acceptedFileTypes) && maxFileSize == old(maxFileSize) && minFileSize == old(minFileSize)
    {
      courseReloads := courseReloads + 1;
    }

    /** The upload's error callback. */
    method UploadFailedCallback()
      modifies this
      ensures error == Some(UploadFailed)
      ensures uploads == old(uploads) && courseReloads == old(courseReloads)
      ensures acceptedFileTypes == old(acceptedFileTypes) && maxFileSize == old(maxFileSize) && minFileSize == old(minFileSize)
    {
      error := Some(UploadFailed);
    }
  }
}
