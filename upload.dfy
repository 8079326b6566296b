/** The validation and planning chain of the upload endpoint: from the file
    part's filename and the optional `file_type` and `convert_to` fields to
    either the kind of error reported or the plan of what is saved and what
    it is converted to. */
module Upload {
  import opened Text
  import opened PurePath
  import opened Extensions

  /** The parts of an upload request the decision reads. `file` is the
      filename of the `file` part, `None` when the request has no such part;
      the other two are the raw form fields. */
  datatype Request = Request(file: Option<string>, fileType: Option<string>, convertTo: Option<string>)

  /** A planned conversion: the target extension and the converted file's name. */
  datatype Conversion = Conversion(target: string, convertedFilename: string)

  /** One constructor per error kind the chain reports, in the order the
      checks run, and the accepted plan. `SaveFailed` is the uncaught error
      of saving under a name that `secure_filename` empties: the save target
      is then the category folder itself, which cannot be opened as a file. */
  datatype Outcome =
    | MissingFile
    | MissingExtension
    | UnsupportedExtension(supported: seq<string>)
    | UnsupportedTargetExtension(supported: seq<string>)
    | MismatchedTargetType
    | EmptyFilename
    | SaveFailed
    | Ok(extension: string, category: string, filename: string, conversion: Option<Conversion>)

  /** The extension of the uploaded file: the normalised `file_type` field
      when that is non-empty, otherwise the filename's suffix without its dot,
      lower-cased; "" when neither gives one. */
  function SourceExtension(fileType: Option<string>, filename: string): (r: string)
    ensures FieldExtension(fileType) != [] ==> r == FieldExtension(fileType)
    ensures FieldExtension(fileType) == [] ==> r == Normalize(Suffix(filename))
    ensures r == [] <==> FieldExtension(fileType) == [] && Suffix(filename) == []
    ensures r == [] || r[0] != '.'
  {
    var fromField := FieldExtension(fileType);
    if fromField != [] then fromField
    else
      var suffix := Suffix(filename);
      LowerStripCommute(suffix);
      if suffix != [] then Lower(StripLeadingDots(suffix)) else []
  }

  /** The upload decision. `sanitize` stands for `secure_filename`. */
  function Decide(req: Request, sanitize: string -> string): (r: Outcome)
    ensures r.UnsupportedExtension? ==> r.supported == SortedSupported
    ensures r.UnsupportedTargetExtension? ==> r.supported == SortedSupported
    ensures r.Ok? ==> req.file.Some? && req.file.value != [] && r.filename == sanitize(req.file.value)
    ensures r.Ok? ==> r.filename != []
    ensures r.Ok? ==> r.extension == SourceExtension(req.fileType, req.file.value)
    ensures r.Ok? ==> r.extension in SupportedExtensions && r.category == SupportedExtensions[r.extension]
  {
    if req.file.None? then MissingFile
    else
      var name := req.file.value;
      var ext := SourceExtension(req.fileType, name);
      if ext == [] then MissingExtension
      else if ext !in SupportedExtensions then UnsupportedExtension(SortedSupported)
      else
        var category := SupportedExtensions[ext];
        var target := FieldExtension(req.convertTo);
        var verdict := CheckTarget(target, Some(category));
        if verdict == UnsupportedTarget then UnsupportedTargetExtension(SortedSupported)
        else if verdict == Mismatched then MismatchedTargetType
        else if name == [] then EmptyFilename
        else if sanitize(name) == [] then SaveFailed
        else
          var filename := sanitize(name);
          var conversion := if target != [] && target != ext
                            then Some(Conversion(target, Stem(filename) + "." + target))
                            else None;
          Ok(ext, category, filename, conversion)
  }

  // The checks of the chain, each as a property of the request, in the
  // order the endpoint applies them.

  predicate HasFile(req: Request) {
    req.file.Some?
  }

  predicate HasExtension(req: Request)
    requires HasFile(req)
  {
    SourceExtension(req.fileType, req.file.value) != []
  }

  predicate ExtensionSupported(req: Request)
    requires HasFile(req)
  {
    SourceExtension(req.fileType, req.file.value) in SupportedExtensions
  }

  predicate TargetSupported(req: Request) {
    var t := FieldExtension(req.convertTo);
    t == [] || t in SupportedExtensions
  }

  predicate TargetSameCategory(req: Request)
    requires HasFile(req) && ExtensionSupported(req)
  {
    var t := FieldExtension(req.convertTo);
    t == [] || (t in SupportedExtensions
      && SupportedExtensions[t] == SupportedExtensions[SourceExtension(req.fileType, req.file.value)])
  }

  predicate HasFilename(req: Request)
    requires HasFile(req)
  {
    req.file.value != []
  }

  /** The sanitized name names a file inside the category folder. */
  predicate HasSavableName(req: Request, sanitize: string -> string)
    requires HasFile(req)
  {
    sanitize(req.file.value) != []
  }

  /** Every check passes. */
  predicate Acceptable(req: Request, sanitize: string -> string) {
    && HasFile(req) && HasExtension(req) && ExtensionSupported(req)
    && TargetSupported(req) && TargetSameCategory(req) && HasFilename(req)
    && HasSavableName(req, sanitize)
  }

  /** The checks run in a fixed order: each error kind is reported exactly
      when every earlier check passes and its own check fails, and the
      request is accepted exactly when all of them pass. */
  lemma ErrorOrder(req: Request, sanitize: string -> string)
    ensures var r := Decide(req, sanitize);
      && (r == MissingFile <==> !HasFile(req))
      && (r == MissingExtension <==> HasFile(req) && !HasExtension(req))
      && (r.UnsupportedExtension? <==> HasFile(req) && HasExtension(req) && !ExtensionSupported(req))
      && (r.UnsupportedTargetExtension? <==>
            HasFile(req) && ExtensionSupported(req) && !TargetSupported(req))
      && (r == MismatchedTargetType <==>
            HasFile(req) && ExtensionSupported(req) && TargetSupported(req) && !TargetSameCategory(req))
      && (r == EmptyFilename <==>
            HasFile(req) && ExtensionSupported(req) && TargetSupported(req) && TargetSameCategory(req)
            && !HasFilename(req))
      && (r == SaveFailed <==>
            HasFile(req) && ExtensionSupported(req) && TargetSupported(req) && TargetSameCategory(req)
            && HasFilename(req) && !HasSavableName(req, sanitize))
      && (r.Ok? <==> Acceptable(req, sanitize))
  {
    if HasFile(req) && ExtensionSupported(req) {
      var ext := SourceExtension(req.fileType, req.file.value);
      assert ext != [] by { KeysAreNormalized(); }
    }
  }

  /** A conversion is planned exactly when a target is given and differs
      from the source extension; its target has the source's category and
      the converted name is the saved file's stem, a dot and the target. */
  lemma ConversionPlan(req: Request, sanitize: string -> string)
    requires Decide(req, sanitize).Ok?
    ensures var r := Decide(req, sanitize);
      var t := FieldExtension(req.convertTo);
      && (r.conversion.Some? <==> t != [] && t != r.extension)
      && (r.conversion.Some? ==>
            && r.conversion.value.target == t
            && t in SupportedExtensions && SupportedExtensions[t] == r.category
            && r.conversion.value.convertedFilename == Stem(r.filename) + "." + t)
  {
  }

  /** The extension an upload is accepted under is in normal form. */
  lemma SourceExtensionLowerCase(fileType: Option<string>, filename: string)
    ensures IsLowerCase(SourceExtension(fileType, filename))
  {
    if fileType.Some? {
      NormalizeLowerCase(fileType.value);
    }
    NormalizeLowerCase(Suffix(filename));
  }

  /** Every accepted upload is an image, a video or an audio file, so some
      converter handles it and the "conversion not supported" branch of the
      upload endpoint cannot be reached. */
  lemma AcceptedCategoryConvertible(req: Request, sanitize: string -> string)
    requires Decide(req, sanitize).Ok?
    ensures Decide(req, sanitize).category in {"image", "video", "audio"}
    ensures ToolFor(Decide(req, sanitize).category) != NotSupported
  {
    TableCategories();
  }

  // Table entries the examples below use, established on their own so
  // that the examples do not evaluate the table display.

  lemma PngEntry()
    ensures "png" in SupportedExtensions && SupportedExtensions["png"] == "image"
  {
  }

  lemma Mp3Entry()
    ensures "mp3" in SupportedExtensions && SupportedExtensions["mp3"] == "audio"
  {
  }

  lemma XyzNotSupported()
    ensures "xyz" !in SupportedExtensions
  {
  }

  /** A leading dot and upper case in `file_type` are normalised away, and
      the field wins over the filename's own suffix, whatever it is. */
  lemma FileTypeExample(filename: string, sanitize: string -> string)
    requires filename != [] && sanitize(filename) != []
    ensures Decide(Request(Some(filename), Some(".PNG"), None), sanitize)
         == Ok("png", "image", sanitize(filename), None)
  {
    assert Lower(".PNG") == ".png";
    assert FieldExtension(Some(".PNG")) == "png";
    PngEntry();
  }

  /** A name that `secure_filename` empties, such as "..", passes every
      check when `file_type` is given, and then fails at the save. */
  lemma UnsavableNameFails(filename: string, sanitize: string -> string)
    requires filename != [] && sanitize(filename) == []
    ensures Decide(Request(Some(filename), Some("png"), None), sanitize) == SaveFailed
  {
    assert Lower("png") == "png";
    assert FieldExtension(Some("png")) == "png";
    PngEntry();
  }

  /** A target equal to the source extension plans no conversion. */
  lemma SameTargetNoConversion(filename: string, sanitize: string -> string)
    requires filename != [] && sanitize(filename) != []
    ensures Decide(Request(Some(filename), Some("png"), Some("png")), sanitize)
         == Ok("png", "image", sanitize(filename), None)
  {
    assert Lower("png") == "png";
    assert FieldExtension(Some("png")) == "png";
    PngEntry();
  }

  /** An image cannot be converted to an audio format: a `png` upload
      asking for `mp3` is rejected, whatever the filename. */
  lemma PngToMp3Rejected(filename: string, sanitize: string -> string)
    ensures Decide(Request(Some(filename), Some("png"), Some("mp3")), sanitize) == MismatchedTargetType
  {
    assert Lower("mp3") == "mp3" && Lower("png") == "png";
    assert FieldExtension(Some("mp3")) == "mp3";
    assert FieldExtension(Some("png")) == "png";
    PngEntry();
    Mp3Entry();
  }

  /** An extension outside the table is rejected with the sorted key list,
      whatever the target. */
  lemma UnknownExtensionRejected(filename: string, convertTo: Option<string>, sanitize: string -> string)
    ensures Decide(Request(Some(filename), Some("xyz"), convertTo), sanitize)
         == UnsupportedExtension(SortedSupported)
  {
    assert Lower("xyz") == "xyz";
    assert FieldExtension(Some("xyz")) == "xyz";
    XyzNotSupported();
  }

  /** A dot-file has no suffix, so without `file_type` its extension is missing. */
  lemma DotFileMissingExtension(sanitize: string -> string)
    ensures Decide(Request(Some(".bashrc"), None, Some("png")), sanitize) == MissingExtension
  {
    DotFileExample();
  }
}
