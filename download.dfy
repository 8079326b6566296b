/** The decision part of the download endpoint: after the stored file has
    been located, validate the optional `convert_to` query field against the
    stored file's extension and decide between sending the file as stored
    and converting it. */
module Download {
  import opened Text
  import opened PurePath
  import opened Extensions
  import Upload

  /** The file the search of the category folders found: its path and the
      folder (category) it was found in. */
  datatype Located = Located(path: string, category: string)

  /** The path the search tries in one category folder: `root/category/name`. */
  function Candidate(root: string, category: string, name: string): (r: string)
    ensures IsComponent(name) ==> Name(r) == name
  {
    NameOfJoin(root + "/" + category, name);
    root + "/" + category + "/" + name
  }

  /** What the search of the category folders reports: the first folder, in
      the order `order` the loop visits them, whose candidate path exists
      (`pathExists`), with that path; `None` when no folder holds `name`. */
  function FirstFound(root: string, order: seq<string>, name: string, pathExists: string -> bool): (r: Option<Located>)
    decreases |order|
    ensures r.Some? ==> r.value.category in order && pathExists(r.value.path)
    ensures r.Some? ==> r.value.path == Candidate(root, r.value.category, name)
  {
    if order == [] then None
    else if pathExists(Candidate(root, order[0], name)) then Some(Located(Candidate(root, order[0], name), order[0]))
    else FirstFound(root, order[1..], name, pathExists)
  }

  /** The folder search loop, for the sanitized name `name`. */
  method Locate(root: string, order: seq<string>, name: string, pathExists: string -> bool)
    returns (found: Option<Located>)
    ensures found == FirstFound(root, order, name, pathExists)
  {
    found := None;
    var i := 0;
    while i < |order|
      invariant 0 <= i <= |order|
      invariant FirstFound(root, order[i..], name, pathExists) == FirstFound(root, order, name, pathExists)
    {
      var candidate := Candidate(root, order[i], name);
      if pathExists(candidate) {
        found := Some(Located(candidate, order[i]));
        break;
      }
      assert order[i..][1..] == order[i + 1..];
      i := i + 1;
    }
  }

  /** The search finds nothing exactly when no folder holds the name, and
      otherwise reports a folder that holds it, before which none does. */
  lemma {:induction false} FirstFoundSpec(root: string, order: seq<string>, name: string, pathExists: string -> bool)
    decreases |order|
    ensures var f := FirstFound(root, order, name, pathExists);
      && (f.None? <==> forall i :: 0 <= i < |order| ==> !pathExists(Candidate(root, order[i], name)))
      && (f.Some? ==>
            exists i :: && 0 <= i < |order|
                        && f.value == Located(Candidate(root, order[i], name), order[i])
                        && pathExists(f.value.path)
                        && forall j :: 0 <= j < i ==> !pathExists(Candidate(root, order[j], name)))
  {
    if order != [] && !pathExists(Candidate(root, order[0], name)) {
      FirstFoundSpec(root, order[1..], name, pathExists);
      var f := FirstFound(root, order, name, pathExists);
      assert forall i :: 1 <= i < |order| ==> order[1..][i - 1] == order[i];
      if f.Some? {
        var k :| && 0 <= k < |order| - 1
                 && f.value == Located(Candidate(root, order[1..][k], name), order[1..][k])
                 && pathExists(f.value.path)
                 && forall j :: 0 <= j < k ==> !pathExists(Candidate(root, order[1..][j], name));
        assert f.value == Located(Candidate(root, order[k + 1], name), order[k + 1]);
      }
    }
  }

  /** A search over the category folders reports one of them, so the
      dispatch facts of `ConvertStored` for the folders apply to it. */
  lemma FoundInFolders(root: string, order: seq<string>, name: string, pathExists: string -> bool)
    requires forall c :: c in order ==> c in AllowedFileTypes
    ensures var f := FirstFound(root, order, name, pathExists);
      f.Some? ==> f.value.category in AllowedFileTypes
  {
  }

  /** When exactly one category folder holds the name, the order in which
      the folders are visited does not matter: that folder is found. */
  lemma {:induction false} OnlyFolderFound(root: string, order: seq<string>, name: string, pathExists: string -> bool, c: string)
    decreases |order|
    requires c in order && pathExists(Candidate(root, c, name))
    requires forall d :: d in order && d != c ==> !pathExists(Candidate(root, d, name))
    ensures FirstFound(root, order, name, pathExists) == Some(Located(Candidate(root, c, name), c))
  {
    if order[0] != c {
      assert c in order[1..];
      OnlyFolderFound(root, order[1..], name, pathExists, c);
    }
  }

  datatype Outcome =
    | MissingFilename
    | FileNotFound
    | UnsupportedTargetExtension(supported: seq<string>)
    | MismatchedTargetType
    | SendStored(downloadName: string)
    | ConversionNotSupported(category: string)
    | Convert(tool: Tool, target: string, downloadName: string)

  /** `found.suffix.lstrip('.').lower()`: the stored file's extension. */
  function StoredExtension(path: string): (r: string)
    ensures r == Normalize(Suffix(path))
    ensures r == [] <==> Suffix(path) == []
  {
    LowerStripCommute(Suffix(path));
    Lower(StripLeadingDots(Suffix(path)))
  }

  /** The download decision. `filename` is the `filename` query field and
      `located` the result of searching the category folders for it (`None`
      when no folder holds it); `convertTo` is the `convert_to` query field. */
  function Decide(filename: Option<string>, located: Option<Located>, convertTo: Option<string>): (r: Outcome)
    ensures r == MissingFilename <==> filename.None? || filename.value == []
    ensures r == FileNotFound <==> filename.Some? && filename.value != [] && located.None?
    ensures r.UnsupportedTargetExtension? ==> r.supported == SortedSupported
    ensures r.SendStored? ==> r.downloadName == Name(located.value.path)
  {
    if filename.None? || filename.value == [] then MissingFilename
    else if located.None? then FileNotFound
    else
      var path := located.value.path;
      var original := StoredExtension(path);
      var target := FieldExtension(convertTo);
      var verdict := CheckTarget(target, CategoryOf(original));
      if verdict == UnsupportedTarget then UnsupportedTargetExtension(SortedSupported)
      else if verdict == Mismatched then MismatchedTargetType
      else if target == [] || target == original then SendStored(Name(path))
      else ConvertStored(path, located.value.category, target)
  }

  /** The conversion branch: dispatch on the folder's category to a
      converter, or report that the category has none. */
  function ConvertStored(path: string, category: string, target: string): (r: Outcome)
    ensures r.Convert? || r.ConversionNotSupported?
    ensures r.Convert? <==> ToolFor(category) != NotSupported
    ensures r.Convert? ==> r.tool == ToolFor(category) && r.target == target
    ensures r.Convert? ==> r.downloadName == Name(Stem(path)) + "." + target
    ensures r.ConversionNotSupported? ==> r.category == category
    ensures category in AllowedFileTypes ==>
      (r.ConversionNotSupported? <==> category == "document" || category == "other")
  {
    FoldersWithoutConverter();
    var tool := ToolFor(category);
    if tool == NotSupported then ConversionNotSupported(category)
    else Convert(tool, target, Name(Stem(path)) + "." + target)
  }

  /** The file is sent unchanged exactly when it was found and either no
      target is given or the target is its own (supported) extension. */
  lemma SendStoredIff(filename: Option<string>, located: Option<Located>, convertTo: Option<string>)
    ensures var t := FieldExtension(convertTo);
      Decide(filename, located, convertTo).SendStored? <==>
        && filename.Some? && filename.value != [] && located.Some?
        && (t == [] || (t == StoredExtension(located.value.path) && t in SupportedExtensions))
  {
  }

  /** A non-empty target outside the table is reported as unsupported. */
  lemma UnsupportedTargetIff(filename: string, located: Located, convertTo: Option<string>)
    requires filename != []
    ensures var t := FieldExtension(convertTo);
      Decide(Some(filename), Some(located), convertTo).UnsupportedTargetExtension? <==>
        t != [] && t !in SupportedExtensions
  {
  }

  /** A table target whose category is not the stored extension's is
      reported as mismatched; a stored extension outside the table has no
      category, so it matches no target at all. */
  lemma MismatchedTargetIff(filename: string, located: Located, convertTo: Option<string>)
    requires filename != []
    ensures var t := FieldExtension(convertTo);
      Decide(Some(filename), Some(located), convertTo) == MismatchedTargetType <==>
        t in SupportedExtensions && CategoryOf(t) != CategoryOf(StoredExtension(located.path))
  {
    var v := CheckTarget(FieldExtension(convertTo), CategoryOf(StoredExtension(located.path)));
    assert Decide(Some(filename), Some(located), convertTo) == MismatchedTargetType <==> v == Mismatched;
  }

  /** A conversion happens only to a different extension of the same
      category, with the converter of the folder's category, under the name
      made of the stored file's stem, a dot and the target. */
  lemma ConversionPlan(filename: Option<string>, located: Option<Located>, convertTo: Option<string>)
    requires Decide(filename, located, convertTo).Convert?
    ensures var r := Decide(filename, located, convertTo);
      var e := StoredExtension(located.value.path);
      && r.target == FieldExtension(convertTo) && r.target != e
      && r.target in SupportedExtensions && e in SupportedExtensions
      && SupportedExtensions[r.target] == SupportedExtensions[e]
      && r.tool == ToolFor(located.value.category) && r.tool != NotSupported
      && r.downloadName == Name(Stem(located.value.path)) + "." + r.target
  {
  }

  /** Unlike upload, download can reach the "conversion not supported"
      branch: a `png` file found in a folder without a converter (such as
      `document`, see `FoldersWithoutConverter`) passes the target checks for
      `jpg` but cannot be converted. */
  lemma NotConvertibleFolder(filename: string, path: string, category: string)
    requires filename != [] && StoredExtension(path) == "png" && ToolFor(category) == NotSupported
    ensures Decide(Some(filename), Some(Located(path, category)), Some("jpg")) == ConversionNotSupported(category)
  {
    JpgFromPngAllowed();
  }

  lemma JpgFromPngAllowed()
    ensures FieldExtension(Some("jpg")) == "jpg"
    ensures CheckTarget("jpg", CategoryOf("png")) == SameCategory
  {
    assert Lower("jpg") == "jpg";
    assert "png" in SupportedExtensions && SupportedExtensions["png"] == "image";
    assert "jpg" in SupportedExtensions && SupportedExtensions["jpg"] == "image";
  }

  /** The final component of `dir/name` is `name` when `name` is a plain
      component. */
  lemma NameOfJoin(dir: string, name: string)
    ensures IsComponent(name) ==> Name(dir + "/" + name) == name
  {
    if IsComponent(name) {
      var p := dir + "/" + name;
      RFindAt(p, '/', |dir|);
      assert p[|dir| + 1..] == name;
    }
  }

  /** What the stored copy of a plain file name looks like to download. */
  lemma StoredCopy(dir: string, name: string)
    requires IsComponent(name) && Stem(name) != "."
    ensures var p := dir + "/" + name;
      && Name(p) == name && StoredExtension(p) == StoredExtension(name)
      && Name(Stem(p)) == Stem(name)
  {
    NameOfJoin(dir, name);
    NameSpec(name);
    var st := Stem(name);
    if st != [] {
      assert IsComponent(st);
      NameSpec(st);
    }
  }

  /** A plain saved name whose own extension is the one the upload accepted
      it under, with a stem other than ".". */
  predicate SavedAsPlainName(u: Upload.Outcome)
    requires u.Ok?
  {
    && IsComponent(u.filename)
    && StoredExtension(u.filename) == u.extension
    && Stem(u.filename) != "."
  }

  /** Download agrees with upload. Take a file that an upload accepted, saved
      as `dir/filename` in its category folder under a plain name whose own
      extension is the accepted one. Downloading it with the same
      `convert_to` sends it unchanged when the upload planned no conversion,
      and otherwise converts it to the same target under the same converted
      name. */
  lemma AgreesWithUpload(req: Upload.Request, sanitize: string -> string, dir: string, query: string)
    requires query != []
    requires Upload.Decide(req, sanitize).Ok? && SavedAsPlainName(Upload.Decide(req, sanitize))
    ensures var u := Upload.Decide(req, sanitize);
      var d := Decide(Some(query), Some(Located(dir + "/" + u.filename, u.category)), req.convertTo);
      match u.conversion
      case None => d == SendStored(u.filename)
      case Some(c) => d == Convert(ToolFor(u.category), c.target, c.convertedFilename)
  {
    var u := Upload.Decide(req, sanitize);
    StoredCopy(dir, u.filename);
    Upload.ErrorOrder(req, sanitize);
    Upload.ConversionPlan(req, sanitize);
    if u.conversion.Some? {
      AgreesOnConversion(req, sanitize, dir, query);
    } else {
      SendStoredIff(Some(query), Some(Located(dir + "/" + u.filename, u.category)), req.convertTo);
    }
  }

  lemma AgreesOnConversion(req: Upload.Request, sanitize: string -> string, dir: string, query: string)
    requires query != []
    requires Upload.Decide(req, sanitize).Ok? && SavedAsPlainName(Upload.Decide(req, sanitize))
    requires Upload.Decide(req, sanitize).conversion.Some?
    ensures var u := Upload.Decide(req, sanitize);
      var c := u.conversion.value;
      Decide(Some(query), Some(Located(dir + "/" + u.filename, u.category)), req.convertTo)
        == Convert(ToolFor(u.category), c.target, c.convertedFilename)
  {
    Upload.ConversionPlan(req, sanitize);
    Upload.AcceptedCategoryConvertible(req, sanitize);
    ConvertsPlanned(Upload.Decide(req, sanitize), dir, query, req.convertTo);
  }

  /** The conversion case of `AgreesWithUpload`, stated on the plan alone. */
  lemma ConvertsPlanned(u: Upload.Outcome, dir: string, query: string, convertTo: Option<string>)
    requires query != [] && u.Ok? && SavedAsPlainName(u) && u.conversion.Some?
    requires u.extension in SupportedExtensions && u.category == SupportedExtensions[u.extension]
    requires var t := FieldExtension(convertTo);
      && t == u.conversion.value.target && t != u.extension
      && t in SupportedExtensions && SupportedExtensions[t] == u.category
      && u.conversion.value.convertedFilename == Stem(u.filename) + "." + t
    requires ToolFor(u.category) != NotSupported
    ensures Decide(Some(query), Some(Located(dir + "/" + u.filename, u.category)), convertTo)
         == Convert(ToolFor(u.category), u.conversion.value.target, u.conversion.value.convertedFilename)
  {
    var path := dir + "/" + u.filename;
    StoredCopy(dir, u.filename);
    var t := FieldExtension(convertTo);
    assert StoredExtension(path) == u.extension;
    SameCategoryTarget(t, u.extension);
    DecideConverts(query, Located(path, u.category), convertTo);
  }

  /** A table target of the same category as a table extension passes both
      target checks. */
  lemma SameCategoryTarget(t: string, e: string)
    requires t in SupportedExtensions && e in SupportedExtensions
    requires SupportedExtensions[t] == SupportedExtensions[e]
    ensures CheckTarget(t, CategoryOf(e)) == SameCategory
  {
  }

  /** A found file whose target passes both checks and differs from its
      extension goes to the conversion branch. */
  lemma DecideConverts(filename: string, located: Located, convertTo: Option<string>)
    requires filename != []
    requires var t := FieldExtension(convertTo);
      && CheckTarget(t, CategoryOf(StoredExtension(located.path))) == SameCategory
      && t != StoredExtension(located.path)
    ensures Decide(Some(filename), Some(located), convertTo)
         == ConvertStored(located.path, located.category, FieldExtension(convertTo))
  {
  }

  /** Why the agreement needs the saved name's own extension: an upload of
      a `.bmp` file declared as `png` and asking for `png` plans no
      conversion, but downloading the stored `.bmp` file with `png` converts
      it. */
  lemma FileTypeOverrideDisagrees(name: string, dir: string, query: string, sanitize: string -> string)
    requires query != [] && sanitize(name) == name && IsComponent(name)
    requires Suffix(name) == ".bmp" && Stem(name) != "."
    ensures Upload.Decide(Upload.Request(Some(name), Some("png"), Some("png")), sanitize)
         == Upload.Ok("png", "image", name, None)
    ensures Decide(Some(query), Some(Located(dir + "/" + name, "image")), Some("png"))
         == Convert(Pillow, "png", Stem(name) + "." + "png")
  {
    Upload.SameTargetNoConversion(name, sanitize);
    StoredBmpConverts(name, dir, query);
  }

  lemma StoredBmpConverts(name: string, dir: string, query: string)
    requires query != [] && IsComponent(name)
    requires Suffix(name) == ".bmp" && Stem(name) != "."
    ensures Decide(Some(query), Some(Located(dir + "/" + name, "image")), Some("png"))
         == Convert(Pillow, "png", Stem(name) + "." + "png")
  {
    assert name != [];
    StoredCopy(dir, name);
    BmpStored(name);
    PngFromBmpAllowed();
    DecideConverts(query, Located(dir + "/" + name, "image"), Some("png"));
  }

  lemma BmpStored(path: string)
    requires Suffix(path) == ".bmp"
    ensures StoredExtension(path) == "bmp"
  {
    assert StripLeadingDots(".bmp") == "bmp";
    assert Lower("bmp") == "bmp";
  }

  lemma PngFromBmpAllowed()
    ensures FieldExtension(Some("png")) == "png"
    ensures CheckTarget("png", CategoryOf("bmp")) == SameCategory
  {
    assert Lower("png") == "png";
    assert "bmp" in SupportedExtensions && SupportedExtensions["bmp"] == "image";
    assert "png" in SupportedExtensions && SupportedExtensions["png"] == "image";
  }
}
