/** The decision logic of `newlibreoffice.py`: pick a template whose file name
    contains the document-type keyword, derive the name of the copy, and decide
    whether (and with which argument vector) LibreOffice is opened on it. The
    directory listing, the template directory and the outcome of the
    `xdg-user-dir` query are inputs; copying and spawning are described by the
    returned outcome, never performed. */
module NewLibreOffice {
  import opened Strings
  import PosixPath

  datatype Option<T> = None | Some(value: T)

  /** The three values the `type` argument may take. */
  datatype DocType = Writer | Calc | Impress

  /** The keyword searched for in template names; also the LibreOffice flag. */
  function Keyword(t: DocType): string {
    match t
    case Writer => "writer"
    case Calc => "calc"
    case Impress => "impress"
  }

  /** The parsed command line: `type`, the optional `name` and `-d/--do-not-open`. */
  datatype Args = Args(docType: DocType, name: Option<string>, doNotOpen: bool)

  const ExitMissingDependency: nat := 1
  const ExitNoTemplate: nat := 2

  /** How a run ends: an early exit with a non-zero status, or (status 0) the
      copy of `templateDir`/`sourceName` to `destinationName` resolved against
      the working directory, followed by the launch of `launch` when it is
      present. */
  datatype Outcome =
    | Exit(status: nat)
    | Created(templateDir: string, sourceName: string, destinationName: string,
              launch: Option<seq<string>>)

  /** Entry `i` is the first entry of the listing that contains the keyword. */
  ghost predicate IsFirstMatch(listing: seq<string>, keyword: string, i: int) {
    0 <= i < |listing| && Contains(listing[i], keyword) &&
    forall j :: 0 <= j < i ==> !Contains(listing[j], keyword)
  }

  /** Some entry of the listing contains the keyword. */
  ghost predicate AnyMatch(listing: seq<string>, keyword: string) {
    exists i :: 0 <= i < |listing| && Contains(listing[i], keyword)
  }

  /** At most one entry is the first match. */
  lemma FirstMatchUnique(listing: seq<string>, keyword: string, i: int, i': int)
    requires IsFirstMatch(listing, keyword, i) && IsFirstMatch(listing, keyword, i')
    ensures i == i'
  {
  }

  /** The `for ... else` search: the first entry whose name contains the
      keyword, or None when the loop runs to completion. */
  method SelectTemplate(listing: seq<string>, keyword: string) returns (sourceName: Option<string>)
    ensures sourceName.None? <==> !AnyMatch(listing, keyword)
    ensures sourceName.Some? ==>
      exists i :: IsFirstMatch(listing, keyword, i) && listing[i] == sourceName.value
  {
    var i := 0;
    while i < |listing|
      invariant 0 <= i <= |listing|
      invariant forall j :: 0 <= j < i ==> !Contains(listing[j], keyword)
    {
      if Contains(listing[i], keyword) {
        assert IsFirstMatch(listing, keyword, i);
        return Some(listing[i]);
      }
      i := i + 1;
    }
    return None;
  }

  /** The extension `path.splitext` gives for a template name: a suffix of
      the name that is empty or a dot followed by no further dot. */
  function Extension(sourceName: string): (r: string)
    ensures EndsWith(sourceName, r)
    ensures r == [] || (r[0] == PosixPath.ExtSep && forall k :: 1 <= k < |r| ==> r[k] != PosixPath.ExtSep)
  {
    assert PosixPath.SplitExt(sourceName).0 + PosixPath.SplitExt(sourceName).1 == sourceName;
    PosixPath.SplitExt(sourceName).1
  }

  /** The destination name: the template's own name when no name is given;
      otherwise the given name, with the template's extension appended unless
      the lower-cased name already ends with that extension as it stands. */
  function DestinationName(sourceName: string, name: Option<string>): (r: string)
    ensures name.None? ==> r == sourceName
    ensures name.Some? ==> |name.value| <= |r| && r[..|name.value|] == name.value
  {
    match name
    case None => sourceName
    case Some(n) =>
      var extension := Extension(sourceName);
      if EndsWith(Lower(n), extension) then n else n + extension
  }

  /** With a name given, the result is the name itself exactly when its
      lower-cased form ends with the extension, and the name followed by the
      extension otherwise; nothing else is altered. */
  lemma DestinationNameGiven(sourceName: string, n: string)
    ensures EndsWith(Lower(n), Extension(sourceName)) ==> DestinationName(sourceName, Some(n)) == n
    ensures !EndsWith(Lower(n), Extension(sourceName)) ==>
      DestinationName(sourceName, Some(n)) == n + Extension(sourceName)
  {
  }

  /** With a name given, the lower-cased destination name ends with the
      lower-cased extension of the template. The comparison is case-insensitive
      only in this sense: the name is lower-cased, the extension is not. */
  lemma DestinationKeepsExtension(sourceName: string, n: string)
    ensures EndsWith(Lower(DestinationName(sourceName, Some(n))), Lower(Extension(sourceName)))
  {
    var extension := Extension(sourceName);
    if EndsWith(Lower(n), extension) {
      SuffixOfLowerIsLower(n, extension);
    } else {
      LowerAppend(n, extension);
      EndsWithAppend(Lower(n), Lower(extension));
    }
  }

  /** A template without an extension leaves a given name unchanged. */
  lemma NoExtensionKeepsName(sourceName: string, n: string)
    requires Extension(sourceName) == []
    ensures DestinationName(sourceName, Some(n)) == n
  {
    assert Lower(n)[|Lower(n)|..] == [];
  }

  /** Renaming an already derived name changes nothing when the template's
      extension is lower case. */
  lemma DestinationNameIdempotent(sourceName: string, n: string)
    requires Lower(Extension(sourceName)) == Extension(sourceName)
    ensures DestinationName(sourceName, Some(DestinationName(sourceName, Some(n))))
         == DestinationName(sourceName, Some(n))
  {
    var extension := Extension(sourceName);
    if !EndsWith(Lower(n), extension) {
      LowerAppend(n, extension);
      EndsWithAppend(Lower(n), extension);
    }
  }

  /** An extension holding an upper-case letter is appended to every given
      name: the lower-cased name never ends with it. */
  lemma UpperCaseExtensionAlwaysAppended(sourceName: string, n: string)
    requires Lower(Extension(sourceName)) != Extension(sourceName)
    ensures DestinationName(sourceName, Some(n)) == n + Extension(sourceName)
  {
    if EndsWith(Lower(n), Extension(sourceName)) {
      SuffixOfLowerIsLower(n, Extension(sourceName));
    }
  }

  /** The template "Letter.ODT" has the extension ".ODT". */
  lemma LetterTemplateExtension(template: string)
    requires template == "Letter.ODT"
    ensures Extension(template) == ".ODT"
  {
    PosixPath.SplitExtStemAndExtension("Letter", ".ODT");
    assert "Letter" + ".ODT" == template;
  }

  /** The template "writer_blank.odt" has the lower-case extension ".odt". */
  lemma WriterTemplateExtension(template: string)
    requires template == "writer_blank.odt"
    ensures Extension(template) == ".odt"
  {
    PosixPath.SplitExtStemAndExtension("writer_blank", ".odt");
    assert "writer_blank" + ".odt" == template;
  }

  /** An upper-case extension is appended to a plain name: with the template
      "Letter.ODT", "Report" becomes "Report.ODT" ... */
  lemma UpperCaseExtensionAppended(template: string, name: string)
    requires template == "Letter.ODT" && name == "Report"
    ensures DestinationName(template, Some(name)) == "Report.ODT"
  {
    assert name + ".ODT" == "Report.ODT" by {
      assert "Report" + ".ODT" == "Report.ODT";
    }
    LetterTemplateExtension(template);
    LowerChangesUpperCase(Extension(template), 1);
    UpperCaseExtensionAlwaysAppended(template, name);
  }

  /** ... and, since only the name is lower-cased, so is it to a name that
      already carries it. */
  lemma UpperCaseExtensionAppendedTwice(template: string, name: string)
    requires template == "Letter.ODT" && name == "Report.ODT"
    ensures DestinationName(template, Some(name)) == "Report.ODT.ODT"
  {
    assert name + ".ODT" == "Report.ODT.ODT" by {
      assert "Report.ODT" + ".ODT" == "Report.ODT.ODT";
    }
    LetterTemplateExtension(template);
    LowerChangesUpperCase(Extension(template), 1);
    UpperCaseExtensionAlwaysAppended(template, name);
  }

  /** The template "New calc document.ods" has the extension ".ods". */
  lemma CalcTemplateExtension(template: string)
    requires template == "New calc document.ods"
    ensures Extension(template) == ".ods"
  {
    PosixPath.SplitExtStemAndExtension("New calc document", ".ods");
    assert "New calc document" + ".ods" == template;
  }

  /** `calc "My fancy spreadsheet"` with the template "New calc
      document.ods" names the copy "My fancy spreadsheet.ods". */
  lemma CalcNamedExample(template: string, name: string)
    requires template == "New calc document.ods" && name == "My fancy spreadsheet"
    ensures DestinationName(template, Some(name)) == "My fancy spreadsheet.ods"
  {
    assert name + ".ods" == "My fancy spreadsheet.ods" by {
      assert "My fancy spreadsheet" + ".ods" == "My fancy spreadsheet.ods";
    }
    CalcTemplateExtension(template);
    assert Lower(name)[16] != Extension(template)[0];
    DestinationNameGiven(template, name);
  }

  /** With the template "writer_blank.odt", the name "Report" becomes
      "Report.odt" ... */
  lemma WriterNamedExample(template: string, name: string)
    requires template == "writer_blank.odt" && name == "Report"
    ensures DestinationName(template, Some(name)) == "Report.odt"
  {
    assert name + ".odt" == "Report.odt" by {
      assert "Report" + ".odt" == "Report.odt";
    }
    WriterTemplateExtension(template);
    assert Lower(name)[2] != Extension(template)[0];
    DestinationNameGiven(template, name);
  }

  /** ... and "Report.odt" stays "Report.odt", not "Report.odt.odt". */
  lemma WriterNamedWithExtensionExample(template: string, name: string)
    requires template == "writer_blank.odt" && name == "Report.odt"
    ensures DestinationName(template, Some(name)) == "Report.odt"
  {
    assert name == "Report" + ".odt" by {
      assert "Report" + ".odt" == "Report.odt";
    }
    WriterTemplateExtension(template);
    LowerOfLowerCase(Extension(template));
    LowerEndsWithLowerSuffix("Report", Extension(template));
    DestinationNameGiven(template, name);
  }

  /** ... and so does "Report.ODT": the lower-cased name ends with ".odt", so
      nothing is appended, and the destination does not end with ".odt" as
      written. */
  lemma WriterNamedWithUpperCaseExtensionExample(template: string, name: string)
    requires template == "writer_blank.odt" && name == "Report.ODT"
    ensures DestinationName(template, Some(name)) == name
    ensures !EndsWith(DestinationName(template, Some(name)), Extension(template))
  {
    WriterTemplateExtension(template);
    forall k | 0 <= k < 4 ensures Lower(name)[6 + k] == Extension(template)[k] {
    }
    DestinationNameGiven(template, name);
    assert name[7] != Extension(template)[1];
  }

  /** The launch decision: LibreOffice is opened unless `-d/--do-not-open` was
      given, with the type flag and the bare destination name as arguments. */
  function LaunchCommand(args: Args, destinationName: string): (argv: Option<seq<string>>)
    ensures argv.Some? <==> !args.doNotOpen
    ensures argv.Some? ==>
      && |argv.value| == 3
      && argv.value[0] == "libreoffice"
      && argv.value[1] == "--" + Keyword(args.docType)
      && argv.value[2] == destinationName
  {
    if args.doNotOpen then None
    else Some(["libreoffice", "--" + Keyword(args.docType), destinationName])
  }

  /** The type flag names the requested document type: different types give
      different argument vectors. */
  lemma LaunchFlagDeterminesType(args: Args, args': Args, destinationName: string)
    requires !args.doNotOpen && !args'.doNotOpen
    requires LaunchCommand(args, destinationName) == LaunchCommand(args', destinationName)
    ensures args.docType == args'.docType
  {
    var flag, flag' := "--" + Keyword(args.docType), "--" + Keyword(args'.docType);
    assert flag == LaunchCommand(args, destinationName).value[1];
    assert flag' == LaunchCommand(args', destinationName).value[1];
    assert flag[2..] == Keyword(args.docType) && flag'[2..] == Keyword(args'.docType);
  }

  /** One run of the script. `xdgAvailable` is whether `xdg-user-dir
      TEMPLATES` succeeded; `listing` is the listing of `templateDir`. */
  method Run(xdgAvailable: bool, templateDir: string, listing: seq<string>, args: Args)
    returns (o: Outcome)
    ensures !xdgAvailable ==> o == Exit(ExitMissingDependency)
    ensures xdgAvailable && !AnyMatch(listing, Keyword(args.docType)) ==> o == Exit(ExitNoTemplate)
    ensures o.Created? <==> xdgAvailable && AnyMatch(listing, Keyword(args.docType))
    ensures o.Created? ==>
      && o.templateDir == templateDir
      && (exists i :: IsFirstMatch(listing, Keyword(args.docType), i) && listing[i] == o.sourceName)
      && o.destinationName == DestinationName(o.sourceName, args.name)
      && o.launch == LaunchCommand(args, o.destinationName)
  {
    if !xdgAvailable {
      return Exit(ExitMissingDependency);
    }
    var sourceName := SelectTemplate(listing, Keyword(args.docType));
    if sourceName.None? {
      return Exit(ExitNoTemplate);
    }
    var destinationName := DestinationName(sourceName.value, args.name);
    o := Created(templateDir, sourceName.value, destinationName, LaunchCommand(args, destinationName));
  }

  /** The template "writer_blank.odt" contains the keyword "writer". */
  lemma WriterTemplateMatches(template: string)
    requires template == "writer_blank.odt"
    ensures Contains(template, Keyword(Writer))
  {
    assert template == "writer" + "_blank.odt";
    assert OccursAt("writer" + "_blank.odt", "writer", 0);
  }

  /** `newlibreoffice.py writer` over a directory holding only
      "writer_blank.odt": the copy keeps the template's name and is opened. */
  method ExampleWriterDefaultName(listing: seq<string>) returns (o: Outcome)
    requires listing == ["writer_blank.odt"]
    ensures o == Created("Templates", "writer_blank.odt", "writer_blank.odt",
                         Some(["libreoffice", "--writer", "writer_blank.odt"]))
  {
    WriterTemplateMatches(listing[0]);
    var args := Args(Writer, None, false);
    o := Run(true, "Templates", listing, args);
    ghost var i :| IsFirstMatch(listing, Keyword(Writer), i) && listing[i] == o.sourceName;
    assert "--" + Keyword(Writer) == "--writer";
  }
}
