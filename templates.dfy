/**
 * The metadata rules of a HotDocs template: what kind of template a file name
 * denotes, whether it shows an interview, which document it produces and with
 * what extension, and the plaintext locator that recreates a template later.
 */
module Templates {
  import opened Wrappers
  import opened Text

  /** The kinds of template file HotDocs knows. */
  datatype TemplateType =
    | Unknown | InterviewOnly | WordDOCX | WordRTF | HotDocsPDF | HotDocsHFT | WordPerfect | PlainText

  /** The kinds of assembled document. */
  datatype DocumentType =
    | Unknown | Native | WordDOCX | WordRTF | WordDOC | WordPerfect | PDF | HPD | HFD
    | PlainText | HTML | HTMLwDataURIs | MHTML | XML

  /** The exceptions the template operations throw. */
  datatype Error =
    | ArgumentError(param: string)      // an ArgumentException naming the parameter
    | ArgumentNullError(param: string)  // an ArgumentNullException naming the parameter
    | InvalidLocator                    // a locator without exactly four fields
    | InvalidFileName                   // a null or empty updated file name
    | UnsupportedDocumentType           // a document type without an extension

  /**
   * Where a template lives. Only the locator string the location produces for
   * itself (and is recreated from) takes part in the template rules.
   */
  datatype TemplateLocation = TemplateLocation(locator: string)

  /** What the location answers when asked for an updated file name. */
  datatype FileNameUpdate =
    | NoUpdate                      // GetUpdatedFileName returned false
    | Updated(name: Option<string>) // it returned true; None is a null name

  /** Lower-case template extensions and the template type each denotes. */
  const TemplateTypes: map<string, TemplateType> := map[
    ".cmp" := TemplateType.InterviewOnly,
    ".docx" := TemplateType.WordDOCX,
    ".rtf" := TemplateType.WordRTF,
    ".hpt" := TemplateType.HotDocsPDF,
    ".hft" := TemplateType.HotDocsHFT,
    ".wpt" := TemplateType.WordPerfect,
    ".ttx" := TemplateType.PlainText]

  /** Lower-case template extensions and the document type native to each. */
  const NativeTypes: map<string, DocumentType> := map[
    ".docx" := DocumentType.WordDOCX,
    ".rtf" := DocumentType.WordRTF,
    ".hpt" := DocumentType.PDF,
    ".hft" := DocumentType.HFD,
    ".wpt" := DocumentType.WordPerfect,
    ".ttx" := DocumentType.PlainText]

  /** Fixed document extensions of the document types other than Native. */
  const DocExtensions: map<DocumentType, string> := map[
    DocumentType.HFD := ".hfd",
    DocumentType.HPD := ".hpd",
    DocumentType.HTML := ".htm",
    DocumentType.HTMLwDataURIs := ".htm",
    DocumentType.MHTML := ".htm",
    DocumentType.PDF := ".pdf",
    DocumentType.PlainText := ".txt",
    DocumentType.WordDOC := ".doc",
    DocumentType.WordDOCX := ".docx",
    DocumentType.WordPerfect := ".wpd",
    DocumentType.WordRTF := ".rtf"]

  // ---------------------------------------------------------------------------
  // Template type and document type

  /** The switch over a lower-cased extension behind the TemplateType property. */
  function TypeOfExtension(ext: string): TemplateType
  {
    match ext
    case ".cmp" => TemplateType.InterviewOnly
    case ".docx" => TemplateType.WordDOCX
    case ".rtf" => TemplateType.WordRTF
    case ".hpt" => TemplateType.HotDocsPDF
    case ".hft" => TemplateType.HotDocsHFT
    case ".wpt" => TemplateType.WordPerfect
    case ".ttx" => TemplateType.PlainText
    case _ => TemplateType.Unknown
  }

  /** The switch behind TemplateType agrees with the table of template extensions. */
  lemma TypeOfExtensionMatchesTable(ext: string)
    ensures TypeOfExtension(ext) == if ext in TemplateTypes then TemplateTypes[ext] else TemplateType.Unknown
  {
  }

  /** TemplateType: the type named by the file's extension, compared ignoring case. */
  function TemplateTypeOf(fileName: string): (t: TemplateType)
    ensures GetExtension(fileName) == "" ==> t == TemplateType.Unknown
  {
    TypeOfExtension(Lower(GetExtension(fileName)))
  }

  /** A file name's template type is decided by its extension alone, in any letter case. */
  lemma TemplateTypeOfName(base: string, ext: string)
    requires IsExtension(ext)
    ensures TemplateTypeOf(base + ext) == if Lower(ext) in TemplateTypes then TemplateTypes[Lower(ext)] else TemplateType.Unknown
  {
    ExtensionOfName(base, ext);
    TypeOfExtensionMatchesTable(Lower(ext));
  }

  /** GeneratesDocument: every template type except InterviewOnly and Unknown produces a document. */
  predicate GeneratesDocument(fileName: string)
    ensures GeneratesDocument(fileName) ==> GetExtension(fileName) != ""
  {
    var t := TemplateTypeOf(fileName);
    t != TemplateType.InterviewOnly && t != TemplateType.Unknown
  }

  /**
   * The comparisons behind NativeDocumentType, applied to the lower-cased
   * extension. Each is taken as an ordinal comparison of the lower-cased
   * extension with a literal that is lower-case already; the culture-aware
   * `string.Compare(ext, lit, true)` of the .NET library can also disregard
   * ignorable characters, which this does not.
   */
  function NativeOfExtension(ext: string): DocumentType
  {
    if ext == ".docx" then DocumentType.WordDOCX
    else if ext == ".rtf" then DocumentType.WordRTF
    else if ext == ".hpt" then DocumentType.PDF
    else if ext == ".hft" then DocumentType.HFD
    else if ext == ".wpt" then DocumentType.WordPerfect
    else if ext == ".ttx" then DocumentType.PlainText
    else DocumentType.Unknown
  }

  /** The comparisons behind NativeDocumentType agree with the table of native document types. */
  lemma NativeOfExtensionMatchesTable(ext: string)
    ensures NativeOfExtension(ext) == if ext in NativeTypes then NativeTypes[ext] else DocumentType.Unknown
  {
  }

  /** NativeDocumentType: the document type native to the file's extension, compared ignoring case. */
  function NativeDocumentTypeOf(fileName: string): (d: DocumentType)
    ensures GetExtension(fileName) == "" ==> d == DocumentType.Unknown
    ensures d != DocumentType.Native
  {
    NativeOfExtension(Lower(GetExtension(fileName)))
  }

  /** The document type each template type produces natively. */
  function NativeOf(t: TemplateType): DocumentType
  {
    match t
    case WordDOCX => DocumentType.WordDOCX
    case WordRTF => DocumentType.WordRTF
    case HotDocsPDF => DocumentType.PDF
    case HotDocsHFT => DocumentType.HFD
    case WordPerfect => DocumentType.WordPerfect
    case PlainText => DocumentType.PlainText
    case _ => DocumentType.Unknown
  }

  /**
   * The two extension switches agree: the native document type is the one that
   * belongs to the template type, and a template generates a document exactly
   * when it has a native document type.
   */
  lemma NativeTypeFollowsTemplateType(fileName: string)
    ensures NativeDocumentTypeOf(fileName) == NativeOf(TemplateTypeOf(fileName))
    ensures GeneratesDocument(fileName) <==> NativeDocumentTypeOf(fileName) != DocumentType.Unknown
  {
    NativeOfExtensionFollowsType(Lower(GetExtension(fileName)));
  }

  lemma NativeOfExtensionFollowsType(ext: string)
    ensures NativeOfExtension(ext) == NativeOf(TypeOfExtension(ext))
  {
  }

  // ---------------------------------------------------------------------------
  // Interview switches

  /** HasInterview: no `/nw`, `/naw` or `/ni` occurs in the lower-cased switches. */
  predicate HasInterview(switches: string)
    ensures switches == "" ==> HasInterview(switches)
  {
    var s := if switches == "" then "" else Lower(switches);
    !Contains(s, "/nw") && !Contains(s, "/naw") && !Contains(s, "/ni")
  }

  /** Adding a suppressing switch, in any letter case, anywhere, turns the interview off. */
  lemma SuppressingSwitch(before: string, sw: string, after: string)
    requires Lower(sw) == "/nw" || Lower(sw) == "/naw" || Lower(sw) == "/ni"
    ensures !HasInterview(before + sw + after)
  {
    var all := before + sw + after;
    LowerConcat(before, sw);
    LowerConcat(before + sw, after);
    assert Lower(all) == Lower(before) + Lower(sw) + Lower(after);
    assert OccursAt(Lower(sw), Lower(sw), 0);
    ContainsInConcat(Lower(before), Lower(sw), Lower(sw));
    ContainsInConcat(Lower(before) + Lower(sw), Lower(after), Lower(sw));
  }

  /** Appending switches never brings an interview back: each part must allow it already. */
  lemma InterviewNeedsEveryPart(a: string, b: string)
    ensures HasInterview(a + b) ==> HasInterview(a) && HasInterview(b)
  {
    LowerConcat(a, b);
    assert a == "" ==> a + b == b;
    assert b == "" ==> a + b == a;
    forall w | w == "/nw" || w == "/naw" || w == "/ni"
      ensures Contains(Lower(a), w) || Contains(Lower(b), w) ==> Contains(Lower(a + b), w)
    {
      ContainsInConcat(Lower(a), Lower(b), w);
    }
  }

  // ---------------------------------------------------------------------------
  // Document extensions

  /** The Native branch of GetDocExtension, as written: case-sensitive comparisons. */
  function NativeExtensionAsWritten(fileName: string): (r: string)
    ensures r == "" <==> GetExtension(fileName) == ""
    ensures r == "" || (|r| >= 2 && r[0] == '.')
  {
    var ext := GetExtension(fileName);
    if ext == ".hpt" then ".pdf"
    else if ext == ".hft" then ".hfd"
    else if ext == ".ttx" then ".txt"
    else if ext == ".wpt" then ".wpd"
    else ext
  }

  /**
   * GetDocExtension(docType, template): the extension of a document of the given
   * type; `template` is the file name of the template, None for a null template.
   */
  function GetDocExtension(docType: DocumentType, template: Option<string>): (r: Result<string, Error>)
    ensures docType == DocumentType.Native && template.None? ==> r == Failure(ArgumentNullError("template"))
    ensures docType == DocumentType.Unknown || docType == DocumentType.XML ==> r == Failure(UnsupportedDocumentType)
    ensures r.Success? ==> r.value == "" || r.value[0] == '.'
  {
    match docType
    case HFD => Success(".hfd")
    case HPD => Success(".hpd")
    case HTML | HTMLwDataURIs | MHTML => Success(".htm")
    case Native =>
      if template.None? then Failure(ArgumentNullError("template"))
      else Success(NativeExtensionAsWritten(template.value))
    case PDF => Success(".pdf")
    case PlainText => Success(".txt")
    case WordDOC => Success(".doc")
    case WordDOCX => Success(".docx")
    case WordPerfect => Success(".wpd")
    case WordRTF => Success(".rtf")
    case _ => Failure(UnsupportedDocumentType)
  }

  /** GetDocExtension agrees with the table of fixed document extensions. */
  lemma GetDocExtensionMatchesTable(docType: DocumentType, template: Option<string>)
    ensures docType in DocExtensions ==> GetDocExtension(docType, template) == Success(DocExtensions[docType])
  {
  }

  /** The instance GetDocExtension(): the extension of the template's native document type. */
  function DocExtension(fileName: string): (r: Result<string, Error>)
    ensures r.Success? ==> |r.value| >= 4 && r.value[0] == '.'
    ensures r.Failure? ==> r.error == UnsupportedDocumentType
  {
    GetDocExtension(NativeDocumentTypeOf(fileName), Some(fileName))
  }

  /** A template has a document extension exactly when it generates a document; otherwise asking throws. */
  lemma DocExtensionDefinedIffGenerates(fileName: string)
    ensures DocExtension(fileName).Success? <==> GeneratesDocument(fileName)
    ensures !GeneratesDocument(fileName) ==> DocExtension(fileName) == Failure(UnsupportedDocumentType)
  {
    NativeTypeFollowsTemplateType(fileName);
  }

  /**
   * The Native branch compares extensions case-sensitively, while the native
   * document type ignores case: an upper-case `.HPT` template yields `.HPT` by
   * way of Native but `.pdf` by way of its native document type.
   */
  lemma NativeExtensionIsCaseSensitive()
    ensures GetDocExtension(DocumentType.Native, Some("Letter.HPT")) == Success(".HPT")
    ensures DocExtension("Letter.HPT") == Success(".pdf")
  {
    NativeBranchKeepsCase();
    UpperCaseNativeTypeIsPdf();
  }

  lemma NativeBranchKeepsCase()
    ensures GetDocExtension(DocumentType.Native, Some("Letter.HPT")) == Success(".HPT")
  {
    UpperCaseExtension();
  }

  lemma UpperCaseNativeTypeIsPdf()
    ensures DocExtension("Letter.HPT") == Success(".pdf")
  {
    UpperCaseExtension();
    assert NativeOfExtension(".hpt") == DocumentType.PDF;
  }

  /** The extension of "Letter.HPT" is ".HPT", which lower-cases to ".hpt". */
  lemma UpperCaseExtension()
    ensures GetExtension("Letter.HPT") == ".HPT"
    ensures Lower(".HPT") == ".hpt"
  {
    ExtensionOfName("Letter", ".HPT");
    assert "Letter" + ".HPT" == "Letter.HPT";
    LowerHpt();
  }

  lemma LowerHpt()
    ensures Lower(".HPT") == ".hpt"
  {
  }

  /**
   * The Native branch as written, for every template file name with an
   * extension: `.hpt`, `.hft`, `.ttx` and `.wpt`, in exactly that letter case,
   * are mapped to `.pdf`, `.hfd`, `.txt` and `.wpd`; any other extension is
   * the document's extension unchanged.
   */
  lemma NativeBranchOfName(base: string, ext: string)
    requires IsExtension(ext)
    ensures GetDocExtension(DocumentType.Native, Some(base + ext))
            == Success(if ext == ".hpt" then ".pdf"
                       else if ext == ".hft" then ".hfd"
                       else if ext == ".ttx" then ".txt"
                       else if ext == ".wpt" then ".wpd"
                       else ext)
  {
    ExtensionOfName(base, ext);
  }

  /** A template file name without an extension gives a document without one. */
  lemma NativeBranchWithoutExtension(fileName: string)
    requires GetExtension(fileName) == ""
    ensures GetDocExtension(DocumentType.Native, Some(fileName)) == Success("")
  {
  }

  /** The Native branch with the extension compared ignoring case, as NativeDocumentType does. */
  function NativeExtension(fileName: string): string
  {
    NativeExtensionFor(GetExtension(fileName))
  }

  /** The corrected Native mapping of one template extension. */
  function NativeExtensionFor(ext: string): string
  {
    var lower := Lower(ext);
    if lower == ".hpt" then ".pdf"
    else if lower == ".hft" then ".hfd"
    else if lower == ".ttx" then ".txt"
    else if lower == ".wpt" then ".wpd"
    else ext
  }

  /**
   * With case-insensitive comparison, the Native extension of a template that
   * generates a document is the extension of its native document type, up to
   * the letter case of a `.docx` or `.rtf` extension, which is kept as it is.
   */
  lemma NativeExtensionMatchesNativeType(fileName: string)
    requires GeneratesDocument(fileName)
    ensures DocExtension(fileName).Success?
    ensures Lower(NativeExtension(fileName)) == DocExtension(fileName).value
    ensures NativeDocumentTypeOf(fileName) != DocumentType.WordDOCX && NativeDocumentTypeOf(fileName) != DocumentType.WordRTF
            ==> NativeExtension(fileName) == DocExtension(fileName).value
  {
    NativeTypeFollowsTemplateType(fileName);
    NativeExtensionForMatches(GetExtension(fileName));
    GetDocExtensionMatchesTable(NativeDocumentTypeOf(fileName), Some(fileName));
  }

  /** The document extensions the Native branch substitutes are lower-case already. */
  lemma LowerDocExtensions()
    ensures Lower(".pdf") == ".pdf" && Lower(".hfd") == ".hfd"
    ensures Lower(".wpd") == ".wpd" && Lower(".txt") == ".txt"
  {
  }

  /** The document extensions of the native document types. */
  lemma NativeDocExtensions()
    ensures DocumentType.WordDOCX in DocExtensions && DocExtensions[DocumentType.WordDOCX] == ".docx"
    ensures DocumentType.WordRTF in DocExtensions && DocExtensions[DocumentType.WordRTF] == ".rtf"
    ensures DocumentType.PDF in DocExtensions && DocExtensions[DocumentType.PDF] == ".pdf"
    ensures DocumentType.HFD in DocExtensions && DocExtensions[DocumentType.HFD] == ".hfd"
    ensures DocumentType.WordPerfect in DocExtensions && DocExtensions[DocumentType.WordPerfect] == ".wpd"
    ensures DocumentType.PlainText in DocExtensions && DocExtensions[DocumentType.PlainText] == ".txt"
  {
  }

  lemma NativeExtensionForMatches(ext: string)
    requires NativeOfExtension(Lower(ext)) != DocumentType.Unknown
    ensures NativeOfExtension(Lower(ext)) in DocExtensions
    ensures Lower(NativeExtensionFor(ext)) == DocExtensions[NativeOfExtension(Lower(ext))]
    ensures NativeOfExtension(Lower(ext)) != DocumentType.WordDOCX && NativeOfExtension(Lower(ext)) != DocumentType.WordRTF
            ==> NativeExtensionFor(ext) == DocExtensions[NativeOfExtension(Lower(ext))]
  {
    var lower := Lower(ext);
    var d := NativeOfExtension(lower);
    LowerDocExtensions();
    NativeDocExtensions();
    if lower == ".docx" {
      assert d == DocumentType.WordDOCX;
    } else if lower == ".rtf" {
      assert d == DocumentType.WordRTF;
    } else if lower == ".hpt" {
      assert d == DocumentType.PDF;
      assert NativeExtensionFor(ext) == ".pdf";
    } else if lower == ".hft" {
      assert d == DocumentType.HFD;
      assert NativeExtensionFor(ext) == ".hfd";
    } else if lower == ".wpt" {
      assert d == DocumentType.WordPerfect;
      assert NativeExtensionFor(ext) == ".wpd";
    } else {
      assert lower == ".ttx";
      assert d == DocumentType.PlainText;
      assert NativeExtensionFor(ext) == ".txt";
    }
  }

  // ---------------------------------------------------------------------------
  // Locator

  /** The four fields a template locator carries. */
  datatype LocatorFields = LocatorFields(fileName: string, switches: string, key: string, location: string)

  /** The plaintext of a locator, before encryption: the fields separated by `|`. */
  function LocatorPlaintext(f: LocatorFields): string
  {
    f.fileName + "|" + f.switches + "|" + f.key + "|" + f.location
  }

  /** Splits a decrypted locator into its fields; anything other than four tokens is invalid. */
  function ParseLocator(plain: string): (r: Result<LocatorFields, Error>)
    ensures r.Success? <==> Count(plain, '|') == 3
    ensures r.Failure? ==> r.error == InvalidLocator
    ensures r.Success? ==> ('|' !in r.value.fileName && '|' !in r.value.switches
                            && '|' !in r.value.key && '|' !in r.value.location)
  {
    var tokens := Split(plain, '|');
    if |tokens| != 4 then Failure(InvalidLocator)
    else Success(LocatorFields(tokens[0], tokens[1], tokens[2], tokens[3]))
  }

  /** The plaintext is the `|`-join of the fields. */
  lemma PlaintextIsJoin(f: LocatorFields)
    ensures LocatorPlaintext(f) == Join([f.fileName, f.switches, f.key, f.location], '|')
  {
    var parts := [f.fileName, f.switches, f.key, f.location];
    assert parts[1..] == [f.switches, f.key, f.location];
    assert parts[1..][1..] == [f.key, f.location];
    assert parts[1..][1..][1..] == [f.location];
    var last := Join([f.location], '|');
    assert last == f.location;
    var two := Join([f.key, f.location], '|');
    assert two == f.key + "|" + f.location;
    var three := Join([f.switches, f.key, f.location], '|');
    assert three == f.switches + "|" + two;
    assert Join(parts, '|') == f.fileName + "|" + three;
  }

  /** Parsing the plaintext of `|`-free fields gives back those fields in order. */
  lemma LocatorRoundTrip(f: LocatorFields)
    requires '|' !in f.fileName && '|' !in f.switches && '|' !in f.key && '|' !in f.location
    ensures ParseLocator(LocatorPlaintext(f)) == Success(f)
  {
    var parts := [f.fileName, f.switches, f.key, f.location];
    PlaintextIsJoin(f);
    SplitJoin(parts, '|');
  }

  /** The plaintext holds the three separators and whatever `|` the fields themselves hold. */
  lemma PlaintextPipeCount(f: LocatorFields)
    ensures Count(LocatorPlaintext(f), '|')
            == 3 + Count(f.fileName, '|') + Count(f.switches, '|') + Count(f.key, '|') + Count(f.location, '|')
  {
    var bar := "|";
    assert Count(bar, '|') == 1;
    var p1 := f.fileName + bar;
    var p2 := p1 + f.switches;
    var p3 := p2 + bar;
    var p4 := p3 + f.key;
    var p5 := p4 + bar;
    CountConcat(f.fileName, bar, '|');
    CountConcat(p1, f.switches, '|');
    CountConcat(p2, bar, '|');
    CountConcat(p3, f.key, '|');
    CountConcat(p4, bar, '|');
    CountConcat(p5, f.location, '|');
  }

  /**
   * CreateLocator neither escapes nor rejects a `|` inside a field, so the
   * plaintext of a template reads back exactly when no field holds one; a
   * template whose switches or key contain `|` gets a locator Locate rejects.
   */
  lemma LocatorReadsBackIffPipeFree(f: LocatorFields)
    ensures ParseLocator(LocatorPlaintext(f)).Success?
            <==> '|' !in f.fileName && '|' !in f.switches && '|' !in f.key && '|' !in f.location
    ensures ParseLocator(LocatorPlaintext(f)).Success? ==> ParseLocator(LocatorPlaintext(f)).value == f
  {
    PlaintextPipeCount(f);
    CountPositive(f.fileName, '|');
    CountPositive(f.switches, '|');
    CountPositive(f.key, '|');
    CountPositive(f.location, '|');
    if '|' !in f.fileName && '|' !in f.switches && '|' !in f.key && '|' !in f.location {
      LocatorRoundTrip(f);
    }
  }

  /** A key holding `|` gives a locator that reads back as five tokens, so Locate rejects it. */
  lemma PipeInKeyIsRejected()
    ensures ParseLocator(LocatorPlaintext(LocatorFields("a", "", "k|x", "l"))) == Failure(InvalidLocator)
  {
    LocatorReadsBackIffPipeFree(LocatorFields("a", "", "k|x", "l"));
    assert "k|x"[1] == '|';
  }

  /** Every accepted plaintext is the plaintext of the fields parsed from it. */
  lemma ParsedLocatorRejoins(plain: string)
    requires ParseLocator(plain).Success?
    ensures LocatorPlaintext(ParseLocator(plain).value) == plain
  {
    var f := ParseLocator(plain).value;
    PlaintextIsJoin(f);
    JoinSplit(plain, '|');
    assert Split(plain, '|') == [f.fileName, f.switches, f.key, f.location];
  }

  // ---------------------------------------------------------------------------
  // The template object

  /** `string.IsNullOrEmpty(s) ? "" : s`, with None for null. */
  function NullToEmpty(s: Option<string>): (r: string)
    ensures s.Some? ==> r == s.value
    ensures s.None? ==> r == ""
  {
    if s.None? || s.value == "" then "" else s.value
  }

  /**
   * A locator made by CreateLocator and decrypted again parses back to the
   * template's own fields, provided none of them holds a `|`.
   */
  lemma CreateLocatorRoundTrip(t: Template, encrypt: string -> string, decrypt: string -> string)
    requires decrypt(encrypt(LocatorPlaintext(t.Fields()))) == LocatorPlaintext(t.Fields())
    requires '|' !in t.fileName && '|' !in t.switches && '|' !in t.key && '|' !in t.location.locator
    ensures ParseLocator(decrypt(t.CreateLocator(encrypt))) == Success(t.Fields())
  {
    LocatorRoundTrip(t.Fields());
  }

  /** A template managed by the host application, with its assembly switches. */
  class Template {
    var fileName: string
    const location: TemplateLocation
    var switches: string
    var key: string

    /** Stores the fields as given; the checks of the public constructors are in Create and CreateForPackage. */
    constructor (fileName: string, location: TemplateLocation, switches: string, key: string)
      ensures this.fileName == fileName && this.location == location
      ensures this.switches == switches && this.key == key
    {
      this.fileName := fileName;
      this.location := location;
      this.switches := switches;
      this.key := key;
    }

    /** The constructor from a file name and a location; None stands for null. */
    static method Create(fileName: Option<string>, location: Option<TemplateLocation>,
                         switches: Option<string>, key: Option<string>)
      returns (r: Result<Template, Error>)
      ensures fileName.None? || fileName == Some("") ==> r == Failure(ArgumentError("fileName"))
      ensures fileName.Some? && fileName != Some("") && location.None? ==> r == Failure(ArgumentError("location"))
      ensures r.Success? <==> fileName.Some? && fileName != Some("") && location.Some?
      ensures r.Success? ==> (fresh(r.value)
                              && r.value.fileName == fileName.value && r.value.location == location.value
                              && r.value.switches == NullToEmpty(switches) && r.value.key == NullToEmpty(key))
    {
      if fileName.None? || fileName.value == "" {
        return Failure(ArgumentError("fileName"));
      }
      if location.None? {
        return Failure(ArgumentError("location"));
      }
      var t := new Template(fileName.value, location.value, NullToEmpty(switches), NullToEmpty(key));
      return Success(t);
    }

    /**
     * The constructor for the main template of a package; the file name is the
     * one the package manifest names, taken without a check.
     */
    static method CreateForPackage(location: Option<TemplateLocation>, mainTemplateFileName: string,
                                   switches: Option<string>, key: Option<string>)
      returns (r: Result<Template, Error>)
      ensures location.None? ==> r == Failure(ArgumentNullError("location"))
      ensures r.Success? <==> location.Some?
      ensures r.Success? ==> (fresh(r.value)
                              && r.value.fileName == mainTemplateFileName && r.value.location == location.value
                              && r.value.switches == NullToEmpty(switches) && r.value.key == NullToEmpty(key))
    {
      if location.None? {
        return Failure(ArgumentNullError("location"));
      }
      var t := new Template(mainTemplateFileName, location.value, NullToEmpty(switches), NullToEmpty(key));
      return Success(t);
    }

    /** The fields a locator for this template carries. */
    function Fields(): LocatorFields
      reads this
    {
      LocatorFields(fileName, switches, key, location.locator)
    }

    /** CreateLocator: the encrypted plaintext of the template's fields. */
    function CreateLocator(encrypt: string -> string): string
      reads this
    {
      encrypt(LocatorPlaintext(Fields()))
    }

    /** UpdateFileName: adopts the file name the location reports, rejecting a null or empty one. */
    method UpdateFileName(update: FileNameUpdate) returns (r: Outcome<Error>)
      modifies this`fileName
      ensures update.NoUpdate? ==> r == Pass && fileName == old(fileName)
      ensures update.Updated? && (update.name.None? || update.name == Some(""))
              ==> r == Fail(InvalidFileName) && fileName == old(fileName)
      ensures update.Updated? && update.name.Some? && update.name != Some("")
              ==> r == Pass && fileName == update.name.value
    {
      if update.Updated? {
        if update.name.None? || update.name.value == "" {
          return Fail(InvalidFileName);
        }
        fileName := update.name.value;
      }
      return Pass;
    }

    /**
     * Locate: recreates a template from a locator made by CreateLocator. The
     * decryption and the location's file-name report come from outside.
     */
    static method Locate(locator: Option<string>, decrypt: string -> string, update: FileNameUpdate)
      returns (r: Result<Template, Error>)
      ensures locator.None? || locator == Some("") ==> r == Failure(ArgumentNullError("locator"))
      ensures locator.Some? && locator != Some("") ==>
        var p := ParseLocator(decrypt(locator.value));
        && (p.Failure? ==> r == Failure(InvalidLocator))
        && (p.Success? && p.value.fileName == "" ==> r == Failure(ArgumentError("fileName")))
        && (p.Success? && p.value.fileName != "" && update.Updated? && (update.name.None? || update.name == Some(""))
            ==> r == Failure(InvalidFileName))
        && (r.Success? ==>
              (p.Success? && fresh(r.value)
               && r.value.fileName == (if update.Updated? then update.name.value else p.value.fileName)
               && r.value.switches == p.value.switches && r.value.key == p.value.key
               && r.value.location == TemplateLocation(p.value.location)))
      ensures r.Success? <==>
        && locator.Some? && locator != Some("")
        && var p := ParseLocator(decrypt(locator.value));
           && p.Success? && p.value.fileName != ""
           && (update.NoUpdate? || (update.name.Some? && update.name != Some("")))
    {
      if locator.None? || locator.value == "" {
        return Failure(ArgumentNullError("locator"));
      }
      var p := ParseLocator(decrypt(locator.value));
      if p.Failure? {
        return Failure(InvalidLocator);
      }
      var created := Create(Some(p.value.fileName), Some(TemplateLocation(p.value.location)),
                            Some(p.value.switches), None);
      if created.Failure? {
        return Failure(created.error);
      }
      var t := created.value;
      t.key := p.value.key;
      var updated := t.UpdateFileName(update);
      if updated.Fail? {
        return Failure(updated.error);
      }
      return Success(t);
    }
  }
}
