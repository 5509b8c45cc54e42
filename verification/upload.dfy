/** The page's upload logic: file validation, the fail-open override mapping,
    the guarded transformation, the drop-zone state machine and the download
    file name. The two library functions are parameters: `parse` stands for
    `parseAndroidResource` and `transform` for `transform`, both opaque and
    fallible. Reading a file is collapsed into the `content` a `File` carries. */
module Upload {
  import opened Wrappers
  import opened Text
  import opened Scanner
  import opened Placeholder

  /** `STATE_NONE` (-1), `STATE_DRAG_LEAVE` (0), `STATE_DRAGGING` (1) and
      `STATE_DROP` (2). */
  datatype DragState = StateNone | StateDragLeave | StateDragging | StateDrop

  /** The override mapping, keyed by `(type, name)`. */
  type Overrides = map<Ref, string>

  /** A call of `parseAndroidResource`: it returns an object, returns a falsy
      value, or throws. */
  datatype ParseOutcome = Parsed(mapping: Overrides) | ParsedFalsy | ParseThrew

  /** A call of `transform`: it returns text, or throws. */
  datatype TransformOutcome = Transformed(svg: string) | TransformThrew

  /** The library the page calls into. */
  datatype Library = Library(
    parse: string -> ParseOutcome,
    transform: (string, Overrides) -> TransformOutcome)

  /** A dropped file: its name, its declared content type, and the text a
      read of it yields. */
  datatype File = File(name: string, mimeType: string, content: string)

  /** The page state: the drop-zone state, the uploaded file, the current SVG
      and the text of the override editor. */
  datatype Page = Page(
    dragState: DragState,
    file: Option<File>,
    svg: Option<string>,
    xmlResource: string)

  /** The page before any interaction. */
  const Initial: Page := Page(StateNone, None, None, "<!--Android XML resources-->")

  /** `isValidFileType`: only the two XML content types are accepted. */
  function IsValidFileType(mimeType: string): (ok: bool)
    ensures ok <==> mimeType in {"text/xml", "application/xml"}
  {
    if mimeType == "text/xml" then true else mimeType == "application/xml"
  }

  /** `dropzoneClassOfState`: no class at all (`undefined`) in the initial
      state, otherwise one class per state. */
  function DropzoneClass(d: DragState): (c: Option<string>)
    ensures c.None? <==> d == StateNone
    ensures c == Some("") <==> d == StateDragLeave
    ensures c == Some("vd-highlight") <==> d == StateDragging
    ensures c == Some("vd-active") <==> d == StateDrop
  {
    match d
    case StateDragLeave => Some("")
    case StateDragging => Some("vd-highlight")
    case StateDrop => Some("vd-active")
    case StateNone => None
  }

  /** A class as string concatenation writes it: a missing one becomes the
      text `undefined`. */
  function ClassText(c: Option<string>): string
  {
    match c
    case Some(name) => name
    case None => "undefined"
  }

  /** The drop zone's class attribute, `"vd-dropzone " + ...`, where string
      concatenation renders a missing class as `undefined`. */
  function DropzoneClassName(d: DragState): string
  {
    "vd-dropzone " + ClassText(DropzoneClass(d))
  }

  /** Every state renders a class attribute of its own. */
  lemma DropzoneClassNameInjective(d: DragState, e: DragState)
    ensures DropzoneClassName(d) == DropzoneClassName(e) <==> d == e
  {
    var p := "vd-dropzone ";
    var x := ClassText(DropzoneClass(d));
    var y := ClassText(DropzoneClass(e));
    assert DropzoneClassName(d)[|p|..] == x && DropzoneClassName(e)[|p|..] == y;
    assert "vd-active"[0] != "undefined"[0];
  }

  /** The `override` expression: the parser's result when it returns one,
      and the empty mapping when it throws or returns a falsy value; no
      failure reaches the caller. */
  function ResolveOverrides(xmlResource: string, parse: string -> ParseOutcome): (m: Overrides)
    ensures parse(xmlResource).Parsed? ==> m == parse(xmlResource).mapping
    ensures !parse(xmlResource).Parsed? ==> m == map[]
  {
    match parse(xmlResource)
    case Parsed(result) => result
    case ParsedFalsy => map[]
    case ParseThrew => map[]
  }

  /** `transformXmlOrNull`: no output for empty content, no output when the
      transform throws, and the transform's text otherwise. */
  function TransformXmlOrNull(
    value: string, overrides: Overrides, transform: (string, Overrides) -> TransformOutcome
  ): (out: Option<string>)
    ensures value == "" ==> out == None
    ensures value != "" && transform(value, overrides).TransformThrew? ==> out == None
    ensures value != "" && transform(value, overrides).Transformed? ==>
      out == Some(transform(value, overrides).svg)
  {
    if value == "" then None
    else
      match transform(value, overrides)
      case Transformed(svg) => Some(svg)
      case TransformThrew => None
  }

  /** The negation of `!svgContent`: there is output and it is not the empty
      string. */
  predicate HasOutput(out: Option<string>) {
    out.Some? && out.value != ""
  }

  /** `proceedFile`: transform the content with the current overrides; seed
      the override editor with a placeholder if it resolves to nothing; on
      output, record file and SVG and enter the drop state, otherwise keep
      state, file and SVG as they were. */
  function ProceedFile(p: Page, f: File, lib: Library): (q: Page)
    ensures
      var out := TransformXmlOrNull(f.content, ResolveOverrides(p.xmlResource, lib.parse), lib.transform);
      && (HasOutput(out) ==> q.dragState == StateDrop && q.file == Some(f) && q.svg == out)
      && (!HasOutput(out) ==> q.dragState == p.dragState && q.file == p.file && q.svg == p.svg)
    ensures |ResolveOverrides(p.xmlResource, lib.parse)| == 0 && Scan(f.content) != [] ==>
      q.xmlResource == CreateOverridePlaceholder(f.content) && q.xmlResource != ""
    ensures !(|ResolveOverrides(p.xmlResource, lib.parse)| == 0 && Scan(f.content) != []) ==>
      q.xmlResource == p.xmlResource
  {
    var overrides := ResolveOverrides(p.xmlResource, lib.parse);
    var svgContent := TransformXmlOrNull(f.content, overrides, lib.transform);
    var p1 :=
      if |overrides| == 0 && CreateOverridePlaceholder(f.content) != ""
      then p.(xmlResource := CreateOverridePlaceholder(f.content))
      else p;
    if !HasOutput(svgContent) then p1
    else p1.(svg := svgContent, file := Some(f), dragState := StateDrop)
  }

  /** `fileDrop`: the first dropped file goes on to `proceedFile` when its
      type is valid; no file, or a file of another type, only resets the
      drop-zone state. */
  function FileDrop(p: Page, files: seq<File>, lib: Library): (q: Page)
    ensures |files| == 0 || !IsValidFileType(files[0].mimeType) ==>
      && q.dragState == StateNone
      && q.file == p.file && q.svg == p.svg && q.xmlResource == p.xmlResource
    ensures |files| > 0 && IsValidFileType(files[0].mimeType) ==>
      q == ProceedFile(p, files[0], lib)
  {
    if |files| > 0 && IsValidFileType(files[0].mimeType) then ProceedFile(p, files[0], lib)
    else p.(dragState := StateNone)
  }

  /** `dragEnter`: highlight the drop zone; nothing else changes. */
  function DragEnter(p: Page): (q: Page)
    ensures q.dragState == StateDragging
    ensures q.file == p.file && q.svg == p.svg && q.xmlResource == p.xmlResource
  {
    p.(dragState := StateDragging)
  }

  /** `dragLeave`: the drag-leave state; nothing else changes. */
  function DragLeave(p: Page): (q: Page)
    ensures q.dragState == StateDragLeave
    ensures q.file == p.file && q.svg == p.svg && q.xmlResource == p.xmlResource
  {
    p.(dragState := StateDragLeave)
  }

  /** `clearUpload`: forget file and SVG and reset the drop zone; the
      override editor keeps its text. */
  function ClearUpload(p: Page): (q: Page)
    ensures q.dragState == StateNone && q.file == None && q.svg == None
    ensures q.xmlResource == p.xmlResource
  {
    p.(dragState := StateNone, file := None, svg := None)
  }

  /** The override editor's `onChange`: the user's text replaces the editor's. */
  function EditOverrides(p: Page, text: string): (q: Page)
    ensures q.xmlResource == text
    ensures q.dragState == p.dragState && q.file == p.file && q.svg == p.svg
  {
    p.(xmlResource := text)
  }

  /** The body of the effect that re-transforms the current file with the
      current overrides: the SVG is replaced only by actual output. */
  function RefreshSvg(p: Page, lib: Library): (q: Page)
    ensures q.dragState == p.dragState && q.file == p.file && q.xmlResource == p.xmlResource
    ensures q.svg != p.svg ==>
      && p.file.Some?
      && q.svg == TransformXmlOrNull(p.file.value.content, ResolveOverrides(p.xmlResource, lib.parse), lib.transform)
      && HasOutput(q.svg)
    ensures p.file.Some?
      && HasOutput(TransformXmlOrNull(p.file.value.content, ResolveOverrides(p.xmlResource, lib.parse), lib.transform))
      ==> q.svg == TransformXmlOrNull(p.file.value.content, ResolveOverrides(p.xmlResource, lib.parse), lib.transform)
  {
    match p.file
    case None => p
    case Some(f) =>
      var svgContent := TransformXmlOrNull(f.content, ResolveOverrides(p.xmlResource, lib.parse), lib.transform);
      if !HasOutput(svgContent) then p else p.(svg := svgContent)
  }

  /** `name.split('.').slice(0, -1).join('.') + ".svg"`: the name up to its
      last dot, with `.svg` appended; a name without a dot gives just `.svg`. */
  function DownloadName(name: string): (fn: string)
    ensures '.' !in name ==> fn == ".svg"
    ensures '.' in name ==> exists k :: 0 <= k < |name| && name[k] == '.' && '.' !in name[k + 1..] && fn == name[..k] + ".svg"
  {
    var parts := Split(name, '.');
    var stem := Join(parts[..|parts| - 1], '.');
    if |parts| >= 2 then
      LastDot(name);
      stem + ".svg"
    else
      stem + ".svg"
  }

  /** The text before the last separator is the join of all but the last
      piece. */
  lemma LastDot(name: string)
    requires '.' in name
    ensures
      var parts := Split(name, '.');
      var k := |Join(parts[..|parts| - 1], '.')|;
      && k < |name| && name[k] == '.' && '.' !in name[k + 1..]
      && name[..k] == Join(parts[..|parts| - 1], '.')
  {
    var parts := Split(name, '.');
    var init := parts[..|parts| - 1];
    var last := parts[|parts| - 1];
    JoinSplit(name, '.');
    JoinAppend(init, [last], '.');
    assert init + [last] == parts;
    assert name == Join(init, '.') + ['.'] + last;
    var k := |Join(init, '.')|;
    assert name[k + 1..] == last;
  }

  /** Only the last extension is replaced: a stem followed by a dot and a
      dot-free extension downloads as the stem with `.svg`. */
  lemma DownloadNameReplacesExtension(stem: string, ext: string)
    requires '.' !in ext
    ensures DownloadName(stem + "." + ext) == stem + ".svg"
  {
    var name := stem + "." + ext;
    var n := |stem|;
    assert name[n] == '.';
    var k :| 0 <= k < |name| && name[k] == '.' && '.' !in name[k + 1..] && DownloadName(name) == name[..k] + ".svg";
    assert k == n;
    assert name[..n] == stem;
  }

  /** A file to download: its name and its text. */
  datatype Download = Download(filename: string, text: string)

  /** `downloadCurrentSvg`: nothing without an SVG; otherwise the SVG under
      `output.svg`, or under the uploaded file's name with `.svg` in place of
      its last extension. */
  function DownloadCurrentSvg(p: Page): (d: Option<Download>)
    ensures d.None? <==> !HasOutput(p.svg)
    ensures d.Some? ==> d.value.text == p.svg.value
    ensures d.Some? && p.file.None? ==> d.value.filename == "output.svg"
    ensures d.Some? && p.file.Some? ==> d.value.filename == DownloadName(p.file.value.name)
  {
    if !HasOutput(p.svg) then None
    else
      var filename := if p.file.Some? then DownloadName(p.file.value.name) else "output.svg";
      Some(Download(filename, p.svg.value))
  }

  /** The user actions and the re-transformation effect. */
  datatype Event =
    | DragEntered
    | DragLeft
    | Dropped(files: seq<File>)
    | Cleared
    | Edited(text: string)
    | Refreshed

  function Step(p: Page, e: Event, lib: Library): Page
  {
    match e
    case DragEntered => DragEnter(p)
    case DragLeft => DragLeave(p)
    case Dropped(files) => FileDrop(p, files, lib)
    case Cleared => ClearUpload(p)
    case Edited(text) => EditOverrides(p, text)
    case Refreshed => RefreshSvg(p, lib)
  }

  function Run(p: Page, events: seq<Event>, lib: Library): Page
    decreases |events|
  {
    if |events| == 0 then p else Run(Step(p, events[0], lib), events[1..], lib)
  }

  /** What the page keeps true: a stored SVG is never empty, an uploaded file
      always has its SVG, the drop state always has a file, and every
      uploaded file has an XML type. */
  predicate Consistent(p: Page) {
    && (p.svg.Some? ==> p.svg.value != "")
    && (p.file.Some? ==> p.svg.Some? && IsValidFileType(p.file.value.mimeType))
    && (p.dragState == StateDrop ==> p.file.Some?)
  }

  lemma StepConsistent(p: Page, e: Event, lib: Library)
    requires Consistent(p)
    ensures Consistent(Step(p, e, lib))
  {
    match e
    case Dropped(files) => DropConsistent(p, files, lib);
    case Refreshed => RefreshConsistent(p, lib);
    case _ =>
  }

  /** A drop keeps the page consistent. */
  lemma DropConsistent(p: Page, files: seq<File>, lib: Library)
    requires Consistent(p)
    ensures Consistent(FileDrop(p, files, lib))
  {
  }

  /** A re-transformation keeps the page consistent. */
  lemma RefreshConsistent(p: Page, lib: Library)
    requires Consistent(p)
    ensures Consistent(RefreshSvg(p, lib))
  {
  }

  /** Every page reachable from the initial one by user actions and
      re-transformations is consistent. */
  lemma {:induction false} RunConsistent(p: Page, events: seq<Event>, lib: Library)
    requires Consistent(p)
    ensures Consistent(Run(p, events, lib))
    decreases |events|
  {
    if |events| > 0 {
      StepConsistent(p, events[0], lib);
      RunConsistent(Step(p, events[0], lib), events[1..], lib);
    }
  }

  lemma ReachableConsistent(events: seq<Event>, lib: Library)
    ensures Consistent(Run(Initial, events, lib))
  {
    RunConsistent(Initial, events, lib);
  }

  /** The drop state is entered only by dropping a file of a valid type whose
      content the transform turns into output, and that file is recorded. */
  lemma EnterDropOnlyByValidOutput(p: Page, e: Event, lib: Library)
    requires p.dragState != StateDrop
    requires Step(p, e, lib).dragState == StateDrop
    ensures e.Dropped? && |e.files| > 0 && IsValidFileType(e.files[0].mimeType)
    ensures HasOutput(TransformXmlOrNull(e.files[0].content, ResolveOverrides(p.xmlResource, lib.parse), lib.transform))
    ensures Step(p, e, lib).file == Some(e.files[0])
  {
  }

  /** On a consistent page the download button, enabled exactly when a file
      is uploaded, always downloads the SVG under the file's derived name. */
  lemma EnabledDownload(p: Page)
    requires Consistent(p) && p.file.Some?
    ensures DownloadCurrentSvg(p) == Some(Download(DownloadName(p.file.value.name), p.svg.value))
  {
  }
}
