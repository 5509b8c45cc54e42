# VectorDrawable-to-SVG page: upload logic and override placeholder

This project models the hand-written logic of the converter page
`pages/index.js`. It proves properties of that model in Dafny.

The page does four things that the model covers:

- It accepts a dropped Android VectorDrawable file and checks its type.
- It converts the file to SVG with a library call.
- It keeps an editable XML "override" document of resource values.
- It offers the SVG for download.

When no overrides are present, it fills the editor with a placeholder. The
placeholder lists every `@type/name` reference the uploaded file uses, each
with a default value.

Modules:

- `Wrappers` (`wrappers.dfy`): `Option`, which stands in for `null`/`undefined`.
- `Text` (`text.dfy`): the regular-expression character classes `\w` and `\s`, and the JavaScript line terminators. It also holds `String.prototype.split` and `Array.prototype.join` for a one-character separator, with their round trips.
- `Scanner` (`scanner.dfy`): the global `exec` loop over `@(\w+)\/(\w+)`. The scanner is written by hand and shown equal to the pattern.
- `Placeholder` (`placeholder.dfy`): `createOverridePlaceholder`. This covers the per-type defaults, the template, the `.replace(/^\s/gm, '')` step and the resulting line layout.
- `Upload` (`upload.dfy`): the page as a state machine. The state is drag state, uploaded file, current SVG and override text. The module also holds the pure helpers, the fail-open override expression and the download name. `transform` and `parseAndroidResource` are opaque, fallible function parameters (`Library`).

The scanner follows the code: it does **not** deduplicate references. Every
match gives one entry line, repetitions included.

For a type without a default, the code writes the two characters `""` as the
element's text, not an empty value. The model does the same.

## Model

| member | source | states |
|---|---|---|
| `Scanner.MatchAtIsPattern` | pages/index.js:18 | The scanner's test at a position holds exactly when some split of `@(\w+)\/(\w+)` matches there. Every matching split has the captured type as its first group and no longer a name than the greedy capture. |
| `Scanner.NoAtInsideMatch` | pages/index.js:18 | No `@` lies strictly inside a match, so a match can never hide the start of another. |
| `Scanner.MatchEnd` | pages/index.js:18-29 | The position where the next search resumes (`lastIndex`) is at least four characters past the `@`. It is the end of the text or a non-word character. |
| `Scanner.RefAt` | pages/index.js:18-29 | The two captured groups are non-empty word-character strings. |
| `Scanner.RefAtText` | pages/index.js:18-29 | The matched text is exactly `@`, the captured type, `/` and the captured name. |
| `Scanner.ScanFrom` | pages/index.js:18-30 | The scan records only real match positions, in strictly increasing order, each with its captured groups. Successive matches do not overlap. Every match position at or after the start is recorded. |
| `Scanner.Scan` | pages/index.js:18-30 | Every collected `(type, name)` pair is well formed. The list is empty exactly when no position of the text matches. |
| `Scanner.FoundIsScan` | pages/index.js:28-30 | Stepping as the loop does (record and resume past the name, or move one character) gives the same pairs as the scan. |
| `Scanner.ScanRender` | pages/index.js:18-30 | Text writing out well-formed references separated by spaces scans back to exactly those references, in order, with duplicates kept. |
| `Scanner.ScanExample` | pages/index.js:18-30 | In `@@a/b/c` the scan finds only `(a, b)`. A failed `@` does not swallow the next, and scanning resumes past the name. |
| `Scanner.ScanLone` | pages/index.js:18-30 | One reference amid text with no other `@`, not followed by a word character, is the only pair found. |
| `Scanner.ScanAttributeExample` | pages/index.js:18-30 | `@color/colorAccent` inside an XML attribute value is found as `(color, colorAccent)`. |
| `Placeholder.DefaultValue` | pages/index.js:22-36 | The default is `#FF00FF` exactly for `color`, `0dp` exactly for `dimen`, `None` exactly for `string`. It is the two characters `""` exactly for every other type. |
| `Placeholder.CreateOverridePlaceholder` | pages/index.js:17-42 | The result is empty exactly when the scan finds nothing. Otherwise its newline-separated lines are the layout below, with no leading or trailing newline. |
| `Placeholder.PlaceholderLayout` | pages/index.js:36-41 | After the replacement, the template is `<!--missing values-->`, `<resources>`, one line per scanned reference in scan order, then `</resources>`. Each entry line is indented by exactly one space, and splitting on newlines gives back exactly those lines. |
| `Placeholder.ElementSingleLine` | pages/index.js:36 | An entry element `<type name="name">default</type>` never contains a line terminator. It begins with `<` followed by the reference's type, the start of its opening tag. |
| `Placeholder.StripIndent` | pages/index.js:41 | The `/^\s/gm` replacement never lengthens the text. It removes only white space: the characters that are not white space stay, all of them and in order. A first character that is not white space is kept. |
| `Placeholder.StripAppend` | pages/index.js:41 | The `/^\s/gm` replacement distributes over concatenation. The second part starts a line exactly when the first ends in a line terminator. |
| `Placeholder.StripSingleLine` | pages/index.js:41 | Inside a line the replacement removes nothing. |
| `Placeholder.StripLines` | pages/index.js:41 | Lines that each begin with one non-terminator white-space character lose exactly that character and nothing else. |
| `Placeholder.PlaceholderOfRendered` | pages/index.js:17-42 | The placeholder for text that writes out references has one entry line per reference, in order, repetitions included. |
| `Upload.IsValidFileType` | pages/index.js:54-57 | A content type is accepted exactly when it is `text/xml` or `application/xml`. |
| `Upload.TransformXmlOrNull` | pages/index.js:59-68 | Empty content gives no output. A throwing transform gives no output and the failure does not escape. Otherwise the output is the transform's text. |
| `Upload.DropzoneClass` | pages/index.js:70-74 | Each drag state has its own class: none for the initial state, empty for drag-leave, `vd-highlight` for dragging, `vd-active` for drop. |
| `Upload.DropzoneClassNameInjective` | pages/index.js:238 | The rendered class attribute tells all four states apart, including the initial state's `vd-dropzone undefined`. |
| `Upload.ResolveOverrides` | pages/index.js:96-103 | The override mapping is the parser's result when it returns one. It is the empty mapping when the parser throws or returns a falsy value, and no failure reaches the caller. |
| `Upload.DragEnter` | pages/index.js:123-127 | Entering a drag highlights the drop zone and changes nothing else. |
| `Upload.DragLeave` | pages/index.js:129-133 | Leaving a drag sets the drag-leave state and changes nothing else. |
| `Upload.ProceedFile` | pages/index.js:135-155 | With output, the state becomes drop and the file and SVG are recorded. Without output, the state, file and SVG are unchanged. The override text is replaced by the placeholder exactly when the current mapping is empty and the placeholder is not. |
| `Upload.FileDrop` | pages/index.js:157-171 | No file, or a first file of another type, resets the drag state and leaves file, SVG and overrides alone. A first file of an XML type is processed as `proceedFile` does. |
| `Upload.ClearUpload` | pages/index.js:179-184 | Clearing forgets file and SVG and resets the drag state. The override text is kept. |
| `Upload.EditOverrides` | pages/index.js:268-271 | Editing the override text changes only that text. |
| `Upload.RefreshSvg` | pages/index.js:105-121 | Re-transforming the current file changes nothing but the SVG. The SVG changes only when a file is present and the transform yields non-empty output, and then it becomes that output. When a file is present and the transform yields non-empty output, the SVG is set to that output. |
| `Upload.DownloadName` | pages/index.js:194 | A name without a dot gives `.svg`. Otherwise the result is the name up to its last dot, followed by `.svg`. |
| `Upload.LastDot` | pages/index.js:194 | Splitting on `.`, dropping the last piece and joining again gives exactly the text before the last dot. |
| `Upload.DownloadNameReplacesExtension` | pages/index.js:194 | A stem, a dot and a dot-free extension download as the stem with `.svg`, so only the last extension is replaced. |
| `Upload.DownloadCurrentSvg` | pages/index.js:186-198 | Nothing is downloaded exactly when there is no SVG output. Otherwise the SVG is downloaded as `output.svg` without a file, or under the file's derived name. |
| `Text.Split` | pages/index.js:194 | Splitting on one character gives at least one piece, and no piece contains the separator. There is more than one piece exactly when the separator occurs in the text. |
| `Text.JoinSplit` | pages/index.js:194 | Joining the pieces of a split with the same separator gives back the original text. |
| `Text.SplitJoin` | pages/index.js:194 | Splitting the join of separator-free pieces, at least one of them, gives back the pieces. |
| `Upload.StepConsistent` | pages/index.js:123-184 | Every user action and every re-transformation keeps the page consistent. A stored SVG is never empty, an uploaded file always has its SVG and an XML type, and the drop state always has a file. |
| `Upload.RunConsistent` | pages/index.js:123-184 | Any sequence of actions from a consistent page ends in a consistent page. |
| `Upload.ReachableConsistent` | pages/index.js:90-94 | Every page reachable from the initial state is consistent. |
| `Upload.EnterDropOnlyByValidOutput` | pages/index.js:135-171 | The drop state is entered only by dropping a file of an XML type whose transform yields output. That file is then recorded. |
| `Upload.EnabledDownload` | pages/index.js:186-198 | On a consistent page with an uploaded file, which is when the download button is enabled, the download is always the SVG under the file's derived name. |

## Left out

- `transform` and `parseAndroidResource` come from the `vector-drawable-svg` library, which is not part of this model. They are parameters that return a value, a falsy value (parser only) or a failure.
- Whether a filled-in placeholder parses back to the expected mapping is not stated. That round trip runs through `parseAndroidResource`, which is opaque here.
- The override mapping is a finite map from `(type, name)` to text. `Object.entries(override).length` is its size. The library's actual object shape is not modelled.
- `readFileContent` and the `FileReader` are not modelled: a `File` carries the text a read yields. `downloadBlob` and the DOM anchor are not modelled either: a download is the pair of file name and text.
- React reactivity is not modelled: `useState`, `useEffect` triggers, re-render order and the last-write-wins ordering of overlapping asynchronous reads. The effect body is `RefreshSvg`, an event that may happen at any time. Setting several state variables in one handler is one atomic step.
- The file-picker path is not modelled: the `useFilePicker` effect (lines 200-211), its `maxFileSize` option and the click handler. A picked file goes through the same `proceedFile` as a dropped one.
- Event plumbing is not modelled: `preventDefault`, `stopPropagation`, `dragOver` and its `dropEffect`.
- JSX rendering is not modelled, apart from the drop zone's class attribute. This covers `ReactSVG`, `SVG`, CodeMirror and the GitHub button.
- `Placeholder.DefaultValue`: the defaults are a three-key finite map. JavaScript's `defaults[tag]` also finds inherited properties for tags such as `constructor` or `toString`, and that quirk is excluded.
- `Placeholder.CreateOverridePlaceholder`: `JSON.stringify(name)` is modelled as wrapping in double quotes. This is exact because a captured name contains only word characters.
- `Upload.TransformXmlOrNull`: `console.warn` is not modelled. Its `undefined` return on a failure is not told apart from `null`; both are "no output".
- `Upload.TransformXmlOrNull`: a transform result that is falsy but not a string (other than the empty string) is not modelled. The transform returns text.
- Determinism of the placeholder and of the transitions needs no separate statement. All members are functions of their inputs, and the library is a fixed pair of functions.
