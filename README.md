# doc2html: the section splitter, in Dafny

doc2html turns a Word document into one HTML file per section. Mammoth converts
the document to HTML. JSDOM parses that HTML. Then `processConvertedDocument`
walks the element children of `<body>` in order and moves each one into a
document fragment:

- a heading (`h1` to `h6`, any case) opens a new fragment, named after the
  heading's text;
- any other child joins the open fragment;
- a first child that is not a heading opens a fragment named `orphan`.

`writeFiles` then writes each fragment to `<dest>/<name, trimmed>.html` inside a
fixed page template. It creates `<dest>` first when nothing exists at that path.

The project has three modules:

- `Dom` (`dom.dfy`). Nodes are values `Node(tag, text)`. A node's identity is its
  position among the body's children, so a parent's children are a sequence of
  positions. `appendChild` follows the DOM's move semantics: the node leaves the
  parent that held it, then becomes the new parent's last child.
- `Segmenter` (`segmenter.dfy`). `ProcessConvertedDocument` is the source's loop
  written as a Dafny `while` loop over the same state:
  - `docs`, the `htmlDocs` array;
  - `pending`, the `htmlDoc` variable;
  - `body`, the element children still in `<body>`.

  It is proved equal to a recursive reference segmentation, `Sections`, minus
  its last section. The properties in the table below are lemmas about
  `Sections` and `Emitted`.
- `Writer` (`writer.dfy`). The page text, the file names, and a `FileSystem`
  class with a set of directories and a map from path to contents.
  - `WriteFiles` creates the folder and writes the documents in order. It stops
    when `mkdirSync` or a write fails, as the source does by throwing.
  - The class invariant `Valid()` says no path is both a folder and a file.
  - `GenerateHtmlFiles` chains the segmenter and the writer, as
    `generateHTMLFiles` does after the conversion.

The page template at src/index.js:149 begins with `<DOCTYPE html>`, which has
no `!`. The model keeps that text as written.

## Model

| member | source | states |
|---|---|---|
| Dom.HeadingTest | src/index.js:91-94 | lower-casing the node name and looking it up among `h1`..`h6` accepts exactly the tags `IsHeading` accepts |
| Dom.Remove | src/index.js:115-118 | taking a node out of a parent removes it and keeps every other child |
| Dom.AppendChild | src/index.js:100-118 | after `appendChild(x)`, x is the last child and appears nowhere else; the other children are kept; an x not already there is simply added at the end |
| Dom.RemoveMiddle | src/index.js:115-118 | taking out a node that occurs once leaves exactly the other children, in their order |
| Dom.AppendChildMoves | src/index.js:118 | appending a node that is already a child moves it to the end and keeps the other children in their order |
| Dom.AppendChildAgain | src/index.js:94-118 | appending the first child again, in the `else` branch after the orphan branch, leaves the fragment unchanged |
| Dom.RemoveRangeHead | src/index.js:90-118 | moving the first element child still in `<body>` out of it leaves the later ones in order |
| Segmenter.ProcessConvertedDocument | src/index.js:77-123 | returns every section but the last, leaves the last one open in `pending`, and leaves no element child in `<body>`; `htmlDoc` is non-null whenever the `else` branch runs |
| Segmenter.SectionsLossless | src/index.js:90-120 | the sections' children, read in order, are the body's children, each exactly once |
| Segmenter.OutputLossless | src/index.js:90-122 | the returned documents' children followed by the open `htmlDoc`'s children are the body's children, each once and in order |
| Segmenter.SectionShape | src/index.js:94-118 | every section is non-empty and starts with the child that opened it; its name is that child's text when the child is a heading and `orphan` otherwise; only the first section can be opened by a non-heading; no later member of a section is a heading |
| Segmenter.HeadingOpensSection | src/index.js:103-115 | every heading is the first child of some section, and that section's name is the heading's text (`''` when it has none) |
| Segmenter.OrphanSection | src/index.js:94-101 | a section opened by a non-heading exists if and only if the first child is not a heading; it is then the first section, named `orphan`, and holds exactly the children before the first heading |
| Segmenter.EmittedCount | src/index.js:103-122 | the number of returned documents is the number of headings when the first child is not a heading, one fewer when it is, and zero for an empty body |
| Segmenter.SectionOrder | src/index.js:90-106 | sections come in the order of the children that opened them, and every child of a section precedes the next section's children |
| Segmenter.LastSectionNotEmitted | src/index.js:120-122 | for a non-empty body, the returned documents plus the open one are all the sections; the last child is in the open one and in no returned document |
| Segmenter.SingleHeadingDropped | src/index.js:120-122 | a body holding one heading yields no document; its section is left open |
| Segmenter.ThreeSectionsExample | src/index.js:90-122 | paragraph, heading `Intro`, paragraph, heading `Details`, list: `orphan` and `Intro` are returned, and `Details` is left open |
| Segmenter.SegmentAll | src/index.js:77-123 | with the open section pushed after the loop, the result is every section, and it holds every child once and in order |
| Writer.SpaceRun | src/index.js:147 | the run of white space starting at a position ends at the first character that is not white space, or at the end |
| Writer.SpaceRunBack | src/index.js:147 | the run of white space ending at a position starts just after the last character that is not white space, or at the lower bound |
| Writer.Trim | src/index.js:147 | a trimmed name is empty or neither starts nor ends with white space |
| Writer.TrimSlice | src/index.js:147 | `trim` keeps one stretch of the name, with only white space before and after it |
| Writer.TrimIdempotent | src/index.js:147 | trimming a trimmed name changes nothing |
| Writer.FileNameInjective | src/index.js:147 | two documents get the same path if and only if their trimmed names are equal |
| Writer.FileNameParent | src/index.js:147 | the folder string of a document's path, everything before its last `/`, is the destination string if and only if the trimmed name contains no `/` |
| Writer.BadNameFails | src/index.js:146-147 | a document whose trimmed name has no `/` cannot be written, whatever the folders, when that name with `.html` takes more than 255 bytes of UTF-8 or holds a NUL character |
| Writer.LongHeadingFails | src/index.js:146-147 | a heading of 300 letters gives a path that cannot be written |
| Writer.ApplyLastWins | src/index.js:146-158 | after a run of writes, a path holds the data of the last write to it |
| Writer.ApplyKeys | src/index.js:146-158 | after a run of writes, a path exists if and only if it existed before or was written to |
| Writer.ApplyUntouched | src/index.js:146-158 | a file that no write targets keeps its contents |
| Writer.WrittenLastWins | src/index.js:141-158 | a document's file holds that document's page unless a later document has the same trimmed name |
| Writer.FirstFailure | src/index.js:141-158 | every write before the position is possible, and the write at the position is not |
| Writer.FileSystem.WriteFileSync | src/index.js:146-158 | the write succeeds if and only if the path is a valid name, its folder exists and the path is not a folder; on success it creates or replaces the file, on failure nothing changes |
| Writer.FileSystem.MkdirSync | src/index.js:138 | succeeds if and only if the path is a valid name, its folder exists and nothing exists at the path; on success it adds the folder, on failure nothing changes; the files are never touched; no path becomes both a folder and a file |
| Writer.FileSystem.WriteAll | src/index.js:141-159 | makes the writes in order up to the first that fails; the files become the old files with those writes applied, and the failing position is reported |
| Writer.FileSystem.WriteFiles | src/index.js:134-160 | creates the destination folder only when nothing exists at that path; if that fails, nothing changes; otherwise writes each document's page to its path in order, stopping at the first write that fails, and reports which step failed |
| Writer.FileSystem.GenerateHtmlFiles | src/index.js:61-65 | writes exactly the documents the segmenter returns, every section but the last, with the same outcomes as WriteFiles |

## Left out

- `main`, the `minimist` argument parsing and the `inquirer` prompts: these are user I/O.
- The `mammoth` conversion and the `async`/`await` plumbing of `generateHTMLFiles`: a foreign library. The model starts from the parsed body's children.
- Only the element children of `<body>` are segmented, because the loop runs over `body.children`. Text and comment nodes directly under `<body>` (the `x` and `y` of `x<h1>A</h1>y`) stay in `<body>`; they are neither grouped nor written, and the model does not represent them.
- JSDOM parsing. The body's element children are given as a sequence of `Node(tag, text)`, with `nodeName` and `textContent` as fields. `[...children]` is a snapshot, so the order of iteration does not depend on the moves.
- Fragment and `htmlDoc` objects are values (`Section`). Once pushed, the source never changes one, so no aliasing is lost.
- `innerHTML` and `pretty` are parameters of `Render`: the serialisation of the child at each position, subtree included, and the formatter. The page template itself is modelled as text.
- `el.appendChild(htmlDoc.fragment)` empties every fragment as it is written. The model does not track fragments after writing.
- Dom.Lower: lower-cases ASCII letters only. No other character lower-cases to `h` or to a digit, so the heading test is unaffected.
- Writer.IsJsSpace: the white space of `trim` is the ECMAScript set, with the space separators of Unicode 15. JavaScript strings are UTF-16 code units, while Dafny characters are scalar values, so lone surrogates are not represented. Every white-space character is a single code unit either way.
- Writer.CanWrite and Writer.CanMkdir: paths are compared as strings, and the folder of a path is the string before its last `/`. Normalisation (`//`, `.`, `..`) is not modelled, so `dest/./a.html` and `dest/a.html` are different paths, and a trimmed name such as `./Intro` counts as naming a sub-folder.
- Writer.Parent: the folder of a path with no `/` and the folder of a path whose only `/` comes first (`/out`) are both the string `""`, so the working folder and the root folder are one entry of the model.
- Writer.NameOk: a valid name has no NUL character, at most 255 bytes of UTF-8 in its last component and fewer than 4096 bytes in all, the usual Linux limits. The limits of other systems, and the length of the components before the last, are not modelled; those folders either exist in the model or do not. Permissions and a full disk are not modelled.
- Writer.FileSystem.WriteFiles: takes both arguments explicitly. The defaults (`[]` and `./output`) are never used by the caller.
- The exception thrown by a failed `mkdirSync` or write becomes the `Outcome` result. It propagates as an unhandled rejection out of the un-awaited `generateHTMLFiles`, and that propagation is not modelled.
- A heading whose text is `orphan` gets the same name as the orphan section. The orphan properties are therefore stated by how a section was opened, not by its name.

## Findings

| source | as written | input that shows it | evidently intended | confidence | as-written member | corrected member |
|---|---|---|---|---|---|---|
| src/index.js:120-122 | the loop pushes a section only when the next heading arrives, and `return htmlDocs` follows the loop with no push of the open `htmlDoc`, so the last section is never returned or written | a body holding only `<h1>Only</h1>` yields no document | the open section is pushed after the loop, so every section becomes a file: the comments at src/index.js:83 and :86 say `htmlDocs` stores the documents to be saved and call each fragment equivalent to a file | not executed; high | Segmenter.SingleHeadingDropped | Segmenter.SegmentAll |
