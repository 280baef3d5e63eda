/** The file writer of src/index.js (writeFiles and generateHTMLFiles): each
    document becomes the file `<dest>/<name, trimmed>.html`, holding the
    document's nodes inside a fixed HTML page. The file system is a set of
    directories and a map from paths to file contents. */
module Writer {
  import opened Dom
  import opened Segmenter

  /** The characters String.prototype.trim removes: the WhiteSpace and
      LineTerminator code points of ECMAScript (section 12.2 and 12.3 of
      ECMA-262), with the space separators of Unicode 15. */
  predicate IsJsSpace(ch: char)
  {
    var u := ch as int;
    u == 0x09 || u == 0x0A || u == 0x0B || u == 0x0C || u == 0x0D || u == 0x20
    || u == 0xA0 || u == 0x1680 || (0x2000 <= u <= 0x200A) || u == 0x2028
    || u == 0x2029 || u == 0x202F || u == 0x205F || u == 0x3000 || u == 0xFEFF
  }

  /** The end of the run of white space that starts at i. */
  function SpaceRun(s: string, i: nat): (j: nat)
    requires i <= |s|
    ensures i <= j <= |s|
    ensures forall k :: i <= k < j ==> IsJsSpace(s[k])
    ensures j < |s| ==> !IsJsSpace(s[j])
    decreases |s| - i
  {
    if i < |s| && IsJsSpace(s[i]) then SpaceRun(s, i + 1) else i
  }

  /** The start of the run of white space that ends at j, looking no
      further back than lo. */
  function SpaceRunBack(s: string, lo: nat, j: nat): (e: nat)
    requires lo <= j <= |s|
    ensures lo <= e <= j
    ensures forall k :: e <= k < j ==> IsJsSpace(s[k])
    ensures e > lo ==> !IsJsSpace(s[e - 1])
    decreases j - lo
  {
    if j > lo && IsJsSpace(s[j - 1]) then SpaceRunBack(s, lo, j - 1) else j
  }

  /** name.trim(): what is left once the white space at both ends is
      dropped. */
  function Trim(s: string): (r: string)
    ensures |r| <= |s|
    ensures r == [] || (!IsJsSpace(r[0]) && !IsJsSpace(r[|r| - 1]))
  {
    var i := SpaceRun(s, 0);
    var e := SpaceRunBack(s, i, |s|);
    s[i..e]
  }

  /** What trim keeps is one stretch of s, with nothing but white space
      before it and after it. */
  lemma TrimSlice(s: string)
    ensures var r := Trim(s);
      var i := SpaceRun(s, 0);
      && i + |r| <= |s|
      && r == s[i..i + |r|]
      && (forall k :: 0 <= k < i ==> IsJsSpace(s[k]))
      && (forall k :: i + |r| <= k < |s| ==> IsJsSpace(s[k]))
  {
    var i := SpaceRun(s, 0);
    var e := SpaceRunBack(s, i, |s|);
    assert |Trim(s)| == e - i;
  }

  /** Trimming twice is trimming once. */
  lemma TrimIdempotent(s: string)
    ensures Trim(Trim(s)) == Trim(s)
  {
    var r := Trim(s);
    if r != [] {
      assert SpaceRun(r, 0) == 0;
      assert SpaceRunBack(r, 0, |r|) == |r|;
      assert r[0..|r|] == r;
    }
  }

  /** `${destFolderPath}/${htmlDoc.name.trim()}.html` */
  function FileName(dest: string, name: string): string
  {
    dest + "/" + Trim(name) + ".html"
  }

  /** The directory a path names its file in: everything before the last
      "/", or "" when there is none. */
  function Parent(p: string): (r: string)
    ensures |r| <= |p| && r == p[..|r|]
    ensures r == "" || (|r| < |p| && p[|r|] == '/')
    ensures forall k :: |r| < k < |p| ==> p[k] != '/'
  {
    if p == [] then ""
    else if p[|p| - 1] == '/' then p[..|p| - 1]
    else Parent(p[..|p| - 1])
  }

  /** A document's file lands in the destination folder itself exactly when
      its trimmed name has no "/"; otherwise it names a sub-folder. */
  lemma FileNameParent(dest: string, name: string)
    ensures Parent(FileName(dest, name)) == dest <==> '/' !in Trim(name)
  {
    var tail := Trim(name) + ".html";
    assert FileName(dest, name) == dest + "/" + tail;
    assert '/' in tail <==> '/' in Trim(name);
    ParentOfJoin(dest, tail);
  }

  /** The folder of `dest/tail` is `dest` exactly when tail has no "/". */
  lemma ParentOfJoin(dest: string, tail: string)
    ensures Parent(dest + "/" + tail) == dest <==> '/' !in tail
  {
    var p := dest + "/" + tail;
    var n := |dest|;
    if '/' !in tail {
      forall k | n < k < |p| ensures p[k] != '/' {
        assert p[k] == tail[k - n - 1];
      }
      ParentAt(p, n);
      assert p[..n] == dest;
    } else {
      var j :| 0 <= j < |tail| && tail[j] == '/';
      assert p[n + 1 + j] == '/';
      assert |Parent(p)| >= n + 1 + j;
    }
  }

  /** When position m holds the last "/" of p, the parent is what comes
      before it. */
  lemma {:induction false} ParentAt(p: string, m: nat)
    requires m < |p| && p[m] == '/'
    requires forall k :: m < k < |p| ==> p[k] != '/'
    ensures Parent(p) == p[..m]
  {
    if m < |p| - 1 {
      var q := p[..|p| - 1];
      assert forall k :: m < k < |q| ==> q[k] == p[k];
      ParentAt(q, m);
      assert q[..m] == p[..m];
    }
  }

  /** How the nodes of a document become a page: `serialize` gives the
      outerHTML of the child at a position, its whole subtree included, and
      `pretty` is the formatter the page goes through. */
  datatype Render = Render(children: seq<Node>, serialize: nat -> string, pretty: string -> string)

  /** Every position a document holds names one of the children. */
  predicate Refers(children: seq<Node>, docs: seq<Section>)
  {
    forall k, j :: 0 <= k < |docs| && 0 <= j < |docs[k].content| ==> docs[k].content[j] < |children|
  }

  /** el.innerHTML once the fragment's nodes are moved into the wrapper div:
      the nodes' serialisations, in order. */
  function InnerHtml(r: Render, content: seq<nat>): string
    requires forall j :: 0 <= j < |content| ==> content[j] < |r.children|
  {
    if content == [] then ""
    else InnerHtml(r, content[..|content| - 1]) + r.serialize(content[|content| - 1])
  }

  /** The page template, as written around el.innerHTML. */
  const PageHead: string :=
    "<DOCTYPE html>\n         <html>\n           <head>\n"
    + "            <style>h1,h2,h3,h4,h5,h6 {font-size: 1rem; font-weight: bold}</style>\n"
    + "           </head>\n           <body>"
  const PageTail: string := "</body>\n         </html>\n        "

  /** The text written for a document. */
  function Page(r: Render, content: seq<nat>): string
    requires forall j :: 0 <= j < |content| ==> content[j] < |r.children|
  {
    r.pretty(PageHead + InnerHtml(r, content) + PageTail)
  }

  /** One fs.writeFileSync call: the path and the text written to it. */
  datatype FileWrite = FileWrite(path: string, data: string)

  /** The writes writeFiles makes: the k-th puts the k-th document's page
      in the file its name gives. */
  function Writes(dest: string, docs: seq<Section>, r: Render): (ws: seq<FileWrite>)
    requires Refers(r.children, docs)
    ensures |ws| == |docs|
  {
    seq(|docs|, k requires 0 <= k < |docs| => FileWrite(FileName(dest, docs[k].name), Page(r, docs[k].content)))
  }

  /** The files once the writes have been made one after another. */
  function Apply(files: map<string, string>, ws: seq<FileWrite>): map<string, string>
  {
    if ws == [] then files
    else Apply(files, ws[..|ws| - 1])[ws[|ws| - 1].path := ws[|ws| - 1].data]
  }

  /** A path holds the text of the last write to it. */
  lemma {:induction false} ApplyLastWins(files: map<string, string>, ws: seq<FileWrite>, k: nat)
    requires k < |ws|
    requires forall j :: k < j < |ws| ==> ws[j].path != ws[k].path
    ensures ws[k].path in Apply(files, ws) && Apply(files, ws)[ws[k].path] == ws[k].data
  {
    var m := |ws| - 1;
    if k < m {
      var p := ws[..m];
      assert p[k] == ws[k];
      assert forall j :: k < j < |p| ==> p[j] == ws[j];
      ApplyLastWins(files, p, k);
    }
  }

  /** The paths that exist afterwards are the old ones and those written
      to, and no other. */
  lemma {:induction false} ApplyKeys(files: map<string, string>, ws: seq<FileWrite>, path: string)
    ensures path in Apply(files, ws) <==> path in files || exists k :: 0 <= k < |ws| && ws[k].path == path
  {
    if ws != [] {
      var m := |ws| - 1;
      var p := ws[..m];
      ApplyKeys(files, p, path);
      if exists k :: 0 <= k < |p| && p[k].path == path {
        var k :| 0 <= k < |p| && p[k].path == path;
        assert ws[k] == p[k];
      }
      if exists k :: 0 <= k < |ws| && ws[k].path == path {
        var k :| 0 <= k < |ws| && ws[k].path == path;
        if k < m {
          assert p[k] == ws[k];
        }
      }
    }
  }

  /** A file that is not written to keeps its contents. */
  lemma {:induction false} ApplyUntouched(files: map<string, string>, ws: seq<FileWrite>, path: string)
    requires path in files
    requires forall k :: 0 <= k < |ws| ==> ws[k].path != path
    ensures path in Apply(files, ws) && Apply(files, ws)[path] == files[path]
  {
    if ws != [] {
      var m := |ws| - 1;
      var p := ws[..m];
      assert forall k :: 0 <= k < |p| ==> p[k] == ws[k];
      ApplyUntouched(files, p, path);
    }
  }

  /** A document's file holds that document's page unless a later document
      has the same trimmed name. */
  lemma WrittenLastWins(files: map<string, string>, dest: string, docs: seq<Section>, r: Render, k: nat)
    requires Refers(r.children, docs) && k < |docs|
    requires forall j :: k < j < |docs| ==> Trim(docs[j].name) != Trim(docs[k].name)
    ensures var f := Apply(files, Writes(dest, docs, r));
      FileName(dest, docs[k].name) in f && f[FileName(dest, docs[k].name)] == Page(r, docs[k].content)
  {
    var ws := Writes(dest, docs, r);
    forall j | k < j < |ws| ensures ws[j].path != ws[k].path {
      FileNameInjective(dest, docs[j].name, docs[k].name);
    }
    ApplyLastWins(files, ws, k);
  }

  /** Two documents share a file exactly when their trimmed names agree. */
  lemma FileNameInjective(dest: string, a: string, b: string)
    ensures FileName(dest, a) == FileName(dest, b) <==> Trim(a) == Trim(b)
  {
    if FileName(dest, a) == FileName(dest, b) {
      var x := FileName(dest, a);
      var n := |dest| + 1;
      assert |Trim(a)| == |Trim(b)|;
      assert Trim(a) == x[n..n + |Trim(a)|];
      assert Trim(b) == FileName(dest, b)[n..n + |Trim(b)|];
    }
  }

  /** The number of bytes a character takes in UTF-8, the encoding a path
      is handed to the file system in. */
  function CharBytes(ch: char): (b: nat)
    ensures 1 <= b <= 4
  {
    var u := ch as int;
    if u < 0x80 then 1 else if u < 0x800 then 2 else if u < 0x10000 then 3 else 4
  }

  /** The UTF-8 length of a string. */
  function Utf8Length(s: string): (b: nat)
    ensures |s| <= b <= 4 * |s|
  {
    if s == [] then 0 else Utf8Length(s[..|s| - 1]) + CharBytes(s[|s| - 1])
  }

  lemma {:induction false} Utf8Append(a: string, b: string)
    ensures Utf8Length(a + b) == Utf8Length(a) + Utf8Length(b)
    decreases |b|
  {
    if b != [] {
      var b' := b[..|b| - 1];
      assert (a + b)[..|a + b| - 1] == a + b';
      assert (a + b)[|a + b| - 1] == b[|b| - 1];
      Utf8Append(a, b');
    } else {
      assert a + b == a;
    }
  }

  /** The UTF-8 length of a path's last component, everything after its
      last "/". */
  function NameBytes(p: string): nat
  {
    if p == [] || p[|p| - 1] == '/' then 0
    else NameBytes(p[..|p| - 1]) + CharBytes(p[|p| - 1])
  }

  /** The last component of `dest/tail` is tail when tail has no "/". */
  lemma {:induction false} NameBytesOfJoin(dest: string, tail: string)
    requires '/' !in tail
    ensures NameBytes(dest + "/" + tail) == Utf8Length(tail)
  {
    if tail != [] {
      var t := tail[..|tail| - 1];
      assert '/' !in t by { assert forall k :: 0 <= k < |t| ==> t[k] == tail[k]; }
      assert (dest + "/" + tail)[..|dest + "/" + tail| - 1] == dest + "/" + t;
      assert tail[|tail| - 1] in tail;
      NameBytesOfJoin(dest, t);
    }
  }

  /** Limits of the file system on a path: no NUL character (Node throws
      ERR_INVALID_ARG_VALUE), at most 255 bytes in the last component and
      fewer than 4096 bytes in all (Linux's NAME_MAX and PATH_MAX;
      ENAMETOOLONG otherwise). */
  predicate NameOk(path: string)
  {
    '\0' !in path && NameBytes(path) <= 255 && Utf8Length(path) < 4096
  }

  /** fs.writeFileSync succeeds when the path is a valid name, its folder
      exists and the path is not itself a folder. */
  predicate CanWrite(dirs: set<string>, path: string)
  {
    NameOk(path) && Parent(path) in dirs && path !in dirs
  }

  /** A heading whose trimmed text, with `.html`, takes more than 255 bytes,
      or that holds a NUL character, makes its write throw, wherever the
      destination is. */
  lemma BadNameFails(dirs: set<string>, dest: string, name: string)
    requires '/' !in Trim(name)
    requires Utf8Length(Trim(name)) > 250 || '\0' in Trim(name)
    ensures !CanWrite(dirs, FileName(dest, name))
  {
    var tail := Trim(name) + ".html";
    assert FileName(dest, name) == dest + "/" + tail;
    NameBytesOfJoin(dest, tail);
    Utf8Append(Trim(name), ".html");
    if '\0' in Trim(name) {
      var j :| 0 <= j < |Trim(name)| && Trim(name)[j] == '\0';
      assert FileName(dest, name)[|dest| + 1 + j] == '\0';
    }
  }

  /** A heading of 300 letters gives no file. */
  lemma LongHeadingFails(dirs: set<string>, dest: string)
    ensures var name := seq(300, _ => 'a');
      !CanWrite(dirs, FileName(dest, name))
  {
    var name := seq(300, _ => 'a');
    assert SpaceRun(name, 0) == 0 by { assert !IsJsSpace(name[0]); }
    assert SpaceRunBack(name, 0, 300) == 300 by { assert !IsJsSpace(name[299]); }
    assert Trim(name) == name by { assert name[0..300] == name; }
    assert '/' !in name by { assert forall k :: 0 <= k < 300 ==> name[k] == 'a'; }
    BadNameFails(dirs, dest, name);
  }

  /** The position of the first write that fails, or the number of writes
      when none does. */
  function FirstFailure(dirs: set<string>, ws: seq<FileWrite>): (w: nat)
    ensures w <= |ws|
    ensures forall k :: 0 <= k < w ==> CanWrite(dirs, ws[k].path)
    ensures w < |ws| ==> !CanWrite(dirs, ws[w].path)
  {
    if ws == [] then 0
    else if !CanWrite(dirs, ws[0].path) then 0
    else 1 + FirstFailure(dirs, ws[1..])
  }

  /** fs.mkdirSync succeeds when the path is a valid name, its folder
      exists and nothing exists at the path itself. */
  predicate CanMkdir(dirs: set<string>, files: map<string, string>, path: string)
  {
    NameOk(path) && Parent(path) in dirs && path !in dirs && path !in files
  }

  /** How a run of writeFiles ends: all documents written, mkdirSync threw,
      or the write of the document at a position threw. */
  datatype Outcome = Done | MkdirFailed | WriteFailed(at: nat)

  /** The file system writeFiles runs against. */
  class FileSystem {
    var dirs: set<string>
    var files: map<string, string>

    /** No path is both a folder and a file. */
    predicate Valid()
      reads this
    {
      dirs !! files.Keys
    }

    constructor(dirs0: set<string>, files0: map<string, string>)
      requires dirs0 !! files0.Keys
      ensures Valid()
      ensures dirs == dirs0 && files == files0
    {
      dirs := dirs0;
      files := files0;
    }

    /** fs.existsSync */
    predicate Exists(path: string)
      reads this
    {
      path in dirs || path in files
    }

    /** fs.mkdirSync: creates the folder, or fails (the source then throws)
        and changes nothing. */
    method MkdirSync(path: string) returns (ok: bool)
      requires Valid()
      modifies this
      ensures Valid()
      ensures ok == CanMkdir(old(dirs), old(files), path)
      ensures dirs == if ok then old(dirs) + {path} else old(dirs)
      ensures files == old(files)
    {
      ok := CanMkdir(dirs, files, path);
      if ok {
        dirs := dirs + {path};
      }
    }

    /** fs.writeFileSync: replaces or creates the file, or fails (the source
        then throws) and changes nothing. */
    method WriteFileSync(path: string, data: string) returns (ok: bool)
      requires Valid()
      modifies this
      ensures Valid()
      ensures ok == CanWrite(old(dirs), path)
      ensures dirs == old(dirs)
      ensures files == if ok then old(files)[path := data] else old(files)
    {
      ok := CanWrite(dirs, path);
      if ok {
        files := files[path := data];
      }
    }

    /** The htmlDocs.forEach loop of writeFiles: the writes are made in
        order until one throws; `failedAt` is that write's position. */
    method WriteAll(ws: seq<FileWrite>) returns (failedAt: Option<nat>)
      requires Valid()
      modifies this
      ensures Valid()
      ensures dirs == old(dirs)
      ensures var w := FirstFailure(dirs, ws);
        && files == Apply(old(files), ws[..w])
        && failedAt == if w == |ws| then None else Some(w)
    {
      failedAt := None;
      var i := 0;
      while i < |ws|
        invariant 0 <= i <= |ws|
        invariant Valid()
        invariant dirs == old(dirs)
        invariant forall k :: 0 <= k < i ==> CanWrite(dirs, ws[k].path)
        invariant files == Apply(old(files), ws[..i])
      {
        var ok := WriteFileSync(ws[i].path, ws[i].data);
        if !ok {
          failedAt := Some(i);
          return;
        }
        assert ws[..i + 1][..i] == ws[..i];
        i := i + 1;
      }
      assert ws[..i] == ws;
    }

    /** writeFiles. Creates the destination folder when nothing exists at
        that path; if that throws, nothing is written. Otherwise writes the
        documents in order, stopping at the first write that throws. */
    method WriteFiles(docs: seq<Section>, dest: string, r: Render) returns (outcome: Outcome)
      requires Valid() && Refers(r.children, docs)
      modifies this
      ensures Valid()
      ensures !old(Exists(dest)) && !CanMkdir(old(dirs), old(files), dest) ==>
        outcome == MkdirFailed && dirs == old(dirs) && files == old(files)
      ensures old(Exists(dest)) || CanMkdir(old(dirs), old(files), dest) ==>
        && dirs == (if old(Exists(dest)) then old(dirs) else old(dirs) + {dest})
        && var ws := Writes(dest, docs, r);
           var w := FirstFailure(dirs, ws);
           && files == Apply(old(files), ws[..w])
           && outcome == if w == |ws| then Done else WriteFailed(w)
    {
      if !Exists(dest) {
        var made := MkdirSync(dest);
        if !made {
          return MkdirFailed;
        }
      }
      var failedAt := WriteAll(Writes(dest, docs, r));
      outcome := if failedAt.None? then Done else WriteFailed(failedAt.value);
    }

    /** generateHTMLFiles, from the converted document's top-level element
        nodes on: the documents the segmenter returns are written to
        `dest`. */
    method GenerateHtmlFiles(children: seq<Node>, dest: string, serialize: nat -> string, pretty: string -> string)
      returns (outcome: Outcome)
      requires Valid()
      modifies this
      ensures Valid()
      ensures Refers(children, Emitted(children))
      ensures !old(Exists(dest)) && !CanMkdir(old(dirs), old(files), dest) ==>
        outcome == MkdirFailed && dirs == old(dirs) && files == old(files)
      ensures old(Exists(dest)) || CanMkdir(old(dirs), old(files), dest) ==>
        && dirs == (if old(Exists(dest)) then old(dirs) else old(dirs) + {dest})
        && var ws := Writes(dest, Emitted(children), Render(children, serialize, pretty));
           var w := FirstFailure(dirs, ws);
           && files == Apply(old(files), ws[..w])
           && outcome == if w == |ws| then Done else WriteFailed(w)
    {
      var docs, _, _ := ProcessConvertedDocument(children);
      EmittedRefers(children);
      outcome := WriteFiles(docs, dest, Render(children, serialize, pretty));
    }
  }

  /** The documents the segmenter returns only hold positions of children. */
  lemma EmittedRefers(c: seq<Node>)
    ensures Refers(c, Emitted(c))
  {
    var e := Emitted(c);
    forall k, j | 0 <= k < |e| && 0 <= j < |e[k].content| ensures e[k].content[j] < |c| {
      SectionShape(c, k);
    }
  }
}
