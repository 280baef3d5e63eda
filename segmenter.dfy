/** The heading-based segmenter of src/index.js (processConvertedDocument).
    It walks the element children of <body> in order and moves each one into a
    document fragment ("section"): a heading opens a new section named after
    its text, any other child joins the open section, and a first child that
    is not a heading opens a section named "orphan". */
module Segmenter {
  import opened Dom

  /** An htmlDoc of the source: a name and the fragment's children, given as
      positions among the body's element children. */
  datatype Section = Section(name: string, content: seq<nat>)

  const Orphan: string := "orphan"

  /** Child i opens a section: it is the first child or a heading. */
  predicate IsOpener(c: seq<Node>, i: nat)
    requires i < |c|
  {
    i == 0 || IsHeading(c[i])
  }

  /** The name of the section that child i opens. */
  function NameAt(c: seq<Node>, i: nat): string
    requires i < |c|
  {
    if IsHeading(c[i]) then Title(c[i]) else Orphan
  }

  /** The last child, among the first n, that opens a section; no heading
      comes after it. */
  function LastOpener(c: seq<Node>, n: nat): (p: nat)
    requires 0 < n <= |c|
    ensures p < n && IsOpener(c, p)
    ensures forall j :: p < j < n ==> !IsHeading(c[j])
  {
    if IsOpener(c, n - 1) then n - 1 else LastOpener(c, n - 1)
  }

  /** The reference segmentation of the first n children: the last section
      runs from the last opener up to child n, and the children before that
      opener are segmented in the same way. */
  function Reference(c: seq<Node>, n: nat): (r: seq<Section>)
    requires n <= |c|
    ensures forall k :: 0 <= k < |r| ==> 0 < |r[k].content| <= n && r[k].content[0] < n
    decreases n
  {
    if n == 0 then []
    else
      var p := LastOpener(c, n);
      Reference(c, p) + [Section(NameAt(c, p), Range(p, n))]
  }

  /** Every section of the whole document, the last one included. */
  function Sections(c: seq<Node>): seq<Section>
  {
    Reference(c, |c|)
  }

  /** What processConvertedDocument returns: every section but the last. */
  function Emitted(c: seq<Node>): seq<Section>
  {
    var s := Sections(c);
    if s == [] then [] else s[..|s| - 1]
  }

  /** The htmlDoc still open when the loop ends. */
  function Pending(c: seq<Node>): Option<Section>
  {
    var s := Sections(c);
    if s == [] then None else Some(s[|s| - 1])
  }

  /** All the children the sections hold, section after section. */
  function Flatten(s: seq<Section>): seq<nat>
  {
    if s == [] then [] else Flatten(s[..|s| - 1]) + s[|s| - 1].content
  }

  function HeadingCount(c: seq<Node>, n: nat): nat
    requires n <= |c|
  {
    if n == 0 then 0 else HeadingCount(c, n - 1) + (if IsHeading(c[n - 1]) then 1 else 0)
  }

  lemma FlattenSnoc(s: seq<Section>, x: Section)
    ensures Flatten(s + [x]) == Flatten(s) + x.content
  {
    assert (s + [x])[..|s|] == s;
  }

  /** An opener adds a section holding just that child. */
  lemma ReferenceStepOpener(c: seq<Node>, n: nat)
    requires n < |c| && IsOpener(c, n)
    ensures Reference(c, n + 1) == Reference(c, n) + [Section(NameAt(c, n), [n])]
  {
    assert Range(n, n + 1) == [n];
  }

  /** Any other child joins the last section. */
  lemma ReferenceStepJoin(c: seq<Node>, n: nat)
    requires n < |c| && !IsOpener(c, n)
    ensures var r := Reference(c, n);
      |r| > 0 && Reference(c, n + 1) == r[..|r| - 1] + [r[|r| - 1].(content := r[|r| - 1].content + [n])]
  {
    var p := LastOpener(c, n);
    assert LastOpener(c, n + 1) == p;
    var prefix := Reference(c, p);
    assert Reference(c, n) == prefix + [Section(NameAt(c, p), Range(p, n))];
    RangeSnoc(p, n);
  }

  /** Every child a section holds among the first n children is below n. */
  lemma {:induction false} ReferenceBelow(c: seq<Node>, n: nat, k: nat)
    requires n <= |c| && k < |Reference(c, n)|
    ensures forall x :: x in Reference(c, n)[k].content ==> x < n
  {
    var p := LastOpener(c, n);
    if k < |Reference(c, p)| {
      ReferenceBelow(c, p, k);
    }
  }

  /** The sections, read in order, hold every child exactly once and in
      document order. */
  lemma {:induction false} ReferenceLossless(c: seq<Node>, n: nat)
    requires n <= |c|
    ensures Flatten(Reference(c, n)) == Range(0, n)
  {
    if n > 0 {
      var p := LastOpener(c, n);
      var last := Section(NameAt(c, p), Range(p, n));
      calc {
        Flatten(Reference(c, n));
        Flatten(Reference(c, p) + [last]);
        { FlattenSnoc(Reference(c, p), last); }
        Flatten(Reference(c, p)) + Range(p, n);
        { ReferenceLossless(c, p); }
        Range(0, p) + Range(p, n);
        { RangeConcat(0, p, n); }
        Range(0, n);
      }
    }
  }

  lemma SectionsLossless(c: seq<Node>)
    ensures Flatten(Sections(c)) == Range(0, |c|)
    ensures Nodes(c, Flatten(Sections(c))) == c
  {
    ReferenceLossless(c, |c|);
  }

  /** The shape of every section, for the first n children. */
  lemma {:induction false} ReferenceShape(c: seq<Node>, n: nat, k: nat)
    requires n <= |c| && k < |Reference(c, n)|
    ensures var s := Reference(c, n)[k];
      && |s.content| > 0
      && (forall j :: 0 <= j < |s.content| ==> s.content[j] < n)
      && s.name == NameAt(c, s.content[0])
      && IsOpener(c, s.content[0])
      && (k > 0 ==> s.content[0] > 0)
      && (forall j :: 0 < j < |s.content| ==> !IsHeading(c[s.content[j]]))
  {
    var p := LastOpener(c, n);
    var r := Reference(c, p);
    if k < |r| {
      ReferenceShape(c, p, k);
    } else {
      assert Reference(c, n)[k].content == Range(p, n);
      if p == 0 {
        assert k == 0;
      }
    }
  }

  /** Every section is non-empty and starts with the child
      that opened it; it is named after that child's text when the child is a
      heading, and "orphan" otherwise; only the first section can be opened
      by a child that is not a heading; no child after the first is a heading,
      so a heading never ends up in the section before its own. */
  lemma SectionShape(c: seq<Node>, k: nat)
    requires k < |Sections(c)|
    ensures var s := Sections(c)[k];
      && |s.content| > 0
      && (forall j :: 0 <= j < |s.content| ==> s.content[j] < |c|)
      && s.name == (if IsHeading(c[s.content[0]]) then Title(c[s.content[0]]) else Orphan)
      && (k > 0 ==> IsHeading(c[s.content[0]]))
      && (!IsHeading(c[s.content[0]]) ==> s.content[0] == 0)
      && (forall j :: 0 < j < |s.content| ==> !IsHeading(c[s.content[j]]))
  {
    ReferenceShape(c, |c|, k);
  }

  lemma {:induction false} ReferenceHeading(c: seq<Node>, n: nat, i: nat)
    requires i < n <= |c| && IsHeading(c[i])
    ensures exists k :: 0 <= k < |Reference(c, n)| && Reference(c, n)[k].content[0] == i && Reference(c, n)[k].name == Title(c[i])
  {
    var p := LastOpener(c, n);
    var r := Reference(c, n);
    if i < p {
      ReferenceHeading(c, p, i);
      var k :| 0 <= k < |Reference(c, p)| &&
        Reference(c, p)[k].content[0] == i && Reference(c, p)[k].name == Title(c[i]);
      assert r[k] == Reference(c, p)[k];
    } else {
      assert i == p;
      assert r[|r| - 1].content == Range(p, n);
    }
  }

  /** A heading is always the first child of the section it opens, and that
      section carries the heading's text as its name. */
  lemma HeadingOpensSection(c: seq<Node>, i: nat)
    requires i < |c| && IsHeading(c[i])
    ensures exists k :: 0 <= k < |Sections(c)| && Sections(c)[k].content[0] == i && Sections(c)[k].name == Title(c[i])
  {
    ReferenceHeading(c, |c|, i);
    var k :| 0 <= k < |Reference(c, |c|)| && Reference(c, |c|)[k].content[0] == i && Reference(c, |c|)[k].name == Title(c[i]);
    assert Sections(c)[k] == Reference(c, |c|)[k];
  }

  /** The first section holds the children from the first one up to the
      next opener. */
  lemma {:induction false} FirstSection(c: seq<Node>, n: nat)
    requires 0 < n <= |c|
    ensures var s := Reference(c, n)[0];
      var m := |s.content|;
      && 0 < m <= n
      && s.content == Range(0, m)
      && (forall j :: 0 < j < m ==> !IsHeading(c[j]))
      && (m < n ==> IsOpener(c, m))
  {
    var p := LastOpener(c, n);
    if p == 0 {
      assert Reference(c, n)[0].content == Range(0, n);
    } else {
      FirstSection(c, p);
      assert Reference(c, n)[0] == Reference(c, p)[0];
    }
  }

  /** A section opened by a child that is not a heading
      exists iff the first child is not a heading; it is then the first
      section, is named "orphan", and holds exactly the children before the
      first heading. */
  lemma OrphanSection(c: seq<Node>)
    requires |c| > 0
    ensures (exists k :: 0 <= k < |Sections(c)| && !IsHeading(c[Sections(c)[k].content[0]]))
      <==> !IsHeading(c[0])
    ensures !IsHeading(c[0]) ==>
      var s := Sections(c)[0];
      var m := |s.content|;
      && s.name == Orphan
      && s.content == Range(0, m)
      && (forall j :: 0 <= j < m ==> !IsHeading(c[j]))
      && (m < |c| ==> IsHeading(c[m]))
  {
    var S := Sections(c);
    FirstSection(c, |c|);
    SectionShape(c, 0);
    if IsHeading(c[0]) {
      forall k | 0 <= k < |S| ensures IsHeading(c[S[k].content[0]]) {
        SectionShape(c, k);
      }
    }
  }

  lemma {:induction false} ReferenceCount(c: seq<Node>, n: nat)
    requires n <= |c|
    ensures |Reference(c, n)| == HeadingCount(c, n) + (if n > 0 && !IsHeading(c[0]) then 1 else 0)
  {
    if n > 0 {
      ReferenceCount(c, n - 1);
      if IsOpener(c, n - 1) {
        ReferenceStepOpener(c, n - 1);
      } else {
        ReferenceStepJoin(c, n - 1);
      }
    }
  }

  /** processConvertedDocument returns one document per
      heading when the first child is not a heading, one fewer when it is,
      and none for an empty body. */
  lemma EmittedCount(c: seq<Node>)
    ensures |Emitted(c)| ==
      if |c| == 0 then 0
      else if IsHeading(c[0]) then HeadingCount(c, |c|) - 1
      else HeadingCount(c, |c|)
  {
    ReferenceCount(c, |c|);
  }

  lemma {:induction false} ReferenceOrder(c: seq<Node>, n: nat, k: nat, l: nat)
    requires n <= |c| && k < l < |Reference(c, n)|
    ensures var s := Reference(c, n)[k];
      var t := Reference(c, n)[l];
      |s.content| > 0 && |t.content| > 0 && s.content[|s.content| - 1] < t.content[0]
  {
    var p := LastOpener(c, n);
    var r := Reference(c, p);
    ReferenceShape(c, n, k);
    ReferenceShape(c, n, l);
    if l < |r| {
      ReferenceOrder(c, p, k, l);
    } else {
      assert Reference(c, n)[l].content == Range(p, n);
      ReferenceBelow(c, p, k);
      assert Reference(c, n)[k] == r[k];
      assert r[k].content[|r[k].content| - 1] in r[k].content;
    }
  }

  /** Sections come in the order of the children that opened
      them, and every child of a section comes before the next section's. */
  lemma SectionOrder(c: seq<Node>, k: nat, l: nat)
    requires k < l < |Sections(c)|
    ensures var s := Sections(c)[k];
      var t := Sections(c)[l];
      |s.content| > 0 && |t.content| > 0 && s.content[|s.content| - 1] < t.content[0]
  {
    ReferenceOrder(c, |c|, k, l);
  }

  /** The returned documents are the sections
      without the last one, which is still open when the loop ends; so the
      last child of a non-empty body is in no returned document. */
  lemma LastSectionNotEmitted(c: seq<Node>)
    requires |c| > 0
    ensures Pending(c).Some?
    ensures Emitted(c) + [Pending(c).value] == Sections(c)
    ensures |c| - 1 in Pending(c).value.content
    ensures forall k :: 0 <= k < |Emitted(c)| ==> |c| - 1 !in Emitted(c)[k].content
  {
    var n := |c|;
    var p := LastOpener(c, n);
    assert Emitted(c) == Reference(c, p);
    assert Pending(c).value.content == Range(p, n);
    InRange(p, n, n - 1);
    forall k | 0 <= k < |Emitted(c)| ensures n - 1 !in Emitted(c)[k].content {
      ReferenceBelow(c, p, k);
    }
  }

  /** In the loop's final state, the returned documents'
      children followed by those of the still-open htmlDoc are the body's
      children, each once and in order. */
  lemma OutputLossless(c: seq<Node>)
    ensures var rest := if Pending(c).Some? then Pending(c).value.content else [];
      && Flatten(Emitted(c)) + rest == Range(0, |c|)
      && Nodes(c, Flatten(Emitted(c)) + rest) == c
  {
    SectionsLossless(c);
    if |c| > 0 {
      LastSectionNotEmitted(c);
      FlattenSnoc(Emitted(c), Pending(c).value);
    }
  }

  /** A body holding one heading: the loop ends with that heading's section
      open, and nothing is returned. */
  lemma SingleHeadingDropped()
    ensures var c := [Node("H1", Some("Only"))];
      Emitted(c) == [] && Pending(c) == Some(Section("Only", [0]))
  {
    var c := [Node("H1", Some("Only"))];
    assert IsOpener(c, 0);
    assert Range(0, 1) == [0];
    assert Reference(c, 1) == [Section("Only", [0])];
  }

  /** A paragraph, a heading "Intro", a paragraph, a heading "Details" and a
      list: the orphan and Intro sections are returned, and the Details
      section is the one left open. */
  lemma ThreeSectionsExample()
    ensures var c := [Node("P", None), Node("H1", Some("Intro")), Node("P", None), Node("H2", Some("Details")), Node("UL", None)];
      && Emitted(c) == [Section(Orphan, [0]), Section("Intro", [1, 2])]
      && Pending(c) == Some(Section("Details", [3, 4]))
  {
    var c := [Node("P", None), Node("H1", Some("Intro")), Node("P", None), Node("H2", Some("Details")), Node("UL", None)];
    assert LastOpener(c, 5) == 3 && LastOpener(c, 3) == 1 && LastOpener(c, 1) == 0;
    assert Range(3, 5) == [3, 4] && Range(1, 3) == [1, 2] && Range(0, 1) == [0];
    assert Reference(c, 1) == [Section(Orphan, [0])];
    assert Reference(c, 3) == [Section(Orphan, [0]), Section("Intro", [1, 2])];
  }

  /** A first child that is not a heading opens the orphan section. */
  lemma OrphanOpens(c: seq<Node>)
    requires |c| > 0 && !IsHeading(c[0])
    ensures Reference(c, 1) == [Section(Orphan, [0])]
  {
    ReferenceStepOpener(c, 0);
  }

  /** The loop's invariant survives a heading: the open section, if any, is
      pushed and the heading opens the next one. */
  lemma HeadingStep(c: seq<Node>, i: nat, docs: seq<Section>, pending: Option<Section>)
    requires i < |c| && IsHeading(c[i])
    requires i == 0 ==> docs == [] && pending.None?
    requires i > 0 ==> pending.Some? && docs + [pending.value] == Reference(c, i)
    ensures (if pending.Some? then docs + [pending.value] else docs) + [Section(Title(c[i]), [i])]
      == Reference(c, i + 1)
  {
    ReferenceStepOpener(c, i);
  }

  /** The loop's invariant survives any other child after the first: it
      was in no section yet and joins the open one. */
  lemma JoinStep(c: seq<Node>, i: nat, docs: seq<Section>, p: Section)
    requires 0 < i < |c| && !IsHeading(c[i])
    requires docs + [p] == Reference(c, i)
    ensures i !in p.content
    ensures docs + [p.(content := p.content + [i])] == Reference(c, i + 1)
  {
    var r := Reference(c, i);
    assert r[|docs|] == p && r[..|docs|] == docs;
    ReferenceBelow(c, i, |docs|);
    ReferenceStepJoin(c, i);
  }

  /** processConvertedDocument. Returns the emitted documents, the htmlDoc
      still open when the loop ends, and the element children left in
      <body>: none. */
  method ProcessConvertedDocument(children: seq<Node>)
    returns (docs: seq<Section>, pending: Option<Section>, body: seq<nat>)
    ensures docs == Emitted(children)
    ensures pending == Pending(children)
    ensures body == []
  {
    var n := |children|;
    docs := [];
    pending := None;
    body := Range(0, n);
    var i := 0;
    while i < n
      invariant 0 <= i <= n
      invariant i == 0 ==> docs == [] && pending.None?
      invariant i > 0 ==> pending.Some? && docs + [pending.value] == Reference(children, i)
      invariant body == Range(i, n)
    {
      var element := children[i];
      RemoveRangeHead(i, n);

      if i == 0 && !IsHeading(element) {
        OrphanOpens(children);
        body := Remove(body, i);
        pending := Some(Section(Orphan, AppendChild([], i)));
      }

      if IsHeading(element) {
        HeadingStep(children, i, docs, pending);
        if pending.Some? {
          docs := docs + [pending.value];
        }
        body := Remove(body, i);
        pending := Some(Section(Title(element), AppendChild([], i)));
      } else {
        // htmlDoc is never null here: child 0 opened the orphan section.
        assert pending.Some?;
        if i == 0 {
          AppendChildAgain(pending.value.content, i);
        } else {
          JoinStep(children, i, docs, pending.value);
        }
        body := Remove(body, i);
        pending := Some(pending.value.(content := AppendChild(pending.value.content, i)));
      }
      i := i + 1;
    }
    if n > 0 {
      assert docs == Reference(children, n)[..|docs|];
    }
  }

  /** processConvertedDocument with the final flush that the loop lacks:
      the open htmlDoc is pushed after the loop. */
  method SegmentAll(children: seq<Node>) returns (docs: seq<Section>)
    ensures docs == Sections(children)
    ensures Flatten(docs) == Range(0, |children|)
  {
    var emitted, pending, _ := ProcessConvertedDocument(children);
    docs := emitted;
    if pending.Some? {
      docs := docs + [pending.value];
    }
    SectionsLossless(children);
  }
}
