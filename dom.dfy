/** The few parts of the DOM that the segmenter relies on: element nodes with a
    tag name and a text content, the heading test, and the "move" semantics of
    appendChild. A node's identity is its position among the body's element
    children, so a parent's children are a sequence of such positions. */
module Dom {

  datatype Option<T> = None | Some(value: T)

  /** An element child of <body>: its nodeName as the parser reports it
      (upper case for HTML elements) and its textContent. */
  datatype Node = Node(tag: string, text: Option<string>)

  /** The tag names that open a new section, whatever their level. */
  const HeadingNames: seq<string> := ["h1", "h2", "h3", "h4", "h5", "h6"]

  function LowerChar(ch: char): char
  {
    if 'A' <= ch <= 'Z' then (ch as int + 32) as char else ch
  }

  /** nodeName.toLowerCase(), for the ASCII letters. */
  function Lower(s: string): string
  {
    seq(|s|, i requires 0 <= i < |s| => LowerChar(s[i]))
  }

  /** The heading test, in the form the solver handles cheaply; HeadingTest
      shows that it is the source's test. */
  predicate IsHeading(n: Node)
  {
    |n.tag| == 2 && (n.tag[0] == 'h' || n.tag[0] == 'H') && '1' <= n.tag[1] <= '6'
  }

  /** The source's test `HEADING_NODE_NAMES.indexOf(nodeName.toLowerCase()) > -1`
      accepts exactly the tags IsHeading accepts. */
  lemma HeadingTest(n: Node)
    ensures Lower(n.tag) in HeadingNames <==> IsHeading(n)
  {
    var t := n.tag;
    if Lower(t) in HeadingNames {
      var k :| 0 <= k < |HeadingNames| && Lower(t) == HeadingNames[k];
      assert |Lower(t)| == 2;
      assert LowerChar(t[0]) == Lower(t)[0] == 'h';
      assert LowerChar(t[1]) == Lower(t)[1];
    }
    if IsHeading(n) {
      assert Lower(t) == ['h', t[1]];
      assert Lower(t) == HeadingNames[t[1] as int - '1' as int];
    }
  }

  /** The section name a heading gives: `textContent || ''`. */
  function Title(n: Node): string
  {
    match n.text
    case Some(t) => t
    case None => ""
  }

  /** The positions lo, lo+1, ..., hi-1. */
  function Range(lo: nat, hi: nat): (r: seq<nat>)
    requires lo <= hi
    ensures |r| == hi - lo
    ensures forall k :: 0 <= k < |r| ==> r[k] == lo + k
    ensures forall x :: x in r ==> lo <= x < hi
  {
    seq(hi - lo, k requires 0 <= k < hi - lo => lo + k)
  }

  lemma InRange(lo: nat, hi: nat, x: nat)
    requires lo <= x < hi
    ensures x in Range(lo, hi)
  {
    assert Range(lo, hi)[x - lo] == x;
  }

  lemma RangeSnoc(lo: nat, hi: nat)
    requires lo <= hi
    ensures Range(lo, hi + 1) == Range(lo, hi) + [hi]
  {
  }

  lemma RangeConcat(lo: nat, mid: nat, hi: nat)
    requires lo <= mid <= hi
    ensures Range(lo, mid) + Range(mid, hi) == Range(lo, hi)
  {
  }

  /** The nodes at the given positions, in that order. */
  function Nodes(c: seq<Node>, idx: seq<nat>): (r: seq<Node>)
    requires forall j :: 0 <= j < |idx| ==> idx[j] < |c|
    ensures |r| == |idx|
    ensures forall j :: 0 <= j < |idx| ==> r[j] == c[idx[j]]
  {
    seq(|idx|, j requires 0 <= j < |idx| => c[idx[j]])
  }

  /** The children of a parent after node x has been taken out of it:
      what the old parent sees when appendChild moves x elsewhere. */
  function Remove(s: seq<nat>, x: nat): (r: seq<nat>)
    ensures x !in r
    ensures forall y :: y != x ==> (y in r <==> y in s)
    ensures x !in s ==> r == s
    ensures |r| <= |s|
  {
    if s == [] then []
    else Remove(s[..|s| - 1], x) + (if s[|s| - 1] == x then [] else [s[|s| - 1]])
  }

  /** Taking out a node that occurs once leaves the other children in their
      order. */
  lemma {:induction false} RemoveMiddle(a: seq<nat>, x: nat, b: seq<nat>)
    requires x !in a + b
    ensures Remove(a + [x] + b, x) == a + b
  {
    var s := a + [x] + b;
    if b == [] {
      assert s[..|s| - 1] == a;
      assert a + b == a;
    } else {
      var b' := b[..|b| - 1];
      var y := b[|b| - 1];
      assert s[..|s| - 1] == a + [x] + b';
      assert x !in a + b' by {
        assert forall z :: z in a + b' ==> z in a + b;
      }
      RemoveMiddle(a, x, b');
      assert a + b == (a + b') + [y];
    }
  }

  /** Taking the first of a run of positions out of it leaves the rest of the run. */
  lemma RemoveRangeHead(lo: nat, hi: nat)
    requires lo < hi
    ensures Remove(Range(lo, hi), lo) == Range(lo + 1, hi)
  {
    var rest := Range(lo + 1, hi);
    assert Range(lo, hi) == [] + [lo] + rest;
    RemoveMiddle([], lo, rest);
  }

  /** parent.appendChild(x): x is taken out of the children of `parent` if it
      is already one of them and then becomes its last child. */
  function AppendChild(s: seq<nat>, x: nat): (r: seq<nat>)
    ensures |r| > 0 && r[|r| - 1] == x && x !in r[..|r| - 1]
    ensures forall y :: y != x ==> (y in r <==> y in s)
    ensures x !in s ==> r == s + [x]
  {
    Remove(s, x) + [x]
  }

  /** Appending a child of the parent moves it to the end and keeps the
      other children in their order. */
  lemma AppendChildMoves(a: seq<nat>, x: nat, b: seq<nat>)
    requires x !in a + b
    ensures AppendChild(a + [x] + b, x) == a + b + [x]
  {
    RemoveMiddle(a, x, b);
  }

  /** Appending again the node that is already the last child changes nothing. */
  lemma AppendChildAgain(s: seq<nat>, x: nat)
    requires |s| > 0 && s[|s| - 1] == x && x !in s[..|s| - 1]
    ensures AppendChild(s, x) == s
  {
    assert s == s[..|s| - 1] + [x];
    assert Remove(s, x) == Remove(s[..|s| - 1], x);
  }
}
