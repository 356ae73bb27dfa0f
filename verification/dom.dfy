/** A parsed HTML document as a tree, the removal of non-content elements, and
    `Node.textContent` (section 4.4 "Interface Node" of the WHATWG DOM Standard). */
module Dom {
  import opened Outcomes

  /** A node: an element with its local name and children, a text node, or any
      other node (comment, processing instruction, doctype), which carries no text. */
  datatype Node = Element(tag: string, children: seq<Node>) | Text(data: string) | Other

  /** A document is its list of children (doctype, comments and the document element). */
  datatype Document = Document(children: seq<Node>)

  /** Tags whose elements, with their whole subtree, are removed before extraction. */
  const Excluded: set<string> := {"script", "style", "header", "footer", "nav", "aside"}

  predicate IsExcluded(n: Node) {
    n.Element? && n.tag in Excluded
  }

  /** No element anywhere in the tree carries an excluded tag. */
  predicate Pruned(n: Node) {
    match n
    case Element(t, cs) => t !in Excluded && PrunedAll(cs)
    case _ => true
  }

  predicate PrunedAll(ns: seq<Node>) {
    forall i :: 0 <= i < |ns| ==> Pruned(ns[i])
  }

  /** Removes every excluded descendant of `n` together with its subtree. */
  function Strip(n: Node): (r: Node)
    requires !IsExcluded(n)
    ensures Pruned(r)
    ensures r.Element? <==> n.Element?
    ensures r.Element? ==> r.tag == n.tag
  {
    match n
    case Element(t, cs) => Element(t, StripAll(cs))
    case _ => n
  }

  /** Drops the excluded nodes of `ns` and strips the others, keeping their order. */
  function StripAll(ns: seq<Node>): (r: seq<Node>)
    ensures PrunedAll(r)
    ensures |r| <= |ns|
  {
    if ns == [] then []
    else if IsExcluded(ns[0]) then StripAll(ns[1..])
    else [Strip(ns[0])] + StripAll(ns[1..])
  }

  /** The document after every excluded element has been removed. */
  function StripDocument(d: Document): Document {
    Document(StripAll(d.children))
  }

  /** The descendant text content of a node: the data of its descendant text nodes, in
      tree order (a text node's own data). This is `Node.textContent` for elements and
      text nodes, the only nodes it is read from. An `Other` node carries no data here, so
      it gives ""; read on a comment itself, the DOM would give the comment's data. */
  function TextContent(n: Node): (r: string)
    ensures r == LeafText(Leaves(n))
    decreases n, 1
  {
    match n
    case Element(t, cs) =>
      LeafTextUnder(t, LeavesAll(cs));
      TextContentAll(cs)
    case Text(d) =>
      assert LeafText(Leaves(n)) == d + LeafText([]);
      d
    case Other => ""
  }

  function TextContentAll(ns: seq<Node>): (r: string)
    ensures r == LeafText(LeavesAll(ns))
    decreases ns, 0
  {
    if ns == [] then ""
    else
      LeafTextAppend(Leaves(ns[0]), LeavesAll(ns[1..]));
      TextContent(ns[0]) + TextContentAll(ns[1..])
  }

  /** `n` is an element whose tag is one of `tags`. */
  predicate HasTagIn(n: Node, tags: set<string>) {
    n.Element? && n.tag in tags
  }

  /** `ns[i]` has a tag in `tags` and no earlier node does. */
  predicate FirstMatchAt(ns: seq<Node>, tags: set<string>, i: int) {
    0 <= i < |ns| && HasTagIn(ns[i], tags) && forall k :: 0 <= k < i ==> !HasTagIn(ns[k], tags)
  }

  /** The first element among `ns` whose tag is one of `tags`. */
  function FirstWithTag(ns: seq<Node>, tags: set<string>): (r: Option<Node>)
    ensures r.None? <==> forall i :: 0 <= i < |ns| ==> !HasTagIn(ns[i], tags)
    ensures r.Some? ==> HasTagIn(r.value, tags)
    ensures r.Some? ==> exists i :: FirstMatchAt(ns, tags, i) && ns[i] == r.value
  {
    if ns == [] then None
    else if HasTagIn(ns[0], tags) then
      assert FirstMatchAt(ns, tags, 0);
      Some(ns[0])
    else
      var r := FirstWithTag(ns[1..], tags);
      assert r.Some? ==> exists i :: FirstMatchAt(ns, tags, i) && ns[i] == r.value by {
        if r.Some? {
          var i :| FirstMatchAt(ns[1..], tags, i) && ns[1..][i] == r.value;
          assert FirstMatchAt(ns, tags, i + 1);
        }
      }
      r
  }

  /** The document element: the first element child of the document. */
  function DocumentElement(d: Document): Option<Node> {
    FirstElement(d.children)
  }

  function FirstElement(ns: seq<Node>): (r: Option<Node>)
    ensures r.Some? ==> r.value.Element? && r.value in ns
    ensures r.None? <==> forall i :: 0 <= i < |ns| ==> !ns[i].Element?
  {
    if ns == [] then None
    else if ns[0].Element? then Some(ns[0])
    else FirstElement(ns[1..])
  }

  /** Tags `document.body` looks for among the children of the html element. */
  const BodyTags: set<string> := {"body", "frameset"}

  /** The document element is an `html` element with a `body` or `frameset` child. */
  predicate HasBodyChild(d: Document) {
    var e := DocumentElement(d);
    && e.Some? && e.value.Element? && e.value.tag == "html"
    && exists i :: 0 <= i < |e.value.children| && HasTagIn(e.value.children[i], BodyTags)
  }

  /** `document.body`: the first body or frameset child of the document element,
      when the document element is an html element; absent (`null`) otherwise. */
  function Body(d: Document): (r: Option<Node>)
    ensures r.None? <==> !HasBodyChild(d)
    ensures r.Some? ==> r.value.Element? && r.value.tag in BodyTags
    ensures r.Some? ==> exists i :: FirstMatchAt(DocumentElement(d).value.children, BodyTags, i)
                                    && DocumentElement(d).value.children[i] == r.value
  {
    match DocumentElement(d)
    case Some(Element(t, cs)) => if t == "html" then FirstWithTag(cs, BodyTags) else None
    case _ => None
  }

  /** A DOM document has at most one element child. */
  predicate WellFormed(d: Document) {
    forall i, j :: 0 <= i < j < |d.children| && d.children[i].Element? ==> !d.children[j].Element?
  }

  // ----- Reference description: text nodes together with their ancestors -----

  /** A text node's data together with the tags of the elements above it, outermost first. */
  datatype TextLeaf = TextLeaf(ancestors: seq<string>, data: string)

  /** Every text node in the subtree of `n`, in tree order. */
  function Leaves(n: Node): seq<TextLeaf> {
    match n
    case Element(t, cs) => Under(t, LeavesAll(cs))
    case Text(d) => [TextLeaf([], d)]
    case Other => []
  }

  function LeavesAll(ns: seq<Node>): seq<TextLeaf> {
    if ns == [] then [] else Leaves(ns[0]) + LeavesAll(ns[1..])
  }

  /** The leaves with `t` added as their outermost ancestor. */
  function Under(t: string, ls: seq<TextLeaf>): (r: seq<TextLeaf>)
    ensures |r| == |ls|
    ensures forall i :: 0 <= i < |ls| ==> r[i] == TextLeaf([t] + ls[i].ancestors, ls[i].data)
  {
    if ls == [] then [] else [TextLeaf([t] + ls[0].ancestors, ls[0].data)] + Under(t, ls[1..])
  }

  /** The concatenated data of all the leaves, in order. */
  function LeafText(ls: seq<TextLeaf>): string {
    if ls == [] then "" else ls[0].data + LeafText(ls[1..])
  }

  lemma {:induction false} LeafTextAppend(a: seq<TextLeaf>, b: seq<TextLeaf>)
    ensures LeafText(a + b) == LeafText(a) + LeafText(b)
  {
    if a == [] {
      assert a + b == b;
    } else {
      calc {
        LeafText(a + b);
        { assert (a + b)[0] == a[0] && (a + b)[1..] == a[1..] + b; }
        a[0].data + LeafText(a[1..] + b);
        { LeafTextAppend(a[1..], b); }
        a[0].data + (LeafText(a[1..]) + LeafText(b));
        (a[0].data + LeafText(a[1..])) + LeafText(b);
      }
    }
  }

  /** Adding an ancestor changes no data. */
  lemma {:induction false} LeafTextUnder(t: string, ls: seq<TextLeaf>)
    ensures LeafText(Under(t, ls)) == LeafText(ls)
  {
    if ls != [] {
      LeafTextUnder(t, ls[1..]);
      assert Under(t, ls)[1..] == Under(t, ls[1..]);
    }
  }

  /** A leaf is visible when none of its ancestors carries an excluded tag. */
  predicate Visible(l: TextLeaf) {
    forall i :: 0 <= i < |l.ancestors| ==> l.ancestors[i] !in Excluded
  }

  /** The concatenated data of the visible leaves, in order. */
  function VisibleText(ls: seq<TextLeaf>): string {
    if ls == [] then "" else (if Visible(ls[0]) then ls[0].data else "") + VisibleText(ls[1..])
  }

  lemma {:induction false} VisibleTextAppend(a: seq<TextLeaf>, b: seq<TextLeaf>)
    ensures VisibleText(a + b) == VisibleText(a) + VisibleText(b)
  {
    if a == [] {
      assert a + b == b;
    } else {
      VisibleTextAppend(a[1..], b);
      assert (a + b)[1..] == a[1..] + b;
    }
  }

  /** Under an excluded tag nothing is visible; under any other tag visibility is unchanged. */
  lemma {:induction false} VisibleTextUnder(t: string, ls: seq<TextLeaf>)
    ensures t in Excluded ==> VisibleText(Under(t, ls)) == ""
    ensures t !in Excluded ==> VisibleText(Under(t, ls)) == VisibleText(ls)
  {
    if ls != [] {
      VisibleTextUnder(t, ls[1..]);
      var u := Under(t, ls);
      assert u[1..] == Under(t, ls[1..]);
      var anc := [t] + ls[0].ancestors;
      assert anc[0] == t;
      if t !in Excluded {
        assert Visible(u[0]) <==> Visible(ls[0]) by {
          assert forall i :: 1 <= i < |anc| ==> anc[i] == ls[0].ancestors[i - 1];
          if Visible(ls[0]) {
            forall i | 0 <= i < |anc| ensures anc[i] !in Excluded {
              if i > 0 { assert anc[i] == ls[0].ancestors[i - 1]; }
            }
          }
          if Visible(u[0]) {
            forall i | 0 <= i < |ls[0].ancestors| ensures ls[0].ancestors[i] !in Excluded {
              assert anc[i + 1] == ls[0].ancestors[i];
            }
          }
        }
      }
    }
  }

  /** The text left after stripping a node is exactly the data of its text nodes that
      have no excluded ancestor, in tree order. */
  lemma {:induction false} StripText(n: Node)
    requires !IsExcluded(n)
    ensures TextContent(Strip(n)) == VisibleText(Leaves(n))
    decreases n, 1
  {
    match n
    case Element(t, cs) =>
      StripTextAll(cs);
      VisibleTextUnder(t, LeavesAll(cs));
    case Text(d) =>
      assert VisibleText(Leaves(n)) == d + VisibleText([]);
    case Other =>
  }

  lemma {:induction false} StripTextAll(ns: seq<Node>)
    ensures TextContentAll(StripAll(ns)) == VisibleText(LeavesAll(ns))
    decreases ns, 0
  {
    if ns != [] {
      StripTextAll(ns[1..]);
      VisibleTextAppend(Leaves(ns[0]), LeavesAll(ns[1..]));
      if IsExcluded(ns[0]) {
        VisibleTextUnder(ns[0].tag, LeavesAll(ns[0].children));
      } else {
        StripText(ns[0]);
        assert StripAll(ns)[1..] == StripAll(ns[1..]);
      }
    }
  }

  /** Removing excluded elements does not change which child is found first among
      tags that are not excluded. */
  lemma {:induction false} FirstWithTagStrip(ns: seq<Node>, tags: set<string>)
    requires tags !! Excluded
    ensures var f := FirstWithTag(ns, tags);
      FirstWithTag(StripAll(ns), tags) == if f.Some? then Some(Strip(f.value)) else None
  {
    if ns != [] {
      FirstWithTagStrip(ns[1..], tags);
      if !IsExcluded(ns[0]) {
        assert StripAll(ns)[0] == Strip(ns[0]);
        assert StripAll(ns)[1..] == StripAll(ns[1..]);
      }
    }
  }

  /** In a document with one element child, removing excluded elements commutes with
      finding the document element (when it survives). */
  lemma {:induction false} FirstElementStrip(ns: seq<Node>)
    requires forall i, j :: 0 <= i < j < |ns| && ns[i].Element? ==> !ns[j].Element?
    ensures var f := FirstElement(ns);
      FirstElement(StripAll(ns)) == if f.Some? && !IsExcluded(f.value) then Some(Strip(f.value)) else None
  {
    if ns != [] {
      FirstElementStrip(ns[1..]);
      if ns[0].Element? {
        assert forall j :: 1 <= j < |ns| ==> !ns[j].Element?;
        NoElementStrip(ns[1..]);
        if !IsExcluded(ns[0]) {
          assert StripAll(ns)[0] == Strip(ns[0]);
        }
      } else {
        assert StripAll(ns) == [ns[0]] + StripAll(ns[1..]);
      }
    }
  }

  lemma {:induction false} NoElementStrip(ns: seq<Node>)
    requires forall i :: 0 <= i < |ns| ==> !ns[i].Element?
    ensures StripAll(ns) == ns
  {
    if ns != [] {
      NoElementStrip(ns[1..]);
      assert [ns[0]] + ns[1..] == ns;
    }
  }

  /** `document.body` of the stripped document is the stripped body of the original. */
  lemma BodyOfStripped(d: Document)
    requires WellFormed(d)
    ensures var b := Body(d);
      Body(StripDocument(d)) == if b.Some? then Some(Strip(b.value)) else None
  {
    FirstElementStrip(d.children);
    var e := DocumentElement(d);
    if e.Some? && e.value.Element? && e.value.tag == "html" {
      FirstWithTagStrip(e.value.children, BodyTags);
    }
  }
}
