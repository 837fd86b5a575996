/** The parsed manifest as an immutable node tree, with the two DOM queries the
    resolver uses: getElementsByTagName and textContent. */
module Xml {

  /** An element (qualified tag name, attributes by qualified name, child nodes)
      or a run of character data (text or CDATA). */
  datatype Node = Element(name: string, attrs: map<string, string>, children: seq<Node>) | Text(data: string)

  /** A parsed document: its top-level nodes, normally just the document element. */
  datatype Document = Document(nodes: seq<Node>)

  /** The child nodes of n (character data has none). */
  function Kids(n: Node): seq<Node>
  {
    match n
    case Element(_, _, cs) => cs
    case Text(_) => []
  }

  /** Element.getAttribute: the attribute's value, or "" when it is absent. */
  function Attr(n: Node, key: string): string
  {
    if n.Element? && key in n.attrs then n.attrs[key] else ""
  }

  /** The nodes of the tree rooted at n in document order (pre-order), n first. */
  function Tree(n: Node): seq<Node>
    decreases n, 1
  {
    match n
    case Element(_, _, cs) => [n] + Forest(cs)
    case Text(_) => [n]
  }

  /** The nodes of a sequence of sibling trees in document order. */
  function Forest(ns: seq<Node>): seq<Node>
    decreases ns, 0
  {
    if ns == [] then [] else Tree(ns[0]) + Forest(ns[1..])
  }

  predicate Named(n: Node, tag: string)
  {
    n.Element? && n.name == tag
  }

  /** The elements called tag among ns, in their order. */
  function FilterNamed(ns: seq<Node>, tag: string): (r: seq<Node>)
    ensures forall x :: x in r <==> x in ns && Named(x, tag)
    ensures |r| <= |ns|
  {
    if ns == [] then []
    else if Named(ns[0], tag) then [ns[0]] + FilterNamed(ns[1..], tag)
    else FilterNamed(ns[1..], tag)
  }

  /** Filtering keeps the order and the repetitions of its input: it splits
      over concatenation, and a single node is kept exactly when it has the
      name. */
  lemma {:induction false} FilterNamedAppend(a: seq<Node>, b: seq<Node>, tag: string)
    ensures FilterNamed(a + b, tag) == FilterNamed(a, tag) + FilterNamed(b, tag)
    ensures |a| == 1 ==> FilterNamed(a, tag) == if Named(a[0], tag) then a else []
  {
    if a != [] {
      assert (a + b)[0] == a[0] && (a + b)[1..] == a[1..] + b;
      FilterNamedAppend(a[1..], b, tag);
    } else {
      assert a + b == b;
    }
  }

  /** The document order of siblings: the nodes of a + b are those of a,
      then those of b. */
  lemma {:induction false} ForestAppend(a: seq<Node>, b: seq<Node>)
    ensures Forest(a + b) == Forest(a) + Forest(b)
  {
    if a != [] {
      assert (a + b)[0] == a[0] && (a + b)[1..] == a[1..] + b;
      ForestAppend(a[1..], b);
    } else {
      assert a + b == b;
    }
  }

  /** getElementsByTagName(tag) on a node or document whose children are ns:
      every descendant element called tag, in document order. The node the
      query is made on is not itself a candidate. */
  function ElementsByTagName(ns: seq<Node>, tag: string): seq<Node>
  {
    FilterNamed(Forest(ns), tag)
  }

  /** A query over siblings a + b answers the matches inside a, then those
      inside b. */
  lemma ElementsByTagNameAppend(a: seq<Node>, b: seq<Node>, tag: string)
    ensures ElementsByTagName(a + b, tag) == ElementsByTagName(a, tag) + ElementsByTagName(b, tag)
  {
    ForestAppend(a, b);
    FilterNamedAppend(Forest(a), Forest(b), tag);
  }

  /** Pre-order: among the nodes of the tree rooted at n, a match n comes
      before every match below it, and those come in the order of the query on
      n's children. */
  lemma TreeOrder(n: Node, tag: string)
    ensures FilterNamed(Tree(n), tag) == (if Named(n, tag) then [n] else []) + ElementsByTagName(Kids(n), tag)
  {
    if n.Element? {
      FilterNamedAppend([n], Forest(n.children), tag);
    } else {
      assert Forest([]) == [];
    }
  }

  /** The first of the elements called tag, if any, is the first element
      called tag in document order. */
  lemma {:induction false} FirstNamed(ns: seq<Node>, tag: string)
    requires FilterNamed(ns, tag) != []
    ensures exists i | 0 <= i < |ns| ::
              && ns[i] == FilterNamed(ns, tag)[0] && Named(ns[i], tag)
              && forall k | 0 <= k < i :: !Named(ns[k], tag)
  {
    if !Named(ns[0], tag) {
      FirstNamed(ns[1..], tag);
      var i :| 0 <= i < |ns[1..]| && ns[1..][i] == FilterNamed(ns[1..], tag)[0] && Named(ns[1..][i], tag)
        && forall k | 0 <= k < i :: !Named(ns[1..][k], tag);
      assert ns[i + 1] == FilterNamed(ns, tag)[0];
      assert forall k | 1 <= k < i + 1 :: ns[k] == ns[1..][k - 1];
    } else {
      assert ns[0] == FilterNamed(ns, tag)[0];
    }
  }

  /** Being a descendant is transitive: whatever lies in a subtree that is part
      of a forest is part of that forest, at any depth. */
  lemma {:induction false} ForestTransitive(x: Node, c: Node, ns: seq<Node>)
    requires c in Forest(ns) && x in Tree(c)
    ensures x in Forest(ns)
    decreases ns, 0
  {
    assert ns != [];
    if c in Tree(ns[0]) {
      TreeTransitive(x, c, ns[0]);
    } else {
      ForestTransitive(x, c, ns[1..]);
    }
  }

  lemma {:induction false} TreeTransitive(x: Node, c: Node, n: Node)
    requires c in Tree(n) && x in Tree(c)
    ensures x in Tree(n)
    decreases n, 1
  {
    if c != n {
      assert n.Element?;
      ForestTransitive(x, c, n.children);
    }
  }

  /** Node.textContent: the character data of every descendant, in document order. */
  function TextContent(n: Node): string
    decreases n, 1
  {
    match n
    case Element(_, _, cs) => TextOfForest(cs)
    case Text(d) => d
  }

  function TextOfForest(ns: seq<Node>): string
    decreases ns, 0
  {
    if ns == [] then "" else TextContent(ns[0]) + TextOfForest(ns[1..])
  }
}
