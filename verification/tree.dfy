/** The parsed documentation tree and the navigation primitives the
    translator uses on it: text content, `.string`, `find`, `find_all`
    (recursive and direct-children-only) and attribute access. */
module Tree {
  import opened Outcomes

  /** A parsed XML node: a text leaf, or a tagged element with attributes
      and an ordered list of children. */
  datatype Node =
    | Text(text: string)
    | Element(tag: string, attrs: map<string, string>, children: seq<Node>)

  function ChildrenOf(n: Node): seq<Node> {
    match n
    case Text(_) => []
    case Element(_, _, cs) => cs
  }

  predicate HasTag(n: Node, t: string) {
    n.Element? && n.tag == t
  }

  /** Number of nodes in a tree; the measure every recursion over a tree decreases. */
  function Size(n: Node): (r: nat)
    ensures r >= 1
  {
    match n
    case Text(_) => 1
    case Element(_, _, cs) => 1 + SizeSeq(cs)
  }

  function SizeSeq(ns: seq<Node>): nat
  {
    if |ns| == 0 then 0 else Size(ns[0]) + SizeSeq(ns[1..])
  }

  lemma ChildrenSmaller(n: Node)
    ensures SizeSeq(ChildrenOf(n)) < Size(n)
  {
  }

  /** Concatenation of every text leaf below `n`, in document order
      (BeautifulSoup's `get_text()`). */
  function TextContent(n: Node): string
  {
    match n
    case Text(s) => s
    case Element(_, _, cs) => TextContentSeq(cs)
  }

  function TextContentSeq(ns: seq<Node>): string
  {
    if |ns| == 0 then "" else TextContent(ns[0]) + TextContentSeq(ns[1..])
  }

  /** BeautifulSoup's `.string`: the text of a leaf, or of the only child of
      an element that has exactly one child; absent otherwise. */
  function StringOf(n: Node): Option<string>
  {
    match n
    case Text(s) => Some(s)
    case Element(_, _, cs) => if |cs| == 1 then StringOf(cs[0]) else None
  }

  /** When `.string` is present it is the whole text content, so
      `get_text` may use either without changing its result. */
  lemma {:induction false} StringOfIsTextContent(n: Node)
    ensures StringOf(n).Some? ==> StringOf(n).value == TextContent(n)
  {
    match n
    case Text(_) =>
    case Element(_, _, cs) =>
      if |cs| == 1 {
        StringOfIsTextContent(cs[0]);
        assert TextContentSeq(cs) == TextContent(cs[0]) + TextContentSeq(cs[1..]);
      }
  }

  /** Every element tagged `t` strictly below the nodes `ns`, in document
      (pre-)order: `find_all(t)` applied to a parent with children `ns`. */
  function FindAllIn(ns: seq<Node>, t: string): (r: seq<Node>)
    ensures forall i :: 0 <= i < |r| ==> HasTag(r[i], t)
    decreases SizeSeq(ns)
  {
    if |ns| == 0 then []
    else
      ChildrenSmaller(ns[0]);
      (if HasTag(ns[0], t) then [ns[0]] else [])
      + FindAllIn(ChildrenOf(ns[0]), t)
      + FindAllIn(ns[1..], t)
  }

  /** The first element tagged `t` strictly below the nodes `ns`, in
      document order: `find(t)`. */
  function FindIn(ns: seq<Node>, t: string): (r: Option<Node>)
    ensures r.Some? ==> HasTag(r.value, t) && Size(r.value) <= SizeSeq(ns)
    decreases SizeSeq(ns)
  {
    if |ns| == 0 then None
    else if HasTag(ns[0], t) then Some(ns[0])
    else
      ChildrenSmaller(ns[0]);
      match FindIn(ChildrenOf(ns[0]), t)
      case Some(d) => Some(d)
      case None => FindIn(ns[1..], t)
  }

  /** `find` returns exactly the first hit of `find_all`. */
  lemma {:induction false} FindInIsFirstOfFindAll(ns: seq<Node>, t: string)
    ensures FindIn(ns, t) == (if |FindAllIn(ns, t)| == 0 then None else Some(FindAllIn(ns, t)[0]))
    decreases SizeSeq(ns)
  {
    if |ns| > 0 {
      ChildrenSmaller(ns[0]);
      FindInIsFirstOfFindAll(ChildrenOf(ns[0]), t);
      FindInIsFirstOfFindAll(ns[1..], t);
    }
  }

  function FindAll(n: Node, t: string): seq<Node> {
    FindAllIn(ChildrenOf(n), t)
  }

  /** `n.find(t)`: the result, when there is one, is a proper descendant. */
  function Find(n: Node, t: string): (r: Option<Node>)
    ensures r.Some? ==> HasTag(r.value, t) && Size(r.value) < Size(n)
  {
    ChildrenSmaller(n);
    FindIn(ChildrenOf(n), t)
  }

  /** `n.find(t)` whose result is then dereferenced: a missing element is
      the AttributeError of using None. */
  function FindOr(n: Node, t: string): (r: Result<Node>)
    ensures r.Ok? <==> Find(n, t).Some?
    ensures r.Ok? ==> HasTag(r.value, t) && Size(r.value) < Size(n)
    ensures r.Err? ==> r.error == MissingElement(t)
  {
    match Find(n, t)
    case Some(d) => Ok(d)
    case None => Err(MissingElement(t))
  }

  /** The direct children of `n` tagged `t`, in order: `find_all(t, recursive=False)`. */
  function ChildrenTagged(n: Node, t: string): seq<Node> {
    Tagged(ChildrenOf(n), t)
  }

  function Tagged(ns: seq<Node>, t: string): (r: seq<Node>)
    ensures |r| <= |ns|
    ensures forall i :: 0 <= i < |r| ==> HasTag(r[i], t) && r[i] in ns
    ensures forall i :: 0 <= i < |ns| && HasTag(ns[i], t) ==> ns[i] in r
  {
    if |ns| == 0 then []
    else (if HasTag(ns[0], t) then [ns[0]] else []) + Tagged(ns[1..], t)
  }

  /** `n[a]`: the value of attribute `a`, or a lookup failure. */
  function Attr(n: Node, a: string): (r: Result<string>)
    ensures r.Ok? <==> n.Element? && a in n.attrs
    ensures r.Ok? ==> r.value == n.attrs[a]
    ensures r.Err? ==> r.error.MissingAttribute? && r.error.attr == a
  {
    match n
    case Text(_) => Err(MissingAttribute("", a))
    case Element(tag, attrs, _) =>
      if a in attrs then Ok(attrs[a]) else Err(MissingAttribute(tag, a))
  }
}
