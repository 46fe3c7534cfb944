/** The node translator of the LaTeX generator: a closed dispatch on the
    tag of a node, recursing into the children of containers. */
module Translate {
  import opened Outcomes
  import opened Tree
  import opened Escaping
  import opened Strings
  import opened References
  import opened Seqs

  /** The tags the LaTeX generator's parse table handles; every other tag
      renders as the empty string. */
  const Handled: set<string> :=
    {"para", "computeroutput", "texttt", "ref", "nameref", "shortref", "obj",
     "errorenumdesc", "orderedlist", "listitem", "itemizedlist", "autoref"}

  /** A LaTeX environment `env` around `body`. */
  function Environment(env: string, body: string): string {
    "\\begin{" + env + "}\n" + body + "\\end{" + env + "}\n"
  }

  /** `parse_para`: the LaTeX of one node. Only a lookup in a non-empty
      table can fail with a missing key, and then only for a key the table
      does not hold; with the empty table no reference can fail. */
  function Render(n: Node, refs: RefTable): (r: Result<string>)
    ensures refs == map[] ==> !IsMissingKey(r)
    ensures IsMissingKey(r) ==> r.error.key !in refs
    decreases Size(n), 0
  {
    match n
    case Text(s) => Ok(Escape(s))
    case Element(tag, _, children) =>
      ChildrenSmaller(n);
      if tag == "para" then RenderSeq(children, refs)
      else if tag == "computeroutput" then Ok("\\texttt{" + Escape(TextContent(n)) + "}")
      else if tag == "texttt" then
        var text :- Attr(n, "text");
        Ok("\\texttt{" + Escape(text) + "}")
      else if tag == "ref" then RefToFormat(n, "refid", refs)
      else if tag == "nameref" then RefToFormat(n, "name", refs)
      else if tag == "shortref" then
        var sec :- Attr(n, "sec");
        Ok("\\ref{sec:" + sec + "}")
      else if tag == "obj" then
        var name :- Attr(n, "name");
        Ok("\\obj{" + name + "}")
      else if tag == "errorenumdesc" then Ok("\\errorenumdesc")
      else if tag == "orderedlist" then
        var body :- RenderSeq(children, refs);
        Ok(Environment("enumerate", body))
      else if tag == "itemizedlist" then
        var body :- RenderSeq(children, refs);
        Ok(Environment("itemize", body))
      else if tag == "listitem" then
        var p :- FindOr(n, "para");
        var body :- Render(p, refs);
        Ok("\\item " + body + "\n")
      else if tag == "autoref" then
        var target :- Attr(n, "label");
        Ok("\\autoref{" + target + "}")
      else Ok("")
  }

  /** `parse_recurse`: the children rendered one after another, the first
      failing child aborting the whole. */
  function RenderSeq(ns: seq<Node>, refs: RefTable): (r: Result<string>)
    ensures refs == map[] ==> !IsMissingKey(r)
    ensures IsMissingKey(r) ==> r.error.key !in refs
    decreases SizeSeq(ns), 1
  {
    if |ns| == 0 then Ok("")
    else
      var head :- Render(ns[0], refs);
      var tail :- RenderSeq(ns[1..], refs);
      Ok(head + tail)
  }

  /** The rendering of two runs of siblings in a row: in order, the earlier
      run's failure taking precedence. */
  function Then(a: Result<string>, b: Result<string>): Result<string> {
    var x :- a;
    var y :- b;
    Ok(x + y)
  }

  /** `r` with fixed text around it, failures passing through. */
  function Wrap(before: string, r: Result<string>, after: string): Result<string> {
    match r
    case Ok(x) => Ok(before + x + after)
    case Err(e) => Err(e)
  }

  /** Rendering children is an in-order concatenation: it distributes over
      splitting the children at any point. */
  lemma {:induction false} RenderSeqAppend(a: seq<Node>, b: seq<Node>, refs: RefTable)
    ensures RenderSeq(a + b, refs) == Then(RenderSeq(a, refs), RenderSeq(b, refs))
    decreases |a|
  {
    if |a| == 0 {
      assert a + b == b;
      var rb := RenderSeq(b, refs);
      if rb.Ok? {
        assert "" + rb.value == rb.value;
      }
    } else {
      assert (a + b)[0] == a[0];
      assert (a + b)[1..] == a[1..] + b;
      RenderSeqAppend(a[1..], b, refs);
      var ra, rb := RenderSeq(a[1..], refs), RenderSeq(b, refs);
      match Render(a[0], refs)
      case Err(_) =>
      case Ok(h) =>
        if ra.Ok? && rb.Ok? {
          assert h + (ra.value + rb.value) == (h + ra.value) + rb.value;
        }
    }
  }

  /** A paragraph of plain text renders as its escaped text. */
  lemma {:induction false} PlainTextRendersEscaped(ns: seq<Node>, refs: RefTable)
    requires forall i :: 0 <= i < |ns| ==> ns[i].Text?
    ensures RenderSeq(ns, refs) == Ok(Escape(TextContentSeq(ns)))
  {
    if |ns| > 0 {
      PlainTextRendersEscaped(ns[1..], refs);
      EscapeAppend(TextContent(ns[0]), TextContentSeq(ns[1..]));
    }
  }

  /** A text leaf renders as text that reads back as the leaf's own text. */
  lemma TextLeafRoundTrip(s: string, refs: RefTable)
    ensures Render(Text(s), refs).Ok?
    ensures Unescape(Render(Text(s), refs).value) == s
  {
    UnescapeEscape(s);
  }

  /** The dispatch rules for text, paragraphs, the fixed marker and
      unknown tags: a text leaf is its escaped text, a paragraph its
      children in order, and a tag outside the table renders as nothing. */
  lemma DispatchBasics(n: Node, refs: RefTable)
    ensures n.Text? ==> Render(n, refs) == Ok(Escape(n.text))
    ensures n.Element? && n.tag !in Handled ==> Render(n, refs) == Ok("")
    ensures HasTag(n, "para") ==> Render(n, refs) == RenderSeq(n.children, refs)
    ensures HasTag(n, "errorenumdesc") ==> Render(n, refs) == Ok("\\errorenumdesc")
  {
  }

  /** The inline rules that read the node itself: a code span is its
      escaped text in `\texttt`, `texttt` its escaped `text` attribute,
      `shortref` a `\ref` to its `sec` section, `obj` an `\obj` of its
      `name`, `autoref` an `\autoref` of its `label`. A missing attribute
      is a failure naming it. */
  lemma DispatchSpans(n: Node, refs: RefTable)
    ensures HasTag(n, "computeroutput") ==> Render(n, refs) == Ok("\\texttt{" + Escape(TextContent(n)) + "}")
    ensures HasTag(n, "texttt") ==>
              Render(n, refs) == if "text" in n.attrs then Ok("\\texttt{" + Escape(n.attrs["text"]) + "}")
                                 else Err(MissingAttribute("texttt", "text"))
    ensures HasTag(n, "shortref") ==>
              Render(n, refs) == if "sec" in n.attrs then Ok("\\ref{sec:" + n.attrs["sec"] + "}")
                                 else Err(MissingAttribute("shortref", "sec"))
    ensures HasTag(n, "obj") ==>
              Render(n, refs) == if "name" in n.attrs then Ok("\\obj{" + n.attrs["name"] + "}")
                                 else Err(MissingAttribute("obj", "name"))
    ensures HasTag(n, "autoref") ==>
              Render(n, refs) == if "label" in n.attrs then Ok("\\autoref{" + n.attrs["label"] + "}")
                                 else Err(MissingAttribute("autoref", "label"))
  {
  }

  /** A node of running text: a text leaf, a code span, or a tag the
      table does not handle. */
  predicate SimpleInline(n: Node) {
    n.Text? || HasTag(n, "computeroutput") || (n.Element? && n.tag !in Handled)
  }

  /** What a node of running text shows on the page, read off the node
      alone: escaped text, an escaped code span in `\texttt`, or nothing. */
  function SpanText(n: Node): string {
    match n
    case Text(s) => Escape(s)
    case Element(tag, _, _) => if tag == "computeroutput" then "\\texttt{" + Escape(TextContent(n)) + "}" else ""
  }

  /** A node of running text renders as what it shows. */
  lemma SpanRenders(n: Node, refs: RefTable)
    requires SimpleInline(n)
    ensures Render(n, refs) == Ok(SpanText(n))
  {
  }

  /** A paragraph mixing text, code spans and unknown tags always renders,
      as what each of its nodes shows, in order. */
  lemma {:induction false} SimpleInlineRenders(ns: seq<Node>, refs: RefTable)
    requires forall i :: 0 <= i < |ns| ==> SimpleInline(ns[i])
    ensures RenderSeq(ns, refs) == Ok(Concat(Map(ns, SpanText)))
  {
    if |ns| > 0 {
      SimpleInlineRenders(ns[1..], refs);
      SpanRenders(ns[0], refs);
      var m := Map(ns, SpanText);
      assert m[1..] == Map(ns[1..], SpanText);
      assert Concat(m) == SpanText(ns[0]) + Concat(Map(ns[1..], SpanText));
    }
  }

  /** The list tags and the LaTeX environments they become. */
  predicate ListEnvironment(tag: string, env: string) {
    (tag == "orderedlist" && env == "enumerate") || (tag == "itemizedlist" && env == "itemize")
  }

  /** A list wraps its children in its environment: `\begin{env}` on a
      line, the rendered children, `\end{env}` on a line; a failing child
      fails the list. */
  lemma DispatchList(n: Node, refs: RefTable, env: string)
    requires n.Element? && ListEnvironment(n.tag, env)
    ensures Render(n, refs) == Wrap("\\begin{" + env + "}\n", RenderSeq(n.children, refs), "\\end{" + env + "}\n")
  {
    var body := RenderSeq(n.children, refs);
    if body.Ok? {
      var x := body.value;
      assert Render(n, refs) == Ok(Environment(env, x)) by {
        if n.tag == "orderedlist" {
          assert env == "enumerate";
        } else {
          assert env == "itemize";
        }
      }
      assert Environment(env, x) == ("\\begin{" + env + "}\n") + x + ("\\end{" + env + "}\n");
    }
  }

  /** A list item is `\item `, its first paragraph, and a line break; an
      item without a paragraph is a missing-element failure. */
  lemma DispatchListItem(n: Node, refs: RefTable)
    requires HasTag(n, "listitem")
    ensures Find(n, "para").Some? ==> Render(n, refs) == Wrap("\\item ", Render(Find(n, "para").value, refs), "\n")
    ensures Find(n, "para").None? ==> Render(n, refs) == Err(MissingElement("para"))
  {
  }

  /** References by id and by name render as nothing with the empty
      table, and as the looked-up `\apifunc` otherwise. */
  lemma DispatchReferences(n: Node, refs: RefTable)
    ensures (HasTag(n, "ref") || HasTag(n, "nameref")) && refs == map[] ==> Render(n, refs) == Ok("")
    ensures HasTag(n, "ref") && refs != map[] && "refid" in n.attrs ==>
              Render(n, refs) == RefFormat(n.attrs["refid"], refs)
    ensures HasTag(n, "nameref") && refs != map[] && "name" in n.attrs ==>
              Render(n, refs) == RefFormat(n.attrs["name"], refs)
  {
  }
}
