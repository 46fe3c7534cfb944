/** The rest of a member's extraction: free-text details, the return-value
    documentation, the prototype and the brief description, and
    `parse_detailed_desc` put together. */
module Descriptions {
  import opened Outcomes
  import opened Tree
  import opened Escaping
  import opened Strings
  import opened References
  import opened Translate
  import opened Parameters
  import opened Seqs

  /** The text of each node, in order (`n.text` for each). */
  function Texts(ns: seq<Node>): seq<string> {
    Map(ns, TextContent)
  }

  // ---------------------------------------------------------------- details

  /** The paragraphs that are free text: those with no `parameterlist` anywhere inside. */
  function FreeText(paras: seq<Node>): (r: seq<Node>)
    ensures forall p :: p in r <==> p in paras && Find(p, "parameterlist").None?
  {
    if |paras| == 0 then []
    else (if Find(paras[0], "parameterlist").None? then [paras[0]] else []) + FreeText(paras[1..])
  }

  /** Keeping the free-text paragraphs preserves their order and
      repetitions: it distributes over concatenation. */
  lemma {:induction false} FreeTextAppend(a: seq<Node>, b: seq<Node>)
    ensures FreeText(a + b) == FreeText(a) + FreeText(b)
  {
    if |a| == 0 {
      assert a + b == b;
    } else {
      assert (a + b)[0] == a[0];
      assert (a + b)[1..] == a[1..] + b;
      FreeTextAppend(a[1..], b);
    }
  }

  /** Each paragraph rendered and followed by a blank line, in order. */
  function RenderDetails(paras: seq<Node>, refs: RefTable): (r: Result<string>)
    ensures r.Ok? ==> forall i :: 0 <= i < |paras| ==> Render(paras[i], refs).Ok?
    ensures r.Ok? ==> |r.value| >= 2 * |paras|
  {
    if |paras| == 0 then Ok("")
    else
      var head :- Render(paras[0], refs);
      var tail :- RenderDetails(paras[1..], refs);
      assert forall i :: 1 <= i < |paras| ==> paras[i] == paras[1..][i - 1];
      Ok(head + "\n\n" + tail)
  }

  /** Rendered details follow the paragraph order: they distribute over
      splitting the paragraphs. */
  lemma {:induction false} RenderDetailsAppend(a: seq<Node>, b: seq<Node>, refs: RefTable)
    ensures RenderDetails(a + b, refs) == Then(RenderDetails(a, refs), RenderDetails(b, refs))
  {
    if |a| == 0 {
      assert a + b == b;
      var rb := RenderDetails(b, refs);
      if rb.Ok? {
        assert "" + rb.value == rb.value;
      }
    } else {
      assert (a + b)[0] == a[0];
      assert (a + b)[1..] == a[1..] + b;
      RenderDetailsAppend(a[1..], b, refs);
      var ra, rb := RenderDetails(a[1..], refs), RenderDetails(b, refs);
      match Render(a[0], refs)
      case Err(_) =>
      case Ok(h) =>
        if ra.Ok? && rb.Ok? {
          assert h + "\n\n" + (ra.value + rb.value) == (h + "\n\n" + ra.value) + rb.value;
        }
    }
  }

  /** The details of a member: the free-text top-level paragraphs of its
      `detaileddescription`, stripped, or `\todo` when only whitespace is left. */
  function Details(member: Node, refs: RefTable): (r: Result<string>)
    ensures r.Ok? ==> r.value != ""
    ensures Find(member, "detaileddescription").None? ==> r == Err(MissingElement("detaileddescription"))
    ensures r.Ok? ==>
              var raw := RenderDetails(FreeText(ChildrenTagged(Find(member, "detaileddescription").value, "para")), refs);
              raw.Ok? && r.value == (if AllSpace(raw.value) then "\\todo" else Strip(raw.value))
  {
    var dd :- FindOr(member, "detaileddescription");
    var raw :- RenderDetails(FreeText(ChildrenTagged(dd, "para")), refs);
    StripEmptyIff(raw);
    Ok(TodoIfEmpty(Strip(raw)))
  }

  // ------------------------------------------------------------ return doc

  /** `default_return_doc`: `\noret` for a `void` return, nothing otherwise. */
  function DefaultReturnDoc(word: string): (r: string)
    ensures r == "\\noret" <==> word == "void"
    ensures r != "\\noret" ==> r == ""
  {
    if word == "void" then "\\noret" else ""
  }

  predicate IsReturnSect(n: Node) {
    Attr(n, "kind") == Ok("return")
  }

  /** The index of the first `simplesect` of kind `return`; the scan stops
      there, so later sections are never read. A section without a `kind`
      met before that point is an attribute failure. */
  function FirstReturn(sects: seq<Node>): (r: Result<Option<nat>>)
    ensures r.Ok? && r.value.Some? ==>
              r.value.value < |sects| && IsReturnSect(sects[r.value.value])
              && forall j :: 0 <= j < r.value.value ==> Attr(sects[j], "kind").Ok? && !IsReturnSect(sects[j])
    ensures r.Ok? && r.value.None? ==>
              forall j :: 0 <= j < |sects| ==> Attr(sects[j], "kind").Ok? && !IsReturnSect(sects[j])
    ensures r.Err? ==> exists j :: 0 <= j < |sects| && Attr(sects[j], "kind").Err?
  {
    if |sects| == 0 then Ok(None)
    else
      var kind :- Attr(sects[0], "kind");
      if kind == "return" then Ok(Some(0))
      else
        var rest :- FirstReturn(sects[1..]);
        assert forall j :: 1 <= j < |sects| ==> sects[j] == sects[1..][j - 1];
        match rest
        case None => Ok(None)
        case Some(i) => Ok(Some(i + 1))
  }

  /** The first return section wins: whatever follows it is ignored. */
  lemma {:induction false} FirstReturnIgnoresLater(a: seq<Node>, b: seq<Node>)
    requires FirstReturn(a).Ok? && FirstReturn(a).value.Some?
    ensures FirstReturn(a + b) == FirstReturn(a)
  {
    assert (a + b)[0] == a[0];
    if !IsReturnSect(a[0]) {
      assert (a + b)[1..] == a[1..] + b;
      FirstReturnIgnoresLater(a[1..], b);
    }
  }

  /** The return-value documentation: the first `return` section's
      paragraph if there is one, else the default implied by the last word
      of the return type (a blank return type has no last word: the
      IndexError), stripped, with `\todo` for nothing. */
  function ReturnDoc(retType: string, sects: seq<Node>, refs: RefTable): (r: Result<string>)
    ensures r.Ok? ==> r.value != ""
    ensures AllSpace(retType) ==> r == Err(EmptyReturnType)
  {
    var word :- match LastWord(retType) case Some(w) => Ok(w) case None => Err(EmptyReturnType);
    var first :- FirstReturn(sects);
    var raw :- match first
               case None => Ok(DefaultReturnDoc(word))
               case Some(i) =>
                 var p :- FindOr(sects[i], "para");
                 Render(p, refs);
    Ok(TodoIfEmpty(Strip(raw)))
  }

  /** Without a return section the documentation is `\noret` exactly when
      the return type's last word is `void`, and `\todo` otherwise. */
  lemma DefaultReturnIff(retType: string, sects: seq<Node>, refs: RefTable)
    requires !AllSpace(retType)
    requires FirstReturn(sects) == Ok(None)
    ensures ReturnDoc(retType, sects, refs).Ok?
    ensures ReturnDoc(retType, sects, refs).value == "\\noret" <==> LastWord(retType) == Some("void")
    ensures LastWord(retType) != Some("void") ==> ReturnDoc(retType, sects, refs).value == "\\todo"
  {
    var w := LastWord(retType).value;
    assert ReturnDoc(retType, sects, refs) == Ok(TodoIfEmpty(Strip(DefaultReturnDoc(w))));
    DefaultReturnStripped(w);
  }

  /** The default documentation has no whitespace to strip. */
  lemma DefaultReturnStripped(word: string)
    ensures Strip(DefaultReturnDoc(word)) == DefaultReturnDoc(word)
  {
    var raw := DefaultReturnDoc(word);
    assert raw == [] || (raw[0] == '\\' && raw[|raw| - 1] == 't');
    StripTrimmed(raw);
  }

  /** A return section overrides the default, whatever the return type's last word. */
  lemma ExplicitReturnOverrides(retType: string, sects: seq<Node>, refs: RefTable, i: nat, text: string)
    requires !AllSpace(retType)
    requires FirstReturn(sects) == Ok(Some(i))
    requires Find(sects[i], "para").Some? && Render(Find(sects[i], "para").value, refs) == Ok(text)
    ensures ReturnDoc(retType, sects, refs) == Ok(TodoIfEmpty(Strip(text)))
  {
  }

  // ------------------------------------------------------------- prototype

  /** `parse_prototype`: the return type and name, escaped and separated by
      a space, prefixed by `inline ` and then by `static `, so the
      qualifiers always read `static inline` when both are set. */
  function Prototype(member: Node): (r: Result<string>)
    ensures r.Ok? <==> member.Element? && "inline" in member.attrs && "static" in member.attrs
                       && Find(member, "type").Some? && Find(member, "name").Some?
    ensures r.Ok? ==>
              var core := Escape(TextContent(Find(member, "type").value)) + " "
                          + Escape(TextContent(Find(member, "name").value));
              r.value == (if member.attrs["static"] == "yes" then "static " else "")
                         + (if member.attrs["inline"] == "yes" then "inline " else "") + core
  {
    var inlineAttr :- Attr(member, "inline");
    var staticAttr :- Attr(member, "static");
    var retType :- FindOr(member, "type");
    var name :- FindOr(member, "name");
    var core := Escape(TextContent(retType)) + " " + Escape(TextContent(name));
    var withInline := if inlineAttr == "yes" then "inline " + core else core;
    var output := if staticAttr == "yes" then "static " + withInline else withInline;
    assert output == (if staticAttr == "yes" then "static " else "")
                     + (if inlineAttr == "yes" then "inline " else "") + core;
    Ok(output)
  }

  // ----------------------------------------------------------------- brief

  /** Every node rendered, in order. */
  function RenderAll(ns: seq<Node>, refs: RefTable): (r: Result<seq<string>>)
    ensures r.Ok? ==> |r.value| == |ns| && forall i :: 0 <= i < |ns| ==> Render(ns[i], refs) == Ok(r.value[i])
    ensures refs == map[] ==> !IsMissingKey(r)
  {
    if |ns| == 0 then Ok([])
    else
      var head :- Render(ns[0], refs);
      var tail :- RenderAll(ns[1..], refs);
      assert forall i :: 1 <= i < |ns| ==> ns[i] == ns[1..][i - 1];
      Ok([head] + tail)
  }

  /** `parse_brief`: every `para` anywhere in the `briefdescription`,
      rendered WITHOUT a reference table and joined by blank lines. Since
      the table is empty, references inside a brief render as nothing and
      can never fail a lookup. */
  function Brief(member: Node): (r: Result<string>)
    ensures !IsMissingKey(r)
    ensures Find(member, "briefdescription").None? ==> r == Err(MissingElement("briefdescription"))
  {
    var bd :- FindOr(member, "briefdescription");
    var parts :- RenderAll(FindAll(bd, "para"), map[]);
    Ok(Join(parts, "\n\n"))
  }

  // ------------------------------------------------- parse_detailed_desc

  /** What `parse_detailed_desc` returns for one member. */
  datatype MemberDetail = MemberDetail(details: string, params: string, ret: string)

  /** Every type after the return type that is paired with a name is `void`. */
  predicate AllVoid(types: seq<string>, names: seq<string>) {
    forall i :: 1 <= i < |types| && i <= |names| ==> types[i] == "void"
  }

  /** All parameters of a member are `void`-typed (or it declares none). */
  predicate DeclaresNothing(member: Node) {
    AllVoid(Texts(FindAll(member, "type")), Texts(FindAll(member, "declname")))
  }

  /** The parameter loop keeps nothing exactly when every paired type is `void`. */
  lemma KeepsNothingIff(types: seq<string>, names: seq<string>)
    requires |types| >= 1 && Declare(types[1..], names).Ok?
    ensures Declare(types[1..], names).value == [] <==> AllVoid(types, names)
  {
    var decls := Declare(types[1..], names).value;
    var pairs := seq(|names|, i requires 0 <= i < |names| => Decl(names[i], types[1..][i]));
    assert forall d :: d in decls <==> d in pairs && d.declType != "void";
    if decls != [] {
      assert decls[0] in pairs;
    }
    if !AllVoid(types, names) {
      var i :| 1 <= i < |types| && i <= |names| && types[i] != "void";
      assert pairs[i - 1] in decls;
    }
  }

  /** `parse_detailed_desc`: parameters, then details, then the return
      documentation, failing at the first problem in that order. Details
      and return documentation are never empty, and the parameter block is
      the canonical no-parameter block exactly when no parameter survives
      the `void` filter. */
  function ParseDetailedDesc(member: Node, refs: RefTable): (r: Result<MemberDetail>)
    ensures r.Ok? ==> r.value.details != "" && r.value.ret != ""
    ensures r.Ok? ==> (r.value.params == NoParams <==> DeclaresNothing(member))
    ensures FindAll(member, "type") == [] ==> r == Err(MissingType)
  {
    var types := Texts(FindAll(member, "type"));
    var names := Texts(FindAll(member, "declname"));
    if |types| == 0 then Err(MissingType)
    else
      var decls :- Declare(types[1..], names);
      KeepsNothingIff(types, names);
      var params :- Describe(Declared(decls), FindAll(member, "parameteritem"), refs);
      NoParamsIff(decls, params);
      var block := ParamBlock(Names(decls), params);
      var details :- Details(member, refs);
      var ret :- ReturnDoc(types[0], FindAll(member, "simplesect"), refs);
      Ok(MemberDetail(details, block, ret))
  }
}
