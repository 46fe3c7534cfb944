/** The parameter half of `parse_detailed_desc`: declared names paired
    with declared types, `void` dropped, descriptions attached from the
    documented parameter items, and the `\param` block rendered. */
module Parameters {
  import opened Outcomes
  import opened Tree
  import opened Escaping
  import opened Strings
  import opened References
  import opened Translate
  import opened Seqs

  /** A declared parameter: a `declname` and the type paired with it. */
  datatype Decl = Decl(name: string, declType: string)

  /** What is known of a kept parameter: its type and, once documented,
      its rendered description. */
  datatype Param = Param(declType: string, desc: Option<string>)

  type ParamMap = map<string, Param>

  /** The canonical block of a callable without parameters. */
  const NoParams: string := "\\param{void}{}{}"

  /** The declared type of every declaration, in order. */
  function DeclTypes(ds: seq<Decl>): seq<string> {
    Map(ds, (d: Decl) => d.declType)
  }

  /** The declarations the loop keeps: all those whose type is not exactly `void`. */
  function Kept(ds: seq<Decl>): (r: seq<Decl>)
    ensures forall d :: d in r <==> d in ds && d.declType != "void"
  {
    if |ds| == 0 then []
    else (if ds[0].declType == "void" then [] else [ds[0]]) + Kept(ds[1..])
  }

  /** The parameter loop: each `declname` takes the next type from the
      iterator (whose first element, the return type, was already taken),
      and `void`-typed pairs are skipped. It fails when the types run out
      first; otherwise it keeps exactly the non-`void` positional pairs. */
  function Declare(types: seq<string>, names: seq<string>): (r: Result<seq<Decl>>)
    ensures r.Ok? <==> |types| >= |names|
    ensures r.Err? ==> r.error == MissingType
    ensures r.Ok? ==> r.value == Kept(seq(|names|, i requires 0 <= i < |names| => Decl(names[i], types[i])))
  {
    if |names| == 0 then Ok([])
    else if |types| == 0 then Err(MissingType)
    else
      var rest :- Declare(types[1..], names[1..]);
      var pairs := seq(|names|, i requires 0 <= i < |names| => Decl(names[i], types[i]));
      assert pairs[1..] == seq(|names| - 1, i requires 0 <= i < |names| - 1 => Decl(names[1..][i], types[1..][i]));
      Ok(if types[0] == "void" then rest else [Decl(names[0], types[0])] + rest)
  }

  /** Keeping is an order-preserving filter: it distributes over concatenation. */
  lemma {:induction false} KeptAppend(a: seq<Decl>, b: seq<Decl>)
    ensures Kept(a + b) == Kept(a) + Kept(b)
  {
    if |a| == 0 {
      assert a + b == b;
    } else {
      assert (a + b)[0] == a[0];
      assert (a + b)[1..] == a[1..] + b;
      KeptAppend(a[1..], b);
    }
  }

  /** The parameter count is the declaration count less the `void` positions. */
  lemma {:induction false} KeptCount(ds: seq<Decl>)
    ensures |Kept(ds)| == |ds| - multiset(DeclTypes(ds))["void"]
  {
    if |ds| > 0 {
      var rest := ds[1..];
      var t := DeclTypes(rest);
      KeptCount(rest);
      assert DeclTypes(ds) == [ds[0].declType] + t;
      assert multiset(DeclTypes(ds))["void"] == multiset([ds[0].declType])["void"] + multiset(t)["void"];
      var head: seq<Decl> := if ds[0].declType == "void" then [] else [ds[0]];
      assert Kept(ds) == head + Kept(rest);
    }
  }

  /** The parameter map the loop builds: each kept name mapped to its type,
      a repeated name keeping its last type. */
  function Declared(ds: seq<Decl>): ParamMap
  {
    if |ds| == 0 then map[]
    else
      var d := ds[|ds| - 1];
      Declared(ds[..|ds| - 1])[d.name := Param(d.declType, None)]
  }

  /** The parameter order the loop builds: the kept names as declared. */
  function Names(ds: seq<Decl>): seq<string> {
    Map(ds, (d: Decl) => d.name)
  }

  /** The names are exactly the keys of the parameter map, and nothing is
      documented yet. */
  lemma {:induction false} DeclaredKeys(ds: seq<Decl>)
    ensures forall k :: k in Declared(ds) <==> k in Names(ds)
    ensures forall k :: k in Declared(ds) ==> Declared(ds)[k].desc.None?
  {
    if |ds| > 0 {
      var init := ds[..|ds| - 1];
      DeclaredKeys(init);
      assert Names(ds) == Names(init) + [ds[|ds| - 1].name];
    }
  }

  /** One documented parameter item: the text of its `parametername` and
      the rendering of the first `para` of its `parameterdescription`. */
  function ParamItem(item: Node, refs: RefTable): (r: Result<(string, string)>)
    ensures r.Ok? <==> Find(item, "parametername").Some? && Find(item, "parameterdescription").Some?
                       && Find(Find(item, "parameterdescription").value, "para").Some?
                       && Render(Find(Find(item, "parameterdescription").value, "para").value, refs).Ok?
    ensures r.Ok? ==> r.value.0 == TextContent(Find(item, "parametername").value)
                      && r.value.1 == Render(Find(Find(item, "parameterdescription").value, "para").value, refs).value
  {
    var nameNode :- FindOr(item, "parametername");
    var descNode :- FindOr(item, "parameterdescription");
    var para :- FindOr(descNode, "para");
    var desc :- Render(para, refs);
    Ok((TextContent(nameNode), desc))
  }

  /** `params[name]["desc"] = desc`: a name that was never declared (or was
      declared `void`) is a lookup failure; otherwise that parameter gains
      the description and nothing else changes. */
  function SetDesc(params: ParamMap, name: string, desc: string): (r: Result<ParamMap>)
    ensures name !in params ==> r == Err(MissingKey(name))
    ensures name in params ==> r.Ok? && r.value.Keys == params.Keys
                               && r.value[name] == Param(params[name].declType, Some(desc))
                               && forall k :: k in params && k != name ==> r.value[k] == params[k]
  {
    if name in params then Ok(params[name := params[name].(desc := Some(desc))])
    else Err(MissingKey(name))
  }

  /** The parameter-item loop over already parsed items: the first failing
      item aborts, and each name/description pair sets that parameter's
      description. On success every item named a declared parameter, the
      keys and types are untouched, and the last item's description is the
      one its parameter keeps. */
  function Annotate(params: ParamMap, parsed: seq<Result<(string, string)>>): (r: Result<ParamMap>)
    ensures r.Ok? ==> r.value.Keys == params.Keys
    ensures r.Ok? ==> forall k :: k in params ==> r.value[k].declType == params[k].declType
    ensures r.Ok? ==> forall i :: 0 <= i < |parsed| ==> parsed[i].Ok? && parsed[i].value.0 in params
    ensures r.Ok? && |parsed| > 0 ==>
              var last := parsed[|parsed| - 1].value;
              r.value[last.0].desc == Some(last.1)
  {
    if |parsed| == 0 then Ok(params)
    else
      var item :- parsed[0];
      var next :- SetDesc(params, item.0, item.1);
      var r :- Annotate(next, parsed[1..]);
      assert forall i :: 1 <= i < |parsed| ==> parsed[i] == parsed[1..][i - 1];
      Ok(r)
  }

  /** The description the LAST item naming `k` gives it, read from the
      end of the items; `None` when no item names `k`. */
  function LastDesc(parsed: seq<Result<(string, string)>>, k: string): Option<string>
  {
    if |parsed| == 0 then None
    else
      var last := parsed[|parsed| - 1];
      if last.Ok? && last.value.0 == k then Some(last.value.1)
      else LastDesc(parsed[..|parsed| - 1], k)
  }

  /** A description found later, or else the one already known. */
  function OrElse(later: Option<string>, known: Option<string>): Option<string> {
    if later.Some? then later else known
  }

  /** Reading the items from the front: the last naming of `k` is the one
      after the first item if there is one, else the first item's. */
  lemma {:induction false} LastDescCons(parsed: seq<Result<(string, string)>>, k: string)
    requires |parsed| > 0
    ensures LastDesc(parsed, k)
            == OrElse(LastDesc(parsed[1..], k),
                      if parsed[0].Ok? && parsed[0].value.0 == k then Some(parsed[0].value.1) else None)
  {
    var n := |parsed|;
    if n == 1 {
      assert parsed[1..] == [];
      assert parsed[..0] == [];
    } else {
      var init := parsed[..n - 1];
      assert parsed[1..][..n - 2] == init[1..];
      assert parsed[1..][n - 2] == parsed[n - 1];
      assert init[0] == parsed[0];
      LastDescCons(init, k);
    }
  }

  /** Every declared parameter ends with the description of the last item
      naming it, and keeps the description it had when no item names it. */
  lemma {:induction false} AnnotateDescs(params: ParamMap, parsed: seq<Result<(string, string)>>)
    ensures Annotate(params, parsed).Ok? ==>
              forall k :: k in params ==>
                Annotate(params, parsed).value[k].desc == OrElse(LastDesc(parsed, k), params[k].desc)
  {
    if |parsed| > 0 && Annotate(params, parsed).Ok? {
      var item := parsed[0].value;
      var next := SetDesc(params, item.0, item.1).value;
      assert Annotate(params, parsed) == Annotate(next, parsed[1..]);
      AnnotateDescs(next, parsed[1..]);
      forall k | k in params
        ensures Annotate(params, parsed).value[k].desc == OrElse(LastDesc(parsed, k), params[k].desc)
      {
        LastDescCons(parsed, k);
      }
    }
  }

  /** The first parsed item naming an undeclared parameter stops the loop
      with a lookup failure on its name. */
  lemma {:induction false} AnnotateUndeclared(params: ParamMap, parsed: seq<Result<(string, string)>>, i: nat)
    requires i < |parsed|
    requires forall j :: 0 <= j <= i ==> parsed[j].Ok?
    requires forall j :: 0 <= j < i ==> parsed[j].value.0 in params
    requires parsed[i].value.0 !in params
    ensures Annotate(params, parsed) == Err(MissingKey(parsed[i].value.0))
  {
    var item := parsed[0].value;
    if i > 0 {
      var next := SetDesc(params, item.0, item.1).value;
      assert forall j :: 0 <= j < |parsed| - 1 ==> parsed[1..][j] == parsed[j + 1];
      AnnotateUndeclared(next, parsed[1..], i - 1);
    }
  }

  /** How one `parameteritem` is read with the table `refs`. */
  function ItemParser(refs: RefTable): Node -> Result<(string, string)> {
    item => ParamItem(item, refs)
  }

  /** The parameter-item loop, items in document order. On success every
      item named a declared parameter, the keys and types are untouched,
      each parameter carries the description of the last item naming it,
      and a parameter no item names keeps the description it had. */
  function Describe(params: ParamMap, items: seq<Node>, refs: RefTable): (r: Result<ParamMap>)
    ensures r.Ok? ==> r.value.Keys == params.Keys
    ensures r.Ok? ==> forall k :: k in params ==> r.value[k].declType == params[k].declType
    ensures r.Ok? ==> forall i :: 0 <= i < |items| ==>
                        ParamItem(items[i], refs).Ok? && ParamItem(items[i], refs).value.0 in params
    ensures r.Ok? && |items| > 0 ==>
              var last := ParamItem(items[|items| - 1], refs).value;
              r.value[last.0].desc == Some(last.1)
    ensures r.Ok? ==> forall k :: k in params ==>
                        r.value[k].desc == OrElse(LastDesc(Map(items, ItemParser(refs)), k), params[k].desc)
  {
    var parsed := Map(items, ItemParser(refs));
    assert forall i :: 0 <= i < |items| ==> parsed[i] == ParamItem(items[i], refs);
    AnnotateDescs(params, parsed);
    Annotate(params, parsed)
  }

  /** The first documented parameter that was never declared stops the
      loop with a lookup failure on its name. */
  lemma UndeclaredParameterFails(params: ParamMap, items: seq<Node>, refs: RefTable, i: nat)
    requires i < |items|
    requires forall j :: 0 <= j <= i ==> ParamItem(items[j], refs).Ok?
    requires forall j :: 0 <= j < i ==> ParamItem(items[j], refs).value.0 in params
    requires ParamItem(items[i], refs).value.0 !in params
    ensures Describe(params, items, refs) == Err(MissingKey(ParamItem(items[i], refs).value.0))
  {
    AnnotateUndeclared(params, Map(items, ItemParser(refs)), i);
  }

  /** `generate_param_string`: one `\param{type}{name}{description}` line,
      type and name escaped, a missing or blank description becoming `\todo`. */
  function ParamLine(name: string, p: Param): (r: string)
    ensures EndsLine(r)
    ensures p.desc.None? || AllSpace(p.desc.value) ==>
              r == "\\param{" + Escape(p.declType) + "}{" + Escape(name) + "}{" + "\\todo" + "}\n"
    ensures p.desc.Some? && !AllSpace(p.desc.value) ==>
              r == "\\param{" + Escape(p.declType) + "}{" + Escape(name) + "}{" + Strip(p.desc.value) + "}\n"
  {
    var desc := match p.desc case Some(d) => d case None => "";
    StripEmptyIff(desc);
    assert p.desc.None? || AllSpace(p.desc.value) ==> TodoIfEmpty(Strip(desc)) == "\\todo";
    assert p.desc.Some? && !AllSpace(p.desc.value) ==> TodoIfEmpty(Strip(desc)) == Strip(p.desc.value);
    "\\param{" + Escape(p.declType) + "}{" + Escape(name) + "}{" + TodoIfEmpty(Strip(desc)) + "}\n"
  }

  /** The line of one named parameter of the map. */
  function LineOf(params: ParamMap): string -> string {
    name => if name in params then ParamLine(name, params[name]) else ""
  }

  /** The lines of the parameters in `order`, one after another; a
      non-empty run of lines ends a line. */
  function ParamLines(order: seq<string>, params: ParamMap): (r: string)
    requires forall k :: k in order ==> k in params
    ensures |order| > 0 ==> EndsLine(r)
  {
    var lines := Map(order, LineOf(params));
    assert |order| > 0 ==> lines[|order| - 1] == ParamLine(order[|order| - 1], params[order[|order| - 1]]);
    Concat(lines)
  }

  /** The lines follow the declaration order: they distribute over splitting it. */
  lemma ParamLinesAppend(a: seq<string>, b: seq<string>, params: ParamMap)
    requires forall k :: k in a + b ==> k in params
    ensures ParamLines(a + b, params) == ParamLines(a, params) + ParamLines(b, params)
  {
    var line := LineOf(params);
    MapAppend(a, b, line);
    ConcatAppend(Map(a, line), Map(b, line));
  }

  /** The `\param` block: the canonical no-parameter block when the map is
      empty, else one line per parameter in declaration order. */
  function ParamBlock(order: seq<string>, params: ParamMap): (r: string)
    requires forall k :: k in order ==> k in params
    ensures |params| == 0 ==> r == NoParams
    ensures |order| > 0 ==> (r == NoParams <==> |params| == 0)
    ensures |order| > 0 ==> (EndsLine(r) <==> |params| > 0)
  {
    if |params| == 0 then NoParams else ParamLines(order, params)
  }

  /** The no-parameter block is produced exactly when no parameter was kept. */
  lemma NoParamsIff(ds: seq<Decl>, params: ParamMap)
    requires params.Keys == Declared(ds).Keys
    ensures forall k :: k in Names(ds) ==> k in params
    ensures ParamBlock(Names(ds), params) == NoParams <==> ds == []
  {
    DeclaredKeys(ds);
    if ds != [] {
      assert Names(ds)[0] in params;
      assert EndsLine(ParamLines(Names(ds), params));
      assert !EndsLine(NoParams);
    }
  }
}
