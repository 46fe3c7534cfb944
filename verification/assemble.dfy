/** The document assembler: the top-level description, then one `\apidoc`
    block per member in document order, or the "No methods." sentinel. */
module Assemble {
  import opened Outcomes
  import opened Tree
  import opened Escaping
  import opened Strings
  import opened References
  import opened Translate
  import opened Descriptions
  import opened Seqs

  const NoMethods: string := "No methods."

  /** The opening of every member's block, carrying the heading level. */
  function BlockHead(level: string): string {
    "\n\\apidoc\n[{" + level + "}]\n{"
  }

  /** The `\apidoc` template filled in; it opens with the heading level. */
  function Block(level: string, manualLabel: string, manualName: string, brief: string,
                 prototype: string, d: MemberDetail): (r: string)
    ensures |BlockHead(level)| <= |r| && r[..|BlockHead(level)|] == BlockHead(level)
  {
    var tail := manualLabel + "}\n{" + Escape(manualName) + "}\n{" + TodoIfEmpty(brief)
                + "}\n{" + prototype + "}\n{" + d.params + "}\n{" + d.ret + "}\n{" + d.details + "}\n        ";
    var block := "\n\\apidoc\n[{" + level + "}]\n{" + tail;
    assert block == BlockHead(level) + tail;
    block
  }

  /** The template's fields in order after the heading: label, escaped
      manual name, brief (or `\todo`), prototype, parameters, return
      documentation and details, each in its own braces on its own line,
      closed by a line break and the template's eight trailing spaces. */
  lemma BlockLayout(level: string, manualLabel: string, manualName: string, brief: string,
                    prototype: string, d: MemberDetail)
    ensures Block(level, manualLabel, manualName, brief, prototype, d)
            == BlockHead(level)
               + Join([manualLabel, Escape(manualName), TodoIfEmpty(brief), prototype, d.params, d.ret, d.details], "}\n{")
               + "}\n        "
  {
    var sep := "}\n{";
    var fs := [manualLabel, Escape(manualName), TodoIfEmpty(brief), prototype, d.params, d.ret, d.details];
    assert fs[..1] == [manualLabel];
    assert fs[..2] == fs[..1] + [fs[1]];
    JoinSnoc(fs[..1], fs[1], sep);
    assert fs[..3] == fs[..2] + [fs[2]];
    JoinSnoc(fs[..2], fs[2], sep);
    assert fs[..4] == fs[..3] + [fs[3]];
    JoinSnoc(fs[..3], fs[3], sep);
    assert fs[..5] == fs[..4] + [fs[4]];
    JoinSnoc(fs[..4], fs[4], sep);
    assert fs[..6] == fs[..5] + [fs[5]];
    JoinSnoc(fs[..5], fs[5], sep);
    assert fs == fs[..6] + [fs[6]];
    JoinSnoc(fs[..6], fs[6], sep);
  }

  /** `generate_api_doc`: the `\apidoc` block of one member, from its
      `manual` label and name, brief, prototype and the extracted
      parameters, return documentation and details. It fails exactly when
      the `manual` element or its attributes, the brief or the prototype
      cannot be read. */
  function ApiDoc(level: string, member: Node, d: MemberDetail): (r: Result<string>)
    ensures r.Ok? <==> Find(member, "manual").Some?
                       && "label" in Find(member, "manual").value.attrs
                       && "name" in Find(member, "manual").value.attrs
                       && Brief(member).Ok? && Prototype(member).Ok?
    ensures r.Ok? ==> |BlockHead(level)| <= |r.value| && r.value[..|BlockHead(level)|] == BlockHead(level)
  {
    var manual :- FindOr(member, "manual");
    var manualLabel :- Attr(manual, "label");
    var manualName :- Attr(manual, "name");
    var brief :- Brief(member);
    var prototype :- Prototype(member);
    Ok(Block(level, manualLabel, manualName, brief, prototype, d))
  }

  /** The top-level description: the first `para` of each
      `detaileddescription` child of the compound, rendered without a
      reference table (so no lookup can fail), one after another. */
  function Intro(ddescs: seq<Node>): (r: Result<string>)
    ensures !IsMissingKey(r)
  {
    if |ddescs| == 0 then Ok("")
    else
      var head :- match Find(ddescs[0], "para")
                  case None => Ok("")
                  case Some(p) => Render(p, map[]);
      var tail :- Intro(ddescs[1..]);
      Ok(head + tail)
  }

  /** One iteration of the member loop: extract, then generate the block. */
  function MemberBlock(member: Node, refs: RefTable, level: string): (r: Result<string>)
    ensures r.Ok? ==> |r.value| > 0 && r.value[0] == '\n'
  {
    var d :- ParseDetailedDesc(member, refs);
    var block :- ApiDoc(level, member, d);
    assert block[0] == BlockHead(level)[0];
    Ok(block)
  }

  /** Results concatenated in order, the first failure winning. */
  function Chain(rs: seq<Result<string>>): (r: Result<string>)
    ensures r.Ok? ==> forall i :: 0 <= i < |rs| ==> rs[i].Ok?
    ensures r.Ok? && |rs| > 0 ==> |rs[0].value| <= |r.value| && r.value[..|rs[0].value|] == rs[0].value
  {
    if |rs| == 0 then Ok("")
    else
      var head :- rs[0];
      var tail :- Chain(rs[1..]);
      assert forall i :: 1 <= i < |rs| ==> rs[i] == rs[1..][i - 1];
      Ok(head + tail)
  }

  lemma {:induction false} ChainAppend(a: seq<Result<string>>, b: seq<Result<string>>)
    ensures Chain(a + b) == Then(Chain(a), Chain(b))
  {
    if |a| == 0 {
      assert a + b == b;
      var rb := Chain(b);
      if rb.Ok? {
        assert "" + rb.value == rb.value;
      }
    } else {
      assert (a + b)[0] == a[0];
      assert (a + b)[1..] == a[1..] + b;
      ChainAppend(a[1..], b);
      var ra, rb := Chain(a[1..]), Chain(b);
      if a[0].Ok? && ra.Ok? && rb.Ok? {
        assert a[0].value + (ra.value + rb.value) == (a[0].value + ra.value) + rb.value;
      }
    }
  }

  /** One iteration of the member loop as a step function. */
  function Step(refs: RefTable, level: string): Node -> Result<string> {
    member => MemberBlock(member, refs, level)
  }

  /** The member loop: for each member in order, its details are
      extracted and its block generated; the first failure aborts, and a
      successful loop over some members starts with the first one's block. */
  function MemberDocs(members: seq<Node>, refs: RefTable, level: string): (r: Result<string>)
    ensures r.Ok? && |members| > 0 ==> |r.value| > 0 && r.value[0] == '\n'
  {
    var rs := Map(members, Step(refs, level));
    var r := Chain(rs);
    assert r.Ok? && |members| > 0 ==>
             rs[0] == MemberBlock(members[0], refs, level) && r.value[0] == r.value[..|rs[0].value|][0];
    r
  }

  /** The blocks follow the document order of the members: the loop
      distributes over splitting the members. */
  lemma MemberDocsAppend(a: seq<Node>, b: seq<Node>, refs: RefTable, level: string)
    ensures MemberDocs(a + b, refs, level) == Then(MemberDocs(a, refs, level), MemberDocs(b, refs, level))
  {
    var step := Step(refs, level);
    MapAppend(a, b, step);
    ChainAppend(Map(a, step), Map(b, step));
  }

  lemma SentinelIsOneLine()
    ensures '\n' !in NoMethods
  {
  }

  /** `generate_general_syscall_doc` on an already parsed document: the
      reference table, then the top-level description, then either the
      sentinel (when there are no members, discarding the description) or
      the description followed by every member's block. The sentinel is
      returned exactly when the document has no members. */
  function GenerateDoc(root: Node, level: string): (r: Result<string>)
    ensures r.Ok? ==> (r.value == NoMethods <==> FindAll(root, "memberdef") == [])
  {
    var refs :- BuildRefTable(root);
    var members := FindAll(root, "memberdef");
    var summary :- FindOr(root, "compounddef");
    var intro :- Intro(ChildrenTagged(summary, "detaileddescription"));
    if |members| == 0 then Ok(NoMethods)
    else
      var docs :- MemberDocs(members, refs, level);
      SentinelIsOneLine();
      assert (intro + docs)[|intro|] == '\n';
      Ok(intro + docs)
  }

  /** A document without members yields exactly the sentinel, unless
      its compound or top-level description cannot be read: those are
      read before the member count is looked at. */
  lemma NoMembersGivesSentinel(root: Node, level: string)
    requires FindAll(root, "memberdef") == []
    ensures GenerateDoc(root, level).Ok? ==> GenerateDoc(root, level).value == NoMethods
    ensures GenerateDoc(root, level).Ok? <==>
              Find(root, "compounddef").Some?
              && Intro(ChildrenTagged(Find(root, "compounddef").value, "detaileddescription")).Ok?
  {
  }

  /** With members, the output is the top-level description followed by
      the members' blocks, one per member in document order: the block of
      member `i` sits between those of the members before and after it. */
  lemma MembersInOrder(members: seq<Node>, refs: RefTable, level: string, i: nat)
    requires i < |members|
    ensures MemberDocs(members, refs, level)
            == Then(MemberDocs(members[..i], refs, level),
                    Then(MemberBlock(members[i], refs, level), MemberDocs(members[i + 1..], refs, level)))
  {
    var before, here, after := members[..i], [members[i]], members[i + 1..];
    assert members == before + (here + after);
    MemberDocsAppend(before, here + after, refs, level);
    MemberDocsAppend(here, after, refs, level);
    SingleMember(members[i], refs, level);
  }

  /** The loop over one member is that member's block. */
  lemma SingleMember(member: Node, refs: RefTable, level: string)
    ensures MemberDocs([member], refs, level) == MemberBlock(member, refs, level)
  {
    var x := MemberBlock(member, refs, level);
    assert Map([member], Step(refs, level)) == [x];
    ChainSingle(x);
  }

  lemma ChainSingle(x: Result<string>)
    ensures Chain([x]) == x
  {
    assert [x][1..] == [];
    if x.Ok? {
      assert x.value + "" == x.value;
    }
  }
}
