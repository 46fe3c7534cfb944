/** The reference table: every documented member filed under both its id
    and its raw name, and the `\apifunc` cross-references looked up in it. */
module References {
  import opened Outcomes
  import opened Tree
  import opened Escaping

  /** What a reference resolves to: the escaped display name, the manual
      label and the member id. */
  datatype Ref = Ref(name: string, manualLabel: string, id: string)

  type RefTable = map<string, Ref>

  /** One member's contribution to the table: the two keys it is filed
      under and the descriptor both keys lead to. */
  datatype Entry = Entry(id: string, rawName: string, ref: Ref)

  predicate Files(e: Entry, k: string) {
    k == e.id || k == e.rawName
  }

  /** `str(member.find('name').string)`: Python renders an absent `.string` as "None". */
  function NameString(n: Node): string {
    match StringOf(n)
    case Some(s) => s
    case None => "None"
  }

  /** The entry of one `memberdef`: its `name` text, its `manual` child's
      `label` and its own `id`, looked up in that order. */
  function MemberEntry(member: Node): (r: Result<Entry>)
    ensures r.Ok? <==> Find(member, "name").Some? && Find(member, "manual").Some?
                       && "label" in Find(member, "manual").value.attrs
                       && member.Element? && "id" in member.attrs
    ensures r.Ok? ==> r.value.id == member.attrs["id"] == r.value.ref.id
                      && r.value.rawName == NameString(Find(member, "name").value)
                      && r.value.ref.name == Escape(r.value.rawName)
                      && r.value.ref.manualLabel == Find(member, "manual").value.attrs["label"]
  {
    var nameNode :- FindOr(member, "name");
    var name := NameString(nameNode);
    var manual :- FindOr(member, "manual");
    var manualLabel :- Attr(manual, "label");
    var id :- Attr(member, "id");
    Ok(Entry(id, name, Ref(Escape(name), manualLabel, id)))
  }

  /** The entries of all members in document order; the first malformed
      member aborts the scan. */
  function MemberEntries(members: seq<Node>): (r: Result<seq<Entry>>)
    ensures r.Ok? ==> |r.value| == |members|
                      && forall i :: 0 <= i < |members| ==> MemberEntry(members[i]) == Ok(r.value[i])
    ensures r.Err? ==> exists i :: 0 <= i < |members| && MemberEntry(members[i]).Err?
  {
    if |members| == 0 then Ok([])
    else
      var e :- MemberEntry(members[0]);
      var rest :- MemberEntries(members[1..]);
      assert forall i :: 1 <= i < |members| ==> members[i] == members[1..][i - 1];
      Ok([e] + rest)
  }

  /** The table the entries build when inserted in order, id key first,
      each insertion overwriting earlier values of the same key. It holds
      at most two keys per entry, and the last entry's name, inserted
      last of all, always leads to that entry's descriptor. */
  function Table(es: seq<Entry>): (r: RefTable)
    ensures |r| <= 2 * |es|
    ensures |es| > 0 ==> var e := es[|es| - 1]; e.id in r && e.rawName in r && r[e.rawName] == e.ref
  {
    if |es| == 0 then map[]
    else
      var e := es[|es| - 1];
      Table(es[..|es| - 1])[e.id := e.ref][e.rawName := e.ref]
  }

  /** `build_ref_dict`: the table of every `memberdef` in the document. */
  function BuildRefTable(root: Node): (r: Result<RefTable>)
    ensures FindAll(root, "memberdef") == [] ==> r == Ok(map[])
    ensures r.Ok? ==> |r.value| <= 2 * |FindAll(root, "memberdef")|
  {
    var es :- MemberEntries(FindAll(root, "memberdef"));
    Ok(Table(es))
  }

  /** Exactly the ids and raw names of the members are keys of the table. */
  lemma {:induction false} TableKeys(es: seq<Entry>, k: string)
    ensures k in Table(es) <==> exists i :: 0 <= i < |es| && Files(es[i], k)
  {
    if |es| > 0 {
      var init := es[..|es| - 1];
      TableKeys(init, k);
      if exists i :: 0 <= i < |init| && Files(init[i], k) {
        var i :| 0 <= i < |init| && Files(init[i], k);
        assert Files(es[i], k);
      }
      if exists i :: 0 <= i < |es| && Files(es[i], k) {
        var i :| 0 <= i < |es| && Files(es[i], k);
        if i < |init| {
          assert Files(init[i], k);
        }
      }
    }
  }

  /** A key leads to the descriptor of the LAST member filed under it:
      a later member with the same name overwrites the earlier one. */
  lemma {:induction false} TableLastWins(es: seq<Entry>, i: nat, k: string)
    requires i < |es| && Files(es[i], k)
    requires forall j :: i < j < |es| ==> !Files(es[j], k)
    ensures k in Table(es) && Table(es)[k] == es[i].ref
  {
    var last := es[|es| - 1];
    if i < |es| - 1 {
      var init := es[..|es| - 1];
      assert !Files(last, k);
      assert forall j :: i < j < |init| ==> init[j] == es[j];
      TableLastWins(init, i, k);
    }
  }

  /** No two keys among all the members' ids and names coincide. */
  predicate DistinctKeys(es: seq<Entry>) {
    && (forall i, j :: 0 <= i < |es| && 0 <= j < |es| ==> es[i].id != es[j].rawName)
    && (forall i, j :: 0 <= i < j < |es| ==> es[i].id != es[j].id && es[i].rawName != es[j].rawName)
  }

  /** With all ids and names distinct, N members file exactly 2N keys, and
      a member's id and name lead to the same, its own, descriptor. */
  lemma {:induction false} TableDistinct(es: seq<Entry>)
    requires DistinctKeys(es)
    ensures |Table(es)| == 2 * |es|
    ensures forall i :: 0 <= i < |es| ==>
              es[i].id in Table(es) && es[i].rawName in Table(es)
              && Table(es)[es[i].id] == Table(es)[es[i].rawName] == es[i].ref
  {
    if |es| > 0 {
      var init := es[..|es| - 1];
      var e := es[|es| - 1];
      assert DistinctKeys(init);
      TableDistinct(init);
      TableKeys(init, e.id);
      TableKeys(init, e.rawName);
      var t := Table(init);
      assert e.id !in t && e.rawName !in t && e.id != e.rawName;
      assert |t[e.id := e.ref]| == |t| + 1;
      assert |t[e.id := e.ref][e.rawName := e.ref]| == |t| + 2;
      forall i | 0 <= i < |es|
        ensures es[i].id in Table(es) && es[i].rawName in Table(es)
                && Table(es)[es[i].id] == Table(es)[es[i].rawName] == es[i].ref
      {
        if i < |es| - 1 {
          assert es[i] == init[i];
        }
      }
    }
  }

  /** The `\apifunc` cross-reference to a descriptor. */
  function ApiFunc(r: Ref): string {
    "\\apifunc{" + r.name + "}{" + r.manualLabel + "}"
  }

  /** `ref_format`: the cross-reference filed under `key`; an absent key is
      the lookup failure. */
  function RefFormat(key: string, refs: RefTable): (r: Result<string>)
    ensures key in refs ==> r == Ok(ApiFunc(refs[key]))
    ensures key !in refs ==> r == Err(MissingKey(key))
  {
    if key in refs then Ok(ApiFunc(refs[key])) else Err(MissingKey(key))
  }

  /** `ref_to_format` / `nref_to_format`: with an empty table a reference
      renders as nothing, without even reading its key attribute; otherwise
      the attribute `keyAttr` is looked up in the table. */
  function RefToFormat(n: Node, keyAttr: string, refs: RefTable): (r: Result<string>)
    ensures refs == map[] ==> r == Ok("")
    ensures refs != map[] && n.Element? && keyAttr in n.attrs ==>
              r == RefFormat(n.attrs[keyAttr], refs)
    ensures refs != map[] && !(n.Element? && keyAttr in n.attrs) ==>
              r.Err? && r.error.MissingAttribute?
    ensures IsMissingKey(r) ==> r.error.key !in refs
  {
    if |refs| > 0 then
      var key :- Attr(n, keyAttr);
      RefFormat(key, refs)
    else Ok("")
  }

  /** A member referred to by id (`ref`) and by name (`nameref`) renders
      the same `\apifunc` when no two ids and names coincide. */
  lemma RefByIdOrName(es: seq<Entry>, i: nat)
    requires DistinctKeys(es) && i < |es|
    ensures RefFormat(es[i].id, Table(es)) == RefFormat(es[i].rawName, Table(es)) == Ok(ApiFunc(es[i].ref))
  {
    TableDistinct(es);
  }
}
