# Doxygen XML to LaTeX: a Dafny model of the seL4 manual's API translator

The seL4 manual generates the documentation of its system calls from the
XML that doxygen emits for the libsel4 headers. The translator
(`manual/tools/parse_doxygen_xml.py`, class `LatexGenerator`) walks one
parsed XML document and, for every `memberdef`, emits an `\apidoc{...}`
LaTeX block. The block holds:

- the member's manual label and name;
- its brief description;
- its prototype;
- one `\param` line per non-`void` parameter;
- the return-value documentation;
- the free-text details.

Cross-references inside paragraphs become `\apifunc{name}{label}`. They are
looked up in a table built from every member's id and name.

This project models that translator as pure functions over an immutable
tree and proves what it promises.

- `Tree` models the parsed document. A node is a text leaf or an element with
  a tag, attributes and children. It also gives BeautifulSoup's `find`
  (first descendant, pre-order), `find_all` (all descendants, pre-order),
  `find_all(recursive=False)` (direct children), `tag[attr]`, `.string` and
  `get_text()`.
- `Outcomes` turns every exception the Python can raise on malformed
  input into an explicit `Result` error. The error kinds are:
  - a missing dictionary key;
  - a missing attribute;
  - a `find` that found nothing and was then used;
  - the type iterator running dry;
  - the last word of a blank return type.

  The Python's evaluation order is kept, so the error returned is the
  first one raised.
- `Strings` holds Python's `str.isspace`, `strip`, `split()[-1]`, `join`
  and `todo_if_empty`.
- `Escaping` holds `text_escape` with the LaTeX escape table (`_` becomes
  `\_`).
- `Translate` holds the node dispatch `parse_para` / `parse_recurse` with
  the LaTeX parse table, including the lists.
- `References` holds `build_ref_dict`, `ref_format` and
  `ref_to_format` / `nref_to_format`.
- `Parameters` holds the parameter half of `parse_detailed_desc`,
  `generate_param_string` and `generate_empty_param_string`.
- `Descriptions` holds the details, the return documentation,
  `parse_prototype`, `parse_brief` and the whole of `parse_detailed_desc`.
- `Assemble` holds `generate_api_doc` and the body of
  `generate_general_syscall_doc` after parsing.

Where the two differ, the model follows the code rather than the prose
documentation. The code's documentation says `todo_if_empty` yields
"TODO", but the LaTeX generator's override yields `\todo`. The model uses
`\todo`.

## Model

| member | source | states |
|---|---|---|
| Escaping.Escape | manual/tools/parse_doxygen_xml.py:55-60 | Each underscore becomes `\_` and nothing else changes: the output is one character longer per underscore, and a string without underscores is returned unchanged. |
| Escaping.UnescapeEscape | manual/tools/parse_doxygen_xml.py:256-258 | Escaping with the single-entry table loses no information: reading `\_` back as `_` recovers the input exactly. |
| Escaping.EscapeIdentityIff | manual/tools/parse_doxygen_xml.py:55-60 | Escaping leaves a string unchanged if and only if it contains no underscore. |
| Escaping.EscapeAppend | manual/tools/parse_doxygen_xml.py:59-60 | The substitution works character by character, so escaping a concatenation is the concatenation of the escapings. |
| Tree.StringOfIsTextContent | manual/tools/parse_doxygen_xml.py:73-76 | Whichever branch `get_text` takes on a tag, it reads the same text: when `.string` is present it equals the concatenated text of the subtree. |
| Tree.FindInIsFirstOfFindAll | manual/tools/parse_doxygen_xml.py:163-164 | `find` returns the first element `find_all` would list, or nothing when the list is empty. |
| Tree.Attr | manual/tools/parse_doxygen_xml.py:189 | An attribute read succeeds exactly when the node is an element carrying that attribute, and then yields its value. Otherwise it fails with a missing-attribute error naming the attribute. |
| Translate.Render | manual/tools/parse_doxygen_xml.py:119-131 | A missing-key failure can only come from a lookup in a non-empty table, and only for a key absent from it. With the empty table no reference can fail. |
| Translate.RenderSeq | manual/tools/parse_doxygen_xml.py:111-117 | Rendering a run of children with the empty table never fails on a lookup, and a lookup failure is always for a key absent from the table. |
| Translate.RenderSeqAppend | manual/tools/parse_doxygen_xml.py:111-117 | The children of a paragraph are rendered in order and concatenated; the earlier child's failure wins. Splitting the children anywhere gives the same result. |
| Translate.PlainTextRendersEscaped | manual/tools/parse_doxygen_xml.py:126-127 | A paragraph of plain text leaves renders as the escaped concatenation of its text. |
| Translate.TextLeafRoundTrip | manual/tools/parse_doxygen_xml.py:126-127 | A text leaf always renders, and its rendering reads back as the leaf's own text. |
| Translate.DispatchBasics | manual/tools/parse_doxygen_xml.py:260-269 | Four rules:<br>• A text leaf is its escaped text.<br>• A tag outside the parse table renders as the empty string.<br>• `para` renders as its children in order.<br>• `errorenumdesc` renders as `\errorenumdesc`. |
| Translate.DispatchSpans | manual/tools/parse_doxygen_xml.py:262-268 | A code span is its escaped text in `\texttt`. `texttt` is its escaped `text` attribute in `\texttt`, `shortref` is `\ref{sec:…}` of its `sec`, `obj` is `\obj` of its `name`, and `autoref` is `\autoref` of its `label`. Each fails with a missing-attribute error naming the attribute when it is absent. |
| Translate.SimpleInlineRenders | manual/tools/parse_doxygen_xml.py:111-131 | A paragraph made only of text, code spans and unhandled tags always renders. The result is what each node shows on its own, concatenated in order: escaped text, the code span in `\texttt`, or nothing. |
| Translate.DispatchList | manual/tools/parse_doxygen_xml.py:287-294 | An `orderedlist` renders its children between `\begin{enumerate}` and `\end{enumerate}` lines, and an `itemizedlist` between `\begin{itemize}` and `\end{itemize}` lines. A failing child fails the list. |
| Translate.DispatchListItem | manual/tools/parse_doxygen_xml.py:267 | A `listitem` renders as `\item `, then its first descendant paragraph, then a line break. An item without a paragraph is a missing-element failure. |
| Translate.DispatchReferences | manual/tools/parse_doxygen_xml.py:88-98 | `ref` and `nameref` render as nothing when the table is empty. Otherwise they look up their `refid` or `name` attribute and render the `\apifunc` found there. |
| References.MemberEntry | manual/tools/parse_doxygen_xml.py:219-227 | One member's entry succeeds exactly when it has a `name`, a `manual` child with a `label`, and an `id`. The entry carries the id, the name exactly as read (the key the table files it under), its escaped form and the label. |
| References.MemberEntries | manual/tools/parse_doxygen_xml.py:219 | Members are read in document order, one entry each. Any failure comes from some member that cannot be read. |
| References.BuildRefTable | manual/tools/parse_doxygen_xml.py:212-232 | A document without members gives the empty table. Otherwise the table has at most two keys per member. |
| References.TableKeys | manual/tools/parse_doxygen_xml.py:229-230 | The keys of the table are exactly the members' ids and raw names. |
| References.TableLastWins | manual/tools/parse_doxygen_xml.py:229-230 | A key leads to the descriptor of the last member filed under it: later insertions overwrite earlier ones. |
| References.Table | manual/tools/parse_doxygen_xml.py:218-231 | The table has at most two keys per member, and the last member's id and raw name are always keys, the name leading to that member's descriptor. |
| References.TableDistinct | manual/tools/parse_doxygen_xml.py:229-230 | When all ids and names differ, N members give exactly 2N keys. Each member's id and name both lead to its own descriptor. |
| References.RefByIdOrName | manual/tools/parse_doxygen_xml.py:281-285 | When no two members share an id or a name, referring to a member by its id (`ref`) and by its name (`nameref`) renders the same `\apifunc`, the one built from that member's descriptor. |
| References.RefToFormat | manual/tools/parse_doxygen_xml.py:88-98 | With an empty table a reference renders as nothing without reading its attribute. Otherwise:<br>• a missing attribute fails;<br>• a present one is looked up;<br>• any missing-key failure is for a key absent from the table. |
| Parameters.Kept | manual/tools/parse_doxygen_xml.py:156-157 | A declaration is kept if and only if it is one of the input declarations and its type is not exactly `void`. |
| Parameters.Declare | manual/tools/parse_doxygen_xml.py:147-159 | The parameter loop succeeds exactly when there is a type for every name after the return type; otherwise the iterator runs dry. It pairs the i-th name with the (i+1)-th type and keeps exactly the non-`void` pairs, in order. |
| Parameters.KeptAppend | manual/tools/parse_doxygen_xml.py:154-159 | The `void` filter preserves declaration order: it distributes over concatenation. |
| Parameters.KeptCount | manual/tools/parse_doxygen_xml.py:154-159 | The number of parameters equals the number of declarations minus the number of `void` positions. |
| Parameters.DeclaredKeys | manual/tools/parse_doxygen_xml.py:158-159 | The names in the parameter order are exactly the keys of the parameter map, and no parameter has a description yet. |
| Parameters.ParamItem | manual/tools/parse_doxygen_xml.py:163-167 | An item is read exactly when it has a `parametername`, a `parameterdescription` with a `para`, and that paragraph renders. It then yields the text of the `parametername` and the rendering of that paragraph. |
| Parameters.SetDesc | manual/tools/parse_doxygen_xml.py:169 | Setting a description of an undeclared name is a missing-key failure on that name. Otherwise only that parameter's description changes; the keys and every other entry are untouched. |
| Parameters.Describe | manual/tools/parse_doxygen_xml.py:161-169 | On success:<br>• every item named a declared parameter;<br>• the keys and types are unchanged;<br>• every parameter ends with the description of the last item naming it, and a parameter no item names keeps its own. |
| Parameters.AnnotateDescs | manual/tools/parse_doxygen_xml.py:162-169 | Filing the read items one by one leaves each parameter with the description of the last item naming it, or its own when no item names it. |
| Parameters.UndeclaredParameterFails | manual/tools/parse_doxygen_xml.py:169 | The first documented parameter that was never declared, or was declared `void`, stops the loop with a missing-key failure on its name. |
| Parameters.ParamLine | manual/tools/parse_doxygen_xml.py:299-304 | A parameter's entry is `\param{type}{name}{description}` and a line break, with the type and name escaped. The description is `\todo` when it is missing or all whitespace, and otherwise it is stripped. |
| Parameters.ParamLines | manual/tools/parse_doxygen_xml.py:174-177 | A non-empty parameter order produces text that ends a line. |
| Parameters.ParamLinesAppend | manual/tools/parse_doxygen_xml.py:175-177 | The `\param` lines follow the declaration order: they distribute over splitting it. |
| Parameters.ParamBlock | manual/tools/parse_doxygen_xml.py:171-177 | With no parameters the block is the canonical `\param{void}{}{}`. With a non-empty order it is that canonical block exactly when there are no parameters, and it ends with a line break exactly when there are some. |
| Parameters.NoParamsIff | manual/tools/parse_doxygen_xml.py:171-177 | The block is the canonical `\param{void}{}{}` exactly when no parameter was kept. |
| Strings.StripIsMiddle | manual/tools/parse_doxygen_xml.py:192 | `strip()` returns a middle slice of its input whose cut-off margins are all whitespace. |
| Strings.StripEmptyIff | manual/tools/parse_doxygen_xml.py:192 | A string strips to nothing if and only if it is all whitespace. |
| Strings.StripIdempotent | manual/tools/parse_doxygen_xml.py:192 | Stripping twice removes nothing more. |
| Strings.Strip | manual/tools/parse_doxygen_xml.py:192 | The stripped string neither starts nor ends with whitespace. |
| Strings.StripTrimmed | manual/tools/parse_doxygen_xml.py:192 | A string that neither starts nor ends with whitespace strips to itself. |
| Strings.LastWord | manual/tools/parse_doxygen_xml.py:186 | `split()[-1]` is absent exactly when the string is blank, which is the IndexError. Otherwise it is a non-empty run without whitespace. That run ends the right-stripped string and is preceded there by whitespace or by nothing. |
| Strings.TodoIfEmpty | manual/tools/parse_doxygen_xml.py:296-297 | The result is never empty. Non-empty input is returned unchanged, and empty input becomes `\todo`. |
| Strings.Join | manual/tools/parse_doxygen_xml.py:138 | A join of at least one part opens with the first part. |
| Strings.JoinAppend | manual/tools/parse_doxygen_xml.py:138 | Joining two non-empty lists is joining each and putting the separator between them, so the parts appear in order. |
| Descriptions.FreeText | manual/tools/parse_doxygen_xml.py:180-181 | A paragraph contributes to the details if and only if no `parameterlist` occurs anywhere inside it. |
| Descriptions.FreeTextAppend | manual/tools/parse_doxygen_xml.py:180-181 | Keeping the paragraphs without a `parameterlist` preserves their order and repetitions: it distributes over concatenation. |
| Descriptions.RenderDetails | manual/tools/parse_doxygen_xml.py:179-183 | When the details render, every paragraph rendered, and the text is at least two characters per paragraph (each paragraph is followed by a blank line). |
| Descriptions.RenderDetailsAppend | manual/tools/parse_doxygen_xml.py:180-183 | The details follow paragraph order, each paragraph followed by a blank line: they distribute over splitting the paragraphs. |
| Descriptions.Details | manual/tools/parse_doxygen_xml.py:179-183 | The details are never empty; a member without `detaileddescription` fails. The result is the stripped rendering, or `\todo` exactly when the rendering is all whitespace. |
| Descriptions.FirstReturn | manual/tools/parse_doxygen_xml.py:187-191 | The scan finds the first section of kind `return`. Every section before it has a `kind` that is not `return`, and a failure means some section lacks `kind`. |
| Descriptions.FirstReturnIgnoresLater | manual/tools/parse_doxygen_xml.py:188-191 | Once a return section is found, the sections after it do not matter. |
| Descriptions.ReturnDoc | manual/tools/parse_doxygen_xml.py:185-192 | The return documentation is never empty. A blank return type fails with the IndexError even when a return section exists, because the default is computed first. |
| Descriptions.DefaultReturnDoc | manual/tools/parse_doxygen_xml.py:271-279 | The implied documentation is `\noret` if and only if the type word is `void`, and empty otherwise. |
| Descriptions.DefaultReturnIff | manual/tools/parse_doxygen_xml.py:271-279 | Without a return section the documentation is `\noret` if and only if the return type's last word is `void`; otherwise it is `\todo`. |
| Descriptions.ExplicitReturnOverrides | manual/tools/parse_doxygen_xml.py:187-192 | When there is a return section, its paragraph, stripped and with `\todo` for nothing, replaces the default whatever the return type. |
| Descriptions.Prototype | manual/tools/parse_doxygen_xml.py:194-210 | The prototype exists exactly when `inline`, `static`, `type` and `name` are all present. It is the escaped type and name separated by a space. `inline ` is added when `inline` is `yes` and `static ` when `static` is `yes`, so the qualifiers always read `static inline`. |
| Descriptions.RenderAll | manual/tools/parse_doxygen_xml.py:138 | Each paragraph's rendering is kept at its own position. With the empty table no rendering fails on a lookup. |
| Descriptions.Brief | manual/tools/parse_doxygen_xml.py:133-138 | The brief is rendered without a table, so it never fails on a lookup. A member without `briefdescription` fails with a missing-element error. |
| Descriptions.KeepsNothingIff | manual/tools/parse_doxygen_xml.py:154-159 | The loop keeps no parameter if and only if every type paired with a name is `void`. |
| Descriptions.ParseDetailedDesc | manual/tools/parse_doxygen_xml.py:140-192 | Details and return documentation are never empty. A member without any `type` fails at the return type. The parameter block is `\param{void}{}{}` if and only if every declared parameter is `void`. |
| Assemble.Block | manual/tools/parse_doxygen_xml.py:311-321 | Every block opens with a line break, `\apidoc` and the heading level. |
| Assemble.BlockLayout | manual/tools/parse_doxygen_xml.py:311-321 | After the heading, the block holds the label, the escaped manual name, the brief (or `\todo`), the prototype, the parameter block, the return documentation and the details in that order. Each field sits in its own braces on its own line, joined by `}\n{`, and the block ends with a line break and eight spaces. |
| Assemble.ApiDoc | manual/tools/parse_doxygen_xml.py:309-330 | A block is produced exactly when the `manual` element with its `label` and `name`, the brief and the prototype can all be read. It then opens with the block heading. |
| Assemble.Intro | manual/tools/parse_doxygen_xml.py:345-348 | The top-level description is rendered without a table, so it never fails on a lookup. |
| Assemble.MemberBlock | manual/tools/parse_doxygen_xml.py:354-357 | A successfully generated member block starts a new line. |
| Assemble.MemberDocs | manual/tools/parse_doxygen_xml.py:354-358 | When the loop over at least one member succeeds, its output starts with the first member's block, so it opens with a line break. |
| Assemble.MemberDocsAppend | manual/tools/parse_doxygen_xml.py:354-358 | The members' blocks follow document order: the loop distributes over splitting the members, and the earlier failure wins. |
| Assemble.MembersInOrder | manual/tools/parse_doxygen_xml.py:354-358 | The output of member `i` lies between the output of the members before it and that of the members after it. |
| Assemble.GenerateDoc | manual/tools/parse_doxygen_xml.py:339-358 | The output is exactly `No methods.` if and only if the document has no `memberdef`. |
| Assemble.NoMembersGivesSentinel | manual/tools/parse_doxygen_xml.py:342-352 | Without members the output is exactly `No methods.`. It fails exactly when the compound or its top-level description cannot be read, because both are read before the member count is checked. |

## Left out

- Reading the file, lxml/BeautifulSoup parsing, argument handling and the
  command-line entry point. The model starts from an already parsed tree.
  Comments, processing instructions and other non-element, non-text nodes are
  not represented.
- `get_text` on plain strings (the `str` and `six.string_types` branches).
  The model escapes strings directly, which is what those branches do.
- The base `Generator` class's placeholder policy (empty formats, "TODO").
  Only the LaTeX generator is modelled, with its inherited tags listed in
  one table.
- The regular-expression machinery of `text_escape`. With the single-key
  LaTeX table it is a per-character substitution, which is how it is modelled.
- Text-node subclasses of BeautifulSoup other than plain text. A text leaf
  is always rendered through `get_text` with escaping.
- `parse_para`'s mutable default `ref_dict={}`. The translator never
  mutates it, so it is modelled as the empty table.
- The unused `manual_node` read at the top of the member loop. It has no
  effect, even on members without `manual`.
- The interleaving of the member loop. The model computes every member's
  block and then chains the results. That is the same as the Python's loop
  because each step is pure and the first failure is returned either way.
- Unicode beyond the code points `str.isspace` treats as whitespace;
  strings are sequences of code points, with no encoding.
- Python 2. The script runs under both Python versions through `six`, and
  the model follows Python 3's `str`: text is code points, and `str()`,
  `strip()` and `split()` work on them. Under Python 2, `str()` of
  non-ASCII text and `strip()` on byte strings behave differently. That
  behaviour is not modelled.
