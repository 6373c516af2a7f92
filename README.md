# lod_utils: the XML node tree and the CSV-to-XML converters, in Dafny

This project models two parts of the lod_utils repository and proves
properties of the models.

**The XML node tree (`kotlin/co/eft/xml/Node.kt`)**, module `XmlNode` in
`xml_node.dfy`.
- The sealed family of four node kinds becomes four classes (`Doc`, `Elem`,
  `Attr`, `Text`) and a `Node` datatype that wraps a reference to one of them.
- Equality of `Node` values is reference equality, as `==` on nodes is in the
  source.
- `Elem` keeps its `LinkedHashMap` as two fields: `attribNames`, the key order,
  and `attribs`, a map. `children` is a `seq<Node>`.
- The one-shot construction operations are methods. They return an
  `Outcome` error in place of the Kotlin exceptions:
  - the `docElement` setter;
  - `setAttribs`, a loop over the group that inserts item by item and empties
    the map again on the first duplicate or foreign attribute;
  - `setChildren`.
- The `set` operator is also a method.
- The query surface consists of functions. These are `attr`, `get`, `rem`,
  `allChildren`, the two `children` filters, and `div`/`times`, for a name and
  for `'#'`.
- The filters are one order-preserving `Select` over a `NameFilter`.
- Kotlin's `single()` is `Single`.

**The converters (`toh2xml/toh2xml.rb`)**, module `Toh2xml` in
`toh2xml.dfy`. The Ruby library behaviour they depend on is in module
`RubyCore` in `ruby_core.dfy`:
- `strip!`, which returns nil when there is nothing to strip;
- `chomp`;
- `split(',')`, which drops trailing empty fields;
- the quote-stripping `gsub`;
- `to_i`;
- `sort_by`;
- the insertion-ordered Hash.

Converter models:
- `TohConverter` is `Toh2xml`. Its `Style` field selects the render methods
  that `ForwardThinkingConverter` overrides.
- `HallowmasConverter` has its own line parser and render methods.
- Each class keeps the source's instance variables as fields.
- A CSV file is given as the sequence of its lines, each as `each_line`
  yields it. The XML file is the string `output` that the render methods
  append to.

How the model is built:
- Each line parser is also a pure function (`TohLine`, `HallowmasLine`), and
  the file loop is the fold `ReadLines`. It stops at the first line that
  raises, with the line counter naming that line.
- The methods are proved against these functions and against the text
  functions `XmlText` and `HallowmasXml`.
- Separate lemmas state what the functions promise: the fields a
  well-formed line stores, the invariants of the Hash, the order after the
  sort, and the line structure of each item.

Behaviour of the code as written, which the model keeps:
- **`strip!` on a bare last line.** `strip!` returns nil when the line has no
  white space to remove. A last line without a line break therefore ends the
  conversion with a `NoMethodError` (`TohLineOfBareLastLine`).
- **`@lines_out` is miscounted.**
  - The plain header writes two lines and counts three.
  - The ForwardThinking footer writes two lines and counts one.
  - The Hallowmas footer is the single-quoted `'</text-refs>\n'`, which writes
    a backslash and an `n` instead of a line break, yet counts one line.
  - `LinesOutMiscount` and `HallowmasLinesOutMiscount` state each difference
    exactly.
- **The output file name.** `sub(/.csv$/, '.xml')` replaces the leftmost match
  of the regular expression. Its `.` matches any character, not only a dot,
  so `"listcsv"` becomes `"lis.xml"` (`OutputNameOfCsv`).
- **`sort_by` is not stable.** Ruby promises only the same entries, keys in
  nondecreasing `to_i` order, and the same multiset of keys. The model sorts
  by insertion after the keys of equal rank, which keeps keys with the same
  `to_i` in their order in the Hash (`SortByKeyStable`): one of the orders
  Ruby may produce.

## Model

| member | source | states |
|---|---|---|
| XmlNode.IsRoot | kotlin/co/eft/xml/Node.kt:7-8 | a node is a root exactly when it is a document, the only kind with a null parent |
| XmlNode.Name | kotlin/co/eft/xml/Node.kt:96 | a Text node's name is always `#text` |
| XmlNode.Doc.constructor | kotlin/co/eft/xml/Node.kt:10-12 | a new document has its name and no document element |
| XmlNode.Doc.SetDocElement | kotlin/co/eft/xml/Node.kt:13-18 | assignment succeeds exactly when no element is stored and then stores the element; otherwise it fails with the under-construction error and keeps the stored element; the element's parent is not checked |
| XmlNode.Attr.constructor | kotlin/co/eft/xml/Node.kt:92 | an attribute keeps its parent, name and value |
| XmlNode.Text.constructor | kotlin/co/eft/xml/Node.kt:96 | a text node keeps its parent and value and is named `#text` |
| XmlNode.Elem.constructor | kotlin/co/eft/xml/Node.kt:21-23 | a new element has no attributes and no children, and satisfies the element invariant |
| XmlNode.CheckAttribs | kotlin/co/eft/xml/Node.kt:32-34 | the outcome of the `forEach`: the first item whose name is already taken fails with the duplicate error, the first whose parent is another node with the parent error; `CheckAttribsPass` and `CheckAttribsFirstFault` state its properties |
| XmlNode.CheckAttribsPass | kotlin/co/eft/xml/Node.kt:32-36 | the group is accepted exactly when its names are distinct and every attribute's parent is the element |
| XmlNode.CheckAttribsFirstFault | kotlin/co/eft/xml/Node.kt:32-34 | the first faulty item decides the error; for one item, the duplicate check comes before the parent check |
| XmlNode.InsertedNext | kotlin/co/eft/xml/Node.kt:35 | inserting a new, owned item extends the key order by its name and maps the name to the item |
| XmlNode.InsertedFault | kotlin/co/eft/xml/Node.kt:33-34 | the item the loop stops at on a duplicate or foreign parent is the one whose error decides the outcome of the whole group |
| XmlNode.Elem.SetAttribs | kotlin/co/eft/xml/Node.kt:25-42 | on a non-empty map: fails with the state error and changes nothing; otherwise the outcome is `CheckAttribs` of the group; on success the attributes in map order are the group in order; on failure the map is empty; children never change |
| XmlNode.Elem.SetChildren | kotlin/co/eft/xml/Node.kt:44-53 | on a non-empty list: fails with the state error and changes nothing; otherwise succeeds exactly when every node's parent is this element, leaving the children equal to the group; on failure the list stays empty |
| XmlNode.Lookup | kotlin/co/eft/xml/Node.kt:55 | reference lookup in an ordered group: None exactly when no attribute has the name, otherwise the value of an attribute with that name |
| XmlNode.LookupDistinct | kotlin/co/eft/xml/Node.kt:55 | with distinct names, each attribute is the one its name finds |
| XmlNode.Elem.Attributes | kotlin/co/eft/xml/Node.kt:22 | the map's attributes in key insertion order |
| XmlNode.Elem.AttrValue | kotlin/co/eft/xml/Node.kt:55 | `attr(n)` is the reference lookup of `n` in the attributes in map order |
| XmlNode.Elem.Get | kotlin/co/eft/xml/Node.kt:58 | `elem[n]` is the same lookup as `attr(n)` |
| XmlNode.Elem.Set | kotlin/co/eft/xml/Node.kt:60-63 | stores a fresh attribute of this element with the name and value, replacing any entry of that name in its place or appending a new key; returns the value; `attr(n)` then is the value; no seal check |
| XmlNode.Elem.Rem | kotlin/co/eft/xml/Node.kt:65 | `elem % n` is the value `attr(n)` finds, and fails with a null-pointer error exactly when there is none |
| XmlNode.Elem.AllChildren | kotlin/co/eft/xml/Node.kt:79-81 | every child, in the list's order |
| XmlNode.Select | kotlin/co/eft/xml/Node.kt:84 | the filtered child list is no longer than the list |
| XmlNode.SelectMembers | kotlin/co/eft/xml/Node.kt:83-89 | a node is selected exactly when it is in the list and its name passes the filter |
| XmlNode.SelectAppend | kotlin/co/eft/xml/Node.kt:84 | filtering distributes over concatenation, so the selection keeps the list's order |
| XmlNode.SelectExactly | kotlin/co/eft/xml/Node.kt:83-85 | selection by name holds exactly the nodes of that name |
| XmlNode.SelectMatching | kotlin/co/eft/xml/Node.kt:87-89 | selection by pattern holds exactly the nodes whose name matches |
| XmlNode.SelectNone | kotlin/co/eft/xml/Node.kt:67 | the selection is empty exactly when no position passes the filter |
| XmlNode.SelectTwo | kotlin/co/eft/xml/Node.kt:67 | the selection has two or more nodes exactly when two distinct positions pass the filter |
| XmlNode.SelectOnePosition | kotlin/co/eft/xml/Node.kt:84 | a non-empty selection comes from a position that passes the filter |
| XmlNode.SelectTwoPositions | kotlin/co/eft/xml/Node.kt:84 | a selection of two comes from two distinct positions that pass the filter |
| XmlNode.SelectBothPositions | kotlin/co/eft/xml/Node.kt:84 | two positions that pass the filter give a selection of at least two |
| XmlNode.Single | kotlin/co/eft/xml/Node.kt:67 | `single()` gives the element exactly when there is one, and otherwise the no-element error for none and the more-than-one error for two or more |
| XmlNode.Elem.ChildrenNamed | kotlin/co/eft/xml/Node.kt:83-85 | holds exactly the children whose name equals the given name |
| XmlNode.Elem.ChildrenMatching | kotlin/co/eft/xml/Node.kt:87-89 | holds exactly the children whose name the pattern matches |
| XmlNode.Elem.Div | kotlin/co/eft/xml/Node.kt:67 | fails with no-element exactly when no child has the name and with more-than-one exactly when two do; the only other failure is the cast; with exactly one child of the name, succeeds exactly when that child is an element, and then gives it |
| XmlNode.Elem.Times | kotlin/co/eft/xml/Node.kt:68 | is exactly `children(name)`: the children of the name, in order; the element cast is unchecked |
| XmlNode.Elem.DivChar | kotlin/co/eft/xml/Node.kt:70-73 | refuses any character but `#`; for `#`, fails with no-element exactly when no child is named `#text` and with more-than-one exactly when two are, the only other failure being the cast; with exactly one `#text` child, succeeds exactly when it is a Text, and then gives its value |
| XmlNode.Elem.TimesChar | kotlin/co/eft/xml/Node.kt:74-77 | refuses exactly the characters other than `#`; for `#`, is exactly `children("#text")` |
| RubyCore.Strip | toh2xml/toh2xml.rb:34 | stripping never lengthens the string |
| RubyCore.StripEnds | toh2xml/toh2xml.rb:34 | the stripped string is empty or has white space or NUL at neither end |
| RubyCore.StripBang | toh2xml/toh2xml.rb:34 | `strip!` returns nil exactly when the line is empty or neither end is white space or NUL; otherwise it gives the stripped line, which is shorter |
| RubyCore.StripUnchanged | toh2xml/toh2xml.rb:34 | stripping leaves a string unchanged exactly when neither end is white space or NUL |
| RubyCore.Chomp | toh2xml/toh2xml.rb:109 | `chomp` removes one trailing `\r\n`, `\n` or `\r` and nothing else, and changes the line exactly when it ends in one |
| RubyCore.ChompOfLine | toh2xml/toh2xml.rb:109 | `chomp` of a line ending in `\n` with no `\r` before it gives the line without its line break |
| RubyCore.Fields | toh2xml/toh2xml.rb:34 | the comma-separated fields are comma-free and join back to the line |
| RubyCore.FieldsOfJoin | toh2xml/toh2xml.rb:34 | comma-free fields joined by commas split back into exactly those fields |
| RubyCore.Split | toh2xml/toh2xml.rb:34 | `split(',')` is the field list with its trailing empty fields dropped |
| RubyCore.SplitOfFields | toh2xml/toh2xml.rb:34 | `split(',')` of comma-free fields joined by commas gives the fields with the trailing empty ones dropped |
| RubyCore.SplitOfJoin | toh2xml/toh2xml.rb:34 | comma-free fields whose last one is non-empty survive a join followed by `split(',')` |
| RubyCore.Unquote | toh2xml/toh2xml.rb:37 | the quote substitution never lengthens the field |
| RubyCore.UnquoteOfPlain | toh2xml/toh2xml.rb:37 | a field without a double quote is left as it is |
| RubyCore.UnquoteQuoted | toh2xml/toh2xml.rb:37 | the quote substitution removes exactly a leading quote with the white space before it and a trailing quote with the white space after it |
| RubyCore.UnquoteLeading | toh2xml/toh2xml.rb:37 | a leading quote with the white space before it is removed when no quote ends the field |
| RubyCore.UnquoteTrailing | toh2xml/toh2xml.rb:37 | a trailing quote with the white space after it is removed when no quote starts the field |
| RubyCore.UnquoteAll | toh2xml/toh2xml.rb:117 | the substitution is applied to every field, in order |
| RubyCore.DecimalValueOfNatString | toh2xml/toh2xml.rb:15 | a numeral's digits read back as its number |
| RubyCore.ToI | toh2xml/toh2xml.rb:15 | `to_i`: leading white space, a sign and a `0d` prefix are skipped and the leading digits read; `ToIOfSigned`, `ToIOfRadixPrefix`, `ToIOfDigits`, `ToIOfNatString` and `ToIWithoutLeadingDigit` state its values |
| RubyCore.ToIWithoutLeadingDigit | toh2xml/toh2xml.rb:15 | `to_i` is 0 when no digit follows the leading white space and sign, as in `toh` or `toh1` |
| RubyCore.ToIOfSigned | toh2xml/toh2xml.rb:15 | `to_i` of white space, an optional `-` or `+`, digits and text that cannot continue them is the value of the digits, negated after `-` |
| RubyCore.ToIOfRadixPrefix | toh2xml/toh2xml.rb:15 | the same with a `0d` or `0D` prefix before the digits |
| RubyCore.ToIOfNatString | toh2xml/toh2xml.rb:15 | `to_i` of a numeral followed by non-numeric text is that number |
| RubyCore.ToIOfDigits | toh2xml/toh2xml.rb:15 | `to_i` of a string that starts with a digit, and not with a `0d` or `0D` prefix, is the value of its leading digits |
| RubyCore.InsertBySorted | toh2xml/toh2xml.rb:15 | inserting a key into a sorted key list keeps it sorted |
| RubyCore.SortBy | toh2xml/toh2xml.rb:15 | sorting gives a permutation of the keys in nondecreasing rank |
| RubyCore.SortByKey | toh2xml/toh2xml.rb:15 | the sorted Hash has the same table, a permutation of the keys, keys in nondecreasing `to_i` order, and keeps the Hash invariant |
| RubyCore.WithRankInsertBy | toh2xml/toh2xml.rb:15 | an inserted key goes after the keys of its rank already in the sorted list |
| RubyCore.SortByStable | toh2xml/toh2xml.rb:15 | the keys of each rank come out of the sort in their input order |
| RubyCore.SortByKeyStable | toh2xml/toh2xml.rb:15 | keys with the same `to_i` keep their Hash order |
| RubyCore.Hash.Put | toh2xml/toh2xml.rb:42 | storing puts a new key last and leaves an existing key in place, and keeps the Hash invariant |
| Toh2xml.OutputName | toh2xml/toh2xml.rb:16 | the new name has the length of the old one, since the replacement is as long as the match |
| Toh2xml.OutputNameLeftmost | toh2xml/toh2xml.rb:16 | the leftmost match, and only it, is replaced by `.xml` |
| Toh2xml.OutputNameWithoutCsv | toh2xml/toh2xml.rb:16 | a name with no match is left as it is |
| Toh2xml.OutputNameOfCsv | toh2xml/toh2xml.rb:16 | a one-line name ending in any character and then `csv` has those four characters replaced by `.xml` |
| Toh2xml.ReadLines | toh2xml/toh2xml.rb:22-29 | without an exception every line is counted |
| Toh2xml.ReadLinesFailure | toh2xml/toh2xml.rb:26-28 | with an exception, the counter names a line of the file, and that line raises that error on the Hash it found |
| Toh2xml.TohLine | toh2xml/toh2xml.rb:31-43 | every error but the nil one carries the line number; success only adds entries and keeps the Hash invariant (a Valid Hash, distinct values, no `toh`/`id` pair) |
| Toh2xml.UnquoteOfQuoted | toh2xml/toh2xml.rb:37 | the substitution removes quotes put around a field |
| Toh2xml.StripBangOfLine | toh2xml/toh2xml.rb:34 | `strip!` on a line followed by white space gives exactly the line |
| Toh2xml.SplitOfQuotedPair | toh2xml/toh2xml.rb:34 | two quoted comma-free fields split into exactly those two |
| Toh2xml.TohLineOfQuotedPair | toh2xml/toh2xml.rb:31-43 | a well-formed line fails on a present key, then on a present value; it leaves the Hash alone for `toh`,`id` and stores the pair otherwise |
| Toh2xml.TohLineOfFields | toh2xml/toh2xml.rb:31-43 | a line of comma-free fields with no white space at its ends, then white space: fails with the format error exactly when the split does not give two fields; otherwise fails on a present key, then on a present value, skips `toh`,`id` and stores the unquoted pair |
| Toh2xml.TohLineOfPlainFields | toh2xml/toh2xml.rb:31-43 | the same for two fields without double quotes, which are stored as they stand |
| Toh2xml.TohLineOfTitle | toh2xml/toh2xml.rb:42 | the column-name line `toh,id` leaves the Hash alone |
| Toh2xml.TohLineOfTrailingEmpty | toh2xml/toh2xml.rb:34-42 | `1,W1,,` splits into two fields and stores `1` to `W1` |
| Toh2xml.TohLineOfThreeFields | toh2xml/toh2xml.rb:34-35 | `1,R1,W1,,` splits into three fields and fails with the format error on the stripped line |
| Toh2xml.TohLineOfBareLastLine | toh2xml/toh2xml.rb:34 | a line without a line break or surrounding white space ends in the nil error |
| Toh2xml.TohLinesKeep | toh2xml/toh2xml.rb:26-28 | parsing a run of lines only adds entries and keeps the Hash invariant |
| Toh2xml.TohConverter.constructor | toh2xml/toh2xml.rb:9-11 | a new converter has an empty Hash |
| Toh2xml.TohConverter.ConvertFile | toh2xml/toh2xml.rb:5-7 | a fresh converter run on the file: the outcome and counter of the fold; on success the sorted Hash, the output name, the XML text and the count |
| Toh2xml.TohConverter.Convert | toh2xml/toh2xml.rb:13-18 | the file is folded through `TohLine`; an exception leaves the output untouched; otherwise the Hash is sorted, the file name is the substituted input name, and the output is the header, the items in sorted order and the footer, with the matching `@lines_out` |
| Toh2xml.TohConverter.ParseCsvFile | toh2xml/toh2xml.rb:22-29 | records the file name; Hash, counter and outcome are those of the fold from a zero counter |
| Toh2xml.TohConverter.ParseCsvLine | toh2xml/toh2xml.rb:31-43 | the counter grows by one; the outcome and new Hash are those of `TohLine`, and an error leaves the Hash unchanged |
| Toh2xml.TohConverter.SortMap | toh2xml/toh2xml.rb:15 | the Hash is replaced by its sorted copy |
| Toh2xml.TohConverter.RenderXmlFile | toh2xml/toh2xml.rb:45-55 | a new output holding exactly the XML text of the Hash, and `@lines_out` after its entries |
| Toh2xml.TohConverter.RenderXmlItems | toh2xml/toh2xml.rb:50-52 | appends an item per key in the Hash's key order and adds the item count per entry |
| Toh2xml.TohConverter.RenderXmlHeader | toh2xml/toh2xml.rb:57-63 | appends the header of the style (the subclass's at lines 80-87) and adds 3 |
| Toh2xml.TohConverter.RenderXmlItem | toh2xml/toh2xml.rb:65-70 | appends the style's item (the subclass's one-line `<uri>` at lines 89-92) and adds 3, or 1 for the subclass |
| Toh2xml.TohConverter.RenderXmlFooter | toh2xml/toh2xml.rb:72-75 | appends the style's footer (the subclass's at lines 94-98) and adds 1 |
| Toh2xml.HeaderText | toh2xml/toh2xml.rb:57-63 | the header of the style: the XML declaration and `<lod>`, and for the subclass (lines 80-87) also the `<uris>` line, each followed by a line break; `HeaderLineBreaks` counts them |
| Toh2xml.ItemText | toh2xml/toh2xml.rb:65-70 | the item of the style: the three-line `<text>` element, or for the subclass (lines 89-92) the one-line `<uri>`; `ItemLineBreaks` counts them |
| Toh2xml.FooterText | toh2xml/toh2xml.rb:72-75 | the footer of the style: `</lod>`, or for the subclass (lines 94-98) `</uris>` and `</lod>`; `FooterLineBreaks` counts them |
| Toh2xml.ItemLineBreaks | toh2xml/toh2xml.rb:65-70 | an item of line-break-free fields writes as many lines as it adds to `@lines_out` |
| Toh2xml.ItemsLineBreaks | toh2xml/toh2xml.rb:50-52 | the items write the item count per entry |
| Toh2xml.HeaderLineBreaks | toh2xml/toh2xml.rb:57-63 | the plain header writes two lines, the subclass's three |
| Toh2xml.FooterLineBreaks | toh2xml/toh2xml.rb:72-75 | the plain footer writes one line, the subclass's two |
| Toh2xml.LinesOutMiscount | toh2xml/toh2xml.rb:57-98 | `@lines_out` is one more than the lines written in plain style and one less in the ForwardThinking style |
| Toh2xml.HallowmasLine | toh2xml/toh2xml.rb:108-124 | every error carries the line number; line 1 succeeds exactly when it is the header line and stores nothing; success only adds entries and keeps the invariant (each row five fields, stored under its first, never `idx`) |
| Toh2xml.ChompOfQuotedRow | toh2xml/toh2xml.rb:109 | `chomp` removes exactly the line break of a row of quoted fields |
| Toh2xml.QuotedRowFields | toh2xml/toh2xml.rb:117 | a row of quoted comma-free fields parses into exactly those fields |
| Toh2xml.HallowmasLineOfQuotedRow | toh2xml/toh2xml.rb:117-122 | a later row fails on a field count other than five, then on a present idx; a row whose idx is `idx` is skipped; otherwise the whole row is stored under its first field |
| Toh2xml.HallowmasLineOfFields | toh2xml/toh2xml.rb:108-124 | a later row of comma-free fields and a line break: fails with the format error exactly when the split does not give five fields; otherwise fails on a present idx, skips `idx` and stores the unquoted row under its first field |
| Toh2xml.HallowmasLineOfPlainFields | toh2xml/toh2xml.rb:117-122 | the same for fields without double quotes, which are stored as they stand |
| Toh2xml.HallowmasLineOfUnquoted | toh2xml/toh2xml.rb:117-122 | the row `1,R1,W1,T1,D1` is stored under `1` as its five fields |
| Toh2xml.HallowmasLineOfFourFields | toh2xml/toh2xml.rb:117-118 | the row `1,R1,W1,T1,,` splits into four fields and fails with the format error |
| Toh2xml.HallowmasLinesKeep | toh2xml/toh2xml.rb:120-122 | parsing a run of lines only adds entries and keeps the invariant |
| Toh2xml.HallowmasLinesWrongHeader | toh2xml/toh2xml.rb:112-115 | a file whose first line is not the header line fails on line 1 with that line |
| Toh2xml.RefLine | toh2xml/toh2xml.rb:137 | one `<ref>` line for a reference type and a value; `RefLinesOfRow` and `RefLinesLineBreaks` state its properties |
| Toh2xml.HallowmasItem | toh2xml/toh2xml.rb:134-141 | the opening `<text>` line, the `<ref>` lines and the closing line; `HallowmasItemLineBreaks` counts them |
| Toh2xml.RefLinesOfRow | toh2xml/toh2xml.rb:136-138 | a row's `<ref>` lines are one per reference type, in the order `bdrc-idx`, `rkts-work-id`, `bdrc-work-id`, `bdrc-tibetan-id`, `bdrc-derge-id`, each with the row's field at the same position |
| Toh2xml.RefLinesInOrder | toh2xml/toh2xml.rb:136-138 | the `<ref>` lines follow the reference types in their order |
| Toh2xml.RefLinesLineBreaks | toh2xml/toh2xml.rb:136-138 | `n` reference types write `n` lines |
| Toh2xml.HallowmasItemLineBreaks | toh2xml/toh2xml.rb:134-141 | an item writes the `2 + 5` lines it counts |
| Toh2xml.HallowmasItemsLineBreaks | toh2xml/toh2xml.rb:50-52 | the items write seven lines per entry |
| Toh2xml.HallowmasHeaderLineBreaks | toh2xml/toh2xml.rb:126-132 | the header writes the two lines it counts |
| Toh2xml.HallowmasFooterLineBreaks | toh2xml/toh2xml.rb:144 | the footer writes no line break |
| Toh2xml.HallowmasLinesOutMiscount | toh2xml/toh2xml.rb:143-146 | `@lines_out` is one more than the lines written |
| Toh2xml.HallowmasConverter.constructor | toh2xml/toh2xml.rb:9-11 | a new converter has an empty Hash |
| Toh2xml.HallowmasConverter.ConvertFile | toh2xml/toh2xml.rb:5-7 | a fresh converter run on the file: the fold's outcome and counter; on success the sorted Hash, the output name, the XML text and the count |
| Toh2xml.HallowmasConverter.Convert | toh2xml/toh2xml.rb:13-18 | as for the base class, with the Hallowmas line parser and text |
| Toh2xml.HallowmasConverter.ParseCsvFile | toh2xml/toh2xml.rb:22-29 | Hash, counter and outcome are those of the fold of `HallowmasLine` from a zero counter |
| Toh2xml.HallowmasConverter.ParseCsvLine | toh2xml/toh2xml.rb:108-124 | the counter grows by one; the outcome and new Hash are those of `HallowmasLine`, and an error leaves the Hash unchanged |
| Toh2xml.HallowmasConverter.SortMap | toh2xml/toh2xml.rb:15 | the Hash is replaced by its sorted copy |
| Toh2xml.HallowmasConverter.RenderXmlFile | toh2xml/toh2xml.rb:45-55 | a new output holding exactly the Hallowmas XML text of the Hash, and `@lines_out` of `2 + 7 * entries + 1` |
| Toh2xml.HallowmasConverter.RenderXmlItems | toh2xml/toh2xml.rb:50-52 | appends an item per key in order, adding 7 per entry |
| Toh2xml.HallowmasConverter.RenderXmlHeader | toh2xml/toh2xml.rb:126-132 | appends the header and adds 2 |
| Toh2xml.HallowmasConverter.RenderXmlItem | toh2xml/toh2xml.rb:134-141 | appends the opening line, a `<ref>` line per reference type with the row's field at its position, and the closing line; adds `2 + 5` |
| Toh2xml.HallowmasConverter.RenderXmlFooter | toh2xml/toh2xml.rb:143-146 | appends the backslash-n footer and adds 1 |

## Left out

- File I/O: `File.open`, `each_line` and writing to `out`. The model takes the lines as a parameter and builds the output as a string (toh2xml/toh2xml.rb:26, :48).
- The command-line block (toh2xml/toh2xml.rb:150-160): argument checks and `puts`. `HallowmasConverter.ConvertFile` is the conversion it runs.
- The Ruby subclassing is not modelled as inheritance. `ForwardThinkingConverter` is the `ForwardThinking` value of `Style`. `HallowmasConverter` is a class of its own that repeats the inherited `convert` and `parse_csv_file`.
- `toString` of `Attr` and `Text`: formatting only.
- The laziness and restartability of the returned `Iterable`s. Results are sequences.
- `co.eft.util.filter` is not part of this model. It is taken to be an order-preserving filter.
- Regular expressions:
  - `children(Regex)` takes a predicate on whole names;
  - the quote `gsub` and the `.csv$` `sub` are written as string functions.
- Changes made through the public `children` list or a cast of `attribs` from outside the class. Only the methods change an element.
- The unchecked generic casts, which have no run-time effect. A failed cast to `Elem` or `Text` is the `ClassCast` error.
- Exception messages: an error keeps its kind, the line number and the line, but not the message text.
- `@input_file_name`, `@lines_in` and the others start as the empty string or 0 rather than nil.
- RubyCore.SortByKey: the order of keys with equal `to_i` after the sort. Ruby's `sort_by` leaves it unspecified. The model sorts by stable insertion (`SortByKeyStable`), which is one of the orders Ruby may produce. `SortMap`, `Convert` and `ConvertFile` of both converters state the Hash and the XML text in that one order, so for tied keys the model writes one output Ruby may write, not every one.
- RubyCore.Unquote: stated for fields without line breaks, where `^` and `$` of the regular expression are the ends of the field. A line from `each_line` has a line break only at its end, and `strip!` or `chomp` removes it before splitting.
- XmlNode.Elem.ChildrenNamed: states membership in both directions. Order and repetition come from `Select`, about which `SelectAppend` states that order is kept.
- XmlNode.Elem.ChildrenMatching: the same as `ChildrenNamed`, for a pattern.
- XmlNode.Select: its own contract is a length bound only. Membership is in `SelectMembers`, order in `SelectAppend`, and counts in `SelectNone` and `SelectTwo`.
- Toh2xml.TohLine: states the error line number, the growth of the Hash and the invariant. What one line does is in `TohLineOfFields`, `TohLineOfPlainFields` and `TohLineOfQuotedPair`: they cover a line that is a join of comma-free fields, with no white space or NUL at either end, followed by white space. Other lines are covered by `TohLine`'s own contract only.
- Toh2xml.HallowmasLine: states the error line number, the header line, the growth of the Hash and the invariant. What one later row does is in `HallowmasLineOfFields` and `HallowmasLineOfQuotedRow`, for rows ending in `\n` with no `\r` before it.
