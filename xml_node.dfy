/** The in-memory XML node tree: a closed family of four node kinds
    (document, element, attribute, text), each holding a back-reference to
    its parent. A document's element and an element's attributes and
    children are each filled once during construction and then only
    queried. */
module XmlNode {
  import opened Wrappers

  /** The fixed name of every Text node; also the name `div('#')` and
      `times('#')` look for. */
  const TextName: string := "#text"

  /** The exceptions the tree raises, one per distinct failure condition. */
  datatype NodeError =
    | DocUnderConstruction             // IllegalArgumentException: docElement is already assigned
    | ElemUnderConstruction            // IllegalStateException: the collection is already populated
    | DuplicateAttribute(name: string) // IllegalArgumentException: a name repeats within the group
    | NotOwnAttr                       // IllegalArgumentException: an Attr whose parent is another node
    | NotOwnChildren                   // IllegalArgumentException: a child whose parent is another node
    | OnlyHashSupported                // IllegalArgumentException: div/times with a character other than '#'
    | NoSuchElement                    // single() on an empty selection
    | MoreThanOneElement               // single() on a selection of two or more
    | ClassCast                        // the single match is not of the expected node kind
    | NullPointer                      // `!!` on a missing attribute

  /** A reference to a node of one of the four kinds. Equality of two Node
      values is reference equality of the objects they wrap, as the source's
      `==` on nodes is (`equals` is not overridden). */
  datatype Node =
    | DocNode(doc: Doc)
    | ElemNode(elem: Elem)
    | AttrNode(attr: Attr)
    | TextNode(text: Text)

  /** The parent reference; None plays Kotlin's null. */
  function Parent(n: Node): Option<Node>
  {
    match n
    case DocNode(_) => None
    case ElemNode(e) => Some(e.parent)
    case AttrNode(a) => Some(a.parent)
    case TextNode(t) => Some(t.parent)
  }

  /** The structural name used by the child filters. */
  function Name(n: Node): (r: string)
    ensures n.TextNode? ==> r == TextName
  {
    match n
    case DocNode(d) => d.name
    case ElemNode(e) => e.name
    case AttrNode(a) => a.name
    case TextNode(t) => t.name
  }

  /** `isRoot`: the parent is null, which it is for a document and only for one. */
  function IsRoot(n: Node): (r: bool)
    ensures r <==> n.DocNode?
  {
    Parent(n).None?
  }

  /** Every node of the sequence has `owner` as its parent. */
  predicate OwnedBy(s: seq<Node>, owner: Node)
  {
    forall c | c in s :: Parent(c) == Some(owner)
  }

  class Doc {
    const name: string
    var docElement: Elem?

    constructor (name: string)
      ensures this.name == name && docElement == null
    {
      this.name := name;
      docElement := null;
    }

    /** The `docElement` setter: accepted only while no element is stored.
        The element's parent is not checked. */
    method SetDocElement(elem: Elem?) returns (r: Outcome<NodeError>)
      modifies this`docElement
      ensures r.Pass? <==> old(docElement) == null
      ensures r.Pass? ==> docElement == elem
      ensures r.Fail? ==> r.error == DocUnderConstruction && docElement == old(docElement)
    {
      if docElement != null {
        return Fail(DocUnderConstruction);
      }
      docElement := elem;
      r := Pass;
    }
  }

  class Attr {
    const parent: Node
    const name: string
    const value: string

    constructor (parent: Node, name: string, value: string)
      ensures this.parent == parent && this.name == name && this.value == value
    {
      this.parent := parent;
      this.name := name;
      this.value := value;
    }
  }

  class Text {
    const parent: Node
    const name: string := TextName
    const value: string

    constructor (parent: Node, value: string)
      ensures this.parent == parent && this.value == value && this.name == TextName
    {
      this.parent := parent;
      this.value := value;
    }
  }

  /** The names of a group of attributes, in order. */
  function Names(group: seq<Attr>): (r: seq<string>)
    ensures |r| == |group|
    ensures forall i | 0 <= i < |group| :: r[i] == group[i].name
  {
    seq(|group|, i requires 0 <= i < |group| => group[i].name)
  }

  /** What `setAttribs` reports for `group`, given the names `seen` already
      inserted: for each item in turn, a name already present is a
      duplicate, and otherwise a parent other than `owner` is a violation. */
  function CheckAttribs(group: seq<Attr>, owner: Node, seen: set<string>): Outcome<NodeError>
    decreases |group|
  {
    if group == [] then Pass
    else if group[0].name in seen then Fail(DuplicateAttribute(group[0].name))
    else if group[0].parent != owner then Fail(NotOwnAttr)
    else CheckAttribs(group[1..], owner, seen + {group[0].name})
  }

  /** Every attribute of the group has `owner` as its parent. */
  predicate AttrsOwnedBy(group: seq<Attr>, owner: Node)
  {
    forall i | 0 <= i < |group| :: group[i].parent == owner
  }

  /** `setAttribs` accepts a group exactly when its names are distinct (and
      none was seen before) and every attribute belongs to `owner`. */
  lemma {:induction false} CheckAttribsPass(group: seq<Attr>, owner: Node, seen: set<string>)
    ensures CheckAttribs(group, owner, seen) == Pass <==>
      Distinct(Names(group)) && Elements(Names(group)) !! seen && AttrsOwnedBy(group, owner)
  {
    if group != [] {
      var tail := group[1..];
      CheckAttribsPass(tail, owner, seen + {group[0].name});
      assert Names(group) == [group[0].name] + Names(tail);
      DistinctCons(group[0].name, Names(tail));
      assert Elements(Names(group)) == {group[0].name} + Elements(Names(tail));
      AttrsOwnedByCons(group, owner);
    }
  }

  /** Ownership of a non-empty group is ownership of its head and of its tail. */
  lemma AttrsOwnedByCons(group: seq<Attr>, owner: Node)
    requires group != []
    ensures AttrsOwnedBy(group, owner) <==> group[0].parent == owner && AttrsOwnedBy(group[1..], owner)
  {
    var tail := group[1..];
    if group[0].parent == owner && AttrsOwnedBy(tail, owner) {
      forall i | 0 < i < |group| ensures group[i].parent == owner {
        assert group[i] == tail[i - 1];
      }
    }
    if AttrsOwnedBy(group, owner) {
      forall i | 0 <= i < |tail| ensures tail[i].parent == owner {
        assert tail[i] == group[i + 1];
      }
    }
  }

  /** The first faulty item decides the error: when every earlier item is
      fine, an item whose name was already inserted fails as a duplicate
      (whatever its parent), and otherwise one with a foreign parent fails
      the ownership check. */
  lemma {:induction false} CheckAttribsFirstFault(group: seq<Attr>, owner: Node, seen: set<string>, i: nat)
    requires i < |group|
    requires Distinct(Names(group[..i])) && Elements(Names(group[..i])) !! seen && AttrsOwnedBy(group[..i], owner)
    ensures group[i].name in seen + Elements(Names(group[..i])) ==>
      CheckAttribs(group, owner, seen) == Fail(DuplicateAttribute(group[i].name))
    ensures group[i].name !in seen + Elements(Names(group[..i])) && group[i].parent != owner ==>
      CheckAttribs(group, owner, seen) == Fail(NotOwnAttr)
  {
    if i > 0 {
      var tail := group[1..];
      var pre := group[..i];
      var rest := tail[..i - 1];
      assert pre == [group[0]] + rest;
      assert Names(pre) == [group[0].name] + Names(rest);
      DistinctCons(group[0].name, Names(rest));
      assert Elements(Names(pre)) == {group[0].name} + Elements(Names(rest));
      AttrsOwnedByCons(pre, owner);
      assert pre[1..] == rest;
      CheckAttribsFirstFault(tail, owner, seen + {group[0].name}, i - 1);
      assert tail[i - 1] == group[i];
    }
  }

  /** The state of `setAttribs` after inserting the first `i` items of the
      group into the key order `names` and the map `attrs`. */
  ghost predicate InsertedPrefix(group: seq<Attr>, i: nat, names: seq<string>, attrs: map<string, Attr>, owner: Node)
  {
    && i <= |group|
    && names == Names(group[..i])
    && attrs.Keys == Elements(names)
    && Distinct(names)
    && (forall k | k in attrs :: attrs[k].name == k && attrs[k].parent == owner)
    && (forall j | 0 <= j < i :: group[j].name in attrs && attrs[group[j].name] == group[j])
    && CheckAttribs(group, owner, {}) == CheckAttribs(group[i..], owner, Elements(names))
  }

  /** Nothing is inserted yet. */
  lemma InsertedNone(group: seq<Attr>, owner: Node)
    ensures InsertedPrefix(group, 0, [], map[], owner)
  {
    assert group[..0] == [] && group[0..] == group;
    ElementsEmpty<string>([]);
  }

  /** An item that is new and belongs to `owner` is inserted. */
  lemma InsertedNext(group: seq<Attr>, i: nat, names: seq<string>, attrs: map<string, Attr>, owner: Node)
    requires InsertedPrefix(group, i, names, attrs, owner) && i < |group|
    requires group[i].name !in attrs && group[i].parent == owner
    ensures InsertedPrefix(group, i + 1, names + [group[i].name], attrs[group[i].name := group[i]], owner)
  {
    var a := group[i];
    assert group[i..][0] == a && group[i..][1..] == group[i + 1..];
    assert Elements(names + [a.name]) == Elements(names) + {a.name};
    assert Names(group[..i + 1]) == Names(group[..i]) + [a.name];
    DistinctSnoc(names, a.name);
    assert a.name !in names;
  }

  /** The first item that is a duplicate or foreign decides the outcome. */
  lemma InsertedFault(group: seq<Attr>, i: nat, names: seq<string>, attrs: map<string, Attr>, owner: Node)
    requires InsertedPrefix(group, i, names, attrs, owner) && i < |group|
    ensures group[i].name in attrs ==> CheckAttribs(group, owner, {}) == Fail(DuplicateAttribute(group[i].name))
    ensures group[i].name !in attrs && group[i].parent != owner ==> CheckAttribs(group, owner, {}) == Fail(NotOwnAttr)
  {
    assert group[i..][0] == group[i];
  }

  /** Once every item is inserted, the group passed and the map holds it. */
  lemma InsertedAll(group: seq<Attr>, names: seq<string>, attrs: map<string, Attr>, owner: Node)
    requires InsertedPrefix(group, |group|, names, attrs, owner)
    ensures CheckAttribs(group, owner, {}) == Pass
    ensures |names| == |group| && forall j | 0 <= j < |names| :: names[j] in attrs && attrs[names[j]] == group[j]
  {
    assert group[..|group|] == group && group[|group|..] == [];
  }

  /** Where the value of the attribute named `attrName` lies in an ordered
      group: the first such attribute, or None. */
  function Lookup(entries: seq<Attr>, attrName: string): (r: Option<string>)
    ensures r.None? <==> forall i | 0 <= i < |entries| :: entries[i].name != attrName
    ensures r.Some? ==> exists i | 0 <= i < |entries| :: entries[i].name == attrName && entries[i].value == r.value
  {
    if entries == [] then None
    else if entries[0].name == attrName then Some(entries[0].value)
    else
      var r := Lookup(entries[1..], attrName);
      assert forall i | 0 < i < |entries| :: entries[i] == entries[1..][i - 1];
      r
  }

  /** In a group with distinct names, each attribute is the one found under its name. */
  lemma {:induction false} LookupDistinct(entries: seq<Attr>, i: nat)
    requires Distinct(Names(entries)) && i < |entries|
    ensures Lookup(entries, entries[i].name) == Some(entries[i].value)
  {
    if i > 0 {
      assert Names(entries)[0] != Names(entries)[i];
      var tail := entries[1..];
      assert Distinct(Names(tail)) by {
        forall a, b | 0 <= a < b < |tail| ensures Names(tail)[a] != Names(tail)[b] {
          assert Names(tail)[a] == Names(entries)[a + 1];
          assert Names(tail)[b] == Names(entries)[b + 1];
        }
      }
      LookupDistinct(tail, i - 1);
    }
  }

  /** A filter on node names: an exact name (`children(String)`) or a
      whole-name pattern (`children(Regex)`, abstracted as a predicate). */
  datatype NameFilter = Exactly(name: string) | Matching(matches: string -> bool)

  predicate Accepts(f: NameFilter, n: string)
  {
    match f
    case Exactly(name) => n == name
    case Matching(matches) => matches(n)
  }

  /** The order-preserving filter over a child list. */
  function Select(s: seq<Node>, f: NameFilter): (r: seq<Node>)
    ensures |r| <= |s|
  {
    if s == [] then []
    else (if Accepts(f, Name(s[0])) then [s[0]] else []) + Select(s[1..], f)
  }

  /** The selection holds exactly the accepted nodes of the sequence. */
  lemma {:induction false} SelectMembers(s: seq<Node>, f: NameFilter)
    ensures forall x :: x in Select(s, f) <==> x in s && Accepts(f, Name(x))
  {
    if s != [] {
      SelectMembers(s[1..], f);
      assert forall x :: x in s <==> x == s[0] || x in s[1..];
    }
  }

  /** Filtering distributes over concatenation: the selection keeps the
      relative order of the nodes it keeps. */
  lemma {:induction false} SelectAppend(a: seq<Node>, b: seq<Node>, f: NameFilter)
    ensures Select(a + b, f) == Select(a, f) + Select(b, f)
  {
    if a == [] {
      assert a + b == b;
    } else {
      var head := if Accepts(f, Name(a[0])) then [a[0]] else [];
      assert (a + b)[0] == a[0];
      assert (a + b)[1..] == a[1..] + b;
      assert Select(a + b, f) == head + Select(a[1..] + b, f);
      assert Select(a, f) == head + Select(a[1..], f);
      SelectAppend(a[1..], b, f);
      assert head + (Select(a[1..], f) + Select(b, f)) == (head + Select(a[1..], f)) + Select(b, f);
    }
  }

  /** Some node of the sequence is accepted by the filter. */
  predicate OneAccepted(s: seq<Node>, f: NameFilter)
  {
    exists i | 0 <= i < |s| :: Accepts(f, Name(s[i]))
  }

  /** Two distinct positions of the sequence are accepted by the filter. */
  predicate TwoAccepted(s: seq<Node>, f: NameFilter)
  {
    exists i, j | 0 <= i < j < |s| :: Accepts(f, Name(s[i])) && Accepts(f, Name(s[j]))
  }

  /** Selecting by name keeps exactly the nodes of that name. */
  lemma SelectExactly(s: seq<Node>, name: string)
    ensures forall x | x in Select(s, Exactly(name)) :: x in s && Name(x) == name
    ensures forall x | x in s && Name(x) == name :: x in Select(s, Exactly(name))
  {
    SelectMembers(s, Exactly(name));
  }

  /** Selecting by pattern keeps exactly the nodes whose name matches. */
  lemma SelectMatching(s: seq<Node>, matches: string -> bool)
    ensures forall x | x in Select(s, Matching(matches)) :: x in s && matches(Name(x))
    ensures forall x | x in s && matches(Name(x)) :: x in Select(s, Matching(matches))
  {
    SelectMembers(s, Matching(matches));
  }

  /** The selection is empty exactly when no node is accepted. */
  lemma SelectNone(s: seq<Node>, f: NameFilter)
    ensures |Select(s, f)| == 0 <==> !OneAccepted(s, f)
  {
    if OneAccepted(s, f) {
      var i :| 0 <= i < |s| && Accepts(f, Name(s[i]));
      SelectMembers(s, f);
      assert s[i] in Select(s, f);
    }
  }

  /** The selection holds two or more nodes exactly when two distinct
      positions are accepted. */
  lemma {:induction false} SelectTwo(s: seq<Node>, f: NameFilter)
    ensures |Select(s, f)| >= 2 <==> TwoAccepted(s, f)
  {
    if TwoAccepted(s, f) {
      var i, j :| 0 <= i < j < |s| && Accepts(f, Name(s[i])) && Accepts(f, Name(s[j]));
      SelectBothPositions(s, f, i, j);
    }
    if |Select(s, f)| >= 2 {
      var i, j := SelectTwoPositions(s, f);
    }
  }

  /** Two accepted positions contribute two selected nodes. */
  lemma SelectBothPositions(s: seq<Node>, f: NameFilter, i: nat, j: nat)
    requires i < j < |s| && Accepts(f, Name(s[i])) && Accepts(f, Name(s[j]))
    ensures |Select(s, f)| >= 2
  {
    var a, b := s[..j], s[j..];
    assert a + b == s;
    SelectAppend(a, b, f);
    SelectMembers(a, f);
    SelectMembers(b, f);
    assert a[i] == s[i] && a[i] in a;
    assert |Select(a, f)| >= 1;
    assert b[0] == s[j] && b[0] in b;
    assert |Select(b, f)| >= 1;
  }

  /** A selected node comes from an accepted position. */
  lemma {:induction false} SelectOnePosition(s: seq<Node>, f: NameFilter) returns (i: nat)
    requires |Select(s, f)| >= 1
    ensures i < |s| && Accepts(f, Name(s[i]))
  {
    var tail := s[1..];
    assert |Select(s, f)| == (if Accepts(f, Name(s[0])) then 1 else 0) + |Select(tail, f)|;
    if Accepts(f, Name(s[0])) {
      i := 0;
    } else {
      var k := SelectOnePosition(tail, f);
      assert s[k + 1] == tail[k];
      i := k + 1;
    }
  }

  /** Two selected nodes come from two distinct accepted positions. */
  lemma {:induction false} SelectTwoPositions(s: seq<Node>, f: NameFilter) returns (i: nat, j: nat)
    requires |Select(s, f)| >= 2
    ensures i < j < |s| && Accepts(f, Name(s[i])) && Accepts(f, Name(s[j]))
  {
    var tail := s[1..];
    assert |Select(s, f)| == (if Accepts(f, Name(s[0])) then 1 else 0) + |Select(tail, f)|;
    if Accepts(f, Name(s[0])) {
      var k := SelectOnePosition(tail, f);
      assert s[k + 1] == tail[k];
      i, j := 0, k + 1;
    } else {
      var i', j' := SelectTwoPositions(tail, f);
      assert s[i' + 1] == tail[i'] && s[j' + 1] == tail[j'];
      i, j := i' + 1, j' + 1;
    }
  }

  /** Kotlin's `single()`: the one element, or the exception for none or many. */
  function Single(s: seq<Node>): (r: Result<Node, NodeError>)
    ensures r.Ok? <==> |s| == 1
    ensures r.Ok? ==> r.value == s[0]
    ensures r == Err(NoSuchElement) <==> |s| == 0
    ensures r == Err(MoreThanOneElement) <==> |s| >= 2
  {
    if |s| == 0 then Err(NoSuchElement)
    else if |s| > 1 then Err(MoreThanOneElement)
    else Ok(s[0])
  }

  class Elem {
    const parent: Node
    const name: string
    /** The attribute map, a LinkedHashMap: its keys in insertion order, and the map itself. */
    var attribNames: seq<string>
    var attribs: map<string, Attr>
    var children: seq<Node>

    /** The object invariant: the key order lists each key of the map once,
        every attribute is stored under its own name and belongs to this
        element, and so does every child. */
    ghost predicate Valid()
      reads this
    {
      && attribs.Keys == Elements(attribNames)
      && Distinct(attribNames)
      && (forall k | k in attribs :: attribs[k].name == k && attribs[k].parent == ElemNode(this))
      && OwnedBy(children, ElemNode(this))
    }

    constructor (parent: Node, name: string)
      ensures this.parent == parent && this.name == name
      ensures attribNames == [] && attribs == map[] && children == []
      ensures Valid()
    {
      this.parent := parent;
      this.name := name;
      attribNames := [];
      attribs := map[];
      children := [];
    }

    /** The attributes in the map's iteration order. */
    function Attributes(): (r: seq<Attr>)
      reads this
      requires Valid()
      ensures |r| == |attribNames|
      ensures forall i | 0 <= i < |r| :: attribNames[i] in attribs && r[i] == attribs[attribNames[i]]
    {
      var names, m := attribNames, attribs;
      seq(|names|, i requires 0 <= i < |names| && names[i] in m => m[names[i]])
    }

    /** `setAttribs`: accepted only on an empty map; inserts the group item
        by item and empties the map again when an item fails. */
    method SetAttribs(group: seq<Attr>) returns (r: Outcome<NodeError>)
      requires Valid()
      modifies this
      ensures Valid() && children == old(children)
      ensures old(attribs) != map[] ==>
        r == Fail(ElemUnderConstruction) && attribNames == old(attribNames) && attribs == old(attribs)
      ensures old(attribs) == map[] ==> r == CheckAttribs(group, ElemNode(this), {})
      ensures old(attribs) == map[] && r.Pass? ==> Attributes() == group
      ensures old(attribs) == map[] && r.Fail? ==> attribNames == [] && attribs == map[]
    {
      if attribs != map[] {
        return Fail(ElemUnderConstruction);
      }
      ElementsEmpty(attribNames);
      var owner := ElemNode(this);
      InsertedNone(group, owner);
      var i := 0;
      while i < |group|
        invariant 0 <= i <= |group| && InsertedPrefix(group, i, attribNames, attribs, owner)
        invariant children == old(children)
      {
        var a := group[i];
        InsertedFault(group, i, attribNames, attribs, owner);
        if a.name in attribs {
          attribs := map[];
          attribNames := [];
          return Fail(DuplicateAttribute(a.name));
        }
        if a.parent != owner {
          attribs := map[];
          attribNames := [];
          return Fail(NotOwnAttr);
        }
        InsertedNext(group, i, attribNames, attribs, owner);
        attribs := attribs[a.name := a];
        attribNames := attribNames + [a.name];
        i := i + 1;
      }
      InsertedAll(group, attribNames, attribs, owner);
      r := Pass;
    }

    /** `setChildren`: accepted only on an empty list, and only when every
        node of the group belongs to this element; nothing is appended
        otherwise. */
    method SetChildren(group: seq<Node>) returns (r: Outcome<NodeError>)
      requires Valid()
      modifies this
      ensures Valid() && attribNames == old(attribNames) && attribs == old(attribs)
      ensures old(children) != [] ==> r == Fail(ElemUnderConstruction) && children == old(children)
      ensures old(children) == [] ==> (r.Pass? <==> OwnedBy(group, ElemNode(this)))
      ensures old(children) == [] && r.Fail? ==> r.error == NotOwnChildren && children == []
      ensures r.Pass? ==> children == group
    {
      if children != [] {
        return Fail(ElemUnderConstruction);
      }
      if !OwnedBy(group, ElemNode(this)) {
        return Fail(NotOwnChildren);
      }
      children := children + group;
      r := Pass;
    }

    /** `attr(n)`: the value of the attribute named `n`, or None. */
    function AttrValue(attrName: string): (r: Option<string>)
      reads this
      requires Valid()
      ensures r == Lookup(Attributes(), attrName)
    {
      var entries := Attributes();
      assert Names(entries) == attribNames;
      if attrName in attribs then
        var i :| 0 <= i < |attribNames| && attribNames[i] == attrName;
        LookupDistinct(entries, i);
        Some(attribs[attrName].value)
      else
        None
    }

    /** The indexing operator `elem[n]`: the same lookup as `attr(n)`. */
    function Get(attrName: string): (r: Option<string>)
      reads this
      requires Valid()
      ensures r == AttrValue(attrName)
    {
      if attrName in attribs then Some(attribs[attrName].value) else None
    }

    /** The assignment operator `elem[n] = v`: stores a new attribute owned
        by this element, replacing any entry of that name in place (a
        LinkedHashMap keeps the position of an existing key), and returns
        `v`. It does not check whether the map is sealed. */
    method Set(attrName: string, attrValue: string) returns (r: string)
      requires Valid()
      modifies this
      ensures Valid() && children == old(children)
      ensures r == attrValue
      ensures attrName in attribs && fresh(attribs[attrName])
      ensures attribs[attrName].name == attrName && attribs[attrName].value == attrValue
      ensures attribs[attrName].parent == ElemNode(this)
      ensures attribs == old(attribs)[attrName := attribs[attrName]]
      ensures attribNames == if attrName in old(attribNames) then old(attribNames) else old(attribNames) + [attrName]
      ensures AttrValue(attrName) == Some(attrValue)
    {
      var a := new Attr(ElemNode(this), attrName, attrValue);
      if attrName !in attribNames {
        attribNames := attribNames + [attrName];
      }
      attribs := attribs[attrName := a];
      r := attrValue;
    }

    /** The operator `elem % n`: the value of the attribute named `n`, which
        must exist. */
    function Rem(attrName: string): (r: Result<string, NodeError>)
      reads this
      requires Valid()
      ensures r.Ok? <==> AttrValue(attrName).Some?
      ensures r.Ok? ==> AttrValue(attrName) == Some(r.value)
      ensures r.Err? ==> r.error == NullPointer
    {
      if attrName in attribs then Ok(attribs[attrName].value) else Err(NullPointer)
    }

    /** `allChildren()`: every child, in order. */
    function AllChildren(): (r: seq<Node>)
      reads this
      ensures r == children
    {
      children
    }

    /** `children(name)`: the children whose name equals `name`, in order. */
    function ChildrenNamed(childName: string): (r: seq<Node>)
      reads this
      ensures forall x | x in r :: x in children && Name(x) == childName
      ensures forall x | x in children && Name(x) == childName :: x in r
    {
      SelectExactly(children, childName);
      Select(children, Exactly(childName))
    }

    /** `children(regex)`: the children whose whole name the pattern matches, in order. */
    function ChildrenMatching(matches: string -> bool): (r: seq<Node>)
      reads this
      ensures forall x | x in r :: x in children && matches(Name(x))
      ensures forall x | x in children && matches(Name(x)) :: x in r
    {
      SelectMatching(children, matches);
      Select(children, Matching(matches))
    }

    /** The operator `elem / name`: the only child named `name`, which must
        be an element. */
    function Div(childName: string): (r: Result<Elem, NodeError>)
      reads this
      ensures r == Err(NoSuchElement) <==> forall i | 0 <= i < |children| :: Name(children[i]) != childName
      ensures r == Err(MoreThanOneElement) <==>
        exists i, j | 0 <= i < j < |children| :: Name(children[i]) == childName && Name(children[j]) == childName
      ensures r.Ok? ==> ElemNode(r.value) in children && r.value.name == childName
      ensures r.Err? ==> r.error in {NoSuchElement, MoreThanOneElement, ClassCast}
      ensures |ChildrenNamed(childName)| == 1 ==>
        (r.Ok? <==> ChildrenNamed(childName)[0].ElemNode?) &&
        (r.Ok? ==> ElemNode(r.value) == ChildrenNamed(childName)[0])
    {
      SelectNone(children, Exactly(childName));
      SelectTwo(children, Exactly(childName));
      match Single(ChildrenNamed(childName))
      case Ok(ElemNode(e)) => Ok(e)
      case Ok(_) => Err(ClassCast)
      case Err(e) => Err(e)
    }

    /** The operator `elem * name`: the children named `name`, cast unchecked
        to elements (the cast has no effect at run time). */
    function Times(childName: string): (r: seq<Node>)
      reads this
      ensures forall x | x in r :: x in children && Name(x) == childName
      ensures forall x | x in children && Name(x) == childName :: x in r
      ensures r == ChildrenNamed(childName)
    {
      ChildrenNamed(childName)
    }

    /** The operator `elem / '#'`: the value of the only child named
        `#text`, which must be a Text; any other character is refused. */
    function DivChar(ch: char): (r: Result<string, NodeError>)
      reads this
      ensures ch != '#' ==> r == Err(OnlyHashSupported)
      ensures ch == '#' ==>
        (r == Err(NoSuchElement) <==> forall i | 0 <= i < |children| :: Name(children[i]) != TextName)
      ensures ch == '#' ==>
        (r == Err(MoreThanOneElement) <==>
          exists i, j | 0 <= i < j < |children| :: Name(children[i]) == TextName && Name(children[j]) == TextName)
      ensures r.Ok? ==> exists i | 0 <= i < |children| :: children[i].TextNode? && children[i].text.value == r.value
      ensures ch == '#' && r.Err? ==> r.error in {NoSuchElement, MoreThanOneElement, ClassCast}
      ensures ch == '#' && |ChildrenNamed(TextName)| == 1 ==>
        (r.Ok? <==> ChildrenNamed(TextName)[0].TextNode?) &&
        (r.Ok? ==> r.value == ChildrenNamed(TextName)[0].text.value)
    {
      if ch != '#' then Err(OnlyHashSupported)
      else
        SelectNone(children, Exactly(TextName));
        SelectTwo(children, Exactly(TextName));
        match Single(ChildrenNamed(TextName))
        case Ok(TextNode(t)) =>
          assert TextNode(t) in children;
          Ok(t.value)
        case Ok(_) => Err(ClassCast)
        case Err(e) => Err(e)
    }

    /** The operator `elem * '#'`: the children named `#text`; any other
        character is refused. */
    function TimesChar(ch: char): (r: Result<seq<Node>, NodeError>)
      reads this
      ensures r.Err? <==> ch != '#'
      ensures r.Err? ==> r.error == OnlyHashSupported
      ensures r.Ok? ==> forall x | x in r.value :: x in children && Name(x) == TextName
      ensures r.Ok? ==> forall x | x in children && Name(x) == TextName :: x in r.value
      ensures r.Ok? ==> r.value == ChildrenNamed(TextName)
    {
      if ch != '#' then Err(OnlyHashSupported) else Ok(ChildrenNamed(TextName))
    }
  }

  /** The construction sequence of a small document, and what the query
      surface then reports about it. */
  method ScenarioOfSmallDocument()
  {
    var doc := new Doc("doc");
    var root := new Elem(DocNode(doc), "root");
    var r := doc.SetDocElement(root);
    assert r == Pass && doc.docElement == root;

    var id := new Attr(ElemNode(root), "id", "42");
    r := root.SetAttribs([id]);
    assert r == CheckAttribs([id], ElemNode(root), {}) == Pass;
    assert root.Attributes() == [id];
    assert root.AttrValue("id") == Some("42");
    assert root.AttrValue("missing") == None;

    r := root.SetAttribs([id]);
    assert r == Fail(ElemUnderConstruction);
    assert root.AttrValue("id") == Some("42");
    var other := new Elem(DocNode(doc), "other");
    r := doc.SetDocElement(other);
    assert r == Fail(DocUnderConstruction) && doc.docElement == root;
  }

  /** The children of an element, looked up by name, by the text marker
      and by the operators. */
  method ScenarioOfChildren()
  {
    var doc := new Doc("doc");
    var root := new Elem(DocNode(doc), "root");
    var hello := new Text(ElemNode(root), "hello");
    var child := new Elem(ElemNode(root), "child");
    var r := root.SetChildren([TextNode(hello), ElemNode(child)]);
    assert r == Pass && root.children == [TextNode(hello), ElemNode(child)];
    assert Select([ElemNode(child)], Exactly(TextName)) == [];
    assert Select([ElemNode(child)], Exactly("child")) == [ElemNode(child)];
    assert root.ChildrenNamed(TextName) == [TextNode(hello)];
    assert root.ChildrenNamed("child") == [ElemNode(child)];
    assert root.DivChar('#') == Ok("hello");
    assert root.Div("child") == Ok(child);
  }

  /** An empty group leaves a collection empty, so it is not sealed; a
      group of children that fails appends nothing. */
  method ScenarioOfEmptyGroups()
  {
    var doc := new Doc("doc");
    var root := new Elem(DocNode(doc), "root");
    var r := root.SetAttribs([]);
    assert r == Pass && root.attribs == map[];
    var id := new Attr(ElemNode(root), "id", "42");
    r := root.SetAttribs([id]);
    assert r == Pass && root.Attributes() == [id];
    r := root.SetChildren([]);
    assert r == Pass && root.children == [];
    var stranger := new Text(DocNode(doc), "hello");
    assert Parent(TextNode(stranger)) != Some(ElemNode(root));
    r := root.SetChildren([TextNode(stranger)]);
    assert r == Fail(NotOwnChildren) && root.children == [];
  }

  /** A group of attributes that fails leaves no attribute behind. */
  method ScenarioOfRollback()
  {
    var doc := new Doc("doc");
    var root := new Elem(DocNode(doc), "root");
    var stranger := new Attr(DocNode(doc), "lang", "bo");
    var r := root.SetAttribs([stranger]);
    assert r == Fail(NotOwnAttr) && root.attribs == map[];
    var id := new Attr(ElemNode(root), "id", "42");
    var dup := new Attr(ElemNode(root), "id", "43");
    assert CheckAttribs([dup], ElemNode(root), {"id"}) == Fail(DuplicateAttribute("id"));
    r := root.SetAttribs([id, dup]);
    assert r == Fail(DuplicateAttribute("id")) && root.attribs == map[];
  }

}
