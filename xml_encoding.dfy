/**
 * `transformToXml`: the DOM document built with `createElement`, `createTextNode` and
 * `appendChild`, and the element tree that results. Rendering the tree to text is left to the
 * `Transformer`, which the model treats as an opaque function of the tree.
 */
module XmlEncoding {

  import opened Wrappers
  import opened PolicyModel

  /** The element tree of a document: elements with ordered children, and text nodes. */
  datatype Node = Element(name: string, children: seq<Node>) | Text(data: Option<string>)

  /** A DOM node as the document stores it; an element's children are node handles. */
  datatype DomNode = ElementNode(tagName: string, childNodes: seq<nat>) | TextNode(data: Option<string>)

  /** Every child handle points at a node created after its parent. */
  ghost predicate WellFormed(nodes: seq<DomNode>)
  {
    forall i, k :: 0 <= i < |nodes| && nodes[i].ElementNode? && 0 <= k < |nodes[i].childNodes|
      ==> i < nodes[i].childNodes[k] < |nodes|
  }

  /** No element lists `id` among its children. */
  ghost predicate Detached(nodes: seq<DomNode>, id: nat)
  {
    forall i :: 0 <= i < |nodes| && nodes[i].ElementNode? ==> id !in nodes[i].childNodes
  }

  /** The tree rooted at node `id`. */
  function Subtree(nodes: seq<DomNode>, id: nat): Node
    requires WellFormed(nodes) && id < |nodes|
    decreases |nodes| - id, 1
  {
    match nodes[id]
    case TextNode(d) => Text(d)
    case ElementNode(name, cs) => Element(name, Children(nodes, id, cs))
  }

  /** The trees of the child handles `cs` of node `parent`, in order. */
  function Children(nodes: seq<DomNode>, parent: nat, cs: seq<nat>): seq<Node>
    requires WellFormed(nodes) && parent < |nodes|
    requires forall k :: 0 <= k < |cs| ==> parent < cs[k] < |nodes|
    decreases |nodes| - parent, 0, |cs|
  {
    if cs == [] then [] else Children(nodes, parent, cs[..|cs| - 1]) + [Subtree(nodes, cs[|cs| - 1])]
  }

  /** A DOM `Document`: its nodes, addressed by handle, and its single root element. */
  class Document {
    var nodes: seq<DomNode>
    var documentElement: Option<nat>

    ghost predicate Valid()
      reads this
    {
      && WellFormed(nodes)
      && (documentElement.Some? ==> documentElement.value < |nodes| && nodes[documentElement.value].ElementNode?)
    }

    /** `docBuilder.newDocument()`. */
    constructor ()
      ensures Valid() && nodes == [] && documentElement == None
    {
      nodes := [];
      documentElement := None;
    }

    /** `doc.createElement(name)`: a new, detached element. */
    method CreateElement(name: string) returns (id: nat)
      requires Valid()
      modifies this
      ensures Valid() && id == |old(nodes)| && Detached(nodes, id)
      ensures nodes == old(nodes) + [ElementNode(name, [])]
      ensures documentElement == old(documentElement)
    {
      id := |nodes|;
      nodes := nodes + [ElementNode(name, [])];
    }

    /** `doc.createTextNode(data)`: a new, detached text node. */
    method CreateTextNode(data: Option<string>) returns (id: nat)
      requires Valid()
      modifies this
      ensures Valid() && id == |old(nodes)| && Detached(nodes, id)
      ensures nodes == old(nodes) + [TextNode(data)]
      ensures documentElement == old(documentElement)
    {
      id := |nodes|;
      nodes := nodes + [TextNode(data)];
    }

    /** `doc.appendChild(root)`: the document's single element child. */
    method AppendDocumentElement(root: nat)
      requires Valid() && documentElement.None?
      requires root < |nodes| && nodes[root].ElementNode?
      modifies this
      ensures Valid() && nodes == old(nodes) && documentElement == Some(root)
    {
      documentElement := Some(root);
    }

    /** `parent.appendChild(child)` for an element parent and a detached child created after it. */
    method AppendChild(parent: nat, child: nat)
      requires Valid() && parent < child < |nodes|
      requires nodes[parent].ElementNode? && Detached(nodes, child)
      modifies this
      ensures Valid() && documentElement == old(documentElement)
      ensures nodes == old(nodes)[parent := ElementNode(old(nodes[parent].tagName), old(nodes[parent].childNodes) + [child])]
      ensures forall id :: id != child && Detached(old(nodes), id) ==> Detached(nodes, id)
    {
      nodes := nodes[parent := ElementNode(nodes[parent].tagName, nodes[parent].childNodes + [child])];
    }

    /** `parent.appendChild(e)` for a new element `e` named `name` holding one text node `data`. */
    method AppendTextElement(parent: nat, name: string, data: Option<string>) returns (id: nat)
      requires Valid() && parent < |nodes| && nodes[parent].ElementNode?
      modifies this
      ensures Valid() && documentElement == old(documentElement) && id == |old(nodes)|
      ensures nodes == old(nodes)[parent := ElementNode(old(nodes[parent].tagName), old(nodes[parent].childNodes) + [id])]
                       + [ElementNode(name, [id + 1]), TextNode(data)]
      ensures forall x: nat :: x < id && Detached(old(nodes), x) ==> Detached(nodes, x)
    {
      ghost var before := nodes;
      id := CreateElement(name);
      var text := CreateTextNode(data);
      assert nodes == before + [ElementNode(name, []), TextNode(data)] && text == id + 1;
      assert nodes[id].childNodes + [text] == [id + 1];
      AppendChild(id, text);
      assert nodes == before + [ElementNode(name, [id + 1]), TextNode(data)];
      AppendChild(parent, id);
    }

    /** The element tree under the document's root. */
    function DocumentTree(): Node
      reads this
      requires Valid() && documentElement.Some?
    {
      Subtree(nodes, documentElement.value)
    }
  }

  /** The tree `transformToXml` builds: quote id, then the policyholder's first and last name. */
  function PurchaseTree(quoteId: Option<string>, holder: Policyholder): Node
  {
    Element("PolicyPurchase", [
      Element("QuoteId", [Text(quoteId)]),
      Element("Policyholder", [
        Element("FirstName", [Text(holder.firstName)]),
        Element("LastName", [Text(holder.lastName)])])])
  }

  /**
   * What `transformToXml` yields: a missing policyholder is dereferenced and throws; otherwise the
   * transformer renders `PurchaseTree` (or throws itself).
   */
  function Encode(transform: Node -> Result<string, Exception>, purchase: PolicyPurchase): Result<string, Exception>
  {
    match purchase.policyholder
    case None => Failure(NullPointerException)
    case Some(h) => transform(PurchaseTree(purchase.quoteId, h))
  }

  /** Text content of a tree, in document order. */
  function Texts(n: Node): seq<Option<string>>
    decreases n, 1
  {
    match n
    case Text(d) => [d]
    case Element(_, cs) => TextsOfAll(cs)
  }

  function TextsOfAll(cs: seq<Node>): seq<Option<string>>
    decreases cs, 0
  {
    if cs == [] then [] else Texts(cs[0]) + TextsOfAll(cs[1..])
  }

  /** Element names of a tree, in document order. */
  function ElementNames(n: Node): seq<string>
    decreases n, 1
  {
    match n
    case Text(_) => []
    case Element(name, cs) => [name] + ElementNamesOfAll(cs)
  }

  function ElementNamesOfAll(cs: seq<Node>): seq<string>
    decreases cs, 0
  {
    if cs == [] then [] else ElementNames(cs[0]) + ElementNamesOfAll(cs[1..])
  }

  /** The text of `n` when it is an element called `name` whose only child is a text node. */
  function TextElement(n: Node, name: string): Option<Option<string>>
  {
    if n.Element? && n.name == name && |n.children| == 1 && n.children[0].Text?
    then Some(n.children[0].data) else None
  }

  /** Reads quote id and policyholder back out of a tree shaped like `PurchaseTree`. */
  function ReadBack(tree: Node): Option<(Option<string>, Policyholder)>
  {
    if tree.Element? && tree.name == "PolicyPurchase" && |tree.children| == 2
       && TextElement(tree.children[0], "QuoteId").Some?
       && tree.children[1].Element? && tree.children[1].name == "Policyholder"
       && |tree.children[1].children| == 2
       && TextElement(tree.children[1].children[0], "FirstName").Some?
       && TextElement(tree.children[1].children[1], "LastName").Some?
    then Some((TextElement(tree.children[0], "QuoteId").value,
               Policyholder(TextElement(tree.children[1].children[0], "FirstName").value,
                            TextElement(tree.children[1].children[1], "LastName").value)))
    else None
  }

  lemma TwoChildren(m: Node, n: Node)
    ensures TextsOfAll([m, n]) == Texts(m) + Texts(n)
    ensures ElementNamesOfAll([m, n]) == ElementNames(m) + ElementNames(n)
  {
    assert [m, n][1..] == [n];
    assert [n][1..] == [];
    assert TextsOfAll([n]) == Texts(n) + TextsOfAll([]);
    assert Texts(n) + [] == Texts(n);
    assert ElementNamesOfAll([n]) == ElementNames(n) + ElementNamesOfAll([]);
    assert ElementNames(n) + [] == ElementNames(n);
  }

  lemma TextElementOutline(name: string, data: Option<string>)
    ensures Texts(Element(name, [Text(data)])) == [data]
    ensures ElementNames(Element(name, [Text(data)])) == [name]
  {
    assert [Text(data)][1..] == [];
    assert TextsOfAll([Text(data)]) == [data] + TextsOfAll([]);
    assert ElementNamesOfAll([Text(data)]) == [] + ElementNamesOfAll([]);
  }

  /** The tree keeps quote id, first and last name, and nothing is lost: they read back exactly. */
  lemma ReadBackPurchaseTree(quoteId: Option<string>, holder: Policyholder)
    ensures ReadBack(PurchaseTree(quoteId, holder)) == Some((quoteId, holder))
  {
  }

  /** Fixed shape: five elements, in the order PolicyPurchase, QuoteId, Policyholder, FirstName, LastName. */
  lemma PurchaseTreeElements(quoteId: Option<string>, holder: Policyholder)
    ensures ElementNames(PurchaseTree(quoteId, holder))
         == ["PolicyPurchase", "QuoteId", "Policyholder", "FirstName", "LastName"]
  {
    var first := Element("FirstName", [Text(holder.firstName)]);
    var last := Element("LastName", [Text(holder.lastName)]);
    var quote := Element("QuoteId", [Text(quoteId)]);
    TwoChildren(first, last);
    TwoChildren(quote, Element("Policyholder", [first, last]));
    TextElementOutline("FirstName", holder.firstName);
    TextElementOutline("LastName", holder.lastName);
    TextElementOutline("QuoteId", quoteId);
    assert ElementNames(Element("Policyholder", [first, last])) == ["Policyholder", "FirstName", "LastName"];
  }

  /** Exactly three texts, in order: quote id, first name, last name; the vehicle is never emitted. */
  lemma PurchaseTreeTexts(quoteId: Option<string>, holder: Policyholder)
    ensures Texts(PurchaseTree(quoteId, holder)) == [quoteId, holder.firstName, holder.lastName]
  {
    var first := Element("FirstName", [Text(holder.firstName)]);
    var last := Element("LastName", [Text(holder.lastName)]);
    var quote := Element("QuoteId", [Text(quoteId)]);
    TwoChildren(first, last);
    TwoChildren(quote, Element("Policyholder", [first, last]));
    TextElementOutline("FirstName", holder.firstName);
    TextElementOutline("LastName", holder.lastName);
    TextElementOutline("QuoteId", quoteId);
  }

  /** The vehicle (type and vin) has no influence on the encoding. */
  lemma EncodeIgnoresVehicle(transform: Node -> Result<string, Exception>, purchase: PolicyPurchase, vehicle: Option<Vehicle>)
    ensures Encode(transform, purchase.(vehicle := vehicle)) == Encode(transform, purchase)
  {
  }

  /** The nodes `transformToXml` creates, in creation order. */
  function PurchaseArena(quoteId: Option<string>, holder: Policyholder): seq<DomNode>
  {
    [ ElementNode("PolicyPurchase", [1, 3]),
      ElementNode("QuoteId", [2]), TextNode(quoteId),
      ElementNode("Policyholder", [4, 6]),
      ElementNode("FirstName", [5]), TextNode(holder.firstName),
      ElementNode("LastName", [7]), TextNode(holder.lastName) ]
  }

  /** Those nodes, linked as `transformToXml` links them, form `PurchaseTree`. */
  lemma PurchaseArenaTree(arena: seq<DomNode>, quoteId: Option<string>, holder: Policyholder)
    requires arena == PurchaseArena(quoteId, holder) && WellFormed(arena)
    ensures Subtree(arena, 0) == PurchaseTree(quoteId, holder)
  {
    assert Subtree(arena, 1) == Element("QuoteId", [Text(quoteId)]) by {
      assert Children(arena, 1, [2]) == Children(arena, 1, []) + [Subtree(arena, 2)];
    }
    assert Subtree(arena, 4) == Element("FirstName", [Text(holder.firstName)]) by {
      assert Children(arena, 4, [5]) == Children(arena, 4, []) + [Subtree(arena, 5)];
    }
    assert Subtree(arena, 6) == Element("LastName", [Text(holder.lastName)]) by {
      assert Children(arena, 6, [7]) == Children(arena, 6, []) + [Subtree(arena, 7)];
    }
    assert Subtree(arena, 3) == Element("Policyholder", [Subtree(arena, 4), Subtree(arena, 6)]) by {
      assert [4, 6][..1] == [4];
      assert Children(arena, 3, [4]) == Children(arena, 3, []) + [Subtree(arena, 4)];
    }
    assert [1, 3][..1] == [1];
    assert Children(arena, 0, [1]) == Children(arena, 0, []) + [Subtree(arena, 1)];
  }

  /** `transformToXml(policyPurchase)`, DOM call by DOM call. */
  method TransformToXml(transform: Node -> Result<string, Exception>, purchase: PolicyPurchase)
    returns (r: Result<string, Exception>)
    ensures r == Encode(transform, purchase)
  {
    var doc := new Document();
    var root := doc.CreateElement("PolicyPurchase");
    doc.AppendDocumentElement(root);
    assert doc.nodes == [ElementNode("PolicyPurchase", [])] && root == 0;
    assert doc.nodes[root].childNodes + [1] == [1];
    var quoteId := doc.AppendTextElement(root, "QuoteId", purchase.quoteId);
    assert doc.nodes == [
      ElementNode("PolicyPurchase", [1]),
      ElementNode("QuoteId", [2]), TextNode(purchase.quoteId)];
    var policyholder := doc.CreateElement("Policyholder");
    assert doc.nodes[root].childNodes + [policyholder] == [1, 3];
    doc.AppendChild(root, policyholder);
    assert doc.nodes == [
      ElementNode("PolicyPurchase", [1, 3]),
      ElementNode("QuoteId", [2]), TextNode(purchase.quoteId),
      ElementNode("Policyholder", [])];
    // `getPolicyholder().getFirstName()` throws before any node reaches the tree.
    if purchase.policyholder.None? {
      return Failure(NullPointerException);
    }
    var holder := purchase.policyholder.value;
    assert doc.nodes[policyholder].childNodes + [4] == [4];
    var firstName := doc.AppendTextElement(policyholder, "FirstName", holder.firstName);
    assert doc.nodes == [
      ElementNode("PolicyPurchase", [1, 3]),
      ElementNode("QuoteId", [2]), TextNode(purchase.quoteId),
      ElementNode("Policyholder", [4]),
      ElementNode("FirstName", [5]), TextNode(holder.firstName)];
    assert doc.nodes[policyholder].childNodes + [6] == [4, 6];
    var lastName := doc.AppendTextElement(policyholder, "LastName", holder.lastName);

    assert doc.nodes == PurchaseArena(purchase.quoteId, holder);
    PurchaseArenaTree(doc.nodes, purchase.quoteId, holder);
    var tree := doc.DocumentTree();
    r := transform(tree);
  }
}
