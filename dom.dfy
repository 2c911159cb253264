/** The browser side of the library, as data. Every value here is something the source
    obtains from Puppeteer or from the page (`computedRole`, `getAttribute`, `labels`,
    `getComputedStyle`, `getBoundingClientRect`, `querySelectorAll`, the accessibility
    snapshot); the model receives it instead of asking for it. */
module Dom {
  import opened Wrappers

  type NodeId = nat

  /** Property values of queries and accessibility snapshots (strings, booleans, integers,
      and the two JavaScript absences). */
  datatype Value = Undefined | Null | Str(s: string) | Bool(b: bool) | Num(n: int)

  /** JavaScript truthiness of a value. */
  predicate Truthy(v: Value) {
    match v
    case Undefined => false
    case Null => false
    case Str(s) => s != ""
    case Bool(b) => b
    case Num(n) => n != 0
  }

  /** A `<label>` element associated with a node: its `textContent` (null for none) and
      the id of its `control`. */
  datatype Label = Label(textContent: Option<string>, control: Option<NodeId>)

  /** The part of the computed style the source reads. */
  datatype Style = Style(visibility: string)

  /** The fields of `getBoundingClientRect()` the source reads (integers here). */
  datatype Rect = Rect(top: int, bottom: int, width: int, height: int)

  /** An element as the in-page filter sees it. `labels` is None when the element has no
      `labels` list (it is not labelable); `style` is None when `getComputedStyle` gave nothing. */
  datatype Node = Node(
    id: NodeId,
    computedRole: string,
    computedName: string,
    attributes: map<string, string>,
    labels: Option<seq<Label>>,
    textContent: Option<string>,
    style: Option<Style>,
    rect: Rect)

  /** `node.getAttribute(name)`: None stands for null. */
  function GetAttribute(node: Node, name: string): Option<string> {
    if name in node.attributes then Some(node.attributes[name]) else None
  }

  /** A search root: a document or an element. `select(sel)` is `querySelectorAll(sel)` on it,
      in document order; `presentIds` are the ids `document.getElementById` finds in its
      document; `frameDocument` is the content document of an iframe, when one is reachable. */
  datatype Scope = Scope(
    tagName: Option<string>,
    select: string -> seq<Node>,
    presentIds: set<string>,
    frameDocument: Option<Scope>)

  /** An accessibility snapshot: the properties of one node. */
  type Snapshot = map<string, Value>

  /** A page: its document, and `accessibility.snapshot({root})` for each node (None for null). */
  datatype Page = Page(document: Scope, snapshot: NodeId -> Option<Snapshot>)

  /** A remote element handle. Handles are created afresh by every poll, so a handle names
      the poll that created it and the node it refers to. */
  datatype Handle = Handle(poll: nat, node: NodeId)

  /** `snapshot[key]`, which is undefined for a missing key. */
  function Lookup(snapshot: Snapshot, key: string): Value {
    if key in snapshot then snapshot[key] else Undefined
  }
}
