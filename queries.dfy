/** `queryAll`, `findAll` and `find` of `src/queries.ts`. The page function that filters the
    candidate nodes runs in the browser; here it is a function of the node data it reads. */
module Queries {
  import opened Wrappers
  import opened Strings
  import Seqs
  import opened Dom
  import opened QueryErrors
  import opened WaitFor
  import Configure

  /** A string or a regular expression; a regular expression is its `test` predicate. */
  datatype TextMatch = Exactly(s: string) | Pattern(test: string -> bool)

  predicate Reserved(key: string) {
    key == "role" || key == "name" || key == "text" || key == "selector"
  }

  /** The query's other keys (`...properties`): properties of the accessibility snapshot. */
  type Properties = m: map<string, Value> | forall k :: k in m ==> !Reserved(k) witness map[]

  datatype Query = Query(
    role: Option<string>,
    name: Option<TextMatch>,
    text: Option<TextMatch>,
    selector: Option<string>,
    properties: Properties)

  /** `{ root, page, visible }`; None stands for undefined. */
  datatype QueryOptions = QueryOptions(root: Option<Scope>, page: Option<Page>, visible: Option<bool>)

  // ----- The arguments of the page function -----

  /** `role || ''`. */
  function RoleArg(q: Query): string {
    q.role.GetOr("")
  }

  /** `name || ''` and `text || ''`; a regular expression is passed on as a pattern. */
  function MatchArg(m: Option<TextMatch>): TextMatch {
    m.GetOr(Exactly(""))
  }

  /** `selector || '*'`. */
  function SelectorArg(q: Query): string {
    if q.selector.Some? && q.selector.value != "" then q.selector.value else "*"
  }

  /** `visible = true`. */
  function VisibleArg(o: QueryOptions): bool {
    o.visible.GetOr(true)
  }

  // ----- The accessible name -----

  /** `document.getElementById(id)` finds an element; it never does for the empty id. */
  predicate IdFound(ids: set<string>, id: string) {
    id != "" && id in ids
  }

  function IdFoundIn(ids: set<string>): string -> bool {
    (id: string) => IdFound(ids, id)
  }

  /** `node.getAttribute('aria-labelledby')?.split(' ').some((id) => document.getElementById(id))`. */
  predicate LabelledByResolves(n: Node, ids: set<string>) {
    var labelledBy := GetAttribute(n, "aria-labelledby");
    labelledBy.Some? && Seqs.FindIndex(Split(labelledBy.value, ' '), IdFoundIn(ids)) >= 0
  }

  /** `node.getAttribute('aria-label')` is a non-empty string. */
  predicate AriaLabelled(n: Node) {
    var ariaLabel := GetAttribute(n, "aria-label");
    ariaLabel.Some? && ariaLabel.value != ""
  }

  /** `node.labels?.length` is non-zero. */
  predicate HasLabels(n: Node) {
    n.labels.Some? && |n.labels.value| > 0
  }

  /** `label.control === node`. */
  function Controls(n: Node): Label -> bool {
    (l: Label) => l.control == Some(n.id)
  }

  /** `label.textContent || ''`. */
  function LabelContent(l: Label): string {
    l.textContent.GetOr("")
  }

  /** `getFlatString(label.textContent || '')`. */
  function FlatLabelContent(l: Label): string {
    Flat(LabelContent(l))
  }

  /** The labels of `n` that it is the control of, in order. */
  function ControllingLabels(n: Node): seq<Label> {
    Seqs.Filter(n.labels.GetOr([]), Controls(n))
  }

  /** The flattened, non-empty texts of the controlling labels. */
  function LabelPieces(n: Node): seq<string> {
    Seqs.Filter(Seqs.Map(ControllingLabels(n), FlatLabelContent), NonEmpty)
  }

  /** The name derived from `<label>` elements (`.join(' ').trim()`). */
  function LabelText(n: Node): string {
    Trim(Join(LabelPieces(n), " "))
  }

  /** The accessible name the name filter compares. */
  function AccessibleName(n: Node, ids: set<string>): string {
    if LabelledByResolves(n, ids) then n.computedName
    else if AriaLabelled(n) then n.computedName
    else if HasLabels(n) then LabelText(n)
    else n.computedName
  }

  /** Some space-separated token of `aria-labelledby` is the id of an element. */
  ghost predicate SomeLabelledByPresent(n: Node, ids: set<string>) {
    var labelledBy := GetAttribute(n, "aria-labelledby");
    labelledBy.Some? &&
    exists i :: 0 <= i < |Split(labelledBy.value, ' ')| && IdFound(ids, Split(labelledBy.value, ' ')[i])
  }

  /** The first rule that applies gives the name: a resolving `aria-labelledby`, then a
      non-empty `aria-label` (both take the browser's computed name), then the `<label>`
      elements, and otherwise the browser's computed name. */
  lemma NamePrecedence(n: Node, ids: set<string>)
    ensures SomeLabelledByPresent(n, ids) ==> AccessibleName(n, ids) == n.computedName
    ensures !SomeLabelledByPresent(n, ids) && AriaLabelled(n) ==> AccessibleName(n, ids) == n.computedName
    ensures !SomeLabelledByPresent(n, ids) && !AriaLabelled(n) && HasLabels(n) ==> AccessibleName(n, ids) == LabelText(n)
    ensures !SomeLabelledByPresent(n, ids) && !AriaLabelled(n) && !HasLabels(n) ==> AccessibleName(n, ids) == n.computedName
  {
    var labelledBy := GetAttribute(n, "aria-labelledby");
    if labelledBy.Some? {
      var tokens := Split(labelledBy.value, ' ');
      var k := Seqs.FindIndex(tokens, IdFoundIn(ids));
      if SomeLabelledByPresent(n, ids) {
        var i :| 0 <= i < |tokens| && IdFound(ids, tokens[i]);
        assert IdFoundIn(ids)(tokens[i]);
      }
    }
  }

  /** An empty `aria-labelledby` token never resolves, whatever the document holds. */
  lemma EmptyTokenNeverResolves(n: Node, ids: set<string>)
    requires GetAttribute(n, "aria-labelledby") == Some("")
    ensures !LabelledByResolves(n, ids)
  {
    var tokens := Split("", ' ');
    assert Seqs.FindIndex("", Is(' ')) == -1;
    assert tokens == [""];
    assert !IdFoundIn(ids)(tokens[0]);
  }

  /** The label-derived name keeps the non-whitespace characters of the controlling labels'
      texts, in order, and nothing else. */
  lemma LabelTextCharacters(n: Node)
    ensures Strip(LabelText(n)) == Concat(Seqs.Map(Seqs.Map(ControllingLabels(n), LabelContent), Strip))
  {
    TrimSpec(Join(LabelPieces(n), " "));
    StripJoinSpace(LabelPieces(n));
    var flat := Seqs.Map(ControllingLabels(n), FlatLabelContent);
    StripDropEmpty(flat);
    var raw := Seqs.Map(ControllingLabels(n), LabelContent);
    assert Seqs.Map(flat, Strip) == Seqs.Map(raw, Strip) by {
      forall i | 0 <= i < |raw|
        ensures Strip(flat[i]) == Strip(raw[i])
      {
        StripFlat(raw[i]);
      }
    }
  }

  /** The label-derived name has no whitespace at either end. */
  lemma LabelTextTrimmed(n: Node)
    ensures |LabelText(n)| > 0 ==> !IsSpace(LabelText(n)[0]) && !IsSpace(LabelText(n)[|LabelText(n)| - 1])
  {
    TrimSpec(Join(LabelPieces(n), " "));
  }

  /** Each controlling label's text enters the name non-empty and with every whitespace run
      collapsed to one space. */
  lemma LabelPiecesFlat(n: Node)
    ensures forall i :: 0 <= i < |LabelPieces(n)| ==>
      LabelPieces(n)[i] != "" && Collapsed(LabelPieces(n)[i]) && LabelPieces(n)[i] in Seqs.Map(ControllingLabels(n), FlatLabelContent)
  {
    var flat := Seqs.Map(ControllingLabels(n), FlatLabelContent);
    Seqs.FilterMembers(flat, NonEmpty);
    forall i | 0 <= i < |LabelPieces(n)|
      ensures Collapsed(LabelPieces(n)[i])
    {
      var j :| 0 <= j < |flat| && flat[j] == LabelPieces(n)[i];
      FlatCollapsed(LabelContent(ControllingLabels(n)[j]));
    }
  }

  // ----- The filter chain -----

  predicate RoleOk(role: string, n: Node) {
    role == "" || n.computedRole == role
  }

  predicate NameOk(name: TextMatch, n: Node, ids: set<string>) {
    match name
    case Exactly(s) => s == "" || AccessibleName(n, ids) == s
    case Pattern(test) => test(AccessibleName(n, ids))
  }

  /** The text filter compares the raw `textContent`, not the flattened one; a pattern is
      applied to `textContent || ''`. */
  predicate TextOk(text: TextMatch, n: Node) {
    match text
    case Exactly(t) => t == "" || n.textContent == Some(t)
    case Pattern(test) => test(n.textContent.GetOr(""))
  }

  /** A computed style whose visibility is not `hidden`, and a bounding box with some
      non-zero coordinate or extent. */
  predicate IsVisible(n: Node) {
    n.style.Some? && n.style.value.visibility != "hidden" &&
    (n.rect.top != 0 || n.rect.bottom != 0 || n.rect.width != 0 || n.rect.height != 0)
  }

  predicate VisibleOk(visible: bool, n: Node) {
    !visible || IsVisible(n)
  }

  function RoleFilter(role: string): Node -> bool {
    (n: Node) => RoleOk(role, n)
  }

  function NameFilter(name: TextMatch, ids: set<string>): Node -> bool {
    (n: Node) => NameOk(name, n, ids)
  }

  function TextFilter(text: TextMatch): Node -> bool {
    (n: Node) => TextOk(text, n)
  }

  function VisibleFilter(visible: bool): Node -> bool {
    (n: Node) => VisibleOk(visible, n)
  }

  /** The four `.filter` calls, in their order. */
  function Filtered(candidates: seq<Node>, role: string, name: TextMatch, text: TextMatch, visible: bool, ids: set<string>): seq<Node> {
    var byRole := Seqs.Filter(candidates, RoleFilter(role));
    var byName := Seqs.Filter(byRole, NameFilter(name, ids));
    var byText := Seqs.Filter(byName, TextFilter(text));
    Seqs.Filter(byText, VisibleFilter(visible))
  }

  predicate Selected(role: string, name: TextMatch, text: TextMatch, visible: bool, ids: set<string>, n: Node) {
    RoleOk(role, n) && NameOk(name, n, ids) && TextOk(text, n) && VisibleOk(visible, n)
  }

  function SelectedFilter(role: string, name: TextMatch, text: TextMatch, visible: bool, ids: set<string>): Node -> bool {
    (n: Node) => Selected(role, name, text, visible, ids, n)
  }

  /** The chain keeps exactly the candidates that pass every filter, in document order. */
  lemma FilterChain(candidates: seq<Node>, role: string, name: TextMatch, text: TextMatch, visible: bool, ids: set<string>)
    ensures Filtered(candidates, role, name, text, visible, ids) == Seqs.Filter(candidates, SelectedFilter(role, name, text, visible, ids))
    ensures Seqs.IsSubsequence(Filtered(candidates, role, name, text, visible, ids), candidates)
  {
    var p12 := (n: Node) => RoleOk(role, n) && NameOk(name, n, ids);
    var p123 := (n: Node) => p12(n) && TextOk(text, n);
    Seqs.FilterFilter(candidates, RoleFilter(role), NameFilter(name, ids), p12);
    Seqs.FilterFilter(candidates, p12, TextFilter(text), p123);
    Seqs.FilterFilter(candidates, p123, VisibleFilter(visible), SelectedFilter(role, name, text, visible, ids));
    Seqs.FilterIsSubsequence(candidates, SelectedFilter(role, name, text, visible, ids));
  }

  /** Empty `role`, `name` and `text` and `visible: false` impose no filter at all. */
  lemma NoCriteriaNoFilter(candidates: seq<Node>, ids: set<string>)
    ensures Filtered(candidates, "", Exactly(""), Exactly(""), false, ids) == candidates
  {
    FilterChain(candidates, "", Exactly(""), Exactly(""), false, ids);
    Seqs.FilterAll(candidates, SelectedFilter("", Exactly(""), Exactly(""), false, ids));
  }

  /** Omitted and empty criteria are the same criterion, and the defaults are `'*'` and `true`. */
  lemma Defaults(q: Query, o: QueryOptions)
    ensures q.role.None? || q.role == Some("") ==> RoleArg(q) == ""
    ensures q.name.None? || q.name == Some(Exactly("")) ==> MatchArg(q.name) == Exactly("")
    ensures q.text.None? || q.text == Some(Exactly("")) ==> MatchArg(q.text) == Exactly("")
    ensures q.selector.None? || q.selector == Some("") ==> SelectorArg(q) == "*"
    ensures o.visible.None? ==> VisibleArg(o)
  {
  }

  /** With `visible` on, a node with no computed style or with `visibility: hidden` is
      dropped, and any other node is kept iff some field of its box is non-zero. */
  lemma VisibilityRule(n: Node)
    ensures n.style.None? ==> !VisibleOk(true, n)
    ensures n.style.Some? && n.style.value.visibility == "hidden" ==> !VisibleOk(true, n)
    ensures n.style.Some? && n.style.value.visibility != "hidden" ==>
      (VisibleOk(true, n) <==> n.rect != Rect(0, 0, 0, 0))
    ensures VisibleOk(false, n)
  {
  }

  // ----- The extra-property loop -----

  /** An entry of `elementsHandle.getProperties()`: an element handle, or another handle. */
  datatype JsHandle = ElementHandle(handle: Handle) | OtherHandle

  /** The element handles among `hs` (`property.asElement()`), in order. */
  function ElementsOf(hs: seq<JsHandle>): (r: seq<Handle>)
    ensures |r| <= |hs|
    decreases |hs|
  {
    if |hs| == 0 then []
    else ElementsOf(hs[..|hs| - 1]) + match hs[|hs| - 1] case ElementHandle(h) => [h] case OtherHandle => []
  }

  /** A handle is among the elements iff its element handle is among the entries. */
  lemma {:induction false} ElementsOfMembers(hs: seq<JsHandle>)
    ensures forall h :: h in ElementsOf(hs) <==> ElementHandle(h) in hs
    decreases |hs|
  {
    if |hs| > 0 {
      var init := hs[..|hs| - 1];
      ElementsOfMembers(init);
      assert hs == init + [hs[|hs| - 1]];
    }
  }

  /** `(await page.accessibility.snapshot({ root: element })) || {}`. */
  function SnapshotFor(page: Page, h: Handle): Snapshot {
    page.snapshot(h.node).GetOr(map[])
  }

  /** Every extra key has the query's value in the snapshot (`Object.is`, on values without
      floating point). */
  predicate PropertiesMatch(props: Properties, snapshot: Snapshot) {
    forall k :: k in props ==> Lookup(snapshot, k) == props[k]
  }

  function KeepFilter(props: Properties, page: Page): Handle -> bool {
    (h: Handle) => PropertiesMatch(props, SnapshotFor(page, h))
  }

  function DisposeFilter(props: Properties, page: Page): Handle -> bool {
    (h: Handle) => !PropertiesMatch(props, SnapshotFor(page, h))
  }

  /** One more entry: an element passes to the one of the two filters it satisfies. */
  lemma FilterElementsSnoc(hs: seq<JsHandle>, i: nat, p: Handle -> bool)
    requires i < |hs|
    ensures Seqs.Filter(ElementsOf(hs[..i + 1]), p) ==
      Seqs.Filter(ElementsOf(hs[..i]), p) + match hs[i] case ElementHandle(h) => (if p(h) then [h] else []) case OtherHandle => []
  {
    assert hs[..i + 1][..i] == hs[..i];
    match hs[i] {
      case OtherHandle =>
        assert ElementsOf(hs[..i + 1]) == ElementsOf(hs[..i]);
      case ElementHandle(h) =>
        assert ElementsOf(hs[..i + 1]) == ElementsOf(hs[..i]) + [h];
        Seqs.FilterAppend(ElementsOf(hs[..i]), [h], p);
    }
  }

  lemma ElementsOfSnoc(hs: seq<JsHandle>, i: nat)
    requires i < |hs|
    ensures |ElementsOf(hs[..i + 1])| == |ElementsOf(hs[..i])| + if hs[i].ElementHandle? then 1 else 0
  {
    assert hs[..i + 1][..i] == hs[..i];
  }

  /** Which of the two filters an element passes; with no extra keys it is kept. */
  lemma KeepOrDispose(props: Properties, page: Page, h: Handle)
    ensures KeepFilter(props, page)(h) == PropertiesMatch(props, SnapshotFor(page, h))
    ensures DisposeFilter(props, page)(h) == !PropertiesMatch(props, SnapshotFor(page, h))
    ensures |props| == 0 ==> PropertiesMatch(props, SnapshotFor(page, h))
  {
    if |props| == 0 {
      assert props.Keys == {};
    }
  }

  /** The `for` loop over the result's properties: non-elements are skipped; with no extra keys
      every element is kept and no snapshot is taken; otherwise each element is kept or disposed
      by its snapshot. */
  method CollectElements(properties: seq<JsHandle>, props: Properties, page: Page)
    returns (elements: seq<Handle>, disposed: seq<Handle>, snapshots: nat)
    ensures elements == Seqs.Filter(ElementsOf(properties), KeepFilter(props, page))
    ensures disposed == Seqs.Filter(ElementsOf(properties), DisposeFilter(props, page))
    ensures snapshots == if |props| == 0 then 0 else |ElementsOf(properties)|
  {
    elements := [];
    disposed := [];
    snapshots := 0;
    for i := 0 to |properties|
      invariant elements == Seqs.Filter(ElementsOf(properties[..i]), KeepFilter(props, page))
      invariant disposed == Seqs.Filter(ElementsOf(properties[..i]), DisposeFilter(props, page))
      invariant snapshots == if |props| == 0 then 0 else |ElementsOf(properties[..i])|
    {
      FilterElementsSnoc(properties, i, KeepFilter(props, page));
      FilterElementsSnoc(properties, i, DisposeFilter(props, page));
      ElementsOfSnoc(properties, i);
      match properties[i] {
        case OtherHandle =>
        case ElementHandle(element) =>
          KeepOrDispose(props, page, element);
          if |props| == 0 {
            elements := elements + [element];
          } else {
            var elementSnapshot := SnapshotFor(page, element);
            snapshots := snapshots + 1;
            if PropertiesMatch(props, elementSnapshot) {
              elements := elements + [element];
            } else {
              disposed := disposed + [element];
            }
          }
      }
    }
    assert properties[..|properties|] == properties;
  }

  /** Every element handle is returned or disposed, never both; with no extra keys all are
      returned. */
  lemma ReturnedOrDisposed(properties: seq<JsHandle>, props: Properties, page: Page)
    ensures var all := ElementsOf(properties);
      var kept := Seqs.Filter(all, KeepFilter(props, page));
      var gone := Seqs.Filter(all, DisposeFilter(props, page));
      && multiset(kept) + multiset(gone) == multiset(all)
      && (forall h :: h in all ==> (h in kept <==> h !in gone))
      && (forall h :: h in kept <==> h in all && PropertiesMatch(props, SnapshotFor(page, h)))
      && (|props| == 0 ==> kept == all && gone == [])
  {
    var all := ElementsOf(properties);
    Seqs.FilterMembers(all, KeepFilter(props, page));
    Seqs.FilterMembers(all, DisposeFilter(props, page));
    Seqs.FilterPartition(all, KeepFilter(props, page), DisposeFilter(props, page));
    if |props| == 0 {
      assert props.Keys == {};
      Seqs.FilterAll(all, KeepFilter(props, page));
    }
  }

  // ----- queryAll -----

  const IframeErrorName := "QueryIframeError"
  const IframeMessage := "Content frame document is not available in the iframe."

  function IframeError(): (e: Error)
    ensures e.IsQueryError() && e.name == IframeErrorName
  {
    NewQueryError(IframeErrorName, IframeMessage, None)
  }

  /** `page = config.page`. */
  function PageFor(o: QueryOptions, configPage: Page): Page {
    o.page.GetOr(configPage)
  }

  predicate IsIframe(s: Scope) {
    s.tagName == Some("IFRAME")
  }

  /** `root || page.evaluateHandle('document')`, replaced by the content document of an iframe. */
  function SearchRoot(o: QueryOptions, configPage: Page): Result<Scope, Error> {
    var root := o.root.GetOr(PageFor(o, configPage).document);
    if !IsIframe(root) then Success(root)
    else
      match root.frameDocument
      case None => Failure(IframeError())
      case Some(d) => Success(d)
  }

  /** The nodes the page function returns for a root. */
  function Matching(q: Query, o: QueryOptions, root: Scope): seq<Node> {
    Filtered(root.select(SelectorArg(q)), RoleArg(q), MatchArg(q.name), MatchArg(q.text), VisibleArg(o), root.presentIds)
  }

  function HandleIn(poll: nat): Node -> JsHandle {
    (n: Node) => ElementHandle(Handle(poll, n.id))
  }

  /** The result of one call of `queryAll` at poll `poll`: the elements returned or the error
      thrown, the handles disposed, and the number of snapshots taken. */
  datatype QueryAllOutcome = QueryAllOutcome(result: Result<seq<Handle>, Error>, disposed: seq<Handle>, snapshots: nat)

  function QueryAllOf(q: Query, o: QueryOptions, configPage: Page, poll: nat): QueryAllOutcome {
    match SearchRoot(o, configPage)
    case Failure(e) => QueryAllOutcome(Failure(e), [], 0)
    case Success(root) =>
      var all := ElementsOf(Seqs.Map(Matching(q, o, root), HandleIn(poll)));
      var page := PageFor(o, configPage);
      QueryAllOutcome(
        Success(Seqs.Filter(all, KeepFilter(q.properties, page))),
        Seqs.Filter(all, DisposeFilter(q.properties, page)),
        if |q.properties| == 0 then 0 else |all|)
  }

  /** `queryAll(query, options)`. */
  method QueryAll(q: Query, o: QueryOptions, configPage: Page, poll: nat) returns (outcome: QueryAllOutcome)
    ensures outcome == QueryAllOf(q, o, configPage, poll)
  {
    var page := o.page.GetOr(configPage);
    var rootHandle := o.root.GetOr(page.document);
    if IsIframe(rootHandle) {
      var contentFrameDocument := rootHandle.frameDocument;
      if contentFrameDocument.None? {
        return QueryAllOutcome(Failure(IframeError()), [], 0);
      }
      rootHandle := contentFrameDocument.value;
    }
    var nodes := Matching(q, o, rootHandle);
    var elements, disposed, snapshots := CollectElements(Seqs.Map(nodes, HandleIn(poll)), q.properties, page);
    outcome := QueryAllOutcome(Success(elements), disposed, snapshots);
  }

  /** An iframe root without a content document throws `QueryIframeError`; otherwise the
      search runs in the root, or in the iframe's document. */
  lemma IframeRedirect(q: Query, o: QueryOptions, configPage: Page, poll: nat)
    ensures var root := o.root.GetOr(PageFor(o, configPage).document);
      (IsIframe(root) && root.frameDocument.None? <==> QueryAllOf(q, o, configPage, poll).result.Failure?)
      && (QueryAllOf(q, o, configPage, poll).result.Failure? ==> QueryAllOf(q, o, configPage, poll).result.error == IframeError())
      && (IsIframe(root) && root.frameDocument.Some? ==> SearchRoot(o, configPage) == Success(root.frameDocument.value))
      && (!IsIframe(root) ==> SearchRoot(o, configPage) == Success(root))
  {
  }

  /** Every handle `queryAll` keeps from a list of nodes belongs to this poll. */
  lemma KeptOfPoll(nodes: seq<Node>, poll: nat, props: Properties, page: Page)
    ensures forall h :: h in Seqs.Filter(ElementsOf(Seqs.Map(nodes, HandleIn(poll))), KeepFilter(props, page)) ==>
      h.poll == poll
  {
    var handles := Seqs.Map(nodes, HandleIn(poll));
    var all := ElementsOf(handles);
    ElementsOfMembers(handles);
    Seqs.FilterMembers(all, KeepFilter(props, page));
    var found := Seqs.Filter(all, KeepFilter(props, page));
    forall h | h in found
      ensures h.poll == poll
    {
      var j :| 0 <= j < |found| && found[j] == h;
      var i :| 0 <= i < |handles| && handles[i] == ElementHandle(h);
    }
  }

  /** The handle of a node is kept iff its snapshot has the extra properties. */
  lemma KeptIffMatch(nodes: seq<Node>, poll: nat, props: Properties, page: Page, i: nat)
    requires i < |nodes|
    ensures Handle(poll, nodes[i].id) in Seqs.Filter(ElementsOf(Seqs.Map(nodes, HandleIn(poll))), KeepFilter(props, page))
      <==> PropertiesMatch(props, SnapshotFor(page, Handle(poll, nodes[i].id)))
  {
    var handles := Seqs.Map(nodes, HandleIn(poll));
    var all := ElementsOf(handles);
    ElementsOfMembers(handles);
    Seqs.FilterMembers(all, KeepFilter(props, page));
    var found := Seqs.Filter(all, KeepFilter(props, page));
    var h := Handle(poll, nodes[i].id);
    assert handles[i] == ElementHandle(h);
    assert h in all;
    var k :| 0 <= k < |all| && all[k] == h;
    if h in found {
      var j :| 0 <= j < |found| && found[j] == h;
      assert KeepFilter(props, page)(h);
    }
  }

  /** The handles `queryAll` keeps from a list of nodes: each of this poll, and the handle of
      a node is kept iff its snapshot has the extra properties. */
  lemma KeptHandles(nodes: seq<Node>, poll: nat, props: Properties, page: Page)
    ensures var found := Seqs.Filter(ElementsOf(Seqs.Map(nodes, HandleIn(poll))), KeepFilter(props, page));
      && (forall h :: h in found ==> h.poll == poll)
      && (forall i :: 0 <= i < |nodes| ==>
            (Handle(poll, nodes[i].id) in found <==> PropertiesMatch(props, SnapshotFor(page, Handle(poll, nodes[i].id)))))
  {
    KeptOfPoll(nodes, poll, props, page);
    forall i | 0 <= i < |nodes|
      ensures Handle(poll, nodes[i].id) in Seqs.Filter(ElementsOf(Seqs.Map(nodes, HandleIn(poll))), KeepFilter(props, page))
        <==> PropertiesMatch(props, SnapshotFor(page, Handle(poll, nodes[i].id)))
    {
      KeptIffMatch(nodes, poll, props, page, i);
    }
  }

  /** A found handle belongs to this poll; a candidate of the selector is found iff it passes
      every filter and its snapshot has the query's extra properties. */
  lemma QueryAllFinds(q: Query, o: QueryOptions, configPage: Page, poll: nat, root: Scope, n: Node)
    requires SearchRoot(o, configPage) == Success(root)
    ensures QueryAllOf(q, o, configPage, poll).result.Success?
    ensures var found := QueryAllOf(q, o, configPage, poll).result.value;
      var candidates := root.select(SelectorArg(q));
      && (forall h :: h in found ==> h.poll == poll)
      && (n in candidates && Selected(RoleArg(q), MatchArg(q.name), MatchArg(q.text), VisibleArg(o), root.presentIds, n)
          && PropertiesMatch(q.properties, SnapshotFor(PageFor(o, configPage), Handle(poll, n.id)))
          <==> Handle(poll, n.id) in found && n in candidates && n in Matching(q, o, root))
  {
    var candidates := root.select(SelectorArg(q));
    var sel := SelectedFilter(RoleArg(q), MatchArg(q.name), MatchArg(q.text), VisibleArg(o), root.presentIds);
    FilterChain(candidates, RoleArg(q), MatchArg(q.name), MatchArg(q.text), VisibleArg(o), root.presentIds);
    Seqs.FilterMembers(candidates, sel);
    var nodes := Matching(q, o, root);
    KeptHandles(nodes, poll, q.properties, PageFor(o, configPage));
    if n in candidates && sel(n) {
      var i :| 0 <= i < |candidates| && candidates[i] == n;
    }
    if n in nodes {
      var i :| 0 <= i < |nodes| && nodes[i] == n;
      assert sel(nodes[i]);
    }
  }

  // ----- findAll -----

  /** What the k-th invocation of the callback observes: the options (their root and page as
      the documents are at that moment) and the page `config.page` yields then. */
  datatype PollInput = PollInput(options: QueryOptions, configPage: Page)

  predicate StringTruthy(s: Option<string>) {
    s.Some? && s.value != ""
  }

  predicate MatchTruthy(m: Option<TextMatch>) {
    m.Some? && (m.value.Pattern? || m.value.s != "")
  }

  /** `query.role || query.name || query.selector || query.text`. */
  predicate HasCriteria(q: Query) {
    StringTruthy(q.role) || MatchTruthy(q.name) || StringTruthy(q.selector) || MatchTruthy(q.text)
  }

  const ParametersErrorName := "QueryParametersError"
  const ParametersMessage := "At least one of \"role\", \"name\", \"text\", or \"selector\" is required in the query."

  function ParametersError(): (e: Error)
    ensures e.IsQueryError() && e.name == ParametersErrorName
  {
    NewQueryError(ParametersErrorName, ParametersMessage, None)
  }

  /** The timeout as a condition: `false` and 0 are falsy, every other number is truthy. */
  predicate TimeoutTruthy(t: Timeout) {
    t.Ms? && t.ms != 0
  }

  const EmptyMessagePrefix := "Unable to find any nodes"

  /** `'Unable to find any nodes' + (timeout ? ` within ${timeout}ms.` : '.')`. */
  function EmptyMessage(t: Timeout): string {
    EmptyMessagePrefix + if TimeoutTruthy(t) then " within " + IntToString(t.ms) + "ms." else "."
  }

  function EmptyError(t: Timeout): (e: Error)
    ensures e.IsQueryError() && e.name == EmptyErrorName
  {
    NewQueryEmptyError(EmptyMessage(t), None)
  }

  /** What `queryAll` gives at the k-th invocation of the callback, read from the documents. */
  function PollResult(q: Query, polls: nat -> PollInput, k: nat): Result<seq<Handle>, Error> {
    QueryAllOf(q, polls(k).options, polls(k).configPage, k).result
  }

  function PollResults(q: Query, polls: nat -> PollInput): nat -> Result<seq<Handle>, Error> {
    (k: nat) => PollResult(q, polls, k)
  }

  /** Results `queryAll` can give: it throws nothing but the iframe error, and a handle it
      returns at the k-th invocation is a handle of that poll. */
  ghost predicate QueryAllResults(results: nat -> Result<seq<Handle>, Error>) {
    && (forall k: nat :: results(k).Failure? ==> results(k).error == IframeError())
    && (forall k: nat :: results(k).Success? ==> forall h :: h in results(k).value ==> h.poll == k)
  }

  lemma PollResultShape(q: Query, polls: nat -> PollInput, k: nat)
    ensures PollResult(q, polls, k).Failure? ==> PollResult(q, polls, k).error == IframeError()
    ensures PollResult(q, polls, k).Success? ==> forall h :: h in PollResult(q, polls, k).value ==> h.poll == k
  {
    var o := polls(k).options;
    var configPage := polls(k).configPage;
    match SearchRoot(o, configPage) {
      case Failure(_) =>
      case Success(root) =>
        KeptHandles(Matching(q, o, root), k, q.properties, PageFor(o, configPage));
    }
  }

  /** The polls of the documents are results `queryAll` can give. */
  lemma PollsAreQueryAllResults(q: Query, polls: nat -> PollInput)
    ensures QueryAllResults(PollResults(q, polls))
  {
    forall k: nat
      ensures PollResults(q, polls)(k) == PollResult(q, polls, k)
    {
    }
    forall k: nat {
      PollResultShape(q, polls, k);
    }
  }

  /** The body of the callback `findAll` passes to `waitFor`, on the result of its poll: no
      elements is an error. */
  function AttemptOf(result: Result<seq<Handle>, Error>, t: Timeout): (a: Attempt<seq<Handle>, Error>)
    ensures a.Returned? <==> result.Success? && result.value != []
    ensures a.Returned? ==> result == Success(a.value)
    ensures a.Threw? && result.Success? ==> a.error == EmptyError(t)
    ensures a.Threw? && result.Failure? ==> a.error == result.error
  {
    match result
    case Failure(e) => Threw(e)
    case Success(elements) => if |elements| == 0 then Threw(EmptyError(t)) else Returned(elements)
  }

  function Attempts(results: nat -> Result<seq<Handle>, Error>, t: Timeout): nat -> Attempt<seq<Handle>, Error> {
    (k: nat) => AttemptOf(results(k), t)
  }

  /** The `waitFor` that `findAll` starts once the query is valid; `results(k)` is what the
      callback's call of `queryAll` gives at its k-th invocation. */
  function FindAllRun(t: Timeout, results: nat -> Result<seq<Handle>, Error>, ticks: seq<Tick>): Machine<seq<Handle>, Error> {
    RunAsWritten(t, Attempts(results, t), ticks)
  }

  /** The promise `findAll(query, { timeout, ...options })` returns, with `config.timeout`
      equal to `configTimeout`. */
  function FindAll(q: Query, timeout: Option<Timeout>, configTimeout: int, results: nat -> Result<seq<Handle>, Error>, ticks: seq<Tick>): Settlement<seq<Handle>, Error> {
    if !HasCriteria(q) then Rejected(Some(ParametersError()))
    else FindAllRun(EffectiveTimeout(timeout, configTimeout), results, ticks).settlement
  }

  /** `findAll` on the documents: every poll is a call of `queryAll`. */
  function FindAllIn(q: Query, timeout: Option<Timeout>, configTimeout: int, polls: nat -> PollInput, ticks: seq<Tick>): Settlement<seq<Handle>, Error> {
    FindAll(q, timeout, configTimeout, PollResults(q, polls), ticks)
  }

  /** A query without role, name, text or selector is refused with `QueryParametersError`
      before any poll: the documents are never consulted. */
  lemma ParametersRequired(q: Query, timeout: Option<Timeout>, configTimeout: int, results1: nat -> Result<seq<Handle>, Error>, results2: nat -> Result<seq<Handle>, Error>, ticks1: seq<Tick>, ticks2: seq<Tick>)
    requires !HasCriteria(q)
    ensures FindAll(q, timeout, configTimeout, results1, ticks1) == FindAll(q, timeout, configTimeout, results2, ticks2)
    ensures var r := FindAll(q, timeout, configTimeout, results1, ticks1);
      r.Rejected? && r.reason.Some? && r.reason.value.IsQueryError() && r.reason.value.name == ParametersErrorName
  {
  }

  /** `findAll` resolves with the non-empty result of a poll, the first one that found
      something; every earlier poll found nothing or failed. */
  lemma FindAllResolves(q: Query, timeout: Option<Timeout>, configTimeout: int, results: nat -> Result<seq<Handle>, Error>, ticks: seq<Tick>)
    requires FindAll(q, timeout, configTimeout, results, ticks).Resolved?
    ensures var elements := FindAll(q, timeout, configTimeout, results, ticks).value;
      var n := FindAllRun(EffectiveTimeout(timeout, configTimeout), results, ticks).completedAtSettlement;
      && HasCriteria(q) && |elements| > 0 && n > 0
      && results(n - 1) == Success(elements)
      && (forall k :: 0 <= k < n - 1 ==> results(k) == Success([]) || results(k).Failure?)
  {
    var t := EffectiveTimeout(timeout, configTimeout);
    var callback := Attempts(results, t);
    ResolvesWithFirstSuccess(false, t, callback, ticks);
    var m := RunAsWritten(t, callback, ticks);
    var n := m.completedAtSettlement;
    assert AttemptOf(results(n - 1), t) == Returned(m.settlement.value);
    forall k | 0 <= k < n - 1
      ensures results(k) == Success([]) || results(k).Failure?
    {
      assert callback(k).Threw?;
    }
  }

  /** On the documents, every element `findAll` resolves with is a handle of the last poll. */
  lemma FindAllInResolves(q: Query, timeout: Option<Timeout>, configTimeout: int, polls: nat -> PollInput, ticks: seq<Tick>)
    requires FindAllIn(q, timeout, configTimeout, polls, ticks).Resolved?
    ensures var n := FindAllRun(EffectiveTimeout(timeout, configTimeout), PollResults(q, polls), ticks).completedAtSettlement;
      forall h :: h in FindAllIn(q, timeout, configTimeout, polls, ticks).value ==> h.poll + 1 == n
  {
    var results := PollResults(q, polls);
    PollsAreQueryAllResults(q, polls);
    FindAllResolves(q, timeout, configTimeout, results, ticks);
  }

  /** `findAll` rejects with the parameters error, the error of the last poll, `QueryEmptyError`
      when the last poll found nothing, or undefined when the timer fired before any poll
      completed. */
  lemma FindAllRejects(q: Query, timeout: Option<Timeout>, configTimeout: int, results: nat -> Result<seq<Handle>, Error>, ticks: seq<Tick>)
    requires FindAll(q, timeout, configTimeout, results, ticks).Rejected?
    ensures var t := EffectiveTimeout(timeout, configTimeout);
      var reason := FindAll(q, timeout, configTimeout, results, ticks).reason;
      var n := FindAllRun(t, results, ticks).completedAtSettlement;
      && (!HasCriteria(q) ==> reason == Some(ParametersError()))
      && (HasCriteria(q) && n == 0 ==> reason.None? && HasTimeout(t))
      && (HasCriteria(q) && n > 0 ==>
            match results(n - 1)
            case Success(elements) => elements == [] && reason == Some(EmptyError(t))
            case Failure(e) => reason == Some(e))
  {
    if HasCriteria(q) {
      var t := EffectiveTimeout(timeout, configTimeout);
      RejectsWithLastError(false, t, Attempts(results, t), ticks);
    }
  }

  /** `findAll` on results `queryAll` can give rejects only with query errors: parameters,
      iframe or empty. */
  lemma FindAllRejectsWithQueryError(q: Query, timeout: Option<Timeout>, configTimeout: int, results: nat -> Result<seq<Handle>, Error>, ticks: seq<Tick>)
    requires QueryAllResults(results)
    requires FindAll(q, timeout, configTimeout, results, ticks).Rejected?
    ensures var reason := FindAll(q, timeout, configTimeout, results, ticks).reason;
      reason.Some? ==>
        reason.value.IsQueryError() && reason.value.name in {ParametersErrorName, IframeErrorName, EmptyErrorName}
  {
    FindAllRejects(q, timeout, configTimeout, results, ticks);
  }

  /** The message of `QueryEmptyError` names the timeout exactly when it is truthy. A negative
      timeout arms no timer, so there is a single poll, yet the message names it. */
  lemma EmptyMessages()
    ensures EmptyMessage(Ms(0)) == "Unable to find any nodes."
    ensures EmptyMessage(Disabled) == "Unable to find any nodes."
  {
  }

  lemma EmptyMessageDefault()
    ensures EmptyMessage(Ms(3000)) == "Unable to find any nodes within 3000ms."
  {
    assert IntToString(3000) == "3000" by {
      assert NatToString(3) == "3";
      assert NatToString(30) == "30";
      assert NatToString(300) == "300";
    }
  }

  /** A negative timeout is truthy in the message, though it disables the timer. */
  lemma EmptyMessageNegative()
    ensures EmptyMessage(Ms(-5)) == "Unable to find any nodes within -5ms." && !HasTimeout(Ms(-5))
  {
    assert IntToString(-5) == "-5";
  }

  // ----- find -----

  const MultipleMessage := "Found more than one node."

  function MultipleError(): (e: Error)
    ensures e.IsQueryError() && e.name == MultipleErrorName
  {
    NewQueryMultipleError(MultipleMessage, None)
  }

  /** The promise `find` returns (`const [element] = elements` is undefined for no elements)
      and the handles it disposes. */
  datatype FindOutcome = FindOutcome(settlement: Settlement<Option<Handle>, Error>, disposed: seq<Handle>)

  function Find(q: Query, timeout: Option<Timeout>, configTimeout: int, results: nat -> Result<seq<Handle>, Error>, ticks: seq<Tick>): FindOutcome {
    match FindAll(q, timeout, configTimeout, results, ticks)
    case Pending => FindOutcome(Pending, [])
    case Rejected(reason) => FindOutcome(Rejected(reason), [])
    case Resolved(elements) =>
      if |elements| > 1 then FindOutcome(Rejected(Some(MultipleError())), elements)
      else FindOutcome(Resolved(if |elements| == 0 then None else Some(elements[0])), [])
  }

  /** `find` resolves iff `findAll` resolves with exactly one element, and then with that
      element; with more than one it disposes all of them and throws `QueryMultipleError`; a
      rejection of `findAll` passes through. */
  lemma FindExactlyOne(q: Query, timeout: Option<Timeout>, configTimeout: int, results: nat -> Result<seq<Handle>, Error>, ticks: seq<Tick>)
    ensures var f := Find(q, timeout, configTimeout, results, ticks);
      var all := FindAll(q, timeout, configTimeout, results, ticks);
      && (f.settlement.Resolved? <==> all.Resolved? && |all.value| == 1)
      && (f.settlement.Resolved? ==> f.settlement.value == Some(all.value[0]) && f.disposed == [])
      && (all.Resolved? && |all.value| > 1 ==> f.settlement == Rejected(Some(MultipleError())) && f.disposed == all.value)
      && (all.Rejected? ==> f.settlement == Rejected(all.reason) && f.disposed == [])
      && (all.Pending? <==> f.settlement.Pending?)
  {
    if FindAll(q, timeout, configTimeout, results, ticks).Resolved? {
      FindAllResolves(q, timeout, configTimeout, results, ticks);
    }
  }

  /** With timeout 0, as `toBeFound` calls it, `find` settles as soon as its single poll does:
      with that element, or, on results `queryAll` can give, with a query error. */
  lemma FindWithoutTimeout(q: Query, configTimeout: int, results: nat -> Result<seq<Handle>, Error>)
    requires QueryAllResults(results)
    ensures var s := Find(q, Some(Ms(0)), configTimeout, results, [AttemptSettles]).settlement;
      && !s.Pending?
      && (s.Resolved? ==> s.value.Some?)
      && (s.Rejected? ==> s.reason.Some? && s.reason.value.IsQueryError())
  {
    var all := FindAll(q, Some(Ms(0)), configTimeout, results, [AttemptSettles]);
    if HasCriteria(q) {
      assert [AttemptSettles][..0] == [];
      if all.Resolved? {
        FindAllResolves(q, Some(Ms(0)), configTimeout, results, [AttemptSettles]);
      } else if all.Rejected? {
        FindAllRejectsWithQueryError(q, Some(Ms(0)), configTimeout, results, [AttemptSettles]);
      }
    }
  }

  /** After `configure({ timeout: 0 })`, a `find` with no timeout of its own polls once; when
      that poll finds nothing it rejects with `QueryEmptyError`, a `QueryError`, as soon as
      the poll completes. */
  lemma ConfiguredTimeoutZero(s: Configure.State, q: Query, results: nat -> Result<seq<Handle>, Error>, ticks: seq<Tick>)
    requires HasCriteria(q)
    ensures var configTimeout := Configure.Assign(s, [Configure.TimeoutEntry(0)]).timeout;
      FindAllRun(EffectiveTimeout(None, configTimeout), results, ticks).started == 1
    ensures var configTimeout := Configure.Assign(s, [Configure.TimeoutEntry(0)]).timeout;
      results(0) == Success([]) ==>
        && Find(q, None, configTimeout, results, [AttemptSettles]).settlement == Rejected(Some(EmptyError(Ms(0))))
        && EmptyError(Ms(0)).IsQueryError() && EmptyError(Ms(0)).message == "Unable to find any nodes."
        && var f := Find(q, None, configTimeout, results, ticks).settlement;
           f.Pending? || f == Rejected(Some(EmptyError(Ms(0))))
  {
    var configTimeout := Configure.Assign(s, [Configure.TimeoutEntry(0)]).timeout;
    assert [Configure.TimeoutEntry(0)][1..] == [];
    assert configTimeout == 0;
    var t := EffectiveTimeout(None, configTimeout);
    NoTimeoutSingleAttempt(false, t, Attempts(results, t), ticks);
    assert [AttemptSettles][..0] == [];
    EmptyMessages();
  }

  // ----- Elements of polls that complete after settlement -----

  /** The elements polls `lo` to `hi - 1` found, in order. */
  function PolledElements(results: nat -> Result<seq<Handle>, Error>, lo: nat, hi: nat): seq<Handle>
    decreases hi - lo
  {
    if hi <= lo then []
    else (if results(lo).Success? then results(lo).value else []) + PolledElements(results, lo + 1, hi)
  }

  /** They are exactly the elements of those polls. */
  lemma {:induction false} PolledElementsMembers(results: nat -> Result<seq<Handle>, Error>, lo: nat, hi: nat, h: Handle)
    ensures h in PolledElements(results, lo, hi) <==>
      exists k :: lo <= k < hi && results(k).Success? && h in results(k).value
    decreases hi - lo
  {
    if lo < hi {
      PolledElementsMembers(results, lo + 1, hi, h);
      if h in PolledElements(results, lo + 1, hi) {
        var k :| lo + 1 <= k < hi && results(k).Success? && h in results(k).value;
      }
    }
  }

  /** The number of polls `findAll` has completed. */
  function PollsCompleted(q: Query, timeout: Option<Timeout>, configTimeout: int, results: nat -> Result<seq<Handle>, Error>, ticks: seq<Tick>): nat {
    if !HasCriteria(q) then 0
    else FindAllRun(EffectiveTimeout(timeout, configTimeout), results, ticks).completed
  }

  /** The elements found by polls that completed after `findAll` settled: the poll in flight
      when the timer fired, and the one the loop starts after the pause. `waitFor` drops their
      results, and `findAll` neither returns nor disposes these handles. */
  function LateElements(q: Query, timeout: Option<Timeout>, configTimeout: int, results: nat -> Result<seq<Handle>, Error>, ticks: seq<Tick>): seq<Handle> {
    if !HasCriteria(q) then []
    else
      var m := FindAllRun(EffectiveTimeout(timeout, configTimeout), results, ticks);
      if m.settlement.Pending? then [] else PolledElements(results, m.completedAtSettlement, m.completed)
  }

  /** Every poll finds the node 1. */
  function FoundEachPoll(k: nat): Result<seq<Handle>, Error> {
    Success([Handle(k, 1)])
  }

  /** The first poll finds nothing, every later one finds the node 1. */
  function FoundAfterFirstPoll(k: nat): Result<seq<Handle>, Error> {
    if k == 0 then Success([]) else Success([Handle(k, 1)])
  }

  /** As written, a handle leaks when the timer fires while the first poll is in flight and
      the poll then finds the node: `findAll` rejects with undefined, `find` disposes nothing,
      and the element found is not returned. */
  lemma LateElementsInFlight()
    ensures var q := Query(Some("button"), None, None, None, map[]);
      && FindAll(q, Some(Ms(100)), 3000, FoundEachPoll, [TimerFires, AttemptSettles]) == Rejected(None)
      && LateElements(q, Some(Ms(100)), 3000, FoundEachPoll, [TimerFires, AttemptSettles]) == [Handle(0, 1)]
      && Find(q, Some(Ms(100)), 3000, FoundEachPoll, [TimerFires, AttemptSettles]).disposed == []
  {
    var t := Ms(100);
    var c := Attempts(FoundEachPoll, t);
    assert [TimerFires, AttemptSettles][..1] == [TimerFires];
    assert [TimerFires][..0] == [];
    var a1 := StepAsWritten(Start(t), TimerFires, c);
    assert a1.settlement == Rejected(None) && a1.phase == Running;
    assert RunAsWritten(t, c, [TimerFires]) == a1;
    assert c(0) == AttemptOf(FoundEachPoll(0), t) == Returned([Handle(0, 1)]);
    var a2 := StepAsWritten(a1, AttemptSettles, c);
    assert a2.completed == 1 && a2.completedAtSettlement == 0;
    assert RunAsWritten(t, c, [TimerFires, AttemptSettles]) == a2;
    assert PolledElements(FoundEachPoll, 1, 1) == [];
  }

  /** The loop as written on the schedule invocation fails, timer fires, pause ends, invocation
      returns: rejected after one completed invocation, with a second one completed after. */
  lemma RejectedThenLatePoll<T, E>(callback: nat -> Attempt<T, E>, e: E, v: T)
    requires callback(0) == Threw(e) && callback(1) == Returned(v)
    ensures var m := RunAsWritten(Ms(100), callback, [AttemptSettles, TimerFires, PauseElapses, AttemptSettles]);
      m.settlement == Rejected(Some(e)) && m.completedAtSettlement == 1 && m.completed == 2
  {
    var ticks := [AttemptSettles, TimerFires, PauseElapses, AttemptSettles];
    assert ticks[..3] == [AttemptSettles, TimerFires, PauseElapses];
    assert ticks[..3][..2] == [AttemptSettles, TimerFires];
    assert [AttemptSettles, TimerFires][..1] == [AttemptSettles];
    assert [AttemptSettles][..0] == [];
    var b1 := StepAsWritten(Start(Ms(100)), AttemptSettles, callback);
    assert RunAsWritten(Ms(100), callback, [AttemptSettles]) == b1;
    var b2 := StepAsWritten(b1, TimerFires, callback);
    assert RunAsWritten(Ms(100), callback, [AttemptSettles, TimerFires]) == b2;
    var b3 := StepAsWritten(b2, PauseElapses, callback);
    assert RunAsWritten(Ms(100), callback, ticks[..3]) == b3;
    assert RunAsWritten(Ms(100), callback, ticks) == StepAsWritten(b3, AttemptSettles, callback);
  }

  /** As written, a handle also leaks when the timer fires during the pause after an empty
      poll: the extra poll the loop then starts finds the node after `findAll` rejected with
      `QueryEmptyError`. */
  lemma LateElementsAfterPause()
    ensures var q := Query(Some("button"), None, None, None, map[]);
      var ticks := [AttemptSettles, TimerFires, PauseElapses, AttemptSettles];
      && FindAll(q, Some(Ms(100)), 3000, FoundAfterFirstPoll, ticks) == Rejected(Some(EmptyError(Ms(100))))
      && LateElements(q, Some(Ms(100)), 3000, FoundAfterFirstPoll, ticks) == [Handle(1, 1)]
      && Find(q, Some(Ms(100)), 3000, FoundAfterFirstPoll, ticks).disposed == []
  {
    var t := Ms(100);
    var c := Attempts(FoundAfterFirstPoll, t);
    assert c(0) == AttemptOf(FoundAfterFirstPoll(0), t) == Threw(EmptyError(t));
    assert c(1) == AttemptOf(FoundAfterFirstPoll(1), t) == Returned([Handle(1, 1)]);
    RejectedThenLatePoll(c, EmptyError(t), [Handle(1, 1)]);
    assert PolledElements(FoundAfterFirstPoll, 2, 2) == [];
  }

  /** `findAll` with the evidently intended clean-up: the elements of a poll that completes
      after the promise settled are disposed. */
  datatype Collected = Collected(settlement: Settlement<seq<Handle>, Error>, disposed: seq<Handle>)

  function FindAllDisposing(q: Query, timeout: Option<Timeout>, configTimeout: int, results: nat -> Result<seq<Handle>, Error>, ticks: seq<Tick>): Collected {
    Collected(FindAll(q, timeout, configTimeout, results, ticks), LateElements(q, timeout, configTimeout, results, ticks))
  }

  /** With that clean-up, every element a completed poll found is returned or disposed; only
      such elements are disposed; and a resolved `findAll` disposes nothing. */
  lemma NoElementLeaks(q: Query, timeout: Option<Timeout>, configTimeout: int, results: nat -> Result<seq<Handle>, Error>, ticks: seq<Tick>, k: nat, h: Handle)
    ensures var c := FindAllDisposing(q, timeout, configTimeout, results, ticks);
      k < PollsCompleted(q, timeout, configTimeout, results, ticks) && results(k).Success? && h in results(k).value ==>
        (c.settlement.Resolved? && h in c.settlement.value) || h in c.disposed
    ensures var c := FindAllDisposing(q, timeout, configTimeout, results, ticks);
      h in c.disposed ==> exists j: nat :: j < PollsCompleted(q, timeout, configTimeout, results, ticks) && results(j).Success? && h in results(j).value
    ensures var c := FindAllDisposing(q, timeout, configTimeout, results, ticks);
      c.settlement.Resolved? ==> c.disposed == []
  {
    if HasCriteria(q) {
      var t := EffectiveTimeout(timeout, configTimeout);
      var callback := Attempts(results, t);
      var m := FindAllRun(t, results, ticks);
      InvRun(false, t, callback, ticks);
      assert callback(k) == AttemptOf(results(k), t);
      if !m.settlement.Pending? {
        PolledElementsMembers(results, m.completedAtSettlement, m.completed, h);
      }
    }
  }
}
