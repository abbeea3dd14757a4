/**
 * What one call of `handleElement` (src/svg-js-inline-loader/loader.ts:57-84) emits,
 * stated against the parsed value itself rather than against the walk: where the
 * attribute statements sit, when a child key is visited, what that does to the root
 * tracker, and how often the root bindings are declared.
 */
module Layout {
  import opened Wrappers
  import opened XmlObject
  import opened Statements
  import opened Walk

  /**
   * The attribute statements of a node, written out directly: one per key of a
   * truthy `':@'`, in key order, all against the target the tracker selects on entry.
   */
  function AttributeLines(el: Value, root: bool): seq<string> {
    match Member(el, AttributesKey)
    case Some(attrs) =>
      if Truthy(attrs) then
        seq(|Keys(attrs)|, j requires 0 <= j < |Keys(attrs)| =>
          AttributeStatement(Target(root), Keys(attrs)[j], Show(Member(attrs, Keys(attrs)[j]))))
      else []
    case None => []
  }

  /** `children[i]` exists and has at least one key, so the inner loop runs. */
  predicate Opens(children: Value, i: string) {
    Member(children, i).Some? && Keys(Member(children, i).value) != []
  }

  /**
   * The node is not a string, `el[name]` is truthy, and one of its entries has a key:
   * exactly when the walk of this node reaches loader.ts:74-80 at least once.
   */
  predicate VisitsChild(el: Value, name: string) {
    && !el.Str?
    && match Member(el, name)
       case Some(children) =>
         Truthy(children) && AnyOpens(children, Keys(children))
       case None => false
  }

  lemma {:induction false} AttributeListShape(attrs: Value, names: seq<string>)
    ensures |AttributeList(attrs, names)| == |names|
    ensures forall j :: 0 <= j < |names| ==>
      AttributeList(attrs, names)[j] == SetAttribute(names[j], Show(Member(attrs, names[j])))
  {
    if names != [] {
      var init := names[..|names| - 1];
      var last := names[|names| - 1];
      AttributeListShape(attrs, init);
      assert AttributeList(attrs, names) == AttributeList(attrs, init) + [SetAttribute(last, Show(Member(attrs, last)))];
      forall j | 0 <= j < |names|
        ensures AttributeList(attrs, names)[j] == SetAttribute(names[j], Show(Member(attrs, names[j])))
      {
        if j < |init| {
          assert init[j] == names[j];
        }
      }
    }
  }

  /** All attribute entries render against the entry tracker, which they leave alone. */
  lemma AttributeListRender(attrs: Value, root: bool)
    ensures !HasOpen(AttributeList(attrs, Keys(attrs)))
    ensures Render(AttributeList(attrs, Keys(attrs)), root).root == root
    ensures Render(AttributeList(attrs, Keys(attrs)), root).statements
         == seq(|Keys(attrs)|, j requires 0 <= j < |Keys(attrs)| =>
              AttributeStatement(Target(root), Keys(attrs)[j], Show(Member(attrs, Keys(attrs)[j]))))
  {
    var evs := AttributeList(attrs, Keys(attrs));
    AttributeListShape(attrs, Keys(attrs));
    assert !HasOpen(evs);
    RenderWithoutOpen(evs, root);
  }

  /** The attribute part of the walk never visits a child and renders to `AttributeLines`. */
  lemma AttributeEventsRender(el: Value, root: bool)
    ensures !HasOpen(AttributeEvents(el))
    ensures Render(AttributeEvents(el), root) == Emitted(AttributeLines(el, root), root)
  {
    match Member(el, AttributesKey)
    case Some(attrs) =>
      AttributeListRender(attrs, root);
    case None =>
  }

  /** The inner loop yields something exactly when there are keys, and starts by visiting the first. */
  lemma {:induction false} KeyEventsStart(child: Value, keys: seq<string>)
    ensures KeyEvents(child, keys) != [] <==> keys != []
    ensures keys != [] ==> KeyEvents(child, keys)[0] == Open(keys[0])
  {
    if keys != [] {
      var init := keys[..|keys| - 1];
      KeyEventsStart(child, init);
      if init != [] {
        assert init[0] == keys[0];
      }
    }
  }

  /**
   * The inner loop (loader.ts:73-77) creates an element for every key of the object it
   * is given, whatever the key: the attribute key `':@'` and the text key `'#text'` of
   * a child included.
   */
  lemma {:induction false} EveryKeyOpened(child: Value, keys: seq<string>)
    ensures forall k :: k in keys ==> Open(k) in KeyEvents(child, keys)
  {
    if keys != [] {
      var init := keys[..|keys| - 1];
      var last := keys[|keys| - 1];
      var before := KeyEvents(child, init);
      var visit := [Open(last)] + Events(child, last);
      EveryKeyOpened(child, init);
      assert KeyEvents(child, keys) == before + visit;
      forall k | k in keys
        ensures Open(k) in before + visit
      {
        if k == last {
          assert visit[0] == Open(k);
        } else {
          assert k in init;
          assert Open(k) in before;
        }
      }
    }
  }

  lemma ItemEventsAtStart(children: Value, i: string)
    ensures ItemEventsAt(children, i) != [] <==> Opens(children, i)
    ensures ItemEventsAt(children, i) != [] ==> ItemEventsAt(children, i)[0].Open?
  {
    match Member(children, i)
    case Some(child) =>
      KeyEventsStart(child, Keys(child));
    case None =>
  }

  /** Some key in `indices` names an entry of `children` that has keys of its own. */
  predicate AnyOpens(children: Value, indices: seq<string>) {
    exists i :: i in indices && Opens(children, i)
  }

  lemma AnyOpensSnoc(children: Value, indices: seq<string>)
    requires indices != []
    ensures AnyOpens(children, indices)
        <==> AnyOpens(children, indices[..|indices| - 1]) || Opens(children, indices[|indices| - 1])
  {
    assert indices == indices[..|indices| - 1] + [indices[|indices| - 1]];
  }

  /** The outer loop yields something exactly when some entry has a key. */
  lemma {:induction false} ItemEventsNonEmpty(children: Value, indices: seq<string>)
    ensures ItemEvents(children, indices) != [] <==> AnyOpens(children, indices)
  {
    if indices != [] {
      var init := indices[..|indices| - 1];
      var last := indices[|indices| - 1];
      ItemEventsNonEmpty(children, init);
      ItemEventsAtStart(children, last);
      AnyOpensSnoc(children, indices);
      assert ItemEvents(children, indices) == ItemEvents(children, init) + ItemEventsAt(children, last);
    }
  }

  /** What the outer loop yields starts with a visit. */
  lemma {:induction false} ItemEventsFirst(children: Value, indices: seq<string>)
    ensures ItemEvents(children, indices) != [] ==> ItemEvents(children, indices)[0].Open?
  {
    if indices != [] {
      var init := indices[..|indices| - 1];
      var last := indices[|indices| - 1];
      ItemEventsFirst(children, init);
      ItemEventsAtStart(children, last);
      assert ItemEvents(children, indices) == ItemEvents(children, init) + ItemEventsAt(children, last);
    }
  }

  lemma ChildEventsStart(el: Value, name: string)
    requires !el.Str?
    ensures ChildEvents(el, name) != [] <==> VisitsChild(el, name)
    ensures ChildEvents(el, name) != [] ==> ChildEvents(el, name)[0].Open?
  {
    match Member(el, name)
    case Some(children) =>
      ItemEventsNonEmpty(children, Keys(children));
      ItemEventsFirst(children, Keys(children));
    case None =>
  }

  /** A child key is visited (some `Open` occurs) exactly when `VisitsChild` holds. */
  lemma OpensIff(el: Value, name: string)
    ensures HasOpen(Events(el, name)) <==> VisitsChild(el, name)
  {
    if el.Str? {
      assert !Events(el, name)[0].Open?;
    } else {
      EventsSplit(el, name);
      AttributeEventsRender(el, false);
      ChildEventsStart(el, name);
      HasOpenConcat(AttributeEvents(el), ChildEvents(el, name));
      if ChildEvents(el, name) != [] {
        assert ChildEvents(el, name)[0].Open?;
      }
    }
  }

  /**
   * Layout of one node (loader.ts:64-83): first its attribute statements, in key order
   * and against the entry target, then the statements of its children; those begin with
   * the parent statement worded by the entry tracker when a child key is visited, and
   * are absent otherwise.
   */
  lemma NodeLayout(el: Value, name: string, root: bool)
    requires !el.Str?
    ensures Render(Events(el, name), root).statements
         == AttributeLines(el, root) + Render(ChildEvents(el, name), root).statements
    ensures !VisitsChild(el, name) ==> Render(Events(el, name), root).statements == AttributeLines(el, root)
  {
    EventsSplit(el, name);
    AttributeEventsRender(el, root);
    RenderConcat(AttributeEvents(el), ChildEvents(el, name), root);
    ChildEventsStart(el, name);
    assert AttributeLines(el, root) + [] == AttributeLines(el, root);
  }

  /**
   * The children part of a node's statements begins, when a child key is visited, with
   * the parent, element and append statements worded by the entry tracker.
   */
  lemma ChildLinesStart(el: Value, name: string, root: bool)
    requires VisitsChild(el, name)
    ensures |Render(ChildEvents(el, name), root).statements| >= 3
    ensures ChildEvents(el, name)[0].Open?
    ensures Render(ChildEvents(el, name), root).statements[..3] == EventStatements(ChildEvents(el, name)[0], root)
    ensures Render(ChildEvents(el, name), root).statements[0] == ParentStatement(root)
    ensures Render(ChildEvents(el, name), root).statements[1] == ElementStatement(root, ChildEvents(el, name)[0].tag)
    ensures Render(ChildEvents(el, name), root).statements[2] == AppendStatement
  {
    ChildEventsStart(el, name);
    RenderFirstOpen(ChildEvents(el, name), root);
  }

  /** An element with no attributes and no children, `{tag: []}`: one key, nothing below it. */
  lemma EmptyElement(tag: string)
    ensures Keys(Obj([(tag, Arr([]))])) == [tag]
    ensures Events(Obj([(tag, Arr([]))]), tag) == []
    ensures KeyEvents(Obj([(tag, Arr([]))]), [tag]) == [Open(tag)]
  {
    var el := Obj([(tag, Arr([]))]);
    assert Member(el, tag) == Some(Arr([]));
    if tag == AttributesKey {
      assert Events(el, tag) == AttributeEvents(el) + ChildEvents(el, tag);
    } else {
      assert Member(el, AttributesKey) == None;
    }
    assert [tag][..0] == [];
  }

  /** The outer loop over a two-item array walks the first item's keys, then the second's. */
  lemma TwoItems(x: Value, y: Value)
    ensures ItemEvents(Arr([x, y]), Keys(Arr([x, y]))) == KeyEvents(x, Keys(x)) + KeyEvents(y, Keys(y))
  {
    var kids := Arr([x, y]);
    var keys := Keys(kids);
    assert |keys| == 2;
    var first := ItemEventsAt(kids, keys[0]);
    var second := ItemEventsAt(kids, keys[1]);
    assert first == KeyEvents(x, Keys(x)) by {
      ItemsReadBack(kids, 0);
    }
    assert second == KeyEvents(y, Keys(y)) by {
      ItemsReadBack(kids, 1);
    }
    assert ItemEvents(kids, keys[..1]) == first by {
      assert keys[..1][..0] == [];
    }
    assert ItemEvents(kids, keys) == ItemEvents(kids, keys[..1]) + second;
  }

  /** The walk of `<svg><a/><b/></svg>` meets the two child keys, in order, and nothing else. */
  lemma SiblingEvents()
    ensures Events(Obj([("svg", Arr([Obj([("a", Arr([]))]), Obj([("b", Arr([]))])]))]), "svg") == [Open("a"), Open("b")]
  {
    var kids := Arr([Obj([("a", Arr([]))]), Obj([("b", Arr([]))])]);
    var doc := Obj([("svg", kids)]);
    assert AttributeEvents(doc) == [] by {
      assert Member(doc, AttributesKey) == None;
    }
    assert ChildEvents(doc, "svg") == [Open("a"), Open("b")] by {
      assert Member(doc, "svg") == Some(kids);
      TwoItems(Obj([("a", Arr([]))]), Obj([("b", Arr([]))]));
      EmptyElement("a");
      EmptyElement("b");
    }
    EventsSplit(doc, "svg");
  }

  /**
   * `<svg><a/><b/></svg>`, as the parser hands it over: the second child is created
   * after `p=e;` (`ParentStatement(false)`), so it is appended to `a`, not to the root.
   */
  lemma SiblingsNest()
    ensures Render(Events(Obj([("svg", Arr([Obj([("a", Arr([]))]), Obj([("b", Arr([]))])]))]), "svg"), true).statements
         == [ ParentStatement(true), ElementStatement(true, "a"), AppendStatement,
              ParentStatement(false), ElementStatement(false, "b"), AppendStatement ]
  {
    SiblingEvents();
    assert [Open("a"), Open("b")][1..] == [Open("b")];
    assert [Open("b")][1..] == [];
  }

  /** A string node (loader.ts:60-62): one statement with the entry target; the tracker is untouched. */
  lemma TextNode(text: string, name: string, root: bool)
    ensures Render(Events(Str(text), name), root) == Emitted([TextStatement(Target(root), name, text)], root)
  {
    assert [SetText(name, text)][1..] == [];
  }

  /**
   * The tracker after a call (loader.ts:78): still set exactly when it was set on entry
   * and no child key was visited.
   */
  lemma TrackerAfterWalk(el: Value, name: string, root: bool)
    ensures Render(Events(el, name), root).root == (root && !VisitsChild(el, name))
  {
    TrackerMonotone(Events(el, name), root);
    OpensIff(el, name);
  }

  /**
   * Declare-once for one call: `let p=`, `let e=` and the binding of `p` to `s` each
   * occur once when the tracker is set on entry and a child key is visited, and never
   * otherwise.
   */
  lemma WalkDeclaresOnce(el: Value, name: string, root: bool)
    ensures Count(Render(Events(el, name), root).statements, DeclaresParent) == if root && VisitsChild(el, name) then 1 else 0
    ensures Count(Render(Events(el, name), root).statements, DeclaresElement) == if root && VisitsChild(el, name) then 1 else 0
    ensures Count(Render(Events(el, name), root).statements, AliasesRoot) == if root && VisitsChild(el, name) then 1 else 0
  {
    DeclareOnce(Events(el, name), root);
    OpensIff(el, name);
  }
}
