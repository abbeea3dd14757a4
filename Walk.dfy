/**
 * `handleElement` (src/svg-js-inline-loader/loader.ts:57-84): the recursive,
 * depth-first walk that pushes statements onto a shared output array and clears a
 * shared root tracker on the first child key it visits.
 */
module Walk {
  import opened Wrappers
  import opened XmlObject
  import opened Statements

  /** The property under which the parser keeps an element's attributes. */
  const AttributesKey := ":@"

  /**
   * What `handleElement(el, name, …)` visits, in order, whatever the tracker holds:
   * a string is one `SetText`; anything else gives the entries of a truthy
   * `el[':@']` and then, for every key `i` of a truthy `el[name]` and every key of
   * `el[name][i]`, an `Open` followed by the walk of `el[name][i]` under that key.
   */
  function Events(el: Value, name: string): seq<Event>
    decreases Size(el), 1
  {
    if el.Str? then [SetText(name, el.text)]
    else
      AttributeEvents(el) +
      match Member(el, name)
      case Some(children) =>
        if Truthy(children) then
          MemberSize(el, name);
          ItemEvents(children, Keys(children))
        else []
      case None => []
  }

  /** loader.ts:64-69: one `SetAttribute` per key of a truthy `el[':@']`, in key order. */
  function AttributeEvents(el: Value): seq<Event> {
    match Member(el, AttributesKey)
    case Some(attrs) => if Truthy(attrs) then AttributeList(attrs, Keys(attrs)) else []
    case None => []
  }

  /** `names.forEach(a => … el[':@'][a] …)`. */
  function AttributeList(attrs: Value, names: seq<string>): seq<Event> {
    if names == [] then []
    else
      var a := names[|names| - 1];
      AttributeList(attrs, names[..|names| - 1]) + [SetAttribute(a, Show(Member(attrs, a)))]
  }

  /** The outer loop (loader.ts:71) over the keys `indices` of `children`. */
  function ItemEvents(children: Value, indices: seq<string>): seq<Event>
    decreases Size(children), 4, |indices|
  {
    if indices == [] then []
    else ItemEvents(children, indices[..|indices| - 1]) + ItemEventsAt(children, indices[|indices| - 1])
  }

  /**
   * One round of the outer loop: the keys of `children[i]`. A key `Object.keys`
   * returned always has a value, so the `None` case never arises.
   */
  function ItemEventsAt(children: Value, i: string): seq<Event>
    decreases Size(children), 3
  {
    match Member(children, i)
    case Some(child) =>
      MemberSize(children, i);
      KeyEvents(child, Keys(child))
    case None => []
  }

  /** The inner loop (loader.ts:73) over the keys `keys` of `child`. */
  function KeyEvents(child: Value, keys: seq<string>): seq<Event>
    decreases Size(child), 2, |keys|
  {
    if keys == [] then []
    else
      var key := keys[|keys| - 1];
      KeyEvents(child, keys[..|keys| - 1]) + ([Open(key)] + Events(child, key))
  }

  /** The children part of `Events` for a node that is not a string. */
  function ChildEvents(el: Value, name: string): seq<Event> {
    match Member(el, name)
    case Some(children) => if Truthy(children) then ItemEvents(children, Keys(children)) else []
    case None => []
  }

  lemma EventsSplit(el: Value, name: string)
    requires !el.Str?
    ensures Events(el, name) == AttributeEvents(el) + ChildEvents(el, name)
  {
  }

  /** One more key of the outer loop. */
  lemma ItemEventsPrefix(children: Value, indices: seq<string>, i: nat)
    requires i < |indices|
    ensures ItemEvents(children, indices[..i + 1]) == ItemEvents(children, indices[..i]) + ItemEventsAt(children, indices[i])
  {
    assert indices[..i + 1][..i] == indices[..i];
  }

  /** One more attribute name. */
  lemma AttributeListPrefix(attrs: Value, names: seq<string>, j: nat)
    requires j < |names|
    ensures AttributeList(attrs, names[..j + 1])
         == AttributeList(attrs, names[..j]) + [SetAttribute(names[j], Show(Member(attrs, names[j])))]
  {
    assert names[..j + 1][..j] == names[..j];
  }

  /** One more key of the inner loop. */
  lemma KeyEventsPrefix(child: Value, keys: seq<string>, k: nat)
    requires k < |keys|
    ensures KeyEvents(child, keys[..k + 1]) == KeyEvents(child, keys[..k]) + ([Open(keys[k])] + Events(child, keys[k]))
  {
    assert keys[..k + 1][..k] == keys[..k];
  }

  lemma Regroup(a: seq<string>, b: seq<string>, c: seq<string>, d: seq<string>)
    ensures a + b + c + d == a + (b + c + d)
  {
  }

  lemma Triple(a: seq<string>, x: string, y: string, z: string)
    ensures a + [x] + [y] + [z] == a + [x, y, z]
  {
  }

  /** The shared `output: string[]`; `push` appends. */
  class OutputBuffer {
    var lines: seq<string>

    constructor ()
      ensures lines == []
    {
      lines := [];
    }

    method Push(line: string)
      modifies this
      ensures lines == old(lines) + [line]
    {
      lines := lines + [line];
    }
  }

  /** `RootTracker` (loader.ts:45-48). */
  class RootTracker {
    var val: bool

    constructor (val: bool)
      ensures this.val == val
    {
      this.val := val;
    }
  }

  /**
   * `handleElement(el, elName, output, isRoot)`. It only appends to `output`, and what
   * it appends is `Render(Events(el, elName), …)` from the tracker's value on entry;
   * the tracker ends as `Render` leaves it. `None` is `null`: nothing happens.
   */
  method HandleElement(el: Option<Value>, elName: string, output: OutputBuffer, isRoot: RootTracker)
    modifies output, isRoot
    decreases if el.Some? then Size(el.value) else 0, 0
    ensures el.None? ==> output.lines == old(output.lines) && isRoot.val == old(isRoot.val)
    ensures el.Some? ==>
      output.lines == old(output.lines) + Render(Events(el.value, elName), old(isRoot.val)).statements
    ensures el.Some? ==> isRoot.val == Render(Events(el.value, elName), old(isRoot.val)).root
  {
    if el.None? {
      return;
    }
    var node := el.value;
    var v := Target(isRoot.val);
    if node.Str? {
      output.Push(TextStatement(v, elName, node.text));
      assert [SetText(elName, node.text)][1..] == [];
      return;
    }
    ghost var root0 := isRoot.val;
    ghost var lines0 := output.lines;
    ghost var attrEvents := AttributeEvents(node);
    var attrs := Member(node, AttributesKey);
    if attrs.Some? && Truthy(attrs.value) {
      PushAttributes(attrs.value, v, isRoot.val, output);
    } else {
      assert attrEvents == [];
    }
    assert output.lines == lines0 + Render(attrEvents, root0).statements;
    assert Render(attrEvents, root0).root == root0 == isRoot.val;
    ghost var mid := output.lines;
    ghost var childEvents := ChildEvents(node, elName);
    var children := Member(node, elName);
    if children.Some? && Truthy(children.value) {
      MemberSize(node, elName);
      VisitItems(children.value, output, isRoot);
    } else {
      assert childEvents == [];
    }
    assert output.lines == mid + Render(childEvents, root0).statements;
    assert isRoot.val == Render(childEvents, root0).root;
    EventsSplit(node, elName);
    RenderConcat(attrEvents, childEvents, root0);
    Assoc(lines0, Render(attrEvents, root0).statements, Render(childEvents, root0).statements);
  }

  /** The outer `forEach` (loader.ts:71-82) over the keys `i` of `el[elName]`. */
  method VisitItems(children: Value, output: OutputBuffer, isRoot: RootTracker)
    modifies output, isRoot
    decreases Size(children), 4
    ensures output.lines == old(output.lines) + Render(ItemEvents(children, Keys(children)), old(isRoot.val)).statements
    ensures isRoot.val == Render(ItemEvents(children, Keys(children)), old(isRoot.val)).root
  {
    ghost var root0 := isRoot.val;
    ghost var lines0 := output.lines;
    var indices := Keys(children);
    var i := 0;
    while i < |indices|
      invariant 0 <= i <= |indices|
      invariant output.lines == lines0 + Render(ItemEvents(children, indices[..i]), root0).statements
      invariant isRoot.val == Render(ItemEvents(children, indices[..i]), root0).root
    {
      ghost var done := ItemEvents(children, indices[..i]);
      VisitItem(children, indices[i], output, isRoot);
      ItemEventsPrefix(children, indices, i);
      RenderConcat(done, ItemEventsAt(children, indices[i]), root0);
      Assoc(lines0, Render(done, root0).statements,
            Render(ItemEventsAt(children, indices[i]), Render(done, root0).root).statements);
      i := i + 1;
    }
    assert indices[..i] == indices;
  }

  /** The body of that `forEach` for one key `i`: walk the keys of `el[elName][i]`. */
  method VisitItem(children: Value, i: string, output: OutputBuffer, isRoot: RootTracker)
    requires i in Keys(children)
    modifies output, isRoot
    decreases Size(children), 3
    ensures output.lines == old(output.lines) + Render(ItemEventsAt(children, i), old(isRoot.val)).statements
    ensures isRoot.val == Render(ItemEventsAt(children, i), old(isRoot.val)).root
  {
    var child := Member(children, i);
    KeysHaveMembers(children, i);
    MemberSize(children, i);
    VisitKeys(child.value, output, isRoot);
  }

  /** loader.ts:64-69: the attribute statements, all against the target `v` chosen on entry. */
  method PushAttributes(attrs: Value, v: char, ghost root: bool, output: OutputBuffer)
    requires v == Target(root)
    modifies output
    ensures output.lines == old(output.lines) + Render(AttributeList(attrs, Keys(attrs)), root).statements
    ensures Render(AttributeList(attrs, Keys(attrs)), root).root == root
  {
    ghost var lines0 := output.lines;
    var names := Keys(attrs);
    var j := 0;
    while j < |names|
      invariant 0 <= j <= |names|
      invariant output.lines == lines0 + Render(AttributeList(attrs, names[..j]), root).statements
      invariant Render(AttributeList(attrs, names[..j]), root).root == root
    {
      ghost var done := AttributeList(attrs, names[..j]);
      var value := Show(Member(attrs, names[j]));
      var line := AttributeStatement(v, names[j], value);
      output.Push(line);
      AttributeListPrefix(attrs, names, j);
      RenderSnoc(done, SetAttribute(names[j], value), root);
      Assoc(lines0, Render(done, root).statements, [line]);
      j := j + 1;
    }
    assert names[..j] == names;
  }

  /**
   * The inner `forEach` (loader.ts:73-81) over the keys of one child object, in key
   * order.
   */
  method VisitKeys(child: Value, output: OutputBuffer, isRoot: RootTracker)
    modifies output, isRoot
    decreases Size(child), 2
    ensures output.lines == old(output.lines) + Render(KeyEvents(child, Keys(child)), old(isRoot.val)).statements
    ensures isRoot.val == Render(KeyEvents(child, Keys(child)), old(isRoot.val)).root
  {
    ghost var root0 := isRoot.val;
    ghost var lines0 := output.lines;
    var keys := Keys(child);
    var k := 0;
    while k < |keys|
      invariant 0 <= k <= |keys|
      invariant output.lines == lines0 + Render(KeyEvents(child, keys[..k]), root0).statements
      invariant isRoot.val == Render(KeyEvents(child, keys[..k]), root0).root
    {
      ghost var done := KeyEvents(child, keys[..k]);
      VisitKey(child, keys[k], output, isRoot);
      KeyEventsPrefix(child, keys, k);
      VisitStep(done, keys[k], Events(child, keys[k]), root0);
      Regroup(lines0, Render(done, root0).statements, EventStatements(Open(keys[k]), Render(done, root0).root),
              Render(Events(child, keys[k]), false).statements);
      k := k + 1;
    }
    assert keys[..k] == keys;
  }

  /**
   * The body of that `forEach` for one key: the parent, element and append statements
   * worded by the tracker, then the tracker cleared and the child walked under the key.
   */
  method VisitKey(child: Value, key: string, output: OutputBuffer, isRoot: RootTracker)
    modifies output, isRoot
    decreases Size(child), 1
    ensures output.lines == old(output.lines) + EventStatements(Open(key), old(isRoot.val))
                            + Render(Events(child, key), false).statements
    ensures isRoot.val == Render(Events(child, key), false).root
  {
    ghost var before := output.lines;
    output.Push(ParentStatement(isRoot.val));
    output.Push(ElementStatement(isRoot.val, key));
    output.Push(AppendStatement);
    Triple(before, ParentStatement(old(isRoot.val)), ElementStatement(old(isRoot.val), key), AppendStatement);
    isRoot.val := false;
    HandleElement(Some(child), key, output, isRoot);
  }
}
