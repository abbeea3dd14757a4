/**
 * The JavaScript statements `handleElement` (src/svg-js-inline-loader/loader.ts)
 * emits, and how the root tracker decides their wording.
 *
 * The walk is split in two. `Events` (module Walk) lists, in document order, what the
 * walk visits: attribute entries, string nodes and child keys. `Render` below turns
 * such a list into statements, threading the tracker the way `isRoot.val` is threaded
 * through the recursion: while it is set, statements target `s` and declarations carry
 * `let `; the first child key clears it for good.
 */
module Statements {

  /** `isRoot.val ? 's' : 'e'` (loader.ts:59 and 74). */
  function Target(root: bool): char {
    if root then 's' else 'e'
  }

  /** `isRoot.val ? 'let ' : ''` (loader.ts:75-76). */
  function LetPrefix(root: bool): string {
    if root then "let " else ""
  }

  /** A string node: loader.ts:61. The literal has a space after the comma. */
  function TextStatement(v: char, name: string, value: string): string {
    [v] + ".setAttribute('" + name + "', '" + value + "');"
  }

  /** One entry of an attribute object: loader.ts:67. No space after the comma. */
  function AttributeStatement(v: char, name: string, value: string): string {
    [v] + ".setAttribute('" + name + "','" + value + "');"
  }

  /** loader.ts:75 */
  function ParentStatement(root: bool): string {
    LetPrefix(root) + "p=" + [Target(root)] + ";"
  }

  /** loader.ts:76 */
  function ElementStatement(root: bool, tag: string): string {
    LetPrefix(root) + "e=document.createElement('" + tag + "');"
  }

  /** loader.ts:77 */
  const AppendStatement := "p.appendChild(e);"

  /** What the walk meets, independent of the tracker. */
  datatype Event =
    | SetText(name: string, value: string)       // a string node reached under key `name`
    | SetAttribute(name: string, value: string)  // one entry of a `':@'` object
    | Open(tag: string)                          // one key of a child object

  /** The statements one event emits when the tracker holds `root`. */
  function EventStatements(ev: Event, root: bool): (st: seq<string>)
    ensures |st| == if ev.Open? then 3 else 1
  {
    match ev
    case SetText(name, value) => [TextStatement(Target(root), name, value)]
    case SetAttribute(name, value) => [AttributeStatement(Target(root), name, value)]
    case Open(tag) => [ParentStatement(root), ElementStatement(root, tag), AppendStatement]
  }

  /** Statements pushed, and the tracker's value afterwards. */
  datatype Emitted = Emitted(statements: seq<string>, root: bool)

  /** The statements for `evs` when the tracker starts at `root`; only `Open` clears it (loader.ts:78). */
  function Render(evs: seq<Event>, root: bool): Emitted {
    if evs == [] then Emitted([], root)
    else
      var rest := Render(evs[1..], root && !evs[0].Open?);
      Emitted(EventStatements(evs[0], root) + rest.statements, rest.root)
  }

  predicate HasOpen(evs: seq<Event>) {
    exists j :: 0 <= j < |evs| && evs[j].Open?
  }

  lemma Assoc(a: seq<string>, b: seq<string>, c: seq<string>)
    ensures a + b + c == a + (b + c)
  {
  }

  /** Rendering a concatenation renders the second part from where the first left the tracker. */
  lemma {:induction false} RenderConcat(a: seq<Event>, b: seq<Event>, root: bool)
    ensures Render(a + b, root).statements
         == Render(a, root).statements + Render(b, Render(a, root).root).statements
    ensures Render(a + b, root).root == Render(b, Render(a, root).root).root
  {
    if a == [] {
      assert a + b == b;
    } else {
      var next := root && !a[0].Open?;
      var tail := Render(a[1..], next);
      assert (a + b)[0] == a[0];
      assert (a + b)[1..] == a[1..] + b;
      RenderConcat(a[1..], b, next);
      var later := Render(b, tail.root).statements;
      assert Render(a + b, root).statements == EventStatements(a[0], root) + (tail.statements + later);
      assert Render(a, root).statements == EventStatements(a[0], root) + tail.statements;
      Assoc(EventStatements(a[0], root), tail.statements, later);
    }
  }

  /** One more event after `evs`. */
  lemma RenderSnoc(evs: seq<Event>, ev: Event, root: bool)
    ensures Render(evs + [ev], root).statements
         == Render(evs, root).statements + EventStatements(ev, Render(evs, root).root)
    ensures Render(evs + [ev], root).root == (Render(evs, root).root && !ev.Open?)
  {
    RenderConcat(evs, [ev], root);
    assert [ev][1..] == [];
  }

  /** A child key after `before`: its three statements from the tracker `before` left, then `rest` from a cleared tracker. */
  lemma VisitStep(before: seq<Event>, tag: string, rest: seq<Event>, root: bool)
    ensures Render(before + ([Open(tag)] + rest), root).statements
         == Render(before, root).statements + EventStatements(Open(tag), Render(before, root).root)
          + Render(rest, false).statements
    ensures Render(before + ([Open(tag)] + rest), root).root == Render(rest, false).root
  {
    RenderConcat(before, [Open(tag)] + rest, root);
    assert ([Open(tag)] + rest)[1..] == rest;
  }

  /**
   * Once a child key has been visited, every later one binds the parent to `e`, the
   * element created last, rather than to the node whose key it is.
   */
  lemma LaterOpenReparents(before: seq<Event>, tag: string, rest: seq<Event>, root: bool)
    requires HasOpen(before)
    ensures |Render(before, root).statements| + 3 <= |Render(before + ([Open(tag)] + rest), root).statements|
    ensures Render(before + ([Open(tag)] + rest), root).statements[|Render(before, root).statements|] == "p=e;"
  {
    VisitStep(before, tag, rest, root);
    TrackerMonotone(before, root);
    assert ParentStatement(false) == "p=e;";
    var done := Render(before, root).statements;
    var all := done + EventStatements(Open(tag), false) + Render(rest, false).statements;
    assert all[|done|] == EventStatements(Open(tag), false)[0];
  }

  /** Events that begin with a child key render first its three statements, the parent statement leading. */
  lemma RenderFirstOpen(evs: seq<Event>, root: bool)
    requires evs != [] && evs[0].Open?
    ensures |Render(evs, root).statements| >= 3
    ensures Render(evs, root).statements[..3] == EventStatements(evs[0], root)
    ensures Render(evs, root).statements[0] == ParentStatement(root)
  {
  }

  lemma HasOpenConcat(a: seq<Event>, b: seq<Event>)
    ensures HasOpen(a + b) <==> HasOpen(a) || HasOpen(b)
  {
    if HasOpen(a + b) {
      var j :| 0 <= j < |a + b| && (a + b)[j].Open?;
      if j >= |a| {
        assert b[j - |a|].Open?;
      }
    }
    if HasOpen(a) {
      var j :| 0 <= j < |a| && a[j].Open?;
      assert (a + b)[j].Open?;
    }
    if HasOpen(b) {
      var j :| 0 <= j < |b| && b[j].Open?;
      assert (a + b)[|a| + j].Open?;
    }
  }

  /**
   * The tracker is monotone: it ends set exactly when it started set and no child key
   * was visited. It never goes from false back to true.
   */
  lemma {:induction false} TrackerMonotone(evs: seq<Event>, root: bool)
    ensures Render(evs, root).root == (root && !HasOpen(evs))
  {
    if evs != [] {
      TrackerMonotone(evs[1..], root && !evs[0].Open?);
      assert evs == [evs[0]] + evs[1..];
      HasOpenConcat([evs[0]], evs[1..]);
      assert HasOpen([evs[0]]) == evs[0].Open?;
    }
  }

  /** Without a child key nothing changes target: every event renders against the starting tracker. */
  lemma {:induction false} RenderWithoutOpen(evs: seq<Event>, root: bool)
    requires !HasOpen(evs)
    ensures |Render(evs, root).statements| == |evs|
    ensures forall j :: 0 <= j < |evs| ==> Render(evs, root).statements[j] == EventStatements(evs[j], root)[0]
    ensures Render(evs, root).root == root
  {
    if evs != [] {
      assert evs == [evs[0]] + evs[1..];
      HasOpenConcat([evs[0]], evs[1..]);
      assert !evs[0].Open?;
      RenderWithoutOpen(evs[1..], root);
    }
  }

  /** `let p=`: declares the parent binding. */
  predicate DeclaresParent(st: string) {
    |st| >= 6 && st[..6] == "let p="
  }

  /** `let e=`: declares the element binding. */
  predicate DeclaresElement(st: string) {
    |st| >= 6 && st[..6] == "let e="
  }

  /** Binds the parent to the root element (`p=s`, with or without `let`). */
  predicate AliasesRoot(st: string) {
    st == "let p=s;" || st == "p=s;"
  }

  function Count(sts: seq<string>, p: string -> bool): nat {
    if sts == [] then 0 else Count(sts[..|sts| - 1], p) + (if p(sts[|sts| - 1]) then 1 else 0)
  }

  lemma {:induction false} CountConcat(a: seq<string>, b: seq<string>, p: string -> bool)
    ensures Count(a + b, p) == Count(a, p) + Count(b, p)
  {
    if b == [] {
      assert a + b == a;
    } else {
      assert (a + b)[..|a + b| - 1] == a + b[..|b| - 1];
      assert (a + b)[|a + b| - 1] == b[|b| - 1];
      CountConcat(a, b[..|b| - 1], p);
      assert Count(b, p) == Count(b[..|b| - 1], p) + (if p(b[|b| - 1]) then 1 else 0);
    }
  }

  lemma CountThree(x: string, y: string, z: string, p: string -> bool)
    ensures Count([x, y, z], p) == (if p(x) then 1 else 0) + (if p(y) then 1 else 0) + (if p(z) then 1 else 0)
  {
    assert [x, y, z][..2] == [x, y];
    assert [x, y][..1] == [x];
    assert [x][..0] == [];
    assert Count([x], p) == if p(x) then 1 else 0;
    assert Count([x, y], p) == Count([x], p) + if p(y) then 1 else 0;
  }

  lemma CountOne(x: string, p: string -> bool)
    ensures Count([x], p) == if p(x) then 1 else 0
  {
    assert [x][..0] == [];
  }

  /** A statement that does not start with `l` or `p` neither declares nor aliases the root. */
  lemma PlainStatement(st: string)
    requires |st| > 0 && st[0] != 'l' && st[0] != 'p'
    ensures !DeclaresParent(st) && !DeclaresElement(st) && !AliasesRoot(st)
  {
    assert "let p=s;"[0] == 'l' && "p=s;"[0] == 'p';
    if |st| >= 6 {
      assert st[..6][0] == st[0];
    }
  }

  /** Which of the three statements of a child key declare, and which alias the root. */
  lemma OpenStatementKinds(root: bool, tag: string)
    ensures DeclaresParent(ParentStatement(root)) == root && AliasesRoot(ParentStatement(root)) == root
    ensures !DeclaresElement(ParentStatement(root))
    ensures DeclaresElement(ElementStatement(root, tag)) == root
    ensures !DeclaresParent(ElementStatement(root, tag)) && !AliasesRoot(ElementStatement(root, tag))
    ensures !DeclaresParent(AppendStatement) && !DeclaresElement(AppendStatement) && !AliasesRoot(AppendStatement)
  {
    var e := ElementStatement(root, tag);
    assert AppendStatement[..6] == "p.appe";
    if root {
      assert ParentStatement(root) == "let p=s;";
      assert e[..6] == "let e=";
      assert |e| > 8;
    } else {
      assert ParentStatement(root) == "p=e;";
      assert e[0] == 'e';
      PlainStatement(e);
    }
  }

  /** Each event declares (and aliases the root) once if it is a child key met while the tracker is set, else never. */
  lemma EventDeclarations(ev: Event, root: bool)
    ensures Count(EventStatements(ev, root), DeclaresParent) == if root && ev.Open? then 1 else 0
    ensures Count(EventStatements(ev, root), DeclaresElement) == if root && ev.Open? then 1 else 0
    ensures Count(EventStatements(ev, root), AliasesRoot) == if root && ev.Open? then 1 else 0
  {
    match ev
    case Open(tag) =>
      var e := ElementStatement(root, tag);
      OpenStatementKinds(root, tag);
      CountThree(ParentStatement(root), e, AppendStatement, DeclaresParent);
      CountThree(ParentStatement(root), e, AppendStatement, DeclaresElement);
      CountThree(ParentStatement(root), e, AppendStatement, AliasesRoot);
    case SetText(name, value) =>
      var st := TextStatement(Target(root), name, value);
      assert st[0] == Target(root);
      PlainStatement(st);
      CountOne(st, DeclaresParent);
      CountOne(st, DeclaresElement);
      CountOne(st, AliasesRoot);
    case SetAttribute(name, value) =>
      var st := AttributeStatement(Target(root), name, value);
      assert st[0] == Target(root);
      PlainStatement(st);
      CountOne(st, DeclaresParent);
      CountOne(st, DeclaresElement);
      CountOne(st, AliasesRoot);
  }

  /**
   * Declare-once: `let p=`, `let e=` and the `p=s` alias each occur exactly once when
   * the tracker starts set and some child key is visited, and never otherwise.
   */
  lemma {:induction false} DeclareOnce(evs: seq<Event>, root: bool)
    ensures Count(Render(evs, root).statements, DeclaresParent) == if root && HasOpen(evs) then 1 else 0
    ensures Count(Render(evs, root).statements, DeclaresElement) == if root && HasOpen(evs) then 1 else 0
    ensures Count(Render(evs, root).statements, AliasesRoot) == if root && HasOpen(evs) then 1 else 0
  {
    if evs != [] {
      var first := evs[0];
      var next := root && !first.Open?;
      assert evs == [first] + evs[1..];
      HasOpenConcat([first], evs[1..]);
      assert HasOpen([first]) == first.Open?;
      DeclareOnce(evs[1..], next);
      EventDeclarations(first, root);
      var later := Render(evs[1..], next).statements;
      CountConcat(EventStatements(first, root), later, DeclaresParent);
      CountConcat(EventStatements(first, root), later, DeclaresElement);
      CountConcat(EventStatements(first, root), later, AliasesRoot);
    }
  }

  predicate QuoteFree(s: string) {
    forall k :: 0 <= k < |s| ==> s[k] != '\''
  }

  /** The index of the first single quote at or after `i`, or `|s|` when there is none. */
  function QuoteFrom(s: string, i: nat): nat
    decreases |s| - i
  {
    if i >= |s| then |s| else if s[i] == '\'' then i else QuoteFrom(s, i + 1)
  }

  lemma {:induction false} QuoteAfter(s: string, i: nat, n: string)
    requires i + |n| < |s| && s[i..i + |n|] == n && QuoteFree(n) && s[i + |n|] == '\''
    ensures QuoteFrom(s, i) == i + |n|
    decreases |n|
  {
    if n != [] {
      assert s[i] == n[0];
      assert s[i + 1..i + 1 + |n[1..]|] == n[1..];
      QuoteAfter(s, i + 1, n[1..]);
    }
  }

  /** Where the target, name and value sit inside an attribute statement. */
  lemma AttributeStatementLayout(v: char, n: string, x: string)
    ensures |AttributeStatement(v, n, x)| == 22 + |n| + |x|
    ensures AttributeStatement(v, n, x)[0] == v
    ensures AttributeStatement(v, n, x)[16..16 + |n|] == n
    ensures AttributeStatement(v, n, x)[16 + |n|] == '\''
    ensures AttributeStatement(v, n, x)[19 + |n|..19 + |n| + |x|] == x
  {
    var head := [v] + ".setAttribute('";
    var tail := "','" + x + "');";
    assert |head| == 16;
    assert AttributeStatement(v, n, x) == head + n + tail;
    assert (head + n + tail)[16..16 + |n|] == n;
    assert (head + n + tail)[16 + |n|..] == tail;
    assert tail[0] == '\'';
    assert tail[3..3 + |x|] == x;
  }

  /**
   * Values are embedded verbatim. When neither name nor value holds a single quote the
   * statement determines its target, name and value.
   */
  lemma AttributeStatementInjective(v1: char, n1: string, x1: string, v2: char, n2: string, x2: string)
    requires QuoteFree(n1) && QuoteFree(x1) && QuoteFree(n2) && QuoteFree(x2)
    requires AttributeStatement(v1, n1, x1) == AttributeStatement(v2, n2, x2)
    ensures v1 == v2 && n1 == n2 && x1 == x2
  {
    var st := AttributeStatement(v1, n1, x1);
    AttributeStatementLayout(v1, n1, x1);
    AttributeStatementLayout(v2, n2, x2);
    QuoteAfter(st, 16, n1);
    QuoteAfter(st, 16, n2);
    assert |n1| == |n2|;
    assert |x1| == |x2|;
  }

  /** With a quote in a value, two different attributes render to the same statement. */
  lemma AttributeStatementCollision()
    ensures AttributeStatement('s', "a','b", "c") == AttributeStatement('s', "a", "b','c")
  {
  }
}
