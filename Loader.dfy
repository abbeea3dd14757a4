/**
 * `SVGJSInlineLoader` (src/svg-js-inline-loader/loader.ts:22-43): turns a parsed SVG
 * document into the source of a module whose default export builds that document
 * with `document.createElement` calls.
 *
 * The XML parser and the webpack loader context are outside the model: the parse
 * result is a parameter (`None` for `null`), and so is the `cjsModule` option.
 */
module Loader {
  import opened Wrappers
  import opened XmlObject
  import opened Statements
  import opened Walk
  import opened Layout

  /** loader.ts:28 */
  const CjsHeader := "module.exports=function(){"
  /** loader.ts:30 */
  const EsmHeader := "export default function(){"
  /** loader.ts:38: the root element, bound to `s`. */
  const RootStatement := "const s=document.createElement('svg');"
  /** loader.ts:40 */
  const ReturnStatement := "return s;"
  /** loader.ts:41 */
  const CloseStatement := "}"

  /** The name the root element must carry, and under which it is walked (loader.ts:35, 39). */
  const RootName := "svg"

  /** Why the loader throws instead of returning. */
  datatype LoadError =
    | UnableToParseSvg  // `new Error('Unable to parse SVG')`: null parse, or no `svg` key on the first node
    | NoFirstNode       // an empty parse result: `Object.keys(undefined)` throws a TypeError

  /** `Array.prototype.join('')`. */
  function Concat(lines: seq<string>): string {
    if lines == [] then "" else Concat(lines[..|lines| - 1]) + lines[|lines| - 1]
  }

  predicate StartsWith(s: string, prefix: string) {
    |prefix| <= |s| && s[..|prefix|] == prefix
  }

  predicate EndsWith(s: string, suffix: string) {
    |suffix| <= |s| && s[|s| - |suffix|..] == suffix
  }

  /** The header chosen by the `cjsModule` option (loader.ts:27-31). */
  function Header(cjsModule: bool): string {
    if cjsModule then CjsHeader else EsmHeader
  }

  /** The loader accepts the parse: it is not `null`, it has a first node, and that node has an `svg` key. */
  predicate IsSvgDocument(parsed: Option<seq<Value>>) {
    parsed.Some? && |parsed.value| > 0 && RootName in Keys(parsed.value[0])
  }

  /** The lines around the walk: header and root statement before it, `return s;` and `}` after it. */
  function Frame(header: string, walk: seq<string>): seq<string> {
    [header, RootStatement] + walk + [ReturnStatement, CloseStatement]
  }

  /** Every line the loader pushes for an accepted document whose first node is `first`. */
  function DocumentLines(first: Value, cjsModule: bool): seq<string> {
    Frame(Header(cjsModule), Render(Events(first, RootName), true).statements)
  }

  /**
   * The loader. It throws (an `Err`, with nothing returned) exactly when the parse is
   * `null`, empty, or its first node has no `svg` key; otherwise it returns the joined
   * lines: the header, the root statement, the walk of the first node under `svg` with
   * the tracker set, `return s;` and `}`.
   */
  method SVGJSInlineLoader(parsed: Option<seq<Value>>, cjsModule: bool) returns (r: Result<string, LoadError>)
    ensures parsed.None? ==> r == Err(UnableToParseSvg)
    ensures parsed == Some([]) ==> r == Err(NoFirstNode)
    ensures parsed.Some? && parsed.value != [] && RootName !in Keys(parsed.value[0]) ==> r == Err(UnableToParseSvg)
    ensures r.Ok? <==> IsSvgDocument(parsed)
    ensures r.Ok? ==> r.value == Concat(DocumentLines(parsed.value[0], cjsModule))
    ensures r.Ok? ==> (StartsWith(r.value, CjsHeader) <==> cjsModule) && (StartsWith(r.value, EsmHeader) <==> !cjsModule)
    ensures r.Ok? ==> StartsWith(r.value, Header(cjsModule) + RootStatement) && EndsWith(r.value, "return s;}")
  {
    var output := new OutputBuffer();
    if cjsModule {
      output.Push(CjsHeader);
    } else {
      output.Push(EsmHeader);
    }
    assert output.lines == [Header(cjsModule)];
    if parsed.None? {
      return Err(UnableToParseSvg);
    }
    if |parsed.value| == 0 {
      return Err(NoFirstNode);
    }
    var first := parsed.value[0];
    if RootName !in Keys(first) {
      return Err(UnableToParseSvg);
    }
    output.Push(RootStatement);
    var isRoot := new RootTracker(true);
    HandleElement(Some(first), RootName, output, isRoot);
    output.Push(ReturnStatement);
    output.Push(CloseStatement);
    assert IsSvgDocument(parsed);
    FrameLines(Header(cjsModule), Render(Events(first, RootName), true).statements);
    Framing(cjsModule, Render(Events(first, RootName), true).statements);
    return Ok(Concat(output.lines));
  }

  lemma FrameLines(header: string, walk: seq<string>)
    ensures [header] + [RootStatement] + walk + [ReturnStatement] + [CloseStatement] == Frame(header, walk)
  {
  }

  /** Joining distributes over concatenation. */
  lemma {:induction false} ConcatAppend(a: seq<string>, b: seq<string>)
    ensures Concat(a + b) == Concat(a) + Concat(b)
  {
    if b == [] {
      assert a + b == a;
    } else {
      var init := b[..|b| - 1];
      ConcatAppend(a, init);
      assert (a + b)[..|a + b| - 1] == a + init;
    }
  }

  lemma ConcatOne(line: string)
    ensures Concat([line]) == line
  {
    assert [line][..0] == [];
  }

  lemma ConcatTwo(x: string, y: string)
    ensures Concat([x, y]) == x + y
  {
    ConcatAppend([x], [y]);
    ConcatOne(x);
    ConcatOne(y);
    assert [x, y] == [x] + [y];
  }

  /** The module text: header, root statement, the joined walk, then `return s;}`. */
  lemma FrameText(header: string, walk: seq<string>)
    ensures Concat(Frame(header, walk)) == header + RootStatement + Concat(walk) + "return s;}"
  {
    ConcatAppend([header, RootStatement] + walk, [ReturnStatement, CloseStatement]);
    ConcatAppend([header, RootStatement], walk);
    ConcatTwo(header, RootStatement);
    ConcatTwo(ReturnStatement, CloseStatement);
  }

  /**
   * Framing: the module starts with the CommonJS header exactly when `cjsModule` is set
   * and with the ES module header exactly when it is not, the root element is created
   * right after the header, and the text ends with `return s;}`; whatever the walk emits
   * lies in between.
   */
  lemma Framing(cjsModule: bool, walk: seq<string>)
    ensures StartsWith(Concat(Frame(Header(cjsModule), walk)), CjsHeader) <==> cjsModule
    ensures StartsWith(Concat(Frame(Header(cjsModule), walk)), EsmHeader) <==> !cjsModule
    ensures StartsWith(Concat(Frame(Header(cjsModule), walk)), Header(cjsModule) + RootStatement)
    ensures EndsWith(Concat(Frame(Header(cjsModule), walk)), "return s;}")
  {
    var h := Header(cjsModule);
    var head := h + RootStatement;
    var text := Concat(Frame(h, walk));
    FrameText(h, walk);
    assert text == head + (Concat(walk) + "return s;}");
    assert text[..|head|] == head;
    assert text[..|h|] == h by {
      assert head[..|h|] == h;
    }
    assert text[|text| - 10..] == "return s;}";
    if cjsModule {
      assert text[0] == 'm' != EsmHeader[0];
    } else {
      assert text[0] == 'e' != CjsHeader[0];
    }
  }

  /** The four framing lines never declare or alias, so counts come from the walk alone. */
  lemma FrameCount(header: string, walk: seq<string>, p: string -> bool)
    requires !p(header) && !p(RootStatement) && !p(ReturnStatement) && !p(CloseStatement)
    ensures Count(Frame(header, walk), p) == Count(walk, p)
  {
    CountConcat([header, RootStatement] + walk, [ReturnStatement, CloseStatement], p);
    CountConcat([header, RootStatement], walk, p);
    CountConcat([header], [RootStatement], p);
    CountConcat([ReturnStatement], [CloseStatement], p);
    CountOne(header, p);
    CountOne(RootStatement, p);
    CountOne(ReturnStatement, p);
    CountOne(CloseStatement, p);
    assert [header, RootStatement] == [header] + [RootStatement];
    assert [ReturnStatement, CloseStatement] == [ReturnStatement] + [CloseStatement];
  }

  /**
   * Declare-once over the whole module: `let p=`, `let e=` and the binding of `p` to
   * `s` each appear in exactly one line when the root element has a child key, and in
   * none otherwise.
   */
  lemma DocumentDeclaresOnce(first: Value, cjsModule: bool)
    ensures Count(DocumentLines(first, cjsModule), DeclaresParent) == if VisitsChild(first, RootName) then 1 else 0
    ensures Count(DocumentLines(first, cjsModule), DeclaresElement) == if VisitsChild(first, RootName) then 1 else 0
    ensures Count(DocumentLines(first, cjsModule), AliasesRoot) == if VisitsChild(first, RootName) then 1 else 0
  {
    var walk := Render(Events(first, RootName), true).statements;
    var h := Header(cjsModule);
    WalkDeclaresOnce(first, RootName, true);
    assert h[0] == 'm' || h[0] == 'e';
    PlainStatement(h);
    PlainStatement(RootStatement);
    PlainStatement(ReturnStatement);
    PlainStatement(CloseStatement);
    FrameCount(h, walk, DeclaresParent);
    FrameCount(h, walk, DeclaresElement);
    FrameCount(h, walk, AliasesRoot);
  }

  /** After the walk the tracker is cleared exactly when the root element had a child key. */
  lemma RootTrackerAfterDocument(first: Value)
    ensures Render(Events(first, RootName), true).root == !VisitsChild(first, RootName)
  {
    TrackerAfterWalk(first, RootName, true);
  }
}
