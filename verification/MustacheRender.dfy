/** Rendering of the template engine (auth/frontend/mustache.js), and the proof that
    squashing tokens does not change what is rendered.
 */
module MustacheRender {
  import opened Strings
  import opened MustacheEscape
  import opened MustacheTokens

  /** View values, as far as rendering looks at them: null or undefined, arrays, objects,
      and everything else with its truth value. Functions are not among them. */
  datatype Value = Null | List(elems: seq<Value>) | Object(id: nat) | Primitive(id: nat, truthy: bool)

  /** A context is the current view followed by its parents. */
  type Context = seq<Value>

  /** How names are looked up in a context, and how values become strings. */
  datatype Environment = Environment(lookup: (Context, string) -> Value, show: Value -> string)

  function Render(nodes: seq<Node>, env: Environment, context: Context): string
    decreases nodes, 0
  {
    if nodes == [] then ""
    else Render(nodes[..|nodes| - 1], env, context) + RenderNode(nodes[|nodes| - 1], env, context)
  }

  function RenderNode(n: Node, env: Environment, context: Context): string
    decreases n
  {
    var value := env.lookup(context, n.token.value);
    match n
    case Nested(t, children, _) =>
      if t.kind == Section then
        match value
        case Null => ""
        case List(elems) => RenderEach(children, env, context, elems)
        case Object(_) => Render(children, env, [value] + context)
        case Primitive(_, truthy) => if truthy then Render(children, env, context) else ""
      else if Falsy(value) then Render(children, env, context)
      else ""
    case Leaf(t) =>
      match t.kind
      case Text => t.value
      case Unescaped => if value == Null then "" else env.show(value)
      case Name => if value == Null then "" else EscapeHtml(env.show(value))
      case _ => ""
  }

  /** Falsy in JavaScript's sense, or an empty array. */
  predicate Falsy(value: Value) {
    match value
    case Null => true
    case List(elems) => elems == []
    case Object(_) => false
    case Primitive(_, truthy) => !truthy
  }

  /** A section over an array: once per element, with the element as the view. */
  function RenderEach(children: seq<Node>, env: Environment, context: Context, elems: seq<Value>): string
    decreases children, 1 + |elems|
  {
    if elems == [] then ""
    else RenderEach(children, env, context, elems[..|elems| - 1]) + Render(children, env, [elems[|elems| - 1]] + context)
  }

  /** The loop of renderTokens over its buffer. */
  method RenderTokens(nodes: seq<Node>, env: Environment, context: Context) returns (buffer: string)
    ensures buffer == Render(nodes, env, context)
    decreases nodes
  {
    buffer := "";
    for i := 0 to |nodes|
      invariant buffer == Render(nodes[..i], env, context)
    {
      assert nodes[..i + 1][..i] == nodes[..i];
      var text := RenderToken(nodes[i], env, context);
      buffer := buffer + text;
    }
    assert nodes[..|nodes|] == nodes;
  }

  method RenderToken(n: Node, env: Environment, context: Context) returns (text: string)
    ensures text == RenderNode(n, env, context)
    decreases n
  {
    text := "";
    var value := env.lookup(context, n.token.value);
    match n.token.kind {
      case Section =>
        if n.Nested? {
          match value {
            case List(elems) =>
              for j := 0 to |elems|
                invariant text == RenderEach(n.children, env, context, elems[..j])
              {
                assert elems[..j + 1][..j] == elems[..j];
                var part := RenderTokens(n.children, env, [elems[j]] + context);
                text := text + part;
              }
              assert elems[..|elems|] == elems;
            case Object(_) =>
              text := RenderTokens(n.children, env, [value] + context);
            case Primitive(_, truthy) =>
              if truthy {
                text := RenderTokens(n.children, env, context);
              }
            case Null =>
          }
        }
      case _ =>
        if n.Nested? {
          if Falsy(value) {
            text := RenderTokens(n.children, env, context);
          }
        } else if n.token.kind == Unescaped {
          if value != Null {
            text := env.show(value);
          }
        } else if n.token.kind == Name {
          if value != Null {
            text := EscapeHtml(env.show(value));
          }
        } else if n.token.kind == Text {
          text := n.token.value;
        }
    }
  }

  // ----- what each kind of node shows -----

  lemma RenderOne(n: Node, env: Environment, context: Context)
    ensures Render([n], env, context) == RenderNode(n, env, context)
  {
    assert [n][..0] == [];
  }

  /** A list of nodes renders to the texts of its parts, one after the other. */
  lemma {:induction false} RenderAppend(a: seq<Node>, b: seq<Node>, env: Environment, context: Context)
    ensures Render(a + b, env, context) == Render(a, env, context) + Render(b, env, context)
    decreases |b|
  {
    if b == [] {
      assert a + b == a;
    } else {
      var n := b[|b| - 1];
      assert (a + b)[..|a + b| - 1] == a + b[..|b| - 1];
      RenderAppend(a, b[..|b| - 1], env, context);
    }
  }

  /** Text shows as it is; a comment, a change of delimiters and a partial show nothing. */
  lemma TextRenders(t: Token, env: Environment, context: Context)
    requires !Opens(t) && t.kind != Name && t.kind != Unescaped
    ensures Render([Leaf(t)], env, context) == if t.kind == Text then t.value else ""
  {
    RenderOne(Leaf(t), env, context);
  }

  /** A variable shows its value without any markup character, so that unescaping gives the
      value back; null shows nothing. */
  lemma NameRenders(t: Token, env: Environment, context: Context)
    requires t.kind == Name
    ensures var shown, value := Render([Leaf(t)], env, context), env.lookup(context, t.value);
            && (value == Null ==> shown == "")
            && (value != Null ==> Unescape(shown) == env.show(value))
            && '<' !in shown && '>' !in shown && '"' !in shown && '\'' !in shown && '/' !in shown
  {
    RenderOne(Leaf(t), env, context);
    var value := env.lookup(context, t.value);
    if value != Null {
      UnescapeEscape(env.show(value));
      forall i: nat | i < |EscapeHtml(env.show(value))|
        ensures EscapeHtml(env.show(value))[i] !in {'<', '>', '"', '\'', '/'}
      {
        EscapedIsSafe(env.show(value), i);
      }
    }
  }

  /** An unescaped variable shows its value as it is. */
  lemma UnescapedRenders(t: Token, env: Environment, context: Context)
    requires t.kind == Unescaped
    ensures var value := env.lookup(context, t.value);
            Render([Leaf(t)], env, context) == if value == Null then "" else env.show(value)
  {
    RenderOne(Leaf(t), env, context);
  }

  function Concat(parts: seq<string>): string {
    if parts == [] then "" else parts[0] + Concat(parts[1..])
  }

  lemma {:induction false} ConcatSnoc(parts: seq<string>, s: string)
    ensures Concat(parts + [s]) == Concat(parts) + s
  {
    if parts == [] {
      assert parts + [s] == [s];
    } else {
      assert (parts + [s])[1..] == parts[1..] + [s];
      ConcatSnoc(parts[1..], s);
    }
  }

  lemma {:induction false} EachIsConcat(children: seq<Node>, env: Environment, context: Context, elems: seq<Value>)
    returns (parts: seq<string>)
    ensures |parts| == |elems|
    ensures forall i | 0 <= i < |elems| :: parts[i] == Render(children, env, [elems[i]] + context)
    ensures RenderEach(children, env, context, elems) == Concat(parts)
    decreases |elems|
  {
    hide Render;
    parts := [];
    if elems != [] {
      var k := |elems| - 1;
      parts := EachIsConcat(children, env, context, elems[..k]);
      ConcatSnoc(parts, Render(children, env, [elems[k]] + context));
      parts := parts + [Render(children, env, [elems[k]] + context)];
    }
  }

  /** A section over a list shows its children once for each element, in order, with the
      element as the view. */
  lemma SectionOverList(t: Token, children: seq<Node>, close: nat, env: Environment, context: Context) returns (parts: seq<string>)
    requires t.kind == Section && env.lookup(context, t.value).List?
    ensures var elems := env.lookup(context, t.value).elems;
            && |parts| == |elems|
            && (forall i | 0 <= i < |elems| :: parts[i] == Render(children, env, [elems[i]] + context))
    ensures Render([Nested(t, children, close)], env, context) == Concat(parts)
  {
    RenderOne(Nested(t, children, close), env, context);
    parts := EachIsConcat(children, env, context, env.lookup(context, t.value).elems);
  }

  /** A section over anything else: once with an object as the view, once if the value is
      true, else not at all. */
  lemma SectionOverValue(t: Token, children: seq<Node>, close: nat, env: Environment, context: Context)
    requires t.kind == Section && !env.lookup(context, t.value).List?
    ensures var value := env.lookup(context, t.value);
            Render([Nested(t, children, close)], env, context) ==
              if value.Object? then Render(children, env, [value] + context)
              else if value.Primitive? && value.truthy then Render(children, env, context)
              else ""
  {
    RenderOne(Nested(t, children, close), env, context);
  }

  /** An inverted section shows its children exactly when the value is null, false or an
      empty list. */
  lemma InvertedRenders(t: Token, children: seq<Node>, close: nat, env: Environment, context: Context)
    requires t.kind == Inverted
    ensures var value := env.lookup(context, t.value);
            Render([Nested(t, children, close)], env, context) ==
              if value == Null || value == List([]) || (value.Primitive? && !value.truthy) then Render(children, env, context)
              else ""
  {
    RenderOne(Nested(t, children, close), env, context);
  }

  // ----- node lists that render alike -----

  /** The two lists render to the same text in every context. */
  ghost predicate Alike(a: seq<Node>, b: seq<Node>) {
    forall env, context :: Render(a, env, context) == Render(b, env, context)
  }

  lemma RenderSnoc(nodes: seq<Node>, n: Node, env: Environment, context: Context)
    ensures Render(nodes + [n], env, context) == Render(nodes, env, context) + RenderNode(n, env, context)
  {
    assert (nodes + [n])[..|nodes|] == nodes;
  }

  lemma AlikeSnoc(a: seq<Node>, b: seq<Node>, n: Node)
    requires Alike(a, b)
    ensures Alike(a + [n], b + [n])
  {
    forall env, context
      ensures Render(a + [n], env, context) == Render(b + [n], env, context)
    {
      RenderSnoc(a, n, env, context);
      RenderSnoc(b, n, env, context);
      assert Render(a, env, context) == Render(b, env, context);
    }
  }

  lemma {:induction false} EachAlike(a: seq<Node>, b: seq<Node>, env: Environment, context: Context, elems: seq<Value>)
    requires Alike(a, b)
    ensures RenderEach(a, env, context, elems) == RenderEach(b, env, context, elems)
    decreases |elems|
  {
    if elems != [] {
      EachAlike(a, b, env, context, elems[..|elems| - 1]);
      var inner := [elems[|elems| - 1]] + context;
      assert Render(a, env, inner) == Render(b, env, inner);
    }
  }

  /** Sections with children that render alike render alike. */
  lemma AlikeSection(xs: seq<Node>, ys: seq<Node>, t: Token, a: seq<Node>, b: seq<Node>, close: nat)
    requires Alike(xs, ys) && Alike(a, b)
    ensures Alike(xs + [Nested(t, a, close)], ys + [Nested(t, b, close)])
  {
    forall env, context
      ensures Render(xs + [Nested(t, a, close)], env, context) == Render(ys + [Nested(t, b, close)], env, context)
    {
      RenderSnoc(xs, Nested(t, a, close), env, context);
      RenderSnoc(ys, Nested(t, b, close), env, context);
      assert Render(xs, env, context) == Render(ys, env, context);
      assert Render(a, env, context) == Render(b, env, context);
      var value := env.lookup(context, t.value);
      assert Render(a, env, [value] + context) == Render(b, env, [value] + context);
      if value.List? {
        EachAlike(a, b, env, context, value.elems);
      }
    }
  }

  /** Two text tokens render like the token they merge to. */
  lemma AlikeMerge(xs: seq<Node>, ys: seq<Node>, u: Token, t: Token)
    requires u.kind == Text && t.kind == Text && Alike(xs, ys + [Leaf(u)])
    ensures Alike(xs + [Leaf(t)], ys + [Leaf(Merge(u, t))])
  {
    forall env, context
      ensures Render(xs + [Leaf(t)], env, context) == Render(ys + [Leaf(Merge(u, t))], env, context)
    {
      RenderSnoc(xs, Leaf(t), env, context);
      RenderSnoc(ys, Leaf(u), env, context);
      RenderSnoc(ys, Leaf(Merge(u, t)), env, context);
      assert Render(xs, env, context) == Render(ys + [Leaf(u)], env, context);
    }
  }

  // ----- nesting states that render alike -----

  ghost predicate AlikeStates(s: State, q: State) {
    && Alike(s.tree, q.tree)
    && |s.sections| == |q.sections|
    && forall k | 0 <= k < |s.sections| ::
         s.sections[k].token == q.sections[k].token && Alike(s.sections[k].nodes, q.sections[k].nodes)
  }

  lemma AlikeStep(s: State, q: State, t: Token)
    requires AlikeStates(s, q)
    ensures NestStep(s, t).Some? <==> NestStep(q, t).Some?
    ensures NestStep(s, t).Some? ==> AlikeStates(NestStep(s, t).value, NestStep(q, t).value)
  {
    hide Alike;
    if Opens(t) {
      AlikeRefl([]);
    } else if t.kind == Close {
      if s.sections != [] {
        var k := |s.sections| - 1;
        var a, b := s.sections[k], q.sections[k];
        var s', q' := s.(sections := s.sections[..k]), q.(sections := q.sections[..k]);
        if k == 0 {
          AlikeSection(s.tree, q.tree, a.token, a.nodes, b.nodes, t.start);
        } else {
          AlikeSection(s.sections[k - 1].nodes, q.sections[k - 1].nodes, a.token, a.nodes, b.nodes, t.start);
        }
      }
    } else if s.sections == [] {
      AlikeSnoc(s.tree, q.tree, Leaf(t));
    } else {
      var k := |s.sections| - 1;
      AlikeSnoc(s.sections[k].nodes, q.sections[k].nodes, Leaf(t));
    }
  }

  lemma AlikeRefl(a: seq<Node>)
    ensures Alike(a, a)
  {
  }

  /** Text after text: one state collects it, the other has its last leaf merged. */
  lemma AlikeMergeStates(s: State, p: State, u: Token, t: Token)
    requires u.kind == Text && t.kind == Text && AlikeStates(s, Collect(p, Leaf(u)))
    ensures AlikeStates(Collect(s, Leaf(t)), Collect(p, Leaf(Merge(u, t))))
  {
    hide Alike;
    if p.sections == [] {
      AlikeMerge(s.tree, p.tree, u, t);
    } else {
      var k := |p.sections| - 1;
      assert Collect(p, Leaf(u)).sections[k].nodes == p.sections[k].nodes + [Leaf(u)];
      AlikeMerge(s.sections[k].nodes, p.sections[k].nodes, u, t);
    }
  }

  /** Squashing and nesting go along with nesting alone. */
  lemma {:induction false} SquashSimulates(tokens: seq<Option<Token>>)
    ensures var s, q := NestAll(DropHoles(tokens)), NestAll(Squash(tokens));
            && (s.Some? <==> q.Some?)
            && (s.Some? ==> AlikeStates(s.value, q.value))
  {
    hide AlikeStates, NestStep;
    if tokens == [] {
      NoStates();
    } else {
      var before, last := tokens[..|tokens| - 1], tokens[|tokens| - 1];
      SquashSimulates(before);
      match last {
        case None =>
        case Some(t) =>
          var kept, out := DropHoles(before), Squash(before);
          NestSnoc(kept, t);
          if t.kind == Text && EndsInText(out) {
            MergeSimulates(kept, out, t);
          } else {
            NestSnoc(out, t);
            if NestAll(kept).Some? {
              AlikeStep(NestAll(kept).value, NestAll(out).value, t);
            }
          }
      }
    }
  }

  lemma NoStates()
    ensures NestAll([]) == Some(State([], [])) && AlikeStates(State([], []), State([], []))
  {
    AlikeRefl([]);
  }

  lemma NestSnoc(tokens: seq<Token>, t: Token)
    ensures NestAll(tokens + [t]) ==
            match NestAll(tokens)
            case None => None
            case Some(s) => NestStep(s, t)
  {
    assert (tokens + [t])[..|tokens|] == tokens;
  }

  lemma MergeSimulates(kept: seq<Token>, out: seq<Token>, t: Token)
    requires t.kind == Text && EndsInText(out)
    requires NestAll(kept).Some? <==> NestAll(out).Some?
    requires NestAll(kept).Some? ==> AlikeStates(NestAll(kept).value, NestAll(out).value)
    ensures var s, q := NestAll(kept + [t]), NestAll(out[..|out| - 1] + [Merge(out[|out| - 1], t)]);
            && (s.Some? <==> q.Some?)
            && (s.Some? ==> AlikeStates(s.value, q.value))
  {
    hide AlikeStates, NestAll;
    var init, u := out[..|out| - 1], out[|out| - 1];
    assert out == init + [u];
    NestSnoc(init, u);
    NestSnoc(init, Merge(u, t));
    NestSnoc(kept, t);
    if NestAll(kept).Some? {
      AlikeMergeStates(NestAll(kept).value, NestAll(init).value, u, t);
    }
  }

  /** Squashing preserves meaning: for every token list with holes, nesting succeeds
      before and after squashing alike, and the two trees render to the same text in every
      context. */
  lemma SquashPreservesMeaning(tokens: seq<Option<Token>>, env: Environment, context: Context)
    ensures Nest(Squash(tokens)).Some? <==> Nest(DropHoles(tokens)).Some?
    ensures Nest(Squash(tokens)).Some? ==>
              Render(Nest(Squash(tokens)).value, env, context) == Render(Nest(DropHoles(tokens)).value, env, context)
  {
    hide Render;
    SquashSimulates(tokens);
  }
}
