/**
 * How the two halves meet: the placeholders `covertEndpointDefinitionToId`
 * writes are the parameters the endpoint input recognises, and a route
 * key travels through id, form and submit to a concrete path.
 */
module RouteToPath {
  import opened RouteId
  import opened EndpointInput
  import opened Strings

  /** Name characters are never angle brackets. */
  lemma NameHasNoBrackets(g: Group)
    requires IsGroup(g)
    ensures '<' !in g.name && '>' !in g.name
  {
  }

  /** Deleting brackets from `<name=body>` keeps `name=` and the body without brackets. */
  lemma ParamNameOfSingleOption(name: string, body: string)
    requires '<' !in name && '>' !in name
    ensures ParamName("<" + name + "=" + body + ">") == name + "=" + ParamName(body)
  {
    var eq := name + "=";
    assert '<' !in eq && '>' !in eq;
    ParamNameWithoutBrackets(eq);
    ParamNameConcat(eq, body);
    ParamNameUnwraps(eq + body);
    assert "<" + name + "=" + body + ">" == "<" + (eq + body) + ">";
  }

  /**
   * A placeholder is a parameter part; its parameter name is the group's
   * name, followed by `=` and the body (brackets deleted) when the body
   * holds a single option.
   */
  lemma PlaceholderIsParam(g: Group)
    requires IsGroup(g)
    ensures IsParam(Placeholder(g))
    ensures HasOptionChar(g.body) ==> ParamName(Placeholder(g)) == g.name
    ensures !HasOptionChar(g.body) ==> ParamName(Placeholder(g)) == g.name + "=" + ParamName(g.body)
  {
    var p := Placeholder(g);
    assert p[0] == '<';
    NameHasNoBrackets(g);
    if HasOptionChar(g.body) {
      assert p == "<" + g.name + ">";
      ParamNameOfPlaceholder(g.name);
    } else {
      assert p == "<" + g.name + "=" + g.body + ">";
      ParamNameOfSingleOption(g.name, g.body);
    }
  }

  /** A placeholder holds a `/` only when its group's body does. */
  lemma PlaceholderSlashes(g: Group)
    requires IsGroup(g) && '/' !in g.body
    ensures '/' !in Placeholder(g)
  {
  }

  /** The id of a route `path/seg/(?P<name>body)` is `/seg/` and the placeholder. */
  lemma SegmentGroupId(path: string, seg: string, g: Group)
    requires '(' !in seg && '/' !in seg
    requires IsGroup(g)
    ensures ConvertId(path + "/" + seg + "/" + Source(g), path) == "/" + seg + "/" + Placeholder(g)
  {
    SegmentGroupTailId(path, seg, g, "");
    assert path + "/" + seg + "/" + Source(g) + "" == path + "/" + seg + "/" + Source(g);
    assert "/" + seg + "/" + Placeholder(g) + "" == "/" + seg + "/" + Placeholder(g);
  }

  /** The id `/seg/<placeholder>` splits into the segment and the placeholder. */
  lemma SegmentGroupParts(seg: string, p: string)
    requires '/' !in seg && '/' !in p
    ensures Parts("/" + seg + "/" + p) == [seg, p]
  {
    SplitAtFirstSeparator(seg, p, '/');
    SplitNoSeparator(p, '/');
    assert ("/" + seg + "/" + p)[1..] == seg + ['/'] + p;
  }

  /**
   * A group followed by more text in its segment, such as
   * `users/(?P<user_id>(?:[\d]+|me))/application-passwords`, whose body
   * stops at the first `)`: the text after the group stays in the same
   * part as the placeholder, and that part is still a parameter.
   */
  lemma SegmentGroupTail(path: string, seg: string, g: Group, tail: string)
    requires '(' !in seg && '/' !in seg
    requires IsGroup(g) && '/' !in g.body
    requires '(' !in tail && '/' !in tail
    ensures ConvertId(path + "/" + seg + "/" + Source(g) + tail, path) == "/" + seg + "/" + Placeholder(g) + tail
    ensures Parts(ConvertId(path + "/" + seg + "/" + Source(g) + tail, path)) == [seg, Placeholder(g) + tail]
    ensures IsParam(Placeholder(g) + tail)
  {
    SegmentGroupTailId(path, seg, g, tail);
    PlaceholderSlashes(g);
    PlaceholderIsParam(g);
    var part := Placeholder(g) + tail;
    assert part[0] == Placeholder(g)[0];
    assert '/' !in part;
    SegmentGroupParts(seg, part);
    AppendAssoc("/" + seg + "/", Placeholder(g), tail);
  }

  /** The id of a route `path/seg/(?P<name>body)tail`, where `tail` has no `(`. */
  lemma SegmentGroupTailId(path: string, seg: string, g: Group, tail: string)
    requires '(' !in seg && '/' !in seg
    requires IsGroup(g)
    requires '(' !in tail
    ensures ConvertId(path + "/" + seg + "/" + Source(g) + tail, path) == "/" + seg + "/" + Placeholder(g) + tail
  {
    var prefix := "/" + seg + "/";
    assert '(' !in prefix;
    Regroup(path, "/", seg, "/", Source(g), tail);
    ConvertIdOfGroup(path, prefix, g, tail);
    RewriteCopiesPlainText(tail, "");
    assert tail + "" == tail;
    assert Rewrite(tail) == tail;
  }

  /** Two parts, a static one and then a parameter, submit `/static/` and the parameter's value. */
  lemma StaticParamSubmit(parts: seq<string>, params: map<string, string>)
    requires |parts| == 2 && !IsParam(parts[0]) && IsParam(parts[1])
    ensures SubmittedPath(parts, params) == "/" + parts[0] + "/" + CurrentValue(parts, 1, params)
    ensures SubmittedPathAsWritten(parts, params) == SubmittedPath(parts, params)
  {
    AsWrittenAgreesAfterStatic(parts, params);
    SubmittedPathFilled(parts, params);
    var filled := Filled(parts, params);
    assert filled[..1][..0] == [];
    assert PathOf(filled[..1]) == "/" + parts[0];
  }

  /** A static segment followed by one parameter submits `/seg/` and what that parameter's input holds. */
  lemma SegmentParamSubmit(seg: string, p: string, params: map<string, string>)
    requires !IsParam(seg) && IsParam(p)
    ensures SubmittedPath([seg, p], params) == "/" + seg + "/" + ParamValue(params, ParamName(p)).GetOr("")
    ensures SubmittedPathAsWritten([seg, p], params) == SubmittedPath([seg, p], params)
  {
    StaticParamSubmit([seg, p], params);
  }

  /**
   * A route `path/seg/(?P<name>body)`, with a plain segment and a body
   * free of `/`, has the id `/seg/<placeholder>`; the form shows `seg` and
   * one input for the placeholder's parameter, and submits `/seg/`
   * followed by that parameter's value, as written and corrected alike.
   */
  lemma RouteToSubmittedPath(path: string, seg: string, g: Group, params: map<string, string>)
    requires '(' !in seg && '/' !in seg && '<' !in seg
    requires IsGroup(g) && '/' !in g.body
    ensures var id := ConvertId(path + "/" + seg + "/" + Source(g), path);
      && Parts(id) == [seg, Placeholder(g)]
      && SubmittedPath(Parts(id), params) == "/" + seg + "/" + ParamValue(params, ParamName(Placeholder(g))).GetOr("")
      && SubmittedPathAsWritten(Parts(id), params) == SubmittedPath(Parts(id), params)
  {
    SegmentGroupId(path, seg, g);
    PlaceholderIsParam(g);
    PlaceholderSlashes(g);
    SegmentGroupParts(seg, Placeholder(g));
    SegmentParamSubmit(seg, Placeholder(g), params);
  }
}
