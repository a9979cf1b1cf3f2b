/**
 * The endpoint input form (src/components/endpoint-input.js).
 *
 * An endpoint id such as `/posts/<id>` is split into parts; a part that
 * holds `<` becomes a text input for a parameter, any other part a static
 * label. While the parts are rendered, the variable `fieldName` remembers
 * the last static part, and every parameter input is named after it.
 * On submit, the parts are folded back into a concrete path, each
 * parameter replaced by the value of a form element.
 *
 * The rendered React elements are reduced to the data they carry, and the
 * form's controls to the list of its named inputs with what each holds.
 */
module EndpointInput {
  import opened Wrappers
  import opened Strings

  /** What JavaScript prints for `undefined` inside a string. */
  const Undefined: string := "undefined"

  /** `id.substr( 1 ).split( /\//g )` */
  function Parts(id: string): (parts: seq<string>)
    ensures |parts| >= 1
    ensures forall i :: 0 <= i < |parts| ==> '/' !in parts[i]
  {
    Split(Substr(id, 1), '/')
  }

  /** For an id that starts with `/`, `'/' + parts.join( '/' )` is the id again. */
  lemma PartsJoin(id: string)
    requires |id| >= 1 && id[0] == '/'
    ensures "/" + Join(Parts(id), '/') == id
  {
    JoinSplit(id[1..], '/');
    assert [id[0]] + id[1..] == id;
  }

  /** `part.includes( '<' )`, and equally `/</.test( part )`. */
  predicate IsParam(part: string) {
    '<' in part
  }

  /** `part.replace( /[<>]/ig, '' )`: the part with every `<` and `>` deleted. */
  function ParamName(part: string): (name: string)
    ensures '<' !in name && '>' !in name
    ensures |name| <= |part|
  {
    if part == [] then ""
    else Kept(part[0]) + ParamName(part[1..])
  }

  /** What bracket deletion keeps of one character. */
  function Kept(c: char): string {
    if c == '<' || c == '>' then "" else [c]
  }

  /** Deleting brackets works character by character from the front. */
  lemma ParamNameCons(c: char, rest: string)
    ensures ParamName([c] + rest) == Kept(c) + ParamName(rest)
  {
    assert ([c] + rest)[1..] == rest;
  }

  /** Deleting brackets from a concatenation deletes them from each half. */
  lemma {:induction false} ParamNameConcat(a: string, b: string)
    ensures ParamName(a + b) == ParamName(a) + ParamName(b)
  {
    if a == [] {
      assert a + b == b;
    } else {
      assert a + b == [a[0]] + (a[1..] + b);
      assert a == [a[0]] + a[1..];
      ParamNameCons(a[0], a[1..] + b);
      ParamNameCons(a[0], a[1..]);
      ParamNameConcat(a[1..], b);
      assert Kept(a[0]) + (ParamName(a[1..]) + ParamName(b)) == (Kept(a[0]) + ParamName(a[1..])) + ParamName(b);
    }
  }

  /** Text without brackets is its own parameter name. */
  lemma {:induction false} ParamNameWithoutBrackets(s: string)
    requires '<' !in s && '>' !in s
    ensures ParamName(s) == s
  {
    if s != [] {
      assert s[0] in s;
      assert forall x :: x in s[1..] ==> x in s;
      ParamNameWithoutBrackets(s[1..]);
      assert [s[0]] + s[1..] == s;
    }
  }

  /** Deleting brackets from `<inner>` deletes the outer pair and those inside. */
  lemma ParamNameUnwraps(inner: string)
    ensures ParamName("<" + inner + ">") == ParamName(inner)
  {
    ParamNameConcat("<" + inner, ">");
    ParamNameConcat("<", inner);
  }

  /** `<id>` names the parameter `id`; `<context=view>` names it `context=view`. */
  lemma ParamNameOfPlaceholder(inner: string)
    requires '<' !in inner && '>' !in inner
    ensures ParamName("<" + inner + ">") == inner
  {
    ParamNameUnwraps(inner);
    ParamNameWithoutBrackets(inner);
  }

  /** `endpoint-${ part }-param` */
  function FieldName(part: string): string {
    "endpoint-" + part + "-param"
  }

  /** The value of `fieldName` once the first `k` parts have been rendered. */
  function FieldAfter(parts: seq<string>, k: nat): string
    requires k <= |parts|
  {
    if k == 0 then ""
    else if IsParam(parts[k - 1]) then FieldAfter(parts, k - 1)
    else FieldName(parts[k - 1])
  }

  /** After the parts up to `k`, `fieldName` is named after the last static part among them. */
  lemma {:induction false} FieldAfterLastStatic(parts: seq<string>, j: nat, k: nat)
    requires j < k <= |parts|
    requires !IsParam(parts[j])
    requires forall i :: j < i < k ==> IsParam(parts[i])
    ensures FieldAfter(parts, k) == FieldName(parts[j])
  {
    if k - 1 > j {
      FieldAfterLastStatic(parts, j, k - 1);
    }
  }

  /** When no static part has been rendered yet, `fieldName` is still empty. */
  lemma {:induction false} FieldAfterNoStatic(parts: seq<string>, k: nat)
    requires k <= |parts|
    requires forall i :: 0 <= i < k ==> IsParam(parts[i])
    ensures FieldAfter(parts, k) == ""
  {
    if k > 0 {
      FieldAfterNoStatic(parts, k - 1);
    }
  }

  /** The data one rendered part carries. */
  datatype Component =
    | StaticLabel(text: string, htmlFor: string)
    | ParamInput(name: string, placeholder: string, paramName: string, value: Option<string>)

  /** `params?.[ paramName ]` */
  function ParamValue(params: map<string, string>, paramName: string): Option<string> {
    if paramName in params then Some(params[paramName]) else None
  }

  /** How part `i` is rendered. */
  function ComponentAt(parts: seq<string>, i: nat, params: map<string, string>): Component
    requires i < |parts|
  {
    if IsParam(parts[i]) then
      ParamInput(FieldAfter(parts, i), parts[i], ParamName(parts[i]), ParamValue(params, ParamName(parts[i])))
    else
      StaticLabel(parts[i], FieldName(parts[i]))
  }

  /**
   * The part split and the `map` over the parts in `EndpointInput`, with
   * `fieldName` carried from one part to the next.
   */
  method RenderParts(id: string, params: map<string, string>) returns (parts: seq<string>, components: seq<Component>)
    ensures parts == Parts(id)
    ensures |components| == |parts|
    ensures forall i :: 0 <= i < |parts| ==> components[i] == ComponentAt(parts, i, params)
  {
    parts := Split(Substr(id, 1), '/');
    var fieldName := "";
    components := [];
    var i := 0;
    while i < |parts|
      invariant i <= |parts|
      invariant fieldName == FieldAfter(parts, i)
      invariant |components| == i
      invariant forall k :: 0 <= k < i ==> components[k] == ComponentAt(parts, k, params)
    {
      var part := parts[i];
      if '<' !in part {
        fieldName := "endpoint-" + part + "-param";
        components := components + [StaticLabel(part, fieldName)];
      } else {
        var paramName := ParamName(part);
        components := components + [ParamInput(fieldName, part, paramName, ParamValue(params, paramName))];
      }
      i := i + 1;
    }
  }

  /**
   * A part is rendered as a parameter input iff it holds `<`; a static
   * part shows its own text; an input is named after the last static
   * part before it, or has the empty name when there is none.
   */
  lemma ComponentShape(parts: seq<string>, i: nat, params: map<string, string>)
    requires i < |parts|
    ensures ComponentAt(parts, i, params).ParamInput? <==> '<' in parts[i]
    ensures !IsParam(parts[i]) ==> ComponentAt(parts, i, params) == StaticLabel(parts[i], FieldName(parts[i]))
    ensures IsParam(parts[i]) && (forall k :: 0 <= k < i ==> IsParam(parts[k])) ==>
      ComponentAt(parts, i, params).name == ""
    ensures forall j :: 0 <= j < i && !IsParam(parts[j]) && (forall k :: j < k < i ==> IsParam(parts[k])) ==>
      (IsParam(parts[i]) ==> ComponentAt(parts, i, params).name == FieldName(parts[j]))
  {
    if IsParam(parts[i]) {
      if forall k :: 0 <= k < i ==> IsParam(parts[k]) {
        FieldAfterNoStatic(parts, i);
      }
      forall j | 0 <= j < i && !IsParam(parts[j]) && (forall k :: j < k < i ==> IsParam(parts[k]))
        ensures ComponentAt(parts, i, params).name == FieldName(parts[j])
      {
        FieldAfterLastStatic(parts, j, i);
      }
    }
  }

  /** `parts[ n - 1 ]` inside a template literal. */
  function PartBefore(parts: seq<string>, n: nat): string
    requires n < |parts|
  {
    if n == 0 then Undefined else parts[n - 1]
  }

  /** The reduce in `submitHandler`: `acc + ( '/' + segment )`, starting from `''`. */
  function PathOf(segments: seq<string>): string {
    if segments == [] then ""
    else PathOf(segments[..|segments| - 1]) + "/" + segments[|segments| - 1]
  }

  /** The fold puts a `/` in front of every segment. */
  lemma {:induction false} PathOfJoin(segments: seq<string>)
    requires |segments| >= 1
    ensures PathOf(segments) == "/" + Join(segments, '/')
  {
    var n := |segments|;
    if n == 1 {
      assert segments[..0] == [];
    } else {
      var init, last := segments[..n - 1], segments[n - 1];
      assert PathOf(segments) == PathOf(init) + "/" + last;
      PathOfJoin(init);
      assert init + [last] == segments;
      JoinSnoc(init, last, '/');
      assert Join(segments, '/') == Join(init, '/') + ['/'] + last;
    }
  }

  /** Read as an id again, a folded path gives back its segments, one per part. */
  lemma PathOfParts(segments: seq<string>)
    requires |segments| >= 1
    requires forall n :: 0 <= n < |segments| ==> '/' !in segments[n]
    ensures Parts(PathOf(segments)) == segments
  {
    PathOfJoin(segments);
    SplitJoin(segments, '/');
  }

  /**
   * A named control of the form. The parameter inputs are the only ones:
   * `EndpointParamEdit` gives its input the same `id` and `name`, and the
   * method toggle and the two buttons have neither.
   */
  datatype NamedInput = NamedInput(name: string, value: string)

  /**
   * What the input of part `n` holds: it is controlled by
   * `value={ params?.[ paramName ] }`, which defaults to `''`.
   */
  function CurrentValue(parts: seq<string>, n: nat, params: map<string, string>): string
    requires n < |parts|
  {
    ParamValue(params, ParamName(parts[n])).GetOr("")
  }

  /** What the input of each part would hold; only the parameter parts have one. */
  function Values(parts: seq<string>, params: map<string, string>): (values: seq<string>)
    ensures |values| == |parts|
    ensures forall n :: 0 <= n < |parts| ==> values[n] == CurrentValue(parts, n, params)
  {
    seq(|parts|, n requires 0 <= n < |parts| => CurrentValue(parts, n, params))
  }

  /**
   * The named inputs among the first `k` parts, in document order: one per
   * parameter part, the input of part `n` called `names[n]` and holding
   * `values[n]`.
   */
  function Inputs(parts: seq<string>, names: seq<string>, values: seq<string>, k: nat): seq<NamedInput>
    requires |names| == |parts| && |values| == |parts| && k <= |parts|
    decreases k
  {
    if k == 0 then []
    else
      var before := Inputs(parts, names, values, k - 1);
      if IsParam(parts[k - 1]) then before + [NamedInput(names[k - 1], values[k - 1])]
      else before
  }

  /** The names the form gives its inputs: `name={ fieldName }` at each part. */
  function RenderedNames(parts: seq<string>): (names: seq<string>)
    ensures |names| == |parts|
    ensures forall n :: 0 <= n < |parts| && IsParam(parts[n]) ==> names[n] == ComponentAt(parts, n, map[]).name
  {
    seq(|parts|, n requires 0 <= n < |parts| => FieldAfter(parts, n))
  }

  /** The values of the inputs called `name`, in document order. */
  function Matching(inputs: seq<NamedInput>, name: string): seq<string> {
    if inputs == [] then []
    else
      var last := inputs[|inputs| - 1];
      Matching(inputs[..|inputs| - 1], name) + (if last.name == name then [last.value] else [])
  }

  /**
   * `elements?.[ name ]?.value` as it reads inside a template literal: no
   * control under the empty name or under a name no input has gives
   * `undefined`; one input gives its value; several give a `RadioNodeList`,
   * whose `value` is `''` when none of them is a checked radio button.
   */
  function ElementValue(inputs: seq<NamedInput>, name: string): string {
    var found := Matching(inputs, name);
    if name == "" || |found| == 0 then Undefined
    else if |found| == 1 then found[0]
    else ""
  }

  /** A name no input has finds nothing. */
  lemma {:induction false} MatchingNone(inputs: seq<NamedInput>, name: string)
    requires forall i :: 0 <= i < |inputs| ==> inputs[i].name != name
    ensures Matching(inputs, name) == []
  {
    if inputs != [] {
      var init := inputs[..|inputs| - 1];
      assert forall k :: 0 <= k < |init| ==> init[k] == inputs[k];
      MatchingNone(init, name);
    }
  }

  /** The lookup over two runs of inputs finds the matches of the first, then those of the second. */
  lemma {:induction false} MatchingConcat(a: seq<NamedInput>, b: seq<NamedInput>, name: string)
    ensures Matching(a + b, name) == Matching(a, name) + Matching(b, name)
  {
    if b == [] {
      assert a + b == a;
    } else {
      var init, last := b[..|b| - 1], b[|b| - 1];
      MatchingConcat(a, init, name);
      assert (a + b)[..|a + b| - 1] == a + init;
      assert (a + b)[|a + b| - 1] == last;
    }
  }

  /** The matches of a name are those before input `i`, input `i`'s own, and those after it. */
  lemma MatchingAt(inputs: seq<NamedInput>, name: string, i: nat)
    requires i < |inputs|
    ensures Matching(inputs, name)
      == Matching(inputs[..i], name) + (if inputs[i].name == name then [inputs[i].value] else []) + Matching(inputs[i + 1..], name)
  {
    assert inputs == inputs[..i] + [inputs[i]] + inputs[i + 1..];
    MatchingConcat(inputs[..i] + [inputs[i]], inputs[i + 1..], name);
    MatchingSnoc(inputs[..i], inputs[i], name);
  }

  /** Under the empty name, or a name no input has, the lookup gives `undefined`. */
  lemma ElementValueMissing(inputs: seq<NamedInput>, name: string)
    requires name == "" || forall i :: 0 <= i < |inputs| ==> inputs[i].name != name
    ensures ElementValue(inputs, name) == Undefined
  {
    if name != "" {
      MatchingNone(inputs, name);
    }
  }

  /** Under a non-empty name only input `i` has, the lookup gives that input's value. */
  lemma ElementValueUnique(inputs: seq<NamedInput>, name: string, i: nat)
    requires name != "" && i < |inputs| && inputs[i].name == name
    requires forall j :: 0 <= j < |inputs| && j != i ==> inputs[j].name != name
    ensures ElementValue(inputs, name) == inputs[i].value
  {
    MatchingAt(inputs, name, i);
    var before, after := inputs[..i], inputs[i + 1..];
    assert forall k :: 0 <= k < |before| ==> before[k] == inputs[k];
    assert forall k :: 0 <= k < |after| ==> after[k] == inputs[i + 1 + k];
    MatchingNone(before, name);
    MatchingNone(after, name);
  }

  /** Under a non-empty name two inputs share, the lookup gives the `RadioNodeList` value `''`. */
  lemma ElementValueShared(inputs: seq<NamedInput>, name: string, i: nat, j: nat)
    requires name != "" && i < j < |inputs| && inputs[i].name == name && inputs[j].name == name
    ensures ElementValue(inputs, name) == ""
  {
    MatchingAt(inputs, name, j);
    var before := inputs[..j];
    assert before[i] == inputs[i];
    MatchingAt(before, name, i);
  }

  /** An input added at the end adds its value at the end of those matching its name. */
  lemma MatchingSnoc(inputs: seq<NamedInput>, x: NamedInput, name: string)
    ensures Matching(inputs + [x], name) == Matching(inputs, name) + (if x.name == name then [x.value] else [])
  {
    assert (inputs + [x])[..|inputs|] == inputs;
  }

  /**
   * Two inputs sharing a non-empty name: looked up under that name they
   * give `''`, under any other name `undefined`.
   */
  lemma SharedNameLookup(a: NamedInput, b: NamedInput, other: string)
    requires a.name == b.name && a.name != "" && other != a.name
    ensures ElementValue([a, b], a.name) == ""
    ensures ElementValue([a, b], other) == Undefined
  {
    assert [a, b] == [a] + [b];
    MatchingSnoc([], a, a.name);
    MatchingSnoc([a], b, a.name);
    MatchingSnoc([], a, other);
    MatchingSnoc([a], b, other);
  }

  /** A name that one parameter part's input alone has finds exactly that input's value. */
  lemma {:induction false} MatchingUniqueName(parts: seq<string>, names: seq<string>, values: seq<string>, k: nat, n: nat)
    requires |names| == |parts| && |values| == |parts| && k <= |parts| && n < |parts| && IsParam(parts[n])
    requires forall m :: 0 <= m < |parts| && IsParam(parts[m]) && names[m] == names[n] ==> m == n
    ensures Matching(Inputs(parts, names, values, k), names[n]) == if n < k then [values[n]] else []
    decreases k
  {
    if k > 0 {
      var before := Inputs(parts, names, values, k - 1);
      MatchingUniqueName(parts, names, values, k - 1, n);
      if IsParam(parts[k - 1]) {
        var x := NamedInput(names[k - 1], values[k - 1]);
        MatchingSnoc(before, x, names[n]);
        if k - 1 != n {
          assert x.name != names[n];
        }
      }
    }
  }

  /** `endpoint-${ part }-param` tells its parts apart. */
  lemma FieldNameInjective(a: string, b: string)
    requires FieldName(a) == FieldName(b)
    ensures a == b
  {
    var fa, fb := FieldName(a), FieldName(b);
    assert fa[9..|fa| - 6] == a;
    assert fb[9..|fb| - 6] == b;
  }

  /** The segment `submitHandler` appends for part `n`, as written. */
  function SegmentAsWritten(parts: seq<string>, n: nat, params: map<string, string>): string
    requires n < |parts|
  {
    if IsParam(parts[n]) then ElementValue(Inputs(parts, RenderedNames(parts), Values(parts, params), |parts|), FieldName(PartBefore(parts, n)))
    else parts[n]
  }

  function SegmentsAsWritten(parts: seq<string>, params: map<string, string>): (segments: seq<string>)
    ensures |segments| == |parts|
  {
    seq(|parts|, n requires 0 <= n < |parts| => SegmentAsWritten(parts, n, params))
  }

  /** The path `submitHandler` passes to `onRequest`, as written. */
  function SubmittedPathAsWritten(parts: seq<string>, params: map<string, string>): string {
    PathOf(SegmentsAsWritten(parts, params))
  }

  /**
   * The segments the form is meant to submit: the static parts, and for
   * each parameter what its input holds.
   */
  function Filled(parts: seq<string>, params: map<string, string>): (segments: seq<string>)
    ensures |segments| == |parts|
  {
    seq(|parts|, n requires 0 <= n < |parts| => if IsParam(parts[n]) then CurrentValue(parts, n, params) else parts[n])
  }

  /**
   * The corrected name of the input of part `n`: one per part, numbered as
   * the label keys `param-${ i }` are.
   */
  function IndexName(n: nat): string {
    "endpoint-param-" + Digits(n)
  }

  function IndexNames(parts: seq<string>): (names: seq<string>)
    ensures |names| == |parts|
    ensures forall n :: 0 <= n < |parts| ==> names[n] == IndexName(n)
  {
    seq(|parts|, n requires 0 <= n < |parts| => IndexName(n))
  }

  /** No two parts share a corrected name. */
  lemma IndexNameInjective(a: nat, b: nat)
    requires IndexName(a) == IndexName(b)
    ensures a == b
  {
    assert IndexName(a)[15..] == Digits(a);
    assert IndexName(b)[15..] == Digits(b);
    DigitsInjective(a, b);
  }

  /** The corrected segment for part `n`: each input named by its part, and read under that name. */
  function Segment(parts: seq<string>, n: nat, params: map<string, string>): string
    requires n < |parts|
  {
    if IsParam(parts[n]) then ElementValue(Inputs(parts, IndexNames(parts), Values(parts, params), |parts|), IndexName(n))
    else parts[n]
  }

  function Segments(parts: seq<string>, params: map<string, string>): (segments: seq<string>)
    ensures |segments| == |parts|
  {
    seq(|parts|, n requires 0 <= n < |parts| => Segment(parts, n, params))
  }

  /** The submitted path with each input named by its part. */
  function SubmittedPath(parts: seq<string>, params: map<string, string>): string {
    PathOf(Segments(parts, params))
  }

  /** With each input named by its part, parameter `n` submits what input `n` holds. */
  lemma SegmentReadsOwnInput(parts: seq<string>, n: nat, params: map<string, string>)
    requires n < |parts|
    ensures Segment(parts, n, params) == Filled(parts, params)[n]
  {
    if IsParam(parts[n]) {
      var names := IndexNames(parts);
      forall m | 0 <= m < |parts| && IsParam(parts[m]) && names[m] == names[n]
        ensures m == n
      {
        IndexNameInjective(m, n);
      }
      MatchingUniqueName(parts, names, Values(parts, params), |parts|, n);
    }
  }

  /** With each input named by its part, the form submits the intended path. */
  lemma SubmittedPathFilled(parts: seq<string>, params: map<string, string>)
    ensures Segments(parts, params) == Filled(parts, params)
    ensures SubmittedPath(parts, params) == PathOf(Filled(parts, params))
  {
    forall n | 0 <= n < |parts|
      ensures Segments(parts, params)[n] == Filled(parts, params)[n]
    {
      SegmentReadsOwnInput(parts, n, params);
    }
  }

  /**
   * As written, the submitted path has one `/`-led segment per part: read
   * as an id again it splits into them, the static parts unchanged and
   * each parameter replaced by what the lookup under the previous part's
   * name finds, as long as no segment holds a `/`.
   */
  lemma SubmittedPathAsWrittenSegments(parts: seq<string>, params: map<string, string>)
    requires |parts| >= 1
    requires forall n :: 0 <= n < |parts| ==> '/' !in SegmentAsWritten(parts, n, params)
    ensures Parts(SubmittedPathAsWritten(parts, params)) == SegmentsAsWritten(parts, params)
    ensures forall n :: 0 <= n < |parts| && !IsParam(parts[n]) ==> Parts(SubmittedPathAsWritten(parts, params))[n] == parts[n]
    ensures forall n :: 0 <= n < |parts| && IsParam(parts[n]) ==>
      Parts(SubmittedPathAsWritten(parts, params))[n]
        == ElementValue(Inputs(parts, RenderedNames(parts), Values(parts, params), |parts|), FieldName(PartBefore(parts, n)))
  {
    PathOfParts(SegmentsAsWritten(parts, params));
  }

  /**
   * With each input named by its part, the submitted path read as an id
   * again splits into the static parts and, at each parameter, what its
   * input holds, as long as no part and no input holds a `/`.
   */
  lemma SubmittedPathSegments(parts: seq<string>, params: map<string, string>)
    requires |parts| >= 1
    requires forall n :: 0 <= n < |parts| ==> '/' !in Filled(parts, params)[n]
    ensures Parts(SubmittedPath(parts, params)) == Filled(parts, params)
  {
    SubmittedPathFilled(parts, params);
    PathOfParts(Filled(parts, params));
  }

  /** An id without parameters is submitted unchanged, both as written and corrected. */
  lemma SubmittedPathWithoutParams(id: string, params: map<string, string>)
    requires |id| >= 1 && id[0] == '/' && '<' !in id
    ensures SubmittedPathAsWritten(Parts(id), params) == id
    ensures SubmittedPath(Parts(id), params) == id
  {
    var parts := Parts(id);
    assert '<' !in id[1..] by {
      assert forall x :: x in id[1..] ==> x in id;
    }
    SplitKeepsAbsent(id[1..], '/', '<');
    assert SegmentsAsWritten(parts, params) == parts;
    SubmittedPathFilled(parts, params);
    assert Filled(parts, params) == parts;
    PathOfJoin(parts);
    PartsJoin(id);
  }

  /** Every parameter part directly follows a static part. */
  predicate EachParamAfterStatic(parts: seq<string>) {
    forall n :: 0 <= n < |parts| && IsParam(parts[n]) ==> n > 0 && !IsParam(parts[n - 1])
  }

  /** No two parameter parts follow equal static parts. */
  predicate DistinctStaticsBeforeParams(parts: seq<string>) {
    forall n, m :: 0 < n < m < |parts| && IsParam(parts[n]) && IsParam(parts[m]) ==> parts[n - 1] != parts[m - 1]
  }

  /**
   * When every parameter part directly follows a static part, and no two
   * parameters follow equal static parts, every input has a name of its
   * own and the lookup `endpoint-${ parts[ n - 1 ] }-param` is that name:
   * the code as written submits the intended path.
   */
  lemma AsWrittenAgreesAfterStatic(parts: seq<string>, params: map<string, string>)
    requires EachParamAfterStatic(parts)
    requires DistinctStaticsBeforeParams(parts)
    ensures SegmentsAsWritten(parts, params) == Filled(parts, params)
    ensures SubmittedPathAsWritten(parts, params) == SubmittedPath(parts, params)
  {
    forall n | 0 <= n < |parts| && IsParam(parts[n])
      ensures SegmentAsWritten(parts, n, params) == CurrentValue(parts, n, params)
    {
      LookupNameIsRenderedName(parts, n);
      RenderedNameAfterStatic(parts, n);
      AsWrittenSegmentUniqueName(parts, params, n);
    }
    assert SegmentsAsWritten(parts, params) == Filled(parts, params);
    SubmittedPathFilled(parts, params);
  }

  /** The fold over three segments. */
  lemma PathOfThree(x: string, y: string, z: string)
    ensures PathOf([x, y, z]) == "/" + x + "/" + y + "/" + z
  {
    assert [x, y, z][..2] == [x, y];
    assert [x, y][..1] == [x];
    assert [x][..0] == [];
    assert PathOf([x]) == "/" + x;
    assert PathOf([x, y]) == "/" + x + "/" + y;
  }

  /**
   * The step of `AsWrittenAgreesAfterStatic` for parameter part `n`: when
   * its input is named after the part before it and no other input has
   * that name, the lookup finds what that input holds.
   */
  lemma AsWrittenSegmentUniqueName(parts: seq<string>, params: map<string, string>, n: nat)
    requires n < |parts| && IsParam(parts[n])
    requires RenderedNames(parts)[n] == FieldName(PartBefore(parts, n))
    requires forall m :: 0 <= m < |parts| && IsParam(parts[m]) && RenderedNames(parts)[m] == RenderedNames(parts)[n] ==> m == n
    ensures SegmentAsWritten(parts, n, params) == CurrentValue(parts, n, params)
  {
    MatchingUniqueName(parts, RenderedNames(parts), Values(parts, params), |parts|, n);
  }

  /**
   * When every parameter part directly follows a static part, the name
   * `submitHandler` looks a parameter up under is the name its input was
   * given.
   */
  lemma LookupNameIsRenderedName(parts: seq<string>, n: nat)
    requires EachParamAfterStatic(parts)
    requires n < |parts| && IsParam(parts[n])
    ensures RenderedNames(parts)[n] == FieldName(PartBefore(parts, n))
  {
    FieldAfterLastStatic(parts, n - 1, n);
  }

  /**
   * When, in addition, no two parameters follow equal static parts, no
   * other input has the name of parameter `n`'s input.
   */
  lemma RenderedNameAfterStatic(parts: seq<string>, n: nat)
    requires EachParamAfterStatic(parts)
    requires DistinctStaticsBeforeParams(parts)
    requires n < |parts| && IsParam(parts[n])
    ensures forall m :: 0 <= m < |parts| && IsParam(parts[m]) && RenderedNames(parts)[m] == RenderedNames(parts)[n] ==> m == n
  {
    var names := RenderedNames(parts);
    LookupNameIsRenderedName(parts, n);
    forall m | 0 <= m < |parts| && IsParam(parts[m]) && names[m] == names[n]
      ensures m == n
    {
      LookupNameIsRenderedName(parts, m);
      FieldNameInjective(parts[m - 1], parts[n - 1]);
    }
  }

  /**
   * For parts `s`, `<p>`, `<q>` (one static part, then two parameters) the
   * form as written shows two inputs, both named after `s`.
   */
  lemma ParamAfterParamInputs(parts: seq<string>, params: map<string, string>)
    requires |parts| == 3 && !IsParam(parts[0]) && IsParam(parts[1]) && IsParam(parts[2])
    ensures ComponentAt(parts, 1, params).name == FieldName(parts[0])
    ensures ComponentAt(parts, 2, params).name == FieldName(parts[0])
    ensures Inputs(parts, RenderedNames(parts), Values(parts, params), 3)
      == [NamedInput(FieldName(parts[0]), CurrentValue(parts, 1, params)), NamedInput(FieldName(parts[0]), CurrentValue(parts, 2, params))]
  {
    var names, values := RenderedNames(parts), Values(parts, params);
    FieldAfterLastStatic(parts, 0, 1);
    FieldAfterLastStatic(parts, 0, 2);
    assert Inputs(parts, names, values, 1) == [];
    assert Inputs(parts, names, values, 2) == [] + [NamedInput(names[1], values[1])];
  }

  /**
   * As written, for parts `s`, `<p>`, `<q>` the first parameter's lookup
   * finds both inputs, whose shared value is `''`; the second is looked up
   * under the name built from `<p>`, which no input has.
   */
  lemma ParamAfterParamAsWritten(parts: seq<string>, params: map<string, string>)
    requires |parts| == 3 && !IsParam(parts[0]) && IsParam(parts[1]) && IsParam(parts[2])
    ensures ComponentAt(parts, 1, params).name == FieldName(parts[0])
    ensures ComponentAt(parts, 2, params).name == FieldName(parts[0])
    ensures SubmittedPathAsWritten(parts, params) == "/" + parts[0] + "/" + "" + "/" + Undefined
  {
    ParamAfterParamInputs(parts, params);
    var inputs := Inputs(parts, RenderedNames(parts), Values(parts, params), 3);
    var other := FieldName(parts[1]);
    assert other != FieldName(parts[0]) by {
      if other == FieldName(parts[0]) {
        FieldNameInjective(parts[1], parts[0]);
      }
    }
    SharedNameLookup(inputs[0], inputs[1], other);
    var segments := SegmentsAsWritten(parts, params);
    assert segments[0] == parts[0] && segments[1] == "" && segments[2] == Undefined;
    assert segments == [parts[0], "", Undefined];
    PathOfThree(parts[0], "", Undefined);
  }

  /**
   * Two parameters after equal static parts, `s, <p>, s, <q>`: both inputs
   * are named after `s`, both lookups find the two of them, and the form
   * as written submits `/s//s/`.
   */
  lemma EqualStaticsAsWritten(parts: seq<string>, params: map<string, string>)
    requires |parts| == 4 && !IsParam(parts[0]) && IsParam(parts[1]) && parts[2] == parts[0] && IsParam(parts[3])
    ensures ComponentAt(parts, 1, params).name == FieldName(parts[0])
    ensures ComponentAt(parts, 3, params).name == FieldName(parts[0])
    ensures SubmittedPathAsWritten(parts, params) == "/" + parts[0] + "/" + "" + "/" + parts[0] + "/" + ""
  {
    var names, values := RenderedNames(parts), Values(parts, params);
    FieldAfterLastStatic(parts, 0, 1);
    FieldAfterLastStatic(parts, 2, 3);
    assert Inputs(parts, names, values, 1) == [];
    assert Inputs(parts, names, values, 2) == [] + [NamedInput(names[1], values[1])];
    assert Inputs(parts, names, values, 3) == [NamedInput(names[1], values[1])];
    var inputs := Inputs(parts, names, values, 4);
    assert inputs == [NamedInput(names[1], values[1])] + [NamedInput(names[3], values[3])];
    assert names[1] == FieldName(parts[0]) && names[3] == FieldName(parts[0]);
    assert inputs == [inputs[0], inputs[1]];
    SharedNameLookup(inputs[0], inputs[1], "");
    var segments := SegmentsAsWritten(parts, params);
    assert segments[1] == ElementValue(inputs, FieldName(parts[0])) == "";
    assert segments[3] == ElementValue(inputs, FieldName(parts[2])) == "";
    assert segments == [parts[0], "", parts[0], ""];
    PathOfFour(parts[0], "", parts[0], "");
  }

  /** The fold over four segments. */
  lemma PathOfFour(x: string, y: string, z: string, w: string)
    ensures PathOf([x, y, z, w]) == "/" + x + "/" + y + "/" + z + "/" + w
  {
    assert [x, y, z, w][..3] == [x, y, z];
    PathOfThree(x, y, z);
  }

  /**
   * As written, `/a/<x>/a/<y>` names both inputs `endpoint-a-param` and
   * submits `/a//a/`, whatever `x` and `y` are set to.
   */
  lemma EqualStaticsLookupMismatch(parts: seq<string>, params: map<string, string>)
    requires parts == ["a", "<x>", "a", "<y>"]
    ensures ComponentAt(parts, 1, params).name == "endpoint-a-param"
    ensures ComponentAt(parts, 3, params).name == "endpoint-a-param"
    ensures SubmittedPathAsWritten(parts, params) == "/a//a/"
  {
    assert parts[1][0] == '<' && parts[3][0] == '<';
    EqualStaticsAsWritten(parts, params);
    ExampleEqualStatics(parts[0]);
  }

  /** The name and the path of `/a/<x>/a/<y>`, spelled out. */
  lemma ExampleEqualStatics(a: string)
    requires a == "a"
    ensures FieldName(a) == "endpoint-a-param"
    ensures "/" + a + "/" + "" + "/" + a + "/" + "" == "/a//a/"
  {
  }

  /** With each input named by its part, both parameters of `s`, `<p>`, `<q>` submit what their inputs hold. */
  lemma ParamAfterParam(parts: seq<string>, params: map<string, string>)
    requires |parts| == 3 && !IsParam(parts[0]) && IsParam(parts[1]) && IsParam(parts[2])
    ensures SubmittedPath(parts, params)
      == "/" + parts[0] + "/" + CurrentValue(parts, 1, params) + "/" + CurrentValue(parts, 2, params)
  {
    SubmittedPathFilled(parts, params);
    var filled := Filled(parts, params);
    assert filled == [parts[0], CurrentValue(parts, 1, params), CurrentValue(parts, 2, params)];
    PathOfThree(parts[0], CurrentValue(parts, 1, params), CurrentValue(parts, 2, params));
  }

  /**
   * As written, `/a/<x>/<y>` with `1` and `2` entered shows two inputs
   * both named `endpoint-a-param`, and submits `/a//undefined`.
   */
  lemma SecondParamLookupMismatch(parts: seq<string>, params: map<string, string>)
    requires parts == ["a", "<x>", "<y>"] && params == map["x" := "1", "y" := "2"]
    ensures ComponentAt(parts, 1, params) == ParamInput("endpoint-a-param", "<x>", "x", Some("1"))
    ensures ComponentAt(parts, 2, params) == ParamInput("endpoint-a-param", "<y>", "y", Some("2"))
    ensures SubmittedPathAsWritten(parts, params) == "/a//undefined"
  {
    ExampleParts(parts);
    ExampleValues(parts, params);
    ParamAfterParamAsWritten(parts, params);
    ExamplePaths(parts[0], Undefined);
  }

  /** With each input named by its part, the same form submits `/a/1/2`. */
  lemma SecondParamReadsOwnInput(parts: seq<string>, params: map<string, string>)
    requires parts == ["a", "<x>", "<y>"] && params == map["x" := "1", "y" := "2"]
    ensures SubmittedPath(parts, params) == "/a/1/2"
  {
    ExampleParts(parts);
    ExampleValues(parts, params);
    ParamAfterParam(parts, params);
    ExamplePaths(parts[0], Undefined);
  }

  /** How the parts of `/a/<x>/<y>` are classified, and the name the inputs are given. */
  lemma ExampleParts(parts: seq<string>)
    requires parts == ["a", "<x>", "<y>"]
    ensures parts == [parts[0], parts[1], parts[2]]
    ensures !IsParam(parts[0]) && IsParam(parts[1]) && IsParam(parts[2])
    ensures FieldName(parts[0]) == "endpoint-a-param"
  {
    assert parts[1][0] == '<' && parts[2][0] == '<';
  }

  /** The two paths `/a/<x>/<y>` can submit, spelled out. */
  lemma ExamplePaths(a: string, u: string)
    requires a == "a" && u == Undefined
    ensures "/" + a + "/" + "" + "/" + u == "/a//undefined"
    ensures "/" + a + "/" + "1" + "/" + "2" == "/a/1/2"
  {
  }

  /** The parameter names of `<x>` and `<y>`. */
  lemma ExampleParamNames(x: string, y: string)
    requires x == "<x>" && y == "<y>"
    ensures ParamName(x) == "x" && ParamName(y) == "y"
  {
    ParamNameOfPlaceholder("x");
    ParamNameOfPlaceholder("y");
    assert x == "<" + "x" + ">" && y == "<" + "y" + ">";
  }

  /** What the inputs of `/a/<x>/<y>` hold when `x` and `y` are set to `1` and `2`. */
  lemma ExampleValues(parts: seq<string>, params: map<string, string>)
    requires parts == ["a", "<x>", "<y>"] && params == map["x" := "1", "y" := "2"]
    ensures CurrentValue(parts, 1, params) == "1" && CurrentValue(parts, 2, params) == "2"
  {
    ExampleParamNames(parts[1], parts[2]);
  }
}
