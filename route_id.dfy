/**
 * Route definition to endpoint id (`covertEndpointDefinitionToId`,
 * src/utils/request-api.js).
 *
 * The namespace prefix is cut off with `substr`, then every match of the
 * global pattern `\(\?P<([a-zA-Z_-]+)>(.[^)]+)\)` is replaced by a
 * placeholder. The pattern is modelled by a scanner that decides, for a
 * string, whether a match starts at its first character:
 *   - the literal `(?P<`;
 *   - a name: the longest run of `[a-zA-Z_-]`, at least one character
 *     (no shorter run can be followed by `>`, so backtracking finds no
 *     other match);
 *   - the literal `>`;
 *   - a body: one character that is not a line terminator (`.`), then the
 *     longest non-empty run of characters other than `)` (again the only
 *     run that can be followed by `)`);
 *   - the literal `)`.
 * The global replace tries this at each position from left to right,
 * copies the character and moves on when it fails, and resumes after the
 * match when it succeeds.
 */
module RouteId {
  import opened Wrappers
  import opened Strings

  /** `[a-zA-Z_-]` */
  predicate IsNameChar(c: char) {
    ('a' <= c <= 'z') || ('A' <= c <= 'Z') || c == '_' || c == '-'
  }

  /** The characters JavaScript's `.` does not match without the `s` flag. */
  predicate IsLineTerminator(c: char) {
    c == '\n' || c == '\r' || c == '\U{2028}' || c == '\U{2029}'
  }

  /** `[\[|+]`: a body holding one of these offers several options. */
  predicate IsOptionChar(c: char) {
    c == '[' || c == '|' || c == '+'
  }

  predicate HasOptionChar(body: string) {
    exists i :: 0 <= i < |body| && IsOptionChar(body[i])
  }

  /** A named group: the two capture groups of one match. */
  datatype Group = Group(name: string, body: string)

  /** The text one match covers. */
  function Source(g: Group): string {
    "(?P<" + g.name + ">" + g.body + ")"
  }

  /** How many characters one match covers: `(?P<`, name, `>`, body, `)`. */
  function GroupLength(g: Group): nat {
    |g.name| + |g.body| + 6
  }

  /** The shape the pattern demands of a name and a body. */
  predicate IsGroup(g: Group) {
    && |g.name| >= 1
    && (forall i :: 0 <= i < |g.name| ==> IsNameChar(g.name[i]))
    && |g.body| >= 2
    && !IsLineTerminator(g.body[0])
    && (forall i :: 1 <= i < |g.body| ==> g.body[i] != ')')
  }

  /** The text `(?P<` occurs at position `k` of `s`. */
  predicate OpenerAt(s: string, k: nat) {
    k + 4 <= |s| && s[k] == '(' && s[k + 1] == '?' && s[k + 2] == 'P' && s[k + 3] == '<'
  }

  /** `g` is a match of the pattern at the start of `s`: `s` begins with `Source(g)`. */
  predicate GroupAt(s: string, g: Group) {
    var n, b := |g.name|, |g.body|;
    && IsGroup(g)
    && GroupLength(g) <= |s|
    && OpenerAt(s, 0)
    && s[4..4 + n] == g.name
    && s[4 + n] == '>'
    && s[5 + n..5 + n + b] == g.body
    && s[5 + n + b] == ')'
  }

  /** A group's own source text, with anything after it, holds that group at its start. */
  lemma SourceGroupAt(g: Group, tail: string)
    requires IsGroup(g)
    ensures |Source(g)| == GroupLength(g)
    ensures GroupAt(Source(g) + tail, g)
    ensures (Source(g) + tail)[GroupLength(g)..] == tail
  {
    var s := Source(g) + tail;
    var n, b := |g.name|, |g.body|;
    assert s == "(?P<" + g.name + ">" + g.body + ")" + tail;
    assert s[4..4 + n] == g.name;
    assert s[5 + n..5 + n + b] == g.body;
  }

  /** End of the run of name characters that starts at `i`. */
  function NameEnd(s: string, i: nat): (e: nat)
    requires i <= |s|
    ensures i <= e <= |s|
    ensures forall k :: i <= k < e ==> IsNameChar(s[k])
    ensures e < |s| ==> !IsNameChar(s[e])
    decreases |s| - i
  {
    if i < |s| && IsNameChar(s[i]) then NameEnd(s, i + 1) else i
  }

  /** Index of the first `)` at or after `i`, or `|s|` when there is none. */
  function CloseFrom(s: string, i: nat): (k: nat)
    requires i <= |s|
    ensures i <= k <= |s|
    ensures forall m :: i <= m < k ==> s[m] != ')'
    ensures k < |s| ==> s[k] == ')'
    decreases |s| - i
  {
    if i == |s| || s[i] == ')' then i else CloseFrom(s, i + 1)
  }

  /** The match of the pattern at the start of `s`, if there is one. */
  function MatchGroup(s: string): (r: Option<Group>)
    ensures r.Some? ==> GroupAt(s, r.value)
  {
    if OpenerAt(s, 0) then
      var e := NameEnd(s, 4);  // the `>` must be here
      var j := e + 1;          // the body starts here
      if e > 4 && j + 1 < |s| && s[e] == '>' && !IsLineTerminator(s[j]) then
        var k := CloseFrom(s, j + 1);  // the closing `)`
        if j + 1 < k < |s| then
          var g := Group(s[4..e], s[j..k]);
          assert forall i :: 0 <= i < |g.name| ==> g.name[i] == s[4 + i];
          assert forall i :: 1 <= i < |g.body| ==> g.body[i] == s[j + i];
          assert IsGroup(g);
          Some(g)
        else None
      else None
    else None
  }

  /** The name run ends exactly at `e` when name characters fill `[i, e)` and `s[e]` is none. */
  lemma {:induction false} NameEndExact(s: string, i: nat, e: nat)
    requires i <= e < |s| && !IsNameChar(s[e])
    requires forall k :: i <= k < e ==> IsNameChar(s[k])
    ensures NameEnd(s, i) == e
    decreases e - i
  {
    if i < e {
      NameEndExact(s, i + 1, e);
    }
  }

  /** The first `)` from `i` on is at `k` when `[i, k)` holds none and `s[k]` is one. */
  lemma {:induction false} CloseFromExact(s: string, i: nat, k: nat)
    requires i <= k < |s| && s[k] == ')'
    requires forall m :: i <= m < k ==> s[m] != ')'
    ensures CloseFrom(s, i) == k
    decreases k - i
  {
    if i < k {
      CloseFromExact(s, i + 1, k);
    }
  }

  /** The scanner finds every match of the pattern: a match is unique. */
  lemma MatchGroupComplete(s: string, g: Group)
    requires GroupAt(s, g)
    ensures MatchGroup(s) == Some(g)
  {
    var n, b := |g.name|, |g.body|;
    var e, j := 4 + n, 5 + n;
    assert forall k :: 4 <= k < e ==> s[k] == g.name[k - 4];
    NameEndExact(s, 4, e);
    assert s[j] == g.body[0];
    assert forall m :: j + 1 <= m < j + b ==> s[m] == g.body[m - j];
    CloseFromExact(s, j + 1, j + b);
  }

  /**
   * The replacement the callback returns: `<name>` when the body offers
   * several options, `<name=body>` when it holds a single one.
   */
  function Placeholder(g: Group): (r: string)
    ensures |r| >= |g.name| + 2
    ensures r[0] == '<' && r[|r| - 1] == '>' && r[1..|g.name| + 1] == g.name
    ensures HasOptionChar(g.body) <==> |r| == |g.name| + 2
    ensures !HasOptionChar(g.body) ==> r[|g.name| + 1] == '=' && r[|g.name| + 2..|r| - 1] == g.body
  {
    if HasOptionChar(g.body) then "<" + g.name + ">"
    else "<" + g.name + "=" + g.body + ">"
  }

  /** The global replace: each match becomes its placeholder, all other text is copied. */
  function Rewrite(s: string): string
    decreases |s|
  {
    if s == [] then ""
    else
      match MatchGroup(s)
      case Some(g) => Placeholder(g) + Rewrite(s[GroupLength(g)..])
      case None => [s[0]] + Rewrite(s[1..])
  }

  /** `covertEndpointDefinitionToId( def, path )`. */
  function ConvertId(def: string, path: string): (id: string)
    ensures |def| <= |path| ==> id == ""
  {
    Rewrite(Substr(def, |path|))
  }

  /** No match starts at any position of `s`. */
  predicate NoGroup(s: string) {
    forall k :: 0 <= k < |s| ==> MatchGroup(s[k..]).None?
  }

  /** Where no match starts, the first character is copied and the scan moves on. */
  lemma RewriteStep(s: string)
    requires s != [] && MatchGroup(s).None?
    ensures Rewrite(s) == [s[0]] + Rewrite(s[1..])
  {
  }

  /** No match starts at any of the first `m` positions of `s`. */
  predicate NoMatchBefore(s: string, m: nat)
    requires m <= |s|
    decreases m
  {
    m == 0 || (NoMatchBefore(s, m - 1) && MatchGroup(s[m - 1..]).None?)
  }

  /** `NoMatchBefore` says of the first `m` positions what `NoGroup` says of all of them. */
  lemma {:induction false} NoMatchBeforeIff(s: string, m: nat)
    requires m <= |s|
    ensures NoMatchBefore(s, m) <==> forall k :: 0 <= k < m ==> MatchGroup(s[k..]).None?
    decreases m
  {
    if m > 0 {
      NoMatchBeforeIff(s, m - 1);
      assert NoMatchBefore(s, m) == (NoMatchBefore(s, m - 1) && MatchGroup(s[m - 1..]).None?);
      if forall k :: 0 <= k < m ==> MatchGroup(s[k..]).None? {
        assert forall k :: 0 <= k < m - 1 ==> MatchGroup(s[k..]).None?;
        assert NoMatchBefore(s, m);
      }
    }
  }

  /** Text in front of the first match is copied unchanged and in order. */
  lemma {:induction false} RewriteCopiesUntilGroup(s: string, m: nat)
    requires m <= |s|
    requires NoMatchBefore(s, m)
    ensures Rewrite(s) == s[..m] + Rewrite(s[m..])
    decreases m
  {
    if m == 0 {
      CopyNothing(s, Rewrite(s));
    } else {
      RewriteCopiesUntilGroup(s, m - 1);
      RewriteCopiesOneMore(s, m);
    }
  }

  /** The step of `RewriteCopiesUntilGroup`: one more unmatched character is copied. */
  lemma RewriteCopiesOneMore(s: string, m: nat)
    requires 0 < m <= |s|
    requires MatchGroup(s[m - 1..]).None?
    requires Rewrite(s) == s[..m - 1] + Rewrite(s[m - 1..])
    ensures Rewrite(s) == s[..m] + Rewrite(s[m..])
  {
    var t := s[m - 1..];
    RewriteStep(t);
    assert t[0] == s[m - 1] && t[1..] == s[m..];
    CopyOneMore(s, m, Rewrite(s), Rewrite(t), Rewrite(s[m..]));
  }

  /** A string in which the pattern never matches is left as it is. */
  lemma RewriteVerbatim(s: string)
    requires NoGroup(s)
    ensures Rewrite(s) == s
  {
    NoMatchBeforeIff(s, |s|);
    RewriteCopiesUntilGroup(s, |s|);
    assert s[..|s|] == s;
  }

  /** A match is replaced by its placeholder and the scan resumes right after it. */
  lemma RewriteAtGroup(s: string, g: Group)
    requires GroupAt(s, g)
    ensures Rewrite(s) == Placeholder(g) + Rewrite(s[GroupLength(g)..])
  {
    MatchGroupComplete(s, g);
  }

  /** Every match begins with `(?P<`; without that text the pattern never matches. */
  lemma NoGroupWithoutOpener(s: string)
    requires forall k: nat :: k < |s| ==> !OpenerAt(s, k)
    ensures NoGroup(s)
  {
    forall k | 0 <= k < |s|
      ensures MatchGroup(s[k..]).None?
    {
      assert !OpenerAt(s, k);
      assert !OpenerAt(s[k..], 0);
    }
  }

  /**
   * A route key without named groups loses only its first `|path|`
   * characters (`/wp/v2/posts` under `/wp/v2` becomes `/posts`).
   */
  lemma ConvertIdWithoutGroups(def: string, path: string)
    requires |path| <= |def|
    requires NoGroup(def[|path|..])
    ensures ConvertId(def, path) == def[|path|..]
  {
    RewriteVerbatim(def[|path|..]);
  }

  /**
   * A group whose body is a single character is no match: `.` takes that
   * character and `[^)]+` finds the `)` at once.
   */
  lemma OneCharBodyNotMatched(name: string, c: char, rest: string)
    requires |name| >= 1 && forall i :: 0 <= i < |name| ==> IsNameChar(name[i])
    ensures MatchGroup("(?P<" + name + ">" + [c] + ")" + rest).None?
  {
    var s := "(?P<" + name + ">" + [c] + ")" + rest;
    var n := |name|;
    assert OpenerAt(s, 0);
    assert forall k :: 4 <= k < 4 + n ==> s[k] == name[k - 4];
    assert s[4 + n] == '>';
    NameEndExact(s, 4, 4 + n);
    assert s[6 + n] == ')';
  }

  /** Where `(?P<` does not begin, no match begins. */
  lemma NoOpenerNoMatch(s: string, k: nat)
    requires k < |s| && !OpenerAt(s, k)
    ensures MatchGroup(s[k..]).None?
  {
    assert !OpenerAt(s[k..], 0);
  }

  /**
   * Such a group therefore stays in the id as it is: no match starts
   * anywhere inside it, not even at a body `(`, which a `)` follows.
   */
  lemma OneCharBodyCopied(name: string, c: char, rest: string)
    requires |name| >= 1 && forall i :: 0 <= i < |name| ==> IsNameChar(name[i])
    ensures Rewrite("(?P<" + name + ">" + [c] + ")" + rest) == "(?P<" + name + ">" + [c] + ")" + Rewrite(rest)
  {
    var n := |name|;
    var head := "(?P<" + name + ">" + [c] + ")";
    var s := head + rest;
    assert |head| == n + 7;
    forall k | 0 <= k < n + 7
      ensures MatchGroup(s[k..]).None?
    {
      if k == 0 {
        OneCharBodyNotMatched(name, c, rest);
      } else {
        if k < 4 {
          assert s[k] != '(';
        } else if k < 4 + n {
          assert s[k] == name[k - 4];
        } else if k == 5 + n {
          assert s[k + 1] == ')';
        } else {
          assert s[k] == '>' || s[k] == ')';
        }
        NoOpenerNoMatch(s, k);
      }
    }
    NoMatchBeforeIff(s, n + 7);
    RewriteCopiesUntilGroup(s, n + 7);
    assert s[..n + 7] == head && s[n + 7..] == rest;
  }

  /** Text without `(` in front of the rest is copied unchanged. */
  lemma {:induction false} RewriteCopiesPlainText(prefix: string, rest: string)
    requires '(' !in prefix
    ensures Rewrite(prefix + rest) == prefix + Rewrite(rest)
  {
    if prefix == [] {
      assert prefix + rest == rest;
    } else {
      var s := prefix + rest;
      assert s[0] == prefix[0] && prefix[0] in prefix;
      assert !OpenerAt(s, 0);
      RewriteStep(s);
      assert s[1..] == prefix[1..] + rest;
      assert '(' !in prefix[1..] by {
        assert forall x :: x in prefix[1..] ==> x in prefix;
      }
      RewriteCopiesPlainText(prefix[1..], rest);
      HeadTail(prefix, Rewrite(rest));
    }
  }

  /**
   * A key made of the namespace, text without `(`, one group and a tail
   * converts to that text, the group's placeholder, and the converted tail.
   */
  lemma ConvertIdOfGroup(path: string, prefix: string, g: Group, tail: string)
    requires '(' !in prefix
    requires IsGroup(g)
    ensures ConvertId(path + prefix + Source(g) + tail, path) == prefix + Placeholder(g) + Rewrite(tail)
  {
    var def := path + prefix + Source(g) + tail;
    var rest := Source(g) + tail;
    assert def[|path|..] == prefix + rest;
    RewriteCopiesPlainText(prefix, rest);
    SourceGroupAt(g, tail);
    RewriteAtGroup(rest, g);
  }
}
