/**
 * The three JavaScript string operations the plugin relies on:
 * `String.prototype.substr( start )` with a non-negative start,
 * `split` on a single separator character, and `Array.prototype.join`;
 * and a natural number as a template literal prints it, in decimal.
 */
module Strings {

  /** `s.substr( start )`: the suffix of `s` from `start`, empty once `start` passes the end. */
  function Substr(s: string, start: nat): (r: string)
    ensures start <= |s| ==> |r| == |s| - start && s == s[..start] + r
    ensures |s| <= start ==> r == ""
  {
    if start <= |s| then s[start..] else ""
  }

  /**
   * `s.split( sep )` for a separator that cannot match the empty string:
   * the maximal runs between separators, so always one part more than
   * there are separators (`"".split( '/' )` is `[ "" ]`).
   */
  function Split(s: string, sep: char): (parts: seq<string>)
    ensures |parts| >= 1
    ensures forall i :: 0 <= i < |parts| ==> sep !in parts[i]
  {
    if s == [] then [[]]
    else
      var rest := Split(s[1..], sep);
      if s[0] == sep then [[]] + rest
      else [[s[0]] + rest[0]] + rest[1..]
  }

  /** `parts.join( sep )`. */
  function Join(parts: seq<string>, sep: char): string
  {
    if |parts| == 0 then ""
    else if |parts| == 1 then parts[0]
    else parts[0] + [sep] + Join(parts[1..], sep)
  }

  /** A split has one part more than the string has separators. */
  lemma {:induction false} SplitCount(s: string, sep: char)
    ensures |Split(s, sep)| == multiset(s)[sep] + 1
  {
    if s != [] {
      SplitCount(s[1..], sep);
      assert s == [s[0]] + s[1..];
      assert multiset(s) == multiset{s[0]} + multiset(s[1..]);
    }
  }

  /** A non-empty sequence is its head followed by its tail, also in front of more text. */
  lemma HeadTail<T>(p: seq<T>, r: seq<T>)
    requires p != []
    ensures [p[0]] + (p[1..] + r) == p + r
  {
    assert [p[0]] + p[1..] == p;
  }

  /** Copying no elements of a sequence leaves what follows unchanged. */
  lemma CopyNothing<T>(s: seq<T>, x: seq<T>)
    ensures s[0..] == s && s[..0] + x == x
  {
    assert s[..0] == [];
  }

  /** Copying one more element: a prefix of length m - 1, then element m - 1, is the prefix of length m. */
  lemma CopyOneMore<T>(s: seq<T>, m: nat, whole: seq<T>, tail: seq<T>, rest: seq<T>)
    requires 0 < m <= |s|
    requires whole == s[..m - 1] + tail
    requires tail == [s[m - 1]] + rest
    ensures whole == s[..m] + rest
  {
    assert s[..m - 1] + [s[m - 1]] == s[..m];
  }

  /** Concatenation is associative. */
  lemma AppendAssoc<T>(x: seq<T>, y: seq<T>, z: seq<T>)
    ensures x + y + z == x + (y + z)
  {
  }

  /** Regrouping a concatenation of six pieces around the second to fourth. */
  lemma Regroup<T>(a: seq<T>, b: seq<T>, c: seq<T>, d: seq<T>, e: seq<T>, f: seq<T>)
    ensures a + b + c + d + e + f == a + (b + c + d) + e + f
  {
    assert a + b + c + d == a + (b + c + d);
  }

  /** Joining a non-empty tail after a head puts one separator between them. */
  lemma JoinCons(head: string, tail: seq<string>, sep: char)
    requires |tail| >= 1
    ensures Join([head] + tail, sep) == head + [sep] + Join(tail, sep)
  {
    assert ([head] + tail)[1..] == tail;
  }

  /** Joining the parts of a split gives back the string that was split. */
  lemma {:induction false} JoinSplit(s: string, sep: char)
    ensures Join(Split(s, sep), sep) == s
  {
    if s != [] {
      JoinSplit(s[1..], sep);
      if s[0] == sep {
        JoinSplitAtSeparator(s, sep);
      } else {
        JoinSplitAtOther(s, sep);
      }
    }
  }

  /** The step of `JoinSplit` for a string that starts with the separator. */
  lemma JoinSplitAtSeparator(s: string, sep: char)
    requires s != [] && s[0] == sep
    requires Join(Split(s[1..], sep), sep) == s[1..]
    ensures Join(Split(s, sep), sep) == s
  {
    JoinCons([], Split(s[1..], sep), sep);
    assert s == [s[0]] + s[1..];
  }

  /** The step of `JoinSplit` for a string that starts with another character. */
  lemma JoinSplitAtOther(s: string, sep: char)
    requires s != [] && s[0] != sep
    requires Join(Split(s[1..], sep), sep) == s[1..]
    ensures Join(Split(s, sep), sep) == s
  {
    var rest := Split(s[1..], sep);
    assert Split(s, sep) == [[s[0]] + rest[0]] + rest[1..];
    JoinPrepend(s[0], rest, sep);
    assert s == [s[0]] + s[1..];
  }

  /** A character put in front of the first part is put in front of the join. */
  lemma JoinPrepend(c: char, parts: seq<string>, sep: char)
    requires |parts| >= 1
    ensures Join([[c] + parts[0]] + parts[1..], sep) == [c] + Join(parts, sep)
  {
    var first := [c] + parts[0];
    if |parts| == 1 {
      assert [first] + parts[1..] == [first];
    } else {
      JoinCons(first, parts[1..], sep);
      assert [parts[0]] + parts[1..] == parts;
      JoinCons(parts[0], parts[1..], sep);
    }
  }

  /** A string free of the separator splits into itself alone. */
  lemma {:induction false} SplitNoSeparator(s: string, sep: char)
    requires sep !in s
    ensures Split(s, sep) == [s]
  {
    if s != [] {
      SplitNoSeparator(s[1..], sep);
      assert [s[0]] + s[1..] == s;
    }
  }

  /** Splitting `a + sep + b` cuts at that separator when `a` holds none. */
  lemma {:induction false} SplitAtFirstSeparator(a: string, b: string, sep: char)
    requires sep !in a
    ensures Split(a + [sep] + b, sep) == [a] + Split(b, sep)
  {
    var s := a + [sep] + b;
    if a == [] {
      assert s[1..] == b;
    } else {
      assert s[1..] == a[1..] + [sep] + b;
      SplitAtFirstSeparator(a[1..], b, sep);
      assert [a[0]] + a[1..] == a;
    }
  }

  /** Splitting a join gives back the parts when no part holds the separator. */
  lemma {:induction false} SplitJoin(parts: seq<string>, sep: char)
    requires |parts| >= 1
    requires forall i :: 0 <= i < |parts| ==> sep !in parts[i]
    ensures Split(Join(parts, sep), sep) == parts
  {
    if |parts| == 1 {
      SplitNoSeparator(parts[0], sep);
    } else {
      SplitJoin(parts[1..], sep);
      SplitAtFirstSeparator(parts[0], Join(parts[1..], sep), sep);
      assert [parts[0]] + parts[1..] == parts;
    }
  }

  /** A character absent from a string is absent from every part of its split. */
  lemma {:induction false} SplitKeepsAbsent(s: string, sep: char, c: char)
    requires c !in s
    ensures forall i :: 0 <= i < |Split(s, sep)| ==> c !in Split(s, sep)[i]
  {
    if s != [] {
      assert c != s[0] && c !in s[1..] by {
        assert s[0] in s;
        assert forall x :: x in s[1..] ==> x in s;
      }
      SplitKeepsAbsent(s[1..], sep, c);
    }
  }

  /** Joining one more part appends a separator and that part. */
  lemma {:induction false} JoinSnoc(parts: seq<string>, last: string, sep: char)
    requires |parts| >= 1
    ensures Join(parts + [last], sep) == Join(parts, sep) + [sep] + last
  {
    if |parts| == 1 {
      assert parts + [last] == [parts[0], last];
      assert [parts[0], last][1..] == [last];
    } else {
      assert (parts + [last])[1..] == parts[1..] + [last];
      assert (parts + [last])[0] == parts[0];
      JoinSnoc(parts[1..], last, sep);
    }
  }

  /** The decimal digit `d` as a character. */
  function DigitChar(d: nat): (c: char)
    requires d < 10
    ensures '0' <= c <= '9'
  {
    (48 + d) as char
  }

  /** `${ n }` for a natural number `n`: its decimal digits, without leading zeros. */
  function Digits(n: nat): (r: string)
    ensures |r| >= 1 && (|r| == 1 <==> n < 10)
    ensures forall i :: 0 <= i < |r| ==> '0' <= r[i] <= '9'
  {
    if n < 10 then [DigitChar(n)] else Digits(n / 10) + [DigitChar(n % 10)]
  }

  /** Different numbers print differently. */
  lemma {:induction false} DigitsInjective(a: nat, b: nat)
    requires Digits(a) == Digits(b)
    ensures a == b
    decreases a
  {
    var da, db := Digits(a), Digits(b);
    if a < 10 && b < 10 {
      assert DigitChar(a) == da[0] == db[0] == DigitChar(b);
    } else if a >= 10 && b >= 10 {
      assert DigitChar(a % 10) == da[|da| - 1] == db[|db| - 1] == DigitChar(b % 10);
      assert da[..|da| - 1] == Digits(a / 10);
      assert db[..|db| - 1] == Digits(b / 10);
      DigitsInjective(a / 10, b / 10);
    }
  }
}
