/** The three JavaScript string primitives the page walk and the
    aggregator rely on: `String.prototype.split` with a one-character
    separator, `Array.prototype.join` and `String.prototype.trim`. */
module Text {

  /** ECMAScript WhiteSpace and LineTerminator code points, the set that
      `trim` removes: tab, line tabulation, form feed, space, no-break
      space, zero-width no-break space, every Unicode space separator (Zs),
      line feed, carriage return, line and paragraph separator. */
  const JsWhitespace: set<char> := {
    '\t', '\U{B}', '\U{C}', ' ', '\U{A0}', '\U{FEFF}',
    '\U{1680}', '\U{2000}', '\U{2001}', '\U{2002}', '\U{2003}', '\U{2004}',
    '\U{2005}', '\U{2006}', '\U{2007}', '\U{2008}', '\U{2009}', '\U{200A}',
    '\U{202F}', '\U{205F}', '\U{3000}',
    '\n', '\r', '\U{2028}', '\U{2029}'
  }

  predicate IsJsWhitespace(c: char) {
    c in JsWhitespace
  }

  /** `s` neither starts nor ends with whitespace. */
  predicate IsTrimmed(s: string) {
    s != [] ==> !IsJsWhitespace(s[0]) && !IsJsWhitespace(s[|s| - 1])
  }

  /** `parts.join(sep)`: the parts with one separator between
      neighbours; the empty list joins to the empty string. */
  function Join(parts: seq<string>, sep: char): string {
    if |parts| == 0 then ""
    else if |parts| == 1 then parts[0]
    else parts[0] + [sep] + Join(parts[1..], sep)
  }

  /** `s.split(sep)`: the maximal separator-free pieces of `s`, in order.
      There is always at least one piece (`"".split(",")` is `[""]`). */
  function Split(s: string, sep: char): (parts: seq<string>)
    ensures |parts| >= 1
    ensures forall i :: 0 <= i < |parts| ==> sep !in parts[i]
    decreases |s|
  {
    if s == [] then [""]
    else
      var rest := Split(s[1..], sep);
      if s[0] == sep then [""] + rest
      else [[s[0]] + rest[0]] + rest[1..]
  }

  /** `s.trimStart()`. */
  function TrimStart(s: string): string
    decreases |s|
  {
    if s != [] && IsJsWhitespace(s[0]) then TrimStart(s[1..]) else s
  }

  /** `s.trimEnd()`. */
  function TrimEnd(s: string): string
    decreases |s|
  {
    if s != [] && IsJsWhitespace(s[|s| - 1]) then TrimEnd(s[..|s| - 1]) else s
  }

  /** `trimStart` drops the leading whitespace and nothing else: the
      result is the last `|r|` characters of `s`, everything before them
      is whitespace, and the result does not start with whitespace. */
  lemma {:induction false} TrimStartSpec(s: string)
    ensures var r := TrimStart(s);
      && |r| <= |s|
      && (forall k :: 0 <= k < |r| ==> r[k] == s[|s| - |r| + k])
      && (forall k :: 0 <= k < |s| - |r| ==> IsJsWhitespace(s[k]))
      && (r != [] ==> !IsJsWhitespace(r[0]))
    decreases |s|
  {
    if s != [] && IsJsWhitespace(s[0]) {
      var tail := s[1..];
      TrimStartSpec(tail);
      var r := TrimStart(tail);
      assert TrimStart(s) == r;
      forall k | 0 <= k < |r|
        ensures r[k] == s[|s| - |r| + k]
      {
        assert r[k] == tail[|tail| - |r| + k];
      }
      forall k | 0 <= k < |s| - |r|
        ensures IsJsWhitespace(s[k])
      {
        if k > 0 {
          assert s[k] == tail[k - 1];
        }
      }
    }
  }

  /** `trimEnd` drops the trailing whitespace and nothing else: the
      result is the first `|r|` characters of `s`, everything after them
      is whitespace, and the result does not end with whitespace. */
  lemma {:induction false} TrimEndSpec(s: string)
    ensures var r := TrimEnd(s);
      && |r| <= |s|
      && (forall k :: 0 <= k < |r| ==> r[k] == s[k])
      && (forall k :: |r| <= k < |s| ==> IsJsWhitespace(s[k]))
      && (r != [] ==> !IsJsWhitespace(r[|r| - 1]))
    decreases |s|
  {
    if s != [] && IsJsWhitespace(s[|s| - 1]) {
      var init := s[..|s| - 1];
      TrimEndSpec(init);
      var r := TrimEnd(init);
      assert TrimEnd(s) == r;
      forall k | 0 <= k < |r|
        ensures r[k] == s[k]
      {
        assert r[k] == init[k];
      }
      forall k | |r| <= k < |s|
        ensures IsJsWhitespace(s[k])
      {
        if k < |s| - 1 {
          assert s[k] == init[k];
        }
      }
    }
  }

  /** `r` is the infix of `s` at offset `i`, with nothing but whitespace
      on either side of it. */
  predicate TrimmedAt(s: string, r: string, i: int) {
    && 0 <= i <= |s| - |r|
    && (forall k :: 0 <= k < |r| ==> r[k] == s[i + k])
    && (forall k :: 0 <= k < i ==> IsJsWhitespace(s[k]))
    && (forall k :: i + |r| <= k < |s| ==> IsJsWhitespace(s[k]))
  }

  /** `s.trim()`: `s` with the whitespace on both sides removed; what is
      left neither starts nor ends with whitespace. */
  function Trim(s: string): (r: string)
    ensures IsTrimmed(r)
    ensures exists i :: TrimmedAt(s, r, i)
  {
    var t := TrimStart(s);
    var r := TrimEnd(t);
    TrimStartSpec(s);
    TrimEndSpec(t);
    InfixAt(s, t, r);
    r
  }

  /** `r` is a prefix of `t` followed by whitespace only, and `t` a
      suffix of `s` preceded by whitespace only: then `r` sits in `s`
      between `|s| - |t|` characters of whitespace and whitespace. */
  lemma InfixAt(s: string, t: string, r: string)
    requires |t| <= |s| && (forall k :: 0 <= k < |t| ==> t[k] == s[|s| - |t| + k])
    requires forall k :: 0 <= k < |s| - |t| ==> IsJsWhitespace(s[k])
    requires |r| <= |t| && (forall k :: 0 <= k < |r| ==> r[k] == t[k])
    requires forall k :: |r| <= k < |t| ==> IsJsWhitespace(t[k])
    requires t != [] ==> !IsJsWhitespace(t[0])
    requires r != [] ==> !IsJsWhitespace(r[|r| - 1])
    ensures TrimmedAt(s, r, |s| - |t|)
    ensures IsTrimmed(r)
  {
    var i := |s| - |t|;
    forall k | 0 <= k < |r|
      ensures r[k] == s[i + k]
    {
      assert r[k] == t[k];
    }
    forall k | i + |r| <= k < |s|
      ensures IsJsWhitespace(s[k])
    {
      assert t[k - i] == s[k];
    }
  }

  /** Trimming keeps a character out if the input did not have it. */
  lemma TrimKeepsOut(s: string, c: char)
    requires c !in s
    ensures c !in Trim(s)
  {
    var r := Trim(s);
    var i :| TrimmedAt(s, r, i);
    forall k | 0 <= k < |r|
      ensures r[k] != c
    {
      assert r[k] == s[i + k];
    }
  }

  /** Trimming a trimmed string changes nothing. */
  lemma TrimIdempotent(s: string)
    ensures Trim(Trim(s)) == Trim(s)
  {
    var r := Trim(s);
    TrimUnchanged(r);
  }

  /** A string that neither starts nor ends with whitespace is its own
      trim. */
  lemma TrimUnchanged(s: string)
    requires IsTrimmed(s)
    ensures Trim(s) == s
  {
    assert TrimStart(s) == s;
    assert TrimEnd(s) == s;
  }

  /** `s` consists of whitespace only (the empty string included). */
  predicate AllWhitespace(s: string) {
    forall k :: 0 <= k < |s| ==> IsJsWhitespace(s[k])
  }

  /** At most one trimmed infix of `s` has only whitespace around it. */
  lemma TrimmedAtUnique(s: string, t: string, i: int, x: string, j: int)
    requires TrimmedAt(s, t, i) && IsTrimmed(t)
    requires TrimmedAt(s, x, j) && IsTrimmed(x)
    ensures t == x
  {
    if t != [] && x != [] {
      assert s[i] == t[0] && s[j] == x[0];
      assert s[i + |t| - 1] == t[|t| - 1] && s[j + |x| - 1] == x[|x| - 1];
      assert i == j;
      assert |t| == |x|;
      forall k | 0 <= k < |t|
        ensures t[k] == x[k]
      {
        assert t[k] == s[i + k];
      }
    }
  }

  /** Whitespace on either side of a trimmed string is exactly what
      `trim` takes away. */
  lemma TrimPadded(l: string, x: string, r: string)
    requires AllWhitespace(l) && AllWhitespace(r) && IsTrimmed(x)
    ensures Trim(l + x + r) == x
  {
    var s := l + x + r;
    var t := Trim(s);
    var i :| TrimmedAt(s, t, i);
    forall k | 0 <= k < |x|
      ensures x[k] == s[|l| + k]
    {
    }
    forall k | 0 <= k < |l|
      ensures IsJsWhitespace(s[k])
    {
      assert s[k] == l[k];
    }
    forall k | |l| + |x| <= k < |s|
      ensures IsJsWhitespace(s[k])
    {
      assert s[k] == r[k - |l| - |x|];
    }
    assert TrimmedAt(s, x, |l|);
    TrimmedAtUnique(s, t, i, x, |l|);
  }

  /** Joining the pieces of a split gives back the original string. */
  lemma {:induction false} JoinSplit(s: string, sep: char)
    ensures Join(Split(s, sep), sep) == s
    decreases |s|
  {
    if s != [] {
      var rest := Split(s[1..], sep);
      JoinSplit(s[1..], sep);
      if s[0] == sep {
        assert Split(s, sep) == [""] + rest;
        assert ([""] + rest)[1..] == rest;
        assert s == "" + [sep] + s[1..];
      } else {
        JoinConsHead([s[0]], rest, sep);
        assert Split(s, sep) == [[s[0]] + rest[0]] + rest[1..];
        assert s == [s[0]] + s[1..];
      }
    }
  }

  /** Gluing a prefix onto the first part glues it onto the joined
      string. */
  lemma JoinConsHead(x: string, parts: seq<string>, sep: char)
    requires |parts| >= 1
    ensures Join([x + parts[0]] + parts[1..], sep) == x + Join(parts, sep)
  {
    var ps := [x + parts[0]] + parts[1..];
    if |parts| > 1 {
      assert ps[1..] == parts[1..];
    }
  }

  /** Splitting a separator-free prefix followed by `t`: the prefix is
      glued onto the first piece of `t`. */
  lemma {:induction false} SplitFreePrefix(x: string, t: string, sep: char)
    requires sep !in x
    ensures Split(x + t, sep) == [x + Split(t, sep)[0]] + Split(t, sep)[1..]
    decreases |x|
  {
    if x != [] {
      assert (x + t)[1..] == x[1..] + t;
      assert x[0] != sep;
      SplitFreePrefix(x[1..], t, sep);
      assert [x[0]] + (x[1..] + Split(t, sep)[0]) == x + Split(t, sep)[0];
    } else {
      assert x + t == t;
      assert x + Split(t, sep)[0] == Split(t, sep)[0];
    }
  }

  /** Splitting a join of separator-free parts gives back the parts (for
      a non-empty list: the empty list joins to `""`, which splits to
      `[""]`). */
  lemma {:induction false} SplitJoin(parts: seq<string>, sep: char)
    requires |parts| >= 1
    requires forall i :: 0 <= i < |parts| ==> sep !in parts[i]
    ensures Split(Join(parts, sep), sep) == parts
    decreases |parts|
  {
    if |parts| == 1 {
      SplitFreePrefix(parts[0], "", sep);
      assert parts[0] + "" == parts[0];
    } else {
      var tail := Join(parts[1..], sep);
      SplitJoin(parts[1..], sep);
      assert Join(parts, sep) == parts[0] + ([sep] + tail);
      SplitFreePrefix(parts[0], [sep] + tail, sep);
      assert ([sep] + tail)[1..] == tail;
      assert Split([sep] + tail, sep) == [""] + parts[1..];
      assert parts[0] + "" == parts[0];
      assert parts == [parts[0]] + parts[1..];
    }
  }

  /** `s.split(sep)` has one more piece than `s` has separators. */
  lemma {:induction false} SplitCount(s: string, sep: char)
    ensures |Split(s, sep)| == multiset(s)[sep] + 1
    decreases |s|
  {
    if s != [] {
      SplitCount(s[1..], sep);
      assert s == [s[0]] + s[1..];
      assert multiset(s) == multiset([s[0]]) + multiset(s[1..]);
    }
  }
}
