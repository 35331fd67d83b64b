/** The string utilities: `replace`, `trim`, `unquote` and
    `quoteProperty`. */
module StringUtils {
  import opened CStrings

  datatype Option<T> = None | Some(value: T)

  // ---------------------------------------------------------------------
  // Searching and replacing

  /** An occurrence of `pat` starts at index `k` of `s`. */
  predicate MatchAt(s: string, pat: string, k: nat)
  {
    k + |pat| <= |s| && s[k..k + |pat|] == pat
  }

  /** Occurrences in a suffix are occurrences in the whole, shifted. */
  lemma MatchShift(s: string, pat: string, i: nat, j: nat)
    requires i <= |s|
    ensures MatchAt(s[i..], pat, j) <==> MatchAt(s, pat, i + j)
  {
    if i + j + |pat| <= |s| {
      assert s[i..][j..j + |pat|] == s[i + j..i + j + |pat|];
    }
  }

  /** `r` is what `s.find(pat, from)` returns: the first occurrence of `pat`
      at or after `from`, or none (`npos`) when there is none. */
  ghost predicate FoundFirst(s: string, pat: string, from: nat, r: Option<nat>)
  {
    && (r.Some? ==> from <= r.value && MatchAt(s, pat, r.value))
    && (r.Some? ==> forall k :: from <= k < r.value ==> !MatchAt(s, pat, k))
    && (r.None? ==> forall k :: from <= k ==> !MatchAt(s, pat, k))
  }

  /** `s.find(pat, from)`: the first occurrence of `pat` at or after `from`,
      or none (`npos`). */
  method Find(s: string, pat: string, from: nat) returns (r: Option<nat>)
    ensures FoundFirst(s, pat, from, r)
  {
    var k := from;
    while k + |pat| <= |s|
      invariant from <= k
      invariant forall j :: from <= j < k ==> !MatchAt(s, pat, j)
      decreases |s| - k
    {
      if s[k..k + |pat|] == pat {
        return Some(k);
      }
      k := k + 1;
    }
    return None;
  }

  /** Every occurrence of `o` in `s` replaced by `n`, scanning left to right;
      the scan resumes after each occurrence it replaced, so occurrences do
      not overlap and the inserted text is never searched. */
  function ReplaceAll(s: string, o: string, n: string): string
    requires o != []
    decreases |s|
  {
    if s == [] then []
    else if MatchAt(s, o, 0) then n + ReplaceAll(s[|o|..], o, n)
    else [s[0]] + ReplaceAll(s[1..], o, n)
  }

  /** Where `o` does not start `s`, its first character is kept. */
  lemma ReplaceAllKeepsHead(s: string, o: string, n: string)
    requires o != [] && s != []
    requires !MatchAt(s, o, 0)
    ensures ReplaceAll(s, o, n) == [s[0]] + ReplaceAll(s[1..], o, n)
  {
  }

  /** Where `o` starts `s`, it is replaced first. */
  lemma ReplaceAllAtHead(s: string, o: string, n: string)
    requires o != []
    requires MatchAt(s, o, 0)
    ensures ReplaceAll(s, o, n) == n + ReplaceAll(s[|o|..], o, n)
  {
  }

  /** Without an occurrence from `i` on, the suffix from `i` is kept as it
      is. */
  lemma {:induction false} ReplaceAllNoMatch(s: string, o: string, n: string, i: nat)
    requires o != [] && i <= |s|
    requires forall k :: i <= k ==> !MatchAt(s, o, k)
    ensures ReplaceAll(s[i..], o, n) == s[i..]
    decreases |s| - i
  {
    if i < |s| {
      MatchShift(s, o, i, 0);
      ReplaceAllKeepsHead(s[i..], o, n);
      assert s[i..][1..] == s[i + 1..];
      ReplaceAllNoMatch(s, o, n, i + 1);
      assert [s[i]] + s[i + 1..] == s[i..];
    }
  }

  /** The first occurrence from `i` on, at `d`, is the first thing replaced:
      the text before it is kept as it is. */
  lemma {:induction false} ReplaceAllFirstMatch(s: string, o: string, n: string, i: nat, d: nat)
    requires o != [] && i <= d
    requires MatchAt(s, o, d)
    requires forall k :: i <= k < d ==> !MatchAt(s, o, k)
    ensures ReplaceAll(s[i..], o, n) == s[i..d] + n + ReplaceAll(s[d + |o|..], o, n)
    decreases d - i
  {
    MatchShift(s, o, i, 0);
    if i == d {
      ReplaceAllAtHead(s[i..], o, n);
      assert s[i..][|o|..] == s[d + |o|..];
      assert s[i..d] + n == n;
    } else {
      var x := ReplaceAll(s[d + |o|..], o, n);
      ReplaceAllKeepsHead(s[i..], o, n);
      assert s[i..][1..] == s[i + 1..];
      ReplaceAllFirstMatch(s, o, n, i + 1, d);
      ConsAt(s, i, d, n, x);
    }
  }

  /** Keeping `s[i]` and then `s[i + 1..d]` is keeping `s[i..d]`. */
  lemma ConsAt(s: string, i: nat, d: nat, n: string, x: string)
    requires i < d <= |s|
    ensures [s[i]] + (s[i + 1..d] + n + x) == s[i..d] + n + x
  {
    assert [s[i]] + s[i + 1..d] == s[i..d];
  }

  /** The result is never longer than `s` when the replacement is no longer
      than what it replaces. */
  lemma {:induction false} ReplaceAllNotLonger(s: string, o: string, n: string)
    requires o != [] && |n| <= |o|
    ensures |ReplaceAll(s, o, n)| <= |s|
    decreases |s|
  {
    if s != [] {
      if MatchAt(s, o, 0) {
        ReplaceAllNotLonger(s[|o|..], o, n);
      } else {
        ReplaceAllNotLonger(s[1..], o, n);
      }
    }
  }

  /** With a one-character pattern, replacing distributes over
      concatenation. */
  lemma {:induction false} ReplaceCharAppend(a: string, b: string, c: char, n: string)
    ensures ReplaceAll(a + b, [c], n) == ReplaceAll(a, [c], n) + ReplaceAll(b, [c], n)
    decreases |a|
  {
    if a != [] {
      assert (a + b)[1..] == a[1..] + b;
      assert (a + b)[0..1] == a[0..1];
      ReplaceCharAppend(a[1..], b, c, n);
    } else {
      assert a + b == b;
    }
  }

  /** One turn of the replace loop: from `pos`, the first occurrence is at
      `k`; replacing all of `s[pos..]` is keeping `s[pos..k]`, writing `n` and
      replacing all of what follows the occurrence. */
  lemma ReplaceStep(s: string, o: string, n: string, pos: nat, k: nat)
    requires o != [] && pos <= k
    requires MatchAt(s, o, k)
    requires forall j :: pos <= j < k ==> !MatchAt(s, o, j)
    ensures s[..pos] + ReplaceAll(s[pos..], o, n) == s[..k] + n + ReplaceAll(s[k + |o|..], o, n)
  {
    ReplaceAllFirstMatch(s, o, n, pos, k);
    ConcatAt(s, pos, k, n, ReplaceAll(s[k + |o|..], o, n));
  }

  /** Keeping `s[..pos]` and then `s[pos..k]` is keeping `s[..k]`. */
  lemma ConcatAt(s: string, pos: nat, k: nat, n: string, x: string)
    requires pos <= k <= |s|
    ensures s[..pos] + (s[pos..k] + n + x) == s[..k] + n + x
  {
    assert s[..pos] + s[pos..k] == s[..k];
  }

  /** Writing `n` over the occurrence of `o` at `k`: what precedes the
      resume position is `s[..k] + n`, what follows it is what followed the
      occurrence. */
  lemma Splice(s: string, o: string, n: string, k: nat)
    requires k + |o| <= |s|
    ensures var s' := s[..k] + n + s[k + |o|..];
      && k + |n| <= |s'|
      && s'[..k + |n|] == s[..k] + n
      && s'[k + |n|..] == s[k + |o|..]
  {
  }

  /** The replace loop's invariant survives one turn. */
  lemma ReplaceLoopStep(str: string, r: string, o: string, n: string, pos: nat, k: nat)
    requires o != [] && FoundFirst(r, o, pos, Some(k))
    requires r[..pos] + ReplaceAll(r[pos..], o, n) == ReplaceAll(str, o, n)
    ensures var r' := r[..k] + n + r[k + |o|..];
      && k + |n| <= |r'|
      && r'[..k + |n|] + ReplaceAll(r'[k + |n|..], o, n) == ReplaceAll(str, o, n)
  {
    ReplaceStep(r, o, n, pos, k);
    Splice(r, o, n, k);
  }

  /** When the loop finds nothing more, the string is the whole result. */
  lemma ReplaceLoopDone(str: string, r: string, o: string, n: string, pos: nat)
    requires o != [] && pos <= |r|
    requires FoundFirst(r, o, pos, None)
    requires r[..pos] + ReplaceAll(r[pos..], o, n) == ReplaceAll(str, o, n)
    ensures r == ReplaceAll(str, o, n)
  {
    ReplaceAllNoMatch(r, o, n, pos);
    assert r[..pos] + r[pos..] == r;
  }

  /** `replace(str, oldStr, newStr)`: the `std::string::find` /
      `std::string::replace` loop.  An empty `oldStr` would be found at the
      resume position forever, so the source never finishes for it. */
  method Replace(str: string, oldStr: string, newStr: string) returns (r: string)
    requires oldStr != []
    ensures r == ReplaceAll(str, oldStr, newStr)
  {
    r := str;
    var pos: nat := 0;
    var found := Find(r, oldStr, pos);
    while found.Some?
      invariant pos <= |r|
      invariant FoundFirst(r, oldStr, pos, found)
      invariant r[..pos] + ReplaceAll(r[pos..], oldStr, newStr) == ReplaceAll(str, oldStr, newStr)
      decreases |r| - pos
    {
      var k := found.value;
      ReplaceLoopStep(str, r, oldStr, newStr, pos, k);
      r := r[..k] + newStr + r[k + |oldStr|..];
      pos := k + |newStr|;
      found := Find(r, oldStr, pos);
    }
    ReplaceLoopDone(str, r, oldStr, newStr, pos);
  }

  /** Replacing a one-character pattern, one character at a time. */
  lemma ReplaceCharCons(c: char, t: string, x: char, n: string)
    ensures ReplaceAll([c] + t, [x], n)
         == (if c == x then n else [c]) + ReplaceAll(t, [x], n)
  {
    var s := [c] + t;
    assert s[1..] == t;
    assert MatchAt(s, [x], 0) <==> c == x by {
      assert s[0..1] == [c];
    }
  }

  // ---------------------------------------------------------------------
  // `unquote`

  /** What `unquote` computes: each doubled quote character becomes one. */
  function Unquoted(s: string, q: char): string
  {
    ReplaceAll(s, [q, q], [q])
  }

  /** `unquote(str, quoteChar)`. */
  method Unquote(str: string, quoteChar: char) returns (r: string)
    ensures r == Unquoted(str, quoteChar)
    ensures |r| <= |str|
  {
    r := Replace(str, [quoteChar, quoteChar], [quoteChar]);
    ReplaceAllNotLonger(str, [quoteChar, quoteChar], [quoteChar]);
  }

  /** How a quoted literal writes its text: every quote character doubled. */
  function Doubled(s: string, q: char): (r: string)
    ensures |r| >= |s|
  {
    if s == [] then []
    else (if s[0] == q then [q, q] else [s[0]]) + Doubled(s[1..], q)
  }

  /** `unquote` undoes the doubling: the text of a literal is recovered from
      the way it is written. */
  lemma {:induction false} UnquoteDoubled(s: string, q: char)
    ensures Unquoted(Doubled(s, q), q) == s
    decreases |s|
  {
    if s != [] {
      var t := Doubled(s[1..], q);
      var w := Doubled(s, q);
      UnquoteDoubled(s[1..], q);
      if s[0] == q {
        assert w == [q, q] + t;
        assert MatchAt(w, [q, q], 0) by {
          assert w[0..2] == [q, q];
        }
        assert w[2..] == t;
      } else {
        assert w == [s[0]] + t;
        if 2 <= |w| {
          assert w[0..2][0] == s[0];
        }
        assert !MatchAt(w, [q, q], 0);
        assert w[1..] == t;
      }
      assert s == [s[0]] + s[1..];
    }
  }

  /** Text without a doubled quote comes out as it went in. */
  lemma UnquoteNoDoubled(s: string, q: char)
    requires forall k :: 0 <= k < |s| - 1 ==> !(s[k] == q && s[k + 1] == q)
    ensures Unquoted(s, q) == s
  {
    forall k | 0 <= k
      ensures !MatchAt(s, [q, q], k)
    {
      if k + 2 <= |s| {
        assert s[k..k + 2] == [s[k], s[k + 1]];
      }
    }
    ReplaceAllNoMatch(s, [q, q], [q], 0);
    assert s[0..] == s;
  }

  /** A quote inside a literal (`'it''s'`) and a literal of two quotes
      (`''''`). */
  lemma UnquoteExamples()
    ensures Unquoted("it''s", '\'') == "it's"
    ensures Unquoted("''''", '\'') == "''"
  {
    UnquoteDoubled("it's", '\'');
    assert Doubled("it's", '\'') == "it''s";
    UnquoteDoubled("''", '\'');
    assert Doubled("''", '\'') == "''''";
  }

  // ---------------------------------------------------------------------
  // `quoteProperty`

  /** A property name with its path metacharacters `.` and `$` escaped by a
      backslash. */
  function Escaped(p: string): (r: string)
    ensures r != [] ==> r[0] != '.' && r[0] != '$'
  {
    if p == [] then []
    else (if p[0] == '.' then "\\." else if p[0] == '$' then "\\$" else [p[0]]) + Escaped(p[1..])
  }

  /** Escaping adds one backslash per `.` and per `$`. */
  lemma {:induction false} EscapedLength(p: string)
    ensures |Escaped(p)| == |p| + multiset(p)['.'] + multiset(p)['$']
    decreases |p|
  {
    if p != [] {
      EscapedLength(p[1..]);
      assert p == [p[0]] + p[1..];
      assert multiset(p) == multiset{p[0]} + multiset(p[1..]);
    }
  }

  /** `quoteProperty(prop)`: a property name as a one-component path. */
  method QuoteProperty(prop: string) returns (r: string)
    ensures r == ['.'] + Escaped(prop)
  {
    var dots := Replace(prop, ".", "\\.");
    r := Replace(dots, "$", "\\$");
    EscapedByReplacing(prop);
    r := ['.'] + r;
  }

  /** Escaping `.` then `$` by two replace passes escapes each character
      independently: the backslash and the `.` that the first pass writes are
      left alone by the second. */
  lemma {:induction false} EscapedByReplacing(p: string)
    ensures ReplaceAll(ReplaceAll(p, ".", "\\."), "$", "\\$") == Escaped(p)
    decreases |p|
  {
    if p != [] {
      var c, t := p[0], p[1..];
      assert p == [c] + t;
      ReplaceCharCons(c, t, '.', "\\.");
      var once := ReplaceAll(t, ".", "\\.");
      var piece := if c == '.' then "\\." else [c];
      ReplaceCharAppend(piece, once, '$', "\\$");
      EscapedByReplacing(t);
      if c == '.' {
        ReplaceCharCons('\\', ".", '$', "\\$");
        ReplaceCharCons('.', [], '$', "\\$");
        assert ReplaceAll([], "$", "\\$") == [];
      } else {
        ReplaceCharCons(c, [], '$', "\\$");
        assert ReplaceAll([], "$", "\\$") == [];
      }
    }
  }

  /** Reading an escaped name back: a backslash before `.` or `$` is dropped. */
  function Unescaped(s: string): string
  {
    if s == [] then []
    else if |s| >= 2 && s[0] == '\\' && (s[1] == '.' || s[1] == '$') then [s[1]] + Unescaped(s[2..])
    else [s[0]] + Unescaped(s[1..])
  }

  /** Escaping loses nothing: the name is recovered from the path. */
  lemma {:induction false} UnescapeEscaped(p: string)
    ensures Unescaped(Escaped(p)) == p
    decreases |p|
  {
    if p != [] {
      var t := Escaped(p[1..]);
      UnescapeEscaped(p[1..]);
      var e := Escaped(p);
      if p[0] == '.' || p[0] == '$' {
        assert e == ['\\', p[0]] + t;
        assert e[2..] == t;
      } else {
        assert e == [p[0]] + t;
        assert e[1..] == t;
      }
      assert p == [p[0]] + p[1..];
    }
  }

  /** Distinct property names give distinct paths. */
  lemma QuotePropertyInjective(p: string, p': string)
    requires ['.'] + Escaped(p) == ['.'] + Escaped(p')
    ensures p == p'
  {
    assert Escaped(p) == (['.'] + Escaped(p))[1..];
    assert Escaped(p') == (['.'] + Escaped(p'))[1..];
    UnescapeEscaped(p);
    UnescapeEscaped(p');
  }

  /** `a.b$c` becomes the path `.a\.b\$c`. */
  lemma QuotePropertyExample()
    ensures ['.'] + Escaped("a.b$c") == ".a\\.b\\$c"
  {
    assert Escaped("c") == "c" by {
      assert "c"[1..] == [];
    }
    assert Escaped("$c") == "\\$c" by {
      assert "$c"[1..] == "c";
    }
    assert Escaped("b$c") == "b\\$c" by {
      assert "b$c"[1..] == "$c";
    }
    assert Escaped(".b$c") == "\\.b\\$c" by {
      assert ".b$c"[1..] == "b$c";
    }
    assert Escaped("a.b$c") == "a\\.b\\$c" by {
      assert "a.b$c"[1..] == ".b$c";
    }
  }

  // ---------------------------------------------------------------------
  // `trim`

  /** `isspace` in the C locale. */
  predicate IsSpace(c: char)
  {
    c == ' ' || c == '\t' || c == '\n' || c == '\U{000B}' || c == '\U{000C}' || c == '\r'
  }

  /** Every character of `s` is white space. */
  predicate AllSpace(s: string)
  {
    forall k :: 0 <= k < |s| ==> IsSpace(s[k])
  }

  /** Where the white space that starts at `i` ends: the first index at or
      after `i` that is the end of `s` or holds a non-space character. */
  function SkipSpace(s: string, i: nat): (j: nat)
    requires i <= |s|
    ensures i <= j <= |s|
    ensures forall k :: i <= k < j ==> IsSpace(s[k])
    ensures j == |s| || !IsSpace(s[j])
    decreases |s| - i
  {
    if i < |s| && IsSpace(s[i]) then SkipSpace(s, i + 1) else i
  }

  /** Where the white space that ends at `hi` starts, looking no further back
      than `lo`. */
  function SkipSpaceBack(s: string, lo: nat, hi: nat): (j: nat)
    requires lo <= hi <= |s|
    ensures lo <= j <= hi
    ensures forall k :: j <= k < hi ==> IsSpace(s[k])
    ensures j == lo || !IsSpace(s[j - 1])
    decreases hi
  {
    if lo < hi && IsSpace(s[hi - 1]) then SkipSpaceBack(s, lo, hi - 1) else hi
  }

  /** What `trim` returns: `s` without its leading and trailing white space. */
  function Trimmed(s: string): string
  {
    var i := SkipSpace(s, 0);
    s[i..SkipSpaceBack(s, i, |s|)]
  }

  /** `trim(input)`: the first loop advances past leading white space (the
      terminating NUL is not white space, so it stops at the end), the second
      moves back from the last character while it is white space. */
  method Trim(input: CString) returns (r: string)
    ensures r == Trimmed(input)
  {
    var first := 0;
    while first < |input| && IsSpace(input[first])
      invariant first <= |input|
      invariant SkipSpace(input, first) == SkipSpace(input, 0)
    {
      first := first + 1;
    }
    var last := |input| - 1;
    while last >= first && IsSpace(input[last])
      invariant first - 1 <= last < |input|
      invariant SkipSpaceBack(input, first, last + 1) == SkipSpaceBack(input, first, |input|)
    {
      last := last - 1;
    }
    r := input[first..last + 1];
  }

  /** `SkipSpace` is characterised by its contract: any `j` with white space
      from `i` up to it and none at it is the one. */
  lemma {:induction false} SkipSpaceUnique(s: string, i: nat, j: nat)
    requires i <= j <= |s|
    requires forall k :: i <= k < j ==> IsSpace(s[k])
    requires j == |s| || !IsSpace(s[j])
    ensures SkipSpace(s, i) == j
    decreases j - i
  {
    if i < j {
      SkipSpaceUnique(s, i + 1, j);
    }
  }

  /** The same for `SkipSpaceBack`. */
  lemma {:induction false} SkipSpaceBackUnique(s: string, lo: nat, hi: nat, j: nat)
    requires lo <= j <= hi <= |s|
    requires forall k :: j <= k < hi ==> IsSpace(s[k])
    requires j == lo || !IsSpace(s[j - 1])
    ensures SkipSpaceBack(s, lo, hi) == j
    decreases hi - j
  {
    if j < hi {
      SkipSpaceBackUnique(s, lo, hi - 1, j);
    }
  }

  /** The trimmed text sits between white space: the input is white space,
      then the result, then white space, and the result neither starts nor
      ends with white space. */
  lemma TrimmedBounds(s: string)
    ensures var i := SkipSpace(s, 0);
      var r := Trimmed(s);
      && i + |r| <= |s| && r == s[i..i + |r|]
      && AllSpace(s[..i]) && AllSpace(s[i + |r|..])
      && (r != [] ==> !IsSpace(r[0]) && !IsSpace(r[|r| - 1]))
  {
    var i := SkipSpace(s, 0);
    var j := SkipSpaceBack(s, i, |s|);
    assert forall k :: 0 <= k < i ==> s[..i][k] == s[k];
    assert forall k :: 0 <= k < |s| - j ==> s[j..][k] == s[j + k];
  }

  /** Conversely, text between white space that neither starts nor ends with
      white space is what `trim` returns. */
  lemma TrimmedOfPadded(a: string, m: string, b: string)
    requires AllSpace(a) && AllSpace(b)
    requires m != [] ==> !IsSpace(m[0]) && !IsSpace(m[|m| - 1])
    ensures Trimmed(a + m + b) == m
  {
    var s := a + m + b;
    assert forall k :: 0 <= k < |a| ==> s[k] == a[k];
    assert forall k :: |a| + |m| <= k < |s| ==> s[k] == b[k - |a| - |m|];
    if m == [] {
      SkipSpaceUnique(s, 0, |s|);
      SkipSpaceBackUnique(s, |s|, |s|, |s|);
    } else {
      assert s[|a|] == m[0] && s[|a| + |m| - 1] == m[|m| - 1];
      SkipSpaceUnique(s, 0, |a|);
      SkipSpaceBackUnique(s, |a|, |s|, |a| + |m|);
      assert s[|a|..|a| + |m|] == m;
    }
  }

  /** Trimming twice is trimming once. */
  lemma TrimIdempotent(s: string)
    ensures Trimmed(Trimmed(s)) == Trimmed(s)
  {
    var r := Trimmed(s);
    TrimmedBounds(s);
    assert [] + r + [] == r;
    TrimmedOfPadded([], r, []);
  }

  /** Only all-white-space input trims to nothing. */
  lemma TrimEmpty(s: string)
    ensures Trimmed(s) == [] <==> AllSpace(s)
  {
    TrimmedBounds(s);
    if AllSpace(s) {
      assert s + [] + [] == s;
      TrimmedOfPadded(s, [], []);
    }
  }

  /** Inner white space stays: `"  a b \t"` trims to `"a b"`. */
  lemma TrimExample()
    ensures Trimmed("  a b \t") == "a b"
  {
    assert "  " + "a b" + " \t" == "  a b \t";
    TrimmedOfPadded("  ", "a b", " \t");
  }
}
