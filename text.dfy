/** String operations the converters borrow from Python's `str`:
    `strip()`, the `in` substring test and `replace`. */
module Text {

  /** The characters Python's `str.isspace()` accepts, which `str.strip()`
      with no argument removes from both ends. */
  predicate IsSpace(c: char) {
    || ('\t' <= c <= '\r')
    || ('\U{1C}' <= c <= '\U{1F}')
    || c == ' '
    || c == '\U{85}'
    || c == '\U{A0}'
    || c == '\U{1680}'
    || ('\U{2000}' <= c <= '\U{200A}')
    || c == '\U{2028}'
    || c == '\U{2029}'
    || c == '\U{202F}'
    || c == '\U{205F}'
    || c == '\U{3000}'
  }

  /** Leading whitespace removed. */
  function TrimStart(s: string): (r: string)
    ensures |r| <= |s| && r == s[|s| - |r|..]
    ensures forall k :: 0 <= k < |s| - |r| ==> IsSpace(s[k])
    ensures r != [] ==> !IsSpace(r[0])
    decreases |s|
  {
    if |s| > 0 && IsSpace(s[0]) then TrimStart(s[1..]) else s
  }

  /** Trailing whitespace removed. */
  function TrimEnd(s: string): (r: string)
    ensures |r| <= |s| && r == s[..|r|]
    ensures forall k :: |r| <= k < |s| ==> IsSpace(s[k])
    ensures r != [] ==> !IsSpace(r[|r| - 1])
    decreases |s|
  {
    if |s| > 0 && IsSpace(s[|s| - 1]) then TrimEnd(s[..|s| - 1]) else s
  }

  /** Neither end of `s` is whitespace: what `strip()` leaves. */
  predicate Trimmed(s: string) {
    s != [] ==> !IsSpace(s[0]) && !IsSpace(s[|s| - 1])
  }

  /** Python's `s.strip()`. */
  function Strip(s: string): (r: string)
    ensures |r| <= |s|
    ensures r != [] ==> !IsSpace(r[0]) && !IsSpace(r[|r| - 1])
  {
    TrimEnd(TrimStart(s))
  }

  /** `strip()` removes whitespace on either side and nothing else. */
  lemma StripSpec(s: string)
    ensures exists i, j ::
              (0 <= i <= j <= |s| && Strip(s) == s[i..j]
               && (forall k :: 0 <= k < i ==> IsSpace(s[k]))
               && (forall k :: j <= k < |s| ==> IsSpace(s[k])))
  {
    var t := TrimStart(s);
    var r := TrimEnd(t);
    var i := |s| - |t|;
    assert r == s[i..i + |r|];
    assert forall k :: i + |r| <= k < |s| ==> s[k] == t[k - i];
  }

  /** Python's falsy test on a stripped cell, `not s.strip()`: the cell is
      whitespace throughout (`BlankIffStripEmpty`). */
  predicate IsBlank(s: string) {
    forall k :: 0 <= k < |s| ==> IsSpace(s[k])
  }

  lemma BlankIffStripEmpty(s: string)
    ensures IsBlank(s) <==> Strip(s) == []
  {
    StripSpec(s);
  }

  /** `p` occurs in `s` at offset `i`. */
  predicate MatchAt(s: string, p: string, i: int) {
    0 <= i && i + |p| <= |s| && s[i..i + |p|] == p
  }

  /** Python's `p in s`. */
  predicate Contains(s: string, p: string) {
    exists i | 0 <= i <= |s| - |p| :: MatchAt(s, p, i)
  }

  /** A string holding a non-whitespace character is not blank. */
  lemma ContainsNonSpaceNotBlank(s: string, p: string, k: nat)
    requires Contains(s, p) && k < |p| && !IsSpace(p[k])
    ensures !IsBlank(s)
  {
    var i :| 0 <= i <= |s| - |p| && MatchAt(s, p, i);
    assert s[i + k] == p[k];
  }

  /** Python's `s.replace(p, r)` for a non-empty `p`: every occurrence,
      found left to right without overlap, is replaced. */
  function Replace(s: string, p: string, r: string): string
    requires p != []
    decreases |s|
  {
    if |s| < |p| then s
    else if s[..|p|] == p then r + Replace(s[|p|..], p, r)
    else [s[0]] + Replace(s[1..], p, r)
  }

  /** Replacing a pattern that does not occur changes nothing. */
  lemma {:induction false} ReplaceAbsent(s: string, p: string, r: string)
    requires p != [] && !Contains(s, p)
    ensures Replace(s, p, r) == s
    decreases |s|
  {
    if |s| >= |p| {
      assert !MatchAt(s, p, 0);
      assert !Contains(s[1..], p) by {
        forall i | 0 <= i <= |s[1..]| - |p| ensures !MatchAt(s[1..], p, i) {
          assert s[1..][i..i + |p|] == s[i + 1..i + 1 + |p|];
          assert !MatchAt(s, p, i + 1);
        }
      }
      ReplaceAbsent(s[1..], p, r);
    }
  }

  /** A pattern whose first character is missing from `s` does not occur in it. */
  lemma AbsentHead(s: string, p: string)
    requires p != [] && forall k :: 0 <= k < |s| ==> s[k] != p[0]
    ensures !Contains(s, p)
  {
    forall i | 0 <= i <= |s| - |p| ensures !MatchAt(s, p, i) {
      assert s[i..i + |p|][0] == s[i];
    }
  }

  /** A one-character pattern is replaced cell by cell, so replacing
      distributes over concatenation. */
  lemma {:induction false} ReplaceCharConcat(a: string, b: string, c: char, r: string)
    ensures Replace(a + b, [c], r) == Replace(a, [c], r) + Replace(b, [c], r)
    decreases |a|
  {
    if a != [] {
      assert (a + b)[1..] == a[1..] + b;
      assert (a + b)[..1] == a[..1];
      ReplaceCharConcat(a[1..], b, c, r);
    } else {
      assert a + b == b;
    }
  }

  /** Replacing a one-character pattern in a one-character string. */
  lemma ReplaceOneChar(x: char, c: char, r: string)
    ensures Replace([x], [c], r) == if x == c then r else [x]
  {
    assert [x][1..] == [];
    assert [x][..1] == [x];
  }

  /** No occurrence at the front: the first character is kept. */
  lemma ReplaceSkip(s: string, p: string, r: string)
    requires p != [] && |s| >= |p| && s[..|p|] != p
    ensures Replace(s, p, r) == [s[0]] + Replace(s[1..], p, r)
  {
  }

  /** A prefix holding no start of an occurrence is kept as it is. */
  lemma {:induction false} ReplaceAfter(pre: string, rest: string, p: string, r: string)
    requires p != [] && forall i :: 0 <= i < |pre| ==> !MatchAt(pre + rest, p, i)
    ensures Replace(pre + rest, p, r) == pre + Replace(rest, p, r)
    decreases |pre|
  {
    if pre != [] {
      var s := pre + rest;
      var t := pre[1..] + rest;
      assert t == s[1..] && s[0] == pre[0];
      assert !MatchAt(s, p, 0);
      forall i | 0 <= i < |pre[1..]| ensures !MatchAt(t, p, i) {
        assert !MatchAt(s, p, i + 1);
        if i + |p| <= |t| {
          assert t[i..i + |p|] == s[i + 1..i + 1 + |p|];
        }
      }
      ReplaceAfter(pre[1..], rest, p, r);
      assert [pre[0]] + pre[1..] == pre;
      if |s| >= |p| {
        ReplaceSkip(s, p, r);
        calc {
          Replace(s, p, r);
          [s[0]] + Replace(t, p, r);
          [pre[0]] + (pre[1..] + Replace(rest, p, r));
          ([pre[0]] + pre[1..]) + Replace(rest, p, r);
        }
      } else {
        assert Replace(rest, p, r) == rest;
      }
    } else {
      assert pre + rest == rest;
    }
  }

  /** Replacing a prefix occurrence, then the rest. */
  lemma ReplacePrefix(p: string, s: string, r: string)
    requires p != []
    ensures Replace(p + s, p, r) == r + Replace(s, p, r)
  {
    assert (p + s)[..|p|] == p;
    assert (p + s)[|p|..] == s;
  }

  /** Removing text never lengthens a string. */
  lemma {:induction false} RemoveShortens(s: string, p: string)
    requires p != []
    ensures |Replace(s, p, "")| <= |s|
    decreases |s|
  {
    if |s| >= |p| {
      if s[..|p|] == p {
        RemoveShortens(s[|p|..], p);
      } else {
        RemoveShortens(s[1..], p);
      }
    }
  }
}
