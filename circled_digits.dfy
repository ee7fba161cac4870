/** The circled-digit substitution all three converters apply before writing:
    Shift_JIS cannot encode the glyphs ① .. ⑩, so each cell has them
    replaced by the plain numbers "1" .. "10" through a chain of ten
    `str.replace` calls. */
module CircledDigits {
  import opened Text

  /** The ten substitutions, in the order the chain applies them. */
  const Table: seq<(char, string)> := [
    ('①', "1"), ('②', "2"), ('③', "3"), ('④', "4"), ('⑤', "5"),
    ('⑥', "6"), ('⑦', "7"), ('⑧', "8"), ('⑨', "9"), ('⑩', "10")
  ]

  /** `s.replace(t[0]).replace(t[1])...`, one call per entry, in order. */
  function ReplaceChain(s: string, t: seq<(char, string)>): string
    decreases |t|
  {
    if t == [] then s else ReplaceChain(Replace(s, [t[0].0], t[0].1), t[1..])
  }

  /** The substitution as the converters write it: ten chained replaces. */
  function Normalize(s: string): string {
    ReplaceChain(s, Table)
  }

  /** `Normalize` as a function value: the form the converters map over the
      cells of a row. */
  const Substitution: string -> string := Normalize

  /** The substitution applied to every cell of a row. */
  function NormalizeCells(cells: seq<string>): seq<string> {
    seq(|cells|, k requires 0 <= k < |cells| => Substitution(cells[k]))
  }

  /** `for j in range(len(cells)): cells[j] = cells[j].replace(...)...`:
      the converters' loop rewriting each cell of a row. */
  method NormalizeEach(cells: seq<string>) returns (r: seq<string>)
    ensures r == NormalizeCells(cells)
  {
    r := cells;
    for j := 0 to |cells|
      invariant |r| == |cells|
      invariant forall k :: 0 <= k < j ==> r[k] == Substitution(cells[k])
      invariant forall k :: j <= k < |r| ==> r[k] == cells[k]
    {
      r := r[j := Substitution(r[j])];
    }
  }

  /** The glyph ① .. ⑩ (U+2460 .. U+2469). */
  predicate IsCircled(c: char) {
    '\U{2460}' <= c <= '\U{2469}'
  }

  predicate NoCircled(s: string) {
    forall k :: 0 <= k < |s| ==> !IsCircled(s[k])
  }

  /** No cell of a row holds a circled digit. */
  predicate NoCircledCells(cells: seq<string>) {
    forall c :: 0 <= c < |cells| ==> NoCircled(cells[c])
  }

  lemma NoCircledFour(a: string, b: string, c: string, d: string)
    requires NoCircled(a) && NoCircled(b) && NoCircled(c) && NoCircled(d)
    ensures NoCircledCells([a, b, c, d])
  {
    var cells := [a, b, c, d];
    forall k | 0 <= k < 4 ensures NoCircled(cells[k]) {
      if k == 0 { assert cells[k] == a; }
      else if k == 1 { assert cells[k] == b; }
      else if k == 2 { assert cells[k] == c; }
      else { assert cells[k] == d; }
    }
  }

  /** What one character becomes: its number if it is a circled digit,
      itself otherwise. */
  function Image(c: char): (r: string)
    ensures NoCircled(r)
    ensures !IsCircled(c) ==> r == [c]
  {
    if IsCircled(c) then
      var n := c as int - 0x2460 + 1;
      if n < 10 then [('0' as int + n) as char] else "10"
    else [c]
  }

  /** Reference definition: the substitution as a map over characters. */
  function Translate(s: string): string
  {
    if s == [] then [] else Image(s[0]) + Translate(s[1..])
  }

  /** Entry `t[0]` first, otherwise look further down: the entry for `c`. */
  function Lookup(c: char, t: seq<(char, string)>): string
    decreases |t|
  {
    if t == [] then [c] else if t[0].0 == c then t[0].1 else Lookup(c, t[1..])
  }

  /** No replacement text holds a character some entry replaces. */
  predicate Separated(t: seq<(char, string)>) {
    forall i, j, k :: 0 <= i < |t| && 0 <= j < |t| && 0 <= k < |t[i].1| ==> t[i].1[k] != t[j].0
  }

  lemma TableSeparated()
    ensures Separated(Table)
  {
    forall i, j, k | 0 <= i < |Table| && 0 <= j < |Table| && 0 <= k < |Table[i].1|
      ensures Table[i].1[k] != Table[j].0
    {
      assert '0' <= Table[i].1[k] <= '9';
      assert IsCircled(Table[j].0);
    }
  }

  lemma {:induction false} ChainConcat(a: string, b: string, t: seq<(char, string)>)
    ensures ReplaceChain(a + b, t) == ReplaceChain(a, t) + ReplaceChain(b, t)
    decreases |t|
  {
    if t != [] {
      ReplaceCharConcat(a, b, t[0].0, t[0].1);
      ChainConcat(Replace(a, [t[0].0], t[0].1), Replace(b, [t[0].0], t[0].1), t[1..]);
    }
  }

  /** Text holding none of the replaced characters passes the chain unchanged. */
  lemma {:induction false} ChainAbsent(s: string, t: seq<(char, string)>)
    requires forall j, k :: 0 <= j < |t| && 0 <= k < |s| ==> s[k] != t[j].0
    ensures ReplaceChain(s, t) == s
    decreases |t|
  {
    if t != [] {
      AbsentHead(s, [t[0].0]);
      ReplaceAbsent(s, [t[0].0], t[0].1);
      ChainAbsent(s, t[1..]);
    }
  }

  /** On one character the chain is a table lookup, because what an entry
      writes is never rewritten by a later entry. */
  lemma {:induction false} ChainChar(c: char, t: seq<(char, string)>)
    requires Separated(t)
    ensures ReplaceChain([c], t) == Lookup(c, t)
    decreases |t|
  {
    if t != [] {
      ReplaceOneChar(c, t[0].0, t[0].1);
      assert Separated(t[1..]) by {
        forall i, j, k | 0 <= i < |t[1..]| && 0 <= j < |t[1..]| && 0 <= k < |t[1..][i].1|
          ensures t[1..][i].1[k] != t[1..][j].0
        {
          assert t[1..][i] == t[i + 1] && t[1..][j] == t[j + 1];
        }
      }
      if t[0].0 == c {
        var r := t[0].1;
        forall j, k | 0 <= j < |t[1..]| && 0 <= k < |r| ensures r[k] != t[1..][j].0 {
          assert t[1..][j] == t[j + 1];
        }
        ChainAbsent(r, t[1..]);
      } else {
        ChainChar(c, t[1..]);
      }
    }
  }

  /** The first entry for `c` decides the lookup. */
  lemma {:induction false} LookupAt(c: char, t: seq<(char, string)>, i: nat)
    requires i < |t| && t[i].0 == c && forall j :: 0 <= j < i ==> t[j].0 != c
    ensures Lookup(c, t) == t[i].1
    decreases i
  {
    if i > 0 {
      assert t[0].0 != c;
      forall j | 0 <= j < i - 1 ensures t[1..][j].0 != c {
        assert t[1..][j] == t[j + 1];
      }
      LookupAt(c, t[1..], i - 1);
    }
  }

  /** A character no entry names is looked up as itself. */
  lemma {:induction false} LookupMissing(c: char, t: seq<(char, string)>)
    requires forall j :: 0 <= j < |t| ==> t[j].0 != c
    ensures Lookup(c, t) == [c]
    decreases |t|
  {
    if t != [] {
      assert t[0].0 != c;
      forall j | 0 <= j < |t| - 1 ensures t[1..][j].0 != c {
        assert t[1..][j] == t[j + 1];
      }
      LookupMissing(c, t[1..]);
    }
  }

  /** Entry `i` replaces glyph ① + `i` by the number `i + 1`. */
  lemma TableEntries()
    ensures forall i :: 0 <= i < |Table| ==> Table[i].0 == (0x2460 + i) as char && Table[i].1 == Image(Table[i].0)
  {
  }

  lemma LookupTable(c: char)
    ensures Lookup(c, Table) == Image(c)
  {
    TableEntries();
    if IsCircled(c) {
      var n := c as int - 0x2460;
      LookupAt(c, Table, n);
    } else {
      LookupMissing(c, Table);
    }
  }

  /** The chained replaces compute the character map. */
  lemma {:induction false} NormalizeIsTranslate(s: string)
    ensures Normalize(s) == Translate(s)
    decreases |s|
  {
    if s != [] {
      assert s == [s[0]] + s[1..];
      ChainConcat([s[0]], s[1..], Table);
      TableSeparated();
      ChainChar(s[0], Table);
      LookupTable(s[0]);
      NormalizeIsTranslate(s[1..]);
    }
  }

  lemma {:induction false} TranslateConcat(a: string, b: string)
    ensures Translate(a + b) == Translate(a) + Translate(b)
    decreases |a|
  {
    if a != [] {
      assert (a + b)[0] == a[0] && (a + b)[1..] == a[1..] + b;
      TranslateConcat(a[1..], b);
    } else {
      assert a + b == b;
    }
  }

  /** Text without circled digits is left as it is. */
  lemma {:induction false} TranslateIdentity(s: string)
    requires NoCircled(s)
    ensures Translate(s) == s
    decreases |s|
  {
    if s != [] {
      TranslateIdentity(s[1..]);
    }
  }

  /** No circled digit survives the substitution. */
  lemma {:induction false} TranslateClears(s: string)
    ensures NoCircled(Translate(s))
    decreases |s|
  {
    if s != [] {
      TranslateClears(s[1..]);
    }
  }

  /** No circled digit survives the substitution. */
  lemma NormalizeClears(s: string)
    ensures NoCircled(Normalize(s))
  {
    NormalizeIsTranslate(s);
    TranslateClears(s);
  }

  /** Text without circled digits is left as it is. */
  lemma NormalizeIdentity(s: string)
    requires NoCircled(s)
    ensures Normalize(s) == s
  {
    NormalizeIsTranslate(s);
    TranslateIdentity(s);
  }

  /** Applying the substitution twice is applying it once. */
  lemma NormalizeIdempotent(s: string)
    ensures Normalize(Normalize(s)) == Normalize(s)
  {
    NormalizeClears(s);
    NormalizeIdentity(Normalize(s));
  }

  /** On one character the substitution is `Image`. */
  lemma NormalizeChar(c: char)
    ensures Normalize([c]) == Image(c)
  {
    NormalizeIsTranslate([c]);
    assert Translate([c]) == Image(c) + Translate([]);
  }

  /** The text a non-space character becomes starts and ends with a
      non-space character: digits are not whitespace. */
  lemma ImageEdges(c: char)
    requires !IsSpace(c)
    ensures |Image(c)| > 0 && !IsSpace(Image(c)[0]) && !IsSpace(Image(c)[|Image(c)| - 1])
  {
    if IsCircled(c) {
      var r := Image(c);
      assert '0' <= r[0] <= '9' && '0' <= r[|r| - 1] <= '9';
    }
  }

  /** The character map starts with the image of the first character and
      ends with the image of the last. */
  lemma TranslateEdges(s: string)
    requires s != []
    ensures var a, b := Image(s[0]), Image(s[|s| - 1]);
            && |Translate(s)| >= |a| && Translate(s)[..|a|] == a
            && |Translate(s)| >= |b| && Translate(s)[|Translate(s)| - |b|..] == b
  {
    var n := |s| - 1;
    assert Translate(s) == Image(s[0]) + Translate(s[1..]);
    assert s == s[..n] + [s[n]];
    TranslateConcat(s[..n], [s[n]]);
    assert Translate([s[n]]) == Image(s[n]) + Translate([]);
  }

  /** The substitution keeps text that starts and ends with a non-space
      character that way. */
  lemma NormalizeKeepsEdges(s: string)
    requires s != [] && !IsSpace(s[0]) && !IsSpace(s[|s| - 1])
    ensures Normalize(s) != []
    ensures !IsSpace(Normalize(s)[0]) && !IsSpace(Normalize(s)[|Normalize(s)| - 1])
  {
    NormalizeIsTranslate(s);
    TranslateEdges(s);
    ImageEdges(s[0]);
    ImageEdges(s[|s| - 1]);
    var t, a, b := Translate(s), Image(s[0]), Image(s[|s| - 1]);
    assert t[0] == t[..|a|][0] == a[0];
    assert t[|t| - 1] == t[|t| - |b|..][|b| - 1] == b[|b| - 1];
  }

  /** The substitution keeps stripped text stripped, and makes text empty
      only if it was empty. */
  lemma NormalizeKeepsTrimmed(s: string)
    requires Trimmed(s)
    ensures Trimmed(Normalize(s))
    ensures Normalize(s) == [] <==> s == []
  {
    if s != [] {
      NormalizeKeepsEdges(s);
    } else {
      NormalizeIdentity(s);
    }
  }

  /** The substitution as written: every glyph becomes its number, nothing
      else changes, it commutes with concatenation, and applying it twice
      is applying it once. */
  lemma NormalizeSpec(s: string, a: string, b: string, c: char)
    ensures NoCircled(Normalize(s))
    ensures NoCircled(s) ==> Normalize(s) == s
    ensures Normalize(a + b) == Normalize(a) + Normalize(b)
    ensures Normalize([c]) == Image(c)
    ensures Normalize(Normalize(s)) == Normalize(s)
  {
    NormalizeClears(s);
    if NoCircled(s) { NormalizeIdentity(s); }
    ChainConcat(a, b, Table);
    NormalizeChar(c);
    NormalizeIdempotent(s);
  }

  lemma NormalizeGlyphs()
    ensures Normalize("①") == "1" && Normalize("②") == "2" && Normalize("③") == "3"
    ensures Normalize("④") == "4" && Normalize("⑤") == "5" && Normalize("⑥") == "6"
    ensures Normalize("⑦") == "7" && Normalize("⑧") == "8" && Normalize("⑨") == "9"
    ensures Normalize("⑩") == "10"
  {
    NormalizeSpec("", "", "", '①');
    NormalizeSpec("", "", "", '②');
    NormalizeSpec("", "", "", '③');
    NormalizeSpec("", "", "", '④');
    NormalizeSpec("", "", "", '⑤');
    NormalizeSpec("", "", "", '⑥');
    NormalizeSpec("", "", "", '⑦');
    NormalizeSpec("", "", "", '⑧');
    NormalizeSpec("", "", "", '⑨');
    NormalizeSpec("", "", "", '⑩');
  }
}
