/** JavaScript string helpers the core relies on: `split`, `join` and the
    UTF-16 code-unit order that `Array.prototype.sort` uses by default. */
module Text {

  /** `s.split(sep)[0]`: the text before the first `sep` (all of `s` when there is none). */
  function Before(s: string, sep: char): (w: string)
    ensures sep !in w
    ensures |w| <= |s| && w == s[..|w|]
    ensures |w| < |s| ==> s[|w|] == sep
  {
    if s == [] || s[0] == sep then [] else [s[0]] + Before(s[1..], sep)
  }

  /** The text after the first `sep`, or "" when there is none. */
  function After(s: string, sep: char): (f: string)
    ensures sep in s ==> s == Before(s, sep) + [sep] + f
    ensures sep !in s ==> f == [] && Before(s, sep) == s
    ensures |f| <= |s| && (sep in s ==> |f| < |s|)
  {
    if s == [] then []
    else if s[0] == sep then s[1..]
    else After(s[1..], sep)
  }

  lemma {:induction false} BeforeAfterOfJoin(w: string, f: string, sep: char)
    requires sep !in w
    ensures Before(w + [sep] + f, sep) == w && After(w + [sep] + f, sep) == f
  {
    if w != [] {
      assert (w + [sep] + f)[1..] == w[1..] + [sep] + f;
      BeforeAfterOfJoin(w[1..], f, sep);
    } else {
      assert (w + [sep] + f)[1..] == f;
    }
  }

  lemma {:induction false} BeforeOfSepFree(w: string, sep: char)
    requires sep !in w
    ensures Before(w, sep) == w && After(w, sep) == []
  {
    if w != [] {
      BeforeOfSepFree(w[1..], sep);
    }
  }

  /** `s.split(sep)`: the pieces between separators, always at least one. */
  function Split(s: string, sep: char): (parts: seq<string>)
    ensures |parts| >= 1
    ensures forall i :: 0 <= i < |parts| ==> sep !in parts[i]
    decreases |s|
  {
    if sep !in s then [s] else [Before(s, sep)] + Split(After(s, sep), sep)
  }

  /** `parts.join(sep)`. */
  function Join(parts: seq<string>, sep: char): string {
    if parts == [] then []
    else if |parts| == 1 then parts[0]
    else parts[0] + [sep] + Join(parts[1..], sep)
  }

  lemma {:induction false} JoinSplit(s: string, sep: char)
    ensures Join(Split(s, sep), sep) == s
    decreases |s|
  {
    if sep in s {
      JoinSplit(After(s, sep), sep);
    }
  }

  lemma {:induction false} JoinAppend(a: seq<string>, b: seq<string>, sep: char)
    requires a != [] && b != []
    ensures Join(a + b, sep) == Join(a, sep) + [sep] + Join(b, sep)
  {
    if |a| == 1 {
      assert (a + b)[1..] == b;
    } else {
      assert (a + b)[1..] == a[1..] + b;
      JoinAppend(a[1..], b, sep);
    }
  }

  // ---------------------------------------------------------------------
  // String order

  /** The UTF-16 code units of one character: the character itself below
      U+10000, a high and a low surrogate above. */
  function Units(c: char): (u: seq<int>)
    ensures 1 <= |u| <= 2
    ensures |u| == 1 <==> c as int < 0x10000
    ensures |u| == 1 ==> u[0] == c as int && !(0xD800 <= u[0] < 0xE000)
    ensures |u| == 2 ==> 0xD800 <= u[0] < 0xDC00 && 0xDC00 <= u[1] < 0xE000
                         && c as int == 0x10000 + (u[0] - 0xD800) * 0x400 + (u[1] - 0xDC00)
  {
    var v := c as int;
    if v < 0x10000 then [v]
    else [0xD800 + (v - 0x10000) / 0x400, 0xDC00 + (v - 0x10000) % 0x400]
  }

  /** A string as JavaScript stores it: the code units of its characters in turn. */
  function Utf16(s: string): seq<int> {
    if s == [] then [] else Units(s[0]) + Utf16(s[1..])
  }

  lemma {:induction false} Utf16Append(a: string, b: string)
    ensures Utf16(a + b) == Utf16(a) + Utf16(b)
    decreases |a|
  {
    if a != [] {
      assert (a + b)[0] == a[0];
      assert (a + b)[1..] == a[1..] + b;
      Utf16Append(a[1..], b);
    } else {
      assert a + b == b;
    }
  }

  /** Two characters whose code units open the same sequence are equal: a
      lone unit is never a surrogate, and a surrogate pair gives back its character. */
  lemma FirstUnitsAgree(c: char, d: char, x: seq<int>, y: seq<int>)
    requires Units(c) + x == Units(d) + y
    ensures c == d && x == y
  {
    var uc, ud := Units(c), Units(d);
    assert (uc + x)[0] == uc[0] && (ud + y)[0] == ud[0];
    if |uc| == 2 {
      assert (uc + x)[1] == uc[1] && (ud + y)[1] == ud[1];
    }
    assert |uc| == |ud|;
    assert c as int == d as int;
    assert (uc + x)[|uc|..] == x && (ud + y)[|ud|..] == y;
  }

  /** The code units of `m` start with those of `p` exactly when `m` starts with `p`. */
  lemma {:induction false} Utf16Prefix(p: string, m: string)
    requires |Utf16(p)| <= |Utf16(m)| && Utf16(m)[..|Utf16(p)|] == Utf16(p)
    ensures |p| <= |m| && m[..|p|] == p
    decreases |p|
  {
    if p != [] {
      var up, um := Utf16(p), Utf16(m);
      var rest := um[|up|..];
      assert um == up + rest;
      if m == [] {
        assert false;
      }
      assert Units(p[0]) + (Utf16(p[1..]) + rest) == Units(m[0]) + Utf16(m[1..]);
      FirstUnitsAgree(p[0], m[0], Utf16(p[1..]) + rest, Utf16(m[1..]));
      assert Utf16(m[1..]) == Utf16(p[1..]) + rest;
      assert Utf16(m[1..])[..|Utf16(p[1..])|] == Utf16(p[1..]);
      Utf16Prefix(p[1..], m[1..]);
      assert m[..|p|] == [m[0]] + m[1..][..|p| - 1];
    }
  }

  /** Different strings have different code units. */
  lemma Utf16Injective(a: string, b: string)
    requires Utf16(a) == Utf16(b)
    ensures a == b
  {
    Utf16Prefix(a, b);
    Utf16Prefix(b, a);
  }

  /** Lexicographic order on code units. */
  predicate UnitsLe(a: seq<int>, b: seq<int>)
    decreases |a|
  {
    a == [] || (b != [] && (a[0] < b[0] || (a[0] == b[0] && UnitsLe(a[1..], b[1..]))))
  }

  /** `a <= b` on JavaScript strings, and the order `sort()` uses: code unit by code unit. */
  predicate LexLe(a: string, b: string) {
    UnitsLe(Utf16(a), Utf16(b))
  }

  lemma {:induction false} UnitsLeTotal(a: seq<int>, b: seq<int>)
    ensures UnitsLe(a, b) || UnitsLe(b, a)
    decreases |a|
  {
    if a != [] && b != [] && a[0] == b[0] {
      UnitsLeTotal(a[1..], b[1..]);
    }
  }

  lemma {:induction false} UnitsLeTransitive(a: seq<int>, b: seq<int>, c: seq<int>)
    requires UnitsLe(a, b) && UnitsLe(b, c)
    ensures UnitsLe(a, c)
    decreases |a|
  {
    if a != [] && b != [] && c != [] && a[0] == b[0] == c[0] {
      UnitsLeTransitive(a[1..], b[1..], c[1..]);
    }
  }

  lemma {:induction false} UnitsLeAntisymmetric(a: seq<int>, b: seq<int>)
    requires UnitsLe(a, b) && UnitsLe(b, a)
    ensures a == b
    decreases |a|
  {
    if a != [] && b != [] {
      UnitsLeAntisymmetric(a[1..], b[1..]);
      assert a == [a[0]] + a[1..] && b == [b[0]] + b[1..];
    }
  }

  lemma LexLeTotal(a: string, b: string)
    ensures LexLe(a, b) || LexLe(b, a)
  {
    UnitsLeTotal(Utf16(a), Utf16(b));
  }

  lemma LexLeTransitive(a: string, b: string, c: string)
    requires LexLe(a, b) && LexLe(b, c)
    ensures LexLe(a, c)
  {
    UnitsLeTransitive(Utf16(a), Utf16(b), Utf16(c));
  }

  /** Only equal strings are ordered both ways. */
  lemma LexLeAntisymmetric(a: string, b: string)
    requires LexLe(a, b) && LexLe(b, a)
    ensures a == b
  {
    UnitsLeAntisymmetric(Utf16(a), Utf16(b));
    Utf16Injective(a, b);
  }

  /** A character above U+FFFF sorts by its high surrogate, so before U+FF01
      although its code point is larger. */
  lemma SurrogateOrderExample()
    ensures LexLe("\U{1F600}", "\U{FF01}") && !LexLe("\U{FF01}", "\U{1F600}")
  {
    var e, f := "\U{1F600}", "\U{FF01}";
    assert Utf16(e) == [0xD83D, 0xDE00] by {
      assert Utf16(e[1..]) == [];
    }
    assert Utf16(f) == [0xFF01] by {
      assert Utf16(f[1..]) == [];
    }
  }

  /** Code-unit sequences that share a prefix bound an interval. */
  lemma {:induction false} UnitsBetweenSharesPrefix(p: seq<int>, a: seq<int>, m: seq<int>, b: seq<int>)
    requires |p| <= |a| && a[..|p|] == p && |p| <= |b| && b[..|p|] == p
    requires UnitsLe(a, m) && UnitsLe(m, b)
    ensures |p| <= |m| && m[..|p|] == p
    decreases |p|
  {
    if p != [] {
      assert a != [] && b != [];
      assert a[0] == p[0] && b[0] == p[0];
      assert m != [];
      assert m[0] == p[0];
      assert a[1..][..|p| - 1] == p[1..];
      assert b[1..][..|p| - 1] == p[1..];
      UnitsBetweenSharesPrefix(p[1..], a[1..], m[1..], b[1..]);
      assert m[..|p|] == [m[0]] + m[1..][..|p| - 1];
    }
  }

  /** Strings that share a prefix bound an interval: whatever sorts between two
      strings starting with `p` starts with `p` too. */
  lemma LexBetweenSharesPrefix(p: string, a: string, m: string, b: string)
    requires |p| <= |a| && a[..|p|] == p && |p| <= |b| && b[..|p|] == p
    requires LexLe(a, m) && LexLe(m, b)
    ensures |p| <= |m| && m[..|p|] == p
  {
    var up := Utf16(p);
    assert a == p + a[|p|..] && b == p + b[|p|..];
    Utf16Append(p, a[|p|..]);
    Utf16Append(p, b[|p|..]);
    assert Utf16(a)[..|up|] == up;
    assert Utf16(b)[..|up|] == up;
    UnitsBetweenSharesPrefix(up, Utf16(a), Utf16(m), Utf16(b));
    Utf16Prefix(p, m);
  }
}
