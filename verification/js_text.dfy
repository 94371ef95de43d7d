/** The JavaScript string primitives the dispatch code relies on: `String.prototype.trim`,
    ASCII lower-casing, and `split` on a one-character separator. Strings are sequences
    of characters; only ASCII capitals are lower-cased. */
module JsText {

  /** ECMAScript WhiteSpace and LineTerminator code points: exactly what `trim` removes. */
  predicate IsWhitespace(c: char) {
    var n := c as int;
    if n <= 0x20 then n == 0x20 || 0x09 <= n <= 0x0D
    else if n < 0xA0 then false
    else
      || n == 0xA0 || n == 0x1680
      || (0x2000 <= n <= 0x200A)
      || n == 0x2028 || n == 0x2029 || n == 0x202F || n == 0x205F
      || n == 0x3000 || n == 0xFEFF
  }

  predicate AllWhitespace(s: string) {
    forall i :: 0 <= i < |s| ==> IsWhitespace(s[i])
  }

  /** A trimmed string: empty, or neither end is whitespace. */
  predicate Bordered(t: string) {
    |t| == 0 || (!IsWhitespace(t[0]) && !IsWhitespace(t[|t| - 1]))
  }

  /** `trimStart`: drops the leading whitespace. */
  function TrimStart(s: string): (t: string)
    ensures |t| <= |s|
    ensures |t| > 0 ==> !IsWhitespace(t[0])
    decreases |s|
  {
    if |s| > 0 && IsWhitespace(s[0]) then TrimStart(s[1..]) else s
  }

  /** `trimEnd`: drops the trailing whitespace. */
  function TrimEnd(s: string): (t: string)
    ensures |t| <= |s|
    ensures |t| > 0 ==> !IsWhitespace(t[|t| - 1]) && t[0] == s[0]
    decreases |s|
  {
    if |s| > 0 && IsWhitespace(s[|s| - 1]) then TrimEnd(s[..|s| - 1]) else s
  }

  /** `String.prototype.trim`. */
  function Trim(s: string): (t: string)
    ensures |t| <= |s|
    ensures Bordered(t)
  {
    TrimEnd(TrimStart(s))
  }

  lemma {:induction false} TrimStartDecompose(s: string) returns (p: string)
    ensures s == p + TrimStart(s) && AllWhitespace(p)
    decreases |s|
  {
    if |s| > 0 && IsWhitespace(s[0]) {
      var p' := TrimStartDecompose(s[1..]);
      p := [s[0]] + p';
      assert s == [s[0]] + s[1..];
    } else {
      p := "";
    }
  }

  lemma {:induction false} TrimEndDecompose(s: string) returns (q: string)
    ensures s == TrimEnd(s) + q && AllWhitespace(q)
    decreases |s|
  {
    if |s| > 0 && IsWhitespace(s[|s| - 1]) {
      var q' := TrimEndDecompose(s[..|s| - 1]);
      q := q' + [s[|s| - 1]];
      assert s == s[..|s| - 1] + [s[|s| - 1]];
    } else {
      q := "";
    }
  }

  /** Every string is its trim padded by whitespace on both sides. */
  lemma TrimDecompose(s: string) returns (p: string, q: string)
    ensures s == p + Trim(s) + q
    ensures AllWhitespace(p) && AllWhitespace(q)
  {
    p := TrimStartDecompose(s);
    q := TrimEndDecompose(TrimStart(s));
  }

  lemma {:induction false} TrimStartSkips(p: string, x: string)
    requires AllWhitespace(p)
    ensures TrimStart(p + x) == TrimStart(x)
    decreases |p|
  {
    if |p| > 0 {
      assert (p + x)[1..] == p[1..] + x;
      assert AllWhitespace(p[1..]);
      TrimStartSkips(p[1..], x);
    } else {
      assert p + x == x;
    }
  }

  lemma {:induction false} TrimEndSkips(x: string, q: string)
    requires AllWhitespace(q)
    ensures TrimEnd(x + q) == TrimEnd(x)
    decreases |q|
  {
    if |q| > 0 {
      var q' := q[..|q| - 1];
      assert (x + q)[..|x + q| - 1] == x + q';
      assert AllWhitespace(q');
      TrimEndSkips(x, q');
    } else {
      assert x + q == x;
    }
  }

  /** The trim is determined by any whitespace padding of a bordered core: whitespace
      around a string never changes what `trim` returns. */
  lemma TrimOfPadded(p: string, t: string, q: string)
    requires AllWhitespace(p) && AllWhitespace(q) && Bordered(t)
    ensures Trim(p + t + q) == t
  {
    assert p + t + q == p + (t + q);
    TrimStartSkips(p, t + q);
    if |t| == 0 {
      assert t + q == q + "";
      TrimStartSkips(q, "");
      assert TrimStart(p + t + q) == "";
    } else {
      assert (t + q)[0] == t[0];
      assert TrimStart(t + q) == t + q;
      TrimEndSkips(t, q);
      assert TrimEnd(t) == t;
    }
  }

  lemma TrimIdempotent(s: string)
    ensures Trim(Trim(s)) == Trim(s)
  {
    var t := Trim(s);
    assert "" + t + "" == t;
    TrimOfPadded("", t, "");
  }

  lemma TrimIgnoresPadding(p: string, s: string, q: string)
    requires AllWhitespace(p) && AllWhitespace(q)
    ensures Trim(p + s + q) == Trim(s)
  {
    var p', q' := TrimDecompose(s);
    assert p + s + q == (p + p') + Trim(s) + (q' + q);
    TrimOfPadded(p + p', Trim(s), q' + q);
  }

  /** `trim` only removes characters, so a character absent from a string is absent
      from its trim. */
  lemma TrimKeepsAbsent(s: string, c: char)
    requires c !in s
    ensures c !in Trim(s)
  {
    var p, q := TrimDecompose(s);
    forall k | 0 <= k < |Trim(s)| ensures Trim(s)[k] != c {
      assert s[|p| + k] == Trim(s)[k];
    }
  }

  /** A string without whitespace is its own trim. */
  lemma TrimNoWhitespace(s: string)
    requires forall i :: 0 <= i < |s| ==> !IsWhitespace(s[i])
    ensures Trim(s) == s
  {
    assert "" + s + "" == s;
    TrimOfPadded("", s, "");
  }

  predicate IsAsciiUpper(c: char) { 'A' <= c <= 'Z' }

  lemma LowerWithoutUpper(s: string)
    requires forall i :: 0 <= i < |s| ==> !IsAsciiUpper(s[i])
    ensures LowerAscii(s) == s
  {
  }

  /** `toLowerCase` restricted to ASCII letters: no capital survives, whitespace stays
      whitespace, and a lower-cased character is left alone by a second pass. */
  function LowerChar(c: char): (d: char)
    ensures !IsAsciiUpper(d)
    ensures IsWhitespace(d) <==> IsWhitespace(c)
    ensures !IsAsciiUpper(c) ==> d == c
  {
    if IsAsciiUpper(c) then (c as int + 32) as char else c
  }

  /** Lower-casing twice is lower-casing once. */
  lemma {:induction false} LowerIdempotent(s: string)
    ensures LowerAscii(LowerAscii(s)) == LowerAscii(s)
  {
    var l := LowerAscii(s);
    forall i | 0 <= i < |l| ensures LowerAscii(l)[i] == l[i] {
      assert !IsAsciiUpper(l[i]);
    }
  }

  function LowerAscii(s: string): (r: string)
    ensures |r| == |s|
    ensures forall i :: 0 <= i < |s| ==> r[i] == LowerChar(s[i])
    decreases |s|
  {
    if |s| == 0 then "" else [LowerChar(s[0])] + LowerAscii(s[1..])
  }

  lemma LowerDistributes(p: string, t: string, q: string)
    ensures LowerAscii(p + t + q) == LowerAscii(p) + LowerAscii(t) + LowerAscii(q)
  {
    var l, r := LowerAscii(p + t + q), LowerAscii(p) + LowerAscii(t) + LowerAscii(q);
    assert |l| == |r|;
    forall i | 0 <= i < |l| ensures l[i] == r[i] {
      if i < |p| {
      } else if i < |p| + |t| {
        assert (p + t + q)[i] == t[i - |p|];
      } else {
        assert (p + t + q)[i] == q[i - |p| - |t|];
      }
    }
  }

  /** Lower-casing never turns whitespace into non-whitespace or back, so it commutes
      with trimming. */
  lemma LowerCommutesWithTrim(s: string)
    ensures Trim(LowerAscii(s)) == LowerAscii(Trim(s))
  {
    var p, q := TrimDecompose(s);
    var t := Trim(s);
    LowerDistributes(p, t, q);
    LowerKeepsWhitespace(p);
    LowerKeepsWhitespace(q);
    LowerKeepsBordered(t);
    TrimOfPadded(LowerAscii(p), LowerAscii(t), LowerAscii(q));
  }

  lemma LowerKeepsWhitespace(p: string)
    requires AllWhitespace(p)
    ensures AllWhitespace(LowerAscii(p))
  {
    var lp := LowerAscii(p);
    forall i | 0 <= i < |lp| ensures IsWhitespace(lp[i]) {
      assert IsWhitespace(p[i]);
    }
  }

  lemma LowerKeepsBordered(t: string)
    requires Bordered(t)
    ensures Bordered(LowerAscii(t))
  {
  }

  /** The parts of `parts` glued with `sep`, the inverse of `Split`. */
  function Join(parts: seq<string>, sep: char): string
    requires |parts| >= 1
  {
    if |parts| == 1 then parts[0] else parts[0] + [sep] + Join(parts[1..], sep)
  }

  /** `s.split(sep)` for a one-character separator: the maximal separator-free pieces,
      empty pieces included, in order. */
  function Split(s: string, sep: char): (parts: seq<string>)
    ensures |parts| >= 1
    ensures forall i :: 0 <= i < |parts| ==> sep !in parts[i]
    ensures Join(parts, sep) == s
    decreases |s|
  {
    if |s| == 0 then [""]
    else
      var rest := Split(s[1..], sep);
      if s[0] == sep then
        assert [sep] + Join(rest, sep) == s;
        [""] + rest
      else
        var parts := [[s[0]] + rest[0]] + rest[1..];
        assert parts[1..] == rest[1..];
        assert Join(parts, sep) == [s[0]] + Join(rest, sep);
        parts
  }

  lemma {:induction false} SplitNoSeparator(p: string, sep: char)
    requires sep !in p
    ensures Split(p, sep) == [p]
    decreases |p|
  {
    if |p| > 0 {
      SplitNoSeparator(p[1..], sep);
      assert [p[0]] + p[1..] == p;
    }
  }

  lemma {:induction false} SplitPiece(p: string, sep: char, x: string)
    requires sep !in p
    ensures Split(p + [sep] + x, sep) == [p] + Split(x, sep)
    decreases |p|
  {
    var s := p + [sep] + x;
    if |p| == 0 {
      assert s[0] == sep && s[1..] == x;
    } else {
      assert s[0] == p[0] && s[1..] == p[1..] + [sep] + x;
      SplitPiece(p[1..], sep, x);
      assert [p[0]] + p[1..] == p;
    }
  }

  /** Splitting a join gives back the parts when no part holds the separator. */
  lemma {:induction false} SplitJoin(parts: seq<string>, sep: char)
    requires |parts| >= 1
    requires forall i :: 0 <= i < |parts| ==> sep !in parts[i]
    ensures Split(Join(parts, sep), sep) == parts
    decreases |parts|
  {
    if |parts| == 1 {
      SplitNoSeparator(parts[0], sep);
    } else {
      SplitJoin(parts[1..], sep);
      SplitPiece(parts[0], sep, Join(parts[1..], sep));
      assert [parts[0]] + parts[1..] == parts;
    }
  }

  /** A separator splits a string uniquely when the piece before it cannot hold it. */
  lemma SeparatorSplitUnique(a1: string, x1: string, a2: string, x2: string, sep: char)
    requires sep !in a1 && sep !in a2
    requires a1 + [sep] + x1 == a2 + [sep] + x2
    ensures a1 == a2 && x1 == x2
  {
    var s := a1 + [sep] + x1;
    assert s == a2 + [sep] + x2;
    assert forall k :: 0 <= k < |a1| ==> s[k] == a1[k];
    assert forall k :: 0 <= k < |a2| ==> s[k] == a2[k];
    assert s[|a1|] == sep && s[|a2|] == sep;
    assert |a1| == |a2|;
    assert a1 == s[..|a1|];
    assert a2 == (a2 + [sep] + x2)[..|a2|];
    assert x1 == s[|a1| + 1..];
    assert x2 == (a2 + [sep] + x2)[|a2| + 1..];
  }
}
