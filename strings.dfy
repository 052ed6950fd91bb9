/** The parts of Go's `strings` and `unicode` packages that the keyword extractor, the store, the reply parser and
    provider selection rely on.

    Letters, digits and case are modelled for ASCII only: every character outside
    ASCII counts as neither a letter nor a digit, and lower-casing leaves it alone.
    White space is Go's full `unicode.IsSpace` set. Strings compare by code point,
    which is the order Go's byte-wise comparison gives on UTF-8 text. */
module Strings {

  predicate IsUpper(c: char) { 'A' <= c <= 'Z' }

  predicate IsLetter(c: char) { 'a' <= c <= 'z' || IsUpper(c) }

  predicate IsDigit(c: char) { '0' <= c <= '9' }

  /** The splitting rule of the keyword extractor and of the full-text tokenizer. */
  predicate IsSeparator(c: char) { !IsLetter(c) && !IsDigit(c) }

  /** Go's `unicode.IsSpace`. */
  predicate IsSpace(c: char) {
    || c == ' ' || c == '\t' || c == '\n' || c == '\r'
    || c == '\U{000B}' || c == '\U{000C}' || c == '\U{0085}' || c == '\U{00A0}'
    || c == '\U{1680}' || ('\U{2000}' <= c <= '\U{200A}')
    || c == '\U{2028}' || c == '\U{2029}' || c == '\U{202F}' || c == '\U{205F}'
    || c == '\U{3000}'
  }

  function LowerChar(c: char): (d: char)
    ensures !IsUpper(d)
    ensures IsSeparator(d) == IsSeparator(c)
    ensures IsSpace(d) == IsSpace(c)
    ensures !IsUpper(c) ==> d == c
  {
    if IsUpper(c) then (c as int + 32) as char else c
  }

  /** `strings.ToLower`. */
  function ToLower(s: string): string
  {
    seq(|s|, i requires 0 <= i < |s| => LowerChar(s[i]))
  }

  predicate NoUpper(s: string) { forall i :: 0 <= i < |s| ==> !IsUpper(s[i]) }

  lemma ToLowerOfLower(s: string)
    requires NoUpper(s)
    ensures ToLower(s) == s
  {
  }

  lemma ToLowerAppend(a: string, b: string)
    ensures ToLower(a + b) == ToLower(a) + ToLower(b)
  {
  }

  // ---------------------------------------------------------------- trimming

  /** `strings.TrimLeftFunc(s, unicode.IsSpace)`. */
  function TrimLeft(s: string): string
  {
    if s != [] && IsSpace(s[0]) then TrimLeft(s[1..]) else s
  }

  /** `TrimLeft` keeps a suffix that starts with a non-space. */
  lemma {:induction false} TrimLeftShape(s: string)
    ensures |TrimLeft(s)| <= |s|
    ensures TrimLeft(s) != [] ==> !IsSpace(TrimLeft(s)[0])
  {
    if s != [] && IsSpace(s[0]) { TrimLeftShape(s[1..]); }
  }

  lemma {:induction false} TrimLeftKept(s: string, i: int)
    requires 0 <= i < |TrimLeft(s)|
    ensures |TrimLeft(s)| <= |s| && TrimLeft(s)[i] == s[|s| - |TrimLeft(s)| + i]
  {
    if s != [] && IsSpace(s[0]) {
      var t := TrimLeft(s[1..]);
      TrimLeftKept(s[1..], i);
      assert t[i] == s[1..][|s| - 1 - |t| + i];
    }
  }

  /** `strings.TrimRightFunc(s, unicode.IsSpace)`. */
  function TrimRight(s: string): string
  {
    if s != [] && IsSpace(s[|s| - 1]) then TrimRight(s[..|s| - 1]) else s
  }

  /** `TrimRight` keeps a prefix that ends with a non-space. */
  lemma {:induction false} TrimRightShape(s: string)
    ensures |TrimRight(s)| <= |s|
    ensures TrimRight(s) != [] ==> !IsSpace(TrimRight(s)[|TrimRight(s)| - 1])
  {
    if s != [] && IsSpace(s[|s| - 1]) { TrimRightShape(s[..|s| - 1]); }
  }

  lemma {:induction false} TrimRightKept(s: string, i: int)
    requires 0 <= i < |TrimRight(s)|
    ensures |TrimRight(s)| <= |s| && TrimRight(s)[i] == s[i]
  {
    if s != [] && IsSpace(s[|s| - 1]) {
      TrimRightKept(s[..|s| - 1], i);
      assert s[..|s| - 1][i] == s[i];
    }
  }

  /** A string that `TrimSpace` leaves as it is. */
  predicate Trimmed(s: string) {
    s == [] || (!IsSpace(s[0]) && !IsSpace(s[|s| - 1]))
  }

  /** `strings.TrimSpace`: drop leading and trailing white space. */
  function TrimSpace(s: string): (t: string)
    ensures Trimmed(t)
  {
    var l := TrimLeft(s);
    var t := TrimRight(l);
    TrimLeftShape(s);
    TrimRightShape(l);
    if t != [] then
      TrimRightKept(l, 0);
      t
    else t
  }

  /** What is left after trimming is a piece of the input: a character the
      input lacks, it lacks too. */
  lemma TrimSpaceOmits(s: string, c: char)
    requires c !in s
    ensures c !in TrimSpace(s)
  {
    var l := TrimLeft(s);
    var t := TrimRight(l);
    forall i | 0 <= i < |t| ensures t[i] != c {
      TrimRightKept(l, i);
      TrimLeftKept(s, i);
    }
  }

  predicate AllSpace(s: string) { forall i :: 0 <= i < |s| ==> IsSpace(s[i]) }

  lemma {:induction false} TrimLeftSpaces(p: string, s: string)
    requires AllSpace(p)
    ensures TrimLeft(p + s) == TrimLeft(s)
  {
    if p != [] {
      assert (p + s)[1..] == p[1..] + s;
      TrimLeftSpaces(p[1..], s);
    } else {
      assert p + s == s;
    }
  }

  lemma {:induction false} TrimRightSpaces(s: string, r: string)
    requires AllSpace(r)
    ensures TrimRight(s + r) == TrimRight(s)
    decreases |r|
  {
    if r != [] {
      assert (s + r)[..|s + r| - 1] == s + r[..|r| - 1];
      TrimRightSpaces(s, r[..|r| - 1]);
    } else {
      assert s + r == s;
    }
  }

  lemma TrimSpaceOfSpaces(s: string)
    requires AllSpace(s)
    ensures TrimSpace(s) == []
  {
    assert s + [] == s;
    TrimLeftSpaces(s, []);
  }

  lemma TrimLeftPadded(p: string, x: string, r: string)
    requires AllSpace(p) && x != [] && !IsSpace(x[0])
    ensures TrimLeft(p + x + r) == x + r
  {
    assert p + x + r == p + (x + r);
    TrimLeftSpaces(p, x + r);
    assert (x + r)[0] == x[0];
  }

  /** White space around a trimmed string is exactly what `TrimSpace` removes. */
  lemma TrimSpacePadded(p: string, x: string, r: string)
    requires AllSpace(p) && AllSpace(r) && Trimmed(x)
    ensures TrimSpace(p + x + r) == x
  {
    if x == [] {
      assert p + x + r == p + r;
      assert AllSpace(p + r);
      TrimSpaceOfSpaces(p + r);
    } else {
      TrimLeftPadded(p, x, r);
      TrimRightSpaces(x, r);
    }
  }

  lemma TrimSpaceAfterSpaces(p: string, x: string)
    requires AllSpace(p) && Trimmed(x)
    ensures TrimSpace(p + x) == x
  {
    assert p + x == p + x + [];
    TrimSpacePadded(p, x, []);
  }

  lemma AllSpaceNoUpper(s: string)
    requires AllSpace(s)
    ensures NoUpper(s) && ToLower(s) == s
  {
    ToLowerOfLower(s);
  }

  /** `strings.HasPrefix`. */
  predicate HasPrefix(s: string, p: string) { |p| <= |s| && s[..|p|] == p }

  /** `strings.TrimPrefix`. */
  function TrimPrefix(s: string, p: string): string
  {
    if HasPrefix(s, p) then s[|p|..] else s
  }

  /** `strings.Contains`. */
  predicate Contains(s: string, sub: string) {
    exists i :: 0 <= i <= |s| && HasPrefix(s[i..], sub)
  }

  // -------------------------------------------------------- split and join

  /** `strings.Split(s, "\n")`: the pieces between newlines; never empty. */
  function SplitLines(s: string): (ls: seq<string>)
    ensures |ls| >= 1
    ensures forall k :: 0 <= k < |ls| ==> '\n' !in ls[k]
  {
    if s == [] then [""]
    else
      var rest := SplitLines(s[1..]);
      if s[0] == '\n' then [""] + rest else [[s[0]] + rest[0]] + rest[1..]
  }

  lemma {:induction false} SplitLinesOfLine(s: string)
    requires '\n' !in s
    ensures SplitLines(s) == [s]
  {
    if s != [] {
      SplitLinesOfLine(s[1..]);
      assert s == [s[0]] + s[1..];
    }
  }

  /** A newline ends one line and starts the next. */
  lemma {:induction false} SplitLinesAppend(a: string, b: string)
    ensures SplitLines(a + "\n" + b) == SplitLines(a) + SplitLines(b)
  {
    var s := a + "\n" + b;
    if a == [] {
      assert s == "\n" + b;
      assert s[0] == '\n' && s[1..] == b;
    } else {
      assert s[0] == a[0] && s[1..] == a[1..] + "\n" + b;
      SplitLinesAppend(a[1..], b);
      SplitLinesCons(s, a, SplitLines(a[1..]), SplitLines(b));
    }
  }

  /** The first character of two strings that agree after it decides how
      their lines relate: if the rest of `s` splits as the rest of `a`
      followed by `rb`, so does all of `s`. */
  lemma SplitLinesCons(s: string, a: string, ra: seq<string>, rb: seq<string>)
    requires s != [] && a != [] && s[0] == a[0]
    requires SplitLines(a[1..]) == ra && SplitLines(s[1..]) == ra + rb
    ensures SplitLines(s) == SplitLines(a) + rb
  {
    assert |ra| >= 1;
    if a[0] != '\n' {
      assert (ra + rb)[0] == ra[0] && (ra + rb)[1..] == ra[1..] + rb;
    }
  }

  /** `strings.Join`. */
  function Join(ws: seq<string>, sep: string): string
  {
    if ws == [] then ""
    else if |ws| == 1 then ws[0]
    else ws[0] + sep + Join(ws[1..], sep)
  }

  /** A non-empty run of letters and digits: the shape of every field. */
  predicate IsWord(w: string) {
    w != [] && forall i :: 0 <= i < |w| ==> !IsSeparator(w[i])
  }

  /** Length of the leading run of letters and digits. */
  function WordLength(s: string): (n: nat)
    ensures n <= |s|
    ensures forall i :: 0 <= i < n ==> !IsSeparator(s[i])
    ensures n < |s| ==> IsSeparator(s[n])
  {
    if s == [] || IsSeparator(s[0]) then 0 else 1 + WordLength(s[1..])
  }

  /** `strings.FieldsFunc(s, IsSeparator)`: the maximal runs of letters and digits. */
  function Fields(s: string): seq<string>
    decreases |s|
  {
    if s == [] then []
    else if IsSeparator(s[0]) then Fields(s[1..])
    else
      var n := WordLength(s);
      [s[..n]] + Fields(s[n..])
  }

  /** Every field is a word, and lower-case when the input is. */
  lemma {:induction false} FieldsAreWords(s: string)
    ensures forall k :: 0 <= k < |Fields(s)| ==> IsWord(Fields(s)[k])
    ensures NoUpper(s) ==> forall k :: 0 <= k < |Fields(s)| ==> NoUpper(Fields(s)[k])
    decreases |s|
  {
    if s != [] {
      if IsSeparator(s[0]) {
        FieldsAreWords(s[1..]);
      } else {
        var n := WordLength(s);
        FieldsAreWords(s[n..]);
      }
    }
  }

  lemma {:induction false} WordLengthOfWordThen(w: string, t: string)
    requires forall i :: 0 <= i < |w| ==> !IsSeparator(w[i])
    requires t == [] || IsSeparator(t[0])
    ensures WordLength(w + t) == |w|
  {
    if w != [] {
      assert (w + t)[1..] == w[1..] + t;
      WordLengthOfWordThen(w[1..], t);
    }
  }

  lemma FieldsOfWordThen(w: string, t: string)
    requires IsWord(w) && (t == [] || IsSeparator(t[0]))
    ensures Fields(w + t) == [w] + Fields(t)
  {
    WordLengthOfWordThen(w, t);
    assert (w + t)[..|w|] == w && (w + t)[|w|..] == t;
  }

  /** Splitting a space-joined list of words gives the words back. */
  lemma {:induction false} FieldsOfJoin(ws: seq<string>)
    requires forall k :: 0 <= k < |ws| ==> IsWord(ws[k])
    ensures Fields(Join(ws, " ")) == ws
  {
    if |ws| == 1 {
      FieldsOfWordThen(ws[0], "");
      assert ws[0] + "" == ws[0];
    } else if |ws| > 1 {
      var rest := Join(ws[1..], " ");
      FieldsOfJoin(ws[1..]);
      assert ws[0] + " " + rest == ws[0] + (" " + rest);
      FieldsOfWordThen(ws[0], " " + rest);
      assert (" " + rest)[1..] == rest;
    }
  }

  lemma {:induction false} WordLengthAppend(a: string, b: string)
    requires b != [] && IsSeparator(b[0])
    ensures WordLength(a + b) == WordLength(a)
  {
    if a != [] && !IsSeparator(a[0]) {
      assert (a + b)[1..] == a[1..] + b;
      WordLengthAppend(a[1..], b);
    }
  }

  /** A separator splits the fields: those before it and those after it. */
  lemma {:induction false} FieldsSplit(a: string, b: string)
    requires b != [] && IsSeparator(b[0])
    ensures Fields(a + b) == Fields(a) + Fields(b[1..])
    decreases |a|
  {
    var ab := a + b;
    if a == [] {
      assert ab == b;
    } else if IsSeparator(a[0]) {
      assert ab[0] == a[0] && ab[1..] == a[1..] + b;
      FieldsSplit(a[1..], b);
    } else {
      WordLengthAppend(a, b);
      var n := WordLength(a);
      assert ab[0] == a[0] && ab[..n] == a[..n];
      if n < |a| {
        assert ab[n..] == a[n..] + b;
        FieldsSplit(a[n..], b);
      } else {
        assert ab[n..] == b && a[n..] == [];
      }
    }
  }

  lemma {:induction false} JoinNoUpper(ws: seq<string>)
    requires forall k :: 0 <= k < |ws| ==> NoUpper(ws[k])
    ensures NoUpper(Join(ws, " "))
  {
    if |ws| > 1 { JoinNoUpper(ws[1..]); }
  }

  // ------------------------------------------------------------- ordering

  /** Go's `<` on strings: lexicographic by code point. */
  predicate Less(a: string, b: string) {
    if a == [] then b != []
    else if b == [] then false
    else a[0] < b[0] || (a[0] == b[0] && Less(a[1..], b[1..]))
  }

  lemma {:induction false} LessIrreflexive(a: string)
    ensures !Less(a, a)
  {
    if a != [] { LessIrreflexive(a[1..]); }
  }

  lemma {:induction false} LessTransitive(a: string, b: string, c: string)
    requires Less(a, b) && Less(b, c)
    ensures Less(a, c)
  {
    if a != [] && b != [] && c != [] && a[0] == b[0] == c[0] {
      LessTransitive(a[1..], b[1..], c[1..]);
    }
  }

  lemma {:induction false} LessTotal(a: string, b: string)
    ensures a == b || Less(a, b) || Less(b, a)
  {
    if a != [] && b != [] && a[0] == b[0] {
      LessTotal(a[1..], b[1..]);
      if a[1..] == b[1..] {
        assert a == [a[0]] + a[1..] && b == [b[0]] + b[1..];
      }
    }
  }

  predicate LessEq(a: string, b: string) { a == b || Less(a, b) }

  lemma LessAsymmetric(a: string, b: string)
    requires Less(a, b)
    ensures !Less(b, a)
  {
    if Less(b, a) {
      LessTransitive(a, b, a);
      LessIrreflexive(a);
    }
  }
}
