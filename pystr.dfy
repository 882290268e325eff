/** The few operations on Python `str` values that the audio hub's text
    scraping relies on: `lower()`, `in`, `strip()`, `splitlines()`,
    `split(sep)[0]`, `replace(old, new)` and `f"{n}"` for integers.
    Characters are Unicode scalar values; only the ASCII part of Python's
    case mapping and whitespace classes is modelled. */
module PyStr {

  datatype Option<T> = None | Some(value: T)

  // ---------------------------------------------------------------------
  // Character classes

  /** `str.isspace()` on ASCII: space, the controls \t \n \v \f \r and the
      separators \x1c to \x1f. */
  predicate IsSpace(c: char) {
    c == ' ' || ('\t' <= c <= '\r') || ('\U{1C}' <= c <= '\U{1F}')
  }

  /** ASCII lower-casing of one character. */
  function LowerChar(c: char): char {
    if 'A' <= c <= 'Z' then (c as int + 32) as char else c
  }

  /** `s.lower()`, character by character. */
  function Lower(s: string): (r: string)
    ensures |r| == |s|
    ensures forall k :: 0 <= k < |s| ==> r[k] == LowerChar(s[k])
  {
    if s == [] then [] else [LowerChar(s[0])] + Lower(s[1..])
  }

  lemma LowerAppend(a: string, b: string)
    ensures Lower(a + b) == Lower(a) + Lower(b)
  {
    assert forall k :: 0 <= k < |a + b| ==> Lower(a + b)[k] == (Lower(a) + Lower(b))[k];
  }

  // ---------------------------------------------------------------------
  // Substring test

  /** `sub` occurs in `s` at index `i`. */
  ghost predicate OccursAt(s: string, sub: string, i: int) {
    0 <= i && i + |sub| <= |s| && s[i..][..|sub|] == sub
  }

  /** Python's `sub in s`: a match at the front, or further on. */
  predicate Contains(s: string, sub: string)
    decreases |s|
  {
    (|sub| <= |s| && s[..|sub|] == sub) || (s != [] && Contains(s[1..], sub))
  }

  /** `Contains` holds exactly when some index of `s` starts an occurrence. */
  lemma {:induction false} ContainsIff(s: string, sub: string)
    ensures Contains(s, sub) <==> exists i :: OccursAt(s, sub, i)
    decreases |s|
  {
    if |sub| <= |s| && s[..|sub|] == sub {
      assert OccursAt(s, sub, 0);
    }
    if s != [] {
      ContainsIff(s[1..], sub);
      forall i | OccursAt(s[1..], sub, i)
        ensures OccursAt(s, sub, i + 1)
      {
        assert s[1..][i..] == s[i + 1..];
      }
      forall i | OccursAt(s, sub, i) && i > 0
        ensures OccursAt(s[1..], sub, i - 1)
      {
        assert s[1..][i - 1..] == s[i..];
      }
    }
  }

  lemma ContainsInfix(a: string, sub: string, b: string)
    ensures Contains(a + sub + b, sub)
  {
    ContainsIff(a + sub + b, sub);
    assert (a + sub + b)[|a|..][..|sub|] == sub;
    assert OccursAt(a + sub + b, sub, |a|);
  }

  /** Text added on either side never removes an occurrence. */
  lemma ContainsWithin(a: string, s: string, b: string, sub: string)
    requires Contains(s, sub)
    ensures Contains(a + s + b, sub)
  {
    ContainsIff(s, sub);
    var i :| OccursAt(s, sub, i);
    ContainsIff(a + s + b, sub);
    assert (a + s + b)[|a| + i..][..|sub|] == s[i..][..|sub|];
    assert OccursAt(a + s + b, sub, |a| + i);
  }

  // ---------------------------------------------------------------------
  // Searching for one character

  /** Index of the first `c` in `s`, or `|s|` when there is none. */
  function IndexOf(s: string, c: char): (k: nat)
    ensures k <= |s|
    ensures forall j :: 0 <= j < k ==> s[j] != c
    ensures k < |s| ==> s[k] == c
  {
    if s == [] || s[0] == c then 0
    else
      var k := IndexOf(s[1..], c);
      assert forall j :: 1 <= j < |s| ==> s[j] == s[1..][j - 1];
      1 + k
  }

  lemma {:induction false} IndexOfFirst(a: string, c: char, b: string)
    requires c !in a
    ensures IndexOf(a + [c] + b, c) == |a|
  {
    if a != [] {
      assert (a + [c] + b)[1..] == a[1..] + [c] + b;
      IndexOfFirst(a[1..], c, b);
    }
  }

  /** `s.split(sep)[0]`: the text before the first `sep`, all of `s` if it
      has none. */
  function Before(s: string, sep: char): (r: string)
    ensures |r| <= |s| && r == s[..|r|]
    ensures sep !in r
    ensures |r| < |s| ==> s[|r|] == sep
  {
    s[..IndexOf(s, sep)]
  }

  // ---------------------------------------------------------------------
  // Lines

  /** `s.splitlines()` with '\n' as the only line boundary: a final '\n'
      does not open an empty last line, and "" has no lines. */
  function Lines(s: string): (r: seq<string>)
    ensures forall k, j :: 0 <= k < |r| && 0 <= j < |r[k]| ==> r[k][j] != '\n'
    decreases |s|
  {
    if s == [] then []
    else
      var k := IndexOf(s, '\n');
      if k == |s| then
        assert s[..k] == s;
        [s]
      else [s[..k]] + Lines(s[k + 1..])
  }

  /** Every line followed by '\n'. */
  function Unlines(ls: seq<string>): string {
    if ls == [] then [] else ls[0] + "\n" + Unlines(ls[1..])
  }

  /** Splitting text assembled from newline-free lines gives those lines back. */
  lemma {:induction false} LinesOfUnlines(ls: seq<string>)
    requires forall k :: 0 <= k < |ls| ==> '\n' !in ls[k]
    ensures Lines(Unlines(ls)) == ls
  {
    if ls != [] {
      var rest := Unlines(ls[1..]);
      var s := ls[0] + "\n" + rest;
      assert Unlines(ls) == s;
      IndexOfFirst(ls[0], '\n', rest);
      assert s[..|ls[0]|] == ls[0];
      assert s[|ls[0]| + 1..] == rest;
      LinesOfUnlines(ls[1..]);
    }
  }

  /** Joining the lines of `s` gives `s` back, with a '\n' added at the end
      when `s` did not already finish a line. */
  lemma {:induction false} UnlinesOfLines(s: string)
    ensures Unlines(Lines(s)) == if s == [] || s[|s| - 1] == '\n' then s else s + "\n"
    decreases |s|
  {
    if s != [] {
      var k := IndexOf(s, '\n');
      if k == |s| {
        LastLine(s);
      } else {
        var line, t := s[..k], s[k + 1..];
        assert s == line + "\n" + t;
        LinesSplit(s, k);
        UnlinesOfLines(t);
        UnlinesCons(line, Lines(t));
        if t == [] {
          assert s == line + "\n";
        } else if t[|t| - 1] == '\n' {
          assert s[|s| - 1] == t[|t| - 1];
        } else {
          assert s[|s| - 1] == t[|t| - 1];
          assert line + "\n" + (t + "\n") == s + "\n";
        }
      }
    }
  }

  /** Text without a newline is one line, which joining ends with one. */
  lemma LastLine(s: string)
    requires s != [] && IndexOf(s, '\n') == |s|
    ensures Unlines(Lines(s)) == s + "\n" && s[|s| - 1] != '\n'
  {
    assert s[..|s|] == s;
    assert Lines(s) == [s];
    UnlinesCons(s, []);
    assert s[|s| - 1] in s[..|s|];
  }

  /** Text with a newline at `k` splits into the line before it and the
      lines of the rest. */
  lemma LinesSplit(s: string, k: nat)
    requires k == IndexOf(s, '\n') && k < |s|
    ensures Lines(s) == [s[..k]] + Lines(s[k + 1..])
  {
  }

  lemma UnlinesCons(line: string, ls: seq<string>)
    ensures Unlines([line] + ls) == line + "\n" + Unlines(ls)
  {
    assert ([line] + ls)[1..] == ls;
  }

  // ---------------------------------------------------------------------
  // Stripping whitespace

  function TrimStart(s: string): (r: string)
    ensures |r| <= |s| && r == s[|s| - |r|..]
    ensures forall k :: 0 <= k < |s| - |r| ==> IsSpace(s[k])
    ensures r != [] ==> !IsSpace(r[0])
  {
    if s != [] && IsSpace(s[0]) then
      var r := TrimStart(s[1..]);
      assert forall k :: 1 <= k < |s| ==> s[k] == s[1..][k - 1];
      r
    else s
  }

  function TrimEnd(s: string): (r: string)
    ensures |r| <= |s| && r == s[..|r|]
    ensures forall k :: |r| <= k < |s| ==> IsSpace(s[k])
    ensures r != [] ==> !IsSpace(r[|r| - 1])
  {
    if s != [] && IsSpace(s[|s| - 1]) then
      var r := TrimEnd(s[..|s| - 1]);
      assert forall k :: 0 <= k < |s| - 1 ==> s[k] == s[..|s| - 1][k];
      r
    else s
  }

  /** `r` is the slice of `s` at index `i`, and everything of `s` outside
      that slice is whitespace. */
  ghost predicate PaddedSlice(s: string, r: string, i: int) {
    0 <= i && i + |r| <= |s| && s[i..][..|r|] == r
    && (forall k :: 0 <= k < i ==> IsSpace(s[k]))
    && (forall k :: i + |r| <= k < |s| ==> IsSpace(s[k]))
  }

  /** `s.strip()`: the slice of `s` left after removing whitespace from both
      ends; it starts and ends with a non-space unless it is empty. */
  function Strip(s: string): (r: string)
    ensures exists i :: PaddedSlice(s, r, i)
    ensures r != [] ==> !IsSpace(r[0]) && !IsSpace(r[|r| - 1])
  {
    StripSlice(s);
    TrimEnd(TrimStart(s))
  }

  lemma StripSlice(s: string)
    ensures PaddedSlice(s, TrimEnd(TrimStart(s)), |s| - |TrimStart(s)|)
  {
    var t := TrimStart(s);
    var r := TrimEnd(t);
    var i := |s| - |t|;
    assert s[i..] == t;
    assert t[..|r|] == r;
    forall k | i + |r| <= k < |s|
      ensures IsSpace(s[k])
    {
      assert s[k] == t[k - i];
    }
  }

  /** Text that begins and ends with a non-space is its own strip. */
  lemma StripUnpadded(s: string)
    requires s != [] ==> !IsSpace(s[0]) && !IsSpace(s[|s| - 1])
    ensures Strip(s) == s
  {
  }

  lemma {:induction false} TrimStartPadding(p: string, s: string)
    requires forall k :: 0 <= k < |p| ==> IsSpace(p[k])
    requires s != [] && !IsSpace(s[0])
    ensures TrimStart(p + s) == s
  {
    if p != [] {
      assert (p + s)[0] == p[0];
      assert (p + s)[1..] == p[1..] + s;
      TrimStartPadding(p[1..], s);
    } else {
      assert p + s == s;
    }
  }

  lemma {:induction false} TrimEndPadding(s: string, q: string)
    requires forall k :: 0 <= k < |q| ==> IsSpace(q[k])
    requires s != [] && !IsSpace(s[|s| - 1])
    ensures TrimEnd(s + q) == s
  {
    if q != [] {
      assert (s + q)[|s + q| - 1] == q[|q| - 1];
      assert (s + q)[..|s + q| - 1] == s + q[..|q| - 1];
      TrimEndPadding(s, q[..|q| - 1]);
    } else {
      assert s + q == s;
    }
  }

  /** Whitespace around text with non-space ends is exactly what strip removes. */
  lemma StripPadding(p: string, s: string, q: string)
    requires forall k :: 0 <= k < |p| ==> IsSpace(p[k])
    requires forall k :: 0 <= k < |q| ==> IsSpace(q[k])
    requires s != [] && !IsSpace(s[0]) && !IsSpace(s[|s| - 1])
    ensures Strip(p + s + q) == s
  {
    assert p + s + q == p + (s + q);
    TrimStartPadding(p, s + q);
    TrimEndPadding(s, q);
  }

  lemma {:induction false} StripIdempotent(s: string)
    ensures Strip(Strip(s)) == Strip(s)
  {
    StripUnpadded(Strip(s));
  }

  // ---------------------------------------------------------------------
  // Replacing one character by another

  /** `s.replace(from, to)` for one-character `old` and `new`. */
  function Replace(s: string, from: char, to: char): (r: string)
    ensures |r| == |s|
    ensures forall k :: 0 <= k < |s| ==> r[k] == if s[k] == from then to else s[k]
  {
    if s == [] then [] else [if s[0] == from then to else s[0]] + Replace(s[1..], from, to)
  }

  /** Replacing back undoes a replacement when the new character was absent. */
  lemma ReplaceBack(s: string, from: char, to: char)
    requires to !in s
    ensures Replace(Replace(s, from, to), to, from) == s
  {
    var r := Replace(Replace(s, from, to), to, from);
    assert forall k :: 0 <= k < |s| ==> r[k] == s[k];
  }

  // ---------------------------------------------------------------------
  // Decimal text of integers

  predicate IsDigit(c: char) { '0' <= c <= '9' }

  function DigitChar(d: nat): (c: char)
    requires d < 10
    ensures IsDigit(c)
  {
    ('0' as int + d) as char
  }

  /** `str(n)` for a natural number: its shortest decimal numeral. */
  function NatText(n: nat): (r: string)
    ensures r != []
    ensures forall k :: 0 <= k < |r| ==> IsDigit(r[k])
    ensures |r| > 1 ==> r[0] != '0'
  {
    if n < 10 then [DigitChar(n)] else NatText(n / 10) + [DigitChar(n % 10)]
  }

  /** `f"{n}"` for a Python int: a minus sign, then the digits, when negative. */
  function IntText(n: int): (r: string)
    ensures r != []
    ensures (r[0] == '-') <==> n < 0
  {
    if n < 0 then "-" + NatText(-n) else NatText(n)
  }

  /** Value of a string of decimal digits, the inverse of NatText. */
  function DigitsValue(s: string): int {
    if s == [] then 0 else 10 * DigitsValue(s[..|s| - 1]) + (s[|s| - 1] as int - '0' as int)
  }

  /** Value of an optionally signed numeral, the inverse of IntText. */
  function IntValue(s: string): int {
    if s != [] && s[0] == '-' then -DigitsValue(s[1..]) else DigitsValue(s)
  }

  lemma {:induction false} NatTextValue(n: nat)
    ensures DigitsValue(NatText(n)) == n
  {
    if n >= 10 {
      NatTextValue(n / 10);
      var s := NatText(n / 10) + [DigitChar(n % 10)];
      assert s[..|s| - 1] == NatText(n / 10);
    }
  }

  /** The rendering of every integer reads back as that integer. */
  lemma IntTextValue(n: int)
    ensures IntValue(IntText(n)) == n
  {
    if n < 0 {
      NatTextValue(-n);
      assert IntText(n)[1..] == NatText(-n);
    } else {
      NatTextValue(n);
    }
  }

  // ---------------------------------------------------------------------
  // Loops that append what they find

  /** The list an optional value contributes: one element or none. */
  function OptionList<U>(o: Option<U>): seq<U> {
    match o
    case Some(y) => [y]
    case None => []
  }

  /** `for x in xs: m = f(x); if m: out.append(m)`: the values `f` finds,
      in the order of `xs`. */
  function FilterMap<T, U>(f: T -> Option<U>, xs: seq<T>): (r: seq<U>)
    ensures |r| <= |xs|
  {
    if xs == [] then [] else OptionList(f(xs[0])) + FilterMap(f, xs[1..])
  }

  /** The values found in two lists one after the other are those of the
      first followed by those of the second. */
  lemma {:induction false} FilterMapAppend<T, U>(f: T -> Option<U>, xs: seq<T>, ys: seq<T>)
    ensures FilterMap(f, xs + ys) == FilterMap(f, xs) + FilterMap(f, ys)
  {
    if xs == [] {
      assert xs + ys == ys;
    } else {
      var zs := xs + ys;
      assert zs[0] == xs[0] && zs[1..] == xs[1..] + ys;
      FilterMapAppend(f, xs[1..], ys);
    }
  }

  lemma FilterMapSingle<T, U>(f: T -> Option<U>, x: T)
    ensures FilterMap(f, [x]) == OptionList(f(x))
  {
    assert [x][1..] == [];
  }

  /** Every value found is what `f` found in some element. */
  lemma {:induction false} FilterMapFrom<T, U>(f: T -> Option<U>, xs: seq<T>, k: int)
    requires 0 <= k < |FilterMap(f, xs)|
    ensures exists n :: 0 <= n < |xs| && f(xs[n]) == Some(FilterMap(f, xs)[k])
  {
    var rest := xs[1..];
    var head, tail := OptionList(f(xs[0])), FilterMap(f, rest);
    assert FilterMap(f, xs) == head + tail;
    if k >= |head| {
      FilterMapFrom(f, rest, k - |head|);
      var n :| 0 <= n < |rest| && f(rest[n]) == Some(tail[k - |head|]);
      assert rest[n] == xs[n + 1];
    }
  }

  /** When `f` finds a value in every element, the values found are
      exactly those, one per element. */
  lemma {:induction false} FilterMapAllFound<T, U>(f: T -> Option<U>, xs: seq<T>, ys: seq<U>)
    requires |xs| == |ys|
    requires forall k :: 0 <= k < |xs| ==> f(xs[k]) == Some(ys[k])
    ensures FilterMap(f, xs) == ys
  {
    if xs != [] {
      assert f(xs[0]) == Some(ys[0]);
      FilterMapAllFound(f, xs[1..], ys[1..]);
      assert ys == [ys[0]] + ys[1..];
    }
  }

  /** An element in which `f` finds a value, repeated, gives the value twice. */
  lemma FilterMapRepeat<T, U>(f: T -> Option<U>, x: T)
    requires f(x).Some?
    ensures FilterMap(f, [x, x]) == [f(x).value, f(x).value]
  {
    assert [x, x] == [x] + [x];
    FilterMapAppend(f, [x], [x]);
    FilterMapSingle(f, x);
  }
}
