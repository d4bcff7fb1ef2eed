/**
 * The string operations the scripts rely on: Python's argument-less
 * `str.split()` (fields separated by runs of whitespace), `' '.join`,
 * substring occurrence, and the decimal rendering of a non-negative int
 * that `str.format` produces.
 */
module Text {

  /** Whitespace as Python's `str.split()` sees it in the ASCII range. */
  predicate IsSpace(c: char) {
    c == ' ' || ('\t' <= c <= '\r') || ('\U{1C}' <= c <= '\U{1F}')
  }

  /** A field of `str.split()`: non-empty and free of whitespace. */
  predicate IsWord(w: string) {
    |w| > 0 && forall i :: 0 <= i < |w| ==> !IsSpace(w[i])
  }

  /** Length of the run of non-whitespace characters that starts `s`. */
  function WordLen(s: string): (k: nat)
    ensures k <= |s|
    ensures forall i :: 0 <= i < k ==> !IsSpace(s[i])
    ensures k < |s| ==> IsSpace(s[k])
  {
    if s == [] || IsSpace(s[0]) then 0 else 1 + WordLen(s[1..])
  }

  /** Python's `s.split()`: the maximal whitespace-free runs of `s`, in order. */
  function Fields(s: string): (r: seq<string>)
    ensures forall k :: 0 <= k < |r| ==> IsWord(r[k])
    decreases |s|
  {
    if s == [] then []
    else if IsSpace(s[0]) then Fields(s[1..])
    else
      var k := WordLen(s);
      [s[..k]] + Fields(s[k..])
  }

  /** Python's `' '.join(ws)`. */
  function JoinSpaces(ws: seq<string>): string
  {
    if ws == [] then ""
    else if |ws| == 1 then ws[0]
    else ws[0] + " " + JoinSpaces(ws[1..])
  }

  /** `pat` occurs in `s` starting at index `i`. */
  predicate OccursAt(pat: string, s: string, i: int) {
    0 <= i && i + |pat| <= |s| && s[i..i + |pat|] == pat
  }

  /** Python's `pat in s`. */
  predicate Contains(s: string, pat: string) {
    exists i | 0 <= i <= |s| :: OccursAt(pat, s, i)
  }

  function Digit(d: nat): (c: char)
    requires d < 10
    ensures '0' <= c <= '9' && c as int - '0' as int == d
  {
    ('0' as int + d) as char
  }

  /** `str(n)` / `'{}'.format(n)` for a non-negative int: decimal, no leading zeros. */
  function DecimalString(n: nat): (s: string)
    ensures |s| > 0 && (s[0] == '0' ==> n == 0)
    ensures forall i :: 0 <= i < |s| ==> '0' <= s[i] <= '9'
  {
    if n < 10 then [Digit(n)] else DecimalString(n / 10) + [Digit(n % 10)]
  }

  /** The value of a string of decimal digits (the inverse of DecimalString). */
  function ParseDecimal(s: string): nat
    requires forall i :: 0 <= i < |s| ==> '0' <= s[i] <= '9'
  {
    if s == [] then 0
    else ParseDecimal(s[..|s| - 1]) * 10 + (s[|s| - 1] as int - '0' as int)
  }

  // ---------------------------------------------------------------------------
  // Lemmas

  /** Reading a rendered number back gives the number. */
  lemma {:induction false} ParseDecimalString(n: nat)
    ensures ParseDecimal(DecimalString(n)) == n
  {
    if n >= 10 {
      var s := DecimalString(n);
      assert s[..|s| - 1] == DecimalString(n / 10);
      ParseDecimalString(n / 10);
    }
  }

  /** Two numbers render alike only when they are equal. */
  lemma DecimalStringInjective(m: nat, n: nat)
    requires DecimalString(m) == DecimalString(n)
    ensures m == n
  {
    ParseDecimalString(m);
    ParseDecimalString(n);
  }

  /** A single word splits into itself. */
  lemma {:induction false} FieldsOfWord(w: string)
    requires IsWord(w)
    ensures Fields(w) == [w]
  {
    WordOfWord(w);
    assert w[..|w|] == w;
    assert w[|w|..] == [];
    assert Fields(w[|w|..]) == [];
  }

  lemma {:induction false} WordOfWord(w: string)
    requires forall i :: 0 <= i < |w| ==> !IsSpace(w[i])
    ensures WordLen(w) == |w|
  {
    if w != [] {
      WordOfWord(w[1..]);
    }
  }

  /** A word followed by whitespace ends exactly there. */
  lemma {:induction false} WordLenBeforeSpace(a: string, t: string)
    requires t != [] && IsSpace(t[0])
    ensures WordLen(a + t) == WordLen(a) <= |a|
    decreases |a|
  {
    if a != [] && !IsSpace(a[0]) {
      assert (a + t)[1..] == a[1..] + t;
      WordLenBeforeSpace(a[1..], t);
    } else if a == [] {
      assert a + t == t;
    }
  }

  /** Splitting `a + " " + b` splits `a` and `b` separately. */
  lemma {:induction false} FieldsAroundSpace(a: string, b: string)
    ensures Fields(a + " " + b) == Fields(a) + Fields(b)
    decreases |a|
  {
    var s := a + " " + b;
    if a == [] {
      assert s == " " + b;
      assert s[1..] == b;
    } else if IsSpace(a[0]) {
      assert s[1..] == a[1..] + " " + b;
      FieldsAroundSpace(a[1..], b);
    } else {
      WordLenBeforeSpace(a, " " + b);
      assert s == a + (" " + b);
      var k := WordLen(a);
      assert 0 < k;
      assert s[..k] == a[..k];
      assert s[k..] == a[k..] + " " + b;
      FieldsAroundSpace(a[k..], b);
    }
  }

  /** Splitting `w + " " + rest` for a word `w` yields `w` and then the fields of `rest`. */
  lemma WordThenSpace(w: string, rest: string)
    requires IsWord(w)
    ensures Fields(w + " " + rest) == [w] + Fields(rest)
  {
    FieldsAroundSpace(w, rest);
    FieldsOfWord(w);
  }

  lemma TwoWordsThen(a: string, b: string, rest: string)
    requires IsWord(a) && IsWord(b)
    ensures Fields(a + " " + (b + " " + rest)) == [a, b] + Fields(rest)
  {
    WordThenSpace(b, rest);
    WordThenSpace(a, b + " " + rest);
  }

  lemma ThreeWordsThen(a: string, b: string, c: string, rest: string)
    requires IsWord(a) && IsWord(b) && IsWord(c)
    ensures Fields(a + " " + (b + " " + (c + " " + rest))) == [a, b, c] + Fields(rest)
  {
    WordThenSpace(c, rest);
    TwoWordsThen(a, b, c + " " + rest);
  }

  /** Splitting a space-joined list of words gives the list back. */
  lemma {:induction false} FieldsOfJoin(ws: seq<string>)
    requires forall k :: 0 <= k < |ws| ==> IsWord(ws[k])
    ensures Fields(JoinSpaces(ws)) == ws
  {
    if ws == [] {
    } else if |ws| == 1 {
      FieldsOfWord(ws[0]);
    } else {
      FieldsOfJoin(ws[1..]);
      WordThenSpace(ws[0], JoinSpaces(ws[1..]));
    }
  }

  /**
   * The fields of each string of `ws`, concatenated in order. When every
   * string of `ws` is already a word, this is `ws` itself.
   */
  function FieldsOfEach(ws: seq<string>): (r: seq<string>)
    ensures (forall k :: 0 <= k < |ws| ==> IsWord(ws[k])) ==> r == ws
  {
    if ws == [] then []
    else
      assert IsWord(ws[0]) ==> Fields(ws[0]) == [ws[0]] by {
        if IsWord(ws[0]) { FieldsOfWord(ws[0]); }
      }
      Fields(ws[0]) + FieldsOfEach(ws[1..])
  }

  /**
   * Splitting a space-joined list of arbitrary strings (empty ones, or ones
   * holding whitespace, included) splits each string separately.
   */
  lemma {:induction false} FieldsOfJoinAny(ws: seq<string>)
    ensures Fields(JoinSpaces(ws)) == FieldsOfEach(ws)
  {
    if ws == [] {
    } else if |ws| == 1 {
      assert FieldsOfEach(ws) == Fields(ws[0]) + FieldsOfEach([]);
    } else {
      FieldsOfJoinAny(ws[1..]);
      FieldsAroundSpace(ws[0], JoinSpaces(ws[1..]));
    }
  }

  /** A string with a non-whitespace character has at least one field. */
  lemma {:induction false} SomeField(s: string, c: nat)
    requires c < |s| && !IsSpace(s[c])
    ensures |Fields(s)| >= 1
    decreases |s|
  {
    if IsSpace(s[0]) {
      SomeField(s[1..], c - 1);
    }
  }

  /**
   * Two non-whitespace characters with whitespace between them lie in two
   * different fields, so `s.split()[1]` exists.
   */
  lemma {:induction false} TwoFields(s: string, a: nat, b: nat, c: nat)
    requires a < b < c < |s|
    requires !IsSpace(s[a]) && IsSpace(s[b]) && !IsSpace(s[c])
    ensures |Fields(s)| >= 2
    decreases |s|
  {
    if IsSpace(s[0]) {
      TwoFields(s[1..], a - 1, b - 1, c - 1);
    } else {
      var k := WordLen(s);
      assert k <= b;
      SomeField(s[k..], c - k);
    }
  }

  lemma OccursAtChar(pat: string, s: string, i: int, k: nat)
    requires OccursAt(pat, s, i) && k < |pat|
    ensures s[i + k] == pat[k]
  {
    assert s[i..i + |pat|][k] == s[i + k];
  }

  /** An occurrence is kept when text is appended. */
  lemma OccursAtExtend(pat: string, s: string, i: int, tail: string)
    requires OccursAt(pat, s, i)
    ensures OccursAt(pat, s + tail, i)
  {
    assert (s + tail)[i..i + |pat|] == s[i..i + |pat|];
  }

  /** An occurrence of `p + q` is an occurrence of `p` at the same place. */
  lemma OccursAtPrefix(p: string, q: string, s: string, i: int)
    requires OccursAt(p + q, s, i)
    ensures OccursAt(p, s, i)
  {
    assert s[i..i + |p|] == s[i..i + |p + q|][..|p|];
  }

  /** `p` occurs in `a + p + b` right after `a`. */
  lemma OccursInMiddle(a: string, p: string, b: string)
    ensures OccursAt(p, a + p + b, |a|)
  {
    assert (a + p + b)[|a|..|a| + |p|] == p;
  }

  lemma ContainsMiddle(a: string, p: string, b: string)
    ensures Contains(a + p + b, p)
  {
    OccursInMiddle(a, p, b);
  }

  /** Whitespace-free strings stay whitespace-free when joined. */
  lemma WordConcat(a: string, b: string)
    requires IsWord(a) && IsWord(b)
    ensures IsWord(a + b)
  {
    assert forall i :: 0 <= i < |a + b| ==> (a + b)[i] == if i < |a| then a[i] else b[i - |a|];
  }

  /** The middle of `a + x + b` determines `x`. */
  lemma MiddleCancel(a: string, x: string, y: string, b: string)
    requires a + x + b == a + y + b
    ensures x == y
  {
    assert |x| == |y|;
    assert x == (a + x + b)[|a|..|a| + |x|];
    assert y == (a + y + b)[|a|..|a| + |y|];
  }

  /** The text before the first `-` (all of it when there is none). */
  function BeforeDash(t: string): (r: string)
    ensures |r| <= |t| && r == t[..|r|] && '-' !in r
  {
    if t == [] || t[0] == '-' then [] else [t[0]] + BeforeDash(t[1..])
  }

  lemma {:induction false} BeforeDashOf(n: string, rest: string)
    requires '-' !in n
    ensures BeforeDash(n + "-" + rest) == n
  {
    if n != [] {
      assert (n + "-" + rest)[1..] == n[1..] + "-" + rest;
      BeforeDashOf(n[1..], rest);
    } else {
      assert n + "-" + rest == "-" + rest;
    }
  }
}
