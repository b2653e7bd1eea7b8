/** The Python string built-ins the rule engine relies on, over ASCII:
    `str.startswith`, `str.split` on one character, `str(int)`, the decimal
    subset of `float(str)`, `str.replace` of one character and `str.title`. */
module Text {
  import opened Base

  predicate StartsWith(s: string, prefix: string) {
    |prefix| <= |s| && forall k :: 0 <= k < |prefix| ==> s[k] == prefix[k]
  }

  lemma StartsWithConcat(prefix: string, rest: string)
    ensures StartsWith(prefix + rest, prefix)
    ensures (prefix + rest)[|prefix|..] == rest
  {
  }

  lemma ConcatAssociates<T>(x: seq<T>, y: seq<T>, z: seq<T>)
    ensures (x + y) + z == x + (y + z)
  {
  }

  /** Some element of `s` satisfies `p` exactly when some element of its
      prefix `init` or its last element does. */
  lemma ExistsStep<T>(s: seq<T>, init: seq<T>, p: T -> bool)
    requires s != [] && init == s[..|s| - 1]
    ensures (exists i :: 0 <= i < |s| && p(s[i])) <==>
      (exists i :: 0 <= i < |init| && p(init[i])) || p(s[|s| - 1])
  {
    if exists i :: 0 <= i < |s| && p(s[i]) {
      var i :| 0 <= i < |s| && p(s[i]);
      if i < |init| {
        assert init[i] == s[i];
      }
    }
    if exists i :: 0 <= i < |init| && p(init[i]) {
      var i :| 0 <= i < |init| && p(init[i]);
      assert s[i] == init[i];
    }
  }

  /** Position of the first occurrence of `c` in `s`. */
  function IndexOf(s: string, c: char): (i: nat)
    requires c in s
    ensures i < |s| && s[i] == c && c !in s[..i]
  {
    if s[0] == c then 0
    else
      var j := IndexOf(s[1..], c);
      assert s[..j + 1] == [s[0]] + s[1..][..j];
      1 + j
  }

  lemma IndexOfUnique(s: string, c: char, k: nat)
    requires k < |s| && s[k] == c && c !in s[..k]
    ensures IndexOf(s, c) == k
  {
  }

  // ---------------------------------------------------------------- split, join

  /** `s.split(sep)`: the pieces between separators, empty pieces included,
      nothing trimmed. */
  function Split(s: string, sep: char): (pieces: seq<string>)
    ensures |pieces| >= 1
    ensures forall i :: 0 <= i < |pieces| ==> sep !in pieces[i]
    decreases |s|
  {
    if sep !in s then [s]
    else
      var i := IndexOf(s, sep);
      [s[..i]] + Split(s[i + 1..], sep)
  }

  /** `sep.join(pieces)` */
  function Join(pieces: seq<string>, sep: string): string {
    if pieces == [] then ""
    else if |pieces| == 1 then pieces[0]
    else pieces[0] + sep + Join(pieces[1..], sep)
  }

  /** Joining the pieces of a split gives back the string. */
  lemma {:induction false} JoinSplit(s: string, sep: char)
    ensures Join(Split(s, sep), [sep]) == s
    decreases |s|
  {
    if sep in s {
      var i := IndexOf(s, sep);
      JoinSplit(s[i + 1..], sep);
      assert s == s[..i] + [sep] + s[i + 1..];
    }
  }

  /** Splitting a join of separator-free pieces gives back the pieces. */
  lemma {:induction false} SplitJoin(pieces: seq<string>, sep: char)
    requires |pieces| >= 1
    requires forall i :: 0 <= i < |pieces| ==> sep !in pieces[i]
    ensures Split(Join(pieces, [sep]), sep) == pieces
  {
    if |pieces| > 1 {
      var rest := Join(pieces[1..], [sep]);
      var s := pieces[0] + [sep] + rest;
      assert Join(pieces, [sep]) == s;
      assert s[..|pieces[0]|] == pieces[0];
      IndexOfUnique(s, sep, |pieces[0]|);
      assert s[|pieces[0]| + 1..] == rest;
      SplitJoin(pieces[1..], sep);
      assert pieces == [pieces[0]] + pieces[1..];
    }
  }

  // ---------------------------------------------------------------- numbers

  predicate IsDigit(c: char) {
    '0' <= c <= '9'
  }

  predicate AllDigits(s: string) {
    forall i :: 0 <= i < |s| ==> IsDigit(s[i])
  }

  function DigitValue(c: char): nat
    requires IsDigit(c)
  {
    c as int - '0' as int
  }

  function DigitChar(d: nat): (c: char)
    requires d < 10
    ensures IsDigit(c) && DigitValue(c) == d
  {
    ('0' as int + d) as char
  }

  /** Decimal digits of `n`, most significant first, no leading zeros. */
  function NatToString(n: nat): (s: string)
    ensures |s| >= 1 && AllDigits(s)
  {
    if n < 10 then [DigitChar(n)]
    else NatToString(n / 10) + [DigitChar(n % 10)]
  }

  /** `str(i)` for a Python int */
  function IntToString(i: int): string {
    if i < 0 then "-" + NatToString(-i) else NatToString(i)
  }

  /** The number a string of decimal digits denotes. */
  function DigitsValue(s: string): nat
    requires AllDigits(s)
  {
    if s == [] then 0
    else DigitsValue(s[..|s| - 1]) * 10 + DigitValue(s[|s| - 1])
  }

  lemma {:induction false} NatToStringValue(n: nat)
    ensures DigitsValue(NatToString(n)) == n
  {
    if n >= 10 {
      var s := NatToString(n);
      assert s[..|s| - 1] == NatToString(n / 10);
      NatToStringValue(n / 10);
    }
  }

  function Pow10(k: nat): (p: nat)
    ensures p >= 1
  {
    if k == 0 then 1 else 10 * Pow10(k - 1)
  }

  /** Digits with at most one decimal point and at least one digit:
      "12", "12.5", "12." and ".5". */
  function ParseUnsigned(s: string): (r: Option<real>)
    ensures r.Some? ==> |s| > 0 && (IsDigit(s[0]) || s[0] == '.')
  {
    if '.' in s then
      var i := IndexOf(s, '.');
      var whole, fraction := s[..i], s[i + 1..];
      if AllDigits(whole) && AllDigits(fraction) && |whole| + |fraction| > 0 then
        assert i > 0 ==> s[0] == whole[0];
        Some(DigitsValue(whole) as real + DigitsValue(fraction) as real / Pow10(|fraction|) as real)
      else None
    else if |s| > 0 && AllDigits(s) then Some(DigitsValue(s) as real)
    else None
  }

  /** The decimal subset of Python's `float(s)`: an optional sign followed by
      an unsigned decimal. `None` stands for the ValueError that Python raises. */
  function ParseNumber(s: string): (r: Option<real>)
    ensures r.Some? ==> |s| > 0 && (IsDigit(s[0]) || s[0] in "+-.")
  {
    if |s| > 0 && (s[0] == '+' || s[0] == '-') then
      match ParseUnsigned(s[1..])
      case None => None
      case Some(x) => Some(if s[0] == '-' then -x else x)
    else ParseUnsigned(s)
  }

  /** `float(str(i)) == i` for every integer. */
  lemma ParseIntToString(i: int)
    ensures ParseNumber(IntToString(i)) == Some(i as real)
  {
    var n: nat := if i < 0 then -i else i;
    var digits := NatToString(n);
    NatToStringValue(n);
    assert '.' !in digits by {
      assert forall k :: 0 <= k < |digits| ==> digits[k] != '.';
    }
    if i < 0 {
      assert IntToString(i)[1..] == digits;
    } else {
      assert IntToString(i) == digits;
    }
  }

  // ---------------------------------------------------------------- case

  predicate IsUpper(c: char) {
    'A' <= c <= 'Z'
  }

  predicate IsLower(c: char) {
    'a' <= c <= 'z'
  }

  /** A letter that has an upper and a lower case form (ASCII letters). */
  predicate IsCased(c: char) {
    IsUpper(c) || IsLower(c)
  }

  function ToUpper(c: char): (u: char)
    ensures IsCased(u) == IsCased(c) && !IsLower(u)
  {
    if IsLower(c) then (c as int - 32) as char else c
  }

  function ToLower(c: char): (l: char)
    ensures IsCased(l) == IsCased(c) && !IsUpper(l)
  {
    if IsUpper(c) then (c as int + 32) as char else c
  }

  /** `s.replace(from, to)` for single characters */
  function ReplaceChar(s: string, from: char, to: char): string {
    seq(|s|, i requires 0 <= i < |s| => if s[i] == from then to else s[i])
  }

  /** CPython's title-casing loop: a character is lower-cased when the
      character before it is cased, and title-cased otherwise. */
  function TitleFrom(s: string, previousCased: bool): string {
    if s == [] then ""
    else [if previousCased then ToLower(s[0]) else ToUpper(s[0])] + TitleFrom(s[1..], IsCased(s[0]))
  }

  /** `s.title()` */
  function Title(s: string): string {
    TitleFrom(s, false)
  }

  lemma {:induction false} TitleFromAt(s: string, previousCased: bool)
    ensures |TitleFrom(s, previousCased)| == |s|
    ensures forall i :: 0 <= i < |s| ==>
      TitleFrom(s, previousCased)[i] ==
        if (if i == 0 then previousCased else IsCased(s[i - 1])) then ToLower(s[i]) else ToUpper(s[i])
  {
    if s != [] {
      TitleFromAt(s[1..], IsCased(s[0]));
    }
  }

  /** Each character of `s.title()` is upper-cased at the start of the string
      or after an uncased character, and lower-cased after a cased one. */
  lemma TitleAt(s: string)
    ensures |Title(s)| == |s|
    ensures forall i :: 0 <= i < |s| ==>
      Title(s)[i] == if i > 0 && IsCased(s[i - 1]) then ToLower(s[i]) else ToUpper(s[i])
  {
    TitleFromAt(s, false);
  }

  /** Title-casing a concatenation: the second part continues from whether
      the last character of the first is cased. */
  lemma {:induction false} TitleFromAppend(a: string, b: string, previousCased: bool)
    ensures TitleFrom(a + b, previousCased) ==
      TitleFrom(a, previousCased) + TitleFrom(b, if a == [] then previousCased else IsCased(a[|a| - 1]))
    decreases |a|
  {
    if a == [] {
      assert a + b == b;
    } else {
      var head := [if previousCased then ToLower(a[0]) else ToUpper(a[0])];
      var next := if |a| == 1 then IsCased(a[0]) else IsCased(a[|a| - 1]);
      assert (a + b)[0] == a[0] && (a + b)[1..] == a[1..] + b;
      assert TitleFrom(a + b, previousCased) == head + TitleFrom(a[1..] + b, IsCased(a[0]));
      if |a| > 1 {
        assert a[1..][|a[1..]| - 1] == a[|a| - 1];
      }
      TitleFromAppend(a[1..], b, IsCased(a[0]));
      ConcatAssociates(head, TitleFrom(a[1..], IsCased(a[0])), TitleFrom(b, next));
    }
  }

  /** Lower-case letters after a letter stay as they are. */
  lemma {:induction false} TitleFromLower(w: string)
    requires forall k :: 0 <= k < |w| ==> IsLower(w[k])
    ensures TitleFrom(w, true) == w
    decreases |w|
  {
    if w != [] {
      TitleFromLower(w[1..]);
    }
  }

  /** A lower-case word at the start of a title loses nothing but the case
      of its first letter. */
  lemma TitleWordStart(c: char, w: string)
    requires IsLower(c)
    requires forall i :: 0 <= i < |w| ==> IsLower(w[i])
    ensures TitleFrom([c] + w, false) == [ToUpper(c)] + w
  {
    assert ([c] + w)[1..] == w;
    TitleFromLower(w);
  }

  /** Two lower-case words separated by a space are title-cased by
      capitalising the first letter of each. */
  lemma TitleTwoWords(c: char, w: string, d: char, v: string)
    requires IsLower(c) && IsLower(d)
    requires forall i :: 0 <= i < |w| ==> IsLower(w[i])
    requires forall i :: 0 <= i < |v| ==> IsLower(v[i])
    ensures Title([c] + w + [' '] + [d] + v) == [ToUpper(c)] + w + [' '] + [ToUpper(d)] + v
  {
    var first := [c] + w;
    var second := [' '] + ([d] + v);
    TitleWordStart(c, w);
    assert TitleFrom(second, true) == [' '] + ([ToUpper(d)] + v) by {
      assert second[1..] == [d] + v;
      TitleWordStart(d, v);
    }
    assert [c] + w + [' '] + [d] + v == first + second;
    TitleFromAppend(first, second, false);
    assert [ToUpper(c)] + w + [' '] + [ToUpper(d)] + v == ([ToUpper(c)] + w) + ([' '] + ([ToUpper(d)] + v));
  }

  /** Title-casing a title-cased string changes nothing. */
  lemma TitleIdempotent(s: string)
    ensures Title(Title(s)) == Title(s)
  {
    var t := Title(s);
    TitleAt(s);
    TitleAt(t);
    forall i | 0 <= i < |s|
      ensures Title(t)[i] == t[i]
    {
      if i > 0 {
        var j := i - 1;
        assert t[j] == if j > 0 && IsCased(s[j - 1]) then ToLower(s[j]) else ToUpper(s[j]);
        assert IsCased(t[j]) == IsCased(s[j]);
      }
    }
  }
}
