/**
  The pieces of Python's text handling that the scheduler leans on: `str.isspace()`,
  `str.split()` with no separator, `str.lower()` restricted to ASCII letters, and the
  built-in `int()` applied to a string, with the whitespace it skips.
 */
module PyText {
  import opened Wrappers

  /** Python's `str.isspace()` on one character: the whitespace that `str.split()`
      separates words at (the ASCII controls TAB..CR and FS..US, space, NEL, NBSP and
      the Unicode space separators). */
  predicate IsSpace(c: char) {
    || ('\t' <= c <= '\r')
    || ('\U{1C}' <= c <= ' ')
    || c == '\U{85}' || c == '\U{A0}' || c == '\U{1680}'
    || ('\U{2000}' <= c <= '\U{200A}')
    || c == '\U{2028}' || c == '\U{2029}' || c == '\U{202F}' || c == '\U{205F}' || c == '\U{3000}'
  }

  predicate NoSpace(s: string) {
    forall i :: 0 <= i < |s| ==> !IsSpace(s[i])
  }

  predicate AllSpace(s: string) {
    forall i :: 0 <= i < |s| ==> IsSpace(s[i])
  }

  /** The whitespace `int()` skips around a number: every `str.isspace()` character
      except the ASCII separators FS..US (U+001C..U+001F). CPython maps non-ASCII
      whitespace to a space and then skips only space and TAB..CR. */
  predicate IsIntSpace(c: char) {
    IsSpace(c) && !('\U{1C}' <= c <= '\U{1F}')
  }

  predicate AllIntSpace(s: string) {
    forall i :: 0 <= i < |s| ==> IsIntSpace(s[i])
  }

  /** `int()` skipping the whitespace in front of the number. */
  function SkipLeadingSpace(s: string): string
    decreases |s|
  {
    if s != [] && IsIntSpace(s[0]) then SkipLeadingSpace(s[1..]) else s
  }

  /** `int()` skipping the whitespace after the number. */
  function SkipTrailingSpace(s: string): string
    decreases |s|
  {
    if s != [] && IsIntSpace(s[|s| - 1]) then SkipTrailingSpace(s[..|s| - 1]) else s
  }

  /** What skipping leading whitespace leaves: the suffix of `s` after all its leading
      `int()` whitespace. */
  lemma {:induction false} SkipLeadingSpaceSpec(s: string)
    ensures |SkipLeadingSpace(s)| <= |s| && SkipLeadingSpace(s) == s[|s| - |SkipLeadingSpace(s)|..]
    ensures AllIntSpace(s[..|s| - |SkipLeadingSpace(s)|])
    ensures SkipLeadingSpace(s) == [] || !IsIntSpace(SkipLeadingSpace(s)[0])
    decreases |s|
  {
    if s != [] && IsIntSpace(s[0]) {
      var r := SkipLeadingSpace(s[1..]);
      assert SkipLeadingSpace(s) == r;
      SkipLeadingSpaceSpec(s[1..]);
      assert s[|s| - |r|..] == s[1..][|s| - 1 - |r|..];
      var dropped := s[..|s| - |r|];
      assert dropped == [s[0]] + s[1..][..|s| - 1 - |r|];
      assert forall i :: 1 <= i < |dropped| ==> dropped[i] == s[1..][..|s| - 1 - |r|][i - 1];
    }
  }

  /** What skipping trailing whitespace leaves: the prefix of `s` before all its
      trailing `int()` whitespace. */
  lemma {:induction false} SkipTrailingSpaceSpec(s: string)
    ensures |SkipTrailingSpace(s)| <= |s| && SkipTrailingSpace(s) == s[..|SkipTrailingSpace(s)|]
    ensures AllIntSpace(s[|SkipTrailingSpace(s)|..])
    ensures SkipTrailingSpace(s) == [] || !IsIntSpace(SkipTrailingSpace(s)[|SkipTrailingSpace(s)| - 1])
    decreases |s|
  {
    if s != [] && IsIntSpace(s[|s| - 1]) {
      var r := SkipTrailingSpace(s[..|s| - 1]);
      SkipTrailingSpaceSpec(s[..|s| - 1]);
      assert s[|r|..] == s[..|s| - 1][|r|..] + [s[|s| - 1]];
    }
  }

  /** The text `int()` reads the number from: `s` without the whitespace at either
      end. */
  function StripIntSpace(s: string): string {
    SkipTrailingSpace(SkipLeadingSpace(s))
  }

  /** Stripping keeps a contiguous piece of `s` that neither starts nor ends with
      `int()` whitespace, and what it drops on either side is all whitespace. */
  lemma StripIntSpaceSpec(s: string)
    ensures var n := |s| - |SkipLeadingSpace(s)|; var r := StripIntSpace(s);
      && 0 <= n && n + |r| <= |s| && r == s[n..n + |r|]
      && AllIntSpace(s[..n]) && AllIntSpace(s[n + |r|..])
      && (r == [] || (!IsIntSpace(r[0]) && !IsIntSpace(r[|r| - 1])))
  {
    var t := SkipLeadingSpace(s);
    var n := |s| - |t|;
    var r := StripIntSpace(s);
    SkipLeadingSpaceSpec(s);
    SkipTrailingSpaceSpec(t);
    assert r == t[..|r|];
    assert t == s[n..];
    assert r == s[n..n + |r|];
    assert s[n + |r|..] == t[|r|..];
    if r != [] {
      assert r[0] == t[0];
    }
  }

  /** Length of the run of non-whitespace characters that `s` starts with. */
  function WordLength(s: string): (n: nat)
    ensures n <= |s|
    ensures NoSpace(s[..n])
    ensures n == |s| || IsSpace(s[n])
  {
    if s == [] || IsSpace(s[0]) then 0
    else
      var n := 1 + WordLength(s[1..]);
      assert s[..n] == [s[0]] + s[1..][..n - 1];
      n
  }

  /** `s.split()`: the maximal runs of non-whitespace characters of `s`, in order. */
  function Split(s: string): (r: seq<string>)
    ensures forall k :: 0 <= k < |r| ==> r[k] != [] && NoSpace(r[k])
    decreases |s|
  {
    if s == [] then []
    else if IsSpace(s[0]) then Split(s[1..])
    else
      var n := WordLength(s);
      [s[..n]] + Split(s[n..])
  }

  /** Leading whitespace contributes no word. */
  lemma {:induction false} SplitAfterSpaces(sp: string, rest: string)
    requires AllSpace(sp)
    ensures Split(sp + rest) == Split(rest)
    decreases |sp|
  {
    if sp != [] {
      assert IsSpace((sp + rest)[0]);
      assert (sp + rest)[1..] == sp[1..] + rest;
      SplitAfterSpaces(sp[1..], rest);
    } else {
      assert sp + rest == rest;
    }
  }

  /** A word followed by whitespace or by the end of the text is split off whole. */
  lemma {:induction false} SplitAfterWord(w: string, rest: string)
    requires w != [] && NoSpace(w)
    requires rest == [] || IsSpace(rest[0])
    ensures Split(w + rest) == [w] + Split(rest)
  {
    WordLengthOf(w, rest);
    assert (w + rest)[..|w|] == w;
    assert (w + rest)[|w|..] == rest;
  }

  lemma {:induction false} WordLengthOf(w: string, rest: string)
    requires NoSpace(w)
    requires rest == [] || IsSpace(rest[0])
    ensures WordLength(w + rest) == |w|
    decreases |w|
  {
    if w != [] {
      assert (w + rest)[1..] == w[1..] + rest;
      WordLengthOf(w[1..], rest);
    } else {
      assert w + rest == rest;
    }
  }

  /** Two words joined by whitespace split back into exactly those two words: the
      shape `day, time_str = schedule_time.split()` unpacks. */
  lemma SplitTwoWords(w1: string, sep: string, w2: string)
    requires w1 != [] && NoSpace(w1) && w2 != [] && NoSpace(w2)
    requires sep != [] && AllSpace(sep)
    ensures Split(w1 + sep + w2) == [w1, w2]
  {
    assert w1 + sep + w2 == w1 + (sep + w2);
    SplitAfterWord(w1, sep + w2);
    SplitAfterSpaces(sep, w2);
    assert w2 == w2 + [];
    SplitAfterWord(w2, []);
    assert Split([]) == [];
  }

  /** `c.lower()` on ASCII letters; every other character is left as it is. */
  function LowerChar(c: char): (r: char)
    ensures 'A' <= c <= 'Z' ==> 'a' <= r <= 'z' && r as int - c as int == 32
    ensures !('A' <= c <= 'Z') ==> r == c
  {
    if 'A' <= c <= 'Z' then (c as int + 32) as char else c
  }

  predicate IsUpper(c: char) {
    'A' <= c <= 'Z'
  }

  /** `s.lower()`, restricted to ASCII letters: no capital is left, each capital
      becomes its small letter, and every other character stays. */
  function Lower(s: string): (r: string)
    ensures |r| == |s|
    ensures forall i :: 0 <= i < |r| ==> !IsUpper(r[i])
    ensures forall i :: 0 <= i < |s| && IsUpper(s[i]) ==> r[i] as int == s[i] as int + 32
    ensures forall i :: 0 <= i < |s| && !IsUpper(s[i]) ==> r[i] == s[i]
  {
    seq(|s|, i requires 0 <= i < |s| => LowerChar(s[i]))
  }

  /** Lower-casing a lower-cased text changes nothing. */
  lemma LowerIsIdempotent(s: string)
    ensures Lower(Lower(s)) == Lower(s)
  {
    var l := Lower(s);
    assert forall i :: 0 <= i < |l| ==> Lower(l)[i] == l[i];
  }

  /** `a` and `b` are the same text up to the case of ASCII letters. */
  predicate SameUpToCase(a: string, b: string) {
    && |a| == |b|
    && forall i :: 0 <= i < |a| ==>
      || a[i] == b[i]
      || (IsUpper(a[i]) && b[i] as int == a[i] as int + 32)
      || (IsUpper(b[i]) && a[i] as int == b[i] as int + 32)
  }

  /** Two texts lower-case to the same text exactly when they differ only in the case
      of ASCII letters. */
  lemma LowerMatchesUpToCase(a: string, b: string)
    ensures Lower(a) == Lower(b) <==> SameUpToCase(a, b)
  {
    if Lower(a) == Lower(b) {
      forall i | 0 <= i < |a|
        ensures || a[i] == b[i]
                || (IsUpper(a[i]) && b[i] as int == a[i] as int + 32)
                || (IsUpper(b[i]) && a[i] as int == b[i] as int + 32)
      {
        assert Lower(a)[i] == Lower(b)[i];
      }
    }
    if SameUpToCase(a, b) {
      forall i | 0 <= i < |a|
        ensures Lower(a)[i] == Lower(b)[i]
      {
      }
    }
  }

  predicate IsDigit(c: char) {
    '0' <= c <= '9'
  }

  function DigitValue(c: char): (d: nat)
    requires IsDigit(c)
    ensures d <= 9
  {
    c as int - '0' as int
  }

  function DigitChar(d: nat): (c: char)
    requires d <= 9
    ensures IsDigit(c) && DigitValue(c) == d
  {
    ('0' as int + d) as char
  }

  predicate DigitsAndUnderscores(s: string) {
    forall i :: 0 <= i < |s| ==> IsDigit(s[i]) || s[i] == '_'
  }

  /** What `int()` accepts after the optional sign: ASCII digits, with single
      underscores allowed between two digits. */
  predicate IsDigitGroup(s: string) {
    && s != []
    && IsDigit(s[0])
    && IsDigit(s[|s| - 1])
    && DigitsAndUnderscores(s)
    && (forall i :: 0 <= i < |s| - 1 ==> s[i] == '_' ==> s[i + 1] != '_')
  }

  /** The decimal value of a digit group, underscores ignored. */
  function GroupValue(s: string): nat
    requires DigitsAndUnderscores(s)
  {
    if s == [] then 0
    else if s[|s| - 1] == '_' then GroupValue(s[..|s| - 1])
    else 10 * GroupValue(s[..|s| - 1]) + DigitValue(s[|s| - 1])
  }

  /** Python's `int(s)` for a string `s` of ASCII digits below Python's conversion
      digit limit (`sys.int_max_str_digits`, 4300 by default): `Some(n)` where it
      returns `n`, `None` where it raises `ValueError`. Surrounding whitespace is
      ignored, one sign is allowed. */
  function ParseInt(s: string): (r: Option<int>)
    ensures r.Some? ==> StripIntSpace(s) != [] && IsDigit(StripIntSpace(s)[|StripIntSpace(s)| - 1])
    ensures r.Some? && r.value < 0 ==> StripIntSpace(s)[0] == '-'
  {
    var t := StripIntSpace(s);
    if t != [] && (t[0] == '+' || t[0] == '-') then
      if IsDigitGroup(t[1..]) then
        var v: int := GroupValue(t[1..]);
        Some(if t[0] == '-' then -v else v)
      else None
    else if IsDigitGroup(t) then Some(GroupValue(t))
    else None
  }

  /** Python's `str(n)` for a non-negative integer. */
  function NatToString(n: nat): (r: string)
    ensures r != [] && forall i :: 0 <= i < |r| ==> IsDigit(r[i])
  {
    if n < 10 then [DigitChar(n)] else NatToString(n / 10) + [DigitChar(n % 10)]
  }

  /** Python's `str(n)`: a minus sign exactly for a negative number, then digits. */
  function IntToString(n: int): (r: string)
    ensures r != [] && (r[0] == '-' <==> n < 0)
    ensures forall i :: 0 < i < |r| ==> IsDigit(r[i])
  {
    if n < 0 then "-" + NatToString(-n) else NatToString(n)
  }

  lemma {:induction false} NatToStringValue(n: nat)
    ensures DigitsAndUnderscores(NatToString(n))
    ensures GroupValue(NatToString(n)) == n
  {
    var r := NatToString(n);
    if n >= 10 {
      NatToStringValue(n / 10);
      assert r[..|r| - 1] == NatToString(n / 10);
    }
  }

  lemma NatToStringIsGroup(n: nat)
    ensures IsDigitGroup(NatToString(n))
  {
    var r := NatToString(n);
    assert forall i :: 0 <= i < |r| ==> IsDigit(r[i]);
  }

  lemma {:induction false} DigitsAreStripped(s: string)
    requires s != [] && forall i :: 0 <= i < |s| ==> !IsIntSpace(s[i])
    ensures StripIntSpace(s) == s
  {
    assert SkipLeadingSpace(s) == s;
    assert !IsIntSpace(s[|s| - 1]);
  }

  lemma {:induction false} SkipLeadingAfterSpaces(sp: string, x: string)
    requires AllIntSpace(sp)
    ensures SkipLeadingSpace(sp + x) == SkipLeadingSpace(x)
    decreases |sp|
  {
    if sp != [] {
      assert (sp + x)[1..] == sp[1..] + x;
      SkipLeadingAfterSpaces(sp[1..], x);
    } else {
      assert sp + x == x;
    }
  }

  lemma {:induction false} SkipTrailingBeforeSpaces(x: string, sp: string)
    requires AllIntSpace(sp)
    ensures SkipTrailingSpace(x + sp) == SkipTrailingSpace(x)
    decreases |sp|
  {
    if sp != [] {
      assert (x + sp)[..|x + sp| - 1] == x + sp[..|sp| - 1];
      SkipTrailingBeforeSpaces(x, sp[..|sp| - 1]);
    } else {
      assert x + sp == x;
    }
  }

  /** Stripping removes exactly the `int()` whitespace put around a word. */
  lemma StripIgnoresPadding(before: string, s: string, after: string)
    requires AllIntSpace(before) && AllIntSpace(after)
    requires s != [] && !IsIntSpace(s[0])
    ensures StripIntSpace(before + s + after) == StripIntSpace(s)
  {
    assert before + s + after == before + (s + after);
    SkipLeadingAfterSpaces(before, s + after);
    assert SkipLeadingSpace(s + after) == s + after;
    SkipTrailingBeforeSpaces(s, after);
    assert SkipLeadingSpace(s) == s;
  }

  /** `int()` ignores the whitespace it skips around the number. */
  lemma ParseIntIgnoresPadding(before: string, s: string, after: string)
    requires AllIntSpace(before) && AllIntSpace(after)
    requires s != [] && !IsIntSpace(s[0])
    ensures ParseInt(before + s + after) == ParseInt(s)
  {
    StripIgnoresPadding(before, s, after);
  }

  /** `int()` skips a tab, a newline and a no-break space around the digits. */
  lemma ParseIntSpaceExamples()
    ensures ParseInt("\t\U{A0}60\n") == Some(60)
  {
    var digits := "60";
    assert ParseInt(digits) == Some(60) by {
      DigitsAreStripped(digits);
      ParseIntOfGroup(digits);
    }
    ParseIntIgnoresPadding("\t\U{A0}", digits, "\n");
    assert "\t\U{A0}" + digits + "\n" == "\t\U{A0}60\n";
  }

  /** An ASCII file separator (U+001C) in front of the digits makes `int()` raise,
      although `str.isspace()` counts it as whitespace. */
  lemma ParseIntRejectsSeparator()
    ensures IsSpace('\U{1C}')
    ensures ParseInt("\U{1C}60") == None
  {
    var t := "\U{1C}60";
    assert SkipLeadingSpace(t) == t;
    assert StripIntSpace(t) == t;
  }

  lemma ParseIntOfGroup(t: string)
    requires StripIntSpace(t) == t && IsDigitGroup(t)
    ensures ParseInt(t) == Some(GroupValue(t))
  {
  }

  lemma ParseIntOfNegatedGroup(t: string)
    requires StripIntSpace(t) == t && t != [] && t[0] == '-' && IsDigitGroup(t[1..])
    ensures ParseInt(t) == Some(0 - GroupValue(t[1..]))
  {
  }

  /** `int(str(n)) == n`: every integer's decimal text parses back to it (in Python,
      for numbers below the conversion digit limit). */
  lemma ParseIntOfString(n: int)
    ensures ParseInt(IntToString(n)) == Some(n)
  {
    var m: nat := if n < 0 then -n else n;
    var digits := NatToString(m);
    NatToStringValue(m);
    NatToStringIsGroup(m);
    if n < 0 {
      var s := "-" + digits;
      assert s[1..] == digits;
      NoSpaceText(s);
      ParseIntOfNegatedGroup(s);
    } else {
      NoSpaceText(digits);
      ParseIntOfGroup(digits);
    }
  }

  lemma NoSpaceText(s: string)
    requires s != []
    requires forall i :: 0 <= i < |s| ==> IsDigit(s[i]) || s[i] == '-' || s[i] == '_'
    ensures StripIntSpace(s) == s
  {
    DigitsAreStripped(s);
  }
}
