/**
 * Character and string helpers with the semantics of the JavaScript built-ins
 * that the export route relies on: `String.prototype.trim`, the tag-stripping
 * `replace(/<[^>]+>/g, '')`, ASCII case folding for the `i` regular-expression
 * flag, and the decimal rendering of numbers.
 */
module Text {
  import opened Wrappers

  /** Lower-cases ASCII letters only. A non-Unicode `i` regular expression folds
      no character at or above U+0080 onto an ASCII one, so for the ASCII tag
      names of the export route this is the whole of its case folding. */
  function LowerAscii(c: char): (r: char)
    ensures 'A' <= c <= 'Z' ==> 'a' <= r <= 'z' && r as int - c as int == 32
    ensures !('A' <= c <= 'Z') ==> r == c
  {
    if 'A' <= c <= 'Z' then (c as int + 32) as char else c
  }

  /** The code points JavaScript counts as WhiteSpace or LineTerminator: the
      characters `String.prototype.trim` removes. */
  predicate IsJsSpace(c: char)
  {
    || c == '\t' || c == '\n' || c == '\U{000B}' || c == '\U{000C}' || c == '\r'
    || c == ' ' || c == '\U{00A0}' || c == '\U{1680}'
    || ('\U{2000}' <= c <= '\U{200A}')
    || c == '\U{2028}' || c == '\U{2029}' || c == '\U{202F}' || c == '\U{205F}'
    || c == '\U{3000}' || c == '\U{FEFF}'
  }

  /** The characters `.` does not match in a regular expression without the `s` flag. */
  predicate IsLineTerminator(c: char)
  {
    c == '\n' || c == '\r' || c == '\U{2028}' || c == '\U{2029}'
  }

  /** s with its leading white space removed. */
  function TrimStart(s: string): (r: string)
    ensures |r| <= |s|
  {
    if s != [] && IsJsSpace(s[0]) then TrimStart(s[1..]) else s
  }

  /** TrimStart drops a white-space prefix and keeps the rest, which does not
      start with white space. */
  lemma {:induction false} TrimStartSpec(s: string)
    decreases |s|
    ensures var r := TrimStart(s);
      r == s[|s| - |r|..]
      && (forall k :: 0 <= k < |s| - |r| ==> IsJsSpace(s[k]))
      && (r != [] ==> !IsJsSpace(r[0]))
  {
    if s != [] && IsJsSpace(s[0]) {
      TrimStartSpec(s[1..]);
      var r := TrimStart(s[1..]);
      assert s[1..][|s| - 1 - |r|..] == s[|s| - |r|..];
      forall k | 1 <= k < |s| - |r|
        ensures IsJsSpace(s[k])
      {
        assert s[k] == s[1..][k - 1];
      }
    }
  }

  /** s with its trailing white space removed. */
  function TrimEnd(s: string): (r: string)
    ensures |r| <= |s|
  {
    if s != [] && IsJsSpace(s[|s| - 1]) then TrimEnd(s[..|s| - 1]) else s
  }

  /** TrimEnd drops a white-space suffix and keeps the rest, which does not
      end with white space. */
  lemma {:induction false} TrimEndSpec(s: string)
    decreases |s|
    ensures var r := TrimEnd(s);
      r == s[..|r|]
      && (forall k :: |r| <= k < |s| ==> IsJsSpace(s[k]))
      && (r != [] ==> !IsJsSpace(r[|r| - 1]))
  {
    if s != [] && IsJsSpace(s[|s| - 1]) {
      TrimEndSpec(s[..|s| - 1]);
      var r := TrimEnd(s[..|s| - 1]);
      assert s[..|s| - 1][..|r|] == s[..|r|];
      forall k | |r| <= k < |s| - 1
        ensures IsJsSpace(s[k])
      {
        assert s[k] == s[..|s| - 1][k];
      }
    }
  }

  /** `s.trim()`. */
  function Trim(s: string): string
  {
    TrimEnd(TrimStart(s))
  }

  /** A string that starts and ends with something other than white space. */
  predicate Trimmed(t: string)
  {
    t == [] || (!IsJsSpace(t[0]) && !IsJsSpace(t[|t| - 1]))
  }

  /** The number of leading white-space characters `trim` removes. */
  function LeadingSpace(s: string): nat
  {
    |s| - |TrimStart(s)|
  }

  /** `trim` removes exactly a white-space prefix and a white-space suffix:
      what remains is an infix of s that starts and ends with a non-space. */
  lemma TrimIsInfix(s: string)
    ensures Trimmed(Trim(s))
    ensures LeadingSpace(s) + |Trim(s)| <= |s|
    ensures Trim(s) == s[LeadingSpace(s)..LeadingSpace(s) + |Trim(s)|]
    ensures forall k :: 0 <= k < LeadingSpace(s) ==> IsJsSpace(s[k])
    ensures forall k :: LeadingSpace(s) + |Trim(s)| <= k < |s| ==> IsJsSpace(s[k])
  {
    TrimIsTrimmed(s);
    TrimLeading(s);
    TrimTrailing(s);
  }

  lemma TrimIsTrimmed(s: string)
    ensures Trimmed(Trim(s))
  {
    var t := TrimStart(s);
    TrimStartSpec(s);
    TrimEndSpec(t);
    if Trim(s) != [] {
      assert Trim(s)[0] == t[0];
    }
  }

  lemma TrimLeading(s: string)
    ensures forall k :: 0 <= k < LeadingSpace(s) ==> IsJsSpace(s[k])
  {
    TrimStartSpec(s);
  }

  lemma TrimTrailing(s: string)
    ensures LeadingSpace(s) + |Trim(s)| <= |s|
    ensures Trim(s) == s[LeadingSpace(s)..LeadingSpace(s) + |Trim(s)|]
    ensures forall k :: LeadingSpace(s) + |Trim(s)| <= k < |s| ==> IsJsSpace(s[k])
  {
    var t := TrimStart(s);
    TrimStartSpec(s);
    TrimEndSpec(t);
    InfixAround(s, |s| - |t|, t, TrimEnd(t), IsJsSpace);
  }

  /** When t is s from a on and r is a prefix of t, r is the infix of s at a,
      and a property of every character of t after r holds in s after the infix. */
  lemma InfixAround<T>(s: seq<T>, a: nat, t: seq<T>, r: seq<T>, p: T -> bool)
    requires a <= |s| && t == s[a..] && |r| <= |t| && r == t[..|r|]
    requires forall k :: |r| <= k < |t| ==> p(t[k])
    ensures a + |r| <= |s| && r == s[a..a + |r|]
    ensures r != [] ==> r[0] == t[0] && r[|r| - 1] == s[a + |r| - 1]
    ensures forall k :: a + |r| <= k < |s| ==> p(s[k])
  {
    forall k | a + |r| <= k < |s|
      ensures p(s[k])
    {
      assert s[k] == t[k - a];
    }
  }

  /** `trim` is idempotent: a trimmed string is its own trim. */
  lemma TrimFixesTrimmed(t: string)
    requires Trimmed(t)
    ensures Trim(t) == t
  {
  }

  /** A string trims to the empty string exactly when it is all white space;
      this is the source's `!section.trim()` test. */
  lemma TrimEmptyIffBlank(s: string)
    ensures Trim(s) == [] <==> forall k :: 0 <= k < |s| ==> IsJsSpace(s[k])
  {
    TrimIsInfix(s);
    var a := LeadingSpace(s);
    if Trim(s) != [] {
      assert s[a] == Trim(s)[0];
      assert !IsJsSpace(s[a]);
    }
  }

  /** The index of the first `>` at or after i. */
  function FindGt(s: string, i: nat): (r: Option<nat>)
    decreases |s| - i
    ensures r.Some? ==> i <= r.value < |s| && s[r.value] == '>'
    ensures r.Some? ==> forall k :: i <= k < r.value ==> s[k] != '>'
    ensures r.None? ==> forall k :: i <= k < |s| ==> s[k] != '>'
  {
    if i >= |s| then None
    else if s[i] == '>' then Some(i)
    else FindGt(s, i + 1)
  }

  /** The end of a match of `<[^>]+>` that starts at i: a `<`, one or more
      characters other than `>`, and the first `>` after them. */
  function TagEnd(s: string, i: nat): (r: Option<nat>)
    ensures r.Some? ==> i + 3 <= r.value <= |s| && s[i] == '<' && s[r.value - 1] == '>'
    ensures r.Some? ==> forall k :: i < k < r.value - 1 ==> s[k] != '>'
    ensures r.None? && i < |s| && s[i] == '<' ==>
      (i + 1 < |s| && s[i + 1] == '>') || forall k :: i < k < |s| ==> s[k] != '>'
  {
    if i < |s| && s[i] == '<' then
      match FindGt(s, i + 1)
      case Some(j) => if j > i + 1 then Some(j + 1) else None
      case None => None
    else None
  }

  /** `s.slice(i).replace(/<[^>]+>/g, '')`: scanning left to right, every match is
      dropped and every other character is kept. */
  function StripTagsFrom(s: string, i: nat): string
    decreases |s| - i
  {
    if i >= |s| then []
    else
      match TagEnd(s, i)
      case Some(e) => StripTagsFrom(s, e)
      case None => [s[i]] + StripTagsFrom(s, i + 1)
  }

  /** `s.replace(/<[^>]+>/g, '')`. */
  function StripTags(s: string): string
  {
    StripTagsFrom(s, 0)
  }

  /** No match of `<[^>]+>` occurs in t: every `<` is followed directly by `>`
      or by no `>` at all. */
  predicate NoTag(t: string)
  {
    forall k :: 0 <= k < |t| && t[k] == '<' ==>
      (k + 1 < |t| && t[k + 1] == '>') || '>' !in t[k + 1..]
  }

  /** Stripping keeps only characters of the input, never adds one. */
  lemma {:induction false} StripTagsKeepsChars(s: string, i: nat)
    requires i <= |s|
    decreases |s| - i
    ensures |StripTagsFrom(s, i)| <= |s| - i
    ensures forall c :: c in StripTagsFrom(s, i) ==> c in s[i..]
  {
    if i < |s| {
      match TagEnd(s, i)
      case Some(e) =>
        StripTagsKeepsChars(s, e);
        assert forall c :: c in s[e..] ==> c in s[i..] by {
          assert s[e..] == s[i..][e - i..];
        }
      case None =>
        StripTagsKeepsChars(s, i + 1);
        assert s[i..] == [s[i]] + s[i + 1..];
    }
  }

  /** Text without `<` survives the stripping pass as it is, in front of
      whatever the rest strips to. */
  lemma StripTagsKeepsText(x: string, y: string)
    requires '<' !in x
    ensures StripTags(x + y) == x + StripTags(y)
  {
    StripTagsKeepsPlain(x, y, 0);
    StripTagsShift(x, y, 0);
    assert x[0..] == x;
  }

  /** A whole `<…>` run with content is dropped, and stripping goes on after it. */
  lemma StripTagsDropsTag(t: string, y: string)
    requires TagEnd(t, 0) == Some(|t|)
    ensures StripTags(t + y) == StripTags(y)
  {
    FindGtPrefix(t, y, 1);
    assert (t + y)[0] == t[0];
    assert TagEnd(t + y, 0) == Some(|t|);
    StripTagsShift(t, y, 0);
  }

  lemma {:induction false} StripTagsKeepsPlain(x: string, y: string, i: nat)
    requires '<' !in x && i <= |x|
    decreases |x| - i
    ensures StripTagsFrom(x + y, i) == x[i..] + StripTagsFrom(x + y, |x|)
  {
    if i < |x| {
      assert (x + y)[i] == x[i];
      StripTagsKeepsPlain(x, y, i + 1);
      assert x[i..] == [x[i]] + x[i + 1..];
    }
  }

  /** Finding `>` depends only on the text from the starting position on. */
  lemma {:induction false} FindGtLocal(s: string, i: nat, t: string, j: nat)
    requires i <= |s| && j <= |t| && s[i..] == t[j..]
    decreases |s| - i
    ensures FindGt(s, i).Some? <==> FindGt(t, j).Some?
    ensures FindGt(s, i).Some? ==> FindGt(s, i).value - i == FindGt(t, j).value - j
  {
    if i < |s| {
      assert s[i] == s[i..][0] && t[j] == t[j..][0];
      assert s[i + 1..] == s[i..][1..] && t[j + 1..] == t[j..][1..];
      FindGtLocal(s, i + 1, t, j + 1);
    }
  }

  /** A `>` found in a prefix is found there whatever follows. */
  lemma {:induction false} FindGtPrefix(x: string, y: string, i: nat)
    requires FindGt(x, i).Some?
    decreases |x| - i
    ensures FindGt(x + y, i) == FindGt(x, i)
  {
    assert (x + y)[i] == x[i];
    if x[i] != '>' {
      FindGtPrefix(x, y, i + 1);
    }
  }

  /** Whether a tag starts at a position depends only on the text from there on. */
  lemma TagEndLocal(s: string, i: nat, t: string, j: nat)
    requires i < |s| && j < |t| && s[i..] == t[j..]
    ensures TagEnd(s, i).Some? <==> TagEnd(t, j).Some?
    ensures TagEnd(s, i).Some? ==> TagEnd(s, i).value - i == TagEnd(t, j).value - j
  {
    assert s[i] == s[i..][0] && t[j] == t[j..][0];
    assert s[i + 1..] == s[i..][1..] && t[j + 1..] == t[j..][1..];
    FindGtLocal(s, i + 1, t, j + 1);
  }

  /** Stripping from a position depends only on the text from there on. */
  lemma {:induction false} StripTagsLocal(s: string, i: nat, t: string, j: nat)
    requires i <= |s| && j <= |t| && s[i..] == t[j..]
    decreases |s| - i
    ensures StripTagsFrom(s, i) == StripTagsFrom(t, j)
  {
    if i < |s| {
      TagEndLocal(s, i, t, j);
      assert s[i] == s[i..][0] && t[j] == t[j..][0];
      match TagEnd(s, i)
      case Some(e) =>
        var f := TagEnd(t, j).value;
        assert s[e..] == s[i..][e - i..] && t[f..] == t[j..][f - j..];
        StripTagsLocal(s, e, t, f);
      case None =>
        assert s[i + 1..] == s[i..][1..] && t[j + 1..] == t[j..][1..];
        StripTagsLocal(s, i + 1, t, j + 1);
    }
  }

  /** Stripping after a prefix is stripping the rest alone. */
  lemma StripTagsShift(x: string, y: string, j: nat)
    requires j <= |y|
    ensures StripTagsFrom(x + y, |x| + j) == StripTagsFrom(y, j)
  {
    assert (x + y)[|x| + j..] == y[j..];
    StripTagsLocal(x + y, |x| + j, y, j);
  }

  /** The output of the tag-stripping pass contains no tag. */
  lemma {:induction false} StripTagsLeavesNoTag(s: string, i: nat)
    requires i <= |s|
    decreases |s| - i
    ensures NoTag(StripTagsFrom(s, i))
  {
    if i < |s| {
      match TagEnd(s, i)
      case Some(e) =>
        StripTagsLeavesNoTag(s, e);
      case None =>
        var rest := StripTagsFrom(s, i + 1);
        StripTagsLeavesNoTag(s, i + 1);
        StripTagsKeepsChars(s, i + 1);
        if s[i] == '<' && i + 1 < |s| && s[i + 1] == '>' {
          assert TagEnd(s, i + 1).None?;
          assert rest == [s[i + 1]] + StripTagsFrom(s, i + 2);
        }
        NoTagCons(s[i], rest);
    }
  }

  /** A character in front of text without tags makes no tag, unless it is
      a `<` that a `>` follows somewhere after a first character other than `>`. */
  lemma NoTagCons(c: char, rest: string)
    requires NoTag(rest)
    requires c == '<' ==> (|rest| > 0 && rest[0] == '>') || '>' !in rest
    ensures NoTag([c] + rest)
  {
    var r := [c] + rest;
    forall k | 0 <= k < |r| && r[k] == '<'
      ensures (k + 1 < |r| && r[k + 1] == '>') || '>' !in r[k + 1..]
    {
      if k == 0 {
        assert r[1..] == rest;
      } else {
        assert r[k] == rest[k - 1];
        assert r[k + 1..] == rest[k..];
      }
    }
  }

  /** A string without tags passes through the stripping pass unchanged. */
  lemma {:induction false} StripTagsFixesNoTag(s: string, i: nat)
    requires NoTag(s) && i <= |s|
    decreases |s| - i
    ensures StripTagsFrom(s, i) == s[i..]
  {
    if i < |s| {
      if s[i] == '<' && !(i + 1 < |s| && s[i + 1] == '>') {
        assert '>' !in s[i + 1..];
        forall k | i + 1 <= k < |s|
          ensures s[k] != '>'
        {
          assert s[k] == s[i + 1..][k - i - 1];
        }
      }
      assert TagEnd(s, i).None?;
      StripTagsFixesNoTag(s, i + 1);
      assert s[i..] == [s[i]] + s[i + 1..];
    }
  }

  /** Stripping tags is idempotent. */
  lemma StripTagsIdempotent(s: string)
    ensures StripTags(StripTags(s)) == StripTags(s)
  {
    StripTagsLeavesNoTag(s, 0);
    StripTagsFixesNoTag(StripTags(s), 0);
  }

  /** Any infix of a tag-free string is tag-free, so trimming keeps text tag-free. */
  lemma NoTagInfix(s: string, a: nat, b: nat)
    requires NoTag(s) && a <= b <= |s|
    ensures NoTag(s[a..b])
  {
    var t := s[a..b];
    forall k | 0 <= k < |t| && t[k] == '<'
      ensures (k + 1 < |t| && t[k + 1] == '>') || '>' !in t[k + 1..]
    {
      assert s[a + k] == '<';
      if !(a + k + 1 < |s| && s[a + k + 1] == '>') {
        assert '>' !in s[a + k + 1..];
        forall m | k + 1 <= m < |t|
          ensures t[m] != '>'
        {
          assert t[m] == s[a + k + 1..][m - k - 1];
        }
      }
    }
  }

  predicate IsDigit(c: char)
  {
    '0' <= c <= '9'
  }

  predicate AllDigits(s: string)
  {
    forall k :: 0 <= k < |s| ==> IsDigit(s[k])
  }

  /** The digit character for d. */
  function DigitChar(d: nat): (c: char)
    requires d < 10
    ensures IsDigit(c) && c as int - '0' as int == d
  {
    ('0' as int + d) as char
  }

  /** The decimal rendering of n, as JavaScript's template literals print a
      non-negative integer. */
  function NatToString(n: nat): (r: string)
    decreases n
    ensures r != [] && AllDigits(r)
    ensures r[0] == '0' ==> r == "0"
  {
    if n < 10 then [DigitChar(n)] else NatToString(n / 10) + [DigitChar(n % 10)]
  }

  /** The number a string of decimal digits denotes. */
  function DigitsValue(s: string): nat
    requires AllDigits(s)
  {
    if s == [] then 0 else DigitsValue(s[..|s| - 1]) * 10 + (s[|s| - 1] as int - '0' as int)
  }

  /** Reading back a rendered number gives the number. */
  lemma {:induction false} NatToStringRoundTrip(n: nat)
    decreases n
    ensures DigitsValue(NatToString(n)) == n
  {
    if n >= 10 {
      NatToStringRoundTrip(n / 10);
      var s := NatToString(n);
      assert s[..|s| - 1] == NatToString(n / 10);
    }
  }

  /** A number below 1000 as exactly three digits, zero-padded. */
  function Pad3(n: nat): (r: string)
    requires n < 1000
    ensures |r| == 3 && AllDigits(r)
  {
    [DigitChar(n / 100), DigitChar(n / 10 % 10), DigitChar(n % 10)]
  }

  /** A non-negative integer with en-US thousands separators, as
      `toLocaleString()` renders an integer in that locale. */
  function GroupThousands(n: nat): string
    decreases n
  {
    if n < 1000 then NatToString(n) else GroupThousands(n / 1000) + "," + Pad3(n % 1000)
  }

  /** The en-US grouping: every character is a digit or a comma, and the
      commas are exactly every fourth character counted from the end, so the
      last group and every group before it but the first has three digits,
      and the first has one to three. */
  predicate Grouped(r: string)
  {
    r != [] && forall k :: 0 <= k < |r| ==> (r[k] == ',' <==> (|r| - k) % 4 == 0) && (r[k] == ',' || IsDigit(r[k]))
  }

  /** `toLocaleString()` groups as en-US does. */
  lemma {:induction false} GroupThousandsShape(n: nat)
    decreases n
    ensures Grouped(GroupThousands(n))
  {
    if n < 1000 {
      ShortIsGrouped(NatToString(n), n);
    } else {
      GroupThousandsShape(n / 1000);
      GroupedAppend(GroupThousands(n / 1000), Pad3(n % 1000));
    }
  }

  /** A number below 1000 renders as one to three digits, which is a group on its own. */
  lemma ShortIsGrouped(r: string, n: nat)
    requires n < 1000 && r == NatToString(n)
    ensures Grouped(r)
  {
    assert |r| <= 3 by {
      if n >= 10 {
        assert NatToString(n) == NatToString(n / 10) + [DigitChar(n % 10)];
        if n / 10 >= 10 {
          assert NatToString(n / 10) == NatToString(n / 10 / 10) + [DigitChar(n / 10 % 10)];
        }
      }
    }
    forall k | 0 <= k < |r|
      ensures (r[k] == ',' <==> (|r| - k) % 4 == 0) && (r[k] == ',' || IsDigit(r[k]))
    {
      assert IsDigit(r[k]);
    }
  }

  /** A further group of three digits after a comma keeps the grouping. */
  lemma GroupedAppend(g: string, p: string)
    requires Grouped(g) && |p| == 3 && AllDigits(p)
    ensures Grouped(g + "," + p)
  {
    var r := g + "," + p;
    forall k | 0 <= k < |r|
      ensures (r[k] == ',' <==> (|r| - k) % 4 == 0) && (r[k] == ',' || IsDigit(r[k]))
    {
      if k < |g| {
        assert r[k] == g[k];
        assert (|r| - k) % 4 == (|g| - k) % 4;
      } else if k > |g| {
        assert r[k] == p[k - |g| - 1];
        assert IsDigit(r[k]);
      }
    }
  }

  /** An integer amount with en-US grouping and a leading minus sign when negative. */
  function FormatAmount(n: int): string
  {
    if n < 0 then "-" + GroupThousands(-n) else GroupThousands(n)
  }

  /** s without its commas. */
  function RemoveCommas(s: string): string
  {
    if s == [] then [] else RemoveCommas(s[..|s| - 1]) + (if s[|s| - 1] == ',' then [] else [s[|s| - 1]])
  }

  lemma {:induction false} RemoveCommasAppend(a: string, b: string)
    decreases |b|
    ensures RemoveCommas(a + b) == RemoveCommas(a) + RemoveCommas(b)
  {
    if b != [] {
      RemoveCommasAppend(a, b[..|b| - 1]);
      assert (a + b)[..|a + b| - 1] == a + b[..|b| - 1];
      assert (a + b)[|a + b| - 1] == b[|b| - 1];
      assert RemoveCommas(a + b) == RemoveCommas(a + b[..|b| - 1]) + RemoveCommas([b[|b| - 1]]);
      assert RemoveCommas(b) == RemoveCommas(b[..|b| - 1]) + RemoveCommas([b[|b| - 1]]);
    } else {
      assert a + b == a;
    }
  }

  lemma {:induction false} RemoveCommasOfDigits(s: string)
    requires AllDigits(s)
    decreases |s|
    ensures RemoveCommas(s) == s
  {
    if s != [] {
      RemoveCommasOfDigits(s[..|s| - 1]);
    }
  }

  /** Splitting off the last three digits of a number of four or more digits. */
  lemma NatToStringSplit3(n: nat)
    requires n >= 1000
    ensures NatToString(n) == NatToString(n / 1000) + Pad3(n % 1000)
  {
    var m := n % 1000;
    ThousandDigits(n);
    var n1, n2 := n / 10, n / 10 / 10;
    assert NatToString(n) == NatToString(n1) + [DigitChar(n % 10)];
    assert NatToString(n1) == NatToString(n2) + [DigitChar(n1 % 10)];
    assert NatToString(n2) == NatToString(n2 / 10) + [DigitChar(n2 % 10)];
    assert Pad3(m) == [DigitChar(n2 % 10)] + [DigitChar(n1 % 10)] + [DigitChar(n % 10)];
  }

  /** The last three decimal digits of n are those of n % 1000. */
  lemma ThousandDigits(n: nat)
    ensures n / 10 / 10 / 10 == n / 1000
    ensures n / 10 / 10 % 10 == n % 1000 / 100
    ensures n / 10 % 10 == n % 1000 / 10 % 10
    ensures n % 10 == n % 1000 % 10
  {
    var q, m := n / 1000, n % 1000;
    assert n == 1000 * q + m;
    assert n / 10 == 100 * q + m / 10;
    assert n / 10 / 10 == 10 * q + m / 100;
  }

  /** Thousands grouping only inserts separators: without its commas the
      grouped rendering is the plain decimal rendering. */
  lemma {:induction false} GroupThousandsKeepsDigits(n: nat)
    decreases n
    ensures RemoveCommas(GroupThousands(n)) == NatToString(n)
  {
    if n < 1000 {
      RemoveCommasOfDigits(NatToString(n));
    } else {
      GroupThousandsKeepsDigits(n / 1000);
      RemoveCommasAppend(GroupThousands(n / 1000) + ",", Pad3(n % 1000));
      RemoveCommasAppend(GroupThousands(n / 1000), ",");
      RemoveCommasOfDigits(Pad3(n % 1000));
      assert RemoveCommas(",") == [];
      NatToStringSplit3(n);
    }
  }
}
