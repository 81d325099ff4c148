/**
 * The pieces of JavaScript's string semantics that the two Express servers rely on:
 * the white-space class `\s`, `String.prototype.replace` with a string pattern and with
 * `/\s+/g`, `parseInt` without a radix, and the decimal text of an integral number.
 */
module JsText {

  import opened Wrappers

  /** The characters that `\s` matches (WhiteSpace and LineTerminator of ECMAScript). */
  predicate IsSpace(c: char) {
    || c == '\t' || c == '\n' || c == '\U{000B}' || c == '\U{000C}' || c == '\r' || c == ' '
    || c == '\U{00A0}' || c == '\U{1680}' || ('\U{2000}' <= c <= '\U{200A}')
    || c == '\U{2028}' || c == '\U{2029}' || c == '\U{202F}' || c == '\U{205F}' || c == '\U{3000}'
    || c == '\U{FEFF}'
  }

  predicate NoSpace(s: string) {
    forall i :: 0 <= i < |s| ==> !IsSpace(s[i])
  }

  predicate AllSpace(s: string) {
    forall i :: 0 <= i < |s| ==> IsSpace(s[i])
  }

  /** `s` without its leading run of white space. */
  function DropSpaces(s: string): (r: string)
    ensures |r| <= |s| && r == s[|s| - |r|..]
    ensures r == [] || !IsSpace(r[0])
    ensures AllSpace(s[..|s| - |r|])
  {
    if s != [] && IsSpace(s[0]) then
      var r := DropSpaces(s[1..]);
      assert s[..|s| - |r|] == [s[0]] + s[1..][..|s| - 1 - |r|];
      r
    else s
  }

  /**
   * `s.replace(/\s+/g, '_')`: every maximal run of white space becomes one underscore.
   * The result never holds white space, and is never longer than `s`.
   */
  function CollapseSpaceRuns(s: string): (r: string)
    ensures NoSpace(r)
    ensures |r| <= |s|
    decreases |s|
  {
    if s == [] then []
    else if IsSpace(s[0]) then
      var t := CollapseSpaceRuns(DropSpaces(s[1..]));
      NoSpaceCons('_', t);
      "_" + t
    else
      var t := CollapseSpaceRuns(s[1..]);
      NoSpaceCons(s[0], t);
      [s[0]] + t
  }

  lemma NoSpaceCons(c: char, t: string)
    requires !IsSpace(c) && NoSpace(t)
    ensures NoSpace([c] + t)
  {
    assert forall i :: 0 < i <= |t| ==> ([c] + t)[i] == t[i - 1];
  }

  /** A non-space character splits the replacement: each side is rewritten on its own. */
  lemma {:induction false} CollapseAroundNonSpace(a: string, c: char, b: string)
    requires !IsSpace(c)
    ensures CollapseSpaceRuns(a + [c] + b) == CollapseSpaceRuns(a) + [c] + CollapseSpaceRuns(b)
    decreases |a|
  {
    if a == [] {
      var x := a + [c] + b;
      assert x == [c] + b && x[1..] == b;
    } else {
      var rest := CollapseStep(a, [c] + b);
      var h := CollapseSpaceRuns(a)[..1];
      CollapseAroundNonSpace(rest, c, b);
      calc {
        CollapseSpaceRuns(a + [c] + b);
        { ConcatAssoc3(a, [c], b); }
        CollapseSpaceRuns(a + ([c] + b));
        h + CollapseSpaceRuns(rest + ([c] + b));
        { ConcatAssoc3(rest, [c], b); }
        h + CollapseSpaceRuns(rest + [c] + b);
        h + (CollapseSpaceRuns(rest) + [c] + CollapseSpaceRuns(b));
        { ConcatAssoc(h, CollapseSpaceRuns(rest), [c], CollapseSpaceRuns(b)); }
        (h + CollapseSpaceRuns(rest)) + [c] + CollapseSpaceRuns(b);
        CollapseSpaceRuns(a) + [c] + CollapseSpaceRuns(b);
      }
    }
  }

  /**
   * One step of the replacement on `a + t`, where `t` starts with a non-space: the first
   * character (or run) of `a` is rewritten and `rest` is what of `a` remains.
   */
  lemma CollapseStep(a: string, t: string) returns (rest: string)
    requires a != [] && t != [] && !IsSpace(t[0])
    ensures |rest| < |a|
    ensures CollapseSpaceRuns(a) == CollapseSpaceRuns(a)[..1] + CollapseSpaceRuns(rest)
    ensures CollapseSpaceRuns(a + t) == CollapseSpaceRuns(a)[..1] + CollapseSpaceRuns(rest + t)
  {
    var x := a + t;
    if IsSpace(a[0]) {
      rest := DropSpaces(a[1..]);
      assert x[1..] == a[1..] + t;
      DropSpacesAppend(a[1..], t);
    } else {
      rest := a[1..];
      assert x[1..] == rest + t;
    }
  }

  lemma ConcatAssoc(h: string, p: string, m: string, q: string)
    ensures h + (p + m + q) == (h + p) + m + q
  {
  }

  lemma ConcatAssoc3(x: string, y: string, z: string)
    ensures x + y + z == x + (y + z)
  {
  }

  lemma {:induction false} DropSpacesAppend(a: string, b: string)
    requires b != [] && !IsSpace(b[0])
    ensures DropSpaces(a + b) == DropSpaces(a) + b
    decreases |a|
  {
    if a == [] {
      assert a + b == b;
    } else if IsSpace(a[0]) {
      assert (a + b)[1..] == a[1..] + b;
      DropSpacesAppend(a[1..], b);
    }
  }

  /** A non-empty run made only of white space becomes exactly one underscore. */
  lemma CollapseSpaceRun(s: string)
    requires s != [] && AllSpace(s)
    ensures CollapseSpaceRuns(s) == "_"
  {
    assert AllSpace(s[1..]);
    AllSpaceDropsAll(s[1..]);
  }

  lemma {:induction false} AllSpaceDropsAll(s: string)
    requires AllSpace(s)
    ensures DropSpaces(s) == []
  {
    if s != [] {
      assert AllSpace(s[1..]);
      AllSpaceDropsAll(s[1..]);
    }
  }

  /** Text without white space is left as it is; so the replacement is idempotent. */
  lemma {:induction false} CollapseKeepsSpaceless(s: string)
    requires NoSpace(s)
    ensures CollapseSpaceRuns(s) == s
  {
    if s != [] {
      assert NoSpace(s[1..]);
      CollapseKeepsSpaceless(s[1..]);
    }
  }

  lemma CollapseIdempotent(s: string)
    ensures CollapseSpaceRuns(CollapseSpaceRuns(s)) == CollapseSpaceRuns(s)
  {
    CollapseKeepsSpaceless(CollapseSpaceRuns(s));
  }

  /** `pat` stands in `s` at index `i`. */
  predicate OccursAt(s: string, pat: string, i: nat) {
    i + |pat| <= |s| && s[i..i + |pat|] == pat
  }

  /**
   * `s.replace(pat, '')` with a string pattern: the first occurrence of `pat` is removed,
   * and `s` is returned unchanged when `pat` does not occur.
   */
  function RemoveFirst(s: string, pat: string): (r: string)
    ensures (forall i: nat :: i <= |s| ==> !OccursAt(s, pat, i)) ==> r == s
    ensures |r| == |s| || |r| == |s| - |pat|
  {
    if |s| < |pat| then s
    else if s[..|pat|] == pat then assert OccursAt(s, pat, 0); s[|pat|..]
    else
      assert forall i: nat :: i + 1 <= |s| && OccursAt(s[1..], pat, i) ==> OccursAt(s, pat, i + 1) by {
        forall i: nat | i + 1 <= |s| && OccursAt(s[1..], pat, i) ensures OccursAt(s, pat, i + 1) {
          assert s[1..][i..i + |pat|] == s[i + 1..i + 1 + |pat|];
        }
      }
      [s[0]] + RemoveFirst(s[1..], pat)
  }

  /** When the first occurrence of `pat` is at `i`, exactly those characters are removed. */
  lemma {:induction false} RemoveFirstAt(s: string, pat: string, i: nat)
    requires OccursAt(s, pat, i)
    requires forall j: nat :: j < i ==> !OccursAt(s, pat, j)
    ensures RemoveFirst(s, pat) == s[..i] + s[i + |pat|..]
  {
    if i == 0 {
      assert s[..|pat|] == pat;
    } else {
      RemoveFirstPastHead(s, pat);
      OccursShift(s, pat, i - 1);
      forall j: nat | j < i - 1 ensures !OccursAt(s[1..], pat, j) {
        OccursShift(s, pat, j);
      }
      RemoveFirstAt(s[1..], pat, i - 1);
      ConsSlices(s, i, |pat|);
    }
  }

  /** Without an occurrence at the start, the first character is kept and the search goes on. */
  lemma RemoveFirstPastHead(s: string, pat: string)
    requires |pat| <= |s| && !OccursAt(s, pat, 0)
    ensures RemoveFirst(s, pat) == [s[0]] + RemoveFirst(s[1..], pat)
  {
    assert s[..|pat|] != pat;
  }

  lemma ConsSlices(s: string, i: nat, n: nat)
    requires 0 < i && i + n <= |s|
    ensures [s[0]] + s[1..][..i - 1] + s[1..][i - 1 + n..] == s[..i] + s[i + n..]
  {
    assert [s[0]] + s[1..][..i - 1] == s[..i];
    assert s[1..][i - 1 + n..] == s[i + n..];
  }

  /** An occurrence in the tail is an occurrence one place further on in the whole. */
  lemma OccursShift(s: string, pat: string, j: nat)
    requires s != []
    ensures OccursAt(s[1..], pat, j) <==> OccursAt(s, pat, j + 1)
  {
    if j + 1 + |pat| <= |s| {
      assert s[1..][j..j + |pat|] == s[j + 1..j + 1 + |pat|];
    }
  }

  // ---------------------------------------------------------------------------
  // Numbers and their text

  function DigitChar(d: nat): (c: char)
    requires d < 10
    ensures '0' <= c <= '9'
  {
    ['0', '1', '2', '3', '4', '5', '6', '7', '8', '9'][d]
  }

  predicate IsDecimalDigit(c: char) { '0' <= c <= '9' }

  predicate IsHexDigit(c: char) {
    IsDecimalDigit(c) || 'a' <= c <= 'f' || 'A' <= c <= 'F'
  }

  /** The two radixes `parseInt` chooses by itself: decimal, or hexadecimal after `0x`. */
  datatype Radix = Decimal | Hex

  predicate IsDigitOf(c: char, radix: Radix) {
    if radix == Hex then IsHexDigit(c) else IsDecimalDigit(c)
  }

  function DigitValue(c: char): (v: nat)
    requires IsHexDigit(c)
    ensures v < 16
    ensures IsDecimalDigit(c) ==> v < 10
  {
    if IsDecimalDigit(c) then c as nat - '0' as nat
    else if 'a' <= c <= 'f' then c as nat - 'a' as nat + 10
    else c as nat - 'A' as nat + 10
  }

  lemma DigitCharValue(d: nat)
    requires d < 10
    ensures IsDecimalDigit(DigitChar(d)) && DigitValue(DigitChar(d)) == d
  {
  }

  /** The decimal text of a natural number, without leading zeros. */
  function NatText(n: nat): (r: string)
    ensures |r| >= 1
    ensures forall i :: 0 <= i < |r| ==> IsDecimalDigit(r[i])
    ensures r[0] == '0' ==> n == 0 && |r| == 1
  {
    if n < 10 then [DigitChar(n)] else NatText(n / 10) + [DigitChar(n % 10)]
  }

  /** The text of an integral JavaScript number: `String(n)` for a safe integer `n`. */
  function IntText(n: int): (r: string)
    ensures |r| >= 1 && NoSpace(r)
  {
    if n < 0 then "-" + NatText(-n) else NatText(n)
  }

  /** The value of a string of digits in the given radix, most significant digit first. */
  function DigitsValue(ds: string, radix: Radix): nat
    requires forall i :: 0 <= i < |ds| ==> IsDigitOf(ds[i], radix)
  {
    if ds == [] then 0
    else
      assert IsDigitOf(ds[|ds| - 1], radix);
      var high := DigitsValue(ds[..|ds| - 1], radix);
      (if radix == Hex then 16 * high else 10 * high) + DigitValue(ds[|ds| - 1])
  }

  /** The longest prefix of `s` made of digits of `radix`. */
  function DigitPrefix(s: string, radix: Radix): (r: string)
    ensures |r| <= |s| && r == s[..|r|]
    ensures forall i :: 0 <= i < |r| ==> IsDigitOf(r[i], radix)
    ensures |r| < |s| ==> !IsDigitOf(s[|r|], radix)
  {
    if s != [] && IsDigitOf(s[0], radix) then [s[0]] + DigitPrefix(s[1..], radix) else []
  }

  /** The result of `parseInt`: a number or `NaN`. Only integers are modelled. */
  datatype Parsed = NaN | Num(value: int) {
    /** JavaScript truthiness of the result: `NaN`, `0` and `-0` are falsy. */
    predicate Truthy() { Num? && value != 0 }
  }

  /** The text starts with `0x` or `0X`, which makes `parseInt` read hexadecimal digits. */
  predicate HexPrefixed(u: string) {
    |u| >= 2 && u[0] == '0' && (u[1] == 'x' || u[1] == 'X')
  }

  /**
   * The unsigned part of `parseInt`: a `0x`/`0X` prefix selects radix 16, and the longest
   * run of digits that follows is read; no digit at all gives `None`.
   */
  function ReadMagnitude(u: string): (r: Option<nat>)
    ensures r.Some? ==> exists i :: 0 <= i < |u| && IsHexDigit(u[i])
    ensures !HexPrefixed(u) ==> (r.Some? <==> u != [] && IsDecimalDigit(u[0]))
    ensures !HexPrefixed(u) && r.Some? ==> r.value == DigitsValue(DigitPrefix(u, Decimal), Decimal)
    ensures HexPrefixed(u) ==> (r.Some? <==> |u| > 2 && IsHexDigit(u[2]))
    ensures HexPrefixed(u) && r.Some? ==> r.value == DigitsValue(DigitPrefix(u[2..], Hex), Hex)
  {
    var hex := HexPrefixed(u);
    var radix := if hex then Hex else Decimal;
    var v := if hex then u[2..] else u;
    var z := DigitPrefix(v, radix);
    if z == [] then None
    else
      assert IsHexDigit(z[0]) && z[0] == u[|u| - |v|];
      Some(DigitsValue(z, radix))
  }

  /**
   * `parseInt(s)` without a radix: leading white space is skipped, one `-` or `+` is read,
   * then the magnitude; no digit at all gives `NaN`.
   */
  function ParseInt(s: string): Parsed {
    ParseSigned(DropSpaces(s))
  }

  /** `parseInt` once the leading white space is gone. */
  function ParseSigned(t: string): Parsed {
    var signed := |t| > 0 && (t[0] == '-' || t[0] == '+');
    match ReadMagnitude(if signed then t[1..] else t)
    case None => NaN
    case Some(m) => var v: int := m; Num(if signed && t[0] == '-' then -v else v)
  }

  lemma {:induction false} NatTextValue(n: nat)
    ensures DigitsValue(NatText(n), Decimal) == n
  {
    var r := NatText(n);
    if n < 10 {
      DigitCharValue(n);
    } else {
      NatTextValue(n / 10);
      DigitCharValue(n % 10);
      assert r[..|r| - 1] == NatText(n / 10);
    }
  }

  lemma {:induction false} DigitPrefixOfDigits(s: string, radix: Radix)
    requires forall i :: 0 <= i < |s| ==> IsDigitOf(s[i], radix)
    ensures DigitPrefix(s, radix) == s
  {
    if s != [] {
      DigitPrefixOfDigits(s[1..], radix);
    }
  }

  /** `parseInt` reads back the decimal text of every integer. */
  lemma ParseIntText(n: int)
    ensures ParseInt(IntText(n)) == Num(n)
  {
    if n < 0 {
      var m: nat := -n;
      NegativeIntText(n, m);
      ParseNegativeText(IntText(n), m);
    } else {
      assert IntText(n) == NatText(n);
      ParseUnsignedText(n);
    }
  }

  lemma ParseNegativeText(t: string, m: nat)
    requires t == "-" + NatText(m)
    ensures ParseInt(t) == Num(-(m as int))
  {
    assert t[0] == '-' && t[1..] == NatText(m);
    ReadMagnitudeText(t[1..], m);
    ParseAfterMinus(t, m);
  }

  /** A minus sign negates whatever magnitude follows it. */
  lemma ParseAfterMinus(t: string, m: nat)
    requires t != [] && t[0] == '-' && ReadMagnitude(t[1..]) == Some(m)
    ensures ParseInt(t) == Num(-(m as int))
  {
    DropNoSpaces(t);
  }

  /** Text that does not start with white space is read from its first character. */
  lemma DropNoSpaces(s: string)
    requires s != [] && !IsSpace(s[0])
    ensures DropSpaces(s) == s
  {
  }

  lemma ParseUnsignedText(m: nat)
    ensures ParseInt(NatText(m)) == Num(m)
  {
    var s := NatText(m);
    assert !IsSpace(s[0]) && s[0] != '-' && s[0] != '+';
    DropNoSpaces(s);
    ReadMagnitudeText(s, m);
  }

  lemma ReadMagnitudeText(u: string, m: nat)
    requires u == NatText(m)
    ensures ReadMagnitude(u) == Some(m)
  {
    assert u[0] == '0' ==> |u| == 1;
    NatTextValue(m);
    DigitPrefixOfDigits(u, Decimal);
  }

  /**
   * `parseInt` skips leading white space, reads an integer's text and stops at the first
   * character that cannot continue it: `parseInt(' 12px')` is 12 and `parseInt('-3.5')` is -3.
   * After a lone `0`, an `x` would turn the text into a hexadecimal one.
   */
  lemma ParseIntPrefix(w: string, n: int, rest: string)
    requires AllSpace(w)
    requires rest == [] || (!IsDecimalDigit(rest[0]) && (n != 0 || (rest[0] != 'x' && rest[0] != 'X')))
    ensures ParseInt(w + IntText(n) + rest) == Num(n)
  {
    var t := IntText(n) + rest;
    assert w + IntText(n) + rest == w + t;
    SkipSpaces(w, t);
    if n < 0 {
      NegativeTextThen(t, n, rest);
    } else {
      assert IntText(n) == NatText(n);
      ParseUnsignedPrefix(t, n, rest);
    }
  }

  /** Leading white space does not change what `parseInt` reads. */
  lemma SkipSpaces(w: string, t: string)
    requires AllSpace(w) && t != [] && !IsSpace(t[0])
    ensures ParseInt(w + t) == ParseSigned(t)
  {
    DropSpacesAppend(w, t);
    AllSpaceDropsAll(w);
    assert DropSpaces(w) + t == t;
  }

  lemma NegativeTextThen(t: string, n: int, rest: string)
    requires n < 0 && t == IntText(n) + rest
    requires rest == [] || !IsDecimalDigit(rest[0])
    ensures ParseSigned(t) == Num(n)
  {
    var m: nat := -n;
    NegativeIntText(n, m);
    ParseNegativePrefix(t, m, rest);
  }

  /** The text of a negative integer is a minus sign before the text of its magnitude. */
  lemma NegativeIntText(n: int, m: nat)
    requires n < 0 && m == -n
    ensures m > 0 && IntText(n) == "-" + NatText(m)
  {
  }

  lemma ParseNegativePrefix(t: string, m: nat, rest: string)
    requires m > 0 && t == "-" + NatText(m) + rest
    requires rest == [] || !IsDecimalDigit(rest[0])
    ensures ParseSigned(t) == Num(-(m as int))
  {
    assert t[1..] == NatText(m) + rest;
    ReadMagnitudeThen(t[1..], m, rest);
  }

  lemma ParseUnsignedPrefix(t: string, m: nat, rest: string)
    requires t == NatText(m) + rest
    requires rest == [] || (!IsDecimalDigit(rest[0]) && (m != 0 || (rest[0] != 'x' && rest[0] != 'X')))
    ensures ParseSigned(t) == Num(m)
  {
    assert t[0] == NatText(m)[0] && t[0] != '-' && t[0] != '+';
    ReadMagnitudeThen(t, m, rest);
  }

  /** The magnitude read from a number's text is that number, whatever non-digit follows. */
  lemma ReadMagnitudeThen(u: string, m: nat, rest: string)
    requires u == NatText(m) + rest
    requires rest == [] || (!IsDecimalDigit(rest[0]) && (m != 0 || (rest[0] != 'x' && rest[0] != 'X')))
    ensures ReadMagnitude(u) == Some(m)
  {
    var x := NatText(m);
    assert u[0] == x[0];
    assert !HexPrefixed(u) by {
      if u[0] == '0' {
        assert m == 0 && |x| == 1;
        assert |u| >= 2 ==> u[1] == rest[0];
      }
    }
    DigitPrefixStops(x, rest, Decimal);
    NatTextValue(m);
  }

  /** The digit prefix of digits followed by a non-digit is those digits. */
  lemma {:induction false} DigitPrefixStops(s: string, rest: string, radix: Radix)
    requires forall i :: 0 <= i < |s| ==> IsDigitOf(s[i], radix)
    requires rest == [] || !IsDigitOf(rest[0], radix)
    ensures DigitPrefix(s + rest, radix) == s
  {
    if s == [] {
      assert s + rest == rest;
    } else {
      assert (s + rest)[1..] == s[1..] + rest;
      DigitPrefixStops(s[1..], rest, radix);
    }
  }

  /** `s.startsWith(prefix)`. */
  predicate StartsWith(s: string, prefix: string) {
    |prefix| <= |s| && s[..|prefix|] == prefix
  }

  /** Distinct natural numbers have distinct decimal texts. */
  lemma NatTextInjective(a: nat, b: nat)
    requires NatText(a) == NatText(b)
    ensures a == b
  {
    ParseUnsignedText(a);
    ParseUnsignedText(b);
  }

  /**
   * Text built as `p + x + sep + y`, where `x` never holds the separator, determines `x`
   * and `y`: the separator after `p` is the first one.
   */
  lemma SplitAtSeparator(p: string, x: string, y: string, x2: string, y2: string, sep: char)
    requires sep !in x && sep !in x2
    requires p + x + [sep] + y == p + x2 + [sep] + y2
    ensures x == x2 && y == y2
  {
    SeparatorNotEarlier(p, x, y, x2, y2, sep);
    SeparatorNotEarlier(p, x2, y2, x, y, sep);
    var s := p + x + [sep] + y;
    var s2 := p + x2 + [sep] + y2;
    assert x == s[|p|..|p| + |x|] && x2 == s2[|p|..|p| + |x|];
    assert y == s[|p| + |x| + 1..] && y2 == s2[|p| + |x| + 1..];
  }

  lemma SeparatorNotEarlier(p: string, x: string, y: string, x2: string, y2: string, sep: char)
    requires sep !in x2
    requires p + x + [sep] + y == p + x2 + [sep] + y2
    ensures |x2| <= |x|
  {
    var s := p + x + [sep] + y;
    assert s[|p| + |x|] == sep;
    assert forall i :: 0 <= i < |x2| ==> s[|p| + i] == x2[i] && x2[i] in x2;
  }

  /** No decimal text holds `_`. */
  lemma NatTextHasNoUnderscore(n: nat)
    ensures '_' !in NatText(n)
  {
  }
}
