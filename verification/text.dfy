/** The JavaScript string primitives the core relies on, on `string` = `seq<char>`:
    `endsWith`, `split` on a one-character separator, `join`, `trim`, the
    global `parseInt` with no radix, `Number.prototype.toString` for
    integers, and the `$` patterns of a replacement string in `replace`.
    Each is given with the property that makes it trustworthy (a round
    trip or a characterisation), not just its definition.
 */
module Text {
  import opened Wrappers

  /** `s.endsWith(suffix)` */
  predicate EndsWith(s: string, suffix: string)
  {
    |suffix| <= |s| && s[|s| - |suffix|..] == suffix
  }

  // ---------------------------------------------------------------------------
  // split / join

  /** `parts.join(sep)`; the empty list joins to the empty string. */
  function Join(parts: seq<string>, sep: string): string
  {
    if |parts| == 0 then ""
    else if |parts| == 1 then parts[0]
    else parts[0] + sep + Join(parts[1..], sep)
  }

  /** `s.split(sep)` for a one-character separator: the maximal runs between
      separators, so `""` gives `[""]` and `"1..2"` gives `["1", "", "2"]`. */
  function Split(s: string, sep: char): (r: seq<string>)
    ensures |r| >= 1
    ensures forall i :: 0 <= i < |r| ==> sep !in r[i]
  {
    if |s| == 0 then [""]
    else
      var rest := Split(s[1..], sep);
      if s[0] == sep then [""] + rest
      else [[s[0]] + rest[0]] + rest[1..]
  }

  /** Joining the pieces back with the separator gives the original string. */
  lemma {:induction false} JoinSplit(s: string, sep: char)
    ensures Join(Split(s, sep), [sep]) == s
  {
    if |s| > 0 {
      var rest := Split(s[1..], sep);
      JoinSplit(s[1..], sep);
      if s[0] == sep {
        assert Split(s, sep) == [""] + rest;
        assert ([""] + rest)[1..] == rest;
      } else {
        var r := Split(s, sep);
        assert r == [[s[0]] + rest[0]] + rest[1..];
        if |rest| == 1 {
          assert Join(r, [sep]) == [s[0]] + rest[0];
        } else {
          assert r[1..] == rest[1..];
          assert Join(rest, [sep]) == rest[0] + [sep] + Join(rest[1..], [sep]);
        }
      }
    }
  }

  /** Splitting a join of separator-free pieces gives the pieces back. */
  lemma {:induction false} SplitJoin(parts: seq<string>, sep: char)
    requires |parts| >= 1
    requires forall i :: 0 <= i < |parts| ==> sep !in parts[i]
    ensures Split(Join(parts, [sep]), sep) == parts
  {
    if |parts| == 1 {
      SplitFree(parts[0], sep);
    } else {
      SplitJoin(parts[1..], sep);
      SplitPrefix(parts[0], [sep] + Join(parts[1..], [sep]), sep);
      assert parts[0] + [sep] + Join(parts[1..], [sep]) == parts[0] + ([sep] + Join(parts[1..], [sep]));
      assert ([sep] + Join(parts[1..], [sep]))[1..] == Join(parts[1..], [sep]);
      assert [parts[0]] + parts[1..] == parts;
    }
  }

  lemma {:induction false} JoinSnoc(parts: seq<string>, sep: string, t: string)
    requires |parts| >= 1
    ensures Join(parts + [t], sep) == Join(parts, sep) + sep + t
  {
    if |parts| > 1 {
      assert (parts + [t])[1..] == parts[1..] + [t];
      JoinSnoc(parts[1..], sep, t);
    }
  }

  /** Appending a separator and a separator-free piece adds one piece. */
  lemma SplitSnoc(s: string, sep: char, t: string)
    requires sep !in t
    ensures Split(s + [sep] + t, sep) == Split(s, sep) + [t]
  {
    var q := Split(s, sep) + [t];
    JoinSplit(s, sep);
    JoinSnoc(Split(s, sep), [sep], t);
    SplitJoin(q, sep);
  }

  /** A separator-free string splits into itself. */
  lemma {:induction false} SplitFree(s: string, sep: char)
    requires sep !in s
    ensures Split(s, sep) == [s]
  {
    if |s| > 0 {
      SplitFree(s[1..], sep);
      assert [s[0]] + s[1..] == s;
    }
  }

  /** A separator-free prefix glues onto the first piece of what follows it,
      when what follows starts with a separator. */
  lemma {:induction false} SplitPrefix(p: string, t: string, sep: char)
    requires sep !in p
    requires |t| > 0 && t[0] == sep
    ensures Split(p + t, sep) == [p] + Split(t[1..], sep)
  {
    if |p| == 0 {
      assert p + t == t;
    } else {
      SplitPrefix(p[1..], t, sep);
      assert (p + t)[1..] == p[1..] + t;
      assert [p[0]] + p[1..] == p;
    }
  }

  // ---------------------------------------------------------------------------
  // trim

  /** The code points ECMAScript's `trim` and `parseInt` skip: the WhiteSpace
      characters (tab, vertical tab, form feed, space, no-break space, byte
      order mark and every space separator) and the LineTerminators
      (line feed, carriage return, line and paragraph separator). */
  predicate IsJsSpace(c: char)
  {
    var n := c as int;
    n == 0x09 || n == 0x0A || n == 0x0B || n == 0x0C || n == 0x0D || n == 0x20
    || n == 0xA0 || n == 0x1680 || (0x2000 <= n <= 0x200A) || n == 0x2028
    || n == 0x2029 || n == 0x202F || n == 0x205F || n == 0x3000 || n == 0xFEFF
  }

  /** `s.trimStart()` */
  function TrimStart(s: string): (r: string)
    ensures |r| <= |s| && r == s[|s| - |r|..]
    ensures forall i :: 0 <= i < |s| - |r| ==> IsJsSpace(s[i])
    ensures |r| > 0 ==> !IsJsSpace(r[0])
  {
    if |s| > 0 && IsJsSpace(s[0]) then TrimStart(s[1..]) else s
  }

  /** `s.trimEnd()` */
  function TrimEnd(s: string): (r: string)
    ensures |r| <= |s| && r == s[..|r|]
    ensures forall i :: |r| <= i < |s| ==> IsJsSpace(s[i])
    ensures |r| > 0 ==> !IsJsSpace(r[|r| - 1])
  {
    if |s| > 0 && IsJsSpace(s[|s| - 1]) then TrimEnd(s[..|s| - 1]) else s
  }

  /** `s.trim()` */
  function Trim(s: string): string
  {
    TrimEnd(TrimStart(s))
  }

  /** The trimmed string is empty exactly when every character is a space:
      this is the JavaScript truthiness of `s.trim()`. */
  lemma TrimEmptyIff(s: string)
    ensures Trim(s) == "" <==> forall i :: 0 <= i < |s| ==> IsJsSpace(s[i])
  {
    var t := TrimStart(s);
    if Trim(s) == "" {
      assert |t| == 0;
    } else {
      assert !IsJsSpace(Trim(s)[0]);
      assert Trim(s)[0] == t[0] == s[|s| - |t|];
    }
  }

  // ---------------------------------------------------------------------------
  // parseInt(s) with the radix left undefined

  /** Value of one digit in the given radix (10 or 16), if it is one. */
  function DigitValue(c: char, radix: nat): Option<nat>
  {
    if '0' <= c <= '9' && (c as int) - ('0' as int) < radix then Some((c as int) - ('0' as int))
    else if radix == 16 && 'a' <= c <= 'f' then Some((c as int) - ('a' as int) + 10)
    else if radix == 16 && 'A' <= c <= 'F' then Some((c as int) - ('A' as int) + 10)
    else None
  }

  /** The longest prefix of `s` made of digits of the radix. */
  function LeadingDigits(s: string, radix: nat): (r: string)
    ensures |r| <= |s| && r == s[..|r|]
    ensures forall i :: 0 <= i < |r| ==> DigitValue(r[i], radix).Some?
    ensures |r| < |s| ==> DigitValue(s[|r|], radix).None?
  {
    if |s| > 0 && DigitValue(s[0], radix).Some? then [s[0]] + LeadingDigits(s[1..], radix) else ""
  }

  /** Positional value of a digit string, most significant digit first. */
  function DigitsValue(ds: string, radix: nat): nat
  {
    if |ds| == 0 then 0
    else DigitsValue(ds[..|ds| - 1], radix) * radix + DigitValue(ds[|ds| - 1], radix).GetOr(0)
  }

  /** ECMAScript `parseInt(s)`: skip leading white space, take one optional
      sign, switch to radix 16 after a `0x`/`0X` prefix, then read the longest
      run of digits; no digits at all is NaN, here None. Trailing garbage is
      ignored, so `"4-pre"` reads as 4. */
  function ParseInt(s: string): (r: Option<int>)
  {
    var t := TrimStart(s);
    if |t| > 0 && t[0] == '-' then
      match ParseUnsigned(t[1..])
      case Some(v) => Some(0 - v as int)
      case None => None
    else if |t| > 0 && t[0] == '+' then ParseUnsigned(t[1..])
    else ParseUnsigned(t)
  }

  /** The digits after the sign: hexadecimal after `0x`/`0X`, else decimal. */
  function ParseUnsigned(u: string): Option<nat>
  {
    var hex := |u| >= 2 && u[0] == '0' && (u[1] == 'x' || u[1] == 'X');
    var radix := if hex then 16 else 10;
    var ds := LeadingDigits(if hex then u[2..] else u, radix);
    if |ds| == 0 then None else Some(DigitsValue(ds, radix))
  }

  /** `parseInt(s) || 0`: NaN (and zero) become 0. */
  function IntOrZero(s: string): int
  {
    ParseInt(s).GetOr(0)
  }

  /** A component that does not start with a digit, a sign or white space
      reads as 0 and never fails. */
  lemma NonNumericIsZero(s: string)
    requires |s| > 0 && !IsJsSpace(s[0]) && s[0] != '-' && s[0] != '+'
    requires DigitValue(s[0], 10).None?
    ensures IntOrZero(s) == 0
  {
    assert TrimStart(s) == s;
  }

  // ---------------------------------------------------------------------------
  // Number.prototype.toString for integers

  function DigitChar(d: nat): char
    requires d < 10
  {
    ('0' as int + d) as char
  }

  /** Decimal digits of a natural number, without leading zeros. */
  function Digits(n: nat): (r: string)
    ensures |r| >= 1
    ensures forall i :: 0 <= i < |r| ==> '0' <= r[i] <= '9'
    decreases n
  {
    if n < 10 then [DigitChar(n)] else Digits(n / 10) + [DigitChar(n % 10)]
  }

  /** `n.toString()` for an integer `n`. */
  function DecimalOf(n: int): string
  {
    if n < 0 then "-" + Digits(-n) else Digits(n)
  }

  lemma {:induction false} DigitsValueOf(n: nat)
    ensures DigitsValue(Digits(n), 10) == n
    decreases n
  {
    if n >= 10 {
      DigitsValueOf(n / 10);
      var ds := Digits(n);
      assert ds[..|ds| - 1] == Digits(n / 10);
    }
  }

  lemma {:induction false} AllDigitsLead(ds: string)
    requires forall i :: 0 <= i < |ds| ==> '0' <= ds[i] <= '9'
    ensures LeadingDigits(ds, 10) == ds
  {
    if |ds| > 0 {
      assert DigitValue(ds[0], 10).Some?;
      AllDigitsLead(ds[1..]);
      assert [ds[0]] + ds[1..] == ds;
    }
  }

  /** `parseInt` reads back what `toString` wrote: the two are inverse on integers. */
  lemma ParseDecimal(n: int)
    ensures ParseInt(DecimalOf(n)) == Some(n)
  {
    var m: nat := if n < 0 then -n else n;
    var ds := Digits(m);
    ParseDigits(m);
    var s := DecimalOf(n);
    assert s[0] == '-' || '0' <= s[0] <= '9';
    NoSpaceStart(s);
    if n < 0 {
      assert s[1..] == ds;
    } else {
      assert s == ds;
    }
  }

  lemma ParseDigits(m: nat)
    ensures ParseUnsigned(Digits(m)) == Some(m)
  {
    var ds := Digits(m);
    DigitsValueOf(m);
    AllDigitsLead(ds);
    assert !(|ds| >= 2 && ds[0] == '0' && (ds[1] == 'x' || ds[1] == 'X'));
  }

  lemma NoSpaceStart(s: string)
    requires |s| > 0 && (s[0] == '-' || '0' <= s[0] <= '9')
    ensures TrimStart(s) == s
  {
    assert !IsJsSpace(s[0]);
  }

  // ---------------------------------------------------------------------------
  // The replacement string of String.prototype.replace

  /** The characters that give `$` a meaning in a replacement string when the
      pattern has no capture groups. */
  predicate IsPatternChar(c: char)
  {
    c == '$' || c == '&' || c == '`' || c == '\''
  }

  /** The GetSubstitution operation of ECMA-262 for a pattern without capture
      groups: `$$` stands for `$`, `$&` for the matched text, `` $` `` for the
      text before the match and `$'` for the text after it. Every other
      character, a `$` before anything else included, stands for itself. */
  function Substitute(replacement: string, matched: string, before: string, after: string): string
    decreases |replacement|
  {
    if |replacement| == 0 then ""
    else if replacement[0] == '$' && |replacement| >= 2 && IsPatternChar(replacement[1]) then
      var c := replacement[1];
      (if c == '$' then "$" else if c == '&' then matched else if c == '`' then before else after)
      + Substitute(replacement[2..], matched, before, after)
    else [replacement[0]] + Substitute(replacement[1..], matched, before, after)
  }

  /** A replacement without `$` is inserted as it is. */
  lemma {:induction false} SubstituteLiteral(replacement: string, matched: string, before: string, after: string)
    requires '$' !in replacement
    ensures Substitute(replacement, matched, before, after) == replacement
  {
    if |replacement| > 0 {
      assert replacement[0] in replacement;
      assert forall c :: c in replacement[1..] ==> c in replacement;
      SubstituteLiteral(replacement[1..], matched, before, after);
    }
  }

  /** Text that cannot complete a pattern begun before it is substituted on
      its own: the two parts of a replacement are expanded separately. */
  lemma {:induction false} SubstituteAppend(a: string, b: string, matched: string, before: string, after: string)
    requires |b| > 0 && !IsPatternChar(b[0])
    ensures Substitute(a + b, matched, before, after)
            == Substitute(a, matched, before, after) + Substitute(b, matched, before, after)
    decreases |a|
  {
    if |a| == 0 {
      assert a + b == b;
    } else if a[0] == '$' && |a| >= 2 && IsPatternChar(a[1]) {
      assert (a + b)[2..] == a[2..] + b;
      SubstituteAppend(a[2..], b, matched, before, after);
    } else {
      assert (a + b)[1..] == a[1..] + b;
      if |a| >= 2 {
        SubstituteAppend(a[1..], b, matched, before, after);
      } else {
        assert a[1..] + b == b;
        assert Substitute(a[1..], matched, before, after) == "";
      }
    }
  }
}
