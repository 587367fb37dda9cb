/** String helpers shared by the render job and the manager: the subset of
    Python's string and path operations the two source files rely on. */
module Text {

  /** `sub in s` */
  predicate Contains(s: string, sub: string)
  {
    exists i | 0 <= i <= |s| - |sub| :: OccursAt(s, sub, i)
  }

  predicate OccursAt(s: string, sub: string, i: int)
  {
    0 <= i <= |s| - |sub| && s[i..i + |sub|] == sub
  }

  predicate StartsWith(s: string, pre: string)
  {
    |pre| <= |s| && s[..|pre|] == pre
  }

  predicate EndsWith(s: string, suf: string)
  {
    |suf| <= |s| && s[|s| - |suf|..] == suf
  }

  lemma Affixes(a: string, b: string)
    ensures StartsWith(a + b, a) && EndsWith(a + b, b)
  {
    assert (a + b)[..|a|] == a;
    assert (a + b)[|a|..] == b;
  }

  /** `a + b + c` with its affixes `a` and `c` cut off is `b`. */
  lemma Middle(a: string, b: string, c: string)
    ensures StartsWith(a + b + c, a) && EndsWith(a + b + c, c)
    ensures |a| + |c| <= |a + b + c| && (a + b + c)[|a|..|a + b + c| - |c|] == b
  {
    assert (a + b + c)[..|a|] == a;
    assert (a + b + c)[|a| + |b|..] == c;
    assert (a + b + c)[|a|..|a| + |b|] == b;
  }

  lemma StartsWithExtend(x: string, pre: string, y: string)
    requires StartsWith(x, pre)
    ensures StartsWith(x + y, pre)
  {
    assert (x + y)[..|pre|] == x[..|pre|];
  }

  lemma EndsWithExtend(x: string, y: string, suf: string)
    requires EndsWith(y, suf)
    ensures EndsWith(x + y, suf)
  {
    assert (x + y)[|x + y| - |suf|..] == y[|y| - |suf|..];
  }

  lemma ContainsExtend(x: string, y: string, sub: string)
    requires Contains(x, sub) || Contains(y, sub)
    ensures Contains(x + y, sub)
  {
    if Contains(x, sub) {
      var i :| 0 <= i <= |x| - |sub| && OccursAt(x, sub, i);
      assert (x + y)[i..i + |sub|] == x[i..i + |sub|];
      assert OccursAt(x + y, sub, i);
    } else {
      var i :| 0 <= i <= |y| - |sub| && OccursAt(y, sub, i);
      assert (x + y)[|x| + i..|x| + i + |sub|] == y[i..i + |sub|];
      assert OccursAt(x + y, sub, |x| + i);
    }
  }

  lemma EndsWithContains(s: string, suf: string)
    requires EndsWith(s, suf)
    ensures Contains(s, suf)
  {
    assert OccursAt(s, suf, |s| - |suf|);
  }

  /** The first `c` of `a + [c] + b` when `a` holds none. */
  lemma FirstIndexAfter(a: string, c: char, b: string)
    requires c !in a
    ensures FirstIndex(a + [c] + b, c) == |a|
    ensures (a + [c] + b)[..|a|] == a && (a + [c] + b)[|a| + 1..] == b
  {
    var s := a + [c] + b;
    var k := FirstIndex(s, c);
    assert s[|a|] == c;
    assert forall i :: 0 <= i < |a| ==> s[i] == a[i];
  }

  lemma ContainsAppend(a: string, sub: string, b: string)
    ensures Contains(a + sub + b, sub)
  {
    var s := a + sub + b;
    assert OccursAt(s, sub, |a|);
  }

  /** `sep.join(parts)` */
  function Join(sep: string, parts: seq<string>): (r: string)
    ensures parts == [] ==> r == ""
    ensures |parts| == 1 ==> r == parts[0]
  {
    if |parts| == 0 then ""
    else if |parts| == 1 then parts[0]
    else parts[0] + sep + Join(sep, parts[1..])
  }

  // ---------------------------------------------------------------------
  // Splitting

  /** `s.split(c)` for a one-character separator: always at least one piece. */
  function SplitOn(s: string, c: char): (r: seq<string>)
    ensures |r| >= 1
  {
    if |s| == 0 then [""]
    else
      var rest := SplitOn(s[1..], c);
      if s[0] == c then [""] + rest
      else [[s[0]] + rest[0]] + rest[1..]
  }

  /** Number of occurrences of `c` in `s`. */
  function Count(s: string, c: char): nat
  {
    if |s| == 0 then 0 else (if s[0] == c then 1 else 0) + Count(s[1..], c)
  }

  lemma {:induction false} CountAppend(a: string, b: string, c: char)
    ensures Count(a + b, c) == Count(a, c) + Count(b, c)
  {
    if |a| > 0 {
      assert (a + b)[1..] == a[1..] + b;
      CountAppend(a[1..], b, c);
    } else {
      assert a + b == b;
    }
  }

  /** A split yields one piece more than there are separators. */
  lemma {:induction false} SplitOnLength(s: string, c: char)
    ensures |SplitOn(s, c)| == Count(s, c) + 1
  {
    if |s| > 0 {
      SplitOnLength(s[1..], c);
    }
  }

  /** Pieces of a split never contain the separator. */
  lemma {:induction false} SplitOnPieces(s: string, c: char)
    ensures forall k :: 0 <= k < |SplitOn(s, c)| ==> c !in SplitOn(s, c)[k]
  {
    if |s| > 0 {
      SplitOnPieces(s[1..], c);
    }
  }

  /** Joining the pieces of a split with the separator gives back the text. */
  lemma {:induction false} SplitJoin(s: string, c: char)
    ensures Join([c], SplitOn(s, c)) == s
  {
    if |s| > 0 {
      SplitJoin(s[1..], c);
      var rest := SplitOn(s[1..], c);
      if s[0] != c {
        if |rest| == 1 {
          assert SplitOn(s, c) == [[s[0]] + rest[0]];
        } else {
          assert SplitOn(s, c)[1..] == rest[1..];
          assert s == [s[0]] + s[1..];
        }
      }
    }
  }

  /** The lines a Python file iterator yields: each keeps its `\n`, a
      trailing newline does not start an extra empty line, and an empty file
      yields nothing. */
  function FileLines(text: string): (r: seq<string>)
    ensures text == "" <==> r == []
    decreases |text|
  {
    if |text| == 0 then []
    else
      var k := FirstIndex(text, '\n');
      if k < |text| then [text[..k + 1]] + FileLines(text[k + 1..])
      else [text]
  }

  /** Index of the first `c` in `s`, or `|s|` when there is none. */
  function FirstIndex(s: string, c: char): (k: nat)
    ensures k <= |s|
    ensures forall i :: 0 <= i < k ==> s[i] != c
    ensures k < |s| ==> s[k] == c
  {
    if |s| == 0 then 0 else if s[0] == c then 0 else 1 + FirstIndex(s[1..], c)
  }

  /** Index of the last `c` in `s`, or -1 when there is none. */
  function LastIndex(s: string, c: char): (k: int)
    ensures -1 <= k < |s|
    ensures k >= 0 ==> s[k] == c
    ensures forall i :: k < i < |s| ==> s[i] != c
  {
    if |s| == 0 then -1
    else if s[|s| - 1] == c then |s| - 1
    else LastIndex(s[..|s| - 1], c)
  }

  // ---------------------------------------------------------------------
  // Whitespace

  predicate IsSpace(c: char)
  {
    c == ' ' || c == '\t' || c == '\n' || c == '\r' || c == '\U{000B}' || c == '\U{000C}'
  }

  function StripLeft(s: string): (r: string)
    ensures |r| > 0 ==> !IsSpace(r[0])
  {
    if |s| > 0 && IsSpace(s[0]) then StripLeft(s[1..]) else s
  }

  function StripRight(s: string): (r: string)
    ensures |r| > 0 ==> !IsSpace(r[|r| - 1])
  {
    if |s| > 0 && IsSpace(s[|s| - 1]) then StripRight(s[..|s| - 1]) else s
  }

  /** `s.strip()` */
  function Strip(s: string): string
  {
    StripRight(StripLeft(s))
  }

  // ---------------------------------------------------------------------
  // Integers

  predicate IsDigit(c: char)
  {
    '0' <= c <= '9'
  }

  predicate AllDigits(s: string)
  {
    forall i :: 0 <= i < |s| ==> IsDigit(s[i])
  }

  function DigitChar(d: nat): char
    requires d < 10
  {
    ('0' as int + d) as char
  }

  /** Value of a run of decimal digits, most significant first. */
  function DigitsValue(s: string): nat
    requires AllDigits(s)
  {
    if |s| == 0 then 0
    else DigitsValue(s[..|s| - 1]) * 10 + (s[|s| - 1] as int - '0' as int)
  }

  /** `str(n)` for a natural number. */
  function NatToString(n: nat): (r: string)
    ensures |r| > 0 && AllDigits(r)
  {
    if n < 10 then [DigitChar(n)] else NatToString(n / 10) + [DigitChar(n % 10)]
  }

  /** `str(i)` for any integer. */
  function IntToString(i: int): (r: string)
    ensures |r| > 0
  {
    if i < 0 then "-" + NatToString(-i) else NatToString(i)
  }

  lemma {:induction false} NatToStringValue(n: nat)
    ensures DigitsValue(NatToString(n)) == n
  {
    if n >= 10 {
      NatToStringValue(n / 10);
      var s := NatToString(n);
      assert s[..|s| - 1] == NatToString(n / 10);
    }
  }

  /** Python 2 `int(s)` on a string: surrounding whitespace, an optional
      sign, whitespace again after a sign (the C `strtoul` under `int` skips
      it), then one or more decimal digits; anything else is a ValueError
      (None here). */
  function ParseInt(s: string): Option<int>
  {
    var t := Strip(s);
    if |t| > 0 && (t[0] == '-' || t[0] == '+') then
      var u := StripLeft(t[1..]);
      if |u| > 0 && AllDigits(u) then
        var mag: int := DigitsValue(u);
        var v: int := if t[0] == '-' then -mag else mag;
        Some(v)
      else None
    else if |t| > 0 && AllDigits(t) then Some(DigitsValue(t))
    else None
  }

  lemma StripNoSpace(s: string)
    requires |s| > 0 && !IsSpace(s[0]) && !IsSpace(s[|s| - 1])
    ensures Strip(s) == s
  {
    assert StripLeft(s) == s;
    assert StripRight(s) == s;
  }

  /** `int(str(i)) == i` */
  lemma IntToStringParses(i: int)
    ensures ParseInt(IntToString(i)) == Some(i)
  {
    var m: nat := if i < 0 then -i else i;
    var d := NatToString(m);
    NatToStringValue(m);
    assert IsDigit(d[|d| - 1]) && IsDigit(d[0]);
    if i < 0 {
      NegativeParses(d);
    } else {
      StripNoSpace(d);
    }
  }

  /** A minus sign before a run of digits parses as the negated value. */
  lemma NegativeParses(d: string)
    requires |d| > 0 && AllDigits(d)
    ensures ParseInt("-" + d) == Some(-(DigitsValue(d) as int))
  {
    var s := "-" + d;
    assert s[0] == '-' && s[1..] == d;
    assert s[|s| - 1] == d[|d| - 1] && IsDigit(d[|d| - 1]);
    StripNoSpace(s);
    assert IsDigit(d[0]);
    StripLeftNoSpace(d);
  }

  lemma StripLeftNoSpace(s: string)
    requires |s| > 0 && !IsSpace(s[0])
    ensures StripLeft(s) == s
  {
  }

  /** The first maximal run of digits in `s` and its value:
      `int(re.findall('\d+', s)[0])`, or None when `s` has no digit (where
      the source's `[0]` raises IndexError). */
  function FirstNumber(s: string): (r: Option<nat>)
  {
    if |s| == 0 then None
    else if IsDigit(s[0]) then Some(DigitsValue(s[..DigitRunLength(s)]))
    else FirstNumber(s[1..])
  }

  /** Length of the run of digits at the start of `s`. */
  function DigitRunLength(s: string): (k: nat)
    ensures k <= |s| && AllDigits(s[..k])
    ensures k < |s| ==> !IsDigit(s[k])
  {
    if |s| > 0 && IsDigit(s[0]) then
      var k := 1 + DigitRunLength(s[1..]);
      assert s[..k] == [s[0]] + s[1..][..k - 1];
      k
    else 0
  }

  lemma {:induction false} DigitRunOfDigits(d: string, post: string)
    requires AllDigits(d)
    requires |post| > 0 ==> !IsDigit(post[0])
    ensures DigitRunLength(d + post) == |d|
  {
    if |d| > 0 {
      assert (d + post)[1..] == d[1..] + post;
      DigitRunOfDigits(d[1..], post);
    } else {
      assert d + post == post;
    }
  }

  /** A number written between digit-free text and a non-digit is what
      FirstNumber finds. */
  lemma {:induction false} FirstNumberFinds(pre: string, n: nat, post: string)
    requires forall i :: 0 <= i < |pre| ==> !IsDigit(pre[i])
    requires |post| > 0 ==> !IsDigit(post[0])
    ensures FirstNumber(pre + NatToString(n) + post) == Some(n)
  {
    var d := NatToString(n);
    var s := pre + d + post;
    if |pre| > 0 {
      assert s[1..] == pre[1..] + d + post;
      FirstNumberFinds(pre[1..], n, post);
    } else {
      assert s == d + post;
      DigitRunOfDigits(d, post);
      assert s[..|d|] == d;
      NatToStringValue(n);
    }
  }

  /** Value of a decimal `<digits>.<digits>` (float() of the percentage
      text); a run without a point counts as a whole number. */
  function DecimalValue(s: string): (r: real)
    ensures r >= 0.0
  {
    var k := FirstIndex(s, '.');
    var whole := s[..k];
    var frac := if k < |s| then s[k + 1..] else "";
    if AllDigits(whole) && AllDigits(frac) then
      DigitsValue(whole) as real + DigitsValue(frac) as real / Pow10(|frac|) as real
    else 0.0
  }

  function Pow10(n: nat): (r: nat)
    ensures r >= 1
  {
    if n == 0 then 1 else 10 * Pow10(n - 1)
  }

  // ---------------------------------------------------------------------
  // Space escaping (secureCopy and the binary path of the render command)

  /** `s.replace(' ', '\\ ')` */
  function EscapeSpaces(s: string): (r: string)
    ensures |r| == |s| + Count(s, ' ')
  {
    if |s| == 0 then "" else (if s[0] == ' ' then "\\ " else [s[0]]) + EscapeSpaces(s[1..])
  }

  /** Each backslash-space read back as a space, the way the shell reads
      an unquoted word (inside double quotes it keeps the backslash). */
  function UnescapeSpaces(s: string): string
  {
    if |s| == 0 then ""
    else if s[0] == '\\' && |s| > 1 && s[1] == ' ' then " " + UnescapeSpaces(s[2..])
    else [s[0]] + UnescapeSpaces(s[1..])
  }

  /** Every space in an escaped string is preceded by a backslash; in
      particular the result never starts with a space. */
  lemma {:induction false} EscapedSpacesAreQuoted(s: string)
    ensures forall i :: 0 <= i < |EscapeSpaces(s)| && EscapeSpaces(s)[i] == ' ' ==>
              i > 0 && EscapeSpaces(s)[i - 1] == '\\'
  {
    if |s| > 0 {
      EscapedSpacesAreQuoted(s[1..]);
      var head := if s[0] == ' ' then "\\ " else [s[0]];
      var r := EscapeSpaces(s);
      assert r == head + EscapeSpaces(s[1..]);
      forall i | 0 <= i < |r| && r[i] == ' '
        ensures i > 0 && r[i - 1] == '\\'
      {
        if i >= |head| {
          assert r[i] == EscapeSpaces(s[1..])[i - |head|];
          if i - |head| > 0 {
            assert r[i - 1] == EscapeSpaces(s[1..])[i - |head| - 1];
          }
        }
      }
    }
  }

  /** `UnescapeSpaces` undoes `EscapeSpaces`. */
  lemma {:induction false} EscapeRoundTrip(s: string)
    ensures UnescapeSpaces(EscapeSpaces(s)) == s
  {
    if |s| > 0 {
      EscapeRoundTrip(s[1..]);
      var rest := EscapeSpaces(s[1..]);
      EscapedSpacesAreQuoted(s[1..]);
      if s[0] == ' ' {
        assert EscapeSpaces(s) == "\\ " + rest;
        assert ("\\ " + rest)[2..] == rest;
      } else {
        assert EscapeSpaces(s) == [s[0]] + rest;
        assert ([s[0]] + rest)[1..] == rest;
        assert |rest| > 0 ==> rest[0] != ' ';
      }
    }
  }

  // ---------------------------------------------------------------------
  // POSIX paths

  /** `os.path.basename(p)`: everything after the last `/`. */
  function Basename(p: string): string
  {
    p[LastIndex(p, '/') + 1..]
  }

  /** `os.path.splitext(name)[0]`: drops the extension after the last dot,
      unless that dot is preceded only by dots (a hidden file). */
  function DropExtension(name: string): (r: string)
    ensures StartsWith(name, r)
  {
    var k := LastIndex(name, '.');
    if k > 0 && exists i | 0 <= i < k :: name[i] != '.' then name[..k] else name
  }

  /** `os.path.join(a, b)` for two components. */
  function PathJoin(a: string, b: string): (r: string)
    ensures StartsWith(b, "/") ==> r == b
    ensures !StartsWith(b, "/") ==> r == a + b || r == a + "/" + b
  {
    if StartsWith(b, "/") then b
    else if a == "" || a[|a| - 1] == '/' then a + b
    else a + "/" + b
  }

  /** `s.rstrip(c)`: `s` without its trailing run of `c`. */
  function TrimRight(s: string, c: char): (r: string)
    ensures StartsWith(s, r)
    ensures r == "" || r[|r| - 1] != c
    ensures forall k :: |r| <= k < |s| ==> s[k] == c
  {
    if s != "" && s[|s| - 1] == c then TrimRight(s[..|s| - 1], c) else s
  }

  /** `os.path.expanduser(path)` with `home` as the user's home directory:
      a leading `~` alone or before a `/` is replaced by the home directory
      without its trailing slashes, and an empty result becomes `/`. */
  function ExpandUser(path: string, home: string): (r: string)
    ensures !StartsWith(path, "~") ==> r == path
    ensures path != "" ==> r != ""
  {
    if !StartsWith(path, "~") then path
    else if |path| > 1 && path[1] != '/' then path
    else
      var e := TrimRight(home, '/') + path[1..];
      if e == "" then "/" else e
  }

  /** Expanding twice is expanding once, for a home directory that does
      not itself start with `~`. */
  lemma ExpandUserIdempotent(path: string, home: string)
    requires !StartsWith(home, "~")
    ensures ExpandUser(ExpandUser(path, home), home) == ExpandUser(path, home)
  {
    var r := ExpandUser(path, home);
    if StartsWith(path, "~") && !(|path| > 1 && path[1] != '/') {
      var h := TrimRight(home, '/');
      if h != "" {
        assert h[0] == home[0];
        assert r[0] == h[0];
      } else if |path| > 1 {
        assert r[0] == path[1];
      }
    }
  }

  datatype Option<+T> = None | Some(value: T)
}
