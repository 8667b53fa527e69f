/**
 * The few pieces of Python 2 string behaviour the tool relies on:
 * `str.split` and `str.join` with a one-character separator, `str.strip`,
 * `str.lower`, `int()` applied to a string, and `'%d' % n`.
 */
module PyText {
  import opened Wrappers

  // ---------------------------------------------------------------- split / join

  /** `s.split(sep)`: every occurrence of `sep` closes a part, so `n` separators
      give `n + 1` parts, empty parts included (`"".split('.') == [""]`). */
  function Split(s: string, sep: char): (parts: seq<string>)
    ensures |parts| >= 1
    decreases |s|
  {
    if s == [] then [""]
    else if s[0] == sep then [""] + Split(s[1..], sep)
    else
      var rest := Split(s[1..], sep);
      [[s[0]] + rest[0]] + rest[1..]
  }

  /** `sep.join(parts)` */
  function Join(parts: seq<string>, sep: char): string
    decreases |parts|
  {
    if parts == [] then ""
    else if |parts| == 1 then parts[0]
    else parts[0] + [sep] + Join(parts[1..], sep)
  }

  /** Joining the parts of a split gives back the original string. */
  lemma {:induction false} JoinOfSplit(s: string, sep: char)
    ensures Join(Split(s, sep), sep) == s
    decreases |s|
  {
    if s == [] {
    } else if s[0] == sep {
      var rest := Split(s[1..], sep);
      JoinOfSplit(s[1..], sep);
      assert ([""] + rest)[1..] == rest;
      assert [sep] + s[1..] == s;
    } else {
      var rest := Split(s[1..], sep);
      JoinOfSplit(s[1..], sep);
      var parts := [[s[0]] + rest[0]] + rest[1..];
      if |rest| == 1 {
        assert [s[0]] + s[1..] == s;
      } else {
        assert parts[1..] == rest[1..];
        assert Join(rest, sep) == rest[0] + [sep] + Join(rest[1..], sep);
        assert [s[0]] + s[1..] == s;
      }
    }
  }

  /** A split has one part more than there are separators in the string. */
  lemma {:induction false} SplitCount(s: string, sep: char)
    ensures |Split(s, sep)| == multiset(s)[sep] + 1
    decreases |s|
  {
    if s != [] {
      SplitCount(s[1..], sep);
      assert s == [s[0]] + s[1..];
      assert multiset(s) == multiset{s[0]} + multiset(s[1..]);
    }
  }

  /** A string without the separator is a single part. */
  lemma {:induction false} SplitWithoutSep(s: string, sep: char)
    requires sep !in s
    ensures Split(s, sep) == [s]
    decreases |s|
  {
    if s != [] {
      SplitWithoutSep(s[1..], sep);
      assert [s[0]] + s[1..] == s;
    }
  }

  /** Splitting at the first separator. */
  lemma {:induction false} SplitAtFirst(a: string, b: string, sep: char)
    requires sep !in a
    ensures Split(a + [sep] + b, sep) == [a] + Split(b, sep)
    decreases |a|
  {
    var s := a + [sep] + b;
    if a == [] {
      assert s[1..] == b;
    } else {
      assert s[1..] == a[1..] + [sep] + b;
      SplitAtFirst(a[1..], b, sep);
      assert [a[0]] + a[1..] == a;
    }
  }

  /** Splitting at a separator in the middle splits the two sides apart. */
  lemma {:induction false} SplitAppend(x: string, y: string, sep: char)
    ensures Split(x + [sep] + y, sep) == Split(x, sep) + Split(y, sep)
    decreases |x|
  {
    var s := x + [sep] + y;
    if x == [] {
      assert s[1..] == y;
    } else {
      assert s[1..] == x[1..] + [sep] + y;
      SplitAppend(x[1..], y, sep);
    }
  }

  /** Appending separator-free text extends the last part and nothing else. */
  lemma {:induction false} SplitExtend(x: string, p: string, sep: char)
    requires sep !in p
    ensures var px := Split(x, sep);
      Split(x + p, sep) == px[..|px| - 1] + [px[|px| - 1] + p]
    decreases |x|
  {
    if x == [] {
      assert x + p == p;
      SplitWithoutSep(p, sep);
    } else {
      assert (x + p)[1..] == x[1..] + p;
      SplitExtend(x[1..], p, sep);
      var qx := Split(x[1..], sep);
      var n := |qx|;
      var px := Split(x, sep);
      var r := Split(x[1..] + p, sep);
      if x[0] == sep {
        assert px == [""] + qx;
        assert px[..|px| - 1] == [""] + qx[..n - 1];
      } else if n == 1 {
        assert r == [qx[0] + p];
        assert px == [[x[0]] + qx[0]];
        assert Split(x + p, sep) == [[x[0]] + (qx[0] + p)];
        assert [x[0]] + (qx[0] + p) == px[0] + p;
      } else {
        assert r[0] == qx[0];
        assert r[1..] == qx[1..n - 1] + [qx[n - 1] + p];
        assert px == [[x[0]] + qx[0]] + qx[1..];
        assert px[..|px| - 1] == [[x[0]] + qx[0]] + qx[1..n - 1];
        assert px[|px| - 1] == qx[n - 1];
        assert Split(x + p, sep) == [[x[0]] + r[0]] + r[1..];
      }
    }
  }

  /** A separator-free line closed by the separator extends the last part and
      opens a new, empty one. */
  lemma SplitAddLine(x: string, p: string, sep: char)
    requires sep !in p
    ensures var px := Split(x, sep);
      Split(x + p + [sep], sep) == px[..|px| - 1] + [px[|px| - 1] + p, ""]
  {
    assert x + p + [sep] == (x + p) + [sep] + "";
    SplitAppend(x + p, "", sep);
    SplitExtend(x, p, sep);
  }

  /** After text that ends in a separator, a separator-free line of three
      pieces closed by the separator adds one part. */
  lemma SplitNextLine(x: string, done: seq<string>, a: string, b: string, c: string, sep: char)
    requires Split(x, sep) == done + [""]
    requires sep !in a && sep !in b && sep !in c
    ensures Split(x + a + b + c + [sep], sep) == done + [a + b + c, ""]
  {
    var px := Split(x, sep);
    assert x + a + b + c + [sep] == x + (a + b + c) + [sep];
    SplitAddLine(x, a + b + c, sep);
    assert px[..|px| - 1] == done;
    assert px[|px| - 1] + (a + b + c) == a + b + c;
  }

  /** Splitting a join of separator-free parts gives back the parts. */
  lemma {:induction false} SplitOfJoin(parts: seq<string>, sep: char)
    requires |parts| >= 1
    requires forall k :: 0 <= k < |parts| ==> sep !in parts[k]
    ensures Split(Join(parts, sep), sep) == parts
    decreases |parts|
  {
    if |parts| == 1 {
      SplitWithoutSep(parts[0], sep);
    } else {
      SplitOfJoin(parts[1..], sep);
      SplitAtFirst(parts[0], Join(parts[1..], sep), sep);
      assert [parts[0]] + parts[1..] == parts;
    }
  }

  // ---------------------------------------------------------------- whitespace

  /** The characters Python 2's `str.strip()` and `int()` treat as whitespace. */
  predicate IsSpace(c: char)
  {
    c == ' ' || c == '\t' || c == '\n' || c == '\r' || c == '\U{0B}' || c == '\U{0C}'
  }

  /** `s.lstrip()` */
  function StripLeading(s: string): (r: string)
    ensures |r| <= |s|
    decreases |s|
  {
    if s != [] && IsSpace(s[0]) then StripLeading(s[1..]) else s
  }

  /** `s.lstrip()` removes the leading whitespace and nothing else. */
  lemma {:induction false} StripLeadingRemovesSpace(s: string)
    ensures var r := StripLeading(s);
      && r == s[|s| - |r|..]
      && (r == [] || !IsSpace(r[0]))
      && forall i :: 0 <= i < |s| - |r| ==> IsSpace(s[i])
    decreases |s|
  {
    if s != [] && IsSpace(s[0]) {
      StripLeadingRemovesSpace(s[1..]);
    }
  }

  /** `s.rstrip()` */
  function StripTrailing(s: string): (r: string)
    ensures |r| <= |s|
    decreases |s|
  {
    if s != [] && IsSpace(s[|s| - 1]) then StripTrailing(s[..|s| - 1]) else s
  }

  /** `s.rstrip()` removes the trailing whitespace and nothing else. */
  lemma {:induction false} StripTrailingRemovesSpace(s: string)
    ensures var r := StripTrailing(s);
      && r == s[..|r|]
      && (r == [] || !IsSpace(r[|r| - 1]))
      && forall i :: |r| <= i < |s| ==> IsSpace(s[i])
    decreases |s|
  {
    if s != [] && IsSpace(s[|s| - 1]) {
      StripTrailingRemovesSpace(s[..|s| - 1]);
    }
  }

  /** `s.strip()` */
  function Strip(s: string): string
  {
    StripTrailing(StripLeading(s))
  }

  /** A string that neither starts nor ends with whitespace is its own strip. */
  lemma StripUnchanged(s: string)
    requires s != [] && !IsSpace(s[0]) && !IsSpace(s[|s| - 1])
    ensures Strip(s) == s
  {
    assert StripLeading(s) == s;
    assert StripTrailing(s) == s;
  }

  // ---------------------------------------------------------------- case

  /** `str.lower()` on one character (ASCII letters only, as for a byte string). */
  function LowerChar(c: char): char
  {
    if 'A' <= c <= 'Z' then (c as int + 32) as char else c
  }

  /** `s.lower()` */
  function Lower(s: string): (r: string)
    ensures |r| == |s|
    decreases |s|
  {
    if s == [] then [] else [LowerChar(s[0])] + Lower(s[1..])
  }

  /** `s.lower()` lowers each character in place. */
  lemma {:induction false} LowerAt(s: string)
    ensures forall i :: 0 <= i < |s| ==> Lower(s)[i] == LowerChar(s[i])
    decreases |s|
  {
    if s != [] {
      LowerAt(s[1..]);
    }
  }

  /** Equal up to the case of ASCII letters. */
  predicate EqualsIgnoreCase(a: string, b: string)
  {
    |a| == |b| && forall i :: 0 <= i < |a| ==> LowerChar(a[i]) == LowerChar(b[i])
  }

  /** `s.startswith(p)` */
  predicate StartsWith(s: string, p: string)
  {
    |p| <= |s| && s[..|p|] == p
  }

  // ---------------------------------------------------------------- integers

  predicate IsDigit(c: char)
  {
    '0' <= c <= '9'
  }

  predicate AllDigits(s: string)
  {
    forall i :: 0 <= i < |s| ==> IsDigit(s[i])
  }

  /** The characters a string accepted by `int()` is made of. */
  predicate IsIntChar(c: char)
  {
    IsSpace(c) || IsDigit(c) || c == '+' || c == '-'
  }

  function DigitValue(c: char): nat
    requires IsDigit(c)
  {
    c as int - '0' as int
  }

  function DigitChar(d: nat): (c: char)
    requires d < 10
    ensures IsDigit(c) && DigitValue(c) == d
  {
    ('0' as int + d) as char
  }

  /** The number a string of decimal digits denotes, most significant first. */
  function DigitsValue(s: string): nat
    requires AllDigits(s)
    decreases |s|
  {
    if s == [] then 0 else 10 * DigitsValue(s[..|s| - 1]) + DigitValue(s[|s| - 1])
  }

  /** One or more decimal digits, or nothing. */
  function ParseDigits(s: string): Option<nat>
  {
    if s != [] && AllDigits(s) then Some(DigitsValue(s)) else None
  }

  /** Python's `int(s)` on a string: surrounding whitespace, an optional sign and
      at least one decimal digit. `None` stands for the `ValueError` it raises. */
  function ParseInt(s: string): Option<int>
  {
    var t := Strip(s);
    if t != [] && (t[0] == '-' || t[0] == '+') then
      match ParseDigits(t[1..])
      case None => None
      case Some(n) => Some(if t[0] == '-' then -(n as int) else n as int)
    else
      match ParseDigits(t)
      case None => None
      case Some(n) => Some(n as int)
  }

  /** Whatever `int()` accepts is made of whitespace, signs and digits, with at
      least one digit. */
  lemma ParseIntAlphabet(s: string)
    requires ParseInt(s).Some?
    ensures forall i :: 0 <= i < |s| ==> IsIntChar(s[i])
    ensures exists i :: 0 <= i < |s| && IsDigit(s[i])
  {
    var t := Strip(s);
    var lead := StripCover(s);
    var signed := t[0] == '-' || t[0] == '+';
    var body := if signed then t[1..] else t;
    assert AllDigits(body) && body != [];
    assert forall i :: (if signed then 1 else 0) <= i < |t| ==> IsDigit(t[i]) by {
      if signed {
        assert forall i :: 1 <= i < |t| ==> t[i] == body[i - 1];
      }
    }
    forall i | 0 <= i < |s|
      ensures IsIntChar(s[i])
    {
      if lead <= i < lead + |t| {
        assert s[i] == t[i - lead];
      }
    }
    assert IsDigit(s[lead + |t| - 1]) by {
      assert s[lead + |t| - 1] == t[|t| - 1];
    }
  }

  /** `s.strip()` removes whitespace only, from the two ends. */
  lemma StripCover(s: string) returns (lead: nat)
    ensures lead + |Strip(s)| <= |s|
    ensures forall i :: 0 <= i < |Strip(s)| ==> s[lead + i] == Strip(s)[i]
    ensures forall i :: 0 <= i < |s| && !(lead <= i < lead + |Strip(s)|) ==> IsSpace(s[i])
  {
    var l := StripLeading(s);
    lead := |s| - |l|;
    var t := StripTrailing(l);
    StripLeadingRemovesSpace(s);
    StripTrailingRemovesSpace(l);
    assert forall i :: 0 <= i < |l| ==> s[lead + i] == l[i];
    assert forall i :: 0 <= i < |t| ==> l[i] == t[i];
    forall i | lead + |t| <= i < |s|
      ensures IsSpace(s[i])
    {
      assert s[i] == l[i - lead];
    }
  }

  /** The decimal digits of a natural number, without leading zeros. */
  function NatDigits(n: nat): (r: string)
    ensures r != [] && AllDigits(r)
    decreases n
  {
    if n < 10 then [DigitChar(n)] else NatDigits(n / 10) + [DigitChar(n % 10)]
  }

  /** The digits of `n` denote `n`. */
  lemma {:induction false} NatDigitsValue(n: nat)
    ensures DigitsValue(NatDigits(n)) == n
    decreases n
  {
    if n >= 10 {
      NatDigitsValue(n / 10);
      var r := NatDigits(n);
      assert r[..|r| - 1] == NatDigits(n / 10);
    }
  }

  /** `'%d' % n` (and `str(n)`): a minus sign for negatives, then the digits. */
  function FormatInt(n: int): string
  {
    if n < 0 then "-" + NatDigits(-n) else NatDigits(n)
  }

  /** `'%d' % n` is digits, after a minus sign for a negative number. */
  lemma FormatIntChars(n: int)
    ensures FormatInt(n) != [] && IsDigit(FormatInt(n)[|FormatInt(n)| - 1])
    ensures forall i :: 0 <= i < |FormatInt(n)| ==> IsDigit(FormatInt(n)[i]) || (i == 0 && n < 0 && FormatInt(n)[i] == '-')
  {
  }

  /** `int('%d' % n) == n`: formatting an integer and parsing it back is the identity. */
  lemma ParseFormatInt(n: int)
    ensures ParseInt(FormatInt(n)) == Some(n)
  {
    var s := FormatInt(n);
    FormatIntChars(n);
    StripUnchanged(s);
    NatDigitsValue(if n < 0 then -n else n);
    if n < 0 {
      assert s[1..] == NatDigits(-n);
    }
  }
}
