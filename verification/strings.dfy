/** The JavaScript string primitives the core relies on: `parseInt(s, 10)`,
    `split` on one separator character, `trim`, integer `toString` and
    `padStart`. Strings are sequences of Unicode scalar values; whitespace is
    JavaScript's white-space and line-terminator set, the characters `trim`
    removes and `parseInt` skips. */
module Strings {
  import opened Wrappers
  import opened Seqs

  predicate IsDigit(c: char)
  {
    '0' <= c <= '9'
  }

  predicate IsDigits(s: string)
  {
    forall i :: 0 <= i < |s| ==> IsDigit(s[i])
  }

  /** Tab, line feed, vertical tab, form feed, carriage return, space, the
      no-break space, the byte order mark, the line and paragraph
      separators, and the other space separators of Unicode. */
  predicate IsSpace(c: char)
  {
    || c == '\t' || c == '\n' || c == '\U{000B}' || c == '\U{000C}' || c == '\r' || c == ' '
    || c == '\U{00A0}' || c == '\U{FEFF}' || c == '\U{1680}'
    || ('\U{2000}' <= c <= '\U{200A}')
    || c == '\U{2028}' || c == '\U{2029}' || c == '\U{202F}' || c == '\U{205F}' || c == '\U{3000}'
  }

  function DigitValue(c: char): nat
    requires IsDigit(c)
  {
    c as int - '0' as int
  }

  function DigitChar(d: nat): (c: char)
    requires d < 10
    ensures IsDigit(c) && DigitValue(c) == d
  {
    ('0' as int + d) as char
  }

  /** The value of a string of decimal digits, most significant first. */
  function DigitsValue(s: string): nat
    requires IsDigits(s)
  {
    if |s| == 0 then 0 else DigitsValue(s[..|s| - 1]) * 10 + DigitValue(s[|s| - 1])
  }

  /** `Number.prototype.toString()` on a non-negative integer. */
  function NatToString(n: nat): (s: string)
    ensures |s| > 0 && IsDigits(s)
    ensures DigitsValue(s) == n
    ensures n < 10 ==> |s| == 1
    ensures 10 <= n < 100 ==> |s| == 2
    ensures 1000 <= n < 10000 ==> |s| == 4
  {
    if n < 10 then [DigitChar(n)]
    else
      var s := NatToString(n / 10) + [DigitChar(n % 10)];
      assert s[..|s| - 1] == NatToString(n / 10);
      s
  }

  /** `Number.prototype.toString()` on an integer. */
  function IntToString(n: int): (s: string)
    ensures |s| > 0
    ensures n >= 0 ==> IsDigits(s) && DigitsValue(s) == n
    ensures n < 0 ==> s[0] == '-' && IsDigits(s[1..]) && DigitsValue(s[1..]) == -n
  {
    if n < 0 then "-" + NatToString(-n) else NatToString(n)
  }

  function Repeat(c: char, n: nat): (s: string)
    ensures |s| == n && forall i :: 0 <= i < n ==> s[i] == c
  {
    if n == 0 then [] else [c] + Repeat(c, n - 1)
  }

  /** `s.padStart(len, c)`. */
  function PadStart(s: string, len: nat, c: char): (r: string)
    ensures |r| == if |s| >= len then |s| else len
    ensures r[|r| - |s|..] == s
    ensures forall i :: 0 <= i < |r| - |s| ==> r[i] == c
  {
    if |s| >= len then s else Repeat(c, len - |s|) + s
  }

  function Pow10(w: nat): (p: nat)
    ensures p >= 1
  {
    if w == 0 then 1 else 10 * Pow10(w - 1)
  }

  lemma {:induction false} NatToStringLength(n: nat, w: nat)
    requires 0 < w && n < Pow10(w)
    ensures |NatToString(n)| <= w
  {
    if n >= 10 {
      NatToStringLength(n / 10, w - 1);
      assert NatToString(n) == NatToString(n / 10) + [DigitChar(n % 10)];
    }
  }

  /** Leading zeros do not change the value of a digit string. */
  lemma {:induction false} LeadingZeros(k: nat, s: string)
    requires IsDigits(s)
    ensures IsDigits(Repeat('0', k) + s)
    ensures DigitsValue(Repeat('0', k) + s) == DigitsValue(s)
  {
    var t := Repeat('0', k) + s;
    if |s| == 0 {
      assert t == Repeat('0', k);
      if k > 0 {
        assert t[..|t| - 1] == Repeat('0', k - 1) + s;
        LeadingZeros(k - 1, s);
      }
    } else {
      assert t[..|t| - 1] == Repeat('0', k) + s[..|s| - 1];
      LeadingZeros(k, s[..|s| - 1]);
    }
  }

  /** `String(n).padStart(w, "0")` renders a number below `10^w` in exactly
      `w` digits that read back as `n`. */
  lemma PadDigits(n: nat, w: nat)
    requires 0 < w && n < Pow10(w)
    ensures var r := PadStart(NatToString(n), w, '0');
      |r| == w && IsDigits(r) && DigitsValue(r) == n
  {
    NatToStringLength(n, w);
    var s := NatToString(n);
    LeadingZeros(w - |s|, s);
  }

  /** `s.slice(i, j)` for non-negative indices: both ends are clamped to the
      string and an inverted range is empty. */
  function Slice(s: string, i: nat, j: nat): (r: string)
    ensures i <= j <= |s| ==> r == s[i..j]
    ensures |r| <= |s|
  {
    var a := if i <= |s| then i else |s|;
    var b := if j <= |s| then j else |s|;
    if a <= b then s[a..b] else []
  }

  function TrimStart(s: string): (r: string)
    ensures |r| <= |s| && r == s[|s| - |r|..]
    ensures |r| > 0 ==> !IsSpace(r[0])
  {
    if |s| > 0 && IsSpace(s[0]) then TrimStart(s[1..]) else s
  }

  function TrimEnd(s: string): (r: string)
    ensures |r| <= |s| && r == s[..|r|]
    ensures |r| > 0 ==> !IsSpace(r[|r| - 1])
  {
    if |s| > 0 && IsSpace(s[|s| - 1]) then TrimEnd(s[..|s| - 1]) else s
  }

  /** `String.prototype.trim`. */
  function Trim(s: string): string
  {
    TrimEnd(TrimStart(s))
  }

  /** A byte order mark in front of a field is trimmed away, as `trim`
      does. */
  lemma TrimByteOrderMark(s: string)
    requires |s| > 0 && !IsSpace(s[0]) && !IsSpace(s[|s| - 1])
    ensures Trim(['\U{FEFF}'] + s) == s
  {
    var t := ['\U{FEFF}'] + s;
    assert t[1..] == s;
    assert TrimStart(t) == TrimStart(s) == s;
    assert TrimEnd(s) == s;
  }

  /** The longest prefix of `s` made of decimal digits. */
  function DigitPrefix(s: string): (r: string)
    ensures IsDigits(r) && |r| <= |s| && r == s[..|r|]
    ensures |r| < |s| ==> !IsDigit(s[|r|])
  {
    if |s| > 0 && IsDigit(s[0]) then [s[0]] + DigitPrefix(s[1..]) else []
  }

  /** `parseInt(s, 10)`: skip leading white space, read an optional sign and
      then the longest run of digits; `None` stands for `NaN`, the result
      when no digit follows. */
  function ParseInt(s: string): Option<int>
  {
    var t := TrimStart(s);
    var signed := |t| > 0 && (t[0] == '-' || t[0] == '+');
    var digits := DigitPrefix(if signed then t[1..] else t);
    var magnitude: int := DigitsValue(digits);
    if |digits| == 0 then None
    else if signed && t[0] == '-' then Some(-magnitude)
    else Some(magnitude)
  }

  lemma DigitPrefixOfDigits(s: string)
    requires IsDigits(s)
    ensures DigitPrefix(s) == s
  {
    if |s| > 0 {
      DigitPrefixOfDigits(s[1..]);
    }
  }

  /** A non-empty digit string parses to its decimal value. */
  lemma {:induction false} ParseIntOfDigits(s: string)
    requires |s| > 0 && IsDigits(s)
    ensures ParseInt(s) == Some(DigitsValue(s))
  {
    assert TrimStart(s) == s;
    DigitPrefixOfDigits(s);
  }

  /** `s.split(sep)`: the maximal separator-free pieces, at least one. */
  function Split(s: string, sep: char): (pieces: seq<string>)
    ensures |pieces| > 0
    ensures forall k :: 0 <= k < |pieces| ==> sep !in pieces[k]
  {
    if |s| == 0 then [""]
    else
      var rest := Split(s[1..], sep);
      if s[0] == sep then [""] + rest
      else [[s[0]] + rest[0]] + rest[1..]
  }

  /** `pieces.join(sep)`. */
  function Join(pieces: seq<string>, sep: char): string
    requires |pieces| > 0
  {
    if |pieces| == 1 then pieces[0] else pieces[0] + [sep] + Join(pieces[1..], sep)
  }

  /** Splitting loses nothing: joining the pieces restores the string. */
  lemma {:induction false} JoinSplit(s: string, sep: char)
    ensures Join(Split(s, sep), sep) == s
  {
    if |s| > 0 {
      var rest := Split(s[1..], sep);
      JoinSplit(s[1..], sep);
      if s[0] == sep {
        assert ([""] + rest)[1..] == rest;
      } else {
        var pieces := [[s[0]] + rest[0]] + rest[1..];
        if |rest| > 1 {
          assert pieces[1..] == rest[1..];
        }
      }
    }
  }

  /** Splitting a separator-free text yields that text alone. */
  lemma {:induction false} SplitNoSeparator(s: string, sep: char)
    requires sep !in s
    ensures Split(s, sep) == [s]
  {
    if |s| > 0 {
      assert sep !in s[1..] by {
        forall k | 0 <= k < |s| - 1 ensures s[1..][k] != sep {
          assert s[1..][k] == s[k + 1];
        }
      }
      SplitNoSeparator(s[1..], sep);
      assert s[0] != sep;
      assert [s[0]] + s[1..] == s;
    }
  }

  /** Splitting `a + [sep] + b` where `a` is separator-free. */
  lemma {:induction false} SplitAfter(a: string, sep: char, b: string)
    requires sep !in a
    ensures Split(a + [sep] + b, sep) == [a] + Split(b, sep)
  {
    if |a| == 0 {
      assert a + [sep] + b == [sep] + b;
      assert ([sep] + b)[1..] == b;
    } else {
      assert (a + [sep] + b)[1..] == a[1..] + [sep] + b;
      assert sep !in a[1..] by {
        forall k | 0 <= k < |a| - 1 ensures a[1..][k] != sep {
          assert a[1..][k] == a[k + 1];
        }
      }
      SplitAfter(a[1..], sep, b);
      assert [a[0]] + a[1..] == a;
    }
  }

  /** Each separator adds one piece. */
  lemma {:induction false} SplitCount(a: string, sep: char, b: string)
    ensures |Split(a + [sep] + b, sep)| == |Split(a, sep)| + |Split(b, sep)|
  {
    if |a| == 0 {
      assert a + [sep] + b == [sep] + b;
      assert ([sep] + b)[1..] == b;
    } else {
      assert (a + [sep] + b)[1..] == a[1..] + [sep] + b;
      SplitCount(a[1..], sep, b);
    }
  }

  /** Joining separator-free pieces and splitting again gives the pieces
      back. */
  lemma {:induction false} SplitJoin(pieces: seq<string>, sep: char)
    requires |pieces| > 0 && forall k :: 0 <= k < |pieces| ==> sep !in pieces[k]
    ensures Split(Join(pieces, sep), sep) == pieces
  {
    if |pieces| == 1 {
      SplitNoSeparator(pieces[0], sep);
    } else {
      SplitJoin(pieces[1..], sep);
      SplitAfter(pieces[0], sep, Join(pieces[1..], sep));
      assert [pieces[0]] + pieces[1..] == pieces;
    }
  }
}
